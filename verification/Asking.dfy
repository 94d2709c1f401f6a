/** Everything one pair of resolver and server does, up to a second that its certificates bear out. */
module Asking {
  import opened Bytes
  import opened Wire
  import opened Quorum
  import opened Verify
  import opened Deferred

  datatype Family = A | AAAA

  /** Whom the key server sends the client to for the time: itself, at an address, or at a host. */
  datatype Target = Itself | At(address: Address) | Host(name: Name)

  /** What key establishment agrees on: where to ask, the cookies to spend, and a key for each direction. */
  datatype Session = Session(target: Target, port: nat, cookies: seq<seq<byte>>, c2s: seq<byte>, s2c: seq<byte>)

  datatype Answered<T> = Answered(value: T, chain: Chain)

  /** What the network does during one exchange: an answer to each lookup, each key establishment in
      the order tried, and the one request for the time. `None` is a failure of any kind. */
  datatype Network = Network(
    queryId: nat,
    lookup: (Address, Name, Family, nat) -> Option<Answered<seq<Address>>>,
    establish: (nat, Address) -> Option<Answered<Session>>,
    time: (Session, Address) -> Option<int>)

  datatype PairFault = Unresolved | NoKeys | RedirectUnresolved | NoTime | BelowFloor | Refused(Rejection)

  // ---------------------------------------------------------------- names

  /** The first of the resolver's addresses that answers. */
  function FirstLookup(net: Network, at: seq<Address>, name: Name, family: Family, id: nat): Option<Answered<seq<Address>>> {
    if at == [] then None
    else
      var r := net.lookup(at[0], name, family, id);
      if r.Some? then r else FirstLookup(net, at[1..], name, family, id)
  }

  function LookupId(id: nat, family: Family): nat {
    if family.A? then id else (id + 1) % 0x1_0000
  }

  function AddressesOf(r: Option<Answered<seq<Address>>>): seq<Address> {
    if r.Some? then r.value.value else []
  }

  function LegOf<T>(r: Option<Answered<T>>, leg: string, host: Name): seq<Pending> {
    if r.Some? then [Pending(leg, r.value.chain, host)] else []
  }

  function Lookup(net: Network, at: seq<Address>, name: Name, family: Family, id: nat): Option<Answered<seq<Address>>> {
    FirstLookup(net, at, name, family, LookupId(id, family))
  }

  /** Both families, either of which may yield nothing. */
  function Found(net: Network, at: seq<Address>, name: Name, id: nat): seq<Address> {
    AddressesOf(Lookup(net, at, name, A, id)) + AddressesOf(Lookup(net, at, name, AAAA, id))
  }

  function LookupLegs(net: Network, at: seq<Address>, host: Name, name: Name, id: nat): seq<Pending> {
    LegOf(Lookup(net, at, name, A, id), "DoH", host) + LegOf(Lookup(net, at, name, AAAA, id), "DoH", host)
  }

  method ResolveOne(net: Network, gathered: Gathered, at: seq<Address>, host: Name, name: Name, family: Family, id: nat)
    returns (found: seq<Address>)
    modifies gathered
    ensures found == AddressesOf(FirstLookup(net, at, name, family, id))
    ensures gathered.pending == old(gathered.pending) + LegOf(FirstLookup(net, at, name, family, id), "DoH", host)
  {
    for i := 0 to |at|
      invariant gathered.pending == old(gathered.pending)
      invariant FirstLookup(net, at, name, family, id) == FirstLookup(net, at[i..], name, family, id)
    {
      assert at[i..][0] == at[i] && at[i..][1..] == at[i + 1..];
      var r := net.lookup(at[i], name, family, id);
      if r.Some? {
        gathered.Record("DoH", r.value.chain, host);
        return r.value.value;
      }
    }
    return [];
  }

  method Resolve(net: Network, gathered: Gathered, at: seq<Address>, host: Name, name: Name, id: nat)
    returns (found: seq<Address>)
    modifies gathered
    ensures found == Found(net, at, name, id)
    ensures gathered.pending == old(gathered.pending) + LookupLegs(net, at, host, name, id)
  {
    var four := ResolveOne(net, gathered, at, host, name, A, LookupId(id, A));
    var six := ResolveOne(net, gathered, at, host, name, AAAA, LookupId(id, AAAA));
    found := four + six;
  }

  // ---------------------------------------------------------------- keys

  datatype Keyed = Keyed(session: Session, address: Address, chain: Chain)

  /** The first candidate address with which keys can be established, `tried` having failed. */
  function FirstKeys(net: Network, candidates: seq<Address>, tried: nat): Option<Keyed> {
    if candidates == [] then None
    else
      var r := net.establish(tried, candidates[0]);
      if r.Some? then Some(Keyed(r.value.value, candidates[0], r.value.chain))
      else FirstKeys(net, candidates[1..], tried + 1)
  }

  method EstablishFirst(net: Network, gathered: Gathered, candidates: seq<Address>, host: Name) returns (r: Option<Keyed>)
    modifies gathered
    ensures r == FirstKeys(net, candidates, 0)
    ensures gathered.pending
         == old(gathered.pending) + (if r.Some? then [Pending("NTS-KE", r.value.chain, host)] else [])
  {
    for i := 0 to |candidates|
      invariant gathered.pending == old(gathered.pending)
      invariant FirstKeys(net, candidates, 0) == FirstKeys(net, candidates[i..], i)
    {
      assert candidates[i..][0] == candidates[i] && candidates[i..][1..] == candidates[i + 1..];
      var e := net.establish(i, candidates[i]);
      if e.Some? {
        gathered.Record("NTS-KE", e.value.chain, host);
        return Some(Keyed(e.value.value, candidates[i], e.value.chain));
      }
    }
    return None;
  }

  // ---------------------------------------------------------------- where to ask

  function FirstLike(candidates: seq<Address>, like: Address): Option<Address> {
    if candidates == [] then None
    else if candidates[0].V4? == like.V4? then Some(candidates[0])
    else FirstLike(candidates[1..], like)
  }

  /** Of a redirect's addresses, the first of the family that keys were established over, or the first. */
  function MatchFamily(candidates: seq<Address>, like: Address): (r: Address)
    requires candidates != []
  {
    match FirstLike(candidates, like)
    case Some(a) => a
    case None => candidates[0]
  }

  lemma {:induction false} FirstLikeIs(candidates: seq<Address>, like: Address)
    ensures FirstLike(candidates, like).Some? <==> exists a <- candidates :: a.V4? == like.V4?
    ensures FirstLike(candidates, like).Some? ==>
              FirstLike(candidates, like).value in candidates && FirstLike(candidates, like).value.V4? == like.V4?
  {
    if candidates != [] {
      FirstLikeIs(candidates[1..], like);
      assert forall a <- candidates :: a == candidates[0] || a in candidates[1..];
      assert candidates[0] in candidates && forall a <- candidates[1..] :: a in candidates;
    }
  }

  /** The address asked is one the redirect resolved to, of the reachable family whenever there is one. */
  lemma {:induction false} FamilyIsMatched(candidates: seq<Address>, like: Address)
    requires candidates != []
    ensures MatchFamily(candidates, like) in candidates
    ensures MatchFamily(candidates, like).V4? == like.V4? <==> exists a <- candidates :: a.V4? == like.V4?
  {
    FirstLikeIs(candidates, like);
    assert candidates[0] in candidates;
  }

  // ---------------------------------------------------------------- the whole exchange

  /** The identifier of the redirect's first lookup is clear of the first pair of identifiers. */
  function SecondId(net: Network): nat {
    (net.queryId + 2) % 0x1_0000
  }

  function RedirectFound(net: Network, at: seq<Address>, target: Target): seq<Address> {
    if target.Host? then Found(net, at, target.name, SecondId(net)) else []
  }

  function RedirectLegs(net: Network, at: seq<Address>, host: Name, target: Target): seq<Pending> {
    if target.Host? then LookupLegs(net, at, host, target.name, SecondId(net)) else []
  }

  /** The address a target comes to, if it can be found. */
  function TimeAddress(target: Target, found: seq<Address>, fallback: Address): Option<Address> {
    match target
    case Itself => Some(fallback)
    case At(address) => Some(address)
    case Host(_) => if found == [] then None else Some(MatchFamily(found, fallback))
  }

  /** How far an exchange gets before anything is judged. */
  datatype Claim = Claim(seconds: int, legs: seq<Pending>)

  function ClaimAfterKeys(net: Network, at: seq<Address>, resolver: Name, server: Name, legs: seq<Pending>, keyed: Keyed)
    : Result<Claim, PairFault>
  {
    var target := keyed.session.target;
    match TimeAddress(target, RedirectFound(net, at, target), keyed.address)
    case None => Err(RedirectUnresolved)
    case Some(address) =>
      match net.time(keyed.session, address)
      case None => Err(NoTime)
      case Some(t) => Ok(Claim(t, legs + [Pending("NTS-KE", keyed.chain, server)] + RedirectLegs(net, at, resolver, target)))
  }

  /** The time one pair claims, and every chain it was reached through. */
  function Claimed(net: Network, at: seq<Address>, resolver: Name, server: Name): Result<Claim, PairFault> {
    var found := Found(net, at, server, net.queryId);
    if found == [] then Err(Unresolved)
    else
      match FirstKeys(net, found, 0)
      case None => Err(NoKeys)
      case Some(keyed) =>
        ClaimAfterKeys(net, at, resolver, server, LookupLegs(net, at, resolver, server, net.queryId), keyed)
  }

  function Judged(library: Library, claim: Result<Claim, PairFault>, floor: int): Result<Verified, PairFault> {
    match claim
    case Err(e) => Err(e)
    case Ok(c) =>
      if c.seconds < floor then Err(BelowFloor)
      else
        match Deferred.Accepted(library, c.legs, c.seconds)
        case Err(e) => Err(Refused(e))
        case Ok(v) => Ok(v)
  }

  function Asked(library: Library, net: Network, at: seq<Address>, resolver: Name, server: Name, floor: int)
    : Result<Verified, PairFault>
  {
    Judged(library, Claimed(net, at, resolver, server), floor)
  }

  method FindTime(net: Network, gathered: Gathered, at: seq<Address>, resolver: Name, keyed: Keyed)
    returns (address: Option<Address>)
    modifies gathered
    ensures address == TimeAddress(keyed.session.target, RedirectFound(net, at, keyed.session.target), keyed.address)
    ensures gathered.pending == old(gathered.pending) + RedirectLegs(net, at, resolver, keyed.session.target)
  {
    match keyed.session.target {
      case Itself => address := Some(keyed.address);
      case At(a) => address := Some(a);
      case Host(name) =>
        var candidates := Resolve(net, gathered, at, resolver, name, SecondId(net));
        address := if candidates == [] then None else Some(MatchFamily(candidates, keyed.address));
    }
  }

  method Claiming(net: Network, gathered: Gathered, at: seq<Address>, resolver: Name, server: Name)
    returns (claim: Result<int, PairFault>)
    requires gathered.pending == []
    modifies gathered
    ensures claim.Ok? <==> Claimed(net, at, resolver, server).Ok?
    ensures claim.Ok? ==> Claimed(net, at, resolver, server) == Ok(Claim(claim.value, gathered.pending))
    ensures claim.Err? ==> Claimed(net, at, resolver, server) == Err(claim.error)
  {
    var found := Resolve(net, gathered, at, resolver, server, net.queryId);
    assert gathered.pending == LookupLegs(net, at, resolver, server, net.queryId);
    if found == [] { return Err(Unresolved); }
    var keys := EstablishFirst(net, gathered, found, server);
    if keys.None? { return Err(NoKeys); }
    var address := FindTime(net, gathered, at, resolver, keys.value);
    if address.None? { return Err(RedirectUnresolved); }
    var seconds := net.time(keys.value.session, address.value);
    if seconds.None? { return Err(NoTime); }
    return Ok(seconds.value);
  }

  /** The exchange, then the floor, then pass 2. */
  method AskPair(library: Library, net: Network, at: seq<Address>, resolver: Name, server: Name, floor: int)
    returns (r: Result<Verified, PairFault>)
    ensures r == Asked(library, net, at, resolver, server, floor)
  {
    var gathered := new Gathered();
    var claim := Claiming(net, gathered, at, resolver, server);
    if claim.Err? { return Err(claim.error); }
    if claim.value < floor { return Err(BelowFloor); }
    var verified := gathered.Accept(library, claim.value);
    match verified {
      case Err(e) => r := Err(Refused(e));
      case Ok(v) => r := Ok(v);
    }
  }

  // ---------------------------------------------------------------- what an answer means

  /** A pair answers exactly when it claims a time at or above the floor and every chain on the way to
      that time verifies at it; the answer is the claimed time, unchanged. */
  lemma {:induction false} AnswersExactlyWhen(library: Library, net: Network, at: seq<Address>, resolver: Name, server: Name, floor: int)
    ensures var c := Claimed(net, at, resolver, server);
            Asked(library, net, at, resolver, server, floor).Ok? <==>
              c.Ok? && c.value.seconds >= floor && forall p <- c.value.legs :: Vouches(library, p, c.value.seconds)
    ensures Asked(library, net, at, resolver, server, floor).Ok? ==>
              Asked(library, net, at, resolver, server, floor).value.seconds
                == Claimed(net, at, resolver, server).value.seconds
  {
    if Claimed(net, at, resolver, server).Ok? {
      var c := Claimed(net, at, resolver, server).value;
      LegsOfBothKinds(net, at, resolver, server);
      AcceptedExactlyWhen(library, c.legs, c.seconds);
    }
  }

  /** A pair is refused for the floor exactly when its claim is below it, whatever the library would say of
      the chains: those of a late enough claim are the only ones ever judged. */
  lemma {:induction false} FloorBeforeChains(library: Library, net: Network, at: seq<Address>, resolver: Name, server: Name, floor: int)
    ensures var c := Claimed(net, at, resolver, server);
            && (Asked(library, net, at, resolver, server, floor) == Err(BelowFloor) <==> c.Ok? && c.value.seconds < floor)
            && (Asked(library, net, at, resolver, server, floor).Err? && Asked(library, net, at, resolver, server, floor).error.Refused?
                <==> c.Ok? && c.value.seconds >= floor && exists p <- c.value.legs :: !Vouches(library, p, c.value.seconds))
  {
    var c := Claimed(net, at, resolver, server);
    if c.Ok? {
      LegsOfBothKinds(net, at, resolver, server);
      AcceptedExactlyWhen(library, c.value.legs, c.value.seconds);
    } else {
      NeverJudged(net, at, resolver, server);
    }
  }

  lemma {:induction false} NeverJudged(net: Network, at: seq<Address>, resolver: Name, server: Name)
    requires Claimed(net, at, resolver, server).Err?
    ensures var e := Claimed(net, at, resolver, server).error; !e.BelowFloor? && !e.Refused?
  {
  }

  ghost predicate HasLeg(legs: seq<Pending>, leg: string, host: Name) {
    exists p <- legs :: p.leg == leg && p.name == host
  }

  lemma {:induction false} LookupLegsHave(net: Network, at: seq<Address>, host: Name, name: Name, id: nat)
    requires Found(net, at, name, id) != []
    ensures HasLeg(LookupLegs(net, at, host, name, id), "DoH", host)
  {
    var four, six := Lookup(net, at, name, A, id), Lookup(net, at, name, AAAA, id);
    var legs := LookupLegs(net, at, host, name, id);
    if four.Some? {
      assert legs[0] == Pending("DoH", four.value.chain, host);
    } else {
      assert six.Some? && legs[0] == Pending("DoH", six.value.chain, host);
    }
    assert legs[0] in legs;
  }

  lemma {:induction false} HasLegWider(a: seq<Pending>, b: seq<Pending>, c: seq<Pending>, leg: string, host: Name)
    requires HasLeg(a, leg, host) || HasLeg(b, leg, host)
    ensures HasLeg(a + b + c, leg, host)
  {
    if HasLeg(a, leg, host) {
      var p :| p in a && p.leg == leg && p.name == host;
      assert p in a + b + c;
    } else {
      var p :| p in b && p.leg == leg && p.name == host;
      assert p in a + b + c;
    }
  }

  /** A claim always comes with a chain of the resolver and one of the key server, under their own names,
      so pass 2 is never a formality. */
  lemma {:induction false} LegsOfBothKinds(net: Network, at: seq<Address>, resolver: Name, server: Name)
    requires Claimed(net, at, resolver, server).Ok?
    ensures var legs := Claimed(net, at, resolver, server).value.legs;
            HasLeg(legs, "DoH", resolver) && HasLeg(legs, "NTS-KE", server) && legs != []
  {
    var found := Found(net, at, server, net.queryId);
    var legs := LookupLegs(net, at, resolver, server, net.queryId);
    var keyed := FirstKeys(net, found, 0).value;
    var more := RedirectLegs(net, at, resolver, keyed.session.target);
    var key := [Pending("NTS-KE", keyed.chain, server)];
    LookupLegsHave(net, at, resolver, server, net.queryId);
    assert key[0] in key;
    HasLegWider(legs, key, more, "DoH", resolver);
    HasLegWider(legs, key, more, "NTS-KE", server);
  }

  /** No two lookups of one exchange share an identifier. */
  lemma {:induction false} IdentifiersDiffer(net: Network, f: Family, g: Family)
    requires net.queryId < 0x1_0000
    ensures LookupId(net.queryId, f) != LookupId(SecondId(net), g)
    ensures LookupId(net.queryId, A) != LookupId(net.queryId, AAAA)
    ensures LookupId(SecondId(net), A) != LookupId(SecondId(net), AAAA)
  {
  }
}
