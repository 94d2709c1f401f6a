/** From the bytes a pair exchanges to the second a run steps the clock to. */
module Provenance {
  import opened Bytes
  import opened Wire
  import opened Quorum
  import opened Verify
  import opened Choose
  import Deferred
  import opened Asking
  import opened Correction
  import Dns
  import DnsMeaning
  import Ntp
  import Nts
  import NtpExchange
  import TimeServer

  const UDP_BUFFER: nat := 1024

  /** The libraries the bytes pass through: the cipher, UTF-8, address literals, and names as text. */
  datatype Codecs = Codecs(
    siv: Ntp.Siv,
    utf8: seq<byte> -> bool,
    literal: seq<byte> -> Option<Address>,
    spell: Name -> seq<byte>,
    text: seq<byte> -> Name)

  /** A key-establishment session: what its reads bring, and the key it exports for each direction. */
  datatype KeSession = KeSession(script: seq<TimeServer.Arrival>, c2s: seq<byte>, s2c: seq<byte>)

  /** What one pair meets outside the program: a resolver's successful answer to a query, the session of
      each key establishment in the order tried, the first datagram back for a request, and the pair's
      three random draws. */
  datatype Wires = Wires(
    queryId: u16,
    doh: (Address, seq<byte>) -> Option<Answered<seq<byte>>>,
    ke: (nat, Address) -> Option<Answered<KeSession>>,
    ntp: (Address, nat, seq<byte>) -> Option<seq<byte>>,
    uniqueId: seq<byte>,
    nonce: seq<byte>)

  // ---------------------------------------------------------------- the network the wires make

  function TypeOf(family: Family): u16 {
    if family.A? then Dns.TYPE_A else Dns.TYPE_AAAA
  }

  function LookupOver(c: Codecs, w: Wires, at: Address, name: Name, family: Family, id: u16): Option<Answered<seq<Address>>> {
    match Dns.EncodedQuery(id, c.spell(name), TypeOf(family))
    case Err(_) => None
    case Ok(query) =>
      match w.doh(at, query)
      case None => None
      case Some(answer) =>
        match Dns.Parsed(answer.value, id, TypeOf(family))
        case Err(_) => None
        case Ok(found) => Some(Answered(found, answer.chain))
  }

  function TargetOf(c: Codecs, server: Option<seq<byte>>): Target {
    match server
    case None => Itself
    case Some(host) =>
      match c.literal(host)
      case Some(address) => At(address)
      case None => Host(c.text(host))
  }

  function SessionOf(c: Codecs, agreement: Nts.Agreement, keys: KeSession): Session {
    Session(TargetOf(c, agreement.server),
            if agreement.port.Some? then agreement.port.value else TimeServer.DEFAULT_NTP_PORT,
            agreement.cookies, keys.c2s, keys.s2c)
  }

  function EstablishOver(c: Codecs, w: Wires, tried: nat, at: Address): Option<Answered<Session>> {
    match w.ke(tried, at)
    case None => None
    case Some(keys) =>
      match TimeServer.Established(keys.value.script, c.utf8)
      case Err(_) => None
      case Ok(agreement) => Some(Answered(SessionOf(c, agreement, keys.value), keys.chain))
  }

  /** What a receive into the buffer keeps of a datagram. */
  function Received(datagram: seq<byte>): seq<byte> {
    if |datagram| > UDP_BUFFER then datagram[..UDP_BUFFER] else datagram
  }

  /** The request for the time: it spends the first cookie. */
  function RequestOf(c: Codecs, w: Wires, s: Session): Option<seq<byte>> {
    if s.cookies == [] then None else NtpExchange.BuildRequest(c.siv, s.cookies[0], s.c2s, w.uniqueId, w.nonce)
  }

  function TimeOver(c: Codecs, w: Wires, s: Session, at: Address): Option<int> {
    match RequestOf(c, w, s)
    case None => None
    case Some(request) =>
      match w.ntp(at, s.port, request)
      case None => None
      case Some(datagram) =>
        match Ntp.ParseResponse(c.siv, Received(datagram), s.s2c, w.uniqueId)
        case Err(_) => None
        case Ok(seconds) => Some(seconds)
  }

  function NetworkOf(c: Codecs, w: Wires): Network {
    Network(w.queryId,
            (at, name, family, id) => LookupOver(c, w, at, name, family, id % 0x1_0000),
            (tried: nat, at: Address) => EstablishOver(c, w, tried, at),
            (s, at) => TimeOver(c, w, s, at))
  }

  /** The world made of every pair's wires; a pair without any has a thread that panicked. */
  function WorldOf(library: Option<Library>, c: Codecs, wires: nat -> Option<Wires>, steps: bool): World {
    World(library, (k: nat) => match wires(k) case None => Panicked case Some(w) => Ran(NetworkOf(c, w)), steps)
  }

  /** A lookup of one family brings addresses of that family alone. */
  lemma {:induction false} FamilyIsKept(c: Codecs, w: Wires, at: Address, name: Name, family: Family, id: u16, address: Address)
    requires LookupOver(c, w, at, name, family, id).Some? && address in LookupOver(c, w, at, name, family, id).value.value
    ensures if family.A? then address.V4? && |address.octets| == 4 else address.V6? && |address.octets| == 16
  {
    var query := Dns.EncodedQuery(id, c.spell(name), TypeOf(family)).value;
    DnsMeaning.OnlyTheFamily(w.doh(at, query).value.value, id, TypeOf(family));
  }

  /** What an establishment is taken to agree on: the time is asked of the key server itself, of the address
      or of the host its server record names, and on the port its port record names or on 123. */
  lemma {:induction false} SessionSays(c: Codecs, w: Wires, tried: nat, at: Address)
    requires EstablishOver(c, w, tried, at).Some?
    ensures w.ke(tried, at).Some? && TimeServer.Established(w.ke(tried, at).value.value.script, c.utf8).Ok?
    ensures var s, agreed := EstablishOver(c, w, tried, at).value.value, TimeServer.Established(w.ke(tried, at).value.value.script, c.utf8).value;
            && (agreed.server.None? ==> s.target == Itself)
            && (agreed.server.Some? ==> match c.literal(agreed.server.value)
                                        case Some(address) => s.target == At(address)
                                        case None => s.target == Host(c.text(agreed.server.value)))
            && s.port == (if agreed.port.Some? then agreed.port.value else 123)
            && s.cookies == agreed.cookies && s.c2s == w.ke(tried, at).value.value.c2s && s.s2c == w.ke(tried, at).value.value.s2c
  {
  }

  /** Of a datagram longer than 1024 bytes only those count. */
  lemma {:induction false} BufferKeeps(datagram: seq<byte>)
    ensures |datagram| >= 1024 ==> Received(datagram) == Received(datagram[..1024]) == datagram[..1024]
    ensures |datagram| < 1024 ==> Received(datagram) == datagram
  {
    if |datagram| == 1024 { assert datagram[..1024] == datagram; }
  }

  /** Nothing of an honest answer is lost in the buffer: the second a server seals for the request is the
      second claimed, for every second that survives the wire, and for no other. */
  lemma {:induction false} SealedSecondIsClaimed(c: Codecs, w: Wires, s: Session, at: Address, seconds: int, nonce: seq<byte>)
    requires Ntp.Lawful(c.siv) && |s.s2c| == Ntp.KEY_LENGTH && |w.uniqueId| == Ntp.UNIQUE_ID_LENGTH && |nonce| == Ntp.NONCE_LENGTH
    requires RequestOf(c, w, s).Some?
    requires w.ntp(at, s.port, RequestOf(c, w, s).value) == Some(NtpExchange.ServerResponse(c.siv, seconds, s.s2c, w.uniqueId, nonce))
    ensures TimeOver(c, w, s, at) == Some(seconds)
       <==> -61_505_152 <= seconds <= 4_233_462_143 && seconds != 2_085_978_496
  {
    NtpExchange.ResponseLength(c.siv, seconds, s.s2c, w.uniqueId, nonce);
    NtpExchange.TimeRoundTrip(c.siv, seconds, s.s2c, w.uniqueId, nonce);
  }

  // ---------------------------------------------------------------- where an address comes from

  /** One of the resolver's addresses answered a query for the name, under a chain among the legs, with a
      message that parses to addresses of which this is one. */
  ghost predicate Resolved(c: Codecs, w: Wires, at: seq<Address>, host: Name, name: Name, legs: seq<Deferred.Pending>, address: Address) {
    exists from: Address, family: Family, id: u16 :: ResolvedBy(c, w, at, host, name, legs, address, from, family, id)
  }

  ghost predicate ResolvedBy(c: Codecs, w: Wires, at: seq<Address>, host: Name, name: Name, legs: seq<Deferred.Pending>,
                             address: Address, from: Address, family: Family, id: u16)
  {
    && from in at
    && var query := Dns.EncodedQuery(id, c.spell(name), TypeOf(family));
    && query.Ok? && w.doh(from, query.value).Some?
    && var answer := w.doh(from, query.value).value;
    && Dns.Parsed(answer.value, id, TypeOf(family)).Ok? && address in Dns.Parsed(answer.value, id, TypeOf(family)).value
    && Deferred.Pending("DoH", answer.chain, host) in legs
  }

  lemma {:induction false} FirstLookupIs(net: Network, at: seq<Address>, name: Name, family: Family, id: nat) returns (from: Address)
    requires FirstLookup(net, at, name, family, id).Some?
    ensures from in at && FirstLookup(net, at, name, family, id) == net.lookup(from, name, family, id)
  {
    if net.lookup(at[0], name, family, id).Some? {
      from := at[0];
    } else {
      from := FirstLookupIs(net, at[1..], name, family, id);
    }
  }

  lemma {:induction false} FamilyResolves(c: Codecs, w: Wires, at: seq<Address>, host: Name, name: Name, id: nat,
                                          family: Family, legs: seq<Deferred.Pending>, address: Address)
    requires address in AddressesOf(Lookup(NetworkOf(c, w), at, name, family, id))
    requires LegOf(Lookup(NetworkOf(c, w), at, name, family, id), "DoH", host)[0] in legs
    ensures Resolved(c, w, at, host, name, legs, address)
  {
    var lookupId := LookupId(id, family);
    var from := FirstLookupIs(NetworkOf(c, w), at, name, family, lookupId);
    assert LookupOver(c, w, from, name, family, lookupId % 0x1_0000).Some?;
    assert ResolvedBy(c, w, at, host, name, legs, address, from, family, lookupId % 0x1_0000);
  }

  /** Every address found for a name was read out of a message that came under one of the chains recorded. */
  lemma {:induction false} FoundIsResolved(c: Codecs, w: Wires, at: seq<Address>, host: Name, name: Name, id: nat,
                                           legs: seq<Deferred.Pending>, address: Address)
    requires address in Found(NetworkOf(c, w), at, name, id)
    requires forall p <- LookupLegs(NetworkOf(c, w), at, host, name, id) :: p in legs
    ensures Resolved(c, w, at, host, name, legs, address)
  {
    var net := NetworkOf(c, w);
    var four, six := Lookup(net, at, name, A, id), Lookup(net, at, name, AAAA, id);
    var recorded := LookupLegs(net, at, host, name, id);
    if address in AddressesOf(four) {
      assert recorded[0] == LegOf(four, "DoH", host)[0] && recorded[0] in recorded;
      FamilyResolves(c, w, at, host, name, id, A, legs, address);
    } else {
      assert recorded[|recorded| - 1] == LegOf(six, "DoH", host)[0] && recorded[|recorded| - 1] in recorded;
      FamilyResolves(c, w, at, host, name, id, AAAA, legs, address);
    }
  }

  lemma {:induction false} FirstKeysIs(net: Network, candidates: seq<Address>, tried: nat) returns (k: nat)
    requires FirstKeys(net, candidates, tried).Some?
    ensures k < |candidates| && FirstKeys(net, candidates, tried).value.address == candidates[k]
    ensures var keyed := FirstKeys(net, candidates, tried).value;
            net.establish(tried + k, candidates[k]) == Some(Answered(keyed.session, keyed.chain))
  {
    if net.establish(tried, candidates[0]).Some? {
      k := 0;
    } else {
      k := FirstKeysIs(net, candidates[1..], tried + 1);
      k := k + 1;
    }
  }

  // ---------------------------------------------------------------- what stands behind a claim

  /** The establishment a claim rests on, where the time was asked, and the packet it was read from. */
  datatype Evidence = Evidence(
    tried: nat, keyAddress: Address, keys: KeSession, chain: Chain, agreement: Nts.Agreement,
    asked: Address, packet: seq<byte>, auth: Ntp.Field, nonce: seq<byte>, plain: seq<byte>)

  /** The keys are those of a session, with an address the server's name resolved to, that reached an
      agreement under a chain recorded for the server. */
  ghost predicate KeysAreShown(c: Codecs, w: Wires, pair: Pair, legs: seq<Deferred.Pending>, e: Evidence) {
    && Resolved(c, w, pair.resolver.addresses, pair.resolver.hostname, pair.server.hostname, legs, e.keyAddress)
    && w.ke(e.tried, e.keyAddress) == Some(Answered(e.keys, e.chain))
    && TimeServer.Established(e.keys.script, c.utf8) == Ok(e.agreement)
    && Deferred.Pending("NTS-KE", e.chain, pair.server.hostname) in legs
  }

  /** The address asked is the one the agreement names: the key server's, a literal, or one its host
      resolved to. */
  ghost predicate AddressIsShown(c: Codecs, w: Wires, pair: Pair, legs: seq<Deferred.Pending>, e: Evidence) {
    match TargetOf(c, e.agreement.server)
    case Itself => e.asked == e.keyAddress
    case At(address) => e.asked == address
    case Host(name) => Resolved(c, w, pair.resolver.addresses, pair.resolver.hostname, name, legs, e.asked)
  }

  /** The packet answered the request that spends the agreement's first cookie. */
  ghost predicate PacketIsShown(c: Codecs, w: Wires, e: Evidence) {
    && e.agreement.cookies != []
    && var request := NtpExchange.BuildRequest(c.siv, e.agreement.cookies[0], e.keys.c2s, w.uniqueId, w.nonce);
    && request.Some?
    && var datagram := w.ntp(e.asked, SessionOf(c, e.agreement, e.keys).port, request.value);
    && datagram.Some? && e.packet == Received(datagram.value)
  }

  /** The second is in a header that, with the request's identifier, was sealed under the session's key. */
  ghost predicate SecondIsSealed(c: Codecs, w: Wires, seconds: int, e: Evidence) {
    && Ntp.Authenticates(c.siv, e.packet, e.keys.s2c, e.auth, e.nonce, e.plain)
    && Ntp.CoversHeaderAndIdentifier(e.packet[..e.auth.start - 4], w.uniqueId)
    && Ntp.TransmitTimestamp(e.packet[..e.auth.start - 4]) == Ok(seconds)
  }

  ghost predicate Shown(c: Codecs, w: Wires, pair: Pair, claim: Claim, e: Evidence) {
    && KeysAreShown(c, w, pair, claim.legs, e) && AddressIsShown(c, w, pair, claim.legs, e)
    && PacketIsShown(c, w, e) && SecondIsSealed(c, w, claim.seconds, e)
  }

  function ClaimOf(c: Codecs, w: Wires, pair: Pair): Result<Claim, PairFault> {
    Claimed(NetworkOf(c, w), pair.resolver.addresses, pair.resolver.hostname, pair.server.hostname)
  }

  lemma {:induction false} ReadFromPacket(c: Codecs, w: Wires, agreement: Nts.Agreement, keys: KeSession, at: Address, e: Evidence)
    returns (full: Evidence)
    requires Ntp.Lawful(c.siv) && TimeOver(c, w, SessionOf(c, agreement, keys), at).Some?
    requires e.agreement == agreement && e.keys == keys && e.asked == at
    ensures full == e.(packet := full.packet, auth := full.auth, nonce := full.nonce, plain := full.plain)
    ensures PacketIsShown(c, w, full)
    ensures SecondIsSealed(c, w, TimeOver(c, w, SessionOf(c, agreement, keys), at).value, full)
  {
    var s := SessionOf(c, agreement, keys);
    var packet := Received(w.ntp(at, s.port, RequestOf(c, w, s).value).value);
    var auth, nonce, plain := Ntp.BelievedMeansAuthenticated(c.siv, packet, s.s2c, w.uniqueId);
    full := e.(packet := packet, auth := auth, nonce := nonce, plain := plain);
  }

  lemma {:induction false} EstablishedBehind(c: Codecs, w: Wires, tried: nat, at: Address) returns (keys: KeSession, agreement: Nts.Agreement)
    requires EstablishOver(c, w, tried, at).Some?
    ensures var r := EstablishOver(c, w, tried, at).value;
            && w.ke(tried, at) == Some(Answered(keys, r.chain)) && r.value == SessionOf(c, agreement, keys)
            && TimeServer.Established(keys.script, c.utf8) == Ok(agreement)
  {
    keys := w.ke(tried, at).value.value;
    agreement := TimeServer.Established(keys.script, c.utf8).value;
  }

  lemma {:induction false} FirstSession(c: Codecs, w: Wires, found: seq<Address>, keyed: Keyed)
    returns (k: nat, keys: KeSession, agreement: Nts.Agreement)
    requires FirstKeys(NetworkOf(c, w), found, 0) == Some(keyed)
    ensures keyed.address in found && w.ke(k, keyed.address) == Some(Answered(keys, keyed.chain))
    ensures TimeServer.Established(keys.script, c.utf8) == Ok(agreement) && keyed.session == SessionOf(c, agreement, keys)
  {
    k := FirstKeysIs(NetworkOf(c, w), found, 0);
    assert found[k] in found;
    keys, agreement := EstablishedBehind(c, w, k, keyed.address);
  }

  lemma {:induction false} KeysBehind(c: Codecs, w: Wires, pair: Pair, keyed: Keyed, legs: seq<Deferred.Pending>) returns (e: Evidence)
    requires var found := Found(NetworkOf(c, w), pair.resolver.addresses, pair.server.hostname, w.queryId);
             FirstKeys(NetworkOf(c, w), found, 0) == Some(keyed)
    requires forall p <- LookupLegs(NetworkOf(c, w), pair.resolver.addresses, pair.resolver.hostname, pair.server.hostname, w.queryId) :: p in legs
    requires Deferred.Pending("NTS-KE", keyed.chain, pair.server.hostname) in legs
    ensures KeysAreShown(c, w, pair, legs, e) && e.keyAddress == keyed.address && keyed.session == SessionOf(c, e.agreement, e.keys)
  {
    var found := Found(NetworkOf(c, w), pair.resolver.addresses, pair.server.hostname, w.queryId);
    var k, keys, agreement := FirstSession(c, w, found, keyed);
    FoundIsResolved(c, w, pair.resolver.addresses, pair.resolver.hostname, pair.server.hostname, w.queryId, legs, keyed.address);
    e := Evidence(k, keyed.address, keys, keyed.chain, agreement, keyed.address, [], Ntp.Field(0, 0, 0), [], []);
  }

  lemma {:induction false} TargetBehind(c: Codecs, w: Wires, pair: Pair, legs: seq<Deferred.Pending>, target: Target, fallback: Address, asked: Address)
    requires var found := RedirectFound(NetworkOf(c, w), pair.resolver.addresses, target);
             TimeAddress(target, found, fallback) == Some(asked)
    requires forall p <- RedirectLegs(NetworkOf(c, w), pair.resolver.addresses, pair.resolver.hostname, target) :: p in legs
    ensures target.Itself? ==> asked == fallback
    ensures target.At? ==> asked == target.address
    ensures target.Host? ==> Resolved(c, w, pair.resolver.addresses, pair.resolver.hostname, target.name, legs, asked)
  {
    if target.Host? {
      var net := NetworkOf(c, w);
      var found := RedirectFound(net, pair.resolver.addresses, target);
      FamilyIsMatched(found, fallback);
      FoundIsResolved(c, w, pair.resolver.addresses, pair.resolver.hostname, target.name, SecondId(net), legs, asked);
    }
  }

  lemma {:induction false} AfterKeysIsShown(c: Codecs, w: Wires, pair: Pair, keyed: Keyed, claim: Claim, first: Evidence) returns (e: Evidence)
    requires Ntp.Lawful(c.siv) && KeysAreShown(c, w, pair, claim.legs, first)
    requires first.keyAddress == keyed.address && keyed.session == SessionOf(c, first.agreement, first.keys)
    requires var net, at := NetworkOf(c, w), pair.resolver.addresses;
             var legs := LookupLegs(net, at, pair.resolver.hostname, pair.server.hostname, w.queryId);
             ClaimAfterKeys(net, at, pair.resolver.hostname, pair.server.hostname, legs, keyed) == Ok(claim)
    ensures Shown(c, w, pair, claim, e)
  {
    var net, at, target := NetworkOf(c, w), pair.resolver.addresses, keyed.session.target;
    var asked := TimeAddress(target, RedirectFound(net, at, target), keyed.address).value;
    TargetBehind(c, w, pair, claim.legs, target, keyed.address, asked);
    e := ReadFromPacket(c, w, first.agreement, first.keys, asked, first.(asked := asked));
  }

  /** Whatever a pair claims was sealed: the second is in a header that, with the identifier of the
      request, was sealed under the key of the session whose agreement the request's cookie came from;
      that session was with an address the server's name resolved to; and the chains of that session and
      of every lookup on the way are among those pass 2 will judge. */
  lemma {:induction false} ClaimIsShown(c: Codecs, w: Wires, pair: Pair) returns (e: Evidence)
    requires Ntp.Lawful(c.siv) && ClaimOf(c, w, pair).Ok?
    ensures Shown(c, w, pair, ClaimOf(c, w, pair).value, e)
  {
    var net, at := NetworkOf(c, w), pair.resolver.addresses;
    var claim := ClaimOf(c, w, pair).value;
    var keyed := FirstKeys(net, Found(net, at, pair.server.hostname, w.queryId), 0).value;
    e := KeysBehind(c, w, pair, keyed, claim.legs);
    e := AfterKeysIsShown(c, w, pair, keyed, claim, e);
  }

  // ---------------------------------------------------------------- what stands behind a step

  /** A pair's claim of a second is shown, and every chain on the way to it verifies at that second. */
  ghost predicate ShownAt(library: Library, c: Codecs, w: Option<Wires>, pair: Pair, seconds: int, e: Evidence) {
    && w.Some? && ClaimOf(c, w.value, pair).Ok?
    && var claim := ClaimOf(c, w.value, pair).value;
    && claim.seconds == seconds && Shown(c, w.value, pair, claim, e)
    && forall p <- claim.legs :: Deferred.Vouches(library, p, seconds)
  }

  lemma {:induction false} AnswerIsShown(o: Options, library: Library, c: Codecs, wires: nat -> Option<Wires>, steps: bool, pair: Pair, k: nat)
    returns (e: Evidence)
    requires Ntp.Lawful(c.siv)
    requires VerifiedBy(o, library, WorldOf(Some(library), c, wires, steps), pair, k).Some?
    ensures var t := VerifiedBy(o, library, WorldOf(Some(library), c, wires, steps), pair, k).value.seconds;
            ShownAt(library, c, wires(k), pair, t, e)
  {
    AnsweredMeansChecked(o, library, WorldOf(Some(library), c, wires, steps), pair, k);
    e := ClaimIsShown(c, wires(k).value, pair);
  }

  lemma {:induction false} TheOne(t: int, results: Results, tolerance: int) returns (j: nat)
    requires AllAnswered(results) && IsOneOf(t, results, tolerance)
    ensures j < |results| && results[j].Some? && results[j].value.seconds == t
  {
    j :| 0 <= j < |results| && results[j].value.seconds == t;
  }

  lemma {:induction false} AdoptedIsAnswered(o: Options, seed: nat, world: World, nanos: int) returns (j: nat)
    requires Corrected(o, seed, world, nanos).Stepped?
    ensures Pairs(o, seed).Some? && j < |Pairs(o, seed).value| && world.library.Some?
    ensures var v := VerifiedBy(o, world.library.value, world, Pairs(o, seed).value[j], j);
            v.Some? && v.value.seconds == Corrected(o, seed, world, nanos).seconds
  {
    StepIsVouchedFor(o, seed, world, nanos);
    var pairs, t := Pairs(o, seed).value, Corrected(o, seed, world, nanos).seconds;
    var results := ResultsOf(o, world, pairs);
    j := TheOne(t, results, o.tolerance);
    assert results[j] == VerifiedBy(o, world.library.value, world, pairs[j], j);
  }

  /** The second a run steps the clock to was read out of a packet that one pair's server sealed under the
      keys established on that pair's way, and at that very second every chain on the way verifies. */
  lemma {:induction false} StepIsShown(o: Options, seed: nat, library: Option<Library>, c: Codecs, wires: nat -> Option<Wires>, steps: bool, nanos: int)
    returns (j: nat, e: Evidence)
    requires Ntp.Lawful(c.siv) && Corrected(o, seed, WorldOf(library, c, wires, steps), nanos).Stepped?
    ensures Pairs(o, seed).Some? && j < |Pairs(o, seed).value| && library.Some?
    ensures ShownAt(library.value, c, wires(j), Pairs(o, seed).value[j],
                    Corrected(o, seed, WorldOf(library, c, wires, steps), nanos).seconds, e)
  {
    var world := WorldOf(library, c, wires, steps);
    var pairs := Pairs(o, seed).value;
    j := AdoptedIsAnswered(o, seed, world, nanos);
    e := AnswerIsShown(o, library.value, c, wires, steps, pairs[j], j);
  }
}
