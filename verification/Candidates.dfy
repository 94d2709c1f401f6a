/** One exchange told from the network's side: which of the candidates was taken at each step, what that
    leads to, and which chains are kept. */
module Candidates {
  import opened Bytes
  import opened Wire
  import opened Quorum
  import opened Verify
  import opened Deferred
  import opened Asking

  // ---------------------------------------------------------------- lookups

  /** What a lookup brings: the answer of the first of the resolver's addresses that gives one. */
  ghost predicate Hears(net: Network, at: seq<Address>, name: Name, family: Family, id: nat, r: Option<Answered<seq<Address>>>) {
    if r.None? then forall i :: 0 <= i < |at| ==> net.lookup(at[i], name, family, id).None?
    else
      exists i :: 0 <= i < |at| && net.lookup(at[i], name, family, id) == r
                  && forall j :: 0 <= j < i ==> net.lookup(at[j], name, family, id).None?
  }

  lemma {:induction false} LookupHears(net: Network, at: seq<Address>, name: Name, family: Family, id: nat)
    ensures Hears(net, at, name, family, id, FirstLookup(net, at, name, family, id))
  {
    if at != [] {
      var head, rest := net.lookup(at[0], name, family, id), FirstLookup(net, at[1..], name, family, id);
      LookupHears(net, at[1..], name, family, id);
      assert forall i :: 0 < i < |at| ==> at[i] == at[1..][i - 1];
      if head.None? && rest.Some? {
        var i :| 0 <= i < |at| - 1 && net.lookup(at[1..][i], name, family, id) == rest
                 && forall j :: 0 <= j < i ==> net.lookup(at[1..][j], name, family, id).None?;
        assert at[i + 1] == at[1..][i];
      }
    }
  }

  /** What the two lookups of a name bring. */
  datatype Heard = Heard(four: Option<Answered<seq<Address>>>, six: Option<Answered<seq<Address>>>)

  ghost predicate HearsBoth(net: Network, at: seq<Address>, name: Name, id: nat, h: Heard) {
    Hears(net, at, name, A, id, h.four) && Hears(net, at, name, AAAA, (id + 1) % 0x1_0000, h.six)
  }

  ghost function Listed(h: Heard): seq<Address> {
    (if h.four.Some? then h.four.value.value else []) + (if h.six.Some? then h.six.value.value else [])
  }

  ghost function LegsFor(h: Heard, host: Name): seq<Pending> {
    (if h.four.Some? then [Pending("DoH", h.four.value.chain, host)] else [])
    + (if h.six.Some? then [Pending("DoH", h.six.value.chain, host)] else [])
  }

  lemma {:induction false} BothHeard(net: Network, at: seq<Address>, name: Name, host: Name, id: nat) returns (h: Heard)
    ensures HearsBoth(net, at, name, id, h)
    ensures Listed(h) == Found(net, at, name, id) && LegsFor(h, host) == LookupLegs(net, at, host, name, id)
  {
    h := Heard(Lookup(net, at, name, A, id), Lookup(net, at, name, AAAA, id));
    LookupHears(net, at, name, A, id);
    LookupHears(net, at, name, AAAA, (id + 1) % 0x1_0000);
  }

  // ---------------------------------------------------------------- keys

  /** Keys come from the `k`th candidate, those before it having failed. */
  ghost predicate Opens(net: Network, candidates: seq<Address>, k: nat) {
    && k < |candidates| && net.establish(k, candidates[k]).Some?
    && forall j :: 0 <= j < k ==> net.establish(j, candidates[j]).None?
  }

  lemma {:induction false} KeysFrom(net: Network, candidates: seq<Address>, tried: nat) returns (k: nat)
    requires tried <= |candidates| && forall j :: 0 <= j < tried ==> net.establish(j, candidates[j]).None?
    ensures var r := FirstKeys(net, candidates[tried..], tried);
            if r.None? then forall j :: 0 <= j < |candidates| ==> net.establish(j, candidates[j]).None?
            else Opens(net, candidates, k)
                 && r.value == Keyed(net.establish(k, candidates[k]).value.value, candidates[k], net.establish(k, candidates[k]).value.chain)
    decreases |candidates| - tried
  {
    k := tried;
    if tried < |candidates| {
      assert candidates[tried..][1..] == candidates[tried + 1..];
      if net.establish(tried, candidates[tried]).None? { k := KeysFrom(net, candidates, tried + 1); }
    }
  }

  // ---------------------------------------------------------------- where to ask

  /** The address a session's target comes to: the one keys came from, the one it names, or of those a
      host resolves to, the first of the family keys came over, and the first of all if there is none. */
  ghost predicate LeadsTo(target: Target, keysFrom: Address, found: seq<Address>, address: Address) {
    match target
    case Itself => address == keysFrom
    case At(a) => address == a
    case Host(_) =>
      exists k :: 0 <= k < |found| && address == found[k]
                  && if address.V4? == keysFrom.V4? then forall j :: 0 <= j < k ==> found[j].V4? != keysFrom.V4?
                     else k == 0 && forall j :: 0 <= j < |found| ==> found[j].V4? != keysFrom.V4?
  }

  lemma {:induction false} FirstLikeAt(found: seq<Address>, like: Address) returns (k: nat)
    ensures var r := FirstLike(found, like);
            if r.None? then forall j :: 0 <= j < |found| ==> found[j].V4? != like.V4?
            else k < |found| && r == Some(found[k]) && found[k].V4? == like.V4? && forall j :: 0 <= j < k ==> found[j].V4? != like.V4?
  {
    k := 0;
    if found != [] && found[0].V4? != like.V4? {
      var i := FirstLikeAt(found[1..], like);
      assert forall j :: 0 < j < |found| ==> found[j] == found[1..][j - 1];
      k := i + 1;
    }
  }

  lemma {:induction false} TargetLeads(target: Target, found: seq<Address>, keysFrom: Address)
    ensures var r := TimeAddress(target, found, keysFrom);
            if target.Host? && found == [] then r.None? else r.Some? && LeadsTo(target, keysFrom, found, r.value)
  {
    if target.Host? && found != [] {
      var k := FirstLikeAt(found, keysFrom);
      if FirstLike(found, keysFrom).Some? { assert found[k] == MatchFamily(found, keysFrom); }
    }
  }

  // ---------------------------------------------------------------- the exchange

  /** What an exchange comes to once it has keys. */
  ghost predicate EndsWith(net: Network, session: Session, chain: Chain, resolver: Name, server: Name, keysFrom: Address,
                           first: Heard, second: Heard, address: Address, r: Result<Claim, PairFault>) {
    if session.target.Host? && Listed(second) == [] then r == Err(RedirectUnresolved)
    else
      && LeadsTo(session.target, keysFrom, Listed(second), address)
      && match net.time(session, address)
         case None => r == Err(NoTime)
         case Some(t) =>
           r == Ok(Claim(t, LegsFor(first, resolver) + [Pending("NTS-KE", chain, server)]
                            + if session.target.Host? then LegsFor(second, resolver) else []))
  }

  lemma {:induction false} AfterKeys(net: Network, at: seq<Address>, resolver: Name, server: Name, keyed: Keyed, first: Heard)
    returns (second: Heard, address: Address)
    requires LegsFor(first, resolver) == LookupLegs(net, at, resolver, server, net.queryId)
    ensures keyed.session.target.Host? ==> HearsBoth(net, at, keyed.session.target.name, (net.queryId + 2) % 0x1_0000, second)
    ensures EndsWith(net, keyed.session, keyed.chain, resolver, server, keyed.address, first, second, address,
                     ClaimAfterKeys(net, at, resolver, server, LegsFor(first, resolver), keyed))
  {
    var target := keyed.session.target;
    second := Heard(None, None);
    if target.Host? { second := BothHeard(net, at, target.name, resolver, (net.queryId + 2) % 0x1_0000); }
    var found := RedirectFound(net, at, target);
    TargetLeads(target, found, keyed.address);
    address := if TimeAddress(target, found, keyed.address).Some? then TimeAddress(target, found, keyed.address).value else keyed.address;
  }

  /** Every exchange, whatever the network does: the two lookups of the server's name under the first pair
      of identifiers, keys from the first address found that gives any, the two lookups of a host it is
      sent on to under the second pair, and one request for the time; with the failure of each step, and
      with the chain of every answer taken and of no other. */
  lemma {:induction false} ExchangeIs(net: Network, at: seq<Address>, resolver: Name, server: Name)
    returns (first: Heard, k: nat, second: Heard, address: Address)
    ensures HearsBoth(net, at, server, net.queryId, first)
    ensures var found, r := Listed(first), Claimed(net, at, resolver, server);
            if found == [] then r == Err(Unresolved)
            else if forall i :: 0 <= i < |found| ==> net.establish(i, found[i]).None? then r == Err(NoKeys)
            else
              Opens(net, found, k)
              && var keys := net.establish(k, found[k]).value;
                 && (keys.value.target.Host? ==> HearsBoth(net, at, keys.value.target.name, (net.queryId + 2) % 0x1_0000, second))
                 && EndsWith(net, keys.value, keys.chain, resolver, server, found[k], first, second, address, r)
  {
    first := BothHeard(net, at, server, resolver, net.queryId);
    var found := Listed(first);
    k, second, address := 0, first, V4([]);
    if found != [] {
      assert found[0..] == found;
      k := KeysFrom(net, found, 0);
      var keyed := FirstKeys(net, found, 0);
      if keyed.Some? { second, address := AfterKeys(net, at, resolver, server, keyed.value, first); }
    }
  }
}
