/** Per-provider health, read out of refresh passes: failure is derived from absence in a witnessed pass. */
module DnsCrypt {
  import opened Bytes
  import Sorting

  type Name = string

  /** A longer silence than this, in microseconds, ends a pass. */
  const PASS_GAP: nat := 300 * 1_000_000

  datatype Observation = Observation(at: nat, provider: Name, rtt: int)

  datatype Pass = Pass(start: nat, end: nat, successes: map<Name, int>)

  // ---------------------------------------------------------------- by time

  function Insert(x: Observation, s: seq<Observation>): (r: seq<Observation>)
    ensures |r| == |s| + 1
  {
    if s == [] || x.at <= s[0].at then [x] + s else [s[0]] + Insert(x, s[1..])
  }

  /** Stable: observations of one instant keep their order. */
  function ByTime(s: seq<Observation>): (r: seq<Observation>)
    ensures |r| == |s|
  {
    if s == [] then [] else Insert(s[0], ByTime(s[1..]))
  }

  predicate InOrder(s: seq<Observation>) {
    forall i :: 0 <= i < |s| - 1 ==> s[i].at <= s[i + 1].at
  }

  lemma {:induction false} InsertInOrder(x: Observation, s: seq<Observation>)
    requires InOrder(s)
    ensures InOrder(Insert(x, s)) && (s != [] && x.at > s[0].at ==> Insert(x, s)[0] == s[0])
    ensures s == [] || x.at <= s[0].at ==> Insert(x, s)[0] == x
  {
    if s != [] && x.at > s[0].at {
      assert forall i :: 0 <= i < |s| - 2 ==> s[1..][i].at <= s[1..][i + 1].at;
      InsertInOrder(x, s[1..]);
      var r := Insert(x, s[1..]);
      assert r[0] == x || (|s| > 1 && r[0] == s[1]);
      assert forall i :: 0 < i < |s| ==> ([s[0]] + r)[i] == r[i - 1];
    } else {
      assert forall i :: 0 < i <= |s| ==> ([x] + s)[i] == s[i - 1];
    }
  }

  lemma {:induction false} InsertMultiset(x: Observation, s: seq<Observation>)
    ensures multiset(Insert(x, s)) == multiset(s) + multiset{x}
  {
    if s != [] && x.at > s[0].at {
      InsertMultiset(x, s[1..]);
      assert s == [s[0]] + s[1..];
    }
  }

  lemma {:induction false} ByTimeSorts(s: seq<Observation>)
    ensures InOrder(ByTime(s)) && multiset(ByTime(s)) == multiset(s)
  {
    if s != [] {
      ByTimeSorts(s[1..]);
      InsertInOrder(s[0], ByTime(s[1..]));
      InsertMultiset(s[0], ByTime(s[1..]));
      assert s == [s[0]] + s[1..];
    }
  }

  function Pick(o: Observation, t: nat): seq<Observation> {
    if o.at == t then [o] else []
  }

  function AtInstant(s: seq<Observation>, t: nat): seq<Observation> {
    if s == [] then [] else Pick(s[0], t) + AtInstant(s[1..], t)
  }

  lemma {:induction false} PicksSwap(x: Observation, y: Observation, t: nat, rest: seq<Observation>)
    requires x.at != y.at
    ensures Pick(x, t) + (Pick(y, t) + rest) == Pick(y, t) + (Pick(x, t) + rest)
  {
  }

  lemma {:induction false} InsertIsStable(x: Observation, s: seq<Observation>, t: nat)
    ensures AtInstant(Insert(x, s), t) == Pick(x, t) + AtInstant(s, t)
  {
    if s != [] && x.at > s[0].at {
      InsertIsStable(x, s[1..], t);
      assert Insert(x, s)[1..] == Insert(x, s[1..]);
      PicksSwap(x, s[0], t, AtInstant(s[1..], t));
    } else {
      assert Insert(x, s)[1..] == s;
    }
  }

  /** Sorting by time keeps the order of observations of one instant. */
  lemma {:induction false} ByTimeIsStable(s: seq<Observation>, t: nat)
    ensures AtInstant(ByTime(s), t) == AtInstant(s, t)
  {
    if s != [] {
      ByTimeIsStable(s[1..], t);
      InsertIsStable(s[0], ByTime(s[1..]), t);
    }
  }

  // ---------------------------------------------------------------- passes

  function Begun(o: Observation): Pass {
    Pass(o.at, o.at, map[o.provider := o.rtt])
  }

  function Grown(p: Pass, o: Observation): Pass {
    Pass(p.start, o.at, p.successes[o.provider := o.rtt])
  }

  function SaturatingSub(a: nat, b: nat): nat { if a < b then 0 else a - b }

  function Placed(passes: seq<Pass>, o: Observation): seq<Pass> {
    var n := |passes|;
    if n > 0 && SaturatingSub(o.at, passes[n - 1].end) <= PASS_GAP
    then passes[..n - 1] + [Grown(passes[n - 1], o)]
    else passes + [Begun(o)]
  }

  function PlacedAll(sorted: seq<Observation>): seq<Pass> {
    if sorted == [] then [] else Placed(PlacedAll(sorted[..|sorted| - 1]), sorted[|sorted| - 1])
  }

  method Passes(observations: seq<Observation>) returns (passes: seq<Pass>)
    ensures passes == PlacedAll(ByTime(observations))
  {
    var sorted := ByTime(observations);
    passes := [];
    for i := 0 to |sorted|
      invariant passes == PlacedAll(sorted[..i])
    {
      assert sorted[..i + 1][..i] == sorted[..i];
      var n, o := |passes|, sorted[i];
      if n > 0 && SaturatingSub(o.at, passes[n - 1].end) <= PASS_GAP {
        passes := passes[..n - 1] + [Grown(passes[n - 1], o)];
      } else {
        passes := passes + [Begun(o)];
      }
    }
    assert sorted[..|sorted|] == sorted;
  }

  // ---------------------------------------------------------------- clusters

  function Last(s: seq<Observation>): Observation
    requires s != []
  {
    s[|s| - 1]
  }

  predicate Gap(s: seq<Observation>, i: nat)
    requires 0 < i < |s|
  {
    SaturatingSub(s[i].at, s[i - 1].at) > PASS_GAP
  }

  /** Where the last cluster of a list begins: after the last gap, and there is none further on. */
  function LastStart(s: seq<Observation>): (r: nat)
    requires s != []
    ensures r < |s| && (r > 0 ==> Gap(s, r))
    ensures forall i :: r < i < |s| ==> !Gap(s, i)
  {
    var n := |s|;
    if n == 1 then 0 else if Gap(s, n - 1) then n - 1
    else
      assert forall i :: 0 < i < n - 1 ==> Gap(s[..n - 1], i) == Gap(s, i);
      LastStart(s[..n - 1])
  }

  /** The latest success of each provider. */
  function Succeeded(block: seq<Observation>): map<Name, int> {
    if block == [] then map[] else Succeeded(block[..|block| - 1])[Last(block).provider := Last(block).rtt]
  }

  function PassOf(block: seq<Observation>): Pass
    requires block != []
  {
    Pass(block[0].at, Last(block).at, Succeeded(block))
  }

  /** The division of a list into its maximal clusters of successive gaps at most `PASS_GAP`. */
  function ClustersOf(s: seq<Observation>): seq<Pass> {
    if s == [] then [] else ClustersOf(s[..LastStart(s)]) + [PassOf(s[LastStart(s)..])]
  }

  lemma {:induction false} LastStartSnoc(front: seq<Observation>, o: Observation)
    requires front != []
    ensures var s := front + [o];
            LastStart(s) == if SaturatingSub(o.at, Last(front).at) > PASS_GAP then |front| else LastStart(front)
  {
    assert (front + [o])[..|front|] == front;
  }

  lemma {:induction false} GrownIs(block: seq<Observation>, o: Observation)
    requires block != []
    ensures PassOf(block + [o]) == Grown(PassOf(block), o)
  {
    assert (block + [o])[..|block|] == block;
  }

  lemma {:induction false} BegunIs(o: Observation)
    ensures PassOf([o]) == Begun(o)
  {
    assert [o][..0] == [];
    assert Succeeded([]) == map[];
  }

  lemma {:induction false} PlacedGrows(before: seq<Pass>, block: seq<Observation>, o: Observation)
    requires block != [] && SaturatingSub(o.at, Last(block).at) <= PASS_GAP
    ensures Placed(before + [PassOf(block)], o) == before + [PassOf(block + [o])]
  {
    GrownIs(block, o);
  }

  lemma {:induction false} PlacedBegins(before: seq<Pass>, block: seq<Observation>, o: Observation)
    requires block != [] && SaturatingSub(o.at, Last(block).at) > PASS_GAP
    ensures Placed(before + [PassOf(block)], o) == before + [PassOf(block)] + [PassOf([o])]
  {
    BegunIs(o);
  }

  /** The passes the loop builds are exactly the maximal clusters, in order. */
  lemma {:induction false} PassesAreTheClusters(s: seq<Observation>)
    ensures PlacedAll(s) == ClustersOf(s)
  {
    if |s| == 1 {
      BegunIs(s[0]);
      assert s[..0] == [] && s[0..] == s == [s[0]];
      assert PlacedAll([]) == [];
    } else if |s| > 1 {
      var front, o := s[..|s| - 1], s[|s| - 1];
      PassesAreTheClusters(front);
      assert s == front + [o];
      ClustersSnoc(front, o);
    }
  }

  lemma {:induction false} ClustersSnoc(front: seq<Observation>, o: Observation)
    requires front != []
    ensures Placed(ClustersOf(front), o) == ClustersOf(front + [o])
  {
    var c, s := LastStart(front), front + [o];
    LastStartSnoc(front, o);
    if SaturatingSub(o.at, Last(front).at) > PASS_GAP {
      assert s[..|front|] == front && s[|front|..] == [o];
      PlacedBegins(ClustersOf(front[..c]), front[c..], o);
    } else {
      assert s[..c] == front[..c] && s[c..] == front[c..] + [o];
      PlacedGrows(ClustersOf(front[..c]), front[c..], o);
    }
  }

  /** A pass records exactly the providers observed in its cluster. */
  lemma {:induction false} SucceededIs(block: seq<Observation>, provider: Name)
    ensures provider in Succeeded(block) <==> exists o <- block :: o.provider == provider
  {
    if block != [] {
      var front := block[..|block| - 1];
      SucceededIs(front, provider);
      assert block == front + [Last(block)];
      assert forall o :: o in block <==> o in front || o == Last(block);
    }
  }

  // ---------------------------------------------------------------- spans

  ghost predicate Spaced(passes: seq<Pass>) {
    && (forall p <- passes :: p.start <= p.end)
    && forall i :: 0 <= i < |passes| - 1 ==> passes[i].end + PASS_GAP < passes[i + 1].start
  }

  lemma {:induction false} SpacedSnoc(passes: seq<Pass>, p: Pass)
    requires Spaced(passes) && p.start <= p.end
    requires passes != [] ==> passes[|passes| - 1].end + PASS_GAP < p.start
    ensures Spaced(passes + [p])
  {
  }

  lemma {:induction false} OrderedFront(s: seq<Observation>, n: nat)
    requires InOrder(s) && n <= |s|
    ensures InOrder(s[..n])
  {
    assert forall k :: 0 <= k < n ==> s[..n][k] == s[k];
  }

  lemma {:induction false} OldestFirst(s: seq<Observation>, i: nat, j: nat)
    requires InOrder(s) && i <= j < |s|
    ensures s[i].at <= s[j].at
    decreases j
  {
    if i < j {
      OldestFirst(s, i, j - 1);
      assert s[j - 1].at <= s[(j - 1) + 1].at;
    }
  }

  /** Passes come in order, each more than the gap after the one before. */
  lemma {:induction false} ClustersAreSpaced(s: seq<Observation>)
    requires InOrder(s)
    ensures Spaced(ClustersOf(s))
    ensures s != [] ==> ClustersOf(s) != [] && ClustersOf(s)[|ClustersOf(s)| - 1] == PassOf(s[LastStart(s)..])
  {
    if s != [] {
      var c := LastStart(s);
      var front, last := s[..c], PassOf(s[c..]);
      var before := ClustersOf(front);
      OrderedFront(s, c);
      ClustersAreSpaced(front);
      OldestFirst(s, c, |s| - 1);
      if c > 0 { assert before[|before| - 1].end == front[c - 1].at == s[c - 1].at && Gap(s, c); }
      SpacedSnoc(before, last);
      assert ClustersOf(s) == before + [last];
    }
  }

  lemma {:induction false} EarlierEndsEarlier(passes: seq<Pass>, i: nat, j: nat)
    requires Spaced(passes) && i < j < |passes|
    ensures passes[i].end + PASS_GAP < passes[j].start
    decreases j
  {
    if i < j - 1 {
      EarlierEndsEarlier(passes, i, j - 1);
      assert passes[j - 1] in passes;
    }
    assert passes[j - 1].end + PASS_GAP < passes[(j - 1) + 1].start;
  }

  ghost predicate Within(s: seq<Observation>, provider: Name, p: Pass) {
    exists o <- s :: o.provider == provider && p.start <= o.at <= p.end
  }

  lemma {:induction false} InLastCluster(s: seq<Observation>, i: nat)
    requires InOrder(s) && i < |s|
    ensures s[i].at <= Last(s).at
    ensures i >= LastStart(s) <==> s[LastStart(s)].at <= s[i].at
  {
    var c := LastStart(s);
    OldestFirst(s, i, |s| - 1);
    if i >= c { OldestFirst(s, c, i); } else { OldestFirst(s, i, c - 1); }
  }

  lemma {:induction false} SeenInLast(s: seq<Observation>, c: nat, o: Observation)
    requires InOrder(s) && s != [] && c == LastStart(s) && o in s[c..]
    ensures o in s && s[c].at <= o.at <= Last(s).at
  {
    var i :| 0 <= i < |s[c..]| && s[c..][i] == o;
    InLastCluster(s, c + i);
    assert s[c + i] == o;
  }

  lemma {:induction false} LastHasSeen(s: seq<Observation>, c: nat, o: Observation)
    requires InOrder(s) && s != [] && c == LastStart(s) && o in s && s[c].at <= o.at
    ensures o in s[c..]
  {
    var i :| 0 <= i < |s| && s[i] == o;
    InLastCluster(s, i);
    assert s[c..][i - c] == o;
  }

  /** The providers of the last pass are those observed between its first and last instant. */
  lemma {:induction false} LastPassHolds(s: seq<Observation>, provider: Name, last: Pass)
    requires InOrder(s) && s != [] && last == PassOf(s[LastStart(s)..])
    ensures provider in last.successes <==> Within(s, provider, last)
  {
    var c := LastStart(s);
    SucceededIs(s[c..], provider);
    if provider in last.successes {
      var o :| o in s[c..] && o.provider == provider;
      SeenInLast(s, c, o);
    }
    if Within(s, provider, last) {
      var o :| o in s && o.provider == provider && last.start <= o.at;
      LastHasSeen(s, c, o);
    }
  }

  // ---------------------------------------------------------------- statuses

  /** A journal entry, with what the line parsers found in it. */
  datatype Entry = Entry(at: nat, succeeded: Option<(Name, int)>, failed: Option<(Name, string)>)

  datatype Status = Status(
    ok: Option<bool>, rtt: Option<int>, error: Option<string>,
    probeAge: Option<nat>, lastOk: Option<nat>, lastFail: Option<nat>)

  const UNKNOWN := Status(None, None, None, None, None, None)

  function Observed(providers: seq<Name>, entries: seq<Entry>): seq<Observation> {
    if entries == [] then []
    else
      var s := entries[0].succeeded;
      (if s.Some? && s.value.0 in providers then [Observation(entries[0].at, s.value.0, s.value.1)] else [])
      + Observed(providers, entries[1..])
  }

  function Age(now: Option<nat>, past: nat): Option<nat> {
    if now.Some? && past <= now.value then Some(now.value - past) else None
  }

  /** The most recent pass a provider did, or did not, appear in. */
  function LastPass(passes: seq<Pass>, provider: Name, present: bool): Option<nat> {
    if passes == [] then None
    else
      var n := |passes|;
      if (provider in passes[n - 1].successes) == present then Some(passes[n - 1].end)
      else LastPass(passes[..n - 1], provider, present)
  }

  predicate Near(e: Entry, last: Pass) {
    e.at + PASS_GAP >= last.start && e.at <= last.end + PASS_GAP
  }

  predicate Names(e: Entry, provider: Name, last: Pass) {
    Near(e, last) && e.failed.Some? && e.failed.value.0 == provider
  }

  /** The latest failure line of a provider about the last pass; of several at one instant, the last. */
  function LatestFailure(entries: seq<Entry>, provider: Name, last: Pass): Option<(nat, string)> {
    if entries == [] then None
    else
      var rest, e := LatestFailure(entries[1..], provider, last), entries[0];
      if Names(e, provider, last) && (rest.None? || rest.value.0 < e.at) then Some((e.at, e.failed.value.1)) else rest
  }

  function Aged(now: Option<nat>, at: Option<nat>): Option<nat> {
    match at case None => None case Some(t) => Age(now, t)
  }

  function StatusOf(provider: Name, passes: seq<Pass>, entries: seq<Entry>, now: Option<nat>): Status {
    if passes == [] then UNKNOWN
    else
      var last := passes[|passes| - 1];
      var failure := LatestFailure(entries, provider, last);
      Status(
        Some(provider in last.successes),
        if provider in last.successes then Some(last.successes[provider]) else None,
        if failure.Some? then Some(failure.value.1) else None,
        Age(now, last.end),
        Aged(now, LastPass(passes, provider, true)),
        Aged(now, LastPass(passes, provider, false)))
  }

  function PassesIn(providers: seq<Name>, entries: seq<Entry>): seq<Pass> {
    PlacedAll(ByTime(Observed(providers, entries)))
  }

  method Statuses(providers: seq<Name>, entries: seq<Entry>, now: Option<nat>) returns (r: seq<Status>)
    ensures |r| == |providers|
    ensures forall i :: 0 <= i < |r| ==> r[i] == StatusOf(providers[i], PassesIn(providers, entries), entries, now)
  {
    var passes := Passes(Observed(providers, entries));
    r := seq(|providers|, i requires 0 <= i < |providers| => StatusOf(providers[i], passes, entries, now));
  }

  // ---------------------------------------------------------------- what a status says

  ghost predicate Witnessed(providers: seq<Name>, entries: seq<Entry>, provider: Name, at: nat) {
    provider in providers && exists e <- entries :: e.at == at && e.succeeded.Some? && e.succeeded.value.0 == provider
  }

  predicate IsOf(e: Entry, providers: seq<Name>, o: Observation) {
    e.succeeded == Some((o.provider, o.rtt)) && e.at == o.at && o.provider in providers
  }

  lemma {:induction false} ObservedIs(providers: seq<Name>, entries: seq<Entry>, provider: Name, at: nat)
    ensures (exists o <- Observed(providers, entries) :: o.provider == provider && o.at == at)
        <==> Witnessed(providers, entries, provider, at)
  {
    if entries != [] {
      ObservedIs(providers, entries[1..], provider, at);
      assert forall e :: e in entries <==> e == entries[0] || e in entries[1..];
      assert forall o :: o in Observed(providers, entries) <==>
        o in Observed(providers, entries[1..]) || IsOf(entries[0], providers, o);
    }
  }

  lemma {:induction false} SortedHasSame(s: seq<Observation>, o: Observation)
    ensures o in ByTime(s) <==> o in s
  {
    ByTimeSorts(s);
    assert o in multiset(s) <==> o in s;
    assert o in multiset(ByTime(s)) <==> o in ByTime(s);
  }

  /** With a witnessed pass, a provider is reported up exactly when one of its successes lies in the last
      pass; with no success of any configured provider, nothing is reported of anyone. */
  lemma {:induction false} OkExactlyWhen(providers: seq<Name>, entries: seq<Entry>, now: Option<nat>, provider: Name)
    ensures var passes := PassesIn(providers, entries);
            && (passes == [] <==> Observed(providers, entries) == [])
            && (passes == [] ==> StatusOf(provider, passes, entries, now) == UNKNOWN)
            && (passes != [] ==>
                 (StatusOf(provider, passes, entries, now).ok == Some(true)
                  <==> Within(Observed(providers, entries), provider, passes[|passes| - 1])))
  {
    var seen := Observed(providers, entries);
    var sorted := ByTime(seen);
    ByTimeSorts(seen);
    PassesAreTheClusters(sorted);
    if seen != [] {
      ClustersAreSpaced(sorted);
      LastPassHolds(sorted, provider, PassOf(sorted[LastStart(sorted)..]));
      forall o ensures o in sorted <==> o in seen { SortedHasSame(seen, o); }
    }
  }

  ghost predicate LastSuch(passes: seq<Pass>, provider: Name, present: bool, i: int) {
    && 0 <= i < |passes| && (provider in passes[i].successes) == present
    && forall j :: i < j < |passes| ==> (provider in passes[j].successes) != present
  }

  lemma {:induction false} LastPassIs(passes: seq<Pass>, provider: Name, present: bool)
    ensures var r := LastPass(passes, provider, present);
            && (r.None? <==> forall p <- passes :: (provider in p.successes) != present)
            && (r.Some? ==> exists i :: LastSuch(passes, provider, present, i) && passes[i].end == r.value)
  {
    if passes != [] {
      var front := passes[..|passes| - 1];
      LastPassIs(front, provider, present);
      assert passes == front + [passes[|passes| - 1]];
      if (provider in passes[|passes| - 1].successes) == present {
        assert LastSuch(passes, provider, present, |passes| - 1);
      } else if LastPass(passes, provider, present).Some? {
        var i :| LastSuch(front, provider, present, i) && front[i].end == LastPass(front, provider, present).value;
        assert LastSuch(passes, provider, present, i);
      }
    }
  }

  lemma {:induction false} OtherIsOlder(passes: seq<Pass>, provider: Name, present: bool)
    requires Spaced(passes) && passes != [] && (provider in passes[|passes| - 1].successes) != present
    ensures var r := LastPass(passes, provider, present); r.Some? ==> r.value + PASS_GAP < passes[|passes| - 1].start
  {
    LastPassIs(passes, provider, present);
    var r := LastPass(passes, provider, present);
    if r.Some? {
      var i :| LastSuch(passes, provider, present, i) && passes[i].end == r.value;
      EarlierEndsEarlier(passes, i, |passes| - 1);
    }
  }

  // ---------------------------------------------------------------- the order entries come in

  function TimesOf(s: seq<Observation>): (r: seq<int>)
    ensures |r| == |s| && forall i :: 0 <= i < |r| ==> r[i] == s[i].at
  {
    seq(|s|, i requires 0 <= i < |s| => s[i].at)
  }

  lemma {:induction false} TimesOfInsert(x: Observation, s: seq<Observation>)
    ensures TimesOf(Insert(x, s)) == Sorting.Insert(x.at, TimesOf(s))
  {
    if s == [] || x.at <= s[0].at {
      assert TimesOf([x] + s) == [x.at] + TimesOf(s);
    } else {
      TimesOfInsert(x, s[1..]);
      assert TimesOf(s)[1..] == TimesOf(s[1..]);
      assert TimesOf([s[0]] + Insert(x, s[1..])) == [s[0].at] + TimesOf(Insert(x, s[1..]));
    }
  }

  lemma {:induction false} TimesOfByTime(s: seq<Observation>)
    ensures TimesOf(ByTime(s)) == Sorting.Sort(TimesOf(s))
  {
    if s == [] {
      assert TimesOf(s) == [];
    } else {
      TimesOfByTime(s[1..]);
      TimesOfInsert(s[0], ByTime(s[1..]));
      assert TimesOf(s)[1..] == TimesOf(s[1..]);
    }
  }

  function Dropped(s: seq<Observation>, k: nat): (r: seq<Observation>)
    requires k < |s|
    ensures |r| == |s| - 1
  {
    s[..k] + s[k + 1..]
  }

  lemma {:induction false} DroppedOne(s: seq<Observation>, k: nat)
    requires k < |s|
    ensures multiset(s) == multiset(Dropped(s, k)) + multiset{s[k]}
  {
    assert s == s[..k] + [s[k]] + s[k + 1..];
  }

  lemma {:induction false} DroppedTime(s: seq<Observation>, k: nat)
    requires k < |s|
    ensures multiset(TimesOf(s)) == multiset(TimesOf(Dropped(s, k))) + multiset{s[k].at}
  {
    var x, y := TimesOf(s[..k]), TimesOf(s[k + 1..]);
    assert TimesOf(s) == x + [s[k].at] + y;
    assert TimesOf(Dropped(s, k)) == x + y;
  }

  lemma {:induction false} SameDropped(a: seq<Observation>, b: seq<Observation>, k: nat)
    requires multiset(a) == multiset(b) && a != [] && k < |b| && b[k] == a[0]
    ensures multiset(Dropped(a, 0)) == multiset(Dropped(b, k))
  {
    DroppedOne(a, 0);
    DroppedOne(b, k);
    assert multiset(Dropped(a, 0)) == multiset(a) - multiset{a[0]};
    assert multiset(Dropped(b, k)) == multiset(b) - multiset{b[k]};
  }

  lemma {:induction false} TimesIgnoreOrder(a: seq<Observation>, b: seq<Observation>)
    requires multiset(a) == multiset(b)
    ensures multiset(TimesOf(a)) == multiset(TimesOf(b))
    decreases |a|
  {
    Sorting.SameLength(a, b);
    if a != [] {
      assert a[0] in multiset(b);
      var k :| 0 <= k < |b| && b[k] == a[0];
      SameDropped(a, b, k);
      TimesIgnoreOrder(Dropped(a, 0), Dropped(b, k));
      DroppedTime(a, 0);
      DroppedTime(b, k);
    }
  }

  ghost predicate SameSpans(p: seq<Pass>, q: seq<Pass>) {
    |p| == |q| && forall i :: 0 <= i < |p| ==> p[i].start == q[i].start && p[i].end == q[i].end
  }

  lemma {:induction false} SameGaps(a: seq<Observation>, b: seq<Observation>)
    requires TimesOf(a) == TimesOf(b) && a != []
    ensures |a| == |b| && LastStart(a) == LastStart(b)
  {
    assert |TimesOf(a)| == |TimesOf(b)|;
    assert forall i :: 0 <= i < |a| ==> a[i].at == TimesOf(a)[i] == b[i].at;
    assert forall i :: 0 < i < |a| ==> Gap(a, i) == Gap(b, i);
  }

  /** The spans of the passes depend on the times alone. */
  lemma {:induction false} SpansOfTimes(a: seq<Observation>, b: seq<Observation>)
    requires TimesOf(a) == TimesOf(b)
    ensures SameSpans(ClustersOf(a), ClustersOf(b))
    decreases |a|
  {
    assert |TimesOf(a)| == |TimesOf(b)|;
    if a != [] {
      SameGaps(a, b);
      var c := LastStart(a);
      SameFront(a, b, c);
      SpansOfTimes(a[..c], b[..c]);
      SpansSnoc(ClustersOf(a[..c]), ClustersOf(b[..c]), PassOf(a[c..]), PassOf(b[c..]));
    }
  }

  lemma {:induction false} SameFront(a: seq<Observation>, b: seq<Observation>, c: nat)
    requires TimesOf(a) == TimesOf(b) && c < |a| == |b|
    ensures TimesOf(a[..c]) == TimesOf(b[..c])
    ensures a[c].at == b[c].at && Last(a).at == Last(b).at
  {
    assert TimesOf(a[..c]) == TimesOf(a)[..c] && TimesOf(b[..c]) == TimesOf(b)[..c];
    assert a[c].at == TimesOf(a)[c] && Last(a).at == TimesOf(a)[|a| - 1];
  }

  lemma {:induction false} SpansSnoc(p: seq<Pass>, q: seq<Pass>, x: Pass, y: Pass)
    requires SameSpans(p, q) && x.start == y.start && x.end == y.end
    ensures SameSpans(p + [x], q + [y])
  {
  }

  ghost predicate HoldsWithin(s: seq<Observation>, passes: seq<Pass>, provider: Name) {
    forall i :: 0 <= i < |passes| ==> (provider in passes[i].successes <==> Within(s, provider, passes[i]))
  }

  lemma {:induction false} WithinFront(s: seq<Observation>, c: nat, provider: Name, p: Pass)
    requires InOrder(s) && c < |s| && p.end < s[c].at
    ensures Within(s[..c], provider, p) <==> Within(s, provider, p)
  {
    assert forall o <- s[..c] :: o in s;
    if Within(s, provider, p) {
      var o :| o in s && o.provider == provider && p.start <= o.at <= p.end;
      var i :| 0 <= i < |s| && s[i] == o;
      if i >= c { OldestFirst(s, c, i); }
      assert s[..c][i] == o;
    }
  }

  /** Every pass records exactly the providers observed between its first and last instant. */
  lemma {:induction false} EveryPassHolds(s: seq<Observation>, provider: Name)
    requires InOrder(s)
    ensures HoldsWithin(s, ClustersOf(s), provider)
  {
    if s != [] {
      var c := LastStart(s);
      var before, last := ClustersOf(s[..c]), PassOf(s[c..]);
      OrderedFront(s, c);
      EveryPassHolds(s[..c], provider);
      ClustersAreSpaced(s);
      LastPassHolds(s, provider, last);
      assert ClustersOf(s) == before + [last];
      forall i | 0 <= i < |before| ensures provider in before[i].successes <==> Within(s, provider, before[i]) {
        EarlierEndsEarlier(ClustersOf(s), i, |before|);
        WithinFront(s, c, provider, before[i]);
      }
    }
  }

  predicate InSpan(o: Observation, p: Pass) {
    p.start <= o.at <= p.end
  }

  lemma {:induction false} InSomePass(s: seq<Observation>, i: nat) returns (k: nat)
    requires InOrder(s) && i < |s|
    ensures k < |ClustersOf(s)| && InSpan(s[i], ClustersOf(s)[k])
    decreases |s|
  {
    var c := LastStart(s);
    var before := ClustersOf(s[..c]);
    InLastCluster(s, i);
    if i >= c {
      k := |before|;
    } else {
      OrderedFront(s, c);
      k := InSomePass(s[..c], i);
    }
  }

  /** Every observation lies in the span of exactly one pass. */
  lemma {:induction false} InExactlyOnePass(observations: seq<Observation>, o: Observation) returns (k: nat)
    requires o in observations
    ensures var passes := PlacedAll(ByTime(observations));
            k < |passes| && forall j :: 0 <= j < |passes| ==> (InSpan(o, passes[j]) <==> j == k)
  {
    var s := ByTime(observations);
    ByTimeSorts(observations);
    SortedHasSame(observations, o);
    PassesAreTheClusters(s);
    ClustersAreSpaced(s);
    var i: nat :| i < |s| && s[i] == o;
    k := InSomePass(s, i);
    var passes := ClustersOf(s);
    forall j | 0 <= j < |passes| ensures InSpan(o, passes[j]) <==> j == k {
      if j < k { EarlierEndsEarlier(passes, j, k); }
      if k < j { EarlierEndsEarlier(passes, k, j); }
    }
  }

  /** Whatever order the observations come in, the passes have the same spans and the same providers. */
  lemma {:induction false} PassesIgnoreOrder(a: seq<Observation>, b: seq<Observation>, provider: Name)
    requires multiset(a) == multiset(b)
    ensures var p, q := PlacedAll(ByTime(a)), PlacedAll(ByTime(b));
            SameSpans(p, q) && forall i :: 0 <= i < |p| ==> (provider in p[i].successes <==> provider in q[i].successes)
  {
    var s, t := ByTime(a), ByTime(b);
    ByTimeSorts(a);
    ByTimeSorts(b);
    SameSorted(a, b);
    SpansOfTimes(s, t);
    PassesAreTheClusters(s);
    PassesAreTheClusters(t);
    EveryPassHolds(s, provider);
    EveryPassHolds(t, provider);
    forall i | 0 <= i < |ClustersOf(s)|
      ensures Within(s, provider, ClustersOf(s)[i]) <==> Within(t, provider, ClustersOf(t)[i]) {
      SameWithin(s, t, provider, ClustersOf(s)[i], ClustersOf(t)[i]);
    }
  }

  lemma {:induction false} SameSorted(a: seq<Observation>, b: seq<Observation>)
    requires multiset(a) == multiset(b)
    ensures TimesOf(ByTime(a)) == TimesOf(ByTime(b))
  {
    TimesOfByTime(a);
    TimesOfByTime(b);
    TimesIgnoreOrder(a, b);
    Sorting.SortIgnoresOrder(TimesOf(a), TimesOf(b));
  }

  lemma {:induction false} SameWithin(s: seq<Observation>, t: seq<Observation>, provider: Name, p: Pass, q: Pass)
    requires multiset(s) == multiset(t) && p.start == q.start && p.end == q.end
    ensures Within(s, provider, p) <==> Within(t, provider, q)
  {
    assert forall o <- s :: o in multiset(t);
    assert forall o <- t :: o in multiset(s);
  }

  /** Exactly one of the last success and the last failure is the last pass; the other is absent, or ended
      more than the gap before the last pass began. */
  lemma {:induction false} OneOfTheTwo(providers: seq<Name>, entries: seq<Entry>, provider: Name)
    requires PassesIn(providers, entries) != []
    ensures var passes := PassesIn(providers, entries);
            var last, up := passes[|passes| - 1], provider in passes[|passes| - 1].successes;
            && LastPass(passes, provider, up) == Some(last.end)
            && (LastPass(passes, provider, !up).Some? ==> LastPass(passes, provider, !up).value + PASS_GAP < last.start <= last.end)
  {
    var passes := PassesIn(providers, entries);
    ByTimeSorts(Observed(providers, entries));
    PassesAreTheClusters(ByTime(Observed(providers, entries)));
    ClustersAreSpaced(ByTime(Observed(providers, entries)));
    OtherIsOlder(passes, provider, !(provider in passes[|passes| - 1].successes));
    assert passes[|passes| - 1] in passes;
  }

  predicate OlderOrAbsent(age: Option<nat>, than: nat) {
    age.Some? ==> age.value > than + PASS_GAP
  }

  /** So in the report, with a clock at or after the last pass, the age of the verdict is the age of the
      last success or of the last failure as the verdict says, and the other is absent or older. */
  lemma {:induction false} AgesAgreeWithVerdict(providers: seq<Name>, entries: seq<Entry>, now: nat, provider: Name)
    requires PassesIn(providers, entries) != []
    requires now >= PassesIn(providers, entries)[|PassesIn(providers, entries)| - 1].end
    ensures var s := StatusOf(provider, PassesIn(providers, entries), entries, Some(now));
            && s.ok.Some? && s.probeAge.Some?
            && (if s.ok.value then s.lastOk else s.lastFail) == s.probeAge
            && OlderOrAbsent(if s.ok.value then s.lastFail else s.lastOk, s.probeAge.value)
            && (s.rtt.Some? <==> s.ok.value)
  {
    OneOfTheTwo(providers, entries, provider);
  }

  /** The reason given is the provider's latest failure line within the gap of the last pass, if any. */
  lemma {:induction false} ErrorIsLatest(entries: seq<Entry>, provider: Name, last: Pass)
    ensures var r := LatestFailure(entries, provider, last);
            && (r.None? <==> forall e <- entries :: !Names(e, provider, last))
            && (r.Some? ==> exists e <- entries :: Names(e, provider, last) && (e.at, e.failed.value.1) == r.value)
            && (r.Some? ==> forall e <- entries :: Names(e, provider, last) ==> e.at <= r.value.0)
  {
    if entries != [] {
      ErrorIsLatest(entries[1..], provider, last);
      assert forall e :: e in entries <==> e == entries[0] || e in entries[1..];
    }
  }
}
