/** A provider's status, every field of it, read off the journal entries themselves. */
module Health {
  import opened Bytes
  import opened DnsCrypt

  // ---------------------------------------------------------------- what was observed

  ghost predicate Succeeds(e: Entry, providers: seq<Name>) {
    e.succeeded.Some? && e.succeeded.value.0 in providers
  }

  ghost predicate IsSuccess(e: Entry, o: Observation) {
    e.succeeded == Some((o.provider, o.rtt)) && e.at == o.at
  }

  /** The positions, in order, of the entries from `from` on that are successes of configured providers. */
  ghost predicate Picks(providers: seq<Name>, entries: seq<Entry>, from: nat, which: seq<nat>) {
    && (forall k: nat :: k in which <==> from <= k < |entries| && Succeeds(entries[k], providers))
    && forall i, j :: 0 <= i < j < |which| ==> which[i] < which[j]
  }

  lemma {:induction false} PicksOne(providers: seq<Name>, entries: seq<Entry>, from: nat, rest: seq<nat>)
    requires Picks(providers, entries, from + 1, rest) && from < |entries|
    ensures Picks(providers, entries, from, if Succeeds(entries[from], providers) then [from] + rest else rest)
  {
    if Succeeds(entries[from], providers) {
      var which := [from] + rest;
      forall i, j | 0 <= i < j < |which| ensures which[i] < which[j] { assert which[j] in rest; }
      forall k: nat ensures k in which <==> k == from || k in rest {}
    }
  }

  ghost predicate PickedOut(entries: seq<Entry>, which: seq<nat>, observed: seq<Observation>) {
    |which| == |observed| && forall m :: 0 <= m < |which| ==> which[m] < |entries| && IsSuccess(entries[which[m]], observed[m])
  }

  /** The observations are the successes of configured providers, entry by entry. */
  lemma {:induction false} ObservedAt(providers: seq<Name>, entries: seq<Entry>, from: nat) returns (which: seq<nat>)
    requires from <= |entries|
    ensures Picks(providers, entries, from, which) && PickedOut(entries, which, Observed(providers, entries[from..]))
    decreases |entries| - from
  {
    which := [];
    if from < |entries| {
      var rest := ObservedAt(providers, entries, from + 1);
      assert entries[from..][1..] == entries[from + 1..] && entries[from..][0] == entries[from];
      PicksOne(providers, entries, from, rest);
      which := if Succeeds(entries[from], providers) then [from] + rest else rest;
      PickedStep(providers, entries, from, rest, Observed(providers, entries[from + 1..]));
    }
  }

  lemma {:induction false} PickedStep(providers: seq<Name>, entries: seq<Entry>, from: nat, rest: seq<nat>, observed: seq<Observation>)
    requires from < |entries| && PickedOut(entries, rest, observed)
    ensures var s := entries[from].succeeded;
            PickedOut(entries, if Succeeds(entries[from], providers) then [from] + rest else rest,
                      (if s.Some? && s.value.0 in providers then [Observation(entries[from].at, s.value.0, s.value.1)] else []) + observed)
  {
  }

  // ---------------------------------------------------------------- the last pass

  /** The last pass begins after the last pause of more than 300 s and ends with the last observation. */
  ghost predicate LastPassIn(s: seq<Observation>, c: nat, last: Pass) {
    && c < |s| && last.start == s[c].at && last.end == s[|s| - 1].at
    && (c > 0 ==> s[c].at > s[c - 1].at + 300_000_000)
    && forall i :: c < i < |s| ==> s[i].at <= s[i - 1].at + 300_000_000
  }

  lemma {:induction false} LastStartIs(s: seq<Observation>)
    requires s != []
    ensures LastPassIn(s, LastStart(s), PassOf(s[LastStart(s)..]))
  {
    var c := LastStart(s);
    forall i | c < i < |s| ensures s[i].at <= s[i - 1].at + 300_000_000 { assert !Gap(s, i); }
  }

  lemma {:induction false} LatestSuccess(block: seq<Observation>, provider: Name) returns (i: nat)
    requires provider in Succeeded(block)
    ensures i < |block| && block[i].provider == provider && block[i].rtt == Succeeded(block)[provider]
    ensures forall j :: i < j < |block| ==> block[j].provider != provider
  {
    var n := |block| - 1;
    if block[n].provider == provider {
      i := n;
    } else {
      i := LatestSuccess(block[..n], provider);
      assert forall j :: 0 <= j < n ==> block[..n][j] == block[j];
    }
  }

  // ---------------------------------------------------------------- the reason

  /** A failure line of the provider, no more than 300 s outside the last pass. */
  ghost predicate Complains(e: Entry, provider: Name, last: Pass) {
    e.failed.Some? && e.failed.value.0 == provider && e.at + 300_000_000 >= last.start && e.at <= last.end + 300_000_000
  }

  /** The latest of them, and of several at one instant the one logged last. */
  ghost predicate LastComplaint(entries: seq<Entry>, provider: Name, last: Pass, i: nat) {
    && i < |entries| && Complains(entries[i], provider, last)
    && forall j :: 0 <= j < |entries| && Complains(entries[j], provider, last) ==>
         entries[j].at < entries[i].at || (entries[j].at == entries[i].at && j <= i)
  }

  lemma {:induction false} LatestComplaint(entries: seq<Entry>, provider: Name, last: Pass) returns (i: nat)
    ensures var r := LatestFailure(entries, provider, last);
            if r.None? then forall e <- entries :: !Complains(e, provider, last)
            else LastComplaint(entries, provider, last, i) && r.value == (entries[i].at, entries[i].failed.value.1)
  {
    i := 0;
    if entries != [] {
      var k := LatestComplaint(entries[1..], provider, last);
      var rest, e := LatestFailure(entries[1..], provider, last), entries[0];
      assert forall j :: 0 < j < |entries| ==> entries[j] == entries[1..][j - 1];
      if !(Complains(e, provider, last) && (rest.None? || rest.value.0 < e.at)) { i := k + 1; }
    }
  }

  // ---------------------------------------------------------------- the ages

  ghost predicate AgeIs(age: Option<nat>, now: Option<nat>, past: nat) {
    age == if now.Some? && past <= now.value then Some(now.value - past) else None
  }

  /** The age of the latest pass that the provider is in, or is not in. */
  ghost predicate AgeOfLast(age: Option<nat>, now: Option<nat>, passes: seq<Pass>, provider: Name, present: bool) {
    || (exists i :: LastSuch(passes, provider, present, i) && AgeIs(age, now, passes[i].end))
    || (age.None? && forall p <- passes :: (provider in p.successes) != present)
  }

  lemma {:induction false} AgedIs(passes: seq<Pass>, provider: Name, present: bool, now: Option<nat>)
    ensures AgeOfLast(Aged(now, LastPass(passes, provider, present)), now, passes, provider, present)
  {
    LastPassIs(passes, provider, present);
  }

  // ---------------------------------------------------------------- the status

  /** What is said of a provider about the last pass. `i` is its latest success, `f` its latest complaint. */
  ghost predicate Says(s: seq<Observation>, entries: seq<Entry>, passes: seq<Pass>, provider: Name, now: Option<nat>,
                       last: Pass, i: nat, f: nat, status: Status) {
    && status.ok.Some?
    && (status.ok.value <==> exists o <- s :: o.provider == provider && last.start <= o.at <= last.end)
    && (if status.ok.value
        then i < |s| && s[i].provider == provider && status.rtt == Some(s[i].rtt) && forall j :: i < j < |s| ==> s[j].provider != provider
        else status.rtt.None?)
    && (if status.error.None? then forall e <- entries :: !Complains(e, provider, last)
        else LastComplaint(entries, provider, last, f) && status.error == Some(entries[f].failed.value.1))
    && AgeIs(status.probeAge, now, last.end)
    && AgeOfLast(status.lastOk, now, passes, provider, true)
    && AgeOfLast(status.lastFail, now, passes, provider, false)
  }

  lemma {:induction false} SuccessIn(s: seq<Observation>, c: nat, provider: Name) returns (i: nat)
    requires c <= |s| && provider in Succeeded(s[c..])
    ensures i < |s| && s[i].provider == provider && s[i].rtt == Succeeded(s[c..])[provider]
    ensures forall j :: i < j < |s| ==> s[j].provider != provider
  {
    var k := LatestSuccess(s[c..], provider);
    i := c + k;
    assert forall j :: c <= j < |s| ==> s[j] == s[c..][j - c];
  }

  lemma {:induction false} StatusFields(provider: Name, passes: seq<Pass>, entries: seq<Entry>, now: Option<nat>, last: Pass)
    returns (f: nat)
    requires passes != [] && passes[|passes| - 1] == last
    ensures var status := StatusOf(provider, passes, entries, now);
            && status.ok == Some(provider in last.successes)
            && (if provider in last.successes then status.rtt == Some(last.successes[provider]) else status.rtt.None?)
            && (if status.error.None? then forall e <- entries :: !Complains(e, provider, last)
                else LastComplaint(entries, provider, last, f) && status.error == Some(entries[f].failed.value.1))
            && AgeIs(status.probeAge, now, last.end)
            && AgeOfLast(status.lastOk, now, passes, provider, true)
            && AgeOfLast(status.lastFail, now, passes, provider, false)
  {
    f := LatestComplaint(entries, provider, last);
    AgedIs(passes, provider, true, now);
    AgedIs(passes, provider, false, now);
  }

  lemma {:induction false} LastPassSays(s: seq<Observation>, entries: seq<Entry>, passes: seq<Pass>, provider: Name, now: Option<nat>,
                                        c: nat, last: Pass)
    returns (i: nat, f: nat)
    requires InOrder(s) && s != [] && passes != [] && passes[|passes| - 1] == last
    requires c == LastStart(s) && last == PassOf(s[c..])
    ensures Says(s, entries, passes, provider, now, last, i, f, StatusOf(provider, passes, entries, now))
  {
    LastPassHolds(s, provider, last);
    f := StatusFields(provider, passes, entries, now, last);
    i := 0;
    if provider in last.successes { i := SuccessIn(s, c, provider); }
  }

  /** Every field of every status: with no success of a configured provider nothing is said; otherwise the
      verdict, the time of the provider's latest success if it is up, its latest failure line about the last
      pass, and the ages of the last pass and of the last ones the provider was and was not in. */
  lemma {:induction false} StatusIs(providers: seq<Name>, entries: seq<Entry>, provider: Name, now: Option<nat>)
    returns (c: nat, i: nat, f: nat)
    ensures var s, passes := ByTime(Observed(providers, entries)), PassesIn(providers, entries);
            var status := StatusOf(provider, passes, entries, now);
            if s == [] then status == Status(None, None, None, None, None, None)
            else
              && passes != [] && LastPassIn(s, c, passes[|passes| - 1])
              && Says(s, entries, passes, provider, now, passes[|passes| - 1], i, f, status)
  {
    var s := ByTime(Observed(providers, entries));
    c, i, f := 0, 0, 0;
    ByTimeSorts(Observed(providers, entries));
    PassesAreTheClusters(s);
    if s != [] {
      ClustersAreSpaced(s);
      LastStartIs(s);
      c := LastStart(s);
      i, f := LastPassSays(s, entries, PassesIn(providers, entries), provider, now, c, PassOf(s[c..]));
    }
  }
}
