/** A measurement run is a function of what the line brought: one script has one record. */
module BmsRecord {
  import opened Bytes
  import opened Serial
  import opened Silence
  import opened BmsFrame
  import opened BmsListen

  // ---------------------------------------------------------------- where time and the line run out

  lemma {:induction false} UpTo(script: seq<Turn>, i: nat, j: nat)
    requires i <= j <= |script|
    ensures Elapsed(script[..i]) <= Elapsed(script[..j]) && Whole(script[..i]) <= Whole(script[..j])
  {
    assert script[..j][..i] == script[..i];
    GrownPast(script[..i], script[..j]);
  }

  /** Of the moments at or after `from`, one is the first that is not before the deadline. */
  ghost predicate Crosses(script: seq<Turn>, from: nat, n: nat, deadline: nat) {
    from <= n <= |script| && Elapsed(script[..n]) >= deadline && (n > from ==> Elapsed(script[..n - 1]) < deadline)
  }

  lemma {:induction false} CrossesOnce(script: seq<Turn>, from: nat, m: nat, n: nat, deadline: nat)
    requires Crosses(script, from, m, deadline) && Crosses(script, from, n, deadline)
    ensures m == n
  {
    if m < n { UpTo(script, m, n - 1); }
    if n < m { UpTo(script, n, m - 1); }
  }

  lemma {:induction false} GoneIn(script: seq<Turn>, n: nat, g: nat)
    requires g < n <= |script| && script[g].event.Gone?
    ensures !NoneGone(script[..n])
  {
    assert script[..n][g] in script[..n];
  }

  /** Once the adapter is lost, no later moment is reached with it still there. */
  lemma {:induction false} LostForGood(script: seq<Turn>, past: seq<Turn>, deadline: nat, n: nat)
    requires past <= script && Lost(past, script[|past|..], deadline) && n <= |script|
    ensures NoneGone(script[..n]) ==> Elapsed(script[..n]) < deadline
  {
    if past != [] && past[|past| - 1].event.Gone? && NoneGone(past[..|past| - 1]) && Elapsed(past[..|past| - 1]) < deadline {
      if n >= |past| {
        GoneIn(script, n, |past| - 1);
      } else {
        assert script[..|past| - 1] == past[..|past| - 1];
        UpTo(script, n, |past| - 1);
      }
    } else {
      assert script[..|script|] == script == past;
      UpTo(script, n, |script|);
    }
  }

  lemma {:induction false} LostOnce(script: seq<Turn>, a: seq<Turn>, b: seq<Turn>, d: nat, e: nat)
    requires a <= script && b <= script && Lost(a, script[|a|..], d) && Lost(b, script[|b|..], e)
    ensures a == b
  {
    LostFirst(script, a, b, d, e);
    LostFirst(script, b, a, e, d);
    assert a == script[..|a|] && b == script[..|b|];
  }

  lemma {:induction false} LostFirst(script: seq<Turn>, a: seq<Turn>, b: seq<Turn>, d: nat, e: nat)
    requires a <= script && b <= script && Lost(a, script[|a|..], d) && Lost(b, script[|b|..], e)
    ensures |a| >= |b|
  {
  }

  // ---------------------------------------------------------------- the frames taken

  lemma {:induction false} TakenOfScript(script: seq<Turn>, past: seq<Turn>, frames: seq<Frame>)
    requires past <= script && TakenFrom(past, frames)
    ensures TakenFrom(script, frames)
  {
    var left := script[|past|..];
    assert script == past + left;
    ReceivedConcat(past, left);
    StartsExtend(Received(past), Received(left));
    HandedExtends(Received(past), Received(left), Starts(Received(past))[..|frames|], frames);
    assert Starts(Received(script))[..|frames|] == Starts(Received(past))[..|frames|];
  }

  lemma {:induction false} TakenFront(script: seq<Turn>, a: seq<Frame>, b: seq<Frame>)
    requires TakenFrom(script, a + b)
    ensures TakenFrom(script, a)
  {
    var starts := Starts(Received(script));
    forall k | 0 <= k < |a| ensures starts[k] + FRAME_LEN <= |Received(script)| && a[k] == FrameAt(Received(script), starts[k]) {
      assert starts[..|a + b|][k] == starts[k] && (a + b)[k] == a[k];
    }
  }

  lemma {:induction false} TakenAgree(script: seq<Turn>, a: seq<Frame>, b: seq<Frame>, k: nat)
    requires TakenFrom(script, a) && TakenFrom(script, b) && k < |a| && k < |b|
    ensures a[k] == b[k]
  {
    var starts := Starts(Received(script));
    assert starts[..|a|][k] == starts[k] == starts[..|b|][k];
  }

  // ---------------------------------------------------------------- the wait

  /** How the wait went, told of the whole script. */
  ghost predicate WaitOf(script: seq<Turn>, log: Log, deadline: nat) {
    && Answers(log.initial, log.skipped, SettingsFrame) && TakenFrom(script, log.skipped)
    && log.began <= |script| && |log.skipped| <= Whole(script[..log.began])
    && (log.initial.TimedOut? ==> Elapsed(script[..log.began]) >= deadline && |log.skipped| == Whole(script[..log.began]))
    && (!log.initial.Failed? && log.began > 0 ==> LastRead(script[..log.began], 0, |log.skipped|, FoundIn(log.initial), deadline))
    && (log.initial.Failed? ==> Lost(script[..log.began], script[log.began..], deadline) && |log.skipped| == Whole(script[..log.began]))
  }

  lemma {:induction false} WaitTold(script: seq<Turn>, firstFrame: Frame, config: Config, past: seq<Turn>, outcome: Outcome, log: Log)
    requires RecordOf(script, firstFrame, config, past, outcome, log)
    ensures WaitOf(script, log, config.frameTimeout)
  {
    var taken := log.skipped + FramesOf(log.arrivals);
    TakenOfScript(script, past, taken);
    TakenFront(script, log.skipped, FramesOf(log.arrivals));
    assert script[..log.began] == past[..log.began];
    assert script[..|past|] == past;
  }

  lemma {:induction false} LostAfter(script: seq<Turn>, n: nat, end: nat, deadline: nat)
    requires end < n <= |script| && Lost(script[..end], script[end..], deadline)
    ensures !NoneGone(script[..n])
  {
    assert script[end..] != [];
    GoneIn(script, n, end - 1);
  }

  lemma {:induction false} GotBeforeNone(script: seq<Turn>, a: Log, b: Log, deadline: nat)
    requires WaitOf(script, a, deadline) && WaitOf(script, b, deadline) && a.initial.Got? && !b.initial.Got?
    ensures a.began <= b.began
  {
    if a.began > b.began {
      assert script[..a.began][..a.began - 1] == script[..a.began - 1];
      if b.initial.TimedOut? { UpTo(script, b.began, a.began - 1); } else { LostAfter(script, a.began, b.began, deadline); }
    }
  }

  /** If one wait got a settings frame, any other did, and it was no later. */
  lemma {:induction false} GotMeansGot(script: seq<Turn>, a: Log, b: Log, deadline: nat)
    requires WaitOf(script, a, deadline) && WaitOf(script, b, deadline) && a.initial.Got?
    ensures b.initial.Got? && |a.skipped| <= |b.skipped|
  {
    var n, m := |a.skipped|, |b.skipped|;
    if !b.initial.Got? {
      GotBeforeNone(script, a, b, deadline);
      UpTo(script, a.began, b.began);
    }
    forall k | 0 <= k < n && k < m ensures a.skipped[k] == b.skipped[k] { TakenAgree(script, a.skipped, b.skipped, k); }
    assert n <= m ==> b.skipped[n - 1] == a.skipped[n - 1];
  }

  lemma {:induction false} SameTurns(script: seq<Turn>, a: Log, b: Log, deadline: nat)
    requires WaitOf(script, a, deadline) && WaitOf(script, b, deadline) && a.initial.Got? && b.initial.Got? && |a.skipped| == |b.skipped|
    ensures a.began <= b.began
  {
    if a.began > b.began {
      assert script[..a.began][..a.began - 1] == script[..a.began - 1];
      UpTo(script, b.began, a.began - 1);
    }
  }

  lemma {:induction false} SameSkipped(script: seq<Turn>, a: seq<Frame>, b: seq<Frame>)
    requires TakenFrom(script, a) && TakenFrom(script, b) && |a| == |b|
    ensures a == b
  {
    forall k | 0 <= k < |a| ensures a[k] == b[k] { TakenAgree(script, a, b, k); }
  }

  lemma {:induction false} SameWithoutFrame(script: seq<Turn>, a: Log, b: Log, deadline: nat)
    requires WaitOf(script, a, deadline) && WaitOf(script, b, deadline) && !a.initial.Got? && !b.initial.Got?
    ensures a.initial == b.initial && a.began == b.began
  {
    if a.initial.Failed? { LostForGood(script, script[..a.began], deadline, b.began); }
    if b.initial.Failed? { LostForGood(script, script[..b.began], deadline, a.began); }
    if a.initial.Failed? && b.initial.Failed? {
      LostOnce(script, script[..a.began], script[..b.began], deadline, deadline);
      assert |script[..a.began]| == a.began && |script[..b.began]| == b.began;
    }
    TimedOutCrosses(script, a, deadline);
    TimedOutCrosses(script, b, deadline);
    if a.initial.TimedOut? && b.initial.TimedOut? { CrossesOnce(script, 0, a.began, b.began, deadline); }
  }

  lemma {:induction false} TimedOutCrosses(script: seq<Turn>, a: Log, deadline: nat)
    requires WaitOf(script, a, deadline)
    ensures a.initial.TimedOut? ==> Crosses(script, 0, a.began, deadline) && NoneGone(script[..a.began])
  {
    if a.initial.TimedOut? && a.began > 0 { assert script[..a.began][..a.began - 1] == script[..a.began - 1]; }
  }

  /** One script has one wait. */
  lemma {:induction false} WaitIsUnique(script: seq<Turn>, a: Log, b: Log, deadline: nat)
    requires WaitOf(script, a, deadline) && WaitOf(script, b, deadline)
    ensures a.initial == b.initial && a.skipped == b.skipped && a.began == b.began
  {
    if a.initial.Got? {
      GotMeansGot(script, a, b, deadline);
      GotMeansGot(script, b, a, deadline);
      SameTurns(script, a, b, deadline);
      SameTurns(script, b, a, deadline);
    } else if b.initial.Got? {
      GotMeansGot(script, b, a, deadline);
    } else {
      SameWithoutFrame(script, a, b, deadline);
    }
    SameSkipped(script, a.skipped, b.skipped);
  }

  // ---------------------------------------------------------------- the measurements

  /** The moment, the turns and the count of two measurements. */
  ghost predicate SameLooks(a: seq<Tick>, b: seq<Tick>) {
    |a| == |b| && forall k :: 0 <= k < |a| ==> (a[k].now, a[k].turns, a[k].seen) == (b[k].now, b[k].turns, b[k].seen)
  }

  lemma {:induction false} OnTimeTo(past: seq<Turn>, base: nat, ticks: seq<Tick>, began: nat, started: nat, interval: nat, n: nat)
    requires AllOnTime(past, base, ticks, began, started, interval) && n <= |ticks|
    ensures AllOnTime(past, base, ticks[..n], began, started, interval)
    decreases |ticks|
  {
    if n < |ticks| {
      OnTimeTo(past, base, ticks[..|ticks| - 1], began, started, interval, n);
      assert ticks[..|ticks| - 1][..n] == ticks[..n];
    } else {
      assert ticks[..n] == ticks;
    }
  }

  lemma {:induction false} OneNext(script: seq<Turn>, base: nat, x: Tick, y: Tick, due: nat, turns: nat, seen: nat)
    requires MadeOnTime(script, base, x, due, turns, seen) && MadeOnTime(script, base, y, due, turns, seen)
    ensures (x.now, x.turns, x.seen) == (y.now, y.turns, y.seen)
  {
    CrossesOnce(script, turns, x.turns, y.turns, due);
  }

  lemma {:induction false} SameFront(a: seq<Tick>, b: seq<Tick>, began: nat)
    requires |a| == |b| > 0 && SameLooks(a[..|a| - 1], b[..|a| - 1])
    ensures TurnsBy(a[..|a| - 1], began) == TurnsBy(b[..|a| - 1], began) && SeenBy(a[..|a| - 1]) == SeenBy(b[..|a| - 1])
    ensures forall k :: 0 <= k < |a| - 1 ==> (a[k].now, a[k].turns, a[k].seen) == (b[k].now, b[k].turns, b[k].seen)
  {
    forall k | 0 <= k < |a| - 1 ensures (a[k].now, a[k].turns, a[k].seen) == (b[k].now, b[k].turns, b[k].seen) {
      assert a[..|a| - 1][k] == a[k] && b[..|a| - 1][k] == b[k];
    }
  }

  /** Measurements of one script are made at the same moments, of the same frames. */
  lemma {:induction false} SameMoments(script: seq<Turn>, base: nat, a: seq<Tick>, b: seq<Tick>, began: nat, started: nat, interval: nat)
    requires AllOnTime(script, base, a, began, started, interval) && AllOnTime(script, base, b, began, started, interval)
    requires |a| == |b|
    ensures SameLooks(a, b)
    decreases |a|
  {
    if a != [] {
      var n := |a| - 1;
      SameMoments(script, base, a[..n], b[..n], began, started, interval);
      SameFront(a, b, began);
      OneNext(script, base, a[n], b[n], Due(started, interval, n), TurnsBy(a[..n], began), SeenBy(a[..n]));
    }
  }

  lemma {:induction false} SameSince(a: seq<Tick>, b: seq<Tick>, first: nat, i: nat)
    requires SameLooks(a, b)
    ensures Since(a, first, i) == Since(b, first, i)
  {
    if a != [] {
      var n := |a| - 1;
      assert SameLooks(a[..n], b[..n]) by {
        assert forall k :: 0 <= k < n ==> a[..n][k] == a[k] && b[..n][k] == b[k];
      }
      SameSince(a[..n], b[..n], first, i);
    }
  }

  /** Later measurements do not matter to frames that an earlier one saw. */
  lemma {:induction false} SinceTo(script: seq<Turn>, base: nat, ticks: seq<Tick>, began: nat, started: nat, interval: nat, n: nat, i: nat)
    requires AllOnTime(script, base, ticks, began, started, interval) && n <= |ticks| && i < SeenBy(ticks[..n])
    ensures Since(ticks, started, i) == Since(ticks[..n], started, i)
    decreases |ticks|
  {
    if n < |ticks| {
      var m := |ticks| - 1;
      TicksInOrder(script, base, ticks, began, started, interval, n - 1, m);
      assert ticks[..m][..n] == ticks[..n];
      SinceTo(script, base, ticks[..m], began, started, interval, n, i);
    } else {
      assert ticks[..n] == ticks;
    }
  }

  // ---------------------------------------------------------------- what a record says of the whole script

  ghost predicate Tells(script: seq<Turn>, log: Log, interval: nat) {
    && TakenFrom(script, log.skipped + FramesOf(log.arrivals)) && KeepsTime(script, log, interval)
    && LooksAtNewest(log.ticks, log.arrivals, log.first)
  }

  lemma {:induction false} RecordTells(script: seq<Turn>, firstFrame: Frame, config: Config, past: seq<Turn>, outcome: Outcome, log: Log)
    requires RecordOf(script, firstFrame, config, past, outcome, log)
    ensures Tells(script, log, config.interval)
  {
    var left := script[|past|..];
    assert script == past + left && script[..log.began] == past[..log.began];
    TakenOfScript(script, past, log.skipped + FramesOf(log.arrivals));
    StampedStays(past, left, |log.skipped|, log.ticks, log.first.at, log.arrivals);
    AllOnTimeStays(past, left, |log.skipped|, log.ticks, log.began, log.first.at, config.interval);
  }

  lemma {:induction false} SinceAgrees(script: seq<Turn>, base: nat, a: seq<Tick>, b: seq<Tick>, began: nat, started: nat, interval: nat, n: nat, i: nat)
    requires AllOnTime(script, base, a, began, started, interval) && AllOnTime(script, base, b, began, started, interval)
    requires n <= |a| && n <= |b| && ((i < SeenBy(a[..n]) && i < SeenBy(b[..n])) || n == |a| == |b|)
    ensures Since(a, started, i) == Since(b, started, i)
  {
    OnTimeTo(script, base, a, began, started, interval, n);
    OnTimeTo(script, base, b, began, started, interval, n);
    SameMoments(script, base, a[..n], b[..n], began, started, interval);
    SameSince(a[..n], b[..n], started, i);
    if n == |a| == |b| {
      assert a[..n] == a && b[..n] == b;
    } else {
      SinceTo(script, base, a, began, started, interval, n, i);
      SinceTo(script, base, b, began, started, interval, n, i);
    }
  }

  lemma {:induction false} SameFrame(script: seq<Turn>, skipped: seq<Frame>, a: seq<Arrival>, b: seq<Arrival>, i: nat)
    requires TakenFrom(script, skipped + FramesOf(a)) && TakenFrom(script, skipped + FramesOf(b)) && i < |a| && i < |b|
    ensures a[i].frame == b[i].frame
  {
    TakenAgree(script, skipped + FramesOf(a), skipped + FramesOf(b), |skipped| + i);
  }

  lemma {:induction false} SameStamp(script: seq<Turn>, base: nat, a: seq<Tick>, b: seq<Tick>, first: nat, x: seq<Arrival>, y: seq<Arrival>, i: nat)
    requires Stamped(script, base, a, first, x) && Stamped(script, base, b, first, y) && i < |x| && i < |y|
    requires Since(a, first, i) == Since(b, first, i)
    ensures x[i].at == y[i].at
  {
    assert x[i].at == StampOf(script, base, a, first, i);
    assert y[i].at == StampOf(script, base, b, first, i);
  }

  /** An arrival is settled by the measurements made before it was taken. */
  lemma {:induction false} SameArrival(script: seq<Turn>, a: Log, b: Log, interval: nat, n: nat, i: nat)
    requires Tells(script, a, interval) && Tells(script, b, interval) && SameStart(a, b)
    requires n <= |a.ticks| && n <= |b.ticks| && i < |a.arrivals| && i < |b.arrivals|
    requires (i < SeenBy(a.ticks[..n]) && i < SeenBy(b.ticks[..n])) || n == |a.ticks| == |b.ticks|
    ensures a.arrivals[i] == b.arrivals[i]
  {
    SameFrame(script, a.skipped, a.arrivals, b.arrivals, i);
    SinceAgrees(script, |a.skipped|, a.ticks, b.ticks, a.began, a.first.at, interval, n, i);
    SameStamp(script, |a.skipped|, a.ticks, b.ticks, a.first.at, a.arrivals, b.arrivals, i);
  }

  lemma {:induction false} SameLook(script: seq<Turn>, base: nat, a: seq<Tick>, b: seq<Tick>, began: nat, started: nat, interval: nat, k: nat)
    requires AllOnTime(script, base, a, began, started, interval) && AllOnTime(script, base, b, began, started, interval)
    requires k < |a| && k < |b|
    ensures (a[k].now, a[k].turns, a[k].seen) == (b[k].now, b[k].turns, b[k].seen)
    ensures SeenBy(a[..k + 1]) == a[k].seen && SeenBy(b[..k + 1]) == b[k].seen
  {
    OnTimeTo(script, base, a, began, started, interval, k + 1);
    OnTimeTo(script, base, b, began, started, interval, k + 1);
    SameMoments(script, base, a[..k + 1], b[..k + 1], began, started, interval);
    assert a[..k + 1][k] == a[k] && b[..k + 1][k] == b[k];
  }

  /** As far as both go, two records measure the same. */
  lemma {:induction false} SameTick(script: seq<Turn>, a: Log, b: Log, interval: nat, k: nat)
    requires Tells(script, a, interval) && Tells(script, b, interval) && SameStart(a, b)
    requires k < |a.ticks| && k < |b.ticks|
    ensures a.ticks[k] == b.ticks[k]
  {
    SameLook(script, |a.skipped|, a.ticks, b.ticks, a.began, a.first.at, interval, k);
    var seen := a.ticks[k].seen;
    assert a.ticks[k].newest == Newest(a.arrivals[..seen], REALTIME, Some(a.first));
    assert b.ticks[k].newest == Newest(b.arrivals[..seen], REALTIME, Some(b.first));
    forall i | 0 <= i < seen ensures a.arrivals[i] == b.arrivals[i] {
      SameArrival(script, a, b, interval, k + 1, i);
    }
    assert a.arrivals[..seen] == b.arrivals[..seen];
  }

  lemma {:induction false} SameTicks(script: seq<Turn>, a: Log, b: Log, interval: nat)
    requires Tells(script, a, interval) && Tells(script, b, interval) && SameStart(a, b) && |a.ticks| <= |b.ticks|
    ensures a.ticks == b.ticks[..|a.ticks|]
  {
    forall k | 0 <= k < |a.ticks| ensures a.ticks[k] == b.ticks[k] { SameTick(script, a, b, interval, k); }
  }

  // ---------------------------------------------------------------- and so one record

  lemma {:induction false} TickCrosses(script: seq<Turn>, base: nat, ticks: seq<Tick>, began: nat, started: nat, interval: nat, k: nat)
    requires AllOnTime(script, base, ticks, began, started, interval) && k < |ticks|
    ensures ticks[k].turns <= |script| && NoneGone(script[..ticks[k].turns])
    ensures Elapsed(script[..ticks[k].turns]) >= Due(started, interval, k)
    decreases |ticks|
  {
    if k < |ticks| - 1 { TickCrosses(script, base, ticks[..|ticks| - 1], began, started, interval, k); }
  }

  lemma {:induction false} LivesTo(ticks: seq<Tick>, timeout: nat, n: nat)
    requires n <= |ticks|
    ensures Lives(ticks, timeout)[..n] == Lives(ticks[..n], timeout)
  {
  }

  /** No run stops where another goes on. */
  lemma {:induction false} NotBefore(script: seq<Turn>, firstFrame: Frame, config: Config,
                                     past: seq<Turn>, outcome: Outcome, a: Log, later: seq<Turn>, other: Outcome, b: Log)
    requires RecordOf(script, firstFrame, config, past, outcome, a) && RecordOf(script, firstFrame, config, later, other, b)
    requires SameStart(a, b)
    ensures |a.ticks| >= |b.ticks|
  {
    var n := |a.ticks|;
    if n < |b.ticks| {
      RecordTells(script, firstFrame, config, past, outcome, a);
      RecordTells(script, firstFrame, config, later, other, b);
      SameTicks(script, a, b, config.interval);
      LivesTo(b.ticks, config.frameTimeout, n);
      assert !ThreeSilent(Lives(b.ticks, config.frameTimeout)[..n]);
      TickCrosses(script, |b.skipped|, b.ticks, b.began, b.first.at, config.interval, n);
      LostForGood(script, past, Due(a.first.at, config.interval, n), b.ticks[n].turns);
    }
  }

  lemma {:induction false} OneStart(script: seq<Turn>, firstFrame: Frame, config: Config,
                                    past: seq<Turn>, outcome: Outcome, a: Log, later: seq<Turn>, other: Outcome, b: Log)
    requires RecordOf(script, firstFrame, config, past, outcome, a) && RecordOf(script, firstFrame, config, later, other, b)
    ensures SameStart(a, b)
  {
    WaitTold(script, firstFrame, config, past, outcome, a);
    WaitTold(script, firstFrame, config, later, other, b);
    WaitIsUnique(script, a, b, config.frameTimeout);
    assert past[..a.began] == script[..a.began] == later[..b.began];
  }

  lemma {:induction false} OneEnd(script: seq<Turn>, config: Config, past: seq<Turn>, outcome: Outcome, a: Log,
                                  later: seq<Turn>, other: Outcome, b: Log)
    requires past <= script && EndsAs(past, script[|past|..], outcome, a, config)
    requires later <= script && EndsAs(later, script[|later|..], other, b, config)
    requires SameStart(a, b) && a.ticks == b.ticks
    ensures outcome == other && past == later && |a.arrivals| == |b.arrivals|
  {
    assert outcome == other;
    if outcome.AdapterGone? {
      LostOnce(script, past, later, LastDeadline(a, config), LastDeadline(b, config));
    } else {
      assert past == script[..|past|] && later == script[..|later|];
    }
  }

  lemma {:induction false} SameMeasurements(script: seq<Turn>, firstFrame: Frame, config: Config,
                                            past: seq<Turn>, outcome: Outcome, a: Log, later: seq<Turn>, other: Outcome, b: Log)
    requires RecordOf(script, firstFrame, config, past, outcome, a) && RecordOf(script, firstFrame, config, later, other, b)
    requires SameStart(a, b)
    ensures a.ticks == b.ticks && Tells(script, a, config.interval) && Tells(script, b, config.interval)
  {
    NotBefore(script, firstFrame, config, past, outcome, a, later, other, b);
    NotBefore(script, firstFrame, config, later, other, b, past, outcome, a);
    RecordTells(script, firstFrame, config, past, outcome, a);
    RecordTells(script, firstFrame, config, later, other, b);
    SameTicks(script, a, b, config.interval);
  }

  lemma {:induction false} SameArrivals(script: seq<Turn>, a: Log, b: Log, interval: nat)
    requires Tells(script, a, interval) && Tells(script, b, interval) && SameStart(a, b)
    requires |a.ticks| == |b.ticks| && |a.arrivals| == |b.arrivals|
    ensures a.arrivals == b.arrivals
  {
    forall i | 0 <= i < |a.arrivals| ensures a.arrivals[i] == b.arrivals[i] {
      SameArrival(script, a, b, interval, |a.ticks|, i);
    }
  }

  /** Two records of one script are the same: how the run ended, how much of the script it used, every
      frame it took and when, every measurement, and everything handed on. */
  lemma {:induction false} RecordIsUnique(script: seq<Turn>, firstFrame: Frame, config: Config,
                                          past: seq<Turn>, outcome: Outcome, a: Log, later: seq<Turn>, other: Outcome, b: Log)
    requires RecordOf(script, firstFrame, config, past, outcome, a) && RecordOf(script, firstFrame, config, later, other, b)
    ensures past == later && outcome == other && a == b
  {
    OneStart(script, firstFrame, config, past, outcome, a, later, other, b);
    SameMeasurements(script, firstFrame, config, past, outcome, a, later, other, b);
    OneEnd(script, config, past, outcome, a, later, other, b);
    SameArrivals(script, a, b, config.interval);
  }
}
