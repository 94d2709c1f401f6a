/** What the record of a run over the battery's line says, in bytes, moments and counts. */
module BmsMeaning {
  import opened Bytes
  import opened Serial
  import opened BmsFrame
  import opened Silence
  import opened BmsListen

  // ---------------------------------------------------------------- the frames taken

  /** Bytes of a stream that are a frame: the four that open one, and the low byte of the sum of all before
      the last, which closes it. */
  ghost predicate FrameBytes(s: seq<byte>, i: nat) {
    && i + 300 <= |s| && s[i..i + 4] == [0x55, 0xAA, 0xEB, 0x90]
    && Total(s[i..i + 299]) % 256 == s[i + 299]
  }

  lemma {:induction false} GenuineIs(s: seq<byte>, i: nat)
    ensures Genuine(s, i) <==> FrameBytes(s, i)
  {
    if i + 300 <= |s| {
      assert s[i..i + 300][..299] == s[i..i + 299];
      Sum8IsTotal(s[i..i + 299]);
    }
  }

  /** Every frame a run takes is 300 bytes of what arrived, a frame by its header and its sum, and its kind
      is the fifth of them. */
  lemma {:induction false} TakenIs(script: seq<Turn>, firstFrame: Frame, config: Config, past: seq<Turn>, outcome: Outcome, log: Log, k: nat)
    returns (i: nat)
    requires RecordOf(script, firstFrame, config, past, outcome, log) && k < |log.skipped + FramesOf(log.arrivals)|
    ensures FrameBytes(Received(past), i)
    ensures var frame := (log.skipped + FramesOf(log.arrivals))[k];
            frame.data == Received(past)[i..i + 300] && frame.code == Received(past)[i + 4]
  {
    i := TakenAt(past, log.skipped + FramesOf(log.arrivals), k);
  }

  lemma {:induction false} TakenAt(past: seq<Turn>, frames: seq<Frame>, k: nat) returns (i: nat)
    requires TakenFrom(past, frames) && k < |frames|
    ensures FrameBytes(Received(past), i) && frames[k].data == Received(past)[i..i + 300] && frames[k].code == Received(past)[i + 4]
  {
    var s := Received(past);
    i := Starts(s)[k];
    ScanIsGreedy(s);
    assert Starts(s)[..|frames|][k] == i;
    GenuineIs(s, i);
  }

  // ---------------------------------------------------------------- the wait for settings

  /** The frames passed over while waiting are of other kinds, and the one that ends the wait is of kind one. */
  lemma {:induction false} WaitsForSettings(script: seq<Turn>, firstFrame: Frame, config: Config, past: seq<Turn>, outcome: Outcome, log: Log)
    requires RecordOf(script, firstFrame, config, past, outcome, log)
    ensures var n := |log.skipped|;
            if log.initial.Got?
            then n > 0 && log.skipped[n - 1] == log.initial.frame && log.initial.frame.code == 1
                 && forall k :: 0 <= k < n - 1 ==> log.skipped[k].code != 1
            else forall k :: 0 <= k < n ==> log.skipped[k].code != 1
  {
    WaitAnswers(log.initial, log.skipped);
  }

  lemma {:induction false} WaitAnswers(r: Reading, skipped: seq<Frame>)
    requires Answers(r, skipped, SettingsFrame)
    ensures if r.Got?
            then |skipped| > 0 && skipped[|skipped| - 1] == r.frame && r.frame.code == 1
                 && forall k :: 0 <= k < |skipped| - 1 ==> skipped[k].code != 1
            else forall k :: 0 <= k < |skipped| ==> skipped[k].code != 1
  {
    var n := |skipped|;
    if r.Got? {
      forall k | 0 <= k < n - 1 ensures skipped[k].code != 1 { assert !SettingsFrame(skipped[..n - 1][k]); }
    } else {
      forall k | 0 <= k < n ensures skipped[k].code != 1 { assert !SettingsFrame(skipped[k]); }
    }
  }

  // ---------------------------------------------------------------- the measurements

  /** A measurement is made at or after its moment, counted from the first and not from the one before,
      and with the read that crosses that moment when one is needed. */
  lemma {:induction false} MeasuredWhenDue(script: seq<Turn>, firstFrame: Frame, config: Config, past: seq<Turn>, outcome: Outcome, log: Log, k: nat)
    requires RecordOf(script, firstFrame, config, past, outcome, log) && k < |log.ticks|
    ensures var t := log.ticks[k];
            && t.turns <= |past| && t.now == Elapsed(past[..t.turns])
            && t.now >= log.first.at + config.interval * (k + 1)
            && (t.turns > (if k > 0 then log.ticks[k - 1].turns else log.began) ==>
                  Elapsed(past[..t.turns - 1]) < log.first.at + config.interval * (k + 1))
  {
    TickAt(past, |log.skipped|, log.ticks, log.began, log.first.at, config.interval, k);
  }

  lemma {:induction false} TickAt(past: seq<Turn>, base: nat, ticks: seq<Tick>, began: nat, started: nat, interval: nat, k: nat)
    requires AllOnTime(past, base, ticks, began, started, interval) && k < |ticks|
    ensures var t := ticks[k];
            && t.turns <= |past| && t.now == Elapsed(past[..t.turns])
            && t.now >= started + interval * (k + 1)
            && (t.turns > (if k > 0 then ticks[k - 1].turns else began) ==>
                  Elapsed(past[..t.turns - 1]) < started + interval * (k + 1))
    decreases |ticks|
  {
    var front := ticks[..|ticks| - 1];
    if k < |ticks| - 1 { TickAt(past, base, front, began, started, interval, k); }
  }

  /** What a measurement looks at is the last frame of kind two taken by then, or the one discovery saw if
      there has been none. */
  lemma {:induction false} LooksAtTheLast(script: seq<Turn>, firstFrame: Frame, config: Config, past: seq<Turn>, outcome: Outcome, log: Log, k: nat)
    requires RecordOf(script, firstFrame, config, past, outcome, log) && k < |log.ticks|
    ensures var seen, newest := log.ticks[k].seen, log.ticks[k].newest;
            && seen <= |log.arrivals|
            && ((newest == Some(log.first) && log.first.frame == firstFrame
                 && forall i :: 0 <= i < seen ==> log.arrivals[i].frame.code != 2)
                || exists j :: 0 <= j < seen && newest == Some(log.arrivals[j]) && log.arrivals[j].frame.code == 2
                               && forall i :: j < i < seen ==> log.arrivals[i].frame.code != 2)
  {
    LastOfKindTwo(log.arrivals, log.ticks[k].seen, Some(log.first));
  }

  lemma {:induction false} LastOfKindTwo(arrivals: seq<Arrival>, seen: nat, first: Option<Arrival>)
    requires seen <= |arrivals|
    ensures var newest := Newest(arrivals[..seen], REALTIME, first);
            || (newest == first && forall i :: 0 <= i < seen ==> arrivals[i].frame.code != 2)
            || exists j :: 0 <= j < seen && newest == Some(arrivals[j]) && arrivals[j].frame.code == 2
                           && forall i :: j < i < seen ==> arrivals[i].frame.code != 2
  {
    var front := arrivals[..seen];
    NewestIsLast(front, REALTIME, first);
    assert forall i :: 0 <= i < seen ==> front[i] == arrivals[i];
    if exists j :: 0 <= j < seen && Newest(front, REALTIME, first) == Some(front[j]) && front[j].frame.code == REALTIME && NoneAfter(front, j, REALTIME) {
      var j :| 0 <= j < seen && Newest(front, REALTIME, first) == Some(front[j]) && front[j].frame.code == REALTIME && NoneAfter(front, j, REALTIME);
      assert arrivals[j].frame.code == 2;
    }
  }

  // ---------------------------------------------------------------- what is handed on, and when a run gives up

  lemma {:induction false} PickNext(before: seq<nat>, n: nat, next: bool) returns (which: seq<nat>)
    requires forall k: nat :: k in before ==> k < n
    requires forall i, j :: 0 <= i < j < |before| ==> before[i] < before[j]
    ensures which == before + if next then [n] else []
    ensures forall i, j :: 0 <= i < j < |which| ==> which[i] < which[j]
    ensures forall k: nat :: k in which <==> k in before || (k == n && next)
  {
    which := before + if next then [n] else [];
    forall i, j | 0 <= i < j < |which| ensures which[i] < which[j] {
      assert before[i] in before;
    }
  }

  lemma {:induction false} PublishedStep(ticks: seq<Tick>, timeout: nat, n: nat)
    requires |ticks| == n + 1
    ensures Published(ticks, timeout) == Published(ticks[..n], timeout)
            + if ticks[n].newest.Some? && ticks[n].now - ticks[n].newest.value.at <= timeout then [ticks[n].newest.value] else []
  {
  }

  lemma {:induction false} PublishedPicks(ticks: seq<Tick>, timeout: nat) returns (which: seq<nat>)
    ensures forall i, j :: 0 <= i < j < |which| ==> which[i] < which[j]
    ensures forall k: nat :: k in which <==> k < |ticks| && ticks[k].newest.Some? && ticks[k].now - ticks[k].newest.value.at <= timeout
    ensures |Published(ticks, timeout)| == |which|
    ensures forall m :: 0 <= m < |which| ==> which[m] in which && Published(ticks, timeout)[m] == ticks[which[m]].newest.value
  {
    if ticks == [] {
      which := [];
    } else {
      var n := |ticks| - 1;
      var front := PublishedPicks(ticks[..n], timeout);
      which := PickNext(front, n, ticks[n].newest.Some? && ticks[n].now - ticks[n].newest.value.at <= timeout);
      PublishedStep(ticks, timeout, n);
      forall m | 0 <= m < |which| ensures which[m] in which && Published(ticks, timeout)[m] == ticks[which[m]].newest.value {
        if m < |front| { assert front[m] in front; }
      }
    }
  }

  /** The frames a run hands on are, in order, the newest ones at exactly those measurements where the
      newest was no older than the timeout. */
  lemma {:induction false} HandsOnTheFresh(script: seq<Turn>, firstFrame: Frame, config: Config, past: seq<Turn>, outcome: Outcome, log: Log)
    returns (which: seq<nat>)
    requires RecordOf(script, firstFrame, config, past, outcome, log)
    ensures forall i, j :: 0 <= i < j < |which| ==> which[i] < which[j]
    ensures forall k: nat :: k in which <==> (
              k < |log.ticks| && log.ticks[k].newest.Some? && log.ticks[k].now - log.ticks[k].newest.value.at <= config.frameTimeout)
    ensures |log.published| == |which|
    ensures forall m :: 0 <= m < |which| ==> which[m] in which && log.published[m] == log.ticks[which[m]].newest.value
  {
    which := PublishedPicks(log.ticks, config.frameTimeout);
  }

  lemma {:induction false} LiveMeans(ticks: seq<Tick>, timeout: nat, k: nat)
    requires k < |ticks|
    ensures Lives(ticks, timeout)[k] <==> ticks[k].newest.Some? && ticks[k].now - ticks[k].newest.value.at <= timeout
  {
  }

  lemma {:induction false} SilentMeans(live: seq<bool>, gaveUp: bool)
    requires GivesUpOnlyWhenSilent(live, gaveUp)
    ensures gaveUp <==> |live| >= 3 && !live[|live| - 1] && !live[|live| - 2] && !live[|live| - 3]
    ensures forall k :: 0 <= k < |live| - 3 ==> live[k] || live[k + 1] || live[k + 2]
  {
    forall k | 0 <= k < |live| - 3 ensures live[k] || live[k + 1] || live[k + 2] {
      assert !ThreeSilent(live[..k + 3]);
    }
  }

  lemma {:induction false} EndsBySilence(script: seq<Turn>, firstFrame: Frame, config: Config, past: seq<Turn>, outcome: Outcome, log: Log)
    requires RecordOf(script, firstFrame, config, past, outcome, log)
    ensures GivesUpOnlyWhenSilent(Lives(log.ticks, config.frameTimeout), outcome.WentSilent?)
  {
  }

  lemma {:induction false} LastThree(ticks: seq<Tick>, timeout: nat, gaveUp: bool)
    requires GivesUpOnlyWhenSilent(Lives(ticks, timeout), gaveUp)
    ensures gaveUp <==> |ticks| >= 3 && forall k :: |ticks| - 3 <= k < |ticks| ==> (
              ticks[k].newest.None? || ticks[k].now - ticks[k].newest.value.at > timeout)
  {
    var n := |ticks|;
    SilentMeans(Lives(ticks, timeout), gaveUp);
    if n >= 3 {
      LiveMeans(ticks, timeout, n - 1);
      LiveMeans(ticks, timeout, n - 2);
      LiveMeans(ticks, timeout, n - 3);
    }
  }

  /** A run gives up for silence exactly when each of its last three measurements had no frame or only one
      older than the timeout. */
  lemma {:induction false} GivesUpExactlyWhen(script: seq<Turn>, firstFrame: Frame, config: Config, past: seq<Turn>, outcome: Outcome, log: Log)
    requires RecordOf(script, firstFrame, config, past, outcome, log)
    ensures outcome == WentSilent <==> |log.ticks| >= 3 && forall k :: |log.ticks| - 3 <= k < |log.ticks| ==> (
              log.ticks[k].newest.None? || log.ticks[k].now - log.ticks[k].newest.value.at > config.frameTimeout)
  {
    EndsBySilence(script, firstFrame, config, past, outcome, log);
    LastThree(log.ticks, config.frameTimeout, outcome.WentSilent?);
  }

  /** And it would have given up before, had any three in a row before those been so. */
  lemma {:induction false} NoThreeBefore(script: seq<Turn>, firstFrame: Frame, config: Config, past: seq<Turn>, outcome: Outcome, log: Log, k: nat)
    returns (j: nat)
    requires RecordOf(script, firstFrame, config, past, outcome, log) && k + 3 < |log.ticks|
    ensures k <= j < k + 3 && log.ticks[j].newest.Some? && log.ticks[j].now - log.ticks[j].newest.value.at <= config.frameTimeout
  {
    var live := Lives(log.ticks, config.frameTimeout);
    EndsBySilence(script, firstFrame, config, past, outcome, log);
    SilentMeans(live, outcome.WentSilent?);
    j := if live[k] then k else if live[k + 1] then k + 1 else k + 2;
    LiveMeans(log.ticks, config.frameTimeout, j);
  }
}
