/** The passive listener over a frame reader: wait for one kind of frame, keep the freshest of each
    kind, and give up on a port that stays silent. */
module BmsListen {
  import opened Bytes
  import opened Serial
  import opened Silence
  import opened BmsFrame

  datatype Reading = Got(frame: Frame) | TimedOut | Failed

  ghost predicate NoneAccepted(frames: seq<Frame>, accept: Frame -> bool) {
    forall k :: 0 <= k < |frames| ==> !accept(frames[k])
  }

  /** What one wait did with the frames it took: it stops at the first accepted one. */
  ghost predicate Answers(r: Reading, passed: seq<Frame>, accept: Frame -> bool) {
    if r.Got?
    then passed != [] && passed[|passed| - 1] == r.frame && accept(r.frame) && NoneAccepted(passed[..|passed| - 1], accept)
    else NoneAccepted(passed, accept)
  }

  lemma {:induction false} AnswersLater(a: seq<Frame>, r: Reading, b: seq<Frame>, accept: Frame -> bool)
    requires NoneAccepted(a, accept) && Answers(r, b, accept)
    ensures Answers(r, a + b, accept)
  {
    if r.Got? { assert (a + b)[..|a + b| - 1] == a + b[..|b| - 1]; }
  }

  /** Take buffered frames until one is accepted. */
  method TakeBuffered(reader: FrameReader, accept: Frame -> bool, ghost seen: seq<Frame>)
    returns (found: Option<Frame>, ghost passed: seq<Frame>)
    requires reader.Valid() && Handed(reader.fed, reader.delivered, seen)
    modifies reader
    ensures reader.Valid() && Handed(reader.fed, reader.delivered, seen + passed)
    ensures reader.fed == old(reader.fed)
    ensures found.None? ==> reader.Drained() && NoneAccepted(passed, accept)
    ensures found.Some? ==> Answers(Got(found.value), passed, accept) && |reader.buffer| < |old(reader.buffer)|
  {
    passed := [];
    assert seen + passed == seen;
    while true
      invariant reader.Valid() && Handed(reader.fed, reader.delivered, seen + passed)
      invariant reader.fed == old(reader.fed) && |reader.buffer| <= |old(reader.buffer)|
      invariant NoneAccepted(passed, accept)
      decreases |reader.buffer|
    {
      ghost var before := reader.delivered;
      var got := reader.NextFrame();
      match got {
        case None => return None, passed;
        case Some(frame) =>
          HandedOne(reader.fed, before, reader.delivered, seen + passed, frame);
          assert seen + (passed + [frame]) == seen + passed + [frame];
          passed := passed + [frame];
          if accept(frame) {
            return got, passed;
          }
      }
    }
  }

  // ---------------------------------------------------------------- when a frame is complete

  /** How many frames some turns complete, and how many all but the last of them do. */
  function Whole(past: seq<Turn>): nat {
    |Starts(Received(past))|
  }

  function Before(past: seq<Turn>): nat {
    if past == [] then 0 else Whole(past[..|past| - 1])
  }

  /** The clock when the last byte of a frame had arrived. */
  function Ready(past: seq<Turn>, j: nat): nat
    requires j < Whole(past)
  {
    ArrivedAt(past, Starts(Received(past))[j] + FRAME_LEN)
  }

  lemma {:induction false} ReadyStays(past: seq<Turn>, more: seq<Turn>, j: nat)
    requires j < Whole(past)
    ensures j < Whole(past + more) && Ready(past + more, j) == Ready(past, j)
  {
    ReceivedConcat(past, more);
    StartsExtend(Received(past), Received(more));
    StartsFit(Received(past), j);
    ArrivedStays(past, more, Starts(Received(past))[j] + FRAME_LEN);
  }

  /** A frame that the last turn completed is ready only then. */
  lemma {:induction false} ReadyNow(past: seq<Turn>, j: nat)
    requires Before(past) <= j < Whole(past)
    ensures Ready(past, j) == Elapsed(past)
  {
    if past != [] {
      var front, last := past[..|past| - 1], past[|past| - 1..];
      assert past == front + last;
      ReceivedConcat(front, last);
      StartsExtend(Received(front), Received(last));
    }
  }

  // ---------------------------------------------------------------- waiting for a frame

  /** The reader has been fed what the line has brought, and has handed out `taken` frames of it. */
  ghost predicate Listening(line: Line, reader: FrameReader, taken: seq<Frame>)
    reads line, reader
  {
    && reader.Valid() && Handed(reader.fed, reader.delivered, taken)
    && reader.fed == Received(line.past) && line.Timed()
  }

  lemma {:induction false} TakenOfWhole(line: Line, reader: FrameReader, taken: seq<Frame>)
    requires Listening(line, reader, taken)
    ensures |taken| <= Whole(line.past)
    ensures reader.Drained() ==> |taken| == Whole(line.past)
  {
    DeliveredSoFar(reader);
  }

  /** The last read of a wait began before the deadline, when nothing complete was waiting; `taken` frames
      have been taken since the start, `found` of them after it. */
  ghost predicate LastRead(past: seq<Turn>, seen: nat, taken: nat, found: nat, deadline: nat) {
    && past != [] && seen <= Before(past) && Before(past) + found <= taken
    && Elapsed(past[..|past| - 1]) < deadline && NoneGone(past)
  }

  /** One read, and the frames it completes. */
  method PumpOnce(line: Line, reader: FrameReader, accept: Frame -> bool, ghost seen: seq<Frame>, ghost deadline: nat)
    returns (gone: bool, found: Option<Frame>, ghost passed: seq<Frame>)
    requires Listening(line, reader, seen) && reader.Drained() && line.now < deadline && NoneGone(line.past)
    modifies reader, line
    ensures Listening(line, reader, seen + passed) && Onward(line)
    ensures gone ==> found.None? && passed == [] && line.LostBy(deadline)
    ensures !gone ==> |line.turns| < |old(line.turns)|
    ensures !gone ==> LastRead(line.past, |seen|, |seen| + |passed|, if found.Some? then 1 else 0, deadline)
    ensures found.None? ==> reader.Drained() && NoneAccepted(passed, accept)
    ensures found.Some? ==> Answers(Got(found.value), passed, accept)
  {
    assert seen + [] == seen;
    TakenOfWhole(line, reader, seen);
    var read := line.ReadSome();
    match read {
      case Disconnected => return true, None, [];
      case Count(chunk) =>
        gone := false;
        assert line.past[..|line.past| - 1] == old(line.past);
        HandedExtends(reader.fed, chunk, reader.delivered, seen);
        reader.Feed(chunk);
        found, passed := TakeBuffered(reader, accept, seen);
    }
  }

  function FoundIn(r: Reading): nat { if r.Got? then 1 else 0 }

  lemma {:induction false} Continued(past: seq<Turn>, seen: seq<Frame>, passed: seq<Frame>, r: Reading, more: seq<Frame>,
                                     accept: Frame -> bool, deadline: nat)
    requires NoneAccepted(passed, accept) && Answers(r, more, accept)
    ensures Answers(r, passed + more, accept) && seen + (passed + more) == seen + passed + more
    ensures LastRead(past, |seen + passed|, |seen + passed| + |more|, FoundIn(r), deadline)
        ==> LastRead(past, |seen|, |seen| + |passed + more|, FoundIn(r), deadline)
  {
    AnswersLater(passed, r, more, accept);
  }

  /** Read until a frame is accepted, with nothing waiting to begin with. */
  method PumpUntil(line: Line, reader: FrameReader, deadline: nat, accept: Frame -> bool, ghost seen: seq<Frame>)
    returns (r: Reading, ghost passed: seq<Frame>)
    requires Listening(line, reader, seen) && reader.Drained() && NoneGone(line.past)
    modifies reader, line
    ensures Listening(line, reader, seen + passed) && Onward(line)
    ensures Answers(r, passed, accept)
    ensures !r.Got? ==> reader.Drained()
    ensures r.TimedOut? ==> line.now >= deadline
    ensures r.Failed? ==> line.LostBy(deadline)
    ensures r.Got? ==> |line.turns| < |old(line.turns)|
    ensures !r.Failed? && line.past != old(line.past) ==> LastRead(line.past, |seen|, |seen| + |passed|, FoundIn(r), deadline)
  {
    r, passed := TimedOut, [];
    assert seen + [] == seen;
    while line.now < deadline && r.TimedOut?
      invariant Listening(line, reader, seen + passed) && Onward(line)
      invariant Answers(r, passed, accept) && (!r.Got? ==> reader.Drained())
      invariant r.Failed? ==> line.LostBy(deadline)
      invariant r.Got? ==> |line.turns| < |old(line.turns)|
      invariant !r.Failed? && line.past != old(line.past) ==> LastRead(line.past, |seen|, |seen| + |passed|, FoundIn(r), deadline)
      decreases |line.turns|, r.TimedOut?
    {
      var gone, found;
      ghost var more;
      gone, found, more := PumpOnce(line, reader, accept, seen + passed, deadline);
      r := if gone then Failed else if found.Some? then Got(found.value) else TimedOut;
      Continued(line.past, seen, passed, r, more, accept, deadline);
      passed := passed + more;
    }
  }

  /** Pump the line until a frame is accepted, the deadline passes, or the adapter goes. Every frame
      taken on the way is taken once and in stream order, and the first accepted one is returned. */
  method ReadUntil(line: Line, reader: FrameReader, deadline: nat, accept: Frame -> bool, ghost seen: seq<Frame>)
    returns (r: Reading, ghost passed: seq<Frame>)
    requires Listening(line, reader, seen) && NoneGone(line.past)
    modifies reader, line
    ensures Listening(line, reader, seen + passed) && Onward(line)
    ensures Answers(r, passed, accept)
    ensures !r.Got? ==> reader.Drained()
    ensures r.TimedOut? ==> line.now >= deadline
    ensures r.Failed? ==> line.LostBy(deadline)
    ensures r.Got? ==> |line.turns| < |old(line.turns)| || |reader.buffer| < |old(reader.buffer)|
    ensures !r.Failed? && line.past != old(line.past) ==> LastRead(line.past, |seen|, |seen| + |passed|, FoundIn(r), deadline)
  {
    var found;
    found, passed := TakeBuffered(reader, accept, seen);
    if found.Some? {
      r := Got(found.value);
    } else {
      ghost var more;
      r, more := PumpUntil(line, reader, deadline, accept, seen + passed);
      Continued(line.past, seen, passed, r, more, accept, deadline);
      passed := passed + more;
    }
  }

  // ---------------------------------------------------------------- the freshest frame of each kind

  datatype Arrival = Arrival(frame: Frame, at: nat)

  /** The last arrival of one kind, or what was known before any of these. */
  ghost function Newest(arrivals: seq<Arrival>, code: byte, before: Option<Arrival>): Option<Arrival> {
    if arrivals == [] then before
    else
      var last := arrivals[|arrivals| - 1];
      if last.frame.code == code then Some(last) else Newest(arrivals[..|arrivals| - 1], code, before)
  }

  ghost predicate NoneAfter(arrivals: seq<Arrival>, j: int, code: byte) {
    forall k :: j < k < |arrivals| && 0 <= k ==> arrivals[k].frame.code != code
  }

  /** `Newest` means: nothing of that kind arrived after it. */
  lemma {:induction false} NewestIsLast(arrivals: seq<Arrival>, code: byte, before: Option<Arrival>)
    ensures var r := Newest(arrivals, code, before);
            || (r == before && NoneAfter(arrivals, -1, code))
            || exists j :: 0 <= j < |arrivals| && r == Some(arrivals[j]) && arrivals[j].frame.code == code && NoneAfter(arrivals, j, code)
  {
    if arrivals != [] {
      var init := arrivals[..|arrivals| - 1];
      if arrivals[|arrivals| - 1].frame.code != code {
        NewestIsLast(init, code, before);
        assert forall k :: 0 <= k < |init| ==> arrivals[k] == init[k];
      }
    }
  }

  lemma {:induction false} NewestStep(arrivals: seq<Arrival>, last: Arrival, code: byte, before: Option<Arrival>)
    ensures Newest(arrivals + [last], code, before)
         == if last.frame.code == code then Some(last) else Newest(arrivals, code, before)
  {
    assert (arrivals + [last])[..|arrivals|] == arrivals;
  }

  function FramesOf(arrivals: seq<Arrival>): seq<Frame> {
    seq(|arrivals|, k requires 0 <= k < |arrivals| => arrivals[k].frame)
  }

  predicate AnyFrame(frame: Frame) { true }

  predicate SettingsFrame(frame: Frame) { frame.IsSettings() }

  /** A wait for any frame takes the frame it returns and no other. */
  lemma {:induction false} AnyTakesOne(r: Reading, more: seq<Frame>)
    requires Answers(r, more, AnyFrame)
    ensures more == if r.Got? then [r.frame] else []
  {
    var rest := if r.Got? then more[..|more| - 1] else more;
    assert rest == [] || AnyFrame(rest[0]);
  }

  lemma {:induction false} ArrivalsStep(seen: seq<Frame>, passed: seq<Arrival>, frame: Frame, now: nat)
    ensures seen + FramesOf(passed) + [frame] == seen + FramesOf(passed + [Arrival(frame, now)])
    ensures seen + FramesOf(passed) + [] == seen + FramesOf(passed)
  {
    assert FramesOf(passed + [Arrival(frame, now)]) == FramesOf(passed) + [frame];
  }

  /** The moments at which frames are looked for again: `first`, then whenever a measurement was made. */
  function Since(ticks: seq<Tick>, first: nat, i: nat): nat {
    if ticks == [] then first
    else if ticks[|ticks| - 1].seen <= i then ticks[|ticks| - 1].now
    else Since(ticks[..|ticks| - 1], first, i)
  }

  function Later(a: nat, b: nat): nat { if a < b then b else a }

  /** The moment an arrival must be stamped with: when its frame was complete, or the moment it was next
      looked for if it had been complete before. */
  function StampOf(past: seq<Turn>, base: nat, ticks: seq<Tick>, first: nat, i: nat): nat
    requires base + i < Whole(past)
  {
    Later(Since(ticks, first, i), Ready(past, base + i))
  }

  /** Each arrival carries its stamp; `base` frames were taken before these. */
  ghost predicate Stamped(past: seq<Turn>, base: nat, ticks: seq<Tick>, first: nat, arrivals: seq<Arrival>) {
    && base + |arrivals| <= Whole(past)
    && forall i :: 0 <= i < |arrivals| ==> arrivals[i].at == StampOf(past, base, ticks, first, i)
  }

  lemma {:induction false} StampedStays(past: seq<Turn>, more: seq<Turn>, base: nat, ticks: seq<Tick>, first: nat, arrivals: seq<Arrival>)
    requires Stamped(past, base, ticks, first, arrivals)
    ensures Stamped(past + more, base, ticks, first, arrivals)
  {
    ReceivedConcat(past, more);
    StartsExtend(Received(past), Received(more));
    forall i | 0 <= i < |arrivals| ensures arrivals[i].at == StampOf(past + more, base, ticks, first, i) {
      ReadyStays(past, more, base + i);
      assert arrivals[i].at == StampOf(past, base, ticks, first, i);
    }
  }

  class Freshest {
    var realtime: Option<Arrival>
    var settings: Option<Arrival>

    constructor ()
      ensures realtime == None && settings == None
    {
      realtime, settings := None, None;
    }

    method Accept(frame: Frame, now: nat)
      modifies this
      ensures realtime == if frame.code == REALTIME then Some(Arrival(frame, now)) else old(realtime)
      ensures settings == if frame.code == SETTINGS then Some(Arrival(frame, now)) else old(settings)
    {
      if frame.IsRealtime() {
        realtime := Some(Arrival(frame, now));
      } else if frame.IsSettings() {
        settings := Some(Arrival(frame, now));
      }
    }
  }

  /** A drain whose last read crossed the deadline took the first frame which that read completed, if any. */
  ghost predicate LeftOff(past: seq<Turn>, taken: nat) {
    taken == if Whole(past) > Before(past) then Before(past) + 1 else Whole(past)
  }

  /** How a drain goes that starts after the turns `began`, with `base` frames taken: a drain that starts too
      late does nothing; each frame is stamped when it was taken; and nothing is left waiting that was
      complete before the last read. */
  ghost predicate Drains(past: seq<Turn>, began: seq<Turn>, base: nat, passed: seq<Arrival>, deadline: nat) {
    && began <= past && NoneGone(past) && Stamped(past, base, [], Elapsed(began), passed)
    && (Elapsed(began) >= deadline ==> past == began && passed == [])
    && (past != began ==> LastRead(past, base, base + |passed|, 0, deadline))
    && (past != began && Elapsed(past) >= deadline ==> LeftOff(past, base + |passed|))
  }

  lemma {:induction false} ElapsedGrows(past: seq<Turn>, more: seq<Turn>)
    ensures Elapsed(past) <= Elapsed(past + more)
  {
    if more == [] {
      assert past + more == past;
    } else {
      assert (past + more)[..|past + more| - 1] == past + more[..|more| - 1];
      ElapsedGrows(past, more[..|more| - 1]);
    }
  }

  lemma {:induction false} GrownPast(began: seq<Turn>, past: seq<Turn>)
    requires began <= past
    ensures Elapsed(began) <= Elapsed(past) && Whole(began) <= Whole(past)
    ensures past == began + past[|began|..]
  {
    var more := past[|began|..];
    assert past == began + more;
    ElapsedGrows(began, more);
    ReceivedConcat(began, more);
    StartsExtend(Received(began), Received(more));
  }

  /** The next frame of a drain is taken at the moment it must be stamped with. */
  lemma {:induction false} TakenWhenReady(earlier: seq<Turn>, past: seq<Turn>, began: seq<Turn>, base: nat, n: nat, deadline: nat)
    requires began <= earlier <= past && base + n < Whole(past)
    requires earlier != began ==> LastRead(earlier, base, base + n, 0, deadline)
    requires past != earlier ==> LastRead(past, base + n, base + n + 1, 1, deadline)
    ensures Later(Elapsed(began), Ready(past, base + n)) == Elapsed(past)
  {
    GrownPast(began, past);
    if past == began {
      ArrivedEarlier(past, Starts(Received(past))[base + n] + FRAME_LEN);
    } else {
      ReadyNow(past, base + n);
    }
  }

  lemma {:induction false} DrainTakes(earlier: seq<Turn>, past: seq<Turn>, began: seq<Turn>, base: nat, passed: seq<Arrival>,
                                      frame: Frame, deadline: nat)
    requires Drains(earlier, began, base, passed, deadline) && Elapsed(earlier) < deadline && earlier <= past
    requires base + |passed| < Whole(past)
    requires past != earlier ==> LastRead(past, base + |passed|, base + |passed| + 1, 1, deadline)
    ensures Drains(past, began, base, passed + [Arrival(frame, Elapsed(past))], deadline)
  {
    GrownPast(earlier, past);
    GrownPast(began, earlier);
    StampedStays(earlier, past[|earlier|..], base, [], Elapsed(began), passed);
    TakenWhenReady(earlier, past, began, base, |passed|, deadline);
    StampedOneMore(past, base, Elapsed(began), passed, frame);
  }

  lemma {:induction false} StampedOneMore(past: seq<Turn>, base: nat, first: nat, passed: seq<Arrival>, frame: Frame)
    requires Stamped(past, base, [], first, passed) && base + |passed| < Whole(past)
    requires Later(first, Ready(past, base + |passed|)) == Elapsed(past)
    ensures Stamped(past, base, [], first, passed + [Arrival(frame, Elapsed(past))])
  {
  }

  lemma {:induction false} DrainTimesOut(earlier: seq<Turn>, past: seq<Turn>, began: seq<Turn>, base: nat, passed: seq<Arrival>, deadline: nat)
    requires Drains(earlier, began, base, passed, deadline) && Elapsed(earlier) < deadline && earlier <= past && past != earlier
    requires LastRead(past, base + |passed|, base + |passed|, 0, deadline) && Whole(past) == base + |passed|
    ensures Drains(past, began, base, passed, deadline)
  {
    GrownPast(earlier, past);
    GrownPast(began, earlier);
    StampedStays(earlier, past[|earlier|..], base, [], Elapsed(began), passed);
  }

  /** What a wait for any frame does to a drain. */
  lemma {:induction false} DrainGoesOn(earlier: seq<Turn>, past: seq<Turn>, began: seq<Turn>, base: nat, passed: seq<Arrival>,
                                       r: Reading, whole: nat, deadline: nat)
    requires Drains(earlier, began, base, passed, deadline) && Elapsed(earlier) < deadline && earlier <= past && !r.Failed?
    requires base + |passed| + FoundIn(r) <= Whole(past) && (r.TimedOut? ==> Whole(past) == base + |passed| && Elapsed(past) >= deadline)
    requires past != earlier ==> LastRead(past, base + |passed|, base + |passed| + FoundIn(r), FoundIn(r), deadline)
    ensures Drains(past, began, base, passed + (if r.Got? then [Arrival(r.frame, Elapsed(past))] else []), deadline)
  {
    if r.Got? {
      DrainTakes(earlier, past, began, base, passed, r.frame, deadline);
    } else {
      DrainTimesOut(earlier, past, began, base, passed, deadline);
      assert passed + [] == passed;
    }
  }

  /** One wait of a drain, for the next frame of any kind. */
  method NextOf(line: Line, reader: FrameReader, deadline: nat, ghost seen: seq<Frame>, ghost began: seq<Turn>, ghost before: seq<Arrival>)
    returns (r: Reading, ghost passed: seq<Arrival>)
    requires Listening(line, reader, seen + FramesOf(before)) && line.now < deadline
    requires Drains(line.past, began, |seen|, before, deadline)
    modifies reader, line
    ensures Listening(line, reader, seen + FramesOf(passed)) && Onward(line)
    ensures passed == before + (if r.Got? then [Arrival(r.frame, line.now)] else [])
    ensures !r.Failed? ==> Drains(line.past, began, |seen|, passed, deadline)
    ensures r.Failed? ==> Stamped(line.past, |seen|, [], Elapsed(began), passed)
    ensures r.TimedOut? ==> line.now >= deadline
    ensures r.Failed? ==> reader.Drained() && line.LostBy(deadline)
    ensures r.Got? ==> |line.turns| < |old(line.turns)| || |reader.buffer| < |old(reader.buffer)|
  {
    ghost var more;
    ghost var earlier := line.past;
    r, more := ReadUntil(line, reader, deadline, AnyFrame, seen + FramesOf(before));
    AnyTakesOne(r, more);
    passed := before + (if r.Got? then [Arrival(r.frame, line.now)] else []);
    FramesStep(seen, before, r, line.now);
    TakenOfWhole(line, reader, seen + FramesOf(passed));
    if r.Failed? {
      StampedStays(earlier, line.past[|earlier|..], |seen|, [], Elapsed(began), before);
      assert line.past == earlier + line.past[|earlier|..];
    } else {
      DrainGoesOn(earlier, line.past, began, |seen|, before, r, Whole(line.past), deadline);
    }
  }

  lemma {:induction false} FramesStep(seen: seq<Frame>, before: seq<Arrival>, r: Reading, now: nat)
    ensures var passed := before + (if r.Got? then [Arrival(r.frame, now)] else []);
            && seen + FramesOf(before) + (if r.Got? then [r.frame] else []) == seen + FramesOf(passed)
            && (!r.Got? ==> passed == before) && |FramesOf(passed)| == |passed|
  {
    if r.Got? {
      ArrivalsStep(seen, before, r.frame, now);
    } else {
      assert before + [] == before && seen + FramesOf(before) + [] == seen + FramesOf(before);
    }
  }

  ghost predicate Holds(freshest: Freshest, passed: seq<Arrival>, realtime: Option<Arrival>, settings: Option<Arrival>)
    reads freshest
  {
    && freshest.realtime == Newest(passed, REALTIME, realtime)
    && freshest.settings == Newest(passed, SETTINGS, settings)
  }

  /** The same, with the frame accepted. */
  method AcceptNext(line: Line, reader: FrameReader, freshest: Freshest, deadline: nat, ghost seen: seq<Frame>, ghost began: seq<Turn>,
                    ghost before: seq<Arrival>, ghost realtime: Option<Arrival>, ghost settings: Option<Arrival>)
    returns (r: Reading, ghost passed: seq<Arrival>)
    requires Listening(line, reader, seen + FramesOf(before)) && line.now < deadline
    requires Drains(line.past, began, |seen|, before, deadline) && Holds(freshest, before, realtime, settings)
    modifies reader, line, freshest
    ensures Listening(line, reader, seen + FramesOf(passed)) && Onward(line) && Holds(freshest, passed, realtime, settings)
    ensures !r.Failed? ==> Drains(line.past, began, |seen|, passed, deadline)
    ensures r.Failed? ==> Stamped(line.past, |seen|, [], Elapsed(began), passed)
    ensures r.TimedOut? ==> line.now >= deadline
    ensures r.Failed? ==> reader.Drained() && line.LostBy(deadline)
    ensures r.Got? ==> |line.turns| < |old(line.turns)| || |reader.buffer| < |old(reader.buffer)|
  {
    r, passed := NextOf(line, reader, deadline, seen, began, before);
    if r.Got? {
      freshest.Accept(r.frame, line.now);
      NewestStep(before, Arrival(r.frame, line.now), REALTIME, realtime);
      NewestStep(before, Arrival(r.frame, line.now), SETTINGS, settings);
    } else {
      assert passed == before;
    }
  }

  /** Take whatever comes before the deadline, holding on to the last of each kind. `passed` is every frame taken, once
      each and in stream order, with the moment it was taken. */
  method DrainUntil(line: Line, reader: FrameReader, freshest: Freshest, deadline: nat, ghost seen: seq<Frame>)
    returns (ok: bool, ghost passed: seq<Arrival>)
    requires Listening(line, reader, seen) && NoneGone(line.past)
    modifies reader, line, freshest
    ensures Listening(line, reader, seen + FramesOf(passed)) && Onward(line)
    ensures Holds(freshest, passed, old(freshest.realtime), old(freshest.settings))
    ensures Stamped(line.past, |seen|, [], old(line.now), passed)
    ensures ok ==> line.now >= deadline && Drains(line.past, old(line.past), |seen|, passed, deadline)
    ensures !ok ==> reader.Drained() && line.LostBy(deadline)
  {
    ghost var began := line.past;
    var r := Got(Frame(0, []));
    passed := [];
    assert seen + FramesOf(passed) == seen;
    TakenOfWhole(line, reader, seen);
    while line.now < deadline && r.Got?
      invariant Listening(line, reader, seen + FramesOf(passed)) && Onward(line)
      invariant Holds(freshest, passed, old(freshest.realtime), old(freshest.settings))
      invariant !r.Failed? ==> Drains(line.past, began, |seen|, passed, deadline)
      invariant r.Failed? ==> reader.Drained() && line.LostBy(deadline) && Stamped(line.past, |seen|, [], Elapsed(began), passed)
      invariant r.TimedOut? ==> line.now >= deadline
      decreases |line.turns|, |reader.buffer|, r.Got?
    {
      r, passed := AcceptNext(line, reader, freshest, deadline, seen, began, passed, old(freshest.realtime), old(freshest.settings));
    }
    ok := !r.Failed?;
  }

  /** When a drain leaves a whole frame behind: exactly when it was entered at or after the deadline with
      one waiting, or the read that crossed the deadline completed two or more. */
  lemma {:induction false} LeavesBehindIff(past: seq<Turn>, began: seq<Turn>, base: nat, passed: seq<Arrival>, deadline: nat)
    requires Drains(past, began, base, passed, deadline) && Elapsed(past) >= deadline
    ensures base + |passed| < Whole(past)
        <==> if Elapsed(began) >= deadline then base < Whole(began) else Whole(past) >= Before(past) + 2
    ensures Elapsed(began) < deadline ==> past != [] && Elapsed(past[..|past| - 1]) < deadline
  {
  }

  lemma {:induction false} TwoTurns(s: seq<byte>, first: Turn, second: Turn)
    requires 100 <= |s| && first == Turn(0, Arrived(s[..100])) && second.event == Arrived(s[100..])
    ensures Received([first]) == s[..100] && Received([first, second]) == s
    ensures Elapsed([]) == 0 == Elapsed([first]) && Elapsed([first, second]) == second.elapsed
    ensures [first, second][..1] == [first] && [first][..0] == []
  {
    assert [first, second][1..] == [second] && [second][1..] == [] && [first][1..] == [];
    assert [first, second][..1] == [first] && [first][..0] == [];
    assert Received([second]) == s[100..] + Received([second][1..]);
  }

  lemma {:induction false} TwoStarts(s: seq<byte>)
    requires |s| == 2 * FRAME_LEN && Genuine(s, 0) && Genuine(s, FRAME_LEN)
    ensures Starts(s) == [0, FRAME_LEN] && Starts(s[..100]) == [] && Starts([]) == []
  {
    assert ScanFrom(s, 0).starts == [0] + ([FRAME_LEN] + ScanFrom(s, 2 * FRAME_LEN).starts);
    if Starts(s[..100]) != [] { StartsFit(s[..100], 0); }
  }

  lemma {:induction false} TurnsTaken(past: seq<Turn>, turns: seq<Turn>, first: Turn, second: Turn)
    requires past + turns == [first, second]
    ensures (past == [] && turns == [first, second]) || (past == [first] && turns == [second]) || (past == [first, second] && turns == [])
  {
    assert |past| + |turns| == 2;
    assert past == [first, second][..|past|] && turns == [first, second][|past|..];
  }

  lemma {:induction false} OnlyOneTaken(s: seq<byte>, first: Turn, second: Turn, past: seq<Turn>, left: seq<Turn>,
                                        passed: seq<Arrival>, deadline: nat, ok: bool)
    requires 100 <= |s| && first == Turn(0, Arrived(s[..100])) && second == Turn(deadline, Arrived(s[100..])) && deadline > 0
    requires Starts(s) == [0, FRAME_LEN] && Starts(s[..100]) == [] && Starts([]) == []
    requires (past == [] && left == [first, second]) || (past == [first] && left == [second]) || (past == [first, second] && left == [])
    requires if ok then Elapsed(past) >= deadline && Drains(past, [], 0, passed, deadline) else Lost(past, left, deadline)
    ensures past == [first, second] && |passed| == 1
  {
    TwoTurns(s, first, second);
  }

  lemma {:induction false} BothGenuine(one: seq<byte>, other: seq<byte>, s: seq<byte>)
    requires |one| == |other| == FRAME_LEN - 5 && s == Made(one) + Made(other)
    ensures Genuine(s, 0) && Genuine(s, FRAME_LEN)
  {
    assert [] + Made(one) + Made(other) == s && Made(one) + Made(other) + [] == s;
    MadeIsGenuine([], one, Made(other));
    MadeIsGenuine(Made(one), other, []);
  }

  /** It can happen, with any two frames: one read brings part of the first, and the next crosses the
      deadline with the rest of it and the second. No read is longer than the buffer. The second frame is
      not lost, only late. */
  method DeadlineLeavesAFrame(one: seq<byte>, other: seq<byte>, deadline: nat) returns (line: Line, reader: FrameReader)
    requires |one| == |other| == FRAME_LEN - 5 && deadline > 0
    ensures reader.Valid() && reader.fed == Made(one) + Made(other) && line.turns == []
    ensures line.past == [Turn(0, Arrived(reader.fed[..100])), Turn(deadline, Arrived(reader.fed[100..]))]
    ensures |reader.delivered| == 1 && Starts(reader.fed) == [0, FRAME_LEN]
  {
    var s := Made(one) + Made(other);
    BothGenuine(one, other, s);
    line, reader := DrainsTwo(s, deadline);
  }

  method DrainsTwo(s: seq<byte>, deadline: nat) returns (line: Line, reader: FrameReader)
    requires |s| == 2 * FRAME_LEN && Genuine(s, 0) && Genuine(s, FRAME_LEN) && deadline > 0
    ensures reader.Valid() && reader.fed == s && line.turns == []
    ensures line.past == [Turn(0, Arrived(s[..100])), Turn(deadline, Arrived(s[100..]))]
    ensures |reader.delivered| == 1 && Starts(s) == [0, FRAME_LEN]
  {
    var first, second := Turn(0, Arrived(s[..100])), Turn(deadline, Arrived(s[100..]));
    line := new Line([first, second]);
    reader := new FrameReader();
    var freshest := new Freshest();
    ghost var passed;
    var ok;
    ok, passed := DrainUntil(line, reader, freshest, deadline, []);
    TurnsTaken(line.past, line.turns, first, second);
    TwoTurns(s, first, second);
    TwoStarts(s);
    OnlyOneTaken(s, first, second, line.past, line.turns, passed, deadline, ok);
    assert |[] + FramesOf(passed)| == |passed|;
  }

  // ---------------------------------------------------------------- the measurement loop

  /** What one measurement looked at: the moment, and the newest realtime frame among `seen` arrivals;
      the line had taken `turns` turns by then. */
  datatype Tick = Tick(now: nat, newest: Option<Arrival>, seen: nat, turns: nat)

  datatype Outcome = Finished | AdapterGone | WentSilent

  predicate IsFresh(newest: Option<Arrival>, now: nat, timeout: nat) {
    newest.Some? && now - newest.value.at <= timeout
  }

  /** Which measurements found a fresh frame. */
  ghost function Lives(ticks: seq<Tick>, timeout: nat): (live: seq<bool>)
    ensures |live| == |ticks|
  {
    seq(|ticks|, k requires 0 <= k < |ticks| => IsFresh(ticks[k].newest, ticks[k].now, timeout))
  }

  /** The realtime frames a run hands on: the fresh ones, in order. */
  ghost function Published(ticks: seq<Tick>, timeout: nat): seq<Arrival> {
    if ticks == [] then []
    else
      var last := ticks[|ticks| - 1];
      Published(ticks[..|ticks| - 1], timeout)
      + (if IsFresh(last.newest, last.now, timeout) then [last.newest.value] else [])
  }

  /** Every measurement looks at the last realtime frame taken before it. */
  ghost predicate LooksAtNewest(ticks: seq<Tick>, arrivals: seq<Arrival>, first: Arrival) {
    forall k :: 0 <= k < |ticks| ==>
      ticks[k].seen <= |arrivals| && ticks[k].newest == Newest(arrivals[..ticks[k].seen], REALTIME, Some(first))
  }

  datatype Config = Config(interval: nat, frameTimeout: nat, once: bool)

  lemma {:induction false} LooksStep(ticks: seq<Tick>, arrivals: seq<Arrival>, more: seq<Arrival>, first: Arrival, look: Tick)
    requires LooksAtNewest(ticks, arrivals, first)
    requires look.seen == |arrivals + more| && look.newest == Newest(arrivals + more, REALTIME, Some(first))
    ensures LooksAtNewest(ticks, arrivals + more, first) && LooksAtNewest(ticks + [look], arrivals + more, first)
  {
    var all := arrivals + more;
    assert all[..|all|] == all;
    forall k | 0 <= k < |ticks| ensures all[..ticks[k].seen] == arrivals[..ticks[k].seen] {}
  }

  lemma {:induction false} NewestConcat(a: seq<Arrival>, b: seq<Arrival>, code: byte, before: Option<Arrival>)
    ensures Newest(a + b, code, before) == Newest(b, code, Newest(a, code, before))
  {
    if b == [] {
      assert a + b == a;
    } else {
      var last := b[|b| - 1];
      assert a + b == (a + b[..|b| - 1]) + [last];
      NewestStep(a + b[..|b| - 1], last, code, before);
      NewestConcat(a, b[..|b| - 1], code, before);
    }
  }

  // ---------------------------------------------------------------- what a run records

  /** The record of a run: the wait for a settings frame and the frames it took, the frame discovery had
      seen and the moment the measurements began, after `began` turns of the line; then what each
      measurement looked at, every arrival, and what was handed on. */
  datatype Log = Log(initial: Reading, skipped: seq<Frame>, first: Arrival, began: nat,
                     ticks: seq<Tick>, arrivals: seq<Arrival>, published: seq<Arrival>)

  /** When a measurement is due, counted from the start of the run and not from the one before it. */
  function Due(started: nat, interval: nat, tick: nat): nat {
    started + interval * (tick + 1)
  }

  function TurnsBy(ticks: seq<Tick>, began: nat): nat {
    if ticks == [] then began else ticks[|ticks| - 1].turns
  }

  function SeenBy(ticks: seq<Tick>): nat {
    if ticks == [] then 0 else ticks[|ticks| - 1].seen
  }

  /** A measurement is made at the first look at the clock at or after it is due, with the adapter still
      there. It has seen every frame that was complete before the read that crossed that moment and the
      first one that read completed; if no read was needed, it has seen nothing new. */
  ghost predicate MadeOnTime(past: seq<Turn>, base: nat, t: Tick, due: nat, turnsBefore: nat, seenBefore: nat) {
    && turnsBefore <= t.turns <= |past| && seenBefore <= t.seen && NoneGone(past[..t.turns])
    && t.now == Elapsed(past[..t.turns]) >= due
    && (t.turns > turnsBefore ==> Elapsed(past[..t.turns - 1]) < due)
    && Before(past[..t.turns]) <= base + t.seen <= Whole(past[..t.turns])
    && (if t.turns > turnsBefore then LeftOff(past[..t.turns], base + t.seen) else t.seen == seenBefore)
  }

  ghost predicate AllOnTime(past: seq<Turn>, base: nat, ticks: seq<Tick>, began: nat, started: nat, interval: nat) {
    ticks == []
    || (var front, t := ticks[..|ticks| - 1], ticks[|ticks| - 1];
        && AllOnTime(past, base, front, began, started, interval)
        && MadeOnTime(past, base, t, Due(started, interval, |front|), TurnsBy(front, began), SeenBy(front)))
  }

  lemma {:induction false} OnTimeStays(past: seq<Turn>, more: seq<Turn>, base: nat, t: Tick, due: nat, turnsBefore: nat, seenBefore: nat)
    requires MadeOnTime(past, base, t, due, turnsBefore, seenBefore)
    ensures MadeOnTime(past + more, base, t, due, turnsBefore, seenBefore)
  {
    assert (past + more)[..t.turns] == past[..t.turns];
    if t.turns > 0 { assert (past + more)[..t.turns - 1] == past[..t.turns - 1]; }
  }

  lemma {:induction false} AllOnTimeStays(past: seq<Turn>, more: seq<Turn>, base: nat, ticks: seq<Tick>, began: nat, started: nat, interval: nat)
    requires AllOnTime(past, base, ticks, began, started, interval)
    ensures AllOnTime(past + more, base, ticks, began, started, interval)
  {
    if ticks != [] {
      var front, t := ticks[..|ticks| - 1], ticks[|ticks| - 1];
      AllOnTimeStays(past, more, base, front, began, started, interval);
      OnTimeStays(past, more, base, t, Due(started, interval, |front|), TurnsBy(front, began), SeenBy(front));
    }
  }

  /** The record keeps time: the measurements with the clock, and the arrivals with their frames. */
  ghost predicate KeepsTime(past: seq<Turn>, log: Log, interval: nat) {
    && log.began <= |past| && log.first.at == Elapsed(past[..log.began])
    && Stamped(past, |log.skipped|, log.ticks, log.first.at, log.arrivals)
    && AllOnTime(past, |log.skipped|, log.ticks, log.began, log.first.at, interval)
  }

  /** Nothing has happened since the last measurement. */
  ghost predicate JustMeasured(past: seq<Turn>, log: Log) {
    && TurnsBy(log.ticks, log.began) == |past| && SeenBy(log.ticks) == |log.arrivals| && NoneGone(past)
    && Before(past) <= |log.skipped| + |log.arrivals|
  }

  function LastMoment(ticks: seq<Tick>, first: nat): nat {
    if ticks == [] then first else ticks[|ticks| - 1].now
  }

  lemma {:induction false} StampedJoin(past: seq<Turn>, base: nat, ticks: seq<Tick>, first: nat, a: seq<Arrival>, more: seq<Arrival>)
    requires Stamped(past, base, ticks, first, a) && SeenBy(ticks) <= |a|
    requires Stamped(past, base + |a|, [], LastMoment(ticks, first), more)
    ensures Stamped(past, base, ticks, first, a + more)
  {
    var all := a + more;
    forall i | 0 <= i < |all| ensures all[i].at == StampOf(past, base, ticks, first, i) {
      if i < |a| {
        assert a[i].at == StampOf(past, base, ticks, first, i);
      } else {
        assert more[i - |a|].at == StampOf(past, base + |a|, [], LastMoment(ticks, first), i - |a|);
      }
    }
  }

  /** More arrivals, after the last measurement. */
  lemma {:induction false} ArrivalsKeepTime(past: seq<Turn>, later: seq<Turn>, log: Log, interval: nat, more: seq<Arrival>)
    requires KeepsTime(past, log, interval) && JustMeasured(past, log) && past <= later
    requires Stamped(later, |log.skipped| + |log.arrivals|, [], Elapsed(past), more)
    ensures KeepsTime(later, log.(arrivals := log.arrivals + more), interval)
  {
    var base, rest := |log.skipped|, later[|past|..];
    assert later == past + rest && later[..log.began] == past[..log.began] && past[..|past|] == past;
    StampedStays(past, rest, base, log.ticks, log.first.at, log.arrivals);
    AllOnTimeStays(past, rest, base, log.ticks, log.began, log.first.at, interval);
    MomentNow(past, log, interval);
    StampedJoin(later, base, log.ticks, log.first.at, log.arrivals, more);
  }

  lemma {:induction false} MomentNow(past: seq<Turn>, log: Log, interval: nat)
    requires KeepsTime(past, log, interval) && JustMeasured(past, log)
    ensures LastMoment(log.ticks, log.first.at) == Elapsed(past)
  {
    assert past[..|past|] == past;
  }

  // ---------------------------------------------------------------- the order of a run's moments

  lemma {:induction false} TicksInOrder(past: seq<Turn>, base: nat, ticks: seq<Tick>, began: nat, started: nat, interval: nat, i: nat, j: nat)
    requires AllOnTime(past, base, ticks, began, started, interval) && i <= j < |ticks|
    ensures Due(started, interval, i) <= ticks[i].now <= ticks[j].now <= Elapsed(past)
    ensures ticks[i].seen <= ticks[j].seen && ticks[i].turns <= ticks[j].turns <= |past|
    ensures base + ticks[i].seen <= Whole(past[..ticks[i].turns])
    decreases |ticks|
  {
    var front, t := ticks[..|ticks| - 1], ticks[|ticks| - 1];
    GrownPast(past[..t.turns], past);
    if j < |ticks| - 1 {
      TicksInOrder(past, base, front, began, started, interval, i, j);
    } else if i < j {
      TicksInOrder(past, base, front, began, started, interval, i, j - 1);
      GrownPast(past[..front[j - 1].turns], past[..t.turns]);
    }
  }

  lemma {:induction false} SinceBounded(past: seq<Turn>, base: nat, ticks: seq<Tick>, began: nat, started: nat, interval: nat, i: nat)
    requires AllOnTime(past, base, ticks, began, started, interval)
    ensures started <= Since(ticks, started, i) <= LastMoment(ticks, started)
  {
    if ticks != [] {
      var front, n := ticks[..|ticks| - 1], |ticks| - 1;
      SinceBounded(past, base, front, began, started, interval, i);
      TicksInOrder(past, base, ticks, began, started, interval, n, n);
      if n > 0 { TicksInOrder(past, base, ticks, began, started, interval, n - 1, n); }
    }
  }

  lemma {:induction false} SinceAround(past: seq<Turn>, base: nat, ticks: seq<Tick>, began: nat, started: nat, interval: nat, i: nat, k: nat)
    requires AllOnTime(past, base, ticks, began, started, interval) && k < |ticks|
    ensures if ticks[k].seen <= i then Since(ticks, started, i) >= ticks[k].now else Since(ticks, started, i) <= ticks[k].now
    decreases |ticks|
  {
    var front, n := ticks[..|ticks| - 1], |ticks| - 1;
    TicksInOrder(past, base, ticks, began, started, interval, k, n);
    if ticks[n].seen > i {
      if k < n {
        SinceAround(past, base, front, began, started, interval, i, k);
      } else {
        SinceBounded(past, base, front, began, started, interval, i);
        if n > 0 { TicksInOrder(past, base, ticks, began, started, interval, n - 1, n); }
      }
    }
  }

  lemma {:induction false} ReadyBy(past: seq<Turn>, turns: nat, j: nat)
    requires turns <= |past| && j < Whole(past[..turns])
    ensures j < Whole(past) && Ready(past, j) <= Elapsed(past[..turns])
  {
    var front := past[..turns];
    assert past == front + past[turns..];
    ReadyStays(front, past[turns..], j);
    ArrivedEarlier(front, Starts(Received(front))[j] + FRAME_LEN);
  }

  /** Every arrival is stamped between the start and the present. */
  lemma {:induction false} ArrivalMoment(past: seq<Turn>, log: Log, interval: nat, i: nat)
    requires KeepsTime(past, log, interval) && i < |log.arrivals|
    ensures log.first.at <= log.arrivals[i].at <= Elapsed(past)
  {
    var base, first := |log.skipped|, log.first.at;
    SinceBounded(past, base, log.ticks, log.began, first, interval, i);
    assert past[..|past|] == past;
    ReadyBy(past, |past|, base + i);
    GrownPast(past[..log.began], past);
    if log.ticks != [] { TicksInOrder(past, base, log.ticks, log.began, first, interval, |log.ticks| - 1, |log.ticks| - 1); }
    assert log.arrivals[i].at == StampOf(past, base, log.ticks, first, i);
  }

  /** It is stamped before a measurement exactly as it counts among the arrivals the measurement saw. */
  lemma {:induction false} ArrivalAndTick(past: seq<Turn>, log: Log, interval: nat, i: nat, k: nat)
    requires KeepsTime(past, log, interval) && i < |log.arrivals| && k < |log.ticks|
    ensures var at, t := log.arrivals[i].at, log.ticks[k]; if i < t.seen then at <= t.now else at >= t.now
  {
    var base, t := |log.skipped|, log.ticks[k];
    SinceAround(past, base, log.ticks, log.began, log.first.at, interval, i, k);
    assert log.arrivals[i].at == StampOf(past, base, log.ticks, log.first.at, i);
    if i < t.seen {
      TicksInOrder(past, base, log.ticks, log.began, log.first.at, interval, k, k);
      TickTurns(past, base, log.ticks, log.began, log.first.at, interval, k);
      ReadyBy(past, t.turns, base + i);
    }
  }

  lemma {:induction false} TickTurns(past: seq<Turn>, base: nat, ticks: seq<Tick>, began: nat, started: nat, interval: nat, k: nat)
    requires AllOnTime(past, base, ticks, began, started, interval) && k < |ticks|
    ensures ticks[k].turns <= |past| && ticks[k].now == Elapsed(past[..ticks[k].turns])
    decreases |ticks|
  {
    if k < |ticks| - 1 { TickTurns(past, base, ticks[..|ticks| - 1], began, started, interval, k); }
  }

  lemma {:induction false} ArrivedInOrder(past: seq<Turn>, m: nat, n: nat)
    requires m <= n
    ensures ArrivedAt(past, m) <= ArrivedAt(past, n)
  {
    ArrivedEarlier(past, m);
    if past != [] { ArrivedInOrder(past[..|past| - 1], m, n); }
  }

  lemma {:induction false} SinceInOrder(past: seq<Turn>, base: nat, ticks: seq<Tick>, began: nat, started: nat, interval: nat, i: nat, j: nat)
    requires AllOnTime(past, base, ticks, began, started, interval) && i <= j
    ensures Since(ticks, started, i) <= Since(ticks, started, j)
  {
    if ticks != [] {
      var n := |ticks| - 1;
      SinceInOrder(past, base, ticks[..n], began, started, interval, i, j);
      SinceAround(past, base, ticks, began, started, interval, i, n);
    }
  }

  /** And arrivals are stamped in the order they came. */
  lemma {:induction false} ArrivalsAreOrdered(past: seq<Turn>, log: Log, interval: nat, i: nat, j: nat)
    requires KeepsTime(past, log, interval) && i < j < |log.arrivals|
    ensures log.arrivals[i].at <= log.arrivals[j].at
  {
    var base, ticks, first := |log.skipped|, log.ticks, log.first.at;
    assert log.arrivals[i].at == StampOf(past, base, ticks, first, i);
    assert log.arrivals[j].at == StampOf(past, base, ticks, first, j);
    SinceInOrder(past, base, ticks, log.began, first, interval, i, j);
    ReadyInOrder(past, base + i, base + j);
  }

  lemma {:induction false} ReadyInOrder(past: seq<Turn>, i: nat, j: nat)
    requires i < j < Whole(past)
    ensures Ready(past, i) <= Ready(past, j)
  {
    var starts := Starts(Received(past));
    ScanWithin(Received(past), 0);
    ArrivedInOrder(past, starts[i] + FRAME_LEN, starts[j] + FRAME_LEN);
  }

  /** And the next measurement. */
  lemma {:induction false} TickKeepsTime(past: seq<Turn>, later: seq<Turn>, log: Log, interval: nat, t: Tick)
    requires KeepsTime(later, log, interval)
    requires t.seen == |log.arrivals| && t.turns == |later| && t.now == Elapsed(later)
    requires MadeOnTime(later, |log.skipped|, t, Due(log.first.at, interval, |log.ticks|), TurnsBy(log.ticks, log.began), SeenBy(log.ticks))
    ensures KeepsTime(later, log.(ticks := log.ticks + [t]), interval)
    ensures JustMeasured(later, log.(ticks := log.ticks + [t]))
  {
    var ticks := log.ticks + [t];
    assert ticks[..|ticks| - 1] == log.ticks && later[..|later|] == later;
    forall i | 0 <= i < |log.arrivals|
      ensures log.arrivals[i].at == StampOf(later, |log.skipped|, ticks, log.first.at, i) {
      assert log.arrivals[i].at == StampOf(later, |log.skipped|, log.ticks, log.first.at, i);
    }
  }

  lemma {:induction false} DrainedOnTime(past: seq<Turn>, later: seq<Turn>, log: Log, interval: nat, more: seq<Arrival>, t: Tick)
    requires JustMeasured(past, log) && past <= later && t.turns == |later| && t.now == Elapsed(later) && t.seen == |log.arrivals + more|
    requires t.now >= Due(log.first.at, interval, |log.ticks|)
    requires Drains(later, past, |log.skipped| + |log.arrivals|, more, Due(log.first.at, interval, |log.ticks|))
    ensures MadeOnTime(later, |log.skipped|, t, Due(log.first.at, interval, |log.ticks|), TurnsBy(log.ticks, log.began), SeenBy(log.ticks))
  {
    assert later[..|later|] == later;
    if |later| == |past| { assert later == past; }
  }

  ghost predicate History(log: Log, silent: nat, timeout: nat) {
    && LooksAtNewest(log.ticks, log.arrivals, log.first)
    && log.published == Published(log.ticks, timeout)
    && silent == SilentRun(Lives(log.ticks, timeout))
    && NeverSilent(Lives(log.ticks, timeout))
  }

  /** The record after more arrivals and one more measurement. */
  ghost function Recorded(log: Log, more: seq<Arrival>, t: Tick, timeout: nat): Log {
    log.(ticks := log.ticks + [t],
         arrivals := log.arrivals + more,
         published := log.published + (if IsFresh(t.newest, t.now, timeout) then [t.newest.value] else []))
  }

  lemma {:induction false} HistoryStep(log: Log, silent: nat, timeout: nat, more: seq<Arrival>, t: Tick)
    requires History(log, silent, timeout) && silent < MAX_SILENT_CYCLES
    requires t.newest == Newest(more, REALTIME, Newest(log.arrivals, REALTIME, Some(log.first))) && t.seen == |log.arrivals + more|
    ensures History(Recorded(log, more, t, timeout), if IsFresh(t.newest, t.now, timeout) then 0 else silent + 1, timeout)
  {
    var ticks := log.ticks;
    NewestConcat(log.arrivals, more, REALTIME, Some(log.first));
    LooksStep(ticks, log.arrivals, more, log.first, t);
    assert (ticks + [t])[..|ticks|] == ticks;
    var live := IsFresh(t.newest, t.now, timeout);
    assert Lives(ticks + [t], timeout) == Lives(ticks, timeout) + [live];
    SilentStep(Lives(ticks, timeout), live);
    NeverSilentStep(Lives(ticks, timeout), live);
  }

  /** What a run's record says of its arrivals alone stays true of more of them. */
  lemma {:induction false} HistoryMore(log: Log, silent: nat, timeout: nat, more: seq<Arrival>)
    requires History(log, silent, timeout)
    ensures History(log.(arrivals := log.arrivals + more), silent, timeout)
  {
    forall k | 0 <= k < |log.ticks|
      ensures (log.arrivals + more)[..log.ticks[k].seen] == log.arrivals[..log.ticks[k].seen] {
    }
  }

  /** The line, the reader and the record agree: the arrivals are every frame taken since the start, and
      the record keeps time. */
  ghost predicate Agrees(line: Line, reader: FrameReader, log: Log, interval: nat)
    reads line, reader
  {
    Listening(line, reader, log.skipped + FramesOf(log.arrivals)) && KeepsTime(line.past, log, interval)
  }

  ghost predicate Newly(freshest: Freshest, log: Log)
    reads freshest
  {
    freshest.realtime == Newest(log.arrivals, REALTIME, Some(log.first))
  }

  lemma {:induction false} TakenMore(skipped: seq<Frame>, a: seq<Arrival>, b: seq<Arrival>)
    ensures skipped + FramesOf(a) + FramesOf(b) == skipped + FramesOf(a + b)
    ensures |skipped + FramesOf(a)| == |skipped| + |a|
  {
    assert FramesOf(a + b) == FramesOf(a) + FramesOf(b);
  }

  /** Everything complete has been taken. */
  ghost predicate AllTaken(past: seq<Turn>, log: Log) {
    |log.skipped| + |log.arrivals| == Whole(past)
  }

  lemma {:induction false} NothingLeft(line: Line, reader: FrameReader, skipped: seq<Frame>, arrivals: seq<Arrival>)
    requires Listening(line, reader, skipped + FramesOf(arrivals)) && reader.Drained()
    ensures |skipped| + |arrivals| == Whole(line.past)
  {
    TakenOfWhole(line, reader, skipped + FramesOf(arrivals));
  }

  /** Drain until the measurement is due, and record what arrived. */
  method Gather(line: Line, reader: FrameReader, freshest: Freshest, publishAt: nat, interval: nat, ghost log: Log)
    returns (ok: bool, ghost after: Log, ghost more: seq<Arrival>)
    requires Agrees(line, reader, log, interval) && JustMeasured(line.past, log) && Newly(freshest, log)
    modifies reader, line, freshest
    ensures Onward(line) && Agrees(line, reader, after, interval) && Newly(freshest, after)
    ensures after == log.(arrivals := log.arrivals + more)
    ensures ok ==> line.now >= publishAt && Drains(line.past, old(line.past), |log.skipped + FramesOf(log.arrivals)|, more, publishAt)
    ensures !ok ==> line.LostBy(publishAt) && AllTaken(line.past, after)
  {
    ghost var past, seen := line.past, log.skipped + FramesOf(log.arrivals);
    ok, more := DrainUntil(line, reader, freshest, publishAt, seen);
    after := log.(arrivals := log.arrivals + more);
    Gathered(past, line.past, log, after, interval, seen, more);
    if !ok { NothingLeft(line, reader, log.skipped, after.arrivals); }
  }

  lemma {:induction false} SameCount(past: seq<Turn>, began: seq<Turn>, m: nat, n: nat, passed: seq<Arrival>, deadline: nat)
    requires m == n && Drains(past, began, m, passed, deadline)
    ensures Drains(past, began, n, passed, deadline)
  {
  }

  lemma {:induction false} Gathered(past: seq<Turn>, later: seq<Turn>, log: Log, after: Log, interval: nat, seen: seq<Frame>, more: seq<Arrival>)
    requires KeepsTime(past, log, interval) && JustMeasured(past, log) && past <= later
    requires seen == log.skipped + FramesOf(log.arrivals) && after == log.(arrivals := log.arrivals + more)
    requires Stamped(later, |seen|, [], Elapsed(past), more)
    ensures KeepsTime(later, after, interval) && seen + FramesOf(more) == after.skipped + FramesOf(after.arrivals)
    ensures |seen| == |log.skipped| + |log.arrivals|
    ensures Newest(more, REALTIME, Newest(log.arrivals, REALTIME, Some(log.first))) == Newest(after.arrivals, REALTIME, Some(log.first))
  {
    TakenMore(log.skipped, log.arrivals, more);
    NewestConcat(log.arrivals, more, REALTIME, Some(log.first));
    ArrivalsKeepTime(past, later, log, interval, more);
  }

  /** What the wait before the measurements settled stays. */
  ghost predicate SameStart(a: Log, b: Log) {
    (a.initial, a.skipped, a.first, a.began) == (b.initial, b.skipped, b.first, b.began)
  }

  /** One measurement: drain until it is due, then judge the newest realtime frame. */
  method Measure(line: Line, reader: FrameReader, freshest: Freshest, publishAt: nat, interval: nat, timeout: nat, silent: nat, ghost log: Log)
    returns (ok: bool, found: Option<Frame>, silentNow: nat, ghost after: Log)
    requires Agrees(line, reader, log, interval) && JustMeasured(line.past, log) && Newly(freshest, log)
    requires publishAt == Due(log.first.at, interval, |log.ticks|)
    requires History(log, silent, timeout) && silent < MAX_SILENT_CYCLES
    modifies reader, line, freshest
    ensures Onward(line) && Agrees(line, reader, after, interval) && Newly(freshest, after)
    ensures History(after, silentNow, timeout) && silentNow <= MAX_SILENT_CYCLES && SameStart(log, after)
    ensures !ok ==> after.ticks == log.ticks && silentNow == silent && line.LostBy(publishAt) && AllTaken(line.past, after)
    ensures ok ==> JustMeasured(line.past, after) && line.now >= publishAt && |after.ticks| == |log.ticks| + 1
    ensures ok ==> found.None? == (silentNow > 0)
    ensures ok && found.Some? ==> |after.published| == |log.published| + 1 && after.published[|log.published|].frame == found.value
  {
    ghost var gathered, more;
    ghost var past := line.past;
    ok, gathered, more := Gather(line, reader, freshest, publishAt, interval, log);
    silentNow, found, after := silent, None, gathered;
    if ok {
      ghost var t := Tick(line.now, freshest.realtime, |gathered.arrivals|, |line.past|);
      after := Recorded(log, more, t, timeout);
      Measured(past, line.past, log, gathered, more, t, interval, timeout, silent);
      if IsFresh(freshest.realtime, line.now, timeout) {
        silentNow, found := 0, Some(freshest.realtime.value.frame);
      } else {
        silentNow := silent + 1;
      }
    } else {
      HistoryMore(log, silent, timeout, more);
    }
  }

  lemma {:induction false} Measured(past: seq<Turn>, later: seq<Turn>, log: Log, gathered: Log, more: seq<Arrival>, t: Tick,
                                    interval: nat, timeout: nat, silent: nat)
    requires History(log, silent, timeout) && silent < MAX_SILENT_CYCLES && JustMeasured(past, log)
    requires gathered == log.(arrivals := log.arrivals + more) && KeepsTime(later, gathered, interval)
    requires t.newest == Newest(gathered.arrivals, REALTIME, Some(log.first))
    requires t.seen == |gathered.arrivals| && t.turns == |later| && t.now == Elapsed(later) >= Due(log.first.at, interval, |log.ticks|)
    requires Drains(later, past, |log.skipped + FramesOf(log.arrivals)|, more, Due(log.first.at, interval, |log.ticks|))
    ensures var after := Recorded(log, more, t, timeout);
            && History(after, if IsFresh(t.newest, t.now, timeout) then 0 else silent + 1, timeout)
            && KeepsTime(later, after, interval) && JustMeasured(later, after)
  {
    TakenMore(log.skipped, log.arrivals, []);
    SameCount(later, past, |log.skipped + FramesOf(log.arrivals)|, |log.skipped| + |log.arrivals|, more, Due(log.first.at, interval, |log.ticks|));
    DrainedOnTime(past, later, log, interval, more, t);
    NewestConcat(log.arrivals, more, REALTIME, Some(log.first));
    HistoryStep(log, silent, timeout, more, t);
    TickKeepsTime(later, later, gathered, interval, t);
  }

  lemma {:induction false} DueLater(started: nat, interval: nat, tick: nat)
    ensures Due(started, interval, tick + 1) == Due(started, interval, tick) + interval
  {
  }

  /** The moment the read that found the adapter gone was made for: the end of the first wait, or the
      measurement that was due next. */
  function LastDeadline(log: Log, config: Config): nat {
    if log.initial.Failed? then config.frameTimeout else Due(log.first.at, config.interval, |log.ticks|)
  }

  /** How a run may end: with the adapter found gone while waiting for what was due next, everything that
      came before taken; or right after a measurement, the first that ends three silent ones, or the only
      one asked for. */
  ghost predicate EndsAs(past: seq<Turn>, left: seq<Turn>, outcome: Outcome, log: Log, config: Config) {
    && GivesUpOnlyWhenSilent(Lives(log.ticks, config.frameTimeout), outcome.WentSilent?)
    && (outcome.Finished? <==> config.once && |log.ticks| == 1) && (config.once ==> |log.ticks| <= 1)
    && (log.initial.Failed? ==> outcome.AdapterGone? && log.ticks == [])
    && (if outcome.AdapterGone? then Lost(past, left, LastDeadline(log, config)) && AllTaken(past, log) else JustMeasured(past, log))
  }

  /** The run is between measurements, with `silent` silent ones in a row behind it. */
  ghost predicate Between(line: Line, reader: FrameReader, freshest: Freshest, log: Log, silent: nat, config: Config)
    reads line, reader, freshest
  {
    && Agrees(line, reader, log, config.interval) && Newly(freshest, log) && JustMeasured(line.past, log)
    && History(log, silent, config.frameTimeout) && silent < MAX_SILENT_CYCLES
    && (config.once ==> log.ticks == []) && !log.initial.Failed?
  }

  /** What a run leaves behind. */
  ghost predicate Ended(line: Line, reader: FrameReader, outcome: Outcome, log: Log, config: Config)
    reads line, reader
  {
    && Agrees(line, reader, log, config.interval) && EndsAs(line.past, line.turns, outcome, log, config)
    && LooksAtNewest(log.ticks, log.arrivals, log.first) && log.published == Published(log.ticks, config.frameTimeout)
  }

  function Verdict(ok: bool, silent: nat, once: bool): Option<Outcome> {
    if !ok then Some(AdapterGone) else if silent >= MAX_SILENT_CYCLES then Some(WentSilent) else if once then Some(Finished) else None
  }

  /** One turn of the measurement loop. */
  method MeasureNext(line: Line, reader: FrameReader, freshest: Freshest, config: Config, publishAt: nat, silent: nat, ghost log: Log)
    returns (end: Option<Outcome>, silentNow: nat, ghost after: Log)
    requires Between(line, reader, freshest, log, silent, config) && publishAt == Due(log.first.at, config.interval, |log.ticks|)
    modifies reader, line, freshest
    ensures Onward(line) && SameStart(log, after)
    ensures end.None? ==> Between(line, reader, freshest, after, silentNow, config) && |after.ticks| == |log.ticks| + 1 && line.now >= publishAt
    ensures end.Some? ==> Ended(line, reader, end.value, after, config)
  {
    var ok, found;
    ok, found, silentNow, after := Measure(line, reader, freshest, publishAt, config.interval, config.frameTimeout, silent, log);
    GivesUp(Lives(after.ticks, config.frameTimeout));
    end := Verdict(ok, silentNow, config.once);
    if end.Some? { EndsHere(line.past, line.turns, log, after, ok, silentNow, config); }
  }

  lemma {:induction false} EndsHere(past: seq<Turn>, left: seq<Turn>, log: Log, after: Log, ok: bool, silent: nat, config: Config)
    requires History(after, silent, config.frameTimeout) && SameStart(log, after) && !log.initial.Failed?
    requires (config.once ==> log.ticks == []) && silent <= MAX_SILENT_CYCLES && Verdict(ok, silent, config.once).Some?
    requires if ok then JustMeasured(past, after) && |after.ticks| == |log.ticks| + 1
             else after.ticks == log.ticks && silent < MAX_SILENT_CYCLES && AllTaken(past, after)
                  && Lost(past, left, Due(after.first.at, config.interval, |after.ticks|))
    ensures EndsAs(past, left, Verdict(ok, silent, config.once).value, after, config)
  {
    GivesUp(Lives(after.ticks, config.frameTimeout));
  }

  /** The measurements, one after the other, until the run ends. */
  method MeasureAll(line: Line, reader: FrameReader, freshest: Freshest, config: Config, ghost start: Log)
    returns (outcome: Outcome, ghost log: Log)
    requires Between(line, reader, freshest, start, 0, config) && start.ticks == []
    requires start.first.at == line.now && config.interval > 0
    modifies reader, line, freshest
    ensures Onward(line) && SameStart(start, log) && Ended(line, reader, outcome, log, config)
  {
    log := start;
    var end: Option<Outcome> := None;
    var silentCycles: nat, tick := 0, 0;
    var started := line.now;
    while end.None?
      invariant Onward(line) && SameStart(start, log)
      invariant end.None? ==> Between(line, reader, freshest, log, silentCycles, config) && |log.ticks| == tick
      invariant end.Some? ==> Ended(line, reader, end.value, log, config)
      decreases end.None?, |line.turns|, if line.now >= Due(started, config.interval, tick) then line.now - Due(started, config.interval, tick) + 1 else 0
    {
      var publishAt := Due(started, config.interval, tick);
      end, silentCycles, log := MeasureNext(line, reader, freshest, config, publishAt, silentCycles, log);
      DueLater(started, config.interval, tick);
      tick := tick + 1;
    }
    outcome := end.value;
  }

  /** The wait for a settings frame: it took the frames skipped, and ended with the first settings frame, at
      the deadline, or with the adapter. */
  ghost predicate Waited(past: seq<Turn>, log: Log, deadline: nat) {
    && Answers(log.initial, log.skipped, SettingsFrame)
    && log.began <= |past| && |log.skipped| <= Whole(past[..log.began])
    && (log.initial.TimedOut? ==> Elapsed(past[..log.began]) >= deadline && |log.skipped| == Whole(past[..log.began]))
    && (!log.initial.Failed? && log.began > 0 ==> LastRead(past[..log.began], 0, |log.skipped|, FoundIn(log.initial), deadline))
    && (log.initial.Failed? ==> log.began == |past| && log.arrivals == [])
  }

  lemma {:induction false} WaitedStays(past: seq<Turn>, later: seq<Turn>, log: Log, after: Log, deadline: nat)
    requires Waited(past, log, deadline) && past <= later && SameStart(log, after) && !log.initial.Failed?
    ensures Waited(later, after, deadline)
  {
    assert later[..log.began] == past[..log.began];
  }

  ghost predicate Nothing(log: Log) {
    log.ticks == [] && log.arrivals == [] && log.published == []
  }

  /** The wait that comes first. */
  method WaitForSettings(line: Line, reader: FrameReader, firstFrame: Frame, config: Config)
    returns (initial: Reading, ghost log: Log)
    requires line.past == [] && Listening(line, reader, [])
    modifies reader, line
    ensures Onward(line) && Agrees(line, reader, log, config.interval) && Nothing(log)
    ensures initial == log.initial && log.first == Arrival(firstFrame, line.now)
    ensures Waited(line.past, log, config.frameTimeout)
    ensures initial.Failed? ==> line.LostBy(config.frameTimeout) && AllTaken(line.past, log)
    ensures !initial.Failed? ==> JustMeasured(line.past, log)
  {
    ghost var skipped;
    initial, skipped := ReadUntil(line, reader, line.now + config.frameTimeout, SettingsFrame, []);
    log := Log(initial, skipped, Arrival(firstFrame, line.now), |line.past|, [], [], []);
    Begins(line, reader, skipped, log, config.interval);
    assert line.past[..|line.past|] == line.past;
  }

  lemma {:induction false} EndsAtOnce(line: Line, reader: FrameReader, log: Log, config: Config)
    requires Agrees(line, reader, log, config.interval) && Nothing(log) && log.initial.Failed?
    requires line.LostBy(config.frameTimeout) && AllTaken(line.past, log)
    ensures Ended(line, reader, AdapterGone, log, config)
  {
    GivesUp(Lives(log.ticks, config.frameTimeout));
  }

  /** These are the first frames that the turns brought. */
  ghost predicate TakenFrom(past: seq<Turn>, frames: seq<Frame>) {
    |frames| <= Whole(past) && Handed(Received(past), Starts(Received(past))[..|frames|], frames)
  }

  /** The record of a whole run over a script, of which `past` was used up: told without the program's objects. */
  ghost predicate RecordOf(script: seq<Turn>, firstFrame: Frame, config: Config, past: seq<Turn>, outcome: Outcome, log: Log) {
    && past <= script && EndsAs(past, script[|past|..], outcome, log, config)
    && log.first.frame == firstFrame && Waited(past, log, config.frameTimeout)
    && TakenFrom(past, log.skipped + FramesOf(log.arrivals)) && KeepsTime(past, log, config.interval)
    && LooksAtNewest(log.ticks, log.arrivals, log.first) && log.published == Published(log.ticks, config.frameTimeout)
  }

  lemma {:induction false} LeavesRecord(line: Line, reader: FrameReader, outcome: Outcome, log: Log, config: Config)
    requires Ended(line, reader, outcome, log, config) && Waited(line.past, log, config.frameTimeout)
    ensures Agrees(line, reader, log, config.interval) && RecordOf(line.script, log.first.frame, config, line.past, outcome, log)
  {
    var taken := log.skipped + FramesOf(log.arrivals);
    TakenOfWhole(line, reader, taken);
    DeliveredSoFar(reader);
    assert Starts(reader.fed)[..|taken|] == reader.delivered;
    assert line.script[|line.past|..] == line.turns;
  }

  /** What follows a wait that left the adapter there. */
  method MeasureFrom(line: Line, reader: FrameReader, firstFrame: Frame, config: Config, ghost start: Log)
    returns (outcome: Outcome, ghost log: Log)
    requires Agrees(line, reader, start, config.interval) && JustMeasured(line.past, start) && Nothing(start)
    requires Waited(line.past, start, config.frameTimeout) && !start.initial.Failed?
    requires start.first == Arrival(firstFrame, line.now) && firstFrame.IsRealtime() && config.interval > 0
    modifies reader, line
    ensures Onward(line) && log.first.frame == firstFrame && Ended(line, reader, outcome, log, config)
    ensures Waited(line.past, log, config.frameTimeout)
  {
    var freshest := new Freshest();
    freshest.Accept(firstFrame, line.now);
    outcome, log := MeasureAll(line, reader, freshest, config, start);
    WaitedStays(old(line.past), line.past, start, log, config.frameTimeout);
  }

  /** A whole run on a port where discovery has just seen `firstFrame`. The record returned is of what the
      line brought: every frame taken, in order, each with its moment; and what each measurement made of
      them. The run ends on a lost adapter, on the first three measurements in a row that found no fresh
      frame, or after one when only one is asked for. */
  method Run(line: Line, reader: FrameReader, firstFrame: Frame, config: Config)
    returns (outcome: Outcome, ghost log: Log)
    requires line.past == [] && Listening(line, reader, []) && config.interval > 0 && firstFrame.IsRealtime()
    modifies reader, line
    ensures Onward(line) && Agrees(line, reader, log, config.interval)
    ensures RecordOf(line.script, firstFrame, config, line.past, outcome, log)
  {
    var initial;
    initial, log := WaitForSettings(line, reader, firstFrame, config);
    if initial.Failed? {
      outcome := AdapterGone;
      EndsAtOnce(line, reader, log, config);
      LeavesRecord(line, reader, outcome, log, config);
    } else {
      outcome, log := MeasureFrom(line, reader, firstFrame, config, log);
      LeavesRecord(line, reader, outcome, log, config);
    }
  }

  lemma {:induction false} Begins(line: Line, reader: FrameReader, skipped: seq<Frame>, log: Log, interval: nat)
    requires Listening(line, reader, [] + skipped) && log.skipped == skipped && log.arrivals == [] && log.ticks == []
    requires log.began == |line.past| && log.first.at == line.now
    ensures Agrees(line, reader, log, interval) && |skipped| <= Whole(line.past)
    ensures reader.Drained() ==> |skipped| == Whole(line.past)
  {
    assert [] + skipped == skipped == skipped + FramesOf([]) && line.past[..|line.past|] == line.past;
    TakenOfWhole(line, reader, skipped);
  }
}
