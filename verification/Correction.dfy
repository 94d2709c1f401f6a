/** One run of the program: ask every chosen pair, agree, and step the clock or leave it alone. */
module Correction {
  import opened Bytes
  import opened Quorum
  import opened Sorting
  import opened Verify
  import opened Choose
  import Deferred
  import opened Asking

  /** What becomes of one pair's thread. */
  datatype Thread = Panicked | Ran(net: Network)

  /** Everything outside the program: the trust store, each pair's network, and whether the kernel lets
      the clock be stepped. */
  datatype World = World(library: Option<Library>, threads: nat -> Thread, steps: bool)

  // ---------------------------------------------------------------- the answers

  /** The verified time of the `k`-th pair, if it got that far. */
  function VerifiedBy(o: Options, library: Library, world: World, pair: Pair, k: nat): Option<Deferred.Verified> {
    match world.threads(k)
    case Panicked => None
    case Ran(net) =>
      var resolver, server := pair.resolver, pair.server;
      match Asked(library, net, resolver.addresses, resolver.hostname, server.hostname, o.floor)
      case Err(_) => None
      case Ok(v) => Some(v)
  }

  datatype Collected = Collected(answers: seq<Answer>, windows: seq<Option<Window>>, failures: nat)

  function AnswerOf(pair: Pair, seconds: int): Answer {
    Answer(pair.server.operator, pair.server.hostname + " via " + pair.resolver.name, seconds)
  }

  function Joined(c: Collected, pair: Pair, v: Option<Deferred.Verified>): Collected {
    match v
    case None => c.(failures := c.failures + 1)
    case Some(v) => Collected(c.answers + [AnswerOf(pair, v.seconds)], c.windows + [v.window], c.failures)
  }

  type Results = seq<Option<Deferred.Verified>>

  function ResultsOf(o: Options, world: World, pairs: seq<Pair>): (r: Results)
    ensures |r| == |pairs|
  {
    match world.library
    case None => seq(|pairs|, _ => None)
    case Some(library) => seq(|pairs|, k requires 0 <= k < |pairs| => VerifiedBy(o, library, world, pairs[k], k))
  }

  function CollectedTo(pairs: seq<Pair>, results: Results, n: nat): Collected
    requires n <= |pairs| == |results|
  {
    if n == 0 then Collected([], [], 0)
    else Joined(CollectedTo(pairs, results, n - 1), pairs[n - 1], results[n - 1])
  }

  function CollectedAll(o: Options, world: World, pairs: seq<Pair>): Collected {
    if world.library.None? then Collected([], [], 1)
    else CollectedTo(pairs, ResultsOf(o, world, pairs), |pairs|)
  }

  method CollectAnswers(o: Options, world: World, pairs: seq<Pair>) returns (c: Collected)
    ensures c == CollectedAll(o, world, pairs)
  {
    if world.library.None? { return Collected([], [], 1); }
    c := Collected([], [], 0);
    ghost var results := ResultsOf(o, world, pairs);
    for k := 0 to |pairs|
      invariant c == CollectedTo(pairs, results, k)
    {
      var verified := AskOne(o, world.library.value, world, pairs[k], k);
      c := Joined(c, pairs[k], verified);
    }
  }

  method AskOne(o: Options, library: Library, world: World, pair: Pair, k: nat) returns (r: Option<Deferred.Verified>)
    ensures r == VerifiedBy(o, library, world, pair, k)
  {
    r := None;
    var thread := world.threads(k);
    if thread.Ran? {
      var resolver, server := pair.resolver, pair.server;
      var asked := AskPair(library, thread.net, resolver.addresses, resolver.hostname, server.hostname, o.floor);
      if asked.Ok? { r := Some(asked.value); }
    }
  }

  // ---------------------------------------------------------------- the clock

  const NANOS: int := 1_000_000_000

  /** Nanoseconds to signed seconds, toward the epoch from either side. */
  function EpochSeconds(nanos: int): Option<int> {
    if nanos >= 0 then
      if nanos / NANOS <= I64_MAX then Some(nanos / NANOS) else None
    else if -nanos / NANOS <= I64_MAX then Some(-(-nanos / NANOS)) else None
  }

  lemma {:induction false} EpochSecondsIs(nanos: int)
    ensures EpochSeconds(nanos).Some? <==> -0x8000_0000_0000_0000 * 1_000_000_000 < nanos < 0x8000_0000_0000_0000 * 1_000_000_000
    ensures EpochSeconds(nanos).Some? ==>
              var s := EpochSeconds(nanos).value;
              IsI64(s) && -1_000_000_000 < nanos - s * 1_000_000_000 < 1_000_000_000
              && (nanos >= 0 <==> s * 1_000_000_000 <= nanos && s >= 0)
  {
  }

  function NeedsSetting(now: int, window: Option<Window>): bool {
    match window
    case Some(w) => now < w.start || now > w.end
    case None => true
  }

  datatype Judgement = Step | StandDown | Unreadable

  function Judge(force: bool, nanos: int, window: Option<Window>): Judgement {
    if force then Step
    else
      match EpochSeconds(nanos)
      case None => Unreadable
      case Some(now) => if NeedsSetting(now, window) then Step else StandDown
  }

  // ---------------------------------------------------------------- a run

  datatype Outcome =
    | NotChosen | PairsFailed(count: nat) | NoAgreement(error: QuorumError) | ClockUnreadable
    | WouldLeave | WouldSet(seconds: int) | Left | CannotStep | Stepped(seconds: int)

  function OperatorsOf(pairs: seq<Pair>): (r: seq<Name>)
    ensures |r| == |pairs| && forall i :: 0 <= i < |r| ==> r[i] == pairs[i].server.operator
  {
    seq(|pairs|, i requires 0 <= i < |pairs| => pairs[i].server.operator)
  }

  function Concluded(o: Options, world: World, nanos: int, t: int, window: Option<Window>): Outcome {
    match Judge(o.force, nanos, window)
    case Unreadable => ClockUnreadable
    case StandDown => if o.dryRun then WouldLeave else Left
    case Step => if o.dryRun then WouldSet(t) else if world.steps then Stepped(t) else CannotStep
  }

  function Agreed(o: Options, world: World, nanos: int, pairs: seq<Pair>, c: Collected): Outcome {
    if c.failures > 0 then PairsFailed(c.failures)
    else
      match Decided(OperatorsOf(pairs), c.answers, o.tolerance)
      case Err(e) => NoAgreement(e)
      case Ok(t) => Concluded(o, world, nanos, t, CommonWindow(c.windows))
  }

  function Corrected(o: Options, seed: nat, world: World, nanos: int): Outcome {
    match Pairs(o, seed)
    case None => NotChosen
    case Some(pairs) => Agreed(o, world, nanos, pairs, CollectedAll(o, world, pairs))
  }

  class Host {
    /** The system clock, in nanoseconds since the epoch. */
    var clock: int

    method SetClock(world: World, seconds: int) returns (ok: bool)
      modifies this
      ensures ok == world.steps && clock == if ok then seconds * NANOS else old(clock)
    {
      ok := world.steps;
      if ok { clock := seconds * NANOS; }
    }

    /** The clock becomes the agreed second exactly when the run says it stepped it; every other run,
        failed, dry or stood down, leaves it as it was. */
    method Run(o: Options, seed: nat, world: World) returns (r: Outcome)
      modifies this
      ensures r == Corrected(o, seed, world, old(clock))
      ensures clock == if r.Stepped? then r.seconds * NANOS else old(clock)
    {
      var pairs := Pairs(o, seed);
      if pairs.None? { return NotChosen; }
      var c := CollectAnswers(o, world, pairs.value);
      if c.failures > 0 { return PairsFailed(c.failures); }
      var t := Decide(OperatorsOf(pairs.value), c.answers, o.tolerance);
      if t.Err? { return NoAgreement(t.error); }
      r := Conclude(o, world, t.value, CommonWindow(c.windows));
    }

    method Conclude(o: Options, world: World, t: int, window: Option<Window>) returns (r: Outcome)
      modifies this
      ensures r == Concluded(o, world, old(clock), t, window)
      ensures clock == if r.Stepped? then r.seconds * NANOS else old(clock)
    {
      match Judge(o.force, clock, window) {
        case Unreadable => return ClockUnreadable;
        case StandDown => return if o.dryRun then WouldLeave else Left;
        case Step =>
      }
      if o.dryRun { return WouldSet(t); }
      var ok := SetClock(world, t);
      r := if ok then Stepped(t) else CannotStep;
    }
  }

  // ---------------------------------------------------------------- what was collected

  ghost predicate AllAnswered(results: Results) {
    forall k :: 0 <= k < |results| ==> results[k].Some?
  }

  lemma {:induction false} NoFailuresTo(pairs: seq<Pair>, results: Results, n: nat)
    requires n <= |pairs| == |results|
    ensures var c := CollectedTo(pairs, results, n);
            && |c.answers| == |c.windows|
            && (c.failures == 0 <==> AllAnswered(results[..n]))
            && (c.failures == 0 ==> |c.answers| == n)
  {
    if n > 0 {
      NoFailuresTo(pairs, results, n - 1);
      assert results[..n] == results[..n - 1] + [results[n - 1]];
    }
  }

  lemma {:induction false} CollectedAt(pairs: seq<Pair>, results: Results, n: nat, k: nat)
    requires k < n <= |pairs| == |results| && AllAnswered(results)
    ensures var c := CollectedTo(pairs, results, n);
            && |c.answers| == |c.windows| == n
            && c.answers[k] == AnswerOf(pairs[k], results[k].value.seconds) && c.windows[k] == results[k].value.window
  {
    NoFailuresTo(pairs, results, n);
    NoFailuresTo(pairs, results, n - 1);
    if k < n - 1 { CollectedAt(pairs, results, n - 1, k); }
  }

  ghost predicate Lists(pairs: seq<Pair>, results: Results, c: Collected)
    requires |pairs| == |results| && AllAnswered(results)
  {
    && |c.answers| == |c.windows| == |pairs|
    && forall k :: 0 <= k < |pairs| ==>
        c.answers[k] == AnswerOf(pairs[k], results[k].value.seconds) && c.windows[k] == results[k].value.window
  }

  /** Nothing failed exactly when every pair answered, and then every pair's answer is there, in order. */
  lemma {:induction false} NothingFailed(pairs: seq<Pair>, results: Results)
    requires |pairs| == |results|
    ensures CollectedTo(pairs, results, |pairs|).failures == 0 <==> AllAnswered(results)
    ensures AllAnswered(results) ==> Lists(pairs, results, CollectedTo(pairs, results, |pairs|))
  {
    NoFailuresTo(pairs, results, |pairs|);
    assert results[..|pairs|] == results;
    if AllAnswered(results) {
      forall k | 0 <= k < |pairs|
        ensures var c := CollectedTo(pairs, results, |pairs|);
                && |c.answers| == |c.windows| == |pairs|
                && c.answers[k] == AnswerOf(pairs[k], results[k].value.seconds) && c.windows[k] == results[k].value.window
      {
        CollectedAt(pairs, results, |pairs|, k);
      }
    }
  }

  // ---------------------------------------------------------------- one vote each

  lemma {:induction false} NoReading(answers: seq<Answer>, operator: Name)
    requires forall a <- answers :: a.operator != operator
    ensures Readings(answers, operator) == []
  {
    if answers != [] { NoReading(answers[1..], operator); }
  }

  predicate OperatorsApart(answers: seq<Answer>) {
    forall i, j :: 0 <= i < j < |answers| ==> answers[i].operator != answers[j].operator
  }

  lemma {:induction false} ApartTail(answers: seq<Answer>)
    requires answers != [] && OperatorsApart(answers)
    ensures OperatorsApart(answers[1..]) && forall a <- answers[1..] :: a.operator != answers[0].operator
  {
    assert forall i :: 0 <= i < |answers| - 1 ==> answers[1..][i] == answers[i + 1];
  }

  lemma {:induction false} OnlyReading(answers: seq<Answer>, k: nat)
    requires k < |answers| && OperatorsApart(answers)
    ensures Readings(answers, answers[k].operator) == [answers[k].seconds]
  {
    ApartTail(answers);
    if k == 0 {
      NoReading(answers[1..], answers[0].operator);
    } else {
      assert answers[1..][k - 1] == answers[k];
      OnlyReading(answers[1..], k - 1);
    }
  }

  lemma {:induction false} MiddleOfOne(s: int)
    ensures Middle([s]) == s && (AllNear([s], 0)) && forall tolerance :: AllNear([s], tolerance) <==> tolerance >= 0
  {
    assert Sort([s]) == [s] by { assert [s][1..] == []; }
    assert s in [s];
    forall tolerance ensures AllNear([s], tolerance) <==> tolerance >= 0 {
      if AllNear([s], tolerance) { assert Near(s, s, tolerance); }
    }
  }

  ghost predicate SecondsNear(answers: seq<Answer>, tolerance: int) {
    forall i, j :: 0 <= i < |answers| && 0 <= j < |answers| ==> Near(answers[i].seconds, answers[j].seconds, tolerance)
  }

  ghost predicate Matches(sampled: seq<Name>, answers: seq<Answer>) {
    |sampled| == |answers| && forall k :: 0 <= k < |sampled| ==> sampled[k] == answers[k].operator
  }

  lemma {:induction false} OwnReading(sampled: seq<Name>, answers: seq<Answer>, k: nat)
    requires Matches(sampled, answers) && OperatorsApart(answers) && k < |sampled|
    ensures Readings(answers, sampled[k]) == [answers[k].seconds] && Middle(Readings(answers, sampled[k])) == answers[k].seconds
    ensures forall tolerance :: AllNear(Readings(answers, sampled[k]), tolerance) <==> tolerance >= 0
  {
    OnlyReading(answers, k);
    MiddleOfOne(answers[k].seconds);
  }

  /** With one answer from each of several operators, a time is believed exactly when every two answers
      are within tolerance. */
  lemma {:induction false} OneVoteEach(sampled: seq<Name>, answers: seq<Answer>, tolerance: int)
    requires Matches(sampled, answers) && OperatorsApart(answers)
    ensures Decided(sampled, answers, tolerance).Ok? <==> sampled != [] && SecondsNear(answers, tolerance)
  {
    BelievedIff(sampled, answers, tolerance);
    forall k | 0 <= k < |sampled|
      ensures Readings(answers, sampled[k]) == [answers[k].seconds]
      ensures Middle(Readings(answers, sampled[k])) == answers[k].seconds
      ensures AllNear(Readings(answers, sampled[k]), tolerance) <==> tolerance >= 0
    {
      OwnReading(sampled, answers, k);
    }
    if sampled != [] {
      if SecondsNear(answers, tolerance) {
        assert Near(answers[0].seconds, answers[0].seconds, tolerance);
      }
      if Decided(sampled, answers, tolerance).Ok? {
        forall i, j | 0 <= i < |answers| && 0 <= j < |answers|
          ensures Near(answers[i].seconds, answers[j].seconds, tolerance) {
          assert sampled[i] in sampled && sampled[j] in sampled;
        }
      }
    }
  }

  // ---------------------------------------------------------------- what a step means

  /** The clock is inside the window of every pair, all of them being known. */
  ghost predicate InsideAll(results: Results, now: int)
    requires AllAnswered(results)
  {
    forall r <- results :: r.value.window.Some? && Holds(r.value.window.value, now)
  }

  lemma {:induction false} InsideAllIsCommon(pairs: seq<Pair>, results: Results, c: Collected, now: int)
    requires |pairs| == |results| && AllAnswered(results) && Lists(pairs, results, c) && pairs != [] && IsI64(now)
    ensures InsideAll(results, now) <==> CommonWindow(c.windows).Some? && Holds(CommonWindow(c.windows).value, now)
  {
    CommonWindowIsExact(c.windows, now);
    forall k | 0 <= k < |pairs|
      ensures c.windows[k] == results[k].value.window && c.windows[k] in c.windows && results[k] in results {
    }
  }

  ghost predicate AllAgree(results: Results, tolerance: int)
    requires AllAnswered(results)
  {
    forall i, j :: 0 <= i < |results| && 0 <= j < |results| ==>
      Near(results[i].value.seconds, results[j].value.seconds, tolerance)
  }

  /** Not forced, the clock may be stepped only if it can be read and is not already inside every window. */
  ghost predicate MayStep(force: bool, results: Results, nanos: int)
    requires AllAnswered(results)
  {
    force || (EpochSeconds(nanos).Some? && !InsideAll(results, EpochSeconds(nanos).value))
  }

  lemma {:induction false} JudgedStep(force: bool, pairs: seq<Pair>, results: Results, c: Collected, nanos: int)
    requires |pairs| == |results| && AllAnswered(results) && Lists(pairs, results, c) && pairs != []
    ensures Judge(force, nanos, CommonWindow(c.windows)).Step? <==> MayStep(force, results, nanos)
  {
    EpochSecondsIs(nanos);
    if EpochSeconds(nanos).Some? { InsideAllIsCommon(pairs, results, c, EpochSeconds(nanos).value); }
  }

  lemma {:induction false} AgreedExactly(tolerance: int, pairs: seq<Pair>, results: Results, c: Collected)
    requires |pairs| == |results| && AllAnswered(results) && Lists(pairs, results, c) && OwnOperators(pairs)
    ensures Decided(OperatorsOf(pairs), c.answers, tolerance).Ok? <==> pairs != [] && AllAgree(results, tolerance)
  {
    OneVoteEach(OperatorsOf(pairs), c.answers, tolerance);
    forall i | 0 <= i < |pairs| ensures c.answers[i].seconds == results[i].value.seconds {
    }
  }

  ghost predicate StepConditions(o: Options, world: World, results: Results, nanos: int) {
    && !o.dryRun && world.steps && world.library.Some? && results != []
    && AllAnswered(results) && AllAgree(results, o.tolerance) && MayStep(o.force, results, nanos)
  }

  /** Exactly when the clock is stepped: the run is not a dry one, every pair answered, every two of the
      times agree within tolerance, and the clock is forced or is outside some pair's window or some window
      is unknown. A clock inside every known window is never stepped unless forced. */
  lemma {:induction false} StepsExactlyWhen(o: Options, seed: nat, world: World, nanos: int)
    requires Pairs(o, seed).Some? && OwnOperators(Pairs(o, seed).value)
    ensures Corrected(o, seed, world, nanos).Stepped?
        <==> StepConditions(o, world, ResultsOf(o, world, Pairs(o, seed).value), nanos)
  {
    var pairs := Pairs(o, seed).value;
    StepsGiven(o, world, nanos, pairs, ResultsOf(o, world, pairs));
  }

  lemma {:induction false} StepsGiven(o: Options, world: World, nanos: int, pairs: seq<Pair>, results: Results)
    requires |pairs| == |results| && OwnOperators(pairs)
    ensures world.library.Some? && Agreed(o, world, nanos, pairs, CollectedTo(pairs, results, |pairs|)).Stepped?
        <==> StepConditions(o, world, results, nanos)
  {
    var c := CollectedTo(pairs, results, |pairs|);
    NothingFailed(pairs, results);
    if AllAnswered(results) {
      AgreedExactly(o.tolerance, pairs, results, c);
      if pairs != [] { JudgedStep(o.force, pairs, results, c, nanos); }
    }
  }

  ghost predicate Checked(library: Library, claim: Result<Claim, PairFault>, seconds: int, pair: Pair) {
    && claim.Ok? && claim.value.seconds == seconds
    && HasLeg(claim.value.legs, "DoH", pair.resolver.hostname) && HasLeg(claim.value.legs, "NTS-KE", pair.server.hostname)
    && forall p <- claim.value.legs :: Deferred.Vouches(library, p, seconds)
  }

  /** An answered pair's time is the one its server claimed, at or above the floor, and every chain it met,
      the resolver's and the key server's among them, verifies at it. */
  lemma {:induction false} AnsweredMeansChecked(o: Options, library: Library, world: World, pair: Pair, k: nat)
    requires VerifiedBy(o, library, world, pair, k).Some?
    ensures var t := VerifiedBy(o, library, world, pair, k).value.seconds;
            && t >= o.floor && world.threads(k).Ran?
            && Checked(library,
                       Claimed(world.threads(k).net, pair.resolver.addresses, pair.resolver.hostname, pair.server.hostname),
                       t, pair)
  {
    var net := world.threads(k).net;
    AnswersExactlyWhen(library, net, pair.resolver.addresses, pair.resolver.hostname, pair.server.hostname, o.floor);
    LegsOfBothKinds(net, pair.resolver.addresses, pair.resolver.hostname, pair.server.hostname);
  }

  lemma {:induction false} ResultsAreAboveFloor(o: Options, world: World, pairs: seq<Pair>, k: nat)
    requires k < |pairs| && world.library.Some? && AllAnswered(ResultsOf(o, world, pairs))
    ensures ResultsOf(o, world, pairs)[k].value.seconds >= o.floor
  {
    assert ResultsOf(o, world, pairs)[k] == VerifiedBy(o, world.library.value, world, pairs[k], k);
    AnsweredMeansChecked(o, world.library.value, world, pairs[k], k);
  }

  /** `t` is the time of one of the pairs, and near every other. */
  ghost predicate IsOneOf(t: int, results: Results, tolerance: int)
    requires AllAnswered(results)
  {
    && (exists j :: 0 <= j < |results| && results[j].value.seconds == t)
    && forall k :: 0 <= k < |results| ==> Near(t, results[k].value.seconds, 2 * tolerance)
  }

  /** What stands behind a stepped clock, for every command line and every world: no pair failed, the clock
      was set to the time of one of the pairs, every pair's time is at or above the floor and so is that
      one, and every pair's time is within twice the tolerance of it. */
  lemma {:induction false} StepIsVouchedFor(o: Options, seed: nat, world: World, nanos: int)
    requires Corrected(o, seed, world, nanos).Stepped?
    ensures var results, t := ResultsOf(o, world, Pairs(o, seed).value), Corrected(o, seed, world, nanos).seconds;
            && !o.dryRun && AllAnswered(results) && MayStep(o.force, results, nanos)
            && IsOneOf(t, results, o.tolerance)
            && t >= o.floor && forall k :: 0 <= k < |results| ==> results[k].value.seconds >= o.floor
  {
    var pairs := Pairs(o, seed).value;
    var results := ResultsOf(o, world, pairs);
    SteppedGiven(o, world, nanos, pairs, results);
    forall k | 0 <= k < |results| ensures results[k].value.seconds >= o.floor {
      ResultsAreAboveFloor(o, world, pairs, k);
    }
  }

  lemma {:induction false} SteppedGiven(o: Options, world: World, nanos: int, pairs: seq<Pair>, results: Results)
    requires |pairs| == |results| && Agreed(o, world, nanos, pairs, CollectedTo(pairs, results, |pairs|)).Stepped?
    ensures AllAnswered(results) && !o.dryRun && MayStep(o.force, results, nanos)
    ensures IsOneOf(Agreed(o, world, nanos, pairs, CollectedTo(pairs, results, |pairs|)).seconds, results, o.tolerance)
  {
    var c := CollectedTo(pairs, results, |pairs|);
    NothingFailed(pairs, results);
    JudgedStep(o.force, pairs, results, c, nanos);
    DecidedIsOneOf(o.tolerance, pairs, results, c);
  }

  lemma {:induction false} DecidedIsOneOf(tolerance: int, pairs: seq<Pair>, results: Results, c: Collected)
    requires |pairs| == |results| && AllAnswered(results) && Lists(pairs, results, c) && pairs != []
    requires Decided(OperatorsOf(pairs), c.answers, tolerance).Ok?
    ensures IsOneOf(Decided(OperatorsOf(pairs), c.answers, tolerance).value, results, tolerance)
  {
    var t := Decided(OperatorsOf(pairs), c.answers, tolerance).value;
    forall k | 0 <= k < |pairs|
      ensures Near(t, results[k].value.seconds, 2 * tolerance)
      ensures exists a <- c.answers :: a.seconds == t
    {
      DecidedIsNear(tolerance, pairs, c, k);
    }
    assert 0 <= 0 < |pairs|;
    DecidedIsNear(tolerance, pairs, c, 0);
    var j :| 0 <= j < |c.answers| && c.answers[j].seconds == t;
    assert results[j].value.seconds == t;
  }

  lemma {:induction false} DecidedIsNear(tolerance: int, pairs: seq<Pair>, c: Collected, k: nat)
    requires |c.answers| == |pairs| && k < |pairs| && c.answers[k].operator == pairs[k].server.operator
    requires Decided(OperatorsOf(pairs), c.answers, tolerance).Ok?
    ensures var t := Decided(OperatorsOf(pairs), c.answers, tolerance).value;
            Near(t, c.answers[k].seconds, 2 * tolerance) && exists a <- c.answers :: a.seconds == t
  {
    var operators := OperatorsOf(pairs);
    assert operators[k] in operators && c.answers[k] in c.answers;
    ReadingsAreAnswers(c.answers, operators[k], c.answers[k].seconds);
    BelievedMeansAgreed(operators, c.answers, tolerance, operators[k], c.answers[k].seconds);
  }

  /** For an accepted command line with distinct names the operators are distinct, so the exact condition
      applies, for every seed, and there is always at least one pair. */
  lemma {:induction false} AcceptedIsJudgedExactly(o: Options, seed: nat, world: World, nanos: int)
    requires Accepted(o) && NamesDistinct(o.servers) && Distinct(ResolverNames(o.resolvers))
    ensures Pairs(o, seed).Some? && Pairs(o, seed).value != []
    ensures Corrected(o, seed, world, nanos).Stepped?
        <==> StepConditions(o, world, ResultsOf(o, world, Pairs(o, seed).value), nanos)
  {
    ChoosingSucceeds(o, seed);
    StepsExactlyWhen(o, seed, world, nanos);
  }

  // ---------------------------------------------------------------- what a run ends in

  /** The pairs that did not answer. */
  ghost function Unanswered(results: Results, n: nat): set<nat>
    requires n <= |results|
  {
    set k: nat | k < n && results[k].None?
  }

  lemma {:induction false} FailuresTo(pairs: seq<Pair>, results: Results, n: nat)
    requires n <= |pairs| == |results|
    ensures CollectedTo(pairs, results, n).failures == |Unanswered(results, n)|
  {
    if n > 0 {
      FailuresTo(pairs, results, n - 1);
      assert Unanswered(results, n) == Unanswered(results, n - 1) + if results[n - 1].None? then {n - 1} else {};
    }
  }

  lemma {:induction false} JudgementIs(force: bool, pairs: seq<Pair>, results: Results, c: Collected, nanos: int)
    requires |pairs| == |results| && AllAnswered(results) && Lists(pairs, results, c) && pairs != []
    ensures var j := Judge(force, nanos, CommonWindow(c.windows));
            if force then j == Step
            else if EpochSeconds(nanos).None? then j == Unreadable
            else if InsideAll(results, EpochSeconds(nanos).value) then j == StandDown
            else j == Step
  {
    EpochSecondsIs(nanos);
    if EpochSeconds(nanos).Some? { InsideAllIsCommon(pairs, results, c, EpochSeconds(nanos).value); }
  }

  lemma {:induction false} ConclusionIs(o: Options, world: World, nanos: int, pairs: seq<Pair>, results: Results, t: int)
    requires |pairs| == |results| && AllAnswered(results) && pairs != [] && IsOneOf(t, results, o.tolerance)
    ensures var c := CollectedTo(pairs, results, |pairs|);
            var r := Concluded(o, world, nanos, t, CommonWindow(c.windows));
            if !o.force && EpochSeconds(nanos).None? then r == ClockUnreadable
            else if !o.force && InsideAll(results, EpochSeconds(nanos).value) then r == if o.dryRun then WouldLeave else Left
            else r == if o.dryRun then WouldSet(t) else if world.steps then Stepped(t) else CannotStep
  {
    NothingFailed(pairs, results);
    JudgementIs(o.force, pairs, results, CollectedTo(pairs, results, |pairs|), nanos);
  }

  /** How every run ends, whatever the command line, the seed and the world. Without pairs it says so; a
      trust store that cannot be built counts as one failure; pairs that did not answer are counted; times
      that do not decide are reported as they failed; and only then does the clock matter. An unforced clock
      that cannot be read, or is inside every window, is left; otherwise the time of one of the pairs, near
      all the others, is what a dry run would set and what another sets if the kernel lets it. */
  lemma {:induction false} EndsIn(o: Options, seed: nat, world: World, nanos: int)
    ensures var r := Corrected(o, seed, world, nanos);
            if Pairs(o, seed).None? then r == NotChosen
            else
              var pairs := Pairs(o, seed).value;
              var results := ResultsOf(o, world, pairs);
              var answers := CollectedTo(pairs, results, |pairs|).answers;
              if world.library.None? then r == PairsFailed(1)
              else if !AllAnswered(results) then r == PairsFailed(|set k: nat | k < |results| && results[k].None?|)
              else if Decided(OperatorsOf(pairs), answers, o.tolerance).Err? then
                r == NoAgreement(Decided(OperatorsOf(pairs), answers, o.tolerance).error)
              else if !o.force && EpochSeconds(nanos).None? then r == ClockUnreadable
              else if !o.force && InsideAll(results, EpochSeconds(nanos).value) then r == if o.dryRun then WouldLeave else Left
              else if o.dryRun then r.WouldSet? && IsOneOf(r.seconds, results, o.tolerance)
              else if world.steps then r.Stepped? && IsOneOf(r.seconds, results, o.tolerance)
              else r == CannotStep
  {
    if Pairs(o, seed).Some? && world.library.Some? {
      var pairs := Pairs(o, seed).value;
      var results := ResultsOf(o, world, pairs);
      var c := CollectedTo(pairs, results, |pairs|);
      NothingFailed(pairs, results);
      FailuresTo(pairs, results, |pairs|);
      if AllAnswered(results) && Decided(OperatorsOf(pairs), c.answers, o.tolerance).Ok? {
        SomethingDecided(pairs, c.answers, o.tolerance);
        DecidedIsOneOf(o.tolerance, pairs, results, c);
        ConclusionIs(o, world, nanos, pairs, results, Decided(OperatorsOf(pairs), c.answers, o.tolerance).value);
      }
    }
  }

  lemma {:induction false} SomethingDecided(pairs: seq<Pair>, answers: seq<Answer>, tolerance: int)
    requires Decided(OperatorsOf(pairs), answers, tolerance).Ok?
    ensures pairs != []
  {
    BelievedIff(OperatorsOf(pairs), answers, tolerance);
  }

  /** When no operator is asked twice, the times decide exactly when there are some and every two of them
      are within tolerance; so every outcome has an exact condition on what the pairs answered. */
  lemma {:induction false} DisagreesExactlyWhen(o: Options, seed: nat, world: World, nanos: int)
    requires Pairs(o, seed).Some? && OwnOperators(Pairs(o, seed).value)
    ensures var results := ResultsOf(o, world, Pairs(o, seed).value);
            Corrected(o, seed, world, nanos).NoAgreement?
            <==> world.library.Some? && AllAnswered(results) && (results == [] || !AllAgree(results, o.tolerance))
  {
    var pairs := Pairs(o, seed).value;
    var results := ResultsOf(o, world, pairs);
    EndsIn(o, seed, world, nanos);
    if AllAnswered(results) {
      NothingFailed(pairs, results);
      AgreedExactly(o.tolerance, pairs, results, CollectedTo(pairs, results, |pairs|));
    }
  }
}
