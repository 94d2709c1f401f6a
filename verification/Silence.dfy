/** When a producer gives up: both serial programs end on three measurements in a row that read nothing. */
module Silence {

  const MAX_SILENT_CYCLES: nat := 3

  /** How many measurements in a row, up to the last, read nothing. */
  function SilentRun(live: seq<bool>): nat {
    if live == [] || live[|live| - 1] then 0 else SilentRun(live[..|live| - 1]) + 1
  }

  lemma {:induction false} SilentRunMeans(live: seq<bool>)
    ensures var n := SilentRun(live);
            && n <= |live|
            && (forall k :: |live| - n <= k < |live| ==> !live[k])
            && (n < |live| ==> live[|live| - n - 1])
  {
    if live != [] && !live[|live| - 1] {
      SilentRunMeans(live[..|live| - 1]);
    }
  }

  lemma {:induction false} SilentStep(live: seq<bool>, next: bool)
    ensures SilentRun(live + [next]) == if next then 0 else SilentRun(live) + 1
  {
    assert (live + [next])[..|live|] == live;
  }

  /** The run has not reached the limit at any earlier measurement. */
  ghost predicate NeverSilent(live: seq<bool>) {
    forall n :: 0 <= n < |live| ==> SilentRun(live[..n]) < MAX_SILENT_CYCLES
  }

  lemma {:induction false} NeverSilentStep(live: seq<bool>, next: bool)
    requires NeverSilent(live) && SilentRun(live) < MAX_SILENT_CYCLES
    ensures NeverSilent(live + [next])
  {
    forall n | 0 <= n < |live + [next]| ensures SilentRun((live + [next])[..n]) < MAX_SILENT_CYCLES {
      assert (live + [next])[..n] == live[..n];
      assert live[..|live|] == live;
    }
  }

  /** The last three measurements read nothing. */
  predicate ThreeSilent(live: seq<bool>) {
    var n := |live|;
    n >= MAX_SILENT_CYCLES && !live[n - 1] && !live[n - 2] && !live[n - 3]
  }

  /** The counter reaches the limit exactly when the last three were silent. */
  lemma {:induction false} LimitMeans(live: seq<bool>)
    ensures SilentRun(live) >= MAX_SILENT_CYCLES <==> ThreeSilent(live)
  {
    SilentRunMeans(live);
  }

  /** A run that gave up ends with three silent measurements, any other does not, and no measurement
      before the last ended three silent ones. */
  ghost predicate GivesUpOnlyWhenSilent(live: seq<bool>, gaveUp: bool) {
    (gaveUp <==> ThreeSilent(live)) && forall n :: 0 <= n < |live| ==> !ThreeSilent(live[..n])
  }

  /** A counter that is reset by a measurement that read something, and stops the run at the limit, stops
      it on the first three silent measurements in a row. */
  lemma {:induction false} GivesUp(live: seq<bool>)
    requires NeverSilent(live)
    ensures GivesUpOnlyWhenSilent(live, SilentRun(live) >= MAX_SILENT_CYCLES)
  {
    LimitMeans(live);
    forall n | 0 <= n < |live| ensures !ThreeSilent(live[..n]) { LimitMeans(live[..n]); }
  }
}
