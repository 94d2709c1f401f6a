/** When certificates hold, and verification at an instant of this program's choosing, twice. */
module Verify {
  import opened Bytes
  import opened Quorum

  const I64_MIN: int := -0x8000_0000_0000_0000
  const I64_MAX: int := 0x7FFF_FFFF_FFFF_FFFF

  predicate IsI64(x: int) {
    I64_MIN <= x <= I64_MAX
  }

  datatype Window = Window(start: int, end: int)

  predicate Holds(w: Window, at: int) {
    w.start <= at <= w.end
  }

  predicate AllHold(windows: seq<Window>, at: int) {
    forall w <- windows :: Holds(w, at)
  }

  // ---------------------------------------------------------------- intersection

  function Later(a: int, b: int): int { if a < b then b else a }

  function Earlier(a: int, b: int): int { if a < b then a else b }

  function Narrowed(w: Window, windows: seq<Window>): Window
    decreases windows
  {
    if windows == [] then w
    else Narrowed(Window(Later(w.start, windows[0].start), Earlier(w.end, windows[0].end)), windows[1..])
  }

  const EVERY_INSTANT := Window(I64_MIN, I64_MAX)

  function Intersection(windows: seq<Window>): Option<Window> {
    var w := Narrowed(EVERY_INSTANT, windows);
    if w.start <= w.end then Some(w) else None
  }

  method Intersect(windows: seq<Window>) returns (r: Option<Window>)
    ensures r == Intersection(windows)
  {
    var start, end := I64_MIN, I64_MAX;
    for i := 0 to |windows|
      invariant Narrowed(EVERY_INSTANT, windows) == Narrowed(Window(start, end), windows[i..])
    {
      assert windows[i..][0] == windows[i] && windows[i..][1..] == windows[i + 1..];
      start := Later(start, windows[i].start);
      end := Earlier(end, windows[i].end);
    }
    r := if start <= end then Some(Window(start, end)) else None;
  }

  lemma {:induction false} NarrowedIsExact(w: Window, windows: seq<Window>, at: int)
    ensures Holds(Narrowed(w, windows), at) <==> Holds(w, at) && AllHold(windows, at)
    decreases windows
  {
    if windows != [] {
      var next := Window(Later(w.start, windows[0].start), Earlier(w.end, windows[0].end));
      NarrowedIsExact(next, windows[1..], at);
      assert AllHold(windows, at) <==> Holds(windows[0], at) && AllHold(windows[1..], at) by {
        assert forall v :: v in windows <==> v == windows[0] || v in windows[1..];
      }
    }
  }

  lemma {:induction false} IntersectionAt(windows: seq<Window>, at: int)
    requires IsI64(at)
    ensures AllHold(windows, at) <==> Intersection(windows).Some? && Holds(Intersection(windows).value, at)
  {
    NarrowedIsExact(EVERY_INSTANT, windows, at);
  }

  lemma {:induction false} SomeInstant(windows: seq<Window>)
    requires Intersection(windows).Some?
    ensures var at := Intersection(windows).value.start; IsI64(at) && AllHold(windows, at)
  {
    var w := Intersection(windows).value;
    NarrowedIsExact(EVERY_INSTANT, windows, w.start);
  }

  /** An instant is in the intersection exactly when every window holds then, and there is no
      intersection exactly when there is no such instant. */
  lemma {:induction false} IntersectionIsExact(windows: seq<Window>)
    ensures forall at: int :: IsI64(at) ==>
      (AllHold(windows, at) <==> Intersection(windows).Some? && Holds(Intersection(windows).value, at))
    ensures Intersection(windows).Some? <==> exists at: int :: IsI64(at) && AllHold(windows, at)
  {
    forall at: int | IsI64(at)
      ensures AllHold(windows, at) <==> Intersection(windows).Some? && Holds(Intersection(windows).value, at) {
      IntersectionAt(windows, at);
    }
    if Intersection(windows).Some? { SomeInstant(windows); }
  }

  /** With no windows every signed 64-bit second is left. */
  lemma {:induction false} EverySecond()
    ensures Intersection([]) == Some(Window(-0x8000_0000_0000_0000, 0x7FFF_FFFF_FFFF_FFFF))
  {
  }

  // ---------------------------------------------------------------- windows that may be unknown

  predicate AllKnown(windows: seq<Option<Window>>) {
    forall w <- windows :: w.Some?
  }

  function KnownOf(windows: seq<Option<Window>>): seq<Window> {
    if windows == [] then []
    else (if windows[0].Some? then [windows[0].value] else []) + KnownOf(windows[1..])
  }

  /** The span over which all of several windows hold: unknown when there are none, or one is unknown. */
  function CommonWindow(windows: seq<Option<Window>>): Option<Window> {
    if windows == [] || !AllKnown(windows) then None else Intersection(KnownOf(windows))
  }

  predicate InEvery(windows: seq<Option<Window>>, at: int) {
    forall w <- windows :: w.Some? ==> Holds(w.value, at)
  }

  lemma {:induction false} KnownOfHolds(windows: seq<Option<Window>>, at: int)
    ensures AllHold(KnownOf(windows), at) <==> InEvery(windows, at)
  {
    if windows != [] {
      KnownOfHolds(windows[1..], at);
      assert forall w :: w in windows <==> w == windows[0] || w in windows[1..];
      assert forall v :: v in KnownOf(windows) <==> windows[0] == Some(v) || v in KnownOf(windows[1..]);
    }
  }

  /** `now` is inside the common window exactly when there is a window, every one is known, and `now` is in each. */
  lemma {:induction false} CommonWindowIsExact(windows: seq<Option<Window>>, at: int)
    requires IsI64(at)
    ensures CommonWindow(windows).Some? && Holds(CommonWindow(windows).value, at)
        <==> windows != [] && AllKnown(windows) && InEvery(windows, at)
  {
    KnownOfHolds(windows, at);
    IntersectionAt(KnownOf(windows), at);
  }

  // ---------------------------------------------------------------- the window of a verified chain

  /** A certificate, with its validity if that can be read. */
  datatype Certificate = Certificate(der: seq<byte>, window: Option<Window>)

  type Chain = seq<Certificate>

  function WindowsOf(chain: Chain): (r: seq<Option<Window>>)
    ensures |r| == |chain| && forall i :: 0 <= i < |r| ==> r[i] == chain[i].window
  {
    seq(|chain|, i requires 0 <= i < |chain| => chain[i].window)
  }

  function UsedAt(windows: seq<Option<Window>>, seconds: int): seq<Window> {
    if windows == [] then []
    else if windows[0].Some? && Holds(windows[0].value, seconds)
    then [windows[0].value] + UsedAt(windows[1..], seconds)
    else UsedAt(windows[1..], seconds)
  }

  function VerifiedWindow(windows: seq<Option<Window>>, seconds: int): Option<Window> {
    if windows == [] || !AllKnown(windows) then None
    else if UsedAt(windows, seconds) == [] then None
    else Intersection(UsedAt(windows, seconds))
  }

  ghost predicate CouldBeOnPath(windows: seq<Option<Window>>, seconds: int, w: Window) {
    Some(w) in windows && Holds(w, seconds)
  }

  lemma {:induction false} UsedAtIs(windows: seq<Option<Window>>, seconds: int)
    ensures forall w :: w in UsedAt(windows, seconds) <==> CouldBeOnPath(windows, seconds, w)
  {
    if windows != [] {
      UsedAtIs(windows[1..], seconds);
      assert forall w :: w in windows <==> w == windows[0] || w in windows[1..];
    }
  }

  /** The window of a verified chain is known exactly when every certificate is readable and at least one
      holds at the verified instant; then that instant is inside it, and it is the span of exactly those
      certificates that hold at that instant, whatever else was sent. */
  lemma {:induction false} VerifiedWindowIsExact(windows: seq<Option<Window>>, seconds: int)
    requires IsI64(seconds)
    ensures var r := VerifiedWindow(windows, seconds);
            && (r.Some? <==> AllKnown(windows) && exists w :: CouldBeOnPath(windows, seconds, w))
            && (r.Some? ==> Holds(r.value, seconds))
            && forall at: int :: r.Some? && IsI64(at) ==>
                (Holds(r.value, at) <==> forall w :: CouldBeOnPath(windows, seconds, w) ==> Holds(w, at))
  {
    var used := UsedAt(windows, seconds);
    UsedAtIs(windows, seconds);
    IntersectionIsExact(used);
    assert AllHold(used, seconds);
    if used != [] { assert used[0] in used; }
  }

  // ---------------------------------------------------------------- pass 1

  /** The certificate library: does a chain verify for a server name at an instant? */
  type Library = (Chain, Name, int) -> bool

  function Instants(chain: Chain): seq<int>
    requires chain != []
  {
    var leaf := if chain[0].window.Some? then [chain[0].window.value.start] else [];
    var windows := WindowsOf(chain);
    var whole := if AllKnown(windows) then Intersection(KnownOf(windows)) else None;
    leaf + (if whole.Some? && [whole.value.start] != leaf then [whole.value.start] else [])
  }

  predicate AcceptedAt(library: Library, chain: Chain, name: Name, at: int) {
    at >= 0 && library(chain, name, at)
  }

  /** Pass 1 neutralises time, and keeps the chain it saw. */
  class TimeAgnosticVerifier {
    const library: Library
    var seen: Option<Chain>

    constructor (library: Library)
      ensures seen == None && this.library == library
    {
      this.library := library;
      seen := None;
    }

    /** A chain passes exactly when the library accepts it at one of the candidate instants, and only
        a chain that passed is kept. */
    method VerifyServerCert(chain: Chain, name: Name) returns (ok: bool)
      requires chain != []
      modifies this
      ensures ok <==> exists at <- Instants(chain) :: AcceptedAt(library, chain, name, at)
      ensures seen == if ok then Some(chain) else old(seen)
    {
      var candidates := Instants(chain);
      for i := 0 to |candidates|
        invariant seen == old(seen)
        invariant forall k :: 0 <= k < i ==> !AcceptedAt(library, chain, name, candidates[k])
      {
        if AcceptedAt(library, chain, name, candidates[i]) {
          seen := Some(chain);
          return true;
        }
      }
      return false;
    }
  }

  /** The fallback instant is valid for every certificate sent, and no earlier instant is. */
  lemma {:induction false} FallbackSuitsAll(chain: Chain, at: int)
    requires CommonWindow(WindowsOf(chain)).Some?
    ensures var first := CommonWindow(WindowsOf(chain)).value.start;
            InEvery(WindowsOf(chain), first) && (IsI64(at) && at < first ==> !InEvery(WindowsOf(chain), at))
  {
    var windows := WindowsOf(chain);
    SomeInstant(KnownOf(windows));
    KnownOfHolds(windows, CommonWindow(windows).value.start);
    KnownOfHolds(windows, at);
    if IsI64(at) { IntersectionAt(KnownOf(windows), at); }
  }

  // ---------------------------------------------------------------- pass 2

  predicate VerifyAt(library: Library, chain: Chain, name: Name, seconds: int) {
    chain != [] && AcceptedAt(library, chain, name, seconds)
  }

  // ---------------------------------------------------------------- pass 1 before pass 2

  predicate AllValid(path: set<Certificate>, at: int) {
    forall c <- path :: c.window.Some? && Holds(c.window.value, at)
  }

  /** A library that builds one path from a chain, the leaf on it and nothing but what was sent, and whose
      verdict at an instant is that of the signatures and names and of the dates on that path. */
  ghost predicate DatesOnePath(library: Library, trusts: (Chain, Name) -> bool, path: Chain -> set<Certificate>) {
    forall chain: Chain, name: Name, at: int :: chain != [] ==>
      && chain[0] in path(chain) && (forall c <- path(chain) :: c in chain)
      && (library(chain, name, at) <==> trusts(chain, name) && AllValid(path(chain), at))
  }

  ghost predicate PassesFirst(library: Library, chain: Chain, name: Name)
    requires chain != []
  {
    exists at <- Instants(chain) :: AcceptedAt(library, chain, name, at)
  }

  lemma {:induction false} CandidatesAre(chain: Chain, at: int)
    requires chain != []
    ensures at in Instants(chain)
       <==> (chain[0].window.Some? && at == chain[0].window.value.start)
            || (CommonWindow(WindowsOf(chain)).Some? && at == CommonWindow(WindowsOf(chain)).value.start)
  {
  }

  lemma {:induction false} FallbackSuitsPath(chain: Chain, path: set<Certificate>)
    requires CommonWindow(WindowsOf(chain)).Some? && forall c <- path :: c in chain
    ensures AllValid(path, CommonWindow(WindowsOf(chain)).value.start)
  {
    var windows := WindowsOf(chain);
    FallbackSuitsAll(chain, 0);
    forall c <- path ensures c.window.Some? && Holds(c.window.value, CommonWindow(windows).value.start) {
      var i :| 0 <= i < |chain| && chain[i] == c;
      assert windows[i] == c.window && windows[i] in windows;
    }
  }

  /** Of the chains that pass 2 accepts at some instant, pass 1 lets through exactly those whose path is
      valid when the leaf begins to be, or of which every certificate sent is readable and all overlap;
      the instant in question not being before the epoch. */
  lemma {:induction false} PassOneLetsThrough(library: Library, trusts: (Chain, Name) -> bool, path: Chain -> set<Certificate>,
                                              chain: Chain, name: Name, seconds: int)
    requires DatesOnePath(library, trusts, path) && VerifyAt(library, chain, name, seconds)
    ensures var leaf, common := chain[0].window, CommonWindow(WindowsOf(chain));
            (PassesFirst(library, chain, name)
             <==> (leaf.Some? && leaf.value.start >= 0 && AllValid(path(chain), leaf.value.start))
                  || (common.Some? && common.value.start >= 0))
  {
    var leaf, common := chain[0].window, CommonWindow(WindowsOf(chain));
    assert trusts(chain, name);
    if leaf.Some? {
      CandidatesAre(chain, leaf.value.start);
      assert AcceptedAt(library, chain, name, leaf.value.start)
        <==> leaf.value.start >= 0 && AllValid(path(chain), leaf.value.start);
    }
    if common.Some? {
      CandidatesAre(chain, common.value.start);
      FallbackSuitsPath(chain, path(chain));
      assert AcceptedAt(library, chain, name, common.value.start) <==> common.value.start >= 0;
    }
    forall at <- Instants(chain) ensures (leaf.Some? && at == leaf.value.start) || (common.Some? && at == common.value.start) {
      CandidatesAre(chain, at);
    }
  }

  /** Whatever path a library takes, it dates the leaf. */
  ghost predicate ChecksTheLeaf(library: Library) {
    forall chain: Chain, name: Name, at: int ::
      VerifyAt(library, chain, name, at) && chain[0].window.Some? ==> Holds(chain[0].window.value, at)
  }

  /** So after a successful verification the window is unknown only if a certificate cannot be read. */
  lemma {:induction false} VerifiedMeansKnown(library: Library, chain: Chain, name: Name, seconds: int)
    requires ChecksTheLeaf(library) && VerifyAt(library, chain, name, seconds) && IsI64(seconds)
    ensures VerifiedWindow(WindowsOf(chain), seconds).Some? <==> AllKnown(WindowsOf(chain))
  {
    var windows := WindowsOf(chain);
    VerifiedWindowIsExact(windows, seconds);
    if AllKnown(windows) {
      assert windows[0] in windows;
      assert CouldBeOnPath(windows, seconds, windows[0].value);
    }
  }
}
