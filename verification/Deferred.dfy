/** The chains gathered on the way to one timestamp, and the only way to turn it into one to believe. */
module Deferred {
  import opened Bytes
  import opened Quorum
  import opened Verify

  /** A chain that passed pass 1; `leg` names the connection it came from. */
  datatype Pending = Pending(leg: string, chain: Chain, name: Name)

  datatype Rejection = NothingRecorded | NotValid(leg: string)

  datatype Verified = Verified(seconds: int, window: Option<Window>)

  predicate Vouches(library: Library, p: Pending, seconds: int) {
    VerifyAt(library, p.chain, p.name, seconds)
  }

  function FirstRejected(library: Library, pending: seq<Pending>, seconds: int): Option<string> {
    if pending == [] then None
    else if Vouches(library, pending[0], seconds) then FirstRejected(library, pending[1..], seconds)
    else Some(pending[0].leg)
  }

  function Spans(pending: seq<Pending>, seconds: int): (r: seq<Option<Window>>)
    ensures |r| == |pending|
    ensures forall i :: 0 <= i < |r| ==> r[i] == VerifiedWindow(WindowsOf(pending[i].chain), seconds)
  {
    seq(|pending|, i requires 0 <= i < |pending| => VerifiedWindow(WindowsOf(pending[i].chain), seconds))
  }

  function Accepted(library: Library, pending: seq<Pending>, seconds: int): Result<Verified, Rejection> {
    if pending == [] then Err(NothingRecorded)
    else
      match FirstRejected(library, pending, seconds)
      case Some(leg) => Err(NotValid(leg))
      case None => Ok(Verified(seconds, CommonWindow(Spans(pending, seconds))))
  }

  class Gathered {
    var pending: seq<Pending>

    constructor ()
      ensures pending == []
    {
      pending := [];
    }

    method Record(leg: string, chain: Chain, name: Name)
      modifies this
      ensures pending == old(pending) + [Pending(leg, chain, name)]
    {
      pending := pending + [Pending(leg, chain, name)];
    }

    /** Judge all the chains at the one second. */
    method Accept(library: Library, seconds: int) returns (r: Result<Verified, Rejection>)
      ensures r == Accepted(library, pending, seconds)
    {
      if pending == [] { return Err(NothingRecorded); }
      var windows: seq<Window> := [];
      var windowKnown := true;
      for i := 0 to |pending|
        invariant FirstRejected(library, pending, seconds) == FirstRejected(library, pending[i..], seconds)
        invariant windows == KnownOf(Spans(pending[..i], seconds))
        invariant windowKnown == AllKnown(Spans(pending[..i], seconds))
      {
        assert pending[i..][0] == pending[i] && pending[i..][1..] == pending[i + 1..];
        if !Vouches(library, pending[i], seconds) { return Err(NotValid(pending[i].leg)); }
        var span := VerifiedWindow(WindowsOf(pending[i].chain), seconds);
        SpansSnoc(pending, i, seconds);
        KnownSnoc(Spans(pending[..i], seconds), span);
        if span.Some? { windows := windows + [span.value]; } else { windowKnown := false; }
      }
      assert pending[..|pending|] == pending;
      var window: Option<Window> := None;
      if windowKnown { window := Intersect(windows); }
      r := Ok(Verified(seconds, window));
    }
  }

  lemma {:induction false} SpansSnoc(pending: seq<Pending>, i: nat, seconds: int)
    requires i < |pending|
    ensures Spans(pending[..i + 1], seconds)
         == Spans(pending[..i], seconds) + [VerifiedWindow(WindowsOf(pending[i].chain), seconds)]
  {
  }

  lemma {:induction false} KnownSnoc(windows: seq<Option<Window>>, w: Option<Window>)
    ensures KnownOf(windows + [w]) == KnownOf(windows) + (if w.Some? then [w.value] else [])
    ensures AllKnown(windows + [w]) <==> AllKnown(windows) && w.Some?
  {
    if windows != [] {
      assert (windows + [w])[1..] == windows[1..] + [w];
      KnownSnoc(windows[1..], w);
    }
    AllKnownSnoc(windows, w);
  }

  lemma {:induction false} AllKnownSnoc(windows: seq<Option<Window>>, w: Option<Window>)
    ensures AllKnown(windows + [w]) <==> AllKnown(windows) && w.Some?
  {
    assert w in windows + [w] && forall v <- windows :: v in windows + [w];
  }

  // ---------------------------------------------------------------- what acceptance means

  lemma {:induction false} NoneRejected(library: Library, pending: seq<Pending>, seconds: int)
    ensures FirstRejected(library, pending, seconds).None? <==> forall p <- pending :: Vouches(library, p, seconds)
  {
    if pending != [] {
      NoneRejected(library, pending[1..], seconds);
      assert forall p :: p in pending <==> p == pending[0] || p in pending[1..];
    }
  }

  /** A claimed time becomes one to believe exactly when something was recorded and every recorded chain
      verifies at that very time; the time is passed on unchanged. */
  lemma {:induction false} AcceptedExactlyWhen(library: Library, pending: seq<Pending>, seconds: int)
    ensures Accepted(library, pending, seconds).Ok?
        <==> pending != [] && forall p <- pending :: Vouches(library, p, seconds)
    ensures Accepted(library, pending, seconds).Ok? ==> Accepted(library, pending, seconds).value.seconds == seconds
  {
    NoneRejected(library, pending, seconds);
  }

  /** A chain stands at a second: it is there, the second is not before the epoch, and the library verifies
      it for its name then. */
  ghost predicate Stands(library: Library, p: Pending, seconds: int) {
    p.chain != [] && seconds >= 0 && library(p.chain, p.name, seconds)
  }

  lemma {:induction false} FirstFallen(library: Library, pending: seq<Pending>, seconds: int) returns (k: nat)
    ensures var r := FirstRejected(library, pending, seconds);
            if r.None? then forall p <- pending :: Stands(library, p, seconds)
            else k < |pending| && r == Some(pending[k].leg) && !Stands(library, pending[k], seconds)
                 && forall j :: 0 <= j < k ==> Stands(library, pending[j], seconds)
  {
    k := 0;
    if pending != [] {
      var i := FirstFallen(library, pending[1..], seconds);
      assert forall j :: 0 < j < |pending| ==> pending[j] == pending[1..][j - 1];
      if Stands(library, pending[0], seconds) { k := i + 1; }
    }
  }

  /** Every judgement: of nothing; of chains the first of which that does not stand names its leg; or of
      chains that all stand, and then the second is passed on unchanged. */
  lemma {:induction false} JudgementIs(library: Library, pending: seq<Pending>, seconds: int) returns (k: nat)
    ensures var r := Accepted(library, pending, seconds);
            if pending == [] then r == Err(NothingRecorded)
            else if exists p <- pending :: !Stands(library, p, seconds) then
              k < |pending| && r == Err(NotValid(pending[k].leg)) && !Stands(library, pending[k], seconds)
              && forall j :: 0 <= j < k ==> Stands(library, pending[j], seconds)
            else r.Ok? && r.value.seconds == seconds
  {
    k := FirstFallen(library, pending, seconds);
  }

  /** The certificates whose dates decide the window: those of any recorded chain that hold at `seconds`. */
  ghost predicate Decides(pending: seq<Pending>, seconds: int, w: Window) {
    exists p <- pending :: CouldBeOnPath(WindowsOf(p.chain), seconds, w)
  }

  ghost predicate IsSpanOf(s: Window, chain: Chain, seconds: int) {
    && Holds(s, seconds)
    && forall at: int :: IsI64(at) ==>
        (Holds(s, at) <==> forall w :: CouldBeOnPath(WindowsOf(chain), seconds, w) ==> Holds(w, at))
  }

  lemma {:induction false} SpanInside(pending: seq<Pending>, seconds: int, i: nat)
    requires i < |pending| && IsI64(seconds)
    ensures var s := Spans(pending, seconds)[i]; s.Some? ==> IsSpanOf(s.value, pending[i].chain, seconds)
  {
    VerifiedWindowIsExact(WindowsOf(pending[i].chain), seconds);
  }

  lemma {:induction false} SpansContainSeconds(pending: seq<Pending>, seconds: int)
    requires IsI64(seconds)
    ensures InEvery(Spans(pending, seconds), seconds)
  {
    var spans := Spans(pending, seconds);
    forall s <- spans ensures s.Some? ==> Holds(s.value, seconds) {
      var i :| 0 <= i < |spans| && spans[i] == s;
      SpanInside(pending, seconds, i);
    }
  }

  /** An accepted time always lies inside the window it comes with, and there is a window exactly when each
      recorded chain has one. */
  lemma {:induction false} AcceptedInsideItsWindow(library: Library, pending: seq<Pending>, seconds: int)
    requires IsI64(seconds) && Accepted(library, pending, seconds).Ok?
    ensures var window := Accepted(library, pending, seconds).value.window;
            (window.Some? <==> AllKnown(Spans(pending, seconds))) && (window.Some? ==> Holds(window.value, seconds))
  {
    SpansContainSeconds(pending, seconds);
    CommonWindowIsExact(Spans(pending, seconds), seconds);
  }

  /** An instant is inside the window exactly when every deciding certificate of every leg holds then. */
  lemma {:induction false} WindowIsOfEveryLeg(library: Library, pending: seq<Pending>, seconds: int, at: int)
    requires IsI64(seconds) && IsI64(at) && Accepted(library, pending, seconds).Ok?
    requires Accepted(library, pending, seconds).value.window.Some?
    ensures Holds(Accepted(library, pending, seconds).value.window.value, at)
        <==> forall w :: Decides(pending, seconds, w) ==> Holds(w, at)
  {
    var spans := Spans(pending, seconds);
    CommonWindowIsExact(spans, at);
    if InEvery(spans, at) {
      forall w | Decides(pending, seconds, w) ensures Holds(w, at) {
        var i :| 0 <= i < |pending| && CouldBeOnPath(WindowsOf(pending[i].chain), seconds, w);
        SpanInside(pending, seconds, i);
        assert spans[i] in spans;
      }
    }
    if forall w :: Decides(pending, seconds, w) ==> Holds(w, at) {
      forall s <- spans ensures s.Some? ==> Holds(s.value, at) {
        var i :| 0 <= i < |spans| && spans[i] == s;
        SpanInside(pending, seconds, i);
        assert pending[i] in pending;
      }
    }
  }

  /** With a library that date-checks the leaf, the window of an accepted time is known exactly when every
      certificate of every leg can be read: one that cannot makes it unknown, never wider. */
  lemma {:induction false} UnreadableMakesUnknown(library: Library, pending: seq<Pending>, seconds: int)
    requires ChecksTheLeaf(library) && IsI64(seconds) && Accepted(library, pending, seconds).Ok?
    ensures Accepted(library, pending, seconds).value.window.Some?
        <==> forall p <- pending :: AllKnown(WindowsOf(p.chain))
  {
    var spans := Spans(pending, seconds);
    AcceptedExactlyWhen(library, pending, seconds);
    AcceptedInsideItsWindow(library, pending, seconds);
    forall p <- pending ensures VerifiedWindow(WindowsOf(p.chain), seconds).Some? <==> AllKnown(WindowsOf(p.chain)) {
      VerifiedMeansKnown(library, p.chain, p.name, seconds);
    }
    forall i | 0 <= i < |pending| ensures pending[i] in pending && spans[i] in spans {
    }
  }
}
