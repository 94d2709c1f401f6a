/** Cutting frames of 300 bytes, which open with 55 AA EB 90 and close with an 8-bit sum, out of a
    stream that may begin anywhere and be damaged. `FrameReader` is the reader the program runs; `ScanFrom` is the byte-at-a-time
    scan of a whole stream it must agree with, however the stream is cut into chunks. */
module BmsFrame {

  import opened Bytes

  const HEADER: seq<byte> := [0x55, 0xAA, 0xEB, 0x90]
  const FRAME_LEN: nat := 300
  const CHECKSUM_OFFSET: nat := 299
  const REALTIME: byte := 0x02
  const SETTINGS: byte := 0x01

  datatype Frame = Frame(code: byte, data: seq<byte>) {
    predicate IsRealtime() { code == REALTIME }
    predicate IsSettings() { code == SETTINGS }
  }

  datatype Step = Found(frame: Frame, consumed: nat) | Skip(count: nat) | BadChecksum | Incomplete

  /** The wrapping sum of some bytes. */
  function Sum8(bytes: seq<byte>): byte {
    if bytes == [] then 0 else (Sum8(bytes[..|bytes| - 1]) + bytes[|bytes| - 1]) % 256
  }

  function Total(bytes: seq<byte>): nat {
    if bytes == [] then 0 else bytes[0] + Total(bytes[1..])
  }

  lemma {:induction false} TotalJoin(a: seq<byte>, b: seq<byte>)
    ensures Total(a + b) == Total(a) + Total(b)
  {
    if a == [] {
      assert a + b == b;
    } else {
      assert (a + b)[1..] == a[1..] + b;
      TotalJoin(a[1..], b);
    }
  }

  lemma {:induction false} TotalOne(b: byte)
    ensures Total([b]) == b
  {
    assert [b][1..] == [];
  }

  lemma {:induction false} AddModOne(x: nat, b: byte)
    ensures (x % 256 + b) % 256 == (x + b) % 256
  {
  }

  /** It is the arithmetic sum, less a multiple of 256. */
  lemma {:induction false} Sum8IsTotal(bytes: seq<byte>)
    ensures Sum8(bytes) == Total(bytes) % 256
  {
    if bytes != [] {
      var front, last := bytes[..|bytes| - 1], bytes[|bytes| - 1];
      assert bytes == front + [last];
      Sum8IsTotal(front);
      TotalJoin(front, [last]);
      TotalOne(last);
      AddModOne(Total(front), last);
    }
  }

  lemma {:induction false} AddMod(x: nat, y: nat)
    ensures (x + y) % 256 == (x % 256 + y % 256) % 256
  {
  }

  lemma {:induction false} AddApart(rest: nat, x: byte, y: byte)
    requires x != y
    ensures (rest + x) % 256 != (rest + y) % 256
  {
  }

  lemma {:induction false} Sum8OfOne(b: byte)
    ensures Sum8([b]) == b
  {
    TotalOne(b);
    Sum8IsTotal([b]);
  }

  lemma {:induction false} Sum8Joins(a: seq<byte>, b: seq<byte>)
    ensures Sum8(a + b) == (Sum8(a) + Sum8(b)) % 256
  {
    Sum8IsTotal(a);
    Sum8IsTotal(b);
    Sum8IsTotal(a + b);
    TotalJoin(a, b);
    AddMod(Total(a), Total(b));
  }

  lemma {:induction false} TotalAround(a: seq<byte>, v: byte, b: seq<byte>)
    ensures Total(a + [v] + b) == Total(a) + Total(b) + v
  {
    TotalJoin(a + [v], b);
    TotalJoin(a, [v]);
    TotalOne(v);
  }

  lemma {:induction false} OneChange(s: seq<byte>, j: nat, v: byte)
    requires j < |s| && v != s[j]
    ensures Sum8(s[j := v]) != Sum8(s)
  {
    var a, b := s[..j], s[j + 1..];
    assert s == a + [s[j]] + b && s[j := v] == a + [v] + b;
    TotalAround(a, s[j], b);
    TotalAround(a, v, b);
    Sum8IsTotal(s);
    Sum8IsTotal(s[j := v]);
    AddApart(Total(a) + Total(b), s[j], v);
  }

  function Checksum(frame: seq<byte>): byte
    requires |frame| >= CHECKSUM_OFFSET
  {
    Sum8(frame[..CHECKSUM_OFFSET])
  }

  predicate HeaderAt(s: seq<byte>, i: nat) {
    i + 4 <= |s| && s[i..i + 4] == HEADER
  }

  /** Whether the 300 bytes from `i` carry the sum they claim. */
  predicate ChecksAt(s: seq<byte>, i: nat)
    requires i + FRAME_LEN <= |s|
  {
    var candidate := s[i..i + FRAME_LEN];
    Checksum(candidate) == candidate[CHECKSUM_OFFSET]
  }

  /** A genuine frame: header, 300 bytes, good sum. */
  predicate Genuine(s: seq<byte>, i: nat) {
    HeaderAt(s, i) && i + FRAME_LEN <= |s| && ChecksAt(s, i)
  }

  /** The frame that carries a body of 295 bytes, as the device sends it. */
  function Made(body: seq<byte>): (frame: seq<byte>)
    requires |body| == FRAME_LEN - 5
    ensures |frame| == FRAME_LEN
  {
    HEADER + body + [Sum8(HEADER + body)]
  }

  lemma {:induction false} MadeIsGenuine(before: seq<byte>, body: seq<byte>, after: seq<byte>)
    requires |body| == FRAME_LEN - 5
    ensures Genuine(before + Made(body) + after, |before|)
  {
    var s, i := before + Made(body) + after, |before|;
    assert s[i..i + 4] == HEADER;
    assert s[i..i + FRAME_LEN] == Made(body);
    assert Made(body)[..CHECKSUM_OFFSET] == HEADER + body;
  }

  /** A header with 300 bytes behind it whose sum does not match. */
  predicate Refused(s: seq<byte>, i: nat) {
    HeaderAt(s, i) && i + FRAME_LEN <= |s| && !ChecksAt(s, i)
  }

  /** Any one byte changed in a genuine frame shows: in the header it is no frame, elsewhere it is refused. */
  lemma {:induction false} OneByteShows(s: seq<byte>, i: nat, j: nat, v: byte)
    requires Genuine(s, i) && j < FRAME_LEN && v != s[i + j]
    ensures var t := s[i + j := v]; if j < 4 then !HeaderAt(t, i) else Refused(t, i)
  {
    var t := s[i + j := v];
    var was, now := s[i..i + FRAME_LEN], t[i..i + FRAME_LEN];
    assert now == was[j := v];
    if j < 4 {
      assert t[i..i + 4][j] == v && s[i..i + 4][j] != v;
    } else {
      assert t[i..i + 4] == s[i..i + 4];
      if j < CHECKSUM_OFFSET {
        assert now[..CHECKSUM_OFFSET] == was[..CHECKSUM_OFFSET][j := v];
        OneChange(was[..CHECKSUM_OFFSET], j, v);
      } else {
        assert now[..CHECKSUM_OFFSET] == was[..CHECKSUM_OFFSET];
      }
    }
  }

  function FrameAt(s: seq<byte>, i: nat): Frame
    requires i + FRAME_LEN <= |s|
  {
    Frame(s[i + 4], s[i..i + FRAME_LEN])
  }

  /** The first header at or after `i`. */
  function FindHeader(s: seq<byte>, i: nat): (r: Option<nat>)
    requires i <= |s|
    ensures r.Some? ==> i <= r.value && HeaderAt(s, r.value) && forall j :: i <= j < r.value ==> !HeaderAt(s, j)
    ensures r.None? ==> forall j :: i <= j ==> !HeaderAt(s, j)
    decreases |s| - i
  {
    if i + 4 > |s| then None
    else if HeaderAt(s, i) then Some(i)
    else FindHeader(s, i + 1)
  }

  /** What the first bytes of a buffer call for. */
  function StepOf(buffer: seq<byte>): Step {
    match FindHeader(buffer, 0)
    case None =>
      var keep := |HEADER| - 1;
      if |buffer| > keep then Skip(|buffer| - keep) else Incomplete
    case Some(start) =>
      if start > 0 then Skip(start)
      else if |buffer| < FRAME_LEN then Incomplete
      else if !ChecksAt(buffer, 0) then BadChecksum
      else Found(FrameAt(buffer, 0), FRAME_LEN)
  }

  // ---------------------------------------------------------------- the reference scan

  /** What a scan found: where frames start, where a header failed its sum, where it had to wait. */
  datatype Scan = Scan(starts: seq<nat>, refused: seq<nat>, stop: nat)

  function Join(starts: seq<nat>, refused: seq<nat>, rest: Scan): Scan {
    Scan(starts + rest.starts, refused + rest.refused, rest.stop)
  }

  /** The reference: one byte at a time over the whole stream, no buffer and no chunks. */
  function ScanFrom(s: seq<byte>, p: nat): (r: Scan)
    requires p <= |s|
    ensures p <= r.stop <= |s|
    decreases |s| - p
  {
    if |s| - p < |HEADER| then Scan([], [], p)
    else if !HeaderAt(s, p) then ScanFrom(s, p + 1)
    else if |s| - p < FRAME_LEN then Scan([], [], p)
    else if ChecksAt(s, p) then
      var rest := ScanFrom(s, p + FRAME_LEN);
      rest.(starts := [p] + rest.starts)
    else
      var rest := ScanFrom(s, p + 1);
      rest.(refused := [p] + rest.refused)
  }

  /** The positions a set of frames covers. */
  predicate Covered(starts: seq<nat>, w: nat) {
    exists k :: 0 <= k < |starts| && starts[k] < w < starts[k] + FRAME_LEN
  }

  ghost predicate Spaced(starts: seq<nat>) {
    forall i, j :: 0 <= i < j < |starts| ==> starts[i] + FRAME_LEN <= starts[j]
  }

  predicate Accounted(starts: seq<nat>, w: nat) {
    w in starts || Covered(starts, w)
  }

  /** Leftmost-greedy: non-overlapping genuine frames that leave no genuine frame out unless it
      begins inside a chosen one. */
  ghost predicate Greedy(s: seq<byte>, starts: seq<nat>) {
    && (forall k :: 0 <= k < |starts| ==> Genuine(s, starts[k]))
    && Spaced(starts)
    && (forall w: nat {:trigger Accounted(starts, w)} :: Genuine(s, w) ==> Accounted(starts, w))
  }

  lemma {:induction false} ScanWithin(s: seq<byte>, p: nat)
    requires p <= |s|
    ensures var r := ScanFrom(s, p);
            && Spaced(r.starts)
            && (forall k :: 0 <= k < |r.starts| ==>
                  Genuine(s, r.starts[k]) && p <= r.starts[k] && r.starts[k] + FRAME_LEN <= r.stop)
            && (forall k :: 0 <= k < |r.refused| ==>
                  Refused(s, r.refused[k]) && p <= r.refused[k] < r.stop && !Covered(r.starts, r.refused[k]))
    decreases |s| - p
  {
    if |s| - p < |HEADER| {
    } else if !HeaderAt(s, p) {
      ScanWithin(s, p + 1);
    } else if |s| - p < FRAME_LEN {
    } else if ChecksAt(s, p) {
      ScanWithin(s, p + FRAME_LEN);
      var r, rest := ScanFrom(s, p), ScanFrom(s, p + FRAME_LEN);
      assert forall k :: 0 < k < |r.starts| ==> r.starts[k] == rest.starts[k - 1];
    } else {
      ScanWithin(s, p + 1);
      var r, rest := ScanFrom(s, p), ScanFrom(s, p + 1);
      assert forall k :: 0 < k < |r.refused| ==> r.refused[k] == rest.refused[k - 1];
    }
  }

  lemma {:induction false} ScanMisses(s: seq<byte>, p: nat, w: nat)
    requires p <= w <= |s|
    ensures var r := ScanFrom(s, p);
            && (Genuine(s, w) ==> w in r.starts || Covered(r.starts, w))
            && (Refused(s, w) ==> w in r.refused || Covered(r.starts, w))
    decreases |s| - p
  {
    var r := ScanFrom(s, p);
    if |s| - p < |HEADER| {
    } else if !HeaderAt(s, p) {
      if p < w { ScanMisses(s, p + 1, w); }
    } else if |s| - p < FRAME_LEN {
    } else if ChecksAt(s, p) {
      var rest := ScanFrom(s, p + FRAME_LEN);
      assert r.starts[0] == p;
      if p + FRAME_LEN <= w {
        ScanMisses(s, p + FRAME_LEN, w);
        if Covered(rest.starts, w) {
          var k :| 0 <= k < |rest.starts| && rest.starts[k] < w < rest.starts[k] + FRAME_LEN;
          assert r.starts[k + 1] == rest.starts[k];
        }
      }
    } else {
      var rest := ScanFrom(s, p + 1);
      assert r.refused[0] == p;
      if p < w {
        ScanMisses(s, p + 1, w);
        assert forall q :: q in rest.refused ==> q in r.refused;
      }
    }
  }

  /** The scan delivers exactly the leftmost-greedy frames. */
  lemma {:induction false} ScanIsGreedy(s: seq<byte>)
    ensures Greedy(s, ScanFrom(s, 0).starts)
  {
    ScanWithin(s, 0);
    forall w: nat | Genuine(s, w)
      ensures Accounted(ScanFrom(s, 0).starts, w)
    {
      ScanMisses(s, 0, w);
    }
  }

  ghost predicate SameUpTo(a: seq<nat>, b: seq<nat>, n: nat) {
    n <= |a| && n <= |b| && forall i :: 0 <= i < n ==> a[i] == b[i]
  }

  /** And there is only one such choice, so `Greedy` pins the frames of a stream down. */
  lemma {:induction false} GreedyIsUnique(s: seq<byte>, a: seq<nat>, b: seq<nat>)
    requires Greedy(s, a) && Greedy(s, b)
    ensures a == b
  {
    GreedyAgree(s, a, b, |a|);
    GreedyAgree(s, b, a, |b|);
  }

  lemma {:induction false} GreedyAgree(s: seq<byte>, a: seq<nat>, b: seq<nat>, n: nat)
    requires Greedy(s, a) && Greedy(s, b) && n <= |a|
    ensures SameUpTo(a, b, n)
    decreases n
  {
    if n > 0 {
      GreedyAgree(s, a, b, n - 1);
      var j := Explained(s, b, a[n - 1]);
      NextNotLater(a, b, n - 1, j);
      var i := Explained(s, a, b[n - 1]);
      NextNotLater(b, a, n - 1, i);
    }
  }

  /** A genuine frame is chosen or begins inside one that is. */
  lemma {:induction false} Explained(s: seq<byte>, starts: seq<nat>, w: nat) returns (j: nat)
    requires Greedy(s, starts) && Genuine(s, w)
    ensures j < |starts| && starts[j] <= w < starts[j] + FRAME_LEN
  {
    assert Accounted(starts, w);
    if w in starts {
      j :| j < |starts| && starts[j] == w;
    } else {
      j :| j < |starts| && starts[j] < w < starts[j] + FRAME_LEN;
    }
  }

  /** Past a common prefix, `b` has a next frame and it is not later than `a`'s. */
  lemma {:induction false} NextNotLater(a: seq<nat>, b: seq<nat>, k: nat, j: nat)
    requires Spaced(a) && Spaced(b) && SameUpTo(a, b, k) && k < |a|
    requires j < |b| && b[j] <= a[k] < b[j] + FRAME_LEN
    ensures k < |b| && b[k] <= a[k]
  {
    assert forall i :: 0 <= i < k ==> b[i] + FRAME_LEN <= a[k];
  }

  /** The discard counter counts exactly the headers, outside every delivered frame, that had 300
      bytes behind them and a wrong sum; each once. */
  lemma {:induction false} DiscardsAreExact(s: seq<byte>, w: nat)
    ensures var r := ScanFrom(s, 0);
            w in r.refused <==> Refused(s, w) && !Covered(r.starts, w)
  {
    ScanWithin(s, 0);
    if Refused(s, w) { ScanMisses(s, 0, w); }
  }

  ghost predicate Increasing(a: seq<nat>) {
    forall i, j :: 0 <= i < j < |a| ==> a[i] < a[j]
  }

  lemma {:induction false} DiscardsAreIncreasing(s: seq<byte>, p: nat)
    requires p <= |s|
    ensures Increasing(ScanFrom(s, p).refused)
    decreases |s| - p
  {
    if |s| - p < |HEADER| {
    } else if !HeaderAt(s, p) {
      DiscardsAreIncreasing(s, p + 1);
    } else if |s| - p < FRAME_LEN {
    } else if ChecksAt(s, p) {
      DiscardsAreIncreasing(s, p + FRAME_LEN);
    } else {
      DiscardsAreIncreasing(s, p + 1);
      ScanWithin(s, p + 1);
      var r, rest := ScanFrom(s, p), ScanFrom(s, p + 1);
      assert forall k :: 0 < k < |r.refused| ==> r.refused[k] == rest.refused[k - 1];
    }
  }

  /** What stays buffered: fewer than four bytes, or a header still short of its 300. */
  lemma {:induction false} ScanStops(s: seq<byte>, p: nat)
    requires p <= |s|
    ensures var stop := ScanFrom(s, p).stop;
            |s| - stop < |HEADER| || (HeaderAt(s, stop) && |s| - stop < FRAME_LEN)
    decreases |s| - p
  {
    if |s| - p < |HEADER| {
    } else if !HeaderAt(s, p) {
      ScanStops(s, p + 1);
    } else if |s| - p < FRAME_LEN {
    } else if ChecksAt(s, p) {
      ScanStops(s, p + FRAME_LEN);
    } else {
      ScanStops(s, p + 1);
    }
  }

  lemma {:induction false} Extension(s: seq<byte>, t: seq<byte>, i: nat)
    ensures i + 4 <= |s| ==> HeaderAt(s + t, i) == HeaderAt(s, i)
    ensures i + FRAME_LEN <= |s| ==> ChecksAt(s + t, i) == ChecksAt(s, i) && FrameAt(s + t, i) == FrameAt(s, i)
  {
    if i + 4 <= |s| { assert (s + t)[i..i + 4] == s[i..i + 4]; }
    if i + FRAME_LEN <= |s| { assert (s + t)[i..i + FRAME_LEN] == s[i..i + FRAME_LEN]; }
  }

  lemma {:induction false} JoinAssociates(a: seq<nat>, b: seq<nat>, c: seq<nat>, d: seq<nat>, rest: Scan)
    ensures Join(a, b, Join(c, d, rest)) == Join(a + c, b + d, rest)
    ensures a == [] ==> a + c == c
    ensures b == [] ==> b + d == d
    ensures Join([], [], rest) == rest
  {
    assert a + (c + rest.starts) == (a + c) + rest.starts;
    assert b + (d + rest.refused) == (b + d) + rest.refused;
  }

  /** More bytes never undo a decision: the longer stream is scanned by scanning the shorter one
      and resuming where it stopped. */
  lemma {:induction false} ScanExtends(s: seq<byte>, t: seq<byte>, p: nat)
    requires p <= |s|
    ensures var r := ScanFrom(s, p); ScanFrom(s + t, p) == Join(r.starts, r.refused, ScanFrom(s + t, r.stop))
    decreases |s| - p
  {
    Extension(s, t, p);
    if |s| - p < |HEADER| {
    } else if !HeaderAt(s, p) {
      ScanExtends(s, t, p + 1);
    } else if |s| - p < FRAME_LEN {
    } else if ChecksAt(s, p) {
      ScanExtends(s, t, p + FRAME_LEN);
      var rest := ScanFrom(s, p + FRAME_LEN);
      JoinAssociates([p], [], rest.starts, rest.refused, ScanFrom(s + t, rest.stop));
    } else {
      ScanExtends(s, t, p + 1);
      var rest := ScanFrom(s, p + 1);
      JoinAssociates([], [p], rest.starts, rest.refused, ScanFrom(s + t, rest.stop));
    }
  }

  /** Where the frames of a stream start. */
  function Starts(s: seq<byte>): seq<nat> {
    ScanFrom(s, 0).starts
  }

  lemma {:induction false} LaterStarts(s: seq<byte>, t: seq<byte>, stop: nat)
    requires stop == ScanFrom(s, 0).stop
    ensures Starts(s + t) == Starts(s) + ScanFrom(s + t, stop).starts
    ensures forall p <- ScanFrom(s + t, stop).starts :: p + FRAME_LEN > |s|
  {
    ScanExtends(s, t, 0);
    ScanStops(s, 0);
    ScanWithin(s + t, stop);
  }

  /** More bytes add frames and change none; those they add end beyond the bytes there were. */
  lemma {:induction false} StartsExtend(s: seq<byte>, t: seq<byte>)
    ensures Starts(s) <= Starts(s + t)
    ensures forall k :: |Starts(s)| <= k < |Starts(s + t)| ==> Starts(s + t)[k] + FRAME_LEN > |s|
  {
    var stop := ScanFrom(s, 0).stop;
    LaterStarts(s, t, stop);
    Appended(Starts(s), ScanFrom(s + t, stop).starts, Starts(s + t), |s|);
  }

  lemma {:induction false} Appended(a: seq<nat>, later: seq<nat>, b: seq<nat>, n: nat)
    requires b == a + later && forall p <- later :: p + FRAME_LEN > n
    ensures a <= b && forall k :: |a| <= k < |b| ==> b[k] + FRAME_LEN > n
  {
    forall k | |a| <= k < |b| ensures b[k] + FRAME_LEN > n { assert b[k] == later[k - |a|] && later[k - |a|] in later; }
  }

  lemma {:induction false} StartsFit(s: seq<byte>, k: nat)
    requires k < |Starts(s)|
    ensures Starts(s)[k] + FRAME_LEN <= |s|
  {
    ScanWithin(s, 0);
  }

  /** The scan of `s` has got as far as `at`, with these results so far. */
  ghost predicate Paused(s: seq<byte>, at: nat, starts: seq<nat>, refused: seq<nat>) {
    at <= |s| && ScanFrom(s, 0) == Join(starts, refused, ScanFrom(s, at))
  }

  /** A paused scan is still that scan, paused there, once more bytes arrive. */
  lemma {:induction false} ResumeExtends(s: seq<byte>, t: seq<byte>, at: nat, starts: seq<nat>, refused: seq<nat>)
    requires Paused(s, at, starts, refused)
    ensures Paused(s + t, at, starts, refused)
  {
    ScanExtends(s, t, 0);
    ScanExtends(s, t, at);
    var r := ScanFrom(s, at);
    JoinAssociates(starts, refused, r.starts, r.refused, ScanFrom(s + t, r.stop));
  }

  /** Stepping over bytes that start no header changes nothing, as long as three are kept. */
  lemma {:induction false} ScanSkips(s: seq<byte>, p: nat, k: nat)
    requires p + k + 3 <= |s|
    requires forall j :: p <= j < p + k ==> !HeaderAt(s, j)
    ensures ScanFrom(s, p) == ScanFrom(s, p + k)
    decreases k
  {
    if k > 0 { ScanSkips(s, p + 1, k - 1); }
  }

  lemma {:induction false} SuffixHeader(s: seq<byte>, at: nat, i: nat)
    requires at <= |s|
    ensures HeaderAt(s[at..], i) == HeaderAt(s, at + i)
    ensures at + i + FRAME_LEN <= |s| ==>
              ChecksAt(s[at..], i) == ChecksAt(s, at + i) && FrameAt(s[at..], i) == FrameAt(s, at + i)
  {
    if at + i + 4 <= |s| { assert s[at..][i..i + 4] == s[at + i..at + i + 4]; }
    if at + i + FRAME_LEN <= |s| { assert s[at..][i..i + FRAME_LEN] == s[at + i..at + i + FRAME_LEN]; }
  }

  /** What one step on the unread suffix means for the scan of the whole stream. */
  ghost predicate Advances(s: seq<byte>, at: nat, starts: seq<nat>, refused: seq<nat>, step: Step) {
    match step
    case Found(frame, consumed) =>
      && consumed == FRAME_LEN && at + FRAME_LEN <= |s| && frame == FrameAt(s, at)
      && Paused(s, at + FRAME_LEN, starts + [at], refused)
    case Skip(count) => 0 < count && at + count <= |s| && Paused(s, at + count, starts, refused)
    case BadChecksum => at + 1 <= |s| && Paused(s, at + 1, starts, refused + [at])
    case Incomplete => |s| - at < FRAME_LEN && at <= |s| && ScanFrom(s, 0) == Scan(starts, refused, at)
  }

  lemma {:induction false} FoundAdvances(s: seq<byte>, at: nat, starts: seq<nat>, refused: seq<nat>)
    requires Paused(s, at, starts, refused) && at + FRAME_LEN <= |s| && HeaderAt(s, at) && ChecksAt(s, at)
    ensures Paused(s, at + FRAME_LEN, starts + [at], refused)
  {
    JoinAssociates(starts, refused, [at], [], ScanFrom(s, at + FRAME_LEN));
    assert refused + [] == refused;
  }

  lemma {:induction false} RefusalAdvances(s: seq<byte>, at: nat, starts: seq<nat>, refused: seq<nat>)
    requires Paused(s, at, starts, refused) && at + FRAME_LEN <= |s| && HeaderAt(s, at) && !ChecksAt(s, at)
    ensures Paused(s, at + 1, starts, refused + [at])
  {
    JoinAssociates(starts, refused, [], [at], ScanFrom(s, at + 1));
    assert starts + [] == starts;
  }

  lemma {:induction false} SkipAdvances(s: seq<byte>, at: nat, starts: seq<nat>, refused: seq<nat>, count: nat)
    requires Paused(s, at, starts, refused) && at + count + 3 <= |s|
    requires forall j :: 0 <= j < count ==> !HeaderAt(s[at..], j)
    ensures Paused(s, at + count, starts, refused)
  {
    forall j | at <= j < at + count ensures !HeaderAt(s, j) {
      SuffixHeader(s, at, j - at);
      assert !HeaderAt(s[at..], j - at);
    }
    ScanSkips(s, at, count);
  }

  lemma {:induction false} WaitingStops(s: seq<byte>, at: nat, starts: seq<nat>, refused: seq<nat>)
    requires Paused(s, at, starts, refused) && ScanFrom(s, at) == Scan([], [], at)
    ensures ScanFrom(s, 0) == Scan(starts, refused, at)
  {
    assert starts + [] == starts && refused + [] == refused;
  }

  /** What one step decides, told of the whole stream. */
  ghost predicate Decides(s: seq<byte>, at: nat, step: Step)
    requires at <= |s|
  {
    match step
    case Found(frame, consumed) =>
      consumed == FRAME_LEN && at + FRAME_LEN <= |s| && HeaderAt(s, at) && ChecksAt(s, at) && frame == FrameAt(s, at)
    case Skip(count) => 0 < count && at + count + 3 <= |s| && forall j :: 0 <= j < count ==> !HeaderAt(s[at..], j)
    case BadChecksum => at + FRAME_LEN <= |s| && HeaderAt(s, at) && !ChecksAt(s, at)
    case Incomplete => |s| - at < FRAME_LEN && ScanFrom(s, at) == Scan([], [], at)
  }

  lemma {:induction false} StepDecides(s: seq<byte>, at: nat)
    requires at <= |s|
    ensures Decides(s, at, StepOf(s[at..]))
  {
    SuffixHeader(s, at, 0);
  }

  /** Every step of the reader is zero or more steps of the reference. */
  lemma {:induction false} StepAdvances(s: seq<byte>, at: nat, starts: seq<nat>, refused: seq<nat>)
    requires Paused(s, at, starts, refused)
    ensures Advances(s, at, starts, refused, StepOf(s[at..]))
  {
    StepDecides(s, at);
    match StepOf(s[at..]) {
      case Found(frame, consumed) => FoundAdvances(s, at, starts, refused);
      case Skip(count) => SkipAdvances(s, at, starts, refused, count);
      case BadChecksum => RefusalAdvances(s, at, starts, refused);
      case Incomplete => WaitingStops(s, at, starts, refused);
    }
  }

  method Decide(buffer: seq<byte>, ghost s: seq<byte>, ghost at: nat, ghost starts: seq<nat>, ghost refused: seq<nat>)
    returns (step: Step)
    requires Paused(s, at, starts, refused) && buffer == s[at..]
    ensures Advances(s, at, starts, refused, step)
  {
    step := StepOf(buffer);
    StepAdvances(s, at, starts, refused);
  }

  /** `after` is `before` with one more frame, and `frame` is that frame. */
  ghost predicate Delivers(s: seq<byte>, before: seq<nat>, after: seq<nat>, frame: Frame) {
    && |after| == |before| + 1
    && after[..|before|] == before
    && after[|before|] + FRAME_LEN <= |s|
    && frame == FrameAt(s, after[|before|])
  }

  ghost predicate Suffix(s: seq<byte>, t: seq<byte>) {
    |t| <= |s| && s[|s| - |t|..] == t
  }

  lemma {:induction false} SuffixExtends(s: seq<byte>, t: seq<byte>, more: seq<byte>)
    requires Suffix(s, t)
    ensures Suffix(s + more, t + more)
  {
    assert (s + more)[|s| - |t|..] == s[|s| - |t|..] + more;
  }

  // ---------------------------------------------------------------- the reader

  lemma {:induction false} FedKeeps(fed: seq<byte>, buffer: seq<byte>, chunk: seq<byte>, delivered: seq<nat>, refused: seq<nat>)
    requires Suffix(fed, buffer) && Paused(fed, |fed| - |buffer|, delivered, refused)
    ensures Suffix(fed + chunk, buffer + chunk)
    ensures Paused(fed + chunk, |fed + chunk| - |buffer + chunk|, delivered, refused)
  {
    ResumeExtends(fed, chunk, |fed| - |buffer|, delivered, refused);
    SuffixExtends(fed, buffer, chunk);
  }

  class FrameReader {
    var buffer: seq<byte>
    var framesOk: nat
    var framesDiscarded: nat
    var bytesSkipped: nat
    var bytesRead: nat
    ghost var fed: seq<byte>          // every byte ever fed
    ghost var delivered: seq<nat>     // where in `fed` the delivered frames start
    ghost var refused: seq<nat>       // where in `fed` a header failed its sum

    /** The reader is the reference scan, paused somewhere before it finishes; and every byte read
        is in a delivered frame, skipped, or still buffered. */
    ghost predicate Valid()
      reads this
    {
      && bytesRead == FRAME_LEN * framesOk + bytesSkipped + |buffer|
      && bytesRead == |fed|
      && Suffix(fed, buffer)
      && framesOk == |delivered|
      && framesDiscarded == |refused|
      && Paused(fed, |fed| - |buffer|, delivered, refused)
    }

    /** Nothing more can be decided: the reader has finished the scan of what it was fed. */
    ghost predicate Drained()
      reads this
    {
      && |buffer| < FRAME_LEN
      && |buffer| <= |fed|
      && ScanFrom(fed, 0) == Scan(delivered, refused, |fed| - |buffer|)
    }

    constructor ()
      ensures Valid() && Drained()
      ensures fed == [] && delivered == [] && refused == []
    {
      buffer := [];
      framesOk, framesDiscarded, bytesSkipped, bytesRead := 0, 0, 0, 0;
      fed, delivered, refused := [], [], [];
    }

    method Feed(chunk: seq<byte>)
      requires Valid()
      modifies this
      ensures Valid()
      ensures fed == old(fed) + chunk && buffer == old(buffer) + chunk
      ensures bytesRead == old(bytesRead) + |chunk|
      ensures delivered == old(delivered) && refused == old(refused)
      ensures framesOk == old(framesOk) && framesDiscarded == old(framesDiscarded) && bytesSkipped == old(bytesSkipped)
    {
      FedKeeps(fed, buffer, chunk, delivered, refused);
      bytesRead := bytesRead + |chunk|;
      buffer := buffer + chunk;
      fed := fed + chunk;
    }

    /** Forget the oldest bytes. */
    method Drain(count: nat)
      requires count <= |buffer| && Suffix(fed, buffer)
      modifies this`buffer
      ensures |buffer| == |old(buffer)| - count && Suffix(fed, buffer)
    {
      buffer := buffer[count..];
    }

    method TakeFound(ghost at: nat)
      requires Valid() && at == |fed| - |buffer| && at + FRAME_LEN <= |fed|
      requires Paused(fed, at + FRAME_LEN, delivered + [at], refused)
      modifies this
      ensures Valid() && fed == old(fed) && bytesRead == old(bytesRead)
      ensures delivered == old(delivered) + [at] && refused == old(refused)
      ensures |buffer| == |old(buffer)| - FRAME_LEN
    {
      Drain(FRAME_LEN);
      framesOk := framesOk + 1;
      delivered := delivered + [at];
    }

    method StepOver(count: nat)
      requires Valid() && count <= |buffer|
      requires Paused(fed, |fed| - |buffer| + count, delivered, refused)
      modifies this
      ensures Valid() && fed == old(fed) && bytesRead == old(bytesRead)
      ensures delivered == old(delivered) && refused == old(refused)
      ensures |buffer| == |old(buffer)| - count
    {
      bytesSkipped := bytesSkipped + count;
      Drain(if count < |buffer| then count else |buffer|);
    }

    method RefuseHeader(ghost at: nat)
      requires Valid() && at == |fed| - |buffer| && 1 <= |buffer|
      requires Paused(fed, at + 1, delivered, refused + [at])
      modifies this
      ensures Valid() && fed == old(fed) && bytesRead == old(bytesRead)
      ensures delivered == old(delivered) && refused == old(refused) + [at]
      ensures |buffer| == |old(buffer)| - 1
    {
      framesDiscarded := framesDiscarded + 1;
      bytesSkipped := bytesSkipped + 1;
      Drain(1);
      refused := refused + [at];
    }

    /** Take one step and apply it. */
    method Advance() returns (step: Step)
      requires Valid()
      modifies this
      ensures Valid() && fed == old(fed) && bytesRead == old(bytesRead)
      ensures step.Incomplete? ==> Drained()
      ensures !step.Incomplete? ==> |buffer| < |old(buffer)|
      ensures !step.Found? ==> delivered == old(delivered)
      ensures step.Found? ==> Delivers(fed, old(delivered), delivered, step.frame)
    {
      ghost var at := |fed| - |buffer|;
      step := Decide(buffer, fed, at, delivered, refused);
      match step {
        case Found(frame, consumed) => TakeFound(at);
        case Skip(count) => StepOver(count);
        case BadChecksum => RefuseHeader(at);
        case Incomplete =>
      }
    }

    /** Step until a frame comes out or nothing more can be decided: on `None` the reader has caught up
        with the reference scan of everything it was fed. */
    method NextFrame() returns (r: Option<Frame>)
      requires Valid()
      modifies this
      ensures Valid() && fed == old(fed) && bytesRead == old(bytesRead)
      ensures r.None? ==> Drained() && delivered == old(delivered)
      ensures r.Some? ==> Delivers(fed, old(delivered), delivered, r.value) && |buffer| < |old(buffer)|
    {
      while true
        invariant Valid() && fed == old(fed) && bytesRead == old(bytesRead)
        invariant delivered == old(delivered) && |buffer| <= |old(buffer)|
        decreases |buffer|
      {
        var step := Advance();
        match step {
          case Found(frame, consumed) => return Some(frame);
          case Incomplete => return None;
          case Skip(count) =>
          case BadChecksum =>
        }
      }
    }
  }

  /** What a reader has delivered is the beginning of what its stream holds; all of it once it is drained. */
  lemma {:induction false} DeliveredSoFar(reader: FrameReader)
    requires reader.Valid()
    ensures reader.delivered <= Starts(reader.fed)
    ensures reader.Drained() ==> reader.delivered == Starts(reader.fed)
  {
  }

  /** What a driver may do with a reader, in any order. */
  datatype Op = FeedChunk(chunk: seq<byte>) | TakeFrame

  function Stream(ops: seq<Op>): seq<byte> {
    if ops == [] then [] else
    var last := ops[|ops| - 1];
    Stream(ops[..|ops| - 1]) + (if last.FeedChunk? then last.chunk else [])
  }

  /** The frames handed out are the windows of the stream that the scan chose. */
  ghost predicate Handed(s: seq<byte>, starts: seq<nat>, frames: seq<Frame>) {
    && |frames| == |starts|
    && forall k :: 0 <= k < |starts| ==> starts[k] + FRAME_LEN <= |s| && frames[k] == FrameAt(s, starts[k])
  }

  lemma {:induction false} HandedExtends(s: seq<byte>, t: seq<byte>, starts: seq<nat>, frames: seq<Frame>)
    requires Handed(s, starts, frames)
    ensures Handed(s + t, starts, frames)
  {
    forall k | 0 <= k < |starts| ensures FrameAt(s + t, starts[k]) == FrameAt(s, starts[k]) {
      Extension(s, t, starts[k]);
    }
  }

  lemma {:induction false} HandedOne(s: seq<byte>, before: seq<nat>, after: seq<nat>, frames: seq<Frame>, frame: Frame)
    requires Handed(s, before, frames) && Delivers(s, before, after, frame)
    ensures Handed(s, after, frames + [frame])
  {
    forall k | 0 <= k < |before| ensures after[k] == before[k] { assert after[..|before|][k] == before[k]; }
  }

  /** Take frames until none is left, as every caller that wants to catch up does. */
  method DrainReader(reader: FrameReader, frames: seq<Frame>) returns (all: seq<Frame>)
    requires reader.Valid() && Handed(reader.fed, reader.delivered, frames)
    modifies reader
    ensures reader.Valid() && reader.Drained() && reader.fed == old(reader.fed)
    ensures Handed(reader.fed, reader.delivered, all)
  {
    all := frames;
    while true
      invariant reader.Valid() && reader.fed == old(reader.fed)
      invariant Handed(reader.fed, reader.delivered, all)
      decreases |reader.buffer|
    {
      ghost var before := reader.delivered;
      var got := reader.NextFrame();
      match got {
        case None => return;
        case Some(frame) =>
          HandedOne(reader.fed, before, reader.delivered, all, frame);
          all := all + [frame];
      }
    }
  }

  /** One operation of a driver. */
  method Apply(reader: FrameReader, op: Op, frames: seq<Frame>) returns (all: seq<Frame>)
    requires reader.Valid() && Handed(reader.fed, reader.delivered, frames)
    modifies reader
    ensures reader.Valid() && Handed(reader.fed, reader.delivered, all)
    ensures reader.fed == old(reader.fed) + (if op.FeedChunk? then op.chunk else [])
  {
    all := frames;
    match op {
      case FeedChunk(chunk) =>
        HandedExtends(reader.fed, chunk, reader.delivered, frames);
        reader.Feed(chunk);
      case TakeFrame =>
        ghost var before := reader.delivered;
        var got := reader.NextFrame();
        if got.Some? {
          HandedOne(reader.fed, before, reader.delivered, frames, got.value);
          all := frames + [got.value];
        }
    }
  }

  /** Any interleaving of feeding and taking, followed by a drain: the frames, the counters and the
      retained bytes are those of the reference scan of the whole stream. */
  method Drive(ops: seq<Op>) returns (frames: seq<Frame>, reader: FrameReader)
    ensures fresh(reader)
    ensures var s, scan := Stream(ops), ScanFrom(Stream(ops), 0);
            && Handed(s, scan.starts, frames)
            && reader.framesOk == |scan.starts|
            && reader.framesDiscarded == |scan.refused|
            && reader.bytesSkipped == scan.stop - FRAME_LEN * |scan.starts|
            && reader.bytesRead == |s|
            && reader.buffer == s[scan.stop..]
  {
    reader := new FrameReader();
    frames := [];
    var i := 0;
    while i < |ops|
      invariant 0 <= i <= |ops|
      invariant fresh(reader) && reader.Valid() && reader.fed == Stream(ops[..i])
      invariant Handed(reader.fed, reader.delivered, frames)
    {
      assert ops[..i + 1][..i] == ops[..i];
      frames := Apply(reader, ops[i], frames);
      i := i + 1;
    }
    assert ops[..i] == ops;
    frames := DrainReader(reader, frames);
  }
}
