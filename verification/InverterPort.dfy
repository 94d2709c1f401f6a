/** Reading one response off the inverter's line: stop at the first CR, give up on a line that never
    sends one. */
module InverterPort {
  import opened Bytes
  import opened Serial
  import opened Crc
  import opened Protocol

  const CHUNK: nat := 64
  const LONGEST: nat := 512

  datatype FrameRead = Got(frame: seq<byte>) | TimedOut | Failed

  /** No read returns more than its buffer holds. */
  predicate SmallChunks(turns: seq<Turn>) {
    forall t <- turns :: t.event.Arrived? ==> |t.event.chunk| <= CHUNK
  }

  predicate EndsAtFirstCr(frame: seq<byte>) {
    frame != [] && frame[|frame| - 1] == CR && CR !in frame[..|frame| - 1]
  }

  /** What a read of a frame made of the bytes it took. */
  ghost predicate Outcome(r: FrameRead, taken: seq<byte>) {
    if r.Got? then
      && r.frame <= taken && |r.frame| <= LONGEST + CHUNK
      && (EndsAtFirstCr(r.frame) || (r.frame == taken && CR !in taken && |taken| > LONGEST))
    else CR !in taken && |taken| <= LONGEST
  }

  /** A frame grown by a chunk, through the chunk's first CR if it has one; and whether it has. */
  function Pushed(frame: seq<byte>, chunk: seq<byte>): (seq<byte>, bool)
    decreases chunk
  {
    if chunk == [] then (frame, false)
    else if chunk[0] == CR then (frame + [CR], true)
    else Pushed(frame + [chunk[0]], chunk[1..])
  }

  /** Push the bytes of one chunk until a CR. */
  method PushChunk(frame: seq<byte>, chunk: seq<byte>) returns (longer: seq<byte>, ended: bool)
    requires CR !in frame
    ensures (longer, ended) == Pushed(frame, chunk)
    ensures longer <= frame + chunk
    ensures if ended then EndsAtFirstCr(longer) else longer == frame + chunk && CR !in longer
  {
    longer := frame;
    for i := 0 to |chunk|
      invariant longer == frame + chunk[..i] && CR !in longer
      invariant Pushed(frame, chunk) == Pushed(longer, chunk[i..])
    {
      assert chunk[i..][0] == chunk[i] && chunk[i..][1..] == chunk[i + 1..];
      assert frame + chunk[..i + 1] == longer + [chunk[i]];
      longer := longer + [chunk[i]];
      if chunk[i] == CR {
        assert longer[..|longer| - 1] == frame + chunk[..i];
        assert longer == (frame + chunk)[..|longer|];
        return longer, true;
      }
    }
    return longer, false;
  }

  /** What reading a frame comes to: `left` is the time still allowed, `frame` what has been pushed. */
  function ReadBy(turns: seq<Turn>, left: int, frame: seq<byte>): FrameRead
    decreases |turns|
  {
    if left <= 0 then TimedOut
    else
      match ReadOf(turns)
      case Disconnected => Failed
      case Count(chunk) =>
        var (longer, ended) := Pushed(frame, chunk);
        if ended || |longer| > LONGEST then Got(longer)
        else ReadBy(turns[1..], left - turns[0].elapsed, longer)
  }

  method ReadFrame(line: Line, timeout: nat) returns (r: FrameRead, ghost taken: seq<byte>)
    requires SmallChunks(line.turns)
    modifies line
    ensures r == ReadBy(old(line.turns), timeout, [])
    ensures Onward(line) && Received(line.past) == Received(old(line.past)) + taken
    ensures Outcome(r, taken)
    ensures r.TimedOut? ==> line.now >= old(line.now) + timeout
    ensures r.Failed? ==> line.Dead()
  {
    var deadline := line.now + timeout;
    var frame := [];
    taken := [];
    while line.now < deadline
      invariant Onward(line) && SmallChunks(line.turns)
      invariant Received(line.past) == Received(old(line.past)) + taken
      invariant frame == taken && CR !in frame && |frame| <= LONGEST
      invariant ReadBy(old(line.turns), timeout, []) == ReadBy(line.turns, deadline - line.now, frame)
      decreases |line.turns|
    {
      StillSmall(line.turns);
      var read := line.ReadSome();
      match read {
        case Disconnected => return Failed, taken;
        case Count(chunk) =>
          var ended;
          frame, ended := PushChunk(frame, chunk);
          taken := taken + chunk;
          if ended || |frame| > LONGEST { return Got(frame), taken; }
      }
    }
    return TimedOut, taken;
  }

  lemma {:induction false} StillSmall(turns: seq<Turn>)
    requires SmallChunks(turns)
    ensures turns != [] ==> SmallChunks(turns[1..])
    ensures ReadOf(turns).Count? ==> |ReadOf(turns).chunk| <= CHUNK
  {
    if turns != [] { assert turns[0] in turns; }
  }

  // ---------------------------------------------------------------- a response that arrives in time

  /** `n` more bytes arrive, by reads that each begin with some of the time left. */
  predicate InTime(turns: seq<Turn>, n: nat, left: int) {
    && left > 0 && ReadOf(turns).Count?
    && var got := |ReadOf(turns).chunk|;
       got >= n || InTime(turns[1..], n - got, left - turns[0].elapsed)
  }

  /** The first `k` turns bring `n` bytes, none of them finds the adapter gone, and the last of them
      begins before the time is up. */
  ghost predicate Brings(turns: seq<Turn>, k: nat, n: nat, left: int) {
    0 < k <= |turns| && NoneGone(turns[..k]) && |Received(turns[..k])| >= n && Elapsed(turns[..k - 1]) < left
  }

  lemma {:induction false} ElapsedFromFront(turns: seq<Turn>)
    requires turns != []
    ensures Elapsed(turns) == turns[0].elapsed + Elapsed(turns[1..])
  {
    var front := turns[..|turns| - 1];
    if front == [] {
      assert turns[1..] == [];
    } else {
      ElapsedFromFront(front);
      assert turns[1..][..|turns| - 2] == front[1..];
    }
  }

  lemma {:induction false} BringsLater(turns: seq<Turn>, k: nat, n: nat, left: int)
    requires 1 < k <= |turns| && ReadOf(turns).Count? && left > 0
    ensures var got := |ReadOf(turns).chunk|;
            got < n ==> (Brings(turns, k, n, left) <==> Brings(turns[1..], k - 1, n - got, left - turns[0].elapsed))
  {
    var now, later := turns[..k], turns[1..][..k - 1];
    assert now[1..] == later && now[0] == turns[0] && now == [turns[0]] + later;
    var before := turns[..k - 1];
    ElapsedFromFront(before);
    assert before[1..] == turns[1..][..k - 2];
    assert NoneGone(now) <==> NoneGone(later) by {
      assert forall t :: t in now <==> t == turns[0] || t in later;
    }
  }

  lemma {:induction false} BringsAtOnce(turns: seq<Turn>, n: nat, left: int)
    ensures Brings(turns, 1, n, left) <==> left > 0 && ReadOf(turns).Count? && |ReadOf(turns).chunk| >= n
  {
    if turns != [] {
      var one := turns[..1];
      assert one == [turns[0]] && one[1..] == [] && turns[..0] == [];
      assert Received(one) == (if turns[0].event.Arrived? then turns[0].event.chunk else []) + Received(one[1..]);
    }
  }

  lemma {:induction false} BringsNotGone(turns: seq<Turn>, k: nat, n: nat, left: int)
    requires Brings(turns, k, n, left)
    ensures left > 0 && ReadOf(turns).Count?
  {
    assert turns[..k][0] == turns[0] && turns[0] in turns[..k];
  }

  /** So `InTime` says that some number of turns does. */
  lemma {:induction false} InTimeMeans(turns: seq<Turn>, n: nat, left: int)
    ensures InTime(turns, n, left) <==> exists k: nat :: Brings(turns, k, n, left)
    decreases |turns|
  {
    BringsAtOnce(turns, n, left);
    if left > 0 && ReadOf(turns).Count? {
      var got := |ReadOf(turns).chunk|;
      if got < n {
        InTimeMeans(turns[1..], n - got, left - turns[0].elapsed);
        forall k: nat | 1 < k <= |turns|
          ensures Brings(turns, k, n, left) <==> Brings(turns[1..], k - 1, n - got, left - turns[0].elapsed) {
          BringsLater(turns, k, n, left);
        }
        if InTime(turns, n, left) {
          var k: nat :| Brings(turns[1..], k, n - got, left - turns[0].elapsed);
          assert Brings(turns, k + 1, n, left);
        }
      }
    } else {
      forall k: nat ensures !Brings(turns, k, n, left) {
        if Brings(turns, k, n, left) { BringsNotGone(turns, k, n, left); }
      }
    }
  }

  lemma {:induction false} PushedWhole(frame: seq<byte>, chunk: seq<byte>, m: nat)
    requires m <= |chunk| && CR !in chunk[..m]
    ensures Pushed(frame, chunk) == Pushed(frame + chunk[..m], chunk[m..])
    decreases m
  {
    if m == 0 {
      assert frame + chunk[..0] == frame && chunk[0..] == chunk;
    } else {
      assert chunk[0] == chunk[..m][0] && chunk[1..][..m - 1] == chunk[..m][1..];
      PushedWhole(frame + [chunk[0]], chunk[1..], m - 1);
      assert frame + [chunk[0]] + chunk[1..][..m - 1] == frame + chunk[..m];
      assert chunk[1..][m - 1..] == chunk[m..];
    }
  }

  /** The rest of a frame, or some of it, is pushed onto what is there. */
  lemma {:induction false} PushedRest(built: seq<byte>, got: seq<byte>, chunk: seq<byte>)
    requires EndsAtFirstCr(built) && got < built
    requires built <= got + chunk || got + chunk < built
    ensures Pushed(got, chunk) == if |got + chunk| >= |built| then (built, true) else (got + chunk, false)
  {
    var body := built[..|built| - 1];
    var m := if |got + chunk| >= |built| then |body| - |got| else |chunk|;
    assert forall i :: 0 <= i < m ==> chunk[..m][i] == (got + chunk)[|got| + i] == body[|got| + i];
    PushedWhole(got, chunk, m);
    if |got + chunk| >= |built| {
      assert chunk[m] == (got + chunk)[|body|] == CR && chunk[m..][0] == CR;
      assert got + chunk[..m] + [CR] == built;
    } else {
      assert chunk[..m] == chunk && chunk[m..] == [];
    }
  }

  lemma {:induction false} RestAfter(built: seq<byte>, got: seq<byte>, turns: seq<Turn>, chunk: seq<byte>)
    requires got < built && ReadOf(turns) == Count(chunk)
    requires built <= got + Received(turns) || got + Received(turns) <= built
    ensures built <= got + chunk || got + chunk < built
    ensures built <= got + chunk + Received(turns[1..]) || got + chunk + Received(turns[1..]) <= built
  {
    assert Received(turns) == chunk + Received(turns[1..]);
    assert got + (chunk + Received(turns[1..])) == got + chunk + Received(turns[1..]);
  }

  /** A frame of which `got` has been read is returned whole exactly when the rest of it is in time. */
  lemma {:induction false} ReadsRest(built: seq<byte>, got: seq<byte>, turns: seq<Turn>, left: int)
    requires EndsAtFirstCr(built) && got < built && |built| <= LONGEST
    requires built <= got + Received(turns) || got + Received(turns) <= built
    ensures ReadBy(turns, left, got) == Got(built) <==> InTime(turns, |built| - |got|, left)
    decreases |turns|
  {
    if left > 0 && ReadOf(turns).Count? {
      var chunk := ReadOf(turns).chunk;
      RestAfter(built, got, turns, chunk);
      PushedRest(built, got, chunk);
      if |got + chunk| < |built| { ReadsRest(built, got + chunk, turns[1..], left - turns[0].elapsed); }
    }
  }

  /** Framing is transparent: a response of at most 512 bytes whose payload has no CR, whatever follows it
      on the line and however it is cut into reads, is returned whole exactly when some number of reads
      bring all of it, the last of them begun before the deadline; and it parses to its payload. */
  lemma {:induction false} FramingIsTransparent(payload: seq<byte>, turns: seq<Turn>, timeout: nat)
    requires CR !in payload && |BuildResponse(payload)| <= LONGEST
    requires BuildResponse(payload) <= Received(turns)
    ensures var built := BuildResponse(payload);
            && (ReadBy(turns, timeout, []) == Got(built) <==> exists k: nat :: Brings(turns, k, |built|, timeout))
            && ParseResponse(built) == Ok(Meaning(payload))
  {
    var built := BuildResponse(payload);
    FrameEndsAtFirstCr(payload);
    BuildThenParse(payload);
    assert [] + Received(turns) == Received(turns);
    ReadsRest(built, [], turns, timeout);
    InTimeMeans(turns, |built|, timeout);
  }

  // ---------------------------------------------------------------- what every read of a frame comes to

  /** After `n` reads, each begun in time, there is neither a CR nor too much, and the adapter is there. */
  ghost predicate Undecided(turns: seq<Turn>, n: nat, timeout: nat) {
    && n <= |turns| && NoneGone(turns[..n]) && (forall j :: 0 <= j < n ==> Elapsed(turns[..j]) < timeout)
    && 0x0D !in Received(turns[..n]) && |Received(turns[..n])| <= 512
  }

  /** How the `n`th moment decides: time is up, the adapter is gone, or a read brings a CR, up to which the
      frame is returned, or takes the frame past 512 bytes. */
  ghost predicate Decides(turns: seq<Turn>, n: nat, timeout: nat, r: FrameRead) {
    && Undecided(turns, n, timeout)
    && var got := Received(turns[..n]);
       if Elapsed(turns[..n]) >= timeout then r == TimedOut
       else if n == |turns| || turns[n].event.Gone? then r == Failed
       else turns[n].event.Arrived?
            && var chunk := turns[n].event.chunk;
               if 0x0D in chunk
               then exists m :: 0 <= m < |chunk| && chunk[m] == 0x0D && 0x0D !in chunk[..m] && r == Got(got + chunk[..m + 1])
               else |got + chunk| > 512 && r == Got(got + chunk)
  }

  lemma {:induction false} FirstCr(chunk: seq<byte>) returns (m: nat)
    requires 0x0D in chunk
    ensures m < |chunk| && chunk[m] == 0x0D && 0x0D !in chunk[..m]
  {
    if chunk[0] == 0x0D {
      m := 0;
    } else {
      m := FirstCr(chunk[1..]);
      m := m + 1;
      assert chunk[..m] == [chunk[0]] + chunk[1..][..m - 1];
    }
  }

  lemma {:induction false} PushedThrough(frame: seq<byte>, chunk: seq<byte>, m: nat)
    requires m < |chunk| && chunk[m] == 0x0D && 0x0D !in chunk[..m]
    ensures Pushed(frame, chunk) == (frame + chunk[..m + 1], true)
  {
    PushedWhole(frame, chunk, m);
    assert chunk[m..][0] == 0x0D && frame + chunk[..m] + [0x0D] == frame + chunk[..m + 1];
  }

  lemma {:induction false} PushedAll(frame: seq<byte>, chunk: seq<byte>)
    requires 0x0D !in chunk
    ensures Pushed(frame, chunk) == (frame + chunk, false)
  {
    assert chunk[..|chunk|] == chunk;
    PushedWhole(frame, chunk, |chunk|);
  }

  lemma {:induction false} OneTurnMore(turns: seq<Turn>, n: nat)
    requires n < |turns| && NoneGone(turns[..n]) && !turns[n].event.Gone?
    ensures NoneGone(turns[..n + 1]) && Elapsed(turns[..n + 1]) == Elapsed(turns[..n]) + turns[n].elapsed
    ensures Received(turns[..n + 1]) == Received(turns[..n]) + (if turns[n].event.Arrived? then turns[n].event.chunk else [])
  {
    var next := [turns[n]];
    assert turns[..n + 1] == turns[..n] + next && turns[..n + 1][..n] == turns[..n];
    ReceivedConcat(turns[..n], next);
    assert next[1..] == [] && Received([]) == [];
    assert Received(next) == (if turns[n].event.Arrived? then turns[n].event.chunk else []) + [];
  }

  lemma {:induction false} ReadStep(turns: seq<Turn>, left: int, frame: seq<byte>, chunk: seq<byte>)
    requires left > 0 && ReadOf(turns) == Count(chunk)
    ensures if 0x0D in chunk
            then exists m :: (0 <= m < |chunk| && chunk[m] == 0x0D && 0x0D !in chunk[..m]
                              && ReadBy(turns, left, frame) == Got(frame + chunk[..m + 1]))
            else ReadBy(turns, left, frame) ==
                   if |frame + chunk| > 512 then Got(frame + chunk) else ReadBy(turns[1..], left - turns[0].elapsed, frame + chunk)
  {
    if 0x0D in chunk {
      var m := FirstCr(chunk);
      PushedThrough(frame, chunk, m);
    } else {
      PushedAll(frame, chunk);
    }
  }

  lemma {:induction false} ReadEnds(turns: seq<Turn>, timeout: nat, k: nat) returns (n: nat)
    requires Undecided(turns, k, timeout)
    ensures Decides(turns, n, timeout, ReadBy(turns[k..], timeout - Elapsed(turns[..k]), Received(turns[..k])))
    decreases |turns| - k
  {
    n := k;
    if Elapsed(turns[..k]) < timeout && k < |turns| && !turns[k].event.Gone? {
      var got, chunk := Received(turns[..k]), if turns[k].event.Arrived? then turns[k].event.chunk else [];
      OneTurnMore(turns, k);
      assert turns[k..][0] == turns[k] && turns[k..][1..] == turns[k + 1..];
      ReadStep(turns[k..], timeout - Elapsed(turns[..k]), got, chunk);
      if 0x0D !in chunk && |got + chunk| <= 512 {
        n := ReadEnds(turns, timeout, k + 1);
      }
    }
  }

  /** Every read of a frame, whatever is on the line: it comes to what the first moment that decides says. */
  lemma {:induction false} ReadIs(turns: seq<Turn>, timeout: nat) returns (n: nat)
    ensures Decides(turns, n, timeout, ReadBy(turns, timeout, []))
  {
    assert turns[0..] == turns && turns[..0] == [];
    n := ReadEnds(turns, timeout, 0);
  }
}
