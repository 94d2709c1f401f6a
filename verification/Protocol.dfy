/** The inverter's request and response framing, and what its checksum lets through. */
module Protocol {
  import opened Bytes
  import opened Polynomial
  import opened Crc

  datatype Command = Qid | Qvfw | Qvfw3 | Qmn | Qgmn | Qmod | Qpigs | Qpigs2 | Qpiws

  const STATIC_COMMANDS: seq<Command> := [Qid, Qvfw, Qvfw3, Qmn, Qgmn]
  const LIVE_COMMANDS: seq<Command> := [Qmod, Qpigs, Qpigs2, Qpiws]

  const CR: byte := 0x0D
  const LF: byte := 0x0A
  const LEADING: byte := 0x28
  const NAK: seq<byte> := [0x4E, 0x41, 0x4B]

  /** The command as ASCII. */
  function Text(command: Command): seq<byte> {
    match command
    case Qid => [0x51, 0x49, 0x44]
    case Qvfw => [0x51, 0x56, 0x46, 0x57]
    case Qvfw3 => [0x51, 0x56, 0x46, 0x57, 0x33]
    case Qmn => [0x51, 0x4D, 0x4E]
    case Qgmn => [0x51, 0x47, 0x4D, 0x4E]
    case Qmod => [0x51, 0x4D, 0x4F, 0x44]
    case Qpigs => [0x51, 0x50, 0x49, 0x47, 0x53]
    case Qpigs2 => [0x51, 0x50, 0x49, 0x47, 0x53, 0x32]
    case Qpiws => [0x51, 0x50, 0x49, 0x57, 0x53]
  }

  function Request(command: Command): seq<byte> {
    Text(command) + FrameCrc(Text(command)) + [CR]
  }

  datatype Response = Payload(payload: seq<byte>) | Nak

  datatype FrameError =
    | TooShort(length: nat)
    | NotAResponse(first: byte)
    | Unterminated
    | Mismatch(computed: seq<byte>, received: seq<byte>)

  /** A frame's payload, once its ends and its checksum, over all but the last three bytes, are right. */
  function ParseResponse(frame: seq<byte>): Result<Response, FrameError> {
    if |frame| < 4 then Err(TooShort(|frame|))
    else if frame[0] != LEADING then Err(NotAResponse(frame[0]))
    else if frame[|frame| - 1] != CR then Err(Unterminated)
    else
      var covered := frame[..|frame| - 3];
      var received := frame[|frame| - 3..|frame| - 1];
      var computed := FrameCrc(covered);
      if computed != received then Err(Mismatch(computed, received))
      else
        var payload := frame[1..|frame| - 3];
        Ok(if payload == NAK then Nak else Payload(payload))
  }

  /** A well-formed response, as the unit builds it. */
  function BuildResponse(payload: seq<byte>): (frame: seq<byte>)
    ensures |frame| == |payload| + 4
  {
    var body := [LEADING] + payload;
    body + FrameCrc(body) + [CR]
  }

  function Meaning(payload: seq<byte>): Response {
    if payload == NAK then Nak else Payload(payload)
  }

  lemma {:induction false} BuildThenParse(payload: seq<byte>)
    ensures ParseResponse(BuildResponse(payload)) == Ok(Meaning(payload))
  {
    var body := [LEADING] + payload;
    var frame := BuildResponse(payload);
    assert frame[..|frame| - 3] == body;
    assert frame[|frame| - 3..|frame| - 1] == FrameCrc(body);
    assert frame[1..|frame| - 3] == payload;
  }

  /** The parser accepts what a unit can have built and nothing else. */
  lemma {:induction false} AcceptedWasBuilt(frame: seq<byte>)
    requires ParseResponse(frame).Ok?
    ensures frame == BuildResponse(frame[1..|frame| - 3])
  {
    var n := |frame| - 3;
    assert frame[..n] == [LEADING] + frame[1..n];
    assert frame == frame[..n] + frame[n..n + 2] + [CR];
  }

  /** So, over all byte strings: accepted means built from some payload, and the answer is that payload. */
  lemma {:induction false} ParseAcceptsExactlyBuilt(frame: seq<byte>, r: Response)
    ensures ParseResponse(frame) == Ok(r) <==> exists payload :: frame == BuildResponse(payload) && r == Meaning(payload)
  {
    if ParseResponse(frame) == Ok(r) {
      AcceptedWasBuilt(frame);
      BuildThenParse(frame[1..|frame| - 3]);
    }
    forall payload | frame == BuildResponse(payload) ensures ParseResponse(frame) == Ok(Meaning(payload)) {
      BuildThenParse(payload);
    }
  }

  /** No checksum byte on the wire is `(`, LF or CR; so the only CR of a frame whose payload has none
      is the last byte, and a reader that stops at the first CR has the whole frame. */
  lemma {:induction false} FrameEndsAtFirstCr(payload: seq<byte>)
    requires CR !in payload
    ensures var frame := BuildResponse(payload);
            frame[|frame| - 1] == CR && CR !in frame[..|frame| - 1]
    ensures forall b <- FrameCrc([LEADING] + payload) :: b != LEADING && b != LF && b != CR
  {
    var body := [LEADING] + payload;
    var frame := BuildResponse(payload);
    assert frame[..|frame| - 1] == body + FrameCrc(body);
  }

  // ---------------------------------------------------------------- what corruption gets through

  /** Two checksum bytes that go on the wire as the same byte. */
  predicate Alias(x: byte, y: byte) {
    || x == y
    || (x == 0x28 && y == 0x29) || (x == 0x29 && y == 0x28)
    || (x == 0x0A && y == 0x0B) || (x == 0x0B && y == 0x0A)
    || (x == 0x0D && y == 0x0E) || (x == 0x0E && y == 0x0D)
  }

  /** Two covered parts are indistinguishable exactly when the bytes of their checksums alias. */
  lemma {:induction false} IndistinguishableIff(a: seq<byte>, b: seq<byte>)
    ensures FrameCrc(a) == FrameCrc(b) <==> Alias(Hi(Xmodem(a)), Hi(Xmodem(b))) && Alias(Lo(Xmodem(a)), Lo(Xmodem(b)))
  {
    var p, q := FrameCrc(a), FrameCrc(b);
    assert p == q <==> p[0] == q[0] && p[1] == q[1];
  }

  /** A frame corrupted under its checksum is accepted exactly when the two checksums alias. */
  lemma {:induction false} CorruptionAcceptedIff(payload: seq<byte>, corrupted: seq<byte>)
    ensures var body, other := [LEADING] + payload, [LEADING] + corrupted;
            var frame := other + FrameCrc(body) + [CR];
            ParseResponse(frame).Ok? <==>
              Alias(Hi(Xmodem(body)), Hi(Xmodem(other))) && Alias(Lo(Xmodem(body)), Lo(Xmodem(other)))
  {
    var body, other := [LEADING] + payload, [LEADING] + corrupted;
    var frame := other + FrameCrc(body) + [CR];
    assert frame[..|frame| - 3] == other;
    assert frame[|frame| - 3..|frame| - 1] == FrameCrc(body);
    IndistinguishableIff(body, other);
  }

  /** A change confined to the two checksum bytes is always rejected. */
  lemma {:induction false} ChecksumChangeRejected(payload: seq<byte>, crc: seq<byte>)
    requires |crc| == 2 && crc != FrameCrc([LEADING] + payload)
    ensures ParseResponse([LEADING] + payload + crc + [CR]) == Err(Mismatch(FrameCrc([LEADING] + payload), crc))
  {
    var frame := [LEADING] + payload + crc + [CR];
    assert frame[..|frame| - 3] == [LEADING] + payload;
    assert frame[|frame| - 3..|frame| - 1] == crc;
  }

  // how two aliasing bytes can differ: not at all, in the last bit, or in the last two
  const SAME: Poly := Zeros(8)
  const LAST: Poly := Zeros(7) + [true]
  const LAST_TWO: Poly := Zeros(6) + [true, true]

  lemma {:induction false} MaskParity()
    ensures !Parity(SAME) && Parity(LAST) && !Parity(LAST_TWO)
  {
    ParityZeros(8);
    ParityZeros(7);
    ParityZeros(6);
    ParityConcat(Zeros(7), [true]);
    ParityConcat(Zeros(6), [true, true]);
    assert [true, true][1..] == [true];
  }

  lemma {:induction false} EvenAndNext(x: byte)
    requires x % 2 == 0
    ensures Add(Bits8(x), Bits8(x + 1)) == LAST == Add(Bits8(x + 1), Bits8(x))
  {
    var p := BitsOf(x / 2, 7);
    assert Bits8(x) == p + [false] && Bits8(x + 1) == p + [true];
  }

  lemma {:induction false} OneAndTwoAbove(x: byte)
    requires x % 4 == 0 && x < 252
    ensures Add(Bits8(x + 1), Bits8(x + 2)) == LAST_TWO == Add(Bits8(x + 2), Bits8(x + 1))
  {
    var p := BitsOf(x / 4, 6);
    assert (x + 1) / 2 / 2 == (x + 2) / 2 / 2 == x / 4;
    assert BitsOf((x + 1) / 2, 7) == p + [false] && BitsOf((x + 2) / 2, 7) == p + [true];
    assert Bits8(x + 1) == p + [false] + [true] && Bits8(x + 2) == p + [true] + [false];
  }

  lemma {:induction false} AliasBits(x: byte, y: byte)
    requires Alias(x, y)
    ensures Add(Bits8(x), Bits8(y)) in [SAME, LAST, LAST_TWO]
  {
    if x == y {
      assert Add(Bits8(x), Bits8(x)) == SAME;
    } else if x == 0x0D || x == 0x0E {
      OneAndTwoAbove(0x0C);
    } else {
      EvenAndNext(if x < y then x else y);
    }
  }

  lemma {:induction false} HalvesAdd(x: Word, y: Word)
    ensures Add(x, y) == Add(Bits8(Hi(x)), Bits8(Hi(y))) + Add(Bits8(Lo(x)), Bits8(Lo(y)))
  {
    ByteRoundTrip(0, x[..8]);
    ByteRoundTrip(0, x[8..]);
    ByteRoundTrip(0, y[..8]);
    ByteRoundTrip(0, y[8..]);
  }

  lemma {:induction false} OddPairs(h: Poly, l: Poly)
    requires h in [SAME, LAST, LAST_TWO] && l in [SAME, LAST, LAST_TWO] && Parity(h + l)
    ensures h + l in [SAME + LAST, LAST + SAME, LAST + LAST_TWO, LAST_TWO + LAST]
  {
    MaskParity();
    ParityConcat(h, l);
  }

  /** After an odd number of flipped bits the raw checksums always differ; the wire form hides the
      difference only if it is 0x0001, 0x0100, 0x0103 or 0x0301. */
  lemma {:induction false} OddFlipsOnWire(a: seq<byte>, b: seq<byte>)
    requires |a| == |b| && OddlyFlipped(a, b) && FrameCrc(a) == FrameCrc(b)
    ensures Add(Xmodem(a), Xmodem(b)) in [SAME + LAST, LAST + SAME, LAST + LAST_TWO, LAST_TWO + LAST]
  {
    var x, y := Xmodem(a), Xmodem(b);
    OddFlipsDetected(a, b);
    IndistinguishableIff(a, b);
    AliasBits(Hi(x), Hi(y));
    AliasBits(Lo(x), Lo(y));
    HalvesAdd(x, y);
    OddPairs(Add(Bits8(Hi(x)), Bits8(Hi(y))), Add(Bits8(Lo(x)), Bits8(Lo(y))));
  }

  lemma {:induction false} MaskValues()
    ensures ValueOf(SAME + LAST) == 0x0001 && ValueOf(LAST + SAME) == 0x0100
    ensures ValueOf(LAST + LAST_TWO) == 0x0103 && ValueOf(LAST_TWO + LAST) == 0x0301
  {
    ValueOfZeros(15);
    ValueOfZeros(7);
    ValueOfZeros(6);
    assert SAME + LAST == Zeros(15) + Zeros(0) + [true];
    ValueOfZerosThenOne(Zeros(15), 0);
    var one := LAST;
    assert one == Zeros(7) + Zeros(0) + [true];
    ValueOfZerosThenOne(Zeros(7), 0);
    ValueShifted(one, 8);
    ValueOfZerosThenOne(one, 6);
    assert LAST + LAST_TWO == one + Zeros(6) + [true] + Zeros(0) + [true];
    ValueOfZerosThenOne(one + Zeros(6) + [true], 0);
    var three := LAST_TWO;
    assert three == Zeros(6) + Zeros(0) + [true] + Zeros(0) + [true];
    ValueOfZerosThenOne(Zeros(6), 0);
    ValueOfZerosThenOne(Zeros(6) + Zeros(0) + [true], 0);
    assert LAST_TWO + LAST == three + Zeros(7) + [true];
    ValueOfZerosThenOne(three, 7);
    PowersOfTwo();
  }

  lemma {:induction false} PowersOfTwo()
    ensures Pow2(1) == 2 && Pow2(7) == 128 && Pow2(8) == 256
  {
  }

  /** The inverse of a turn of the register. */
  function Unshift(a: Word): Word {
    var b := if a[15] then Add(a, TAPS) else a;
    [a[15]] + b[..15]
  }

  function Unturn(a: Word, turns: nat): Word
    decreases turns
  {
    if turns == 0 then a else Unshift(Unturn(a, turns - 1))
  }

  lemma {:induction false} ShiftUndoes(a: Word)
    ensures Shift(Unshift(a)) == a
  {
    var b := if a[15] then Add(a, TAPS) else a;
    assert Unshift(a)[1..] + [false] == b[..15] + [false];
    assert TAPS[15] && !b[15];
    assert b[..15] + [false] == b;
  }

  lemma {:induction false} TurnUndoes(a: Word, n: nat)
    ensures Turn(Unturn(a, n), n) == a
  {
    if n > 0 {
      TurnUndoes(a, n - 1);
      ShiftUndoes(Unturn(a, n - 1));
    }
  }

  /** Two more bytes can bring the checksum of any message to any value. */
  lemma {:induction false} Steer(data: seq<byte>, target: Word) returns (tail: seq<byte>)
    ensures |tail| == 2 && Xmodem(data + tail) == target
  {
    var c := Xmodem(data);
    var w: Word := Add(c, Unturn(target, 16));
    tail := [Hi(w), Lo(w)];
    XmodemIsFeed(data);
    XmodemIsFeed(data + tail);
    BitsConcat(data, tail);
    FeedConcat(Zeros(16), Bits(data), Bits(tail));
    TailBits(w);
    FeedIsTurn(c, w);
    assert Add(c, w + Zeros(0)) == Unturn(target, 16);
    TurnUndoes(target, 16);
  }

  function Word16(hi: byte, lo: byte): Word {
    Bits8(hi) + Bits8(lo)
  }

  lemma {:induction false} WordHalves(hi: byte, lo: byte)
    ensures Hi(Word16(hi, lo)) == hi && Lo(Word16(hi, lo)) == lo
  {
    var w := Word16(hi, lo);
    assert w[..8] == Bits8(hi) && w[8..] == Bits8(lo);
    ByteRoundTrip(hi, w[..8]);
    ByteRoundTrip(lo, w[8..]);
  }

  /** And some do get through: whatever a frame starts with, and whatever the low checksum byte, two
      continuations differ in an odd number of bits and carry the same checksum bytes. */
  lemma {:induction false} OddFlipsCanPass(data: seq<byte>, lo: byte) returns (x: seq<byte>, y: seq<byte>)
    ensures |x| == |y| == 2
    ensures OddlyFlipped(data + x, data + y) && FrameCrc(data + x) == FrameCrc(data + y)
  {
    x := Steer(data, Word16(0x0A, lo));
    y := Steer(data, Word16(0x0B, lo));
    AliasedPair(data + x, data + y, 0x0A, lo);
  }

  lemma {:induction false} WordsDiffer(hi: byte, lo: byte)
    requires hi % 2 == 0
    ensures Parity(Word16(hi, lo)) != Parity(Word16(hi + 1, lo))
  {
    var h := BitsOf(hi / 2, 7);
    ParityConcat(Bits8(hi), Bits8(lo));
    ParityConcat(Bits8(hi + 1), Bits8(lo));
    ParityConcat(h, [false]);
    ParityConcat(h, [true]);
  }

  lemma {:induction false} AliasedPair(a: seq<byte>, b: seq<byte>, hi: byte, lo: byte)
    requires |a| == |b| && hi % 2 == 0 && Alias(hi, hi + 1)
    requires Xmodem(a) == Word16(hi, lo) && Xmodem(b) == Word16(hi + 1, lo)
    ensures OddlyFlipped(a, b) && FrameCrc(a) == FrameCrc(b)
  {
    var x, y := Word16(hi, lo), Word16(hi + 1, lo);
    WordHalves(hi, lo);
    WordHalves(hi + 1, lo);
    IndistinguishableIff(a, b);
    WordsDiffer(hi, lo);
    XmodemParity(a);
    XmodemParity(b);
    ParityAdd(Bits(a), Bits(b));
  }

  /** Such a pair is a frame that the line can corrupt into another that the parser accepts. */
  lemma {:induction false} OddFlipsAccepted(lo: byte) returns (sent: seq<byte>, corrupted: seq<byte>)
    ensures |sent| == |corrupted| && OddlyFlipped([LEADING] + sent, [LEADING] + corrupted)
    ensures ParseResponse([LEADING] + corrupted + FrameCrc([LEADING] + sent) + [CR]) == Ok(Payload(corrupted))
  {
    sent, corrupted := OddFlipsCanPass([LEADING], lo);
    BuildThenParse(corrupted);
  }
}
