/** Two frames of printable bytes, an odd number of bits apart, that carry the same checksum bytes. */
module Collision {
  import opened Bytes
  import opened Polynomial
  import opened Crc
  import opened Protocol
  import opened Words

  const SENT: seq<byte> := ['@' as byte, 'F' as byte]
  const CORRUPTED: seq<byte> := ['c' as byte, 'R' as byte]

  // ---------------------------------------------------------------- bytes as machine words

  /** The top `n` bits of a word are the number `v`. */
  predicate Reads(a: bv16, v: nat, n: nat)
    decreases n, v, a
  {
    n == 0 || (Top(Lefts(a, n - 1)) == (v % 2 == 1) && Reads(a, v / 2, n - 1))
  }

  lemma {:induction false} ReadsBits(a: bv16, v: nat, n: nat)
    requires Reads(a, v, n)
    ensures Spread(a, n) == BitsOf(v, n)
    decreases n
  {
    if n > 0 {
      ReadsBits(a, v / 2, n - 1);
      SpreadOneMore(a, n - 1);
    }
  }

  lemma {:induction false} SpreadJoin(a: bv16, m: nat, n: nat)
    ensures Spread(a, m + n) == Spread(a, m) + Spread(Lefts(a, m), n)
    decreases m
  {
    if m > 0 { SpreadJoin(Left(a), m - 1, n); }
  }

  lemma {:induction false} TwoHalves(a: bv16, low: bv16, hi: byte, lo: byte)
    requires Reads(a, hi, 8) && Lefts(a, 8) == low && Reads(low, lo, 8)
    ensures Bits16(a) == Word16(hi, lo)
  {
    SpreadJoin(a, 8, 8);
    ReadsBits(a, hi, 8);
    ReadsBits(low, lo, 8);
  }

  /** What has to be worked out for one byte more: `next` is the byte in the high half of a word. */
  ghost predicate Absorbs(x: bv16, b: byte, next: bv16, mixed: bv16, r: bv16) {
    Reads(next, b, 8) && Lefts(next, 8) == 0 && x ^ next == mixed && Turned(mixed, 8) == r
  }

  lemma {:induction false} HighByte(next: bv16, b: byte)
    requires Reads(next, b, 8) && Lefts(next, 8) == 0
    ensures Bits16(next) == Bits8(b) + Zeros(8)
  {
    SpreadJoin(next, 8, 8);
    ReadsBits(next, b, 8);
    SpreadZero(8);
  }

  lemma {:induction false} SumOf(data: seq<byte>, b: byte)
    ensures Xmodem(data + [b]) == Turn(Add(Xmodem(data), Bits8(b) + Zeros(8)), 8)
  {
    var all := data + [b];
    assert all[..|all| - 1] == data && all[|all| - 1] == b;
  }

  lemma {:induction false} TurnedMix(x: bv16, next: bv16, mixed: bv16, u: Word, w: Word, n: nat)
    requires u == Bits16(x) && w == Bits16(next) && x ^ next == mixed
    ensures Bits16(Turned(mixed, n)) == Turn(Add(u, w), n)
  {
    XorWord(x, next, u, w);
    TurnedIsTurn(mixed, Add(u, w), n);
  }

  lemma {:induction false} OneMore(data: seq<byte>, b: byte, x: bv16, next: bv16, mixed: bv16, r: bv16)
    requires Xmodem(data) == Bits16(x) && Absorbs(x, b, next, mixed, r)
    ensures Xmodem(data + [b]) == Bits16(r)
  {
    HighByte(next, b);
    SumOf(data, b);
    TurnedMix(x, next, mixed, Xmodem(data), Bits8(b) + Zeros(8), 8);
  }

  // ---------------------------------------------------------------- the two checksums

  lemma {:induction false} Leading()
    ensures Absorbs(0x0000, 0x28, 0x2800, 0x2800, 0xA56A)
  {
  }

  lemma {:induction false} At()
    ensures Absorbs(0xA56A, 0x40, 0x4000, 0xE56A, 0xC78B)
  {
  }

  lemma {:induction false} LetterF()
    ensures Absorbs(0xC78B, 0x46, 0x4600, 0x818B, 0x0AA9)
  {
  }

  lemma {:induction false} LetterC()
    ensures Absorbs(0xA56A, 0x63, 0x6300, 0xC66A, 0xD38A)
  {
  }

  lemma {:induction false} LetterR()
    ensures Absorbs(0xD38A, 0x52, 0x5200, 0x818A, 0x0BA9)
  {
  }

  lemma {:induction false} AfterLeading(data: seq<byte>)
    requires Xmodem(data) == Bits16(0x0000)
    ensures Xmodem(data + [0x28]) == Bits16(0xA56A)
  {
    Leading();
    OneMore(data, 0x28, 0x0000, 0x2800, 0x2800, 0xA56A);
  }

  lemma {:induction false} AfterAt(data: seq<byte>)
    requires Xmodem(data) == Bits16(0xA56A)
    ensures Xmodem(data + [0x40]) == Bits16(0xC78B)
  {
    At();
    OneMore(data, 0x40, 0xA56A, 0x4000, 0xE56A, 0xC78B);
  }

  lemma {:induction false} AfterLetterF(data: seq<byte>)
    requires Xmodem(data) == Bits16(0xC78B)
    ensures Xmodem(data + [0x46]) == Bits16(0x0AA9)
  {
    LetterF();
    OneMore(data, 0x46, 0xC78B, 0x4600, 0x818B, 0x0AA9);
  }

  lemma {:induction false} AfterLetterC(data: seq<byte>)
    requires Xmodem(data) == Bits16(0xA56A)
    ensures Xmodem(data + [0x63]) == Bits16(0xD38A)
  {
    LetterC();
    OneMore(data, 0x63, 0xA56A, 0x6300, 0xC66A, 0xD38A);
  }

  lemma {:induction false} AfterLetterR(data: seq<byte>)
    requires Xmodem(data) == Bits16(0xD38A)
    ensures Xmodem(data + [0x52]) == Bits16(0x0BA9)
  {
    LetterR();
    OneMore(data, 0x52, 0xD38A, 0x5200, 0x818A, 0x0BA9);
  }

  lemma {:induction false} SentSum()
    ensures Xmodem([LEADING] + SENT) == Bits16(0x0AA9)
  {
    SpreadZero(16);
    AfterLeading([]);
    AfterAt([] + [0x28]);
    AfterLetterF([] + [0x28] + [0x40]);
    assert [LEADING] + SENT == [] + [0x28] + [0x40] + [0x46];
  }

  lemma {:induction false} CorruptedSum()
    ensures Xmodem([LEADING] + CORRUPTED) == Bits16(0x0BA9)
  {
    SpreadZero(16);
    AfterLeading([]);
    AfterLetterC([] + [0x28]);
    AfterLetterR([] + [0x28] + [0x63]);
    assert [LEADING] + CORRUPTED == [] + [0x28] + [0x63] + [0x52];
  }

  lemma {:induction false} LowHalf()
    ensures Reads(0xA900, 0xA9, 8)
  {
  }

  lemma {:induction false} SentHigh()
    ensures Reads(0x0AA9, 0x0A, 8) && Lefts(0x0AA9, 8) == 0xA900
  {
  }

  lemma {:induction false} CorruptedHigh()
    ensures Reads(0x0BA9, 0x0B, 8) && Lefts(0x0BA9, 8) == 0xA900
  {
  }

  // ---------------------------------------------------------------- and so the two frames

  lemma {:induction false} NoReturn()
    ensures CR !in SENT && CR !in CORRUPTED
    ensures Meaning(CORRUPTED) == Payload(CORRUPTED)
  {
  }

  lemma {:induction false} AcceptedAs(sent: seq<byte>, corrupted: seq<byte>)
    requires FrameCrc([LEADING] + sent) == FrameCrc([LEADING] + corrupted)
    ensures BuildResponse(corrupted) == [LEADING] + corrupted + FrameCrc([LEADING] + sent) + [CR]
    ensures ParseResponse(BuildResponse(corrupted)) == Ok(Meaning(corrupted))
  {
    BuildThenParse(corrupted);
  }

  /** An odd number of flips turns one frame of printable bytes into another that the parser accepts, and
      that the reader hands on: neither payload has a carriage return. */
  lemma {:induction false} OddFlipsGoThrough()
    ensures CR !in SENT && CR !in CORRUPTED && OddlyFlipped([LEADING] + SENT, [LEADING] + CORRUPTED)
    ensures BuildResponse(CORRUPTED) == [LEADING] + CORRUPTED + FrameCrc([LEADING] + SENT) + [CR]
    ensures ParseResponse(BuildResponse(CORRUPTED)) == Ok(Payload(CORRUPTED))
  {
    SentSum();
    CorruptedSum();
    LowHalf();
    SentHigh();
    CorruptedHigh();
    TwoHalves(0x0AA9, 0xA900, 0x0A, 0xA9);
    TwoHalves(0x0BA9, 0xA900, 0x0B, 0xA9);
    AliasedPair([LEADING] + SENT, [LEADING] + CORRUPTED, 0x0A, 0xA9);
    AcceptedAs(SENT, CORRUPTED);
    NoReturn();
  }
}
