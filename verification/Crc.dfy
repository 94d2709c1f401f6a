/** The inverter's checksum: CRC-16/XMODEM, its two bytes moved up by one where they would look like
    framing. The 16-bit register is its list of bits, high bit first: `acc & 0x8000` is `acc[0]`, `acc << 1` drops
    it, and xor is addition over GF(2). */
module Crc {
  import opened Bytes
  import opened Polynomial

  type Word = w: Poly | |w| == 16 witness Zeros(16)

  /** x^16 + x^12 + x^5 + 1 */
  const GENERATOR: Poly :=
    [true, false, false, false, true, false, false, false, false, false, false, true, false, false, false, false, true]

  /** The generator without its leading term, which is what the register can hold: 0x1021. */
  const TAPS: Word := [false, false, false, true, false, false, false, false, false, false, true, false, false, false, false, true]

  /** One turn of the register. */
  function Shift(acc: Word): Word {
    if acc[0] then Add(acc[1..] + [false], TAPS) else acc[1..] + [false]
  }

  function Turn(acc: Word, turns: nat): Word
    decreases turns
  {
    if turns == 0 then acc else Turn(Shift(acc), turns - 1)
  }

  function Bit(b: bool): nat { if b then 1 else 0 }

  /** The `n` low bits of a number, high bit first, and back. */
  function BitsOf(v: nat, n: nat): (r: Poly)
    ensures |r| == n
  {
    if n == 0 then [] else BitsOf(v / 2, n - 1) + [v % 2 == 1]
  }

  function ValueOf(p: Poly): nat {
    if p == [] then 0 else 2 * ValueOf(p[..|p| - 1]) + Bit(p[|p| - 1])
  }

  function Pow2(n: nat): nat {
    if n == 0 then 1 else 2 * Pow2(n - 1)
  }

  lemma {:induction false} ValueFits(p: Poly)
    ensures ValueOf(p) < Pow2(|p|)
  {
    if p != [] { ValueFits(p[..|p| - 1]); }
  }

  lemma {:induction false} ValueOfBits(v: nat, n: nat)
    requires v < Pow2(n)
    ensures ValueOf(BitsOf(v, n)) == v
  {
    if n > 0 {
      ValueOfBits(v / 2, n - 1);
      assert BitsOf(v, n)[..n - 1] == BitsOf(v / 2, n - 1);
    }
  }

  lemma {:induction false} BitsOfValue(p: Poly)
    ensures BitsOf(ValueOf(p), |p|) == p
  {
    if p != [] { BitsOfValue(p[..|p| - 1]); }
  }

  function Bits8(b: byte): (r: Poly)
    ensures |r| == 8
  {
    BitsOf(b, 8)
  }

  function Value8(p: Poly): byte
    requires |p| == 8
  {
    ValueFits(p);
    assert Pow2(8) == 256;
    ValueOf(p)
  }

  lemma {:induction false} ByteRoundTrip(b: byte, p: Poly)
    requires |p| == 8
    ensures Value8(Bits8(b)) == b && Bits8(Value8(p)) == p
  {
    assert Pow2(8) == 256;
    ValueOfBits(b, 8);
    BitsOfValue(p);
  }

  function Absorb(crc: Word, b: byte): Word {
    Turn(Add(crc, Bits8(b) + Zeros(8)), 8)
  }

  /** The fold over bytes, from a zero register. */
  function Xmodem(data: seq<byte>): Word {
    if data == [] then Zeros(16) else Absorb(Xmodem(data[..|data| - 1]), data[|data| - 1])
  }

  function Hi(crc: Word): byte { Value8(crc[..8]) }
  function Lo(crc: Word): byte { Value8(crc[8..]) }

  function Escape(b: byte): byte {
    if b == 0x28 || b == 0x0A || b == 0x0D then b + 1 else b
  }

  /** What a frame ends with before its CR. */
  function FrameCrc(data: seq<byte>): (r: seq<byte>)
    ensures |r| == 2
  {
    var crc := Xmodem(data);
    [Escape(Hi(crc)), Escape(Lo(crc))]
  }

  // ---------------------------------------------------------------- bytes and bits

  /** The bits of a message, first byte first. */
  function Bits(data: seq<byte>): (r: Poly)
    ensures |r| == 8 * |data|
  {
    if data == [] then [] else Bits(data[..|data| - 1]) + Bits8(data[|data| - 1])
  }

  lemma {:induction false} BitsConcat(a: seq<byte>, b: seq<byte>)
    ensures Bits(a + b) == Bits(a) + Bits(b)
  {
    if b == [] {
      assert a + b == a;
    } else {
      assert (a + b)[..|a + b| - 1] == a + b[..|b| - 1];
      BitsConcat(a, b[..|b| - 1]);
    }
  }

  lemma {:induction false} SplitEqual(a: Poly, b: Poly, c: Poly, d: Poly)
    requires |a| == |b| && a + c == b + d
    ensures a == b && c == d
  {
    assert (a + c)[..|a|] == a && (b + d)[..|b|] == b;
    assert (a + c)[|a|..] == c && (b + d)[|b|..] == d;
  }

  lemma {:induction false} BitsInjective(a: seq<byte>, b: seq<byte>)
    requires |a| == |b| && Bits(a) == Bits(b)
    ensures a == b
  {
    if a != [] {
      var n := |a| - 1;
      SplitEqual(Bits(a[..n]), Bits(b[..n]), Bits8(a[n]), Bits8(b[n]));
      BitsInjective(a[..n], b[..n]);
      ByteRoundTrip(a[n], Bits8(a[n]));
      ByteRoundTrip(b[n], Bits8(b[n]));
    }
  }

  // ---------------------------------------------------------------- the register, bit by bit

  function FeedBit(crc: Word, bit: bool): Word {
    Shift([crc[0] != bit] + crc[1..])
  }

  function FeedBits(crc: Word, bits: Poly): Word
    decreases |bits|
  {
    if bits == [] then crc else FeedBits(FeedBit(crc, bits[0]), bits[1..])
  }

  lemma {:induction false} FeedConcat(crc: Word, a: Poly, b: Poly)
    ensures FeedBits(crc, a + b) == FeedBits(FeedBits(crc, a), b)
    decreases |a|
  {
    if a == [] {
      assert a + b == b;
    } else {
      assert (a + b)[1..] == a[1..] + b;
      FeedConcat(FeedBit(crc, a[0]), a[1..], b);
    }
  }

  lemma {:induction false} ShiftAt(a: Word, i: nat)
    requires i < 16
    ensures Shift(a)[i] == ((i < 15 && a[i + 1]) != (a[0] && GENERATOR[i + 1]))
  {
  }

  /** Up to sixteen bits may be added to the register at once and then turned through it. */
  lemma {:induction false} FeedIsTurn(crc: Word, v: Poly)
    requires |v| <= 16
    ensures FeedBits(crc, v) == Turn(Add(crc, v + Zeros(16 - |v|)), |v|)
    decreases |v|
  {
    var sum := Add(crc, v + Zeros(16 - |v|));
    if v == [] {
      assert sum == crc;
    } else {
      var m := [crc[0] != v[0]] + crc[1..];
      var rest := v[1..] + Zeros(17 - |v|);
      FeedIsTurn(Shift(m), v[1..]);
      forall i | 0 <= i < 16 ensures Shift(sum)[i] == Add(Shift(m), rest)[i] {
        ShiftAt(sum, i);
        ShiftAt(m, i);
      }
      assert Shift(sum) == Add(Shift(m), rest);
    }
  }

  /** The bytewise fold is the bitwise one. */
  lemma {:induction false} XmodemIsFeed(data: seq<byte>)
    ensures Xmodem(data) == FeedBits(Zeros(16), Bits(data))
  {
    if data != [] {
      var init, last := data[..|data| - 1], data[|data| - 1];
      XmodemIsFeed(init);
      FeedConcat(Zeros(16), Bits(init), Bits8(last));
      FeedIsTurn(Xmodem(init), Bits8(last));
    }
  }

  // ---------------------------------------------------------------- the remainder

  /** The dividend a register and the bits still to come stand for. */
  function Dividend(crc: Word, bits: Poly): Poly {
    Add(bits + Zeros(16), crc + Zeros(|bits|))
  }

  /** One turn of the register is one step of long division. */
  lemma {:induction false} FeedDivides(crc: Word, bits: Poly)
    requires bits != []
    ensures var d := Dividend(crc, bits);
            Reduce(d, d[0], GENERATOR) == Dividend(FeedBit(crc, bits[0]), bits[1..])
  {
    var d := Dividend(crc, bits);
    var e := Dividend(FeedBit(crc, bits[0]), bits[1..]);
    var m := [crc[0] != bits[0]] + crc[1..];
    forall i | 0 <= i < |e| ensures Reduce(d, d[0], GENERATOR)[i] == e[i] {
      if i < 16 { ShiftAt(m, i); }
      assert (bits + Zeros(16))[i + 1] == (bits[1..] + Zeros(16))[i];
    }
  }

  lemma {:induction false} FeedLeaves(crc: Word, bits: Poly)
    ensures Remainder(Dividend(crc, bits), GENERATOR, FeedBits(crc, bits))
    decreases |bits|
  {
    var d := Dividend(crc, bits);
    if bits == [] {
      assert d == Add(Times([], GENERATOR), Zeros(0) + crc);
      assert Leaves(d, [], GENERATOR, crc);
    } else {
      var next := FeedBit(crc, bits[0]);
      FeedLeaves(next, bits[1..]);
      FeedDivides(crc, bits);
      var r := FeedBits(crc, bits);
      var q :| Leaves(Dividend(next, bits[1..]), q, GENERATOR, r);
      Restore(d, q, GENERATOR, r);
      assert Leaves(d, [d[0]] + q, GENERATOR, r);
    }
  }

  /** The checksum of a message is the remainder of message * x^16 by the generator, and nothing else is. */
  lemma {:induction false} XmodemIsRemainder(data: seq<byte>, r: Word)
    ensures Remainder(Bits(data) + Zeros(16), GENERATOR, r) <==> r == Xmodem(data)
  {
    XmodemIsFeed(data);
    FeedLeaves(Zeros(16), Bits(data));
    var d := Bits(data) + Zeros(16);
    assert d == Dividend(Zeros(16), Bits(data));
    if Remainder(d, GENERATOR, r) {
      RemainderIsUnique(d, GENERATOR, r, Xmodem(data));
    }
  }

  // ---------------------------------------------------------------- what the checksum detects

  /** The register never forgets: a turn can be undone. */
  lemma {:induction false} ShiftInjective(a: Word, b: Word)
    requires Shift(a) == Shift(b)
    ensures a == b
  {
    ShiftAt(a, 15);
    ShiftAt(b, 15);
    forall i | 0 <= i < 16 ensures a[i] == b[i] {
      if i > 0 {
        ShiftAt(a, i - 1);
        ShiftAt(b, i - 1);
      }
    }
  }

  lemma {:induction false} TurnInjective(a: Word, b: Word, n: nat)
    requires Turn(a, n) == Turn(b, n)
    ensures a == b
    decreases n
  {
    if n > 0 {
      TurnInjective(Shift(a), Shift(b), n - 1);
      ShiftInjective(a, b);
    }
  }

  lemma {:induction false} FeedInjective(a: Word, b: Word, bits: Poly)
    requires FeedBits(a, bits) == FeedBits(b, bits)
    ensures a == b
    decreases |bits|
  {
    if bits != [] {
      FeedInjective(FeedBit(a, bits[0]), FeedBit(b, bits[0]), bits[1..]);
      var m, n := [a[0] != bits[0]] + a[1..], [b[0] != bits[0]] + b[1..];
      ShiftInjective(m, n);
      forall i | 0 <= i < 16 ensures a[i] == b[i] { assert m[i] == n[i]; }
    }
  }

  /** Any change confined to sixteen consecutive bits, wherever they start, changes the register. */
  lemma {:induction false} BurstDetected(before: Poly, v: Poly, w: Poly, after: Poly)
    requires |v| == |w| <= 16 && v != w
    ensures FeedBits(Zeros(16), before + v + after) != FeedBits(Zeros(16), before + w + after)
  {
    var z := Zeros(16);
    var c := FeedBits(z, before);
    FeedConcat(z, before + v, after);
    FeedConcat(z, before + w, after);
    FeedConcat(z, before, v);
    FeedConcat(z, before, w);
    FeedIsTurn(c, v);
    FeedIsTurn(c, w);
    if FeedBits(z, before + v + after) == FeedBits(z, before + w + after) {
      FeedInjective(FeedBits(c, v), FeedBits(c, w), after);
      var x, y := v + Zeros(16 - |v|), w + Zeros(16 - |w|);
      TurnInjective(Add(c, x), Add(c, y), |v|);
      forall i | 0 <= i < |v| ensures v[i] == w[i] {
        assert Add(c, x)[i] == Add(c, y)[i];
        assert x[i] == v[i] && y[i] == w[i];
      }
      assert false;
    }
  }

  /** So two messages that differ only within sixteen consecutive bits have different checksums. */
  lemma {:induction false} XmodemBurst(a: seq<byte>, b: seq<byte>, before: Poly, v: Poly, w: Poly, after: Poly)
    requires Bits(a) == before + v + after && Bits(b) == before + w + after
    requires |v| == |w| <= 16 && a != b
    ensures Xmodem(a) != Xmodem(b)
  {
    XmodemIsFeed(a);
    XmodemIsFeed(b);
    if v == w { BitsInjective(a, b); }
    BurstDetected(before, v, w, after);
  }

  /** In particular any change of one byte, or of two adjacent ones. */
  lemma {:induction false} TwoBytesDetected(before: seq<byte>, x: seq<byte>, y: seq<byte>, after: seq<byte>)
    requires |x| == |y| <= 2 && x != y
    ensures Xmodem(before + x + after) != Xmodem(before + y + after)
  {
    XmodemIsFeed(before + x + after);
    XmodemIsFeed(before + y + after);
    BitsConcat(before + x, after);
    BitsConcat(before + y, after);
    BitsConcat(before, x);
    BitsConcat(before, y);
    if Bits(x) == Bits(y) { BitsInjective(x, y); }
    BurstDetected(Bits(before), Bits(x), Bits(y), Bits(after));
  }

  /** The checksum has the parity of the message, because the generator has four terms. */
  lemma {:induction false} XmodemParity(data: seq<byte>)
    ensures Parity(Xmodem(data)) == Parity(Bits(data))
  {
    XmodemIsRemainder(data, Xmodem(data));
    GeneratorIsEven();
    RemainderParity(Bits(data) + Zeros(16), GENERATOR, Xmodem(data));
    ParityConcat(Bits(data), Zeros(16));
    ParityZeros(16);
  }

  lemma {:induction false} GeneratorIsEven()
    ensures !Parity(GENERATOR)
  {
    assert GENERATOR == [true] + Zeros(3) + [true] + Zeros(6) + [true] + Zeros(4) + [true];
    ParityConcat([true] + Zeros(3) + [true] + Zeros(6) + [true] + Zeros(4), [true]);
    ParityConcat([true] + Zeros(3) + [true] + Zeros(6) + [true], Zeros(4));
    ParityConcat([true] + Zeros(3) + [true] + Zeros(6), [true]);
    ParityConcat([true] + Zeros(3) + [true], Zeros(6));
    ParityConcat([true] + Zeros(3), [true]);
    ParityConcat([true], Zeros(3));
    ParityZeros(3);
    ParityZeros(4);
    ParityZeros(6);
  }

  /** Whether an odd number of bits differ. */
  predicate OddlyFlipped(a: seq<byte>, b: seq<byte>)
    requires |a| == |b|
  {
    Parity(Add(Bits(a), Bits(b)))
  }

  lemma {:induction false} OddFlipsDetected(a: seq<byte>, b: seq<byte>)
    requires |a| == |b| && OddlyFlipped(a, b)
    ensures Parity(Add(Xmodem(a), Xmodem(b))) && Xmodem(a) != Xmodem(b)
  {
    XmodemParity(a);
    XmodemParity(b);
    ParityAdd(Bits(a), Bits(b));
    ParityAdd(Xmodem(a), Xmodem(b));
  }

  lemma {:induction false} ShiftLinear(a: Word, b: Word)
    ensures Shift(Add(a, b)) == Add(Shift(a), Shift(b))
  {
    forall i | 0 <= i < 16 ensures Shift(Add(a, b))[i] == Add(Shift(a), Shift(b))[i] {
      ShiftAt(a, i);
      ShiftAt(b, i);
      ShiftAt(Add(a, b), i);
    }
  }

  lemma {:induction false} FeedLinear(a: Word, b: Word, p: Poly, q: Poly)
    requires |p| == |q|
    ensures FeedBits(Add(a, b), Add(p, q)) == Add(FeedBits(a, p), FeedBits(b, q))
    decreases |p|
  {
    if p != [] {
      var m, n := [a[0] != p[0]] + a[1..], [b[0] != q[0]] + b[1..];
      var s := Add(a, b);
      assert [s[0] != Add(p, q)[0]] + s[1..] == Add(m, n);
      ShiftLinear(m, n);
      assert Add(p, q)[1..] == Add(p[1..], q[1..]);
      FeedLinear(Shift(m), Shift(n), p[1..], q[1..]);
    }
  }

  /** The checksum of an xor of equal-length messages is the xor of their checksums. */
  lemma {:induction false} XmodemLinear(a: seq<byte>, b: seq<byte>, c: seq<byte>)
    requires |a| == |b| == |c| && Bits(c) == Add(Bits(a), Bits(b))
    ensures Xmodem(c) == Add(Xmodem(a), Xmodem(b))
  {
    XmodemIsFeed(a);
    XmodemIsFeed(b);
    XmodemIsFeed(c);
    assert Add(Zeros(16), Zeros(16)) == Zeros(16);
    FeedLinear(Zeros(16), Zeros(16), Bits(a), Bits(b));
  }

  lemma {:induction false} TurnZero(n: nat)
    ensures Turn(Zeros(16), n) == Zeros(16)
  {
    if n > 0 {
      assert Shift(Zeros(16)) == Zeros(16);
      TurnZero(n - 1);
    }
  }

  /** A message followed by its own two checksum bytes has checksum zero. */
  lemma {:induction false} OwnChecksumGivesZero(data: seq<byte>)
    ensures Xmodem(data + [Hi(Xmodem(data)), Lo(Xmodem(data))]) == Zeros(16)
  {
    var c := Xmodem(data);
    var tail := [Hi(c), Lo(c)];
    XmodemIsFeed(data);
    XmodemIsFeed(data + tail);
    BitsConcat(data, tail);
    FeedConcat(Zeros(16), Bits(data), Bits(tail));
    TailBits(c);
    FeedIsTurn(c, c);
    assert Add(c, c + Zeros(0)) == Zeros(16);
    TurnZero(16);
  }

  lemma {:induction false} TailBits(c: Word)
    ensures Bits([Hi(c), Lo(c)]) == c
  {
    var tail := [Hi(c), Lo(c)];
    ByteRoundTrip(0, c[..8]);
    ByteRoundTrip(0, c[8..]);
    assert tail[..1] == [Hi(c)] && [Hi(c)][..0] == [];
    assert Bits(tail[..1]) == [] + Bits8(Hi(c)) == c[..8];
    assert c == c[..8] + c[8..];
  }

  lemma {:induction false} TapsAreThePolynomial()
    ensures ValueOf(TAPS) == 0x1021 && GENERATOR == [true] + TAPS
  {
    assert TAPS == Zeros(3) + [true] + Zeros(6) + [true] + Zeros(4) + [true];
    ValueOfZerosThenOne(Zeros(3), 0);
    ValueOfZerosThenOne(Zeros(3) + [true], 6);
    ValueOfZerosThenOne(Zeros(3) + [true] + Zeros(6) + [true], 4);
    ValueOfZeros(3);
    assert Zeros(3) + Zeros(0) + [true] == Zeros(3) + [true];
    assert Pow2(7) == 128 && Pow2(5) == 32;
  }

  lemma {:induction false} ValueOfZeros(n: nat)
    ensures ValueOf(Zeros(n)) == 0
  {
    if n > 0 {
      assert Zeros(n)[..n - 1] == Zeros(n - 1);
      ValueOfZeros(n - 1);
    }
  }

  lemma {:induction false} ValueOfZerosThenOne(p: Poly, n: nat)
    ensures ValueOf(p + Zeros(n) + [true]) == Pow2(n + 1) * ValueOf(p) + 1
  {
    assert (p + Zeros(n) + [true])[..|p| + n] == p + Zeros(n);
    ValueShifted(p, n);
    assert Pow2(n + 1) * ValueOf(p) == 2 * (Pow2(n) * ValueOf(p));
  }

  lemma {:induction false} ValueShifted(p: Poly, n: nat)
    ensures ValueOf(p + Zeros(n)) == Pow2(n) * ValueOf(p)
  {
    if n == 0 {
      assert p + Zeros(0) == p;
    } else {
      assert (p + Zeros(n))[..|p| + n - 1] == p + Zeros(n - 1);
      ValueShifted(p, n - 1);
      assert Pow2(n) * ValueOf(p) == 2 * (Pow2(n - 1) * ValueOf(p));
    }
  }
}
