/** The register as a 16-bit machine word, so that checksums of given bytes can be worked out. */
module Words {
  import opened Bytes
  import opened Polynomial
  import opened Crc

  predicate Top(a: bv16) { a & 0x8000 != 0 }

  function Left(a: bv16): bv16 { a << 1 }

  function Next(acc: bv16): bv16 {
    if Top(acc) then (acc << 1) ^ 0x1021 else acc << 1
  }

  function Turned(acc: bv16, turns: nat): bv16
    decreases turns, acc
  {
    if turns == 0 then acc else Turned(Next(acc), turns - 1)
  }

  function Lefts(a: bv16, n: nat): bv16
    decreases n, a
  {
    if n == 0 then a else Lefts(Left(a), n - 1)
  }

  /** The top `n` bits. */
  function Spread(a: bv16, n: nat): (r: Poly)
    ensures |r| == n
    decreases n, a
  {
    if n == 0 then [] else [Top(a)] + Spread(Left(a), n - 1)
  }

  function Bits16(a: bv16): Word {
    Spread(a, 16)
  }

  lemma {:induction false} XorBit(a: bv16, b: bv16)
    ensures (Top(a ^ b) <==> (Top(a) != Top(b))) && Left(a ^ b) == Left(a) ^ Left(b)
  {
  }

  lemma {:induction false} AddFront(p: bool, q: bool, a: Poly, b: Poly)
    requires |a| == |b|
    ensures Add([p] + a, [q] + b) == [p != q] + Add(a, b)
  {
  }

  lemma {:induction false} XorIsAdd(a: bv16, b: bv16, n: nat)
    ensures Spread(a ^ b, n) == Add(Spread(a, n), Spread(b, n))
    decreases n
  {
    if n > 0 {
      XorBit(a, b);
      XorIsAdd(Left(a), Left(b), n - 1);
      AddFront(Top(a), Top(b), Spread(Left(a), n - 1), Spread(Left(b), n - 1));
    }
  }

  lemma {:induction false} XorWord(a: bv16, b: bv16, u: Word, w: Word)
    requires u == Bits16(a) && w == Bits16(b)
    ensures Bits16(a ^ b) == Add(u, w)
  {
    XorIsAdd(a, b, 16);
  }

  lemma {:induction false} SpreadZero(n: nat)
    ensures Spread(0, n) == Zeros(n)
  {
    if n > 0 { SpreadZero(n - 1); }
  }

  lemma {:induction false} SpreadOneMore(a: bv16, n: nat)
    ensures Spread(a, n + 1) == Spread(a, n) + [Top(Lefts(a, n))]
    decreases n
  {
    if n > 0 { SpreadOneMore(Left(a), n - 1); }
  }

  lemma {:induction false} LeftsSplit(a: bv16, m: nat, n: nat)
    ensures Lefts(a, m + n) == Lefts(Lefts(a, m), n)
    decreases m
  {
    if m > 0 { LeftsSplit(Left(a), m - 1, n); }
  }

  lemma {:induction false} TwoLefts(a: bv16)
    ensures Lefts(a, 2) == Left(Left(a))
  {
    LeftsSplit(a, 1, 1);
  }

  lemma {:induction false} FourShifts(a: bv16)
    ensures Left(Left(Left(Left(a)))) == a << 4
  {
  }

  lemma {:induction false} FourLefts(a: bv16)
    ensures Lefts(a, 4) == a << 4
  {
    LeftsSplit(a, 2, 2);
    TwoLefts(a);
    TwoLefts(Left(Left(a)));
    FourShifts(a);
  }

  lemma {:induction false} AllShiftedOut(a: bv16)
    ensures Lefts(a, 16) == 0
  {
    LeftsSplit(a, 4, 12);
    LeftsSplit(a << 4, 4, 8);
    LeftsSplit(a << 4 << 4, 4, 4);
    FourLefts(a);
    FourLefts(a << 4);
    FourLefts(a << 4 << 4);
    FourLefts(a << 4 << 4 << 4);
  }

  lemma {:induction false} LeftDropsTop(a: bv16)
    ensures Bits16(Left(a)) == Bits16(a)[1..] + [false]
  {
    SpreadOneMore(Left(a), 15);
    AllShiftedOut(a);
    LeftsOneMore(a, 15);
  }

  lemma {:induction false} LeftsOneMore(a: bv16, n: nat)
    ensures Lefts(a, n + 1) == Lefts(Left(a), n)
  {
  }

  lemma {:induction false} SpreadTwo(a: bv16, n: nat)
    ensures Spread(a, n + 2) == [Top(a), Top(Left(a))] + Spread(Left(Left(a)), n)
  {
    var b := Left(a);
    assert Spread(b, n + 1) == [Top(b)] + Spread(Left(b), n);
    assert Spread(a, n + 2) == [Top(a)] + Spread(b, n + 1);
  }

  lemma {:induction false} TapsWord()
    ensures Bits16(0x1021) == TAPS
  {
    SpreadTwo(0x1021, 14);
    SpreadTwo(0x4084, 12);
    SpreadTwo(0x0210, 10);
    SpreadTwo(0x0840, 8);
    SpreadTwo(0x2100, 6);
    SpreadTwo(0x8400, 4);
    SpreadTwo(0x1000, 2);
    SpreadTwo(0x4000, 0);
  }

  lemma {:induction false} TopIsFirst(a: bv16)
    ensures Bits16(a)[0] == Top(a)
  {
  }

  /** A turn of the word is a turn of the register. */
  lemma {:induction false} NextIsShift(acc: bv16, w: Word)
    requires w == Bits16(acc)
    ensures Bits16(Next(acc)) == Shift(w)
  {
    TopIsFirst(acc);
    LeftDropsTop(acc);
    if Top(acc) {
      TapsWord();
      XorWord(Left(acc), 0x1021, w[1..] + [false], TAPS);
    }
  }

  lemma {:induction false} TurnedIsTurn(acc: bv16, w: Word, turns: nat)
    requires w == Bits16(acc)
    ensures Bits16(Turned(acc, turns)) == Turn(w, turns)
    decreases turns
  {
    if turns > 0 {
      NextIsShift(acc, w);
      TurnedIsTurn(Next(acc), Shift(w), turns - 1);
    }
  }
}
