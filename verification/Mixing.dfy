/** The draw leaves no operator out: the mixing of a seed is undone step by step, so it reaches every
    64-bit word, and every entry of a pool comes first for some seed. */
module Mixing {
  import opened Wire
  import opened Quorum

  // ---------------------------------------------------------------- exclusive or on numbers

  lemma {:induction false} XorHalves(a: nat, b: nat)
    ensures Xor(a, b) / 2 == Xor(a / 2, b / 2) && Xor(a, b) % 2 == (a % 2 + b % 2) % 2
  {
  }

  lemma {:induction false} XorSelf(a: nat)
    ensures Xor(a, a) == 0
  {
    if a > 0 { XorSelf(a / 2); }
  }

  lemma {:induction false} SameHalves(x: nat, y: nat)
    requires x / 2 == y / 2 && x % 2 == y % 2
    ensures x == y
  {
  }

  lemma {:induction false} ParityAssociates(a: nat, b: nat, c: nat)
    ensures ((a + b) % 2 + c) % 2 == (a + (b + c) % 2) % 2
  {
  }

  lemma {:induction false} SameFold(l: nat, r: nat, half: nat, x: nat, y: nat, z: nat)
    requires l / 2 == half == r / 2 && l % 2 == ((x + y) % 2 + z) % 2 && r % 2 == (x + (y + z) % 2) % 2
    ensures l == r
  {
    ParityAssociates(x, y, z);
    SameHalves(l, r);
  }

  /** Two folds of three numbers are the same if those of their halves are; `ab` and `bc` fold two. */
  lemma {:induction false} FoldHalves(a: nat, b: nat, c: nat, ab: nat, bc: nat, half: nat)
    requires ab % 2 == (a % 2 + b % 2) % 2 && bc % 2 == (b % 2 + c % 2) % 2
    requires Xor(ab / 2, c / 2) == half == Xor(a / 2, bc / 2)
    ensures Xor(ab, c) == Xor(a, bc)
  {
    XorHalves(ab, c);
    XorHalves(a, bc);
    SameFold(Xor(ab, c), Xor(a, bc), half, a % 2, b % 2, c % 2);
  }

  lemma {:induction false} XorAssociates(a: nat, b: nat, c: nat)
    ensures Xor(Xor(a, b), c) == Xor(a, Xor(b, c))
    decreases a + b + c
  {
    if a > 0 && b > 0 && c > 0 {
      XorAssociates(a / 2, b / 2, c / 2);
      XorHalves(a, b);
      XorHalves(b, c);
      FoldHalves(a, b, c, Xor(a, b), Xor(b, c), Xor(a / 2, Xor(b / 2, c / 2)));
    }
  }

  lemma {:induction false} XorTwice(a: nat, b: nat)
    ensures Xor(Xor(a, b), b) == a
  {
    XorAssociates(a, b, b);
    XorSelf(b);
  }

  // ---------------------------------------------------------------- shifts

  ghost predicate SplitsFor(d: nat, a: nat, b: nat)
    requires d > 0
  {
    Xor(a, b) / d == Xor(a / d, b / d)
  }

  /** A shift to the right by which exclusive or can be taken apart. */
  ghost predicate Splits(d: nat) {
    d > 0 && forall a: nat, b: nat :: SplitsFor(d, a, b)
  }

  lemma {:induction false} OneTimesMore(k: nat, d: nat)
    ensures (k + 1) * d == k * d + d
  {
  }

  lemma {:induction false} Gap(d: nat, k: nat, q: nat)
    requires k < q
    ensures k * d + d <= q * d
    decreases q
  {
    OneTimesMore(q - 1, d);
    if k < q - 1 { Gap(d, k, q - 1); }
  }

  lemma {:induction false} OneQuotient(d: nat, k: nat, s: nat, q: nat, r: nat)
    requires k * d + s == q * d + r && s < d && r < d
    ensures k == q
  {
    if k < q { Gap(d, k, q); }
    if q < k { Gap(d, q, k); }
  }

  lemma {:induction false} QuotientIs(x: nat, d: nat, q: nat, r: nat)
    requires r < d && x == q * d + r
    ensures x / d == q
  {
    OneQuotient(d, x / d, x % d, q, r);
  }

  lemma {:induction false} Rebracket(k: nat, e: nat, s: nat, d: nat)
    ensures (k * e + s) * d == k * (d * e) + s * d
  {
    assert k * e * d == k * (d * e);
  }

  lemma {:induction false} QuotientParts(x: nat, d: nat, e: nat, k: nat, s: nat, r: nat)
    requires s < e && r < d && x == (k * e + s) * d + r
    ensures d * e > 0 && x / (d * e) == k
  {
    Gap(d, s, e);
    Rebracket(k, e, s, d);
    QuotientIs(x, d * e, k, s * d + r);
  }

  lemma {:induction false} DivideTwice(x: nat, d: nat, e: nat)
    requires d > 0 && e > 0
    ensures d * e > 0 && x / (d * e) == x / d / e
  {
    var q, r := x / d, x % d;
    var k, s := q / e, q % e;
    QuotientParts(x, d, e, k, s, r);
  }

  lemma {:induction false} SplitAt(d: nat, a: nat, b: nat)
    requires Splits(d)
    ensures Xor(a, b) / d == Xor(a / d, b / d)
  {
    assert SplitsFor(d, a, b);
  }

  lemma {:induction false} DividedBy(x: nat, d: nat, e: nat, de: nat)
    requires d > 0 && e > 0 && de == d * e
    ensures de > 0 && x / de == x / d / e
  {
    DivideTwice(x, d, e);
  }

  lemma {:induction false} SplitTwice(d: nat, e: nat, de: nat, a: nat, b: nat, x: nat, p: nat, q: nat, y: nat)
    requires d > 0 && e > 0 && de == d * e
    requires x == Xor(a, b) && p == a / d && q == b / d && x / d == y && y / e == Xor(p / e, q / e)
    ensures de > 0 && SplitsFor(de, a, b)
  {
    DividedBy(x, d, e, de);
    DividedBy(a, d, e, de);
    DividedBy(b, d, e, de);
  }

  lemma {:induction false} SplitStep(d: nat, e: nat, de: nat, a: nat, b: nat, x: nat, p: nat, q: nat)
    requires Splits(d) && Splits(e) && de == d * e > 0
    requires x == Xor(a, b) && p == a / d && q == b / d
    ensures SplitsFor(de, a, b)
  {
    SplitAt(d, a, b);
    var y := x / d;
    SplitAt(e, p, q);
    SplitTwice(d, e, de, a, b, x, p, q, y);
  }

  lemma {:induction false} SplitsBoth(d: nat, e: nat, de: nat)
    requires Splits(d) && Splits(e) && de == d * e
    ensures Splits(de)
  {
    DividedBy(0, d, e, de);
    forall a: nat, b: nat ensures SplitsFor(de, a, b) {
      SplitStep(d, e, de, a, b, Xor(a, b), a / d, b / d);
    }
  }

  lemma {:induction false} ShiftsSplit()
    ensures Splits(0x4000_0000) && Splits(0x800_0000) && Splits(0x8000_0000) && Splits(TWO64)
  {
    forall a: nat, b: nat ensures SplitsFor(2, a, b) { XorHalves(a, b); }
    assert Splits(2);
    SplitsBoth(2, 2, 4);
    SplitsBoth(2, 4, 8);
    SplitsBoth(8, 8, 0x40);
    SplitsBoth(8, 0x40, 0x200);
    SplitsBoth(0x200, 0x200, 0x4_0000);
    SplitsBoth(0x4_0000, 0x200, 0x800_0000);
    SplitsBoth(0x800_0000, 8, 0x4000_0000);
    SplitsBoth(0x4000_0000, 2, 0x8000_0000);
    SplitsBoth(0x8000_0000, 2, 0x1_0000_0000);
    SplitsBoth(0x1_0000_0000, 0x1_0000_0000, TWO64);
  }

  lemma {:induction false} NothingAbove(x: nat, d: nat)
    requires d > 0
    ensures x < d <==> x / d == 0
  {
  }

  lemma {:induction false} XorStaysBelow(a: nat, b: nat, w: nat)
    requires Splits(w) && a < w && b < w
    ensures Xor(a, b) < w
  {
    SplitAt(w, a, b);
    NothingAbove(a, w);
    NothingAbove(b, w);
    NothingAbove(Xor(a, b), w);
  }

  lemma {:induction false} AtLeast(k: nat, d: nat)
    requires d > 0
    ensures k * d >= k
  {
    assert k * (d - 1) >= 0;
  }

  lemma {:induction false} QuotientBelow(y: nat, d: nat, w: nat)
    requires d > 0 && y < w
    ensures y / d < w
  {
    AtLeast(y / d, d);
  }

  lemma {:induction false} ShiftedOut(y: nat, d: nat)
    requires d > 0 && y < d * d * d
    ensures y / d / d / d == 0
  {
    DivideTwice(y, d, d);
    DivideTwice(y, d * d, d);
    QuotientIs(y, d * d * d, 0, y);
  }

  lemma {:induction false} FoldedPart(d: nat, p: nat, q: nat)
    requires Splits(d) && q == p / d && q / d == 0
    ensures Xor(p, q) / d == q
  {
    SplitAt(d, p, q);
  }

  lemma {:induction false} FoldsBack(d: nat, y: nat, p: nat, q: nat, folded: nat, x: nat, over: nat)
    requires d > 0 && p == y / d && q == p / d && q / d == 0 && Splits(d)
    requires folded == Xor(p, q) && x == Xor(y, folded) && over == x / d
    ensures Xor(x, over) == y
  {
    FoldedPart(d, p, q);
    SplitAt(d, y, folded);
    XorTwice(y, folded);
  }

  lemma {:induction false} ShiftsFit(y: nat, d: nat, w: nat, p: nat, q: nat)
    requires d > 0 && y < w <= d * d * d && p == y / d && q == p / d
    ensures p < w && q < w && q / d == 0
  {
    ShiftedOut(y, d);
    QuotientBelow(y, d, w);
    QuotientBelow(p, d, w);
  }

  lemma {:induction false} UnfoldsTo(y: nat, d: nat, w: nat, p: nat, q: nat, folded: nat, x: nat, over: nat)
    requires d > 0 && Splits(d) && Splits(w) && y < w && p < w && q < w
    requires p == y / d && q == p / d && q / d == 0 && folded == Xor(p, q) && x == Xor(y, folded) && over == x / d
    ensures x < w && Xor(x, over) == y
  {
    XorStaysBelow(p, q, w);
    XorStaysBelow(y, folded, w);
    FoldsBack(d, y, p, q, folded, x, over);
  }

  lemma {:induction false} NotNegative(x: nat, d: nat)
    requires d > 0
    ensures x / d >= 0
  {
  }

  lemma {:induction false} UnfoldsShifted(y: nat, d: nat, w: nat, p: nat, q: nat) returns (x: nat)
    requires d > 0 && Splits(d) && Splits(w) && y < w && p < w && q < w
    requires p == y / d && q == p / d && q / d == 0
    ensures x < w && Xor(x, x / d) == y
  {
    var folded := Xor(p, q);
    x := Xor(y, folded);
    NotNegative(x, d);
    var over := x / d;
    UnfoldsTo(y, d, w, p, q, folded, x, over);
  }

  /** Every word is another one folded onto itself by a shift of at least a third of its width. */
  lemma {:induction false} Unfolds(y: nat, d: nat, w: nat) returns (x: nat)
    requires d > 0 && Splits(d) && Splits(w) && y < w <= d * d * d
    ensures x < w && Xor(x, x / d) == y
  {
    ShiftsFit(y, d, w, y / d, y / d / d);
    x := UnfoldsShifted(y, d, w, y / d, y / d / d);
  }

  // ---------------------------------------------------------------- multiplication

  lemma {:induction false} BelowZero(q: int, w: int)
    requires q <= -1 && w > 0
    ensures q * w + w <= 0
  {
    assert (q + 1) * w <= 0;
  }

  lemma {:induction false} RemainderIs(x: nat, w: nat, q: int, r: nat)
    requires r < w && x == q * w + r
    ensures x % w == r
  {
    assert q >= 0 by { if q <= -1 { BelowZero(q, w); } }
    QuotientIs(x, w, q, r);
  }

  lemma {:induction false} Expands(y: nat, m: nat, i: nat, k: nat, w: nat, q: nat, x: nat)
    requires m * i == k * w + 1 && y * i == q * w + x
    ensures x * m == (y * k - q * m) * w + y
  {
    assert y * i * m == y * (m * i) == y * (k * w + 1) == y * k * w + y;
    assert (q * w + x) * m == q * m * w + x * m;
    assert (y * k - q * m) * w == y * k * w - q * m * w;
  }

  /** Multiplying by what has an inverse modulo `w` reaches every word. */
  lemma {:induction false} Divides(y: nat, m: nat, i: nat, k: nat, w: nat) returns (x: nat)
    requires w > 0 && y < w && m * i == k * w + 1
    ensures x < w && x * m % w == y
  {
    x := y * i % w;
    Expands(y, m, i, k, w, y * i / w, x);
    RemainderIs(x * m, w, y * k - y * i / w * m, y);
  }

  // ---------------------------------------------------------------- the draw

  lemma {:induction false} MixReaches(t: nat) returns (s: nat)
    requires t < TWO64
    ensures s < TWO64 && Mix(s) == t
  {
    ShiftsSplit();
    var b := Unfolds(t, 0x8000_0000, TWO64);
    var b' := Divides(b, 0x94D0_49BB_1331_11EB, 0x3196_42B2_D24D_8EC3, 0x1CD3_36ED_A85F_1453, TWO64);
    var a := Unfolds(b', 0x800_0000, TWO64);
    var a' := Divides(a, 0xBF58_476D_1CE4_E5B9, 0x96DE_1B17_3F11_9089, 0x70C3_BCA7_8F27_F46C, TWO64);
    s := Unfolds(a', 0x4000_0000, TWO64);
  }

  lemma {:induction false} DrawnFirst(pool: seq<Name>, count: nat, seed: nat, i: nat)
    requires pool != [] && count > 0 && i == Mix(NextState(seed)) % |pool|
    ensures Sampled(pool, count, seed)[0] == pool[i]
  {
  }

  lemma {:induction false} SmallRemainder(k: nat, n: nat)
    requires k < n
    ensures k % n == k
  {
  }

  lemma {:induction false} StateReaches(t: nat) returns (seed: nat)
    requires t < TWO64
    ensures seed < TWO64 && NextState(seed) == t
  {
    seed := (t + TWO64 - 0x9E37_79B9_7F4A_7C15) % TWO64;
  }

  /** No entry of a pool is beyond the draw: for each there is a 64-bit seed that draws it first. */
  lemma {:induction false} EveryEntryCanBeDrawn(pool: seq<Name>, count: nat, k: nat) returns (seed: nat)
    requires k < |pool| <= 0x1_0000_0000_0000_0000 && count > 0
    ensures seed < 0x1_0000_0000_0000_0000 && Sampled(pool, count, seed)[0] == pool[k]
  {
    var state := MixReaches(k);
    seed := StateReaches(state);
    SmallRemainder(k, |pool|);
    DrawnFirst(pool, count, seed, k);
  }
}
