/** How far apart two flipped bits must be for the checksum to miss them: the order of x modulo the
    generator, which is 32767. */
module Period {
  import opened Bytes
  import opened Polynomial
  import opened Crc
  import opened Words

  // ---------------------------------------------------------------- multiplying in the register

  /** A turn, and one more term if there is one. */
  function OneTerm(acc: Word, bit: bool, b: Word): Word {
    Add(Shift(acc), if bit then b else Zeros(16))
  }

  /** Multiplication by the polynomial `p`, term by term from the highest. */
  function Horner(p: Poly, b: Word, acc: Word): Word
    decreases |p|
  {
    if p == [] then acc else Horner(p[1..], b, OneTerm(acc, p[0], b))
  }

  lemma {:induction false} TurnOnce(a: Word, n: nat)
    ensures Turn(Shift(a), n) == Shift(Turn(a, n))
    decreases n
  {
    if n > 0 { TurnOnce(Shift(a), n - 1); }
  }

  lemma {:induction false} TurnLinear(a: Word, b: Word, n: nat)
    ensures Turn(Add(a, b), n) == Add(Turn(a, n), Turn(b, n))
    decreases n
  {
    if n > 0 {
      ShiftLinear(a, b);
      TurnLinear(Shift(a), Shift(b), n - 1);
    }
  }

  lemma {:induction false} TurnSplit(a: Word, m: nat, n: nat)
    ensures Turn(a, m + n) == Turn(Turn(a, m), n)
    decreases m
  {
    if m > 0 { TurnSplit(Shift(a), m - 1, n); }
  }

  /** A turn of a product is the product with a turned factor. */
  lemma {:induction false} TurnOfProduct(p: Poly, b: Word, acc: Word, n: nat)
    ensures Turn(Horner(p, b, acc), n) == Horner(p, Turn(b, n), Turn(acc, n))
    decreases |p|
  {
    if p != [] {
      TurnOfProduct(p[1..], b, OneTerm(acc, p[0], b), n);
      TurnLinear(Shift(acc), if p[0] then b else Zeros(16), n);
      TurnOnce(acc, n);
      TurnZero(n);
    }
  }

  const ONE: Word := Zeros(15) + [true]

  lemma {:induction false} ReadIn(acc: Word, seen: Poly, bit: bool, m: nat)
    requires |seen| + m == 15 && acc == Zeros(m + 1) + seen
    ensures OneTerm(acc, bit, ONE) == Zeros(m) + (seen + [bit])
  {
    assert acc[1..] + [false] == Zeros(m) + seen + [false];
    assert !acc[0];
  }

  /** Every word is its own product with one: `seen` of it has been read into the register. */
  lemma {:induction false} TimesOne(all: Word, k: nat, acc: Word)
    requires k <= 16 && acc == Zeros(16 - k) + all[..k]
    ensures Horner(all[k..], ONE, acc) == all
    decreases 16 - k
  {
    if k < 16 {
      var rest := all[k..];
      assert rest[0] == all[k] && rest[1..] == all[k + 1..] && all[..k + 1] == all[..k] + [all[k]];
      ReadIn(acc, all[..k], all[k], 15 - k);
      TimesOne(all, k + 1, OneTerm(acc, all[k], ONE));
    } else {
      assert all[..k] == all;
    }
  }

  /** The powers of x. */
  function Power(n: nat): Word {
    Turn(ONE, n)
  }

  lemma {:induction false} PowerPlus(m: nat, n: nat)
    ensures Power(m + n) == Horner(Power(m), Power(n), Zeros(16))
  {
    var a := Power(m);
    TurnSplit(ONE, m, n);
    assert Zeros(16) == Zeros(16) + a[..0] && a[0..] == a;
    TimesOne(a, 0, Zeros(16));
    TurnOfProduct(a, ONE, Zeros(16), n);
    TurnZero(n);
  }

  // ---------------------------------------------------------------- the same on machine words

  function Stepped(acc: bv16, bit: bool, b: bv16): bv16 {
    if bit then acc ^ b else acc
  }

  function Product(a: bv16, b: bv16, acc: bv16, k: nat): bv16
    decreases k, a
  {
    if k == 0 then acc else Product(Left(a), b, Stepped(Next(acc), Top(a), b), k - 1)
  }

  lemma {:induction false} SteppedIs(n: bv16, bit: bool, b: bv16, next: bv16, u: Word, w: Word)
    requires u == Bits16(n) && w == Bits16(b) && next == Stepped(n, bit, b)
    ensures Bits16(next) == Add(u, if bit then w else Zeros(16))
  {
    if bit { XorWord(n, b, u, w); } else { assert Add(u, Zeros(16)) == u; }
  }

  lemma {:induction false} ProductOnce(a: bv16, b: bv16, acc: bv16, k: nat, n: bv16, next: bv16)
    requires n == Next(acc) && next == Stepped(n, Top(a), b)
    ensures Product(a, b, acc, k + 1) == Product(Left(a), b, next, k)
  {
  }

  lemma {:induction false} SpreadFront(a: bv16, n: nat)
    ensures Spread(a, n + 1)[0] == Top(a) && Spread(a, n + 1)[1..] == Spread(Left(a), n)
  {
  }

  lemma {:induction false} ProductIsHorner(a: bv16, b: bv16, acc: bv16, k: nat, r: bv16, w: Word, u: Word)
    requires w == Bits16(b) && u == Bits16(acc) && r == Product(a, b, acc, k)
    ensures Bits16(r) == Horner(Spread(a, k), w, u)
    decreases k
  {
    if k > 0 {
      var n := Next(acc);
      var next := Stepped(n, Top(a), b);
      NextIsShift(acc, u);
      SteppedIs(n, Top(a), b, next, Shift(u), w);
      ProductOnce(a, b, acc, k - 1, n, next);
      SpreadFront(a, k - 1);
      ProductIsHorner(Left(a), b, next, k - 1, r, w, OneTerm(u, Top(a), w));
    }
  }

  lemma {:induction false} ProductSplit(a: bv16, b: bv16, acc: bv16, j: nat, k: nat)
    ensures Product(a, b, acc, j + k) == Product(Lefts(a, j), b, Product(a, b, acc, j), k)
    decreases j
  {
    if j > 0 { ProductSplit(Left(a), b, Stepped(Next(acc), Top(a), b), j - 1, k); }
  }

  /** `r` is a power of x. */
  ghost predicate IsPower(n: nat, r: bv16) {
    Bits16(r) == Power(n)
  }

  /** The product of two words, eight terms at a time. */
  ghost predicate Multiplies(x: bv16, y: bv16, half: bv16, rest: bv16, r: bv16) {
    Product(x, y, 0, 8) == half && Lefts(x, 8) == rest && Product(rest, y, half, 8) == r
  }

  lemma {:induction false} Plus(m: nat, n: nat, x: bv16, y: bv16, half: bv16, rest: bv16, r: bv16)
    requires IsPower(m, x) && IsPower(n, y) && Multiplies(x, y, half, rest, r)
    ensures IsPower(m + n, r)
  {
    ProductSplit(x, y, 0, 8, 8);
    SpreadZero(16);
    ProductIsHorner(x, y, 0, 16, r, Power(n), Zeros(16));
    PowerPlus(m, n);
  }

  lemma {:induction false} SpreadAt(a: bv16, n: nat, k: nat)
    requires k < n
    ensures Spread(a, n)[k] == Top(Lefts(a, k))
    decreases n
  {
    if k > 0 { SpreadAt(Left(a), n - 1, k - 1); }
  }

  lemma {:induction false} OneBits()
    ensures Bits16(1) == [false, false, false, false, false, false, false, false, false, false, false, false, false, false, false, true]
  {
    SpreadTwo(0x0001, 14);
    SpreadTwo(0x0004, 12);
    SpreadTwo(0x0010, 10);
    SpreadTwo(0x0040, 8);
    SpreadTwo(0x0100, 6);
    SpreadTwo(0x0400, 4);
    SpreadTwo(0x1000, 2);
    SpreadTwo(0x4000, 0);
  }

  lemma {:induction false} OneWord()
    ensures Bits16(1) == ONE
  {
    OneBits();
    assert ONE == [false, false, false, false, false, false, false, false, false, false, false, false, false, false, false, true];
  }

  lemma {:induction false} ByTurning(n: nat, x: bv16, k: nat, r: bv16)
    requires IsPower(n, x) && Turned(x, k) == r
    ensures IsPower(n + k, r)
  {
    TurnSplit(ONE, n, k);
    TurnedIsTurn(x, Power(n), k);
  }

  lemma {:induction false} FirstTurns()
    ensures Turned(0x0001, 1) == 0x0002 && Turned(0x0001, 8) == 0x0100
  {
  }

  lemma {:induction false} NextTurns()
    ensures Turned(0x0100, 8) == 0x1021
  {
  }

  lemma {:induction false} FirstPowers()
    ensures IsPower(1, 0x0002) && IsPower(8, 0x0100) && IsPower(16, 0x1021)
  {
    OneWord();
    FirstTurns();
    NextTurns();
    ByTurning(0, 0x0001, 1, 0x0002);
    ByTurning(0, 0x0001, 8, 0x0100);
    ByTurning(8, 0x0100, 8, 0x1021);
  }

  lemma {:induction false} Multiply16By16()
    ensures Multiplies(0x1021, 0x1021, 0x1231, 0x2100, 0x3730)
  {
  }

  lemma {:induction false} Multiply32By32()
    ensures Multiplies(0x3730, 0x3730, 0x4035, 0x3000, 0xB861)
  {
  }

  lemma {:induction false} Multiply64By64()
    ensures Multiplies(0xB861, 0xB861, 0x61D9, 0x6100, 0xAEFC)
  {
  }

  lemma {:induction false} PowersTo128()
    ensures IsPower(32, 0x3730) && IsPower(64, 0xB861) && IsPower(128, 0xAEFC)
  {
    FirstPowers();
    Multiply16By16();
    Multiply32By32();
    Multiply64By64();
    Plus(16, 16, 0x1021, 0x1021, 0x1231, 0x2100, 0x3730);
    Plus(32, 32, 0x3730, 0x3730, 0x4035, 0x3000, 0xB861);
    Plus(64, 64, 0xB861, 0xB861, 0x61D9, 0x6100, 0xAEFC);
  }

  lemma {:induction false} Multiply128By128()
    ensures Multiplies(0xAEFC, 0xAEFC, 0x3828, 0xFC00, 0x8E29)
  {
  }

  lemma {:induction false} Multiply256By256()
    ensures Multiplies(0x8E29, 0x8E29, 0x09FA, 0x2900, 0x13FC)
  {
  }

  lemma {:induction false} Multiply512By512()
    ensures Multiplies(0x13FC, 0x13FC, 0x1BE5, 0xFC00, 0x36C4)
  {
  }

  lemma {:induction false} PowersTo1024()
    ensures IsPower(256, 0x8E29) && IsPower(512, 0x13FC) && IsPower(1024, 0x36C4)
  {
    PowersTo128();
    Multiply128By128();
    Multiply256By256();
    Multiply512By512();
    Plus(128, 128, 0xAEFC, 0xAEFC, 0x3828, 0xFC00, 0x8E29);
    Plus(256, 256, 0x8E29, 0x8E29, 0x09FA, 0x2900, 0x13FC);
    Plus(512, 512, 0x13FC, 0x13FC, 0x1BE5, 0xFC00, 0x36C4);
  }

  lemma {:induction false} Multiply1024By1024()
    ensures Multiplies(0x36C4, 0x36C4, 0x52FD, 0xC400, 0xFD50)
  {
  }

  lemma {:induction false} Multiply2048By2048()
    ensures Multiplies(0xFD50, 0xFD50, 0x6BC0, 0x5000, 0xAA9E)
  {
  }

  lemma {:induction false} Multiply4096By4096()
    ensures Multiplies(0xAA9E, 0xAA9E, 0x154C, 0x9E00, 0x881C)
  {
  }

  lemma {:induction false} PowersTo8192()
    ensures IsPower(2048, 0xFD50) && IsPower(4096, 0xAA9E) && IsPower(8192, 0x881C)
  {
    PowersTo1024();
    Multiply1024By1024();
    Multiply2048By2048();
    Multiply4096By4096();
    Plus(1024, 1024, 0x36C4, 0x36C4, 0x52FD, 0xC400, 0xFD50);
    Plus(2048, 2048, 0xFD50, 0xFD50, 0x6BC0, 0x5000, 0xAA9E);
    Plus(4096, 4096, 0xAA9E, 0xAA9E, 0x154C, 0x9E00, 0x881C);
  }

  lemma {:induction false} Multiply8192By8192()
    ensures Multiplies(0x881C, 0x881C, 0x0624, 0x1C00, 0x4458)
  {
  }

  lemma {:induction false} Multiply16384By16384()
    ensures Multiplies(0x4458, 0x4458, 0x1551, 0x5800, 0x0002)
  {
  }

  lemma {:induction false} PowersTo32768()
    ensures IsPower(16384, 0x4458) && IsPower(32768, 0x0002)
  {
    PowersTo8192();
    Multiply8192By8192();
    Multiply16384By16384();
    Plus(8192, 8192, 0x881C, 0x881C, 0x0624, 0x1C00, 0x4458);
    Plus(16384, 16384, 0x4458, 0x4458, 0x1551, 0x5800, 0x0002);
  }

  lemma {:induction false} Multiply4096By512()
    ensures Multiplies(0xAA9E, 0x13FC, 0x88F3, 0x9E00, 0x54A0)
  {
  }

  lemma {:induction false} Multiply4608By64()
    ensures Multiplies(0x54A0, 0xB861, 0x2B51, 0xA000, 0x0106)
  {
  }

  lemma {:induction false} Multiply4672By8()
    ensures Multiplies(0x0106, 0x0100, 0x0100, 0x0600, 0x1621)
  {
  }

  lemma {:induction false} Multiply4680By1()
    ensures Multiplies(0x1621, 0x0002, 0x002C, 0x2100, 0x2C42)
  {
  }

  lemma {:induction false} Power4681()
    ensures IsPower(4681, 0x2C42)
  {
    PowersTo8192();
    PowersTo1024();
    PowersTo128();
    FirstPowers();
    Multiply4096By512();
    Multiply4608By64();
    Multiply4672By8();
    Multiply4680By1();
    Plus(4096, 512, 0xAA9E, 0x13FC, 0x88F3, 0x9E00, 0x54A0);
    Plus(4608, 64, 0x54A0, 0xB861, 0x2B51, 0xA000, 0x0106);
    Plus(4672, 8, 0x0106, 0x0100, 0x0100, 0x0600, 0x1621);
    Plus(4680, 1, 0x1621, 0x0002, 0x002C, 0x2100, 0x2C42);
  }

  lemma {:induction false} Multiply1024By32()
    ensures Multiplies(0x36C4, 0x3730, 0x7705, 0xC400, 0xF147)
  {
  }

  lemma {:induction false} Multiply1056By1()
    ensures Multiplies(0xF147, 0x0002, 0x01E2, 0x4700, 0xF2AF)
  {
  }

  lemma {:induction false} Power1057()
    ensures IsPower(1057, 0xF2AF)
  {
    PowersTo1024();
    PowersTo128();
    FirstPowers();
    Multiply1024By32();
    Multiply1056By1();
    Plus(1024, 32, 0x36C4, 0x3730, 0x7705, 0xC400, 0xF147);
    Plus(1056, 1, 0xF147, 0x0002, 0x01E2, 0x4700, 0xF2AF);
  }

  lemma {:induction false} Multiply128By64()
    ensures Multiplies(0xAEFC, 0xB861, 0xF787, 0xFC00, 0x650B)
  {
  }

  lemma {:induction false} Multiply192By16()
    ensures Multiplies(0x650B, 0x1021, 0x3C03, 0x0B00, 0x45B4)
  {
  }

  lemma {:induction false} Multiply208By8()
    ensures Multiplies(0x45B4, 0x0100, 0x4500, 0xB400, 0xAC61)
  {
  }

  lemma {:induction false} Multiply216By1()
    ensures Multiplies(0xAC61, 0x0002, 0x0158, 0x6100, 0x48E3)
  {
  }

  lemma {:induction false} Power217()
    ensures IsPower(217, 0x48E3)
  {
    PowersTo128();
    FirstPowers();
    Multiply128By64();
    Multiply192By16();
    Multiply208By8();
    Multiply216By1();
    Plus(128, 64, 0xAEFC, 0xB861, 0xF787, 0xFC00, 0x650B);
    Plus(192, 16, 0x650B, 0x1021, 0x3C03, 0x0B00, 0x45B4);
    Plus(208, 8, 0x45B4, 0x0100, 0x4500, 0xB400, 0xAC61);
    Plus(216, 1, 0xAC61, 0x0002, 0x0158, 0x6100, 0x48E3);
  }

  // ---------------------------------------------------------------- the order of x

  const ORDER: nat := 32767

  /** `n` turns bring the register back to one, and so back to any word. */
  predicate Returns(n: nat) {
    Power(n) == ONE
  }

  lemma {:induction false} ReturnsTimes(a: nat, k: nat)
    requires Returns(a)
    ensures Returns(k * a)
  {
    if k > 0 {
      ReturnsTimes(a, k - 1);
      assert k * a == (k - 1) * a + a;
      TurnSplit(ONE, (k - 1) * a, a);
    }
  }

  lemma {:induction false} ReturnsMod(n: nat, d: nat)
    requires d > 0 && Returns(d)
    ensures Returns(n) <==> Returns(n % d)
  {
    var q, r := n / d, n % d;
    assert n == q * d + r;
    ReturnsTimes(d, q);
    TurnSplit(ONE, q * d, r);
  }

  lemma {:induction false} ShortOnesDoNot()
    ensures !Returns(4681) && !Returns(1057) && !Returns(217)
  {
    Power4681();
    Power1057();
    Power217();
    OneWord();
    NotOne(0x2C42, 2);
    NotOne(0xF2AF, 0);
    NotOne(0x48E3, 1);
  }

  /** A word with one of its high bits set is not one. */
  lemma {:induction false} NotOne(x: bv16, k: nat)
    requires k < 15 && Top(Lefts(x, k))
    ensures Bits16(x) != Bits16(1)
  {
    SpreadAt(x, 16, k);
    OneWord();
  }

  lemma {:induction false} OrderReturns()
    ensures Returns(ORDER)
  {
    PowersTo32768();
    FirstPowers();
    TurnSplit(ONE, ORDER, 1);
    TurnInjective(Power(ORDER), ONE, 1);
  }

  lemma {:induction false} SmallFactor(n: nat, q: nat)
    requires 1 < n < 182 && n * q == ORDER
    ensures (n == 7 && q == 4681) || (n == 31 && q == 1057) || (n == 151 && q == 217)
  {
  }

  /** 32767 is 7 times 31 times 151. */
  lemma {:induction false} ProperDivisor(d: nat)
    requires 0 < d < ORDER && ORDER % d == 0
    ensures 4681 % d == 0 || 1057 % d == 0 || 217 % d == 0
  {
    var k := ORDER / d;
    assert d * k == ORDER;
    if d < 182 {
      if d > 1 { SmallFactor(d, k); }
    } else {
      if k >= 182 { AtLeast(d, k, 182); }
      SmallFactor(k, d);
    }
  }

  lemma {:induction false} AtLeast(a: nat, b: nat, c: nat)
    requires a >= c && b >= c
    ensures a * b >= c * c
  {
    assert a * b == c * c + (a - c) * b + c * (b - c);
  }

  lemma {:induction false} NoShorter(d: nat)
    requires 0 < d < ORDER
    ensures !Returns(d)
  {
    if Returns(d) {
      var r := ORDER % d;
      OrderReturns();
      ReturnsMod(ORDER, d);
      if r > 0 {
        NoShorter(r);
      } else {
        ProperDivisor(d);
        ShortOnesDoNot();
        ReturnsMod(4681, d);
        ReturnsMod(1057, d);
        ReturnsMod(217, d);
      }
    }
  }

  /** The register comes back after a multiple of 32767 turns, and at no other time. */
  lemma {:induction false} ReturnsIff(n: nat)
    ensures Returns(n) <==> n % ORDER == 0
  {
    OrderReturns();
    ReturnsMod(n, ORDER);
    if n % ORDER > 0 { NoShorter(n % ORDER); }
  }

  // ---------------------------------------------------------------- two flipped bits

  lemma {:induction false} FeedZeros(c: Word, n: nat)
    ensures FeedBits(c, Zeros(n)) == Turn(c, n)
    decreases n
  {
    if n > 0 {
      assert Zeros(n)[1..] == Zeros(n - 1) && [c[0] != false] + c[1..] == c;
      FeedZeros(Shift(c), n - 1);
    }
  }

  lemma {:induction false} FeedOne(c: Word)
    ensures FeedBits(c, [true]) == Add(Shift(c), TAPS)
  {
    var one: Word := [true] + Zeros(15);
    assert one[1..] + [false] == Zeros(16) && Shift(one) == TAPS;
    assert [c[0] != true] + c[1..] == Add(c, one);
    ShiftLinear(c, one);
    assert FeedBits(FeedBit(c, true), [true][1..]) == FeedBit(c, true);
  }

  /** What the difference of two messages does to the register. */
  lemma {:induction false} FeedTwoOnes(before: nat, between: nat, after: nat)
    ensures FeedBits(Zeros(16), Zeros(before) + [true] + Zeros(between) + [true] + Zeros(after))
         == Turn(Add(Turn(TAPS, between + 1), TAPS), after)
  {
    var z := Zeros(16);
    FeedConcat(z, Zeros(before) + [true] + Zeros(between) + [true], Zeros(after));
    FeedConcat(z, Zeros(before) + [true] + Zeros(between), [true]);
    FeedConcat(z, Zeros(before) + [true], Zeros(between));
    FeedConcat(z, Zeros(before), [true]);
    FeedZeros(z, before);
    TurnZero(before);
    FeedOne(z);
    assert Shift(z) == z && Add(z, TAPS) == TAPS;
    FeedZeros(TAPS, between);
    FeedOne(Turn(TAPS, between));
    TurnSplit(TAPS, between, 1);
    FeedZeros(Add(Turn(TAPS, between + 1), TAPS), after);
  }

  /** The taps come back when one does. */
  lemma {:induction false} TapsReturn(n: nat)
    ensures Turn(TAPS, n) == TAPS <==> Returns(n)
  {
    FirstPowers();
    TapsWord();
    TurnSplit(ONE, 16, n);
    TurnSplit(ONE, n, 16);
    if Turn(TAPS, n) == TAPS { TurnInjective(Power(n), ONE, 16); }
  }

  lemma {:induction false} SameIff(a: Word, b: Word)
    ensures Add(a, b) == Zeros(16) <==> a == b
  {
    if Add(a, b) == Zeros(16) {
      forall i | 0 <= i < 16 ensures a[i] == b[i] { assert Add(a, b)[i] == Zeros(16)[i]; }
    }
  }

  lemma {:induction false} FlippedBits(before: Poly, u: bool, between: Poly, v: bool, after: Poly)
    ensures Add(before + [u] + between + [v] + after, before + [!u] + between + [!v] + after)
         == Zeros(|before|) + [true] + Zeros(|between|) + [true] + Zeros(|after|)
  {
  }

  /** Two flipped bits go unnoticed exactly when they are a multiple of 32767 apart. */
  lemma {:induction false} TwoFlipsMissedIff(a: seq<byte>, b: seq<byte>, before: Poly, u: bool, between: Poly, v: bool, after: Poly)
    requires Bits(a) == before + [u] + between + [v] + after && Bits(b) == before + [!u] + between + [!v] + after
    ensures Xmodem(a) == Xmodem(b) <==> (|between| + 1) % ORDER == 0
  {
    var z := Zeros(16);
    var n := |between| + 1;
    var sum: Word := Add(Turn(TAPS, n), TAPS);
    XmodemIsFeed(a);
    XmodemIsFeed(b);
    FlippedBits(before, u, between, v, after);
    assert Add(z, z) == z;
    FeedLinear(z, z, Bits(a), Bits(b));
    FeedTwoOnes(|before|, |between|, |after|);
    SameIff(Xmodem(a), Xmodem(b));
    TurnZero(|after|);
    if Turn(sum, |after|) == z { TurnInjective(sum, z, |after|); }
    SameIff(Turn(TAPS, n), TAPS);
    TapsReturn(n);
    ReturnsIff(n);
  }

  /** So in a message of up to 4095 bytes, and no frame is longer than 576, any two flipped bits change
      the checksum. */
  lemma {:induction false} TwoFlipsDetected(a: seq<byte>, b: seq<byte>, before: Poly, u: bool, between: Poly, v: bool, after: Poly)
    requires Bits(a) == before + [u] + between + [v] + after && Bits(b) == before + [!u] + between + [!v] + after
    requires |a| <= 4095
    ensures Xmodem(a) != Xmodem(b)
  {
    TwoFlipsMissedIff(a, b, before, u, between, v, after);
    assert |Bits(a)| == |before| + |between| + |after| + 2;
  }
}
