/** The checksum on machine words, as the program computes it. It is the one on lists of bits. */
module Register {
  import opened Bytes
  import opened Polynomial
  import opened Wire
  import opened Crc

  /** `acc << 1` on sixteen bits, with the polynomial taken off when a bit falls out. */
  function Next(acc: nat): nat {
    if acc >= 0x8000 && acc < 0x1_0000 then Xor(2 * acc - 0x1_0000, 0x1021) else 2 * acc
  }

  function Turned(acc: nat, turns: nat): nat
    decreases turns
  {
    if turns == 0 then acc else Turned(Next(acc), turns - 1)
  }

  function Crc16(data: seq<byte>): nat {
    if data == [] then 0
    else
      var b: int := data[|data| - 1];
      Turned(Xor(Crc16(data[..|data| - 1]), 256 * b), 8)
  }

  lemma {:induction false} XorBits(a: nat, b: nat, n: nat)
    ensures BitsOf(Xor(a, b), n) == Add(BitsOf(a, n), BitsOf(b, n))
  {
    if n > 0 {
      XorBits(a / 2, b / 2, n - 1);
      assert Xor(a, b) / 2 == Xor(a / 2, b / 2) && (Xor(a, b) % 2 == 1 <==> (a % 2 == 1) != (b % 2 == 1));
    }
  }

  lemma {:induction false} XorFits(a: nat, b: nat, n: nat)
    requires a < Pow2(n) && b < Pow2(n)
    ensures Xor(a, b) < Pow2(n)
  {
    if n > 0 { XorFits(a / 2, b / 2, n - 1); }
  }

  lemma {:induction false} TopBit(v: nat, n: nat)
    requires v < Pow2(n + 1)
    ensures BitsOf(v, n + 1) == [v >= Pow2(n)] + BitsOf(if v >= Pow2(n) then v - Pow2(n) else v, n)
  {
    if n == 0 {
      assert BitsOf(v, 1) == [v % 2 == 1];
    } else {
      var rest := if v >= Pow2(n) then v - Pow2(n) else v;
      TopBit(v / 2, n - 1);
      assert rest / 2 == (if v / 2 >= Pow2(n - 1) then v / 2 - Pow2(n - 1) else v / 2) && rest % 2 == v % 2;
      assert [v >= Pow2(n)] + (BitsOf(rest / 2, n - 1) + [rest % 2 == 1]) == [v >= Pow2(n)] + BitsOf(rest / 2, n - 1) + [rest % 2 == 1];
    }
  }

  lemma {:induction false} Doubled(v: nat, n: nat)
    ensures BitsOf(2 * v, n + 1) == BitsOf(v, n) + [false]
  {
  }

  lemma {:induction false} LeftZeros(v: nat, n: nat, k: nat)
    ensures BitsOf(v, n) + Zeros(k) == BitsOf(Pow2(k) * v, n + k)
  {
    if k == 0 {
      assert BitsOf(v, n) + Zeros(0) == BitsOf(v, n);
    } else {
      LeftZeros(v, n, k - 1);
      Doubled(Pow2(k - 1) * v, n + k - 1);
      assert Pow2(k) * v == 2 * (Pow2(k - 1) * v);
      assert BitsOf(v, n) + Zeros(k) == BitsOf(v, n) + Zeros(k - 1) + [false];
    }
  }

  lemma {:induction false} Sixteen()
    ensures Pow2(8) == 256 && Pow2(15) == 0x8000 && Pow2(16) == 0x1_0000
  {
    assert Pow2(4) == 16;
    assert Pow2(12) == 4096;
  }

  lemma {:induction false} NextIsShift(acc: nat)
    requires acc < 0x1_0000
    ensures Next(acc) < 0x1_0000 && Shift(BitsOf(acc, 16)) == BitsOf(Next(acc), 16)
  {
    var top := acc >= 0x8000;
    var low := if top then acc - 0x8000 else acc;
    Sixteen();
    TopBit(acc, 15);
    Doubled(low, 15);
    assert BitsOf(acc, 16)[1..] == BitsOf(low, 15);
    if top {
      TapsAreThePolynomial();
      BitsOfValue(TAPS);
      XorBits(2 * low, 0x1021, 16);
      XorFits(2 * low, 0x1021, 16);
    }
  }

  lemma {:induction false} TurnedIsTurn(acc: nat, turns: nat)
    requires acc < 0x1_0000
    ensures Turned(acc, turns) < 0x1_0000 && Turn(BitsOf(acc, 16), turns) == BitsOf(Turned(acc, turns), 16)
    decreases turns
  {
    if turns > 0 {
      NextIsShift(acc);
      TurnedIsTurn(Next(acc), turns - 1);
    }
  }

  lemma {:induction false} AbsorbedIsAbsorb(acc: nat, b: nat)
    requires acc < 0x1_0000 && b < 256
    ensures var next := Turned(Xor(acc, 256 * b), 8); next < 0x1_0000 && Absorb(BitsOf(acc, 16), b) == BitsOf(next, 16)
  {
    Sixteen();
    LeftZeros(b, 8, 8);
    XorBits(acc, 256 * b, 16);
    XorFits(acc, 256 * b, 16);
    TurnedIsTurn(Xor(acc, 256 * b), 8);
  }

  /** The program's 16-bit arithmetic computes the checksum, for every byte sequence. */
  lemma {:induction false} Crc16IsXmodem(data: seq<byte>)
    ensures Crc16(data) < 0x1_0000 && Xmodem(data) == BitsOf(Crc16(data), 16)
  {
    if data == [] {
      NoBits(16);
    } else {
      Crc16IsXmodem(data[..|data| - 1]);
      AbsorbedIsAbsorb(Crc16(data[..|data| - 1]), data[|data| - 1]);
    }
  }

  lemma {:induction false} NoBits(n: nat)
    ensures BitsOf(0, n) == Zeros(n)
  {
    if n > 0 {
      NoBits(n - 1);
      assert Zeros(n) == Zeros(n - 1) + [false];
    }
  }
}
