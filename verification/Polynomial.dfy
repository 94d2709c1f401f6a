/** Polynomials over GF(2), just enough to say what a remainder is. A polynomial is its list of
    coefficients, highest degree first; all lengths are explicit, so equality is equality of lists. */
module Polynomial {

  type Poly = seq<bool>

  function Zeros(n: nat): (r: Poly)
    ensures |r| == n && forall i :: 0 <= i < n ==> !r[i]
  {
    seq(n, _ => false)
  }

  function Add(a: Poly, b: Poly): (r: Poly)
    requires |a| == |b|
    ensures |r| == |a| && forall i :: 0 <= i < |a| ==> r[i] == (a[i] != b[i])
  {
    seq(|a|, i requires 0 <= i < |a| => a[i] != b[i])
  }

  function Scale(c: bool, a: Poly): (r: Poly)
    ensures |r| == |a| && forall i :: 0 <= i < |a| ==> r[i] == (c && a[i])
  {
    if c then a else Zeros(|a|)
  }

  /** Schoolbook multiplication, one coefficient of `q` at a time. */
  function Times(q: Poly, g: Poly): (r: Poly)
    requires |g| > 0
    ensures |r| == |q| + |g| - 1
  {
    if q == [] then Zeros(|g| - 1)
    else Add(Scale(q[0], g) + Zeros(|q| - 1), [false] + Times(q[1..], g))
  }

  /** `r` is what is left of `dividend` after dividing by `g`, which has one more coefficient. */
  ghost predicate Remainder(dividend: Poly, g: Poly, r: Poly)
    requires |g| == |r| + 1
  {
    exists q: Poly :: Leaves(dividend, q, g, r)
  }

  /** `dividend == q * g + r`. */
  ghost predicate Leaves(dividend: Poly, q: Poly, g: Poly, r: Poly)
    requires |g| == |r| + 1
  {
    |dividend| == |q| + |r| && dividend == Add(Times(q, g), Zeros(|q|) + r)
  }

  /** Division by a polynomial that leads with one has one quotient and one remainder. */
  lemma {:induction false} QuotientIsUnique(d: Poly, q: Poly, r: Poly, q': Poly, r': Poly, g: Poly)
    requires |g| == |r| + 1 && |r| == |r'| && g[0]
    requires Leaves(d, q, g, r) && Leaves(d, q', g, r')
    ensures q == q' && r == r'
    decreases |q|
  {
    if q == [] {
      forall i | 0 <= i < |r| ensures r[i] == r'[i] {
        assert d[i] == (Times(q, g)[i] != (Zeros(0) + r)[i]);
        assert d[i] == (Times(q', g)[i] != (Zeros(0) + r')[i]);
      }
    } else {
      LeadingCoefficient(d, q, g, r);
      LeadingCoefficient(d, q', g, r');
      QuotientIsUnique(Reduce(d, q[0], g), q[1..], r, q'[1..], r', g);
    }
  }

  /** One step of long division: subtract `c * g` from the front and drop the leading coefficient. */
  function Reduce(d: Poly, c: bool, g: Poly): (r: Poly)
    requires |d| >= |g| > 0
    ensures |r| == |d| - 1
    ensures forall i :: 0 <= i < |r| ==> r[i] == (d[i + 1] != (i + 1 < |g| && c && g[i + 1]))
  {
    Add(d, Scale(c, g) + Zeros(|d| - |g|))[1..]
  }

  lemma {:induction false} LeadingCoefficient(d: Poly, q: Poly, g: Poly, r: Poly)
    requires |g| == |r| + 1 && g[0] && q != [] && Leaves(d, q, g, r)
    ensures d[0] == q[0]
    ensures Leaves(Reduce(d, q[0], g), q[1..], g, r)
  {
    var t := Times(q[1..], g);
    assert forall i :: 0 <= i < |d| ==> d[i] == (Times(q, g)[i] != (Zeros(|q|) + r)[i]);
    var e := Reduce(d, q[0], g);
    forall i | 0 <= i < |e| ensures e[i] == Add(t, Zeros(|q| - 1) + r)[i] {
      assert (Scale(q[0], g) + Zeros(|q| - 1))[i + 1] == (i + 1 < |g| && q[0] && g[i + 1]);
      assert ([false] + t)[i + 1] == t[i];
      assert (Zeros(|q|) + r)[i + 1] == (Zeros(|q| - 1) + r)[i];
    }
    assert e == Add(t, Zeros(|q| - 1) + r);
  }

  lemma {:induction false} RemainderIsUnique(d: Poly, g: Poly, r: Poly, r': Poly)
    requires |g| == |r| + 1 && |r| == |r'| && g[0]
    requires Remainder(d, g, r) && Remainder(d, g, r')
    ensures r == r'
  {
    var q :| Leaves(d, q, g, r);
    var q' :| Leaves(d, q', g, r');
    QuotientIsUnique(d, q, r, q', r', g);
  }

  /** And the converse of `LeadingCoefficient`: a step of long division can be undone. */
  lemma {:induction false} Restore(d: Poly, q: Poly, g: Poly, r: Poly)
    requires |g| == |r| + 1 && g[0] && |d| == |q| + |r| + 1
    requires Leaves(Reduce(d, d[0], g), q, g, r)
    ensures Leaves(d, [d[0]] + q, g, r)
  {
    var full := [d[0]] + q;
    var t := Times(q, g);
    assert full[1..] == q;
    var e := Reduce(d, d[0], g);
    assert forall i :: 0 <= i < |e| ==> e[i] == (t[i] != (Zeros(|q|) + r)[i]);
    forall i | 0 <= i < |d| ensures d[i] == Add(Times(full, g), Zeros(|full|) + r)[i] {
      assert (Scale(d[0], g) + Zeros(|q|))[i] == (i < |g| && d[0] && g[i]);
      if i > 0 {
        assert ([false] + t)[i] == t[i - 1];
        assert (Zeros(|full|) + r)[i] == (Zeros(|q|) + r)[i - 1];
        assert e[i - 1] == (t[i - 1] != (Zeros(|q|) + r)[i - 1]);
      }
    }
    assert d == Add(Times(full, g), Zeros(|full|) + r);
  }

  // ---------------------------------------------------------------- parity: the value at x = 1

  /** Whether an odd number of coefficients is one. */
  function Parity(a: Poly): bool {
    if a == [] then false else a[0] != Parity(a[1..])
  }

  lemma {:induction false} ParityConcat(a: Poly, b: Poly)
    ensures Parity(a + b) == (Parity(a) != Parity(b))
  {
    if a == [] {
      assert a + b == b;
    } else {
      assert (a + b)[1..] == a[1..] + b;
      ParityConcat(a[1..], b);
    }
  }

  lemma {:induction false} ParityAdd(a: Poly, b: Poly)
    requires |a| == |b|
    ensures Parity(Add(a, b)) == (Parity(a) != Parity(b))
  {
    if a != [] {
      assert Add(a, b)[1..] == Add(a[1..], b[1..]);
      ParityAdd(a[1..], b[1..]);
    }
  }

  lemma {:induction false} ParityZeros(n: nat)
    ensures !Parity(Zeros(n))
  {
    if n > 0 {
      assert Zeros(n)[1..] == Zeros(n - 1);
      ParityZeros(n - 1);
    }
  }

  /** A multiple of an even-weight polynomial has even weight: x + 1 divides both. */
  lemma {:induction false} ParityTimes(q: Poly, g: Poly)
    requires |g| > 0 && !Parity(g)
    ensures !Parity(Times(q, g))
  {
    if q == [] {
      ParityZeros(|g| - 1);
    } else {
      var a, b := Scale(q[0], g) + Zeros(|q| - 1), [false] + Times(q[1..], g);
      ParityZeros(|g|);
      ParityZeros(|q| - 1);
      ParityConcat(Scale(q[0], g), Zeros(|q| - 1));
      assert b[1..] == Times(q[1..], g);
      ParityTimes(q[1..], g);
      ParityAdd(a, b);
    }
  }

  /** So a remainder has the parity of its dividend. */
  lemma {:induction false} RemainderParity(d: Poly, g: Poly, r: Poly)
    requires |g| == |r| + 1 && !Parity(g) && Remainder(d, g, r)
    ensures Parity(d) == Parity(r)
  {
    var q :| Leaves(d, q, g, r);
    ParityTimes(q, g);
    ParityZeros(|q|);
    ParityConcat(Zeros(|q|), r);
    ParityAdd(Times(q, g), Zeros(|q|) + r);
  }
}
