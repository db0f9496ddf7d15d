/** Polynomials over GF(2), highest coefficient first, and division by one of them. */
module Polynomials {

  type Poly = seq<bool>

  function Zeros(n: nat): (z: Poly)
    ensures |z| == n && forall i | 0 <= i < n :: !z[i]
  {
    seq(n, _ => false)
  }

  function Add(a: Poly, b: Poly): (c: Poly)
    requires |a| == |b|
    ensures |c| == |a| && forall i | 0 <= i < |a| :: c[i] == (a[i] != b[i])
  {
    seq(|a|, i requires 0 <= i < |a| => a[i] != b[i])
  }

  function Scaled(b: bool, g: Poly): (c: Poly)
    ensures |c| == |g| && forall i | 0 <= i < |g| :: c[i] == (b && g[i])
  {
    if b then g else Zeros(|g|)
  }

  /** The product of q and g. */
  function Times(q: Poly, g: Poly): (p: Poly)
    requires g != []
    ensures |p| == |q| + |g| - 1
  {
    if q == [] then Zeros(|g| - 1)
    else
      var n := |q| - 1;
      Add(Times(q[..n], g) + [false], Zeros(n) + Scaled(q[n], g))
  }

  /** With n = |m| and w = |r|, the polynomial r x^n + m x^w. */
  function Dividend(r: Poly, m: Poly): (d: Poly)
    ensures |d| == |r| + |m|
  {
    Add(r + Zeros(|m|), m + Zeros(|r|))
  }

  /** r is the rest of d when it is divided by g. */
  ghost predicate Remainder(d: Poly, g: Poly, r: Poly) {
    && g != [] && g[0] && |r| == |g| - 1 <= |d|
    && exists q: Poly | |q| == |d| - |r| :: Quotient(d, g, q, r)
  }

  ghost predicate Quotient(d: Poly, g: Poly, q: Poly, r: Poly)
    requires g != [] && |r| == |g| - 1 && |d| == |q| + |r|
  {
    d == Add(Times(q, g), Zeros(|q|) + r)
  }

  /** A shift register for division by g takes in one coefficient. */
  function Divided(g: Poly, r: Poly, b: bool): (r': Poly)
    requires |r| == |g| - 1 > 0
    ensures |r'| == |r|
  {
    var shifted := r[1..] + [false];
    if r[0] != b then Add(shifted, g[1..]) else shifted
  }

  function DividedAll(g: Poly, r: Poly, m: Poly): (r': Poly)
    requires |r| == |g| - 1 > 0
    ensures |r'| == |r|
  {
    if m == [] then r else Divided(g, DividedAll(g, r, m[..|m| - 1]), m[|m| - 1])
  }

  lemma {:induction false} DividedConcat(g: Poly, r: Poly, m: Poly, n: Poly)
    requires |r| == |g| - 1 > 0
    ensures DividedAll(g, r, m + n) == DividedAll(g, DividedAll(g, r, m), n)
    decreases |n|
  {
    hide Divided;
    if n == [] {
      assert m + n == m;
    } else {
      var k := |n| - 1;
      DividedConcat(g, r, m, n[..k]);
      assert (m + n)[..|m + n| - 1] == m + n[..k];
    }
  }

  /** One more coefficient multiplies by x and adds the coefficient at x^w. */
  lemma DividendNext(r: Poly, m: Poly, b: bool)
    requires r != []
    ensures Dividend(r, m + [b]) == Add(Dividend(r, m) + [false], Zeros(|m|) + ([b] + Zeros(|r|)))
  {
    var d, e := Dividend(r, m + [b]), Add(Dividend(r, m) + [false], Zeros(|m|) + ([b] + Zeros(|r|)));
    assert forall i | 0 <= i < |d| :: d[i] == e[i];
  }

  /** The step of the register is the step of long division: the coefficient t of the quotient is what falls out. */
  lemma StepAt(g: Poly, r: Poly, b: bool, j: nat)
    requires |r| == |g| - 1 > 0 && g[0] && j < |g|
    ensures ((r + [false])[j] != ([b] + Zeros(|r|))[j])
         == (Scaled(r[0] != b, g)[j] != ([false] + Divided(g, r, b))[j])
  {
  }

  /** The register holds the remainder, whatever it started with. */
  lemma {:induction false} DividesWithQuotient(g: Poly, r: Poly, m: Poly) returns (q: Poly)
    requires |r| == |g| - 1 > 0 && g[0]
    ensures |q| == |m| && Quotient(Dividend(r, m), g, q, DividedAll(g, r, m))
  {
    if m == [] {
      q := [];
      assert Dividend(r, m) == Add(Times(q, g), Zeros(0) + r);
    } else {
      var n := |m| - 1;
      var p := DividesWithQuotient(g, r, m[..n]);
      var s := DividedAll(g, r, m[..n]);
      q := p + [s[0] != m[n]];
      assert m[..n] + [m[n]] == m;
      DividendNext(r, m[..n], m[n]);
      QuotientNext(g, p, s, m[n], Dividend(r, m[..n]));
    }
  }

  lemma QuotientNext(g: Poly, p: Poly, s: Poly, b: bool, d: Poly)
    requires |s| == |g| - 1 > 0 && g[0] && |d| == |p| + |s| && Quotient(d, g, p, s)
    ensures Quotient(Add(d + [false], Zeros(|p|) + ([b] + Zeros(|s|))), g, p + [s[0] != b], Divided(g, s, b))
  {
    hide Divided, Times;
    var n, t := |p|, s[0] != b;
    var top := Times(p, g) + [false];
    TimesNext(p, t, g);
    var left := Add(d + [false], Zeros(n) + ([b] + Zeros(|s|)));
    var right := Add(Times(p + [t], g), Zeros(n + 1) + Divided(g, s, b));
    forall i | 0 <= i < |left| ensures left[i] == right[i] {
      if i < n {
        assert left[i] == top[i] == right[i];
      } else {
        StepAt(g, s, b, i - n);
        assert left[i] == ((top[i] != (s + [false])[i - n]) != ([b] + Zeros(|s|))[i - n]);
        assert right[i] == ((top[i] != Scaled(t, g)[i - n]) != ([false] + Divided(g, s, b))[i - n]);
      }
    }
  }

  lemma TimesNext(p: Poly, t: bool, g: Poly)
    requires g != []
    ensures Times(p + [t], g) == Add(Times(p, g) + [false], Zeros(|p|) + Scaled(t, g))
  {
    assert (p + [t])[..|p|] == p;
  }

  lemma Divides(g: Poly, r: Poly, m: Poly)
    requires |r| == |g| - 1 > 0 && g[0]
    ensures Remainder(Dividend(r, m), g, DividedAll(g, r, m))
  {
    hide Quotient;
    var q := DividesWithQuotient(g, r, m);
  }

  // ---------------------------------------------------------------------------------------
  // There is only one remainder.

  /** A multiple of g whose high coefficients vanish is zero. */
  lemma {:induction false} SmallMultiple(q: Poly, g: Poly)
    requires g != [] && g[0] && forall i | 0 <= i < |q| :: !Times(q, g)[i]
    ensures Times(q, g) == Zeros(|q| + |g| - 1)
  {
    if q != [] {
      var n := |q| - 1;
      var high := Times(q[..n], g);
      forall i | 0 <= i < n ensures !high[i] { assert Times(q, g)[i] == high[i]; }
      SmallMultiple(q[..n], g);
      assert Times(q, g)[n] == q[n];
    }
  }

  lemma {:induction false} TimesAdds(p: Poly, q: Poly, g: Poly)
    requires |p| == |q| && g != []
    ensures Times(Add(p, q), g) == Add(Times(p, g), Times(q, g))
  {
    if p != [] {
      var n := |p| - 1;
      assert Add(p, q)[..n] == Add(p[..n], q[..n]);
      TimesAdds(p[..n], q[..n], g);
    }
  }

  lemma RemainderUnique(d: Poly, g: Poly, r: Poly, s: Poly)
    requires Remainder(d, g, r) && Remainder(d, g, s)
    ensures r == s
  {
    var p: Poly :| |p| == |d| - |r| && Quotient(d, g, p, r);
    var q: Poly :| |q| == |d| - |s| && Quotient(d, g, q, s);
    hide Times;
    TimesAdds(p, q, g);
    var a, b, n := Times(p, g), Times(q, g), |p|;
    forall i | 0 <= i < n ensures a[i] == b[i] {
      assert d[i] == (a[i] != (Zeros(n) + r)[i]) && d[i] == (b[i] != (Zeros(n) + s)[i]);
    }
    SmallMultiple(Add(p, q), g);
    forall j | 0 <= j < |r| ensures r[j] == s[j] {
      assert !Add(a, b)[n + j];
      assert d[n + j] == (a[n + j] != (Zeros(n) + r)[n + j]) && d[n + j] == (b[n + j] != (Zeros(n) + s)[n + j]);
    }
  }
}
