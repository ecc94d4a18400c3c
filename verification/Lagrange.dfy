/** Interpolation over distinct points modulo a prime: quotients by linear terms as basis
    polynomials, uniqueness, and evaluation without interpolating. */
module Lagrange {
  import opened Modular
  import opened FieldInverse
  import opened PrimeFields
  import opened Polynomials
  import opened SparsePolynomials

  /** The derivative of a polynomial at `x`. */
  ghost function Deriv(f: seq<int>, x: int): int {
    if |f| == 0 then 0 else Eval(f[1..], x) + x * Deriv(f[1..], x)
  }

  ghost predicate Distinct(p: nat, pts: seq<int>)
    requires p > 0
  {
    forall i, j | 0 <= i < j < |pts| :: Red(p, pts[i]) != Red(p, pts[j])
  }

  ghost predicate Roots(p: nat, f: seq<int>, pts: seq<int>)
    requires p > 0
  {
    forall j | 0 <= j < |pts| :: Red(p, Eval(f, pts[j])) == 0
  }

  /** The list has one coefficient per point and takes the given values there. */
  ghost predicate Interpolates(p: nat, r: seq<int>, pts: seq<int>, vs: seq<int>)
    requires p > 0 && |pts| == |vs|
  {
    |r| == |pts| && forall j | 0 <= j < |pts| :: Red(p, Eval(r, pts[j])) == Red(p, vs[j])
  }

  // ---- Division by a linear term ----

  lemma {:induction false} QuotientIsTail(f: seq<int>, c: int, j: nat)
    requires j < |f|
    ensures QuotientAt(f, 1, c, j) == Eval(f[j + 1..], c)
    decreases |f| - j
  {
    if j + 1 < |f| {
      QuotientIsTail(f, c, j + 1);
      assert f[j + 1..][1..] == f[j + 2..];
    }
  }

  lemma {:induction false} LinearQuotientCons(f: seq<int>, c: int)
    requires |f| > 1
    ensures SparseQuotient(f, 1, c) == [Eval(f[1..], c)] + SparseQuotient(f[1..], 1, c)
  {
    var q, r := SparseQuotient(f, 1, c), SparseQuotient(f[1..], 1, c);
    forall j | 0 <= j < |q| ensures q[j] == ([Eval(f[1..], c)] + r)[j] {
      QuotientIsTail(f, c, j);
      if j > 0 {
        QuotientIsTail(f[1..], c, j - 1);
        assert f[1..][j..] == f[j + 1..];
      }
    }
  }

  /** At the point itself the quotient is the derivative. */
  lemma {:induction false} QuotientAtPoint(f: seq<int>, c: int)
    requires |f| > 0
    ensures Eval(SparseQuotient(f, 1, c), c) == Deriv(f, c)
  {
    if |f| > 1 {
      QuotientAtPoint(f[1..], c);
      LinearQuotientCons(f, c);
      EvalCons(Eval(f[1..], c), SparseQuotient(f[1..], 1, c), c);
    } else {
      assert f[1..] == [] && SparseQuotient(f, 1, c) == [] && c * 0 == 0;
    }
  }

  /** What is left over is the value at the point. */
  lemma {:induction false} LinearDivision(f: seq<int>, c: int, x: int)
    requires |f| > 0
    ensures Eval(f, x) == Eval(SparseQuotient(f, 1, c), x) * (x - c) + Eval(f, c)
  {
    EvalDivision(f, 1, c, x);
    QuotientIsTail(f, c, 0);
    var r := Remainder(f, 1, c);
    assert r == [RemainderAt(f, 1, c, 0)] && r[1..] == [];
    assert x * 0 == 0 && Pow(x, 1) == Pow(x, 0) * x;
  }

  /** Away from the point, the quotient vanishes at the other roots. */
  lemma {:induction false} QuotientAtOtherRoot(p: nat, f: seq<int>, c: int, x: int)
    requires Prime(p) && |f| > 0 && Red(p, Eval(f, c)) == 0 && Red(p, Eval(f, x)) == 0 && Red(p, c) != Red(p, x)
    ensures Red(p, Eval(SparseQuotient(f, 1, c), x)) == 0
  {
    LinearDivision(f, c, x);
    RedAdd(p, Eval(f, x), 0, Eval(f, c), 0);
    NoZeroDivisors(p, Eval(SparseQuotient(f, 1, c), x), x - c);
    if Red(p, x - c) == 0 { RedAdd(p, x - c, 0, c, c); }
  }

  // ---- Few roots, few interpolants ----

  /** A list with no more coefficients than it has distinct roots is zero. */
  lemma {:induction false} FewRoots(p: nat, a: seq<int>, pts: seq<int>)
    requires Prime(p) && |a| <= |pts| && Distinct(p, pts) && Roots(p, a, pts)
    ensures forall k | 0 <= k < |a| :: Red(p, a[k]) == 0
    decreases |a|
  {
    if |a| > 0 {
      var c, q := pts[0], SparseQuotient(a, 1, pts[0]);
      forall j | 0 <= j < |pts| - 1 ensures Red(p, Eval(q, pts[1..][j])) == 0 {
        QuotientAtOtherRoot(p, a, c, pts[j + 1]);
      }
      FewRoots(p, q, pts[1..]);
      forall k | 0 <= k < |a| ensures Red(p, a[k]) == 0 {
        var u := QuotientAt(a, 1, c, k);
        if k + 1 < |a| { assert u == q[k]; }
        assert c * 0 == 0;
        RedMul(p, c, c, u, 0);
        if k > 0 {
          assert q[k - 1] == a[k] + c * u;
        } else {
          QuotientIsTail(a, c, 0);
          assert Eval(a, c) == a[0] + c * u;
        }
        RedAdd(p, a[k] + c * u, 0, c * u, 0);
      }
    }
  }

  lemma {:induction false} SameValuesSameList(p: nat, r: seq<int>, s: seq<int>, pts: seq<int>, vs: seq<int>)
    requires Prime(p) && Distinct(p, pts) && |pts| == |vs| && Interpolates(p, r, pts, vs) && Interpolates(p, s, pts, vs)
    ensures Cong(p, r, s)
  {
    var d := Add(r, Scale(-1, s));
    forall j | 0 <= j < |pts| ensures Red(p, Eval(d, pts[j])) == 0 {
      EvalAdd(r, Scale(-1, s), pts[j]);
      EvalScale(-1, s, pts[j]);
      RedAdd(p, Eval(r, pts[j]), Eval(s, pts[j]), Eval(s, pts[j]), Eval(s, pts[j]));
    }
    FewRoots(p, d, pts);
    forall k | 0 <= k < |r| ensures Red(p, r[k]) == Red(p, s[k]) {
      AddAt(r, Scale(-1, s), k);
      ScaleAt(-1, s, k);
      assert Red(p, d[k]) == 0;
      RedAdd(p, d[k], 0, s[k], s[k]);
    }
  }

  // ---- Basis polynomials ----

  /** The points are distinct roots of `num`, whose derivative there times the weight is the constant. */
  ghost predicate Nodes(p: nat, num: seq<int>, pts: seq<int>, ws: seq<int>, ks: seq<int>)
    requires p > 0
  {
    && |num| == |pts| + 1 && |ws| == |pts| == |ks|
    && Distinct(p, pts) && Roots(p, num, pts)
    && forall j | 0 <= j < |pts| :: Red(p, ws[j] * Deriv(num, pts[j])) == Red(p, ks[j]) && Red(p, ks[j]) != 0
  }

  /** A quotient scaled by value * weight / constant takes the value at its own point, zero at the others. */
  lemma {:induction false} BasisValue(p: nat, num: seq<int>, pts: seq<int>, ws: seq<int>, ks: seq<int>,
                                      i: nat, j: nat, c: int, v: int, kinv: int)
    requires Prime(p) && Nodes(p, num, pts, ws, ks) && i < |pts| && j < |pts|
    requires Red(p, kinv * ks[i]) == 1 && Red(p, c) == Red(p, ws[i] * kinv * v)
    ensures Red(p, c * Eval(SparseQuotient(num, 1, pts[i]), pts[j])) == if i == j then Red(p, v) else 0
  {
    var q := Eval(SparseQuotient(num, 1, pts[i]), pts[j]);
    if i == j {
      QuotientAtPoint(num, pts[i]);
      RedMul(p, c, ws[i] * kinv * v, q, q);
      Regroup(ws[i], kinv, v, q);
      RedMul(p, ws[i] * q, ks[i], kinv, kinv);
      Commute(ks[i], kinv);
      RedMul(p, (ws[i] * q) * kinv, 1, v, v);
    } else {
      assert Red(p, pts[i]) != Red(p, pts[j]);
      QuotientAtOtherRoot(p, num, pts[i], pts[j]);
      RedMul(p, c, c, q, 0);
      assert c * 0 == 0;
    }
  }

  lemma Regroup(w: int, k: int, v: int, q: int)
    ensures (w * k * v) * q == ((w * q) * k) * v
  {
    assert (w * k * v) * q == (w * k) * (v * q);
    assert ((w * q) * k) * v == (w * k) * (q * v);
  }

  // ---- Interpolants ----

  ghost function Interpolant(num: seq<int>, pts: seq<int>, cs: seq<int>, n: nat): (r: seq<int>)
    requires |num| > 0 && n <= |pts| && |cs| == |pts|
    ensures |r| == |num| - 1
  {
    if n == 0 then Zeros(|num| - 1)
    else Add(Interpolant(num, pts, cs, n - 1), Scale(cs[n - 1], SparseQuotient(num, 1, pts[n - 1])))
  }

  lemma {:induction false} EvalInterpolant(num: seq<int>, pts: seq<int>, cs: seq<int>, n: nat, x: int)
    requires |num| > 0 && 0 < n <= |pts| && |cs| == |pts|
    ensures Eval(Interpolant(num, pts, cs, n), x)
         == Eval(Interpolant(num, pts, cs, n - 1), x) + cs[n - 1] * Eval(SparseQuotient(num, 1, pts[n - 1]), x)
  {
    EvalAdd(Interpolant(num, pts, cs, n - 1), Scale(cs[n - 1], SparseQuotient(num, 1, pts[n - 1])), x);
    EvalScale(cs[n - 1], SparseQuotient(num, 1, pts[n - 1]), x);
  }

  /** Scalars that turn the quotients into the basis polynomials of the values. */
  ghost predicate Scalars(p: nat, ws: seq<int>, ks: seq<int>, vs: seq<int>, kinvs: seq<int>, cs: seq<int>)
    requires p > 0
  {
    && |ws| == |ks| == |vs| == |kinvs| == |cs|
    && forall i | 0 <= i < |ws| :: Red(p, kinvs[i] * ks[i]) == 1 && Red(p, cs[i]) == Red(p, ws[i] * kinvs[i] * vs[i])
  }

  lemma {:induction false} InterpolantValue(p: nat, num: seq<int>, pts: seq<int>, ws: seq<int>, ks: seq<int>,
                                            vs: seq<int>, kinvs: seq<int>, cs: seq<int>, n: nat, j: nat)
    requires Prime(p) && Nodes(p, num, pts, ws, ks) && Scalars(p, ws, ks, vs, kinvs, cs) && n <= |pts| && j < |pts|
    ensures Red(p, Eval(Interpolant(num, pts, cs, n), pts[j])) == if j < n then Red(p, vs[j]) else 0
  {
    if n == 0 {
      EvalZeros(|num| - 1, pts[j]);
    } else {
      InterpolantValue(p, num, pts, ws, ks, vs, kinvs, cs, n - 1, j);
      EvalInterpolant(num, pts, cs, n, pts[j]);
      BasisValue(p, num, pts, ws, ks, n - 1, j, cs[n - 1], vs[n - 1], kinvs[n - 1]);
      var u, t := Eval(Interpolant(num, pts, cs, n - 1), pts[j]),
        cs[n - 1] * Eval(SparseQuotient(num, 1, pts[n - 1]), pts[j]);
      RedAdd(p, u, if j < n - 1 then vs[j] else 0, t, if n - 1 == j then vs[j] else 0);
    }
  }

  /** The terms v * (w * num(y) / (constant * (y - point))), summed. */
  ghost function Barycentric(num: seq<int>, ws: seq<int>, vs: seq<int>, invs: seq<int>, y: int, n: nat): int
    requires n <= |ws| && |vs| == |ws| == |invs|
  {
    if n == 0 then 0
    else Barycentric(num, ws, vs, invs, y, n - 1) + vs[n - 1] * (Eval(num, y) * invs[n - 1] * ws[n - 1])
  }

  ghost predicate Inverses(p: nat, pts: seq<int>, ks: seq<int>, invs: seq<int>, y: int)
    requires p > 0
  {
    && |pts| == |ks| == |invs|
    && forall i | 0 <= i < |pts| :: Red(p, invs[i] * (ks[i] * (y - pts[i]))) == 1
  }

  lemma {:induction false} BarycentricTerm(p: nat, num: seq<int>, pt: int, w: int, k: int, v: int, kinv: int, c: int,
                                           inv: int, y: int)
    requires p > 0 && |num| > 0 && Red(p, Eval(num, pt)) == 0 && Red(p, kinv * k) == 1
    requires Red(p, c) == Red(p, w * kinv * v) && Red(p, inv * (k * (y - pt))) == 1
    ensures Red(p, c * Eval(SparseQuotient(num, 1, pt), y)) == Red(p, v * (Eval(num, y) * inv * w))
  {
    var q, n := Eval(SparseQuotient(num, 1, pt), y), Eval(num, y);
    LinearDivision(num, pt, y);
    RedAdd(p, n, n, Eval(num, pt), 0);
    var e := w * kinv * v;
    RedMul(p, c, e, q, q);
    RedMul(p, e * q, e * q, inv * (k * (y - pt)), 1);
    RegroupTerm(w, kinv, v, q, inv, k, y - pt);
    RedMul(p, kinv * k, 1, q * (y - pt), n);
    RedMul(p, (kinv * k) * (q * (y - pt)), n, w * v * inv, w * v * inv);
    RegroupBack(n, w, v, inv);
  }

  lemma RegroupTerm(w: int, kinv: int, v: int, q: int, inv: int, k: int, d: int)
    ensures ((w * kinv * v) * q) * (inv * (k * d)) == ((kinv * k) * (q * d)) * (w * v * inv)
  {
    assert (w * kinv * v) * q == (w * v) * (kinv * q);
    assert ((w * v) * (kinv * q)) * (inv * (k * d)) == ((w * v) * inv) * ((kinv * q) * (k * d));
    assert (kinv * q) * (k * d) == (kinv * k) * (q * d);
  }

  lemma RegroupBack(n: int, w: int, v: int, inv: int)
    ensures n * (w * v * inv) == v * (n * inv * w)
  {
    assert n * (w * v * inv) == (n * inv) * (w * v);
    assert v * (n * inv * w) == (n * inv) * (w * v);
  }

  lemma {:induction false} BarycentricIsInterpolant(p: nat, num: seq<int>, pts: seq<int>, ws: seq<int>, ks: seq<int>,
                                                    vs: seq<int>, kinvs: seq<int>, cs: seq<int>, invs: seq<int>, y: int,
                                                    n: nat)
    requires p > 0 && Nodes(p, num, pts, ws, ks) && Scalars(p, ws, ks, vs, kinvs, cs) && Inverses(p, pts, ks, invs, y)
    requires n <= |pts|
    ensures Red(p, Barycentric(num, ws, vs, invs, y, n)) == Red(p, Eval(Interpolant(num, pts, cs, n), y))
  {
    if n == 0 {
      EvalZeros(|num| - 1, y);
    } else {
      var i := n - 1;
      BarycentricIsInterpolant(p, num, pts, ws, ks, vs, kinvs, cs, invs, y, i);
      EvalInterpolant(num, pts, cs, n, y);
      BarycentricTerm(p, num, pts[i], ws[i], ks[i], vs[i], kinvs[i], cs[i], invs[i], y);
      RedAdd(p, Barycentric(num, ws, vs, invs, y, i), Eval(Interpolant(num, pts, cs, i), y),
             vs[i] * (Eval(num, y) * invs[i] * ws[i]), cs[i] * Eval(SparseQuotient(num, 1, pts[i]), y));
    }
  }

  lemma {:induction false} ConstantInverses(p: nat, ws: seq<int>, ks: seq<int>, vs: seq<int>, n: nat)
    returns (kinvs: seq<int>, cs: seq<int>)
    requires Prime(p) && |ws| == |ks| == |vs| && n <= |ws| && forall j | 0 <= j < |ks| :: Red(p, ks[j]) != 0
    ensures Scalars(p, ws[..n], ks[..n], vs[..n], kinvs, cs)
  {
    if n == 0 {
      kinvs, cs := [], [];
    } else {
      kinvs, cs := ConstantInverses(p, ws, ks, vs, n - 1);
      var z := InverseExists(p, Red(p, ks[n - 1]));
      RedRed(p, ks[n - 1]);
      RedMul(p, Red(p, ks[n - 1]), ks[n - 1], z, z);
      Commute(ks[n - 1], z);
      kinvs, cs := kinvs + [z], cs + [ws[n - 1] * z * vs[n - 1]];
      assert ws[..n] == ws[..n - 1] + [ws[n - 1]] && ks[..n] == ks[..n - 1] + [ks[n - 1]]
        && vs[..n] == vs[..n - 1] + [vs[n - 1]];
    }
  }

  /** The barycentric sum is the value at `y` of whatever list interpolates the values. */
  lemma {:induction false} BarycentricValue(p: nat, num: seq<int>, pts: seq<int>, ws: seq<int>, ks: seq<int>,
                                            vs: seq<int>, invs: seq<int>, y: int, r: seq<int>)
    requires Prime(p) && Nodes(p, num, pts, ws, ks) && |vs| == |pts| && Inverses(p, pts, ks, invs, y)
    requires Interpolates(p, r, pts, vs)
    ensures Red(p, Barycentric(num, ws, vs, invs, y, |pts|)) == Red(p, Eval(r, y))
  {
    var n := |pts|;
    var kinvs, cs := ConstantInverses(p, ws, ks, vs, n);
    assert ws[..n] == ws && ks[..n] == ks && vs[..n] == vs;
    var s := Interpolant(num, pts, cs, n);
    forall j | 0 <= j < n ensures Red(p, Eval(s, pts[j])) == Red(p, vs[j]) {
      InterpolantValue(p, num, pts, ws, ks, vs, kinvs, cs, n, j);
    }
    SameValuesSameList(p, r, s, pts, vs);
    EvalRed(p, r, s, y, y);
    BarycentricIsInterpolant(p, num, pts, ws, ks, vs, kinvs, cs, invs, y, n);
  }
}
