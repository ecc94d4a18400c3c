/** The mutable polynomials and the sparse products and quotients of crates/fflonk/src/utils.rs,
    with the arithmetic of crates/bellman/src/plonk/polynomials/mod.rs they use. */
module SparseArithmetic {
  import opened Modular
  import opened SparsePolynomials
  import P = Polynomials

  /** A polynomial in monomial form whose coefficients are residues modulo `p`. */
  class Polynomial {
    const p: nat
    var coeffs: seq<int>

    ghost predicate Valid()
      reads this
    {
      p > 0 && Reduced(p, coeffs)
    }

    constructor FromCoeffs(p: nat, coeffs: seq<int>)
      requires p > 0 && Reduced(p, coeffs)
      ensures Valid() && this.p == p && this.coeffs == coeffs
    {
      this.p, this.coeffs := p, coeffs;
    }

    method Clone() returns (c: Polynomial)
      requires Valid()
      ensures fresh(c) && c.Valid() && c.p == p && c.coeffs == coeffs
    {
      c := new Polynomial.FromCoeffs(p, coeffs);
    }

    method Scale(g: int)
      requires Valid()
      modifies this
      ensures Valid() && coeffs == ReducedAll(p, P.Scale(g, old(coeffs)))
    {
      ghost var a := coeffs;
      for i := 0 to |coeffs|
        invariant Valid() && |coeffs| == |a|
        invariant forall k | 0 <= k < i :: coeffs[k] == Red(p, g * a[k])
        invariant forall k | i <= k < |a| :: coeffs[k] == a[k]
      {
        assert coeffs[i] * g == g * a[i];
        coeffs := coeffs[i := Red(p, coeffs[i] * g)];
      }
      forall k: nat | k < |a| ensures coeffs[k] == ReducedAll(p, P.Scale(g, a))[k] {
        P.ScaleAt(g, a, k);
      }
    }

    method AddAssign(other: Polynomial)
      requires Valid() && other.Valid() && other.p == p && |coeffs| >= |other.coeffs|
      modifies this
      ensures Valid() && coeffs == ReducedAll(p, P.Add(old(coeffs), old(other.coeffs)))
    {
      var a, b := coeffs, other.coeffs;
      for i := 0 to |b|
        invariant Valid() && |coeffs| == |a|
        invariant forall k | 0 <= k < i :: coeffs[k] == Red(p, a[k] + b[k])
        invariant forall k | i <= k < |a| :: coeffs[k] == a[k]
      {
        coeffs := coeffs[i := Red(p, coeffs[i] + b[i])];
      }
      forall k: nat | k < |a| ensures coeffs[k] == ReducedAll(p, P.Add(a, b))[k] {
        P.AddAt(a, b, k);
      }
    }

    method AddAssignScaled(other: Polynomial, scaling: int)
      requires Valid() && other.Valid() && other.p == p && |coeffs| >= |other.coeffs|
      modifies this
      ensures Valid() && coeffs == ReducedAll(p, P.Add(old(coeffs), P.Scale(scaling, old(other.coeffs))))
    {
      var a, b := coeffs, other.coeffs;
      for i := 0 to |b|
        invariant Valid() && |coeffs| == |a|
        invariant forall k | 0 <= k < i :: coeffs[k] == Red(p, a[k] + Red(p, b[k] * scaling))
        invariant forall k | i <= k < |a| :: coeffs[k] == a[k]
      {
        coeffs := coeffs[i := Red(p, coeffs[i] + Red(p, b[i] * scaling))];
      }
      forall k: nat | k < |a| ensures coeffs[k] == ReducedAll(p, P.Add(a, P.Scale(scaling, b)))[k] {
        P.AddAt(a, P.Scale(scaling, b), k);
        P.ScaleAt(scaling, b, k);
        if k < |b| {
          Commute(b[k], scaling);
          RedRed(p, b[k] * scaling);
          RedAdd(p, a[k], a[k], Red(p, b[k] * scaling), b[k] * scaling);
        }
      }
    }

    method SubAssign(other: Polynomial)
      requires Valid() && other.Valid() && other.p == p && |coeffs| >= |other.coeffs|
      modifies this
      ensures Valid() && coeffs == ReducedAll(p, P.Add(old(coeffs), P.Scale(-1, old(other.coeffs))))
    {
      var a, b := coeffs, other.coeffs;
      for i := 0 to |b|
        invariant Valid() && |coeffs| == |a|
        invariant forall k | 0 <= k < i :: coeffs[k] == Red(p, a[k] - b[k])
        invariant forall k | i <= k < |a| :: coeffs[k] == a[k]
      {
        coeffs := coeffs[i := Red(p, coeffs[i] - b[i])];
      }
      forall k: nat | k < |a| ensures coeffs[k] == ReducedAll(p, P.Add(a, P.Scale(-1, b)))[k] {
        P.AddAt(a, P.Scale(-1, b), k);
        P.ScaleAt(-1, b, k);
      }
    }
  }

  // ---- Multiplication ----

  /** A polynomial times x^degree - c. */
  method MultiplyMonomialWithSparsePoly(poly: Polynomial, degree: nat, c: int) returns (result: Polynomial)
    requires poly.Valid()
    ensures fresh(result) && result.Valid() && result.p == poly.p
    ensures result.coeffs == ReducedAll(poly.p, TimesSparse(poly.coeffs, degree, c))
  {
    var p, a := poly.p, poly.coeffs;
    result := new Polynomial.FromCoeffs(p, seq(degree, _ => 0) + a);
    assert result.coeffs == P.Raised(degree, a);
    var tmp := poly.Clone();
    tmp.Scale(Red(p, -c));
    RedRed(p, -c);
    P.CongScale(p, Red(p, -c), -c, a, a);
    P.CongSameReduced(p, P.Scale(Red(p, -c), a), P.Scale(-c, a));
    P.CongReduced(p, P.Scale(-c, a));
    P.CongAdd(p, result.coeffs, P.Raised(degree, a), tmp.coeffs, P.Scale(-c, a));
    P.CongSameReduced(p, P.Add(result.coeffs, tmp.coeffs), TimesSparse(a, degree, c));
    result.AddAssign(tmp);
  }

  /** Only the coefficients from `t` on, in place. */
  ghost function Upper(a: seq<int>, t: nat): (u: seq<int>)
    requires t <= |a|
    ensures |u| == |a|
  {
    P.Raised(t, a[t..])
  }

  lemma {:induction false} EvalUpper(a: seq<int>, t: nat, x: int)
    requires t < |a|
    ensures P.Eval(Upper(a, t), x) == P.Eval(Upper(a, t + 1), x) + a[t] * Pow(x, t)
  {
    P.EvalRaised(t, a[t..], x);
    P.EvalRaised(t + 1, a[t + 1..], x);
    assert a[t..][0] == a[t] && a[t..][1..] == a[t + 1..];
    StepTimes(a[t], x, P.Eval(a[t + 1..], x), Pow(x, t));
  }

  /** The values of `u` are those of `v` and of c * x^t * b. */
  ghost predicate ShiftAdded(u: seq<int>, v: seq<int>, c: int, t: nat, b: seq<int>, x: int) {
    P.Eval(u, x) == P.Eval(v, x) + (c * P.Eval(b, x)) * Pow(x, t)
  }

  lemma {:induction false} ShiftAddedAt(u: seq<int>, v: seq<int>, c: int, t: nat, b: seq<int>, k: nat)
    requires forall x: int | x > 0 :: ShiftAdded(u, v, c, t, b, x)
    ensures P.At(u, k) == P.At(v, k) + c * P.At(b, k - t)
  {
    var w := P.Raised(t, P.Scale(c, b));
    forall x: int | x > 0 ensures P.SameAt(u, P.Add(v, w), x) {
      assert ShiftAdded(u, v, c, t, b, x);
      P.EvalAdd(v, w, x);
      P.EvalRaised(t, P.Scale(c, b), x);
      P.EvalScale(c, b, x);
    }
    P.EvalDetermines(u, P.Add(v, w), k);
    P.AddAt(v, w, k);
    ScaledShift(c, b, t, k);
  }

  lemma {:induction false} ScaledShift(c: int, b: seq<int>, t: nat, k: nat)
    ensures P.At(P.Raised(t, P.Scale(c, b)), k) == c * P.At(b, k - t)
  {
    assert P.At(P.Raised(t, P.Scale(c, b)), k) == P.At(P.Scale(c, b), k - t);
    if k >= t { P.ScaleAt(c, b, k - t); } else { assert c * 0 == 0; }
  }

  lemma {:induction false} UpperStep(a: seq<int>, b: seq<int>, t: nat, k: nat)
    requires t < |a|
    ensures P.At(P.Mul(Upper(a, t), b), k)
         == P.At(P.Mul(Upper(a, t + 1), b), k) + a[t] * P.At(b, k - t)
  {
    var u, v := P.Mul(Upper(a, t), b), P.Mul(Upper(a, t + 1), b);
    forall x: int | x > 0 ensures ShiftAdded(u, v, a[t], t, b, x) {
      P.EvalMul(Upper(a, t), b, x);
      P.EvalMul(Upper(a, t + 1), b, x);
      EvalUpper(a, t, x);
      SplitProduct(P.Eval(Upper(a, t + 1), x), a[t], Pow(x, t), P.Eval(b, x));
    }
    ShiftAddedAt(u, v, a[t], t, b, k);
  }

  lemma SplitProduct(u: int, c: int, w: int, v: int)
    ensures (u + c * w) * v == u * v + (c * v) * w
  {
  }

  lemma {:induction false} UpperEnd(a: seq<int>, b: seq<int>, k: nat)
    ensures P.At(P.Mul(Upper(a, |a|), b), k) == 0
  {
    var u := P.Mul(Upper(a, |a|), b);
    forall x: int | x > 0 ensures P.SameAt(u, [], x) {
      P.EvalMul(Upper(a, |a|), b, x);
      P.EvalRaised(|a|, [], x);
      assert a[|a|..] == [] && 0 * P.Eval(b, x) == 0 && 0 * Pow(x, |a|) == 0;
    }
    P.EvalDetermines(u, [], k);
  }

  lemma {:induction false} UpperWhole(a: seq<int>)
    ensures Upper(a, 0) == a
  {
  }

  /** Row `i` of a product of lists has been added up to column `j`. */
  ghost predicate PartRows(p: nat, result: seq<int>, done: seq<int>, c: int, b: seq<int>, i: nat, j: nat)
    requires p > 0
  {
    forall k: nat | k < |result| :: result[k] == PartRow(p, done, c, b, i, j, k)
  }

  /** A coefficient while row `i` of the product has been added up to column `j`. */
  ghost function PartRow(p: nat, done: seq<int>, c: int, b: seq<int>, i: nat, j: nat, k: nat): int
    requires p > 0
  {
    Red(p, P.At(done, k) + if k - i < j then c * P.At(b, k - i) else 0)
  }

  lemma {:induction false} NextColumn(p: nat, before: seq<int>, done: seq<int>, c: int, b: seq<int>, i: nat, j: nat)
    requires p > 0 && PartRows(p, before, done, c, b, i, j) && j < |b| && i + j < |before|
    ensures PartRows(p, before[i + j := Red(p, before[i + j] + Red(p, c * b[j]))], done, c, b, i, j + 1)
  {
    AddedTerm(p, P.At(done, i + j), c * b[j]);
  }

  lemma {:induction false} RowFinished(p: nat, result: seq<int>, a: seq<int>, b: seq<int>, i: nat)
    requires p > 0 && i < |a| && PartRows(p, result, P.Mul(a[..i], b), a[i], b, i, |b|)
    ensures forall k: nat | k < |result| :: result[k] == Red(p, P.At(P.Mul(a[..i + 1], b), k))
  {
    forall k: nat | k < |result| ensures result[k] == Red(p, P.At(P.Mul(a[..i + 1], b), k)) {
      LowerStep(a, b, i, k);
      assert a[i] * 0 == 0;
    }
  }

  lemma {:induction false} RowBegins(p: nat, result: seq<int>, done: seq<int>, c: int, b: seq<int>, i: nat)
    requires p > 0 && forall k: nat | k < |result| :: result[k] == Red(p, P.At(done, k))
    ensures PartRows(p, result, done, c, b, i, 0)
  {
    assert c * 0 == 0;
  }

  /** The product of two coefficient lists. */
  method MultiplyMonomials(p: nat, a: seq<int>, b: seq<int>) returns (result: seq<int>)
    requires p > 0 && |a| > 0 && |b| > 0
    ensures result == ReducedAll(p, P.Mul(a, b))
  {
    var total := (|a| - 1) + (|b| - 1) + 1;
    result := seq(total, _ => 0);
    NoProduct(a, b);
    for i := 0 to |a|
      invariant |result| == total
      invariant forall k: nat | k < total :: result[k] == Red(p, P.At(P.Mul(a[..i], b), k))
    {
      RowBegins(p, result, P.Mul(a[..i], b), a[i], b, i);
      for j := 0 to |b|
        invariant |result| == total && PartRows(p, result, P.Mul(a[..i], b), a[i], b, i, j)
      {
        var tmp := Red(p, a[i] * b[j]);
        NextColumn(p, result, P.Mul(a[..i], b), a[i], b, i, j);
        result := result[i + j := Red(p, result[i + j] + tmp)];
      }
      RowFinished(p, result, a, b, i);
    }
    assert a[..|a|] == a;
  }

  lemma {:induction false} AddedTerm(p: nat, u: int, v: int)
    requires p > 0
    ensures Red(p, Red(p, u) + Red(p, v)) == Red(p, u + v)
  {
    RedRed(p, u);
    RedRed(p, v);
    RedAdd(p, Red(p, u), u, Red(p, v), v);
  }

  lemma {:induction false} NoProduct(a: seq<int>, b: seq<int>)
    ensures P.Mul(a[..0], b) == []
  {
  }

  lemma {:induction false} LowerStep(a: seq<int>, b: seq<int>, i: nat, k: nat)
    requires i < |a|
    ensures P.At(P.Mul(a[..i + 1], b), k) == P.At(P.Mul(a[..i], b), k) + a[i] * P.At(b, k - i)
  {
    var u, v := P.Mul(a[..i + 1], b), P.Mul(a[..i], b);
    forall x: int | x > 0 ensures ShiftAdded(u, v, a[i], i, b, x) {
      P.EvalMul(a[..i + 1], b, x);
      P.EvalMul(a[..i], b, x);
      assert a[..i + 1] == a[..i] + [a[i]];
      P.EvalSnoc(a[..i], a[i], x);
      SplitProduct(P.Eval(a[..i], x), a[i], Pow(x, i), P.Eval(b, x));
    }
    ShiftAddedAt(u, v, a[i], i, b, k);
  }

  /** The coefficients of x^degree - c. */
  method SparseCoefficients(p: nat, pair: Sparse) returns (coeffs: seq<int>)
    requires p > 1 && pair.degree > 0
    ensures coeffs == ReducedAll(p, TimesSparse([1], pair.degree, pair.c))
  {
    coeffs := seq(pair.degree + 1, _ => 0);
    coeffs := coeffs[0 := Red(p, -pair.c)];
    coeffs := coeffs[pair.degree := 1];
    forall k: nat | k < |coeffs| ensures coeffs[k] == ReducedAll(p, TimesSparse([1], pair.degree, pair.c))[k] {
      TimesSparseAt([1], pair.degree, pair.c, k);
      assert pair.c * 1 == pair.c && pair.c * 0 == 0;
    }
  }

  lemma {:induction false} EvalOne(x: int)
    ensures P.Eval([1], x) == 1
  {
    P.EvalSnoc([], 1, x);
    assert [] + [1] == [1];
  }

  lemma {:induction false} VanishSnoc(pairs: seq<Sparse>, i: nat, m: seq<int>, x: int)
    requires i < |pairs| && P.Eval(m, x) == Vanish(pairs[..i], x)
    ensures P.Eval(P.Mul(m, TimesSparse([1], pairs[i].degree, pairs[i].c)), x) == Vanish(pairs[..i + 1], x)
    ensures Degree(pairs[..i + 1]) == Degree(pairs[..i]) + pairs[i].degree
  {
    var e := pairs[i];
    P.EvalMul(m, TimesSparse([1], e.degree, e.c), x);
    EvalTimesSparse([1], e.degree, e.c, x);
    EvalOne(x);
    assert pairs[..i + 1] == pairs[..i] + [e];
    VanishConcat(pairs[..i], [e], x);
    DegreeConcat(pairs[..i], [e]);
    assert [e][1..] == [];
  }

  ghost predicate ProductOf(m: seq<int>, pairs: seq<Sparse>) {
    |m| == Degree(pairs) + 1 && forall x: int :: ValueIs(m, pairs, x)
  }

  ghost predicate ValueIs(m: seq<int>, pairs: seq<Sparse>, x: int) {
    P.Eval(m, x) == Vanish(pairs, x)
  }

  lemma {:induction false} OneMoreFactor(p: nat, m: seq<int>, pairs: seq<Sparse>, i: nat)
    requires p > 0 && i < |pairs| && ProductOf(m, pairs[..i])
    ensures var b := TimesSparse([1], pairs[i].degree, pairs[i].c);
      && ProductOf(P.Mul(m, b), pairs[..i + 1])
      && ReducedAll(p, P.Mul(ReducedAll(p, m), ReducedAll(p, b))) == ReducedAll(p, P.Mul(m, b))
  {
    var b := TimesSparse([1], pairs[i].degree, pairs[i].c);
    var mb, more := P.Mul(m, b), pairs[..i + 1];
    forall x: int ensures ValueIs(mb, more, x) {
      assert ValueIs(m, pairs[..i], x);
      VanishSnoc(pairs, i, m, x);
    }
    assert ValueIs(m, pairs[..i], 0);
    VanishSnoc(pairs, i, m, 0);
    P.CongReduced(p, m);
    P.CongReduced(p, b);
    P.CongMul(p, ReducedAll(p, m), m, ReducedAll(p, b), b);
    P.CongSameReduced(p, P.Mul(ReducedAll(p, m), ReducedAll(p, b)), P.Mul(m, b));
  }

  /** The product of all the binomials. */
  method MultiplySparse(p: nat, pairs: seq<Sparse>) returns (previous: seq<int>, ghost m: seq<int>)
    requires p > 1 && |pairs| > 0 && AllPositive(pairs)
    ensures ProductOf(m, pairs) && previous == ReducedAll(p, m)
  {
    previous := SparseCoefficients(p, pairs[0]);
    m := TimesSparse([1], pairs[0].degree, pairs[0].c);
    assert pairs[..1] == [pairs[0]] && [pairs[0]][1..] == [];
    forall x: int ensures ValueIs(m, pairs[..1], x) {
      EvalTimesSparse([1], pairs[0].degree, pairs[0].c, x);
      EvalOne(x);
    }
    for i := 1 to |pairs|
      invariant ProductOf(m, pairs[..i]) && previous == ReducedAll(p, m)
    {
      var current := SparseCoefficients(p, pairs[i]);
      OneMoreFactor(p, m, pairs, i);
      previous := MultiplyMonomials(p, previous, current);
      m := P.Mul(m, TimesSparse([1], pairs[i].degree, pairs[i].c));
    }
    assert pairs[..|pairs|] == pairs;
  }

  lemma {:induction false} ProductIsTimesAll(m: seq<int>, a: seq<int>, pairs: seq<Sparse>, k: nat)
    requires ProductOf(m, pairs)
    ensures P.At(P.Mul(m, a), k) == P.At(TimesAll(a, pairs), k)
  {
    forall x: int | x > 0 ensures P.SameAt(P.Mul(m, a), TimesAll(a, pairs), x) {
      assert ValueIs(m, pairs, x);
      P.EvalMul(m, a, x);
      EvalTimesAll(a, pairs, x);
      Commute(P.Eval(m, x), P.Eval(a, x));
    }
    P.EvalDetermines(P.Mul(m, a), TimesAll(a, pairs), k);
  }

  /** Adds `scaling` * x^degree * poly. */
  method AddShifted(result: Polynomial, poly: Polynomial, scaling: int, degree: nat)
    requires poly.Valid() && result.Valid() && result.p == poly.p && result != poly
    requires |result.coeffs| >= degree + |poly.coeffs|
    modifies result
    ensures result.Valid() && |result.coeffs| == old(|result.coeffs|)
    ensures forall k: nat | k < |result.coeffs| ::
      result.coeffs[k] == Red(result.p, old(result.coeffs)[k] + scaling * P.At(poly.coeffs, k - degree))
  {
    var p, a := poly.p, poly.coeffs;
    var tmp := poly.Clone();
    tmp.Scale(scaling);
    var tmp2 := new Polynomial.FromCoeffs(p, seq(degree, _ => 0) + tmp.coeffs);
    ghost var before, b := result.coeffs, tmp2.coeffs;
    result.AddAssign(tmp2);
    forall k: nat | k < |before| ensures result.coeffs[k] == Red(p, before[k] + scaling * P.At(a, k - degree)) {
      P.AddAt(before, b, k);
      ShiftedAt(p, a, b, scaling, degree, k);
      RedAdd(p, before[k], before[k], P.At(b, k), scaling * P.At(a, k - degree));
    }
  }

  lemma {:induction false} ShiftedAt(p: nat, a: seq<int>, b: seq<int>, scaling: int, degree: nat, k: nat)
    requires p > 0 && b == P.Zeros(degree) + ReducedAll(p, P.Scale(scaling, a))
    ensures Red(p, P.At(b, k)) == Red(p, scaling * P.At(a, k - degree))
  {
    if k < degree || k - degree >= |a| {
      assert scaling * 0 == 0;
    } else {
      P.ScaleAt(scaling, a, k - degree);
      RedRed(p, scaling * a[k - degree]);
    }
  }

  lemma {:induction false} AddedRow(p: nat, r: int, u: int, s: int, m: int, c: int)
    requires p > 0 && s == Red(p, m) && r == Red(p, u)
    ensures Red(p, r + s * c) == Red(p, u + m * c)
  {
    RedRed(p, m);
    RedRed(p, u);
    RedMul(p, s, m, c, c);
    RedAdd(p, r, u, s * c, m * c);
  }

  /** The coefficients of the product of `m`, from x^t on, with `a`. */
  ghost predicate Accumulated(p: nat, r: seq<int>, m: seq<int>, t: nat, a: seq<int>)
    requires p > 0 && t <= |m|
  {
    var u := P.Mul(Upper(m, t), a);
    forall k: nat | k < |r| :: r[k] == Red(p, P.At(u, k))
  }

  lemma {:induction false} OneMoreRow(p: nat, before: seq<int>, after: seq<int>, m: seq<int>, t: nat, a: seq<int>,
                                      s: int)
    requires p > 0 && t < |m| && s == Red(p, m[t]) && Accumulated(p, before, m, t + 1, a) && |before| == |after|
    requires forall k: nat | k < |after| :: after[k] == Red(p, before[k] + s * P.At(a, k - t))
    ensures Accumulated(p, after, m, t, a)
  {
    forall k: nat | k < |after| ensures after[k] == Red(p, P.At(P.Mul(Upper(m, t), a), k)) {
      UpperStep(m, a, t, k);
      AddedRow(p, before[k], P.At(P.Mul(Upper(m, t + 1), a), k), s, m[t], P.At(a, k - t));
    }
  }

  /** A polynomial times all the binomials. */
  method MultiplyMonomialWithMultipleSparsePolys(poly: Polynomial, pairs: seq<Sparse>) returns (result: Polynomial)
    requires poly.Valid() && poly.p > 1 && |pairs| > 0 && AllPositive(pairs)
    ensures fresh(result) && result.Valid() && result.p == poly.p
    ensures result.coeffs == ReducedAll(poly.p, TimesAll(poly.coeffs, pairs))
  {
    var p, a := poly.p, poly.coeffs;
    ghost var m;
    var previous;
    previous, m := MultiplySparse(p, pairs);
    var total := |previous| - 1;
    var full := |a| + total;
    result := new Polynomial.FromCoeffs(p, seq(full, _ => 0));
    forall k: nat { UpperEnd(m, a, k); }
    for pos := 0 to |previous|
      invariant fresh(result) && result.Valid() && result.p == p && |result.coeffs| == full
      invariant Accumulated(p, result.coeffs, m, total + 1 - pos, a)
    {
      var current := total - pos;
      ghost var before := result.coeffs;
      AddShifted(result, poly, previous[current], current);
      OneMoreRow(p, before, result.coeffs, m, current, a, previous[current]);
    }
    UpperWhole(m);
    forall k: nat | k < full ensures result.coeffs[k] == ReducedAll(p, TimesAll(a, pairs))[k] {
      ProductIsTimesAll(m, a, pairs, k);
    }
  }
}
