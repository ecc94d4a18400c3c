/** The interpolation and evaluation loops of crates/fflonk/src/utils.rs. */
module Interpolation {
  import opened Outcomes
  import opened Modular
  import opened FieldInverse
  import opened PrimeFields
  import opened SparsePolynomials
  import opened Lagrange
  import opened OpeningSets
  import P = Polynomials

  // ---- Evaluation and linear division ----

  /** The value of a polynomial, from the highest coefficient down. */
  method HornerEvaluation(p: nat, coeffs: seq<int>, x: int) returns (sum: int)
    requires p > 0 && |coeffs| > 0 && Reduced(p, coeffs)
    ensures sum == Red(p, P.Eval(coeffs, x))
  {
    sum := coeffs[|coeffs| - 1];
    assert coeffs[|coeffs| - 1..][1..] == [] && x * 0 == 0;
    for i := |coeffs| - 1 downto 0
      invariant sum == Red(p, P.Eval(coeffs[i..], x))
    {
      sum := Red(p, Red(p, sum * x) + coeffs[i]);
      HornerStep(p, coeffs[i..], x, sum);
    }
    assert coeffs[0..] == coeffs;
  }

  lemma {:induction false} HornerStep(p: nat, a: seq<int>, x: int, sum: int)
    requires p > 0 && |a| > 0 && sum == Red(p, Red(p, Red(p, P.Eval(a[1..], x)) * x) + a[0])
    ensures sum == Red(p, P.Eval(a, x))
  {
    var u := P.Eval(a[1..], x);
    RedRed(p, u);
    RedMul(p, Red(p, u), u, x, x);
    RedRed(p, Red(p, u) * x);
    Commute(u, x);
    RedAdd(p, Red(p, Red(p, u) * x), x * u, a[0], a[0]);
  }

  /** The quotient by x - openingPoint; what is left over is dropped. */
  method DivideByLinearTerm(p: nat, poly: seq<int>, openingPoint: int) returns (q: seq<int>)
    requires p > 0 && |poly| > 0
    ensures q == ReducedAll(p, SparseQuotient(poly, 1, openingPoint))
  {
    var b := Red(p, -openingPoint);
    q := seq(|poly|, _ => 0);
    var tmp := 0;
    var foundOne := false;
    assert openingPoint * 0 == 0;
    for j := |poly| - 1 downto 0
      invariant |q| == |poly|
      invariant forall k | 0 <= k < j || k == |poly| - 1 :: q[k] == 0
      invariant forall k: nat | j <= k < |poly| - 1 :: q[k] == Red(p, QuotientAt(poly, 1, openingPoint, k))
      invariant Red(p, tmp) == Red(p, -(openingPoint * QuotientAt(poly, 1, openingPoint, j)))
      invariant !foundOne ==> tmp == 0
    {
      var r := poly[j + 1];
      ghost var u, v := QuotientAt(poly, 1, openingPoint, j + 1), QuotientAt(poly, 1, openingPoint, j);
      RedAdd(p, r, r, tmp, -(openingPoint * u));
      if !foundOne {
        if r == 0 {
          RedMul(p, openingPoint, openingPoint, v, 0);
          RedAdd(p, 0, 0, openingPoint * v, 0);
          continue;
        } else {
          foundOne := true;
        }
      }
      var leadCoeff := Red(p, r - tmp);
      q := q[j := leadCoeff];
      CarryOf(p, openingPoint, v, leadCoeff, b);
      tmp := Red(p, leadCoeff * b);
      RedRed(p, leadCoeff * b);
    }
    q := q[..|q| - 1];
  }

  lemma {:induction false} CarryOf(p: nat, c: int, q: int, lead: int, minus: int)
    requires p > 0 && lead == Red(p, q) && minus == Red(p, -c)
    ensures Red(p, lead * minus) == Red(p, -(c * q))
  {
    RedRed(p, q);
    RedRed(p, -c);
    RedMul(p, lead, q, minus, -c);
    assert q * -c == -(c * q);
  }

  lemma {:induction false} LinearQuotientCong(p: nat, f: seq<int>, f': seq<int>, c: int, c': int)
    requires p > 0 && |f| > 0 && P.Cong(p, f, f') && Red(p, c) == Red(p, c')
    ensures P.Cong(p, SparseQuotient(f, 1, c), SparseQuotient(f', 1, c'))
  {
    forall j: nat | j < |f| - 1 ensures Red(p, QuotientAt(f, 1, c, j)) == Red(p, QuotientAt(f', 1, c', j)) {
      QuotientIsTail(f, c, j);
      QuotientIsTail(f', c', j);
      P.EvalRed(p, f[j + 1..], f'[j + 1..], c, c');
    }
  }

  // ---- Inversion of many values ----

  ghost function RunningProduct(values: seq<int>): int {
    if |values| == 0 then 1 else RunningProduct(values[..|values| - 1]) * values[|values| - 1]
  }

  lemma {:induction false} RunningProductZero(p: nat, values: seq<int>)
    requires Prime(p)
    ensures Red(p, RunningProduct(values)) == 0 <==> exists i :: 0 <= i < |values| && Red(p, values[i]) == 0
  {
    if |values| > 0 {
      var rest, last := values[..|values| - 1], values[|values| - 1];
      RunningProductZero(p, rest);
      ZeroProduct(p, RunningProduct(rest), last);
      assert forall i | 0 <= i < |rest| :: rest[i] == values[i];
    }
  }

  /** Before each value the product of the values before it, and the product of all. */
  method RunningProducts(p: nat, values: seq<int>) returns (products: seq<int>, acc: int)
    requires p > 1
    ensures |products| == |values| && Reduced(p, products) && acc == Red(p, RunningProduct(values))
    ensures forall k | 0 <= k < |values| :: products[k] == Red(p, RunningProduct(values[..k]))
  {
    products, acc := [], 1;
    for i := 0 to |values|
      invariant |products| == i && acc == Red(p, RunningProduct(values[..i])) && Reduced(p, products)
      invariant forall k | 0 <= k < i :: products[k] == Red(p, RunningProduct(values[..k]))
    {
      products := products + [acc];
      NextProduct(p, values, i, acc);
      acc := Red(p, acc * values[i]);
    }
    assert values[..|values|] == values;
  }

  lemma {:induction false} NextProduct(p: nat, values: seq<int>, i: nat, acc: int)
    requires p > 0 && i < |values| && acc == Red(p, RunningProduct(values[..i]))
    ensures Red(p, acc * values[i]) == Red(p, RunningProduct(values[..i + 1]))
  {
    assert values[..i + 1][..i] == values[..i];
    RedRed(p, RunningProduct(values[..i]));
    RedMul(p, acc, RunningProduct(values[..i]), values[i], values[i]);
  }

  ghost predicate InverseAt(p: nat, value: int, inverse: int)
    requires p > 0
  {
    Red(p, value * inverse) == 1
  }

  /** The inverses of all values through one inversion, or none if a value is zero. */
  method BatchInversion(p: nat, values: seq<int>) returns (r: Option<seq<int>>)
    requires Prime(p) && p % 2 == 1
    ensures r.None? <==> exists i :: 0 <= i < |values| && Red(p, values[i]) == 0
    ensures r.Some? ==> |r.value| == |values| && Reduced(p, r.value)
    ensures r.Some? ==> forall i | 0 <= i < |values| :: InverseAt(p, values[i], r.value[i])
  {
    var products, acc := RunningProducts(p, values);
    RunningProductZero(p, values);
    var inverse := InverseOf(p, acc);
    if inverse.None? {
      return None;
    }
    RedRed(p, RunningProduct(values));
    RedMul(p, acc, RunningProduct(values), inverse.value, inverse.value);
    products := MultiplyBack(p, values, products, inverse.value);
    r := Some(products);
  }

  /** From the last value down: its inverse, and the inverse of the product of the values before it. */
  method MultiplyBack(p: nat, values: seq<int>, prefixes: seq<int>, inverse: int) returns (products: seq<int>)
    requires p > 1 && |prefixes| == |values| && Reduced(p, prefixes) && Red(p, RunningProduct(values) * inverse) == 1
    requires forall k | 0 <= k < |values| :: prefixes[k] == Red(p, RunningProduct(values[..k]))
    ensures |products| == |values| && Reduced(p, products)
    ensures forall k | 0 <= k < |values| :: InverseAt(p, values[k], products[k])
  {
    products := prefixes;
    var inv := inverse;
    assert values[..|values|] == values;
    for i := |values| downto 0
      invariant |products| == |values| && Reduced(p, products)
      invariant Red(p, RunningProduct(values[..i]) * inv) == 1
      invariant forall k | 0 <= k < i :: products[k] == prefixes[k]
      invariant forall k | i <= k < |values| :: InverseAt(p, values[k], products[k])
    {
      assert values[..i + 1][..i] == values[..i];
      OneInverse(p, RunningProduct(values[..i]), values[i], inv);
      products := products[i := Red(p, products[i] * inv)];
      inv := Red(p, inv * values[i]);
    }
  }

  lemma {:induction false} OneInverse(p: nat, u: int, v: int, inv: int)
    requires p > 0 && Red(p, (u * v) * inv) == 1
    ensures InverseAt(p, v, Red(p, Red(p, u) * inv)) && Red(p, u * Red(p, inv * v)) == 1
  {
    RedRed(p, u);
    RedMul(p, Red(p, u), u, inv, inv);
    RedRed(p, Red(p, u) * inv);
    RedMul(p, v, v, Red(p, Red(p, u) * inv), u * inv);
    RedRed(p, inv * v);
    RedMul(p, u, u, Red(p, inv * v), inv * v);
    TwoWays(u, v, inv);
  }

  lemma TwoWays(u: int, v: int, w: int)
    ensures v * (u * w) == (u * v) * w && u * (w * v) == (u * v) * w
  {
  }

  // ---- Interpolation over one coset ----

  /** Adds the coefficients of `quotient`, scaled, to those of `result`. */
  method AddScaled(p: nat, result: seq<int>, quotient: seq<int>, constantPart: int) returns (r: seq<int>)
    requires p > 0 && |result| == |quotient|
    ensures |r| == |result| && Reduced(p, r)
    ensures r == ReducedAll(p, P.Add(result, P.Scale(constantPart, quotient)))
  {
    r := [];
    for k := 0 to |result|
      invariant |r| == k
      invariant forall i: nat | i < k :: r[i] == Red(p, result[i] + Red(p, quotient[i] * constantPart))
    {
      r := r + [Red(p, result[k] + Red(p, quotient[k] * constantPart))];
    }
    forall i: nat | i < |r| ensures r[i] == Red(p, P.Add(result, P.Scale(constantPart, quotient))[i]) {
      P.AddAt(result, P.Scale(constantPart, quotient), i);
      P.ScaleAt(constantPart, quotient, i);
      RedRed(p, quotient[i] * constantPart);
      Commute(quotient[i], constantPart);
      RedAdd(p, result[i], result[i], Red(p, quotient[i] * constantPart), constantPart * quotient[i]);
    }
  }

  lemma {:induction false} ReducedValue(p: nat, a: seq<int>, x: int)
    requires p > 0
    ensures Red(p, P.Eval(ReducedAll(p, a), x)) == Red(p, P.Eval(a, x))
  {
    P.CongReduced(p, a);
    P.EvalRed(p, ReducedAll(p, a), a, x, x);
  }

  lemma {:induction false} AddScaledValue(p: nat, a: seq<int>, q: seq<int>, c: int, x: int)
    requires p > 0
    ensures Red(p, P.Eval(ReducedAll(p, P.Add(a, P.Scale(c, q))), x)) == Red(p, P.Eval(a, x) + c * P.Eval(q, x))
  {
    ReducedValue(p, P.Add(a, P.Scale(c, q)), x);
    P.EvalAdd(a, P.Scale(c, q), x);
    P.EvalScale(c, q, x);
  }

  /** The value at x of a computed quotient of `num` by a computed point. */
  lemma {:induction false} ComputedQuotient(p: nat, num: seq<int>, f: seq<int>, pt: int, c: int, q: seq<int>, x: int)
    requires p > 0 && |f| > 0 && num == ReducedAll(p, f) && Red(p, c) == Red(p, pt)
    requires q == ReducedAll(p, SparseQuotient(num, 1, c))
    ensures Red(p, P.Eval(q, x)) == Red(p, P.Eval(SparseQuotient(f, 1, pt), x))
  {
    P.CongReduced(p, f);
    LinearQuotientCong(p, num, f, c, pt);
    ReducedValue(p, SparseQuotient(num, 1, c), x);
    P.EvalRed(p, SparseQuotient(num, 1, c), SparseQuotient(f, 1, pt), x, x);
  }

  lemma {:induction false} BasisTerm(p: nat, num: seq<int>, pts: seq<int>, ws: seq<int>, ks: seq<int>,
                                     i: nat, j: nat, c: int, v: int, kinv: int, w: int, u: int)
    requires Prime(p) && Nodes(p, num, pts, ws, ks) && i < |pts| && j < |pts|
    requires Red(p, kinv * ks[i]) == 1 && Red(p, w) == Red(p, ws[i]) && c == Red(p, Red(p, w * kinv) * v)
    requires Red(p, u) == Red(p, P.Eval(SparseQuotient(num, 1, pts[i]), pts[j]))
    ensures Red(p, c * u) == if i == j then Red(p, v) else 0
  {
    var q := P.Eval(SparseQuotient(num, 1, pts[i]), pts[j]);
    RedMul(p, w, ws[i], kinv, kinv);
    RedRed(p, w * kinv);
    RedMul(p, Red(p, w * kinv), ws[i] * kinv, v, v);
    RedRed(p, Red(p, w * kinv) * v);
    BasisValue(p, num, pts, ws, ks, i, j, c, v, kinv);
    RedMul(p, c, c, u, q);
  }

  /** The points so far take their values, the others zero. */
  ghost predicate Reaches(p: nat, result: seq<int>, pts: seq<int>, vs: seq<int>, i: nat)
    requires p > 0 && |pts| == |vs|
  {
    forall j: nat | j < |pts| :: Red(p, P.Eval(result, pts[j])) == if j < i then Red(p, vs[j]) else 0
  }

  lemma {:induction false} ReachesNext(p: nat, num: seq<int>, pts: seq<int>, ws: seq<int>, ks: seq<int>, vs: seq<int>,
                                       i: nat, computed: seq<int>, pt: int, q: seq<int>, c: int, kinv: int, w: int,
                                       before: seq<int>)
    requires Prime(p) && Nodes(p, num, pts, ws, ks) && |vs| == |pts| && i < |pts| && Reaches(p, before, pts, vs, i)
    requires computed == ReducedAll(p, num) && Red(p, pt) == Red(p, pts[i])
    requires q == ReducedAll(p, SparseQuotient(computed, 1, pt))
    requires Red(p, kinv * ks[i]) == 1 && Red(p, w) == Red(p, ws[i]) && c == Red(p, Red(p, w * kinv) * vs[i])
    ensures Reaches(p, ReducedAll(p, P.Add(before, P.Scale(c, q))), pts, vs, i + 1)
  {
    forall j: nat | j < |pts|
      ensures Red(p, P.Eval(ReducedAll(p, P.Add(before, P.Scale(c, q))), pts[j]))
        == if j < i + 1 then Red(p, vs[j]) else 0
    {
      var u := P.Eval(q, pts[j]);
      AddScaledValue(p, before, q, c, pts[j]);
      ComputedQuotient(p, computed, num, pts[i], pt, q, pts[j]);
      BasisTerm(p, num, pts, ws, ks, i, j, c, vs[i], kinv, w, u);
      OneMoreValue(p, P.Eval(before, pts[j]), c * u, vs[j], i, j);
    }
  }

  lemma {:induction false} OneMoreValue(p: nat, u: int, t: int, v: int, i: nat, j: nat)
    requires p > 0 && Red(p, u) == (if j < i then Red(p, v) else 0) && Red(p, t) == (if i == j then Red(p, v) else 0)
    ensures Red(p, u + t) == if j < i + 1 then Red(p, v) else 0
  {
    RedAdd(p, u, if j < i then v else 0, t, if i == j then v else 0);
  }

  lemma {:induction false} CosetNumComputed(p: nat, n: nat, h: int, num: seq<int>)
    requires p > 1 && n > 0 && num == Zeroed(n + 1)[n := 1][0 := Red(p, -Red(p, FieldPow(p, h, n - 1) * h))]
    ensures num == ReducedAll(p, CosetNum(n, h))
  {
    NextPower(p, h, n - 1, FieldPow(p, h, n - 1));
    RedRed(p, Pow(h, n));
    RedAdd(p, 0, 0, Red(p, Pow(h, n)), Pow(h, n));
    forall k: nat | k <= n ensures num[k] == Red(p, CosetNum(n, h)[k]) {
      TimesSparseAt([1], n, Pow(h, n), k);
      assert Pow(h, n) * 1 == Pow(h, n) && Pow(h, n) * 0 == 0;
    }
  }

  function Zeroed(n: nat): (s: seq<int>)
    ensures |s| == n && forall i | 0 <= i < n :: s[i] == 0
  {
    seq(n, _ => 0)
  }

  /** The polynomial of degree below `degree` with the given values at point * omega^i. */
  method InterpolateRMonomial(p: nat, evaluations: seq<int>, degree: nat, point: int, omega: int)
    returns (result: seq<int>)
    requires Prime(p) && p % 2 == 1 && |evaluations| == degree && Coset(p, degree, point, omega, Pow(point, degree))
    ensures Reduced(p, result) && Interpolates(p, result, Points(point, omega, degree), evaluations)
  {
    ghost var f, pts, ws := CosetNum(degree, point), Points(point, omega, degree), Weights(omega, degree);
    ghost var k := degree * Pow(point, degree - 1);
    ghost var ks := Constants(k, degree);
    CosetNodes(p, degree, point, omega, Pow(point, degree));
    var pointPow := FieldPow(p, point, degree - 1);
    var num := Zeroed(degree + 1)[degree := 1][0 := Red(p, -Red(p, pointPow * point))];
    CosetNumComputed(p, degree, point, num);
    ConstantOf(p, degree, point, pointPow);
    var inverse := InverseOf(p, Red(p, Red(p, degree) * pointPow));
    assert ks[0] == k;
    var constantDenum: int := inverse.value;
    InverseOfConstant(p, Red(p, Red(p, degree) * pointPow), k, constantDenum);
    var currentOmega := 1;
    result := Zeroed(degree);
    forall j | 0 <= j < degree ensures P.Eval(result, pts[j]) == 0 {
      P.EvalZeros(degree, pts[j]);
      assert result == P.Zeros(degree);
    }
    for i := 0 to degree
      invariant |result| == degree && Reduced(p, result) && currentOmega == Red(p, Pow(omega, i))
      invariant Reaches(p, result, pts, evaluations, i)
    {
      var constantPart := Red(p, Red(p, currentOmega * constantDenum) * evaluations[i]);
      var current := Red(p, point * currentOmega);
      PointComputed(p, point, omega, i, currentOmega);
      var quotient := DivideByLinearTerm(p, num, current);
      RedRed(p, Pow(omega, i));
      ReachesNext(p, f, pts, ws, ks, evaluations, i, num, current, quotient, constantPart, constantDenum, currentOmega,
                  result);
      result := AddScaled(p, result, quotient, constantPart);
      NextPower(p, omega, i, currentOmega);
      currentOmega := Red(p, currentOmega * omega);
    }
  }

  lemma {:induction false} ConstantOf(p: nat, n: nat, h: int, pow: int)
    requires p > 0 && n > 0 && pow == FieldPow(p, h, n - 1)
    ensures Red(p, Red(p, n) * pow) == Red(p, n * Pow(h, n - 1))
  {
    RedRed(p, n);
    RedRed(p, Pow(h, n - 1));
    RedMul(p, Red(p, n), n, pow, Pow(h, n - 1));
  }

  lemma {:induction false} InverseOfConstant(p: nat, c: int, k: int, inv: int)
    requires p > 0 && c == Red(p, k) && Red(p, c * inv) == 1
    ensures Red(p, inv * k) == 1
  {
    RedRed(p, k);
    RedMul(p, c, k, inv, inv);
    Commute(k, inv);
  }

  lemma {:induction false} PointComputed(p: nat, h: int, omega: int, i: nat, w: int)
    requires p > 0 && w == Red(p, Pow(omega, i))
    ensures Red(p, Red(p, h * w)) == Red(p, Point(h, omega, i)) && Red(p, Red(p, w * h)) == Red(p, Point(h, omega, i))
  {
    RedRed(p, Pow(omega, i));
    RedMul(p, h, h, w, Pow(omega, i));
    Commute(h, Pow(omega, i));
    Commute(h, w);
    RedRed(p, h * w);
  }
}
