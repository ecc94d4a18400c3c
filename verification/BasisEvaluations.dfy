/** The inverses a prover sends and the basis values a verifier computes from them, in
    crates/fflonk/src/utils.rs, and the evaluation of the polynomials r without interpolating. */
module BasisEvaluations {
  import opened Outcomes
  import opened Modular
  import opened FieldInverse
  import opened PrimeFields
  import opened Lagrange
  import opened OpeningSets
  import opened Interpolation
  import opened UnionInterpolation
  import P = Polynomials

  // ---- Denominators ----

  /** The values k (y - h omega^i). */
  method Denominators(p: nat, n: nat, h: int, omega: int, y: int, k: int) returns (denoms: seq<int>)
    requires p > 1
    ensures |denoms| == n && forall i: nat | i < n :: denoms[i] == Red(p, k * (y - Point(h, omega, i)))
  {
    denoms := [];
    var currentOmega := 1;
    for i := 0 to n
      invariant |denoms| == i && currentOmega == Red(p, Pow(omega, i))
      invariant forall j: nat | j < i :: denoms[j] == Red(p, k * (y - Point(h, omega, j)))
    {
      var denom := Red(p, currentOmega * h);
      PointComputed(p, h, omega, i, currentOmega);
      DenominatorOf(p, denom, Point(h, omega, i), y, k);
      denom := Red(p, -denom);
      denom := Red(p, denom + y);
      denom := Red(p, denom * k);
      denoms := denoms + [denom];
      NextPower(p, omega, i, currentOmega);
      currentOmega := Red(p, currentOmega * omega);
    }
  }

  lemma {:induction false} DenominatorOf(p: nat, d: int, x: int, y: int, k: int)
    requires p > 0 && Red(p, d) == Red(p, x)
    ensures Red(p, Red(p, Red(p, -d) + y) * k) == Red(p, k * (y - x))
  {
    RedAdd(p, 0, 0, d, x);
    RedRed(p, -d);
    RedAdd(p, Red(p, -d), -x, y, y);
    RedRed(p, Red(p, -d) + y);
    RedMul(p, Red(p, Red(p, -d) + y), y - x, k, k);
    Commute(y - x, k);
  }

  /** y differs from every point. */
  ghost predicate Outside(p: nat, pts: seq<int>, y: int)
    requires p > 0
  {
    forall i | 0 <= i < |pts| :: Red(p, y) != Red(p, pts[i])
  }

  lemma {:induction false} DenominatorZero(p: nat, k: int, y: int, x: int)
    requires Prime(p) && Red(p, k) != 0
    ensures Red(p, k * (y - x)) == 0 <==> Red(p, y) == Red(p, x)
  {
    ZeroProduct(p, k, y - x);
    if Red(p, y) == Red(p, x) { RedAdd(p, y, x, x, x); }
    if Red(p, y - x) == 0 { RedAdd(p, y - x, 0, x, x); }
  }

  lemma {:induction false} InvertibleOutside(p: nat, pts: seq<int>, ks: seq<int>, denoms: seq<int>, y: int)
    requires Prime(p) && |denoms| == |pts| == |ks| && forall i | 0 <= i < |pts| :: Red(p, ks[i]) != 0
    requires forall i | 0 <= i < |pts| :: denoms[i] == Red(p, ks[i] * (y - pts[i]))
    ensures Outside(p, pts, y) <==> forall i | 0 <= i < |denoms| :: Red(p, denoms[i]) != 0
  {
    forall i | 0 <= i < |pts| ensures Red(p, denoms[i]) == 0 <==> Red(p, y) == Red(p, pts[i]) {
      RedRed(p, ks[i] * (y - pts[i]));
      DenominatorZero(p, ks[i], y, pts[i]);
    }
  }

  lemma {:induction false} InvertedDenominators(p: nat, pts: seq<int>, ks: seq<int>, denoms: seq<int>, invs: seq<int>,
                                                y: int)
    requires p > 0 && |denoms| == |pts| == |ks| == |invs|
    requires forall i | 0 <= i < |pts| :: Red(p, denoms[i]) == Red(p, ks[i] * (y - pts[i]))
    ensures Inverses(p, pts, ks, invs, y) <==> forall i | 0 <= i < |pts| :: Red(p, invs[i] * denoms[i]) == 1
  {
    forall i | 0 <= i < |pts| ensures Red(p, invs[i] * denoms[i]) == Red(p, invs[i] * (ks[i] * (y - pts[i]))) {
      RedMul(p, invs[i], invs[i], denoms[i], ks[i] * (y - pts[i]));
    }
  }

  /** The denominators of a round's basis polynomials at y. */
  method SetDenominators(p: nat, opening: OpeningSet, y: int) returns (denoms: seq<int>)
    requires p > 1 && opening.n > 0
    ensures |denoms| == |opening.Pts()|
    ensures forall i | 0 <= i < |denoms| :: denoms[i] == Red(p, opening.Ks()[i] * (y - opening.Pts()[i]))
  {
    var n, h, omega := opening.n, opening.h, opening.omega;
    ghost var pts, ks := opening.Pts(), opening.Ks();
    match opening.hShifted {
      case None =>
        var constantPart := Red(p, FieldPow(p, h, n - 1) * Red(p, n));
        ghost var k := n * Pow(h, n - 1);
        ConstantOf(p, n, h, FieldPow(p, h, n - 1));
        Commute(FieldPow(p, h, n - 1), Red(p, n));
        denoms := Denominators(p, n, h, omega, y, constantPart);
        forall i: nat | i < n ensures denoms[i] == Red(p, ks[i] * (y - pts[i])) {
          SameConstant(p, constantPart, k, y - Point(h, omega, i));
        }
      case Some(hs) =>
        var hPows, hAcc := PowerTable(p, h, 2 * n);
        var hsPows, hsAcc := PowerTable(p, hs, 2 * n);
        var first := ConstantPart(p, n, hPows, hsPows, h, hs);
        var second := ConstantPart(p, n, hsPows, hPows, hs, h);
        var firsts := Denominators(p, n, h, omega, y, first);
        var seconds := Denominators(p, n, hs, omega, y, second);
        denoms := firsts + seconds;
        forall i: nat | i < n + n ensures denoms[i] == Red(p, ks[i] * (y - pts[i])) {
          if i < n {
            SameConstant(p, first, UnionConstant(n, h, hs), y - Point(h, omega, i));
          } else {
            SameConstant(p, second, UnionConstant(n, hs, h), y - Point(hs, omega, i - n));
          }
        }
    }
  }

  lemma {:induction false} SameConstant(p: nat, c: int, k: int, d: int)
    requires p > 0 && c == Red(p, k)
    ensures Red(p, c * d) == Red(p, k * d)
  {
    RedRed(p, k);
    RedMul(p, c, k, d, d);
  }

  /** The inverses of a round's denominators, or none if y is a point of its opening set. */
  method ComputeLagrangeBasisInverses(p: nat, opening: OpeningSet, y: int, ghost z: int, ghost zs: int)
    returns (r: Option<seq<int>>)
    requires opening.Opens(p, z, zs) && p % 2 == 1
    ensures r.Some? <==> Outside(p, opening.Pts(), y)
    ensures r.Some? ==> Reduced(p, r.value) && Inverses(p, opening.Pts(), opening.Ks(), r.value, y)
  {
    SetNodes(p, opening, z, zs);
    var denoms := SetDenominators(p, opening, y);
    InvertibleOutside(p, opening.Pts(), opening.Ks(), denoms, y);
    r := BatchInversion(p, denoms);
    if r.Some? {
      forall i | 0 <= i < |denoms|
        ensures Red(p, denoms[i]) == Red(p, opening.Ks()[i] * (y - opening.Pts()[i]))
        ensures Red(p, r.value[i] * denoms[i]) == 1
      {
        RedRed(p, opening.Ks()[i] * (y - opening.Pts()[i]));
        assert InverseAt(p, denoms[i], r.value[i]);
        Commute(denoms[i], r.value[i]);
      }
      InvertedDenominators(p, opening.Pts(), opening.Ks(), denoms, r.value, y);
    }
  }

  // ---- Basis values ----

  /** The common numerator at y. */
  method NumeratorAt(p: nat, opening: OpeningSet, y: int) returns (num: int)
    requires p > 1
    ensures num == Red(p, P.Eval(opening.Num(), y))
  {
    var n, h := opening.n, opening.h;
    var yn, hn := FieldPow(p, y, n), FieldPow(p, h, n);
    ghost var u, a := Pow(y, n), Pow(h, n);
    RedRed(p, u);
    RedRed(p, a);
    match opening.hShifted {
      case None =>
        NegationComputed(p, hn, a);
        num := Red(p, -hn);
        SumComputed(p, num, -a, yn, u);
        num := Red(p, num + yn);
        CosetNumValue(n, h, y);
      case Some(hs) =>
        num := UnionNumeratorAt(p, hn, FieldPow(p, hs, n), yn, FieldPow(p, y, 2 * n), a, Pow(hs, n), u, Pow(y, 2 * n));
        PowAdd(y, n, n);
        Factored(u, a, Pow(hs, n));
        UnionNumValue(n, h, hs, y);
    }
  }

  method UnionNumeratorAt(p: nat, hn: int, hsn: int, yn: int, y2n: int, ghost a: int, ghost b: int, ghost u: int,
                          ghost w: int)
    returns (num: int)
    requires p > 0 && hn == Red(p, a) && hsn == Red(p, b) && yn == Red(p, u) && y2n == Red(p, w)
    ensures num == Red(p, -((a + b) * u) + a * b + w)
  {
    RedRed(p, a);
    RedRed(p, b);
    RedRed(p, u);
    RedRed(p, w);
    ProductComputed(p, hn, a, hsn, b);
    var tmp := Red(p, hn * hsn);
    SumComputed(p, hn, a, hsn, b);
    num := Red(p, hn + hsn);
    ProductComputed(p, num, a + b, yn, u);
    num := Red(p, num * yn);
    ghost var s := (a + b) * u;
    NegationComputed(p, num, s);
    num := Red(p, -num);
    SumComputed(p, num, -s, tmp, a * b);
    num := Red(p, num + tmp);
    SumComputed(p, num, -s + a * b, y2n, w);
    num := Red(p, num + y2n);
  }

  lemma Factored(u: int, a: int, b: int)
    ensures (u - b) * (u - a) == -((a + b) * u) + a * b + u * u
  {
  }

  ghost predicate BasisAt(p: nat, num: seq<int>, ws: seq<int>, invs: seq<int>, y: int, basis: seq<int>)
    requires p > 0
  {
    && |basis| == |ws| == |invs|
    && forall i | 0 <= i < |basis| :: Red(p, basis[i]) == Red(p, P.Eval(num, y) * invs[i] * ws[i])
  }

  /** The values num * inverse * omega^i. */
  method ScaledInverses(p: nat, num: int, invs: seq<int>, omega: int) returns (values: seq<int>)
    requires p > 1
    ensures |values| == |invs|
    ensures forall i: nat | i < |invs| :: Red(p, values[i]) == Red(p, num * invs[i] * Pow(omega, i))
  {
    values := [];
    var currentOmega := 1;
    for i := 0 to |invs|
      invariant |values| == i && currentOmega == Red(p, Pow(omega, i))
      invariant forall j: nat | j < i :: Red(p, values[j]) == Red(p, num * invs[j] * Pow(omega, j))
    {
      var value := Red(p, num * invs[i]);
      RedRed(p, num * invs[i]);
      RedRed(p, Pow(omega, i));
      RedMul(p, value, num * invs[i], currentOmega, Pow(omega, i));
      value := Red(p, value * currentOmega);
      RedRed(p, num * invs[i] * Pow(omega, i));
      values := values + [value];
      NextPower(p, omega, i, currentOmega);
      currentOmega := Red(p, currentOmega * omega);
    }
  }

  lemma {:induction false} BasisScaled(p: nat, num: int, v: int, inv: int, w: int)
    requires p > 0 && num == Red(p, v)
    ensures Red(p, num * inv * w) == Red(p, v * inv * w)
  {
    RedRed(p, v);
    RedMul(p, num, v, inv, inv);
    RedMul(p, num * inv, v * inv, w, w);
  }

  /** The basis values at y from the supplied inverses, or none where an inverse is refused. */
  method PrecomputeLagrangeBasisEvaluationsFromInverses(p: nat, opening: OpeningSet, invs: seq<int>, y: int)
    returns (r: Option<seq<int>>)
    requires p > 1 && opening.n > 0 && |invs| == |opening.Pts()|
    ensures r.Some? <==> Inverses(p, opening.Pts(), opening.Ks(), invs, y)
    ensures r.Some? ==> BasisAt(p, opening.Num(), opening.Ws(), invs, y, r.value)
  {
    var n, omega := opening.n, opening.omega;
    var denoms := SetDenominators(p, opening, y);
    forall i | 0 <= i < |denoms| ensures Red(p, denoms[i]) == Red(p, opening.Ks()[i] * (y - opening.Pts()[i])) {
      RedRed(p, opening.Ks()[i] * (y - opening.Pts()[i]));
    }
    InvertedDenominators(p, opening.Pts(), opening.Ks(), denoms, invs, y);
    for i := 0 to |denoms|
      invariant forall j | 0 <= j < i :: Red(p, invs[j] * denoms[j]) == 1
    {
      if Red(p, invs[i] * denoms[i]) != 1 {
        return None;
      }
    }
    var num := NumeratorAt(p, opening, y);
    var basis := ScaledInverses(p, num, invs[..n], omega);
    match opening.hShifted {
      case None =>
      case Some(hs) =>
        var more := ScaledInverses(p, num, invs[n..], omega);
        basis := basis + more;
    }
    forall i | 0 <= i < |basis|
      ensures Red(p, basis[i]) == Red(p, P.Eval(opening.Num(), y) * invs[i] * opening.Ws()[i])
    {
      BasisScaled(p, num, P.Eval(opening.Num(), y), invs[i], opening.Ws()[i]);
    }
    r := Some(basis);
  }

  // ---- The value of r ----

  lemma {:induction false} DotIsBarycentric(p: nat, num: seq<int>, ws: seq<int>, invs: seq<int>, y: int, vs: seq<int>,
                                            bs: seq<int>, n: nat)
    requires p > 0 && BasisAt(p, num, ws, invs, y, bs) && |vs| == |bs| && n <= |bs|
    ensures Red(p, P.Dot(vs, bs, n)) == Red(p, Barycentric(num, ws, vs, invs, y, n))
  {
    if n > 0 {
      var i := n - 1;
      DotIsBarycentric(p, num, ws, invs, y, vs, bs, i);
      RedMul(p, vs[i], vs[i], bs[i], P.Eval(num, y) * invs[i] * ws[i]);
      RedAdd(p, P.Dot(vs, bs, i), Barycentric(num, ws, vs, invs, y, i), vs[i] * bs[i],
             vs[i] * (P.Eval(num, y) * invs[i] * ws[i]));
    }
  }

  lemma {:induction false} DotConcat(vs: seq<int>, bs: seq<int>, us: seq<int>, cs: seq<int>, m: nat)
    requires |vs| == |bs| && m <= |us| == |cs|
    ensures P.Dot(vs + us, bs + cs, |vs| + m) == P.Dot(vs, bs, |vs|) + P.Dot(us, cs, m)
    decreases m
  {
    if m > 0 {
      DotConcat(vs, bs, us, cs, m - 1);
    } else {
      DotPrefix(vs, bs, vs + us, bs + cs, |vs|);
    }
  }

  lemma {:induction false} DotPrefix(vs: seq<int>, bs: seq<int>, us: seq<int>, cs: seq<int>, n: nat)
    requires n <= |vs| == |bs| && |vs| <= |us| == |cs|
    requires forall i | 0 <= i < n :: us[i] == vs[i] && cs[i] == bs[i]
    ensures P.Dot(us, cs, n) == P.Dot(vs, bs, n)
  {
    if n > 0 { DotPrefix(vs, bs, us, cs, n - 1); }
  }

  lemma {:induction false} AddedProduct(p: nat, r: int, total: int, sum: int, v: int, basis: int)
    requires p > 0 && r == Red(p, total) && sum == Red(p, v)
    ensures Red(p, r + Red(p, sum * basis)) == Red(p, total + v * basis)
  {
    RedRed(p, total);
    RedRed(p, v);
    RedMul(p, sum, v, basis, basis);
    RedRed(p, sum * basis);
    RedAdd(p, r, total, Red(p, sum * basis), v * basis);
  }

  /** A combined value, and its share of the sum. */
  lemma {:induction false} AddedValue(p: nat, r: int, total: int, evals: seq<int>, current: int, x: int, sum: int,
                                      basis: int)
    requires p > 0 && r == Red(p, total) && Red(p, current) == Red(p, x) && sum == Red(p, P.Eval(evals, current))
    ensures Red(p, r + Red(p, sum * basis)) == Red(p, total + P.Eval(evals, x) * basis)
  {
    P.EvalRed(p, evals, evals, current, x);
    AddedProduct(p, r, total, sum, P.Eval(evals, x), basis);
  }

  method EvaluateROverCoset(p: nat, n: nat, h: int, omega: int, evals: seq<int>, basis: seq<int>, ghost vs: seq<int>)
    returns (r: int)
    requires p > 1 && |basis| == n == |vs| && |evals| > 0 && Reduced(p, evals)
    requires forall i | 0 <= i < n :: vs[i] == P.Eval(evals, Point(h, omega, i))
    ensures r == Red(p, P.Dot(vs, basis, n))
  {
    r := 0;
    var currentOmega := h;
    assert Pow(omega, 0) * h == h;
    for i := 0 to n
      invariant r == Red(p, P.Dot(vs, basis, i)) && Red(p, currentOmega) == Red(p, Point(h, omega, i))
    {
      var sum := HornerEvaluation(p, evals, currentOmega);
      AddedValue(p, r, P.Dot(vs, basis, i), evals, currentOmega, Point(h, omega, i), sum, basis[i]);
      r := Red(p, r + Red(p, sum * basis[i]));
      NextPoint(p, h, omega, i, currentOmega);
      currentOmega := Red(p, currentOmega * omega);
    }
  }

  method EvaluateROverUnion(p: nat, n: nat, h: int, hs: int, omega: int, evals: seq<int>, evalsShifted: seq<int>,
                            basis: seq<int>, basisShifted: seq<int>, ghost vs: seq<int>, ghost us: seq<int>)
    returns (r: int)
    requires p > 1 && |basis| == n == |basisShifted| == |vs| == |us|
    requires |evals| > 0 && |evalsShifted| > 0 && Reduced(p, evals) && Reduced(p, evalsShifted)
    requires forall i | 0 <= i < n :: vs[i] == P.Eval(evals, Point(h, omega, i))
    requires forall i | 0 <= i < n :: us[i] == P.Eval(evalsShifted, Point(hs, omega, i))
    ensures r == Red(p, P.Dot(vs, basis, n) + P.Dot(us, basisShifted, n))
  {
    r := 0;
    var currentOmega, currentOmegaShifted := h, hs;
    assert Pow(omega, 0) * h == h && Pow(omega, 0) * hs == hs;
    for i := 0 to n
      invariant r == Red(p, P.Dot(vs, basis, i) + P.Dot(us, basisShifted, i))
      invariant Red(p, currentOmega) == Red(p, Point(h, omega, i))
      invariant Red(p, currentOmegaShifted) == Red(p, Point(hs, omega, i))
    {
      ghost var total := P.Dot(vs, basis, i) + P.Dot(us, basisShifted, i);
      var sum := HornerEvaluation(p, evals, currentOmega);
      AddedValue(p, r, total, evals, currentOmega, Point(h, omega, i), sum, basis[i]);
      r := Red(p, r + Red(p, sum * basis[i]));
      var sumShifted := HornerEvaluation(p, evalsShifted, currentOmegaShifted);
      AddedValue(p, r, total + vs[i] * basis[i], evalsShifted, currentOmegaShifted, Point(hs, omega, i), sumShifted,
                 basisShifted[i]);
      r := Red(p, r + Red(p, sumShifted * basisShifted[i]));
      NextPoint(p, h, omega, i, currentOmega);
      NextPoint(p, hs, omega, i, currentOmegaShifted);
      currentOmega := Red(p, currentOmega * omega);
      currentOmegaShifted := Red(p, currentOmegaShifted * omega);
    }
  }

  lemma {:induction false} HalvesOfValues(opening: OpeningSet, evals: seq<int>, evalsShifted: seq<int>)
    returns (us: seq<int>, ss: seq<int>)
    requires opening.hShifted.Some?
    ensures us + ss == opening.Values(evals, evalsShifted) && |us| == |ss| == opening.n
    ensures forall i | 0 <= i < opening.n :: us[i] == P.Eval(evals, Point(opening.h, opening.omega, i))
    ensures forall i | 0 <= i < opening.n ::
      ss[i] == P.Eval(evalsShifted, Point(opening.hShifted.value, opening.omega, i))
  {
    var vs, n := opening.Values(evals, evalsShifted), opening.n;
    us, ss := vs[..n], vs[n..];
    forall i | 0 <= i < n
      ensures us[i] == P.Eval(evals, Point(opening.h, opening.omega, i))
      ensures ss[i] == P.Eval(evalsShifted, Point(opening.hShifted.value, opening.omega, i))
    {
      assert us[i] == vs[i] && ss[i] == vs[n + i];
      assert opening.Pts()[i] == Point(opening.h, opening.omega, i);
      assert opening.Pts()[n + i] == Point(opening.hShifted.value, opening.omega, i);
    }
  }

  /** The value of r at the point the basis values belong to. */
  method EvaluateR(p: nat, opening: OpeningSet, evals: seq<int>, evalsShifted: seq<int>, basis: seq<int>)
    returns (r: int)
    requires p > 1 && |basis| == |opening.Pts()| && |evals| > 0 && Reduced(p, evals)
    requires opening.hShifted.Some? ==> |evalsShifted| > 0 && Reduced(p, evalsShifted)
    ensures r == Red(p, P.Dot(opening.Values(evals, evalsShifted), basis, |basis|))
  {
    var n, h, omega := opening.n, opening.h, opening.omega;
    ghost var vs := opening.Values(evals, evalsShifted);
    match opening.hShifted {
      case None =>
        r := EvaluateROverCoset(p, n, h, omega, evals, basis, vs);
      case Some(hs) =>
        ghost var us, ss := HalvesOfValues(opening, evals, evalsShifted);
        r := EvaluateROverUnion(p, n, h, hs, omega, evals, evalsShifted, basis[..n], basis[n..], us, ss);
        DotConcat(us, basis[..n], ss, basis[n..], n);
        assert basis[..n] + basis[n..] == basis;
    }
  }

  /** The verifier's value of r at y is the value at y of the polynomial the prover interpolated. */
  lemma {:induction false} EvaluationsAgree(p: nat, opening: OpeningSet, z: int, zs: int, evals: seq<int>,
                                            evalsShifted: seq<int>, invs: seq<int>, basis: seq<int>, y: int,
                                            r: seq<int>)
    requires opening.Opens(p, z, zs) && Inverses(p, opening.Pts(), opening.Ks(), invs, y)
    requires BasisAt(p, opening.Num(), opening.Ws(), invs, y, basis)
    requires Interpolates(p, r, opening.Pts(), opening.Values(evals, evalsShifted))
    ensures Red(p, P.Dot(opening.Values(evals, evalsShifted), basis, |basis|)) == Red(p, P.Eval(r, y))
  {
    SetNodes(p, opening, z, zs);
    var vs := opening.Values(evals, evalsShifted);
    DotIsBarycentric(p, opening.Num(), opening.Ws(), invs, y, vs, basis, |basis|);
    BarycentricValue(p, opening.Num(), opening.Pts(), opening.Ws(), opening.Ks(), vs, invs, y, r);
  }
}
