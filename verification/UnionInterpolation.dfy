/** Interpolation over the union of two cosets, and the choice between one coset and two, as in
    crates/fflonk/src/utils.rs. */
module UnionInterpolation {
  import opened Modular
  import opened FieldInverse
  import opened SparsePolynomials
  import opened Lagrange
  import opened OpeningSets
  import opened Interpolation
  import P = Polynomials

  ghost predicate PowersOf(p: nat, x: int, table: seq<int>)
    requires p > 0
  {
    forall i: nat | i < |table| :: table[i] == Red(p, Pow(x, i))
  }

  /** The first powers of x, and the next one. */
  method PowerTable(p: nat, x: int, count: nat) returns (table: seq<int>, acc: int)
    requires p > 1
    ensures |table| == count && PowersOf(p, x, table) && acc == Red(p, Pow(x, count))
  {
    table, acc := [], 1;
    for i := 0 to count
      invariant |table| == i && PowersOf(p, x, table) && acc == Red(p, Pow(x, i))
    {
      table := table + [acc];
      NextPower(p, x, i, acc);
      acc := Red(p, acc * x);
    }
  }

  /** n (h^(2n-1) - h^(n-1) g^n) from the tables of powers. */
  method ConstantPart(p: nat, n: nat, hPows: seq<int>, gPows: seq<int>, ghost h: int, ghost g: int) returns (c: int)
    requires p > 1 && n > 0 && |hPows| == 2 * n == |gPows| && PowersOf(p, h, hPows) && PowersOf(p, g, gPows)
    ensures c == Red(p, UnionConstant(n, h, g))
  {
    ghost var u, v, w := Pow(h, n - 1), Pow(g, n), Pow(h, 2 * n - 1);
    RedRed(p, u);
    RedRed(p, v);
    RedRed(p, w);
    ProductComputed(p, hPows[n - 1], u, gPows[n], v);
    c := Red(p, hPows[n - 1] * gPows[n]);
    NegationComputed(p, c, u * v);
    c := Red(p, -c);
    SumComputed(p, c, -(u * v), hPows[2 * n - 1], w);
    c := Red(p, c + hPows[2 * n - 1]);
    RedRed(p, n);
    ProductComputed(p, c, w - u * v, Red(p, n), n);
    RedRed(p, c * Red(p, n));
    c := Red(p, c * Red(p, n));
    Commute(w - u * v, n);
  }

  lemma {:induction false} UnionNumAt(n: nat, h: int, hs: int, k: nat)
    requires n > 0
    ensures P.At(UnionNum(n, h, hs), k)
         == if k == 0 then Pow(h, n) * Pow(hs, n)
            else if k == n then -(Pow(h, n) + Pow(hs, n))
            else if k == 2 * n then 1 else 0
  {
    var a, b, t := Pow(h, n), Pow(hs, n), TimesSparse([1], n, Pow(hs, n));
    TimesSparseAt(t, n, a, k);
    TimesSparseAt([1], n, b, k);
    if k >= n { TimesSparseAt([1], n, b, k - n); }
    assert a * 0 == 0 && b * 0 == 0 && a * 1 == a && b * 1 == b;
    if k == 0 { NegatedTwice(a, b); }
  }

  lemma NegatedTwice(a: int, b: int)
    ensures -(a * -b) == a * b
  {
  }

  /** The coefficients of (x^n - h^n) (x^n - hs^n). */
  method UnionNumerator(p: nat, n: nat, hPows: seq<int>, hsPows: seq<int>, ghost h: int, ghost hs: int)
    returns (num: seq<int>)
    requires p > 1 && n > 0 && |hPows| == 2 * n == |hsPows| && PowersOf(p, h, hPows) && PowersOf(p, hs, hsPows)
    ensures num == ReducedAll(p, UnionNum(n, h, hs))
  {
    num := Zeroed(2 * n + 1);
    num := num[0 := Red(p, hPows[n] * hsPows[n])];
    num := num[n := Red(p, -Red(p, hPows[n] + hsPows[n]))];
    num := num[2 * n := 1];
    ghost var a, b := Pow(h, n), Pow(hs, n);
    RedRed(p, a);
    RedRed(p, b);
    RedMul(p, hPows[n], a, hsPows[n], b);
    RedAdd(p, hPows[n], a, hsPows[n], b);
    RedRed(p, a + b);
    RedAdd(p, 0, 0, Red(p, a + b), a + b);
    forall k: nat | k < |num| ensures num[k] == Red(p, UnionNum(n, h, hs)[k]) {
      UnionNumAt(n, h, hs, k);
    }
  }

  /** Where the basis polynomial of the j-th point stands in the list of all of them. */
  function Order(n: nat, j: nat): nat {
    if j < n then 2 * j else 2 * (j - n) + 1
  }

  /** The polynomial takes the value at its own point and zero at the others. */
  ghost predicate BasisFor(p: nat, q: seq<int>, pts: seq<int>, i: nat, v: int)
    requires p > 0
  {
    |q| == |pts| && forall j: nat | j < |pts| :: Red(p, P.Eval(q, pts[j])) == if i == j then Red(p, v) else 0
  }

  lemma {:induction false} ScaledQuotient(p: nat, num: seq<int>, pts: seq<int>, ws: seq<int>, ks: seq<int>, i: nat,
                                          v: int, computed: seq<int>, pt: int, q: seq<int>, c: int, kinv: int, w: int,
                                          scaled: seq<int>)
    requires Prime(p) && Nodes(p, num, pts, ws, ks) && i < |pts|
    requires computed == ReducedAll(p, num) && Red(p, pt) == Red(p, pts[i])
    requires q == ReducedAll(p, SparseQuotient(computed, 1, pt))
    requires Red(p, kinv * ks[i]) == 1 && Red(p, w) == Red(p, ws[i]) && c == Red(p, Red(p, kinv * w) * v)
    requires scaled == ReducedAll(p, P.Scale(c, q))
    ensures BasisFor(p, scaled, pts, i, v)
  {
    Commute(kinv, w);
    forall j: nat | j < |pts| ensures Red(p, P.Eval(scaled, pts[j])) == if i == j then Red(p, v) else 0 {
      ReducedValue(p, P.Scale(c, q), pts[j]);
      P.EvalScale(c, q, pts[j]);
      ComputedQuotient(p, computed, num, pts[i], pt, q, pts[j]);
      BasisTerm(p, num, pts, ws, ks, i, j, c, v, kinv, w, P.Eval(q, pts[j]));
    }
  }

  /** Scales all coefficients. */
  method ScaledBy(p: nat, q: seq<int>, c: int) returns (r: seq<int>)
    requires p > 0
    ensures r == ReducedAll(p, P.Scale(c, q))
  {
    r := [];
    for k := 0 to |q|
      invariant |r| == k && forall i: nat | i < k :: r[i] == Red(p, q[i] * c)
    {
      r := r + [Red(p, q[k] * c)];
    }
    forall i: nat | i < |q| ensures r[i] == Red(p, P.Scale(c, q)[i]) {
      P.ScaleAt(c, q, i);
      Commute(q[i], c);
    }
  }

  /** One basis polynomial, scaled by its value. */
  method ScaledBasis(p: nat, num: seq<int>, representative: int, omegaI: int, inverse: int, value: int,
                     ghost f: seq<int>, ghost pts: seq<int>, ghost ws: seq<int>, ghost ks: seq<int>, ghost i: nat)
    returns (q: seq<int>)
    requires Prime(p) && Nodes(p, f, pts, ws, ks) && i < |pts| && num == ReducedAll(p, f)
    requires Red(p, Red(p, omegaI * representative)) == Red(p, pts[i])
    requires Red(p, inverse * ks[i]) == 1 && Red(p, omegaI) == Red(p, ws[i])
    ensures BasisFor(p, q, pts, i, value) && Reduced(p, q)
  {
    var divideBy := Red(p, omegaI * representative);
    var quotient := DivideByLinearTerm(p, num, divideBy);
    var tmp := Red(p, Red(p, inverse * omegaI) * value);
    q := ScaledBy(p, quotient, tmp);
    ScaledQuotient(p, f, pts, ws, ks, i, value, num, divideBy, quotient, tmp, inverse, omegaI, q);
  }

  /** The value a point has once the last basis polynomial and the first `t` have been added. */
  ghost predicate SummedTo(p: nat, result: seq<int>, pts: seq<int>, vs: seq<int>, n: nat, t: nat)
    requires p > 0 && |pts| == |vs| == 2 * n
  {
    forall j: nat | j < 2 * n ::
      Red(p, P.Eval(result, pts[j])) == if Order(n, j) < t || j == 2 * n - 1 then Red(p, vs[j]) else 0
  }

  ghost predicate AllBases(p: nat, monomials: seq<seq<int>>, pts: seq<int>, vs: seq<int>, n: nat)
    requires p > 0 && |pts| == |vs| == 2 * n
  {
    |monomials| <= 2 * n && forall j: nat | j < 2 * n && Order(n, j) < |monomials| ::
      BasisFor(p, monomials[Order(n, j)], pts, j, vs[j])
  }

  lemma {:induction false} NextSummed(p: nat, before: seq<int>, m: seq<int>, pts: seq<int>, vs: seq<int>, n: nat,
                                      t: nat, i: nat)
    requires p > 0 && |pts| == |vs| == 2 * n && t + 1 < 2 * n && i < 2 * n && Order(n, i) == t
    requires SummedTo(p, before, pts, vs, n, t) && BasisFor(p, m, pts, i, vs[i])
    ensures SummedTo(p, ReducedAll(p, P.Add(before, P.Scale(1, m))), pts, vs, n, t + 1)
  {
    forall j: nat | j < 2 * n
      ensures Red(p, P.Eval(ReducedAll(p, P.Add(before, P.Scale(1, m))), pts[j]))
           == if Order(n, j) < t + 1 || j == 2 * n - 1 then Red(p, vs[j]) else 0
    {
      AddScaledValue(p, before, m, 1, pts[j]);
      if Order(n, j) == t { OrderOfTwo(n, i, j); }
      OneMoreSummed(p, P.Eval(before, pts[j]), P.Eval(m, pts[j]), vs[j], Order(n, j) < t || j == 2 * n - 1, i == j);
    }
  }

  lemma OrderOfTwo(n: nat, i: nat, j: nat)
    requires i < 2 * n && j < 2 * n && Order(n, i) == Order(n, j)
    ensures i == j
  {
  }

  lemma {:induction false} OneMoreSummed(p: nat, u: int, v: int, w: int, before: bool, now: bool)
    requires p > 0 && !(before && now)
    requires Red(p, u) == (if before then Red(p, w) else 0) && Red(p, v) == (if now then Red(p, w) else 0)
    ensures Red(p, u + 1 * v) == if before || now then Red(p, w) else 0
  {
    RedAdd(p, u, if before then w else 0, v, if now then w else 0);
  }

  /** The sum of all the basis polynomials, starting from the last. */
  method SumBases(p: nat, monomials: seq<seq<int>>, n: nat, ghost pts: seq<int>, ghost vs: seq<int>)
    returns (result: seq<int>)
    requires p > 0 && n > 0 && |monomials| == 2 * n == |pts| == |vs| && AllBases(p, monomials, pts, vs, n)
    requires forall t | 0 <= t < 2 * n :: |monomials[t]| == 2 * n && Reduced(p, monomials[t])
    ensures Reduced(p, result) && Interpolates(p, result, pts, vs)
  {
    result := monomials[2 * n - 1];
    assert Order(n, 2 * n - 1) == 2 * n - 1;
    for t := 0 to 2 * n - 1
      invariant |result| == 2 * n && Reduced(p, result) && SummedTo(p, result, pts, vs, n, t)
    {
      ghost var i: nat := if t % 2 == 0 then t / 2 else n + t / 2;
      assert Order(n, i) == t;
      NextSummed(p, result, monomials[t], pts, vs, n, t, i);
      result := AddScaled(p, result, monomials[t], 1);
    }
  }

  /** The inverses of the two constants and the common numerator. */
  method UnionParts(p: nat, n: nat, h: int, hShifted: int) returns (first: int, second: int, num: seq<int>)
    requires Prime(p) && p % 2 == 1 && n > 0
    requires Red(p, UnionConstant(n, h, hShifted)) != 0 && Red(p, UnionConstant(n, hShifted, h)) != 0
    ensures Red(p, first * UnionConstant(n, h, hShifted)) == 1 && Red(p, second * UnionConstant(n, hShifted, h)) == 1
    ensures num == ReducedAll(p, UnionNum(n, h, hShifted))
  {
    var hPows, hAcc := PowerTable(p, h, 2 * n);
    var hsPows, hsAcc := PowerTable(p, hShifted, 2 * n);
    var firstPart := ConstantPart(p, n, hPows, hsPows, h, hShifted);
    var secondPart := ConstantPart(p, n, hsPows, hPows, hShifted, h);
    var firstInverse := InverseOf(p, firstPart);
    var secondInverse := InverseOf(p, secondPart);
    first, second := firstInverse.value, secondInverse.value;
    InverseOfConstant(p, firstPart, UnionConstant(n, h, hShifted), first);
    InverseOfConstant(p, secondPart, UnionConstant(n, hShifted, h), second);
    num := UnionNumerator(p, n, hPows, hsPows, h, hShifted);
  }

  /** What the two nodes of index `i` are. */
  ghost predicate PairAt(p: nat, n: nat, h: int, hShifted: int, omega: int, first: int, second: int,
                         pts: seq<int>, ws: seq<int>, ks: seq<int>, i: nat)
    requires p > 0 && i < n && |pts| == |ws| == |ks| == 2 * n
  {
    && pts[i] == Point(h, omega, i) && pts[n + i] == Point(hShifted, omega, i)
    && ws[i] == Pow(omega, i) == ws[n + i]
    && Red(p, first * ks[i]) == 1 && Red(p, second * ks[n + i]) == 1
  }

  /** All basis polynomials scaled by their values, one of each coset in turn. */
  method AllScaledBases(p: nat, n: nat, h: int, hShifted: int, omega: int, num: seq<int>, first: int, second: int,
                        values: seq<int>, valuesShifted: seq<int>,
                        ghost f: seq<int>, ghost pts: seq<int>, ghost ws: seq<int>, ghost ks: seq<int>)
    returns (monomials: seq<seq<int>>)
    requires Prime(p) && Nodes(p, f, pts, ws, ks) && num == ReducedAll(p, f) && |values| == n == |valuesShifted|
    requires |pts| == 2 * n
    requires |ws| == |ks| == 2 * n
    requires forall i: nat | i < n :: PairAt(p, n, h, hShifted, omega, first, second, pts, ws, ks, i)
    ensures |monomials| == 2 * n && AllBases(p, monomials, pts, values + valuesShifted, n)
    ensures forall t | 0 <= t < 2 * n :: |monomials[t]| == 2 * n && Reduced(p, monomials[t])
  {
    var powersOfOmega, acc := PowerTable(p, omega, n);
    monomials := [];
    for i := 0 to n
      invariant |monomials| == 2 * i && AllBases(p, monomials, pts, values + valuesShifted, n)
      invariant forall t | 0 <= t < 2 * i :: |monomials[t]| == 2 * n && Reduced(p, monomials[t])
    {
      var omegaI := powersOfOmega[i];
      assert PairAt(p, n, h, hShifted, omega, first, second, pts, ws, ks, i);
      RedRed(p, Pow(omega, i));
      PointComputed(p, h, omega, i, omegaI);
      PointComputed(p, hShifted, omega, i, omegaI);
      var q1 := ScaledBasis(p, num, h, omegaI, first, values[i], f, pts, ws, ks, i);
      var q2 := ScaledBasis(p, num, hShifted, omegaI, second, valuesShifted[i], f, pts, ws, ks, n + i);
      TwoMore(p, monomials, q1, q2, pts, values + valuesShifted, n, i);
      monomials := monomials + [q1] + [q2];
    }
  }

  /** The polynomial of degree below 2n with the given values at h * omega^i and at hShifted * omega^i. */
  method InterpolateRMonomialFromUnionSet(p: nat, values: seq<int>, valuesShifted: seq<int>, h: int, hShifted: int,
                                          omega: int, numPolys: nat)
    returns (result: seq<int>)
    requires Prime(p) && p % 2 == 1 && |values| == numPolys == |valuesShifted|
    requires Coset(p, numPolys, h, omega, Pow(h, numPolys))
    requires Coset(p, numPolys, hShifted, omega, Pow(hShifted, numPolys))
    requires Red(p, Pow(h, numPolys)) != Red(p, Pow(hShifted, numPolys))
    ensures Reduced(p, result)
    ensures Interpolates(p, result, Points(h, omega, numPolys) + Points(hShifted, omega, numPolys),
                         values + valuesShifted)
  {
    var n := numPolys;
    ghost var f, pts, vs := UnionNum(n, h, hShifted), Points(h, omega, n) + Points(hShifted, omega, n),
      values + valuesShifted;
    ghost var ws := Weights(omega, n) + Weights(omega, n);
    ghost var k1, k2 := UnionConstant(n, h, hShifted), UnionConstant(n, hShifted, h);
    ghost var ks := Constants(k1, n) + Constants(k2, n);
    UnionNodes(p, n, h, hShifted, omega, Pow(h, n), Pow(hShifted, n));
    assert ks[0] == k1 && ks[n] == k2;
    var first, second, num := UnionParts(p, n, h, hShifted);
    forall i: nat | i < n ensures PairAt(p, n, h, hShifted, omega, first, second, pts, ws, ks, i) {
    }
    var monomials := AllScaledBases(p, n, h, hShifted, omega, num, first, second, values, valuesShifted, f, pts, ws,
                                    ks);
    result := SumBases(p, monomials, n, pts, vs);
  }

  lemma {:induction false} TwoMore(p: nat, monomials: seq<seq<int>>, q1: seq<int>, q2: seq<int>, pts: seq<int>,
                                   vs: seq<int>, n: nat, i: nat)
    requires p > 0 && |pts| == |vs| == 2 * n && i < n && |monomials| == 2 * i && AllBases(p, monomials, pts, vs, n)
    requires BasisFor(p, q1, pts, i, vs[i]) && BasisFor(p, q2, pts, n + i, vs[n + i])
    ensures AllBases(p, monomials + [q1] + [q2], pts, vs, n)
  {
    var more := monomials + [q1] + [q2];
    forall j: nat | j < 2 * n && Order(n, j) < |more| ensures BasisFor(p, more[Order(n, j)], pts, j, vs[j]) {
      var t := Order(n, j);
      if t < |monomials| {
        assert BasisFor(p, monomials[Order(n, j)], pts, j, vs[j]);
      } else {
        assert j == i || j == n + i;
      }
    }
  }

  // ---- The polynomial r of a round ----

  /** The values the combined polynomial should have over one coset. */
  method CombinedValues(p: nat, evals: seq<int>, h: int, omega: int, size: nat) returns (values: seq<int>)
    requires p > 1 && |evals| > 0 && Reduced(p, evals)
    ensures |values| == size && forall i: nat | i < size :: values[i] == Red(p, P.Eval(evals, Point(h, omega, i)))
  {
    values := [];
    var currentOmega := h;
    assert Pow(omega, 0) * h == h;
    for i := 0 to size
      invariant |values| == i && Red(p, currentOmega) == Red(p, Point(h, omega, i))
      invariant forall k: nat | k < i :: values[k] == Red(p, P.Eval(evals, Point(h, omega, k)))
    {
      var sum := HornerEvaluation(p, evals, currentOmega);
      P.EvalRed(p, evals, evals, currentOmega, Point(h, omega, i));
      values := values + [sum];
      NextPoint(p, h, omega, i, currentOmega);
      currentOmega := Red(p, currentOmega * omega);
    }
  }

  lemma {:induction false} NextPoint(p: nat, h: int, omega: int, i: nat, current: int)
    requires p > 0 && Red(p, current) == Red(p, Point(h, omega, i))
    ensures Red(p, Red(p, current * omega)) == Red(p, Point(h, omega, i + 1))
  {
    RedMul(p, current, Point(h, omega, i), omega, omega);
    RedRed(p, current * omega);
    Rotate(Pow(omega, i), h, omega);
  }

  /** The polynomial r of a round: it takes, on the round's opening set, the values its evaluations combine to. */
  method InterpolateUnionSet(p: nat, evals: seq<int>, evalsShifted: seq<int>, opening: OpeningSet,
                             ghost z: int, ghost zs: int) returns (r: seq<int>)
    requires opening.Opens(p, z, zs) && p % 2 == 1 && |evals| > 0 && Reduced(p, evals)
    requires opening.hShifted.Some? ==> |evalsShifted| == |evals| && Reduced(p, evalsShifted)
    ensures Reduced(p, r) && Interpolates(p, r, opening.Pts(), opening.Values(evals, evalsShifted))
  {
    var n, h, omega := opening.n, opening.h, opening.omega;
    var values := CombinedValues(p, evals, h, omega, n);
    match opening.hShifted {
      case Some(hs) =>
        var valuesShifted := CombinedValues(p, evalsShifted, hs, omega, n);
        r := InterpolateRMonomialFromUnionSet(p, values, valuesShifted, h, hs, omega, n);
        SameValues(p, r, opening, evals, evalsShifted, values + valuesShifted);
      case None =>
        r := InterpolateRMonomial(p, values, n, h, omega);
        assert opening.Pts() == Points(h, omega, n);
        SameValues(p, r, opening, evals, evalsShifted, values);
    }
  }

  lemma {:induction false} SameValues(p: nat, r: seq<int>, opening: OpeningSet, evals: seq<int>, evalsShifted: seq<int>,
                                      vs: seq<int>)
    requires p > 0 && |vs| == |opening.Pts()| && Interpolates(p, r, opening.Pts(), vs)
    requires forall j | 0 <= j < |vs| ::
      vs[j] == Red(p, P.Eval(if j < opening.n then evals else evalsShifted, opening.Pts()[j]))
    ensures Interpolates(p, r, opening.Pts(), opening.Values(evals, evalsShifted))
  {
    var ws := opening.Values(evals, evalsShifted);
    forall j | 0 <= j < |vs| ensures Red(p, vs[j]) == Red(p, ws[j]) { RedRed(p, ws[j]); }
  }
}
