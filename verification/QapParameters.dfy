/** The exponents of all queries of crates/bellman/src/groth16/generator.rs, and what they amount to for
    an assignment that satisfies the constraints. */
module QapParameters {
  import opened Outcomes
  import opened Modular
  import opened FieldInverse
  import opened PrimeFields
  import opened Spaces
  import opened Threads
  import opened FftParallel
  import opened FftInverse
  import opened FftDomain
  import opened SparsePolynomials
  import opened ConstraintColumns
  import opened QapEvaluation
  import opened QapAssembly
  import opened QapGenerator
  import P = Polynomials

  /** The queries of the inputs and of the auxiliary variables, and the H query. */
  datatype Parameters = Parameters(inputs: Queries, aux: Queries, h: seq<int>)

  /** The A and B queries add up to a and b, and the last queries, with gamma and delta multiplied back
      in, to beta a + alpha b + c. */
  ghost predicate AddUpTo(p: nat, r: Parameters, alpha: int, beta: int, gamma: int, delta: int, xs: seq<int>,
                          us: seq<int>, a: int, b: int, c: int)
    requires p > 0 && |r.inputs.a| == |r.inputs.b| == |r.inputs.ext| == |xs|
    requires |r.aux.a| == |r.aux.b| == |r.aux.ext| == |us|
  {
    && SumIs(p, P.Dot(xs, r.inputs.a, |xs|), P.Dot(us, r.aux.a, |us|), a)
    && SumIs(p, P.Dot(xs, r.inputs.b, |xs|), P.Dot(us, r.aux.b, |us|), b)
    && SumIs(p, P.Dot(xs, r.inputs.ext, |xs|) * gamma, P.Dot(us, r.aux.ext, |us|) * delta, a * beta + b * alpha + c)
  }

  /** At an assignment the queries add up to the values at tau of the polynomials that interpolate the rows. */
  ghost predicate Evaluates(p: nat, q: Qap, r: Parameters, tau: int, alpha: int, beta: int, gamma: int, delta: int,
                            n: nat, back: int, minv: int, xs: seq<int>, us: seq<int>)
    requires p > 0 && q.Fits(xs, us) && |r.inputs.a| == |r.inputs.b| == |r.inputs.ext| == |xs|
    requires |r.aux.a| == |r.aux.b| == |r.aux.ext| == |us|
  {
    AddUpTo(p, r, alpha, beta, gamma, delta, xs, us,
            P.Eval(RowPolynomial(p, q.atInputs, q.atAux, xs, us, n, back, minv), tau),
            P.Eval(RowPolynomial(p, q.btInputs, q.btAux, xs, us, n, back, minv), tau),
            P.Eval(RowPolynomial(p, q.ctInputs, q.ctAux, xs, us, n, back, minv), tau))
  }

  lemma {:induction false} GroupSums(p: nat, lagrange: seq<int>, at: seq<seq<Entry>>, bt: seq<seq<Entry>>,
                                     ct: seq<seq<Entry>>, alpha: int, beta: int, inv: int, q: Queries, xs: seq<int>)
    requires p > 0 && |xs| == |at| && QueriesOf(p, lagrange, at, bt, ct, alpha, beta, inv, q)
    ensures Red(p, P.Dot(xs, q.a, |xs|)) == Red(p, WeightedAll(lagrange, at, xs))
    ensures Red(p, P.Dot(xs, q.b, |xs|)) == Red(p, WeightedAll(lagrange, bt, xs))
  {
    forall i | 0 <= i < |xs|
      ensures Red(p, q.a[i]) == Red(p, Weighted(lagrange, at[i])) && Red(p, q.b[i]) == Red(p, Weighted(lagrange, bt[i]))
    {
      assert QueryAt(p, lagrange, at[i], bt[i], ct[i], alpha, beta, inv, q.a[i], q.b[i], q.ext[i]);
      RedRed(p, Weighted(lagrange, at[i]));
      RedRed(p, Weighted(lagrange, bt[i]));
    }
    DotCongRight(p, xs, q.a, WeightedColumns(lagrange, at), |xs|);
    DotCongRight(p, xs, q.b, WeightedColumns(lagrange, bt), |xs|);
  }

  lemma {:induction false} GroupExt(p: nat, lagrange: seq<int>, at: seq<seq<Entry>>, bt: seq<seq<Entry>>,
                                    ct: seq<seq<Entry>>, alpha: int, beta: int, inv: int, k: int, q: Queries,
                                    xs: seq<int>)
    requires p > 0 && |xs| == |at| && QueriesOf(p, lagrange, at, bt, ct, alpha, beta, inv, q) && Red(p, inv * k) == 1
    ensures ExtSum(p, P.Dot(xs, q.ext, |xs|), k, WeightedAll(lagrange, at, xs), WeightedAll(lagrange, bt, xs),
                   WeightedAll(lagrange, ct, xs), alpha, beta)
  {
    var a, b, c := WeightedColumns(lagrange, at), WeightedColumns(lagrange, bt), WeightedColumns(lagrange, ct);
    forall i | 0 <= i < |xs| ensures q.ext[i] == Red(p, (a[i] * beta + b[i] * alpha + c[i]) * inv) {
      assert QueryAt(p, lagrange, at[i], bt[i], ct[i], alpha, beta, inv, q.a[i], q.b[i], q.ext[i]);
    }
    SumOfExt(p, a, b, c, alpha, beta, inv, k, q.ext, xs, |xs|);
  }

  lemma {:induction false} TwoGroups(p: nat, e: int, f: int, a1: int, b1: int, c1: int, a2: int, b2: int, c2: int,
                                     a: int, b: int, c: int, alpha: int, beta: int)
    requires p > 0 && Red(p, e) == Red(p, a1 * beta + b1 * alpha + c1)
    requires Red(p, f) == Red(p, a2 * beta + b2 * alpha + c2)
    requires SumIs(p, a1, a2, a) && SumIs(p, b1, b2, b) && SumIs(p, c1, c2, c)
    ensures SumIs(p, e, f, a * beta + b * alpha + c)
  {
    RedAdd(p, e, a1 * beta + b1 * alpha + c1, f, a2 * beta + b2 * alpha + c2);
    RedMul(p, a1 + a2, a, beta, beta);
    RedMul(p, b1 + b2, b, alpha, alpha);
    RedAdd(p, (a1 + a2) * beta, a * beta, (b1 + b2) * alpha, b * alpha);
    RedAdd(p, (a1 + a2) * beta + (b1 + b2) * alpha, a * beta + b * alpha, c1 + c2, c);
    assert (a1 + a2) * beta == a1 * beta + a2 * beta;
    assert (b1 + b2) * alpha == b1 * alpha + b2 * alpha;
  }

  lemma {:induction false} QueriesEvaluate(p: nat, q: Qap, r: Parameters, tau: int, alpha: int, beta: int, gamma: int,
                                           delta: int, gammaInv: int, deltaInv: int, n: nat, back: int, minv: int,
                                           xs: seq<int>, us: seq<int>)
    requires p > 0 && q.Fits(xs, us) && Red(p, gammaInv * gamma) == 1 && Red(p, deltaInv * delta) == 1
    requires QueriesOf(p, Inverted(p, Powers(p, tau, n), back, minv), q.atInputs, q.btInputs, q.ctInputs, alpha, beta,
                       gammaInv, r.inputs)
    requires QueriesOf(p, Inverted(p, Powers(p, tau, n), back, minv), q.atAux, q.btAux, q.ctAux, alpha, beta, deltaInv,
                       r.aux)
    ensures Evaluates(p, q, r, tau, alpha, beta, gamma, delta, n, back, minv, xs, us)
  {
    var u := Inverted(p, Powers(p, tau, n), back, minv);
    QapValue(p, q.atInputs, q.atAux, xs, us, tau, n, back, minv);
    QapValue(p, q.btInputs, q.btAux, xs, us, tau, n, back, minv);
    QapValue(p, q.ctInputs, q.ctAux, xs, us, tau, n, back, minv);
    QueriesSum(p, q, r, u, alpha, beta, gamma, delta, gammaInv, deltaInv, xs, us,
               P.Eval(RowPolynomial(p, q.atInputs, q.atAux, xs, us, n, back, minv), tau),
               P.Eval(RowPolynomial(p, q.btInputs, q.btAux, xs, us, n, back, minv), tau),
               P.Eval(RowPolynomial(p, q.ctInputs, q.ctAux, xs, us, n, back, minv), tau));
  }

  lemma {:induction false} QueriesSum(p: nat, q: Qap, r: Parameters, u: seq<int>, alpha: int, beta: int, gamma: int,
                                      delta: int, gammaInv: int, deltaInv: int, xs: seq<int>, us: seq<int>, a: int,
                                      b: int, c: int)
    requires p > 0 && q.Fits(xs, us) && Red(p, gammaInv * gamma) == 1 && Red(p, deltaInv * delta) == 1
    requires QueriesOf(p, u, q.atInputs, q.btInputs, q.ctInputs, alpha, beta, gammaInv, r.inputs)
    requires QueriesOf(p, u, q.atAux, q.btAux, q.ctAux, alpha, beta, deltaInv, r.aux)
    requires SumIs(p, WeightedAll(u, q.atInputs, xs), WeightedAll(u, q.atAux, us), a)
    requires SumIs(p, WeightedAll(u, q.btInputs, xs), WeightedAll(u, q.btAux, us), b)
    requires SumIs(p, WeightedAll(u, q.ctInputs, xs), WeightedAll(u, q.ctAux, us), c)
    ensures AddUpTo(p, r, alpha, beta, gamma, delta, xs, us, a, b, c)
  {
    SidesSum(p, q, r, u, alpha, beta, gammaInv, deltaInv, xs, us, a, b);
    GroupExt(p, u, q.atInputs, q.btInputs, q.ctInputs, alpha, beta, gammaInv, gamma, r.inputs, xs);
    GroupExt(p, u, q.atAux, q.btAux, q.ctAux, alpha, beta, deltaInv, delta, r.aux, us);
    TwoGroups(p, P.Dot(xs, r.inputs.ext, |xs|) * gamma, P.Dot(us, r.aux.ext, |us|) * delta,
              WeightedAll(u, q.atInputs, xs), WeightedAll(u, q.btInputs, xs), WeightedAll(u, q.ctInputs, xs),
              WeightedAll(u, q.atAux, us), WeightedAll(u, q.btAux, us), WeightedAll(u, q.ctAux, us), a, b, c, alpha,
                beta);
  }

  lemma {:induction false} SidesSum(p: nat, q: Qap, r: Parameters, u: seq<int>, alpha: int, beta: int,
                                    gammaInv: int, deltaInv: int, xs: seq<int>, us: seq<int>, a: int, b: int)
    requires p > 0 && q.Fits(xs, us)
    requires QueriesOf(p, u, q.atInputs, q.btInputs, q.ctInputs, alpha, beta, gammaInv, r.inputs)
    requires QueriesOf(p, u, q.atAux, q.btAux, q.ctAux, alpha, beta, deltaInv, r.aux)
    requires SumIs(p, WeightedAll(u, q.atInputs, xs), WeightedAll(u, q.atAux, us), a)
    requires SumIs(p, WeightedAll(u, q.btInputs, xs), WeightedAll(u, q.btAux, us), b)
    ensures SumIs(p, P.Dot(xs, r.inputs.a, |xs|), P.Dot(us, r.aux.a, |us|), a)
    ensures SumIs(p, P.Dot(xs, r.inputs.b, |xs|), P.Dot(us, r.aux.b, |us|), b)
  {
    GroupSums(p, u, q.atInputs, q.btInputs, q.ctInputs, alpha, beta, gammaInv, r.inputs, xs);
    GroupSums(p, u, q.atAux, q.btAux, q.ctAux, alpha, beta, deltaInv, r.aux, us);
    SumIsAlso(p, P.Dot(xs, r.inputs.a, |xs|), P.Dot(us, r.aux.a, |us|), WeightedAll(u, q.atInputs, xs),
              WeightedAll(u, q.atAux, us), a);
    SumIsAlso(p, P.Dot(xs, r.inputs.b, |xs|), P.Dot(us, r.aux.b, |us|), WeightedAll(u, q.btInputs, xs),
              WeightedAll(u, q.btAux, us), b);
  }

  lemma {:induction false} RowsFit(q: Qap, n: nat)
    requires q.Consistent() && |q.a| <= n
    ensures RowsBelow(q.atInputs, n) && RowsBelow(q.btInputs, n) && RowsBelow(q.ctInputs, n)
    ensures RowsBelow(q.atAux, n) && RowsBelow(q.btAux, n) && RowsBelow(q.ctAux, n)
  {
  }

  /** The last query of an auxiliary variable is the identity: beta A_i + alpha B_i + C_i vanishes at tau, for the
      polynomials of its three columns. */
  ghost predicate Unconstrained(p: nat, q: Qap, tau: int, alpha: int, beta: int, n: nat, back: int, minv: int, i: nat)
    requires p > 0 && q.Consistent() && i < |q.atAux|
  {
    MixVanishes(p, P.Eval(ColumnPolynomial(p, q.atAux[i], n, back, minv), tau),
                P.Eval(ColumnPolynomial(p, q.btAux[i], n, back, minv), tau),
                P.Eval(ColumnPolynomial(p, q.ctAux[i], n, back, minv), tau), alpha, beta)
  }

  ghost predicate MixVanishes(p: nat, a: int, b: int, c: int, alpha: int, beta: int)
    requires p > 0
  {
    Red(p, a * beta + b * alpha + c) == 0
  }

  ghost predicate SomeUnconstrained(p: nat, q: Qap, tau: int, alpha: int, beta: int, n: nat, back: int, minv: int)
    requires p > 0 && q.Consistent()
  {
    exists i: nat :: i < |q.atAux| && Unconstrained(p, q, tau, alpha, beta, n, back, minv, i)
  }

  lemma {:induction false} ExtIsZero(p: nat, q: Qap, tau: int, alpha: int, beta: int, delta: int, deltaInv: int, n: nat,
                                     back: int, minv: int, aux: Queries, i: nat)
    requires Prime(p) && q.Consistent() && |q.a| <= n && Red(p, deltaInv * delta) == 1 && i < |q.atAux|
    requires RowsBelow(q.atAux, n) && RowsBelow(q.btAux, n) && RowsBelow(q.ctAux, n)
    requires QueriesOf(p, Inverted(p, Powers(p, tau, n), back, minv), q.atAux, q.btAux, q.ctAux, alpha, beta, deltaInv,
                       aux)
    ensures aux.ext[i] == 0 <==> Unconstrained(p, q, tau, alpha, beta, n, back, minv, i)
  {
    var u := Inverted(p, Powers(p, tau, n), back, minv);
    var at, bt, ct := q.atAux[i], q.btAux[i], q.ctAux[i];
    assert QueryAt(p, u, at, bt, ct, alpha, beta, deltaInv, aux.a[i], aux.b[i], aux.ext[i]);
    ColumnValue(p, at, tau, n, back, minv);
    ColumnValue(p, bt, tau, n, back, minv);
    ColumnValue(p, ct, tau, n, back, minv);
    QueryVanishes(p, u, at, bt, ct, alpha, beta, delta, deltaInv, aux.a[i], aux.b[i], aux.ext[i],
                  P.Eval(ColumnPolynomial(p, at, n, back, minv), tau),
                  P.Eval(ColumnPolynomial(p, bt, n, back, minv), tau),
                  P.Eval(ColumnPolynomial(p, ct, n, back, minv), tau));
  }

  lemma {:induction false} QueryVanishes(p: nat, u: seq<int>, at: seq<Entry>, bt: seq<Entry>, ct: seq<Entry>,
                                         alpha: int, beta: int, delta: int, deltaInv: int, a: int, b: int, ext: int,
                                         x: int, y: int, z: int)
    requires Prime(p) && Red(p, deltaInv * delta) == 1
    requires forall k | 0 <= k < |at| :: at[k].row < |u|
    requires forall k | 0 <= k < |bt| :: bt[k].row < |u|
    requires forall k | 0 <= k < |ct| :: ct[k].row < |u|
    requires QueryAt(p, u, at, bt, ct, alpha, beta, deltaInv, a, b, ext)
    requires Red(p, Weighted(u, at)) == Red(p, x) && Red(p, Weighted(u, bt)) == Red(p, y)
    requires Red(p, Weighted(u, ct)) == Red(p, z)
    ensures ext == 0 <==> MixVanishes(p, x, y, z, alpha, beta)
  {
    ZeroQuery(p, Weighted(u, at), x, beta, Weighted(u, bt), y, alpha, Weighted(u, ct), z, delta, deltaInv, ext);
  }

  lemma {:induction false} ZeroQuery(p: nat, x: int, x': int, b: int, y: int, y': int, a: int, z: int, z': int,
                                     delta: int, deltaInv: int, ext: int)
    requires Prime(p) && Red(p, x) == Red(p, x') && Red(p, y) == Red(p, y') && Red(p, z) == Red(p, z')
    requires Red(p, deltaInv * delta) == 1 && ext == Red(p, (x * b + y * a + z) * deltaInv)
    ensures ext == 0 <==> Red(p, x' * b + y' * a + z') == 0
  {
    SameCombination(p, x, x', b, y, y', a, z, z');
    ZeroProduct(p, x * b + y * a + z, deltaInv);
    ZeroProduct(p, deltaInv, delta);
  }

  lemma {:induction false} SameCombination(p: nat, x: int, x': int, b: int, y: int, y': int, a: int, z: int, z': int)
    requires p > 0 && Red(p, x) == Red(p, x') && Red(p, y) == Red(p, y') && Red(p, z) == Red(p, z')
    ensures Red(p, x * b + y * a + z) == Red(p, x' * b + y' * a + z')
  {
    RedMul(p, x, x', b, b);
    RedMul(p, y, y', a, a);
    RedAdd(p, x * b, x' * b, y * a, y' * a);
    RedAdd(p, x * b + y * a, x' * b + y' * a, z, z');
  }

  lemma {:induction false} ExtsAreZero(p: nat, q: Qap, tau: int, alpha: int, beta: int, delta: int, deltaInv: int,
                                       n: nat, back: int, minv: int, aux: Queries)
    requires Prime(p) && q.Consistent() && |q.a| <= n && Red(p, deltaInv * delta) == 1
    requires RowsBelow(q.atAux, n) && RowsBelow(q.btAux, n) && RowsBelow(q.ctAux, n)
    requires QueriesOf(p, Inverted(p, Powers(p, tau, n), back, minv), q.atAux, q.btAux, q.ctAux, alpha, beta, deltaInv,
                       aux)
    ensures 0 in aux.ext <==> SomeUnconstrained(p, q, tau, alpha, beta, n, back, minv)
  {
    if 0 in aux.ext {
      var i: nat :| i < |aux.ext| && aux.ext[i] == 0;
      ExtIsZero(p, q, tau, alpha, beta, delta, deltaInv, n, back, minv, aux, i);
    }
    if SomeUnconstrained(p, q, tau, alpha, beta, n, back, minv) {
      var i: nat :| i < |q.atAux| && Unconstrained(p, q, tau, alpha, beta, n, back, minv, i);
      ExtIsZero(p, q, tau, alpha, beta, delta, deltaInv, n, back, minv, aux, i);
    }
  }

  /** Whether some auxiliary variable has the identity as its last query. */
  method FindZero(exts: seq<int>) returns (zero: bool)
    ensures zero <==> 0 in exts
  {
    for i := 0 to |exts|
      invariant 0 !in exts[..i]
    {
      if exts[i] == 0 {
        return true;
      }
    }
    zero := false;
  }

  // ---- The H query ----

  /** tau^i * (tau^m - 1) / delta for every i below m - 1. */
  ghost predicate HQueryOf(p: nat, h: seq<int>, tau: int, m: nat, deltaInv: int)
    requires p > 0
  {
    |h| + 1 == m && HEntries(p, h, tau, m, deltaInv)
  }

  ghost predicate HEntries(p: nat, h: seq<int>, tau: int, m: nat, deltaInv: int)
    requires p > 0
  {
    forall i: nat | i < |h| :: HEntry(p, h[i], tau, m, deltaInv, i)
  }

  ghost predicate HEntry(p: nat, h: int, tau: int, m: nat, deltaInv: int, i: nat)
    requires p > 0
  {
    h == Red(p, Pow(tau, i) * ((Pow(tau, m) - 1) * deltaInv))
  }

  method HQuery(p: nat, h: array<int>, powers: seq<int>, chunk: nat, order: seq<nat>, tau: int, deltaInverse: int)
    requires p > 0 && powers == Powers(p, tau, h.Length + 1) && Schedule(order, h.Length, chunk)
    modifies h
    ensures HQueryOf(p, h[..], tau, h.Length + 1, deltaInverse)
  {
    var coeff := HCoefficient(p, tau, h.Length + 1, deltaInverse);
    HChunks(p, h, powers, chunk, order, coeff);
    AllHEntries(p, h[..], powers, coeff, tau, h.Length + 1, deltaInverse);
  }

  ghost predicate HFilled(p: nat, h: seq<int>, powers: seq<int>, coeff: int)
    requires p > 0 && |h| <= |powers|
  {
    forall i: nat | i < |h| :: h[i] == Red(p, powers[i] * coeff)
  }

  /** Every thread fills its chunk from the same chunk of the powers. */
  method HChunks(p: nat, h: array<int>, powers: seq<int>, chunk: nat, order: seq<nat>, coeff: int)
    requires p > 0 && h.Length <= |powers| && Schedule(order, h.Length, chunk)
    modifies h
    ensures HFilled(p, h[..], powers, coeff)
  {
    ghost var turn := Turns(order, h.Length, chunk, h.Length);
    for x := 0 to |order|
      invariant forall i: nat | i < h.Length && turn[i] < x :: h[i] == Red(p, powers[i] * coeff)
    {
      var lo, hi := ChunkBounds(h.Length, chunk, order[x]);
      forall i: nat | i < h.Length ensures turn[i] == x <==> lo <= i < hi {
        assert Turn(order, chunk, turn, x, i);
        assert lo <= i < hi <==> InChunk(order[x], chunk, i);
      }
      HChunk(p, h, powers, coeff, lo, hi);
    }
  }

  /** One thread's chunk. */
  method HChunk(p: nat, h: array<int>, powers: seq<int>, coeff: int, lo: nat, hi: nat)
    requires p > 0 && lo <= hi <= h.Length <= |powers|
    modifies h
    ensures forall i: nat | i < h.Length :: h[i] == if lo <= i < hi then Red(p, powers[i] * coeff) else old(h[i])
  {
    for i := lo to hi
      invariant forall j: nat | j < h.Length :: h[j] == if lo <= j < i then Red(p, powers[j] * coeff) else old(h[j])
    {
      h[i] := Red(p, powers[i] * coeff);
    }
  }

  ghost predicate IsHCoefficient(p: nat, coeff: int, tau: int, m: nat, deltaInv: int)
    requires p > 0
  {
    Red(p, coeff) == Red(p, (Pow(tau, m) - 1) * deltaInv)
  }

  /** (tau^m - 1) / delta. */
  method HCoefficient(p: nat, tau: int, m: nat, deltaInverse: int) returns (coeff: int)
    requires p > 0
    ensures IsHCoefficient(p, coeff, tau, m, deltaInverse)
  {
    RedRed(p, Pow(tau, m));
    SumComputed(p, FieldPow(p, tau, m), Pow(tau, m), 1, 1);
    coeff := Red(p, FieldPow(p, tau, m) - 1);
    ProductComputed(p, coeff, Pow(tau, m) - 1, deltaInverse, deltaInverse);
    coeff := Red(p, coeff * deltaInverse);
  }

  lemma {:induction false} AllHEntries(p: nat, h: seq<int>, powers: seq<int>, coeff: int, tau: int, m: nat,
                                       deltaInv: int)
    requires p > 0 && |h| + 1 == m && powers == Powers(p, tau, m) && IsHCoefficient(p, coeff, tau, m, deltaInv)
    requires HFilled(p, h, powers, coeff)
    ensures HQueryOf(p, h, tau, m, deltaInv)
  {
    forall i: nat | i < |h| ensures HEntry(p, h[i], tau, m, deltaInv, i) {
      OneHEntry(p, powers[i], coeff, tau, m, deltaInv, i);
    }
  }

  lemma {:induction false} OneHEntry(p: nat, power: int, coeff: int, tau: int, m: nat, deltaInv: int, i: nat)
    requires p > 0 && power == Red(p, Pow(tau, i)) && IsHCoefficient(p, coeff, tau, m, deltaInv)
    ensures HEntry(p, Red(p, power * coeff), tau, m, deltaInv, i)
  {
    RedRed(p, Pow(tau, i));
    ProductComputed(p, power, Pow(tau, i), coeff, (Pow(tau, m) - 1) * deltaInv);
  }

  lemma {:induction false} HTerm(p: nat, s: int, e: int, c: int, h: int, w: int, z: int, inv: int, delta: int)
    requires p > 0 && Red(p, s * delta) == Red(p, e * z) && Red(p, h) == Red(p, w * (z * inv))
    requires Red(p, inv * delta) == 1
    ensures Red(p, (s + c * h) * delta) == Red(p, (e + c * w) * z)
  {
    RedMul(p, h, w * (z * inv), delta, delta);
    MoveInverse(w, z, inv, delta);
    RedMul(p, w * z, w * z, inv * delta, 1);
    RedMul(p, c, c, h * delta, w * z);
    RedAdd(p, s * delta, e * z, c * (h * delta), c * (w * z));
    StepTimes(s, c, h, delta);
    StepTimes(e, c, w, z);
  }

  lemma MoveInverse(w: int, z: int, inv: int, delta: int)
    ensures (w * (z * inv)) * delta == (w * z) * (inv * delta)
  {
    assert (w * (z * inv)) * delta == ((w * z) * inv) * delta;
  }

  /** With delta multiplied back in, the H query weighted with coefficients is their value at tau times tau^m - 1. */
  lemma {:induction false} SumOfH(p: nat, hs: seq<int>, h: seq<int>, tau: int, m: nat, inv: int, delta: int, n: nat)
    requires p > 0 && HQueryOf(p, h, tau, m, inv) && Red(p, inv * delta) == 1 && n <= |hs| == |h|
    ensures Red(p, P.Dot(hs, h, n) * delta) == Red(p, P.Eval(hs[..n], tau) * (Pow(tau, m) - 1))
  {
    if n == 0 {
      assert 0 * delta == 0 && 0 * (Pow(tau, m) - 1) == 0;
    } else {
      SumOfH(p, hs, h, tau, m, inv, delta, n - 1);
      EvalPrefix(hs, n, tau);
      assert HEntry(p, h[n - 1], tau, m, inv, n - 1);
      RedRed(p, Pow(tau, n - 1) * ((Pow(tau, m) - 1) * inv));
      HTerm(p, P.Dot(hs, h, n - 1), P.Eval(hs[..n - 1], tau), hs[n - 1], h[n - 1], Pow(tau, n - 1), Pow(tau, m) - 1,
            inv, delta);
    }
  }

  lemma {:induction false} ExactValue(p: nat, f: seq<int>, m: nat, x: int)
    requires p > 0 && 0 < m <= |f| && Exact(p, f, m, 1)
    ensures Red(p, P.Eval(f, x)) == Red(p, P.Eval(SparseQuotient(f, m, 1), x) * (Pow(x, m) - 1))
  {
    var r := Remainder(f, m, 1);
    EvalDivision(f, m, 1, x);
    P.EvalRed(p, r, P.Zeros(m), x, x);
    P.EvalZeros(m, x);
    RedAdd(p, P.Eval(SparseQuotient(f, m, 1), x) * (Pow(x, m) - 1),
           P.Eval(SparseQuotient(f, m, 1), x) * (Pow(x, m) - 1), P.Eval(r, x), 0);
  }

  /** (u + u') (v + v') = c + h delta. */
  ghost predicate ProductSplits(p: nat, u: int, u': int, v: int, v': int, c: int, h: int, delta: int)
    requires p > 0
  {
    Red(p, (u + u') * (v + v')) == Red(p, c + h * delta)
  }

  /** A(x) B(x) - C(x) = H(x) (x^m - 1). */
  ghost predicate QuotientAt(p: nat, a: seq<int>, b: seq<int>, c: seq<int>, m: nat, hs: seq<int>, x: int)
    requires p > 0
  {
    Red(p, P.Eval(a, x) * P.Eval(b, x) - P.Eval(c, x)) == Red(p, P.Eval(hs, x) * (Pow(x, m) - 1))
  }

  lemma {:induction false} ExactQuotient(p: nat, a: seq<int>, b: seq<int>, c: seq<int>, m: nat, x: int)
    requires p > 0 && 0 < m == |a| == |b| == |c| && Exact(p, Residual(a, b, c), m, 1)
    ensures QuotientAt(p, a, b, c, m, SparseQuotient(Residual(a, b, c), m, 1), x)
  {
    ExactValue(p, Residual(a, b, c), m, x);
    P.EvalAdd(P.Mul(a, b), P.Scale(-1, c), x);
    P.EvalMul(a, b, x);
    P.EvalScale(-1, c, x);
  }

  lemma {:induction false} IsQuotient(p: nat, a: seq<int>, b: seq<int>, c: seq<int>, m: nat)
    requires p > 0 && 0 < m == |a| == |b| == |c| && Exact(p, Residual(a, b, c), m, 1)
    ensures forall x: int :: QuotientAt(p, a, b, c, m, SparseQuotient(Residual(a, b, c), m, 1), x)
  {
    forall x: int ensures QuotientAt(p, a, b, c, m, SparseQuotient(Residual(a, b, c), m, 1), x) {
      ExactQuotient(p, a, b, c, m, x);
    }
  }

  /** What a satisfied assignment makes of the queries: the product of the sums over the A and B queries is C at
      tau plus delta times the H query weighted with the quotient's coefficients. */
  lemma {:induction false} SatisfiedEquation(p: nat, q: Qap, r: Parameters, tau: int, alpha: int, beta: int, gamma: int,
                                             delta: int, deltaInv: int, omega: int, back: int, minv: int, l: nat,
                                             xs: seq<int>, us: seq<int>)
    returns (hs: seq<int>)
    requires Prime(p) && p % 2 == 1 && q.Consistent() && q.Fits(xs, us) && |q.a| <= Pow2(l) && q.Satisfied(p, xs, us)
    requires IsRoot(p, omega, l) && Red(p, omega * back) == Red(p, 1) && Red(p, Pow2(l) * minv) == Red(p, 1)
    requires |r.inputs.a| == |r.inputs.b| == |r.inputs.ext| == |xs| && |r.aux.a| == |r.aux.b| == |r.aux.ext| == |us|
    requires Evaluates(p, q, r, tau, alpha, beta, gamma, delta, Pow2(l), back, minv, xs, us)
    requires HQueryOf(p, r.h, tau, Pow2(l), deltaInv) && Red(p, deltaInv * delta) == 1
    ensures |hs| == |r.h|
    ensures forall x: int :: QuotientAt(p, RowPolynomial(p, q.atInputs, q.atAux, xs, us, Pow2(l), back, minv),
                                        RowPolynomial(p, q.btInputs, q.btAux, xs, us, Pow2(l), back, minv),
                                        RowPolynomial(p, q.ctInputs, q.ctAux, xs, us, Pow2(l), back, minv), Pow2(l),
                                        hs, x)
    ensures ProductSplits(p, P.Dot(xs, r.inputs.a, |xs|), P.Dot(us, r.aux.a, |us|), P.Dot(xs, r.inputs.b, |xs|),
                          P.Dot(us, r.aux.b, |us|),
                          P.Eval(RowPolynomial(p, q.ctInputs, q.ctAux, xs, us, Pow2(l), back, minv), tau),
                          P.Dot(hs, r.h, |hs|), delta)
  {
    var m := Pow2(l);
    var a := RowPolynomial(p, q.atInputs, q.atAux, xs, us, m, back, minv);
    var b := RowPolynomial(p, q.btInputs, q.btAux, xs, us, m, back, minv);
    var c := RowPolynomial(p, q.ctInputs, q.ctAux, xs, us, m, back, minv);
    SatisfiedIffDivides(p, q, xs, us, omega, back, minv, l);
    hs := SparseQuotient(Residual(a, b, c), m, 1);
    IsQuotient(p, a, b, c, m);
    EquationAtTau(p, a, b, c, hs, r.h, tau, m, deltaInv, delta, P.Dot(xs, r.inputs.a, |xs|),
                  P.Dot(us, r.aux.a, |us|), P.Dot(xs, r.inputs.b, |xs|), P.Dot(us, r.aux.b, |us|));
  }

  lemma {:induction false} EquationAtTau(p: nat, a: seq<int>, b: seq<int>, c: seq<int>, hs: seq<int>, h: seq<int>,
                                         tau: int, m: nat, inv: int, delta: int, u: int, u': int, v: int, v': int)
    requires p > 0 && 0 < m == |a| == |b| == |c| && Exact(p, Residual(a, b, c), m, 1)
    requires hs == SparseQuotient(Residual(a, b, c), m, 1)
    requires HQueryOf(p, h, tau, m, inv) && Red(p, inv * delta) == 1
    requires SumIs(p, u, u', P.Eval(a, tau)) && SumIs(p, v, v', P.Eval(b, tau))
    ensures ProductSplits(p, u, u', v, v', P.Eval(c, tau), P.Dot(hs, h, |hs|), delta)
  {
    QuotientAtTau(p, a, b, c, hs, h, tau, m, inv, delta);
    ProductIsSum(p, u, u', v, v', P.Eval(a, tau), P.Eval(b, tau), P.Eval(c, tau), P.Dot(hs, h, |hs|), delta);
  }

  lemma {:induction false} QuotientAtTau(p: nat, a: seq<int>, b: seq<int>, c: seq<int>, hs: seq<int>, h: seq<int>,
                                         tau: int, m: nat, inv: int, delta: int)
    requires p > 0 && 0 < m == |a| == |b| == |c| && Exact(p, Residual(a, b, c), m, 1)
    requires hs == SparseQuotient(Residual(a, b, c), m, 1)
    requires HQueryOf(p, h, tau, m, inv) && Red(p, inv * delta) == 1
    ensures Red(p, P.Eval(a, tau) * P.Eval(b, tau) - P.Eval(c, tau)) == Red(p, P.Dot(hs, h, |hs|) * delta)
  {
    ExactQuotient(p, a, b, c, m, tau);
    SumOfH(p, hs, h, tau, m, inv, delta, |hs|);
    assert hs[..|hs|] == hs;
  }

  lemma {:induction false} ProductIsSum(p: nat, u: int, u': int, v: int, v': int, a: int, b: int, c: int, h: int,
                                        delta: int)
    requires p > 0 && SumIs(p, u, u', a) && SumIs(p, v, v', b) && Red(p, a * b - c) == Red(p, h * delta)
    ensures ProductSplits(p, u, u', v, v', c, h, delta)
  {
    RedMul(p, u + u', a, v + v', b);
    RedAdd(p, a * b - c, h * delta, c, c);
  }

  // ---- The generator ----

  /** How a vector of some length is shared out to threads. */
  datatype Plan = Plan(worker: Worker, chunk: nat, order: seq<nat>) {
    ghost predicate Valid(len: nat) {
      worker.Valid(len) && Schedule(order, len, chunk)
    }
  }

  ghost predicate PlansAll(plan: nat -> Plan) {
    forall len: nat :: plan(len).Valid(len)
  }

  /** The queries are those of the assembly over the domain's root of unity, with every auxiliary variable
      constrained. */
  ghost predicate QueriesFor(p: nat, q: Qap, r: Parameters, tau: int, alpha: int, beta: int, gamma: int, delta: int,
                             deltaInv: int, m: nat, back: int, minv: int)
    requires p > 0
  {
    && |r.inputs.a| == |r.inputs.b| == |r.inputs.ext| == |q.atInputs|
    && |r.aux.a| == |r.aux.b| == |r.aux.ext| == |q.atAux|
    && Reduced(p, r.inputs.a) && Reduced(p, r.inputs.b) && Reduced(p, r.inputs.ext)
    && Reduced(p, r.aux.a) && Reduced(p, r.aux.b) && Reduced(p, r.aux.ext)
    && HQueryOf(p, r.h, tau, m, deltaInv) && Red(p, deltaInv * delta) == 1
    && forall xs: seq<int>, us: seq<int> | q.Fits(xs, us) ::
      Evaluates(p, q, r, tau, alpha, beta, gamma, delta, m, back, minv, xs, us)
  }

  /** UnexpectedIdentity exactly when gamma or delta is zero; else UnconstrainedVariable exactly when some auxiliary
      variable is unconstrained; else Ok with the queries. */
  ghost predicate Answers(p: nat, q: Qap, r: Result<Parameters>, tau: int, alpha: int, beta: int, gamma: nat,
                          delta: nat, deltaInv: int, m: nat, back: int, minv: int)
    requires p > 0 && q.Consistent()
  {
    var zero, free := gamma == 0 || delta == 0, SomeUnconstrained(p, q, tau, alpha, beta, m, back, minv);
    && (r == Err(UnexpectedIdentity) <==> zero) && (r == Err(UnconstrainedVariable) <==> !zero && free)
    && (r.Ok? <==> !zero && !free)
    && (r.Ok? ==> QueriesFor(p, q, r.value, tau, alpha, beta, gamma, delta, deltaInv, m, back, minv))
  }

  method FillDomain(domain: EvaluationDomain<int>, tau: int, plan: Plan)
    requires domain.Valid() && domain.space == Scalars(domain.field.p) && plan.Valid(domain.coeffs.Length)
    modifies domain.coeffs
    ensures domain.Valid() && domain.coeffs[..] == Powers(domain.field.p, tau, domain.coeffs.Length)
  {
    FillPowers(domain.field.p, domain.coeffs, plan.chunk, plan.order, tau);
  }

  /** Turns the powers of tau into Lagrange values. */
  method LagrangeAtTau(domain: EvaluationDomain<int>, worker: Worker)
    requires domain.Valid() && domain.space == Scalars(domain.field.p) && worker.Valid(domain.coeffs.Length)
    modifies domain.coeffs
    ensures domain.Valid()
    ensures domain.coeffs[..] == Inverted(domain.field.p, old(domain.coeffs[..]), domain.omegainv, domain.minv)
  {
    InverseOfResidues(domain.field.p, domain.coeffs[..], domain.omegainv, domain.minv);
    domain.Ifft(worker);
  }

  /** Fills the domain with the powers of tau, takes the H query from them, and transforms them back into the
      Lagrange values at tau. */
  method LagrangeAndH(domain: EvaluationDomain<int>, tau: int, deltaInverse: int, plan: nat -> Plan)
    returns (h: array<int>)
    requires domain.Valid() && domain.space == Scalars(domain.field.p) && PlansAll(plan)
    modifies domain.coeffs
    ensures domain.Valid() && HQueryOf(domain.field.p, h[..], tau, domain.coeffs.Length, deltaInverse)
    ensures domain.coeffs[..] == Inverted(domain.field.p, Powers(domain.field.p, tau, domain.coeffs.Length),
                                          domain.omegainv, domain.minv)
  {
    var p, n := domain.field.p, domain.coeffs.Length;
    assert plan(n).Valid(n);
    FillDomain(domain, tau, plan(n));
    assert plan(n - 1).Valid(n - 1);
    h := new int[n - 1](_ => 0);
    HQuery(p, h, domain.coeffs[..], plan(n - 1).chunk, plan(n - 1).order, tau, deltaInverse);
    LagrangeAtTau(domain, plan(n).worker);
  }

  /** The exponents of the queries over a domain that holds the constraints. */
  method GenerateQueries(assembly: KeypairAssembly, domain: EvaluationDomain<int>, tau: int, alpha: int, beta: int,
                         gamma: nat, delta: nat, plan: nat -> Plan)
    returns (r: Result<Parameters>, ghost deltaInv: int)
    requires assembly.Valid() && domain.Valid() && domain.field.p == assembly.p
    requires domain.space == Scalars(assembly.p)
    requires assembly.numConstraints <= domain.coeffs.Length
    requires PlansAll(plan) && gamma < assembly.p && delta < assembly.p
    modifies domain.coeffs
    ensures assembly.Valid() && domain.Valid() && assembly.State() == old(assembly.State())
    ensures Answers(assembly.p, assembly.State(), r, tau, alpha, beta, gamma, delta, deltaInv, domain.coeffs.Length,
                    domain.omegainv, domain.minv)
  {
    var p := assembly.p;
    var n := domain.coeffs.Length;
    var gammaInverse := InverseOf(p, gamma);
    var deltaInverse := InverseOf(p, delta);
    deltaInv := 0;
    if gammaInverse.None? || deltaInverse.None? {
      r := Err(UnexpectedIdentity);
      return;
    }
    deltaInv := deltaInverse.value;
    var h := LagrangeAndH(domain, tau, deltaInverse.value, plan);
    var lagrange := domain.coeffs[..];
    ghost var q := assembly.State();
    RowsFit(q, n);
    var inputs := EvalQueries(p, lagrange, assembly.atInputs, assembly.btInputs, assembly.ctInputs, alpha, beta,
                              gammaInverse.value);
    var aux := EvalQueries(p, lagrange, assembly.atAux, assembly.btAux, assembly.ctAux, alpha, beta,
                           deltaInverse.value);
    Commute(gamma, gammaInverse.value);
    Commute(delta, deltaInverse.value);
    ExtsAreZero(p, q, tau, alpha, beta, delta, deltaInv, n, domain.omegainv, domain.minv, aux);
    var zero := FindZero(aux.ext);
    if zero {
      r := Err(UnconstrainedVariable);
      return;
    }
    var value := Parameters(inputs, aux, h[..]);
    forall xs: seq<int>, us: seq<int> | q.Fits(xs, us)
      ensures Evaluates(p, q, value, tau, alpha, beta, gamma, delta, n, domain.omegainv, domain.minv, xs, us)
    {
      QueriesEvaluate(p, q, value, tau, alpha, beta, gamma, delta, gammaInverse.value, deltaInverse.value,
                      n, domain.omegainv, domain.minv, xs, us);
    }
    r := Ok(value);
  }

  /** A domain of residues for a number of rows. */
  method EmptyDomain(field: FieldConstants, rows: nat) returns (r: Result<EvaluationDomain<int>>)
    requires field.Valid()
    ensures r.Err? <==> rows > Pow2(field.s) - 1
    ensures r.Err? ==> r.error == PolynomialDegreeTooLarge
    ensures r.Ok? ==>
              && fresh(r.value) && fresh(r.value.coeffs) && r.value.SmallestFor(field, rows)
              && r.value.space == Scalars(field.p)
  {
    ScalarsValid(field.p);
    r := EvaluationDomain.FromCoeffs(seq(rows, _ => 0), Scalars(field.p), field);
  }

  /** From the assembly of a circuit to the exponents of its queries. */
  method GenerateParameters(assembly: KeypairAssembly, field: FieldConstants, tau: int, alpha: int, beta: int,
                            gamma: nat, delta: nat, plan: nat -> Plan)
    returns (r: Result<Parameters>, ghost domain: EvaluationDomain?<int>, ghost deltaInv: int)
    requires assembly.Valid() && field.Valid() && field.p == assembly.p && PlansAll(plan)
    requires gamma < field.p && delta < field.p
    modifies assembly
    ensures assembly.Valid() && assembly.numConstraints == old(assembly.numConstraints) + assembly.numInputs
    ensures InputRowsAdded(old(assembly.State()), assembly.State(), assembly.numInputs)
    ensures SameSatisfied(assembly.p, old(assembly.State()), assembly.State())
    ensures r == Err(PolynomialDegreeTooLarge) <==> assembly.numConstraints > Pow2(field.s) - 1
    ensures domain == null <==> r == Err(PolynomialDegreeTooLarge)
    ensures domain != null ==> domain.SmallestFor(field, assembly.numConstraints)
    ensures domain != null ==> Answers(field.p, assembly.State(), r, tau, alpha, beta, gamma, delta, deltaInv,
                                       domain.coeffs.Length, domain.omegainv, domain.minv)
  {
    domain, deltaInv := null, 0;
    assembly.ConstrainInputs();
    var made := EmptyDomain(field, assembly.numConstraints);
    match made {
      case Err(e) =>
        r := Err(e);
      case Ok(d) =>
        domain := d;
        r, deltaInv := GenerateQueries(assembly, d, tau, alpha, beta, gamma, delta, plan);
    }
  }
}
