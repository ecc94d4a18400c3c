/** The assembly of crates/bellman/src/groth16/generator.rs as it is filled, and the exponents of its
    A, B, IC and L queries. */
module QapGenerator {
  import opened Modular
  import opened Threads
  import opened ConstraintColumns
  import opened QapEvaluation
  import opened QapAssembly
  import P = Polynomials

  class KeypairAssembly {
    const p: nat
    var numInputs: nat
    var numAux: nat
    var numConstraints: nat
    var atInputs: seq<seq<Entry>>
    var btInputs: seq<seq<Entry>>
    var ctInputs: seq<seq<Entry>>
    var atAux: seq<seq<Entry>>
    var btAux: seq<seq<Entry>>
    var ctAux: seq<seq<Entry>>
    ghost var a: seq<seq<Term>>
    ghost var b: seq<seq<Term>>
    ghost var c: seq<seq<Term>>

    ghost function State(): Qap
      reads this
    {
      Qap(atInputs, btInputs, ctInputs, atAux, btAux, ctAux, a, b, c)
    }

    ghost predicate Valid()
      reads this
    {
      && p > 1 && State().Consistent()
      && numInputs == |atInputs| && numAux == |atAux| && numConstraints == |a|
    }

    constructor (p: nat)
      requires p > 1
      ensures Valid() && this.p == p && numInputs == 0 && numAux == 0 && numConstraints == 0
    {
      this.p := p;
      numInputs, numAux, numConstraints := 0, 0, 0;
      atInputs, btInputs, ctInputs, atAux, btAux, ctAux := [], [], [], [], [], [];
      a, b, c := [], [], [];
    }

    /** A new auxiliary variable. */
    method Alloc() returns (v: Variable)
      requires Valid()
      modifies this
      ensures Valid() && v == Aux(old(numAux)) && numAux == old(numAux) + 1 && numInputs == old(numInputs)
      ensures a == old(a) && b == old(b) && c == old(c)
    {
      SideGrown(atInputs, atAux, a, false);
      SideGrown(btInputs, btAux, b, false);
      SideGrown(ctInputs, ctAux, c, false);
      assert atInputs + [] == atInputs && btInputs + [] == btInputs && ctInputs + [] == ctInputs;
      var index := numAux;
      numAux := numAux + 1;
      atAux := atAux + [[]];
      btAux := btAux + [[]];
      ctAux := ctAux + [[]];
      v := Aux(index);
    }

    /** A new input variable. */
    method AllocInput() returns (v: Variable)
      requires Valid()
      modifies this
      ensures Valid() && v == Input(old(numInputs)) && numInputs == old(numInputs) + 1 && numAux == old(numAux)
      ensures a == old(a) && b == old(b) && c == old(c)
    {
      SideGrown(atInputs, atAux, a, true);
      SideGrown(btInputs, btAux, b, true);
      SideGrown(ctInputs, ctAux, c, true);
      assert atAux + [] == atAux && btAux + [] == btAux && ctAux + [] == ctAux;
      var index := numInputs;
      numInputs := numInputs + 1;
      atInputs := atInputs + [[]];
      btInputs := btInputs + [[]];
      ctInputs := ctInputs + [[]];
      v := Input(index);
    }

    /** One more constraint. */
    method Enforce(lcA: seq<Term>, lcB: seq<Term>, lcC: seq<Term>)
      requires Valid() && Allocated(lcA, numInputs, numAux) && Allocated(lcB, numInputs, numAux)
      requires Allocated(lcC, numInputs, numAux)
      modifies this
      ensures Valid() && a == old(a) + [lcA] && b == old(b) + [lcB] && c == old(c) + [lcC]
      ensures numInputs == old(numInputs) && numAux == old(numAux)
    {
      var aInputs, aAux := StoreRow(lcA, atInputs, atAux, numConstraints, a);
      var bInputs, bAux := StoreRow(lcB, btInputs, btAux, numConstraints, b);
      var cInputs, cAux := StoreRow(lcC, ctInputs, ctAux, numConstraints, c);
      ghost var after := Qap(aInputs, bInputs, cInputs, aAux, bAux, cAux, a + [lcA], b + [lcB], c + [lcC]);
      assert after.Consistent();
      atInputs, atAux, btInputs, btAux, ctInputs, ctAux := aInputs, aAux, bInputs, bAux, cInputs, cAux;
      numConstraints := numConstraints + 1;
      a, b, c := a + [lcA], b + [lcB], c + [lcC];
      assert State() == after;
    }

    /** One row x_i * 0 = 0 for every input, satisfied by all assignments. */
    method ConstrainInputs()
      requires Valid()
      modifies this
      ensures Valid() && numInputs == old(numInputs) && numAux == old(numAux)
      ensures numConstraints == old(numConstraints) + numInputs
      ensures InputRowsAdded(old(State()), State(), numInputs)
      ensures SameSatisfied(p, old(State()), State())
    {
      ghost var before := State();
      for i := 0 to numInputs
        invariant Valid() && numInputs == old(numInputs) && numAux == old(numAux)
        invariant numConstraints == old(numConstraints) + i
        invariant InputRowsAdded(before, State(), i)
      {
        Enforce([Term(Input(i), 1)], [], []);
      }
      ghost var after := State();
      forall xs: seq<int>, us: seq<int> | before.Fits(xs, us) ensures SatisfiedAlike(p, before, after, xs, us) {
        EmptyRowsHold(p, before, after, numInputs, xs, us);
      }
    }
  }

  /** The constraints of `t` are those of `s` and one row x_i * 0 = 0 for each of the first `n` inputs. */
  ghost predicate InputRowsAdded(s: Qap, t: Qap, n: nat) {
    && t.a == s.a + seq(n, i requires i >= 0 => [Term(Input(i), 1)])
    && t.b == s.b + seq(n, _ => []) && t.c == s.c + seq(n, _ => [])
  }

  ghost predicate SatisfiedAlike(p: nat, s: Qap, t: Qap, xs: seq<int>, us: seq<int>)
    requires p > 0 && s.Consistent() && t.Consistent() && s.Fits(xs, us)
  {
    t.Fits(xs, us) && (t.Satisfied(p, xs, us) <==> s.Satisfied(p, xs, us))
  }

  /** The same assignments satisfy both. */
  ghost predicate SameSatisfied(p: nat, s: Qap, t: Qap) {
    && p > 0 && s.Consistent() && t.Consistent()
    && forall xs: seq<int>, us: seq<int> | s.Fits(xs, us) :: SatisfiedAlike(p, s, t, xs, us)
  }

  /** Rows x * 0 = 0 change nothing. */
  lemma {:induction false} EmptyRowsHold(p: nat, s: Qap, t: Qap, n: nat, xs: seq<int>, us: seq<int>)
    requires p > 0 && s.Consistent() && t.Consistent() && s.Fits(xs, us) && |t.atInputs| == |s.atInputs|
    requires |t.atAux| == |s.atAux|
    requires InputRowsAdded(s, t, n)
    ensures t.Fits(xs, us) && (t.Satisfied(p, xs, us) <==> s.Satisfied(p, xs, us))
  {
    forall k: nat | k < |s.a|
      ensures Allocated(s.a[k], |xs|, |us|) && Allocated(s.b[k], |xs|, |us|) && Allocated(s.c[k], |xs|, |us|)
      ensures t.a[k] == s.a[k] && t.b[k] == s.b[k] && t.c[k] == s.c[k]
    {
      StoredProduct(p, s, xs, us, k);
    }
    forall k: nat | k < |t.a|
      ensures SideRow(t.atInputs, t.atAux, t.a[k], k) && SideRow(t.btInputs, t.btAux, t.b[k], k)
      ensures SideRow(t.ctInputs, t.ctAux, t.c[k], k)
      ensures k >= |s.a| ==> RowHolds(p, t.a[k], t.b[k], t.c[k], xs, us)
    {
      StoredProduct(p, t, xs, us, k);
      if k >= |s.a| {
        assert Value(t.a[k], xs, us) * 0 == 0;
      }
    }
    if t.Satisfied(p, xs, us) {
      forall k: nat | k < |s.a|
        ensures SideRow(s.atInputs, s.atAux, s.a[k], k) && SideRow(s.btInputs, s.btAux, s.b[k], k)
        ensures SideRow(s.ctInputs, s.ctAux, s.c[k], k)
        ensures RowHolds(p, s.a[k], s.b[k], s.c[k], xs, us)
      {
        StoredProduct(p, s, xs, us, k);
        assert RowHolds(p, t.a[k], t.b[k], t.c[k], xs, us);
      }
    }
  }

  // ---- Lagrange values at tau ----

  /** Every chunk starts from its own power of tau. */
  method FillPowers(p: nat, a: array<int>, chunk: nat, order: seq<nat>, tau: int)
    requires p > 0 && Schedule(order, a.Length, chunk)
    modifies a
    ensures a[..] == Powers(p, tau, a.Length)
  {
    ghost var turn := Turns(order, a.Length, chunk, a.Length);
    for x := 0 to |order|
      invariant forall i: nat | i < a.Length && turn[i] < x :: a[i] == Red(p, Pow(tau, i))
    {
      var lo, hi := ChunkBounds(a.Length, chunk, order[x]);
      forall i: nat | i < a.Length ensures turn[i] == x <==> lo <= i < hi {
        assert Turn(order, chunk, turn, x, i);
        assert lo <= i < hi <==> InChunk(order[x], chunk, i);
      }
      var currentTauPower := FieldPow(p, tau, lo);
      for i := lo to hi
        invariant currentTauPower == Red(p, Pow(tau, i))
        invariant forall j: nat | lo <= j < i :: a[j] == Red(p, Pow(tau, j))
        invariant forall j: nat | j < a.Length && turn[j] < x :: a[j] == Red(p, Pow(tau, j))
      {
        a[i] := currentTauPower;
        NextPower(p, tau, i, currentTauPower);
        currentTauPower := Red(p, currentTauPower * tau);
      }
    }
  }

  // ---- Queries ----

  /** A column's polynomial at tau. */
  method EvalAtTau(p: nat, lagrange: seq<int>, column: seq<Entry>) returns (acc: int)
    requires p > 0 && forall k | 0 <= k < |column| :: column[k].row < |lagrange|
    ensures acc == Red(p, Weighted(lagrange, column))
  {
    acc := 0;
    for k := 0 to |column|
      invariant acc == Red(p, Weighted(lagrange, column[..k]))
    {
      var n := Red(p, lagrange[column[k].row] * column[k].coeff);
      assert column[..k + 1][..k] == column[..k];
      RedRed(p, Weighted(lagrange, column[..k]));
      RedRed(p, lagrange[column[k].row] * column[k].coeff);
      Commute(lagrange[column[k].row], column[k].coeff);
      RedAdd(p, acc, Weighted(lagrange, column[..k]), n, column[k].coeff * lagrange[column[k].row]);
      acc := Red(p, acc + n);
    }
    assert column[..|column|] == column;
  }

  /** The exponents of one group of variables: of A, of B, and of the last query. */
  datatype Queries = Queries(a: seq<int>, b: seq<int>, ext: seq<int>)

  ghost predicate QueryAt(p: nat, lagrange: seq<int>, at: seq<Entry>, bt: seq<Entry>, ct: seq<Entry>, alpha: int,
                          beta: int, inv: int, a: int, b: int, ext: int)
    requires p > 0
    requires forall k | 0 <= k < |at| :: at[k].row < |lagrange|
    requires forall k | 0 <= k < |bt| :: bt[k].row < |lagrange|
    requires forall k | 0 <= k < |ct| :: ct[k].row < |lagrange|
  {
    var x, y, z := Weighted(lagrange, at), Weighted(lagrange, bt), Weighted(lagrange, ct);
    a == Red(p, x) && b == Red(p, y) && ext == Red(p, (x * beta + y * alpha + z) * inv)
  }

  ghost predicate QueriesOf(p: nat, lagrange: seq<int>, at: seq<seq<Entry>>, bt: seq<seq<Entry>>, ct: seq<seq<Entry>>,
                            alpha: int, beta: int, inv: int, q: Queries)
    requires p > 0
  {
    && RowsBelow(at, |lagrange|) && RowsBelow(bt, |lagrange|) && RowsBelow(ct, |lagrange|)
    && |at| == |bt| == |ct| && |q.a| == |q.b| == |q.ext| == |at|
    && forall i: nat | i < |at| :: QueryAt(p, lagrange, at[i], bt[i], ct[i], alpha, beta, inv, q.a[i], q.b[i], q.ext[i])
  }

  /** The queries of all variables of a group. */
  method EvalQueries(p: nat, lagrange: seq<int>, at: seq<seq<Entry>>, bt: seq<seq<Entry>>, ct: seq<seq<Entry>>,
                     alpha: int, beta: int, inv: int) returns (q: Queries)
    requires p > 0 && RowsBelow(at, |lagrange|) && RowsBelow(bt, |lagrange|) && RowsBelow(ct, |lagrange|)
    requires |at| == |bt| == |ct|
    ensures QueriesOf(p, lagrange, at, bt, ct, alpha, beta, inv, q)
  {
    var a: seq<int>, b: seq<int>, ext: seq<int> := [], [], [];
    for i := 0 to |at|
      invariant |a| == |b| == |ext| == i
      invariant forall j: nat | j < i :: QueryAt(p, lagrange, at[j], bt[j], ct[j], alpha, beta, inv, a[j], b[j], ext[j])
    {
      var x := EvalAtTau(p, lagrange, at[i]);
      var y := EvalAtTau(p, lagrange, bt[i]);
      var z := EvalAtTau(p, lagrange, ct[i]);
      var e := ExtOf(p, x, y, z, alpha, beta, inv, Weighted(lagrange, at[i]), Weighted(lagrange, bt[i]),
                     Weighted(lagrange, ct[i]));
      a, b, ext := a + [x], b + [y], ext + [e];
    }
    q := Queries(a, b, ext);
  }

  method ExtOf(p: nat, x: int, y: int, z: int, alpha: int, beta: int, inv: int, ghost x': int, ghost y': int,
               ghost z': int)
    returns (e: int)
    requires p > 0 && x == Red(p, x') && y == Red(p, y') && z == Red(p, z')
    ensures e == Red(p, (x' * beta + y' * alpha + z') * inv)
  {
    RedRed(p, x');
    RedRed(p, y');
    RedRed(p, z');
    ProductComputed(p, x, x', beta, beta);
    ProductComputed(p, y, y', alpha, alpha);
    e := Red(p, x * beta);
    SumComputed(p, e, x' * beta, Red(p, y * alpha), y' * alpha);
    e := Red(p, e + Red(p, y * alpha));
    SumComputed(p, e, x' * beta + y' * alpha, z, z');
    e := Red(p, e + z);
    ProductComputed(p, e, x' * beta + y' * alpha + z', inv, inv);
    RedRed(p, e * inv);
    e := Red(p, e * inv);
  }

  // ---- What the queries are for ----

  lemma {:induction false} DotCongRight(p: nat, xs: seq<int>, u: seq<int>, v: seq<int>, n: nat)
    requires p > 0 && n <= |xs| == |u| == |v| && forall i | 0 <= i < n :: Red(p, u[i]) == Red(p, v[i])
    ensures Red(p, P.Dot(xs, u, n)) == Red(p, P.Dot(xs, v, n))
  {
    if n > 0 {
      DotCongRight(p, xs, u, v, n - 1);
      RedMul(p, xs[n - 1], xs[n - 1], u[n - 1], v[n - 1]);
      RedAdd(p, P.Dot(xs, u, n - 1), P.Dot(xs, v, n - 1), xs[n - 1] * u[n - 1], xs[n - 1] * v[n - 1]);
    }
  }

  /** With the inverse multiplied back in, the sum is beta a + alpha b + c. */
  ghost predicate ExtSum(p: nat, s: int, k: int, a: int, b: int, c: int, alpha: int, beta: int)
    requires p > 0
  {
    Red(p, s * k) == Red(p, a * beta + b * alpha + c)
  }

  lemma {:induction false} SumOfExt(p: nat, a: seq<int>, b: seq<int>, c: seq<int>, alpha: int, beta: int, inv: int,
                                    k: int, ext: seq<int>, xs: seq<int>, n: nat)
    requires p > 0 && n <= |xs| == |a| == |b| == |c| == |ext| && Red(p, inv * k) == 1
    requires forall i | 0 <= i < |ext| :: ext[i] == Red(p, (a[i] * beta + b[i] * alpha + c[i]) * inv)
    ensures ExtSum(p, P.Dot(xs, ext, n), k, P.Dot(xs, a, n), P.Dot(xs, b, n), P.Dot(xs, c, n), alpha, beta)
  {
    if n == 0 {
      assert 0 * k == 0 && 0 * beta == 0 && 0 * alpha == 0;
    } else {
      var i := n - 1;
      SumOfExt(p, a, b, c, alpha, beta, inv, k, ext, xs, i);
      ExtTerm(p, P.Dot(xs, ext, i), xs[i], ext[i], k, inv, alpha, beta, P.Dot(xs, a, i), P.Dot(xs, b, i),
              P.Dot(xs, c, i), a[i], b[i], c[i]);
    }
  }

  lemma {:induction false} ExtTerm(p: nat, s: int, x: int, e: int, k: int, inv: int, alpha: int, beta: int,
                                   sa: int, sb: int, sc: int, a: int, b: int, c: int)
    requires p > 0 && ExtSum(p, s, k, sa, sb, sc, alpha, beta) && Red(p, inv * k) == 1
    requires e == Red(p, (a * beta + b * alpha + c) * inv)
    ensures ExtSum(p, s + x * e, k, sa + x * a, sb + x * b, sc + x * c, alpha, beta)
  {
    var t := a * beta + b * alpha + c;
    UndoneInverse(p, e, t, inv, k);
    RedMul(p, x, x, e * k, t);
    RedAdd(p, s * k, sa * beta + sb * alpha + sc, x * (e * k), x * t);
    StepTimes(s, x, e, k);
    SpreadTerms(x, a, b, c, alpha, beta, sa, sb);
  }

  lemma {:induction false} UndoneInverse(p: nat, e: int, t: int, inv: int, k: int)
    requires p > 0 && e == Red(p, t * inv) && Red(p, inv * k) == 1
    ensures Red(p, e * k) == Red(p, t)
  {
    RedRed(p, t * inv);
    RedMul(p, e, t * inv, k, k);
    Associate(t, inv, k);
    RedMul(p, t, t, inv * k, 1);
  }

  lemma SpreadTerms(x: int, a: int, b: int, c: int, alpha: int, beta: int, sa: int, sb: int)
    ensures x * (a * beta + b * alpha + c) + (sa * beta + sb * alpha)
      == (sa + x * a) * beta + (sb + x * b) * alpha + x * c
  {
    assert x * (a * beta + b * alpha + c) == x * (a * beta) + x * (b * alpha) + x * c;
    assert (sa + x * a) * beta == sa * beta + x * (a * beta);
    assert (sb + x * b) * alpha == sb * alpha + x * (b * alpha);
  }
}
