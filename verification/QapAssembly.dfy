/** The assembly of crates/bellman/src/groth16/generator.rs and the evaluation of its quadratic
    arithmetic program at tau. */
module QapAssembly {
  import opened Modular
  import opened FieldInverse
  import opened FftDomain
  import opened SparsePolynomials
  import opened ConstraintColumns
  import opened QapEvaluation
  import P = Polynomials

  // ---- One side of the constraints ----

  ghost predicate SideAt(inputs: seq<seq<Entry>>, aux: seq<seq<Entry>>, lc: seq<Term>, k: nat, xs: seq<int>,
                         us: seq<int>)
    requires |inputs| == |xs| && |aux| == |us| && Allocated(lc, |xs|, |us|)
  {
    Stored(inputs, aux, xs, us, k) == Value(lc, xs, us)
  }

  ghost predicate SideRow(inputs: seq<seq<Entry>>, aux: seq<seq<Entry>>, lc: seq<Term>, k: nat) {
    && Allocated(lc, |inputs|, |aux|)
    && forall xs: seq<int>, us: seq<int> | |xs| == |inputs| && |us| == |aux| :: SideAt(inputs, aux, lc, k, xs, us)
  }

  /** The columns hold exactly the linear combinations, one a row. */
  ghost predicate Side(inputs: seq<seq<Entry>>, aux: seq<seq<Entry>>, lcs: seq<seq<Term>>) {
    && RowsBelow(inputs, |lcs|) && RowsBelow(aux, |lcs|)
    && forall k: nat | k < |lcs| :: SideRow(inputs, aux, lcs[k], k)
  }

  lemma {:induction false} SideGrown(inputs: seq<seq<Entry>>, aux: seq<seq<Entry>>, lcs: seq<seq<Term>>,
                                     moreInputs: bool)
    requires Side(inputs, aux, lcs)
    ensures Side(inputs + (if moreInputs then [[]] else []), aux + (if moreInputs then [] else [[]]), lcs)
  {
    var inputs', aux' := inputs + (if moreInputs then [[]] else []), aux + (if moreInputs then [] else [[]]);
    RowsBelowMore(inputs, |lcs|);
    RowsBelowMore(aux, |lcs|);
    forall k: nat | k < |lcs| ensures SideRow(inputs', aux', lcs[k], k) {
      assert SideRow(inputs, aux, lcs[k], k);
      AllocatedMore(lcs[k], |inputs|, |aux|, |inputs'|, |aux'|);
      forall xs: seq<int>, us: seq<int> | |xs| == |inputs'| && |us| == |aux'|
        ensures SideAt(inputs', aux', lcs[k], k, xs, us)
      {
        assert SideAt(inputs, aux, lcs[k], k, xs[..|inputs|], us[..|aux|]);
        GrownRow(inputs, aux, xs, us, moreInputs, k);
        ShorterValue(lcs[k], xs, us, |inputs|, |aux|);
      }
    }
  }

  lemma {:induction false} SideEnforced(inputs: seq<seq<Entry>>, aux: seq<seq<Entry>>, inputs': seq<seq<Entry>>,
                                        aux': seq<seq<Entry>>, lcs: seq<seq<Term>>, lc: seq<Term>)
    requires Side(inputs, aux, lcs) && Evaluated(inputs, aux, inputs', aux', lc, |lcs|)
    requires RowsBelow(inputs', |lcs| + 1) && RowsBelow(aux', |lcs| + 1)
    ensures Side(inputs', aux', lcs + [lc])
  {
    var n, more := |lcs|, lcs + [lc];
    forall k: nat | k < |more| ensures SideRow(inputs', aux', more[k], k) {
      if k < n { assert SideRow(inputs, aux, lcs[k], k); }
      forall xs: seq<int>, us: seq<int> | |xs| == |inputs'| && |us| == |aux'|
        ensures SideAt(inputs', aux', more[k], k, xs, us)
      {
        assert AddsUp(inputs, aux, inputs', aux', lc, n, xs, us, k);
        if k < n {
          assert SideAt(inputs, aux, lcs[k], k, xs, us);
        } else {
          NoEntries(inputs, xs, n, k);
          NoEntries(aux, us, n, k);
        }
      }
    }
  }

  /** Distributes one more linear combination. */
  method StoreRow(lc: seq<Term>, inputs: seq<seq<Entry>>, aux: seq<seq<Entry>>, row: nat, ghost lcs: seq<seq<Term>>)
    returns (inputs': seq<seq<Entry>>, aux': seq<seq<Entry>>)
    requires Side(inputs, aux, lcs) && row == |lcs| && Allocated(lc, |inputs|, |aux|)
    ensures Side(inputs', aux', lcs + [lc]) && |inputs'| == |inputs| && |aux'| == |aux|
  {
    inputs', aux' := Eval(lc, inputs, aux, row);
    assert RowsBelow(inputs, row + 1) && RowsBelow(aux, row + 1);
    SideEnforced(inputs, aux, inputs', aux', lcs, lc);
  }

  // ---- Satisfaction ----

  ghost predicate RowHolds(p: nat, a: seq<Term>, b: seq<Term>, c: seq<Term>, xs: seq<int>, us: seq<int>)
    requires p > 0 && Allocated(a, |xs|, |us|) && Allocated(b, |xs|, |us|) && Allocated(c, |xs|, |us|)
  {
    Red(p, Value(a, xs, us) * Value(b, xs, us)) == Red(p, Value(c, xs, us))
  }

  /** The columns of the three sides. */
  datatype Qap = Qap(atInputs: seq<seq<Entry>>, btInputs: seq<seq<Entry>>, ctInputs: seq<seq<Entry>>,
                     atAux: seq<seq<Entry>>, btAux: seq<seq<Entry>>, ctAux: seq<seq<Entry>>,
                     a: seq<seq<Term>>, b: seq<seq<Term>>, c: seq<seq<Term>>) {
    ghost predicate Consistent() {
      && |btInputs| == |atInputs| == |ctInputs| && |btAux| == |atAux| == |ctAux| && |a| == |b| == |c|
      && Side(atInputs, atAux, a) && Side(btInputs, btAux, b) && Side(ctInputs, ctAux, c)
    }

    ghost predicate Fits(xs: seq<int>, us: seq<int>) {
      |xs| == |atInputs| == |btInputs| == |ctInputs| && |us| == |atAux| == |btAux| == |ctAux|
    }

    ghost predicate Satisfied(p: nat, xs: seq<int>, us: seq<int>)
      requires p > 0 && Consistent() && Fits(xs, us)
    {
      forall k: nat | k < |a| ::
        SideRow(atInputs, atAux, a[k], k) && SideRow(btInputs, btAux, b[k], k) && SideRow(ctInputs, ctAux, c[k], k)
        && RowHolds(p, a[k], b[k], c[k], xs, us)
    }
  }

  lemma {:induction false} StoredProduct(p: nat, q: Qap, xs: seq<int>, us: seq<int>, k: nat)
    requires p > 0 && q.Consistent() && q.Fits(xs, us)
    ensures k < |q.a| ==>
              && SideRow(q.atInputs, q.atAux, q.a[k], k) && SideRow(q.btInputs, q.btAux, q.b[k], k)
              && SideRow(q.ctInputs, q.ctAux, q.c[k], k)
    ensures Red(p, Stored(q.atInputs, q.atAux, xs, us, k) * Stored(q.btInputs, q.btAux, xs, us, k))
      == Red(p, Stored(q.ctInputs, q.ctAux, xs, us, k))
      <==> (k < |q.a| ==> RowHolds(p, q.a[k], q.b[k], q.c[k], xs, us))
  {
    if k < |q.a| {
      assert SideRow(q.atInputs, q.atAux, q.a[k], k) && SideRow(q.btInputs, q.btAux, q.b[k], k)
        && SideRow(q.ctInputs, q.ctAux, q.c[k], k);
      assert SideAt(q.atInputs, q.atAux, q.a[k], k, xs, us);
      assert SideAt(q.btInputs, q.btAux, q.b[k], k, xs, us);
      assert SideAt(q.ctInputs, q.ctAux, q.c[k], k, xs, us);
    } else {
      NoEntries(q.atInputs, xs, |q.a|, k);
      NoEntries(q.atAux, us, |q.a|, k);
      NoEntries(q.btInputs, xs, |q.b|, k);
      NoEntries(q.btAux, us, |q.b|, k);
      NoEntries(q.ctInputs, xs, |q.c|, k);
      NoEntries(q.ctAux, us, |q.c|, k);
    }
  }

  /** An assignment satisfies every constraint exactly when x^m - 1 divides A * B - C, where A, B and C
      interpolate the rows of the three sides over the domain. */
  lemma {:induction false} SatisfiedIffDivides(p: nat, q: Qap, xs: seq<int>, us: seq<int>, omega: int, back: int,
                                               minv: int, l: nat)
    requires Prime(p) && p % 2 == 1 && q.Consistent() && q.Fits(xs, us) && |q.a| <= Pow2(l)
    requires IsRoot(p, omega, l) && Red(p, omega * back) == Red(p, 1) && Red(p, Pow2(l) * minv) == Red(p, 1)
    ensures q.Satisfied(p, xs, us) <==>
      Exact(p, Residual(RowPolynomial(p, q.atInputs, q.atAux, xs, us, Pow2(l), back, minv),
                        RowPolynomial(p, q.btInputs, q.btAux, xs, us, Pow2(l), back, minv),
                        RowPolynomial(p, q.ctInputs, q.ctAux, xs, us, Pow2(l), back, minv)), Pow2(l), 1)
  {
    var n := Pow2(l);
    var va, vb, vc := StoredRows(q.atInputs, q.atAux, xs, us, n), StoredRows(q.btInputs, q.btAux, xs, us, n),
      StoredRows(q.ctInputs, q.ctAux, xs, us, n);
    forall j: nat | j < n
      ensures Red(p, P.Eval(RowPolynomial(p, q.atInputs, q.atAux, xs, us, n, back, minv), Pow(omega, j)))
        == Red(p, va[j])
      ensures Red(p, P.Eval(RowPolynomial(p, q.btInputs, q.btAux, xs, us, n, back, minv), Pow(omega, j)))
        == Red(p, vb[j])
      ensures Red(p, P.Eval(RowPolynomial(p, q.ctInputs, q.ctAux, xs, us, n, back, minv), Pow(omega, j)))
        == Red(p, vc[j])
    {
      RowPolynomialValues(p, q.atInputs, q.atAux, xs, us, omega, back, minv, l, j);
      RowPolynomialValues(p, q.btInputs, q.btAux, xs, us, omega, back, minv, l, j);
      RowPolynomialValues(p, q.ctInputs, q.ctAux, xs, us, omega, back, minv, l, j);
    }
    SizeNotZero(p, l);
    RowsHoldIffDivides(p, omega, l, RowPolynomial(p, q.atInputs, q.atAux, xs, us, n, back, minv),
                       RowPolynomial(p, q.btInputs, q.btAux, xs, us, n, back, minv),
                       RowPolynomial(p, q.ctInputs, q.ctAux, xs, us, n, back, minv), va, vb, vc);
    SatisfiedIsMatch(p, q, xs, us, va, vb, vc);
  }

  lemma {:induction false} SatisfiedIsMatch(p: nat, q: Qap, xs: seq<int>, us: seq<int>, va: seq<int>, vb: seq<int>,
                                            vc: seq<int>)
    requires p > 0 && q.Consistent() && q.Fits(xs, us) && |va| == |vb| == |vc| && |q.a| <= |va|
    requires va == StoredRows(q.atInputs, q.atAux, xs, us, |va|) && vb == StoredRows(q.btInputs, q.btAux, xs, us, |va|)
    requires vc == StoredRows(q.ctInputs, q.ctAux, xs, us, |va|)
    ensures q.Satisfied(p, xs, us) <==> ProductsMatch(p, va, vb, vc)
  {
    forall j: nat | j < |va|
      ensures Red(p, va[j] * vb[j]) == Red(p, vc[j]) <==> (j < |q.a| ==>
        SideRow(q.atInputs, q.atAux, q.a[j], j) && SideRow(q.btInputs, q.btAux, q.b[j], j)
          && SideRow(q.ctInputs, q.ctAux, q.c[j], j)
        && RowHolds(p, q.a[j], q.b[j], q.c[j], xs, us))
    {
      StoredProduct(p, q, xs, us, j);
    }
  }
}
