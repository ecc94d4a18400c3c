/** Linear combinations over the variables of a constraint system (crates/bellman/src/cs.rs), and the
    columns the generators store them in: for every variable, its coefficients and their rows. */
module ConstraintColumns {
  import opened Modular

  datatype Variable = Input(index: nat) | Aux(index: nat)

  datatype Term = Term(variable: Variable, coeff: int)

  /** A constraint <a,x> * <b,x> = <c,x>, as a circuit states it. */
  datatype R1cs = R1cs(a: seq<Term>, b: seq<Term>, c: seq<Term>)

  datatype Entry = Entry(coeff: int, row: nat)

  // ---- Linear combinations ----

  ghost predicate TermIn(t: Term, inputs: nat, aux: nat) {
    match t.variable
    case Input(i) => i < inputs
    case Aux(i) => i < aux
  }

  /** Only variables that have been allocated. */
  ghost predicate Allocated(lc: seq<Term>, inputs: nat, aux: nat) {
    forall k | 0 <= k < |lc| :: TermIn(lc[k], inputs, aux)
  }

  ghost predicate Avoids(lc: seq<Term>, i: nat) {
    forall k | 0 <= k < |lc| :: lc[k].variable != Aux(i)
  }

  ghost function TermValue(t: Term, xs: seq<int>, us: seq<int>): int
    requires TermIn(t, |xs|, |us|)
  {
    t.coeff * match t.variable case Input(i) => xs[i] case Aux(i) => us[i]
  }

  /** The value of a linear combination at inputs `xs` and auxiliary values `us`. */
  ghost function Value(lc: seq<Term>, xs: seq<int>, us: seq<int>): int
    requires Allocated(lc, |xs|, |us|)
  {
    if |lc| == 0 then 0 else Value(lc[..|lc| - 1], xs, us) + TermValue(lc[|lc| - 1], xs, us)
  }

  lemma {:induction false} ValueConcat(l: seq<Term>, r: seq<Term>, xs: seq<int>, us: seq<int>)
    requires Allocated(l, |xs|, |us|) && Allocated(r, |xs|, |us|)
    ensures Allocated(l + r, |xs|, |us|) && Value(l + r, xs, us) == Value(l, xs, us) + Value(r, xs, us)
  {
    if |r| == 0 {
      assert l + r == l;
    } else {
      ValueConcat(l, r[..|r| - 1], xs, us);
      assert (l + r)[..|l + r| - 1] == l + r[..|r| - 1];
    }
  }

  /** The value depends only on the variables that occur. */
  lemma {:induction false} ValueFrame(lc: seq<Term>, xs: seq<int>, us: seq<int>, xs': seq<int>, us': seq<int>)
    requires Allocated(lc, |xs|, |us|) && Allocated(lc, |xs'|, |us'|)
    requires forall k | 0 <= k < |lc| :: TermValue(lc[k], xs, us) == TermValue(lc[k], xs', us')
    ensures Value(lc, xs, us) == Value(lc, xs', us')
  {
    if |lc| > 0 { ValueFrame(lc[..|lc| - 1], xs, us, xs', us'); }
  }

  /** Every coefficient multiplied. */
  ghost predicate ScaledTerms(p: nat, lc: seq<Term>, k: int, scaled: seq<Term>)
    requires p > 0
  {
    |scaled| == |lc| && forall i | 0 <= i < |lc| ::
      scaled[i].variable == lc[i].variable && Red(p, scaled[i].coeff) == Red(p, k * lc[i].coeff)
  }

  lemma {:induction false} ScaledValue(p: nat, lc: seq<Term>, k: int, scaled: seq<Term>, xs: seq<int>, us: seq<int>)
    requires p > 0 && ScaledTerms(p, lc, k, scaled) && Allocated(lc, |xs|, |us|)
    ensures Allocated(scaled, |xs|, |us|) && Red(p, Value(scaled, xs, us)) == Red(p, k * Value(lc, xs, us))
  {
    forall i | 0 <= i < |scaled| ensures TermIn(scaled[i], |xs|, |us|) { assert TermIn(lc[i], |xs|, |us|); }
    if |lc| == 0 {
      assert k * 0 == 0;
    } else {
      var i := |lc| - 1;
      ScaledValue(p, lc[..i], k, scaled[..i], xs, us);
      var x := match lc[i].variable case Input(j) => xs[j] case Aux(j) => us[j];
      RedMul(p, scaled[i].coeff, k * lc[i].coeff, x, x);
      RedAdd(p, Value(scaled[..i], xs, us), k * Value(lc[..i], xs, us), scaled[i].coeff * x, (k * lc[i].coeff) * x);
      DistributeScale(k, Value(lc[..i], xs, us), lc[i].coeff, x);
    }
  }

  lemma DistributeScale(k: int, v: int, c: int, x: int)
    ensures k * v + (k * c) * x == k * (v + c * x)
  {
    assert (k * c) * x == k * (c * x);
  }

  // ---- Columns ----

  /** The coefficient a column holds for a row. */
  ghost function ColumnAt(column: seq<Entry>, row: nat): int {
    if |column| == 0 then 0
    else
      var last := column[|column| - 1];
      ColumnAt(column[..|column| - 1], row) + if last.row == row then last.coeff else 0
  }

  /** What a row comes to over the columns of the given variables. */
  ghost function RowValue(columns: seq<seq<Entry>>, xs: seq<int>, row: nat): int
    requires |columns| == |xs|
  {
    if |xs| == 0 then 0
    else RowValue(columns[..|xs| - 1], xs[..|xs| - 1], row) + xs[|xs| - 1] * ColumnAt(columns[|xs| - 1], row)
  }

  ghost predicate RowsBelow(columns: seq<seq<Entry>>, rows: nat) {
    forall i, k | 0 <= i < |columns| && 0 <= k < |columns[i]| :: columns[i][k].row < rows
  }

  /** Appends one coefficient to a column. */
  function Push(columns: seq<seq<Entry>>, i: nat, e: Entry): (after: seq<seq<Entry>>)
    requires i < |columns|
    ensures |after| == |columns|
  {
    columns[i := columns[i] + [e]]
  }

  lemma {:induction false} PushedRow(columns: seq<seq<Entry>>, i: nat, e: Entry, xs: seq<int>, row: nat)
    requires i < |columns| == |xs|
    ensures RowValue(Push(columns, i, e), xs, row) == RowValue(columns, xs, row)
      + if row == e.row then e.coeff * xs[i] else 0
  {
    var n := |xs| - 1;
    var after := Push(columns, i, e);
    if i < n {
      PushedRow(columns[..n], i, e, xs[..n], row);
      assert after[..n] == Push(columns[..n], i, e);
    } else {
      assert after[..n] == columns[..n];
      assert after[n][..|after[n]| - 1] == columns[n];
      OneMoreEntry(xs[n], ColumnAt(columns[n], row), e.coeff);
    }
  }

  lemma OneMoreEntry(x: int, v: int, c: int)
    ensures x * (v + c) == x * v + c * x && x * (v + 0) == x * v
  {
  }

  lemma {:induction false} NewColumn(columns: seq<seq<Entry>>, xs: seq<int>, row: nat)
    requires |xs| == |columns| + 1
    ensures RowValue(columns + [[]], xs, row) == RowValue(columns, xs[..|columns|], row)
  {
    assert (columns + [[]])[..|columns|] == columns;
    assert xs[|columns|] * 0 == 0;
  }

  lemma {:induction false} NoEntries(columns: seq<seq<Entry>>, xs: seq<int>, rows: nat, row: nat)
    requires |columns| == |xs| && RowsBelow(columns, rows) && row >= rows
    ensures RowValue(columns, xs, row) == 0
  {
    if |xs| > 0 {
      var n := |xs| - 1;
      NoEntries(columns[..n], xs[..n], rows, row);
      assert forall k | 0 <= k < |columns[n]| :: columns[n][k].row < rows;
      EmptyRow(columns[n], row);
      assert xs[n] * 0 == 0;
    }
  }

  lemma {:induction false} EmptyRow(column: seq<Entry>, row: nat)
    requires forall k | 0 <= k < |column| :: column[k].row != row
    ensures ColumnAt(column, row) == 0
  {
    if |column| > 0 { EmptyRow(column[..|column| - 1], row); }
  }

  /** The value of a row over all columns. */
  ghost function Stored(inputs: seq<seq<Entry>>, aux: seq<seq<Entry>>, xs: seq<int>, us: seq<int>, row: nat): int
    requires |inputs| == |xs| && |aux| == |us|
  {
    RowValue(inputs, xs, row) + RowValue(aux, us, row)
  }

  // ---- More variables ----

  lemma {:induction false} AllocatedMore(lc: seq<Term>, i: nat, a: nat, i': nat, a': nat)
    requires Allocated(lc, i, a) && i <= i' && a <= a'
    ensures Allocated(lc, i', a')
  {
    forall k | 0 <= k < |lc| ensures TermIn(lc[k], i', a') { assert TermIn(lc[k], i, a); }
  }

  lemma {:induction false} ShorterValue(lc: seq<Term>, xs: seq<int>, us: seq<int>, i: nat, a: nat)
    requires i <= |xs| && a <= |us| && Allocated(lc, i, a)
    ensures Allocated(lc, |xs|, |us|) && Value(lc, xs, us) == Value(lc, xs[..i], us[..a])
  {
    AllocatedMore(lc, i, a, |xs|, |us|);
    forall k | 0 <= k < |lc| ensures TermValue(lc[k], xs, us) == TermValue(lc[k], xs[..i], us[..a]) {
      assert TermIn(lc[k], i, a);
    }
    ValueFrame(lc, xs, us, xs[..i], us[..a]);
  }

  lemma {:induction false} GrownRow(inputs: seq<seq<Entry>>, aux: seq<seq<Entry>>, xs: seq<int>, us: seq<int>,
                                    moreInputs: bool, j: nat)
    requires |xs| == |inputs| + (if moreInputs then 1 else 0) && |us| == |aux| + (if moreInputs then 0 else 1)
    ensures Stored(inputs + (if moreInputs then [[]] else []), aux + (if moreInputs then [] else [[]]), xs, us, j)
         == Stored(inputs, aux, xs[..|inputs|], us[..|aux|], j)
  {
    if moreInputs {
      NewColumn(inputs, xs, j);
      assert us[..|aux|] == us && aux + [] == aux;
    } else {
      NewColumn(aux, us, j);
      assert xs[..|inputs|] == xs && inputs + [] == inputs;
    }
  }

  lemma {:induction false} RowsBelowMore(columns: seq<seq<Entry>>, rows: nat)
    requires RowsBelow(columns, rows)
    ensures RowsBelow(columns + [[]], rows) && RowsBelow(columns + [], rows)
  {
    assert columns + [] == columns;
  }

  // ---- Storing linear combinations ----

  ghost predicate AddsUp(inputs: seq<seq<Entry>>, aux: seq<seq<Entry>>, inputs': seq<seq<Entry>>, aux': seq<seq<Entry>>,
                         lc: seq<Term>, row: nat, xs: seq<int>, us: seq<int>, j: nat)
    requires |inputs| == |inputs'| == |xs| && |aux| == |aux'| == |us| && Allocated(lc, |xs|, |us|)
  {
    Stored(inputs', aux', xs, us, j) == Stored(inputs, aux, xs, us, j) + if j == row then Value(lc, xs, us) else 0
  }

  /** The columns afterwards hold the linear combination as the given row, besides what they held. */
  ghost predicate Evaluated(inputs: seq<seq<Entry>>, aux: seq<seq<Entry>>, inputs': seq<seq<Entry>>,
                            aux': seq<seq<Entry>>, lc: seq<Term>, row: nat)
  {
    && |inputs'| == |inputs| && |aux'| == |aux| && Allocated(lc, |inputs|, |aux|)
    && forall xs: seq<int>, us: seq<int>, j: nat | |xs| == |inputs| && |us| == |aux| ::
      AddsUp(inputs, aux, inputs', aux', lc, row, xs, us, j)
  }

  /** Distributes a linear combination over the columns of its variables. */
  method Eval(lc: seq<Term>, inputs: seq<seq<Entry>>, aux: seq<seq<Entry>>, thisConstraint: nat)
    returns (inputs': seq<seq<Entry>>, aux': seq<seq<Entry>>)
    requires Allocated(lc, |inputs|, |aux|)
    ensures Evaluated(inputs, aux, inputs', aux', lc, thisConstraint)
    ensures forall rows: nat | rows > thisConstraint && RowsBelow(inputs, rows) && RowsBelow(aux, rows) ::
      RowsBelow(inputs', rows) && RowsBelow(aux', rows)
  {
    inputs', aux' := inputs, aux;
    for k := 0 to |lc|
      invariant Evaluated(inputs, aux, inputs', aux', lc[..k], thisConstraint)
      invariant forall rows: nat | rows > thisConstraint && RowsBelow(inputs, rows) && RowsBelow(aux, rows) ::
        RowsBelow(inputs', rows) && RowsBelow(aux', rows)
    {
      ghost var before, beforeAux := inputs', aux';
      var t := lc[k];
      assert TermIn(t, |inputs|, |aux|);
      var e := Entry(t.coeff, thisConstraint);
      match t.variable {
        case Input(id) => inputs' := Push(inputs', id, e);
        case Aux(id) => aux' := Push(aux', id, e);
      }
      OneMoreTerm(inputs, aux, before, beforeAux, inputs', aux', lc[..k], t, thisConstraint);
      assert lc[..k] + [t] == lc[..k + 1];
    }
    assert lc[..|lc|] == lc;
  }

  lemma {:induction false} OneMoreTerm(inputs: seq<seq<Entry>>, aux: seq<seq<Entry>>, i1: seq<seq<Entry>>,
                                       a1: seq<seq<Entry>>, i2: seq<seq<Entry>>, a2: seq<seq<Entry>>, done: seq<Term>,
                                       t: Term, row: nat)
    requires Evaluated(inputs, aux, i1, a1, done, row) && TermIn(t, |inputs|, |aux|)
    requires match t.variable
      case Input(id) => i2 == Push(i1, id, Entry(t.coeff, row)) && a2 == a1
      case Aux(id) => i2 == i1 && a2 == Push(a1, id, Entry(t.coeff, row))
    ensures Evaluated(inputs, aux, i2, a2, done + [t], row)
  {
    forall xs: seq<int>, us: seq<int>, j: nat | |xs| == |inputs| && |us| == |aux|
      ensures AddsUp(inputs, aux, i2, a2, done + [t], row, xs, us, j)
    {
      assert AddsUp(inputs, aux, i1, a1, done, row, xs, us, j);
      assert (done + [t])[..|done|] == done;
      match t.variable {
        case Input(id) => PushedRow(i1, id, Entry(t.coeff, row), xs, j);
        case Aux(id) => PushedRow(a1, id, Entry(t.coeff, row), us, j);
      }
    }
  }
}
