/** Quadratic arithmetic programs in crates/bellman/src/groth16/generator.rs: the inverse transform of
    the powers of tau gives the Lagrange values at tau, and columns weighted with them evaluate the
    polynomials that interpolate the rows. */
module QapEvaluation {
  import opened Modular
  import opened FieldInverse
  import opened PrimeFields
  import opened FftInverse
  import opened SparsePolynomials
  import opened OpeningSets
  import opened ConstraintColumns
  import S = Sums
  import P = Polynomials

  // ---- Transposing the inverse transform ----

  ghost function Cell(a: seq<int>, b: seq<int>, w: int): (nat, nat) -> int {
    (j: nat, k: nat) => P.At(a, j) * (P.At(b, k) * Pow(w, j * k))
  }

  lemma {:induction false} RowOfCells(a: seq<int>, b: seq<int>, w: int, j: nat, n: nat)
    requires j < |a| && n <= |b|
    ensures S.Row(Cell(a, b, w), j, n) == a[j] * P.Eval(b[..n], Pow(w, j))
  {
    if n == 0 {
      assert a[j] * 0 == 0;
    } else {
      RowOfCells(a, b, w, j, n - 1);
      assert b[..n] == b[..n - 1] + [b[n - 1]];
      P.EvalSnoc(b[..n - 1], b[n - 1], Pow(w, j));
      var e: nat := j * (n - 1);
      PowPow(w, j, n - 1, e);
      Distribute(a[j], P.Eval(b[..n - 1], Pow(w, j)), b[n - 1] * Pow(w, e));
    }
  }

  lemma {:induction false} ColumnOfCells(a: seq<int>, b: seq<int>, w: int, c: nat, k: nat)
    requires c <= |a| && k < |b|
    ensures S.Column(Cell(a, b, w), c, k) == b[k] * P.Eval(a[..c], Pow(w, k))
  {
    if c == 0 {
      assert b[k] * 0 == 0;
    } else {
      ColumnOfCells(a, b, w, c - 1, k);
      assert a[..c] == a[..c - 1] + [a[c - 1]];
      P.EvalSnoc(a[..c - 1], a[c - 1], Pow(w, k));
      var e: nat := k * (c - 1);
      PowPow(w, k, c - 1, e);
      Commute(k, c - 1);
      assert (c - 1) * k == e;
      Distribute(b[k], P.Eval(a[..c - 1], Pow(w, k)), a[c - 1] * Pow(w, e));
      Exchange(a[c - 1], b[k], Pow(w, e));
    }
  }

  /** The values of `b` at the first powers of w. */
  ghost function Values(b: seq<int>, w: int, n: nat): (v: seq<int>)
    ensures |v| == n && forall j: nat | j < n :: v[j] == P.Eval(b, Pow(w, j))
  {
    seq(n, j requires 0 <= j => P.Eval(b, Pow(w, j)))
  }

  lemma {:induction false} ByRowsIsDot(g: (nat, nat) -> int, a: seq<int>, v: seq<int>, n: nat, c: nat)
    requires c <= |a| == |v| && forall j: nat | j < c :: S.Row(g, j, n) == a[j] * v[j]
    ensures S.ByRows(g, c, n) == P.Dot(a, v, c)
  {
    if c > 0 { ByRowsIsDot(g, a, v, n, c - 1); }
  }

  lemma {:induction false} ByColumnsIsDot(g: (nat, nat) -> int, b: seq<int>, v: seq<int>, c: nat, n: nat)
    requires n <= |b| == |v| && forall k: nat | k < n :: S.Column(g, c, k) == b[k] * v[k]
    ensures S.ByColumns(g, c, n) == P.Dot(b, v, n)
  {
    if n > 0 { ByColumnsIsDot(g, b, v, c, n - 1); }
  }

  /** Weighting the values of b with a is weighting the values of a with b. */
  lemma {:induction false} Transposed(a: seq<int>, b: seq<int>, w: int)
    requires |a| == |b|
    ensures P.Dot(a, Values(b, w, |a|), |a|) == P.Dot(b, Values(a, w, |b|), |b|)
  {
    var g, n := Cell(a, b, w), |a|;
    var vb, va := Values(b, w, n), Values(a, w, n);
    S.SumSwap(g, n, n);
    assert a[..n] == a && b[..n] == b;
    forall j: nat | j < n ensures S.Row(g, j, n) == a[j] * vb[j] && S.Column(g, n, j) == b[j] * va[j] {
      RowOfCells(a, b, w, j, n);
      ColumnOfCells(a, b, w, n, j);
    }
    ByRowsIsDot(g, a, vb, n, n);
    ByColumnsIsDot(g, b, va, n, n);
  }

  lemma {:induction false} DotScaled(p: nat, a: seq<int>, v: seq<int>, u: seq<int>, c: int, n: nat)
    requires p > 0 && n <= |a| == |v| == |u| && forall j | 0 <= j < n :: Red(p, u[j]) == Red(p, v[j] * c)
    ensures Red(p, P.Dot(a, u, n)) == Red(p, P.Dot(a, v, n) * c)
  {
    if n > 0 {
      var j := n - 1;
      DotScaled(p, a, v, u, c, j);
      RedMul(p, a[j], a[j], u[j], v[j] * c);
      RedAdd(p, P.Dot(a, u, j), P.Dot(a, v, j) * c, a[j] * u[j], a[j] * (v[j] * c));
      StepTimes(P.Dot(a, v, j), a[j], v[j], c);
    } else {
      assert 0 * c == 0;
    }
  }

  lemma {:induction false} DotCong(p: nat, a: seq<int>, b: seq<int>, u: seq<int>, n: nat)
    requires p > 0 && n <= |a| == |b| == |u| && forall j | 0 <= j < n :: Red(p, a[j]) == Red(p, b[j])
    ensures Red(p, P.Dot(a, u, n)) == Red(p, P.Dot(b, u, n))
  {
    if n > 0 {
      DotCong(p, a, b, u, n - 1);
      RedMul(p, a[n - 1], b[n - 1], u[n - 1], u[n - 1]);
      RedAdd(p, P.Dot(a, u, n - 1), P.Dot(b, u, n - 1), a[n - 1] * u[n - 1], b[n - 1] * u[n - 1]);
    }
  }

  /** The powers 1, tau, tau^2, ... */
  ghost function Powers(p: nat, tau: int, n: nat): (t: seq<int>)
    requires p > 0
    ensures |t| == n && forall i: nat | i < n :: t[i] == Red(p, Pow(tau, i))
  {
    seq(n, i requires 0 <= i => Red(p, Pow(tau, i)))
  }

  lemma {:induction false} EvalPrefix(a: seq<int>, n: nat, x: int)
    requires 0 < n <= |a|
    ensures P.Eval(a[..n], x) == P.Eval(a[..n - 1], x) + a[n - 1] * Pow(x, n - 1)
  {
    assert a[..n] == a[..n - 1] + [a[n - 1]];
    P.EvalSnoc(a[..n - 1], a[n - 1], x);
  }

  lemma {:induction false} DotOfPowers(p: nat, tau: int, t: seq<int>, a: seq<int>, n: nat)
    requires p > 0 && n <= |a| == |t| && forall i: nat | i < n :: t[i] == Red(p, Pow(tau, i))
    ensures Red(p, P.Dot(t, a, n)) == Red(p, P.Eval(a[..n], tau))
  {
    if n > 0 {
      DotOfPowers(p, tau, t, a, n - 1);
      EvalPrefix(a, n, tau);
      PowerTerm(p, P.Dot(t, a, n - 1), P.Eval(a[..n - 1], tau), t[n - 1], Pow(tau, n - 1), a[n - 1]);
    }
  }

  lemma {:induction false} PowerTerm(p: nat, s: int, e: int, t: int, w: int, c: int)
    requires p > 0 && Red(p, s) == Red(p, e) && t == Red(p, w)
    ensures Red(p, s + t * c) == Red(p, e + c * w)
  {
    RedRed(p, w);
    RedMul(p, t, w, c, c);
    Commute(w, c);
    RedAdd(p, s, e, t * c, c * w);
  }

  lemma {:induction false} InvertedAt(p: nat, a: seq<int>, back: int, minv: int, j: nat)
    requires p > 0 && j < |a|
    ensures Red(p, Inverted(p, a, back, minv)[j]) == Red(p, Values(a, back, |a|)[j] * minv)
  {
    var t := Transform(p, a, back);
    RedRed(p, P.Eval(a, Pow(back, j)));
    RedRed(p, t[j] * minv);
    RedMul(p, t[j], P.Eval(a, Pow(back, j)), minv, minv);
  }

  /** The inverse transform of the powers of tau, weighted with values, is the value at tau of the
      polynomial whose transform those values are. */
  lemma {:induction false} LagrangeValues(p: nat, tau: int, vals: seq<int>, back: int, minv: int)
    requires p > 0
    ensures Red(p, P.Dot(vals, Inverted(p, Powers(p, tau, |vals|), back, minv), |vals|))
         == Red(p, P.Eval(Inverted(p, vals, back, minv), tau))
  {
    var n := |vals|;
    var t := Powers(p, tau, n);
    forall j: nat | j < n
      ensures Red(p, Inverted(p, t, back, minv)[j]) == Red(p, Values(t, back, n)[j] * minv)
      ensures Red(p, Inverted(p, vals, back, minv)[j]) == Red(p, Values(vals, back, n)[j] * minv)
    {
      InvertedAt(p, t, back, minv, j);
      InvertedAt(p, vals, back, minv, j);
    }
    DotScaled(p, vals, Values(t, back, n), Inverted(p, t, back, minv), minv, n);
    Transposed(vals, t, back);
    var a := Inverted(p, vals, back, minv);
    DotScaled(p, t, Values(vals, back, n), a, minv, n);
    DotOfPowers(p, tau, t, a, n);
    assert a[..n] == a;
  }

  /** Entry j is the value at tau of the polynomial that is one at omega^j and zero at the other powers. */
  lemma {:induction false} LagrangeValue(p: nat, tau: int, omega: int, back: int, minv: int, l: nat, j: nat)
    requires IsRoot(p, omega, l) && p > 1 && Red(p, omega * back) == Red(p, 1)
    requires Red(p, Pow2(l) * minv) == Red(p, 1) && j < Pow2(l)
    ensures var e := Unit(Pow2(l), j);
      && Red(p, Inverted(p, Powers(p, tau, Pow2(l)), back, minv)[j]) == Red(p, P.Eval(Inverted(p, e, back, minv), tau))
      && Transform(p, Inverted(p, e, back, minv), omega) == e
  {
    var n, e := Pow2(l), Unit(Pow2(l), j);
    LagrangeValues(p, tau, e, back, minv);
    DotOfUnit(Inverted(p, Powers(p, tau, n), back, minv), j, n);
    TransformOfInverted(p, e, omega, back, minv, l);
  }

  ghost function Unit(n: nat, j: nat): (e: seq<int>)
    ensures |e| == n && forall i: nat | i < n :: e[i] == if i == j then 1 else 0
  {
    seq(n, i => if i == j then 1 else 0)
  }

  lemma {:induction false} DotOfUnit(u: seq<int>, j: nat, n: nat)
    requires n <= |u| && j < |u|
    ensures P.Dot(Unit(|u|, j), u, n) == if j < n then u[j] else 0
  {
    if n > 0 { DotOfUnit(u, j, n - 1); }
  }

  // ---- Columns weighted with the Lagrange values ----

  /** What eval_at_tau adds up over a column. */
  ghost function Weighted(lagrange: seq<int>, column: seq<Entry>): int
    requires forall k | 0 <= k < |column| :: column[k].row < |lagrange|
  {
    if |column| == 0 then 0
    else Weighted(lagrange, column[..|column| - 1]) + column[|column| - 1].coeff * lagrange[column[|column| - 1].row]
  }

  /** The rows of a column as a list. */
  ghost function ColumnRows(column: seq<Entry>, n: nat): (v: seq<int>)
    ensures |v| == n && forall j: nat | j < n :: v[j] == ColumnAt(column, j)
  {
    seq(n, j requires 0 <= j => ColumnAt(column, j))
  }

  lemma {:induction false} DotPlusUnit(v: seq<int>, u: seq<int>, c: int, j: nat, w: seq<int>, n: nat)
    requires n <= |u| == |v| == |w| && j < |u| && forall i | 0 <= i < |u| :: w[i] == v[i] + if i == j then c else 0
    ensures P.Dot(w, u, n) == P.Dot(v, u, n) + if j < n then c * u[j] else 0
  {
    if n > 0 {
      DotPlusUnit(v, u, c, j, w, n - 1);
      DistributeSum(v[n - 1], c, u[n - 1]);
    }
  }

  lemma {:induction false} DotOfZeros(v: seq<int>, u: seq<int>, n: nat)
    requires n <= |u| == |v| && forall i | 0 <= i < n :: v[i] == 0
    ensures P.Dot(v, u, n) == 0
  {
    if n > 0 {
      DotOfZeros(v, u, n - 1);
      assert 0 * u[n - 1] == 0;
    }
  }

  lemma {:induction false} WeightedIsDot(lagrange: seq<int>, column: seq<Entry>)
    requires forall k | 0 <= k < |column| :: column[k].row < |lagrange|
    ensures Weighted(lagrange, column) == P.Dot(ColumnRows(column, |lagrange|), lagrange, |lagrange|)
  {
    var n := |lagrange|;
    if |column| == 0 {
      DotOfZeros(ColumnRows(column, n), lagrange, n);
    } else {
      var rest, e := column[..|column| - 1], column[|column| - 1];
      WeightedIsDot(lagrange, rest);
      DotPlusUnit(ColumnRows(rest, n), lagrange, e.coeff, e.row, ColumnRows(column, n), n);
    }
  }

  /** The weighted columns of all variables. */
  ghost function WeightedColumns(lagrange: seq<int>, columns: seq<seq<Entry>>): (v: seq<int>)
    requires RowsBelow(columns, |lagrange|)
    ensures |v| == |columns| && forall i: nat | i < |v| :: v[i] == Weighted(lagrange, columns[i])
  {
    seq(|columns|, i requires 0 <= i < |columns| => Weighted(lagrange, columns[i]))
  }

  /** The sum over the variables of value times weighted column. */
  ghost function WeightedAll(lagrange: seq<int>, columns: seq<seq<Entry>>, xs: seq<int>): int
    requires |columns| == |xs| && RowsBelow(columns, |lagrange|)
  {
    P.Dot(xs, WeightedColumns(lagrange, columns), |xs|)
  }

  ghost function RowValues(columns: seq<seq<Entry>>, xs: seq<int>, n: nat): (v: seq<int>)
    requires |columns| == |xs|
    ensures |v| == n && forall j: nat | j < n :: v[j] == RowValue(columns, xs, j)
  {
    seq(n, j requires 0 <= j => RowValue(columns, xs, j))
  }

  lemma {:induction false} DotPlusScaled(v: seq<int>, c: seq<int>, x: int, w: seq<int>, u: seq<int>, n: nat)
    requires n <= |u| == |v| == |w| == |c| && forall i | 0 <= i < n :: w[i] == v[i] + x * c[i]
    ensures P.Dot(w, u, n) == P.Dot(v, u, n) + x * P.Dot(c, u, n)
  {
    if n > 0 {
      DotPlusScaled(v, c, x, w, u, n - 1);
      ScaledTerm(v[n - 1], x, c[n - 1], u[n - 1], P.Dot(c, u, n - 1));
    } else {
      assert x * 0 == 0;
    }
  }

  lemma ScaledTerm(v: int, x: int, c: int, u: int, s: int)
    ensures (v + x * c) * u == v * u + x * (c * u) && x * (s + c * u) == x * s + x * (c * u)
  {
    assert (x * c) * u == x * (c * u);
  }

  lemma {:induction false} PrefixIsDot(lagrange: seq<int>, columns: seq<seq<Entry>>, xs: seq<int>, m: nat)
    requires m <= |columns| == |xs| && RowsBelow(columns, |lagrange|)
    ensures P.Dot(xs, WeightedColumns(lagrange, columns), m)
         == P.Dot(RowValues(columns[..m], xs[..m], |lagrange|), lagrange, |lagrange|)
  {
    var n := |lagrange|;
    if m == 0 {
      DotOfZeros(RowValues(columns[..0], xs[..0], n), lagrange, n);
    } else {
      var i := m - 1;
      PrefixIsDot(lagrange, columns, xs, i);
      WeightedIsDot(lagrange, columns[i]);
      assert columns[..m][..i] == columns[..i] && xs[..m][..i] == xs[..i];
      DotPlusScaled(RowValues(columns[..i], xs[..i], n), ColumnRows(columns[i], n), xs[i],
                    RowValues(columns[..m], xs[..m], n), lagrange, n);
    }
  }

  lemma {:induction false} WeightedAllIsDot(lagrange: seq<int>, columns: seq<seq<Entry>>, xs: seq<int>)
    requires |columns| == |xs| && RowsBelow(columns, |lagrange|)
    ensures WeightedAll(lagrange, columns, xs) == P.Dot(RowValues(columns, xs, |lagrange|), lagrange, |lagrange|)
  {
    PrefixIsDot(lagrange, columns, xs, |xs|);
    assert columns[..|xs|] == columns && xs[..|xs|] == xs;
  }

  /** The stored rows at an assignment, up to the size of the domain. */
  ghost function StoredRows(inputs: seq<seq<Entry>>, aux: seq<seq<Entry>>, xs: seq<int>, us: seq<int>,
                            n: nat): (v: seq<int>)
    requires |inputs| == |xs| && |aux| == |us|
    ensures |v| == n && forall j: nat | j < n :: v[j] == Stored(inputs, aux, xs, us, j)
  {
    seq(n, j requires 0 <= j => Stored(inputs, aux, xs, us, j))
  }

  /** The polynomial whose values at the powers of omega are the stored rows. */
  ghost function RowPolynomial(p: nat, inputs: seq<seq<Entry>>, aux: seq<seq<Entry>>, xs: seq<int>, us: seq<int>,
                               n: nat, back: int, minv: int): (a: seq<int>)
    requires p > 0 && |inputs| == |xs| && |aux| == |us|
    ensures |a| == n
  {
    Inverted(p, ReducedAll(p, StoredRows(inputs, aux, xs, us, n)), back, minv)
  }

  /** The polynomial of one variable: at omega^j the column's entry of row j. */
  ghost function ColumnPolynomial(p: nat, column: seq<Entry>, n: nat, back: int, minv: int): (a: seq<int>)
    requires p > 0
    ensures |a| == n
  {
    Inverted(p, ReducedAll(p, ColumnRows(column, n)), back, minv)
  }

  /** What eval_at_tau adds up over a column is the value of its polynomial at tau. */
  lemma {:induction false} ColumnValue(p: nat, column: seq<Entry>, tau: int, n: nat, back: int, minv: int)
    requires p > 0 && forall k | 0 <= k < |column| :: column[k].row < n
    ensures Red(p, Weighted(Inverted(p, Powers(p, tau, n), back, minv), column))
         == Red(p, P.Eval(ColumnPolynomial(p, column, n, back, minv), tau))
  {
    var u := Inverted(p, Powers(p, tau, n), back, minv);
    var s := ColumnRows(column, n);
    var r := ReducedAll(p, s);
    WeightedIsDot(u, column);
    forall j | 0 <= j < n ensures Red(p, s[j]) == Red(p, r[j]) { RedRed(p, s[j]); }
    DotCong(p, s, r, u, n);
    LagrangeValues(p, tau, r, back, minv);
  }

  /** And its values at the powers of omega are the column's entries. */
  lemma {:induction false} ColumnPolynomialValues(p: nat, column: seq<Entry>, omega: int, back: int, minv: int, l: nat,
                                                  j: nat)
    requires IsRoot(p, omega, l) && Red(p, omega * back) == Red(p, 1) && Red(p, Pow2(l) * minv) == Red(p, 1)
    requires j < Pow2(l)
    ensures Red(p, P.Eval(ColumnPolynomial(p, column, Pow2(l), back, minv), Pow(omega, j)))
         == Red(p, ColumnAt(column, j))
  {
    InterpolatedValues(p, ColumnRows(column, Pow2(l)), omega, back, minv, l, j);
  }

  lemma {:induction false} InterpolatedValues(p: nat, vals: seq<int>, omega: int, back: int, minv: int, l: nat, j: nat)
    requires IsRoot(p, omega, l) && Red(p, omega * back) == Red(p, 1) && Red(p, Pow2(l) * minv) == Red(p, 1)
    requires j < |vals| == Pow2(l)
    ensures Red(p, P.Eval(Inverted(p, ReducedAll(p, vals), back, minv), Pow(omega, j))) == Red(p, vals[j])
  {
    var n, r := Pow2(l), ReducedAll(p, vals);
    var a := Inverted(p, r, back, minv);
    TransformOfInverted(p, r, omega, back, minv, l);
    assert Transform(p, a, omega)[j] == r[j];
  }

  /** The shares of the inputs and of the auxiliary variables add up to `total`. */
  ghost predicate SumIs(p: nat, ofInputs: int, ofAux: int, total: int)
    requires p > 0
  {
    Red(p, ofInputs + ofAux) == Red(p, total)
  }

  lemma {:induction false} SumIsAlso(p: nat, u: int, v: int, u': int, v': int, total: int)
    requires p > 0 && Red(p, u) == Red(p, u') && Red(p, v) == Red(p, v') && SumIs(p, u', v', total)
    ensures SumIs(p, u, v, total)
  {
    RedAdd(p, u, u', v, v');
  }

  /** Summing value times weighted column over all variables evaluates the row polynomial at tau. */
  lemma {:induction false} QapValue(p: nat, inputs: seq<seq<Entry>>, aux: seq<seq<Entry>>, xs: seq<int>, us: seq<int>,
                                    tau: int, n: nat, back: int, minv: int)
    requires p > 0 && |inputs| == |xs| && |aux| == |us| && RowsBelow(inputs, n) && RowsBelow(aux, n)
    ensures var lagrange := Inverted(p, Powers(p, tau, n), back, minv);
      SumIs(p, WeightedAll(lagrange, inputs, xs), WeightedAll(lagrange, aux, us),
            P.Eval(RowPolynomial(p, inputs, aux, xs, us, n, back, minv), tau))
  {
    var u := Inverted(p, Powers(p, tau, n), back, minv);
    WeightedAllIsDot(u, inputs, xs);
    WeightedAllIsDot(u, aux, us);
    var v, w, s := RowValues(inputs, xs, n), RowValues(aux, us, n), StoredRows(inputs, aux, xs, us, n);
    DotPlusScaled(v, w, 1, s, u, n);
    var r := ReducedAll(p, s);
    forall j | 0 <= j < n ensures Red(p, s[j]) == Red(p, r[j]) { RedRed(p, s[j]); }
    DotCong(p, s, r, u, n);
    LagrangeValues(p, tau, r, back, minv);
  }

  /** And its values at the powers of omega are the rows. */
  lemma {:induction false} RowPolynomialValues(p: nat, inputs: seq<seq<Entry>>, aux: seq<seq<Entry>>, xs: seq<int>,
                                               us: seq<int>, omega: int, back: int, minv: int, l: nat, j: nat)
    requires IsRoot(p, omega, l) && Red(p, omega * back) == Red(p, 1) && Red(p, Pow2(l) * minv) == Red(p, 1)
    requires |inputs| == |xs| && |aux| == |us| && j < Pow2(l)
    ensures Red(p, P.Eval(RowPolynomial(p, inputs, aux, xs, us, Pow2(l), back, minv), Pow(omega, j)))
         == Red(p, Stored(inputs, aux, xs, us, j))
  {
    InterpolatedValues(p, StoredRows(inputs, aux, xs, us, Pow2(l)), omega, back, minv, l, j);
  }

  // ---- Divisibility ----

  /** The powers of a root of unity of order 2^l are the coset of one. */
  lemma {:induction false} RootsAreCoset(p: nat, omega: int, l: nat)
    requires Prime(p) && p % 2 == 1 && IsRoot(p, omega, l) && Red(p, Pow2(l)) != 0
    ensures Coset(p, Pow2(l), 1, omega, 1)
  {
    RootOrder(p, omega, l);
    PowOne(Pow2(l));
    forall i: nat, j: nat | i < j < Pow2(l) ensures Red(p, Pow(omega, i)) != Red(p, Pow(omega, j)) {
      if Red(p, Pow(omega, i)) == Red(p, Pow(omega, j)) {
        var d: nat := j - i;
        PowAdd(omega, d, i);
        RootNotDivisible(p, omega, l, i);
        assert 1 * Pow(omega, i) == Pow(omega, i);
        Cancel(p, Pow(omega, d), 1, Pow(omega, i));
        Vanishes(p, omega, l, d);
        GeometricRed(p, Pow(omega, d), 1, Pow2(l));
        GeometricOne(Pow2(l));
      }
    }
  }

  lemma {:induction false} RootNotDivisible(p: nat, omega: int, l: nat, i: nat)
    requires Prime(p) && IsRoot(p, omega, l)
    ensures Red(p, Pow(omega, i)) != 0
  {
    RootOrder(p, omega, l);
    if Red(p, omega) == 0 {
      RedPow(p, omega, 0, Pow2(l));
      PowOfZero(Pow2(l));
    } else {
      PowNotZero(p, omega, i);
    }
  }

  ghost predicate ProductsMatch(p: nat, a: seq<int>, b: seq<int>, c: seq<int>)
    requires p > 0 && |a| == |b| == |c|
  {
    forall j | 0 <= j < |a| :: Red(p, a[j] * b[j]) == Red(p, c[j])
  }

  /** A * B - C. */
  ghost function Residual(a: seq<int>, b: seq<int>, c: seq<int>): seq<int> {
    P.Add(P.Mul(a, b), P.Scale(-1, c))
  }

  lemma {:induction false} ResidualValue(p: nat, a: seq<int>, b: seq<int>, c: seq<int>, x: int, va: int, vb: int,
                                         vc: int)
    requires p > 0 && Red(p, P.Eval(a, x)) == Red(p, va) && Red(p, P.Eval(b, x)) == Red(p, vb)
    requires Red(p, P.Eval(c, x)) == Red(p, vc)
    ensures Red(p, P.Eval(Residual(a, b, c), x)) == 0 <==> Red(p, va * vb) == Red(p, vc)
  {
    P.EvalAdd(P.Mul(a, b), P.Scale(-1, c), x);
    P.EvalMul(a, b, x);
    P.EvalScale(-1, c, x);
    var u, w := P.Eval(a, x) * P.Eval(b, x), P.Eval(c, x);
    RedMul(p, P.Eval(a, x), va, P.Eval(b, x), vb);
    if Red(p, u) == Red(p, w) { RedAdd(p, u, w, w, w); }
    if Red(p, u - w) == 0 { RedAdd(p, u - w, 0, w, w); }
  }

  /** Every row holds exactly when x^m - 1 divides A * B - C. */
  lemma {:induction false} RowsHoldIffDivides(p: nat, omega: int, l: nat, a: seq<int>, b: seq<int>, c: seq<int>,
                                              va: seq<int>, vb: seq<int>, vc: seq<int>)
    requires Prime(p) && p % 2 == 1 && IsRoot(p, omega, l) && Red(p, Pow2(l)) != 0
    requires |a| == |b| == |c| == |va| == |vb| == |vc| == Pow2(l)
    requires forall j: nat | j < Pow2(l) ::
      && Red(p, P.Eval(a, Pow(omega, j))) == Red(p, va[j]) && Red(p, P.Eval(b, Pow(omega, j))) == Red(p, vb[j])
      && Red(p, P.Eval(c, Pow(omega, j))) == Red(p, vc[j])
    ensures ProductsMatch(p, va, vb, vc) <==> Exact(p, Residual(a, b, c), Pow2(l), 1)
  {
    var n, f := Pow2(l), Residual(a, b, c);
    var pts := Points(1, omega, n);
    RootsAreCoset(p, omega, l);
    forall j: nat | j < n ensures Red(p, P.Eval(f, pts[j])) == 0 <==> Red(p, va[j] * vb[j]) == Red(p, vc[j]) {
      assert pts[j] == Pow(omega, j);
      ResidualValue(p, a, b, c, pts[j], va[j], vb[j], vc[j]);
    }
    if ProductsMatch(p, va, vb, vc) {
      CosetDivides(p, f, n, 1, omega, 1);
    }
    if Exact(p, f, n, 1) {
      forall j: nat | j < n ensures Red(p, va[j] * vb[j]) == Red(p, vc[j]) {
        ExactVanishes(p, f, n, omega, j);
      }
    }
  }

  lemma {:induction false} ExactVanishes(p: nat, f: seq<int>, n: nat, omega: int, j: nat)
    requires Prime(p) && Coset(p, n, 1, omega, 1) && |f| >= n && Exact(p, f, n, 1) && j < n
    ensures Red(p, P.Eval(f, Points(1, omega, n)[j])) == 0
  {
    var x, q, r := Points(1, omega, n)[j], SparseQuotient(f, n, 1), Remainder(f, n, 1);
    EvalDivision(f, n, 1, x);
    P.EvalRed(p, r, P.Zeros(n), x, x);
    P.EvalZeros(n, x);
    PowerOfPoint(p, n, 1, omega, 1, j);
    RedAdd(p, Pow(x, n), 1, 1, 1);
    RedMul(p, P.Eval(q, x), P.Eval(q, x), Pow(x, n) - 1, 0);
    assert P.Eval(q, x) * 0 == 0;
    RedAdd(p, P.Eval(q, x) * (Pow(x, n) - 1), 0, P.Eval(r, x), 0);
  }
}
