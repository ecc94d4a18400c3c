/** The reduction of rank-one constraints to square constraints in crates/bellman/src/gm17/generator.rs:
    every row <a,x> * <b,x> = <c,x> becomes <a-b,x>^2 = y and <a+b,x>^2 = 4 <c,x> + y with a fresh y. */
module SapReduction {
  import opened Modular
  import opened FieldInverse
  import opened ConstraintColumns

  /** The columns of an assembly, with the constraints behind them, the variable made for each and the first
      of the two rows of each. */
  datatype Sap = Sap(atInputs: seq<seq<Entry>>, ctInputs: seq<seq<Entry>>, atAux: seq<seq<Entry>>,
                     ctAux: seq<seq<Entry>>, rows: seq<R1cs>, ys: seq<nat>, places: seq<nat>, total: nat)
  {
    ghost predicate Shaped() {
      |ctInputs| == |atInputs| && |ctAux| == |atAux| && |ys| == |rows| == |places|
    }

    ghost predicate Fits(xs: seq<int>, us: seq<int>) {
      |xs| == |atInputs| == |ctInputs| && |us| == |atAux| == |ctAux|
    }

    ghost predicate RowAllocated(k: nat)
      requires k < |rows|
    {
      && Allocated(rows[k].a, |atInputs|, |atAux|) && Allocated(rows[k].b, |atInputs|, |atAux|)
      && Allocated(rows[k].c, |atInputs|, |atAux|)
    }

    ghost predicate RowAvoids(k: nat, i: nat)
      requires k < |rows|
    {
      Avoids(rows[k].a, i) && Avoids(rows[k].b, i) && Avoids(rows[k].c, i)
    }

    ghost function At(xs: seq<int>, us: seq<int>, j: nat): int
      requires Fits(xs, us)
    {
      Stored(atInputs, atAux, xs, us, j)
    }

    ghost function Ct(xs: seq<int>, us: seq<int>, j: nat): int
      requires Fits(xs, us)
    {
      Stored(ctInputs, ctAux, xs, us, j)
    }

    /** What the two stored rows of constraint `k` say at an assignment. */
    ghost predicate PairAt(p: nat, k: nat, xs: seq<int>, us: seq<int>)
      requires p > 0 && Shaped() && Fits(xs, us) && k < |rows| && RowAllocated(k) && ys[k] < |us|
    {
      var a, b, c, y := Value(rows[k].a, xs, us), Value(rows[k].b, xs, us), Value(rows[k].c, xs, us), us[ys[k]];
      && Red(p, At(xs, us, places[k])) == Red(p, a - b) && Red(p, Ct(xs, us, places[k])) == Red(p, y)
      && Red(p, At(xs, us, places[k] + 1)) == Red(p, a + b) && Red(p, Ct(xs, us, places[k] + 1)) == Red(p, 4 * c + y)
    }

    ghost predicate RowStored(p: nat, k: nat)
      requires p > 0 && Shaped() && k < |rows|
    {
      && RowAllocated(k) && ys[k] < |atAux|
      && forall xs: seq<int>, us: seq<int> | Fits(xs, us) :: PairAt(p, k, xs, us)
    }

    /** The columns hold two rows for every constraint, which itself mentions none of the variables made. */
    ghost predicate Consistent(p: nat) {
      && p > 0 && Shaped()
      && RowsBelow(atInputs, total) && RowsBelow(atAux, total)
      && RowsBelow(ctInputs, total) && RowsBelow(ctAux, total)
      && (forall i, j | 0 <= i < j < |ys| :: ys[i] < ys[j] && places[i] + 1 < places[j])
      && (forall k | 0 <= k < |places| :: places[k] + 1 < total)
      && (forall k: nat | k < |rows| :: RowStored(p, k))
      && forall k: nat, m: nat | k < |rows| && m < |rows| :: RowAvoids(k, ys[m])
    }

    // ---- Satisfaction ----

    ghost predicate RowHolds(p: nat, k: nat, xs: seq<int>, us: seq<int>)
      requires p > 0 && k < |rows| && RowAllocated(k) && Fits(xs, us)
    {
      Red(p, Value(rows[k].a, xs, us) * Value(rows[k].b, xs, us)) == Red(p, Value(rows[k].c, xs, us))
    }

    /** The assignment satisfies the constraints of the circuit. */
    ghost predicate Satisfies(p: nat, xs: seq<int>, us: seq<int>)
      requires Consistent(p) && Fits(xs, us)
    {
      forall k: nat | k < |rows| :: RowStored(p, k) && RowHolds(p, k, xs, us)
    }

    ghost predicate SquareHolds(p: nat, j: nat, xs: seq<int>, us: seq<int>)
      requires p > 0 && Fits(xs, us)
    {
      Red(p, At(xs, us, j) * At(xs, us, j)) == Red(p, Ct(xs, us, j))
    }

    /** The assignment satisfies both rows of every constraint, as square constraints. */
    ghost predicate SquaresHold(p: nat, xs: seq<int>, us: seq<int>)
      requires p > 0 && Shaped() && Fits(xs, us)
    {
      forall k: nat | k < |rows| :: BothHold(p, k, xs, us)
    }

    ghost predicate BothHold(p: nat, k: nat, xs: seq<int>, us: seq<int>)
      requires p > 0 && Fits(xs, us) && k < |places|
    {
      SquareHolds(p, places[k], xs, us) && SquareHolds(p, places[k] + 1, xs, us)
    }

    /** The assignment satisfies every row there is. */
    ghost predicate AllSquaresHold(p: nat, xs: seq<int>, us: seq<int>)
      requires p > 0 && Fits(xs, us)
    {
      forall j: nat | j < total :: SquareHolds(p, j, xs, us)
    }

    /** The same values except for the variables made for the reduction. */
    ghost predicate Extends(us: seq<int>, us': seq<int>) {
      |us'| == |us| && forall i: nat | i < |us| && i !in ys :: us'[i] == us[i]
    }
  }

  // ---- One constraint ----

  /** With y = (a-b)^2, the second square says 4ab = 4c, hence ab = c: the modulus is odd. */
  lemma {:induction false} TwoSquares(p: nat, a: int, b: int, c: int, y: int)
    requires p > 0 && p % 2 == 1 && Red(p, (a - b) * (a - b)) == Red(p, y)
    ensures Red(p, (a + b) * (a + b)) == Red(p, 4 * c + y) <==> Red(p, a * b) == Red(p, c)
  {
    Squares(a, b);
    var m, s := a * b, (a - b) * (a - b);
    if Red(p, m) == Red(p, c) {
      RedMul(p, 4, 4, m, c);
      RedAdd(p, 4 * m, 4 * c, s, y);
    }
    if Red(p, 4 * m + s) == Red(p, 4 * c + y) {
      RedAdd(p, 4 * m + s, 4 * c + y, s, y);
      CancelTwo(p, 2 * m, 2 * c);
      CancelTwo(p, m, c);
    }
  }

  lemma Squares(a: int, b: int)
    ensures (a + b) * (a + b) == 4 * (a * b) + (a - b) * (a - b)
  {
  }

  /** The two rows of a constraint hold just when y is the square of a - b and the constraint holds. */
  lemma {:induction false} PairMeans(p: nat, s: Sap, k: nat, xs: seq<int>, us: seq<int>)
    requires s.Consistent(p) && p % 2 == 1 && s.Fits(xs, us) && k < |s.rows| && s.RowStored(p, k)
    ensures s.BothHold(p, k, xs, us) <==>
              && s.RowHolds(p, k, xs, us)
              && Red(p, us[s.ys[k]]) == Red(p, Difference(s, k, xs, us) * Difference(s, k, xs, us))
  {
    var a, b, c, y := Value(s.rows[k].a, xs, us), Value(s.rows[k].b, xs, us), Value(s.rows[k].c, xs, us), us[s.ys[k]];
    assert s.PairAt(p, k, xs, us);
    var u, v := s.At(xs, us, s.places[k]), s.At(xs, us, s.places[k] + 1);
    RedMul(p, u, a - b, u, a - b);
    RedMul(p, v, a + b, v, a + b);
    if Red(p, (a - b) * (a - b)) == Red(p, y) { TwoSquares(p, a, b, c, y); }
  }

  ghost function Difference(s: Sap, k: nat, xs: seq<int>, us: seq<int>): int
    requires k < |s.rows| && s.RowAllocated(k) && s.Fits(xs, us)
  {
    Value(s.rows[k].a, xs, us) - Value(s.rows[k].b, xs, us)
  }

  /** Values outside the variables made decide everything about the constraints of the circuit. */
  lemma {:induction false} SameOutside(p: nat, s: Sap, k: nat, xs: seq<int>, us: seq<int>, us': seq<int>)
    requires s.Consistent(p) && s.Fits(xs, us) && s.Extends(us, us') && k < |s.rows| && s.RowAllocated(k)
    ensures Value(s.rows[k].a, xs, us') == Value(s.rows[k].a, xs, us)
    ensures Value(s.rows[k].b, xs, us') == Value(s.rows[k].b, xs, us)
    ensures Value(s.rows[k].c, xs, us') == Value(s.rows[k].c, xs, us)
  {
    forall m: nat | m < |s.rows| ensures s.RowAvoids(k, s.ys[m]) { }
    SameValue(s, s.rows[k].a, xs, us, us');
    SameValue(s, s.rows[k].b, xs, us, us');
    SameValue(s, s.rows[k].c, xs, us, us');
  }

  lemma {:induction false} SameValue(s: Sap, lc: seq<Term>, xs: seq<int>, us: seq<int>, us': seq<int>)
    requires Allocated(lc, |xs|, |us|) && s.Extends(us, us') && forall m: nat | m < |s.ys| :: Avoids(lc, s.ys[m])
    ensures Value(lc, xs, us') == Value(lc, xs, us)
  {
    forall i | 0 <= i < |lc| ensures TermValue(lc[i], xs, us) == TermValue(lc[i], xs, us') {
      assert TermIn(lc[i], |xs|, |us|);
      forall m: nat | m < |s.ys| ensures lc[i].variable != Aux(s.ys[m]) { assert Avoids(lc, s.ys[m]); }
    }
    ValueFrame(lc, xs, us, xs, us');
  }

  // ---- The reduction keeps meaning ----

  /** The assignment with every variable made set to its square. */
  ghost function Extension(p: nat, s: Sap, xs: seq<int>, us: seq<int>, n: nat): (us': seq<int>)
    requires s.Consistent(p) && s.Fits(xs, us) && n <= |s.rows|
    ensures |us'| == |us|
  {
    if n == 0 then us
    else
      assert s.RowStored(p, n - 1);
      Extension(p, s, xs, us, n - 1)[s.ys[n - 1] := Red(p, Difference(s, n - 1, xs, us) * Difference(s, n - 1, xs, us))]
  }

  ghost predicate ExtendedAt(p: nat, s: Sap, xs: seq<int>, us: seq<int>, us': seq<int>, k: nat)
    requires p > 0 && s.Shaped() && s.Fits(xs, us) && |us'| == |us| && k < |s.rows|
  {
    s.RowStored(p, k) && us'[s.ys[k]] == Red(p, Difference(s, k, xs, us) * Difference(s, k, xs, us))
  }

  lemma {:induction false} ExtensionAt(p: nat, s: Sap, xs: seq<int>, us: seq<int>, n: nat)
    requires s.Consistent(p) && s.Fits(xs, us) && n <= |s.rows|
    ensures s.Extends(us, Extension(p, s, xs, us, n))
    ensures forall k: nat | k < n :: ExtendedAt(p, s, xs, us, Extension(p, s, xs, us, n), k)
  {
    if n > 0 {
      ExtensionAt(p, s, xs, us, n - 1);
      assert s.RowStored(p, n - 1);
      forall k: nat | k < n - 1 ensures ExtendedAt(p, s, xs, us, Extension(p, s, xs, us, n), k) {
        assert ExtendedAt(p, s, xs, us, Extension(p, s, xs, us, n - 1), k);
      }
    }
  }

  lemma {:induction false} ExtensionSatisfies(p: nat, s: Sap, xs: seq<int>, us: seq<int>)
    requires s.Consistent(p) && p % 2 == 1 && s.Fits(xs, us) && s.Satisfies(p, xs, us)
    ensures s.SquaresHold(p, xs, Extension(p, s, xs, us, |s.rows|)) && s.Extends(us, Extension(p, s, xs, us, |s.rows|))
  {
    var us' := Extension(p, s, xs, us, |s.rows|);
    ExtensionAt(p, s, xs, us, |s.rows|);
    forall k: nat | k < |s.rows| ensures s.BothHold(p, k, xs, us') {
      assert s.RowStored(p, k) && s.RowHolds(p, k, xs, us);
      assert ExtendedAt(p, s, xs, us, us', k);
      SameOutside(p, s, k, xs, us, us');
      RedRed(p, Difference(s, k, xs, us) * Difference(s, k, xs, us));
      PairMeans(p, s, k, xs, us');
    }
  }

  lemma {:induction false} SquaresImplyRow(p: nat, s: Sap, xs: seq<int>, us: seq<int>, us': seq<int>, k: nat)
    requires s.Consistent(p) && p % 2 == 1 && s.Fits(xs, us) && s.Extends(us, us') && s.SquaresHold(p, xs, us')
    requires k < |s.rows|
    ensures s.RowStored(p, k) && s.RowHolds(p, k, xs, us)
    ensures Red(p, us'[s.ys[k]]) == Red(p, Difference(s, k, xs, us) * Difference(s, k, xs, us))
  {
    assert s.RowStored(p, k);
    assert s.BothHold(p, k, xs, us');
    PairMeans(p, s, k, xs, us');
    SameOutside(p, s, k, xs, us, us');
  }

  /** An assignment satisfies the circuit exactly when it extends to one that satisfies all stored rows. */
  lemma {:induction false} ReductionKeepsMeaning(p: nat, s: Sap, xs: seq<int>, us: seq<int>)
    requires s.Consistent(p) && p % 2 == 1 && s.Fits(xs, us)
    ensures s.Satisfies(p, xs, us) <==> exists us': seq<int> :: s.Extends(us, us') && s.SquaresHold(p, xs, us')
  {
    if s.Satisfies(p, xs, us) {
      ExtensionSatisfies(p, s, xs, us);
    }
    if us': seq<int> :| s.Extends(us, us') && s.SquaresHold(p, xs, us') {
      forall k: nat | k < |s.rows| ensures s.RowStored(p, k) && s.RowHolds(p, k, xs, us) {
        SquaresImplyRow(p, s, xs, us, us', k);
      }
    }
  }

  lemma {:induction false} PlaceIs(p: nat, s: Sap, k: nat)
    requires s.Consistent(p) && s.total == 2 * |s.rows| && k < |s.rows|
    ensures s.places[k] == 2 * k
  {
    PlaceAtLeast(p, s, k);
    PlaceAtMost(p, s, k);
  }

  lemma {:induction false} PlaceAtLeast(p: nat, s: Sap, k: nat)
    requires s.Consistent(p) && k < |s.rows|
    ensures s.places[k] >= 2 * k
  {
    if k > 0 {
      PlaceAtLeast(p, s, k - 1);
      assert s.places[k - 1] + 1 < s.places[k];
    }
  }

  lemma {:induction false} PlaceAtMost(p: nat, s: Sap, k: nat)
    requires s.Consistent(p) && k < |s.rows|
    ensures s.places[k] + 2 * (|s.rows| - k) <= s.total
    decreases |s.rows| - k
  {
    if k + 1 < |s.rows| {
      PlaceAtMost(p, s, k + 1);
      assert s.places[k] + 1 < s.places[k + 1];
    }
  }

  /** Where nothing but constraints was stored, every row belongs to the pair of one: the assignments that satisfy
      the circuit are those with an extension that satisfies every row there is. */
  lemma {:induction false} AllRowsKeepMeaning(p: nat, s: Sap, xs: seq<int>, us: seq<int>)
    requires s.Consistent(p) && p % 2 == 1 && s.Fits(xs, us) && s.total == 2 * |s.rows|
    ensures s.Satisfies(p, xs, us) <==>
      exists us': seq<int> :: s.Extends(us, us') && s.AllSquaresHold(p, xs, us')
  {
    ReductionKeepsMeaning(p, s, xs, us);
    forall us': seq<int> | s.Extends(us, us')
      ensures s.SquaresHold(p, xs, us') <==> s.AllSquaresHold(p, xs, us')
    {
      PairsAreAllRows(p, s, xs, us');
    }
  }

  lemma {:induction false} PairsAreAllRows(p: nat, s: Sap, xs: seq<int>, us: seq<int>)
    requires s.Consistent(p) && s.Fits(xs, us) && s.total == 2 * |s.rows|
    ensures s.SquaresHold(p, xs, us) <==> s.AllSquaresHold(p, xs, us)
  {
    if s.SquaresHold(p, xs, us) {
      forall j: nat | j < s.total ensures s.SquareHolds(p, j, xs, us) {
        PlaceIs(p, s, j / 2);
        assert s.BothHold(p, j / 2, xs, us);
        assert j == 2 * (j / 2) || j == 2 * (j / 2) + 1;
      }
    }
    if s.AllSquaresHold(p, xs, us) {
      forall k: nat | k < |s.rows| ensures s.BothHold(p, k, xs, us) {
        PlaceIs(p, s, k);
      }
    }
  }

  /** And the extension is the only one, up to multiples of the modulus. */
  lemma {:induction false} ExtensionUnique(p: nat, s: Sap, xs: seq<int>, us: seq<int>, us1: seq<int>, us2: seq<int>,
                                           i: nat)
    requires s.Consistent(p) && p % 2 == 1 && s.Fits(xs, us) && i < |us|
    requires s.Extends(us, us1) && s.SquaresHold(p, xs, us1) && s.Extends(us, us2) && s.SquaresHold(p, xs, us2)
    ensures Red(p, us1[i]) == Red(p, us2[i])
  {
    if i in s.ys {
      var k: nat :| k < |s.ys| && s.ys[k] == i;
      SquaresImplyRow(p, s, xs, us, us1, k);
      SquaresImplyRow(p, s, xs, us, us2, k);
    }
  }

  // ---- Allocation ----

  /** The assembly with empty columns for new variables. */
  ghost predicate Grown(s: Sap, t: Sap, moreInputs: bool) {
    && t.rows == s.rows && t.ys == s.ys && t.places == s.places && t.total == s.total
    && t.atInputs == s.atInputs + (if moreInputs then [[]] else [])
      && t.ctInputs == s.ctInputs + (if moreInputs then [[]] else [])
    && t.atAux == s.atAux + (if moreInputs then [] else [[]]) && t.ctAux == s.ctAux + (if moreInputs then [] else [[]])
  }

  lemma {:induction false} GrownStored(s: Sap, t: Sap, moreInputs: bool, xs: seq<int>, us: seq<int>, n: nat)
    requires s.Shaped() && Grown(s, t, moreInputs) && t.Fits(xs, us)
    ensures var xs', us' := xs[..|s.atInputs|], us[..|s.atAux|];
            s.Fits(xs', us') && t.At(xs, us, n) == s.At(xs', us', n) && t.Ct(xs, us, n) == s.Ct(xs', us', n)
  {
    GrownRow(s.atInputs, s.atAux, xs, us, moreInputs, n);
    GrownRow(s.ctInputs, s.ctAux, xs, us, moreInputs, n);
  }

  lemma {:induction false} GrownPairAt(p: nat, s: Sap, t: Sap, moreInputs: bool, k: nat, xs: seq<int>, us: seq<int>)
    requires s.Consistent(p) && Grown(s, t, moreInputs) && k < |s.rows| && s.RowStored(p, k) && t.Fits(xs, us)
    requires t.RowAllocated(k)
    ensures t.PairAt(p, k, xs, us)
  {
    var i, a, n := |s.atInputs|, |s.atAux|, s.places[k];
    assert s.PairAt(p, k, xs[..i], us[..a]);
    ShorterValue(s.rows[k].a, xs, us, i, a);
    ShorterValue(s.rows[k].b, xs, us, i, a);
    ShorterValue(s.rows[k].c, xs, us, i, a);
    GrownStored(s, t, moreInputs, xs, us, n);
    GrownStored(s, t, moreInputs, xs, us, n + 1);
  }

  lemma {:induction false} GrownPair(p: nat, s: Sap, t: Sap, moreInputs: bool, k: nat)
    requires s.Consistent(p) && Grown(s, t, moreInputs) && k < |s.rows|
    ensures t.RowStored(p, k)
  {
    assert s.RowStored(p, k);
    AllocatedMore(s.rows[k].a, |s.atInputs|, |s.atAux|, |t.atInputs|, |t.atAux|);
    AllocatedMore(s.rows[k].b, |s.atInputs|, |s.atAux|, |t.atInputs|, |t.atAux|);
    AllocatedMore(s.rows[k].c, |s.atInputs|, |s.atAux|, |t.atInputs|, |t.atAux|);
    forall xs: seq<int>, us: seq<int> | t.Fits(xs, us) ensures t.PairAt(p, k, xs, us) {
      GrownPairAt(p, s, t, moreInputs, k, xs, us);
    }
  }

  lemma {:induction false} GrownConsistent(p: nat, s: Sap, t: Sap, moreInputs: bool)
    requires s.Consistent(p) && Grown(s, t, moreInputs)
    ensures t.Consistent(p)
  {
    RowsBelowMore(s.atInputs, s.total);
    RowsBelowMore(s.ctInputs, s.total);
    RowsBelowMore(s.atAux, s.total);
    RowsBelowMore(s.ctAux, s.total);
    forall k: nat | k < |t.rows| ensures t.RowStored(p, k) { GrownPair(p, s, t, moreInputs, k); }
    forall k: nat, m: nat | k < |t.rows| && m < |t.rows| ensures t.RowAvoids(k, t.ys[m]) {
      assert s.RowAvoids(k, s.ys[m]);
    }
  }

  // ---- Enforcing ----

  /** The linear combinations of the two rows that a constraint becomes. */
  ghost predicate Reduction(p: nat, row: R1cs, y: nat, difference: seq<Term>, lcY: seq<Term>, sum: seq<Term>,
                            quadrupled: seq<Term>)
    requires p > 0
  {
    && |difference| == |row.a| + |row.b| && difference[..|row.a|] == row.a
      && ScaledTerms(p, row.b, -1, difference[|row.a|..])
    && lcY == [Term(Aux(y), 1)] && sum == row.a + row.b
    && |quadrupled| == |row.c| + 1 && ScaledTerms(p, row.c, 4, quadrupled[..|row.c|])
      && quadrupled[|row.c|] == Term(Aux(y), 1)
  }

  lemma {:induction false} YValue(y: nat, xs: seq<int>, us: seq<int>)
    requires y < |us|
    ensures Allocated([Term(Aux(y), 1)], |xs|, |us|) && Value([Term(Aux(y), 1)], xs, us) == us[y]
  {
    assert [Term(Aux(y), 1)][..0] == [] && 1 * us[y] == us[y];
  }

  lemma {:induction false} ReductionAllocated(p: nat, row: R1cs, y: nat, d: seq<Term>, l: seq<Term>, s: seq<Term>,
                                              q: seq<Term>, i: nat, a: nat)
    requires p > 0 && Reduction(p, row, y, d, l, s, q) && y < a
    requires Allocated(row.a, i, a) && Allocated(row.b, i, a) && Allocated(row.c, i, a)
    ensures Allocated(d, i, a) && Allocated(l, i, a) && Allocated(s, i, a) && Allocated(q, i, a)
  {
    var e, f := d[|row.a|..], q[..|row.c|];
    forall k | 0 <= k < |d| ensures TermIn(d[k], i, a) {
      if k < |row.a| {
        assert d[k] == d[..|row.a|][k] && TermIn(row.a[k], i, a);
      } else {
        assert d[k] == e[k - |row.a|] && TermIn(row.b[k - |row.a|], i, a);
      }
    }
    forall k | 0 <= k < |q| ensures TermIn(q[k], i, a) {
      if k < |row.c| { assert q[k] == f[k] && TermIn(row.c[k], i, a); }
    }
    forall k | 0 <= k < |s| ensures TermIn(s[k], i, a) {
      if k < |row.a| { assert TermIn(row.a[k], i, a); } else { assert TermIn(row.b[k - |row.a|], i, a); }
    }
  }

  lemma {:induction false} ReductionValues(p: nat, row: R1cs, y: nat, d: seq<Term>, l: seq<Term>, s: seq<Term>,
                                           q: seq<Term>, xs: seq<int>, us: seq<int>)
    requires p > 0 && Reduction(p, row, y, d, l, s, q) && y < |us|
    requires Allocated(row.a, |xs|, |us|) && Allocated(row.b, |xs|, |us|) && Allocated(row.c, |xs|, |us|)
    ensures Allocated(d, |xs|, |us|) && Allocated(l, |xs|, |us|) && Allocated(s, |xs|, |us|) && Allocated(q, |xs|, |us|)
    ensures Red(p, Value(d, xs, us)) == Red(p, Value(row.a, xs, us) - Value(row.b, xs, us)) && Value(l, xs, us) == us[y]
    ensures Value(s, xs, us) == Value(row.a, xs, us) + Value(row.b, xs, us)
    ensures Red(p, Value(q, xs, us)) == Red(p, 4 * Value(row.c, xs, us) + us[y])
  {
    YValue(y, xs, us);
    ValueConcat(row.a, row.b, xs, us);
    DifferenceValue(p, row.a, row.b, d, xs, us);
    QuadrupledValue(p, row.c, l, q, xs, us);
  }

  lemma {:induction false} Rejoined(lc: seq<Term>, n: nat)
    requires n <= |lc|
    ensures lc[..n] + lc[n..] == lc
  {
  }

  lemma {:induction false} DifferenceValue(p: nat, a: seq<Term>, b: seq<Term>, d: seq<Term>, xs: seq<int>, us: seq<int>)
    requires p > 0 && Allocated(a, |xs|, |us|) && Allocated(b, |xs|, |us|)
    requires |d| == |a| + |b| && d[..|a|] == a && ScaledTerms(p, b, -1, d[|a|..])
    ensures Allocated(d, |xs|, |us|) && Red(p, Value(d, xs, us)) == Red(p, Value(a, xs, us) - Value(b, xs, us))
  {
    Rejoined(d, |a|);
    ScaledThen(p, b, -1, d[|a|..], a, true, xs, us);
  }

  lemma {:induction false} QuadrupledValue(p: nat, c: seq<Term>, l: seq<Term>, q: seq<Term>, xs: seq<int>, us: seq<int>)
    requires p > 0 && Allocated(c, |xs|, |us|) && Allocated(l, |xs|, |us|)
    requires |q| == |c| + |l| && ScaledTerms(p, c, 4, q[..|c|]) && q[|c|..] == l
    ensures Allocated(q, |xs|, |us|) && Red(p, Value(q, xs, us)) == Red(p, 4 * Value(c, xs, us) + Value(l, xs, us))
  {
    Rejoined(q, |c|);
    ScaledThen(p, c, 4, q[..|c|], l, false, xs, us);
  }

  /** A linear combination beside a scaled one. */
  lemma {:induction false} ScaledThen(p: nat, lc: seq<Term>, k: int, scaled: seq<Term>, other: seq<Term>, first: bool,
                                      xs: seq<int>, us: seq<int>)
    requires p > 0 && ScaledTerms(p, lc, k, scaled) && Allocated(lc, |xs|, |us|) && Allocated(other, |xs|, |us|)
    ensures var all := if first then other + scaled else scaled + other;
      Allocated(all, |xs|, |us|) && Red(p, Value(all, xs, us)) == Red(p, k * Value(lc, xs, us) + Value(other, xs, us))
  {
    ScaledValue(p, lc, k, scaled, xs, us);
    if first { ValueConcat(other, scaled, xs, us); } else { ValueConcat(scaled, other, xs, us); }
    RedAdd(p, Value(scaled, xs, us), k * Value(lc, xs, us), Value(other, xs, us), Value(other, xs, us));
  }

  /** The columns of `t` are those of `s` with the two rows of one more constraint. */
  ghost predicate Enforced(p: nat, s: Sap, t: Sap, m: Sap, row: R1cs, y: nat, d: seq<Term>, l: seq<Term>,
                           sum: seq<Term>, q: seq<Term>)
    requires p > 0
  {
    && Reduction(p, row, y, d, l, sum, q) && t.rows == s.rows + [row] && t.ys == s.ys + [y]
    && t.places == s.places + [s.total] && t.total == s.total + 2
    && Evaluated(s.atInputs, s.atAux, m.atInputs, m.atAux, d, s.total)
    && Evaluated(s.ctInputs, s.ctAux, m.ctInputs, m.ctAux, l, s.total)
    && Evaluated(m.atInputs, m.atAux, t.atInputs, t.atAux, sum, s.total + 1)
    && Evaluated(m.ctInputs, m.ctAux, t.ctInputs, t.ctAux, q, s.total + 1)
    && RowsBelow(t.atInputs, t.total) && RowsBelow(t.atAux, t.total)
    && RowsBelow(t.ctInputs, t.total) && RowsBelow(t.ctAux, t.total)
  }

  lemma {:induction false} EnforcedRow(p: nat, s: Sap, t: Sap, m: Sap, row: R1cs, y: nat, d: seq<Term>, l: seq<Term>,
                                       sum: seq<Term>, q: seq<Term>, xs: seq<int>, us: seq<int>, j: nat)
    requires p > 0 && s.Shaped() && Enforced(p, s, t, m, row, y, d, l, sum, q) && s.Fits(xs, us)
    ensures t.Fits(xs, us) && Allocated(d, |xs|, |us|) && Allocated(l, |xs|, |us|) && Allocated(sum, |xs|, |us|)
    ensures Allocated(q, |xs|, |us|)
    ensures t.At(xs, us, j) == s.At(xs, us, j) + (if j == s.total then Value(d, xs, us) else 0)
                             + (if j == s.total + 1 then Value(sum, xs, us) else 0)
    ensures t.Ct(xs, us, j) == s.Ct(xs, us, j) + (if j == s.total then Value(l, xs, us) else 0)
                             + (if j == s.total + 1 then Value(q, xs, us) else 0)
  {
    var n := s.total;
    assert AddsUp(s.atInputs, s.atAux, m.atInputs, m.atAux, d, n, xs, us, j);
    assert AddsUp(m.atInputs, m.atAux, t.atInputs, t.atAux, sum, n + 1, xs, us, j);
    assert AddsUp(s.ctInputs, s.ctAux, m.ctInputs, m.ctAux, l, n, xs, us, j);
    assert AddsUp(m.ctInputs, m.ctAux, t.ctInputs, t.ctAux, q, n + 1, xs, us, j);
  }

  lemma {:induction false} OldRowStays(p: nat, s: Sap, t: Sap, m: Sap, row: R1cs, y: nat, d: seq<Term>, l: seq<Term>,
                                       sum: seq<Term>, q: seq<Term>, k: nat)
    requires s.Consistent(p) && Enforced(p, s, t, m, row, y, d, l, sum, q) && k < |s.rows|
    ensures t.RowStored(p, k)
  {
    assert s.RowStored(p, k) && t.rows[k] == s.rows[k] && t.ys[k] == s.ys[k];
    forall xs: seq<int>, us: seq<int> | t.Fits(xs, us) ensures t.PairAt(p, k, xs, us) {
      assert s.PairAt(p, k, xs, us);
      EnforcedRow(p, s, t, m, row, y, d, l, sum, q, xs, us, t.places[k]);
      EnforcedRow(p, s, t, m, row, y, d, l, sum, q, xs, us, t.places[k] + 1);
    }
  }

  lemma {:induction false} EmptySoFar(p: nat, s: Sap, xs: seq<int>, us: seq<int>, j: nat)
    requires s.Consistent(p) && s.Fits(xs, us) && j >= s.total
    ensures s.At(xs, us, j) == 0 && s.Ct(xs, us, j) == 0
  {
    var n := s.total;
    NoEntries(s.atInputs, xs, n, j);
    NoEntries(s.atAux, us, n, j);
    NoEntries(s.ctInputs, xs, n, j);
    NoEntries(s.ctAux, us, n, j);
  }

  lemma {:induction false} NewRowStored(p: nat, s: Sap, t: Sap, m: Sap, row: R1cs, y: nat, d: seq<Term>, l: seq<Term>,
                                        sum: seq<Term>, q: seq<Term>)
    requires s.Consistent(p) && Enforced(p, s, t, m, row, y, d, l, sum, q) && y < |s.atAux|
    requires Allocated(row.a, |s.atInputs|, |s.atAux|) && Allocated(row.b, |s.atInputs|, |s.atAux|)
    requires Allocated(row.c, |s.atInputs|, |s.atAux|)
    ensures t.RowStored(p, |s.rows|)
  {
    var k := |s.rows|;
    assert t.rows[k] == row && t.ys[k] == y;
    forall xs: seq<int>, us: seq<int> | t.Fits(xs, us) ensures t.PairAt(p, k, xs, us) {
      EnforcedRow(p, s, t, m, row, y, d, l, sum, q, xs, us, t.places[k]);
      EnforcedRow(p, s, t, m, row, y, d, l, sum, q, xs, us, t.places[k] + 1);
      EmptySoFar(p, s, xs, us, t.places[k]);
      EmptySoFar(p, s, xs, us, t.places[k] + 1);
      ReductionValues(p, row, y, d, l, sum, q, xs, us);
    }
  }

  /** One more constraint, with the newest auxiliary variable as its y, keeps the assembly consistent. */
  lemma {:induction false} EnforcedConsistent(p: nat, s: Sap, t: Sap, m: Sap, row: R1cs, y: nat, d: seq<Term>,
                                              l: seq<Term>, sum: seq<Term>, q: seq<Term>)
    requires s.Consistent(p) && Enforced(p, s, t, m, row, y, d, l, sum, q) && y + 1 == |s.atAux|
    requires Allocated(row.a, |s.atInputs|, y) && Allocated(row.b, |s.atInputs|, y) && Allocated(row.c, |s.atInputs|, y)
    requires forall k: nat | k < |s.rows| ::
      s.ys[k] < y && Avoids(row.a, s.ys[k]) && Avoids(row.b, s.ys[k]) && Avoids(row.c, s.ys[k])
    requires forall k: nat | k < |s.rows| :: s.RowAvoids(k, y)
    ensures t.Consistent(p)
  {
    AllocatedMore(row.a, |s.atInputs|, y, |s.atInputs|, y + 1);
    AllocatedMore(row.b, |s.atInputs|, y, |s.atInputs|, y + 1);
    AllocatedMore(row.c, |s.atInputs|, y, |s.atInputs|, y + 1);
    NewRowStored(p, s, t, m, row, y, d, l, sum, q);
    forall k: nat | k < |t.rows| ensures t.RowStored(p, k) {
      if k < |s.rows| { OldRowStays(p, s, t, m, row, y, d, l, sum, q, k); }
    }
    NewAvoided(row.a, |s.atInputs|, y);
    NewAvoided(row.b, |s.atInputs|, y);
    NewAvoided(row.c, |s.atInputs|, y);
    forall k: nat, i: nat | k < |t.rows| && i < |t.rows| ensures t.RowAvoids(k, t.ys[i]) {
      if k < |s.rows| {
        assert s.RowAvoids(k, if i < |s.rows| then s.ys[i] else y);
      } else if i < |s.rows| {
        assert Avoids(row.a, s.ys[i]) && Avoids(row.b, s.ys[i]) && Avoids(row.c, s.ys[i]);
      }
    }
  }

  lemma {:induction false} NewAvoided(lc: seq<Term>, i: nat, y: nat)
    requires Allocated(lc, i, y)
    ensures Avoids(lc, y)
  {
    forall k | 0 <= k < |lc| ensures lc[k].variable != Aux(y) { assert TermIn(lc[k], i, y); }
  }

  /** The rows so far were allocated before a variable that is new now. */
  lemma {:induction false} OldRowsAvoid(p: nat, s: Sap, y: nat)
    requires s.Consistent(p) && y >= |s.atAux|
    ensures forall k: nat | k < |s.rows| :: s.RowAvoids(k, y) && s.ys[k] < y
  {
    forall k: nat | k < |s.rows| ensures s.RowAvoids(k, y) && s.ys[k] < y {
      assert s.RowStored(p, k);
      AllocatedMore(s.rows[k].a, |s.atInputs|, |s.atAux|, |s.atInputs|, y);
      AllocatedMore(s.rows[k].b, |s.atInputs|, |s.atAux|, |s.atInputs|, y);
      AllocatedMore(s.rows[k].c, |s.atInputs|, |s.atAux|, |s.atInputs|, y);
      NewAvoided(s.rows[k].a, |s.atInputs|, y);
      NewAvoided(s.rows[k].b, |s.atInputs|, y);
      NewAvoided(s.rows[k].c, |s.atInputs|, y);
    }
  }

  // ---- The row of input 0 ----

  /** The columns of `t` are those of `s` with the single row of input 0, which only the A side gets. */
  ghost predicate IdentityAdded(s: Sap, t: Sap) {
    && t.rows == s.rows && t.ys == s.ys && t.places == s.places && t.total == s.total + 1
    && t.ctInputs == s.ctInputs && t.ctAux == s.ctAux
    && Evaluated(s.atInputs, s.atAux, t.atInputs, t.atAux, [Term(Input(0), 1)], s.total)
    && RowsBelow(t.atInputs, t.total) && RowsBelow(t.atAux, t.total)
  }

  lemma {:induction false} InputValue(xs: seq<int>, us: seq<int>)
    requires |xs| > 0
    ensures Allocated([Term(Input(0), 1)], |xs|, |us|) && Value([Term(Input(0), 1)], xs, us) == xs[0]
  {
    assert [Term(Input(0), 1)][..0] == [] && 1 * xs[0] == xs[0];
  }

  lemma {:induction false} IdentityRowStays(p: nat, s: Sap, t: Sap, k: nat)
    requires s.Consistent(p) && IdentityAdded(s, t) && k < |s.rows|
    ensures t.RowStored(p, k)
  {
    assert s.RowStored(p, k);
    forall xs: seq<int>, us: seq<int> | t.Fits(xs, us) ensures t.PairAt(p, k, xs, us) {
      var lc := [Term(Input(0), 1)];
      assert s.PairAt(p, k, xs, us);
      assert AddsUp(s.atInputs, s.atAux, t.atInputs, t.atAux, lc, s.total, xs, us, s.places[k]);
      assert AddsUp(s.atInputs, s.atAux, t.atInputs, t.atAux, lc, s.total, xs, us, s.places[k] + 1);
    }
  }

  lemma {:induction false} IdentityConsistent(p: nat, s: Sap, t: Sap)
    requires s.Consistent(p) && IdentityAdded(s, t)
    ensures t.Consistent(p)
  {
    forall k: nat | k < |t.rows| ensures t.RowStored(p, k) { IdentityRowStays(p, s, t, k); }
    forall k: nat, i: nat | k < |t.rows| && i < |t.rows| ensures t.RowAvoids(k, t.ys[i]) {
      assert s.RowAvoids(k, s.ys[i]);
    }
  }

  /** The row says x_0^2 = 0, not x_0^2 = 1: it fails at the value one that input 0 has. */
  lemma {:induction false} IdentityRowMeans(p: nat, s: Sap, t: Sap, xs: seq<int>, us: seq<int>)
    requires s.Consistent(p) && p > 1 && IdentityAdded(s, t) && s.Fits(xs, us) && |xs| > 0
    ensures t.Fits(xs, us) && (t.SquareHolds(p, s.total, xs, us) <==> Red(p, xs[0] * xs[0]) == 0)
    ensures xs[0] == 1 ==> !t.SquareHolds(p, s.total, xs, us)
  {
    InputValue(xs, us);
    EmptySoFar(p, s, xs, us, s.total);
    assert AddsUp(s.atInputs, s.atAux, t.atInputs, t.atAux, [Term(Input(0), 1)], s.total, xs, us, s.total);
    assert t.At(xs, us, s.total) == xs[0] && t.Ct(xs, us, s.total) == 0;
  }
}
