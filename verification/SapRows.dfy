/** What the assembly of crates/bellman/src/gm17/generator.rs keeps of its earlier rows, and what all rows of
    a finished one say together. */
module SapRows {
  import opened Modular
  import opened ConstraintColumns
  import opened SapReduction

  // ---- Earlier rows ----

  ghost predicate RowKept(s: Sap, t: Sap, xs: seq<int>, us: seq<int>, j: nat)
    requires s.Shaped() && |s.atInputs| <= |t.atInputs| && |s.atAux| <= |t.atAux| && t.Fits(xs, us)
  {
    var xs', us' := xs[..|s.atInputs|], us[..|s.atAux|];
    t.At(xs, us, j) == s.At(xs', us', j) && t.Ct(xs, us, j) == s.Ct(xs', us', j)
  }

  /** Every row of `s` is a row of `t` with the same two sides, at every assignment. */
  ghost predicate RowsKept(s: Sap, t: Sap) {
    && s.Shaped() && t.Shaped() && s.total <= t.total
    && |s.atInputs| <= |t.atInputs| && |s.atAux| <= |t.atAux|
    && forall xs: seq<int>, us: seq<int>, j: nat | t.Fits(xs, us) && j < s.total :: RowKept(s, t, xs, us, j)
  }

  lemma {:induction false} SameRowsKept(s: Sap)
    requires s.Shaped()
    ensures RowsKept(s, s)
  {
    forall xs: seq<int>, us: seq<int>, j: nat | s.Fits(xs, us) && j < s.total ensures RowKept(s, s, xs, us, j) {
      assert xs[..|s.atInputs|] == xs && us[..|s.atAux|] == us;
    }
  }

  lemma {:induction false} KeptTwice(s: Sap, t: Sap, u: Sap)
    requires RowsKept(s, t) && RowsKept(t, u)
    ensures RowsKept(s, u)
  {
    forall xs: seq<int>, us: seq<int>, j: nat | u.Fits(xs, us) && j < s.total ensures RowKept(s, u, xs, us, j) {
      var xs', us' := xs[..|t.atInputs|], us[..|t.atAux|];
      assert RowKept(t, u, xs, us, j) && RowKept(s, t, xs', us', j);
      assert xs'[..|s.atInputs|] == xs[..|s.atInputs|] && us'[..|s.atAux|] == us[..|s.atAux|];
    }
  }

  lemma {:induction false} GrownKeeps(s: Sap, t: Sap, moreInputs: bool)
    requires s.Shaped() && Grown(s, t, moreInputs)
    ensures RowsKept(s, t)
  {
    forall xs: seq<int>, us: seq<int>, j: nat | t.Fits(xs, us) && j < s.total ensures RowKept(s, t, xs, us, j) {
      GrownStored(s, t, moreInputs, xs, us, j);
    }
  }

  lemma {:induction false} EnforcedKeeps(p: nat, s: Sap, t: Sap, m: Sap, row: R1cs, y: nat, d: seq<Term>, l: seq<Term>,
                                         sum: seq<Term>, q: seq<Term>)
    requires p > 0 && s.Shaped() && t.Shaped() && Enforced(p, s, t, m, row, y, d, l, sum, q)
    ensures RowsKept(s, t)
  {
    forall xs: seq<int>, us: seq<int>, j: nat | t.Fits(xs, us) && j < s.total ensures RowKept(s, t, xs, us, j) {
      EnforcedRow(p, s, t, m, row, y, d, l, sum, q, xs, us, j);
      assert xs[..|s.atInputs|] == xs && us[..|s.atAux|] == us;
    }
  }

  // ---- The row of input 0 ----

  ghost predicate IdentityAt(t: Sap, j: nat, xs: seq<int>, us: seq<int>)
    requires t.Fits(xs, us) && |xs| > 0
  {
    t.At(xs, us, j) == xs[0] && t.Ct(xs, us, j) == 0
  }

  /** Row `j` has input 0 on its A side and nothing on its C side. */
  ghost predicate IsIdentityRow(t: Sap, j: nat) {
    forall xs: seq<int>, us: seq<int> | t.Fits(xs, us) && |xs| > 0 :: IdentityAt(t, j, xs, us)
  }

  lemma {:induction false} IdentityKeeps(p: nat, s: Sap, t: Sap)
    requires s.Consistent(p) && t.Shaped() && IdentityAdded(s, t)
    ensures RowsKept(s, t) && IsIdentityRow(t, s.total)
  {
    var lc := [Term(Input(0), 1)];
    forall xs: seq<int>, us: seq<int>, j: nat | t.Fits(xs, us) && j < s.total ensures RowKept(s, t, xs, us, j) {
      assert AddsUp(s.atInputs, s.atAux, t.atInputs, t.atAux, lc, s.total, xs, us, j);
      assert xs[..|s.atInputs|] == xs && us[..|s.atAux|] == us;
    }
    forall xs: seq<int>, us: seq<int> | t.Fits(xs, us) && |xs| > 0 ensures IdentityAt(t, s.total, xs, us) {
      InputValue(xs, us);
      EmptySoFar(p, s, xs, us, s.total);
      assert AddsUp(s.atInputs, s.atAux, t.atInputs, t.atAux, lc, s.total, xs, us, s.total);
    }
  }

  lemma {:induction false} IdentityRowKept(s: Sap, t: Sap, j: nat)
    requires RowsKept(s, t) && IsIdentityRow(s, j) && j < s.total && |s.atInputs| > 0
    ensures IsIdentityRow(t, j)
  {
    forall xs: seq<int>, us: seq<int> | t.Fits(xs, us) && |xs| > 0 ensures IdentityAt(t, j, xs, us) {
      assert RowKept(s, t, xs, us, j) && IdentityAt(s, j, xs[..|s.atInputs|], us[..|s.atAux|]);
    }
  }

  // ---- The constraints of the inputs ----

  /** Constraint `i` of those that follow the first `before` is x_i * x_0 = x_i, in two rows. */
  ghost predicate InputAt(t: Sap, before: nat, base: nat, i: nat)
    requires 0 < i && before + i - 1 < |t.rows| == |t.places|
  {
    && t.rows[before + i - 1] == R1cs([Term(Input(i), 1)], [Term(Input(0), 1)], [Term(Input(i), 1)])
    && t.places[before + i - 1] == base + 2 * (i - 1)
  }

  /** `t` has the constraints of `s` and then x_i * x_0 = x_i for every 0 < i < n, whose rows start at `base`. */
  ghost predicate InputsAdded(s: Sap, t: Sap, base: nat, n: nat) {
    && s.Shaped() && t.Shaped() && n > 0 && |t.rows| == |s.rows| + n - 1
    && s.rows <= t.rows && s.ys <= t.ys && s.places <= t.places
    && forall i: nat | 0 < i < n :: InputAt(t, |s.rows|, base, i)
  }

  lemma {:induction false} OneMoreInput(s: Sap, t: Sap, u: Sap, base: nat, n: nat)
    requires InputsAdded(s, t, base, n) && u.Shaped()
    requires u.rows == t.rows + [R1cs([Term(Input(n), 1)], [Term(Input(0), 1)], [Term(Input(n), 1)])]
    requires t.ys <= u.ys && u.places == t.places + [base + 2 * (n - 1)]
    ensures InputsAdded(s, u, base, n + 1)
  {
    forall i: nat | 0 < i < n + 1 ensures InputAt(u, |s.rows|, base, i) {
      if i < n { assert InputAt(t, |s.rows|, base, i); }
    }
  }

  // ---- All rows of a finished assembly ----

  ghost predicate PlacedAround(s: Sap, n: nat, k: nat)
    requires k < |s.places|
  {
    s.places[k] == if k < n then 2 * k else 2 * k + 1
  }

  /** The pairs of `n` constraints, one single row, and the pairs of the other constraints. */
  ghost predicate Finished(s: Sap, n: nat) {
    && s.Shaped() && n <= |s.rows| && s.total == 2 * |s.rows| + 1
    && forall k: nat | k < |s.places| :: PlacedAround(s, n, k)
  }

  lemma {:induction false} NowFinished(p: nat, s: Sap, t: Sap, n: nat)
    requires s.Consistent(p) && s.total == 2 * |s.rows| && t.total == 2 * |t.rows| + 1
    requires InputsAdded(s, t, s.total + 1, n)
    ensures Finished(t, |s.rows|)
  {
    forall k: nat | k < |t.places| ensures PlacedAround(t, |s.rows|, k) {
      if k < |s.rows| {
        PlaceIs(p, s, k);
      } else {
        assert InputAt(t, |s.rows|, s.total + 1, k - |s.rows| + 1);
      }
    }
  }

  lemma {:induction false} PairsAndSingle(p: nat, s: Sap, n: nat, xs: seq<int>, us: seq<int>)
    requires s.Consistent(p) && Finished(s, n) && s.Fits(xs, us)
    ensures s.AllSquaresHold(p, xs, us) <==> s.SquaresHold(p, xs, us) && s.SquareHolds(p, 2 * n, xs, us)
  {
    if s.SquaresHold(p, xs, us) && s.SquareHolds(p, 2 * n, xs, us) {
      forall j: nat | j < s.total ensures s.SquareHolds(p, j, xs, us) {
        if j != 2 * n {
          var k := if j < 2 * n then j / 2 else (j - 1) / 2;
          assert PlacedAround(s, n, k) && s.BothHold(p, k, xs, us);
        }
      }
    }
    if s.AllSquaresHold(p, xs, us) {
      forall k: nat | k < |s.rows| ensures s.BothHold(p, k, xs, us) {
        assert PlacedAround(s, n, k);
      }
    }
  }

  /** What the generator stores for a circuit with the single row among it: an assignment extends to one that
      satisfies every row exactly when it satisfies the constraints and input 0 is zero. */
  lemma {:induction false} FinishedMeans(p: nat, s: Sap, n: nat, xs: seq<int>, us: seq<int>)
    requires s.Consistent(p) && p % 2 == 1 && p > 1 && Finished(s, n) && IsIdentityRow(s, 2 * n)
    requires s.Fits(xs, us) && |xs| > 0
    ensures (exists us': seq<int> :: s.Extends(us, us') && s.AllSquaresHold(p, xs, us'))
       <==> s.Satisfies(p, xs, us) && Red(p, xs[0] * xs[0]) == 0
    ensures xs[0] == 1 ==> !exists us': seq<int> :: s.Extends(us, us') && s.AllSquaresHold(p, xs, us')
  {
    ReductionKeepsMeaning(p, s, xs, us);
    forall us': seq<int> | s.Extends(us, us')
      ensures s.AllSquaresHold(p, xs, us') <==> s.SquaresHold(p, xs, us') && Red(p, xs[0] * xs[0]) == 0
    {
      PairsAndSingle(p, s, n, xs, us');
      assert IdentityAt(s, 2 * n, xs, us');
    }
  }
}
