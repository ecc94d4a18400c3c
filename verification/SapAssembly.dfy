/** The assembly of crates/bellman/src/gm17/generator.rs, which stores square constraints column by
    column while a circuit states rank-one constraints. */
module SapAssembly {
  import opened Modular
  import opened ConstraintColumns
  import opened SapReduction
  import opened SapRows

  class KeypairAssembly {
    const p: nat
    var numInputs: nat
    var numAux: nat
    var numConstraints: nat
    var numR1csAux: nat
    var numR1csConstraints: nat
    var atInputs: seq<seq<Entry>>
    var ctInputs: seq<seq<Entry>>
    var atAux: seq<seq<Entry>>
    var ctAux: seq<seq<Entry>>
    ghost var rows: seq<R1cs>
    ghost var ys: seq<nat>
    ghost var places: seq<nat>

    ghost function State(): Sap
      reads this
    {
      Sap(atInputs, ctInputs, atAux, ctAux, rows, ys, places, numConstraints)
    }

    /** The columns are consistent and every variable is either the circuit's or some constraint's. */
    ghost predicate Valid()
      reads this
    {
      && State().Consistent(p) && p > 1
      && numInputs == |atInputs| && numAux == |atAux|
      && numR1csConstraints == |rows|
      && numAux == numR1csAux + numR1csConstraints
    }

    /** The linear combination mentions only variables that were handed out to the circuit. */
    ghost predicate HandedOut(lc: seq<Term>)
      reads this
    {
      Allocated(lc, numInputs, numAux) && forall k: nat | k < |ys| :: Avoids(lc, ys[k])
    }

    constructor (p: nat)
      requires p > 1
      ensures Valid() && this.p == p && numInputs == 0 && numR1csAux == 0 && numConstraints == 0
      ensures rows == [] && ys == [] && places == []
    {
      this.p := p;
      numInputs, numAux, numConstraints, numR1csAux, numR1csConstraints := 0, 0, 0, 0, 0;
      atInputs, ctInputs, atAux, ctAux := [], [], [], [];
      rows, ys, places := [], [], [];
    }

    /** A new auxiliary variable. */
    method Alloc() returns (v: Variable)
      requires Valid()
      modifies this
      ensures Valid() && rows == old(rows) && ys == old(ys) && places == old(places)
      ensures numConstraints == old(numConstraints)
      ensures numR1csAux == old(numR1csAux) + 1 && numAux == old(numAux) + 1 && numInputs == old(numInputs)
      ensures v == Aux(old(numAux)) && HandedOut([Term(v, 1)])
      ensures Grown(old(State()), State(), false)
    {
      OldRowsAvoid(p, State(), numAux);
      ghost var before := State();
      var index := numAux;
      numAux := numAux + 1;
      numR1csAux := numR1csAux + 1;
      atAux := atAux + [[]];
      ctAux := ctAux + [[]];
      assert atInputs == before.atInputs + [] && ctInputs == before.ctInputs + [];
      GrownConsistent(p, before, State(), false);
      v := Aux(index);
      forall k: nat | k < |ys| ensures Avoids([Term(v, 1)], ys[k]) {
        assert before.RowAvoids(k, index) && before.ys[k] < index;
      }
    }

    /** A new input variable. */
    method AllocInput() returns (v: Variable)
      requires Valid()
      modifies this
      ensures Valid() && rows == old(rows) && ys == old(ys) && places == old(places)
      ensures numConstraints == old(numConstraints)
      ensures numInputs == old(numInputs) + 1 && numAux == old(numAux) && numR1csAux == old(numR1csAux)
      ensures v == Input(old(numInputs)) && HandedOut([Term(v, 1)])
      ensures Grown(old(State()), State(), true)
    {
      ghost var before := State();
      var index := numInputs;
      numInputs := numInputs + 1;
      atInputs := atInputs + [[]];
      ctInputs := ctInputs + [[]];
      assert atAux == before.atAux + [] && ctAux == before.ctAux + [];
      GrownConsistent(p, before, State(), true);
      v := Input(index);
    }

    /** Adds a constraint <a,x> * <b,x> = <c,x> of the circuit, as two rows and a new variable. */
    method Enforce(a: seq<Term>, b: seq<Term>, c: seq<Term>)
      requires Valid() && HandedOut(a) && HandedOut(b) && HandedOut(c)
      modifies this
      ensures Valid() && rows == old(rows) + [R1cs(a, b, c)] && ys == old(ys) + [old(numAux)]
      ensures places == old(places) + [old(numConstraints)]
      ensures numInputs == old(numInputs) && numAux == old(numAux) + 1 && numR1csAux == old(numR1csAux)
      ensures numConstraints == old(numConstraints) + 2 && RowsKept(old(State()), State())
    {
      ghost var before := State();
      OldRowsAvoid(p, before, numAux);
      var y := Alloc();
      ghost var s := State();
      GrownKeeps(before, s, false);
      NowStorable(before, s, a, b, c, y.index);
      numR1csAux := numR1csAux - 1;
      StoreRows(s, a, b, c, y);
      KeptTwice(before, s, State());
    }

    /** Stores the two rows of a constraint, once its new variable is there. */
    method StoreRows(ghost s: Sap, a: seq<Term>, b: seq<Term>, c: seq<Term>, y: Variable)
      requires s == State() && s.Consistent(p) && p > 1 && numInputs == |atInputs| && numAux == |atAux|
      requires numR1csConstraints == |rows| && numAux == numR1csAux + numR1csConstraints + 1
      requires y.Aux? && Storable(s, a, b, c, y.index)
      modifies this
      ensures Valid() && rows == old(rows) + [R1cs(a, b, c)] && ys == old(ys) + [y.index]
      ensures places == old(places) + [old(numConstraints)]
      ensures numInputs == old(numInputs) && numAux == old(numAux) && numR1csAux == old(numR1csAux)
      ensures numConstraints == old(numConstraints) + 2 && RowsKept(s, State())
    {
      var ai, aa, ci, ca;
      ghost var t;
      ai, aa, ci, ca, t := StoreConstraint(p, s, a, b, c, y, atInputs, atAux, ctInputs, ctAux, numConstraints);
      Adopt(ai, aa, ci, ca, t);
    }

    /** Takes over the columns with the two new rows. */
    method Adopt(ai: seq<seq<Entry>>, aa: seq<seq<Entry>>, ci: seq<seq<Entry>>, ca: seq<seq<Entry>>, ghost t: Sap)
      requires t.Consistent(p) && p > 1 && ai == t.atInputs && aa == t.atAux && ci == t.ctInputs && ca == t.ctAux
      requires numInputs == |ai| && numAux == |aa| == numR1csAux + numR1csConstraints + 1
      requires t.total == numConstraints + 2 && |t.rows| == numR1csConstraints + 1
      modifies this
      ensures Valid() && State() == t
      ensures numInputs == old(numInputs) && numAux == old(numAux) && numR1csAux == old(numR1csAux)
    {
      atInputs, atAux, ctInputs, ctAux := ai, aa, ci, ca;
      numConstraints := numConstraints + 2;
      numR1csConstraints := numR1csConstraints + 1;
      rows, ys, places := t.rows, t.ys, t.places;
      assert State() == t;
    }

    /** The row meant to say 1 * 1 = 1, which only reaches the A side. */
    method ConstrainIdentity()
      requires Valid() && numInputs > 0
      modifies this
      ensures Valid() && rows == old(rows) && numInputs == old(numInputs) && numAux == old(numAux)
      ensures numConstraints == old(numConstraints) + 1 && IdentityAdded(old(State()), State())
      ensures ys == old(ys) && places == old(places)
      ensures RowsKept(old(State()), State()) && IsIdentityRow(State(), old(numConstraints))
    {
      ghost var s := State();
      var lcInput0 := [Term(Input(0), 1)];
      StillBelow(s, numConstraints + 1);
      atInputs, atAux := Eval(lcInput0, atInputs, atAux, numConstraints);
      numConstraints := numConstraints + 1;
      StillBelow(s, numConstraints);
      IdentityConsistent(p, s, State());
      IdentityKeeps(p, s, State());
    }

    /** One constraint x_i * x_0 = x_i for each input but the first: two rows and one variable each. */
    method ConstrainInputs()
      requires Valid() && numInputs > 0
      modifies this
      ensures Valid() && numInputs == old(numInputs)
      ensures numConstraints == 2 * (numInputs - 1) + old(numConstraints) && numAux == numInputs - 1 + old(numAux)
      ensures numInputs + numR1csConstraints + numR1csAux == numInputs + numAux
      ensures InputsAdded(old(State()), State(), old(numConstraints), numInputs)
      ensures RowsKept(old(State()), State())
    {
      SameRowsKept(State());
      for i := 1 to numInputs
        invariant Valid() && numInputs == old(numInputs) && numAux == old(numAux) + i - 1
        invariant numConstraints == old(numConstraints) + 2 * (i - 1)
        invariant InputsAdded(old(State()), State(), old(numConstraints), i)
        invariant RowsKept(old(State()), State())
      {
        ghost var before := State();
        Enforce([Term(Input(i), 1)], [Term(Input(0), 1)], [Term(Input(i), 1)]);
        OneMoreInput(old(State()), before, State(), old(numConstraints), i);
        KeptTwice(old(State()), before, State());
      }
    }

    /** What the generator adds after the circuit, with the counts that it asserts: the single row of input 0,
        and the pairs of the constraints x_i * x_0 = x_i. */
    method ConstrainIdentityAndInputs()
      requires Valid() && numInputs > 0
      modifies this
      ensures Valid() && numInputs == old(numInputs)
      ensures numConstraints == 2 * (numInputs - 1) + (old(numConstraints) + 1)
      ensures numAux == numInputs - 1 + old(numAux)
      ensures numInputs + numR1csConstraints + numR1csAux == numInputs + numAux
      ensures InputsAdded(old(State()), State(), old(numConstraints) + 1, numInputs)
      ensures RowsKept(old(State()), State()) && IsIdentityRow(State(), old(numConstraints))
      ensures old(numConstraints == 2 * |rows|) ==> Finished(State(), old(|rows|))
    {
      ghost var before := State();
      ConstrainIdentity();
      ghost var single := State();
      ConstrainInputs();
      KeptTwice(before, single, State());
      IdentityRowKept(single, State(), before.total);
      if before.total == 2 * |before.rows| {
        NowFinished(p, before, State(), numInputs);
      }
    }
  }

  /** Stores the two rows of a constraint. */
  method StorePair(ghost p: nat, ghost s: Sap, difference: seq<Term>, lcY: seq<Term>, sum: seq<Term>,
                   quadrupled: seq<Term>, atInputs: seq<seq<Entry>>, atAux: seq<seq<Entry>>, ctInputs: seq<seq<Entry>>,
                   ctAux: seq<seq<Entry>>, row: nat)
    returns (ai: seq<seq<Entry>>, aa: seq<seq<Entry>>, ci: seq<seq<Entry>>, ca: seq<seq<Entry>>, ghost m: Sap)
    requires s.Consistent(p) && row == s.total
    requires atInputs == s.atInputs && atAux == s.atAux && ctInputs == s.ctInputs && ctAux == s.ctAux
    requires Allocated(difference, |atInputs|, |atAux|) && Allocated(lcY, |atInputs|, |atAux|)
    requires Allocated(sum, |atInputs|, |atAux|) && Allocated(quadrupled, |atInputs|, |atAux|)
    ensures Evaluated(s.atInputs, s.atAux, m.atInputs, m.atAux, difference, row)
    ensures Evaluated(s.ctInputs, s.ctAux, m.ctInputs, m.ctAux, lcY, row)
    ensures Evaluated(m.atInputs, m.atAux, ai, aa, sum, row + 1)
    ensures Evaluated(m.ctInputs, m.ctAux, ci, ca, quadrupled, row + 1)
    ensures RowsBelow(ai, row + 2) && RowsBelow(aa, row + 2) && RowsBelow(ci, row + 2) && RowsBelow(ca, row + 2)
  {
    StillBelow(s, row + 2);
    ai, aa := Eval(difference, atInputs, atAux, row);
    ci, ca := Eval(lcY, ctInputs, ctAux, row);
    m := s.(atInputs := ai, atAux := aa, ctInputs := ci, ctAux := ca);
    ai, aa := Eval(sum, ai, aa, row + 1);
    ci, ca := Eval(quadrupled, ci, ca, row + 1);
  }

  /** The variable `y` is the newest, and neither the stored constraints nor the new one mention
      variables they should not. */
  ghost predicate Storable(s: Sap, a: seq<Term>, b: seq<Term>, c: seq<Term>, y: nat)
    requires s.Shaped()
  {
    && y + 1 == |s.atAux|
    && Allocated(a, |s.atInputs|, y) && Allocated(b, |s.atInputs|, y) && Allocated(c, |s.atInputs|, y)
    && (forall k: nat | k < |s.rows| :: s.RowAvoids(k, y))
    && forall k: nat | k < |s.rows| ::
         s.ys[k] < y && Avoids(a, s.ys[k]) && Avoids(b, s.ys[k]) && Avoids(c, s.ys[k])
  }

  lemma NowStorable(s: Sap, t: Sap, a: seq<Term>, b: seq<Term>, c: seq<Term>, y: nat)
    requires s.Shaped() && y == |s.atAux| && Grown(s, t, false)
    requires Allocated(a, |s.atInputs|, y) && Allocated(b, |s.atInputs|, y) && Allocated(c, |s.atInputs|, y)
    requires forall k: nat | k < |s.rows| :: s.RowAvoids(k, y) && s.ys[k] < y
    requires forall k: nat | k < |s.ys| :: Avoids(a, s.ys[k])
    requires forall k: nat | k < |s.ys| :: Avoids(b, s.ys[k])
    requires forall k: nat | k < |s.ys| :: Avoids(c, s.ys[k])
    ensures t.Shaped() && Storable(t, a, b, c, y)
  {
    forall k: nat | k < |t.rows| ensures t.RowAvoids(k, y) { assert s.RowAvoids(k, y); }
  }

  /** The two rows of one constraint whose new variable is the newest one. */
  method StoreConstraint(p: nat, ghost s: Sap, a: seq<Term>, b: seq<Term>, c: seq<Term>, y: Variable,
                         atInputs: seq<seq<Entry>>, atAux: seq<seq<Entry>>, ctInputs: seq<seq<Entry>>,
                         ctAux: seq<seq<Entry>>, row: nat)
    returns (ai: seq<seq<Entry>>, aa: seq<seq<Entry>>, ci: seq<seq<Entry>>, ca: seq<seq<Entry>>, ghost t: Sap)
    requires s.Consistent(p) && row == s.total
    requires atInputs == s.atInputs && atAux == s.atAux && ctInputs == s.ctInputs && ctAux == s.ctAux
    requires y.Aux? && Storable(s, a, b, c, y.index)
    ensures |ai| == |atInputs| && |aa| == |atAux|
    ensures t == Sap(ai, ci, aa, ca, s.rows + [R1cs(a, b, c)], s.ys + [y.index], s.places + [row], row + 2)
    ensures t.Consistent(p) && RowsKept(s, t)
  {
    var difference, lcY, sum, quadrupled := Reduce(p, a, b, c, y);
    ghost var r1cs := R1cs(a, b, c);
    AllocatedMore(a, |atInputs|, y.index, |atInputs|, |atAux|);
    AllocatedMore(b, |atInputs|, y.index, |atInputs|, |atAux|);
    AllocatedMore(c, |atInputs|, y.index, |atInputs|, |atAux|);
    ReductionAllocated(p, r1cs, y.index, difference, lcY, sum, quadrupled, |atInputs|, |atAux|);
    ghost var m;
    ai, aa, ci, ca, m := StorePair(p, s, difference, lcY, sum, quadrupled, atInputs, atAux, ctInputs, ctAux, row);
    t := Sap(ai, ci, aa, ca, s.rows + [r1cs], s.ys + [y.index], s.places + [row], row + 2);
    EnforcedConsistent(p, s, t, m, r1cs, y.index, difference, lcY, sum, quadrupled);
    EnforcedKeeps(p, s, t, m, r1cs, y.index, difference, lcY, sum, quadrupled);
  }

  lemma {:induction false} StillBelow(s: Sap, rows: nat)
    requires s.Shaped() && RowsBelow(s.atInputs, s.total) && RowsBelow(s.atAux, s.total)
    requires RowsBelow(s.ctInputs, s.total) && RowsBelow(s.ctAux, s.total) && s.total <= rows
    ensures RowsBelow(s.atInputs, rows) && RowsBelow(s.atAux, rows) && RowsBelow(s.ctInputs, rows)
    ensures RowsBelow(s.ctAux, rows)
  {
  }

  /** The linear combinations a - b, y, a + b and 4c + y. */
  method Reduce(p: nat, a: seq<Term>, b: seq<Term>, c: seq<Term>, y: Variable)
    returns (difference: seq<Term>, lcY: seq<Term>, sum: seq<Term>, quadrupled: seq<Term>)
    requires p > 0 && y.Aux?
    ensures Reduction(p, R1cs(a, b, c), y.index, difference, lcY, sum, quadrupled)
  {
    difference := Minus(p, a, b);
    lcY := [Term(y, 1)];
    sum := a + b;
    var scaled := Quadrupled(p, c);
    quadrupled := scaled + [Term(y, 1)];
    assert quadrupled[..|c|] == scaled;
  }

  /** The first linear combination, and the negated terms of the second. */
  method Minus(p: nat, a: seq<Term>, b: seq<Term>) returns (d: seq<Term>)
    requires p > 0
    ensures |d| == |a| + |b| && d[..|a|] == a && ScaledTerms(p, b, -1, d[|a|..])
  {
    d := a;
    for i := 0 to |b|
      invariant |d| == |a| + i && d[..|a|] == a
      invariant forall k | 0 <= k < i ::
        d[|a| + k].variable == b[k].variable && Red(p, d[|a| + k].coeff) == Red(p, -1 * b[k].coeff)
    {
      RedRed(p, -b[i].coeff);
      d := d + [Term(b[i].variable, Red(p, -b[i].coeff))];
    }
  }

  /** Every coefficient doubled twice. */
  method Quadrupled(p: nat, c: seq<Term>) returns (q: seq<Term>)
    requires p > 0
    ensures ScaledTerms(p, c, 4, q)
  {
    q := [];
    for i := 0 to |c|
      invariant |q| == i
      invariant forall k | 0 <= k < i :: q[k].variable == c[k].variable && Red(p, q[k].coeff) == Red(p, 4 * c[k].coeff)
    {
      var tmp := Red(p, 2 * c[i].coeff);
      RedRed(p, 2 * c[i].coeff);
      RedMul(p, 2, 2, tmp, 2 * c[i].coeff);
      RedRed(p, 2 * tmp);
      q := q + [Term(c[i].variable, Red(p, 2 * tmp))];
    }
  }
}
