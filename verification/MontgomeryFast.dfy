/** The interleaved (CIOS) product and the squaring of crates/ff_derive/src/lib.rs: both give the
    same element as the schoolbook product followed by a reduction. */
module MontgomeryFast {
  import opened Outcomes
  import opened Modular
  import opened Limbs
  import opened FieldInverse
  import opened Montgomery

  // ---- One element for every product ----

  lemma {:induction false} CancelPow2(m: nat, x: int, y: int, k: nat)
    requires m % 2 == 1 && Red(m, Pow2(k) * x) == Red(m, Pow2(k) * y)
    ensures Red(m, x) == Red(m, y)
  {
    if k > 0 {
      TwicePower(k, x);
      TwicePower(k, y);
      CancelTwo(m, Pow2(k - 1) * x, Pow2(k - 1) * y);
      CancelPow2(m, x, y, k - 1);
    }
  }

  lemma {:induction false} TwicePower(k: nat, x: int)
    requires k > 0
    ensures Pow2(k) * x == 2 * (Pow2(k - 1) * x)
  {
  }

  lemma {:induction false} CancelShift(m: nat, n: nat, x: int, y: int)
    requires m % 2 == 1 && Red(m, Shift(n, x)) == Red(m, Shift(n, y))
    ensures Red(m, x) == Red(m, y)
  {
    if n > 0 {
      WordIsPower();
      CancelPow2(m, Shift(n - 1, x), Shift(n - 1, y), 64);
      CancelShift(m, n - 1, x, y);
    }
  }

  lemma {:induction false} ModulusIsOdd(modulus: seq<nat>)
    requires Modulus(modulus)
    ensures Value(modulus) % 2 == 1
  {
    HalfIsHalf(modulus);
  }

  /** There is one reduced element for each product. */
  lemma {:induction false} ReductionUnique(f: Field, t: int, x: nat, y: nat)
    requires f.Valid() && IsReduction(f, t, x) && IsReduction(f, t, y)
    ensures x == y
  {
    ModulusIsOdd(f.modulus);
    CancelShift(Value(f.modulus), |f.modulus|, x, y);
  }

  /** Multiplying Montgomery forms multiplies the elements they stand for. */
  lemma {:induction false} FormsMultiply(f: Field, x: int, y: int)
    requires f.Valid()
    ensures var m, n := Value(f.modulus), |f.modulus|;
            IsReduction(f, Red(m, Shift(n, x)) * Red(m, Shift(n, y)), Red(m, Shift(n, x * y)))
  {
    var m, n := Value(f.modulus), |f.modulus|;
    var u, v := Shift(n, x), Shift(n, y);
    RedRed(m, u);
    RedRed(m, v);
    RedMul(m, Red(m, u), u, Red(m, v), v);
    ShiftScale(n, x, v);
    ShiftScale(n, y, x);
    Commute(x, v);
    Commute(x, y);
    RedRed(m, Shift(n, x * y));
    ShiftOfRed(m, n, Shift(n, x * y));
    assert u * v == Shift(n, Shift(n, x * y));
  }

  lemma {:induction false} ShiftOfRed(m: nat, n: nat, x: int)
    requires m > 0
    ensures Red(m, Shift(n, Red(m, x))) == Red(m, Shift(n, x))
  {
    RedRed(m, x);
    ShiftIsProduct(n, Red(m, x));
    ShiftIsProduct(n, x);
    RedMul(m, Weight(n), Weight(n), Red(m, x), x);
  }

  /** An inverse as computed from R2 times the element is the form of one. */
  lemma {:induction false} InverseTimesSelf(f: Field, x: nat, y: nat, r2: nat)
    requires f.Valid() && Red(Value(f.modulus), y * x) == Red(Value(f.modulus), r2)
    requires Red(Value(f.modulus), r2) == Red(Value(f.modulus), Shift(|f.modulus|, Weight(|f.modulus|)))
    ensures IsReduction(f, y * x, Red(Value(f.modulus), Weight(|f.modulus|)))
  {
    ShiftOfRed(Value(f.modulus), |f.modulus|, Weight(|f.modulus|));
  }

  // ---- The interleaved product ----

  /** One row: adds k * b, then the multiple of the modulus that clears the lowest limb, and drops it. */
  ghost function CiosRow(f: Field, t: seq<nat>, k: nat, b: seq<nat>): (r: seq<nat>)
    requires f.Valid() && |t| == |b| == |f.modulus|
    ensures |r| == |t|
  {
    var p := MacLimbs(t, k, b, 0);
    var q := MacLimbs(p.0, RowFactor(f, p.0[0]), f.modulus, 0);
    q.0[1..] + [p.1 + q.1]
  }

  lemma {:induction false} CiosRowValue(f: Field, t: seq<nat>, k: nat, b: seq<nat>)
    requires f.Valid() && |t| == |b| == |f.modulus|
    ensures var m := RowFactor(f, MacLimbs(t, k, b, 0).0[0]);
            WORD * Value(CiosRow(f, t, k, b)) == Value(t) + k * Value(b) + m * Value(f.modulus)
  {
    var n := |t|;
    var p := MacLimbs(t, k, b, 0);
    var m := RowFactor(f, p.0[0]);
    var q := MacLimbs(p.0, m, f.modulus, 0);
    MacIsSum(t, k, b, 0);
    MacIsSum(p.0, m, f.modulus, 0);
    LowLimbVanishes(f, p.0[0]);
    LowLimb0(q.0);
    TailValue(q.0[1..], p.1 + q.1, [], CiosRow(f, t, k, b));
    ShiftAdd(n, p.1, q.1);
    ShiftWord(n - 1, p.1 + q.1);
  }

  lemma {:induction false} LowLimb0(s: seq<nat>)
    requires |s| > 0 && s[0] == 0
    ensures Value(s) == WORD * Value(s[1..])
  {
  }

  /** After `i` rows: 2^(64 i) times the running value is a[..i] * b plus a multiple of m. */
  ghost predicate Running(f: Field, a: nat, b: nat, x: nat, i: nat, q: nat)
    requires f.Valid()
  {
    Shift(i, x) == a * b + q * Value(f.modulus) && a < Weight(i) && q < Weight(i)
  }

  lemma {:induction false} RunningNext(f: Field, a: nat, b: nat, x: nat, x': nat, i: nat, q: nat, k: nat, m: nat)
    requires f.Valid() && Running(f, a, b, x, i, q) && k < WORD && m < WORD
    requires WORD * x' == x + k * b + m * Value(f.modulus)
    ensures Shift(i, k) >= 0 && Shift(i, m) >= 0
    ensures Running(f, a + Shift(i, k), b, x', i + 1, q + Shift(i, m))
  {
    var modulus := Value(f.modulus);
    ShiftWord(i, x');
    ShiftAdd(i, x + k * b, m * modulus);
    ShiftAdd(i, x, k * b);
    ShiftScale(i, k, b);
    ShiftScale(i, m, modulus);
    FactorBound(i, k);
    FactorBound(i, m);
    DistributeSum(a, Shift(i, k), b);
    DistributeSum(q, Shift(i, m), modulus);
  }

  /** The running value stays below twice the modulus. */
  lemma {:induction false} RunningBound(f: Field, a: nat, b: nat, x: nat, i: nat, q: nat)
    requires f.Valid() && Running(f, a, b, x, i, q) && b < Value(f.modulus)
    ensures x < 2 * Value(f.modulus)
  {
    var m := Value(f.modulus);
    ShiftIsProduct(i, b);
    ShiftIsProduct(i, m);
    SmallFactor(a, Weight(i), b);
    SmallFactor(q, Weight(i), m);
    ShiftAdd(i, b, m);
    if x > b + m { ShiftMonotone(i, b + m, x); }
  }

  /** So the sum of the two carries, stored as the highest limb, is a limb. */
  lemma {:induction false} TopLimbFits(s: seq<nat>, n: nat)
    requires |s| == n > 0 && Value(s) < Weight(n)
    ensures s[n - 1] < WORD
  {
    TailValue(s[..n - 1], s[n - 1], [], s);
    if s[n - 1] >= WORD {
      ShiftAdd(n - 1, WORD, s[n - 1] - WORD);
      ShiftBound(n - 1, s[n - 1] - WORD);
      ShiftWord(n - 1, 1);
      ShiftBound(n, 1);
    }
  }

  lemma {:induction false} CiosWords(f: Field, t: seq<nat>, k: nat, b: seq<nat>)
    requires f.Valid() && |t| == |b| == |f.modulus| && Value(CiosRow(f, t, k, b)) < Weight(|t|)
    ensures Words(CiosRow(f, t, k, b))
  {
    var p := MacLimbs(t, k, b, 0);
    MacIsSum(p.0, RowFactor(f, p.0[0]), f.modulus, 0);
    TopLimbFits(CiosRow(f, t, k, b), |t|);
  }

  /** What the interleaved loop still has to do from limb `j` on. */
  ghost predicate CiosLeft(t0: seq<nat>, now: seq<nat>, k: nat, b: seq<nat>, m: nat, modulus: seq<nat>, j: nat,
                           carry: nat, redCarry: nat, p: (seq<nat>, nat), q: (seq<nat>, nat))
    requires |t0| == |now| == |b| == |modulus| && 0 < j <= |t0|
  {
    var rest := MacLimbs(t0[j..], k, b[j..], carry);
    var red := MacLimbs(rest.0, m, modulus[j..], redCarry);
    && now[j..] == t0[j..] && rest.1 == p.1 && red.1 == q.1
    && |q.0| == |t0| && now[..j - 1] + red.0 == q.0[1..]
  }

  method CiosArrayRow(f: Field, t: array<nat>, k: nat, b: seq<nat>)
    requires f.Valid() && t.Length == |b| == |f.modulus|
    modifies t
    ensures t[..] == CiosRow(f, old(t[..]), k, b)
  {
    var n := |b|;
    ghost var t0 := t[..];
    ghost var p := MacLimbs(t0, k, b, 0);
    var first := MacWithCarry(t[0], k, b[0], 0);
    var carry := first.1;
    var m := RowFactor(f, first.0);
    ghost var q := MacLimbs(p.0, m, f.modulus, 0);
    var redCarry := MacWithCarry(first.0, m, f.modulus[0], 0).1;
    assert p.0[1..] == MacLimbs(t0[1..], k, b[1..], carry).0;
    assert q.0[1..] == MacLimbs(p.0[1..], m, f.modulus[1..], redCarry).0;
    for j := 1 to n
      invariant CiosLeft(t0, t[..], k, b, m, f.modulus, j, carry, redCarry, p, q)
    {
      ghost var was := t[..];
      assert t[j] == was[j..][0] == t0[j];
      var mac := MacWithCarry(t[j], k, b[j], carry);
      var red := MacWithCarry(mac.0, m, f.modulus[j], redCarry);
      t[j - 1] := red.0;
      CiosStep(t0, was, t[..], k, b, m, f.modulus, j, carry, redCarry, p, q);
      carry, redCarry := mac.1, red.1;
    }
    t[n - 1] := redCarry + carry;
    assert t[..] == t[..n - 1] + [p.1 + q.1];
  }

  lemma {:induction false} CiosStep(t0: seq<nat>, was: seq<nat>, now: seq<nat>, k: nat, b: seq<nat>, m: nat,
                                    modulus: seq<nat>, j: nat, carry: nat, redCarry: nat, p: (seq<nat>, nat),
                                    q: (seq<nat>, nat))
    requires |t0| == |was| == |now| == |b| == |modulus| && 0 < j < |t0|
    requires CiosLeft(t0, was, k, b, m, modulus, j, carry, redCarry, p, q)
    requires var red := MacWithCarry(MacWithCarry(t0[j], k, b[j], carry).0, m, modulus[j], redCarry);
             now == was[j - 1 := red.0]
    ensures var mac := MacWithCarry(t0[j], k, b[j], carry);
            var red := MacWithCarry(mac.0, m, modulus[j], redCarry);
            CiosLeft(t0, now, k, b, m, modulus, j + 1, mac.1, red.1, p, q)
  {
    var mac := MacWithCarry(t0[j], k, b[j], carry);
    var red := MacWithCarry(mac.0, m, modulus[j], redCarry);
    assert t0[j..][1..] == t0[j + 1..] && b[j..][1..] == b[j + 1..] && modulus[j..][1..] == modulus[j + 1..];
    var rest := MacLimbs(t0[j..], k, b[j..], carry);
    var tail := MacLimbs(t0[j + 1..], k, b[j + 1..], mac.1);
    assert rest.0 == [mac.0] + tail.0 && rest.0[1..] == tail.0;
    assert MacLimbs(rest.0, m, modulus[j..], redCarry).0 == [red.0] + MacLimbs(tail.0, m, modulus[j + 1..], red.1).0;
    assert now[..j] == was[..j - 1] + [red.0] && now[j + 1..] == was[j..][1..];
  }

  /** One round of the interleaved product: row `i`, for the limb `a[i]`. */
  method CiosRound(f: Field, c: array<nat>, a: seq<nat>, b: seq<nat>, i: nat, ghost q: nat) returns (ghost next: nat)
    requires f.Valid() && Limbed(c, |f.modulus|) && |a| == |b| == |f.modulus| && i < |a|
    requires Words(a) && Words(b) && Value(a) < Value(f.modulus) && Value(b) < Value(f.modulus)
    requires Running(f, Value(a[..i]), Value(b), Value(c[..]), i, q)
    modifies c
    ensures Limbed(c, |f.modulus|) && Running(f, Value(a[..i + 1]), Value(b), Value(c[..]), i + 1, next)
  {
    ghost var t := c[..];
    CiosRowValue(f, t, a[i], b);
    ghost var m := RowFactor(f, MacLimbs(t, a[i], b, 0).0[0]);
    CiosArrayRow(f, c, a[i], b);
    RunningNext(f, Value(a[..i]), Value(b), Value(t), Value(c[..]), i, q, a[i], m);
    TailValue(a[..i], a[i], [], a[..i + 1]);
    next := q + Shift(i, m);
    RunningBound(f, Value(a[..i + 1]), Value(b), Value(c[..]), i + 1, next);
    CiosWords(f, t, a[i], b);
  }

  method CiosMulAssign(f: Field, a: array<nat>, b: array<nat>) returns (c: array<nat>)
    requires f.Valid() && Element(f, a) && Element(f, b)
    ensures fresh(c) && Element(f, c) && IsReduction(f, Value(a[..]) * Value(b[..]), Value(c[..]))
  {
    var n := |f.modulus|;
    c := new nat[n](_ => 0);
    assert c[..] == seq(n, _ => 0) && a[..][..0] == [];
    ZerosValue(n);
    ghost var q: nat := 0;
    for i := 0 to n
      invariant fresh(c) && Limbed(c, n)
      invariant Running(f, Value(a[..][..i]), Value(b[..]), Value(c[..]), i, q)
    {
      q := CiosRound(f, c, a[..], b[..], i, q);
    }
    assert a[..][..n] == a[..];
    RunningBound(f, Value(a[..]), Value(b[..]), Value(c[..]), n, q);
    ghost var x := Value(c[..]);
    RedShift(Value(f.modulus), Value(a[..]) * Value(b[..]), Shift(n, x), q);
    Reduce(f, c);
    SubtractModulus(f, Value(a[..]) * Value(b[..]), x, Value(c[..]));
  }

  /** Both multiplications give the same limbs. */
  method MultiplicationsAgree(f: Field, a: array<nat>, b: array<nat>) returns (c: array<nat>, d: array<nat>)
    requires f.Valid() && Element(f, a) && Element(f, b)
    ensures c[..] == d[..] && IsReduction(f, Value(a[..]) * Value(b[..]), Value(c[..]))
  {
    c := MulAssign(f, a, b);
    d := CiosMulAssign(f, a, b);
    ReductionUnique(f, Value(a[..]) * Value(b[..]), Value(c[..]), Value(d[..]));
    ValueInjective(c[..], d[..]);
  }

  // ---- The elements that Montgomery forms stand for ----

  /** The limbs hold x * R modulo the modulus. */
  ghost predicate FormOf(f: Field, a: array<nat>, x: int)
    requires f.Valid()
    reads a
  {
    Element(f, a) && Value(a[..]) == Red(Value(f.modulus), Shift(|f.modulus|, x))
  }

  /** Multiplying the forms of two elements gives the form of their product. */
  method MultiplyElements(f: Field, a: array<nat>, b: array<nat>, ghost x: int, ghost y: int) returns (c: array<nat>)
    requires f.Valid() && FormOf(f, a, x) && FormOf(f, b, y)
    ensures fresh(c) && FormOf(f, c, x * y)
  {
    c := CiosMulAssign(f, a, b);
    FormsMultiply(f, x, y);
    ReductionUnique(f, Value(a[..]) * Value(b[..]), Value(c[..]), Red(Value(f.modulus), Shift(|f.modulus|, x * y)));
  }

  /** Only zero has no inverse, and the form of an element times its inverse is the form of one. */
  method InverseTimesElement(f: Field, a: array<nat>, r2: seq<nat>, ghost x: int) returns (one: Option<array<nat>>)
    requires f.Valid() && Prime(Value(f.modulus)) && FormOf(f, a, x)
    requires |r2| == |f.modulus| && Words(r2)
    requires Value(r2) == Red(Value(f.modulus), Shift(|f.modulus|, Weight(|f.modulus|)))
    ensures one.None? <==> Red(Value(f.modulus), x) == 0
    ensures one.Some? ==> FormOf(f, one.value, 1)
  {
    ghost var m, n := Value(f.modulus), |f.modulus|;
    ModulusIsOdd(f.modulus);
    ShiftBound(n, 0);
    if Red(m, x) == 0 {
      ShiftOfRed(m, n, x);
    } else if Red(m, Shift(n, x)) == 0 {
      CancelShift(m, n, x, 0);
    }
    var inverse := Inverse(a[..], f.modulus, r2);
    if inverse.None? {
      return None;
    }
    var b := ToArray(inverse.value);
    var c := CiosMulAssign(f, b, a);
    RedRed(m, Shift(n, Weight(n)));
    InverseTimesSelf(f, Value(a[..]), Value(b[..]), Value(r2));
    ReductionUnique(f, Value(b[..]) * Value(a[..]), Value(c[..]), Red(m, Weight(n)));
    ShiftBound(n, 1);
    one := Some(c);
  }
}
