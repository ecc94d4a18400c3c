/** The generated squaring of crates/ff_derive/src/lib.rs: the products of different limbs once,
    doubled by a shift, and the squares of the limbs added on the diagonal. */
module MontgomerySquare {
  import opened Limbs
  import opened FieldInverse
  import opened Montgomery
  import opened MontgomeryFast

  // ---- Products of different limbs ----

  /** The rows of products added before row `i`. */
  ghost function CrossRows(a: seq<nat>, i: nat): nat
    requires i <= |a|
  {
    if i == 0 then 0 else
      ShiftBound(2 * i - 1, a[i - 1] * Value(a[i..]));
      CrossRows(a, i - 1) + Shift(2 * i - 1, a[i - 1] * Value(a[i..]))
  }

  /** The sum of all products of different limbs at their places. */
  ghost function Cross(a: seq<nat>): nat {
    if |a| == 0 then 0 else
      assert a[0] * Value(a[1..]) >= 0;
      WORD * (a[0] * Value(a[1..])) + WORD * (WORD * Cross(a[1..]))
  }

  ghost function Squares(a: seq<nat>): nat {
    if |a| == 0 then 0 else
      assert a[0] * a[0] >= 0;
      a[0] * a[0] + WORD * (WORD * Squares(a[1..]))
  }

  lemma {:induction false} SquareExpands(x: nat, y: nat, z: nat, c: nat, s: nat)
    requires y * y == 2 * c + s && z == x + WORD * y
    ensures z * z == 2 * (WORD * (x * y) + WORD * (WORD * c)) + (x * x + WORD * (WORD * s))
  {
    assert z * z == x * x + 2 * (x * (WORD * y)) + (WORD * y) * (WORD * y);
    assert (WORD * y) * (WORD * y) == WORD * (WORD * (y * y));
    assert x * (WORD * y) == WORD * (x * y);
  }

  lemma {:induction false} SquareIsCross(a: seq<nat>)
    ensures Value(a) * Value(a) == 2 * Cross(a) + Squares(a)
  {
    if |a| > 0 {
      SquareIsCross(a[1..]);
      SquareExpands(a[0], Value(a[1..]), Value(a), Cross(a[1..]), Squares(a[1..]));
    }
  }

  lemma {:induction false} NextCrossRow(a: seq<nat>, i: nat)
    requires i < |a|
    ensures CrossRows(a, i + 1) == CrossRows(a, i) + Shift(2 * i + 1, a[i] * Value(a[i + 1..]))
  {
    ShiftBound(2 * i + 1, a[i] * Value(a[i + 1..]));
  }

  lemma {:induction false} CrossRowsTail(a: seq<nat>, i: nat)
    requires 0 < i <= |a|
    ensures CrossRows(a, i) == WORD * (a[0] * Value(a[1..])) + WORD * (WORD * CrossRows(a[1..], i - 1))
  {
    NextCrossRow(a, i - 1);
    if i > 1 {
      CrossRowsTail(a, i - 1);
      NextCrossRow(a[1..], i - 2);
      assert a[1..][i - 2] == a[i - 1] && a[1..][i - 1..] == a[i..];
      var x := a[i - 1] * Value(a[i..]);
      ShiftWord(2 * i - 2, x);
      ShiftWord(2 * i - 3, x);
    } else {
      assert a[1..][0..] == a[1..];
    }
  }

  lemma {:induction false} AllRows(a: seq<nat>)
    ensures CrossRows(a, |a|) == Cross(a)
  {
    if |a| > 0 {
      CrossRowsTail(a, |a|);
      AllRows(a[1..]);
    }
  }

  /** The last row has no limbs to its right. */
  lemma {:induction false} LastRow(a: seq<nat>)
    requires |a| > 0
    ensures CrossRows(a, |a|) == CrossRows(a, |a| - 1)
  {
    var i := |a|;
    assert a[i..] == [] && Value(a[i..]) == 0;
    assert a[i - 1] * Value(a[i..]) == 0;
    ShiftBound(2 * i - 1, 0);
  }

  lemma {:induction false} RowsDone(a: seq<nat>, r: seq<nat>)
    requires |a| > 0 && |r| == 2 * |a|
    requires Value(r[..|a| - 1 + |a|]) == CrossRows(a, |a| - 1)
    requires r[|a| - 1 + |a|..] == [0]
    ensures Value(r[..2 * |a| - 1]) == Cross(a) && r[2 * |a| - 1] == 0
  {
    var k := 2 * |a| - 1;
    assert |a| - 1 + |a| == k && r[k] == r[k..][0];
    LastRow(a);
    AllRows(a);
  }

  /** Adds the products of different limbs. */
  method CrossProducts(a: seq<nat>) returns (r: array<nat>)
    requires Words(a) && |a| > 0
    ensures fresh(r) && r.Length == 2 * |a| && Words(r[..]) && r[0] == 0
    ensures Value(r[..2 * |a| - 1]) == Cross(a) && r[2 * |a| - 1] == 0
  {
    var n := |a|;
    r := new nat[2 * n](_ => 0);
    ZerosValue(n);
    assert r[..0 + n] == seq(n, _ => 0);
    for i := 0 to n - 1
      invariant Words(r[..]) && r[0] == 0 && Value(r[..i + n]) == CrossRows(a, i)
      invariant forall k | i + n <= k < 2 * n :: r[k] == 0
    {
      ghost var was := r[i + 1 + n..];
      CrossRow(r, a, i);
      forall k | i + 1 + n <= k < 2 * n ensures r[k] == 0 {
        assert r[k] == r[i + 1 + n..][k - (i + 1 + n)] == was[k - (i + 1 + n)];
      }
    }
    RowsDone(a, r[..]);
  }

  lemma {:induction false} CrossRowAdded(a: seq<nat>, i: nat, before: seq<nat>, all: seq<nat>)
    requires i + 1 < |a| && |before| == i + |a| && Value(before) == CrossRows(a, i)
    requires
      var mid := MacLimbs(before[2 * i + 1..], a[i], a[i + 1..], 0);
      all == before[..2 * i + 1] + mid.0 + [mid.1]
    ensures Value(all) == CrossRows(a, i + 1) && all[0] == before[0]
  {
    var pre, slice, x := before[..2 * i + 1], before[2 * i + 1..], a[i] * Value(a[i + 1..]);
    ConcatValue(pre, slice, before);
    NextCrossRow(a, i);
    ShiftAdd(2 * i + 1, Value(slice), x);
    RowValue(pre, slice, a[i], a[i + 1..], all);
    assert all[0] == pre[0];
  }

  method CrossRow(r: array<nat>, a: seq<nat>, i: nat)
    requires Words(a) && i + 1 < |a| && r.Length == 2 * |a| && Words(r[..]) && r[0] == 0
    requires Value(r[..i + |a|]) == CrossRows(a, i)
    modifies r
    ensures Words(r[..]) && r[0] == 0 && Value(r[..i + 1 + |a|]) == CrossRows(a, i + 1)
    ensures r[i + 1 + |a|..] == old(r[i + 1 + |a|..])
  {
    ghost var before := r[..i + |a|];
    assert before[..2 * i + 1] == r[..2 * i + 1] && before[2 * i + 1..] == r[2 * i + 1..i + |a|];
    StoreRow(r, 2 * i + 1, a[i], a[i + 1..]);
    CrossRowAdded(a, i, before, r[..i + 1 + |a|]);
  }

  // ---- Doubling ----

  /** The limbs of the double, with `bit` shifted in from below. */
  ghost function DoubleLimbs(s: seq<nat>, bit: nat): (r: seq<nat>)
    ensures |r| == |s|
  {
    if |s| == 0 then [] else [(2 * s[0]) % WORD + bit] + DoubleLimbs(s[1..], s[0] / HALF_WORD)
  }

  lemma {:induction false} DoubleStep(x: nat, bit: nat)
    requires x < WORD && bit <= 1
    ensures (2 * x) % WORD + bit < WORD && x / HALF_WORD <= 1
    ensures (2 * x) % WORD + WORD * (x / HALF_WORD) == 2 * x
  {
  }

  lemma {:induction false} DoubleIsTwice(s: seq<nat>, bit: nat)
    requires Words(s) && bit <= 1 && |s| > 0 && s[|s| - 1] < HALF_WORD
    ensures Words(DoubleLimbs(s, bit)) && Value(DoubleLimbs(s, bit)) == 2 * Value(s) + bit
  {
    DoubleStep(s[0], bit);
    if |s| > 1 {
      DoubleIsTwice(s[1..], s[0] / HALF_WORD);
      assert DoubleLimbs(s, bit)[1..] == DoubleLimbs(s[1..], s[0] / HALF_WORD);
    } else {
      assert s[1..] == [] && DoubleLimbs(s, bit)[1..] == [];
    }
  }

  lemma {:induction false} DoubleAt(s: seq<nat>, bit: nat, j: nat)
    requires j < |s|
    ensures DoubleLimbs(s, bit)[j] == (2 * s[j]) % WORD + (if j == 0 then bit else s[j - 1] / HALF_WORD)
  {
    if j > 0 {
      DoubleAt(s[1..], s[0] / HALF_WORD, j - 1);
    }
  }

  /** Shifts all limbs left by one bit, from the highest down to the second; the lowest is zero. */
  method Double(r: array<nat>)
    requires r.Length >= 4 && Words(r[..]) && r[0] == 0 && r[r.Length - 1] == 0
    modifies r
    ensures r[..] == DoubleLimbs(old(r[..]), 0)
  {
    ghost var s := r[..];
    var l := r.Length;
    for i := 1 to l
      invariant forall j | 0 <= j <= l - i :: r[j] == s[j]
      invariant forall j: nat | l - i < j < l :: r[j] == DoubleLimbs(s, 0)[j]
    {
      var temp0, temp1 := l - i, l - i - 1;
      DoubleAt(s, 0, temp0);
      if i == 1 {
        r[temp0] := r[temp1] / HALF_WORD;
      } else if i == l - 1 {
        r[temp0] := (2 * r[temp0]) % WORD;
      } else {
        r[temp0] := (2 * r[temp0]) % WORD + r[temp1] / HALF_WORD;
      }
    }
    DoubleAt(s, 0, 0);
  }

  // ---- The diagonal ----

  ghost function DiagonalLimbs(s: seq<nat>, a: seq<nat>, carry: nat): (r: (seq<nat>, nat))
    requires |s| == 2 * |a|
    ensures |r.0| == |s|
  {
    if |a| == 0 then ([], carry) else
      var low := MacWithCarry(s[0], a[0], a[0], carry);
      var high := Adc(s[1], 0, low.1);
      var rest := DiagonalLimbs(s[2..], a[1..], high.1);
      ([low.0, high.0] + rest.0, rest.1)
  }

  lemma {:induction false} DiagonalIsSum(s: seq<nat>, a: seq<nat>, carry: nat)
    requires |s| == 2 * |a|
    ensures var r := DiagonalLimbs(s, a, carry);
            Value(r.0) + Shift(|s|, r.1) == Value(s) + Squares(a) + carry && Words(r.0)
  {
    if |a| > 0 {
      var low := MacWithCarry(s[0], a[0], a[0], carry);
      var high := Adc(s[1], 0, low.1);
      DiagonalIsSum(s[2..], a[1..], high.1);
      var rest := DiagonalLimbs(s[2..], a[1..], high.1);
      TwoLimbs(s[0], s[1], s[2..], s);
      TwoLimbs(low.0, high.0, rest.0, [low.0, high.0] + rest.0);
      assert Shift(|s|, rest.1) == WORD * Shift(|s| - 1, rest.1) == WORD * (WORD * Shift(|s| - 2, rest.1));
    }
  }

  lemma {:induction false} TwoLimbs(x: nat, y: nat, rest: seq<nat>, all: seq<nat>)
    requires all == [x, y] + rest
    ensures Value(all) == x + WORD * (y + WORD * Value(rest))
  {
    assert all[1..] == [y] + rest && all[1..][1..] == rest;
  }

  /** What the diagonal has still to do: the limbs `left` are left after `done`, with the limbs
      `factors` still to be squared, and the finished limbs will be `all`. */
  ghost predicate DiagonalLeft(
    now: seq<nat>, done: seq<nat>, left: seq<nat>, factors: seq<nat>, carry: nat, all: seq<nat>
  ) {
    && |left| == 2 * |factors|
    && now == done + left
    && done + DiagonalLimbs(left, factors, carry).0 == all
  }

  lemma {:induction false} DiagonalLeftNext(
    now: seq<nat>, done: seq<nat>, left: seq<nat>, factors: seq<nat>, carry: nat, all: seq<nat>
  )
    requires |factors| > 0 && DiagonalLeft(now, done, left, factors, carry, all)
    ensures |done| + 1 < |now| && now[|done|] == left[0] && now[|done| + 1] == left[1]
    ensures var low := MacWithCarry(left[0], factors[0], factors[0], carry);
            var high := Adc(left[1], 0, low.1);
            var next := now[|done| := low.0][|done| + 1 := high.0];
            DiagonalLeft(next, done + [low.0, high.0], left[2..], factors[1..], high.1, all)
  {
    var low := MacWithCarry(left[0], factors[0], factors[0], carry);
    var high := Adc(left[1], 0, low.1);
    var limbs := DiagonalLimbs(left[2..], factors[1..], high.1).0;
    assert (done + [low.0, high.0]) + limbs == done + ([low.0, high.0] + limbs);
    assert now[|done| := low.0][|done| + 1 := high.0] == (done + [low.0, high.0]) + left[2..];
  }

  method AddDiagonal(r: array<nat>, a: seq<nat>)
    requires r.Length == 2 * |a|
    modifies r
    ensures r[..] == DiagonalLimbs(old(r[..]), a, 0).0
  {
    var carry := 0;
    ghost var all := DiagonalLimbs(r[..], a, 0).0;
    ghost var done, left, factors := [], r[..], a;
    for i := 0 to |a|
      invariant |done| == 2 * i && factors == a[i..]
      invariant DiagonalLeft(r[..], done, left, factors, carry, all)
    {
      NextSuffix(a, i);
      DiagonalLeftNext(r[..], done, left, factors, carry, all);
      var low := MacWithCarry(r[2 * i], a[i], a[i], carry);
      var high := Adc(r[2 * i + 1], 0, low.1);
      r[2 * i] := low.0;
      r[2 * i + 1] := high.0;
      carry := high.1;
      done, left, factors := done + [low.0, high.0], left[2..], factors[1..];
    }
  }

  // ---- The square ----

  lemma {:induction false} SquareFits(a: seq<nat>, x: nat, carry: nat)
    requires Words(a) && x + Shift(2 * |a|, carry) == Value(a) * Value(a)
    ensures carry == 0 && x == Value(a) * Value(a)
  {
    var w := Weight(|a|);
    ValueBound(a);
    ShiftShift(|a|, |a|, 1);
    ShiftBound(|a|, 1);
    ShiftBound(2 * |a|, 1);
    ShiftIsProduct(|a|, w);
    ProductBound(Value(a), Value(a), w - 1);
    assert (w - 1) * (w - 1) < w * w;
    ShiftBound(2 * |a|, carry);
  }

  method SqrLimbs(a: seq<nat>) returns (r: array<nat>)
    requires Words(a) && |a| > 0
    ensures fresh(r) && r.Length == 2 * |a| && Words(r[..]) && Value(r[..]) == Value(a) * Value(a)
  {
    r := DoubledCross(a);
    ghost var d := r[..];
    DiagonalIsSum(d, a, 0);
    SquareIsCross(a);
    SquareFits(a, Value(DiagonalLimbs(d, a, 0).0), DiagonalLimbs(d, a, 0).1);
    AddDiagonal(r, a);
  }

  method DoubledCross(a: seq<nat>) returns (r: array<nat>)
    requires Words(a) && |a| > 0
    ensures fresh(r) && r.Length == 2 * |a| && Value(r[..]) == 2 * Cross(a)
  {
    r := CrossProducts(a);
    var n := |a|;
    ghost var s := r[..];
    TailValue(s[..2 * n - 1], 0, [], s);
    ShiftBound(2 * n - 1, 0);
    if n != 1 {
      DoubleIsTwice(s, 0);
      Double(r);
    } else {
      ZeroPair(s);
    }
  }

  lemma {:induction false} ZeroPair(s: seq<nat>)
    requires s == [0, 0]
    ensures Value(s) == 0
  {
    TwoLimbs(0, 0, [], s);
  }

  /** Squaring gives the limbs of multiplying by itself, in either form. */
  method Square(f: Field, a: array<nat>) returns (c: array<nat>)
    requires f.Valid() && Element(f, a)
    ensures fresh(c) && Element(f, c) && IsReduction(f, Value(a[..]) * Value(a[..]), Value(c[..]))
  {
    ProductFits(f, Value(a[..]), Value(a[..]));
    var r := SqrLimbs(a[..]);
    c := MontReduce(f, r);
  }

  method SquareAgrees(f: Field, a: array<nat>) returns (c: array<nat>, d: array<nat>)
    requires f.Valid() && Element(f, a)
    ensures c[..] == d[..] && IsReduction(f, Value(a[..]) * Value(a[..]), Value(d[..]))
  {
    c := Square(f, a);
    d := MulAssign(f, a, a);
    ReductionUnique(f, Value(a[..]) * Value(a[..]), Value(c[..]), Value(d[..]));
    ValueInjective(c[..], d[..]);
  }
}
