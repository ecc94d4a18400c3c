/** Fixed-size unsigned integers kept as 64-bit limbs, lowest limb first, and the primitives of
    crates/ff/src/lib.rs.  The loops over limbs are proved against functions on sequences, and
    those against the integers the limbs stand for. */
module Limbs {

  const WORD: nat := 0x1_0000_0000_0000_0000
  const HALF_WORD: nat := 0x8000_0000_0000_0000

  ghost predicate Words(s: seq<nat>) {
    forall i | 0 <= i < |s| :: s[i] < WORD
  }

  /** The integer that the limbs stand for. */
  function Value(s: seq<nat>): nat {
    if |s| == 0 then 0 else s[0] + WORD * Value(s[1..])
  }

  /** One more than the largest integer of `n` limbs. */
  ghost function Weight(n: nat): (w: nat)
    ensures w > 0
  {
    if n == 0 then 1 else WORD * Weight(n - 1)
  }

  /** `v` moved up by `n` limbs. */
  ghost function Shift(n: nat, v: int): int {
    if n == 0 then v else WORD * Shift(n - 1, v)
  }

  lemma {:induction false} ShiftAdd(n: nat, x: int, y: int)
    ensures Shift(n, x + y) == Shift(n, x) + Shift(n, y) && Shift(n, x - y) == Shift(n, x) - Shift(n, y)
  {
    if n > 0 { ShiftAdd(n - 1, x, y); }
  }

  lemma {:induction false} ShiftWord(n: nat, v: int)
    ensures Shift(n, WORD * v) == WORD * Shift(n, v) == Shift(n + 1, v)
  {
    if n > 0 { ShiftWord(n - 1, v); }
  }

  lemma {:induction false} ShiftShift(m: nat, n: nat, v: int)
    ensures Shift(m + n, v) == Shift(m, Shift(n, v))
  {
    if m > 0 {
      ShiftShift(m - 1, n, v);
      assert Shift(m + n, v) == WORD * Shift(m - 1 + n, v);
    }
  }

  lemma {:induction false} ShiftBound(n: nat, v: int)
    ensures v > 0 ==> Shift(n, v) >= Weight(n)
    ensures v < 0 ==> Shift(n, v) + Weight(n) <= 0
    ensures v == 0 ==> Shift(n, v) == 0
    ensures v == 1 ==> Shift(n, v) == Weight(n)
  {
    if n > 0 { ShiftBound(n - 1, v); }
  }

  lemma {:induction false} ShiftMonotone(n: nat, x: int, y: int)
    requires x < y
    ensures Shift(n, x) < Shift(n, y)
  {
    ShiftAdd(n, y, x);
    ShiftBound(n, y - x);
  }

  lemma {:induction false} ShiftScale(n: nat, k: int, m: int)
    ensures Shift(n, k) * m == Shift(n, k * m)
  {
    if n > 0 {
      ShiftScale(n - 1, k, m);
      ScaleWord(Shift(n - 1, k), m);
    }
  }

  lemma {:induction false} ScaleWord(x: int, m: int)
    ensures (WORD * x) * m == WORD * (x * m)
  {
  }

  lemma {:induction false} ShiftIsProduct(n: nat, v: int)
    ensures Shift(n, v) == Weight(n) * v
  {
    ShiftScale(n, 1, v);
    ShiftBound(n, 1);
  }

  lemma {:induction false} ValueBound(s: seq<nat>)
    requires Words(s)
    ensures Value(s) < Weight(|s|)
  {
    if |s| > 0 {
      ValueBound(s[1..]);
    }
  }

  lemma {:induction false} ValueInjective(s: seq<nat>, t: seq<nat>)
    requires Words(s) && Words(t) && |s| == |t| && Value(s) == Value(t)
    ensures s == t
  {
    if |s| > 0 {
      LowLimb(s[0], Value(s[1..]), t[0], Value(t[1..]));
      ValueInjective(s[1..], t[1..]);
      assert s == [s[0]] + s[1..] && t == [t[0]] + t[1..];
    }
  }

  lemma {:induction false} LowLimb(x: nat, y: nat, x': nat, y': nat)
    requires x < WORD && x' < WORD && x + WORD * y == x' + WORD * y'
    ensures x == x' && y == y'
  {
  }

  // ---- Single limbs ----

  function Adc(a: nat, b: nat, carry: nat): (r: (nat, nat))
    ensures r.0 + WORD * r.1 == a + b + carry && r.0 < WORD
  {
    var tmp := a + b + carry;
    (tmp % WORD, tmp / WORD)
  }

  function Sbb(a: nat, b: nat, borrow: nat): (r: (nat, nat))
    requires a < WORD && b < WORD && borrow <= 1
    ensures r.0 < WORD && r.1 <= 1 && r.0 == a - b - borrow + WORD * r.1
  {
    var tmp := WORD + a - b - borrow;
    (tmp % WORD, if tmp / WORD == 0 then 1 else 0)
  }

  function MacWithCarry(a: nat, b: nat, c: nat, carry: nat): (r: (nat, nat))
    ensures r.0 + WORD * r.1 == a + b * c + carry && r.0 < WORD
  {
    assert b * c >= 0;
    var tmp := a + b * c + carry;
    (tmp % WORD, tmp / WORD)
  }

  /** The high half of a + b * c + carry is a limb: the 128-bit sum does not overflow. */
  lemma {:induction false} MacFits(a: nat, b: nat, c: nat, carry: nat)
    requires a < WORD && b < WORD && c < WORD && carry < WORD
    ensures MacWithCarry(a, b, c, carry).1 < WORD
  {
    ProductBound(b, c, WORD - 1);
  }

  lemma {:induction false} ProductBound(b: nat, c: nat, m: nat)
    requires b <= m && c <= m
    ensures b * c <= m * m
  {
    assert b * c <= m * c;
    assert m * c <= m * m;
  }

  // ---- Rows of limbs ----

  /** The limbs of a + b + carry and the carry out. */
  ghost function AddLimbs(a: seq<nat>, b: seq<nat>, carry: nat): (r: (seq<nat>, nat))
    requires |a| == |b|
    ensures |r.0| == |a|
  {
    if |a| == 0 then ([], carry) else
      var low := Adc(a[0], b[0], carry);
      var rest := AddLimbs(a[1..], b[1..], low.1);
      ([low.0] + rest.0, rest.1)
  }

  lemma {:induction false} AddIsSum(a: seq<nat>, b: seq<nat>, carry: nat)
    requires |a| == |b|
    ensures var r := AddLimbs(a, b, carry);
            Value(r.0) + Shift(|a|, r.1) == Value(a) + Value(b) + carry && Words(r.0)
  {
    if |a| > 0 {
      var low := Adc(a[0], b[0], carry);
      AddIsSum(a[1..], b[1..], low.1);
      var rest := AddLimbs(a[1..], b[1..], low.1);
      assert ([low.0] + rest.0)[1..] == rest.0;
    }
  }

  ghost function SubLimbs(a: seq<nat>, b: seq<nat>, borrow: nat): (r: (seq<nat>, nat))
    requires |a| == |b| && Words(a) && Words(b) && borrow <= 1
    ensures |r.0| == |a|
  {
    if |a| == 0 then ([], borrow) else
      var low := Sbb(a[0], b[0], borrow);
      var rest := SubLimbs(a[1..], b[1..], low.1);
      ([low.0] + rest.0, rest.1)
  }

  lemma {:induction false} SubIsDifference(a: seq<nat>, b: seq<nat>, borrow: nat)
    requires |a| == |b| && Words(a) && Words(b) && borrow <= 1
    ensures var r := SubLimbs(a, b, borrow);
            Value(r.0) == Value(a) - Value(b) - borrow + Shift(|a|, r.1) && Words(r.0) && r.1 <= 1
  {
    if |a| > 0 {
      var low := Sbb(a[0], b[0], borrow);
      SubIsDifference(a[1..], b[1..], low.1);
      var rest := SubLimbs(a[1..], b[1..], low.1);
      assert ([low.0] + rest.0)[1..] == rest.0;
    }
  }

  /** The limbs of a + k * b + carry and the carry out. */
  ghost function MacLimbs(a: seq<nat>, k: nat, b: seq<nat>, carry: nat): (r: (seq<nat>, nat))
    requires |a| == |b|
    ensures |r.0| == |a|
  {
    if |a| == 0 then ([], carry) else
      var low := MacWithCarry(a[0], k, b[0], carry);
      var rest := MacLimbs(a[1..], k, b[1..], low.1);
      ([low.0] + rest.0, rest.1)
  }

  lemma {:induction false} MacIsSum(a: seq<nat>, k: nat, b: seq<nat>, carry: nat)
    requires |a| == |b|
    ensures var r := MacLimbs(a, k, b, carry);
            Value(r.0) + Shift(|a|, r.1) == Value(a) + k * Value(b) + carry && Words(r.0)
  {
    if |a| > 0 {
      var low := MacWithCarry(a[0], k, b[0], carry);
      MacIsSum(a[1..], k, b[1..], low.1);
      var rest := MacLimbs(a[1..], k, b[1..], low.1);
      assert ([low.0] + rest.0)[1..] == rest.0;
      MacStep(k, b[0], Value(b[1..]));
    }
  }

  lemma {:induction false} MacStep(k: nat, b0: nat, b1: nat)
    ensures k * (b0 + WORD * b1) == k * b0 + WORD * (k * b1)
  {
  }

  lemma {:induction false} MacCarryFits(a: seq<nat>, k: nat, b: seq<nat>, carry: nat)
    requires |a| == |b| && Words(a) && Words(b) && k < WORD && carry < WORD
    ensures MacLimbs(a, k, b, carry).1 < WORD
  {
    if |a| > 0 {
      MacFits(a[0], k, b[0], carry);
      MacCarryFits(a[1..], k, b[1..], MacWithCarry(a[0], k, b[0], carry).1);
    }
  }

  /** The limbs of the half, rounded down. */
  ghost function HalfLimbs(a: seq<nat>): (r: seq<nat>)
    ensures |r| == |a|
  {
    if |a| == 0 then [] else [a[0] / 2 + TopBit(a[1..])] + HalfLimbs(a[1..])
  }

  /** What the lowest limb of `a` shifts into the limb below. */
  ghost function TopBit(a: seq<nat>): (t: nat)
    ensures t == 0 || t == HALF_WORD
  {
    if |a| > 0 && a[0] % 2 == 1 then HALF_WORD else 0
  }

  lemma {:induction false} HalfIsHalf(a: seq<nat>)
    requires Words(a)
    ensures Value(HalfLimbs(a)) == Value(a) / 2 && Words(HalfLimbs(a))
    ensures |a| > 0 ==> Value(a) % 2 == a[0] % 2
  {
    if |a| > 0 {
      HalfIsHalf(a[1..]);
      assert HalfLimbs(a)[1..] == HalfLimbs(a[1..]);
      HalfStep(a[0], Value(a[1..]), TopBit(a[1..]));
    }
  }

  lemma {:induction false} HalfStep(low: nat, rest: nat, t: nat)
    requires t == if rest % 2 == 1 then HALF_WORD else 0
    ensures low / 2 + t + WORD * (rest / 2) == (low + WORD * rest) / 2
    ensures (low + WORD * rest) % 2 == low % 2
  {
  }

  // ---- The loops ----

  /** Storing the first of the limbs that are left. */
  lemma {:induction false} StoreFirst(all: seq<nat>, done: seq<nat>, rest: seq<nat>, x: nat)
    requires all == done + rest && |rest| > 0
    ensures all[|done|] == rest[0] && all[|done| := x] == done + [x] + rest[1..]
  {
  }

  lemma {:induction false} AddLimbsStep(done: seq<nat>, a: seq<nat>, b: seq<nat>, carry: nat)
    requires |a| == |b| > 0
    ensures var sum := Adc(a[0], b[0], carry);
            (done + [sum.0]) + AddLimbs(a[1..], b[1..], sum.1).0 == done + AddLimbs(a, b, carry).0
  {
  }

  lemma {:induction false} SubLimbsStep(done: seq<nat>, a: seq<nat>, b: seq<nat>, borrow: nat)
    requires |a| == |b| > 0 && Words(a) && Words(b) && borrow <= 1
    ensures var difference := Sbb(a[0], b[0], borrow);
            (done + [difference.0]) + SubLimbs(a[1..], b[1..], difference.1).0 == done + SubLimbs(a, b, borrow).0
  {
  }

  lemma {:induction false} NextSuffix(s: seq<nat>, i: nat)
    requires i < |s|
    ensures s[i..][0] == s[i] && s[i..][1..] == s[i + 1..]
  {
  }

  method AddNoCarry(a: array<nat>, b: seq<nat>)
    requires a.Length == |b|
    modifies a
    ensures a[..] == AddLimbs(old(a[..]), b, 0).0
  {
    var carry := 0;
    ghost var before, done := a[..], [];
    for i := 0 to a.Length
      invariant |done| == i && a[..] == done + before[i..]
      invariant done + AddLimbs(before[i..], b[i..], carry).0 == AddLimbs(before, b, 0).0
    {
      NextSuffix(before, i);
      NextSuffix(b, i);
      var sum := Adc(a[i], b[i], carry);
      StoreFirst(a[..], done, before[i..], sum.0);
      AddLimbsStep(done, before[i..], b[i..], carry);
      a[i], carry := sum.0, sum.1;
      done := done + [sum.0];
    }
  }

  method SubNoBorrow(a: array<nat>, b: seq<nat>)
    requires a.Length == |b| && Words(a[..]) && Words(b)
    modifies a
    ensures a[..] == SubLimbs(old(a[..]), b, 0).0
  {
    var borrow := 0;
    ghost var before, done := a[..], [];
    for i := 0 to a.Length
      invariant |done| == i && a[..] == done + before[i..] && borrow <= 1
      invariant done + SubLimbs(before[i..], b[i..], borrow).0 == SubLimbs(before, b, 0).0
    {
      NextSuffix(before, i);
      NextSuffix(b, i);
      StoreFirst(a[..], done, before[i..], 0);
      var difference := Sbb(a[i], b[i], borrow);
      StoreFirst(a[..], done, before[i..], difference.0);
      SubLimbsStep(done, before[i..], b[i..], borrow);
      a[i], borrow := difference.0, difference.1;
      done := done + [difference.0];
    }
  }

  lemma {:induction false} HalfLimbsStep(now: seq<nat>, before: seq<nat>, i: nat, t: nat)
    requires i < |now| == |before| && now[..i + 1] == before[..i + 1] && now[i + 1..] == HalfLimbs(before[i + 1..])
    requires t == TopBit(before[i + 1..])
    ensures now[i] == before[i]
    ensures var next := now[i := before[i] / 2 + t];
            next[..i] == before[..i] && next[i..] == HalfLimbs(before[i..])
  {
    NextSuffix(before, i);
    assert now[i] == now[..i + 1][i] == before[..i + 1][i];
    var next := now[i := before[i] / 2 + t];
    assert next[i..] == [before[i] / 2 + t] + now[i + 1..];
    assert next[..i] == now[..i + 1][..i] == before[..i + 1][..i] == before[..i];
  }

  method Div2(a: array<nat>)
    requires Words(a[..])
    modifies a
    ensures a[..] == HalfLimbs(old(a[..]))
  {
    var t := 0;
    ghost var before := a[..];
    for i := a.Length downto 0
      invariant a[..][..i] == before[..i] && t == TopBit(before[i..])
      invariant a[..][i..] == HalfLimbs(before[i..])
    {
      HalfLimbsStep(a[..], before, i, t);
      NextSuffix(before, i);
      var t2 := (a[i] * HALF_WORD) % WORD;
      LowBit(a[i]);
      a[i] := a[i] / 2 + t;
      t := t2;
    }
    assert a[..][0..] == a[..] && before[0..] == before;
  }

  lemma {:induction false} LowBit(x: nat)
    ensures (x * HALF_WORD) % WORD == if x % 2 == 1 then HALF_WORD else 0
  {
    assert x == 2 * (x / 2) + x % 2;
    assert x * HALF_WORD == WORD * (x / 2) + (x % 2) * HALF_WORD;
  }

  /** The comparison from the highest limb down. */
  method LessThan(a: seq<nat>, b: seq<nat>) returns (less: bool)
    requires |a| == |b| && Words(a) && Words(b)
    ensures less <==> Value(a) < Value(b)
  {
    for i := |a| downto 0
      invariant a[i..] == b[i..]
    {
      if a[i] != b[i] {
        HighestDifference(a, b, i);
        return a[i] < b[i];
      }
      assert a[i..] == [a[i]] + a[i + 1..] && b[i..] == [b[i]] + b[i + 1..];
    }
    assert a[0..] == a && b[0..] == b;
    return false;
  }

  lemma {:induction false} HighestDifference(a: seq<nat>, b: seq<nat>, i: nat)
    requires |a| == |b| && Words(a) && Words(b) && i < |a| && a[i + 1..] == b[i + 1..] && a[i] != b[i]
    ensures Value(a) < Value(b) <==> a[i] < b[i]
    decreases i
  {
    if i == 0 {
    } else {
      assert a[1..][i..] == a[i + 1..] && b[1..][i..] == b[i + 1..];
      HighestDifference(a[1..], b[1..], i - 1);
      if a[i] < b[i] {
        assert Value(a[1..]) + 1 <= Value(b[1..]);
      } else {
        HighestDifference(b[1..], a[1..], i - 1);
        assert Value(b[1..]) + 1 <= Value(a[1..]);
      }
    }
  }
}
