/** Multiplication in Montgomery form as crates/ff_derive/src/lib.rs generates it, for any number
    of limbs: schoolbook product or square followed by a reduction, and the interleaved product. */
module Montgomery {
  import opened Modular
  import opened Limbs
  import opened FieldInverse

  // ---- The constant INV ----

  lemma {:induction false} RedIsMod(p: nat, x: nat)
    requires p > 0
    ensures Red(p, x) == x % p
  {
    var k := RedSplit(p, x);
    Nonnegative(x, Red(p, x), k, p);
    QuotientUnique(x, p, -k, Red(p, x));
  }

  lemma {:induction false} Nonnegative(x: nat, r: nat, k: int, p: nat)
    requires r == x + k * p && r < p
    ensures k <= 0 && x == p * -k + r
  {
    if k > 0 { BlocksInOrder(p, 0, k); }
  }

  /** The 2^k-th power of an odd number is one modulo 2^(k+1). */
  lemma {:induction false} OddPower(m: nat, k: nat) returns (t: int)
    requires m % 2 == 1
    ensures Pow(m, Pow2(k)) == 1 + t * Pow2(k + 1)
  {
    if k == 0 {
      t := m / 2;
      assert Pow(m, 1) == Pow(m, 0) * m;
    } else {
      var s := OddPower(m, k - 1);
      PowAdd(m, Pow2(k - 1), Pow2(k - 1));
      t := s + s * s * Pow2(k - 1);
      SquareOfOne(Pow(m, Pow2(k - 1)), s, Pow2(k - 1));
    }
  }

  lemma {:induction false} SquareOfOne(x: int, s: int, h: int)
    requires x == 1 + s * (2 * h)
    ensures x * x == 1 + (s + s * s * h) * (2 * (2 * h))
  {
    assert x * x == 1 + 2 * (s * (2 * h)) + (s * (2 * h)) * (s * (2 * h));
    assert (s * (2 * h)) * (s * (2 * h)) == (s * s * h) * (2 * (2 * h));
  }

  /** The limb that stands for the e-th power of `m0`. */
  ghost predicate IsPower(m0: nat, e: nat, inv: nat) {
    inv < WORD && inv == Red(WORD, Pow(m0, e))
  }

  /** One squaring and one multiplication, wrapping around. */
  method InvRound(m0: nat, inv: nat, ghost e: nat) returns (next: nat)
    requires IsPower(m0, e, inv)
    ensures IsPower(m0, 2 * e + 1, next)
  {
    InvStep(m0, inv, e);
    next := (inv * inv) % WORD;
    next := (next * m0) % WORD;
  }

  lemma {:induction false} InvStart(m0: nat)
    ensures IsPower(m0, 0, 1)
  {
  }

  method InvRounds(m0: nat, rounds: nat) returns (inv: nat)
    ensures IsPower(m0, Pow2(rounds) - 1, inv)
  {
    InvStart(m0);
    inv := 1;
    ghost var e: nat := 0;
    for i := 0 to rounds
      invariant e == Pow2(i) - 1 && IsPower(m0, e, inv)
    {
      inv := InvRound(m0, inv, e);
      e := 2 * e + 1;
    }
  }

  /** Repeated squaring gives the negated inverse of every odd limb modulo 2^64. */
  method ComputeInv(m0: nat) returns (inv: nat)
    requires m0 % 2 == 1
    ensures inv < WORD && (inv * m0 + 1) % WORD == 0
  {
    var rounds: nat := 63;
    inv := InvRounds(m0, rounds);
    InvDone(m0, inv, rounds);
    inv := (WORD - inv) % WORD;
  }

  lemma {:induction false} InvStep(m0: nat, inv: nat, e: nat)
    requires inv == Red(WORD, Pow(m0, e))
    ensures inv * inv >= 0 && ((inv * inv) % WORD) * m0 >= 0
    ensures (((inv * inv) % WORD) * m0) % WORD == Red(WORD, Pow(m0, 2 * e + 1))
  {
    var square := inv * inv;
    RedIsMod(WORD, square);
    RedMul(WORD, inv, Pow(m0, e), inv, Pow(m0, e));
    PowAdd(m0, e, e);
    RedMul(WORD, square % WORD, Pow(m0, 2 * e), m0, m0);
    RedIsMod(WORD, (square % WORD) * m0);
  }

  lemma {:induction false} InvDone(m0: nat, inv: nat, rounds: nat)
    requires m0 % 2 == 1 && rounds == 63 && IsPower(m0, Pow2(rounds) - 1, inv)
    ensures ((WORD - inv) % WORD) * m0 >= 0 && (((WORD - inv) % WORD) * m0 + 1) % WORD == 0
  {
    var e: nat := Pow2(rounds) - 1;
    var t := OddPower(m0, rounds);
    WordIsPower();
    RedShift(WORD, 1, Pow(m0, e + 1), t);
    RedRed(WORD, Pow(m0, e));
    RedMul(WORD, inv, Pow(m0, e), m0, m0);
    assert Pow(m0, e + 1) == Pow(m0, e) * m0;
    NegatedInverse(m0, inv, (WORD - inv) % WORD);
  }

  lemma {:induction false} NegatedInverse(m0: nat, inv: nat, neg: nat)
    requires inv < WORD && neg == (if inv == 0 then 0 else WORD - inv) && Red(WORD, inv * m0) == Red(WORD, 1)
    ensures neg * m0 >= 0 && (neg * m0 + 1) % WORD == 0
  {
    var x: nat := neg * m0;
    RedAdd(WORD, 0, 0, inv * m0, 1);
    NegatedProduct(m0, inv, neg, x);
    RedShift(WORD, -(inv * m0), x, if inv == 0 then 0 else m0);
    RedAdd(WORD, x, -1, 1, 1);
    RedIsMod(WORD, x + 1);
  }

  lemma {:induction false} NegatedProduct(m0: nat, inv: nat, neg: nat, x: int)
    requires neg == (if inv == 0 then 0 else WORD - inv) && x == neg * m0
    ensures x == -(inv * m0) + (if inv == 0 then 0 else m0) * WORD
  {
    if inv > 0 { assert (WORD - inv) * m0 == WORD * m0 - inv * m0; }
  }

  // ---- Limbs of products ----

  lemma {:induction false} ValueConcat(a: seq<nat>, b: seq<nat>)
    ensures Value(a + b) == Value(a) + Shift(|a|, Value(b))
  {
    if |a| == 0 {
      assert a + b == b;
    } else {
      ValueConcat(a[1..], b);
      assert (a + b)[1..] == a[1..] + b;
    }
  }

  /** What a row of products has still to do: the limbs `a` are left, with `done` stored before
      them and `hi` beyond, and the finished row will be `all`, with `last` carried out. */
  ghost predicate MacLeft(
    now: seq<nat>, done: seq<nat>, a: seq<nat>, hi: seq<nat>, k: nat, b: seq<nat>, carry: nat, all: seq<nat>, last: nat
  ) {
    && |a| == |b|
    && now == done + (a + hi)
    && done + MacLimbs(a, k, b, carry).0 == all
    && MacLimbs(a, k, b, carry).1 == last
  }

  lemma {:induction false} MacLeftNext(
    now: seq<nat>, done: seq<nat>, a: seq<nat>, hi: seq<nat>, k: nat, b: seq<nat>, carry: nat, all: seq<nat>, last: nat
  )
    requires |a| > 0 && MacLeft(now, done, a, hi, k, b, carry, all, last)
    ensures |done| < |now| && now[|done|] == a[0]
    ensures var mac := MacWithCarry(a[0], k, b[0], carry);
            MacLeft(now[|done| := mac.0], done + [mac.0], a[1..], hi, k, b[1..], mac.1, all, last)
  {
    var mac, rest := MacWithCarry(a[0], k, b[0], carry), a + hi;
    assert rest[0] == a[0] && rest[1..] == a[1..] + hi;
    StoreFirst(now, done, rest, mac.0);
    var limbs := MacLimbs(a[1..], k, b[1..], mac.1).0;
    assert (done + [mac.0]) + limbs == done + ([mac.0] + limbs);
  }

  lemma {:induction false} RowStored(r: seq<nat>, lo: seq<nat>, mid: seq<nat>, hi: seq<nat>)
    requires r == lo + mid + hi
    ensures r[..|lo|] == lo && r[|lo|..|lo| + |mid|] == mid && r[|lo| + |mid|..] == hi
  {
  }

  /** Adds k * b to the limbs from `start` on. */
  method MacRow(r: array<nat>, start: nat, k: nat, b: seq<nat>, carry0: nat) returns (carry: nat)
    requires start + |b| <= r.Length
    modifies r
    ensures r[start..start + |b|] == MacLimbs(old(r[start..start + |b|]), k, b, carry0).0
    ensures carry == MacLimbs(old(r[start..start + |b|]), k, b, carry0).1
    ensures r[..start] == old(r[..start]) && r[start + |b|..] == old(r[start + |b|..])
  {
    ghost var lo, before, hi := r[..start], r[start..start + |b|], r[start + |b|..];
    assert r[..] == lo + (before + hi);
    carry := MacLoop(r, start, k, b, carry0, lo, before, hi);
    RowStored(r[..], lo, MacLimbs(before, k, b, carry0).0, hi);
  }

  method MacLoop(r: array<nat>, start: nat, k: nat, b: seq<nat>, carry0: nat, ghost lo: seq<nat>,
                 ghost before: seq<nat>, ghost hi: seq<nat>) returns (carry: nat)
    requires |lo| == start && |before| == |b| && r[..] == lo + (before + hi)
    modifies r
    ensures r[..] == lo + MacLimbs(before, k, b, carry0).0 + hi && carry == MacLimbs(before, k, b, carry0).1
  {
    carry := carry0;
    ghost var all := MacLimbs(before, k, b, carry0);
    ghost var done, left, factors := lo, before, b;
    for j := 0 to |b|
      invariant |done| == start + j && factors == b[j..]
      invariant MacLeft(r[..], done, left, hi, k, factors, carry, lo + all.0, all.1)
    {
      NextSuffix(b, j);
      MacLeftNext(r[..], done, left, hi, k, factors, carry, lo + all.0, all.1);
      var mac := MacWithCarry(r[start + j], k, b[j], carry);
      r[start + j], carry := mac.0, mac.1;
      done, left, factors := done + [mac.0], left[1..], factors[1..];
    }
    assert done + hi == r[..];
  }

  // ---- Reduction ----

  datatype Field = Field(modulus: seq<nat>, inv: nat) {
    ghost predicate Valid() {
      Modulus(modulus) && inv < WORD && (inv * modulus[0] + 1) % WORD == 0
    }
  }

  /** One row of the reduction on the limbs `s` that are left, with the carry `c` into limb n:
      the row adds k times the modulus, and the lowest limb becomes zero and is dropped. */
  ghost function ReduceRow(f: Field, s: seq<nat>, c: nat): (r: (seq<nat>, nat))
    requires f.Valid() && |s| > |f.modulus|
    ensures |r.0| == |s| - 1
  {
    var n := |f.modulus|;
    var k := RowFactor(f, s[0]);
    var mid := MacLimbs(s[1..n], k, f.modulus[1..], MacWithCarry(s[0], k, f.modulus[0], 0).1);
    var top := Adc(s[n], c, mid.1);
    (mid.0 + [top.0] + s[n + 1..], top.1)
  }

  function RowFactor(f: Field, low: nat): (k: nat)
    ensures k < WORD
  {
    assert low * f.inv >= 0;
    (low * f.inv) % WORD
  }

  /** The row factor makes the lowest limb vanish. */
  lemma {:induction false} LowLimbVanishes(f: Field, low: nat)
    requires f.Valid()
    ensures MacWithCarry(low, RowFactor(f, low), f.modulus[0], 0).0 == 0
  {
    var m0 := f.modulus[0];
    var li: nat, im: nat, km: nat := low * f.inv, f.inv * m0, RowFactor(f, low) * m0;
    RedIsMod(WORD, li);
    RedIsMod(WORD, im + 1);
    RedIsMod(WORD, low + km);
    RedRed(WORD, li);
    RedMul(WORD, RowFactor(f, low), li, m0, m0);
    RedAdd(WORD, low, low, km, li * m0);
    RedMul(WORD, low, low, im + 1, 0);
    Vanish(low, f.inv, m0);
  }

  lemma {:induction false} Vanish(low: nat, inv: nat, m0: nat)
    ensures low + (low * inv) * m0 == low * (inv * m0 + 1) && low * 0 == 0
  {
  }

  lemma {:induction false} ScaledValue(k: nat, m: seq<nat>, v: nat)
    requires |m| > 0 && v == Value(m)
    ensures k * v == k * m[0] + WORD * (k * Value(m[1..]))
  {
    MacStep(k, m[0], Value(m[1..]));
  }

  /** A row from its parts: `low` is carried out of the lowest limb, where `k0` was added, and `mc` out of
      the middle ones, where `k1` was added. */
  lemma {:induction false} RowFromParts(s: seq<nat>, n: nat, c: nat, k0: int, k1: int, low: nat, mid: seq<nat>, mc: nat,
      top: (nat, nat), after: seq<nat>)
    requires 0 < n < |s| && |mid| == n - 1 && after == mid + [top.0] + s[n + 1..]
    requires WORD * low == s[0] + k0 && Value(mid) + Shift(n - 1, mc) == Value(s[1..n]) + k1 + low
    requires top.0 + WORD * top.1 == s[n] + c + mc
    ensures WORD * (Value(after) + Shift(n, top.1)) == Value(s) + Shift(n, c) + (k0 + WORD * k1)
  {
    var hi := s[n + 1..];
    TailValue(s[1..n], s[n], hi, s[1..]);
    TailValue(mid, top.0, hi, after);
    TopLimbs(n - 1, top.0, top.1, s[n], c, mc, Value(hi));
  }

  /** What a row does to the limbs that are left. */
  lemma {:induction false} ReduceRowValue(f: Field, s: seq<nat>, c: nat)
    requires f.Valid() && |s| > |f.modulus|
    ensures var n, r := |f.modulus|, ReduceRow(f, s, c);
            WORD * (Value(r.0) + Shift(n, r.1)) == Value(s) + Shift(n, c) + RowFactor(f, s[0]) * Value(f.modulus)
  {
    var n, k, m0, m1 := |f.modulus|, RowFactor(f, s[0]), f.modulus[0], f.modulus[1..];
    var low := MacWithCarry(s[0], k, m0, 0);
    var mid := MacLimbs(s[1..n], k, m1, low.1);
    LowLimbVanishes(f, s[0]);
    MacIsSum(s[1..n], k, m1, low.1);
    ScaledValue(k, f.modulus, Value(f.modulus));
    var k0, k1 := k * m0, k * Value(m1);
    RowFromParts(s, n, c, k0, k1, low.1, mid.0, mid.1, Adc(s[n], c, mid.1), ReduceRow(f, s, c).0);
  }

  lemma {:induction false} TopLimbs(n: nat, t: nat, c': nat, x: nat, c: nat, mc: nat, h: nat)
    requires t + WORD * c' == x + c + mc
    ensures Shift(n, t + WORD * h) + Shift(n + 1, c') == Shift(n, x + WORD * h) + Shift(n, c) + Shift(n, mc)
  {
    ShiftWord(n, c');
    ShiftAdd(n, t + WORD * h, WORD * c');
    ShiftAdd(n, x + WORD * h, c + mc);
    ShiftAdd(n, c, mc);
    assert t + WORD * h + WORD * c' == x + WORD * h + (c + mc);
  }

  lemma {:induction false} ValueOfCons(x: nat, hi: seq<nat>, all: seq<nat>)
    requires all == [x] + hi
    ensures Value(all) == x + WORD * Value(hi)
  {
    assert all[1..] == hi;
  }

  lemma {:induction false} ConcatValue(lo: seq<nat>, tail: seq<nat>, all: seq<nat>)
    requires all == lo + tail
    ensures Value(all) == Value(lo) + Shift(|lo|, Value(tail))
  {
    ValueConcat(lo, tail);
  }

  lemma {:induction false} TailValue(lo: seq<nat>, x: nat, hi: seq<nat>, all: seq<nat>)
    requires all == lo + [x] + hi
    ensures Value(all) == Value(lo) + Shift(|lo|, x + WORD * Value(hi))
  {
    var tail := [x] + hi;
    assert all == lo + tail;
    ValueOfCons(x, hi, tail);
    ConcatValue(lo, tail, all);
  }

  /** `x` is the reduced element whose product with 2^(64 n) is congruent to `t`. */
  ghost predicate IsReduction(f: Field, t: int, x: nat)
    requires f.Valid()
  {
    x < Value(f.modulus) && Red(Value(f.modulus), Shift(|f.modulus|, x)) == Red(Value(f.modulus), t)
  }

  /** The limbs left after `i` rows: a multiple of the modulus has been added to `t`. */
  ghost predicate Reducing(f: Field, t: nat, x: nat, i: nat, q: nat)
    requires f.Valid()
  {
    Shift(i, x) == t + q * Value(f.modulus) && q < Weight(i)
  }

  lemma {:induction false} ReducingNext(f: Field, t: nat, x: nat, x': nat, i: nat, q: nat, k: nat)
    requires f.Valid() && Reducing(f, t, x, i, q) && k < WORD && WORD * x' == x + k * Value(f.modulus)
    ensures Shift(i, k) >= 0 && Reducing(f, t, x', i + 1, q + Shift(i, k))
  {
    var m := Value(f.modulus);
    ShiftWord(i, x');
    ShiftAdd(i, x, k * m);
    ShiftScale(i, k, m);
    FactorBound(i, k);
    DistributeSum(q, Shift(i, k), m);
  }

  lemma {:induction false} FactorBound(i: nat, k: nat)
    requires k < WORD
    ensures 0 <= Shift(i, k) <= Weight(i + 1) - Weight(i)
  {
    ShiftBound(i, k);
    ShiftWord(i, 1);
    ShiftBound(i, 1);
    ShiftBound(i + 1, 1);
    ShiftAdd(i, WORD, k);
    ShiftBound(i, WORD - k);
  }

  /** A finished reduction of a product below m * 2^(64 n) is below 2 m. */
  lemma {:induction false} ReducedBound(f: Field, t: nat, x: nat, q: nat)
    requires f.Valid() && t < Shift(|f.modulus|, Value(f.modulus)) && Reducing(f, t, x, |f.modulus|, q)
    ensures x < 2 * Value(f.modulus)
    ensures Red(Value(f.modulus), Shift(|f.modulus|, x)) == Red(Value(f.modulus), t)
  {
    var m, n := Value(f.modulus), |f.modulus|;
    ShiftIsProduct(n, m);
    SmallFactor(q, Weight(n), m);
    ShiftAdd(n, m, m);
    if x > 2 * m { ShiftMonotone(n, 2 * m, x); }
    RedShift(m, t, Shift(n, x), q);
  }

  lemma SmallFactor(q: nat, w: nat, m: nat)
    requires q < w
    ensures q * m <= w * m
  {
  }

  ghost predicate Element(f: Field, a: array<nat>)
    reads a
  {
    Limbed(a, |f.modulus|) && Value(a[..]) < Value(f.modulus)
  }

  /** Subtracts the modulus once if the element is not below it. */
  method Reduce(f: Field, a: array<nat>)
    requires f.Valid() && Limbed(a, |f.modulus|) && Value(a[..]) < 2 * Value(f.modulus)
    modifies a
    ensures Element(f, a)
    ensures Value(a[..]) == old(Value(a[..])) - (if old(Value(a[..])) < Value(f.modulus) then 0 else Value(f.modulus))
  {
    var valid := LessThan(a[..], f.modulus);
    if !valid {
      SubFits(a[..], f.modulus);
      SubNoBorrow(a, f.modulus);
    }
  }

  lemma {:induction false} RowWords(now: seq<nat>, was: seq<nat>, row: seq<nat>, i: nat, n: nat)
    requires i + n < |now| == |was| == |row| && Words(was) && Words(row[i..i + n])
    requires row[..i] == was[..i] && row[i + n..] == was[i + n..]
    requires now[..i + n] == row[..i + n] && now[i + n] < WORD && now[i + n + 1..] == row[i + n + 1..]
    ensures Words(now)
  {
    forall j | 0 <= j < |now| ensures now[j] < WORD {
      if j < i {
        assert now[j] == now[..i + n][j] == row[..i + n][j] == row[..i][j] == was[j];
      } else if j < i + n {
        assert now[j] == now[..i + n][j] == row[..i + n][j] == row[i..i + n][j - i];
      } else if j > i + n {
        assert now[j] == now[i + n + 1..][j - i - n - 1] == row[i + n..][j - i - n] == was[j];
      }
    }
  }

  /** What a row leaves: `row` is what the products left of `was`, and `now` has the carry added above. */
  lemma {:induction false} RowReduced(f: Field, was: seq<nat>, row: seq<nat>, now: seq<nat>, i: nat, c: nat)
    requires f.Valid() && i + |f.modulus| < |was| == |row| && Words(was)
    requires row[..i + 1] == was[..i + 1] && row[i + |f.modulus|..] == was[i + |f.modulus|..]
    requires
      var n, k := |f.modulus|, RowFactor(f, was[i]);
      var mid := MacLimbs(was[i + 1..i + n], k, f.modulus[1..], MacWithCarry(was[i], k, f.modulus[0], 0).1);
      row[i + 1..i + n] == mid.0 && now == row[i + n := Adc(was[i + n], c, mid.1).0]
    ensures Words(now) && now[i + 1..] == ReduceRow(f, was[i..], c).0
  {
    var n, k, s := |f.modulus|, RowFactor(f, was[i]), was[i..];
    var low := MacWithCarry(was[i], k, f.modulus[0], 0);
    assert s[0] == was[i] && s[n] == was[i + n] && s[1..n] == was[i + 1..i + n];
    MacIsSum(s[1..n], k, f.modulus[1..], low.1);
    var top := Adc(s[n], c, MacLimbs(s[1..n], k, f.modulus[1..], low.1).1).0;
    RowWords(now, was, row, i + 1, n - 1);
    assert now[i + 1..] == row[i + 1..i + n] + [top] + row[i + n..][1..];
    assert row[i + n..][1..] == was[i + n..][1..] == s[n + 1..];
  }

  /** One row: the lowest remaining limb is not stored, since it has become zero. */
  method ReduceArrayRow(f: Field, r: array<nat>, i: nat, carry2: nat) returns (carry: nat)
    requires f.Valid() && i + |f.modulus| < r.Length && Words(r[..]) && carry2 <= 1
    modifies r
    ensures Words(r[..]) && carry <= 1
    ensures r[i + 1..] == ReduceRow(f, old(r[i..]), carry2).0 && carry == ReduceRow(f, old(r[i..]), carry2).1
  {
    var n := |f.modulus|;
    ghost var was := r[..];
    var k := RowFactor(f, r[i]);
    carry := MacWithCarry(r[i], k, f.modulus[0], 0).1;
    MacFits(r[i], k, f.modulus[0], 0);
    MacCarryFits(was[i + 1..i + n], k, f.modulus[1..], carry);
    assert was[i + 1..i + n] == r[i + 1..i + n] == r[i..][1..n];
    carry := MacRow(r, i + 1, k, f.modulus[1..], carry);
    ghost var row := r[..];
    assert row[..i + 1] == r[..i + 1] && row[i + n..] == r[i + n..] && row[i + 1..i + n] == r[i + 1..i + n];
    assert r[i + n] == row[i + n..][0] == was[i + n];
    var top := Adc(r[i + n], carry2, carry);
    r[i + n] := top.0;
    carry := top.1;
    RowReduced(f, was, row, r[..], i, carry2);
  }

  /** One round of the reduction: row `i` on the limbs that are left. */
  method ReduceRound(f: Field, r: array<nat>, i: nat, carry2: nat, ghost t: nat, ghost q: nat)
    returns (carry: nat, ghost next: nat)
    requires f.Valid() && i + |f.modulus| < r.Length && Words(r[..]) && carry2 <= 1
    requires Shift(|f.modulus|, carry2) >= 0
    requires Reducing(f, t, Value(r[i..]) + Shift(|f.modulus|, carry2), i, q)
    modifies r
    ensures Words(r[..]) && carry <= 1 && Shift(|f.modulus|, carry) >= 0
    ensures Reducing(f, t, Value(r[i + 1..]) + Shift(|f.modulus|, carry), i + 1, next)
  {
    ghost var n, s := |f.modulus|, r[i..];
    ghost var x, k := Value(s) + Shift(n, carry2), RowFactor(f, s[0]);
    ReduceRowValue(f, s, carry2);
    carry := ReduceArrayRow(f, r, i, carry2);
    ShiftBound(n, carry);
    ReducingNext(f, t, x, Value(r[i + 1..]) + Shift(n, carry), i, q, k);
    next := q + Shift(i, k);
  }

  method MontReduce(f: Field, r: array<nat>) returns (a: array<nat>)
    requires f.Valid() && r.Length == 2 * |f.modulus| && Words(r[..])
    requires Value(r[..]) < Shift(|f.modulus|, Value(f.modulus))
    modifies r
    ensures fresh(a) && Element(f, a) && IsReduction(f, old(Value(r[..])), Value(a[..]))
  {
    var n := |f.modulus|;
    ghost var t := Value(r[..]);
    var carry2 := 0;
    ghost var q: nat := 0;
    ShiftBound(n, 0);
    assert r[0..] == r[..];
    for i := 0 to n
      invariant Words(r[..]) && carry2 <= 1 && Shift(n, carry2) >= 0
      invariant Reducing(f, t, Value(r[i..]) + Shift(n, carry2), i, q)
    {
      carry2, q := ReduceRound(f, r, i, carry2, t, q);
    }
    ReducedBound(f, t, Value(r[n..]) + Shift(n, carry2), q);
    ShiftBound(n, carry2);
    a := ReducedElement(f, r[n..], t);
  }

  /** The final subtraction. */
  method ReducedElement(f: Field, x: seq<nat>, ghost t: nat) returns (a: array<nat>)
    requires f.Valid() && |x| == |f.modulus| && Words(x) && Value(x) < 2 * Value(f.modulus)
    requires Red(Value(f.modulus), Shift(|f.modulus|, Value(x))) == Red(Value(f.modulus), t)
    ensures fresh(a) && Element(f, a) && IsReduction(f, t, Value(a[..]))
  {
    a := ToArray(x);
    Reduce(f, a);
    SubtractModulus(f, t, Value(x), Value(a[..]));
  }

  lemma {:induction false} SubtractModulus(f: Field, t: int, x: nat, y: nat)
    requires f.Valid() && Red(Value(f.modulus), Shift(|f.modulus|, x)) == Red(Value(f.modulus), t)
    requires x < 2 * Value(f.modulus) && y == x - (if x < Value(f.modulus) then 0 else Value(f.modulus))
    ensures IsReduction(f, t, y)
  {
    var m, n := Value(f.modulus), |f.modulus|;
    if x >= m {
      ShiftAdd(n, x, m);
      ShiftIsProduct(n, m);
      RedShift(m, Shift(n, y), Shift(n, x), Weight(n));
    }
  }

  // ---- Schoolbook multiplication ----

  lemma {:induction false} RowValue(pre: seq<nat>, slice: seq<nat>, k: nat, b: seq<nat>, all: seq<nat>)
    requires |slice| == |b|
    requires var mid := MacLimbs(slice, k, b, 0); all == pre + mid.0 + [mid.1]
    ensures Value(all) == Value(pre) + Shift(|pre|, Value(slice) + k * Value(b))
  {
    var mid := MacLimbs(slice, k, b, 0);
    MacIsSum(slice, k, b, 0);
    TailValue(mid.0, mid.1, [], mid.0 + [mid.1]);
    ConcatValue(pre, mid.0 + [mid.1], all);
  }

  lemma {:induction false} ProductRow(pre: seq<nat>, slice: seq<nat>, k: nat, b: seq<nat>, a: nat, a': nat,
                                      before: seq<nat>, all: seq<nat>)
    requires |slice| == |b| && before == pre + slice && Value(before) == a * Value(b) && a' == a + Shift(|pre|, k)
    requires var mid := MacLimbs(slice, k, b, 0); all == pre + mid.0 + [mid.1]
    ensures Value(all) == a' * Value(b)
  {
    RowValue(pre, slice, k, b, all);
    ConcatValue(pre, slice, before);
    ShiftAdd(|pre|, Value(slice), k * Value(b));
    ShiftScale(|pre|, k, Value(b));
    DistributeSum(a, Shift(|pre|, k), Value(b));
  }

  method MulLimbs(a: seq<nat>, b: seq<nat>) returns (r: array<nat>)
    requires |a| == |b| && Words(a) && Words(b)
    ensures fresh(r) && r.Length == 2 * |a| && Words(r[..]) && Value(r[..]) == Value(a) * Value(b)
  {
    var n := |a|;
    r := new nat[2 * n](_ => 0);
    ZerosValue(n);
    assert r[..0 + n] == seq(n, _ => 0) && a[..0] == [];
    for i := 0 to n
      invariant Words(r[..]) && Value(r[..i + n]) == Value(a[..i]) * Value(b)
    {
      MulRow(r, i, a, b);
    }
    assert r[..n + n] == r[..] && a[..n] == a;
  }

  /** One row: `a[i]` times `b`, added at limb `i`, with the carry stored above it. */
  method MulRow(r: array<nat>, i: nat, a: seq<nat>, b: seq<nat>)
    requires |a| == |b| && Words(a) && Words(b) && i < |a| && r.Length == 2 * |a| && Words(r[..])
    requires Value(r[..i + |a|]) == Value(a[..i]) * Value(b)
    modifies r
    ensures Words(r[..]) && Value(r[..i + 1 + |a|]) == Value(a[..i + 1]) * Value(b)
  {
    var n := |a|;
    ghost var pre, slice := r[..i], r[i..i + n];
    TailValue(a[..i], a[i], [], a[..i + 1]);
    assert r[..i + n] == pre + slice;
    StoreRow(r, i, a[i], b);
    ProductRow(pre, slice, a[i], b, Value(a[..i]), Value(a[..i + 1]), pre + slice, r[..i + 1 + n]);
  }

  method StoreRow(r: array<nat>, i: nat, k: nat, b: seq<nat>)
    requires Words(b) && k < WORD && i + |b| < r.Length && Words(r[..])
    modifies r
    ensures Words(r[..])
    ensures var mid := MacLimbs(old(r[i..i + |b|]), k, b, 0); r[..i + 1 + |b|] == old(r[..i]) + mid.0 + [mid.1]
    ensures r[i + 1 + |b|..] == old(r[i + 1 + |b|..])
  {
    var n := |b|;
    ghost var slice, was := r[i..i + n], r[..];
    MacIsSum(slice, k, b, 0);
    MacCarryFits(slice, k, b, 0);
    var carry := MacRow(r, i, k, b, 0);
    ghost var row := r[..];
    r[i + n] := carry;
    RowWords(r[..], was, row, i, n);
    assert r[..i + 1 + n] == was[..i] + row[i..i + n] + [carry];
    assert r[i + 1 + n..] == row[i + n..][1..] == was[i + n..][1..] == was[i + 1 + n..];
  }

  lemma {:induction false} ProductFits(f: Field, a: nat, b: nat)
    requires f.Valid() && a < Value(f.modulus) && b < Value(f.modulus)
    ensures 0 <= a * b < Shift(|f.modulus|, Value(f.modulus))
  {
    var m, w := Value(f.modulus), Weight(|f.modulus|);
    ShiftIsProduct(|f.modulus|, m);
    BelowProduct(a, b, m, w);
  }

  lemma BelowProduct(a: nat, b: nat, m: nat, w: nat)
    requires a < m && b < m <= w
    ensures 0 <= a * b < w * m
  {
    SmallFactor(b, m, a);
    BlocksInOrder(m, a, w);
  }

  /** Multiplication as generated without the interleaved form. */
  method MulAssign(f: Field, a: array<nat>, b: array<nat>) returns (c: array<nat>)
    requires f.Valid() && Element(f, a) && Element(f, b)
    ensures fresh(c) && Element(f, c) && IsReduction(f, Value(a[..]) * Value(b[..]), Value(c[..]))
  {
    ProductFits(f, Value(a[..]), Value(b[..]));
    var r := MulLimbs(a[..], b[..]);
    c := MontReduce(f, r);
  }
}
