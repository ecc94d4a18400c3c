/** Multi-exponentiation by Pippenger's buckets (crates/bellman/src/multiexp.rs): filtered by a
    density with a cursor over the bases, and dense with threads that share an accumulator. */
module Multiexp {
  import opened Outcomes
  import opened Modular
  import opened Threads
  import opened Groups
  import opened BaseSource
  import opened Limbs

  // ---- What a multi-exponentiation is ----

  ghost function Base<G(!new)>(g: Group<G>, bases: seq<G>, i: nat): G {
    if i < |bases| then bases[i] else g.zero
  }

  /** The scalar of item `i` times its base: the one at `start` plus the number of earlier set bits. */
  ghost function Item<G(!new)>(g: Group<G>, bases: seq<G>, start: nat, density: seq<bool>, scalars: seq<nat>, i: nat): G
    requires i < |density| == |scalars|
  {
    if density[i] then Times(g, scalars[i], Base(g, bases, start + Rank(density, i))) else g.zero
  }

  /** The sum over the first `n` items. */
  ghost function Combine<G(!new)>(g: Group<G>, bases: seq<G>, start: nat, density: seq<bool>, scalars: seq<nat>,
                                  n: nat): G
    requires n <= |density| == |scalars|
  {
    if n == 0 then g.zero
    else g.add(Combine(g, bases, start, density, scalars, n - 1), Item(g, bases, start, density, scalars, n - 1))
  }

  /** A sum of scaled scalars is a scaled sum. */
  lemma {:induction false} CombineLinear<G(!new)>(g: Group<G>, bases: seq<G>, start: nat, density: seq<bool>,
                                                  u: seq<nat>, m: nat, v: seq<nat>, w: seq<nat>, n: nat)
    requires g.Valid() && n <= |density| == |u| == |v| == |w|
    requires forall i | 0 <= i < n :: u[i] == v[i] * m + w[i]
    ensures Combine(g, bases, start, density, u, n)
         == g.add(Times(g, m, Combine(g, bases, start, density, v, n)), Combine(g, bases, start, density, w, n))
  {
    if n == 0 {
      TimesZero(g, m);
      Zero(g, g.zero);
    } else {
      CombineLinear(g, bases, start, density, u, m, v, w, n - 1);
      ItemLinear(g, bases, start, density, u, m, v, w, n - 1);
      var cv, cw := Combine(g, bases, start, density, v, n - 1), Combine(g, bases, start, density, w, n - 1);
      var iv, iw := Item(g, bases, start, density, v, n - 1), Item(g, bases, start, density, w, n - 1);
      SwapInner(g, Times(g, m, cv), cw, Times(g, m, iv), iw);
      TimesSum(g, m, cv, iv);
    }
  }

  lemma {:induction false} ItemLinear<G(!new)>(g: Group<G>, bases: seq<G>, start: nat, density: seq<bool>,
                                               u: seq<nat>, m: nat, v: seq<nat>, w: seq<nat>, i: nat)
    requires g.Valid() && i < |density| == |u| == |v| == |w| && u[i] == v[i] * m + w[i]
    ensures Item(g, bases, start, density, u, i)
         == g.add(Times(g, m, Item(g, bases, start, density, v, i)), Item(g, bases, start, density, w, i))
  {
    if density[i] {
      var x := Base(g, bases, start + Rank(density, i));
      var z: nat := m * v[i];
      TimesTimes(g, m, v[i], x, z);
      TimesAdd(g, z, w[i], x);
    } else {
      TimesZero(g, m);
      Zero(g, g.zero);
    }
  }

  lemma {:induction false} CombineZeros<G(!new)>(g: Group<G>, bases: seq<G>, start: nat, density: seq<bool>,
                                                 scalars: seq<nat>, n: nat)
    requires g.Valid() && n <= |density| == |scalars| && forall i | 0 <= i < n :: scalars[i] == 0
    ensures Combine(g, bases, start, density, scalars, n) == g.zero
  {
    if n > 0 {
      CombineZeros(g, bases, start, density, scalars, n - 1);
      Zero(g, g.zero);
    }
  }

  // ---- Buckets ----

  ghost function Total<G(!new)>(g: Group<G>, b: seq<G>): G {
    if |b| == 0 then g.zero else g.add(Total(g, b[1..]), b[0])
  }

  /** Each bucket times its position counted from one. */
  ghost function Weighted<G(!new)>(g: Group<G>, b: seq<G>): G {
    if |b| == 0 then g.zero else g.add(Weighted(g, b[1..]), Total(g, b))
  }

  lemma {:induction false} TotalUpdate<G(!new)>(g: Group<G>, b: seq<G>, i: nat, x: G)
    requires g.Valid() && i < |b|
    ensures Total(g, b[i := g.add(b[i], x)]) == g.add(Total(g, b), x)
  {
    var b' := b[i := g.add(b[i], x)];
    if i == 0 {
      assert b'[1..] == b[1..];
      Assoc(g, Total(g, b[1..]), b[0], x);
    } else {
      assert b'[1..] == b[1..][i - 1 := g.add(b[i], x)];
      TotalUpdate(g, b[1..], i - 1, x);
      SwapLast(g, Total(g, b[1..]), x, b[0]);
    }
  }

  /** A base added to bucket i counts i + 1 times. */
  lemma {:induction false} WeightedUpdate<G(!new)>(g: Group<G>, b: seq<G>, i: nat, x: G)
    requires g.Valid() && i < |b|
    ensures Weighted(g, b[i := g.add(b[i], x)]) == g.add(Weighted(g, b), Times(g, i + 1, x))
  {
    var b' := b[i := g.add(b[i], x)];
    TotalUpdate(g, b, i, x);
    if i == 0 {
      assert b'[1..] == b[1..];
      Assoc(g, Weighted(g, b[1..]), Total(g, b), x);
      TimesOne(g, x);
    } else {
      assert b'[1..] == b[1..][i - 1 := g.add(b[i], x)];
      WeightedUpdate(g, b[1..], i - 1, x);
      SwapInner(g, Weighted(g, b[1..]), Times(g, i, x), Total(g, b), x);
    }
  }

  lemma {:induction false} WeightedZeros<G(!new)>(g: Group<G>, b: seq<G>)
    requires g.Valid() && forall i | 0 <= i < |b| :: b[i] == g.zero
    ensures Total(g, b) == g.zero && Weighted(g, b) == g.zero
  {
    if |b| > 0 {
      WeightedZeros(g, b[1..]);
      Zero(g, g.zero);
    }
  }

  /** Summation by parts: every bucket enters as often as its position says, with two additions each. */
  method SumBuckets<G(!new)>(g: Group<G>, buckets: seq<G>, acc0: G) returns (acc: G)
    requires g.Valid()
    ensures acc == g.add(acc0, Weighted(g, buckets))
  {
    acc := acc0;
    Zero(g, acc0);
    var runningSum := g.zero;
    for j := |buckets| downto 0
      invariant runningSum == Total(g, buckets[j..])
      invariant acc == g.add(acc0, Weighted(g, buckets[j..]))
    {
      assert buckets[j..][1..] == buckets[j + 1..];
      runningSum := g.add(runningSum, buckets[j]);
      Assoc(g, acc0, Weighted(g, buckets[j + 1..]), runningSum);
      acc := g.add(acc, runningSum);
    }
    assert buckets[0..] == buckets;
  }

  // ---- Windows of scalars ----

  /** The window of `c` bits from bit `skip` on, taken from the lowest limb of the shifted scalar. */
  function Digit(e: nat, skip: nat, c: nat): nat {
    (ShiftRight(e, skip) % WORD) % Pow2(c)
  }

  ghost function Digits(exponents: seq<nat>, skip: nat, c: nat): (d: seq<nat>)
    ensures |d| == |exponents| && forall i | 0 <= i < |d| :: d[i] == Digit(exponents[i], skip, c)
  {
    seq<nat>(|exponents|, i requires 0 <= i < |exponents| => Digit(exponents[i], skip, c))
  }

  function Quotient(x: nat, d: nat): nat
    requires d > 0
  {
    x / d
  }

  function ShiftRight(e: nat, skip: nat): nat {
    Quotient(e, Pow2(skip))
  }

  ghost function Shifted(exponents: seq<nat>, skip: nat): (d: seq<nat>)
    ensures |d| == |exponents| && forall i | 0 <= i < |d| :: d[i] == ShiftRight(exponents[i], skip)
  {
    seq<nat>(|exponents|, i requires 0 <= i < |exponents| => ShiftRight(exponents[i], skip))
  }

  lemma {:induction false} QuotientOfQuotient(e: nat, a: nat, b: nat)
    requires a > 0 && b > 0
    ensures a * b > 0 && e / (a * b) == (e / a) / b
  {
    var q := e / a;
    assert e == a * q + e % a && q == b * (q / b) + q % b;
    var r := a * (q % b) + e % a;
    BlocksInOrder(a, q % b, b);
    assert e == (a * b) * (q / b) + r by { Nested(a, b, q / b, q % b, e % a, q, e); }
    assert 0 <= r < a * b;
    QuotientUnique(e, a * b, q / b, r);
  }

  lemma {:induction false} Nested(a: int, b: int, x: int, y: int, z: int, q: int, e: int)
    requires e == a * q + z && q == b * x + y
    ensures e == (a * b) * x + (a * y + z)
  {
    assert a * q == a * (b * x) + a * y;
    assert a * (b * x) == (a * b) * x;
  }

  lemma {:induction false} Compose(m: int, h: int, q: int, s: int, t: int, w: int, r: int, x: int, k: int)
    requires w == m * h && r == m * s + t && x == w * q + r && k == h * q + s
    ensures x == m * k + t
  {
    assert m * k == m * (h * q) + m * s;
    assert (m * h) * q == m * (h * q);
  }

  lemma {:induction false} ModOfMod(x: nat, m: nat, h: nat, w: nat)
    requires m > 0 && w > 0 && w == m * h
    ensures (x % w) % m == x % m
  {
    DivMod(x, w);
    DivMod(x % w, m);
    SameRemainder(x, m, h, w, x / w, x % w, (x % w) / m, (x % w) % m);
  }

  lemma {:induction false} SameRemainder(x: nat, m: nat, h: nat, w: nat, q: nat, r: nat, s: nat, t: nat)
    requires w == m * h && x == w * q + r && r == m * s + t && t < m
    ensures x % m == t
  {
    var k: nat := h * q + s;
    Compose(m, h, q, s, t, w, r, x, k);
    QuotientUnique(x, m, k, t);
  }

  lemma {:induction false} LowBits(x: nat, c: nat)
    requires c < 64
    ensures (x % WORD) % Pow2(c) == x % Pow2(c)
  {
    WordIsPower();
    Pow2Add(c, 64 - c);
    ModOfMod(x, Pow2(c), Pow2(64 - c), WORD);
  }

  /** A shifted scalar is its window plus the next shift moved up. */
  lemma {:induction false} DigitSplits(e: nat, skip: nat, c: nat)
    requires c < 64
    ensures ShiftRight(e, skip) == ShiftRight(e, skip + c) * Pow2(c) + Digit(e, skip, c)
  {
    LowBits(ShiftRight(e, skip), c);
    Pow2Add(skip, c);
    QuotientOfQuotient(e, Pow2(skip), Pow2(c));
    SplitAt(ShiftRight(e, skip), Pow2(c));
  }

  lemma SplitAt(x: nat, m: nat)
    requires m > 0
    ensures x == (x / m) * m + x % m
  {
  }

  lemma {:induction false} TrivialDigit(skip: nat, c: nat)
    requires 0 < c < 64
    ensures Digit(0, skip, c) == 0 && Digit(1, skip, c) == if skip == 0 then 1 else 0
  {
    QuotientUnique(0, Pow2(skip), 0, 0);
    if skip == 0 {
      Pow2Monotone(1, c);
      QuotientUnique(1, 1, 1, 0);
      QuotientUnique(1, Pow2(c), 0, 1);
    } else {
      Pow2Monotone(1, skip);
      QuotientUnique(1, Pow2(skip), 0, 1);
    }
    QuotientUnique(0, Pow2(c), 0, 0);
  }

  // ---- One region ----

  /** Every dense item has a base, and no base used is the identity. */
  ghost predicate Supplied<G(!new)>(g: Group<G>, bases: seq<G>, start: nat, density: seq<bool>, scalars: seq<nat>,
                                    n: nat)
    requires n <= |density| == |scalars|
  {
    forall i: nat | i < n && density[i] :: HasBase(g, bases, start + Rank(density, i), scalars[i])
  }

  ghost predicate HasBase<G(!new)>(g: Group<G>, bases: seq<G>, k: nat, scalar: nat) {
    k < |bases| && (scalar != 0 ==> bases[k] != g.zero)
  }

  /** The bases run out at some dense item, and all earlier ones are supplied. */
  ghost predicate RunsOut<G(!new)>(g: Group<G>, bases: seq<G>, start: nat, density: seq<bool>, scalars: seq<nat>)
    requires |density| == |scalars|
  {
    exists i: nat | i < |density| ::
      density[i] && start + Rank(density, i) >= |bases| && Supplied(g, bases, start, density, scalars, i)
  }

  /** The error of a run over all items in order. */
  ghost function FirstError<G(!new)>(g: Group<G>, bases: seq<G>, start: nat, density: seq<bool>, scalars: seq<nat>)
    : SynthesisError
    requires |density| == |scalars|
  {
    if RunsOut(g, bases, start, density, scalars) then UnexpectedEof else UnexpectedIdentity
  }

  /** A failure at item `i` decides which error it is. */
  lemma {:induction false} FailureAt<G(!new)>(g: Group<G>, bases: seq<G>, start: nat, density: seq<bool>,
                                              scalars: seq<nat>, i: nat)
    requires i < |density| == |scalars| && density[i] && Supplied(g, bases, start, density, scalars, i)
    requires !HasBase(g, bases, start + Rank(density, i), scalars[i])
    ensures !Supplied(g, bases, start, density, scalars, |scalars|)
    ensures RunsOut(g, bases, start, density, scalars) <==> start + Rank(density, i) >= |bases|
  {
    if j: nat :| j < |density| && density[j] && start + Rank(density, j) >= |bases|
                 && Supplied(g, bases, start, density, scalars, j)
    {
      assert i == j;
    }
  }

  /** One item with a set bit: skipped, added to the accumulator, or put into its bucket. */
  method Place<G(==, !new)>(g: Group<G>, source: Source<G>, buckets: array<G>, acc: G, exp: nat, skip: nat, c: nat,
                            handleTrivial: bool) returns (r: Result<G>)
    requires g.Valid() && 0 < c < 64 && buckets.Length == Pow2(c) - 1 && (handleTrivial <==> skip == 0)
    modifies source, buckets
    ensures r.Ok? <==> HasBase(g, source.bases, old(source.next), Digit(exp, skip, c))
    ensures r.Ok? ==> source.next == old(source.next) + 1
    ensures r.Err? ==> r.error == if old(source.next) >= |source.bases| then UnexpectedEof else UnexpectedIdentity
    ensures r.Ok? ==>
              g.add(r.value, Weighted(g, buckets[..]))
              == g.add(g.add(acc, Weighted(g, old(buckets[..]))),
                       Times(g, Digit(exp, skip, c), Base(g, source.bases, old(source.next))))
  {
    TrivialDigit(skip, c);
    ghost var w := Weighted(g, buckets[..]);
    ghost var base := Base(g, source.bases, source.next);
    Zero(g, g.add(acc, w));
    TimesOne(g, base);
    if exp == 0 {
      var s := source.Skip(1);
      return if s.Ok? then Ok(acc) else Err(s.error);
    } else if exp == 1 {
      if handleTrivial {
        SwapLast(g, acc, base, w);
        r := source.AddAssignMixed(g, acc);
      } else {
        var s := source.Skip(1);
        return if s.Ok? then Ok(acc) else Err(s.error);
      }
    } else {
      var d := Digit(exp, skip, c);
      if d != 0 {
        WeightedUpdate(g, buckets[..], d - 1, base);
        Assoc(g, acc, w, Times(g, d, base));
        var s := source.AddAssignMixed(g, buckets[d - 1]);
        if s.Err? {
          return Err(s.error);
        }
        ghost var b := buckets[..];
        buckets[d - 1] := s.value;
        assert buckets[..] == b[d - 1 := s.value];
        r := Ok(acc);
      } else {
        var s := source.Skip(1);
        return if s.Ok? then Ok(acc) else Err(s.error);
      }
    }
  }

  /** What item `i` changes. */
  lemma {:induction false} NextItem<G(!new)>(g: Group<G>, bases: seq<G>, start: nat, density: seq<bool>,
                                             scalars: seq<nat>, i: nat)
    requires g.Valid() && i < |density| == |scalars|
    ensures
      var k, sum := start + Rank(density, i), Combine(g, bases, start, density, scalars, i);
      && start + Rank(density, i + 1) == k + (if density[i] then 1 else 0)
      && Combine(g, bases, start, density, scalars, i + 1)
         == (if density[i] then g.add(sum, Times(g, scalars[i], Base(g, bases, k))) else sum)
      && (Supplied(g, bases, start, density, scalars, i + 1)
          <==> Supplied(g, bases, start, density, scalars, i) && (density[i] ==> HasBase(g, bases, k, scalars[i])))
  {
    Zero(g, Combine(g, bases, start, density, scalars, i));
    if Supplied(g, bases, start, density, scalars, i + 1) {
      assert forall j: nat | j < i && density[j] :: HasBase(g, bases, start + Rank(density, j), scalars[j]);
    }
  }

  /** The sum of one window of every scalar, or the first error. */
  method Region<G(==, !new)>(g: Group<G>, bases: seq<G>, start: nat, density: seq<bool>, exponents: seq<nat>,
                             skip: nat, c: nat, handleTrivial: bool) returns (r: Result<G>)
    requires g.Valid() && 0 < c < 64 && |density| == |exponents| && (handleTrivial <==> skip == 0)
    ensures r.Ok? <==> Supplied(g, bases, start, density, Digits(exponents, skip, c), |exponents|)
    ensures r.Ok? ==> r.value == Combine(g, bases, start, density, Digits(exponents, skip, c), |exponents|)
    ensures r.Err? ==> r.error == FirstError(g, bases, start, density, Digits(exponents, skip, c))
  {
    var acc := g.zero;
    var source := new Source(bases, start);
    var buckets := new G[Pow2(c) - 1](_ => g.zero);
    ghost var digits := Digits(exponents, skip, c);
    assert g.add(acc, Weighted(g, buckets[..])) == g.zero by {
      WeightedZeros(g, buckets[..]);
      Zero(g, g.zero);
    }
    for i := 0 to |exponents|
      invariant source.next == start + Rank(density, i)
      invariant Supplied(g, bases, start, density, digits, i)
      invariant g.add(acc, Weighted(g, buckets[..])) == Combine(g, bases, start, density, digits, i)
    {
      NextItem(g, bases, start, density, digits, i);
      if density[i] {
        var s := Place(g, source, buckets, acc, exponents[i], skip, c, handleTrivial);
        if s.Err? {
          FailureAt(g, bases, start, density, digits, i);
          return s;
        }
        acc := s.value;
      }
    }
    var sum := SumBuckets(g, buckets[..], acc);
    return Ok(sum);
  }

  // ---- Joining the regions ----

  ghost predicate Bounded(exponents: seq<nat>, numBits: nat) {
    forall i | 0 <= i < |exponents| :: exponents[i] < Pow2(numBits)
  }

  lemma {:induction false} ShiftedOut(e: nat, numBits: nat, skip: nat)
    requires e < Pow2(numBits) && numBits <= skip
    ensures ShiftRight(e, skip) == 0
  {
    Pow2Monotone(numBits, skip);
    QuotientUnique(e, Pow2(skip), 0, e);
  }

  lemma {:induction false} NothingShifted(exponents: seq<nat>)
    ensures Shifted(exponents, 0) == exponents
  {
    forall i | 0 <= i < |exponents| ensures Shifted(exponents, 0)[i] == exponents[i] {
      QuotientUnique(exponents[i], 1, exponents[i], 0);
    }
  }

  lemma {:induction false} HighestWindow(exponents: seq<nat>, numBits: nat, skip: nat, c: nat)
    requires Bounded(exponents, numBits) && numBits <= skip + c && c < 64
    ensures Shifted(exponents, skip) == Digits(exponents, skip, c)
  {
    forall i | 0 <= i < |exponents| ensures Shifted(exponents, skip)[i] == Digits(exponents, skip, c)[i] {
      DigitSplits(exponents[i], skip, c);
      ShiftedOut(exponents[i], numBits, skip + c);
    }
  }

  /** The windows from `skip` on: the next ones doubled `c` times, plus the one at `skip`. */
  lemma {:induction false} JoinStep<G(!new)>(g: Group<G>, bases: seq<G>, start: nat, density: seq<bool>,
                                             exponents: seq<nat>, skip: nat, c: nat)
    requires g.Valid() && c < 64 && |density| == |exponents|
    ensures Combine(g, bases, start, density, Shifted(exponents, skip), |exponents|)
         == g.add(Times(g, Pow2(c), Combine(g, bases, start, density, Shifted(exponents, skip + c), |exponents|)),
                  Combine(g, bases, start, density, Digits(exponents, skip, c), |exponents|))
  {
    forall i | 0 <= i < |exponents|
      ensures Shifted(exponents, skip)[i] == Shifted(exponents, skip + c)[i] * Pow2(c) + Digits(exponents, skip, c)[i]
    {
      DigitSplits(exponents[i], skip, c);
    }
    CombineLinear(g, bases, start, density, Shifted(exponents, skip), Pow2(c), Shifted(exponents, skip + c),
                  Digits(exponents, skip, c), |exponents|);
  }

  lemma {:induction false} NotZeroSum(x: nat, y: nat, m: nat, d: nat)
    requires x == y * m + d && m > 0
    ensures x != 0 <==> y != 0 || d != 0
  {
    if y > 0 { BlocksInOrder(m, 0, y); }
  }

  lemma {:induction false} SuppliedStep<G(!new)>(g: Group<G>, bases: seq<G>, start: nat, density: seq<bool>,
                                                 exponents: seq<nat>, skip: nat, c: nat)
    requires c < 64 && |density| == |exponents|
    ensures Supplied(g, bases, start, density, Shifted(exponents, skip), |exponents|)
       <==> Supplied(g, bases, start, density, Shifted(exponents, skip + c), |exponents|)
            && Supplied(g, bases, start, density, Digits(exponents, skip, c), |exponents|)
  {
    forall i: nat | i < |exponents|
      ensures HasBase(g, bases, start + Rank(density, i), Shifted(exponents, skip)[i])
         <==> HasBase(g, bases, start + Rank(density, i), Shifted(exponents, skip + c)[i])
              && HasBase(g, bases, start + Rank(density, i), Digits(exponents, skip, c)[i])
    {
      DigitSplits(exponents[i], skip, c);
      NotZeroSum(Shifted(exponents, skip)[i], Shifted(exponents, skip + c)[i], Pow2(c), Digits(exponents, skip, c)[i]);
    }
  }

  lemma {:induction false} SuppliedWindow<G(!new)>(g: Group<G>, bases: seq<G>, start: nat, density: seq<bool>,
                                                   exponents: seq<nat>, skip: nat, c: nat)
    requires 0 < c < 64 && |density| == |exponents| && Supplied(g, bases, start, density, exponents, |exponents|)
    ensures Supplied(g, bases, start, density, Digits(exponents, skip, c), |exponents|)
  {
    TrivialDigit(skip, c);
    forall i: nat | i < |exponents| && density[i]
      ensures HasBase(g, bases, start + Rank(density, i), Digits(exponents, skip, c)[i])
    {
      assert HasBase(g, bases, start + Rank(density, i), exponents[i]);
    }
  }

  /** Chunk `j` is the result of the region that starts at bit `skips[j]`. */
  ghost predicate IsRegion<G(!new)>(g: Group<G>, bases: seq<G>, start: nat, density: seq<bool>, exponents: seq<nat>,
                                    skip: nat, c: nat, chunk: Result<G>)
    requires |density| == |exponents|
  {
    && (chunk.Ok? <==> Supplied(g, bases, start, density, Digits(exponents, skip, c), |exponents|))
    && (chunk.Ok? ==> chunk.value == Combine(g, bases, start, density, Digits(exponents, skip, c), |exponents|))
    && (chunk.Err? ==> chunk.error == FirstError(g, bases, start, density, Digits(exponents, skip, c)))
  }

  /** Where one window meets no failure, the bases do not run out in any. */
  lemma {:induction false} NoneRunsOut<G(!new)>(g: Group<G>, bases: seq<G>, start: nat, density: seq<bool>,
                                                scalars: seq<nat>, others: seq<nat>)
    requires |density| == |scalars| == |others| && Supplied(g, bases, start, density, scalars, |scalars|)
    ensures FirstError(g, bases, start, density, others) == UnexpectedIdentity
  {
    if j: nat :| j < |density| && density[j] && start + Rank(density, j) >= |bases|
                 && Supplied(g, bases, start, density, others, j)
    {
      assert HasBase(g, bases, start + Rank(density, j), scalars[j]);
    }
  }

  ghost predicate AreRegions<G(!new)>(g: Group<G>, bases: seq<G>, start: nat, density: seq<bool>, exponents: seq<nat>,
                                      skips: seq<nat>, c: nat, chunks: seq<Result<G>>)
    requires |density| == |exponents|
  {
    && |skips| == |chunks|
    && (|skips| > 0 ==> skips[0] == 0) && (forall j | 0 <= j < |skips| - 1 :: skips[j + 1] == skips[j] + c)
    && forall j | 0 <= j < |skips| :: IsRegion(g, bases, start, density, exponents, skips[j], c, chunks[j])
  }

  /** Doubles the higher result `c` times and adds the next lower one, down to the lowest. */
  method JoinChunks<G(!new)>(g: Group<G>, chunks: seq<Result<G>>, c: nat, ghost bases: seq<G>, ghost start: nat,
                             ghost density: seq<bool>, ghost exponents: seq<nat>, ghost skips: seq<nat>,
                             ghost numBits: nat)
    returns (r: Result<G>)
    requires g.Valid() && 0 < c < 64 && |density| == |exponents| && Bounded(exponents, numBits)
    requires AreRegions(g, bases, start, density, exponents, skips, c, chunks)
    requires |chunks| > 0 ==> numBits <= skips[|skips| - 1] + c
    ensures |chunks| == 0 ==> r == Ok(g.zero)
    ensures |chunks| > 0 ==> (r.Ok? <==> Supplied(g, bases, start, density, exponents, |exponents|))
    ensures |chunks| > 0 && r.Ok? ==> r.value == Combine(g, bases, start, density, exponents, |exponents|)
    ensures |chunks| > 0 && r.Err? ==>
      r.error == FirstError(g, bases, start, density, Digits(exponents, skips[|skips| - 1], c))
  {
    if |chunks| == 0 {
      return Ok(g.zero);
    }
    var last := |chunks| - 1;
    if Supplied(g, bases, start, density, exponents, |exponents|) {
      SuppliedWindow(g, bases, start, density, exponents, skips[last], c);
    }
    assert IsRegion(g, bases, start, density, exponents, skips[last], c, chunks[last]);
    if chunks[last].Err? {
      return chunks[last];
    }
    var higher := chunks[last].value;
    ghost var top := Digits(exponents, skips[last], c);
    HighestWindow(exponents, numBits, skips[last], c);
    for j := last downto 0
      invariant higher == Combine(g, bases, start, density, Shifted(exponents, skips[j]), |exponents|)
      invariant Supplied(g, bases, start, density, Shifted(exponents, skips[j]), |exponents|)
    {
      assert IsRegion(g, bases, start, density, exponents, skips[j], c, chunks[j]);
      if chunks[j].Err? {
        if Supplied(g, bases, start, density, exponents, |exponents|) {
          SuppliedWindow(g, bases, start, density, exponents, skips[j], c);
        }
        NoneRunsOut(g, bases, start, density, top, Digits(exponents, skips[j], c));
        NoneRunsOut(g, bases, start, density, top, top);
        return chunks[j];
      }
      JoinStep(g, bases, start, density, exponents, skips[j], c);
      SuppliedStep(g, bases, start, density, exponents, skips[j], c);
      var doubled := Doubled(g, higher, c);
      higher := g.add(doubled, chunks[j].value);
    }
    NothingShifted(exponents);
    return Ok(higher);
  }

  lemma {:induction false} NextMultiple(x: nat, c: nat)
    requires c > 0 && x % c == 0
    ensures (c + x) % c == 0
  {
    QuotientUnique(c + x, c, 1 + x / c, 0);
  }

  /** The lowest bit of the highest window: the multiple of `c` above which at most `c` bits are left. */
  ghost function TopWindow(numBits: nat, c: nat): (top: nat)
    requires numBits > 0 && c > 0
    ensures top % c == 0 && top < numBits <= top + c
  {
    if numBits <= c then
      QuotientUnique(0, c, 0, 0);
      0
    else
      var next := TopWindow(numBits - c, c);
      NextMultiple(next, c);
      c + next
  }

  /** Ok exactly when every dense item has a base that is not the identity unless its scalar is
      zero, and then the sum of all scalars times their bases, for every window width.  Otherwise
      UnexpectedEof exactly when the highest window runs out of bases before it meets an identity. */
  method MultiexpWithFixedWidth<G(==, !new)>(g: Group<G>, bases: seq<G>, start: nat, density: seq<bool>,
                                             exponents: seq<nat>, c: nat, numBits: nat)
    returns (r: Result<G>)
    requires g.Valid() && 0 < c < 64 && numBits > 0 && |density| == |exponents| && Bounded(exponents, numBits)
    ensures r.Ok? <==> Supplied(g, bases, start, density, exponents, |exponents|)
    ensures r.Ok? ==> r.value == Combine(g, bases, start, density, exponents, |exponents|)
    ensures r.Err? ==>
      r.error == FirstError(g, bases, start, density, Digits(exponents, TopWindow(numBits, c), c))
  {
    var skip := 0;
    var chunks: seq<Result<G>> := [];
    ghost var skips: seq<nat> := [];
    while skip < numBits
      invariant AreRegions(g, bases, start, density, exponents, skips, c, chunks)
      invariant if |skips| == 0 then skip == 0 else skip == skips[|skips| - 1] + c
      invariant skip < numBits ==> skip + TopWindow(numBits - skip, c) == TopWindow(numBits, c)
      invariant skip >= numBits ==> |skips| > 0 && skips[|skips| - 1] == TopWindow(numBits, c)
      decreases numBits - skip
    {
      var chunk := Region(g, bases, start, density, exponents, skip, c, skip == 0);
      chunks := chunks + [chunk];
      skips := skips + [skip];
      skip := skip + c;
    }
    r := JoinChunks(g, chunks, c, bases, start, density, exponents, skips, numBits);
  }

  // ---- The dense variant ----

  ghost function Full(n: nat): (d: seq<bool>)
    ensures |d| == n && forall i | 0 <= i < n :: d[i]
  {
    seq(n, _ => true)
  }

  lemma {:induction false} RankFull(n: nat, i: nat)
    requires i <= n
    ensures Rank(Full(n), i) == i
  {
    if i > 0 { RankFull(n, i - 1); }
  }

  /** The sum of all scalars times the bases at the same index. */
  ghost function DenseSum<G(!new)>(g: Group<G>, bases: seq<G>, scalars: seq<nat>): G {
    Combine(g, bases, 0, Full(|scalars|), scalars, |scalars|)
  }

  ghost function Masked(d: seq<nat>, lo: nat, hi: nat): (m: seq<nat>)
    ensures |m| == |d| && forall i | 0 <= i < |d| :: m[i] == if lo <= i < hi then d[i] else 0
  {
    seq<nat>(|d|, i requires 0 <= i < |d| => if lo <= i < hi then d[i] else 0)
  }

  ghost function Before(d: seq<nat>, turn: seq<nat>, x: nat): (m: seq<nat>)
    requires |turn| == |d|
    ensures |m| == |d| && forall i | 0 <= i < |d| :: m[i] == if turn[i] < x then d[i] else 0
  {
    seq<nat>(|d|, i requires 0 <= i < |d| => if turn[i] < x then d[i] else 0)
  }

  lemma {:induction false} CombineTail<G(!new)>(g: Group<G>, bases: seq<G>, start: nat, density: seq<bool>,
                                                scalars: seq<nat>, hi: nat, n: nat)
    requires g.Valid() && hi <= n <= |density| == |scalars| && forall i | hi <= i < n :: scalars[i] == 0
    ensures Combine(g, bases, start, density, scalars, n) == Combine(g, bases, start, density, scalars, hi)
  {
    if hi < n {
      CombineTail(g, bases, start, density, scalars, hi, n - 1);
      Zero(g, Combine(g, bases, start, density, scalars, hi));
    }
  }

  lemma {:induction false} DenseItem<G(!new)>(g: Group<G>, bases: seq<G>, scalars: seq<nat>, i: nat)
    requires i < |bases| == |scalars|
    ensures Combine(g, bases, 0, Full(|bases|), scalars, i + 1)
         == g.add(Combine(g, bases, 0, Full(|bases|), scalars, i), Times(g, scalars[i], bases[i]))
  {
    RankFull(|bases|, i);
  }

  /** One thread: its chunk goes into its own buckets. */
  method DenseChunk<G(!new)>(g: Group<G>, bases: seq<G>, exponents: seq<nat>, skip: nat, c: nat, handleTrivial: bool,
                             lo: nat, hi: nat) returns (acc: G)
    requires g.Valid() && 0 < c < 64 && |bases| == |exponents| && lo <= hi <= |bases| && (handleTrivial <==> skip == 0)
    ensures acc == DenseSum(g, bases, Masked(Digits(exponents, skip, c), lo, hi))
  {
    var buckets := new G[Pow2(c) - 1](_ => g.zero);
    acc := g.zero;
    ghost var n, scalars := |bases|, Masked(Digits(exponents, skip, c), lo, hi);
    WeightedZeros(g, buckets[..]);
    CombineZeros(g, bases, 0, Full(n), scalars, lo);
    Zero(g, g.zero);
    for i := lo to hi
      invariant g.add(acc, Weighted(g, buckets[..])) == Combine(g, bases, 0, Full(n), scalars, i)
    {
      DenseItem(g, bases, scalars, i);
      acc := DensePlace(g, buckets, acc, bases[i], exponents[i], skip, c, handleTrivial);
    }
    acc := SumBuckets(g, buckets[..], acc);
    CombineTail(g, bases, 0, Full(n), scalars, hi, n);
  }

  method DensePlace<G(!new)>(g: Group<G>, buckets: array<G>, acc: G, base: G, exp: nat, skip: nat, c: nat,
                             handleTrivial: bool)
    returns (acc': G)
    requires g.Valid() && 0 < c < 64 && buckets.Length == Pow2(c) - 1 && (handleTrivial <==> skip == 0)
    modifies buckets
    ensures g.add(acc', Weighted(g, buckets[..]))
         == g.add(g.add(acc, Weighted(g, old(buckets[..]))), Times(g, Digit(exp, skip, c), base))
  {
    TrivialDigit(skip, c);
    ghost var w := Weighted(g, buckets[..]);
    Zero(g, g.add(acc, w));
    TimesOne(g, base);
    acc' := acc;
    if exp != 0 {
      if exp == 1 {
        if handleTrivial {
          SwapLast(g, acc, base, w);
          acc' := g.add(acc, base);
        }
      } else {
        var d := Digit(exp, skip, c);
        if d != 0 {
          WeightedUpdate(g, buckets[..], d - 1, base);
          Assoc(g, acc, w, Times(g, d, base));
          ghost var b := buckets[..];
          buckets[d - 1] := g.add(buckets[d - 1], base);
          assert buckets[..] == b[d - 1 := g.add(b[d - 1], base)];
        }
      }
    }
  }

  /** The threads add to the shared sum in any order. */
  method DenseRegion<G(!new)>(g: Group<G>, bases: seq<G>, exponents: seq<nat>, skip: nat, c: nat, handleTrivial: bool,
                              chunk: nat, order: seq<nat>) returns (region: G)
    requires g.Valid() && 0 < c < 64 && |bases| == |exponents| && (handleTrivial <==> skip == 0)
    requires Schedule(order, |bases|, chunk)
    ensures region == DenseSum(g, bases, Digits(exponents, skip, c))
  {
    ghost var n, digits := |bases|, Digits(exponents, skip, c);
    ghost var turn := Turns(order, n, chunk, n);
    region := g.zero;
    CombineZeros(g, bases, 0, Full(n), Before(digits, turn, 0), n);
    for x := 0 to |order|
      invariant region == DenseSum(g, bases, Before(digits, turn, x))
    {
      var lo, hi := ChunkBounds(|bases|, chunk, order[x]);
      var acc := DenseChunk(g, bases, exponents, skip, c, handleTrivial, lo, hi);
      forall i: nat | i < n
        ensures Before(digits, turn, x + 1)[i] == Before(digits, turn, x)[i] * 1 + Masked(digits, lo, hi)[i]
      {
        assert Turn(order, chunk, turn, x, i);
        assert lo <= i < hi <==> InChunk(order[x], chunk, i);
      }
      CombineLinear(g, bases, 0, Full(n), Before(digits, turn, x + 1), 1, Before(digits, turn, x),
                    Masked(digits, lo, hi), n);
      TimesOne(g, region);
      region := g.add(region, acc);
    }
    assert Before(digits, turn, |order|) == digits;
  }

  /** This region and, doubled, all higher ones. */
  method DenseMultiexpInner<G(!new)>(g: Group<G>, bases: seq<G>, exponents: seq<nat>, skip: nat, c: nat,
                                     handleTrivial: bool, numBits: nat, chunk: nat, orders: nat -> seq<nat>)
    returns (r: G)
    requires g.Valid() && 0 < c < 64 && |bases| == |exponents| && (handleTrivial <==> skip == 0)
    requires Bounded(exponents, numBits) && forall s: nat :: Schedule(orders(s), |bases|, chunk)
    ensures r == DenseSum(g, bases, Shifted(exponents, skip))
    decreases if skip < numBits then numBits - skip else 0
  {
    var region := DenseRegion(g, bases, exponents, skip, c, handleTrivial, chunk, orders(skip));
    if skip + c >= numBits {
      HighestWindow(exponents, numBits, skip, c);
      return region;
    }
    var nextRegion := DenseMultiexpInner(g, bases, exponents, skip + c, c, false, numBits, chunk, orders);
    nextRegion := Doubled(g, nextRegion, c);
    JoinStep(g, bases, 0, Full(|bases|), exponents, skip, c);
    r := g.add(nextRegion, region);
  }

  /** An error for different lengths; otherwise the sum, for every window width, chunk size and
      order of the threads. */
  method DenseMultiexp<G(!new)>(g: Group<G>, bases: seq<G>, exponents: seq<nat>, c: nat, numBits: nat,
                                chunk: nat, orders: nat -> seq<nat>) returns (r: Result<G>)
    requires g.Valid() && 0 < c < 64 && Bounded(exponents, numBits)
    requires forall s: nat :: Schedule(orders(s), |bases|, chunk)
    ensures r.Err? <==> |bases| != |exponents|
    ensures r.Err? ==> r.error == AssignmentMissing
    ensures r.Ok? ==> r.value == DenseSum(g, bases, exponents)
  {
    if |exponents| != |bases| {
      return Err(AssignmentMissing);
    }
    var sum := DenseMultiexpInner(g, bases, exponents, 0, c, true, numBits, chunk, orders);
    NothingShifted(exponents);
    return Ok(sum);
  }
}
