/** The transform split over several threads: each folds the input, transforms a shorter vector,
    and the results are interleaved.  It gives the same vector as the serial transform. */
module FftParallel {
  import opened Modular
  import opened Permutation
  import opened Spaces
  import opened FftSerial
  import opened Threads

  function Index(s: nat, n: nat, i: nat): nat {
    assert s * n >= 0;
    i + s * n
  }

  ghost function FoldTerm<G(!new)>(g: Space<G>, a: seq<G>, omega: int, n: nat, j: nat, i: nat, s: nat): (x: G)
    requires g.Valid() && g.HasAll(a)
    ensures g.has(x)
  {
    var c := Coef(g, a, Index(s, n, i));
    Closed(g, c, c, PowAt(omega, j, Index(s, n, i)));
    g.scale(c, PowAt(omega, j, Index(s, n, i)))
  }

  /** Input `i` of the `j`-th short transform: every n-th input from `i` on, twisted by omega^j. */
  ghost function Fold<G(!new)>(g: Space<G>, a: seq<G>, omega: int, n: nat, cpus: nat, j: nat, i: nat): (x: G)
    requires g.Valid() && g.HasAll(a)
    ensures g.has(x)
  {
    if cpus == 0 then g.zero
    else
      var rest, term := Fold(g, a, omega, n, cpus - 1, j, i), FoldTerm(g, a, omega, n, j, i, cpus - 1);
      Closed(g, rest, term, 0);
      g.add(rest, term)
  }

  ghost predicate IsFolded<G(!new)>(g: Space<G>, a: seq<G>, omega: int, n: nat, cpus: nat, j: nat, t: seq<G>, i: nat)
    requires Ready(g, a, t)
  {
    Coef(g, t, i) == Fold(g, a, omega, n, cpus, j, i)
  }

  ghost predicate Folded<G(!new)>(g: Space<G>, a: seq<G>, omega: int, n: nat, cpus: nat, j: nat, t: seq<G>)
    requires Ready(g, a, t)
  {
    |t| == n && forall i: nat | i < n :: IsFolded(g, a, omega, n, cpus, j, t, i)
  }

  // ---- Long and short transforms ----

  /** The terms of block `s` of the long transform, up to `count`. */
  ghost function Block<G(!new)>(g: Space<G>, a: seq<G>, omega: int, n: nat, k: nat, s: nat, count: nat): (x: G)
    requires g.Valid() && g.HasAll(a)
    ensures g.has(x)
  {
    if count == 0 then g.zero
    else
      var rest, term := Block(g, a, omega, n, k, s, count - 1), Term(g, a, 0, 1, Index(s, n, count - 1), omega, k);
      Closed(g, rest, term, 0);
      g.add(rest, term)
  }

  lemma {:induction false} BlockAdded<G(!new)>(g: Space<G>, a: seq<G>, omega: int, n: nat, k: nat, s: nat, x: nat,
                                               count: nat)
    requires g.Valid() && g.HasAll(a) && x == Index(s, n, 0)
    ensures Dft(g, a, 0, 1, x + count, omega, k)
         == g.add(Dft(g, a, 0, 1, x, omega, k), Block(g, a, omega, n, k, s, count))
  {
    var before := Dft(g, a, 0, 1, x, omega, k);
    if count == 0 {
      Units(g, before);
    } else {
      var i := count - 1;
      BlockAdded(g, a, omega, n, k, s, x, i);
      assert x + i == Index(s, n, i);
      Reordered(g, before, Block(g, a, omega, n, k, s, i), Term(g, a, 0, 1, x + i, omega, k));
    }
  }

  lemma {:induction false} RegroupFour(s: int, n: int, q: int, c: int)
    ensures (s * n) * (q * c) == (c * n) * (s * q)
  {
    Exchange(s * n, q, c);
    assert (s * n) * q == n * (s * q);
    assert c * (n * (s * q)) == (c * n) * (s * q);
  }

  /** One term of the long transform is a term of the fold times a power of the shorter root. */
  lemma {:induction false} BlockTerm<G(!new)>(g: Space<G>, a: seq<G>, omega: int, n: nat, cpus: nat, j: nat, q: nat,
                                              s: nat, i: nat, k: nat, full: nat)
    requires g.Valid() && g.HasAll(a)
    requires k == q * cpus + j && full == cpus * n && Red(g.p, Pow(omega, full)) == Red(g.p, 1)
    ensures Term(g, a, 0, 1, Index(s, n, i), omega, k)
         == g.scale(FoldTerm(g, a, omega, n, j, i, s), PowAt(Pow(omega, cpus), i, q))
  {
    var x := Index(s, n, i);
    var c, u, v := Coef(g, a, x), PowAt(omega, j, x), PowAt(Pow(omega, cpus), i, q);
    assert 0 + x * 1 == x;
    BlockPower(g.p, omega, n, cpus, j, q, s, i, k, full);
    ScaleCongruent(g, c, PowAt(omega, x, k), u * v);
    ScaleOfScale(g, c, u, v);
  }

  lemma {:induction false} BlockPower(p: nat, omega: int, n: nat, cpus: nat, j: nat, q: nat, s: nat, i: nat, k: nat,
                                     full: nat)
    requires p > 0 && k == q * cpus + j && full == cpus * n && Red(p, Pow(omega, full)) == Red(p, 1)
    ensures Red(p, PowAt(omega, Index(s, n, i), k))
         == Red(p, PowAt(omega, j, Index(s, n, i)) * PowAt(Pow(omega, cpus), i, q))
  {
    var idx := Index(s, n, i);
    var e: nat, f: nat := i * q, s * q;
    var x: nat, y: nat, z: nat := j * idx, cpus * e, full * f;
    SameExponent(idx * k, idx, k, q, cpus, j, x, y, z, e, f, full, n, s, i);
    PowerParts(p, omega, cpus, full, e, f, x, y, z);
  }

  /** The exponent of one term of the long transform, taken apart. */
  lemma {:induction false} SameExponent(total: int, idx: int, k: int, q: int, cpus: int, j: int, x: int, y: int, z: int,
                                        e: int, f: int, full: int, n: int, s: int, i: int)
    requires total == idx * k && idx == i + s * n && k == q * cpus + j && full == cpus * n
    requires x == j * idx && e == i * q && f == s * q && y == cpus * e && z == full * f
    ensures total == x + y + z
  {
    assert idx * k == idx * (q * cpus) + idx * j;
    assert idx * (q * cpus) == i * (q * cpus) + (s * n) * (q * cpus);
    Exchange(i, q, cpus);
    RegroupFour(s, n, q, cpus);
  }

  lemma {:induction false} PowerParts(p: nat, omega: int, cpus: nat, full: nat, e: nat, f: nat, x: nat, y: nat, z: nat)
    requires p > 0 && y == cpus * e && z == full * f && Red(p, Pow(omega, full)) == Red(p, 1)
    ensures Red(p, Pow(omega, x + y + z)) == Red(p, Pow(omega, x) * Pow(Pow(omega, cpus), e))
  {
    PowPow(omega, cpus, e, y);
    PowTrivial(p, omega, full, f, z);
    DropTurns(p, omega, x, y, z);
  }

  lemma {:induction false} DropTurns(p: nat, omega: int, x: nat, y: nat, z: nat)
    requires p > 0 && Red(p, Pow(omega, z)) == Red(p, 1)
    ensures Red(p, Pow(omega, x + y + z)) == Red(p, Pow(omega, x) * Pow(omega, y))
  {
    PowAdd(omega, x + y, z);
    PowAdd(omega, x, y);
    var u := Pow(omega, x) * Pow(omega, y);
    RedMul(p, u, u, Pow(omega, z), 1);
  }

  /** The sum over the folds of the first `c` blocks, with the powers of the shorter root. */
  ghost function FoldSum<G(!new)>(g: Space<G>, a: seq<G>, omega: int, n: nat, cpus: nat, c: nat, j: nat, q: nat,
                                  count: nat): (x: G)
    requires g.Valid() && g.HasAll(a)
    ensures g.has(x)
  {
    if count == 0 then g.zero
    else
      var i := count - 1;
      var rest, fold := FoldSum(g, a, omega, n, cpus, c, j, q, i), Fold(g, a, omega, n, c, j, i);
      Closed(g, fold, fold, PowAt(Pow(omega, cpus), i, q));
      Closed(g, rest, g.scale(fold, PowAt(Pow(omega, cpus), i, q)), 0);
      g.add(rest, g.scale(fold, PowAt(Pow(omega, cpus), i, q)))
  }

  lemma {:induction false} FoldSumOfNone<G(!new)>(g: Space<G>, a: seq<G>, omega: int, n: nat, cpus: nat, j: nat, q: nat,
                                                  count: nat)
    requires g.Valid() && g.HasAll(a)
    ensures FoldSum(g, a, omega, n, cpus, 0, j, q, count) == g.zero
  {
    if count > 0 {
      FoldSumOfNone(g, a, omega, n, cpus, j, q, count - 1);
      ScaleOfZero(g, PowAt(Pow(omega, cpus), count - 1, q));
      Units(g, g.zero);
    }
  }

  /** One more block in the folds is one more block of terms. */
  lemma {:induction false} FoldSumAdded<G(!new)>(g: Space<G>, a: seq<G>, omega: int, n: nat, cpus: nat, c: nat, j: nat,
                                                 q: nat, count: nat, k: nat, full: nat)
    requires g.Valid() && g.HasAll(a)
    requires k == q * cpus + j && full == cpus * n && Red(g.p, Pow(omega, full)) == Red(g.p, 1)
    ensures FoldSum(g, a, omega, n, cpus, c + 1, j, q, count)
         == g.add(FoldSum(g, a, omega, n, cpus, c, j, q, count), Block(g, a, omega, n, k, c, count))
  {
    if count == 0 {
      Units(g, g.zero);
    } else {
      var i, v := count - 1, PowAt(Pow(omega, cpus), count - 1, q);
      var fold, term := Fold(g, a, omega, n, c, j, i), FoldTerm(g, a, omega, n, j, i, c);
      FoldSumAdded(g, a, omega, n, cpus, c, j, q, i, k, full);
      ScaleOfSum(g, fold, term, v);
      BlockTerm(g, a, omega, n, cpus, j, q, c, i, k, full);
      Closed(g, fold, fold, v);
      Paired(g, FoldSum(g, a, omega, n, cpus, c, j, q, i), Block(g, a, omega, n, k, c, i), g.scale(fold, v),
             g.scale(term, v));
    }
  }

  lemma {:induction false} FoldSumIsLong<G(!new)>(g: Space<G>, a: seq<G>, omega: int, n: nat, cpus: nat, c: nat, j: nat,
                                                  q: nat, k: nat, full: nat, x: nat)
    requires g.Valid() && g.HasAll(a) && x == Index(c, n, 0)
    requires k == q * cpus + j && full == cpus * n && Red(g.p, Pow(omega, full)) == Red(g.p, 1)
    ensures FoldSum(g, a, omega, n, cpus, c, j, q, n) == Dft(g, a, 0, 1, x, omega, k)
  {
    if c == 0 {
      assert 0 * n == 0;
      FoldSumOfNone(g, a, omega, n, cpus, j, q, n);
    } else {
      var y := Index(c - 1, n, 0);
      assert y + n == x;
      FoldSumIsLong(g, a, omega, n, cpus, c - 1, j, q, k, full, y);
      FoldSumAdded(g, a, omega, n, cpus, c - 1, j, q, n, k, full);
      BlockAdded(g, a, omega, n, k, c - 1, y, n);
    }
  }

  lemma {:induction false} FoldSumIsShort<G(!new)>(g: Space<G>, a: seq<G>, omega: int, n: nat, cpus: nat, j: nat,
                                                   q: nat, t: seq<G>, root: int, count: nat)
    requires Ready(g, a, t) && Folded(g, a, omega, n, cpus, j, t) && root == FieldPow(g.p, omega, cpus) && count <= n
    ensures FoldSum(g, a, omega, n, cpus, cpus, j, q, count) == Dft(g, t, 0, 1, count, root, q)
  {
    if count > 0 {
      var i := count - 1;
      FoldSumIsShort(g, a, omega, n, cpus, j, q, t, root, i);
      assert IsFolded(g, a, omega, n, cpus, j, t, i) && 0 + i * 1 == i;
      RedRed(g.p, Pow(omega, cpus));
      var e := i * q;
      RedPow(g.p, root, Pow(omega, cpus), e);
      ScaleCongruent(g, Coef(g, t, i), PowAt(root, i, q), PowAt(Pow(omega, cpus), i, q));
    }
  }

  /** Entry q * cpus + j of the long transform is entry q of the j-th short one. */
  lemma {:induction false} SplitTransform<G(!new)>(g: Space<G>, a: seq<G>, omega: int, n: nat, cpus: nat, j: nat,
                                                   q: nat, k: nat, t: seq<G>, root: int)
    requires Ready(g, a, t) && k == q * cpus + j && |a| == cpus * n && Red(g.p, Pow(omega, |a|)) == Red(g.p, 1)
    requires Folded(g, a, omega, n, cpus, j, t) && root == FieldPow(g.p, omega, cpus)
    ensures Dft(g, t, 0, 1, n, root, q) == Dft(g, a, 0, 1, |a|, omega, k)
  {
    FoldSumIsLong(g, a, omega, n, cpus, cpus, j, q, k, |a|, |a|);
    FoldSumIsShort(g, a, omega, n, cpus, j, q, t, root, n);
  }

  // ---- The threads ----

  lemma {:induction false} PowerAfter(p: nat, omega: int, j: nat, x: nat, d: nat, elt: int, step: int)
    requires p > 0 && elt == Red(p, PowAt(omega, j, x)) && step == Red(p, PowAt(omega, j, d))
    ensures Red(p, elt * step) == Red(p, PowAt(omega, j, x + d))
  {
    var e, f := j * x, j * d;
    assert j * (x + d) == e + f;
    PowAdd(omega, e, f);
    RedMul(p, elt, Pow(omega, e), step, Pow(omega, f));
  }

  lemma {:induction false} Wrap(p: nat, omega: int, j: nat, i: nat, full: nat)
    requires p > 0 && Red(p, Pow(omega, full)) == Red(p, 1)
    ensures Red(p, PowAt(omega, j, i + full)) == Red(p, PowAt(omega, j, i))
  {
    PowPeriodic(p, j, omega, i, full);
  }

  lemma {:induction false} InputIndex(n: nat, cpus: nat, i: nat, s: nat, len: nat)
    requires i < n && s < cpus && len == cpus * n
    ensures (i + s * n) % len == i + s * n == Index(s, n, i) < len
  {
    BlocksInOrder(n, s, cpus);
    assert n * s == s * n && n * cpus == cpus * n;
    QuotientUnique(i + s * n, len, 0, i + s * n);
  }

  /** The inner loop of the shuffle: one input of the short transform. */
  method FoldOne<G(!new)>(g: Space<G>, a: array<G>, omega: int, n: nat, cpus: nat, j: nat, i: nat, omegaStep: int,
                          elt0: int)
    returns (sum: G, elt: int)
    requires g.Valid() && g.HasAll(a[..]) && a.Length == cpus * n && i < n
    requires omegaStep == Red(g.p, PowAt(omega, j, n)) && elt0 == Red(g.p, PowAt(omega, j, i))
    ensures sum == Fold(g, a[..], omega, n, cpus, j, i) && elt == Red(g.p, PowAt(omega, j, Index(cpus, n, i)))
  {
    sum, elt := g.zero, elt0;
    for s := 0 to cpus
      invariant sum == Fold(g, a[..], omega, n, s, j, i)
      invariant elt == Red(g.p, PowAt(omega, j, Index(s, n, i)))
    {
      InputIndex(n, cpus, i, s, a.Length);
      var idx := (i + s * n) % a.Length;
      var t := g.scale(a[idx], elt);
      RedRed(g.p, PowAt(omega, j, idx));
      ScaleCongruent(g, a[idx], elt, PowAt(omega, j, idx));
      sum := g.add(sum, t);
      PowerAfter(g.p, omega, j, Index(s, n, i), n, elt, omegaStep);
      assert Index(s, n, i) + n == Index(s + 1, n, i);
      elt := Red(g.p, elt * omegaStep);
    }
  }

  /** Shuffles the input into that of the `j`-th short transform. */
  method Shuffle<G(!new)>(g: Space<G>, a: array<G>, omega: int, n: nat, cpus: nat, j: nat) returns (t: array<G>)
    requires g.Valid() && g.HasAll(a[..]) && a.Length == cpus * n && Red(g.p, Pow(omega, a.Length)) == Red(g.p, 1)
    ensures fresh(t) && g.HasAll(t[..]) && Folded(g, a[..], omega, n, cpus, j, t[..])
  {
    assert j * n >= 0 && j * 1 == j && j * 0 == 0;
    var omegaJ := FieldPow(g.p, omega, j);
    var omegaStep := FieldPow(g.p, omega, j * n);
    var elt := Red(g.p, 1);
    t := new G[n](_ => g.zero);
    for i := 0 to n
      invariant elt == Red(g.p, PowAt(omega, j, i))
      invariant g.HasAll(t[..])
      invariant forall k: nat | k < i :: IsFolded(g, a[..], omega, n, cpus, j, t[..], k)
    {
      ghost var was := t[..];
      t[i], elt := FoldOne(g, a, omega, n, cpus, j, i, omegaStep, elt);
      forall k: nat | k < i + 1 ensures IsFolded(g, a[..], omega, n, cpus, j, t[..], k) {
        if k < i { assert IsFolded(g, a[..], omega, n, cpus, j, was, k); }
      }
      Wrap(g.p, omega, j, i, a.Length);
      assert Index(cpus, n, i) == i + a.Length;
      PowerAfter(g.p, omega, j, i, 1, elt, omegaJ);
      elt := Red(g.p, elt * omegaJ);
    }
  }

  /** The entries of the long transform with index j modulo cpus. */
  ghost predicate IsShare<G(!new)>(g: Space<G>, a: seq<G>, omega: int, n: nat, cpus: nat, j: nat, t: seq<G>)
    requires g.Valid() && g.HasAll(a)
  {
    |t| == n && g.HasAll(t) && forall q: nat | q < n :: ShareAt(g, a, omega, cpus, j, t, q)
  }

  ghost predicate ShareAt<G(!new)>(g: Space<G>, a: seq<G>, omega: int, cpus: nat, j: nat, t: seq<G>, q: nat)
    requires Ready(g, a, t)
  {
    Coef(g, t, q) == Dft(g, a, 0, 1, |a|, omega, Index(q, cpus, j))
  }

  lemma {:induction false} ShortRoot(p: nat, omega: int, logN: nat, logCpus: nat, root: int)
    requires logCpus <= logN && IsRoot(p, omega, logN) && root == FieldPow(p, omega, Pow2(logCpus))
    ensures IsRoot(p, root, logN - logCpus)
  {
    var cpus, l := Pow2(logCpus), logN - logCpus;
    RedRed(p, Pow(omega, cpus));
    if l == 0 {
      RootOrder(p, omega, logN);
    } else {
      var h := Pow2(l - 1);
      RedPow(p, root, Pow(omega, cpus), h);
      Pow2Add(logCpus, l - 1);
      PowPow(omega, cpus, h, Pow2(logN - 1));
    }
  }

  /** One thread of the first scope. */
  method SubFft<G(!new)>(g: Space<G>, a: array<G>, omega: int, logN: nat, logCpus: nat, j: nat, newOmega: int)
    returns (t: array<G>)
    requires g.Valid() && g.HasAll(a[..]) && logCpus <= logN && IsRoot(g.p, omega, logN) && a.Length == Pow2(logN)
    requires newOmega == FieldPow(g.p, omega, Pow2(logCpus))
    ensures fresh(t) && IsShare(g, a[..], omega, Pow2(logN - logCpus), Pow2(logCpus), j, t[..])
  {
    var n, cpus := Pow2(logN - logCpus), Pow2(logCpus);
    Pow2Add(logCpus, logN - logCpus);
    RootOrder(g.p, omega, logN);
    t := Shuffle(g, a, omega, n, cpus, j);
    ShortRoot(g.p, omega, logN, logCpus, newOmega);
    ghost var folded := t[..];
    SerialFft(g, t, newOmega, logN - logCpus);
    forall q: nat | q < n ensures ShareAt(g, a[..], omega, cpus, j, t[..], q) {
      SplitTransform(g, a[..], omega, n, cpus, j, q, Index(q, cpus, j), folded, newOmega);
    }
  }

  /** Interleaves the short transforms, chunk by chunk. */
  method Gather<G(!new)>(g: Space<G>, a: array<G>, ghost a0: seq<G>, omega: int, tmp: array<seq<G>>, n: nat, cpus: nat,
                         chunk: nat, order: seq<nat>)
    requires g.Valid() && g.HasAll(a0) && cpus > 0 && |a0| == a.Length == cpus * n && tmp.Length == cpus
    requires forall j: nat | j < cpus :: IsShare(g, a0, omega, n, cpus, j, tmp[j])
    requires a as object != tmp && Schedule(order, a.Length, chunk)
    modifies a
    ensures a[..] == Fourier(g, a0, omega)
  {
    ghost var turn := Turns(order, a.Length, chunk, a.Length);
    for x := 0 to |order|
      invariant forall i: nat | i < a.Length && turn[i] < x :: a[i] == Fourier(g, a0, omega)[i]
    {
      var lo, hi := ChunkBounds(a.Length, chunk, order[x]);
      ghost var was := a[..];
      var idx := lo;
      while idx < hi
        invariant lo <= idx <= hi
        invariant forall i: nat | i < a.Length && !(lo <= i < idx) :: a[i] == was[i]
        invariant forall i: nat | lo <= i < idx :: a[i] == Fourier(g, a0, omega)[i]
      {
        InterleavedIndex(n, cpus, idx);
        assert ShareAt(g, a0, omega, cpus, idx % cpus, tmp[idx % cpus], idx / cpus);
        a[idx] := tmp[idx % cpus][idx / cpus];
        idx := idx + 1;
      }
      forall i: nat | i < a.Length && turn[i] < x + 1 ensures a[i] == Fourier(g, a0, omega)[i] {
        assert Turn(order, chunk, turn, x, i);
      }
    }
  }

  lemma {:induction false} InterleavedIndex(n: nat, cpus: nat, idx: nat)
    requires cpus > 0 && idx < cpus * n
    ensures idx % cpus < cpus && idx / cpus < n && Index(idx / cpus, cpus, idx % cpus) == idx
  {
    var q := idx / cpus;
    assert idx == cpus * q + idx % cpus;
    if q > n { BlocksInOrder(cpus, n, q); }
  }

  /** The result does not depend on the number of threads or on the order in which they run. */
  method ParallelFft<G(!new)>(g: Space<G>, a: array<G>, omega: int, logN: nat, logCpus: nat, threads: seq<nat>,
                              chunk: nat, order: seq<nat>)
    requires g.Valid() && g.HasAll(a[..]) && logCpus <= logN && IsRoot(g.p, omega, logN) && a.Length == Pow2(logN)
    requires |threads| == Pow2(logCpus) && IsPerm(threads, 0) && Schedule(order, a.Length, chunk)
    modifies a
    ensures a[..] == Fourier(g, old(a[..]), omega)
  {
    var numCpus, n := Pow2(logCpus), Pow2(logN - logCpus);
    var tmp := new seq<G>[numCpus](_ => []);
    var newOmega := FieldPow(g.p, omega, numCpus);
    ghost var a0 := a[..];
    for x := 0 to numCpus
      invariant a[..] == a0
      invariant forall y | 0 <= y < x :: IsShare(g, a0, omega, n, numCpus, threads[y], tmp[threads[y]])
    {
      var j := threads[x];
      var t := SubFft(g, a, omega, logN, logCpus, j, newOmega);
      tmp[j] := t[..];
    }
    forall j: nat | j < numCpus ensures IsShare(g, a0, omega, n, numCpus, j, tmp[j]) {
      var y := PermIsOnto(threads, 0, j);
      assert threads[y] == j;
    }
    Pow2Add(logCpus, logN - logCpus);
    Gather(g, a, a0, omega, tmp, n, numCpus, chunk, order);
  }

  /** How a worker with 2^logCpus threads runs: the order of the threads of the first scope, and
      the chunks of the second. */
  datatype Worker = Worker(logCpus: nat, threads: seq<nat>, chunk: nat, order: seq<nat>) {
    ghost predicate Valid(len: nat) {
      |threads| == Pow2(logCpus) && IsPerm(threads, 0) && Schedule(order, len, chunk)
    }
  }

  /** Serial for small sizes, parallel otherwise: the same vector from every worker. */
  method BestFft<G(!new)>(g: Space<G>, a: array<G>, worker: Worker, omega: int, logN: nat)
    requires g.Valid() && g.HasAll(a[..]) && IsRoot(g.p, omega, logN) && a.Length == Pow2(logN)
    requires worker.Valid(a.Length)
    modifies a
    ensures g.HasAll(a[..]) && a[..] == Fourier(g, old(a[..]), omega)
  {
    if logN <= worker.logCpus {
      SerialFft(g, a, omega, logN);
    } else {
      ParallelFft(g, a, omega, logN, worker.logCpus, worker.threads, worker.chunk, worker.order);
    }
  }
}
