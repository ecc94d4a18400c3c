/** The radix-2 Fourier transform of crates/bellman/src/domain.rs over any space over the residues modulo p:
    bit reversal and butterflies in place, and the proof that they evaluate the Fourier sums. */
module FftSerial {
  import opened Modular
  import opened Spaces

  // ---- Bit reversal ----

  /** The lowest `l` bits of `n` in reverse order. */
  ghost function Rev(n: nat, l: nat): (r: nat)
    ensures r < Pow2(l)
  {
    if l == 0 then 0 else Rev(n / 2, l - 1) + (if n % 2 == 0 then 0 else Pow2(l - 1))
  }

  lemma {:induction false} RevTopBit(x: nat, bit: nat, top: nat, l: nat)
    requires l > 0 && x < Pow2(l - 1) && bit <= 1 && top == (if bit == 0 then 0 else Pow2(l - 1))
    ensures Rev(x + top, l) == 2 * Rev(x, l - 1) + bit
  {
    if l == 1 {
      assert x == 0 && Pow2(0) == 1;
      assert Rev(bit, 1) == Rev(bit / 2, 0) + bit;
    } else {
      var half := if bit == 0 then 0 else Pow2(l - 2);
      RevTopBit(x / 2, bit, half, l - 1);
      assert top == 2 * half && (x + top) / 2 == x / 2 + half && (x + top) % 2 == x % 2;
    }
  }

  lemma {:induction false} RevInvolution(n: nat, l: nat)
    requires n < Pow2(l)
    ensures Rev(Rev(n, l), l) == n
  {
    if l > 0 {
      RevInvolution(n / 2, l - 1);
      RevTopBit(Rev(n / 2, l - 1), n % 2, if n % 2 == 0 then 0 else Pow2(l - 1), l);
    }
  }

  method BitReverse(n: nat, l: nat) returns (r: nat)
    ensures r == Rev(n, l)
  {
    r := 0;
    var m := n;
    for i := 0 to l
      invariant r * Pow2(l - i) + Rev(m, l - i) == Rev(n, l)
    {
      ShiftBit(r, m, l - i);
      r := 2 * r + m % 2;
      m := m / 2;
    }
  }

  lemma {:induction false} ShiftBit(r: nat, m: nat, l: nat)
    requires l > 0
    ensures (2 * r + m % 2) * Pow2(l - 1) + Rev(m / 2, l - 1) == r * Pow2(l) + Rev(m, l)
  {
    ShiftedBit(r, m % 2, Pow2(l - 1));
  }

  lemma ShiftedBit(r: nat, b: nat, h: nat)
    requires b < 2
    ensures (2 * r + b) * h == r * (2 * h) + if b == 0 then 0 else h
  {
    assert (2 * r + b) * h == (2 * r) * h + b * h;
  }

  /** Position `i` after the swaps of all positions below `k`. */
  ghost predicate Reversed<G>(before: seq<G>, after: seq<G>, l: nat, k: nat, i: nat)
    requires |before| == |after| == Pow2(l) && i < Pow2(l)
  {
    after[i] == if i < k || Rev(i, l) < k then before[Rev(i, l)] else before[i]
  }

  method Permute<G(!new)>(a: array<G>, l: nat)
    requires a.Length == Pow2(l)
    modifies a
    ensures forall i: nat | i < Pow2(l) :: a[i] == old(a[..])[Rev(i, l)]
  {
    ghost var before := a[..];
    for k := 0 to a.Length
      invariant forall i: nat | i < Pow2(l) :: Reversed(before, a[..], l, k, i)
    {
      var rk := BitReverse(k, l);
      RevInvolution(k, l);
      ghost var was := a[..];
      assert Reversed(before, was, l, k, k) && Reversed(before, was, l, k, rk);
      if k < rk {
        a[rk], a[k] := a[k], a[rk];
      }
      ghost var now, next := a[..], k + 1;
      forall i: nat | i < Pow2(l) ensures Reversed(before, now, l, next, i) {
        RevInvolution(i, l);
        assert Reversed(before, was, l, k, i);
      }
    }
    forall i: nat | i < Pow2(l) ensures a[i] == before[Rev(i, l)] {
      assert Reversed(before, a[..], l, Pow2(l), i);
    }
  }

  // ---- Fourier sums ----

  ghost function Coef<G(!new)>(g: Space<G>, a: seq<G>, i: int): (x: G)
    requires g.Valid() && g.HasAll(a)
    ensures g.has(x)
  {
    if 0 <= i < |a| then a[i] else g.zero
  }

  /** The sum of `a[r + t * stride] * w^(t * j)` over t < count. */
  ghost function Dft<G(!new)>(g: Space<G>, a: seq<G>, r: nat, stride: nat, count: nat, w: int, j: nat): (x: G)
    requires g.Valid() && g.HasAll(a)
    ensures g.has(x)
  {
    if count == 0 then g.zero
    else
      var rest, term := Dft(g, a, r, stride, count - 1, w, j), Term(g, a, r, stride, count - 1, w, j);
      Closed(g, rest, term, 0);
      g.add(rest, term)
  }

  ghost function Term<G(!new)>(g: Space<G>, a: seq<G>, r: nat, stride: nat, t: nat, w: int, j: nat): (x: G)
    requires g.Valid() && g.HasAll(a)
    ensures g.has(x)
  {
    var c := Coef(g, a, r + t * stride);
    Closed(g, c, c, PowAt(w, t, j));
    g.scale(c, PowAt(w, t, j))
  }

  ghost function PowAt(w: int, t: nat, j: nat): int {
    assert t * j >= 0;
    Pow(w, t * j)
  }

  lemma {:induction false} PowSquare(w: int, e: nat)
    ensures Pow(w * w, e) == Pow(w, 2 * e)
  {
    PowOfProduct(w, w, e);
    PowAdd(w, e, e);
  }

  lemma {:induction false} EvenIndex(r: nat, stride: nat, t: nat)
    ensures r + (2 * t) * stride == r + t * (2 * stride)
    ensures r + (2 * t + 1) * stride == r + stride + t * (2 * stride)
  {
  }

  lemma {:induction false} EvenPower(w: int, t: nat, j: nat)
    ensures PowAt(w, 2 * t, j) == PowAt(w * w, t, j)
    ensures PowAt(w, 2 * t + 1, j) == PowAt(w * w, t, j) * Pow(w, j)
  {
    var e := t * j;
    assert (2 * t) * j == 2 * e && (2 * t + 1) * j == 2 * e + j;
    PowSquare(w, e);
    PowAdd(w, 2 * e, j);
  }

  lemma {:induction false} TermPair<G(!new)>(g: Space<G>, a: seq<G>, r: nat, stride: nat, t: nat, w: int, j: nat)
    requires g.Valid() && g.HasAll(a)
    ensures Term(g, a, r, stride, 2 * t, w, j) == Term(g, a, r, 2 * stride, t, w * w, j)
    ensures Term(g, a, r, stride, 2 * t + 1, w, j)
         == g.scale(Term(g, a, r + stride, 2 * stride, t, w * w, j), Pow(w, j))
  {
    EvenIndex(r, stride, t);
    EvenPower(w, t, j);
    ScaleOfScale(g, Coef(g, a, r + stride + t * (2 * stride)), PowAt(w * w, t, j), Pow(w, j));
  }

  /** ((u + v c) + x) + y c = (u + x) + (v + y) c */
  lemma {:induction false} PairAdded<G(!new)>(g: Space<G>, u: G, v: G, x: G, y: G, c: int)
    requires g.Valid() && g.has(u) && g.has(v) && g.has(x) && g.has(y)
    ensures g.add(g.add(g.add(u, g.scale(v, c)), x), g.scale(y, c)) == g.add(g.add(u, x), g.scale(g.add(v, y), c))
  {
    Closed(g, v, v, c);
    Closed(g, y, y, c);
    Closed(g, u, g.scale(v, c), c);
    Reordered(g, g.add(u, g.scale(v, c)), x, g.scale(y, c));
    Paired(g, u, g.scale(v, c), x, g.scale(y, c));
    ScaleOfSum(g, v, y, c);
  }

  /** A sum over an even number of terms splits into its even and its odd ones. */
  lemma {:induction false} EvenOdd<G(!new)>(g: Space<G>, a: seq<G>, r: nat, stride: nat, m: nat, w: int, j: nat)
    requires g.Valid() && g.HasAll(a)
    ensures Dft(g, a, r, stride, 2 * m, w, j)
         == g.add(Dft(g, a, r, 2 * stride, m, w * w, j),
                  g.scale(Dft(g, a, r + stride, 2 * stride, m, w * w, j), Pow(w, j)))
  {
    if m == 0 {
      ScaleOfZero(g, Pow(w, j));
      Units(g, g.zero);
    } else {
      var n, c := m - 1, Pow(w, j);
      EvenOdd(g, a, r, stride, n, w, j);
      TermPair(g, a, r, stride, n, w, j);
      assert Dft(g, a, r, stride, 2 * m, w, j)
          == g.add(g.add(Dft(g, a, r, stride, 2 * n, w, j), Term(g, a, r, stride, 2 * n, w, j)),
                   Term(g, a, r, stride, 2 * n + 1, w, j));
      PairAdded(g, Dft(g, a, r, 2 * stride, n, w * w, j), Dft(g, a, r + stride, 2 * stride, n, w * w, j),
                Term(g, a, r, 2 * stride, n, w * w, j), Term(g, a, r + stride, 2 * stride, n, w * w, j), c);
    }
  }

  lemma {:induction false} PowPeriodic(p: nat, t: nat, v: int, j: nat, d: nat)
    requires p > 0 && Red(p, Pow(v, d)) == Red(p, 1)
    ensures Red(p, PowAt(v, t, j + d)) == Red(p, PowAt(v, t, j))
  {
    var e, f := t * j, d * t;
    assert t * (j + d) == e + f;
    PowAdd(v, e, f);
    PowTrivial(p, v, d, t, f);
    RedMul(p, Pow(v, e), Pow(v, e), Pow(v, f), 1);
  }

  lemma {:induction false} TermPeriodic<G(!new)>(g: Space<G>, a: seq<G>, r: nat, stride: nat, t: nat, v: int, j: nat,
                                                 d: nat)
    requires g.Valid() && g.HasAll(a) && Red(g.p, Pow(v, d)) == Red(g.p, 1)
    ensures Term(g, a, r, stride, t, v, j + d) == Term(g, a, r, stride, t, v, j)
  {
    PowPeriodic(g.p, t, v, j, d);
    ScaleCongruent(g, Coef(g, a, r + t * stride), PowAt(v, t, j + d), PowAt(v, t, j));
  }

  /** The sums repeat with the order of the root. */
  lemma {:induction false} Periodic<G(!new)>(g: Space<G>, a: seq<G>, r: nat, stride: nat, count: nat, v: int, j: nat,
                                             d: nat)
    requires g.Valid() && g.HasAll(a) && Red(g.p, Pow(v, d)) == Red(g.p, 1)
    ensures Dft(g, a, r, stride, count, v, j + d) == Dft(g, a, r, stride, count, v, j)
  {
    if count > 0 {
      Periodic(g, a, r, stride, count - 1, v, j, d);
      TermPeriodic(g, a, r, stride, count - 1, v, j, d);
    }
  }

  /** One butterfly makes two sums of 2m terms from two sums of m terms. */
  lemma {:induction false} Butterfly<G(!new)>(g: Space<G>, a: seq<G>, r: nat, stride: nat, m: nat, w: int, j: nat,
                                              c: int)
    requires g.Valid() && g.HasAll(a) && Red(g.p, Pow(w, m)) == Red(g.p, -1) && Red(g.p, c) == Red(g.p, Pow(w, j))
    ensures
      var e, o := Dft(g, a, r, 2 * stride, m, w * w, j), Dft(g, a, r + stride, 2 * stride, m, w * w, j);
      && g.add(e, g.scale(o, c)) == Dft(g, a, r, stride, 2 * m, w, j)
      && g.sub(e, g.scale(o, c)) == Dft(g, a, r, stride, 2 * m, w, j + m)
  {
    var e, o := Dft(g, a, r, 2 * stride, m, w * w, j), Dft(g, a, r + stride, 2 * stride, m, w * w, j);
    EvenOdd(g, a, r, stride, m, w, j);
    ScaleCongruent(g, o, c, Pow(w, j));
    EvenOdd(g, a, r, stride, m, w, j + m);
    FullTurn(g.p, w, m);
    Periodic(g, a, r, 2 * stride, m, w * w, j, m);
    Periodic(g, a, r + stride, 2 * stride, m, w * w, j, m);
    HalfTurn(g.p, w, m, j);
    RedAdd(g.p, 0, 0, c, Pow(w, j));
    SubScaled(g, e, o, c, Pow(w, j + m));
  }

  lemma {:induction false} FullTurn(p: nat, w: int, m: nat)
    requires p > 0 && Red(p, Pow(w, m)) == Red(p, -1)
    ensures Red(p, Pow(w * w, m)) == Red(p, 1)
  {
    PowSquare(w, m);
    PowAdd(w, m, m);
    RedMul(p, Pow(w, m), -1, Pow(w, m), -1);
  }

  lemma {:induction false} HalfTurn(p: nat, w: int, m: nat, j: nat)
    requires p > 0 && Red(p, Pow(w, m)) == Red(p, -1)
    ensures Red(p, Pow(w, j + m)) == Red(p, -Pow(w, j))
  {
    PowAdd(w, j, m);
    RedMul(p, Pow(w, j), Pow(w, j), Pow(w, m), -1);
    assert Pow(w, j) * -1 == -Pow(w, j);
  }

  // ---- The stages ----

  ghost predicate Ready<G(!new)>(g: Space<G>, a: seq<G>, cur: seq<G>) {
    g.Valid() && g.HasAll(a) && g.HasAll(cur)
  }

  /** Position `j` of block `b` of size 2^s holds the sum over every 2^l-th input from Rev(b) on. */
  ghost predicate SumAt<G(!new)>(g: Space<G>, a: seq<G>, cur: seq<G>, omega: int, s: nat, l: nat, b: nat, j: nat)
    requires Ready(g, a, cur)
  {
    Coef(g, cur, Start(Pow2(s), b) + j) == Dft(g, a, Rev(b, l), Pow2(l), Pow2(s), Pow(omega, Pow2(l)), j)
  }

  ghost predicate Staged<G(!new)>(g: Space<G>, a: seq<G>, cur: seq<G>, omega: int, s: nat, l: nat, b: nat)
    requires Ready(g, a, cur)
  {
    forall j: nat | j < Pow2(s) :: SumAt(g, a, cur, omega, s, l, b, j)
  }

  ghost predicate AllStaged<G(!new)>(g: Space<G>, a: seq<G>, cur: seq<G>, omega: int, s: nat, l: nat, count: nat)
    requires Ready(g, a, cur)
  {
    forall b: nat | b < count :: Staged(g, a, cur, omega, s, l, b)
  }

  /** Where block `b` of blocks of `size` starts. */
  ghost function Start(size: nat, b: nat): nat {
    if b == 0 then 0 else Start(size, b - 1) + size
  }

  lemma {:induction false} StartDoubled(m: nat, b: nat)
    ensures Start(m, 2 * b) == Start(2 * m, b) && Start(m, 2 * b + 1) == Start(2 * m, b) + m
  {
    if b > 0 {
      StartDoubled(m, b - 1);
      assert Start(m, 2 * b) == Start(m, 2 * b - 1) + m;
    }
  }

  lemma {:induction false} StartsInOrder(m: nat, b: nat, b': nat)
    requires b < b'
    ensures Start(m, b) + m <= Start(m, b')
  {
    if b + 1 < b' { StartsInOrder(m, b, b' - 1); }
  }

  lemma {:induction false} StartAtPow2(k: nat, l: nat)
    ensures Start(Pow2(k), Pow2(l)) == Pow2(k + l)
    decreases l
  {
    if l == 0 {
      assert Start(Pow2(k), 1) == Start(Pow2(k), 0) + Pow2(k);
    } else {
      StartAtPow2(k + 1, l - 1);
      StartDoubled(Pow2(k), Pow2(l - 1));
      assert Pow2(k + 1) == 2 * Pow2(k) && k + 1 + (l - 1) == k + l;
    }
  }

  lemma {:induction false} StageRoot(p: nat, omega: int, s: nat, l: nat, wm: int, j: nat)
    requires l > 0 && IsRoot(p, omega, s + l) && wm == FieldPow(p, omega, Pow2(l - 1))
    ensures Pow(omega, Pow2(l - 1)) * Pow(omega, Pow2(l - 1)) == Pow(omega, Pow2(l))
    ensures Red(p, Pow(Pow(omega, Pow2(l - 1)), Pow2(s))) == Red(p, -1)
    ensures Red(p, Pow(wm, j)) == Red(p, Pow(Pow(omega, Pow2(l - 1)), j))
  {
    PowAdd(omega, Pow2(l - 1), Pow2(l - 1));
    Pow2Add(l - 1, s);
    PowPow(omega, Pow2(l - 1), Pow2(s), Pow2(s + l - 1));
    RedRed(p, Pow(omega, Pow2(l - 1)));
    RedPow(p, wm, Pow(omega, Pow2(l - 1)), j);
  }

  /** One butterfly of a stage. */
  ghost predicate Crossed<G(!new)>(g: Space<G>, before: seq<G>, after: seq<G>, k: nat, m: nat, wm: int, j: nat)
    requires Ready(g, before, after)
  {
    var t := g.scale(Coef(g, before, k + j + m), Red(g.p, Pow(wm, j)));
    && Coef(g, after, k + j) == g.add(Coef(g, before, k + j), t)
    && Coef(g, after, k + j + m) == g.sub(Coef(g, before, k + j), t)
  }

  ghost predicate AllCrossed<G(!new)>(g: Space<G>, before: seq<G>, after: seq<G>, k: nat, m: nat, wm: int, count: nat)
    requires Ready(g, before, after)
  {
    forall j: nat | j < count :: Crossed(g, before, after, k, m, wm, j)
  }

  lemma {:induction false} RevDoubled(b: nat, l: nat)
    requires l > 0
    ensures Rev(2 * b, l) == Rev(b, l - 1) && Rev(2 * b + 1, l) == Rev(b, l - 1) + Pow2(l - 1)
  {
    QuotientUnique(2 * b, 2, b, 0);
    QuotientUnique(2 * b + 1, 2, b, 1);
  }

  /** The root of a stage that joins blocks of size 2^s. */
  ghost predicate IsStage(p: nat, omega: int, s: nat, l: nat, wm: int) {
    l > 0 && IsRoot(p, omega, s + l) && wm == FieldPow(p, omega, Pow2(l - 1))
  }

  lemma {:induction false} StageStep<G(!new)>(g: Space<G>, a: seq<G>, before: seq<G>, after: seq<G>, omega: int, s: nat,
                                              l: nat, b: nat, wm: int, j: nat)
    requires Ready(g, a, before) && Ready(g, a, after) && IsStage(g.p, omega, s, l, wm) && j < Pow2(s)
    requires SumAt(g, a, before, omega, s, l, 2 * b, j) && SumAt(g, a, before, omega, s, l, 2 * b + 1, j)
    requires Crossed(g, before, after, Start(Pow2(s + 1), b), Pow2(s), wm, j)
    ensures SumAt(g, a, after, omega, s + 1, l - 1, b, j) && SumAt(g, a, after, omega, s + 1, l - 1, b, j + Pow2(s))
  {
    StartDoubled(Pow2(s), b);
    StageRoot(g.p, omega, s, l, wm, j);
    RevDoubled(b, l);
    CrossedSums(g, a, before, after, Rev(b, l - 1), Rev(2 * b, l), Rev(2 * b + 1, l), Pow2(l - 1), Pow2(l), Pow2(s),
                Pow2(s + 1), Pow(omega, Pow2(l - 1)), Pow(omega, Pow2(l)), j, Start(Pow2(s + 1), b), wm);
  }

  lemma {:induction false} CrossedSums<G(!new)>(g: Space<G>, a: seq<G>, before: seq<G>, after: seq<G>, r: nat, r0: nat,
                                                r1: nat, stride: nat, stride2: nat, m: nat, m2: nat, w: int, ww: int,
                                                j: nat, k: nat, wm: int)
    requires Ready(g, a, before) && Ready(g, a, after)
    requires Red(g.p, Pow(w, m)) == Red(g.p, -1) && Red(g.p, Pow(wm, j)) == Red(g.p, Pow(w, j))
    requires r0 == r && r1 == r + stride && stride2 == 2 * stride && m2 == 2 * m && ww == w * w
    requires Coef(g, before, k + j) == Dft(g, a, r0, stride2, m, ww, j)
    requires Coef(g, before, k + m + j) == Dft(g, a, r1, stride2, m, ww, j)
    requires Crossed(g, before, after, k, m, wm, j)
    ensures Coef(g, after, k + j) == Dft(g, a, r, stride, m2, w, j)
    ensures Coef(g, after, k + (j + m)) == Dft(g, a, r, stride, m2, w, j + m)
  {
    RedRed(g.p, Pow(wm, j));
    Butterfly(g, a, r, stride, m, w, j, Red(g.p, Pow(wm, j)));
  }

  lemma {:induction false} BlockStaged<G(!new)>(g: Space<G>, a: seq<G>, before: seq<G>, after: seq<G>, omega: int,
                                                s: nat, l: nat, b: nat, wm: int)
    requires Ready(g, a, before) && Ready(g, a, after) && IsStage(g.p, omega, s, l, wm)
    requires Staged(g, a, before, omega, s, l, 2 * b) && Staged(g, a, before, omega, s, l, 2 * b + 1)
    requires AllCrossed(g, before, after, Start(Pow2(s + 1), b), Pow2(s), wm, Pow2(s))
    ensures Staged(g, a, after, omega, s + 1, l - 1, b)
  {
    var s', l' := s + 1, l - 1;
    forall j: nat | j < Pow2(s') ensures SumAt(g, a, after, omega, s', l', b, j) {
      StageStep(g, a, before, after, omega, s, l, b, wm, if j < Pow2(s) then j else j - Pow2(s));
    }
  }

  lemma {:induction false} StagedFrame<G(!new)>(g: Space<G>, a: seq<G>, cur: seq<G>, cur': seq<G>, omega: int, s: nat,
                                                l: nat, b: nat, from: nat, to: nat)
    requires Ready(g, a, cur) && Ready(g, a, cur') && Staged(g, a, cur, omega, s, l, b) && |cur| == |cur'|
    requires from <= Start(Pow2(s), b) && Start(Pow2(s), b) + Pow2(s) <= to <= |cur|
    requires forall i | from <= i < to :: cur'[i] == cur[i]
    ensures Staged(g, a, cur', omega, s, l, b)
  {
    forall j: nat | j < Pow2(s) ensures SumAt(g, a, cur', omega, s, l, b, j) {
      assert SumAt(g, a, cur, omega, s, l, b, j);
    }
  }

  /** The butterflies of one block. */
  method CrossBlock<G(!new)>(g: Space<G>, a: array<G>, k: nat, m: nat, wm: int)
    requires g.Valid() && g.HasAll(a[..]) && k + 2 * m <= a.Length
    modifies a
    ensures g.HasAll(a[..]) && AllCrossed(g, old(a[..]), a[..], k, m, wm, m)
    ensures forall i | 0 <= i < a.Length && !(k <= i < k + 2 * m) :: a[i] == old(a[i])
  {
    var w := Red(g.p, 1);
    ghost var before := a[..];
    for j := 0 to m
      invariant w == Red(g.p, Pow(wm, j)) && g.HasAll(a[..])
      invariant AllCrossed(g, before, a[..], k, m, wm, j)
      invariant forall i | 0 <= i < a.Length && !(k <= i < k + j || k + m <= i < k + m + j) :: a[i] == before[i]
    {
      ghost var was := a[..];
      var t := g.scale(a[k + j + m], w);
      CrossingHas(g, was[k + j], was[k + j + m], w);
      var tmp := g.sub(a[k + j], t);
      a[k + j + m] := tmp;
      a[k + j] := g.add(a[k + j], t);
      forall i: nat | i < j ensures Crossed(g, before, a[..], k, m, wm, i) {
        assert Crossed(g, before, was, k, m, wm, i);
      }
      RedMul(g.p, w, Pow(wm, j), wm, wm);
      w := Red(g.p, w * wm);
    }
  }

  lemma {:induction false} CrossingHas<G(!new)>(g: Space<G>, x: G, y: G, w: int)
    requires g.Valid() && g.has(x) && g.has(y)
    ensures g.has(g.add(x, g.scale(y, w))) && g.has(g.sub(x, g.scale(y, w)))
  {
    Closed(g, y, y, w);
    Closed(g, x, g.scale(y, w), w);
  }

  /** One stage joins neighbouring blocks of size 2^s to blocks of twice the size. */
  method Stage<G(!new)>(g: Space<G>, a: array<G>, ghost a0: seq<G>, omega: int, ghost s: nat, ghost l: nat, m: nat,
                        wm: int)
    requires IsStage(g.p, omega, s, l, wm) && Ready(g, a0, a[..])
    requires m == Pow2(s) && a.Length == Start(Pow2(s + 1), Pow2(l - 1))
    requires AllStaged(g, a0, a[..], omega, s, l, Pow2(l))
    modifies a
    ensures g.HasAll(a[..]) && AllStaged(g, a0, a[..], omega, s + 1, l - 1, Pow2(l - 1))
  {
    ghost var before := a[..];
    ghost var b: nat := 0;
    var k := 0;
    while k < a.Length
      invariant k == Start(Pow2(s + 1), b) <= a.Length && b <= Pow2(l - 1)
      invariant forall i | k <= i < a.Length :: a[i] == before[i]
      invariant g.HasAll(a[..]) && AllStaged(g, a0, a[..], omega, s + 1, l - 1, b)
      decreases a.Length - k
    {
      StageBlock(g, a, a0, before, omega, s, l, b, k, m, wm);
      k := k + 2 * m;
      b := b + 1;
    }
    if b < Pow2(l - 1) {
      StartsInOrder(Pow2(s + 1), b, Pow2(l - 1));
    }
  }

  method StageBlock<G(!new)>(g: Space<G>, a: array<G>, ghost a0: seq<G>, ghost before: seq<G>, omega: int,
                             ghost s: nat, ghost l: nat, ghost b: nat, k: nat, m: nat, wm: int)
    requires IsStage(g.p, omega, s, l, wm) && Ready(g, a0, a[..]) && Ready(g, a0, before)
    requires m == Pow2(s) && k == Start(Pow2(s + 1), b) < a.Length == Start(Pow2(s + 1), Pow2(l - 1))
    requires b <= Pow2(l - 1)
    requires |before| == a.Length && forall i | k <= i < a.Length :: a[i] == before[i]
    requires AllStaged(g, a0, before, omega, s, l, Pow2(l)) && AllStaged(g, a0, a[..], omega, s + 1, l - 1, b)
    modifies a
    ensures k + 2 * m <= a.Length && b < Pow2(l - 1) && g.HasAll(a[..])
    ensures forall i | k + 2 * m <= i < a.Length :: a[i] == before[i]
    ensures AllStaged(g, a0, a[..], omega, s + 1, l - 1, b + 1)
  {
    StartsInOrder(Pow2(s + 1), b, Pow2(l - 1));
    ghost var was := a[..];
    CrossBlock(g, a, k, m, wm);
    BlocksStaged(g, a0, before, was, a[..], omega, s, l, b, k, wm);
  }

  lemma {:induction false} BlocksStaged<G(!new)>(g: Space<G>, a: seq<G>, before: seq<G>, was: seq<G>, now: seq<G>,
                                                 omega: int, s: nat, l: nat, b: nat, k: nat, wm: int)
    requires Ready(g, a, before) && Ready(g, was, now) && IsStage(g.p, omega, s, l, wm) && b < Pow2(l - 1)
    requires k == Start(Pow2(s + 1), b) && k + Pow2(s + 1) <= |before| == |was| == |now|
    requires forall i | k <= i < |was| :: was[i] == before[i]
    requires AllStaged(g, a, before, omega, s, l, Pow2(l)) && AllStaged(g, a, was, omega, s + 1, l - 1, b)
    requires AllCrossed(g, was, now, k, Pow2(s), wm, Pow2(s)) && forall i | 0 <= i < k :: now[i] == was[i]
    ensures AllStaged(g, a, now, omega, s + 1, l - 1, b + 1)
  {
    var s', l' := s + 1, l - 1;
    forall c: nat | c < b + 1 ensures Staged(g, a, now, omega, s', l', c) {
      if c < b {
        StartsInOrder(Pow2(s'), c, b);
        StagedFrame(g, a, was, now, omega, s', l', c, 0, k);
      } else {
        SameCrossings(g, before, was, now, k, Pow2(s), wm);
        BlockStaged(g, a, before, now, omega, s, l, b, wm);
      }
    }
  }

  lemma {:induction false} SameCrossings<G(!new)>(g: Space<G>, before: seq<G>, was: seq<G>, now: seq<G>, k: nat, m: nat,
                                                  wm: int)
    requires Ready(g, was, now) && Ready(g, before, now) && AllCrossed(g, was, now, k, m, wm, m)
    requires |before| == |was| && forall i | k <= i < |was| :: was[i] == before[i]
    ensures AllCrossed(g, before, now, k, m, wm, m)
  {
    forall j: nat | j < m ensures Crossed(g, before, now, k, m, wm, j) {
      assert Crossed(g, was, now, k, m, wm, j);
    }
  }

  // ---- The transform ----

  /** The sums with all powers of omega: for residues, the values of the polynomial with coefficients `a`. */
  ghost function Fourier<G(!new)>(g: Space<G>, a: seq<G>, omega: int): (r: seq<G>)
    requires g.Valid() && g.HasAll(a)
    ensures |r| == |a| && g.HasAll(r) && forall k: nat | k < |a| :: r[k] == Dft(g, a, 0, 1, |a|, omega, k)
  {
    seq(|a|, k requires k >= 0 => Dft(g, a, 0, 1, |a|, omega, k))
  }

  lemma {:induction false} StartOne(b: nat)
    ensures Start(1, b) == b
  {
    if b > 0 { StartOne(b - 1); }
  }

  lemma {:induction false} FirstStage<G(!new)>(g: Space<G>, a: seq<G>, cur: seq<G>, omega: int, l: nat, b: nat)
    requires Ready(g, a, cur) && |a| == |cur| == Pow2(l) && b < Pow2(l) && cur[b] == a[Rev(b, l)]
    ensures Staged(g, a, cur, omega, 0, l, b)
  {
    forall j: nat | j < Pow2(0) ensures SumAt(g, a, cur, omega, 0, l, b, j) {
      StartOne(b);
      var c, w := Coef(g, a, Rev(b, l) + 0 * Pow2(l)), Pow(omega, Pow2(l));
      assert Dft(g, a, Rev(b, l), Pow2(l), 1, w, 0) == g.add(g.zero, g.scale(c, PowAt(w, 0, 0)));
      assert 0 * 0 == 0 && Pow(w, 0) == 1;
      Units(g, c);
    }
  }

  lemma {:induction false} FirstStages<G(!new)>(g: Space<G>, a: seq<G>, cur: seq<G>, omega: int, l: nat)
    requires g.Valid() && g.HasAll(a) && |a| == |cur| == Pow2(l)
    requires forall i: nat | i < Pow2(l) :: cur[i] == a[Rev(i, l)]
    ensures g.HasAll(cur) && AllStaged(g, a, cur, omega, 0, l, Pow2(l))
  {
    assert g.HasAll(cur);
    forall b: nat | b < Pow2(l) ensures Staged(g, a, cur, omega, 0, l, b) {
      FirstStage(g, a, cur, omega, l, b);
    }
  }

  lemma {:induction false} LastStage<G(!new)>(g: Space<G>, a: seq<G>, cur: seq<G>, omega: int, l: nat)
    requires Ready(g, a, cur) && |a| == |cur| == Pow2(l) && Staged(g, a, cur, omega, l, 0, 0)
    ensures cur == Fourier(g, a, omega)
  {
    forall k: nat | k < |a| ensures cur[k] == Fourier(g, a, omega)[k] {
      assert SumAt(g, a, cur, omega, l, 0, 0, k);
      assert Pow(omega, Pow2(0)) == omega;
    }
  }

  method SerialFft<G(!new)>(g: Space<G>, a: array<G>, omega: int, logN: nat)
    requires g.Valid() && g.HasAll(a[..]) && IsRoot(g.p, omega, logN) && a.Length == Pow2(logN)
    modifies a
    ensures g.HasAll(a[..]) && a[..] == Fourier(g, old(a[..]), omega)
  {
    ghost var a0 := a[..];
    var n := a.Length;
    Permute(a, logN);
    FirstStages(g, a0, a[..], omega, logN);
    var m := 1;
    for s := 0 to logN
      invariant m == Pow2(s) && g.HasAll(a[..])
      invariant AllStaged(g, a0, a[..], omega, s, logN - s, Pow2(logN - s))
    {
      StageSize(n, m, s, logN - s - 1);
      var wm := FieldPow(g.p, omega, n / (2 * m));
      Stage(g, a, a0, omega, s, logN - s, m, wm);
      m := m * 2;
    }
    LastStage(g, a0, a[..], omega, logN);
  }

  lemma {:induction false} StageSize(n: nat, m: nat, s: nat, l: nat)
    requires n == Pow2(s + 1 + l) && m == Pow2(s)
    ensures n / (2 * m) == Pow2(l) && n == Start(Pow2(s + 1), Pow2(l))
  {
    StartAtPow2(s + 1, l);
    Pow2Add(s + 1, l);
    HalvedSize(n, m, Pow2(l));
  }

  lemma {:induction false} HalvedSize(n: nat, m: nat, h: nat)
    requires m > 0 && n == 2 * m * h
    ensures n / (2 * m) == h
  {
    assert n == h * (2 * m) + 0;
    QuotientUnique(n, 2 * m, h, 0);
  }
}
