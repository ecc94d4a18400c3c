/** Polynomials as coefficient lists over the integers, lowest coefficient first. */
module Polynomials {
  import opened Modular

  function Eval(a: seq<int>, x: int): int {
    if |a| == 0 then 0 else a[0] + x * Eval(a[1..], x)
  }

  ghost function Add(a: seq<int>, b: seq<int>): (c: seq<int>)
    ensures |c| == if |a| >= |b| then |a| else |b|
  {
    if |a| == 0 then b else if |b| == 0 then a else [a[0] + b[0]] + Add(a[1..], b[1..])
  }

  ghost function Scale(k: int, a: seq<int>): (c: seq<int>)
    ensures |c| == |a|
  {
    if |a| == 0 then [] else [k * a[0]] + Scale(k, a[1..])
  }

  ghost function Mul(a: seq<int>, b: seq<int>): (c: seq<int>)
    ensures |c| == if |a| == 0 || |b| == 0 then 0 else |a| + |b| - 1
  {
    if |a| == 0 || |b| == 0 then [] else Add(Scale(a[0], b), [0] + Mul(a[1..], b))
  }

  ghost function Zeros(n: nat): (z: seq<int>)
    ensures |z| == n && forall i | 0 <= i < n :: z[i] == 0
  {
    seq(n, _ => 0)
  }

  /** `a` followed by zeros. */
  ghost function Pad(a: seq<int>, n: nat): (c: seq<int>)
    requires |a| <= n
    ensures |c| == n
  {
    a + Zeros(n - |a|)
  }

  lemma {:induction false} EvalCons(c: int, a: seq<int>, x: int)
    ensures Eval([c] + a, x) == c + x * Eval(a, x)
  {
    assert ([c] + a)[1..] == a;
  }

  lemma {:induction false} EvalAdd(a: seq<int>, b: seq<int>, x: int)
    ensures Eval(Add(a, b), x) == Eval(a, x) + Eval(b, x)
  {
    if |a| > 0 && |b| > 0 {
      EvalAdd(a[1..], b[1..], x);
      EvalCons(a[0] + b[0], Add(a[1..], b[1..]), x);
      Distribute(x, Eval(a[1..], x), Eval(b[1..], x));
    }
  }

  lemma {:induction false} EvalScale(k: int, a: seq<int>, x: int)
    ensures Eval(Scale(k, a), x) == k * Eval(a, x)
  {
    if |a| > 0 {
      EvalScale(k, a[1..], x);
      EvalCons(k * a[0], Scale(k, a[1..]), x);
      ScaleStep(k, a[0], x, Eval(a[1..], x));
    }
  }

  lemma ScaleStep(k: int, c: int, x: int, u: int)
    ensures k * c + x * (k * u) == k * (c + x * u)
  {
  }

  /** The product of polynomials evaluates to the product of their values. */
  lemma {:induction false} EvalMul(a: seq<int>, b: seq<int>, x: int)
    ensures Eval(Mul(a, b), x) == Eval(a, x) * Eval(b, x)
  {
    if |a| > 0 && |b| > 0 {
      EvalMul(a[1..], b, x);
      EvalAdd(Scale(a[0], b), [0] + Mul(a[1..], b), x);
      EvalScale(a[0], b, x);
      EvalCons(0, Mul(a[1..], b), x);
      StepTimes(a[0], x, Eval(a[1..], x), Eval(b, x));
    } else if |b| == 0 {
      assert Eval(a, x) * 0 == 0;
    }
  }

  lemma {:induction false} EvalZeros(n: nat, x: int)
    ensures Eval(Zeros(n), x) == 0
  {
    if n > 0 {
      EvalZeros(n - 1, x);
      assert Zeros(n)[1..] == Zeros(n - 1);
      assert x * 0 == 0;
    }
  }

  lemma {:induction false} EvalPad(a: seq<int>, n: nat, x: int)
    requires |a| <= n
    ensures Eval(Pad(a, n), x) == Eval(a, x)
  {
    if |a| == 0 {
      assert Pad(a, n) == Zeros(n);
      EvalZeros(n, x);
    } else {
      EvalPad(a[1..], n - 1, x);
      assert Pad(a, n)[1..] == Pad(a[1..], n - 1);
    }
  }

  /** The highest coefficient split off. */
  lemma {:induction false} EvalSnoc(a: seq<int>, c: int, x: int)
    ensures Eval(a + [c], x) == Eval(a, x) + c * Pow(x, |a|)
  {
    if |a| == 0 {
      assert a + [c] == [c] && [c][1..] == [];
      assert x * 0 == 0;
    } else {
      EvalSnoc(a[1..], c, x);
      assert (a + [c])[1..] == a[1..] + [c];
      SnocStep(x, Eval(a[1..], x), c, Pow(x, |a| - 1));
    }
  }

  lemma SnocStep(x: int, u: int, c: int, w: int)
    ensures x * (u + c * w) == x * u + c * (w * x)
  {
  }

  /** Congruent points and coefficients give congruent values. */
  lemma {:induction false} EvalRed(p: nat, a: seq<int>, b: seq<int>, x: int, y: int)
    requires p > 0 && |a| == |b| && Red(p, x) == Red(p, y)
    requires forall i | 0 <= i < |a| :: Red(p, a[i]) == Red(p, b[i])
    ensures Red(p, Eval(a, x)) == Red(p, Eval(b, y))
  {
    if |a| > 0 {
      EvalRed(p, a[1..], b[1..], x, y);
      RedMul(p, x, y, Eval(a[1..], x), Eval(b[1..], y));
      RedAdd(p, a[0], b[0], x * Eval(a[1..], x), y * Eval(b[1..], y));
    }
  }

  // ---- Coefficients ----

  /** The coefficient of x^k, zero beyond the list. */
  ghost function At(a: seq<int>, k: int): int {
    if 0 <= k < |a| then a[k] else 0
  }

  ghost function Tail(a: seq<int>): seq<int> {
    if |a| == 0 then [] else a[1..]
  }

  ghost predicate SameAt(a: seq<int>, b: seq<int>, x: int) {
    Eval(a, x) == Eval(b, x)
  }

  /** Polynomials with equal values at all positive integers have equal coefficients. */
  lemma {:induction false} EvalDetermines(a: seq<int>, b: seq<int>, k: nat)
    requires forall x: int | x > 0 :: SameAt(a, b, x)
    ensures At(a, k) == At(b, k)
    decreases |a| + |b|
  {
    if |a| + |b| > 0 {
      var d := At(a, 0) - At(b, 0);
      var u, v := Tail(a), Tail(b);
      var x := if d < 0 then 1 - d else 1 + d;
      assert SameAt(a, b, x);
      OneRoot(d, x, Eval(u, x), Eval(v, x), At(a, 0), At(b, 0));
      if k > 0 {
        forall x: int | x > 0 ensures SameAt(u, v, x) {
          assert SameAt(a, b, x);
          CancelFactor(x, Eval(u, x), Eval(v, x));
        }
        EvalDetermines(u, v, k - 1);
      }
    }
  }

  lemma OneRoot(d: int, x: int, u: int, v: int, a: int, b: int)
    requires d == a - b && a + x * u == b + x * v && x == (if d < 0 then 1 - d else 1 + d)
    ensures d == 0
  {
    var w := v - u;
    assert d == x * w;
    if w > 0 { ProductAtLeast(x, w); }
    if w < 0 { ProductAtMost(x, w); }
    if w == 0 { assert x * w == 0; }
  }

  lemma ProductAtLeast(x: int, w: int)
    requires x > 0 && w > 0
    ensures x * w >= x
  {
  }

  lemma ProductAtMost(x: int, w: int)
    requires x > 0 && w < 0
    ensures x * w <= -x
  {
    ProductAtLeast(x, 0 - w);
    assert x * (0 - w) == 0 - x * w;
  }

  lemma CancelFactor(x: int, u: int, v: int)
    requires x > 0 && x * u == x * v
    ensures u == v
  {
    var w := v - u;
    assert x * w == 0;
    if w > 0 { ProductAtLeast(x, w); }
    if w < 0 { ProductAtMost(x, w); }
  }

  lemma {:induction false} AddAt(a: seq<int>, b: seq<int>, k: nat)
    ensures At(Add(a, b), k) == At(a, k) + At(b, k)
  {
    if |a| > 0 && |b| > 0 && k > 0 { AddAt(a[1..], b[1..], k - 1); }
  }

  lemma {:induction false} ScaleAt(c: int, a: seq<int>, k: nat)
    ensures At(Scale(c, a), k) == c * At(a, k)
  {
    if |a| > 0 && k > 0 { ScaleAt(c, a[1..], k - 1); }
  }

  /** `a` multiplied by x^d. */
  ghost function Raised(d: nat, a: seq<int>): (c: seq<int>)
    ensures |c| == d + |a| && forall k | 0 <= k < |c| :: c[k] == At(a, k - d)
  {
    Zeros(d) + a
  }

  lemma {:induction false} EvalRaised(d: nat, a: seq<int>, x: int)
    ensures Eval(Raised(d, a), x) == Eval(a, x) * Pow(x, d)
  {
    if d == 0 {
      assert Raised(d, a) == a;
    } else {
      EvalRaised(d - 1, a, x);
      assert Raised(d, a)[1..] == Raised(d - 1, a);
      SnocStep(x, 0, Eval(a, x), Pow(x, d - 1));
    }
  }

  /** The sum of the first n products. */
  ghost function Dot(vs: seq<int>, bs: seq<int>, n: nat): int
    requires n <= |vs| == |bs|
  {
    if n == 0 then 0 else Dot(vs, bs, n - 1) + vs[n - 1] * bs[n - 1]
  }

  // ---- Congruence ----

  /** The coefficients of both lists have the same residues. */
  ghost predicate Cong(p: nat, a: seq<int>, b: seq<int>)
    requires p > 0
  {
    |a| == |b| && forall k | 0 <= k < |a| :: Red(p, a[k]) == Red(p, b[k])
  }

  lemma {:induction false} CongReduced(p: nat, a: seq<int>)
    requires p > 0
    ensures Cong(p, ReducedAll(p, a), a)
  {
    forall k | 0 <= k < |a| ensures Red(p, Red(p, a[k])) == Red(p, a[k]) { RedRed(p, a[k]); }
  }

  lemma {:induction false} CongSameReduced(p: nat, a: seq<int>, b: seq<int>)
    requires p > 0 && Cong(p, a, b)
    ensures ReducedAll(p, a) == ReducedAll(p, b)
  {
  }

  lemma {:induction false} CongAdd(p: nat, a: seq<int>, a': seq<int>, b: seq<int>, b': seq<int>)
    requires p > 0 && Cong(p, a, a') && Cong(p, b, b')
    ensures Cong(p, Add(a, b), Add(a', b'))
  {
    var c, c' := Add(a, b), Add(a', b');
    forall k | 0 <= k < |c| ensures Red(p, c[k]) == Red(p, c'[k]) {
      AddAt(a, b, k);
      AddAt(a', b', k);
      RedAdd(p, At(a, k), At(a', k), At(b, k), At(b', k));
    }
  }

  lemma {:induction false} CongScale(p: nat, u: int, u': int, a: seq<int>, a': seq<int>)
    requires p > 0 && Cong(p, a, a') && Red(p, u) == Red(p, u')
    ensures Cong(p, Scale(u, a), Scale(u', a'))
  {
    var c, c' := Scale(u, a), Scale(u', a');
    forall k | 0 <= k < |c| ensures Red(p, c[k]) == Red(p, c'[k]) {
      ScaleAt(u, a, k);
      ScaleAt(u', a', k);
      RedMul(p, u, u', a[k], a'[k]);
    }
  }

  lemma {:induction false} CongMul(p: nat, a: seq<int>, a': seq<int>, b: seq<int>, b': seq<int>)
    requires p > 0 && Cong(p, a, a') && Cong(p, b, b')
    ensures Cong(p, Mul(a, b), Mul(a', b'))
  {
    if |a| > 0 && |b| > 0 {
      CongMul(p, a[1..], a'[1..], b, b');
      CongScale(p, a[0], a'[0], b, b');
      var m, m' := Mul(a[1..], b), Mul(a'[1..], b');
      forall k | 0 <= k < |m| + 1 ensures Red(p, ([0] + m)[k]) == Red(p, ([0] + m')[k]) {
        if k > 0 { assert ([0] + m)[k] == m[k - 1] && ([0] + m')[k] == m'[k - 1]; }
      }
      CongAdd(p, Scale(a[0], b), Scale(a'[0], b'), [0] + m, [0] + m');
    }
  }
}
