/** Products and quotients by binomials x^d - c on coefficient lists, as crates/fflonk/src/utils.rs
    computes them: dividing by a list of binomials undoes multiplying by it. */
module SparsePolynomials {
  import opened Modular
  import opened Polynomials

  /** The binomial x^degree - c. */
  datatype Sparse = Sparse(degree: nat, c: int)

  ghost predicate AllPositive(pairs: seq<Sparse>) {
    forall i | 0 <= i < |pairs| :: pairs[i].degree > 0
  }

  ghost function Degree(pairs: seq<Sparse>): nat {
    if |pairs| == 0 then 0 else pairs[0].degree + Degree(pairs[1..])
  }

  /** The value at `x` of the product of the binomials. */
  ghost function Vanish(pairs: seq<Sparse>, x: int): int {
    if |pairs| == 0 then 1 else (Pow(x, pairs[0].degree) - pairs[0].c) * Vanish(pairs[1..], x)
  }

  /** `g` times x^d - c. */
  ghost function TimesSparse(g: seq<int>, d: nat, c: int): (f: seq<int>)
    ensures |f| == |g| + d
  {
    Add(Raised(d, g), Scale(-c, g))
  }

  /** `g` times all the binomials. */
  ghost function TimesAll(g: seq<int>, pairs: seq<Sparse>): (f: seq<int>)
    ensures |f| == |g| + Degree(pairs)
  {
    if |pairs| == 0 then g else TimesSparse(TimesAll(g, pairs[1..]), pairs[0].degree, pairs[0].c)
  }

  /** The coefficient of x^j in the quotient of `f` by x^d - c. */
  ghost function QuotientAt(f: seq<int>, d: nat, c: int, j: nat): int
    requires d > 0
    decreases |f| - j
  {
    if j + d >= |f| then 0 else f[j + d] + c * QuotientAt(f, d, c, j + d)
  }

  ghost function SparseQuotient(f: seq<int>, d: nat, c: int): (q: seq<int>)
    requires 0 < d <= |f|
    ensures |q| == |f| - d && forall j: nat | j < |q| :: q[j] == QuotientAt(f, d, c, j)
  {
    seq(|f| - d, j requires 0 <= j => QuotientAt(f, d, c, j))
  }

  /** The coefficient of x^k that division by x^d - c leaves over. */
  ghost function RemainderAt(f: seq<int>, d: nat, c: int, k: nat): int
    requires d > 0
  {
    At(f, k) + c * QuotientAt(f, d, c, k)
  }

  ghost function Remainder(f: seq<int>, d: nat, c: int): (r: seq<int>)
    requires d > 0
    ensures |r| == d && forall k: nat | k < d :: r[k] == RemainderAt(f, d, c, k)
  {
    seq(d, k requires 0 <= k => RemainderAt(f, d, c, k))
  }

  /** Every coefficient left over is zero. */
  ghost predicate Exact(p: nat, f: seq<int>, d: nat, c: int)
    requires p > 0 && d > 0
  {
    forall k: nat | k < d :: Red(p, RemainderAt(f, d, c, k)) == 0
  }

  /** Divides by the first binomial, then by the others. */
  ghost function DivideAll(f: seq<int>, pairs: seq<Sparse>): (q: seq<int>)
    requires AllPositive(pairs) && |f| >= Degree(pairs)
    ensures |q| == |f| - Degree(pairs)
    decreases |pairs|
  {
    if |pairs| == 0 then f else DivideAll(SparseQuotient(f, pairs[0].degree, pairs[0].c), pairs[1..])
  }

  // ---- Values ----

  lemma {:induction false} EvalTimesSparse(g: seq<int>, d: nat, c: int, x: int)
    ensures Eval(TimesSparse(g, d, c), x) == Eval(g, x) * (Pow(x, d) - c)
  {
    EvalAdd(Raised(d, g), Scale(-c, g), x);
    EvalRaised(d, g, x);
    EvalScale(-c, g, x);
    Binomial(Eval(g, x), Pow(x, d), c);
  }

  lemma Binomial(u: int, w: int, c: int)
    ensures u * w + -c * u == u * (w - c)
  {
  }

  lemma {:induction false} EvalTimesAll(g: seq<int>, pairs: seq<Sparse>, x: int)
    ensures Eval(TimesAll(g, pairs), x) == Eval(g, x) * Vanish(pairs, x)
  {
    if |pairs| > 0 {
      var rest, factor := Vanish(pairs[1..], x), Pow(x, pairs[0].degree) - pairs[0].c;
      EvalTimesAll(g, pairs[1..], x);
      EvalTimesSparse(TimesAll(g, pairs[1..]), pairs[0].degree, pairs[0].c, x);
      Associate(Eval(g, x), rest, factor);
      Commute(rest, factor);
    }
  }

  lemma {:induction false} VanishConcat(s: seq<Sparse>, t: seq<Sparse>, x: int)
    ensures Vanish(s + t, x) == Vanish(s, x) * Vanish(t, x)
  {
    if |s| == 0 {
      assert s + t == t;
    } else {
      VanishConcat(s[1..], t, x);
      assert (s + t)[1..] == s[1..] + t;
      Associate(Pow(x, s[0].degree) - s[0].c, Vanish(s[1..], x), Vanish(t, x));
      Commute(Vanish(s[1..], x), Vanish(t, x));
    }
  }

  lemma {:induction false} DegreeConcat(s: seq<Sparse>, t: seq<Sparse>)
    ensures Degree(s + t) == Degree(s) + Degree(t)
  {
    if |s| == 0 {
      assert s + t == t;
    } else {
      DegreeConcat(s[1..], t);
      assert (s + t)[1..] == s[1..] + t;
    }
  }

  lemma {:induction false} TimesSparseAt(g: seq<int>, d: nat, c: int, k: nat)
    ensures At(TimesSparse(g, d, c), k) == At(g, k - d) - c * At(g, k)
  {
    AddAt(Raised(d, g), Scale(-c, g), k);
    ScaleAt(-c, g, k);
    Negated(c, At(g, k));
  }

  lemma {:induction false} LeadsWithOne(d: nat, c: int)
    requires d > 0
    ensures TimesSparse([1], d, c)[d] == 1
  {
    TimesSparseAt([1], d, c, d);
    assert c * 0 == 0;
  }

  // ---- Division and multiplication ----

  /** Dividing a product by its binomial gives back the other factor. */
  lemma {:induction false} QuotientOfProduct(p: nat, f: seq<int>, g: seq<int>, d: nat, c: int, j: nat)
    requires p > 0 && d > 0 && |f| >= |g| + d
    requires forall k: nat | k < |f| :: Red(p, f[k]) == Red(p, At(TimesSparse(g, d, c), k))
    ensures Red(p, QuotientAt(f, d, c, j)) == Red(p, At(g, j))
    decreases |f| - j
  {
    if j + d < |f| {
      var q := QuotientAt(f, d, c, j + d);
      QuotientOfProduct(p, f, g, d, c, j + d);
      TimesSparseAt(g, d, c, j + d);
      RedMul(p, c, c, q, At(g, j + d));
      RedAdd(p, f[j + d], At(g, j) - c * At(g, j + d), c * q, c * At(g, j + d));
    }
  }

  lemma {:induction false} ProductIsExact(p: nat, f: seq<int>, g: seq<int>, d: nat, c: int)
    requires p > 0 && d > 0 && |f| >= |g| + d
    requires forall k: nat | k < |f| :: Red(p, f[k]) == Red(p, At(TimesSparse(g, d, c), k))
    ensures Exact(p, f, d, c)
  {
    forall k: nat | k < d ensures Red(p, RemainderAt(f, d, c, k)) == 0 {
      var q := QuotientAt(f, d, c, k);
      QuotientOfProduct(p, f, g, d, c, k);
      TimesSparseAt(g, d, c, k);
      RedMul(p, c, c, q, At(g, k));
      RedAdd(p, At(f, k), -(c * At(g, k)), c * q, c * At(g, k));
    }
  }

  /** A list is its quotient times the binomial, plus the remainder. */
  lemma {:induction false} DivisionAt(f: seq<int>, d: nat, c: int, k: nat)
    requires 0 < d <= |f|
    ensures At(f, k) == At(TimesSparse(SparseQuotient(f, d, c), d, c), k) + At(Remainder(f, d, c), k)
  {
    var q := SparseQuotient(f, d, c);
    TimesSparseAt(q, d, c, k);
    assert At(q, k) == QuotientAt(f, d, c, k);
    if k >= d { assert At(q, k - d) == QuotientAt(f, d, c, k - d); }
  }

  lemma {:induction false} EvalAgree(a: seq<int>, b: seq<int>, x: int)
    requires forall k: nat :: At(a, k) == At(b, k)
    ensures Eval(a, x) == Eval(b, x)
    decreases |a| + |b|
  {
    if |a| + |b| > 0 {
      var u, v := Tail(a), Tail(b);
      forall k: nat ensures At(u, k) == At(v, k) {
        assert At(a, k + 1) == At(b, k + 1);
      }
      EvalAgree(u, v, x);
      assert At(a, 0) == At(b, 0) && x * 0 == 0;
    }
  }

  lemma {:induction false} EvalDivision(f: seq<int>, d: nat, c: int, x: int)
    requires 0 < d <= |f|
    ensures Eval(f, x) == Eval(SparseQuotient(f, d, c), x) * (Pow(x, d) - c) + Eval(Remainder(f, d, c), x)
  {
    var t, r := TimesSparse(SparseQuotient(f, d, c), d, c), Remainder(f, d, c);
    forall k: nat ensures At(f, k) == At(Add(t, r), k) {
      DivisionAt(f, d, c, k);
      AddAt(t, r, k);
    }
    EvalAgree(f, Add(t, r), x);
    EvalAdd(t, r, x);
    EvalTimesSparse(SparseQuotient(f, d, c), d, c, x);
  }

  lemma {:induction false} QuotientCong(p: nat, f: seq<int>, f': seq<int>, d: nat, c: int, j: nat)
    requires p > 0 && d > 0 && Cong(p, f, f')
    ensures Red(p, QuotientAt(f, d, c, j)) == Red(p, QuotientAt(f', d, c, j))
    decreases |f| - j
  {
    if j + d < |f| {
      QuotientCong(p, f, f', d, c, j + d);
      var q, q' := QuotientAt(f, d, c, j + d), QuotientAt(f', d, c, j + d);
      RedMul(p, c, c, q, q');
      RedAdd(p, f[j + d], f'[j + d], c * q, c * q');
    }
  }

  /** Congruent up to zeros at the end of the longer list. */
  ghost predicate CongAt(p: nat, a: seq<int>, b: seq<int>)
    requires p > 0
  {
    forall k: nat :: Red(p, At(a, k)) == Red(p, At(b, k))
  }

  /** Each division on the way down the list leaves nothing over. */
  ghost predicate AllExact(p: nat, f: seq<int>, pairs: seq<Sparse>)
    requires p > 0 && AllPositive(pairs) && |f| >= Degree(pairs)
    decreases |pairs|
  {
    |pairs| == 0 || (Exact(p, f, pairs[0].degree, pairs[0].c)
      && AllExact(p, SparseQuotient(f, pairs[0].degree, pairs[0].c), pairs[1..]))
  }

  /** Dividing by a list of binomials undoes multiplying by it, and no division leaves anything over. */
  lemma {:induction false} DivideUndoesTimes(p: nat, f: seq<int>, g: seq<int>, pairs: seq<Sparse>)
    requires p > 0 && AllPositive(pairs) && |f| >= |g| + Degree(pairs) && CongAt(p, f, TimesAll(g, pairs))
    ensures AllExact(p, f, pairs) && CongAt(p, DivideAll(f, pairs), g)
    decreases |pairs|
  {
    if |pairs| > 0 {
      var d, c, h := pairs[0].degree, pairs[0].c, TimesAll(g, pairs[1..]);
      forall k: nat | k < |f| ensures Red(p, f[k]) == Red(p, At(TimesSparse(h, d, c), k)) {
        assert Red(p, At(f, k)) == Red(p, At(TimesAll(g, pairs), k));
      }
      ProductIsExact(p, f, h, d, c);
      var q := SparseQuotient(f, d, c);
      forall k: nat ensures Red(p, At(q, k)) == Red(p, At(h, k)) {
        QuotientOfProduct(p, f, h, d, c, k);
      }
      DivideUndoesTimes(p, q, g, pairs[1..]);
    }
  }

  /** The order of the binomials does not matter. */
  lemma {:induction false} TimesAllRotated(g: seq<int>, pairs: seq<Sparse>, k: nat)
    requires |pairs| > 0
    ensures At(TimesAll(g, Rotated(pairs)), k) == At(TimesAll(g, pairs), k) && Degree(Rotated(pairs)) == Degree(pairs)
  {
    var last, init := [pairs[|pairs| - 1]], pairs[..|pairs| - 1];
    assert init + last == pairs;
    forall x: int | x > 0 ensures SameAt(TimesAll(g, Rotated(pairs)), TimesAll(g, pairs), x) {
      EvalTimesAll(g, Rotated(pairs), x);
      EvalTimesAll(g, pairs, x);
      VanishConcat(last, init, x);
      VanishConcat(init, last, x);
      Commute(Vanish(init, x), Vanish(last, x));
    }
    EvalDetermines(TimesAll(g, Rotated(pairs)), TimesAll(g, pairs), k);
    DegreeConcat(last, init);
    DegreeConcat(init, last);
  }

  /** The last binomial comes first, as popping it makes it. */
  ghost function Rotated(pairs: seq<Sparse>): (r: seq<Sparse>)
    requires |pairs| > 0
    ensures |r| == |pairs|
  {
    [pairs[|pairs| - 1]] + pairs[..|pairs| - 1]
  }
}
