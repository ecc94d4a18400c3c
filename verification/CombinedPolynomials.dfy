/** The combined polynomials of crates/fflonk/src/utils.rs: the coefficients of k polynomials dealt
    out in turn, so that C(x) is the sum of x^j * f_j(x^k). */
module CombinedPolynomials {
  import opened Modular
  import P = Polynomials

  /** The length of the longest polynomial. */
  ghost function MaxLength(monomials: seq<seq<int>>): (max: nat)
    ensures forall j | 0 <= j < |monomials| :: |monomials[j]| <= max
    ensures if |monomials| == 0 then max == 0 else exists j :: 0 <= j < |monomials| && |monomials[j]| == max
  {
    if |monomials| == 0 then 0
    else
      var rest := MaxLength(monomials[..|monomials| - 1]);
      if |monomials[|monomials| - 1]| > rest then |monomials[|monomials| - 1]| else rest
  }

  /** The coefficient at position `i` of the combined polynomial. */
  ghost function Dealt(monomials: seq<seq<int>>, i: nat): int
    requires |monomials| > 0
  {
    P.At(monomials[i % |monomials|], i / |monomials|)
  }

  /** `rows` coefficients of every polynomial, and k - 1 zeros. */
  ghost function Combined(monomials: seq<seq<int>>, length: nat): (c: seq<int>)
    requires |monomials| > 0
    ensures |c| == length && forall i: nat | i < length :: c[i] == Dealt(monomials, i)
  {
    seq(length, i requires 0 <= i => Dealt(monomials, i))
  }

  ghost function Tails(monomials: seq<seq<int>>): (t: seq<seq<int>>)
    ensures |t| == |monomials| && forall j | 0 <= j < |t| :: t[j] == P.Tail(monomials[j])
  {
    seq(|monomials|, j requires 0 <= j < |monomials| => P.Tail(monomials[j]))
  }

  /** The sum of x^j * f_j(w) over the first n polynomials. */
  ghost function Shared(monomials: seq<seq<int>>, x: int, w: int, n: nat): int
    requires n <= |monomials|
  {
    if n == 0 then 0 else Shared(monomials, x, w, n - 1) + P.Eval(monomials[n - 1], w) * Pow(x, n - 1)
  }

  /** C(x) is the sum of x^j * f_j(x^k). */
  ghost predicate CombinedAt(monomials: seq<seq<int>>, c: seq<int>, x: int) {
    P.Eval(c, x) == Shared(monomials, x, Pow(x, |monomials|), |monomials|)
  }

  lemma {:induction false} EvalConcat(a: seq<int>, b: seq<int>, x: int)
    ensures P.Eval(a + b, x) == P.Eval(a, x) + P.Eval(b, x) * Pow(x, |a|)
    decreases |b|
  {
    if |b| == 0 {
      assert a + b == a && 0 * Pow(x, |a|) == 0;
    } else {
      EvalConcat(a + [b[0]], b[1..], x);
      assert a + [b[0]] + b[1..] == a + b;
      P.EvalSnoc(a, b[0], x);
      StepTimes(b[0], x, P.Eval(b[1..], x), Pow(x, |a|));
    }
  }

  lemma {:induction false} NextRow(i: nat, k: nat)
    requires k > 0
    ensures (i + k) % k == i % k && (i + k) / k == i / k + 1
  {
    assert k * (i / k + 1) == k * (i / k) + k;
    QuotientUnique(i + k, k, i / k + 1, i % k);
  }

  lemma {:induction false} FirstRow(monomials: seq<seq<int>>, length: nat, x: int, n: nat)
    requires |monomials| > 0 && n <= |monomials| && n <= length
    ensures P.Eval(Combined(monomials, length)[..n], x) == Heads(monomials, x, n)
  {
    if n > 0 {
      var c := Combined(monomials, length);
      FirstRow(monomials, length, x, n - 1);
      assert c[..n] == c[..n - 1] + [c[n - 1]];
      P.EvalSnoc(c[..n - 1], c[n - 1], x);
      QuotientUnique(n - 1, |monomials|, 0, n - 1);
    }
  }

  /** The sum of x^j times the constant coefficient of f_j. */
  ghost function Heads(monomials: seq<seq<int>>, x: int, n: nat): int
    requires n <= |monomials|
  {
    if n == 0 then 0 else Heads(monomials, x, n - 1) + P.At(monomials[n - 1], 0) * Pow(x, n - 1)
  }

  lemma {:induction false} SharedSplits(monomials: seq<seq<int>>, x: int, w: int, n: nat)
    requires n <= |monomials|
    ensures Shared(monomials, x, w, n) == Heads(monomials, x, n) + w * Shared(Tails(monomials), x, w, n)
  {
    if n > 0 {
      SharedSplits(monomials, x, w, n - 1);
      var m := monomials[n - 1];
      assert w * 0 == 0;
      assert P.Eval(m, w) == P.At(m, 0) + w * P.Eval(P.Tail(m), w);
      SplitTerm(P.At(m, 0), w, P.Eval(P.Tail(m), w), Pow(x, n - 1), Shared(Tails(monomials), x, w, n - 1));
    } else {
      assert w * 0 == 0;
    }
  }

  lemma SplitTerm(c: int, w: int, u: int, y: int, s: int)
    ensures w * s + (c + w * u) * y == c * y + w * (s + u * y)
  {
    assert (c + w * u) * y == c * y + w * u * y;
    assert w * (s + u * y) == w * s + w * (u * y);
  }

  lemma {:induction false} NothingLeft(monomials: seq<seq<int>>, x: int, w: int, n: nat)
    requires n <= |monomials| && forall j | 0 <= j < |monomials| :: |monomials[j]| == 0
    ensures Shared(monomials, x, w, n) == 0
  {
    if n > 0 {
      NothingLeft(monomials, x, w, n - 1);
      assert 0 * Pow(x, n - 1) == 0;
    }
  }

  lemma {:induction false} EvalAllZero(a: seq<int>, x: int)
    requires forall k | 0 <= k < |a| :: a[k] == 0
    ensures P.Eval(a, x) == 0
  {
    assert a == P.Zeros(|a|);
    P.EvalZeros(|a|, x);
  }

  lemma {:induction false} CombinedValue(monomials: seq<seq<int>>, rows: nat, length: nat, x: int)
    requires |monomials| > 0 && length == rows * |monomials| + |monomials| - 1
    requires forall j | 0 <= j < |monomials| :: |monomials[j]| <= rows
    ensures CombinedAt(monomials, Combined(monomials, length), x)
    decreases rows
  {
    var k, c, w := |monomials|, Combined(monomials, length), Pow(x, |monomials|);
    if rows == 0 {
      NothingLeft(monomials, x, w, k);
      EvalAllZero(c, x);
    } else {
      var tails, shorter: nat := Tails(monomials), length - k;
      assert (rows - 1) * k == rows * k - k;
      BlocksInOrder(k, 0, rows);
      Commute(k, rows);
      forall i: nat | i < shorter ensures c[k..][i] == Dealt(tails, i) {
        NextRow(i, k);
        assert c[k..][i] == Dealt(monomials, i + k);
        var m := monomials[i % k];
        assert tails[i % k] == P.Tail(m);
        assert P.At(m, i / k + 1) == P.At(P.Tail(m), i / k);
      }
      assert c[k..] == Combined(tails, shorter);
      CombinedValue(tails, rows - 1, shorter, x);
      assert c == c[..k] + c[k..];
      EvalConcat(c[..k], c[k..], x);
      FirstRow(monomials, length, x, k);
      SharedSplits(monomials, x, w, k);
      Commute(w, Shared(tails, x, w, k));
    }
  }

  // ---- Combining ----

  /** Position `i` holds its coefficient once the polynomials before `poly`, and `el` coefficients of that
      one, are dealt. */
  ghost predicate DealtSoFar(monomials: seq<seq<int>>, poly: nat, el: nat, c: int, i: nat)
    requires |monomials| > 0
  {
    var k := |monomials|;
    c == if i % k < poly || (i % k == poly && i / k < el) then Dealt(monomials, i) else 0
  }

  lemma {:induction false} DealOne(monomials: seq<seq<int>>, poly: nat, el: nat, c: int, i: nat, at: nat, c': int)
    requires poly < |monomials| && el < |monomials[poly]| && at == el * |monomials| + poly
    requires DealtSoFar(monomials, poly, el, c, i) && c' == (if i == at then monomials[poly][el] else c)
    ensures DealtSoFar(monomials, poly, el + 1, c', i)
  {
    var k := |monomials|;
    Commute(el, k);
    QuotientUnique(at, k, el, poly);
    if i % k == poly && i / k == el { assert i == k * (i / k) + i % k; }
  }

  lemma {:induction false} DealtPolynomial(monomials: seq<seq<int>>, poly: nat, c: int, i: nat)
    requires poly < |monomials| && DealtSoFar(monomials, poly, |monomials[poly]|, c, i)
    ensures DealtSoFar(monomials, poly + 1, 0, c, i)
  {
  }

  lemma {:induction false} InRange(el: nat, poly: nat, k: nat, rows: nat)
    requires poly < k && el < rows
    ensures el * k + poly < rows * k + k - 1
  {
    BlocksInOrder(k, el, rows);
    Commute(el, k);
    Commute(rows, k);
  }

  method LongestOf(monomials: seq<seq<int>>) returns (max: nat)
    ensures max == MaxLength(monomials) && forall j | 0 <= j < |monomials| :: |monomials[j]| <= max
  {
    max := 0;
    for j := 0 to |monomials|
      invariant max == MaxLength(monomials[..j]) && forall i | 0 <= i < j :: |monomials[i]| <= max
    {
      assert monomials[..j + 1][..j] == monomials[..j];
      if |monomials[j]| > max {
        max := |monomials[j]|;
      }
    }
    assert monomials[..|monomials|] == monomials;
  }

  /** Deals the coefficients of the polynomials out in turn. */
  method CombineMixedDegreeMonomials(monomials: seq<seq<int>>) returns (combined: seq<int>)
    requires |monomials| > 0
    ensures |combined| == MaxLength(monomials) * |monomials| + |monomials| - 1
    ensures forall x: int :: CombinedAt(monomials, combined, x)
    ensures forall p: nat | p > 0 && forall j | 0 <= j < |monomials| :: Reduced(p, monomials[j]) :: Reduced(p, combined)
  {
    var k := |monomials|;
    var maxDegree := LongestOf(monomials);
    assert maxDegree * k >= 0;
    var fullDegree: nat := maxDegree * k + k - 1;
    combined := seq(fullDegree, _ => 0);
    for poly := 0 to k
      invariant |combined| == fullDegree
      invariant forall i: nat | i < fullDegree :: DealtSoFar(monomials, poly, 0, combined[i], i)
    {
      for el := 0 to |monomials[poly]|
        invariant |combined| == fullDegree
        invariant forall i: nat | i < fullDegree :: DealtSoFar(monomials, poly, el, combined[i], i)
      {
        InRange(el, poly, k, maxDegree);
        ghost var before := combined;
        var idx: nat := el * k + poly;
        combined := combined[idx := monomials[poly][el]];
        forall i: nat | i < fullDegree ensures DealtSoFar(monomials, poly, el + 1, combined[i], i) {
          DealOne(monomials, poly, el, before[i], i, idx, combined[i]);
        }
      }
      forall i: nat | i < fullDegree ensures DealtSoFar(monomials, poly + 1, 0, combined[i], i) {
        DealtPolynomial(monomials, poly, combined[i], i);
      }
    }
    assert combined == Combined(monomials, fullDegree);
    forall x: int ensures CombinedAt(monomials, combined, x) {
      CombinedValue(monomials, maxDegree, fullDegree, x);
    }
  }
}
