/** Euler's criterion: an element is a square modulo an odd prime exactly when its half power is not
    minus one. */
module EulerCriterion {
  import opened Modular
  import opened FieldInverse
  import opened PrimeFields
  import opened SparsePolynomials
  import opened Lagrange
  import P = Polynomials

  ghost predicate SquareOf(p: nat, y: int, x: int)
    requires p > 0
  {
    0 <= y < p && Red(p, y * y) == x
  }

  ghost predicate IsSquare(p: nat, x: int)
    requires p > 0
  {
    exists y: int :: SquareOf(p, y, x)
  }

  /** A square that is not zero has the symbol one. */
  lemma {:induction false} SquaresAreResidues(p: nat, x: int, y: int)
    requires Prime(p) && p % 2 == 1 && 0 < x < p && SquareOf(p, y, x)
    ensures FieldPow(p, x, (p - 1) / 2) == 1
  {
    var h := (p - 1) / 2;
    assert y != 0;
    RedRed(p, y * y);
    RedPow(p, x, y * y, h);
    PowOfProduct(y, y, h);
    PowAdd(y, h, h);
    Fermat(p, y);
  }

  lemma {:induction false} OddPrime(p: nat)
    requires Prime(p) && p > 2
    ensures p % 2 == 1
  {
    PrimeHasNoDivisor(p, 2);
  }

  /** The squares of 1, ..., n. */
  ghost function FirstSquares(n: nat): (s: seq<int>)
    ensures |s| == n && forall i: nat | i < n :: s[i] == (i + 1) * (i + 1)
  {
    seq(n, i requires 0 <= i => (i + 1) * (i + 1))
  }

  lemma {:induction false} SquaresDiffer(p: nat, i: nat, j: nat)
    requires Prime(p) && 0 < i < j && i + j < p
    ensures Red(p, i * i) != Red(p, j * j)
  {
    if Red(p, i * i) == Red(p, j * j) {
      RedAdd(p, j * j, i * i, i * i, i * i);
      assert (j - i) * (j + i) == j * j - i * i;
      NoZeroDivisors(p, j - i, j + i);
    }
  }

  lemma {:induction false} SquareIsRoot(p: nat, i: nat)
    requires Prime(p) && p % 2 == 1 && 0 < i < p
    ensures Red(p, P.Eval(HalfPowerLess(p), i * i)) == 0
  {
    var h := (p - 1) / 2;
    HalfPowerValue(p, i * i);
    PowOfProduct(i, i, h);
    PowAdd(i, h, h);
    Fermat(p, i);
    RedAdd(p, Pow(i * i, h), 1, 1, 1);
  }

  /** x^((p-1)/2) - 1. */
  ghost function HalfPowerLess(p: nat): (f: seq<int>)
    requires p > 0
    ensures |f| == (p - 1) / 2 + 1
  {
    TimesSparse([1], (p - 1) / 2, 1)
  }

  lemma {:induction false} HalfPowerValue(p: nat, x: int)
    requires p > 0
    ensures P.Eval(HalfPowerLess(p), x) == Pow(x, (p - 1) / 2) - 1
  {
    EvalTimesSparse([1], (p - 1) / 2, 1, x);
    assert [1][1..] == [] && x * 0 == 0;
  }

  /** The half power of an element that is no square is minus one: the squares are all roots of
      x^((p-1)/2) - 1 already, and there are as many of them as its degree. */
  lemma {:induction false} HalfPowerOfNonSquare(p: nat, g: nat)
    requires Prime(p) && p % 2 == 1 && g < p && !IsSquare(p, g)
    ensures Red(p, Pow(g, (p - 1) / 2)) == Red(p, -1)
  {
    var h := (p - 1) / 2;
    if g == 0 {
      assert 0 * 0 == 0 && SquareOf(p, 0, 0);
    }
    PowAdd(g, h, h);
    Fermat(p, g);
    RootsOfOne(p, Pow(g, h));
    if Red(p, Pow(g, h)) == Red(p, 1) {
      var f, pts := HalfPowerLess(p), FirstSquares(h) + [g];
      HalfPowerValue(p, g);
      RedAdd(p, Pow(g, h), 1, 1, 1);
      forall i: nat | i < h ensures Red(p, P.Eval(f, pts[i])) == 0 && Red(p, pts[i]) != Red(p, g) {
        SquareIsRoot(p, i + 1);
        if Red(p, pts[i]) == Red(p, g) { assert SquareOf(p, i + 1, g); }
      }
      forall i, j | 0 <= i < j < |pts| ensures Red(p, pts[i]) != Red(p, pts[j]) {
        if j < h { SquaresDiffer(p, i + 1, j + 1); }
      }
      LeadsWithOne(h, 1);
      FewRoots(p, f, pts);
    }
  }

  /** Zero, one or minus one: for zero, the other squares, and the rest. */
  lemma {:induction false} ResidueSymbol(p: nat, x: nat)
    requires Prime(p) && p % 2 == 1 && x < p
    ensures IsSquare(p, x) <==> FieldPow(p, x, (p - 1) / 2) != p - 1
    ensures FieldPow(p, x, (p - 1) / 2) == (if x == 0 then 0 else if IsSquare(p, x) then 1 else p - 1)
  {
    if x == 0 {
      PowOfZero((p - 1) / 2);
      assert 0 * 0 == 0 && SquareOf(p, 0, 0);
    } else if IsSquare(p, x) {
      var y: int :| SquareOf(p, y, x);
      SquaresAreResidues(p, x, y);
    } else {
      HalfPowerOfNonSquare(p, x);
    }
  }
}
