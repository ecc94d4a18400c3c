/** Arithmetic modulo p on integers: the scalar fields of the repository, with every element
    represented by its least non-negative residue. */
module Modular {

  /** The least non-negative residue of `x`. */
  function Red(p: nat, x: int): (r: int)
    requires p > 0
    ensures 0 <= r < p
    decreases if x < 0 then p - x else x
  {
    if x < 0 then Red(p, x + p) else if x < p then x else Red(p, x - p)
  }

  lemma {:induction false} RedSplit(p: nat, x: int) returns (k: int)
    requires p > 0
    ensures Red(p, x) == x + k * p
    decreases if x < 0 then p - x else x
  {
    if x < 0 {
      k := RedSplit(p, x + p);
      assert x + p + k * p == x + (k + 1) * p;
      k := k + 1;
    } else if x < p {
      k := 0;
    } else {
      k := RedSplit(p, x - p);
      assert x - p + k * p == x + (k - 1) * p;
      k := k - 1;
    }
  }

  lemma {:induction false} RedStep(p: nat, x: int, y: int)
    requires p > 0 && y == x + p
    ensures Red(p, y) == Red(p, x)
  {
  }

  lemma {:induction false} RedShift(p: nat, x: int, y: int, k: int)
    requires p > 0 && y == x + k * p
    ensures Red(p, y) == Red(p, x)
    decreases if k < 0 then -k else k
  {
    if k > 0 {
      Decrement(x, y, k, p);
      RedShift(p, x, y - p, k - 1);
      RedStep(p, y - p, y);
    } else if k < 0 {
      Increment(x, y, k, p);
      RedShift(p, x, y + p, k + 1);
      RedStep(p, y, y + p);
    }
  }

  lemma {:induction false} Decrement(x: int, y: int, k: int, p: int)
    requires y == x + k * p
    ensures y - p == x + (k - 1) * p
  {
  }

  lemma {:induction false} Increment(x: int, y: int, k: int, p: int)
    requires y == x + k * p
    ensures y + p == x + (k + 1) * p
  {
  }

  lemma {:induction false} Difference(r: int, x: int, y: int, i: int, j: int, p: int)
    requires r == x + i * p && r == y + j * p
    ensures x == y + (j - i) * p
  {
  }

  /** Integers with the same residue differ by a multiple of p. */
  lemma {:induction false} CongDiffers(p: nat, x: int, y: int) returns (k: int)
    requires p > 0 && Red(p, x) == Red(p, y)
    ensures x == y + k * p
  {
    var i := RedSplit(p, x);
    var j := RedSplit(p, y);
    Difference(Red(p, x), x, y, i, j, p);
    k := j - i;
  }

  lemma {:induction false} SumOfMultiples(x: int, x': int, y: int, y': int, i: int, j: int, p: int)
    requires x == x' + i * p && y == y' + j * p
    ensures x + y == x' + y' + (i + j) * p && x - y == x' - y' + (i - j) * p
  {
  }

  lemma {:induction false} ProductOfMultiples(x: int, x': int, y: int, y': int, i: int, j: int, p: int)
    requires x == x' + i * p && y == y' + j * p
    ensures x * y == x' * y' + (x' * j + i * y' + i * p * j) * p
  {
    calc {
      x * y;
    ==
      (x' + i * p) * (y' + j * p);
    ==
      x' * y' + (x' * j + i * y' + i * p * j) * p;
    }
  }

  /** Residues may be taken before or after adding, subtracting and multiplying. */
  lemma {:induction false} RedAdd(p: nat, x: int, x': int, y: int, y': int)
    requires p > 0 && Red(p, x) == Red(p, x') && Red(p, y) == Red(p, y')
    ensures Red(p, x + y) == Red(p, x' + y') && Red(p, x - y) == Red(p, x' - y')
  {
    var i := CongDiffers(p, x, x');
    var j := CongDiffers(p, y, y');
    SumOfMultiples(x, x', y, y', i, j, p);
    RedShift(p, x' + y', x + y, i + j);
    RedShift(p, x' - y', x - y, i - j);
  }

  lemma {:induction false} RedMul(p: nat, x: int, x': int, y: int, y': int)
    requires p > 0 && Red(p, x) == Red(p, x') && Red(p, y) == Red(p, y')
    ensures Red(p, x * y) == Red(p, x' * y')
  {
    var i := CongDiffers(p, x, x');
    var j := CongDiffers(p, y, y');
    ProductOfMultiples(x, x', y, y', i, j, p);
    RedShift(p, x' * y', x * y, x' * j + i * y' + i * p * j);
  }

  lemma {:induction false} RedRed(p: nat, x: int)
    requires p > 0
    ensures Red(p, Red(p, x)) == Red(p, x)
  {
  }

  ghost predicate Reduced(p: nat, a: seq<int>) {
    forall i | 0 <= i < |a| :: 0 <= a[i] < p
  }

  ghost function ReducedAll(p: nat, a: seq<int>): (r: seq<int>)
    requires p > 0
    ensures |r| == |a| && Reduced(p, r) && forall i: nat | i < |a| :: r[i] == Red(p, a[i])
  {
    seq(|a|, i requires 0 <= i < |a| => Red(p, a[i]))
  }

  function Pow(b: int, e: nat): int {
    if e == 0 then 1 else Pow(b, e - 1) * b
  }

  lemma {:induction false} PowAdd(b: int, x: nat, y: nat)
    ensures Pow(b, x + y) == Pow(b, x) * Pow(b, y)
  {
    if y > 0 {
      PowAdd(b, x, y - 1);
      assert Pow(b, x + y) == Pow(b, x + (y - 1)) * b;
    }
  }

  lemma {:induction false} PowPow(b: int, x: nat, y: nat, z: nat)
    requires z == x * y
    ensures Pow(Pow(b, x), y) == Pow(b, z)
  {
    if y > 0 {
      OneFactorLess(x, y, z);
      PowPow(b, x, y - 1, z - x);
      PowAdd(b, z - x, x);
    }
  }

  lemma {:induction false} OneFactorLess(x: nat, y: nat, z: nat)
    requires y > 0 && z == x * y
    ensures z - x == x * (y - 1) >= 0
  {
  }

  /** Powers of a power that is one. */
  lemma {:induction false} PowTrivial(p: nat, b: int, x: nat, y: nat, z: nat)
    requires p > 0 && z == x * y && Red(p, Pow(b, x)) == Red(p, 1)
    ensures Red(p, Pow(b, z)) == Red(p, 1)
  {
    PowPow(b, x, y, z);
    RedPow(p, Pow(b, x), 1, y);
    PowOne(y);
  }

  lemma {:induction false} PowOfProduct(b: int, c: int, e: nat)
    ensures Pow(b * c, e) == Pow(b, e) * Pow(c, e)
  {
    if e > 0 {
      PowOfProduct(b, c, e - 1);
    }
  }

  lemma {:induction false} PowOne(e: nat)
    ensures Pow(1, e) == 1
  {
    if e > 0 { PowOne(e - 1); }
  }

  lemma {:induction false} PowToOne(x: int)
    ensures Pow(x, 1) == x && Pow(x, Pow2(0)) == x
  {
    assert Pow(x, 1) == Pow(x, 0) * x;
  }

  lemma {:induction false} PowOfZero(e: nat)
    requires e > 0
    ensures Pow(0, e) == 0
  {
    assert Pow(0, e - 1) * 0 == 0;
  }

  lemma {:induction false} RedPow(p: nat, b: int, b': int, e: nat)
    requires p > 0 && Red(p, b) == Red(p, b')
    ensures Red(p, Pow(b, e)) == Red(p, Pow(b', e))
  {
    if e > 0 {
      RedPow(p, b, b', e - 1);
      RedMul(p, Pow(b, e - 1), Pow(b', e - 1), b, b');
    }
  }

  /** The field's square-and-multiply exponentiation is used through its meaning. */
  function FieldPow(p: nat, b: int, e: nat): (r: int)
    requires p > 0
    ensures 0 <= r < p
  {
    Red(p, Pow(b, e))
  }

  function Pow2(l: nat): (n: nat)
    ensures n > 0
  {
    if l == 0 then 1 else 2 * Pow2(l - 1)
  }

  lemma {:induction false} Pow2Add(k: nat, l: nat)
    ensures Pow2(k + l) == Pow2(k) * Pow2(l)
  {
    if l > 0 {
      Pow2Add(k, l - 1);
      assert Pow2(k + l) == 2 * Pow2(k + (l - 1));
    }
  }

  lemma {:induction false} Pow2Monotone(k: nat, l: nat)
    requires k <= l
    ensures Pow2(k) <= Pow2(l)
  {
    if k < l { Pow2Monotone(k, l - 1); }
  }

  lemma {:induction false} WordIsPower()
    ensures Pow2(64) == 0x1_0000_0000_0000_0000
  {
    assert Pow2(4) == 16;
    Pow2Add(4, 4);
    Pow2Add(8, 8);
    Pow2Add(16, 16);
    assert Pow2(32) == 0x1_0000_0000;
    Pow2Add(32, 32);
  }

  // ---- Residues computed from residues ----

  lemma {:induction false} SumComputed(p: nat, r: int, x: int, s: int, y: int)
    requires p > 0 && Red(p, r) == Red(p, x) && Red(p, s) == Red(p, y)
    ensures Red(p, Red(p, r + s)) == Red(p, x + y) && Red(p, Red(p, r - s)) == Red(p, x - y)
  {
    RedAdd(p, r, x, s, y);
    RedRed(p, r + s);
    RedRed(p, r - s);
  }

  lemma {:induction false} ProductComputed(p: nat, r: int, x: int, s: int, y: int)
    requires p > 0 && Red(p, r) == Red(p, x) && Red(p, s) == Red(p, y)
    ensures Red(p, Red(p, r * s)) == Red(p, x * y)
  {
    RedMul(p, r, x, s, y);
    RedRed(p, r * s);
  }

  lemma {:induction false} NegationComputed(p: nat, r: int, x: int)
    requires p > 0 && Red(p, r) == Red(p, x)
    ensures Red(p, Red(p, -r)) == Red(p, -x)
  {
    SumComputed(p, 0, 0, r, x);
  }

  // ---- Roots of unity ----

  /** `omega` raised to half of 2^l is minus one; a root of order one is one. */
  ghost predicate IsRoot(p: nat, omega: int, l: nat) {
    p > 0 && if l == 0 then Red(p, omega) == Red(p, 1) else Red(p, Pow(omega, Pow2(l - 1))) == Red(p, -1)
  }

  lemma {:induction false} RootOrder(p: nat, omega: int, l: nat)
    requires IsRoot(p, omega, l)
    ensures Red(p, Pow(omega, Pow2(l))) == Red(p, 1)
  {
    if l == 0 {
      assert Pow(omega, 1) == Pow(omega, 0) * omega;
    } else {
      var h := Pow2(l - 1);
      PowAdd(omega, h, h);
      RedMul(p, Pow(omega, h), -1, Pow(omega, h), -1);
    }
  }

  // ---- Integer arithmetic ----

  lemma Associate(u: int, v: int, w: int)
    ensures (u * v) * w == u * (v * w)
  {
  }

  lemma Distribute(u: int, v: int, w: int)
    ensures u * (v + w) == u * v + u * w
  {
  }

  lemma Commute(u: int, v: int)
    ensures u * v == v * u
  {
  }

  lemma Rotate(u: int, v: int, w: int)
    ensures (u * v) * w == (u * w) * v
  {
  }

  lemma Negated(u: int, v: int)
    ensures -u * v == -(u * v) && v * -u == -(u * v)
  {
  }

  lemma DistributeSum(u: int, v: int, w: int)
    ensures (u + v) * w == u * w + v * w
  {
  }

  lemma Exchange(u: int, v: int, w: int)
    ensures u * (v * w) == v * (u * w) == w * (u * v)
  {
    assert v * (u * w) == (u * v) * w;
  }

  /** One step of evaluation, times `w`. */
  lemma StepTimes(c: int, x: int, u: int, w: int)
    ensures (c + x * u) * w == c * w + x * (u * w) && x * (u * w) == u * (w * x)
  {
    Associate(x, u, w);
    Exchange(x, u, w);
  }

  lemma DivMod(x: nat, m: nat)
    requires m > 0
    ensures x == m * (x / m) + x % m && x / m >= 0 && 0 <= x % m < m
  {
  }

  lemma {:induction false} NextSquare(p: nat, x: int, i: nat, y: int)
    requires p > 0 && y == Red(p, Pow(x, Pow2(i)))
    ensures Red(p, y * y) == Red(p, Pow(x, Pow2(i + 1)))
  {
    RedRed(p, Pow(x, Pow2(i)));
    RedMul(p, y, Pow(x, Pow2(i)), y, Pow(x, Pow2(i)));
    PowAdd(x, Pow2(i), Pow2(i));
  }

  lemma {:induction false} NextPower(p: nat, x: int, i: nat, w: int)
    requires p > 0 && w == Red(p, Pow(x, i))
    ensures Red(p, w * x) == Red(p, Pow(x, i + 1))
  {
    RedRed(p, Pow(x, i));
    RedMul(p, w, Pow(x, i), x, x);
  }

  lemma {:induction false} BlocksInOrder(m: nat, b: nat, b': nat)
    requires b < b'
    ensures m * b + m <= m * b'
    decreases b'
  {
    if b + 1 < b' {
      BlocksInOrder(m, b, b' - 1);
    }
    assert m * b' == m * (b' - 1) + m;
  }

  /** Euclidean division has one quotient and one remainder. */
  lemma {:induction false} QuotientUnique(n: nat, d: nat, q: nat, r: nat)
    requires d > 0 && n == d * q + r && r < d
    ensures n / d == q && n % d == r
  {
    var k, e := n / d, n % d;
    assert n == d * k + e;
    if k > q { BlocksInOrder(d, q, k); }
    if k < q { BlocksInOrder(d, k, q); }
  }
}
