/** Inversion modulo a prime by the binary Euclidean algorithm of crates/ff_derive/src/lib.rs, on
    limb arrays, in place. */
module FieldInverse {
  import opened Outcomes
  import opened Modular
  import opened Limbs

  // ---- Divisibility ----

  ghost predicate Divides(d: nat, n: nat) {
    d > 0 && exists k: nat :: IsMultiple(d, k, n)
  }

  ghost predicate IsMultiple(d: nat, k: nat, n: nat) {
    n == d * k
  }

  ghost predicate Prime(m: nat) {
    m > 1 && forall d: nat | d > 1 && Divides(d, m) :: d == m
  }

  ghost predicate Coprime(u: nat, v: nat) {
    forall d: nat | d > 1 && Divides(d, u) :: !Divides(d, v)
  }

  lemma {:induction false} DividesSum(d: nat, x: nat, y: nat)
    requires Divides(d, x) && Divides(d, y)
    ensures Divides(d, x + y)
  {
    var j: nat :| IsMultiple(d, j, x);
    var k: nat :| IsMultiple(d, k, y);
    assert IsMultiple(d, j + k, x + y);
  }

  lemma {:induction false} CoprimeSelf(x: nat, m: nat)
    requires Prime(m) && 0 < x < m
    ensures Coprime(x, m)
  {
    forall d: nat | d > 1 && Divides(d, x) ensures !Divides(d, m) {
      if Divides(d, m) {
        var k: nat :| IsMultiple(d, k, x);
        if k > 1 { BlocksInOrder(d, 1, k); }
        assert false;
      }
    }
  }

  lemma {:induction false} CoprimeHalf(u: nat, v: nat)
    requires Coprime(u, v) && u % 2 == 0
    ensures Coprime(u / 2, v)
  {
    forall d: nat | d > 1 && Divides(d, u / 2) ensures !Divides(d, v) {
      DividesSum(d, u / 2, u / 2);
    }
  }

  lemma {:induction false} CoprimeSym(u: nat, v: nat)
    requires Coprime(u, v)
    ensures Coprime(v, u)
  {
  }

  lemma {:induction false} CoprimeDifference(u: nat, v: nat)
    requires Coprime(u, v) && v <= u
    ensures Coprime(u - v, v)
  {
    forall d: nat | d > 1 && Divides(d, u - v) ensures !Divides(d, v) {
      if Divides(d, v) { DividesSum(d, u - v, v); }
    }
  }

  lemma {:induction false} CoprimeEqual(u: nat)
    requires Coprime(u, u) && u > 0
    ensures u == 1
  {
    if u > 1 {
      assert IsMultiple(u, 1, u);
      assert Divides(u, u);
    }
  }

  // ---- Halving modulo an odd number ----

  lemma {:induction false} HalveMultiple(x: int, k: int, m: nat)
    requires m % 2 == 1 && 2 * x == k * m
    ensures k % 2 == 0 && x == (k / 2) * m
  {
    var h := m / 2;
    assert m == 2 * h + 1;
    assert k * m == 2 * (k * h) + k;
    assert k == 2 * (x - k * h);
  }

  /** Two is invertible modulo an odd number. */
  lemma {:induction false} CancelTwo(m: nat, x: int, y: int)
    requires m % 2 == 1 && Red(m, 2 * x) == Red(m, 2 * y)
    ensures Red(m, x) == Red(m, y)
  {
    var k := CongDiffers(m, 2 * x, 2 * y);
    HalveMultiple(x - y, k, m);
    RedShift(m, y, x, k / 2);
  }

  /** One cofactor of the algorithm: b * self = u * r2 modulo m. */
  ghost predicate Balanced(m: nat, self: nat, r2: nat, u: nat, b: nat)
    requires m > 0
  {
    b < m && Red(m, b * self) == Red(m, u * r2)
  }

  lemma {:induction false} HalveBalanced(m: nat, self: nat, r2: nat, u: nat, b: nat, b': nat)
    requires m % 2 == 1 && Balanced(m, self, r2, u, b) && u % 2 == 0
    requires b' == if b % 2 == 0 then b / 2 else (b + m) / 2
    ensures Balanced(m, self, r2, u / 2, b')
  {
    var h := u / 2;
    var x := 2 * b';
    assert x == b || x == b + m;
    Doubled(x, b, m, self, b', u, h, r2);
    if x == b + m { RedShift(m, b * self, x * self, self); }
    CancelTwo(m, b' * self, h * r2);
  }

  lemma {:induction false} Doubled(x: int, b: int, m: int, self: int, b': int, u: int, h: int, r2: int)
    requires x == 2 * b' && u == 2 * h
    ensures x * self == 2 * (b' * self) && u * r2 == 2 * (h * r2)
    ensures x == b + m ==> x * self == b * self + self * m
  {
  }

  lemma {:induction false} SubtractBalanced(m: nat, self: nat, r2: nat, u: nat, b: nat, v: nat, c: nat, d: nat)
    requires m > 0 && Balanced(m, self, r2, u, b) && Balanced(m, self, r2, v, c) && v <= u
    requires d == if c > b then b + m - c else b - c
    ensures Balanced(m, self, r2, u - v, d)
  {
    RedAdd(m, b * self, u * r2, c * self, v * r2);
    Differences(b, c, d, self, m, u, v, r2);
    if c > b { RedShift(m, b * self - c * self, d * self, self); }
  }

  lemma {:induction false} Differences(b: int, c: int, d: int, self: int, m: int, u: int, v: int, r2: int)
    ensures (u - v) * r2 == u * r2 - v * r2
    ensures d == b - c ==> d * self == b * self - c * self
    ensures d == b + m - c ==> d * self == b * self - c * self + self * m
  {
  }

  // ---- The algorithm ----

  /** The modulus fits twice into its limbs, as the derive macro chooses them. */
  ghost predicate Modulus(modulus: seq<nat>) {
    && |modulus| > 0 && Words(modulus) && modulus[0] % 2 == 1
    && 2 * Value(modulus) <= Weight(|modulus|)
  }

  ghost predicate Limbed(a: array<nat>, n: nat)
    reads a
  {
    a.Length == n && Words(a[..])
  }

  /** Adding the modulus to a reduced element does not overflow. */
  method AddModulus(b: array<nat>, modulus: seq<nat>)
    requires Modulus(modulus) && Limbed(b, |modulus|) && Value(b[..]) < Value(modulus)
    modifies b
    ensures Limbed(b, |modulus|) && Value(b[..]) == old(Value(b[..])) + Value(modulus)
  {
    ghost var was := b[..];
    AddIsSum(was, modulus, 0);
    AddNoCarry(b, modulus);
    ShiftBound(|modulus|, AddLimbs(was, modulus, 0).1);
  }

  method HalveElement(b: array<nat>, modulus: seq<nat>)
    requires Modulus(modulus) && Limbed(b, |modulus|) && Value(b[..]) < Value(modulus)
    modifies b
    ensures Limbed(b, |modulus|) && Value(b[..]) < Value(modulus)
    ensures var x := old(Value(b[..])); Value(b[..]) == if x % 2 == 0 then x / 2 else (x + Value(modulus)) / 2
  {
    HalfIsHalf(b[..]);
    if b[0] % 2 == 0 {
      Div2(b);
    } else {
      AddModulus(b, modulus);
      HalfIsHalf(b[..]);
      Div2(b);
    }
  }

  /** Field subtraction: the modulus is added first when the difference would be negative. */
  method SubElement(b: array<nat>, c: array<nat>, modulus: seq<nat>)
    requires Modulus(modulus) && Limbed(b, |modulus|) && Limbed(c, |modulus|) && b != c
    requires Value(b[..]) < Value(modulus) && Value(c[..]) < Value(modulus)
    modifies b
    ensures Limbed(b, |modulus|) && Value(b[..]) < Value(modulus)
    ensures var x, y := old(Value(b[..])), Value(c[..]);
            Value(b[..]) == if y > x then x + Value(modulus) - y else x - y
  {
    var greater := LessThan(b[..], c[..]);
    if greater {
      AddModulus(b, modulus);
    }
    SubFits(b[..], c[..]);
    SubNoBorrow(b, c[..]);
  }

  lemma {:induction false} SubFits(a: seq<nat>, b: seq<nat>)
    requires |a| == |b| && Words(a) && Words(b) && Value(b) <= Value(a)
    ensures Value(SubLimbs(a, b, 0).0) == Value(a) - Value(b) && Words(SubLimbs(a, b, 0).0)
  {
    SubIsDifference(a, b, 0);
    var r := SubLimbs(a, b, 0);
    ValueBound(r.0);
    ShiftBound(|a|, r.1);
  }

  /** Takes out the factors of two, keeping the balance. */
  method MakeOdd(u: array<nat>, b: array<nat>, modulus: seq<nat>, ghost self: nat, ghost r2: nat, ghost v: nat)
    requires Modulus(modulus) && Limbed(u, |modulus|) && Limbed(b, |modulus|) && u != b
    requires Value(u[..]) > 0 && Coprime(Value(u[..]), v)
    requires Balanced(Value(modulus), self, r2, Value(u[..]), Value(b[..]))
    modifies u, b
    ensures Limbed(u, |modulus|) && Limbed(b, |modulus|)
    ensures 0 < Value(u[..]) <= old(Value(u[..])) && Value(u[..]) % 2 == 1
    ensures Coprime(Value(u[..]), v) && Balanced(Value(modulus), self, r2, Value(u[..]), Value(b[..]))
  {
    HalfIsHalf(u[..]);
    HalfIsHalf(modulus);
    while u[0] % 2 == 0
      invariant Limbed(u, |modulus|) && Limbed(b, |modulus|)
      invariant 0 < Value(u[..]) <= old(Value(u[..])) && Value(u[..]) % 2 == u[0] % 2
      invariant Coprime(Value(u[..]), v) && Balanced(Value(modulus), self, r2, Value(u[..]), Value(b[..]))
      decreases Value(u[..])
    {
      ghost var x, y := Value(u[..]), Value(b[..]);
      HalfIsHalf(u[..]);
      CoprimeHalf(x, v);
      Div2(u);
      HalveElement(b, modulus);
      HalveBalanced(Value(modulus), self, r2, x, y, Value(b[..]));
      HalfIsHalf(u[..]);
    }
  }

  ghost predicate State(modulus: seq<nat>, self: nat, r2: nat, u: array<nat>, v: array<nat>, b: array<nat>,
                        c: array<nat>)
    reads u, v, b, c
  {
    && Modulus(modulus) && Limbed(u, |modulus|) && Limbed(v, |modulus|) && Limbed(b, |modulus|) && Limbed(c, |modulus|)
    && u != v && u != b && u != c && v != b && v != c && b != c
    && Coprime(Value(u[..]), Value(v[..]))
    && Balanced(Value(modulus), self, r2, Value(u[..]), Value(b[..]))
    && Balanced(Value(modulus), self, r2, Value(v[..]), Value(c[..]))
  }

  /** The subtraction step: the larger of the two odd numbers becomes smaller. */
  method Subtract(modulus: seq<nat>, ghost self: nat, ghost r2: nat, u: array<nat>, v: array<nat>, b: array<nat>,
                  c: array<nat>)
    requires State(modulus, self, r2, u, v, b, c) && Value(u[..]) > 0 && Value(v[..]) > 0
    modifies u, v, b, c
    ensures State(modulus, self, r2, u, v, b, c)
    ensures Value(u[..]) + Value(v[..]) < old(Value(u[..])) + old(Value(v[..]))
    ensures (Value(u[..]) > 0 && Value(v[..]) > 0) || Value(u[..]) == 1
  {
    ghost var x, y, p, q := Value(u[..]), Value(v[..]), Value(b[..]), Value(c[..]);
    var less := LessThan(v[..], u[..]);
    if less {
      SubFits(u[..], v[..]);
      SubNoBorrow(u, v[..]);
      SubElement(b, c, modulus);
      CoprimeDifference(x, y);
      SubtractBalanced(Value(modulus), self, r2, x, p, y, q, Value(b[..]));
    } else {
      SubFits(v[..], u[..]);
      SubNoBorrow(v, u[..]);
      SubElement(c, b, modulus);
      CoprimeSym(x, y);
      CoprimeDifference(y, x);
      SubtractBalanced(Value(modulus), self, r2, y, q, x, p, Value(c[..]));
      if x == y { CoprimeEqual(x); }
    }
  }

  function One(n: nat): (s: seq<nat>)
    requires n > 0
    ensures |s| == n
  {
    [1] + seq(n - 1, _ => 0)
  }

  lemma {:induction false} ZerosValue(n: nat)
    ensures Value(seq(n, _ => 0)) == 0
  {
    if n > 0 {
      assert seq(n, _ => 0)[1..] == seq(n - 1, _ => 0);
      ZerosValue(n - 1);
    }
  }

  lemma {:induction false} OneValue(n: nat)
    requires n > 0
    ensures Words(One(n)) && Value(One(n)) == 1
  {
    assert One(n)[1..] == seq(n - 1, _ => 0);
    ZerosValue(n - 1);
  }

  /** None exactly for zero; otherwise the reduced element y with y * self = r2 modulo m. */
  method Inverse(self: seq<nat>, modulus: seq<nat>, r2: seq<nat>) returns (r: Option<seq<nat>>)
    requires Modulus(modulus) && Prime(Value(modulus))
    requires |self| == |r2| == |modulus| && Words(self) && Words(r2)
    requires Value(self) < Value(modulus) && Value(r2) < Value(modulus)
    ensures r.None? <==> Value(self) == 0
    ensures r.Some? ==>
              && |r.value| == |modulus| && Words(r.value) && Value(r.value) < Value(modulus)
              && Red(Value(modulus), Value(r.value) * Value(self)) == Red(Value(modulus), Value(r2))
  {
    ZerosValue(|modulus|);
    var zero := seq(|modulus|, _ => 0);
    if self == zero {
      return None;
    }
    if Value(self) == 0 {
      ValueInjective(self, zero);
      assert false;
    }
    var one := One(|modulus|);
    OneValue(|modulus|);
    var u := ToArray(self);
    var v := ToArray(modulus);
    var b := ToArray(r2);
    var c := ToArray(zero);
    Initially(modulus, Value(self), Value(r2));
    while u[..] != one && v[..] != one
      invariant State(modulus, Value(self), Value(r2), u, v, b, c)
      invariant fresh(u) && fresh(v) && fresh(b) && fresh(c)
      invariant (Value(u[..]) > 0 && Value(v[..]) > 0) || Value(u[..]) == 1
      decreases Value(u[..]) + Value(v[..])
    {
      if Value(u[..]) == 1 {
        ValueInjective(u[..], one);
        assert false;
      }
      MakeOdd(u, b, modulus, Value(self), Value(r2), Value(v[..]));
      CoprimeSym(Value(u[..]), Value(v[..]));
      MakeOdd(v, c, modulus, Value(self), Value(r2), Value(u[..]));
      CoprimeSym(Value(v[..]), Value(u[..]));
      Subtract(modulus, Value(self), Value(r2), u, v, b, c);
    }
    if u[..] == one {
      return Some(b[..]);
    } else {
      return Some(c[..]);
    }
  }

  lemma {:induction false} Initially(modulus: seq<nat>, self: nat, r2: nat)
    requires Modulus(modulus) && Prime(Value(modulus)) && 0 < self < Value(modulus) && r2 < Value(modulus)
    ensures Coprime(self, Value(modulus))
    ensures Balanced(Value(modulus), self, r2, self, r2) && Balanced(Value(modulus), self, r2, Value(modulus), 0)
  {
    var m := Value(modulus);
    CoprimeSelf(self, m);
    assert r2 * self == self * r2 && 0 * self == 0;
    RedShift(m, 0, m * r2, r2);
  }

  method ToArray(s: seq<nat>) returns (a: array<nat>)
    ensures fresh(a) && a[..] == s
  {
    a := new nat[|s|](i requires 0 <= i < |s| => s[i]);
  }

  // ---- Elements as integers ----

  /** The number of limbs the derive macro chooses: enough for twice the modulus. */
  method LimbCount(p: nat) returns (limbs: nat)
    ensures limbs > 0 && 2 * p <= Weight(limbs)
    ensures limbs == 1 || Weight(limbs - 1) < 2 * p
  {
    limbs := 1;
    var cur := WORD;
    assert Weight(1) == WORD * Weight(0);
    while cur < 2 * p
      invariant limbs > 0 && cur == Weight(limbs) && (limbs == 1 || Weight(limbs - 1) < 2 * p)
      decreases 2 * p - cur
    {
      limbs := limbs + 1;
      cur := cur * WORD;
    }
  }

  method ToLimbs(x: nat, n: nat) returns (s: seq<nat>)
    requires x < Weight(n)
    ensures |s| == n && Words(s) && Value(s) == x
    decreases n
  {
    if n == 0 {
      s := [];
    } else {
      var rest := ToLimbs(x / WORD, n - 1);
      s := [x % WORD] + rest;
      assert s[1..] == rest;
    }
  }

  /** The inverse of a residue modulo an odd prime. */
  method InverseOf(p: nat, x: nat) returns (y: Option<nat>)
    requires Prime(p) && p % 2 == 1 && x < p
    ensures y.None? <==> x == 0
    ensures y.Some? ==> y.value < p && Red(p, x * y.value) == 1
  {
    var limbs := LimbCount(p);
    var modulus := ToLimbs(p, limbs);
    HalfIsHalf(modulus);
    var self := ToLimbs(x, limbs);
    OneValue(limbs);
    var r := Inverse(self, modulus, One(limbs));
    match r {
      case None => y := None;
      case Some(v) =>
        y := Some(Value(v));
        assert Value(v) * x == x * Value(v);
    }
  }
}
