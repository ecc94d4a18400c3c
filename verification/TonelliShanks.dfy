/** Square roots modulo a prime by the Tonelli-Shanks algorithm, as crates/ff_derive/src/lib.rs
    generates it (Algorithm 5 of IACR ePrint 2012/685). */
module TonelliShanks {
  import opened Outcomes
  import opened Modular
  import opened FieldInverse
  import opened PrimeFields
  import opened EulerCriterion

  datatype LegendreSymbol = Zero | QuadraticResidue | QuadraticNonResidue

  /** p - 1 = 2^s * t with t odd, and a root of unity of order 2^s. */
  datatype SqrtField = SqrtField(p: nat, s: nat, t: nat, rootOfUnity: nat) {
    ghost predicate Valid() {
      && Prime(p) && s > 0 && t % 2 == 1 && p - 1 == Pow2(s) * t
      && rootOfUnity < p && IsRoot(p, rootOfUnity, s)
    }
  }

  /** A generator that is no square gives the root of unity. */
  lemma {:induction false} RootFromGenerator(p: nat, s: nat, t: nat, generator: nat)
    requires Prime(p) && s > 0 && p - 1 == Pow2(s) * t && generator < p && !IsSquare(p, generator)
    ensures IsRoot(p, FieldPow(p, generator, t), s)
  {
    var root, half := FieldPow(p, generator, t), Pow2(s - 1);
    HalfOf(p - 1, half, t);
    assert p - 1 == 2 * (t * half);
    HalfPowerOfNonSquare(p, generator);
    RedRed(p, Pow(generator, t));
    RedPow(p, root, Pow(generator, t), half);
    PowPow(generator, t, half, (p - 1) / 2);
  }

  /** Halves p - 1 until it is odd, and raises the generator to what is left. */
  method SqrtConstants(p: nat, generator: nat) returns (f: SqrtField)
    requires Prime(p) && p > 2 && generator < p && !IsSquare(p, generator)
    ensures f.p == p && f.Valid() && f.rootOfUnity == Red(p, Pow(generator, f.t))
  {
    var s, t := 0, p - 1;
    while t % 2 == 0
      invariant t > 0 && Splits(p - 1, s, t)
      decreases t
    {
      HalveOnce(p - 1, s, t);
      s, t := s + 1, t / 2;
    }
    OddPrime(p);
    SomethingHalved(p - 1, s, t);
    RootFromGenerator(p, s, t, generator);
    f := SqrtField(p, s, t, FieldPow(p, generator, t));
  }

  ghost predicate Splits(n: nat, s: nat, t: nat) {
    n == Pow2(s) * t
  }

  lemma {:induction false} HalveOnce(n: nat, s: nat, t: nat)
    requires t % 2 == 0 && Splits(n, s, t)
    ensures Splits(n, s + 1, t / 2)
  {
    assert t == 2 * (t / 2);
    Associate(Pow2(s), 2, t / 2);
  }

  lemma {:induction false} SomethingHalved(n: nat, s: nat, t: nat)
    requires n % 2 == 0 && t % 2 == 1 && Splits(n, s, t)
    ensures s > 0
  {
  }

  lemma HalfOf(n: nat, half: nat, t: nat)
    requires n == (2 * half) * t
    ensures n / 2 == t * half && t * half >= 0
  {
    assert n == 2 * (t * half);
  }

  // ---- The Legendre symbol ----

  method Legendre(f: SqrtField, x: nat) returns (symbol: LegendreSymbol)
    requires f.Valid() && x < f.p
    ensures symbol == Zero <==> x == 0
    ensures symbol == QuadraticResidue <==> x > 0 && IsSquare(f.p, x)
    ensures symbol == QuadraticNonResidue <==> !IsSquare(f.p, x)
  {
    OddModulus(f);
    ResidueSymbol(f.p, x);
    var s := FieldPow(f.p, x, (f.p - 1) / 2);
    if s == 0 {
      symbol := Zero;
    } else if s == 1 {
      symbol := QuadraticResidue;
    } else {
      symbol := QuadraticNonResidue;
    }
  }

  lemma {:induction false} OddModulus(f: SqrtField)
    requires f.Valid()
    ensures f.p % 2 == 1 && f.p > 2
  {
    HalfOf(f.p - 1, Pow2(f.s - 1), f.t);
    assert f.p - 1 == 2 * (f.t * Pow2(f.s - 1));
  }

  // ---- The loop ----

  /** r^2 = x * t, the order of t divides 2^(m-1), and c has order 2^m. */
  ghost predicate Rooting(p: nat, x: nat, r: nat, t: nat, c: nat, m: nat) {
    && p > 2 && m > 0 && r < p && t < p && c < p
    && Red(p, r * r) == Red(p, x * t)
    && Red(p, Pow(t, Pow2(m - 1))) == 1
    && IsRoot(p, c, m)
  }

  /** The least i with t^(2^i) = 1. */
  method OrderOf(p: nat, t: nat, m: nat) returns (i: nat)
    requires p > 2 && m > 0 && 1 != t < p && Red(p, Pow(t, Pow2(m - 1))) == 1
    ensures 0 < i < m && Red(p, Pow(t, Pow2(i))) == 1 && Red(p, Pow(t, Pow2(i - 1))) != 1
  {
    PowToOne(t);
    i := 1;
    NextSquare(p, t, 0, t);
    var t2i := Red(p, t * t);
    while true
      invariant 0 < i < m && t2i == Red(p, Pow(t, Pow2(i))) && Red(p, Pow(t, Pow2(i - 1))) != 1
      decreases m - i
    {
      if t2i == 1 {
        break;
      }
      NextSquare(p, t, i, t2i);
      t2i := Red(p, t2i * t2i);
      i := i + 1;
    }
  }

  method SquareTimes(p: nat, c: nat, k: nat) returns (d: nat)
    requires p > 0 && c < p
    ensures d < p && d == Red(p, Pow(c, Pow2(k)))
  {
    d := c;
    PowToOne(c);
    for i := 0 to k
      invariant d < p && d == Red(p, Pow(c, Pow2(i)))
    {
      NextSquare(p, c, i, d);
      d := Red(p, d * d);
    }
  }

  /** Squaring a root of order 2^m a few times lowers its order. */
  lemma {:induction false} SquaredRoot(p: nat, c: nat, m: nat, k: nat, d: nat)
    requires IsRoot(p, c, m) && k < m && d == Red(p, Pow(c, Pow2(k)))
    ensures IsRoot(p, d, m - k)
  {
    var h := Pow2(m - k - 1);
    RedRed(p, Pow(c, Pow2(k)));
    RedPow(p, d, Pow(c, Pow2(k)), h);
    Pow2Add(k, m - k - 1);
    PowPow(c, Pow2(k), h, Pow2(m - 1));
  }

  /** Half of the order of t is minus one. */
  lemma {:induction false} HalfOrder(p: nat, t: nat, i: nat)
    requires Prime(p) && p > 2 && i > 0 && Red(p, Pow(t, Pow2(i))) == 1 && Red(p, Pow(t, Pow2(i - 1))) != 1
    ensures Red(p, Pow(t, Pow2(i - 1))) == Red(p, -1)
  {
    PowAdd(t, Pow2(i - 1), Pow2(i - 1));
    RootsOfOne(p, Pow(t, Pow2(i - 1)));
  }

  /** One round: the order of t falls from at most 2^(m-1) to at most 2^(i-1). */
  lemma {:induction false} Round(p: nat, x: nat, r: nat, t: nat, c: nat, m: nat, i: nat, d: nat)
    requires Prime(p) && Rooting(p, x, r, t, c, m) && 0 < i < m
    requires Red(p, Pow(t, Pow2(i))) == 1 && Red(p, Pow(t, Pow2(i - 1))) != 1
    requires d == Red(p, Pow(c, Pow2(m - i - 1)))
    ensures Rooting(p, x, Red(p, r * d), Red(p, t * Red(p, d * d)), Red(p, d * d), i)
  {
    var e := Red(p, d * d);
    SquaredRoot(p, c, m, m - i - 1, d);
    PowToOne(d);
    assert Pow(d, Pow2(1)) == Pow(d, 1) * d;
    SquaredRoot(p, d, i + 1, 1, e);
    HalfOrder(p, t, i);
    ProductOfHalves(p, t, e, Pow2(i - 1));
    NewRoot(p, x, r, t, d, e);
  }

  lemma {:induction false} ProductOfHalves(p: nat, t: nat, e: nat, h: nat)
    requires p > 2 && Red(p, Pow(t, h)) == Red(p, -1) && Red(p, Pow(e, h)) == Red(p, -1)
    ensures Red(p, Pow(Red(p, t * e), h)) == 1
  {
    RedRed(p, t * e);
    RedPow(p, Red(p, t * e), t * e, h);
    PowOfProduct(t, e, h);
    RedMul(p, Pow(t, h), -1, Pow(e, h), -1);
  }

  lemma {:induction false} NewRoot(p: nat, x: nat, r: nat, t: nat, d: nat, e: nat)
    requires p > 0 && Red(p, r * r) == Red(p, x * t) && e == Red(p, d * d)
    ensures Red(p, Red(p, r * d) * Red(p, r * d)) == Red(p, x * Red(p, t * e))
  {
    var dd := d * d;
    RedRed(p, r * d);
    RedMul(p, Red(p, r * d), r * d, Red(p, r * d), r * d);
    RedMul(p, r * r, x * t, dd, dd);
    RedRed(p, dd);
    RedMul(p, t, t, e, dd);
    RedRed(p, t * e);
    RedMul(p, x, x, Red(p, t * e), t * dd);
    Rearrange(r, d, dd, x, t);
  }

  lemma Rearrange(r: int, d: int, dd: int, x: int, t: int)
    requires dd == d * d
    ensures (r * d) * (r * d) == (r * r) * dd && (x * t) * dd == x * (t * dd)
  {
  }

  lemma {:induction false} FirstRoot(f: SqrtField, x: nat)
    requires f.Valid() && 0 < x < f.p && FieldPow(f.p, x, (f.p - 1) / 2) == 1
    ensures Rooting(f.p, x, FieldPow(f.p, x, (f.t + 1) / 2), FieldPow(f.p, x, f.t), f.rootOfUnity, f.s)
  {
    var p, h := f.p, (f.t + 1) / 2;
    OddModulus(f);
    var r, t := FieldPow(p, x, h), FieldPow(p, x, f.t);
    PowAdd(x, h, h);
    assert h + h == f.t + 1 && Pow(x, f.t + 1) == Pow(x, f.t) * x;
    RedRed(p, Pow(x, h));
    RedMul(p, r, Pow(x, h), r, Pow(x, h));
    RedRed(p, Pow(x, f.t));
    RedMul(p, x, x, t, Pow(x, f.t));
    assert x * Pow(x, f.t) == Pow(x, f.t) * x;
    var half := Pow2(f.s - 1);
    HalfOf(p - 1, half, f.t);
    RedPow(p, t, Pow(x, f.t), half);
    PowPow(x, f.t, half, (p - 1) / 2);
  }

  // ---- Which of the two roots ----

  /** `r` is x^((t + 1) / 2) times the power `e` of the root of unity. */
  ghost predicate RootAt(f: SqrtField, x: nat, r: nat, e: nat)
    requires f.p > 0
  {
    r == Red(f.p, Pow(x, (f.t + 1) / 2) * Pow(f.rootOfUnity, e))
  }

  /** Of the two roots, the one with an exponent below 2^(s - 1). */
  ghost predicate Chosen(f: SqrtField, x: nat, r: nat)
    requires f.p > 0 && f.s > 0
  {
    exists e: nat :: e < Pow2(f.s - 1) && RootAt(f, x, r, e)
  }

  lemma {:induction false} MinusOneToOdd(d: nat)
    requires d % 2 == 1
    ensures Pow(-1, d) == -1
  {
    if d == 1 {
      PowToOne(-1);
    } else {
      MinusOneToOdd(d - 2);
      assert Pow(-1, d) == Pow(-1, d - 1) * -1 && Pow(-1, d - 1) == Pow(-1, d - 2) * -1;
    }
  }

  /** No smaller power of a root of unity is one. */
  lemma {:induction false} NotOne(p: nat, z: nat, l: nat, d: nat)
    requires p > 2 && IsRoot(p, z, l) && 0 < d < Pow2(l)
    ensures Red(p, Pow(z, d)) != 1
    decreases l
  {
    if Red(p, Pow(z, d)) == 1 {
      if d % 2 == 1 {
        var h, e: nat := Pow2(l - 1), d * Pow2(l - 1);
        PowPow(z, d, h, e);
        Commute(d, h);
        PowPow(z, h, d, e);
        RedPow(p, Pow(z, h), -1, d);
        MinusOneToOdd(d);
        RedPow(p, Pow(z, d), 1, h);
        PowOne(h);
      } else {
        var w := Red(p, Pow(z, Pow2(1)));
        SquaredRoot(p, z, l, 1, w);
        RedRed(p, Pow(z, 2));
        RedPow(p, w, Pow(z, 2), d / 2);
        PowPow(z, 2, d / 2, d);
        NotOne(p, w, l - 1, d / 2);
      }
    }
  }

  lemma {:induction false} SquareOfRoot(f: SqrtField, x: nat, r: nat, e: nat)
    requires f.p > 0 && RootAt(f, x, r, e)
    ensures Red(f.p, r * r) == Red(f.p, Pow(x, (f.t + 1) / 2) * Pow(x, (f.t + 1) / 2) * Pow(f.rootOfUnity, e + e))
  {
    var u, v := Pow(x, (f.t + 1) / 2), Pow(f.rootOfUnity, e);
    RedRed(f.p, u * v);
    RedMul(f.p, r, u * v, r, u * v);
    PowAdd(f.rootOfUnity, e, e);
    Interchange(u, v, u, v);
  }

  lemma {:induction false} SameExponent(f: SqrtField, x: nat, r: nat, e: nat, r': nat, e': nat)
    requires f.Valid() && 0 < x < f.p && e <= e' < Pow2(f.s - 1) && RootAt(f, x, r, e) && RootAt(f, x, r', e')
    requires SquareOf(f.p, r, x) && SquareOf(f.p, r', x)
    ensures r == r'
  {
    var p, d := f.p, (e' - e) + (e' - e);
    OddModulus(f);
    var u, v := Pow(x, (f.t + 1) / 2) * Pow(x, (f.t + 1) / 2) * Pow(f.rootOfUnity, e + e), Pow(f.rootOfUnity, d);
    SquareOfRoot(f, x, r, e);
    SquareOfRoot(f, x, r', e');
    PowAdd(f.rootOfUnity, e + e, d);
    Associate(Pow(x, (f.t + 1) / 2) * Pow(x, (f.t + 1) / 2), Pow(f.rootOfUnity, e + e), v);
    assert Red(p, u * v) == x && Red(p, u) == x;
    if e < e' {
      RedAdd(p, u * v, u, u, u);
      Distribute(u, v, -1);
      ZeroProduct(p, u, v - 1);
      RedAdd(p, v - 1, 0, 1, 1);
      NotOne(p, f.rootOfUnity, f.s, d);
    }
  }

  /** Only one of the two roots is the chosen one. */
  lemma {:induction false} ChosenIsUnique(f: SqrtField, x: nat, r: nat, r': nat)
    requires f.Valid() && 0 < x < f.p && SquareOf(f.p, r, x) && SquareOf(f.p, r', x)
    requires Chosen(f, x, r) && Chosen(f, x, r')
    ensures r == r'
  {
    var e: nat :| e < Pow2(f.s - 1) && RootAt(f, x, r, e);
    var e': nat :| e' < Pow2(f.s - 1) && RootAt(f, x, r', e');
    if e <= e' {
      SameExponent(f, x, r, e, r', e');
    } else {
      SameExponent(f, x, r', e', r, e);
    }
  }

  /** Some root exactly for the squares: the chosen one of the two whose square is the element. */
  method Sqrt(f: SqrtField, x: nat) returns (root: Option<nat>)
    requires f.Valid() && x < f.p
    ensures root.Some? <==> IsSquare(f.p, x)
    ensures root.Some? ==> SquareOf(f.p, root.value, x) && (x == 0 ==> root.value == 0)
    ensures root.Some? && x > 0 ==> Chosen(f, x, root.value)
  {
    var symbol := Legendre(f, x);
    match symbol {
      case Zero =>
        assert 0 * 0 == 0 && SquareOf(f.p, 0, 0);
        return Some(x);
      case QuadraticNonResidue =>
        return None;
      case QuadraticResidue =>
        OddModulus(f);
        ResidueSymbol(f.p, x);
        FirstRoot(f, x);
        var r := RootOfResidue(f, x);
        assert SquareOf(f.p, r, x);
        return Some(r);
    }
  }

  /** The multiplications and the squaring at the end of a round. */
  method NextRound(p: nat, r: nat, t: nat, d: nat) returns (r': nat, c': nat, t': nat)
    requires p > 0
    ensures r' == Red(p, r * d) && c' == Red(p, d * d) && t' == Red(p, t * c')
  {
    r' := Red(p, r * d);
    c' := Red(p, d * d);
    t' := Red(p, t * c');
  }

  method RootOfResidue(f: SqrtField, x: nat) returns (r: nat)
    requires f.Valid() && 0 < x < f.p
    requires Rooting(f.p, x, FieldPow(f.p, x, (f.t + 1) / 2), FieldPow(f.p, x, f.t), f.rootOfUnity, f.s)
    ensures SquareOf(f.p, r, x) && Chosen(f, x, r)
  {
    var c: nat := f.rootOfUnity;
    r := FieldPow(f.p, x, (f.t + 1) / 2);
    var t: nat := FieldPow(f.p, x, f.t);
    var m: nat := f.s;
    ghost var e: nat := 0;
    PowToOne(f.rootOfUnity);
    assert Pow(x, (f.t + 1) / 2) * 1 == Pow(x, (f.t + 1) / 2);
    while t != 1
      invariant Rooting(f.p, x, r, t, c, m)
      invariant m <= f.s && e < Pow2(f.s - m) && RootAt(f, x, r, e) && IsPowerOfRoot(f, c, f.s - m)
      decreases m
    {
      var i := OrderOf(f.p, t, m);
      var d := SquareTimes(f.p, c, m - i - 1);
      Round(f.p, x, r, t, c, m, i, d);
      NextExponent(f, x, r, c, d, e, m, i);
      e := e + Pow2(f.s - i - 1);
      r, c, t := NextRound(f.p, r, t, d);
      m := i;
    }
    LastRoot(f.p, x, r, c, m);
    Pow2Monotone(f.s - m, f.s - 1);
  }

  ghost predicate IsPowerOfRoot(f: SqrtField, c: nat, k: nat)
    requires f.p > 0
  {
    c == Red(f.p, Pow(f.rootOfUnity, Pow2(k)))
  }

  /** A round adds 2^(s - i - 1) to the exponent of the root of unity. */
  lemma {:induction false} NextExponent(f: SqrtField, x: nat, r: nat, c: nat, d: nat, e: nat, m: nat, i: nat)
    requires f.p > 0 && i < m <= f.s && RootAt(f, x, r, e) && IsPowerOfRoot(f, c, f.s - m) && e < Pow2(f.s - m)
    requires d == Red(f.p, Pow(c, Pow2(m - i - 1)))
    ensures e + Pow2(f.s - i - 1) < Pow2(f.s - i) && IsPowerOfRoot(f, Red(f.p, d * d), f.s - i)
    ensures RootAt(f, x, Red(f.p, r * d), e + Pow2(f.s - i - 1))
  {
    var p, z, k: nat := f.p, f.rootOfUnity, f.s - i - 1;
    Pow2Monotone(f.s - m, k);
    RedRed(p, Pow(z, Pow2(f.s - m)));
    RedPow(p, c, Pow(z, Pow2(f.s - m)), Pow2(m - i - 1));
    Pow2Add(f.s - m, m - i - 1);
    PowPow(z, Pow2(f.s - m), Pow2(m - i - 1), Pow2(k));
    NextSquare(p, z, k, d);
    var u, v := Pow(x, (f.t + 1) / 2), Pow(z, e);
    RedRed(p, u * v);
    RedRed(p, Pow(z, Pow2(k)));
    RedMul(p, r, u * v, d, Pow(z, Pow2(k)));
    Associate(u, v, Pow(z, Pow2(k)));
    PowAdd(z, e, Pow2(k));
  }

  lemma {:induction false} LastRoot(p: nat, x: nat, r: nat, c: nat, m: nat)
    requires 0 < x < p && Rooting(p, x, r, 1, c, m)
    ensures SquareOf(p, r, x)
  {
    assert x * 1 == x;
  }

  // ---- Moduli that are three modulo four ----

  /** The values of the shorter algorithm, through the exponents they are. */
  lemma {:induction false} ShortPowers(p: nat, x: nat, e: nat, a1: nat)
    requires p > 0 && a1 == Red(p, Pow(x, e))
    ensures Red(p, Red(p, a1 * a1) * x) == Red(p, Pow(x, e + e + 1))
  {
    var w := Pow(x, e);
    RedRed(p, w);
    ProductComputed(p, a1, w, a1, w);
    RedMul(p, Red(p, a1 * a1), w * w, x, x);
    PowAdd(x, e, e);
    assert Pow(x, e + e + 1) == Pow(x, e + e) * x;
  }

  lemma {:induction false} ShortSquare(p: nat, x: nat, a1: nat, a0: nat)
    requires p > 0 && a0 == Red(p, Red(p, a1 * a1) * x)
    ensures Red(p, Red(p, a1 * x) * Red(p, a1 * x)) == Red(p, a0 * x)
  {
    RedRed(p, a1 * x);
    RedMul(p, Red(p, a1 * x), a1 * x, Red(p, a1 * x), a1 * x);
    RedRed(p, a1 * a1);
    ProductComputed(p, Red(p, a1 * a1), a1 * a1, x, x);
    RedMul(p, a0, (a1 * a1) * x, x, x);
    SquareOfProduct(a1, x);
  }

  lemma SquareOfProduct(a: int, x: int)
    ensures (a * x) * (a * x) == ((a * a) * x) * x
  {
    assert (a * x) * (a * x) == ((a * x) * a) * x;
  }

  /** Some root exactly for the squares, by one exponentiation (Algorithm 2 of IACR ePrint 2012/685). */
  method SqrtThreeModFour(p: nat, x: nat) returns (root: Option<nat>)
    requires Prime(p) && p % 4 == 3 && x < p
    ensures root.Some? <==> IsSquare(p, x)
    ensures root.Some? ==> SquareOf(p, root.value, x) && root.value == Red(p, Pow(x, (p + 1) / 4))
  {
    var a1 := FieldPow(p, x, (p - 3) / 4);
    var a0 := Red(p, Red(p, a1 * a1) * x);
    ShortPowers(p, x, (p - 3) / 4, a1);
    assert (p - 3) / 4 + (p - 3) / 4 + 1 == (p - 1) / 2;
    ShortSquare(p, x, a1, a0);
    ResidueSymbol(p, x);
    if a0 == p - 1 {
      return None;
    }
    NextPower(p, x, (p - 3) / 4, a1);
    assert (p - 3) / 4 + 1 == (p + 1) / 4;
    a1 := Red(p, a1 * x);
    assert 1 * x == x && 0 * x == 0;
    assert SquareOf(p, a1, x);
    root := Some(a1);
  }
}
