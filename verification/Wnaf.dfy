/** The windowed non-adjacent form of crates/pairing/src/wnaf.rs: recoding a scalar into sparse
    signed digits, and multiplying with a table of odd multiples. */
module Wnaf {
  import opened Modular
  import opened Limbs
  import opened FieldInverse
  import opened Groups

  // ---- Recoding ----

  /** The integer that the digits stand for, lowest first. */
  ghost function DigitSum(digits: seq<int>): int {
    if |digits| == 0 then 0 else digits[0] + 2 * DigitSum(digits[1..])
  }

  /** Zero or odd, and below 2^window in magnitude; for window 0, zero or one. */
  predicate DigitFits(d: int, window: nat) {
    d == 0 || (d % 2 != 0 && d + Pow2(window) > 0 && (d < Pow2(window) || d == 1))
  }

  ghost predicate DigitsFit(digits: seq<int>, window: nat) {
    forall i | 0 <= i < |digits| :: DigitFits(digits[i], window)
  }

  /** Any two digits that are not zero are more than `window` positions apart. */
  ghost predicate Sparse(digits: seq<int>, window: nat) {
    forall i, j | 0 <= i < j < |digits| && digits[i] != 0 && digits[j] != 0 :: j - i > window
  }

  /** The odd digit of an odd scalar for h = 2^window: the remainder modulo 2 h nearest to zero. */
  function OddDigit(c: nat, h: nat): int
    requires h > 0
  {
    var u := c % (2 * h);
    if u > h then u - 2 * h else u
  }

  /** Taking off the digit leaves a multiple of 2 h. */
  lemma {:induction false} OddDigitLeaves(c: nat, h: nat) returns (k: nat)
    requires h > 0 && (h % 2 == 0 || h == 1) && c % 2 == 1
    ensures var u := OddDigit(c, h); c - u == (2 * h) * k && u % 2 == 1 && u + h > 0 && (u < h || u == h == 1)
  {
    var q, r := c / (2 * h), c % (2 * h);
    DivMod(c, 2 * h);
    k := RoundToNearest(c, h, q, r);
  }

  lemma {:induction false} RoundToNearest(c: nat, h: nat, q: nat, r: nat) returns (k: nat)
    requires h > 0 && (h % 2 == 0 || h == 1) && c % 2 == 1 && c == (2 * h) * q + r && r < 2 * h
    ensures var u := if r > h then r - 2 * h else r;
            c - u == (2 * h) * k && u % 2 == 1 && u + h > 0 && (u < h || u == h == 1)
  {
    EvenMultiple((2 * h) * q, h, q);
    Nearest(c, h, (2 * h) * q, r);
    NextMultiple(2 * h, q);
    k := if r > h then q + 1 else q;
  }

  lemma Nearest(c: nat, h: nat, x: nat, r: nat)
    requires (h % 2 == 0 || h == 1) && c % 2 == 1 && x % 2 == 0 && c == x + r && r < 2 * h
    ensures var u := if r > h then r - 2 * h else r;
            c - u == (if r > h then x + 2 * h else x) && u % 2 == 1 && u + h > 0 && (u < h || u == h == 1)
  {
    assert r % 2 == 1 && (r != h || h == 1);
  }

  lemma NextMultiple(m: nat, q: nat)
    ensures m * (q + 1) == m * q + m
  {
  }

  lemma EvenMultiple(x: int, h: int, q: int)
    requires x == (2 * h) * q
    ensures x % 2 == 0
  {
    assert x == 2 * (h * q);
  }

  lemma {:induction false} Pow2Even(window: nat)
    ensures Pow2(window) % 2 == 0 || Pow2(window) == 1
    ensures window > 0 ==> Pow2(window) % 2 == 0
    ensures Pow2(window + 1) == 2 * Pow2(window)
  {
  }

  /** The digit for the current scalar. */
  function NextDigit(c: nat, window: nat): int {
    if c % 2 == 0 then 0 else OddDigit(c, Pow2(window))
  }

  lemma {:induction false} NextDigitFits(c: nat, window: nat)
    ensures DigitFits(NextDigit(c, window), window)
  {
    Pow2Even(window);
    if c % 2 == 1 { var k := OddDigitLeaves(c, Pow2(window)); }
  }

  /** How far the scalar after the digit can be, when representations end at `top`. */
  lemma {:induction false} AtMostTheTop(c: nat, h: nat, k: nat, t: nat, top: nat, u: int)
    requires h > 0 && c < top && top == (2 * h) * t && c - u == (2 * h) * k && u + h > 0 && u <= h
    ensures k <= t && (k == t <==> c > top - h) && (k == t <==> c - u == top) && c - u <= top && (c - u) % 2 == 0
  {
    EvenMultiple((2 * h) * k, h, k);
    if k > t { BlocksInOrder(2 * h, t, k); }
    if k < t { BlocksInOrder(2 * h, k, t); }
  }

  /** The addition of a negative digit wraps around: an odd scalar within 2^window of the top. */
  predicate Wraps(c: nat, window: nat, bits: nat) {
    c % 2 == 1 && c > Pow2(bits) - Pow2(window)
  }

  /** Taking off the digit reaches the top exactly when it wraps around. */
  lemma {:induction false} NextScalar(c: nat, window: nat, bits: nat) returns (k: nat)
    requires window + 1 < bits && 0 < c < Pow2(bits)
    ensures 0 <= c - NextDigit(c, window) <= Pow2(bits)
    ensures c - NextDigit(c, window) == Pow2(bits) <==> Wraps(c, window, bits)
    ensures c % 2 == 1 ==> c - NextDigit(c, window) == (2 * Pow2(window)) * k
    ensures (c - NextDigit(c, window)) % 2 == 0
  {
    var h, top := Pow2(window), Pow2(bits);
    Pow2Even(window);
    if c % 2 == 1 {
      k := OddDigitLeaves(c, h);
      Pow2Add(window + 1, bits - window - 1);
      AtMostTheTop(c, h, k, Pow2(bits - window - 1), top, OddDigit(c, h));
    } else {
      k := 0;
    }
  }

  lemma {:induction false} RestShrinks(c: nat, window: nat)
    requires c > 0
    ensures (c - NextDigit(c, window)) / 2 < c
  {
    var h := Pow2(window);
    Pow2Even(window);
    if c % 2 == 1 {
      var k := OddDigitLeaves(c, h);
      if c < 2 * h { QuotientUnique(c, 2 * h, 0, c); }
    }
  }

  /** The scalar after a digit, on a representation of `bits` bits. */
  function Rest(c: nat, window: nat, bits: nat): nat {
    (c - NextDigit(c, window)) % Pow2(bits) / 2
  }

  lemma {:induction false} RestIs(c: nat, window: nat, bits: nat)
    requires window + 1 < bits && 0 < c < Pow2(bits)
    ensures Rest(c, window, bits) < c && Rest(c, window, bits) <= Pow2(bits - 1)
    ensures Rest(c, window, bits) == if Wraps(c, window, bits) then 0 else (c - NextDigit(c, window)) / 2
    ensures !Wraps(c, window, bits) ==> c == NextDigit(c, window) + 2 * Rest(c, window, bits)
  {
    var k := NextScalar(c, window, bits);
    RestShrinks(c, window);
    WrapOnce(c - NextDigit(c, window), Pow2(bits));
    assert Pow2(bits) == 2 * Pow2(bits - 1);
  }

  lemma {:induction false} WrapOnce(x: nat, top: nat)
    requires x <= top && top > 0
    ensures x % top == if x == top then 0 else x
  {
    if x == top { QuotientUnique(x, top, 1, 0); } else { QuotientUnique(x, top, 0, x); }
  }

  /** All digits of a scalar, lowest first. */
  ghost function Digits(c: nat, window: nat, bits: nat): seq<int>
    requires window + 1 < bits && c < Pow2(bits)
    decreases c
  {
    if c == 0 then [] else
      RestIs(c, window, bits);
      Pow2Monotone(bits - 1, bits);
      [NextDigit(c, window)] + Digits(Rest(c, window, bits), window, bits)
  }

  lemma {:induction false} AllDigitsFit(c: nat, window: nat, bits: nat)
    requires window + 1 < bits && c < Pow2(bits)
    ensures DigitsFit(Digits(c, window, bits), window)
    decreases c
  {
    if c > 0 {
      RestIs(c, window, bits);
      NextDigitFits(c, window);
      AllDigitsFit(Rest(c, window, bits), window, bits);
    }
  }

  /** The digits sum to the scalar, less 2^bits if the first addition wraps around. */
  lemma {:induction false} DigitsSum(c: nat, window: nat, bits: nat)
    requires window + 1 < bits && c < Pow2(bits)
    ensures DigitSum(Digits(c, window, bits)) == c - if Wraps(c, window, bits) then Pow2(bits) else 0
    decreases c
  {
    if c > 0 {
      var c', ds := Rest(c, window, bits), Digits(c, window, bits);
      RestIs(c, window, bits);
      var k := NextScalar(c, window, bits);
      Pow2Monotone(window + 1, bits - 1);
      DigitsSum(c', window, bits);
      assert ds[1..] == Digits(c', window, bits);
    } else {
      Pow2Monotone(window, bits);
    }
  }

  lemma {:induction false} LastDigit(c: nat, window: nat, bits: nat)
    requires window + 1 < bits && c < Pow2(bits)
    ensures var ds := Digits(c, window, bits); ds != [] ==> ds[|ds| - 1] != 0
    decreases c
  {
    if c > 0 {
      var c', d := Rest(c, window, bits), NextDigit(c, window);
      RestIs(c, window, bits);
      var rest := Digits(c', window, bits);
      assert Digits(c, window, bits) == [d] + rest;
      LastDigit(c', window, bits);
      if rest != [] {
        assert ([d] + rest)[|rest|] == rest[|rest| - 1];
      } else {
        var k := NextScalar(c, window, bits);
      }
    }
  }

  /** Recoding loses exactly the odd scalars within 2^window of the top of the representation. */
  lemma {:induction false} DigitsSumToScalar(c: nat, window: nat, bits: nat)
    requires window + 1 < bits && c < Pow2(bits)
    ensures DigitSum(Digits(c, window, bits)) == c <==> !Wraps(c, window, bits)
  {
    DigitsSum(c, window, bits);
  }

  /** The largest scalar of the representation is recoded as the single digit -1. */
  lemma {:induction false} LargestScalarIsLost(window: nat, bits: nat)
    requires 0 < window && window + 1 < bits
    ensures Digits(Pow2(bits) - 1, window, bits) == [-1]
    ensures DigitSum(Digits(Pow2(bits) - 1, window, bits)) != Pow2(bits) - 1
  {
    var c: nat, ds := Pow2(bits) - 1, Digits(Pow2(bits) - 1, window, bits);
    Pow2Even(window);
    assert Pow2(bits) == 2 * Pow2(bits - 1);
    RestIs(c, window, bits);
    var k := NextScalar(c, window, bits);
    DigitsSum(c, window, bits);
    assert c - NextDigit(c, window) == Pow2(bits);
  }

  lemma {:induction false} HalfOfMultiple(x: nat, k: nat)
    requires k > 0 && x % Pow2(k) == 0
    ensures (x / 2) % Pow2(k - 1) == 0 && x % 2 == 0
  {
    var h := Pow2(k - 1);
    var q := x / (2 * h);
    assert x == (2 * h) * q;
    HalfIs(x, h, q);
    QuotientUnique(x / 2, h, q, 0);
    EvenMultiple(x, h, q);
  }

  lemma HalfIs(x: nat, h: nat, q: nat)
    requires x == (2 * h) * q
    ensures x / 2 == h * q
  {
    assert x == 2 * (h * q);
  }

  /** A multiple of 2^k starts with k zero digits. */
  lemma {:induction false} ZerosFirst(c: nat, window: nat, bits: nat, k: nat)
    requires window + 1 < bits && c < Pow2(bits) && c % Pow2(k) == 0
    ensures forall i | 0 <= i < |Digits(c, window, bits)| && i < k :: Digits(c, window, bits)[i] == 0
    decreases k
  {
    if c > 0 && k > 0 {
      HalfOfMultiple(c, k);
      RestIs(c, window, bits);
      ZerosFirst(Rest(c, window, bits), window, bits, k - 1);
    }
  }

  /** After a digit that is not zero come at least `window` zeros. */
  lemma {:induction false} RestIsMultiple(c: nat, window: nat, bits: nat)
    requires window + 1 < bits && 0 < c < Pow2(bits) && NextDigit(c, window) != 0
    ensures Rest(c, window, bits) % Pow2(window) == 0
  {
    var k := NextScalar(c, window, bits);
    RestIs(c, window, bits);
    if !Wraps(c, window, bits) {
      HalfIs((2 * Pow2(window)) * k, Pow2(window), k);
      QuotientUnique(Rest(c, window, bits), Pow2(window), k, 0);
    }
  }

  lemma {:induction false} DigitsAreSparse(c: nat, window: nat, bits: nat)
    requires window + 1 < bits && c < Pow2(bits)
    ensures Sparse(Digits(c, window, bits), window)
    decreases c
  {
    if c > 0 {
      var u, c' := NextDigit(c, window), Rest(c, window, bits);
      RestIs(c, window, bits);
      DigitsAreSparse(c', window, bits);
      if u != 0 {
        RestIsMultiple(c, window, bits);
        ZerosFirst(c', window, bits, window);
      }
      SparseCons(u, Digits(c', window, bits), window);
    }
  }

  lemma {:induction false} SparseCons(u: int, ds: seq<int>, window: nat)
    requires Sparse(ds, window) && (u != 0 ==> forall i | 0 <= i < |ds| && i < window :: ds[i] == 0)
    ensures Sparse([u] + ds, window)
  {
    var all := [u] + ds;
    forall i, j | 0 <= i < j < |all| && all[i] != 0 && all[j] != 0 ensures j - i > window {
      assert all[j] == ds[j - 1];
      if i > 0 { assert all[i] == ds[i - 1]; }
    }
  }

  // ---- On limbs ----

  lemma {:induction false} WeightIsPower(n: nat)
    ensures Weight(n) == Pow2(64 * n)
  {
    if n > 0 {
      WeightIsPower(n - 1);
      WordIsPower();
      Pow2Add(64, 64 * (n - 1));
    }
  }

  /** The remainder modulo 2^(window+1) can be taken from the lowest limb. */
  lemma {:induction false} LowestLimbDecides(c: seq<nat>, window: nat)
    requires |c| > 0 && Words(c) && window < 63
    ensures Value(c) % Pow2(window + 1) == c[0] % Pow2(window + 1)
  {
    var m, t := Pow2(window + 1), Pow2(63 - window);
    WordIsPower();
    Pow2Add(window + 1, 63 - window);
    LowPart(c[0], Value(c[1..]), m, t);
  }

  lemma {:induction false} LowPart(low: nat, high: nat, m: nat, t: nat)
    requires m > 0 && WORD == m * t
    ensures (low + WORD * high) % m == low % m
  {
    Associate(m, t, high);
    var k: nat := t * high;
    assert low == m * (low / m) + low % m;
    Distribute(m, low / m, k);
    QuotientUnique(low + WORD * high, m, low / m + k, low % m);
  }

  /** A machine word as a representation of `n` limbs. */
  function FromWord(u: nat, n: nat): (s: seq<nat>)
    requires n > 0
    ensures |s| == n
  {
    [u] + seq(n - 1, _ => 0)
  }

  lemma {:induction false} FromWordValue(u: nat, n: nat)
    requires n > 0 && u < WORD
    ensures Words(FromWord(u, n)) && Value(FromWord(u, n)) == u
  {
    ZerosValue(n - 1);
    assert FromWord(u, n)[1..] == seq(n - 1, _ => 0);
  }

  lemma {:induction false} SubtractsExactly(a: seq<nat>, b: seq<nat>)
    requires |a| == |b| && Words(a) && Words(b) && Value(b) <= Value(a)
    ensures Value(SubLimbs(a, b, 0).0) == Value(a) - Value(b) && Words(SubLimbs(a, b, 0).0)
  {
    SubIsDifference(a, b, 0);
    ValueBound(a);
    ValueBound(SubLimbs(a, b, 0).0);
    ShiftBound(|a|, SubLimbs(a, b, 0).1);
  }

  lemma {:induction false} AddsModulo(a: seq<nat>, b: seq<nat>)
    requires |a| == |b| && Words(a) && Words(b)
    ensures Value(AddLimbs(a, b, 0).0) == (Value(a) + Value(b)) % Weight(|a|) && Words(AddLimbs(a, b, 0).0)
  {
    var r := AddLimbs(a, b, 0);
    AddIsSum(a, b, 0);
    ValueBound(r.0);
    ShiftIsProduct(|a|, r.1);
    QuotientUnique(Value(a) + Value(b), Weight(|a|), r.1, Value(r.0));
  }

  /** The digit of an odd scalar, in 64-bit arithmetic on its lowest limb. */
  method LowestDigit(c: array<nat>, window: nat) returns (u: int)
    requires c.Length > 0 && Words(c[..]) && window <= 61 && Value(c[..]) % 2 == 1
    ensures u == NextDigit(Value(c[..]), window)
  {
    LowestLimbDecides(c[..], window);
    assert Pow2(window + 1) == 2 * Pow2(window);
    u := c[0] % Pow2(window + 1);
    if u > Pow2(window) {
      u := u - Pow2(window + 1);
    }
  }

  /** Takes the digit off the limbs, which may wrap around. */
  method TakeOff(c: array<nat>, u: int)
    requires c.Length > 0 && Words(c[..]) && 0 - WORD < u < WORD && u <= Value(c[..])
    modifies c
    ensures Words(c[..]) && Value(c[..]) == (old(Value(c[..])) - u) % Weight(c.Length)
  {
    var n := c.Length;
    ghost var before := c[..];
    ValueBound(before);
    if u > 0 {
      FromWordValue(u, n);
      SubtractsExactly(before, FromWord(u, n));
      QuotientUnique(Value(before) - u, Weight(n), 0, Value(before) - u);
      SubNoBorrow(c, FromWord(u, n));
    } else {
      FromWordValue(-u, n);
      AddsModulo(before, FromWord(-u, n));
      AddNoCarry(c, FromWord(-u, n));
    }
  }

  /** One round of the recoding loop: 64-bit words for the digit, wrapping limbs for the scalar. */
  method RecodeOne(c: array<nat>, window: nat) returns (u: int)
    requires c.Length > 0 && Words(c[..]) && window <= 61 && Value(c[..]) > 0
    modifies c
    ensures u == NextDigit(old(Value(c[..])), window) && Words(c[..])
    ensures Value(c[..]) == Rest(old(Value(c[..])), window, 64 * c.Length)
  {
    ghost var v := Value(c[..]);
    ValueBound(c[..]);
    WeightIsPower(c.Length);
    HalfIsHalf(c[..]);
    if c[0] % 2 == 1 {
      u := LowestDigit(c, window);
      DigitIsWord(v, window, 64 * c.Length);
      TakeOff(c, u);
    } else {
      u := 0;
      WrapOnce(v, Pow2(64 * c.Length));
    }
    HalfIsHalf(c[..]);
    Div2(c);
  }

  lemma {:induction false} DigitIsWord(v: nat, window: nat, bits: nat)
    requires window <= 61 && window + 1 < bits && 0 < v < Pow2(bits)
    ensures 0 - WORD < NextDigit(v, window) < WORD && NextDigit(v, window) <= v
  {
    var k := NextScalar(v, window, bits);
    NextDigitFits(v, window);
    WordIsPower();
    Pow2Monotone(window, 64);
  }

  lemma {:induction false} ZeroLimbs(c: seq<nat>)
    ensures Value(c) == 0 <==> forall i | 0 <= i < |c| :: c[i] == 0
  {
    if |c| > 0 {
      ZeroLimbs(c[1..]);
      assert forall i | 0 < i < |c| :: c[i] == c[1..][i - 1];
    }
  }

  method IsZero(c: array<nat>) returns (zero: bool)
    ensures zero <==> Value(c[..]) == 0
  {
    ZeroLimbs(c[..]);
    for i := 0 to c.Length
      invariant forall j | 0 <= j < i :: c[j] == 0
    {
      if c[i] != 0 {
        return false;
      }
    }
    zero := true;
  }

  /** The recoding loop.  With windows above 61 its machine words would overflow. */
  method WnafForm(c0: seq<nat>, window: nat) returns (wnaf: seq<int>)
    requires |c0| > 0 && Words(c0) && window <= 61
    ensures Value(c0) < Pow2(64 * |c0|) && wnaf == Digits(Value(c0), window, 64 * |c0|)
    ensures DigitsFit(wnaf, window) && Sparse(wnaf, window)
    ensures wnaf != [] ==> wnaf[|wnaf| - 1] != 0
    ensures DigitSum(wnaf) == Value(c0) - if Wraps(Value(c0), window, 64 * |c0|) then Pow2(64 * |c0|) else 0
    ensures DigitSum(wnaf) == Value(c0) <==> !Wraps(Value(c0), window, 64 * |c0|)
  {
    ghost var bits := 64 * |c0|;
    ValueBound(c0);
    WeightIsPower(|c0|);
    var c := ToArray(c0);
    wnaf := [];
    var done := IsZero(c);
    while !done
      invariant fresh(c) && c.Length == |c0| && Words(c[..]) && Value(c[..]) < Pow2(bits)
      invariant done <==> Value(c[..]) == 0
      invariant wnaf + Digits(Value(c[..]), window, bits) == Digits(Value(c0), window, bits)
      decreases Value(c[..]), !done
    {
      ghost var v := Value(c[..]);
      RestIs(v, window, bits);
      Pow2Monotone(bits - 1, bits);
      ghost var later := Digits(Rest(v, window, bits), window, bits);
      var u := RecodeOne(c, window);
      assert wnaf + ([u] + later) == (wnaf + [u]) + later;
      wnaf := wnaf + [u];
      done := IsZero(c);
    }
    assert wnaf + [] == wnaf;
    AllDigitsFit(Value(c0), window, bits);
    DigitsAreSparse(Value(c0), window, bits);
    LastDigit(Value(c0), window, bits);
    DigitsSum(Value(c0), window, bits);
  }

  // ---- Multiplying ----

  /** The odd multiples of the base up to 2^window - 1. */
  ghost predicate IsTable<G(!new)>(g: Group<G>, table: seq<G>, base: G, window: nat)
    requires window > 0
  {
    |table| == Pow2(window - 1) && forall i | 0 <= i < |table| :: table[i] == Times(g, 2 * i + 1, base)
  }

  method WnafTable<G(!new)>(g: Group<G>, base0: G, window: nat) returns (table: seq<G>)
    requires g.Valid() && window > 0
    ensures IsTable(g, table, base0, window)
  {
    table := [];
    var base := base0;
    var dbl := g.Double(base);
    TimesOne(g, base0);
    TimesAdd(g, 1, 1, base0);
    for i := 0 to Pow2(window - 1)
      invariant |table| == i && base == Times(g, 2 * i + 1, base0)
      invariant forall j | 0 <= j < i :: table[j] == Times(g, 2 * j + 1, base0)
    {
      table := table + [base];
      TimesAdd(g, 2 * i + 1, 2, base0);
      base := g.add(base, dbl);
    }
  }

  /** The digit's multiple of the base, from the table. */
  method AddDigit<G(!new)>(g: Group<G>, table: seq<G>, result: G, n: int, ghost base: G, ghost window: nat)
    returns (r: G)
    requires g.Valid() && window > 0 && IsTable(g, table, base, window) && DigitFits(n, window) && n != 0
    ensures r == g.add(result, Multiple(g, n, base))
  {
    if n > 0 {
      r := g.add(result, table[n / 2]);
    } else {
      r := g.Sub(result, table[-n / 2]);
    }
  }

  /** Doubles and adds from the highest digit down, without doubling before the first one. */
  method WnafExp<G(!new)>(g: Group<G>, table: seq<G>, wnaf: seq<int>, ghost base: G, ghost window: nat)
    returns (result: G)
    requires g.Valid() && window > 0 && IsTable(g, table, base, window) && DigitsFit(wnaf, window)
    ensures result == Multiple(g, DigitSum(wnaf), base)
  {
    result := g.zero;
    var foundOne := false;
    for i := |wnaf| downto 0
      invariant result == Multiple(g, DigitSum(wnaf[i..]), base)
      invariant !foundOne ==> DigitSum(wnaf[i..]) == 0
    {
      assert wnaf[i..][1..] == wnaf[i + 1..];
      ghost var s := DigitSum(wnaf[i + 1..]);
      MultipleAdd(g, s, s, base);
      MultipleAdd(g, 2 * s, wnaf[i], base);
      if foundOne {
        result := g.Double(result);
      }
      if wnaf[i] != 0 {
        foundOne := true;
        result := AddDigit(g, table, result, wnaf[i], base, window);
      } else {
        Zero(g, result);
      }
    }
    assert wnaf[0..] == wnaf;
  }

  /** Recoding a scalar and multiplying with the table of the same window gives the multiple, except
      for the odd scalars within 2^window of the top, which come out 2^bits too low. */
  method WnafMultiply<G(!new)>(g: Group<G>, base: G, scalar: seq<nat>, window: nat) returns (result: G)
    requires g.Valid() && |scalar| > 0 && Words(scalar) && 0 < window <= 61
    ensures result == Multiple(g, Value(scalar)
                               - (if Wraps(Value(scalar), window, 64 * |scalar|) then Pow2(64 * |scalar|) else 0), base)
    ensures !Wraps(Value(scalar), window, 64 * |scalar|) ==> result == Times(g, Value(scalar), base)
  {
    var table := WnafTable(g, base, window);
    var wnaf := WnafForm(scalar, window);
    DigitsSum(Value(scalar), window, 64 * |scalar|);
    result := WnafExp(g, table, wnaf, base, window);
  }
}
