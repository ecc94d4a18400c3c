/** The evaluation domain of crates/bellman/src/domain.rs: coefficients, residues or points, that are
    transformed in place between a polynomial and its values. */
module FftDomain {
  import opened Outcomes
  import opened Modular
  import opened FieldInverse
  import opened Spaces
  import opened Threads
  import opened FftSerial
  import opened FftParallel
  import opened FftInverse
  import P = Polynomials

  /** The constants of a prime field: a root of unity of order 2^s and a multiplicative generator. */
  datatype FieldConstants = FieldConstants(p: nat, s: nat, rootOfUnity: nat, generator: nat) {
    ghost predicate Valid() {
      && Prime(p) && p % 2 == 1 && p > 2 && 0 < rootOfUnity < p && 0 < generator < p
      && IsRoot(p, rootOfUnity, s)
    }
  }

  /** The root of the domains of size 2^exp: the root of unity of the field, squared s - exp times. */
  ghost function DomainRoot(field: FieldConstants, exp: nat): nat
    requires field.p > 0 && exp <= field.s
  {
    Red(field.p, Pow(field.rootOfUnity, Pow2(field.s - exp)))
  }

  lemma {:induction false} RootNotZero(p: nat, omega: nat, l: nat)
    requires p > 1 && omega < p && IsRoot(p, omega, l)
    ensures omega > 0
  {
    if omega == 0 {
      RootOrder(p, 0, l);
    }
  }

  lemma {:induction false} ReducedRoot(p: nat, omega: int, l: nat)
    requires IsRoot(p, omega, l)
    ensures IsRoot(p, Red(p, omega), l)
  {
    RedRed(p, omega);
    if l > 0 { RedPow(p, Red(p, omega), omega, Pow2(l - 1)); }
  }

  /** A power of two is not zero modulo an odd number. */
  lemma {:induction false} SizeNotZero(p: nat, l: nat)
    requires p % 2 == 1 && p > 1
    ensures Red(p, Pow2(l)) != 0
  {
    if l > 0 {
      SizeNotZero(p, l - 1);
      if Red(p, Pow2(l)) == 0 { CancelTwo(p, Pow2(l - 1), 0); }
    }
  }

  ghost predicate Powered<G(!new)>(g: Space<G>, before: seq<G>, base: int, x: G, i: nat)
    requires i < |before|
  {
    x == g.scale(before[i], Pow(base, i))
  }

  lemma {:induction false} AllPowered<G(!new)>(g: Space<G>, before: seq<G>, base: int, after: seq<G>)
    requires g.Valid() && g.HasAll(before) && |before| == |after|
    requires forall i: nat | i < |after| :: Powered(g, before, base, after[i], i)
    ensures after == Distributed(g, before, base)
  {
  }

  ghost function Padded<G(!new)>(g: Space<G>, a: seq<G>, n: nat): (r: seq<G>)
    requires |a| <= n
    ensures |r| == n && forall i: nat | i < n :: r[i] == if i < |a| then a[i] else g.zero
  {
    seq(n, i requires 0 <= i => if i < |a| then a[i] else g.zero)
  }

  class EvaluationDomain<G(!new)> {
    var coeffs: array<G>
    const space: Space<G>
    const field: FieldConstants
    const exp: nat
    const omega: nat
    const omegainv: nat
    const geninv: nat
    const minv: nat

    ghost predicate Valid()
      reads this, coeffs
    {
      && field.Valid() && exp <= field.s && coeffs.Length == Pow2(exp)
      && space.Valid() && space.p == field.p && space.HasAll(coeffs[..])
      && omega < field.p && omegainv < field.p && geninv < field.p && minv < field.p
      && IsRoot(field.p, omega, exp) && Red(field.p, omega * omegainv) == Red(field.p, 1)
      && Red(field.p, field.generator * geninv) == Red(field.p, 1)
      && Red(field.p, Pow2(exp) * minv) == Red(field.p, 1)
    }

    /** The smallest domain of the field that holds `n` coefficients, with the root of its size. */
    ghost predicate SmallestFor(f: FieldConstants, n: nat)
      reads this, coeffs
    {
      && Valid() && field == f && omega == DomainRoot(field, exp)
      && n <= coeffs.Length && (exp > 0 ==> Pow2(exp - 1) < n)
    }

    /** The smallest power of two that holds the coefficients, unless there are too many of them. */
    static method FromCoeffs(coeffs: seq<G>, space: Space<G>, field: FieldConstants)
      returns (r: Result<EvaluationDomain<G>>)
      requires field.Valid() && space.Valid() && space.p == field.p && space.HasAll(coeffs)
      ensures r.Err? <==> |coeffs| > Pow2(field.s) - 1
      ensures r.Err? ==> r.error == PolynomialDegreeTooLarge
      ensures r.Ok? ==>
                && fresh(r.value) && fresh(r.value.coeffs) && r.value.SmallestFor(field, |coeffs|)
                && r.value.space == space && r.value.coeffs[..] == Padded(space, coeffs, r.value.coeffs.Length)
    {
      var maxDegree := Pow2(field.s) - 1;
      if |coeffs| > maxDegree {
        return Err(PolynomialDegreeTooLarge);
      }
      var m, exp := 1, 0;
      while m < |coeffs|
        invariant m == Pow2(exp) && exp <= field.s && (exp > 0 ==> Pow2(exp - 1) < |coeffs|)
        decreases |coeffs| - m
      {
        m := m * 2;
        exp := exp + 1;
        if exp > field.s {
          // Never reached: the check on the degree has come first.
          assert false;
          return Err(PolynomialDegreeTooLarge);
        }
      }
      var omega := RootOfOrder(field, exp);
      var domain := new EvaluationDomain(coeffs, space, field, exp, m, omega);
      return Ok(domain);
    }

    /** Squares the root of unity until it has the order of the domain. */
    static method RootOfOrder(field: FieldConstants, exp: nat) returns (omega: nat)
      requires field.Valid() && exp <= field.s
      ensures 0 < omega < field.p && IsRoot(field.p, omega, exp) && omega == DomainRoot(field, exp)
    {
      omega := field.rootOfUnity;
      PowToOne(omega);
      for i := exp to field.s
        invariant omega < field.p && IsRoot(field.p, omega, field.s - (i - exp))
        invariant omega == Red(field.p, Pow(field.rootOfUnity, Pow2(i - exp)))
      {
        NextSquare(field.p, field.rootOfUnity, i - exp, omega);
        RootSquare(field.p, omega, field.s - (i - exp));
        ReducedRoot(field.p, omega * omega, field.s - (i - exp) - 1);
        omega := Red(field.p, omega * omega);
      }
      RootNotZero(field.p, omega, exp);
    }

    constructor (coeffs: seq<G>, space: Space<G>, field: FieldConstants, exp: nat, m: nat, omega: nat)
      requires field.Valid() && space.Valid() && space.p == field.p && space.HasAll(coeffs)
      requires exp <= field.s && m == Pow2(exp) && |coeffs| <= m
      requires 0 < omega < field.p && IsRoot(field.p, omega, exp)
      ensures Valid() && fresh(this.coeffs) && this.field == field && this.exp == exp && this.omega == omega
      ensures this.space == space && this.coeffs[..] == Padded(space, coeffs, m)
    {
      SizeNotZero(field.p, exp);
      RedRed(field.p, m);
      var omegainv := InverseOf(field.p, omega);
      var geninv := InverseOf(field.p, field.generator);
      var minv := InverseOf(field.p, Red(field.p, m));
      var padded := new G[m](i requires i >= 0 => if i < |coeffs| then coeffs[i] else space.zero);
      this.coeffs, this.space, this.field, this.exp, this.omega := padded, space, field, exp, omega;
      this.omegainv, this.geninv, this.minv := omegainv.value, geninv.value, minv.value;
      new;
      RedMul(field.p, Red(field.p, m), m, this.minv, this.minv);
    }

    method Fft(worker: Worker)
      requires Valid() && worker.Valid(coeffs.Length)
      modifies coeffs
      ensures Valid() && coeffs[..] == Fourier(space, old(coeffs[..]), omega)
    {
      BestFft(space, coeffs, worker, omega, exp);
    }

    method Ifft(worker: Worker)
      requires Valid() && worker.Valid(coeffs.Length)
      modifies coeffs
      ensures Valid() && coeffs[..] == FourierInverse(space, old(coeffs[..]), omegainv, minv)
    {
      InverseRoot(field.p, omega, omegainv, exp);
      BestFft(space, coeffs, worker, omegainv, exp);
      ghost var before := coeffs[..];
      for i := 0 to coeffs.Length
        invariant forall j: nat | j < i :: coeffs[j] == Scaled(space, before, minv)[j]
        invariant forall j | i <= j < coeffs.Length :: coeffs[j] == before[j]
      {
        coeffs[i] := space.scale(coeffs[i], minv);
      }
    }

    /** Multiplies entry i by g^i, in chunks that each start from their own power. */
    method DistributePowers(chunk: nat, order: seq<nat>, g: nat)
      requires Valid() && Schedule(order, coeffs.Length, chunk)
      modifies coeffs
      ensures Valid() && coeffs[..] == Distributed(space, old(coeffs[..]), g)
    {
      ghost var before := coeffs[..];
      DistributeChunks(space, coeffs, chunk, order, g);
      AllPowered(space, before, g, coeffs[..]);
    }

    static method DistributeChunks(space: Space<G>, a: array<G>, chunk: nat, order: seq<nat>, g: nat)
      requires space.Valid() && space.HasAll(a[..]) && Schedule(order, a.Length, chunk)
      modifies a
      ensures forall i: nat | i < a.Length :: Powered(space, old(a[..]), g, a[i], i)
    {
      ghost var before := a[..];
      ghost var turn := Turns(order, a.Length, chunk, a.Length);
      for x := 0 to |order|
        invariant forall i: nat | i < a.Length && turn[i] < x :: Powered(space, before, g, a[i], i)
        invariant forall i: nat | i < a.Length && turn[i] >= x :: a[i] == before[i]
      {
        var lo, hi := ChunkBounds(a.Length, chunk, order[x]);
        forall i: nat | i < a.Length ensures turn[i] == x <==> lo <= i < hi {
          assert Turn(order, chunk, turn, x, i);
          assert lo <= i < hi <==> InChunk(order[x], chunk, i);
        }
        var u := FieldPow(space.p, g, lo);
        DistributeChunk(space, a, lo, hi, u, g, before);
      }
    }

    /** One chunk, from the power `u` of its first entry. */
    static method DistributeChunk(space: Space<G>, a: array<G>, lo: nat, hi: nat, u0: int, g: nat,
                                  ghost before: seq<G>)
      requires space.Valid() && space.HasAll(before) && lo <= hi <= a.Length == |before|
      requires u0 == Red(space.p, Pow(g, lo)) && forall i | lo <= i < hi :: a[i] == before[i]
      modifies a
      ensures forall i: nat | lo <= i < hi :: Powered(space, before, g, a[i], i)
      ensures forall i | 0 <= i < a.Length && !(lo <= i < hi) :: a[i] == old(a[i])
    {
      var u := u0;
      for i := lo to hi
        invariant u == Red(space.p, Pow(g, i))
        invariant forall j: nat | lo <= j < i :: Powered(space, before, g, a[j], j)
        invariant forall j | 0 <= j < a.Length && !(lo <= j < i) :: a[j] == old(a[j])
      {
        RedRed(space.p, Pow(g, i));
        ScaleCongruent(space, a[i], u, Pow(g, i));
        a[i] := space.scale(a[i], u);
        NextPower(space.p, g, i, u);
        u := Red(space.p, u * g);
      }
    }

    method CosetFft(worker: Worker, chunk: nat, order: seq<nat>)
      requires Valid() && worker.Valid(coeffs.Length) && Schedule(order, coeffs.Length, chunk)
      modifies coeffs
      ensures Valid()
      ensures coeffs[..] == Fourier(space, Distributed(space, old(coeffs[..]), field.generator), omega)
    {
      DistributePowers(chunk, order, field.generator);
      Fft(worker);
    }

    method IcosetFft(worker: Worker, chunk: nat, order: seq<nat>)
      requires Valid() && worker.Valid(coeffs.Length) && Schedule(order, coeffs.Length, chunk)
      modifies coeffs
      ensures Valid()
      ensures coeffs[..] == Distributed(space, FourierInverse(space, old(coeffs[..]), omegainv, minv), geninv)
    {
      Ifft(worker);
      DistributePowers(chunk, order, geninv);
    }

    /** Scales every entry by the residue at the same place. */
    method MulAssign(other: EvaluationDomain<int>)
      requires Valid() && other.Valid() && other.field == field && other.coeffs.Length == coeffs.Length
      modifies coeffs
      ensures Valid() && coeffs[..] == Pointwise(space, old(coeffs[..]), old(other.coeffs[..]))
    {
      ghost var before, factors := coeffs[..], other.coeffs[..];
      for i := 0 to coeffs.Length
        invariant forall j: nat | j < i :: coeffs[j] == Pointwise(space, before, factors)[j]
        invariant forall j | i <= j < coeffs.Length :: coeffs[j] == before[j] && other.coeffs[j] == factors[j]
      {
        coeffs[i] := space.scale(coeffs[i], other.coeffs[i]);
      }
    }

    // ---- What the operations undo ----

    /** Transforming and transforming back, in either order, leaves the coefficients alone. */
    method ThereAndBack(worker: Worker, worker': Worker, inverseFirst: bool)
      requires Valid() && worker.Valid(coeffs.Length) && worker'.Valid(coeffs.Length)
      modifies coeffs
      ensures Valid() && coeffs[..] == old(coeffs[..])
    {
      ghost var a := coeffs[..];
      if inverseFirst {
        Ifft(worker);
        Fft(worker');
        InvertedBefore(space, a, omega, omegainv, minv, exp);
      } else {
        Fft(worker);
        Ifft(worker');
        InvertedAfter(space, a, omega, omegainv, minv, exp);
      }
    }

    /** The same on the coset. */
    method CosetThereAndBack(worker: Worker, worker': Worker, chunk: nat, order: seq<nat>, inverseFirst: bool)
      requires Valid() && worker.Valid(coeffs.Length) && worker'.Valid(coeffs.Length)
      requires Schedule(order, coeffs.Length, chunk)
      modifies coeffs
      ensures Valid() && coeffs[..] == old(coeffs[..])
    {
      ghost var a := coeffs[..];
      if inverseFirst {
        IcosetFft(worker, chunk, order);
        CosetFft(worker', chunk, order);
        Commute(field.generator, geninv);
        DistributedBack(space, FourierInverse(space, a, omegainv, minv), geninv, field.generator);
        InvertedBefore(space, a, omega, omegainv, minv, exp);
      } else {
        CosetFft(worker, chunk, order);
        IcosetFft(worker', chunk, order);
        InvertedAfter(space, Distributed(space, a, field.generator), omega, omegainv, minv, exp);
        DistributedBack(space, a, field.generator, geninv);
      }
    }
  }

  /** Two domains of residues that hold polynomials whose product fits: afterwards the first holds the product. */
  method Multiply(domain: EvaluationDomain<int>, other: EvaluationDomain<int>, worker: Worker, ghost a: seq<int>,
                  ghost b: seq<int>)
    requires domain.Valid() && other.Valid() && other.field == domain.field && other.exp == domain.exp
    requires other.omega == domain.omega && domain.space == other.space == Scalars(domain.field.p)
    requires domain.coeffs != other.coeffs && worker.Valid(domain.coeffs.Length)
    requires |a| <= domain.coeffs.Length && |b| <= domain.coeffs.Length && |P.Mul(a, b)| <= domain.coeffs.Length
    requires domain.coeffs[..] == P.Pad(a, domain.coeffs.Length)
    requires other.coeffs[..] == P.Pad(b, other.coeffs.Length)
    modifies domain.coeffs, other.coeffs
    ensures domain.Valid()
    ensures domain.coeffs[..] == ReducedAll(domain.field.p, P.Pad(P.Mul(a, b), domain.coeffs.Length))
  {
    ghost var p, n := domain.field.p, domain.coeffs.Length;
    assert Reduced(p, a) && Reduced(p, b) by {
      assert a == P.Pad(a, n)[..|a|] && b == P.Pad(b, n)[..|b|];
    }
    domain.Fft(worker);
    other.Fft(worker);
    domain.MulAssign(other);
    domain.Ifft(worker);
    ProductTheorem(p, a, b, domain.omega, domain.omegainv, domain.minv, domain.exp);
  }

  lemma {:induction false} PaddedTwice(a: seq<int>, m: nat, n: nat, p: nat)
    requires |a| <= m <= n && p > 0
    ensures Padded(Scalars(p), P.Pad(a, m), n) == P.Pad(a, n)
  {
  }

  /** From two coefficient lists to the coefficients of their product, on domains made for the sum of their lengths. */
  method MultiplyPolynomials(a: seq<int>, b: seq<int>, field: FieldConstants, worker: nat -> Worker)
    returns (r: Result<seq<int>>)
    requires field.Valid() && Reduced(field.p, a) && Reduced(field.p, b) && forall n: nat :: worker(n).Valid(n)
    ensures r.Err? <==> |a| + |b| > Pow2(field.s) - 1
    ensures r.Err? ==> r.error == PolynomialDegreeTooLarge
    ensures r.Ok? ==> |P.Mul(a, b)| <= |a| + |b| <= |r.value|
    ensures r.Ok? ==> r.value == ReducedAll(field.p, P.Pad(P.Mul(a, b), |r.value|))
  {
    var n := |a| + |b|;
    var resizedA, resizedB := a + seq(n - |a|, _ => 0), b + seq(n - |b|, _ => 0);
    assert resizedA == P.Pad(a, n) && resizedB == P.Pad(b, n);
    ScalarsValid(field.p);
    var domain := EvaluationDomain.FromCoeffs(resizedA, Scalars(field.p), field);
    var other := EvaluationDomain.FromCoeffs(resizedB, Scalars(field.p), field);
    if domain.Err? || other.Err? {
      return Err(PolynomialDegreeTooLarge);
    }
    ghost var size := domain.value.coeffs.Length;
    SmallestIsUnique(n, domain.value.exp, other.value.exp);
    PaddedTwice(a, n, size, field.p);
    PaddedTwice(b, n, size, field.p);
    var length := domain.value.coeffs.Length;
    assert worker(length).Valid(length);
    Multiply(domain.value, other.value, worker(length), a, b);
    return Ok(domain.value.coeffs[..]);
  }

  /** Only one power of two is the smallest above a length. */
  lemma {:induction false} SmallestIsUnique(n: nat, i: nat, j: nat)
    requires n <= Pow2(i) && (i > 0 ==> Pow2(i - 1) < n) && n <= Pow2(j) && (j > 0 ==> Pow2(j - 1) < n)
    ensures i == j
  {
    if i < j { Pow2Monotone(i, j - 1); }
    if j < i { Pow2Monotone(j, i - 1); }
  }
}
