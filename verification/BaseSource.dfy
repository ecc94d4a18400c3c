/** The cursor over the bases of a multi-exponentiation and the density of a query
    (crates/bellman/src/source.rs). */
module BaseSource {
  import opened Outcomes
  import opened Groups

  /** A cursor into the bases. */
  class Source<G(==, !new)> {
    const bases: seq<G>
    var next: nat

    constructor (bases: seq<G>, start: nat)
      ensures this.bases == bases && next == start
    {
      this.bases, next := bases, start;
    }

    /** Adds the next base; an exhausted source and a base at infinity are errors. */
    method AddAssignMixed(g: Group<G>, to: G) returns (r: Result<G>)
      modifies this
      ensures r.Ok? <==> old(next) < |bases| && bases[old(next)] != g.zero
      ensures r.Ok? ==> r.value == g.add(to, bases[old(next)]) && next == old(next) + 1
      ensures r.Err? ==> next == old(next)
                         && r.error == if old(next) >= |bases| then UnexpectedEof else UnexpectedIdentity
    {
      if |bases| <= next {
        return Err(UnexpectedEof);
      }
      if bases[next] == g.zero {
        return Err(UnexpectedIdentity);
      }
      r := Ok(g.add(to, bases[next]));
      next := next + 1;
    }

    method Skip(amt: nat) returns (r: Result<nat>)
      modifies this
      ensures r.Ok? <==> old(next) < |bases|
      ensures next == if r.Ok? then old(next) + amt else old(next)
      ensures r.Err? ==> r.error == UnexpectedEof
    {
      if |bases| <= next {
        return Err(UnexpectedEof);
      }
      next := next + amt;
      r := Ok(next);
    }
  }

  /** The number of set bits before position `i`. */
  ghost function Rank(density: seq<bool>, i: nat): (k: nat)
    requires i <= |density|
    ensures k <= i
  {
    if i == 0 then 0 else Rank(density, i - 1) + (if density[i - 1] then 1 else 0)
  }

  lemma {:induction false} RankOfPrefix(density: seq<bool>, density': seq<bool>, i: nat)
    requires i <= |density| && i <= |density'| && forall j | 0 <= j < i :: density[j] == density'[j]
    ensures Rank(density, i) == Rank(density', i)
  {
    if i > 0 { RankOfPrefix(density, density', i - 1); }
  }

  lemma {:induction false} RankOfSet(density: seq<bool>, idx: nat, i: nat)
    requires idx < |density| && !density[idx] && i <= |density|
    ensures Rank(density[idx := true], i) == Rank(density, i) + (if idx < i then 1 else 0)
  {
    if i > 0 { RankOfSet(density, idx, i - 1); }
  }

  /** A bit per element of a query, and how many of them are set. */
  class DensityTracker {
    var bv: seq<bool>
    var totalDensity: nat

    ghost predicate Valid()
      reads this
    {
      totalDensity == Rank(bv, |bv|)
    }

    constructor ()
      ensures Valid() && bv == [] && totalDensity == 0
    {
      bv, totalDensity := [], 0;
    }

    method AddElement()
      requires Valid()
      modifies this
      ensures Valid() && bv == old(bv) + [false] && totalDensity == old(totalDensity)
    {
      RankOfPrefix(bv + [false], bv, |bv|);
      bv := bv + [false];
    }

    method Pad(toSize: nat)
      requires Valid() && toSize >= |bv|
      modifies this
      ensures Valid() && bv == old(bv) + seq(toSize - |old(bv)|, _ => false) && totalDensity == old(totalDensity)
    {
      ghost var before := bv;
      while |bv| < toSize
        invariant Valid() && |before| <= |bv| <= toSize && totalDensity == old(totalDensity)
        invariant bv == before + seq(|bv| - |before|, _ => false)
      {
        RankOfPrefix(bv + [false], bv, |bv|);
        bv := bv + [false];
      }
    }

    /** Sets a bit; setting it again does not count. */
    method Inc(idx: nat)
      requires Valid() && idx < |bv|
      modifies this
      ensures Valid() && bv == old(bv)[idx := true]
      ensures totalDensity == old(totalDensity) + (if old(bv)[idx] then 0 else 1)
    {
      if !bv[idx] {
        RankOfSet(bv, idx, |bv|);
        bv := bv[idx := true];
        totalDensity := totalDensity + 1;
      } else {
        assert bv[idx := true] == bv;
      }
    }
  }
}
