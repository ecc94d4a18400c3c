/** Permutations of an interval of natural numbers, as the routing network of
    crates/franklin-crypto/src/as_waksman.rs keeps them. */
module Permutation {

  /** `s` lists a permutation of `min .. min + |s|`: in range and without repetition. */
  ghost predicate IsPerm(s: seq<nat>, min: nat) {
    && (forall i | 0 <= i < |s| :: min <= s[i] < min + |s|)
    && (forall i, j | 0 <= i < j < |s| :: s[i] != s[j])
  }

  /** The image of `x` under the permutation of `min .. min + |s|` that `s` lists. */
  function At(s: seq<nat>, min: nat, x: nat): nat
    requires min <= x < min + |s|
  {
    s[x - min]
  }

  /** `p` and `q` undo each other. */
  ghost predicate AreInverse(p: seq<nat>, q: seq<nat>, min: nat) {
    && |p| == |q|
    && (forall x: nat {:trigger At(p, min, x)} | min <= x < min + |p| ::
          min <= At(p, min, x) < min + |p| && At(q, min, At(p, min, x)) == x)
    && (forall x: nat {:trigger At(q, min, x)} | min <= x < min + |q| ::
          min <= At(q, min, x) < min + |q| && At(p, min, At(q, min, x)) == x)
  }

  function Interval(min: nat, size: nat): (s: seq<nat>)
    ensures |s| == size
    ensures forall i | 0 <= i < size :: s[i] == min + i
  {
    seq(size, i requires 0 <= i < size => min + i)
  }

  function Elems(s: seq<nat>): set<nat> {
    set x | x in s
  }

  lemma DistinctCardinality(s: seq<nat>)
    requires forall i, j | 0 <= i < j < |s| :: s[i] != s[j]
    ensures |Elems(s)| == |s|
  {
    if |s| == 0 {
      assert Elems(s) == {};
    } else {
      var t, last := s[..|s| - 1], s[|s| - 1];
      DistinctCardinality(t);
      assert s == t + [last];
      assert last !in t;
      assert Elems(s) == Elems(t) + {last};
    }
  }

  lemma SubsetCardinality<T>(a: set<T>, b: set<T>)
    requires a <= b
    ensures |a| <= |b|
  {
    if a != {} {
      var x :| x in a;
      SubsetCardinality(a - {x}, b - {x});
    }
  }

  /** A permutation of a finite interval reaches every value. */
  lemma PermIsOnto(s: seq<nat>, min: nat, v: nat) returns (x: nat)
    requires IsPerm(s, min) && min <= v < min + |s|
    ensures min <= x < min + |s| && At(s, min, x) == v
  {
    var all := Interval(min, |s|);
    DistinctCardinality(s);
    DistinctCardinality(all);
    forall u | u in s ensures u in all { assert all[u - min] == u; }
    assert all[v - min] == v;
    if v !in s {
      assert v in Elems(all);
      SubsetCardinality(Elems(s), Elems(all) - {v});
      assert false;
    }
    var i :| 0 <= i < |s| && s[i] == v;
    x := min + i;
  }

  lemma InverseIsPerm(p: seq<nat>, q: seq<nat>, min: nat)
    requires AreInverse(p, q, min)
    ensures IsPerm(p, min)
  {
    forall i | 0 <= i < |p| ensures min <= p[i] < min + |p| {
      assert At(p, min, min + i) == p[i];
    }
    forall i, j | 0 <= i < j < |p| ensures p[i] != p[j] {
      assert At(p, min, min + i) == p[i] && At(p, min, min + j) == p[j];
    }
  }

  /** A permutation has one inverse only. */
  lemma InverseUnique(p: seq<nat>, q: seq<nat>, r: seq<nat>, min: nat)
    requires AreInverse(p, q, min) && AreInverse(p, r, min)
    ensures q == r
  {
    forall i | 0 <= i < |q| ensures q[i] == r[i] {
      var x := At(q, min, min + i);
      assert At(r, min, At(p, min, x)) == x;
    }
  }

  /** `s` lists values of `min .. min + |s|`, possibly with repetition. */
  ghost predicate InRange(s: seq<nat>, min: nat) {
    forall i | 0 <= i < |s| :: min <= s[i] < min + |s|
  }

  /** The list in which the first `n` positions of `s` have been written at the position of their image. */
  ghost function Written(s: seq<nat>, min: nat, n: nat): (r: seq<nat>)
    requires InRange(s, min) && n <= |s|
    ensures |r| == |s|
  {
    if n == 0 then Interval(min, |s|) else Written(s, min, n - 1)[s[n - 1] - min := min + n - 1]
  }

  lemma {:induction false} WrittenAt(s: seq<nat>, min: nat, n: nat, x: nat)
    requires IsPerm(s, min) && min <= x < min + n && n <= |s|
    ensures At(Written(s, min, n), min, At(s, min, x)) == x
  {
    if x < min + n - 1 {
      WrittenAt(s, min, n - 1, x);
    }
  }

  /** For a permutation, what is written is the inverse. */
  lemma {:induction false} WrittenIsInverse(s: seq<nat>, min: nat)
    requires IsPerm(s, min)
    ensures AreInverse(s, Written(s, min, |s|), min)
  {
    var r := Written(s, min, |s|);
    forall x: nat | min <= x < min + |s| ensures min <= At(s, min, x) < min + |s| && At(r, min, At(s, min, x)) == x {
      WrittenAt(s, min, |s|, x);
    }
    forall v: nat | min <= v < min + |s| ensures min <= At(r, min, v) < min + |s| && At(s, min, At(r, min, v)) == v {
      var x := PermIsOnto(s, min, v);
      WrittenAt(s, min, |s|, x);
    }
  }

  /** A list with a repetition for which the identity is written. */
  lemma {:induction false} RepetitionWritesIdentity()
    ensures InRange([1, 1, 2], 0) && !IsPerm([1, 1, 2], 0)
    ensures Written([1, 1, 2], 0, 3) == [0, 1, 2] && IsPerm([0, 1, 2], 0)
  {
    var s: seq<nat> := [1, 1, 2];
    assert s[0] == s[1];
    assert Written(s, 0, 0) == [0, 1, 2];
    assert Written(s, 0, 1) == [0, 0, 2];
    assert Written(s, 0, 2) == [0, 1, 2];
    assert Written(s, 0, 3) == [0, 1, 2];
  }

  /** The images of `min ..= max`, updated in place. */
  class IntegerPermutation {
    var elements: seq<nat>
    const min: nat
    const max: nat

    ghost predicate Valid() reads this {
      min <= max && |elements| == max - min + 1
    }

    constructor NewForMaxAndMin(min: nat, max: nat)
      requires min <= max
      ensures Valid() && this.min == min && this.max == max
      ensures elements == Interval(min, max - min + 1)
    {
      this.min, this.max := min, max;
      elements := Interval(min, max - min + 1);
    }

    constructor FromElements(elements: seq<nat>, min: nat, max: nat)
      requires min <= max && |elements| == max - min + 1
      ensures Valid() && this.min == min && this.max == max && this.elements == elements
    {
      this.elements, this.min, this.max := elements, min, max;
    }

    function Size(): (s: nat)
      requires min <= max
      ensures s > 0 && min + s == max + 1
    {
      max - min + 1
    }

    function Get(index: nat): (v: nat)
      requires Valid() && min <= index <= max
      reads this
      ensures v in elements
    {
      elements[index - min]
    }

    method Set(index: nat, value: nat)
      requires Valid() && min <= index <= max
      modifies this
      ensures Valid() && elements == old(elements)[index - min := value]
    {
      elements := elements[index - min := value];
    }

    method Slice(min: nat, max: nat) returns (r: IntegerPermutation)
      requires Valid() && this.min <= min <= max <= this.max
      ensures fresh(r) && r.Valid() && r.min == min && r.max == max
      ensures r.elements == elements[min - this.min..max - this.min + 1]
    {
      r := new IntegerPermutation.FromElements(elements[min - this.min..max - this.min + 1], min, max);
    }

    /** Writes `idx` at the position of its image, for every `idx`. */
    method Inverse() returns (r: IntegerPermutation)
      requires Valid() && InRange(elements, min)
      ensures fresh(r) && r.Valid() && r.min == min && r.max == max
      ensures r.elements == Written(elements, min, |elements|)
      ensures IsPerm(elements, min) ==> AreInverse(elements, r.elements, min)
    {
      r := new IntegerPermutation.NewForMaxAndMin(min, max);
      for idx := min to max + 1
        invariant r.Valid() && fresh(r) && r.min == min && r.max == max
        invariant r.elements == Written(elements, min, idx - min)
      {
        r.elements := r.elements[elements[idx - min] - min := idx];
      }
      if IsPerm(elements, min) { WrittenIsInverse(elements, min); }
    }

    /** One pass over the images: in range, and nothing seen twice. */
    method IsValid() returns (ok: bool)
      requires Valid()
      ensures ok <==> IsPerm(elements, min)
    {
      var seen: set<nat> := {};
      for i := 0 to |elements|
        invariant forall x :: x in seen <==> exists j :: 0 <= j < i && elements[j] == x
        invariant forall j | 0 <= j < i :: min <= elements[j] <= max
        invariant forall j, k | 0 <= j < k < i :: elements[j] != elements[k]
      {
        if elements[i] < min || elements[i] > max {
          return false;
        }
        if elements[i] in seen {
          return false;
        }
        seen := seen + {elements[i]};
      }
      return true;
    }
  }
}
