/** Routing a permutation through the whole network, and running packets through the switches:
    every permutation is routed, and the simulation of the route gives the permutation back. */
module WaksmanRoute {
  import opened Permutation
  import opened WaksmanShape
  import opened WaksmanTopology
  import opened WaksmanRouting
  import opened WaksmanSimulation
  import opened WaksmanGates

  // ---- What a routed network means ----

  /** The switches of the network are all present and realise the permutation `pi` of its rows. */
  ghost predicate Realises(net: Net, s: Switches, pi: seq<nat>)
    requires net.Valid()
  {
    && Keyed(net, s) && |pi| == net.high - net.low + 1
    && forall i: nat | net.low <= i <= net.high :: Out(net, s, i) == At(pi, net.low, i)
  }

  ghost predicate Vacant(left: nat, right: nat, low: nat, high: nat, s: Switches) {
    right < |s| && forall c, k: nat | left <= c <= right && low <= k <= high :: k !in s[c]
  }

  /** Outside the rectangle nothing has changed. */
  ghost predicate Untouched(left: nat, right: nat, low: nat, high: nat, s: Switches, t: Switches) {
    && |s| == |t|
    && forall c, k: nat | 0 <= c < |s| && !(left <= c <= right && low <= k <= high) ::
         (k in s[c] <==> k in t[c]) && (k in s[c] ==> s[c][k] == t[c][k])
  }

  /** Inside another rectangle everything is the same. */
  lemma Elsewhere(left: nat, right: nat, low: nat, high: nat, low': nat, high': nat, s: Switches, t: Switches)
    requires Untouched(left, right, low, high, s, t) && right < |s| && (high < low' || high' < low)
    ensures Agree(left, right, low', high', s, t)
  {
  }

  lemma RealisesFrame(net: Net, s: Switches, t: Switches, pi: seq<nat>)
    requires net.Valid() && Realises(net, s, pi) && Agree(net.left, net.right, net.low, net.high, s, t)
    ensures Realises(net, t, pi)
  {
    forall i: nat | net.low <= i <= net.high ensures Out(net, t, i) == At(pi, net.low, i) {
      OutDependsOnRectangle(net, s, t, i);
    }
  }

  /** Routing the rows from `mid` on leaves the network above as it was. */
  lemma UpperKept(top: Net, mid: nat, high: nat, s: Switches, t: Switches, pi: seq<nat>)
    requires top.Valid() && top.high < mid && Realises(top, s, pi) && top.right < |s|
    requires Untouched(top.left, top.right, mid, high, s, t)
    ensures Realises(top, t, pi)
  {
    Elsewhere(top.left, top.right, mid, high, top.low, top.high, s, t);
    RealisesFrame(top, s, t, pi);
  }

  lemma RealisesPad(net: Net, s: Switches, pi: seq<nat>)
    requires net.Valid() && net.Pad? && Realises(net.inner, s, pi) && net.right < |s|
    requires forall k: nat | net.low <= k <= net.high :: k !in s[net.left] && k !in s[net.right]
    ensures Realises(net, s, pi)
  {
    forall c, k | net.left <= c <= net.right && net.low <= k <= net.high
      ensures k in s[c] <==> k in Keys(net, c)
    {
      if k in Keys(net.inner, c) { assert net.left < c < net.right; }
    }
  }

  lemma RealisesCross(net: Net, s: Switches, pi: seq<nat>)
    requires net.Valid() && net.Cross? && net.right < |s| && IsPerm(pi, net.low) && |pi| == 2
    requires net.low in s[net.left] && s[net.left][net.low] == (pi[0] != net.low) && net.high !in s[net.left]
    ensures Realises(net, s, pi)
  {
    assert pi[0] != pi[1];
  }

  /** One routed level around two routed halves. */
  lemma RealisesSplit(net: Net, s: Switches, pi: seq<nat>, perm: seq<nat>, permInv: seq<nat>)
    requires net.Valid() && net.Split? && net.right < |s| && |pi| == net.high - net.low + 1
    requires LevelRouted(net.low, net.high, pi, s[net.left], s[net.right], perm, permInv)
    requires Realises(net.top, s, perm[..net.top.high - net.low + 1])
    requires Realises(net.bottom, s, perm[net.bottom.low - net.low..])
    ensures Realises(net, s, pi)
  {
    forall i: nat | net.low <= i <= net.high ensures Out(net, s, i) == At(pi, net.low, i) {
      SplitOut(net, s, pi, perm, permInv, i);
    }
    forall c, k | net.left <= c <= net.right && net.low <= k <= net.high
      ensures k in s[c] <==> k in Keys(net, c)
    {
      if net.left < c < net.right {
        if k in Keys(net.top, c) { KeysInRange(net.top, c, k); }
        if k in Keys(net.bottom, c) { KeysInRange(net.bottom, c, k); }
      }
    }
  }

  lemma HalfAt(net: Net, s: Switches, perm: seq<nat>, j: nat)
    requires net.Valid() && net.Split? && net.right < |s| && |perm| == net.high - net.low + 1
    requires Realises(net.top, s, perm[..net.top.high - net.low + 1])
    requires Realises(net.bottom, s, perm[net.bottom.low - net.low..]) && net.low <= j <= net.high
    ensures OutHalves(net, s, j) == At(perm, net.low, j)
  {
    var d := net.bottom.low - net.low;
    if j < net.bottom.low {
      assert Out(net.top, s, j) == At(perm[..d], net.low, j) == perm[..d][j - net.low] == perm[j - net.low];
    } else {
      assert Out(net.bottom, s, j) == At(perm[d..], net.bottom.low, j) == perm[d..][j - net.bottom.low];
    }
  }

  lemma SplitOut(net: Net, s: Switches, pi: seq<nat>, perm: seq<nat>, permInv: seq<nat>, i: nat)
    requires net.Valid() && net.Split? && net.right < |s| && |pi| == net.high - net.low + 1
    requires LevelRouted(net.low, net.high, pi, s[net.left], s[net.right], perm, permInv)
    requires Realises(net.top, s, perm[..net.top.high - net.low + 1])
    requires Realises(net.bottom, s, perm[net.bottom.low - net.low..])
    requires net.low <= i <= net.high
    ensures Out(net, s, i) == At(pi, net.low, i)
  {
    assert Crosses(net.low, net.high, pi, s[net.left], s[net.right], perm, i);
    var j := Enter(net.low, net.high, s[net.left], i);
    HalfAt(net, s, perm, j);
    LeaveEnter(net.low, net.high, s[net.right], At(pi, net.low, i));
  }

  lemma SliceAt(low: nat, s: seq<nat>, from: nat, to: nat, r: nat)
    requires low <= from <= r < to <= low + |s|
    ensures At(s[from - low..to - low], from, r) == At(s, low, r)
  {
  }

  lemma SliceUndoes(low: nat, p: seq<nat>, q: seq<nat>, from: nat, to: nat, r: nat)
    requires AreInverse(p, q, low) && low <= from <= r < to <= low + |p|
    requires from <= At(p, low, r) < to
    ensures At(p[from - low..to - low], from, r) == At(p, low, r)
    ensures At(q[from - low..to - low], from, At(p, low, r)) == r
  {
    SliceAt(low, p, from, to, r);
    SliceAt(low, q, from, to, At(p, low, r));
  }

  /** A stretch of rows that a permutation and its inverse keep is permuted by itself. */
  lemma SliceIsInverse(low: nat, perm: seq<nat>, permInv: seq<nat>, from: nat, to: nat)
    requires AreInverse(perm, permInv, low) && low <= from <= to <= low + |perm|
    requires forall r: nat | from <= r < to :: from <= At(perm, low, r) < to && from <= At(permInv, low, r) < to
    ensures AreInverse(perm[from - low..to - low], permInv[from - low..to - low], from)
  {
    var p, q := perm[from - low..to - low], permInv[from - low..to - low];
    forall r: nat | from <= r < to
      ensures from <= At(p, from, r) < to && At(q, from, At(p, from, r)) == r
    {
      SliceUndoes(low, perm, permInv, from, to, r);
    }
    forall r: nat | from <= r < to
      ensures from <= At(q, from, r) < to && At(p, from, At(q, from, r)) == r
    {
      SliceUndoes(low, permInv, perm, from, to, r);
    }
  }

  /** The two halves of a permutation that keeps the halves are permutations, with inverses. */
  lemma HalvesAreInverse(low: nat, high: nat, perm: seq<nat>, permInv: seq<nat>)
    requires low < high && |perm| == high - low + 1 && AreInverse(perm, permInv, low) && KeepsHalves(low, high, perm)
    ensures var d := Mid(low, high) - low;
            AreInverse(perm[..d], permInv[..d], low) && AreInverse(perm[d..], permInv[d..], low + d)
  {
    var mid := Mid(low, high);
    forall r: nat | low <= r <= high
      ensures low <= At(permInv, low, r) <= high && (r < mid <==> At(permInv, low, r) < mid)
    {
      assert At(perm, low, At(permInv, low, r)) == r;
    }
    SliceIsInverse(low, perm, permInv, low, mid);
    SliceIsInverse(low, perm, permInv, mid, high + 1);
    assert perm[mid - low..high + 1 - low] == perm[mid - low..];
    assert permInv[mid - low..high + 1 - low] == permInv[mid - low..];
  }

  // ---- Frames ----

  lemma ColumnKept(left: nat, right: nat, low: nat, high: nat, s: Switches, t: Switches, c: nat)
    requires Untouched(left, right, low, high, s, t) && c < |s| && !(left <= c <= right)
    ensures s[c] == t[c]
  {
    assert s[c].Keys == t[c].Keys;
  }

  /** A routed level keeps the other rows of its two columns, and its halves the other columns. */
  lemma SplitUntouched(left: nat, right: nat, low: nat, high: nat, s: Switches, lhs: map<nat, bool>,
                       rhs: map<nat, bool>, t: Switches)
    requires left < right < |s| && OthersKept(low, high, s[left], lhs) && OthersKept(low, high, s[right], rhs)
    requires Untouched(left + 1, right - 1, low, high, s[left := lhs][right := rhs], t)
    ensures Untouched(left, right, low, high, s, t)
  {
  }

  /** A routed level, and then its routed halves. */
  lemma SplitRouted(net: Net, s: Switches, lhs: map<nat, bool>, rhs: map<nat, bool>, t: Switches,
                    pi: seq<nat>, perm: seq<nat>, permInv: seq<nat>)
    requires net.Valid() && net.Split? && net.right < |s| && |pi| == net.high - net.low + 1
    requires LevelRouted(net.low, net.high, pi, lhs, rhs, perm, permInv)
    requires OthersKept(net.low, net.high, s[net.left], lhs) && OthersKept(net.low, net.high, s[net.right], rhs)
    requires Untouched(net.left + 1, net.right - 1, net.low, net.high, s[net.left := lhs][net.right := rhs], t)
    requires Realises(net.top, t, perm[..Mid(net.low, net.high) - net.low])
    requires Realises(net.bottom, t, perm[Mid(net.low, net.high) - net.low..])
    ensures Realises(net, t, pi) && Untouched(net.left, net.right, net.low, net.high, s, t)
  {
    var u := s[net.left := lhs][net.right := rhs];
    SplitUntouched(net.left, net.right, net.low, net.high, s, lhs, rhs, t);
    ColumnKept(net.left + 1, net.right - 1, net.low, net.high, u, t, net.left);
    ColumnKept(net.left + 1, net.right - 1, net.low, net.high, u, t, net.right);
    RealisesSplit(net, t, pi, perm, permInv);
  }

  /** Routing the top half and then the bottom half touches nothing outside the two. */
  lemma HalvesUntouched(left: nat, right: nat, low: nat, mid: nat, high: nat, s: Switches, u: Switches, t: Switches)
    requires low < mid <= high
    requires Untouched(left, right, low, mid - 1, s, u) && Untouched(left, right, mid, high, u, t)
    ensures Untouched(left, right, low, high, s, t)
  {
  }

  lemma LevelAndHalvesRouted(left: nat, right: nat, low: nat, high: nat, s: Switches, lhs: map<nat, bool>,
                             rhs: map<nat, bool>, t: Switches, pi: seq<nat>, perm: seq<nat>, permInv: seq<nat>)
    requires Rect(left, right, low, high) && left < right < |s| && !Padded(left, right, low, high) && low + 2 <= high
    requires |pi| == high - low + 1 && LevelRouted(low, high, pi, lhs, rhs, perm, permInv)
    requires OthersKept(low, high, s[left], lhs) && OthersKept(low, high, s[right], rhs)
    requires Untouched(left + 1, right - 1, low, high, s[left := lhs][right := rhs], t)
    requires var net, d := NetOf(left, right, low, high), Mid(low, high) - low;
             Realises(net.top, t, perm[..d]) && Realises(net.bottom, t, perm[d..])
    ensures Realises(NetOf(left, right, low, high), t, pi) && Untouched(left, right, low, high, s, t)
  {
    SplitRouted(NetOf(left, right, low, high), s, lhs, rhs, t, pi, perm, permInv);
  }

  // ---- Whole networks ----

  /** Switches put into empty columns are exactly those of the network. */
  lemma KeyedFromEmpty(net: Net, right: nat, high: nat, s: Switches, t: Switches)
    requires net.Valid() && net.Spans(0, right, 0, high) && |s| == right + 1
    requires (forall c | 0 <= c < |s| :: s[c] == map[])
    requires Untouched(0, right, 0, high, s, t) && Keyed(net, t)
    ensures ColumnsKeyed(net, t)
  {
    forall c: nat | c < |t| ensures ColumnKeyed(net, t, c) {
      forall k | k in Keys(net, c) ensures k in t[c] { KeysInRange(net, c, k); }
      forall k | k in t[c] ensures k in Keys(net, c) {}
    }
  }

  /** A set of switches realises one permutation. */
  lemma RealisesOne(net: Net, s: Switches, p: seq<nat>, q: seq<nat>)
    requires net.Valid() && Realises(net, s, p) && Realises(net, s, q)
    ensures p == q
  {
    forall k | 0 <= k < |p| ensures p[k] == q[k] {
      assert Out(net, s, net.low + k) == At(p, net.low, net.low + k) == At(q, net.low, net.low + k);
    }
  }

  /** Any settings of the right switches realise some permutation. */
  lemma SomethingRealised(net: Net, s: Switches) returns (p: seq<nat>)
    requires net.Valid() && Keyed(net, s) && net.left <= net.right
    ensures Realises(net, s, p) && IsPerm(p, net.low)
  {
    p := Reached(net, s, net.right + 1);
    ReachedIsPerm(net, s, net.right + 1);
    forall i: nat | net.low <= i <= net.high ensures Out(net, s, i) == At(p, net.low, i) {
      ReachIsOut(net, s, i);
    }
  }

  /** The packet from input `i` is on the row where the columns before `c` have brought it. */
  ghost predicate Holds(net: Net, s: Switches, packets: seq<nat>, c: nat, i: nat)
    requires net.Valid() && net.right < |s| && |packets| == net.high - net.low + 1
    requires net.left <= c <= net.right + 1 && net.low <= i <= net.high
  {
    At(packets, net.low, Reach(net, s, c, i)) == i
  }

  /** One column moves every packet by one step. */
  lemma HoldsNext(net: Net, s: Switches, packets: seq<nat>, next: seq<nat>, c: nat, i: nat)
    requires net.Valid() && net.right < |s| && |packets| == |next| == net.high - net.low + 1
    requires net.left <= c <= net.right && net.low <= i <= net.high && Holds(net, s, packets, c, i)
    requires Moved(net, s, packets, next, c, Reach(net, s, c, i))
    ensures Holds(net, s, next, c + 1, i)
  {
    ReachNext(net, s, c, i);
  }

  ghost predicate Moved(net: Net, s: Switches, packets: seq<nat>, next: seq<nat>, c: nat, r: nat)
    requires net.Valid() && net.right < |s| && |packets| == |next| == net.high - net.low + 1
    requires net.left <= c <= net.right && net.low <= r <= net.high
  {
    At(next, net.low, ColumnStep(net, s, c, r)) == At(packets, net.low, r)
  }

  lemma PacketFound(net: Net, s: Switches, p: seq<nat>, packets: seq<nat>, end: nat, i: nat)
    requires net.Valid() && net.left <= net.right && Realises(net, s, p) && |packets| == |p| && end == net.right + 1
    requires net.low <= i <= net.high && Holds(net, s, packets, end, i)
    ensures net.low <= At(p, net.low, i) <= net.high && At(p, net.low, i) == Reach(net, s, end, i)
    ensures At(packets, net.low, At(p, net.low, i)) == i
  {
    ReachIsOut(net, s, i);
  }

  /** The packets found at the end, row by row, are the inverse of the permutation realised. */
  lemma PacketsAreInverse(net: Net, s: Switches, p: seq<nat>, packets: seq<nat>, end: nat)
    requires net.Valid() && net.left <= net.right && Realises(net, s, p) && |packets| == |p| && end == net.right + 1
    requires forall i: nat | net.low <= i <= net.high :: Holds(net, s, packets, end, i)
    ensures AreInverse(p, packets, net.low)
  {
    forall i: nat | net.low <= i <= net.high
      ensures net.low <= At(p, net.low, i) <= net.high && At(packets, net.low, At(p, net.low, i)) == i
    {
      PacketFound(net, s, p, packets, end, i);
    }
    forall r: nat | net.low <= r <= net.high
      ensures net.low <= At(packets, net.low, r) <= net.high && At(p, net.low, At(packets, net.low, r)) == r
    {
      var i := WhoIsThere(net, s, end, r);
      PacketFound(net, s, p, packets, end, i);
    }
  }

  /** The realised permutation is the one with the same inverse. */
  lemma SameAsRealised(net: Net, s: Switches, p: seq<nat>, packets: seq<nat>, q: seq<nat>, inversed: seq<nat>)
    requires net.Valid() && Realises(net, s, p) && AreInverse(p, packets, net.low) && AreInverse(q, inversed, net.low)
    ensures packets == inversed <==> Realises(net, s, q)
  {
    if packets == inversed {
      InverseUnique(packets, p, q, net.low);
    }
    if Realises(net, s, q) {
      RealisesOne(net, s, p, q);
      InverseUnique(p, packets, inversed, net.low);
    }
  }

  /** The switches realise the permutation whose inverse `q` lists. */
  ghost predicate RealisesInverseOf(net: Net, s: Switches, q: seq<nat>)
    requires net.Valid()
  {
    exists p: seq<nat> :: Realises(net, s, p) && AreInverse(p, q, net.low)
  }

  /** The list is a permutation, or not even what is written for its inverse is one. */
  ghost predicate Decisive(list: seq<nat>) {
    InRange(list, 0) && (IsPerm(list, 0) || !IsPerm(Written(list, 0, |list|), 0))
  }

  lemma RealisedIsPerm(net: Net, s: Switches, p: seq<nat>)
    requires net.Valid() && net.left <= net.right
    ensures Realises(net, s, p) ==> IsPerm(p, net.low)
  {
    if Realises(net, s, p) {
      var q := SomethingRealised(net, s);
      RealisesOne(net, s, p, q);
    }
  }

  lemma InverseSwaps(p: seq<nat>, q: seq<nat>, min: nat)
    requires AreInverse(p, q, min)
    ensures AreInverse(q, p, min)
  {
  }

  lemma ComparedWithWritten(net: Net, s: Switches, p: seq<nat>, packets: seq<nat>, list: seq<nat>)
    requires net.Valid() && net.left <= net.right && net.low == 0 && Realises(net, s, p)
    requires AreInverse(p, packets, 0) && InRange(list, 0)
    ensures packets == Written(list, 0, |list|) <==> RealisesInverseOf(net, s, Written(list, 0, |list|))
    ensures Decisive(list) ==> (packets == Written(list, 0, |list|) <==> Realises(net, s, list))
  {
    var written := Written(list, 0, |list|);
    if RealisesInverseOf(net, s, written) {
      var q: seq<nat> :| Realises(net, s, q) && AreInverse(q, written, 0);
      RealisesOne(net, s, p, q);
      InverseUnique(p, packets, written, 0);
    }
    if IsPerm(list, 0) {
      WrittenIsInverse(list, 0);
      SameAsRealised(net, s, p, packets, list, written);
    } else {
      RealisedIsPerm(net, s, list);
      InverseSwaps(p, packets, 0);
      InverseIsPerm(packets, p, 0);
    }
  }

  // ---- The router ----

  class AsWaksmanRoute {
    const switches: array<map<nat, bool>>
    const size: nat

    ghost const net: Net

    /** Every column has exactly the switches that the size calls for. */
    ghost predicate Valid()
      reads switches
    {
      Network(net, size) && switches.Length == NumColumns(size) && ColumnsKeyed(net, switches[..])
    }

    /** Routes any permutation of any number of wires from two on. */
    constructor (permutation: IntegerPermutation)
      requires permutation.Valid() && permutation.min == 0 && permutation.max > 0 && IsPerm(permutation.elements, 0)
      ensures Valid() && fresh(switches) && size == permutation.Size()
      ensures Realises(net, switches[..], permutation.elements)
    {
      var size := permutation.Size();
      var numColumns := NumColumns(size);
      var assignments := new map<nat, bool>[numColumns](_ => map[]);
      ghost var whole := RouteWhole(permutation, size, numColumns, assignments);
      this.size, switches, net := size, assignments, whole;
    }

    static method RouteWhole(permutation: IntegerPermutation, size: nat, numColumns: nat,
                             switches: array<map<nat, bool>>) returns (ghost net: Net)
      requires permutation.Valid() && permutation.min == 0 && permutation.max > 0 && IsPerm(permutation.elements, 0)
      requires size == permutation.Size() && numColumns == NumColumns(size) == switches.Length
      requires forall c | 0 <= c < numColumns :: switches[c] == map[]
      modifies switches
      ensures Network(net, size) && ColumnsKeyed(net, switches[..])
      ensures Realises(net, switches[..], permutation.elements)
    {
      NetworkHasColumns(size);
      var right, high := numColumns - 1, size - 1;
      net := TheNetwork(size, right);
      RouteFromEmpty(permutation, high, right, switches, net);
    }

    static method RouteFromEmpty(permutation: IntegerPermutation, high: nat, right: nat,
                                 switches: array<map<nat, bool>>, ghost net: Net)
      requires permutation.Valid() && permutation.min == 0 && permutation.max == high > 0
      requires IsPerm(permutation.elements, 0)
      requires Rect(0, right, 0, high) && switches.Length == right + 1
      requires forall c | 0 <= c <= right :: switches[c] == map[]
      requires net == NetOf(0, right, 0, high)
      modifies switches
      ensures ColumnsKeyed(net, switches[..]) && Realises(net, switches[..], permutation.elements)
    {
      var inversed := InverseTwice(permutation, high);
      ghost var s := switches[..];
      assert Vacant(0, right, 0, high, s);
      ConstructInner(0, right, 0, high, permutation, inversed, switches);
      KeyedFromEmpty(net, right, high, s, switches[..]);
    }

    /** The inverse, whose own inverse is the permutation again. */
    static method InverseTwice(permutation: IntegerPermutation, high: nat) returns (inversed: IntegerPermutation)
      requires permutation.Valid() && permutation.min == 0 && permutation.max == high > 0
      requires IsPerm(permutation.elements, 0)
      ensures fresh(inversed) && Routable(permutation, inversed, 0, high)
    {
      inversed := permutation.Inverse();
      InverseIsPerm(inversed.elements, permutation.elements, 0);
      var twice := inversed.Inverse();
      InverseUnique(inversed.elements, permutation.elements, twice.elements, 0);
      assert twice.elements == permutation.elements;
    }

    static ghost predicate Routable(permutation: IntegerPermutation, inversed: IntegerPermutation, low: nat, high: nat)
      reads permutation, inversed
    {
      && permutation.Valid() && permutation.min == low && permutation.max == high
      && inversed.Valid() && inversed.min == low && inversed.max == high
      && AreInverse(permutation.elements, inversed.elements, low)
    }

    /** The checks at the start of every recursive call. */
    static method InputChecks(permutation: IntegerPermutation, inversed: IntegerPermutation, low: nat, high: nat)
      returns (ok: bool)
      requires Routable(permutation, inversed, low, high)
      ensures ok
    {
      InverseIsPerm(permutation.elements, inversed.elements, low);
      InverseIsPerm(inversed.elements, permutation.elements, low);
      var isValid := permutation.IsValid();
      var p := permutation.Inverse();
      var q := inversed.Inverse();
      InverseUnique(permutation.elements, inversed.elements, p.elements, low);
      InverseUnique(inversed.elements, permutation.elements, q.elements, low);
      ok := && permutation.min == low && permutation.max == high && permutation.Size() == high - low + 1
            && isValid && p.elements == inversed.elements && q.elements == permutation.elements;
    }

    static method ConstructInner(left: nat, right: nat, low: nat, high: nat, permutation: IntegerPermutation,
                                 inversed: IntegerPermutation, switches: array<map<nat, bool>>)
      requires Rect(left, right, low, high) && Routable(permutation, inversed, low, high)
      requires Vacant(left, right, low, high, switches[..])
      modifies switches
      ensures Realises(NetOf(left, right, low, high), switches[..], permutation.elements)
      ensures Untouched(left, right, low, high, old(switches[..]), switches[..])
      decreases right - left + 1, 2
    {
      if left > right {
        assert At(permutation.elements, low, low) == low;
        return;
      }
      var rowsToGenerate := high - low + 1;
      var ok := InputChecks(permutation, inversed, low, high);
      assert ok;
      if right - left + 1 > NumColumns(rowsToGenerate) {
        RoutePadded(left, right, low, high, permutation, inversed, switches);
      } else if rowsToGenerate == 2 {
        RouteSwitch(left, right, low, high, permutation, inversed, switches);
      } else {
        RouteSplit(left, right, low, high, permutation, inversed, switches);
      }
    }

    static method RoutePadded(left: nat, right: nat, low: nat, high: nat, permutation: IntegerPermutation,
                              inversed: IntegerPermutation, switches: array<map<nat, bool>>)
      requires Rect(left, right, low, high) && left <= right && Padded(left, right, low, high)
      requires Routable(permutation, inversed, low, high) && Vacant(left, right, low, high, switches[..])
      modifies switches
      ensures Realises(NetOf(left, right, low, high), switches[..], permutation.elements)
      ensures Untouched(left, right, low, high, old(switches[..]), switches[..])
      decreases right - left + 1, 1
    {
      PaddedRect(left, right, low, high);
      ConstructInner(left + 1, right - 1, low, high, permutation, inversed, switches);
      RealisesPad(NetOf(left, right, low, high), switches[..], permutation.elements);
    }

    static method RouteSwitch(left: nat, right: nat, low: nat, high: nat, permutation: IntegerPermutation,
                              inversed: IntegerPermutation, switches: array<map<nat, bool>>)
      requires Rect(left, right, low, high) && left <= right && !Padded(left, right, low, high) && high == low + 1
      requires Routable(permutation, inversed, low, high) && Vacant(left, right, low, high, switches[..])
      modifies switches
      ensures Realises(NetOf(left, right, low, high), switches[..], permutation.elements)
      ensures Untouched(left, right, low, high, old(switches[..]), switches[..])
    {
      OneSwitchColumn(left, right, low, high);
      InverseIsPerm(permutation.elements, inversed.elements, low);
      var first, second := permutation.Get(low), permutation.Get(low + 1);
      assert first == low || first == low + 1;
      assert second == low || second == low + 1;
      assert first != second;
      switches[left] := switches[left][low := first != low];
      RealisesCross(NetOf(left, right, low, high), switches[..], permutation.elements);
    }

    static method RouteSplit(left: nat, right: nat, low: nat, high: nat, permutation: IntegerPermutation,
                             inversed: IntegerPermutation, switches: array<map<nat, bool>>)
      requires Rect(left, right, low, high) && left <= right && !Padded(left, right, low, high) && low + 2 <= high
      requires Routable(permutation, inversed, low, high) && Vacant(left, right, low, high, switches[..])
      modifies switches
      ensures Realises(NetOf(left, right, low, high), switches[..], permutation.elements)
      ensures Untouched(left, right, low, high, old(switches[..]), switches[..])
      decreases right - left + 1, 1
    {
      HalfRects(left, right, low, high);
      var s := switches[..];
      var lhs, rhs, perm, permInv := RouteLevel(low, high, permutation.elements, inversed.elements, switches[left],
                                                switches[right]);
      switches[left] := lhs;
      switches[right] := rhs;
      assert switches[..] == s[left := lhs][right := rhs];
      RouteHalves(left, right, low, high, perm, permInv, switches);
      LevelAndHalvesRouted(left, right, low, high, s, lhs, rhs, switches[..], permutation.elements, perm, permInv);
    }

    /** The back-and-forth pass over one level, from its input columns to its finished ones. */
    static method RouteLevel(low: nat, high: nat, permutation: seq<nat>, inversed: seq<nat>,
                             lhs0: map<nat, bool>, rhs0: map<nat, bool>)
      returns (lhs: map<nat, bool>, rhs: map<nat, bool>, perm: seq<nat>, permInv: seq<nat>)
      requires low + 2 <= high && |permutation| == high - low + 1 && AreInverse(permutation, inversed, low)
      requires forall k: nat | low <= k <= high :: k !in lhs0 && k !in rhs0
      ensures LevelRouted(low, high, permutation, lhs, rhs, perm, permInv)
      ensures OthersKept(low, high, lhs0, lhs) && OthersKept(low, high, rhs0, rhs)
    {
      var pass := new LevelPass(low, high, permutation, inversed, lhs0, rhs0);
      pass.Begin();
      pass.Run();
      pass.Finalize();
      lhs, rhs, perm, permInv := pass.lhs, pass.rhs, pass.newPermutation, pass.newPermutationInversed;
    }

    /** Splits the permutation of the half-networks and routes the two halves. */
    static method RouteHalves(left: nat, right: nat, low: nat, high: nat, perm: seq<nat>, permInv: seq<nat>,
                              switches: array<map<nat, bool>>)
      requires Rect(left, right, low, high) && left <= right && !Padded(left, right, low, high) && low + 2 <= high
      requires |perm| == high - low + 1 && AreInverse(perm, permInv, low) && KeepsHalves(low, high, perm)
      requires left < right && Vacant(left + 1, right - 1, low, high, switches[..])
      modifies switches
      ensures var net, d := NetOf(left, right, low, high), Mid(low, high) - low;
              && Realises(net.top, switches[..], perm[..d]) && Realises(net.bottom, switches[..], perm[d..])
      ensures Untouched(left + 1, right - 1, low, high, old(switches[..]), switches[..])
      decreases right - left + 1, 0
    {
      HalfRects(left, right, low, high);
      var upper, lower := SplitPermutation(low, high, perm, permInv);
      var upperInversed, lowerInversed := SplitPermutation(low, high, permInv, perm);
      HalvesAreInverse(low, high, perm, permInv);
      RoutePair(left + 1, right - 1, low, Mid(low, high), high, upper, upperInversed, lower, lowerInversed, switches);
    }

    /** Routes the network above `mid` and the one from `mid` on. */
    static method RoutePair(left: nat, right: nat, low: nat, mid: nat, high: nat, upper: IntegerPermutation,
                            upperInversed: IntegerPermutation, lower: IntegerPermutation,
                            lowerInversed: IntegerPermutation, switches: array<map<nat, bool>>)
      requires low < mid <= high && Rect(left, right, low, mid - 1) && Rect(left, right, mid, high)
      requires Routable(upper, upperInversed, low, mid - 1) && Routable(lower, lowerInversed, mid, high)
      requires Vacant(left, right, low, high, switches[..])
      modifies switches
      ensures Realises(NetOf(left, right, low, mid - 1), switches[..], upper.elements)
      ensures Realises(NetOf(left, right, mid, high), switches[..], lower.elements)
      ensures Untouched(left, right, low, high, old(switches[..]), switches[..])
      decreases right - left + 1, 3
    {
      ghost var s := switches[..];
      ConstructInner(left, right, low, mid - 1, upper, upperInversed, switches);
      ghost var u := switches[..];
      ConstructInner(left, right, mid, high, lower, lowerInversed, switches);
      UpperKept(NetOf(left, right, low, mid - 1), mid, high, u, switches[..], upper.elements);
      HalvesUntouched(left, right, low, mid, high, s, u, switches[..]);
    }

    /** The permutation of the half-networks is valid; its two slices. */
    static method SplitPermutation(low: nat, high: nat, perm: seq<nat>, permInv: seq<nat>)
      returns (upper: IntegerPermutation, lower: IntegerPermutation)
      requires low < high && |perm| == high - low + 1 && AreInverse(perm, permInv, low)
      ensures fresh(upper) && upper.Valid() && upper.min == low && upper.max == Mid(low, high) - 1
      ensures fresh(lower) && lower.Valid() && lower.min == Mid(low, high) && lower.max == high
      ensures upper.elements == perm[..Mid(low, high) - low] && lower.elements == perm[Mid(low, high) - low..]
    {
      var newPermutation := new IntegerPermutation.FromElements(perm, low, high);
      InverseIsPerm(perm, permInv, low);
      var isValid := newPermutation.IsValid();
      assert isValid;
      var d := (high - low + 1) / 2;
      upper := newPermutation.Slice(low, low + d - 1);
      lower := newPermutation.Slice(low + d, high);
    }

    // ---- Running packets through the switches ----

    /** Where a cell sends the packet on its row.  A cell that is not straight has exactly one
        switch, at its own row or at the row above. */
    static method RoutedInto(cell: Cell, column: map<nat, bool>, packetIdx: nat, ghost net: Net, ghost columnIdx: nat)
      returns (routedInto: nat)
      requires net.Valid() && net.left <= columnIdx <= net.right && net.low <= packetIdx <= net.high
      requires cell == CellAt(net, columnIdx, packetIdx) && column.Keys == Keys(net, columnIdx)
      ensures routedInto == Step(cell, column, packetIdx)
    {
      if cell.0 == cell.1 {
        return cell.0;
      }
      var a := packetIdx in column;
      var b := packetIdx > 0 && packetIdx - 1 in column;
      OneSwitchPerCell(net, columnIdx, packetIdx);
      assert a != b;
      var switchSetting := if a then column[packetIdx] else column[packetIdx - 1];
      routedInto := if switchSetting then cell.1 else cell.0;
    }

    static ghost predicate Runs(net: Net, topology: array2<Cell>, s: Switches, size: nat)
      reads topology
    {
      && net.Valid() && net.left == net.low == 0 && net.high == size - 1 && net.left <= net.right
      && Laid(topology, net) && ColumnsKeyed(net, s)
    }

    static ghost predicate Packets(current: IntegerPermutation, size: nat)
      reads current
    {
      current.Valid() && current.min == 0 && current.max == size - 1
    }

    static method RunColumn(topology: array2<Cell>, switches: array<map<nat, bool>>, size: nat, columnIdx: nat,
                            current: IntegerPermutation, ghost net: Net) returns (next: IntegerPermutation)
      requires Runs(net, topology, switches[..], size) && columnIdx <= net.right && Packets(current, size)
      ensures fresh(next) && Packets(next, size)
      ensures forall r: nat | r < size :: Moved(net, switches[..], current.elements, next.elements, columnIdx, r)
    {
      ghost var s := switches[..];
      ColumnsKeyedIsKeyed(net, s);
      next := new IntegerPermutation.NewForMaxAndMin(0, size - 1);
      for packetIdx := 0 to size
        invariant fresh(next) && Packets(next, size)
        invariant forall r: nat | r < packetIdx :: Moved(net, s, current.elements, next.elements, columnIdx, r)
      {
        assert switches[columnIdx] == s[columnIdx] && ColumnKeyed(net, s, columnIdx);
        var routedInto := RoutedInto(topology[columnIdx, packetIdx], switches[columnIdx], packetIdx, net, columnIdx);
        assert routedInto == ColumnStep(net, s, columnIdx, packetIdx);
        var val := current.Get(packetIdx);
        ghost var updated := next.elements[routedInto := val];
        forall r: nat | r < packetIdx ensures Moved(net, s, current.elements, updated, columnIdx, r) {
          ColumnInjective(net, s, columnIdx, r, packetIdx);
          assert Moved(net, s, current.elements, next.elements, columnIdx, r);
        }
        next.Set(routedInto, val);
      }
    }

    /** The packets on the rows after the last column. */
    static method RunColumns(topology: array2<Cell>, switches: array<map<nat, bool>>, size: nat, numColumns: nat,
                             ghost net: Net) returns (current: IntegerPermutation)
      requires Runs(net, topology, switches[..], size) && numColumns == net.right + 1
      ensures fresh(current) && Packets(current, size)
      ensures forall i: nat | i < size :: Holds(net, switches[..], current.elements, numColumns, i)
    {
      current := new IntegerPermutation.NewForMaxAndMin(0, size - 1);
      for columnIdx := 0 to numColumns
        invariant fresh(current) && Packets(current, size)
        invariant forall i: nat | i < size :: Holds(net, switches[..], current.elements, columnIdx, i)
      {
        var next := RunColumn(topology, switches, size, columnIdx, current, net);
        ghost var c := columnIdx + 1;
        forall i: nat | i < size ensures Holds(net, switches[..], next.elements, c, i) {
          HoldsNext(net, switches[..], current.elements, next.elements, columnIdx, i);
        }
        current := next;
      }
    }

    /** The packets at the end are the inverse of whatever the switches realise. */
    method RunPackets() returns (packets: IntegerPermutation, ghost p: seq<nat>)
      requires Valid()
      ensures fresh(packets) && Packets(packets, size)
      ensures Realises(net, switches[..], p) && AreInverse(p, packets.elements, 0) && IsPerm(p, 0)
    {
      ColumnsKeyedIsKeyed(net, switches[..]);
      p := SomethingRealised(net, switches[..]);
      var topology := new AsWaksmanTopology(size);
      OneNetwork(topology.net, net, size);
      packets := RunColumns(topology.topology, switches, size, NumColumns(size), net);
      PacketsAreInverse(net, switches[..], p, packets.elements, NumColumns(size));
    }

    /** The permutation that the switches realise, whatever their settings. */
    method CalculatePermutation() returns (permutation: IntegerPermutation)
      requires Valid()
      ensures fresh(permutation) && Packets(permutation, size)
      ensures Realises(net, switches[..], permutation.elements) && IsPerm(permutation.elements, 0)
    {
      var packets;
      ghost var p;
      packets, p := RunPackets();
      permutation := InverseOfPackets(packets, p, net, switches[..], size);
    }

    static method InverseOfPackets(packets: IntegerPermutation, ghost p: seq<nat>, ghost net: Net, ghost s: Switches,
                                   size: nat) returns (permutation: IntegerPermutation)
      requires Packets(packets, size) && net.Valid() && Realises(net, s, p)
      requires AreInverse(p, packets.elements, 0) && IsPerm(p, 0)
      ensures fresh(permutation) && Packets(permutation, size)
      ensures Realises(net, s, permutation.elements) && IsPerm(permutation.elements, 0)
    {
      InverseIsPerm(packets.elements, p, 0);
      permutation := packets.Inverse();
      InverseUnique(packets.elements, p, permutation.elements, 0);
    }

    /** Accepts a list exactly if what is written for its inverse is the inverse of what the routing realises:
        for a permutation, and for every list whose written inverse is none, exactly if the routing realises it. */
    static method ValidateRoutingForPermutation(permutation: IntegerPermutation, routing: AsWaksmanRoute)
      returns (ok: bool)
      requires Packets(permutation, routing.size) && InRange(permutation.elements, 0) && routing.Valid()
      ensures ok <==>
        RealisesInverseOf(routing.net, routing.switches[..], Written(permutation.elements, 0, |permutation.elements|))
      ensures Decisive(permutation.elements) ==>
        (ok <==> Realises(routing.net, routing.switches[..], permutation.elements))
    {
      var current;
      ghost var p;
      current, p := routing.RunPackets();
      var inversed := permutation.Inverse();
      ok := current.elements == inversed.elements;
      ComparedWithWritten(routing.net, routing.switches[..], p, current.elements, permutation.elements);
    }

    /** Every list that is no permutation although a permutation is written for its inverse is accepted for a
        routing that does not realise it. */
    static method AcceptsOtherList(list: IntegerPermutation) returns (routing: AsWaksmanRoute, ok: bool)
      requires list.Valid() && list.min == 0 && list.max > 0 && InRange(list.elements, 0) && !Decisive(list.elements)
      ensures fresh(routing) && routing.Valid() && routing.size == list.max + 1
      ensures ok && !Realises(routing.net, routing.switches[..], list.elements)
    {
      var written := list.Inverse();
      ghost var p;
      routing, p := RouteInverseOf(written);
      ok := ValidateRoutingForPermutation(list, routing);
      RealisedIsPerm(routing.net, routing.switches[..], list.elements);
    }

    /** A routing of the inverse. */
    static method RouteInverseOf(q: IntegerPermutation) returns (routing: AsWaksmanRoute, ghost p: seq<nat>)
      requires q.Valid() && q.min == 0 && q.max > 0 && IsPerm(q.elements, 0)
      ensures fresh(routing) && routing.Valid() && routing.size == q.max + 1
      ensures Realises(routing.net, routing.switches[..], p) && AreInverse(p, q.elements, 0)
    {
      var permutation := q.Inverse();
      p := permutation.elements;
      InverseSwaps(q.elements, p, 0);
      InverseIsPerm(p, q.elements, 0);
      routing := new AsWaksmanRoute(permutation);
    }

    /** Routing a permutation and running the packets through the switches gives it back. */
    static method RouteAndSimulate(permutation: IntegerPermutation) returns (isValid: bool, shuffle: IntegerPermutation)
      requires permutation.Valid() && permutation.min == 0 && permutation.max > 0 && IsPerm(permutation.elements, 0)
      ensures isValid && shuffle.elements == permutation.elements
    {
      var router := new AsWaksmanRoute(permutation);
      isValid := ValidateRoutingForPermutation(permutation, router);
      shuffle := router.CalculatePermutation();
      RealisesOne(router.net, router.switches[..], shuffle.elements, permutation.elements);
    }

    // ---- The flat list of settings ----

    /** The number of switches depends on the number of wires only. */
    method GetNumberOfGates() returns (result: nat)
      requires Valid()
      ensures result == Gates(switches[..]) == SumOfLogs(size)
    {
      GateCount(net, size, switches[..]);
      result := CountSwitches(switches);
    }

    static method CountSwitches(switches: array<map<nat, bool>>) returns (result: nat)
      ensures result == Gates(switches[..])
    {
      result := 0;
      for c := 0 to switches.Length
        invariant result == Gates(switches[..c])
      {
        assert switches[..c + 1][..c] == switches[..c];
        result := result + |switches[c]|;
      }
      assert switches[..switches.Length] == switches[..];
    }

    /** The keys of a column, sorted and reversed. */
    static method SortedKeys(column: map<nat, bool>) returns (keys: seq<nat>)
      ensures keys == Descending(column.Keys)
    {
      var rest := column.Keys;
      keys := [];
      ghost var all := Descending(rest);
      while rest != {}
        invariant all == keys + Descending(rest)
      {
        LargestExists(rest);
        var k :| k in rest && forall j | j in rest :: j <= k;
        DescendingHead(rest, k);
        Shift(all, keys, k, Descending(rest - {k}), Descending(rest));
        keys := keys + [k];
        rest := rest - {k};
      }
      NothingLeft(all, keys);
    }

    /** All settings, column by column and from the bottom row up. */
    method DumpAssignments() returns (result: array<bool>)
      requires Valid()
      ensures fresh(result) && result[..] == Dump(switches[..])
    {
      var numberOfGates := GetNumberOfGates();
      result := DumpColumns(switches, numberOfGates);
    }

    static method DumpColumns(switches: array<map<nat, bool>>, numberOfGates: nat) returns (result: array<bool>)
      requires numberOfGates == Gates(switches[..])
      ensures fresh(result) && result[..] == Dump(switches[..])
    {
      result := new bool[numberOfGates];
      var i := 0;
      ghost var s := switches[..];
      for c := 0 to switches.Length
        invariant i == Gates(s[..c]) <= result.Length
        invariant result[..i] == Dump(s[..c])
      {
        GatesOfPrefix(s, c);
        i := DumpColumn(switches[c], result, i);
        DumpOfPrefix(s, c);
      }
      assert s[..switches.Length] == s;
    }

    static method DumpColumn(column: map<nat, bool>, result: array<bool>, start: nat) returns (i: nat)
      requires start + |column| <= result.Length
      modifies result
      ensures i == start + |column|
      ensures result[..i] == old(result[..start]) + Values(column, Descending(column.Keys))
    {
      var keys := SortedKeys(column);
      assert |column| == |column.Keys| == |keys|;
      i := DumpKeys(column, keys, result, start);
      SameValues(column, keys, result[start..i]);
      Joined(result[..i], start, i);
      assert result[..i][..start] == result[..start] && result[..i][start..i] == result[start..i];
    }

    static method DumpKeys(column: map<nat, bool>, keys: seq<nat>, result: array<bool>, start: nat) returns (i: nat)
      requires start + |keys| <= result.Length && forall k | k in keys :: k in column
      modifies result
      ensures i == start + |keys| && result[..start] == old(result[..start])
      ensures forall k | 0 <= k < |keys| :: result[start..i][k] == column[keys[k]]
    {
      i := start;
      for j := 0 to |keys|
        invariant i == start + j
        invariant result[..start] == old(result[..start])
        invariant forall k | 0 <= k < j :: result[start + k] == column[keys[k]]
      {
        result[i] := column[keys[j]];
        i := i + 1;
      }
    }

    /** Gives every switch a new setting from the list. */
    method AssignSwitches(switchAssignments: seq<bool>)
      requires Valid() && |switchAssignments| == Gates(switches[..])
      modifies switches
      ensures Valid() && Dump(switches[..]) == switchAssignments
    {
      var requiredSwitches := GetNumberOfGates();
      assert |switchAssignments| == requiredSwitches;
      ghost var s := switches[..];
      AssignColumns(switches, switchAssignments);
      SameKeys(net, s, switches[..]);
    }

    static method AssignColumns(switches: array<map<nat, bool>>, switchAssignments: seq<bool>)
      requires |switchAssignments| == Gates(switches[..])
      modifies switches
      ensures forall c | 0 <= c < switches.Length :: switches[c].Keys == old(switches[..])[c].Keys
      ensures Dump(switches[..]) == switchAssignments
    {
      var i := 0;
      ghost var s := switches[..];
      assert s[..0] == [];
      for c := 0 to switches.Length
        invariant Assigned(s, switches[..], switchAssignments, c, i)
      {
        ghost var t := switches[..];
        ColumnLeft(s, t, switchAssignments, c, i);
        var next := i + |switches[c]|;
        var column := AssignColumn(switches[c], switchAssignments[i..next]);
        AssignedNext(s, t, switchAssignments, c, column, i, next);
        switches[c] := column;
        assert switches[..] == t[c := column];
        i := next;
      }
      AllAssigned(s, switches[..], switchAssignments, i);
    }

    static method AssignColumn(column: map<nat, bool>, bits: seq<bool>) returns (updated: map<nat, bool>)
      requires |bits| == |column|
      ensures updated.Keys == column.Keys && Values(updated, Descending(column.Keys)) == bits
    {
      var keys := SortedKeys(column);
      assert |column| == |column.Keys|;
      DescendingDistinct(column.Keys);
      updated := AssignKeys(column, keys, bits);
    }

    static method AssignKeys(column: map<nat, bool>, keys: seq<nat>, bits: seq<bool>) returns (updated: map<nat, bool>)
      requires |bits| == |keys| && (forall k | k in keys :: k in column) && StrictlyDown(keys)
      ensures updated.Keys == column.Keys && Values(updated, keys) == bits
    {
      updated := column;
      for j := 0 to |keys|
        invariant updated.Keys == column.Keys
        invariant forall k | 0 <= k < j :: updated[keys[k]] == bits[k]
      {
        updated := updated[keys[j] := bits[j]];
      }
    }

    /** The settings dumped from one route, assigned to another, transfer its permutation. */
    static method TransferAssignments(source: AsWaksmanRoute, target: AsWaksmanRoute)
      returns (shuffle: IntegerPermutation)
      requires source.Valid() && target.Valid() && source.size == target.size
      modifies target.switches
      ensures target.Valid() && target.switches[..] == old(source.switches[..])
      ensures Realises(source.net, old(source.switches[..]), shuffle.elements)
    {
      ghost var s := source.switches[..];
      var dump := source.DumpAssignments();
      OneNetwork(source.net, target.net, source.size);
      BothKeyed(source.net, s, target.switches[..]);
      SameGates(s, target.switches[..]);
      target.AssignSwitches(dump[..]);
      BothKeyed(source.net, s, target.switches[..]);
      DumpDetermines(target.switches[..], s);
      shuffle := target.CalculatePermutation();
    }
  }
}
