/** Following all packets of an AS-Waksman network at once, one column after the other. */
module WaksmanSimulation {
  import opened Permutation
  import opened WaksmanShape
  import opened WaksmanTopology

  /** Where one column of the grid sends the packet on row `r`. */
  ghost function ColumnStep(net: Net, s: Switches, c: nat, r: nat): (r': nat)
    requires net.Valid() && net.right < |s|
    requires net.left <= c <= net.right && net.low <= r <= net.high
    ensures net.low <= r' <= net.high
  {
    Step(CellAt(net, c, r), s[c], r)
  }

  /** The row on which the packet from input `i` enters column `c`. */
  ghost function Reach(net: Net, s: Switches, c: nat, i: nat): (r: nat)
    requires net.Valid() && net.right < |s|
    requires net.left <= c <= net.right + 1 && net.low <= i <= net.high
    ensures net.low <= r <= net.high
    decreases c
  {
    if c == net.left then i else ColumnStep(net, s, c - 1, Reach(net, s, c - 1, i))
  }

  lemma {:induction false} ReachWalks(net: Net, s: Switches, c: nat, i: nat)
    requires net.Valid() && net.right < |s| && net.left <= net.right
    requires net.left <= c <= net.right + 1 && net.low <= i <= net.high
    ensures Walk(net, s, net.left, i)
         == if c <= net.right then Walk(net, s, c, Reach(net, s, c, i)) else Reach(net, s, c, i)
    decreases c
  {
    if c > net.left {
      ReachWalks(net, s, c - 1, i);
    }
  }

  /** After the last column every packet is where the meaning of the switches puts it. */
  lemma ReachIsOut(net: Net, s: Switches, i: nat)
    requires net.Valid() && net.left <= net.right && Keyed(net, s) && net.low <= i <= net.high
    ensures Reach(net, s, net.right + 1, i) == Out(net, s, i)
  {
    ReachWalks(net, s, net.right + 1, i);
    WalkIsOut(net, s, i);
  }

  /** Packets never meet, in any column. */
  lemma ReachInjective(net: Net, s: Switches, c: nat, i: nat, j: nat)
    requires net.Valid() && Keyed(net, s) && net.left <= c <= net.right + 1 && net.left <= net.right
    requires net.low <= i <= net.high && net.low <= j <= net.high && i != j
    ensures Reach(net, s, c, i) != Reach(net, s, c, j)
  {
    ReachWalks(net, s, c, i);
    ReachWalks(net, s, c, j);
    WalkIsOut(net, s, i);
    WalkIsOut(net, s, j);
    OutInjective(net, s, i, j);
  }

  ghost function Reached(net: Net, s: Switches, c: nat): (rows: seq<nat>)
    requires net.Valid() && net.right < |s| && net.left <= c <= net.right + 1
    ensures |rows| == net.high - net.low + 1
  {
    seq<nat>(net.high - net.low + 1, k requires 0 <= k <= net.high - net.low => Reach(net, s, c, net.low + k))
  }

  lemma ReachedAt(net: Net, s: Switches, c: nat, a: nat, r: nat)
    requires net.Valid() && net.right < |s| && net.left <= c <= net.right + 1
    requires a <= net.high - net.low && Reach(net, s, c, net.low + a) == r
    ensures Reached(net, s, c)[a] == r
  {
  }

  lemma ReachedDiffer(net: Net, s: Switches, c: nat, rows: seq<nat>, i: nat, j: nat)
    requires net.Valid() && Keyed(net, s) && net.left <= c <= net.right + 1 && net.left <= net.right
    requires net.low <= i < j <= net.high && j - net.low < |rows|
    requires rows[i - net.low] == Reach(net, s, c, i) && rows[j - net.low] == Reach(net, s, c, j)
    ensures rows[i - net.low] != rows[j - net.low]
  {
    ReachInjective(net, s, c, i, j);
  }

  lemma ReachedIsPerm(net: Net, s: Switches, c: nat)
    requires net.Valid() && Keyed(net, s) && net.left <= c <= net.right + 1 && net.left <= net.right
    ensures IsPerm(Reached(net, s, c), net.low)
  {
    var rows := Reached(net, s, c);
    forall a: nat | a < |rows| ensures net.low <= rows[a] <= net.high && rows[a] == Reach(net, s, c, net.low + a) {
      ReachedAt(net, s, c, a, Reach(net, s, c, net.low + a));
    }
    RowsDiffer(net, s, c, rows);
  }

  lemma RowsDiffer(net: Net, s: Switches, c: nat, rows: seq<nat>)
    requires net.Valid() && Keyed(net, s) && net.left <= c <= net.right + 1 && net.left <= net.right
    requires |rows| == net.high - net.low + 1
    requires forall a: nat | a < |rows| :: rows[a] == Reach(net, s, c, net.low + a)
    ensures forall a, b | 0 <= a < b < |rows| :: rows[a] != rows[b]
  {
    forall a, b | 0 <= a < b < |rows| ensures rows[a] != rows[b] {
      ReachedDiffer(net, s, c, rows, net.low + a, net.low + b);
    }
  }

  /** Every row of every column carries the packet of exactly one input. */
  lemma WhoIsThere(net: Net, s: Switches, c: nat, r: nat) returns (i: nat)
    requires net.Valid() && Keyed(net, s) && net.left <= c <= net.right + 1 && net.left <= net.right
    requires net.low <= r <= net.high
    ensures net.low <= i <= net.high && Reach(net, s, c, i) == r
  {
    ReachedIsPerm(net, s, c);
    i := PermIsOnto(Reached(net, s, c), net.low, r);
    assert Reach(net, s, c, i) == Reached(net, s, c)[i - net.low];
  }

  /** One column sends different rows to different rows. */
  lemma ColumnInjective(net: Net, s: Switches, c: nat, r: nat, q: nat)
    requires net.Valid() && Keyed(net, s) && net.left <= c <= net.right
    requires net.low <= r <= net.high && net.low <= q <= net.high && r != q
    ensures ColumnStep(net, s, c, r) != ColumnStep(net, s, c, q)
  {
    var i := WhoIsThere(net, s, c, r);
    var j := WhoIsThere(net, s, c, q);
    assert Reach(net, s, c + 1, i) != Reach(net, s, c + 1, j) by { ReachInjective(net, s, c + 1, i, j); }
    ReachNext(net, s, c, i);
    ReachNext(net, s, c, j);
  }

  lemma ReachNext(net: Net, s: Switches, c: nat, i: nat)
    requires net.Valid() && net.right < |s| && net.left <= c <= net.right && net.low <= i <= net.high
    ensures Reach(net, s, c + 1, i) == ColumnStep(net, s, c, Reach(net, s, c, i))
  {
  }

  /** A cell that is not straight lies on exactly one switch: its own row or the one above has a
      key, and never both. */
  lemma {:induction false} OneSwitchPerCell(net: Net, c: nat, r: nat)
    requires net.Valid() && net.left <= c <= net.right && net.low <= r <= net.high
    requires CellAt(net, c, r).0 != CellAt(net, c, r).1
    ensures (r in Keys(net, c)) != (r > 0 && r - 1 in Keys(net, c))
  {
    match net
    case Pad(left, right, low, high, inner) => OneSwitchPerCell(inner, c, r);
    case Cross(_, _, _, _) =>
    case Split(left, right, low, high, top, bottom) =>
      if c == left {
        OneSwitchOnTheLeft(low, high, r);
      } else if c == right {
        OneSwitchOnTheRight(low, high, r);
      } else {
        var half := if r < Mid(low, high) then top else bottom;
        OneSwitchPerCell(half, c, r);
        HalfKeys(net, half, c, r);
      }
  }

  /** The rows of one half, and the row just above it, have the keys of that half. */
  lemma HalfKeys(net: Net, half: Net, c: nat, r: nat)
    requires net.Valid() && net.Split? && (half == net.top || half == net.bottom)
    requires net.left < c < net.right && half.low <= r <= half.high
    ensures r in Keys(net, c) <==> r in Keys(half, c)
    ensures r > 0 ==> (r - 1 in Keys(net, c) <==> r - 1 in Keys(half, c))
  {
    var other := if half == net.top then net.bottom else net.top;
    if r in Keys(other, c) { KeysInRange(other, c, r); }
    if r > 0 && r - 1 in Keys(other, c) { KeysInRange(other, c, r - 1); }
  }

  lemma OneSwitchOnTheLeft(low: nat, high: nat, r: nat)
    requires low + 2 <= high && low <= r <= high && LeftCell(low, high, r).0 != LeftCell(low, high, r).1
    ensures (r in SwitchRows(low, (high - low) / 2)) != (r > 0 && r - 1 in SwitchRows(low, (high - low) / 2))
  {
    SwitchRow(low, (high - low) / 2, r);
    if r > low { SwitchRow(low, (high - low) / 2, r - 1); }
  }

  lemma OneSwitchOnTheRight(low: nat, high: nat, r: nat)
    requires low + 2 <= high && low <= r <= high && RightCell(low, high, r).0 != RightCell(low, high, r).1
    ensures (r in SwitchRows(low, (high - low + 1) / 2)) != (r > 0 && r - 1 in SwitchRows(low, (high - low + 1) / 2))
  {
    SwitchRow(low, (high - low + 1) / 2, r);
    if r > low { SwitchRow(low, (high - low + 1) / 2, r - 1); }
  }
}
