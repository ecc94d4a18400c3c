/** The AS-Waksman topology: the grid built by the recursive construction, and the proof that
    following its cells column by column computes the meaning of the switches. */
module WaksmanTopology {
  import opened Permutation
  import opened WaksmanShape

  /** Where a packet goes next with the switch off, and with it on. */
  type Cell = (nat, nat)

  const EMPTY_STATE: nat := 0xFFFF_FFFF_FFFF_FFFF

  // ---- The grid as a function ----

  /** The row of the right column fed by output `k` of the half-size networks: output `j` of the
      top half goes to the upper wire of switch `j`, output `j` of the bottom half to the lower. */
  ghost function SubDestination(low: nat, high: nat, k: nat): (r: nat)
    requires low + 2 <= high && low <= k <= high
    ensures low <= r <= high
  {
    if k < Mid(low, high) then low + 2 * (k - low)
    else if Straight(low, high, k) then high
    else low + 2 * (k - Mid(low, high)) + 1
  }

  ghost function LeftCell(low: nat, high: nat, r: nat): (cell: Cell)
    requires low <= r <= high && low + 2 <= high
    ensures low <= cell.0 <= high && low <= cell.1 <= high
  {
    var n := high - low + 1;
    var top, bottom := HalfRow(n, low, r, true), HalfRow(n, low, r, false);
    if Straight(low, high, r) then (high, high)
    else if n % 2 == 0 && r == high - 1 then (top, top)
    else if n % 2 == 0 && r == high then (bottom, bottom)
    else SwitchCell(low, high, r)
  }

  /** A free switch of the left column: off sends its upper wire to the top half. */
  ghost function SwitchCell(low: nat, high: nat, r: nat): Cell
    requires low <= r <= high
  {
    var n := high - low + 1;
    var top, bottom := HalfRow(n, low, r, true), HalfRow(n, low, r, false);
    if CanonicalRow(low, r) == r then (top, bottom) else (bottom, top)
  }

  ghost function RightCell(low: nat, high: nat, r: nat): (cell: Cell)
    requires low <= r <= high
    ensures low <= cell.0 <= high && low <= cell.1 <= high
  {
    if Straight(low, high, r) then (r, r) else (r, OtherPosition(low, r))
  }

  /** The cell at column `c` and row `r` of a network.  The cells of the last column name the
      outputs of the network; what is connected to them is the caller's business. */
  ghost function CellAt(net: Net, c: nat, r: nat): (cell: Cell)
    requires net.Valid() && net.left <= c <= net.right && net.low <= r <= net.high
    ensures net.low <= cell.0 <= net.high && net.low <= cell.1 <= net.high
    decreases net
  {
    match net
    case Pad(left, right, low, high, inner) =>
      if c == right || c == left then (r, r) else CellAt(inner, c, r)
    case Cross(_, _, low, high) => (r, low + high - r)
    case Split(left, right, low, high, top, bottom) =>
      if c == left then LeftCell(low, high, r)
      else if c == right then RightCell(low, high, r)
      else
        var cell := if r < Mid(low, high) then CellAt(top, c, r) else CellAt(bottom, c, r);
        if c == right - 1 then (SubDestination(low, high, cell.0), SubDestination(low, high, cell.1))
        else cell
  }

  // ---- Following the cells ----

  /** One packet through one cell: a straight cell ignores the switches; otherwise the packet is
      on the upper wire of the switch at its row or on the lower wire of the one above. */
  function Step(cell: Cell, m: map<nat, bool>, r: nat): (r': nat)
    ensures r' == cell.0 || r' == cell.1
  {
    if cell.0 == cell.1 then cell.0
    else if (if r in m then m[r] else r > 0 && Setting(m, r - 1)) then cell.1
    else cell.0
  }

  /** One packet from column `c` on row `r` through the last column of the network. */
  ghost function Walk(net: Net, s: Switches, c: nat, r: nat): (o: nat)
    requires net.Valid() && net.right < |s|
    requires net.left <= c <= net.right && net.low <= r <= net.high
    ensures net.low <= o <= net.high
    decreases net.right - c
  {
    var r' := Step(CellAt(net, c, r), s[c], r);
    if c == net.right then r' else Walk(net, s, c + 1, r')
  }

  lemma {:induction false} WalkPad(net: Net, s: Switches, c: nat, r: nat)
    requires net.Valid() && net.Pad? && net.right < |s| && net.left < c < net.right
    requires net.low <= r <= net.high
    ensures Walk(net, s, c, r) == Walk(net.inner, s, c, r)
    decreases net.right - c
  {
    if c < net.right - 1 {
      WalkPad(net, s, c + 1, Step(CellAt(net.inner, c, r), s[c], r));
    }
  }

  /** Inside one half of a split network the walk is the half's own walk, whose output is then
      sent through the right column. */
  lemma {:induction false} WalkHalf(net: Net, half: Net, s: Switches, c: nat, r: nat)
    requires net.Valid() && net.Split? && (half == net.top || half == net.bottom)
    requires net.right < |s| && net.left < c < net.right && half.low <= r <= half.high
    ensures var r' := SubDestination(net.low, net.high, Walk(half, s, c, r));
            Walk(net, s, c, r) == Step(RightCell(net.low, net.high, r'), s[net.right], r')
    decreases net.right - c
  {
    var r1 := Step(CellAt(half, c, r), s[c], r);
    if c < net.right - 1 {
      WalkHalf(net, half, s, c + 1, r1);
    } else {
      assert Step(CellAt(net, c, r), s[c], r) == SubDestination(net.low, net.high, r1);
    }
  }

  lemma StepLeft(net: Net, s: Switches, i: nat)
    requires net.Valid() && net.Split? && Keyed(net, s) && net.low <= i <= net.high
    ensures Step(LeftCell(net.low, net.high, i), s[net.left], i) == Enter(net.low, net.high, s[net.left], i)
  {
    var low, high, m, k := net.low, net.high, s[net.left], CanonicalRow(net.low, i);
    SwitchRow(low, (high - low) / 2, i);
    SwitchRow(low, (high - low) / 2, k);
    assert i in m <==> i in Keys(net, net.left);
    assert k in m <==> k in Keys(net, net.left);
    LeftStep(low, high, m, i);
  }

  lemma LeftStep(low: nat, high: nat, m: map<nat, bool>, i: nat)
    requires low + 2 <= high && low <= i <= high
    requires i in m <==> (i - low) % 2 == 0 && i < low + 2 * ((high - low) / 2)
    requires CanonicalRow(low, i) in m <==> CanonicalRow(low, i) < low + 2 * ((high - low) / 2)
    ensures Step(LeftCell(low, high, i), m, i) == Enter(low, high, m, i)
  {
  }

  lemma StepRight(net: Net, s: Switches, k: nat)
    requires net.Valid() && net.Split? && Keyed(net, s) && net.low <= k <= net.high
    ensures var r := SubDestination(net.low, net.high, k);
            Step(RightCell(net.low, net.high, r), s[net.right], r) == Leave(net.low, net.high, s[net.right], k)
  {
    var low, high := net.low, net.high;
    forall r | low <= r <= high
      ensures r in s[net.right] <==> (r - low) % 2 == 0 && r < low + 2 * ((high - low + 1) / 2)
    {
      SwitchRow(low, (high - low + 1) / 2, r);
    }
    RightStep(low, high, s[net.right], k);
  }

  lemma RightStep(low: nat, high: nat, m: map<nat, bool>, k: nat)
    requires low + 2 <= high && low <= k <= high
    requires forall r | low <= r <= high :: r in m <==> (r - low) % 2 == 0 && r < low + 2 * ((high - low + 1) / 2)
    ensures var r := SubDestination(low, high, k);
            Step(RightCell(low, high, r), m, r) == Leave(low, high, m, k)
  {
    var mid := Mid(low, high);
    if k < mid {
      UpperStep(low, high, m, k - low);
    } else if !Straight(low, high, k) {
      LowerStep(low, high, m, k - mid);
    }
  }

  lemma UpperStep(low: nat, high: nat, m: map<nat, bool>, j: nat)
    requires low + 2 * j + 1 <= high && low + 2 * j in m && low + j < Mid(low, high)
    ensures var r := low + 2 * j;
            Step(RightCell(low, high, r), m, r) == (if m[r] then r + 1 else r) == Leave(low, high, m, low + j)
  {
  }

  lemma LowerStep(low: nat, high: nat, m: map<nat, bool>, j: nat)
    requires low + 2 * j + 1 <= high && low + 2 * j in m && low + 2 * j + 1 !in m
    requires Mid(low, high) + j <= high
    ensures var r := low + 2 * j + 1;
            Step(RightCell(low, high, r), m, r) == (if m[r - 1] then r - 1 else r)
              == Leave(low, high, m, Mid(low, high) + j)
  {
  }

  /** Main agreement of the two constructions: walking through the grid from row `i` leads to
      the row at which the meaning of the switches lets the packet out. */
  lemma {:induction false} WalkIsOut(net: Net, s: Switches, i: nat)
    requires net.Valid() && net.left <= net.right && Keyed(net, s) && net.low <= i <= net.high
    ensures Walk(net, s, net.left, i) == Out(net, s, i)
    decreases net
  {
    match net
    case Pad(left, right, low, high, inner) =>
      if left < right {
        KeyedInner(net, s);
        WalkPad(net, s, left + 1, i);
        WalkIsOut(inner, s, i);
      }
    case Cross(_, _, _, _) =>
    case Split(left, right, low, high, top, bottom) =>
      StepLeft(net, s, i);
      EnterInRange(low, high, s[left], i);
      KeyedHalves(net, s);
      var j := Enter(low, high, s[left], i);
      var half := if j < Mid(low, high) then top else bottom;
      WalkHalf(net, half, s, left + 1, j);
      WalkIsOut(half, s, j);
      StepRight(net, s, OutHalves(net, s, j));
  }

  lemma KeyedInner(net: Net, s: Switches)
    requires net.Valid() && net.Pad? && Keyed(net, s)
    ensures Keyed(net.inner, s)
  {
    forall c, k | net.left < c < net.right && net.low <= k <= net.high
      ensures k in s[c] <==> k in Keys(net.inner, c)
    {
      assert Keys(net, c) == Keys(net.inner, c);
    }
  }

  // ---- The grid as it is built ----

  /** A cell of the network once its outputs are connected to the rows `dest`. */
  ghost function Connected(net: Net, dest: seq<nat>, c: nat, r: nat): Cell
    requires net.Valid() && |dest| == net.high - net.low + 1
    requires net.left <= c <= net.right && net.low <= r <= net.high
  {
    var cell := CellAt(net, c, r);
    if c == net.right then (dest[cell.0 - net.low], dest[cell.1 - net.low]) else cell
  }

  ghost function OutputCell(low: nat, high: nat, dest: seq<nat>, r: nat): Cell
    requires low <= r <= high && |dest| == high - low + 1
  {
    var cell := RightCell(low, high, r);
    (dest[cell.0 - low], dest[cell.1 - low])
  }

  lemma ConnectedPad(net: Net, dest: seq<nat>, sub: seq<nat>, c: nat, r: nat)
    requires net.Valid() && net.Pad? && |dest| == |sub| == net.high - net.low + 1
    requires forall j | 0 <= j < |sub| :: sub[j] == net.low + j
    requires net.left <= c <= net.right && net.low <= r <= net.high
    ensures Connected(net, dest, c, r)
         == if c == net.right then (dest[r - net.low], dest[r - net.low])
            else if c == net.left then (r, r) else Connected(net.inner, sub, c, r)
  {
  }

  lemma ConnectedColumns(net: Net, dest: seq<nat>, c: nat, r: nat)
    requires net.Valid() && net.Split? && |dest| == net.high - net.low + 1
    requires (c == net.left || c == net.right) && net.low <= r <= net.high
    ensures Connected(net, dest, c, r)
         == if c == net.left then LeftCell(net.low, net.high, r) else OutputCell(net.low, net.high, dest, r)
  {
  }

  lemma ConnectedSplit(net: Net, dest: seq<nat>, half: Net, sub: seq<nat>, c: nat, r: nat)
    requires net.Valid() && net.Split? && (half == net.top || half == net.bottom)
    requires |dest| == net.high - net.low + 1 && |sub| == half.high - half.low + 1
    requires forall k | half.low <= k <= half.high :: sub[k - half.low] == SubDestination(net.low, net.high, k)
    requires net.left < c < net.right && half.low <= r <= half.high
    ensures Connected(net, dest, c, r) == Connected(half, sub, c, r)
  {
  }

  ghost predicate Filled(topology: array2<Cell>, net: Net, dest: seq<nat>)
    requires net.Valid() && |dest| == net.high - net.low + 1
    reads topology
  {
    && (net.left <= net.right ==> net.right < topology.Length0 && net.high < topology.Length1)
    && forall c, r | net.left <= c <= net.right && net.low <= r <= net.high ::
         topology[c, r] == Connected(net, dest, c, r)
  }

  lemma FilledSplit(topology: array2<Cell>, net: Net, dest: seq<nat>, sub: seq<nat>)
    requires net.Valid() && net.Split? && net.right < topology.Length0 && net.high < topology.Length1
    requires |dest| == |sub| == net.high - net.low + 1
    requires forall k | net.low <= k <= net.high :: sub[k - net.low] == SubDestination(net.low, net.high, k)
    requires forall r | net.low <= r <= net.high ::
               topology[net.left, r] == LeftCell(net.low, net.high, r)
               && topology[net.right, r] == OutputCell(net.low, net.high, dest, r)
    requires Filled(topology, net.top, sub[..Mid(net.low, net.high) - net.low])
    requires Filled(topology, net.bottom, sub[Mid(net.low, net.high) - net.low..])
    ensures Filled(topology, net, dest)
  {
    var d := Mid(net.low, net.high) - net.low;
    forall c, r | net.left <= c <= net.right && net.low <= r <= net.high
      ensures topology[c, r] == Connected(net, dest, c, r)
    {
      if c == net.left || c == net.right {
        ConnectedColumns(net, dest, c, r);
      } else if r < net.low + d {
        ConnectedSplit(net, dest, net.top, sub[..d], c, r);
      } else {
        ConnectedSplit(net, dest, net.bottom, sub[d..], c, r);
      }
    }
  }

  /** The grid holds the cells of the network. */
  ghost predicate Laid(topology: array2<Cell>, net: Net)
    requires net.Valid()
    reads topology
  {
    && net.right < topology.Length0 && net.high < topology.Length1
    && forall c, r | net.left <= c <= net.right && net.low <= r <= net.high :: topology[c, r] == CellAt(net, c, r)
  }

  /** At the outermost level the destinations are the rows themselves. */
  lemma FilledIsLaid(topology: array2<Cell>, net: Net, size: nat, dest: seq<nat>)
    requires net.Valid() && net.left <= net.right && net.low == 0 && net.high + 1 == size && dest == Interval(0, size)
    requires Filled(topology, net, dest)
    ensures Laid(topology, net)
  {
    forall c, r | net.left <= c <= net.right && net.low <= r <= net.high ensures topology[c, r] == CellAt(net, c, r) {
      assert topology[c, r] == Connected(net, dest, c, r);
    }
  }

  class AsWaksmanTopology {
    const topology: array2<Cell>
    const size: nat
    ghost const net: Net

    ghost predicate Valid()
      reads topology
    {
      && Network(net, size) && topology.Length0 == NumColumns(size) && topology.Length1 == size
      && Laid(topology, net)
    }

    constructor (size: nat)
      requires size > 1
      ensures this.size == size && fresh(topology) && Valid()
    {
      var numColumns := NumColumns(size);
      var grid := new Cell[numColumns, size]((_, _) => (EMPTY_STATE, EMPTY_STATE));
      ghost var whole := ConstructWhole(size, numColumns, grid);
      this.size, topology, net := size, grid, whole;
    }

    static method ConstructWhole(size: nat, numColumns: nat, topology: array2<Cell>) returns (ghost net: Net)
      requires size > 1 && numColumns == NumColumns(size) == topology.Length0 && topology.Length1 == size
      modifies topology
      ensures Network(net, size) && Laid(topology, net)
    {
      NetworkHasColumns(size);
      var right, high := numColumns - 1, size - 1;
      net := TheNetwork(size, right);
      var destinations := Interval(0, size);
      ConstructInner(0, right, 0, high, destinations, topology);
      FilledIsLaid(topology, net, size, destinations);
    }

    static method ConstructInner(left: nat, right: nat, low: nat, high: nat,
                                 destinations: seq<nat>, topology: array2<Cell>)
      requires Rect(left, right, low, high) && |destinations| == high - low + 1
      requires left <= right ==> right < topology.Length0 && high < topology.Length1
      modifies topology
      ensures Filled(topology, NetOf(left, right, low, high), destinations)
      ensures forall c, r | 0 <= c < topology.Length0 && 0 <= r < topology.Length1 ::
                !(left <= c <= right && low <= r <= high) ==> topology[c, r] == old(topology[c, r])
      decreases right - left + 1, 1
    {
      if left > right {
        return;
      }
      var rowsToGenerate := high - low + 1;
      if right - left + 1 > NumColumns(rowsToGenerate) {
        ConstructPadded(left, right, low, high, destinations, topology);
      } else if rowsToGenerate == 2 {
        OneSwitchColumn(left, right, low, high);
        topology[left, low] := (destinations[0], destinations[1]);
        topology[left, high] := (destinations[1], destinations[0]);
      } else {
        ConstructSplit(left, right, low, high, destinations, topology);
      }
    }

    /** More columns than needed: straight edges outside, the network inside. */
    static method ConstructPadded(left: nat, right: nat, low: nat, high: nat,
                                  destinations: seq<nat>, topology: array2<Cell>)
      requires Rect(left, right, low, high) && left <= right && Padded(left, right, low, high)
      requires |destinations| == high - low + 1 && right < topology.Length0 && high < topology.Length1
      modifies topology
      ensures Filled(topology, NetOf(left, right, low, high), destinations)
      ensures forall c, r | 0 <= c < topology.Length0 && 0 <= r < topology.Length1 ::
                !(left <= c <= right && low <= r <= high) ==> topology[c, r] == old(topology[c, r])
      decreases right - left + 1, 0
    {
      var subdestinations := ConnectStraight(left, right, low, high, destinations, topology);
      PaddedRect(left, right, low, high);
      ConstructInner(left + 1, right - 1, low, high, subdestinations, topology);
      ghost var net := NetOf(left, right, low, high);
      forall c, r | left <= c <= right && low <= r <= high
        ensures topology[c, r] == Connected(net, destinations, c, r)
      {
        ConnectedPad(net, destinations, subdestinations, c, r);
      }
    }

    /** The recursion step: two columns of switches with the two halves between them. */
    static method ConstructSplit(left: nat, right: nat, low: nat, high: nat,
                                 destinations: seq<nat>, topology: array2<Cell>)
      requires Rect(left, right, low, high) && left <= right && !Padded(left, right, low, high) && low + 2 <= high
      requires |destinations| == high - low + 1 && right < topology.Length0 && high < topology.Length1
      modifies topology
      ensures Filled(topology, NetOf(left, right, low, high), destinations)
      ensures forall c, r | 0 <= c < topology.Length0 && 0 <= r < topology.Length1 ::
                !(left <= c <= right && low <= r <= high) ==> topology[c, r] == old(topology[c, r])
      decreases right - left + 1, 0
    {
      HalfRects(left, right, low, high);
      ConnectSwitchColumns(left, right, low, high, destinations, topology);
      var subdestinations := SwitchDestinations(low, high);
      var d := (high - low + 1) / 2;
      ConstructHalves(left, right, low, high, subdestinations[..d], subdestinations[d..], topology);
      FilledSplit(topology, NetOf(left, right, low, high), destinations, subdestinations);
    }

    /** The two recursive calls on the half-size networks. */
    static method ConstructHalves(left: nat, right: nat, low: nat, high: nat,
                                  topDestinations: seq<nat>, bottomDestinations: seq<nat>, topology: array2<Cell>)
      requires Rect(left, right, low, high) && left <= right && !Padded(left, right, low, high) && low + 2 <= high
      requires |topDestinations| == Mid(low, high) - low && |bottomDestinations| == high + 1 - Mid(low, high)
      requires right < topology.Length0 && high < topology.Length1
      modifies topology
      ensures var net := NetOf(left, right, low, high);
              && Filled(topology, net.top, topDestinations) && Filled(topology, net.bottom, bottomDestinations)
      ensures forall c, r | 0 <= c < topology.Length0 && 0 <= r < topology.Length1 ::
                !(left < c < right && low <= r <= high) ==> topology[c, r] == old(topology[c, r])
      decreases right - left
    {
      HalfRects(left, right, low, high);
      var d := (high - low + 1) / 2;
      ConstructPair(left + 1, right - 1, low, low + d, high, topDestinations, bottomDestinations, topology);
    }

    /** The network above `mid` and the one from `mid` on. */
    static method ConstructPair(left: nat, right: nat, low: nat, mid: nat, high: nat,
                                topDestinations: seq<nat>, bottomDestinations: seq<nat>, topology: array2<Cell>)
      requires low < mid <= high && Rect(left, right, low, mid - 1) && Rect(left, right, mid, high)
      requires |topDestinations| == mid - low && |bottomDestinations| == high + 1 - mid
      requires left <= right ==> right < topology.Length0 && high < topology.Length1
      modifies topology
      ensures Filled(topology, NetOf(left, right, low, mid - 1), topDestinations)
      ensures Filled(topology, NetOf(left, right, mid, high), bottomDestinations)
      ensures forall c, r | 0 <= c < topology.Length0 && 0 <= r < topology.Length1 ::
                !(left <= c <= right && low <= r <= high) ==> topology[c, r] == old(topology[c, r])
      decreases right - left + 1, 2
    {
      ghost var top := NetOf(left, right, low, mid - 1);
      ConstructInner(left, right, low, mid - 1, topDestinations, topology);
      label TopDone:
      ConstructInner(left, right, mid, high, bottomDestinations, topology);
      forall c, r | left <= c <= right && low <= r < mid
        ensures topology[c, r] == Connected(top, topDestinations, c, r)
      {
        assert topology[c, r] == old@TopDone(topology[c, r]);
      }
    }

    /** Straight edges in the first and the last column; what lies between keeps its rows. */
    static method ConnectStraight(left: nat, right: nat, low: nat, high: nat, destinations: seq<nat>,
                                  topology: array2<Cell>) returns (subdestinations: seq<nat>)
      requires left <= right < topology.Length0 && low <= high < topology.Length1
      requires |destinations| == high - low + 1
      modifies topology
      ensures |subdestinations| == high - low + 1
      ensures forall j | 0 <= j <= high - low :: subdestinations[j] == low + j
      ensures forall r | low <= r <= high :: topology[right, r] == (destinations[r - low], destinations[r - low])
      ensures left < right ==> forall r | low <= r <= high :: topology[left, r] == (r, r)
      ensures forall c, r | 0 <= c < topology.Length0 && 0 <= r < topology.Length1 ::
                !((c == left || c == right) && low <= r <= high) ==> topology[c, r] == old(topology[c, r])
    {
      for idx := low to high + 1
        invariant forall r | low <= r < idx :: topology[right, r] == (destinations[r - low], destinations[r - low])
        invariant left < right ==> forall r | low <= r < idx :: topology[left, r] == (r, r)
        invariant forall c, r | 0 <= c < topology.Length0 && 0 <= r < topology.Length1 ::
                    !((c == left || c == right) && low <= r < idx) ==> topology[c, r] == old(topology[c, r])
      {
        topology[left, idx] := (idx, idx);
        topology[right, idx] := (destinations[idx - low], destinations[idx - low]);
      }
      subdestinations := seq(high - low + 1, _ => EMPTY_STATE);
      for idx := low to high + 1
        invariant |subdestinations| == high - low + 1
        invariant forall j | 0 <= j < idx - low :: subdestinations[j] == low + j
      {
        subdestinations := subdestinations[idx - low := idx];
      }
    }

    /** What the networks between the two switch columns feed (AsWaksmanTopology::construct_inner fills
        this in the pass over the switches that fills the columns). */
    static method SwitchDestinations(low: nat, high: nat) returns (subdestinations: seq<nat>)
      requires low + 2 <= high
      ensures |subdestinations| == high - low + 1
      ensures forall k | low <= k <= high :: subdestinations[k - low] == SubDestination(low, high, k)
    {
      var rowsToGenerate := high - low + 1;
      subdestinations := seq(rowsToGenerate, _ => EMPTY_STATE);
      var limit := if rowsToGenerate % 2 == 1 then high else high + 1;
      var idx := low;
      ghost var i, d := 0, rowsToGenerate / 2;
      while idx < limit
        invariant idx == low + 2 * i <= limit
        invariant |subdestinations| == rowsToGenerate
        invariant forall j | 0 <= j < i :: subdestinations[j] == low + 2 * j
        invariant forall j | d <= j < d + i :: subdestinations[j] == low + 2 * (j - d) + 1
      {
        var topIdx := InOutIndex(rowsToGenerate, low, idx, true);
        var bottomIdx := InOutIndex(rowsToGenerate, low, idx, false);
        assert topIdx == low + i && bottomIdx == low + d + i;
        subdestinations := subdestinations[topIdx - low := idx];
        subdestinations := subdestinations[bottomIdx - low := idx + 1];
        idx := idx + 2;
        i := i + 1;
      }
      if rowsToGenerate % 2 == 1 {
        subdestinations := subdestinations[high - low := high];
      }
    }

    /** The first and the last column of a split network. */
    static method ConnectSwitchColumns(left: nat, right: nat, low: nat, high: nat,
                                       destinations: seq<nat>, topology: array2<Cell>)
      requires left < right < topology.Length0 && low + 2 <= high < topology.Length1
      requires |destinations| == high - low + 1
      modifies topology
      ensures forall r | low <= r <= high ::
                topology[left, r] == LeftCell(low, high, r)
                  && topology[right, r] == OutputCell(low, high, destinations, r)
      ensures forall c, r | 0 <= c < topology.Length0 && 0 <= r < topology.Length1 ::
                !((c == left || c == right) && low <= r <= high) ==> topology[c, r] == old(topology[c, r])
    {
      ConnectSwitches(left, right, low, high, destinations, topology);
      label Switches:
      assert (high - low) % 2 == 1 ==> RowSwitched(left, right, low, high, destinations, topology, high - 1)
                                       && RowSwitched(left, right, low, high, destinations, topology, high);
      ConnectLastWires(left, right, low, high, destinations, topology);
      forall r | low <= r <= high
        ensures topology[left, r] == LeftCell(low, high, r)
        ensures topology[right, r] == OutputCell(low, high, destinations, r)
      {
        assert r < high ==> old@Switches(RowSwitched(left, right, low, high, destinations, topology, r));
        assert (high - low) % 2 == 1 ==> old@Switches(RowSwitched(left, right, low, high, destinations, topology,
            high));
      }
    }

    /** Row `r` has its cells of a switch on both sides. */
    static ghost predicate RowSwitched(left: nat, right: nat, low: nat, high: nat,
                                       destinations: seq<nat>, topology: array2<Cell>, r: nat)
      requires left < right < topology.Length0 && low <= r <= high < topology.Length1
      requires |destinations| == high - low + 1
      reads topology
    {
      topology[left, r] == SwitchCell(low, high, r) && topology[right, r] == OutputCell(low, high, destinations, r)
    }

    /** A switch for every pair of rows, on both sides. */
    static method ConnectSwitches(left: nat, right: nat, low: nat, high: nat,
                                  destinations: seq<nat>, topology: array2<Cell>)
      requires left < right < topology.Length0 && low + 2 <= high < topology.Length1
      requires |destinations| == high - low + 1
      modifies topology
      ensures forall r: nat | low <= r < high + (high - low) % 2 ::
        RowSwitched(left, right, low, high, destinations, topology, r)
      ensures forall c, r | 0 <= c < topology.Length0 && 0 <= r < topology.Length1 ::
                !((c == left || c == right) && low <= r <= high) ==> topology[c, r] == old(topology[c, r])
    {
      var limit := if (high - low + 1) % 2 == 1 then high else high + 1;
      var idx := low;
      ghost var i := 0;
      while idx < limit
        invariant idx == low + 2 * i <= limit
        invariant forall r: nat | low <= r < idx :: RowSwitched(left, right, low, high, destinations, topology, r)
        invariant forall c, r | 0 <= c < topology.Length0 && 0 <= r < topology.Length1 ::
                    !((c == left || c == right) && low <= r < idx) ==> topology[c, r] == old(topology[c, r])
      {
        label Before:
        ConnectSwitch(left, right, low, high, idx, destinations, topology);
        forall r: nat | low <= r < idx ensures RowSwitched(left, right, low, high, destinations, topology, r) {
          assert old@Before(RowSwitched(left, right, low, high, destinations, topology, r));
        }
        idx := idx + 2;
        i := i + 1;
      }
    }

    /** Odd sizes: the last wire is straight on both sides.  Even sizes: the last switch of the
        first column is replaced by straight edges. */
    static method ConnectLastWires(left: nat, right: nat, low: nat, high: nat,
                                   destinations: seq<nat>, topology: array2<Cell>)
      requires left < right < topology.Length0 && low + 2 <= high < topology.Length1
      requires |destinations| == high - low + 1
      requires (high - low) % 2 == 1 ==>
                 topology[left, high - 1] == SwitchCell(low, high, high - 1)
                   && topology[left, high] == SwitchCell(low, high, high)
      modifies topology
      ensures topology[left, high] == LeftCell(low, high, high)
      ensures (high - low) % 2 == 1 ==> topology[left, high - 1] == LeftCell(low, high, high - 1)
      ensures (high - low) % 2 == 0 ==> topology[right, high] == OutputCell(low, high, destinations, high)
      ensures forall c, r | 0 <= c < topology.Length0 && 0 <= r < topology.Length1 ::
                !(if (high - low) % 2 == 0 then r == high && (c == left || c == right)
                  else c == left && high - 1 <= r <= high)
                ==> topology[c, r] == old(topology[c, r])
    {
      if (high - low + 1) % 2 == 1 {
        topology[left, high] := (high, high);
        topology[right, high] := (destinations[high - low], destinations[high - low]);
      } else {
        topology[left, high - 1] := (topology[left, high - 1].0, topology[left, high - 1].0);
        topology[left, high] := (topology[left, high].0, topology[left, high].0);
      }
    }

    /** A switch of the first column and the switch of the last column in the same rows. */
    static method ConnectSwitch(left: nat, right: nat, low: nat, high: nat, idx: nat,
                                destinations: seq<nat>, topology: array2<Cell>)
      requires left < right < topology.Length0 && low <= idx < high < topology.Length1
      requires (idx - low) % 2 == 0 && |destinations| == high - low + 1
      modifies topology
      ensures RowSwitched(left, right, low, high, destinations, topology, idx)
      ensures RowSwitched(left, right, low, high, destinations, topology, idx + 1)
      ensures forall c, r | 0 <= c < topology.Length0 && 0 <= r < topology.Length1 ::
                !((c == left || c == right) && idx <= r <= idx + 1) ==> topology[c, r] == old(topology[c, r])
    {
      ConnectLeftSwitch(left, low, high, idx, topology);
      ConnectRightSwitch(right, low, high, idx, destinations, topology);
    }

    static method ConnectLeftSwitch(left: nat, low: nat, high: nat, idx: nat, topology: array2<Cell>)
      requires left < topology.Length0 && low <= idx < high < topology.Length1 && (idx - low) % 2 == 0
      modifies topology
      ensures topology[left, idx] == SwitchCell(low, high, idx)
      ensures topology[left, idx + 1] == SwitchCell(low, high, idx + 1)
      ensures forall c, r | 0 <= c < topology.Length0 && 0 <= r < topology.Length1 ::
                !(c == left && idx <= r <= idx + 1) ==> topology[c, r] == old(topology[c, r])
    {
      var topIdx := InOutIndex(high - low + 1, low, idx, true);
      topology[left, idx] := (topIdx, topology[left, idx].1);
      topology[left, idx + 1] := (topology[left, idx + 1].0, topIdx);

      var bottomIdx := InOutIndex(high - low + 1, low, idx, false);
      topology[left, idx] := (topology[left, idx].0, bottomIdx);
      topology[left, idx + 1] := (bottomIdx, topology[left, idx + 1].1);
    }

    static method ConnectRightSwitch(right: nat, low: nat, high: nat, idx: nat,
                                     destinations: seq<nat>, topology: array2<Cell>)
      requires right < topology.Length0 && low <= idx < high < topology.Length1
      requires (idx - low) % 2 == 0 && |destinations| == high - low + 1
      modifies topology
      ensures topology[right, idx] == OutputCell(low, high, destinations, idx)
      ensures topology[right, idx + 1] == OutputCell(low, high, destinations, idx + 1)
      ensures forall c, r | 0 <= c < topology.Length0 && 0 <= r < topology.Length1 ::
                !(c == right && idx <= r <= idx + 1) ==> topology[c, r] == old(topology[c, r])
    {
      topology[right, idx] := (destinations[idx - low], destinations[idx + 1 - low]);
      topology[right, idx + 1] := (destinations[idx + 1 - low], destinations[idx - low]);
    }
  }
}
