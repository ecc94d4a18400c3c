/** The recursive rectangles of an AS-Waksman network, the arithmetic of its switches, and
    the meaning of a switch assignment: which output each input reaches.

    A rectangle spans the columns `left..=right` and the rows `low..=high`.  A wire entering
    a proper rectangle meets one switch on its left side, travels through the top or the
    bottom half, and meets one switch on its right side. */
module WaksmanShape {

  type Switches = seq<map<nat, bool>>

  /** The least k with `n <= 2^k`. */
  function CeilLog2(n: nat): nat
    requires n > 0
  {
    if n == 1 then 0 else 1 + CeilLog2((n + 1) / 2)
  }

  function NumColumns(size: nat): nat {
    if size <= 1 then 0 else 2 * CeilLog2(size) - 1
  }

  lemma {:induction false} CeilLog2Monotone(a: nat, b: nat)
    requires 0 < a <= b
    ensures CeilLog2(a) <= CeilLog2(b)
    decreases b
  {
    if a > 1 {
      CeilLog2Monotone((a + 1) / 2, (b + 1) / 2);
    }
  }

  /** The two halves of a proper rectangle fit between its first and its last column. */
  lemma HalvesFit(n: nat)
    requires n >= 3
    ensures NumColumns(n / 2) + 2 <= NumColumns(n)
    ensures NumColumns(n - n / 2) + 2 <= NumColumns(n)
    ensures NumColumns(n) >= 3
  {
    assert n - n / 2 == (n + 1) / 2;
    assert CeilLog2(n) == 1 + CeilLog2((n + 1) / 2);
    assert CeilLog2((n + 1) / 2) == 1 + CeilLog2(((n + 1) / 2 + 1) / 2);
    if n / 2 > 1 {
      CeilLog2Monotone(n / 2, (n + 1) / 2);
    }
  }

  /** The shapes the construction meets: enough columns for the rows, an odd number of them,
      and the outermost rectangle (the only one in column 0) exactly as wide as it has to be. */
  predicate Rect(left: nat, right: nat, low: nat, high: nat) {
    && low <= high
    && (left + right) % 2 == 0
    && (left <= right ==> right - left + 1 >= NumColumns(high - low + 1))
    && (left > right ==> low == high)
    && (left == 0 ==> low < high && right + 1 == NumColumns(high - low + 1))
  }

  predicate Padded(left: nat, right: nat, low: nat, high: nat)
    requires left <= right && low <= high
  {
    right - left + 1 > NumColumns(high - low + 1)
  }

  lemma PaddedRect(left: nat, right: nat, low: nat, high: nat)
    requires Rect(left, right, low, high) && left <= right && Padded(left, right, low, high)
    ensures left > 0 && right > 0 && Rect(left + 1, right - 1, low, high)
  {
    assert left > 0;
    assert NumColumns(2) == 1;
    if high > low {
      CeilLog2Monotone(2, high - low + 1);
      assert CeilLog2(2) == 1;
    }
  }

  /** The first row of the bottom half of a rectangle. */
  function Mid(low: nat, high: nat): nat
    requires low <= high
  {
    low + (high - low + 1) / 2
  }

  lemma HalfRects(left: nat, right: nat, low: nat, high: nat)
    requires Rect(left, right, low, high) && left <= right
    requires !Padded(left, right, low, high) && high - low + 1 > 2
    ensures left + 1 < right && low < Mid(low, high) <= high
    ensures Rect(left + 1, right - 1, low, Mid(low, high) - 1)
    ensures Rect(left + 1, right - 1, Mid(low, high), high)
  {
    HalvesFit(high - low + 1);
  }

  lemma OneSwitchColumn(left: nat, right: nat, low: nat, high: nat)
    requires Rect(left, right, low, high) && left <= right
    requires !Padded(left, right, low, high) && high - low + 1 <= 2
    ensures left == right && high == low + 1
  {
    assert CeilLog2(2) == 1;
  }

  /** The recursion of the construction as a value: nothing left to cross, a rectangle with
      straight first and last columns, a single switch, or two half-size networks between two
      columns of switches. */
  datatype Net =
    | Wire(left: nat, right: nat, low: nat, high: nat)
    | Pad(left: nat, right: nat, low: nat, high: nat, inner: Net)
    | Cross(left: nat, right: nat, low: nat, high: nat)
    | Split(left: nat, right: nat, low: nat, high: nat, top: Net, bottom: Net)
  {
    ghost predicate Spans(left: nat, right: nat, low: nat, high: nat) {
      this.left == left && this.right == right && this.low == low && this.high == high
    }

    ghost predicate Valid() {
      && low <= high
      && match this
         case Wire(_, _, _, _) => left > right && low == high
         case Pad(_, _, _, _, inner) =>
           && 0 < left <= right && right != left + 1
           && inner.Spans(left + 1, right - 1, low, high) && inner.Valid()
         case Cross(_, _, _, _) => left == right && high == low + 1
         case Split(_, _, _, _, top, bottom) =>
           && left + 1 < right && low + 2 <= high
           && top.Spans(left + 1, right - 1, low, Mid(low, high) - 1) && top.Valid()
           && bottom.Spans(left + 1, right - 1, Mid(low, high), high) && bottom.Valid()
    }

    /** Padded exactly where there are more columns than the rows need. */
    ghost predicate Built() {
      match this
      case Wire(_, _, _, _) => true
      case Pad(left, right, low, high, inner) =>
        low <= high && right - left + 1 > NumColumns(high - low + 1) && inner.Built()
      case Cross(_, _, _, _) => true
      case Split(left, right, low, high, top, bottom) =>
        low <= high && right - left + 1 <= NumColumns(high - low + 1) && top.Built() && bottom.Built()
    }
  }

  /** The network the construction lays into a rectangle. */
  ghost function NetOf(left: nat, right: nat, low: nat, high: nat): (net: Net)
    requires Rect(left, right, low, high)
    ensures net.Valid() && net.Spans(left, right, low, high)
    decreases right - left + 1, high - low
  {
    if left > right then Wire(left, right, low, high)
    else if Padded(left, right, low, high) then
      PaddedRect(left, right, low, high);
      Pad(left, right, low, high, NetOf(left + 1, right - 1, low, high))
    else if high - low + 1 <= 2 then
      OneSwitchColumn(left, right, low, high);
      Cross(left, right, low, high)
    else
      HalfRects(left, right, low, high);
      Split(left, right, low, high,
            NetOf(left + 1, right - 1, low, Mid(low, high) - 1),
            NetOf(left + 1, right - 1, Mid(low, high), high))
  }

  lemma {:induction false} NetOfIsBuilt(left: nat, right: nat, low: nat, high: nat)
    requires Rect(left, right, low, high)
    ensures NetOf(left, right, low, high).Built()
    decreases right - left + 1
  {
    if left <= right {
      if Padded(left, right, low, high) {
        PaddedRect(left, right, low, high);
        NetOfIsBuilt(left + 1, right - 1, low, high);
      } else if high - low + 1 > 2 {
        HalfRects(left, right, low, high);
        NetOfIsBuilt(left + 1, right - 1, low, Mid(low, high) - 1);
        NetOfIsBuilt(left + 1, right - 1, Mid(low, high), high);
      }
    }
  }

  lemma {:induction false} BuiltUnique(a: Net, b: Net)
    requires a.Valid() && b.Valid() && a.Built() && b.Built() && b.Spans(a.left, a.right, a.low, a.high)
    ensures a == b
  {
    assert CeilLog2(2) == 1;
    match a
    case Wire(_, _, _, _) =>
    case Pad(_, _, _, _, inner) => BuiltUnique(inner, b.inner);
    case Cross(_, _, _, _) =>
    case Split(_, _, _, _, top, bottom) =>
      BuiltUnique(top, b.top);
      BuiltUnique(bottom, b.bottom);
  }

  /** The network of `size` wires, over the whole grid. */
  ghost predicate Network(net: Net, size: nat) {
    && size > 1 && net.Valid() && net.Built()
    && net.left == 0 && net.low == 0 && net.high + 1 == size && net.right + 1 == NumColumns(size)
  }

  lemma TheNetwork(size: nat, right: nat) returns (net: Net)
    requires size > 1 && right + 1 == NumColumns(size)
    ensures Rect(0, right, 0, size - 1) && net == NetOf(0, right, 0, size - 1) && Network(net, size)
  {
    net := NetOf(0, right, 0, size - 1);
    NetOfIsBuilt(0, right, 0, size - 1);
  }

  /** The size decides the network. */
  lemma OneNetwork(a: Net, b: Net, size: nat)
    requires Network(a, size) && Network(b, size)
    ensures a == b
  {
    BuiltUnique(a, b);
  }

  lemma NetworkHasColumns(size: nat)
    requires size > 1
    ensures NumColumns(size) > 0
  {
    assert CeilLog2(size) >= 1;
  }

  // ---- Switches of one column ----

  /** Rounds the distance to `offset` down to an even number: the upper wire of the switch. */
  function CanonicalRow(offset: nat, row: nat): (r: nat)
    requires offset <= row
    ensures offset <= r <= row <= r + 1 && (r - offset) % 2 == 0
  {
    (row - offset) - (row - offset) % 2 + offset
  }

  function OtherPosition(offset: nat, packet: nat): (o: nat)
    requires offset <= packet
    ensures offset <= o && o != packet
  {
    var row := CanonicalRow(offset, packet);
    (1 - (packet - row)) + row
  }

  function SettingFromDecision(offset: nat, packet: nat, isTop: bool): (isOn: bool)
    requires offset <= packet
    ensures DecisionFromSetting(offset, packet, isOn) == isTop
  {
    (packet == CanonicalRow(offset, packet)) != isTop
  }

  function DecisionFromSetting(offset: nat, packet: nat, isOn: bool): (isTop: bool)
    requires offset <= packet
  {
    (CanonicalRow(offset, packet) == packet) != isOn
  }

  /** The row of a half-size network to which the switch at `index` sends one of its wires. */
  function InOutIndex(size: nat, offset: nat, index: nat, isTop: bool): (r: nat)
    requires offset <= index && (index - offset) % 2 == 0 && index - offset + 1 < size
    ensures r == HalfRow(size, offset, index, isTop) == HalfRow(size, offset, index + 1, isTop)
  {
    offset + (index - offset) / 2 + (if isTop then 0 else size / 2)
  }

  /** The same for either wire `w` of the switch, and for the switchless last wire. */
  function HalfRow(size: nat, offset: nat, w: nat, isTop: bool): nat
    requires offset <= w
  {
    offset + (w - offset) / 2 + (if isTop then 0 else size / 2)
  }

  predicate Straight(low: nat, high: nat, w: nat)
    requires low <= high
  {
    (high - low) % 2 == 0 && w == high
  }

  function Setting(m: map<nat, bool>, row: nat): bool {
    row in m && m[row]
  }

  /** Whether the switches `m` join wire `w` to the top half; an absent switch is off. */
  function GoesTop(low: nat, high: nat, m: map<nat, bool>, w: nat): bool
    requires low <= w <= high
  {
    !Straight(low, high, w) && DecisionFromSetting(low, w, Setting(m, CanonicalRow(low, w)))
  }

  /** The half-network row on which wire `w` of a left column continues. */
  function Enter(low: nat, high: nat, m: map<nat, bool>, w: nat): nat
    requires low <= w <= high
  {
    HalfRow(high - low + 1, low, w, GoesTop(low, high, m, w))
  }

  /** The wire of a right column that is joined to row `k` of the half-networks. */
  function Leave(low: nat, high: nat, m: map<nat, bool>, k: nat): nat
    requires low <= k <= high
  {
    var isTop := k < Mid(low, high);
    var row := low + 2 * (k - (if isTop then low else Mid(low, high)));
    if Straight(low, high, row) then high
    else if DecisionFromSetting(low, row, Setting(m, row)) == isTop then row else row + 1
  }

  /** The last even-sized switch of a left column is absent, hence off. */
  lemma EnterInRange(low: nat, high: nat, m: map<nat, bool>, w: nat)
    requires low <= w <= high
    ensures low <= Enter(low, high, m, w) <= high
    ensures Enter(low, high, m, w) < Mid(low, high) <==> GoesTop(low, high, m, w)
  {
  }

  lemma LeaveInRange(low: nat, high: nat, m: map<nat, bool>, k: nat)
    requires low <= k <= high
    ensures low <= Leave(low, high, m, k) <= high
  {
  }

  lemma EnterLeave(low: nat, high: nat, m: map<nat, bool>, k: nat)
    requires low <= k <= high
    ensures low <= Leave(low, high, m, k) <= high
    ensures Enter(low, high, m, Leave(low, high, m, k)) == k
  {
  }

  lemma LeaveEnter(low: nat, high: nat, m: map<nat, bool>, w: nat)
    requires low <= w <= high
    ensures low <= Enter(low, high, m, w) <= high
    ensures Leave(low, high, m, Enter(low, high, m, w)) == w
  {
  }

  // ---- The switches of a network ----

  ghost function SwitchRows(low: nat, count: nat): set<nat> {
    set i | 0 <= i < count :: low + 2 * i
  }

  lemma SwitchRow(low: nat, count: nat, r: nat)
    requires low <= r
    ensures r in SwitchRows(low, count) <==> (r - low) % 2 == 0 && r < low + 2 * count
  {
    if (r - low) % 2 == 0 && r < low + 2 * count {
      assert r == low + 2 * ((r - low) / 2);
    }
  }

  /** The rows of column `c` that carry the upper wire of a switch. */
  ghost function Keys(net: Net, c: nat): set<nat>
    requires net.Valid()
  {
    if c < net.left || c > net.right then {}
    else match net
      case Wire(_, _, _, _) => {}
      case Pad(_, _, _, _, inner) => Keys(inner, c)
      case Cross(_, _, low, _) => {low}
      case Split(left, right, low, high, top, bottom) =>
        if c == left then SwitchRows(low, (high - low) / 2)
        else if c == right then SwitchRows(low, (high - low + 1) / 2)
        else Keys(top, c) + Keys(bottom, c)
  }

  lemma SwitchRowsInRange(low: nat, count: nat, high: nat, k: nat)
    requires k in SwitchRows(low, count) && low + 2 * count <= high + 1
    ensures low <= k < high && k + 1 !in SwitchRows(low, count)
  {
    SwitchRow(low, count, k);
    SwitchRow(low, count, k + 1);
  }

  lemma {:induction false} KeysInRange(net: Net, c: nat, k: nat)
    requires net.Valid() && k in Keys(net, c)
    ensures net.low <= k < net.high && k + 1 !in Keys(net, c)
  {
    match net
    case Wire(_, _, _, _) =>
    case Pad(_, _, _, _, inner) => KeysInRange(inner, c, k);
    case Cross(_, _, _, _) =>
    case Split(left, right, low, high, top, bottom) =>
      if c == left {
        SwitchRowsInRange(low, (high - low) / 2, high, k);
      } else if c == right {
        SwitchRowsInRange(low, (high - low + 1) / 2, high, k);
      } else {
        if k in Keys(top, c) { KeysInRange(top, c, k); } else { KeysInRange(bottom, c, k); }
        if k + 1 in Keys(top, c) { KeysInRange(top, c, k + 1); }
        if k + 1 in Keys(bottom, c) { KeysInRange(bottom, c, k + 1); }
      }
  }

  /** Inside the network, the switches present are exactly the expected ones. */
  ghost predicate Keyed(net: Net, s: Switches)
    requires net.Valid()
  {
    && net.right < |s|
    && forall c, k | net.left <= c <= net.right && net.low <= k <= net.high ::
         k in s[c] <==> k in Keys(net, c)
  }

  lemma KeyedHalves(net: Net, s: Switches)
    requires net.Valid() && net.Split? && Keyed(net, s)
    ensures Keyed(net.top, s) && Keyed(net.bottom, s)
  {
    forall c, k | net.left < c < net.right && net.low <= k <= net.high
      ensures k < Mid(net.low, net.high) ==> (k in s[c] <==> k in Keys(net.top, c))
      ensures k >= Mid(net.low, net.high) ==> (k in s[c] <==> k in Keys(net.bottom, c))
    {
      if k in Keys(net.top, c) { KeysInRange(net.top, c, k); }
      if k in Keys(net.bottom, c) { KeysInRange(net.bottom, c, k); }
    }
  }

  // ---- Meaning of a switch assignment ----

  /** The row of the network at which the packet entering on row `i` comes out. */
  ghost function Out(net: Net, s: Switches, i: nat): (o: nat)
    requires net.Valid() && net.right < |s| && net.low <= i <= net.high
    ensures net.low <= o <= net.high
    decreases net, 1
  {
    match net
    case Wire(_, _, _, _) => i
    case Pad(_, _, _, _, inner) => Out(inner, s, i)
    case Cross(left, _, low, high) => if Setting(s[left], low) then low + high - i else i
    case Split(left, right, low, high, _, _) =>
      EnterInRange(low, high, s[left], i);
      var k := OutHalves(net, s, Enter(low, high, s[left], i));
      LeaveInRange(low, high, s[right], k);
      Leave(low, high, s[right], k)
  }

  /** The two half-size networks side by side. */
  ghost function OutHalves(net: Net, s: Switches, j: nat): (k: nat)
    requires net.Valid() && net.Split? && net.right < |s| && net.low <= j <= net.high
    ensures net.low <= k <= net.high && (j < Mid(net.low, net.high) <==> k < Mid(net.low, net.high))
    decreases net, 0
  {
    if j < Mid(net.low, net.high) then Out(net.top, s, j) else Out(net.bottom, s, j)
  }

  /** Every switch assignment whatsoever sends different inputs to different outputs. */
  lemma {:induction false} OutInjective(net: Net, s: Switches, i: nat, j: nat)
    requires net.Valid() && net.right < |s|
    requires net.low <= i <= net.high && net.low <= j <= net.high && i != j
    ensures Out(net, s, i) != Out(net, s, j)
  {
    match net
    case Wire(_, _, _, _) =>
    case Pad(_, _, _, _, inner) => OutInjective(inner, s, i, j);
    case Cross(_, _, _, _) =>
    case Split(left, right, low, high, top, bottom) =>
      LeaveEnter(low, high, s[left], i);
      LeaveEnter(low, high, s[left], j);
      var i', j' := Enter(low, high, s[left], i), Enter(low, high, s[left], j);
      if i' < Mid(low, high) && j' < Mid(low, high) {
        OutInjective(top, s, i', j');
      } else if i' >= Mid(low, high) && j' >= Mid(low, high) {
        OutInjective(bottom, s, i', j');
      }
      EnterLeave(low, high, s[right], OutHalves(net, s, i'));
      EnterLeave(low, high, s[right], OutHalves(net, s, j'));
  }

  /** Two assignments that agree inside a rectangle. */
  ghost predicate Agree(left: nat, right: nat, low: nat, high: nat, s: Switches, t: Switches) {
    && right < |s| && right < |t|
    && forall c, k | left <= c <= right && low <= k <= high ::
         (k in s[c] <==> k in t[c]) && (k in s[c] ==> s[c][k] == t[c][k])
  }

  lemma {:induction false} OutDependsOnRectangle(net: Net, s: Switches, t: Switches, i: nat)
    requires net.Valid() && Agree(net.left, net.right, net.low, net.high, s, t)
    requires net.low <= i <= net.high
    ensures Out(net, s, i) == Out(net, t, i)
  {
    match net
    case Wire(_, _, _, _) =>
    case Pad(_, _, _, _, inner) => OutDependsOnRectangle(inner, s, t, i);
    case Cross(_, _, _, _) =>
    case Split(left, right, low, high, top, bottom) =>
      SameSwitches(low, high, s[left], t[left], i);
      EnterInRange(low, high, s[left], i);
      var j := Enter(low, high, s[left], i);
      if j < Mid(low, high) {
        OutDependsOnRectangle(top, s, t, j);
      } else {
        OutDependsOnRectangle(bottom, s, t, j);
      }
      SameSwitches(low, high, s[right], t[right], OutHalves(net, s, j));
  }

  lemma SameSwitches(low: nat, high: nat, m: map<nat, bool>, m': map<nat, bool>, k: nat)
    requires low <= k <= high
    requires forall r | low <= r <= high :: (r in m <==> r in m') && (r in m ==> m[r] == m'[r])
    ensures Enter(low, high, m, k) == Enter(low, high, m', k)
    ensures Leave(low, high, m, k) == Leave(low, high, m', k)
  {
  }
}
