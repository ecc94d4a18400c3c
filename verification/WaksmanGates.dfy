/** How many switches an AS-Waksman network has, and the flat list of their settings. */
module WaksmanGates {
  import opened WaksmanShape

  /** The number of switches stored in a list of columns. */
  ghost function Gates(s: Switches): nat {
    if |s| == 0 then 0 else Gates(s[..|s| - 1]) + |s[|s| - 1]|
  }

  ghost function SumOfLogs(n: nat): nat {
    if n == 0 then 0 else SumOfLogs(n - 1) + CeilLog2(n)
  }

  /** Halving a network of `n` wires takes `n - 1` switches, and the sum of logarithms agrees. */
  lemma {:induction false} SumOfLogsHalves(n: nat)
    requires n > 0
    ensures SumOfLogs(n) == n - 1 + SumOfLogs(n / 2) + SumOfLogs(n - n / 2)
  {
    if n > 1 {
      SumOfLogsHalves(n - 1);
      assert CeilLog2(n) == 1 + CeilLog2((n + 1) / 2);
      if n % 2 == 0 {
        assert (n - 1) / 2 == n / 2 - 1 && (n - 1) - (n - 1) / 2 == n / 2 && (n + 1) / 2 == n / 2;
      } else {
        assert (n - 1) / 2 == n / 2 && (n + 1) / 2 == n - n / 2;
      }
    }
  }

  lemma {:induction false} SwitchRowsCount(low: nat, count: nat)
    ensures |SwitchRows(low, count)| == count
  {
    if count == 0 {
      assert SwitchRows(low, 0) == {};
    } else {
      SwitchRowsCount(low, count - 1);
      var last := low + 2 * (count - 1);
      assert SwitchRows(low, count) == SwitchRows(low, count - 1) + {last};
      assert last !in SwitchRows(low, count - 1);
    }
  }

  /** The switch positions of a network in its columns before `c`. */
  ghost function KeyCount(net: Net, c: nat): nat
    requires net.Valid()
  {
    if c == 0 then 0 else KeyCount(net, c - 1) + |Keys(net, c - 1)|
  }

  lemma {:induction false} CountSplit(net: Net, c: nat)
    requires net.Valid() && net.Split? && c <= net.right
    ensures KeyCount(net, c) == KeyCount(net.top, c) + KeyCount(net.bottom, c)
                                + (if c <= net.left then 0 else (net.high - net.low) / 2)
  {
    if c > 0 {
      CountSplit(net, c - 1);
      SwitchRowsCount(net.low, (net.high - net.low) / 2);
      HalvesDisjoint(net, c - 1);
    }
  }

  lemma HalvesDisjoint(net: Net, c: nat)
    requires net.Valid() && net.Split?
    ensures |Keys(net.top, c) + Keys(net.bottom, c)| == |Keys(net.top, c)| + |Keys(net.bottom, c)|
  {
    forall k | k in Keys(net.top, c) ensures k !in Keys(net.bottom, c) {
      KeysInRange(net.top, c, k);
      if k in Keys(net.bottom, c) { KeysInRange(net.bottom, c, k); }
    }
  }

  lemma {:induction false} CountOutside(net: Net, inner: Net, c: nat)
    requires net.Valid() && (net.Pad? && inner == net.inner)
    ensures KeyCount(net, c) == KeyCount(inner, c)
  {
    if c > 0 {
      CountOutside(net, inner, c - 1);
    }
  }

  lemma {:induction false} CountBeyond(net: Net, c: nat)
    requires net.Valid() && c > net.right && net.left <= net.right
    ensures KeyCount(net, c) == KeyCount(net, net.right + 1)
  {
    if c > net.right + 1 {
      CountBeyond(net, c - 1);
    }
  }

  lemma {:induction false} CountBefore(net: Net, c: nat)
    requires net.Valid() && (c <= net.left || net.left > net.right)
    ensures KeyCount(net, c) == 0
  {
    if c > 0 {
      CountBefore(net, c - 1);
    }
  }

  /** A network of n rows has the sum of ceil(log2 i) for i = 1..n switches. */
  lemma {:induction false} CountIsSumOfLogs(net: Net, c: nat)
    requires net.Valid() && c > net.right
    ensures KeyCount(net, c) == SumOfLogs(net.high - net.low + 1)
  {
    match net
    case Wire(_, _, _, _) =>
      CountBefore(net, c);
      assert SumOfLogs(1) == 0;
    case Pad(_, _, _, _, inner) =>
      CountOutside(net, inner, c);
      CountIsSumOfLogs(inner, c);
    case Cross(left, right, _, _) =>
      CountBeyond(net, c);
      CountBefore(net, left);
      assert SumOfLogs(2) == SumOfLogs(1) + CeilLog2(2) == 1;
    case Split(_, right, _, _, top, bottom) =>
      CountBeyond(net, c);
      CountColumns(net);
      CountIsSumOfLogs(top, right);
      CountIsSumOfLogs(bottom, right);
      SumOfHalves(net);
  }

  lemma SumOfHalves(net: Net)
    requires net.Valid() && net.Split?
    ensures SumOfLogs(net.high - net.low + 1)
         == net.high - net.low + SumOfLogs(net.top.high - net.top.low + 1)
           + SumOfLogs(net.bottom.high - net.bottom.low + 1)
  {
    var n := net.high - net.low + 1;
    SumOfLogsHalves(n);
    assert net.top.high - net.top.low + 1 == n / 2 && net.bottom.high - net.bottom.low + 1 == n - n / 2;
  }

  /** The two outer columns of a split network have one switch less than it has rows. */
  lemma CountColumns(net: Net)
    requires net.Valid() && net.Split?
    ensures KeyCount(net, net.right + 1)
         == net.high - net.low + KeyCount(net.top, net.right) + KeyCount(net.bottom, net.right)
  {
    CountSplit(net, net.right);
    SwitchRowsCount(net.low, (net.high - net.low + 1) / 2);
  }

  /** Every column holds exactly the expected switches, inside the network and outside. */
  ghost predicate ColumnsKeyed(net: Net, s: Switches)
    requires net.Valid()
  {
    net.right < |s| && forall c: nat | c < |s| :: ColumnKeyed(net, s, c)
  }

  ghost predicate ColumnKeyed(net: Net, s: Switches, c: nat)
    requires net.Valid() && c < |s|
  {
    s[c].Keys == Keys(net, c)
  }

  lemma ColumnsKeyedIsKeyed(net: Net, s: Switches)
    requires net.Valid() && ColumnsKeyed(net, s)
    ensures Keyed(net, s)
  {
    forall c, k | net.left <= c <= net.right && net.low <= k <= net.high
      ensures k in s[c] <==> k in Keys(net, c)
    {
      assert ColumnKeyed(net, s, c);
    }
  }

  lemma {:induction false} GatesAreKeys(net: Net, s: Switches, c: nat)
    requires net.Valid() && ColumnsKeyed(net, s) && c <= |s|
    ensures Gates(s[..c]) == KeyCount(net, c)
  {
    if c > 0 {
      GatesAreKeys(net, s, c - 1);
      assert s[..c][..c - 1] == s[..c - 1];
      assert ColumnKeyed(net, s, c - 1);
      assert |s[c - 1]| == |s[c - 1].Keys|;
    }
  }

  /** A network of n wires stores the sum of ceil(log2 i) for i = 1..n switches. */
  lemma GateCount(net: Net, size: nat, s: Switches)
    requires Network(net, size) && ColumnsKeyed(net, s) && |s| == net.right + 1
    ensures Gates(s) == SumOfLogs(size)
  {
    GatesAreKeys(net, s, |s|);
    assert s[..|s|] == s;
    CountIsSumOfLogs(net, |s|);
  }

  lemma SameKeys(net: Net, s: Switches, t: Switches)
    requires net.Valid() && ColumnsKeyed(net, s) && |s| == |t| && forall c | 0 <= c < |s| :: t[c].Keys == s[c].Keys
    ensures ColumnsKeyed(net, t)
  {
    forall c: nat | c < |t| ensures ColumnKeyed(net, t, c) {
      assert ColumnKeyed(net, s, c);
    }
  }

  lemma BothKeyed(net: Net, s: Switches, t: Switches)
    requires net.Valid() && ColumnsKeyed(net, s) && ColumnsKeyed(net, t) && |s| == |t|
    ensures forall c | 0 <= c < |s| :: t[c].Keys == s[c].Keys
  {
    forall c: nat | c < |s| ensures t[c].Keys == s[c].Keys {
      assert ColumnKeyed(net, s, c) && ColumnKeyed(net, t, c);
    }
  }

  // ---- The flat list ----

  lemma {:induction false} LargestOf(keys: set<nat>) returns (k: nat)
    requires keys != {}
    ensures k in keys && forall j | j in keys :: j <= k
  {
    k :| k in keys;
    var rest := keys - {k};
    assert forall j | j in keys :: j == k || j in rest;
    if rest != {} {
      var m := LargestOf(rest);
      k := if k < m then m else k;
    }
  }

  lemma LargestExists(keys: set<nat>)
    requires keys != {}
    ensures exists k | k in keys :: forall j | j in keys :: j <= k
  {
    var k := LargestOf(keys);
  }

  ghost function Largest(keys: set<nat>): (k: nat)
    requires keys != {}
    ensures k in keys && forall j | j in keys :: j <= k
  {
    LargestExists(keys);
    var k :| k in keys && forall j | j in keys :: j <= k;
    k
  }

  /** The keys of a column from the bottom row up. */
  ghost function Descending(keys: set<nat>): (ks: seq<nat>)
    ensures |ks| == |keys| && forall k :: k in ks <==> k in keys
  {
    if keys == {} then [] else
      var k := Largest(keys);
      assert keys == {k} + (keys - {k});
      [k] + Descending(keys - {k})
  }

  lemma DescendingHead(keys: set<nat>, k: nat)
    requires k in keys && forall j | j in keys :: j <= k
    ensures Descending(keys) == [k] + Descending(keys - {k})
  {
    var largest := Largest(keys);
    assert largest <= k <= largest;
  }

  lemma Shift<T>(all: seq<T>, before: seq<T>, x: T, rest: seq<T>, tail: seq<T>)
    requires all == before + tail && tail == [x] + rest
    ensures all == before + [x] + rest
  {
  }

  lemma NothingLeft(all: seq<nat>, before: seq<nat>)
    requires all == before + Descending({})
    ensures all == before
  {
  }

  ghost predicate StrictlyDown(ks: seq<nat>) {
    forall i, j | 0 <= i < j < |ks| :: ks[i] > ks[j]
  }

  lemma {:induction false} DescendingDistinct(keys: set<nat>)
    ensures StrictlyDown(Descending(keys))
  {
    if keys != {} {
      var k := Largest(keys);
      DescendingDistinct(keys - {k});
      var ks, rest := Descending(keys), Descending(keys - {k});
      assert ks == [k] + rest;
      forall j | 0 < j < |ks| ensures ks[j] < k {
        assert ks[j] == rest[j - 1] && rest[j - 1] in rest;
      }
    }
  }

  ghost function Values(m: map<nat, bool>, ks: seq<nat>): (bits: seq<bool>)
    requires forall k | k in ks :: k in m
    ensures |bits| == |ks| && forall j | 0 <= j < |ks| :: bits[j] == m[ks[j]]
  {
    seq(|ks|, j requires 0 <= j < |ks| => m[ks[j]])
  }

  lemma SameValues(m: map<nat, bool>, ks: seq<nat>, bits: seq<bool>)
    requires |bits| == |ks| && (forall k | k in ks :: k in m) && forall j | 0 <= j < |ks| :: bits[j] == m[ks[j]]
    ensures bits == Values(m, ks)
  {
  }

  /** All settings, column by column. */
  ghost function Dump(s: Switches): (bits: seq<bool>)
    ensures |bits| == Gates(s)
  {
    if |s| == 0 then [] else
      var m := s[|s| - 1];
      assert |m| == |m.Keys|;
      Dump(s[..|s| - 1]) + Values(m, Descending(m.Keys))
  }

  lemma {:induction false} GatesOfPrefix(s: Switches, c: nat)
    requires c < |s|
    ensures Gates(s[..c]) + |s[c]| == Gates(s[..c + 1]) <= Gates(s)
    decreases |s| - c
  {
    assert s[..c + 1][..c] == s[..c];
    if c + 1 < |s| {
      GatesOfPrefix(s, c + 1);
    } else {
      assert s[..c + 1] == s;
    }
  }

  lemma DumpOfPrefix(s: Switches, c: nat)
    requires c < |s|
    ensures Dump(s[..c + 1]) == Dump(s[..c]) + Values(s[c], Descending(s[c].Keys))
  {
    assert s[..c + 1][..c] == s[..c];
  }

  /** The same switches in every column, and from column `c` on the same settings. */
  ghost predicate SwitchesKept(s: Switches, t: Switches, c: nat) {
    |s| == |t| && (forall k | 0 <= k < |s| :: t[k].Keys == s[k].Keys) && forall k | c <= k < |s| :: t[k] == s[k]
  }

  /** The columns before `c` have got the settings up to `i`. */
  ghost predicate Assigned(s: Switches, t: Switches, bits: seq<bool>, c: nat, i: nat) {
    c <= |s| && SwitchesKept(s, t, c) && i == Gates(s[..c]) <= Gates(s) == |bits| && Dump(t[..c]) == bits[..i]
  }

  lemma ColumnLeft(s: Switches, t: Switches, bits: seq<bool>, c: nat, i: nat)
    requires c < |s| && Assigned(s, t, bits, c, i)
    ensures |t| == |s| && t[c] == s[c] && i + |s[c]| <= |bits|
  {
    GatesOfPrefix(s, c);
  }

  lemma AssignedNext(s: Switches, t: Switches, bits: seq<bool>, c: nat, column: map<nat, bool>, i: nat, next: nat)
    requires c < |s| && Assigned(s, t, bits, c, i) && next == i + |s[c]| <= |bits|
    requires column.Keys == t[c].Keys && Values(column, Descending(column.Keys)) == bits[i..next]
    ensures Assigned(s, t[c := column], bits, c + 1, next)
  {
    GatesOfPrefix(s, c);
    DumpNext(t, bits, c, column, i, next);
    KeptNext(s, t, c, column);
  }

  lemma DumpNext(t: Switches, bits: seq<bool>, c: nat, column: map<nat, bool>, i: nat, next: nat)
    requires c < |t| && i <= next <= |bits| && Dump(t[..c]) == bits[..i]
    requires Values(column, Descending(column.Keys)) == bits[i..next]
    ensures Dump(t[c := column][..c + 1]) == bits[..next]
  {
    assert t[c := column][..c + 1] == t[..c] + [column];
    DumpAppend(t[..c], column);
    Joined(bits, i, next);
  }

  lemma KeptNext(s: Switches, t: Switches, c: nat, column: map<nat, bool>)
    requires c < |s| && SwitchesKept(s, t, c) && column.Keys == t[c].Keys
    ensures SwitchesKept(s, t[c := column], c + 1)
  {
  }

  lemma AllAssigned(s: Switches, t: Switches, bits: seq<bool>, i: nat)
    requires Assigned(s, t, bits, |s|, i)
    ensures Dump(t) == bits && forall c | 0 <= c < |s| :: t[c].Keys == s[c].Keys
  {
    assert s[..|s|] == s && t[..|s|] == t && bits[..i] == bits;
  }

  lemma Joined<T>(bits: seq<T>, i: nat, next: nat)
    requires i <= next <= |bits|
    ensures bits[..i] + bits[i..next] == bits[..next]
  {
  }

  lemma DumpAppend(s: Switches, column: map<nat, bool>)
    ensures Dump(s + [column]) == Dump(s) + Values(column, Descending(column.Keys))
  {
    assert (s + [column])[..|s|] == s;
  }

  /** The settings of the switches of one column decide the column. */
  lemma ValuesDetermine(m: map<nat, bool>, m': map<nat, bool>)
    requires m.Keys == m'.Keys && Values(m, Descending(m.Keys)) == Values(m', Descending(m.Keys))
    ensures m == m'
  {
    var ks := Descending(m.Keys);
    forall k | k in m ensures m[k] == m'[k] {
      assert k in ks;
      var j :| 0 <= j < |ks| && ks[j] == k;
      assert Values(m, ks)[j] == Values(m', ks)[j];
    }
  }

  lemma DumpSplits(s: Switches)
    requires |s| > 0
    ensures var d := Gates(s[..|s| - 1]);
            && d <= |Dump(s)| && Dump(s)[..d] == Dump(s[..|s| - 1])
            && Dump(s)[d..] == Values(s[|s| - 1], Descending(s[|s| - 1].Keys))
  {
  }

  lemma {:induction false} SameGates(s: Switches, t: Switches)
    requires |s| == |t| && forall c | 0 <= c < |s| :: s[c].Keys == t[c].Keys
    ensures Gates(s) == Gates(t)
  {
    if |s| > 0 {
      SameGates(s[..|s| - 1], t[..|s| - 1]);
      assert |s[|s| - 1].Keys| == |s[|s| - 1]| && |t[|s| - 1].Keys| == |t[|s| - 1]|;
    }
  }

  lemma DumpsAgree(s: Switches, t: Switches)
    requires |s| == |t| > 0 && (forall c | 0 <= c < |s| :: s[c].Keys == t[c].Keys) && Dump(s) == Dump(t)
    ensures Dump(s[..|s| - 1]) == Dump(t[..|s| - 1])
    ensures s[|s| - 1] == t[|s| - 1]
  {
    var c := |s| - 1;
    SameGates(s[..c], t[..c]);
    DumpSplits(s);
    DumpSplits(t);
    ValuesDetermine(s[c], t[c]);
  }

  /** With the same switch positions, the flat list decides all settings. */
  lemma {:induction false} DumpDetermines(s: Switches, t: Switches)
    requires |s| == |t| && (forall c | 0 <= c < |s| :: s[c].Keys == t[c].Keys) && Dump(s) == Dump(t)
    ensures s == t
  {
    if |s| > 0 {
      var c := |s| - 1;
      DumpsAgree(s, t);
      DumpDetermines(s[..c], t[..c]);
      assert s == s[..c] + [s[c]] && t == t[..c] + [t[c]];
    }
  }
}
