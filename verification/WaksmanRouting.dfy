/** Routing one level of an AS-Waksman network as AsWaksmanRoute does it: the switch maps of two
    columns, the flags of the routed wires and the two smaller permutations are updated step by
    step, and the loop is shown to be the two-colouring pass of WaksmanLooping. */
module WaksmanRouting {
  import opened Permutation
  import opened WaksmanShape
  import opened WaksmanLooping

  // ---- The colouring seen in a switch map ----

  function ToHalf(isTop: bool): Half {
    if isTop then Top else Bottom
  }

  /** The half wire `w` takes, as far as the switches `m` tell. */
  function HalfOf(low: nat, high: nat, m: map<nat, bool>, w: nat): Half
    requires low <= w <= high
  {
    var row := CanonicalRow(low, w);
    if Straight(low, high, w) then Bottom
    else if row in m then ToHalf(DecisionFromSetting(low, w, m[row]))
    else Unset
  }

  /** Setting one switch decides its two wires and leaves all others alone. */
  lemma SetSwitch(low: nat, high: nat, m: map<nat, bool>, w: nat, isTop: bool, u: nat)
    requires low <= w <= high && !Straight(low, high, w) && low <= u <= high
    ensures HalfOf(low, high, m[CanonicalRow(low, w) := SettingFromDecision(low, w, isTop)], u)
         == if u == w then ToHalf(isTop)
            else if u == OtherPosition(low, w) then ToHalf(!isTop)
            else HalfOf(low, high, m, u)
  {
  }

  /** The half-network row of wire `w` once it has half `h`. */
  function RowOf(low: nat, high: nat, w: nat, h: Half): nat
    requires low <= w <= high
  {
    HalfRow(high - low + 1, low, w, h == Top && !Straight(low, high, w))
  }

  /** The rectangle's wires, switches, permutation and rows, as the colouring sees them. */
  ghost function LevelOf(low: nat, high: nat, pi: seq<nat>, piInv: seq<nat>): Level
    requires low <= high && |pi| == |piInv| == high - low + 1
  {
    Level(low, high,
          map w: nat | low <= w <= high :: if Straight(low, high, w) then w else OtherPosition(low, w),
          map w: nat | low <= w <= high :: At(pi, low, w),
          map w: nat | low <= w <= high :: At(piInv, low, w),
          map w: nat | low <= w <= high :: (RowOf(low, high, w, Top), RowOf(low, high, w, Bottom)))
  }

  lemma OtherFacts(low: nat, high: nat, w: nat)
    requires low <= w <= high && !Straight(low, high, w)
    ensures var o := OtherPosition(low, w);
            && low <= o <= high && !Straight(low, high, o) && OtherPosition(low, o) == w
            && (o == w + 1 || w == o + 1)
  {
  }

  lemma PartnerFacts(low: nat, high: nat, pi: seq<nat>, piInv: seq<nat>, w: nat)
    requires low < high && |pi| == |piInv| == high - low + 1 && low <= w <= high
    ensures var g := LevelOf(low, high, pi, piInv);
            && g.Wire(w) && g.Partner(w) == (if Straight(low, high, w) then w else OtherPosition(low, w))
            && g.Wire(g.Partner(w)) && g.Partner(g.Partner(w)) == w
            && (g.Partner(w) == w ==> w == g.last) && w - 1 <= g.Partner(w) <= w + 1
  {
    if !Straight(low, high, w) {
      OtherFacts(low, high, w);
    }
  }

  lemma ImageFacts(low: nat, high: nat, pi: seq<nat>, piInv: seq<nat>, w: nat)
    requires low < high && |pi| == high - low + 1 && AreInverse(pi, piInv, low) && low <= w <= high
    ensures var g := LevelOf(low, high, pi, piInv);
            && g.Wire(g.Image(w)) && g.PreImage(g.Image(w)) == w
            && g.Wire(g.PreImage(w)) && g.Image(g.PreImage(w)) == w
            && g.Image(w) == At(pi, low, w) && g.PreImage(w) == At(piInv, low, w)
  {
    assert At(piInv, low, At(pi, low, w)) == w && At(pi, low, At(piInv, low, w)) == w;
  }

  lemma RowFacts(low: nat, high: nat, pi: seq<nat>, piInv: seq<nat>, w: nat, h: Half)
    requires low < high && |pi| == |piInv| == high - low + 1 && low <= w <= high
    ensures LevelOf(low, high, pi, piInv).Row(w, h) == RowOf(low, high, w, h)
    ensures low <= RowOf(low, high, w, h) <= high
    ensures RowOf(low, high, w, h) < Mid(low, high) <==> h == Top && !Straight(low, high, w)
  {
  }

  lemma SameRow(low: nat, high: nat, u: nat, h: Half, w: nat, k: Half)
    requires low < high && low <= u <= high && low <= w <= high && u != w
    requires RowOf(low, high, u, h) == RowOf(low, high, w, k)
    ensures !Straight(low, high, u) && u == OtherPosition(low, w) && !Straight(low, high, w) && (h == Top <==> k == Top)
  {
    RowIsBottom(low, high, u, h);
    RowIsBottom(low, high, w, k);
  }

  lemma RowIsBottom(low: nat, high: nat, w: nat, h: Half)
    requires low < high && low <= w <= high
    ensures RowOf(low, high, w, h) < Mid(low, high) <==> h == Top && !Straight(low, high, w)
  {
  }

  lemma LevelOfIsValid(low: nat, high: nat, pi: seq<nat>, piInv: seq<nat>)
    requires low < high && |pi| == high - low + 1 && AreInverse(pi, piInv, low)
    ensures LevelOf(low, high, pi, piInv).Valid()
  {
    var g := LevelOf(low, high, pi, piInv);
    forall w: nat | g.Wire(w)
      ensures g.Wire(g.Partner(w)) && g.Partner(g.Partner(w)) == w && (g.Partner(w) == w ==> w == g.last)
      ensures w - 1 <= g.Partner(w) <= w + 1
    {
      PartnerFacts(low, high, pi, piInv, w);
    }
    forall w: nat | g.Wire(w)
      ensures g.Wire(g.Image(w)) && g.PreImage(g.Image(w)) == w
      ensures g.Wire(g.PreImage(w)) && g.Image(g.PreImage(w)) == w
    {
      ImageFacts(low, high, pi, piInv, w);
    }
    forall w: nat, h: Half | g.Wire(w) ensures low <= g.Row(w, h) <= high {
      RowFacts(low, high, pi, piInv, w, h);
    }
    forall u: nat, w: nat, h: Half, k: Half ensures g.RowsDiffer(u, h, w, k) {
      if g.Wire(u) && g.Wire(w) && u != w && g.Row(u, h) == g.Row(w, k) {
        RowFacts(low, high, pi, piInv, u, h);
        RowFacts(low, high, pi, piInv, w, k);
        SameRow(low, high, u, h, w, k);
      }
    }
  }

  // ---- The maps, flags and lists as a state of the colouring ----

  /** The level `g` describes wire `w` of the rectangle. */
  ghost predicate Describes(low: nat, high: nat, pi: seq<nat>, piInv: seq<nat>, g: Level, w: nat)
    requires low <= high && |pi| == |piInv| == high - low + 1
  {
    && (g.Wire(w) <==> low <= w <= high)
    && (low <= w <= high ==>
          && g.Partner(w) == (if Straight(low, high, w) then w else OtherPosition(low, w))
          && g.Image(w) == At(pi, low, w) && g.PreImage(w) == At(piInv, low, w)
          && g.Row(w, Top) == RowOf(low, high, w, Top) && g.Row(w, Bottom) == RowOf(low, high, w, Bottom))
  }

  lemma LevelOfDescribes(low: nat, high: nat, pi: seq<nat>, piInv: seq<nat>, w: nat)
    requires low < high && |pi| == high - low + 1 && AreInverse(pi, piInv, low)
    ensures Describes(low, high, pi, piInv, LevelOf(low, high, pi, piInv), w)
  {
    if low <= w <= high {
      PartnerFacts(low, high, pi, piInv, w);
      ImageFacts(low, high, pi, piInv, w);
      RowFacts(low, high, pi, piInv, w, Top);
      RowFacts(low, high, pi, piInv, w, Bottom);
    }
  }

  lemma LevelIsDescribed(low: nat, high: nat, pi: seq<nat>, piInv: seq<nat>) returns (g: Level)
    requires low < high && |pi| == high - low + 1 && AreInverse(pi, piInv, low)
    ensures g.Valid() && g.low == low && g.last == high
    ensures forall w: nat :: Describes(low, high, pi, piInv, g, w)
  {
    g := LevelOf(low, high, pi, piInv);
    LevelOfIsValid(low, high, pi, piInv);
    forall w: nat ensures Describes(low, high, pi, piInv, g, w) {
      LevelOfDescribes(low, high, pi, piInv, w);
    }
  }

  /** The state `s` has the halves that the switch maps give to wire `w`, and its flag. */
  ghost predicate Reflects(low: nat, high: nat, lhs: map<nat, bool>, rhs: map<nat, bool>, routed: seq<bool>,
                           s: State, w: nat)
    requires |routed| == high + 1 - low
  {
    low <= w <= high ==>
      && s.L(w) == HalfOf(low, high, lhs, w) && s.R(w) == HalfOf(low, high, rhs, w)
      && (s.Done(w) <==> routed[w - low])
  }

  /** Switches are stored at the rows of their upper wires. */
  ghost predicate KeysFit(low: nat, high: nat, m: map<nat, bool>) {
    forall k: nat | k in m && low <= k <= high :: (k - low) % 2 == 0 && k < high
  }

  /** Keys of other rectangles in the same column are left alone. */
  ghost predicate OthersKept(low: nat, high: nat, m: map<nat, bool>, m': map<nat, bool>) {
    forall k: nat | !(low <= k <= high) :: (k in m <==> k in m') && (k in m ==> m[k] == m'[k])
  }

  /** The maps, flags and lists are those of the state `s`. */
  ghost predicate Tracks(low: nat, high: nat, lhs: map<nat, bool>, rhs: map<nat, bool>, routed: seq<bool>,
                         perm: seq<nat>, permInv: seq<nat>, s: State)
  {
    && |routed| == high + 1 - low && KeysFit(low, high, lhs) && KeysFit(low, high, rhs)
    && s.perm == perm && s.permInv == permInv
    && forall u: nat :: Reflects(low, high, lhs, rhs, routed, s, u)
  }

  lemma TrackedDone(low: nat, high: nat, lhs: map<nat, bool>, rhs: map<nat, bool>, routed: seq<bool>,
                    perm: seq<nat>, permInv: seq<nat>, s: State, w: nat)
    requires Tracks(low, high, lhs, rhs, routed, perm, permInv, s) && low <= w <= high
    ensures |routed| == high + 1 - low && (s.Done(w) <==> routed[w - low])
  {
    assert Reflects(low, high, lhs, rhs, routed, s, w);
  }

  lemma TrackSetLeft(low: nat, high: nat, lhs: map<nat, bool>, rhs: map<nat, bool>, routed: seq<bool>,
                     perm: seq<nat>, permInv: seq<nat>, g: Level, s: State, w: nat, isTop: bool)
    requires Tracks(low, high, lhs, rhs, routed, perm, permInv, s)
    requires low <= w <= high && !Straight(low, high, w) && g.Partner(w) == OtherPosition(low, w)
    ensures var lhs' := lhs[CanonicalRow(low, w) := SettingFromDecision(low, w, isTop)];
            && Tracks(low, high, lhs', rhs, routed, perm, permInv, s.SetLeft(g, w, ToHalf(isTop)))
            && OthersKept(low, high, lhs, lhs')
  {
    var lhs', s' := lhs[CanonicalRow(low, w) := SettingFromDecision(low, w, isTop)], s.SetLeft(g, w, ToHalf(isTop));
    forall u: nat ensures Reflects(low, high, lhs', rhs, routed, s', u) {
      assert Reflects(low, high, lhs, rhs, routed, s, u);
      if low <= u <= high { SetSwitch(low, high, lhs, w, isTop, u); }
    }
  }

  lemma TrackSetRight(low: nat, high: nat, lhs: map<nat, bool>, rhs: map<nat, bool>, routed: seq<bool>,
                      perm: seq<nat>, permInv: seq<nat>, g: Level, s: State, v: nat, isTop: bool)
    requires Tracks(low, high, lhs, rhs, routed, perm, permInv, s)
    requires low <= v <= high && !Straight(low, high, v) && g.Partner(v) == OtherPosition(low, v)
    ensures var rhs' := rhs[CanonicalRow(low, v) := SettingFromDecision(low, v, isTop)];
            && Tracks(low, high, lhs, rhs', routed, perm, permInv, s.SetRight(g, v, ToHalf(isTop)))
            && OthersKept(low, high, rhs, rhs')
  {
    var rhs', s' := rhs[CanonicalRow(low, v) := SettingFromDecision(low, v, isTop)], s.SetRight(g, v, ToHalf(isTop));
    forall u: nat ensures Reflects(low, high, lhs, rhs', routed, s', u) {
      assert Reflects(low, high, lhs, rhs, routed, s, u);
      if low <= u <= high { SetSwitch(low, high, rhs, v, isTop, u); }
    }
  }

  lemma TrackRecord(low: nat, high: nat, lhs: map<nat, bool>, rhs: map<nat, bool>, routed: seq<bool>,
                    perm: seq<nat>, permInv: seq<nat>, g: Level, s: State, w: nat, h: Half, t: nat, t': nat)
    requires Tracks(low, high, lhs, rhs, routed, perm, permInv, s)
    requires g.Valid() && |perm| == |permInv| == g.last - g.low + 1 && g.low == low && g.last == high && g.Wire(w)
    requires low <= w <= high && t == g.Row(w, h) && t' == g.Row(g.Image(w), h)
    ensures low <= t <= high && low <= t' <= high
    ensures Tracks(low, high, lhs, rhs, routed[w - low := true], perm[t - low := t'], permInv[t' - low := t],
                   s.Record(g, w, h))
  {
    var routed', s' := routed[w - low := true], s.Record(g, w, h);
    forall u: nat ensures Reflects(low, high, lhs, rhs, routed', s', u) {
      assert Reflects(low, high, lhs, rhs, routed, s, u);
    }
  }

  lemma OffSendsLowerWireDown(low: nat, w: nat)
    requires low <= w && OtherPosition(low, w) < w
    ensures SettingFromDecision(low, w, false) == false
  {
  }

  /** The last wire continues on the last row of the bottom network. */
  lemma BottomOfLast(low: nat, high: nat)
    requires low < high
    ensures RowOf(low, high, high, Bottom) == high
  {
  }

  /** A wire of a switch: its row, its partner, and the half-network rows it may use. */
  lemma SwitchWire(low: nat, high: nat, pi: seq<nat>, piInv: seq<nat>, g: Level, w: nat, isTop: bool)
    requires low + 2 <= high && |pi| == |piInv| == high - low + 1
    requires Describes(low, high, pi, piInv, g, w) && low <= w <= high && g.Partner(w) != w
    ensures !Straight(low, high, w) && g.Wire(w) && g.Partner(w) == OtherPosition(low, w)
    ensures CanonicalRow(low, w) < high
    ensures InOutIndex(high - low + 1, low, CanonicalRow(low, w), isTop) == g.Row(w, ToHalf(isTop))
  {
  }

  // ---- What a routed level means ----

  /** The smaller permutation maps the upper half to the upper and the lower to the lower. */
  ghost predicate KeepsHalves(low: nat, high: nat, perm: seq<nat>)
    requires low <= high && |perm| == high - low + 1
  {
    forall r: nat {:trigger At(perm, low, r)} | low <= r <= high ::
      r < Mid(low, high) <==> At(perm, low, r) < Mid(low, high)
  }

  /** The switches of the two columns are all present, and the smaller permutation joins the
      half-network row where each wire enters to the one where its image leaves. */
  ghost predicate LevelRouted(low: nat, high: nat, pi: seq<nat>, lhs: map<nat, bool>, rhs: map<nat, bool>,
                              perm: seq<nat>, permInv: seq<nat>)
  {
    && low + 2 <= high && |pi| == |perm| == high - low + 1
    && (forall k: nat | low <= k <= high :: k in lhs <==> k in SwitchRows(low, (high - low) / 2))
    && (forall k: nat | low <= k <= high :: k in rhs <==> k in SwitchRows(low, (high - low + 1) / 2))
    && AreInverse(perm, permInv, low) && KeepsHalves(low, high, perm)
    && forall w: nat | low <= w <= high :: Crosses(low, high, pi, lhs, rhs, perm, w)
  }

  ghost predicate Crosses(low: nat, high: nat, pi: seq<nat>, lhs: map<nat, bool>, rhs: map<nat, bool>,
                          perm: seq<nat>, w: nat)
    requires low <= w <= high && |pi| == |perm| == high - low + 1
  {
    var v := At(pi, low, w);
    && low <= v <= high && low <= Enter(low, high, lhs, w) <= high
    && At(perm, low, Enter(low, high, lhs, w)) == Enter(low, high, rhs, v)
  }

  lemma EnterIsRow(low: nat, high: nat, m: map<nat, bool>, w: nat)
    requires low < high && low <= w <= high && HalfOf(low, high, m, w) != Unset
    ensures Enter(low, high, m, w) == RowOf(low, high, w, HalfOf(low, high, m, w))
  {
  }

  /** Removing a switch that is off does not change where the wires go. */
  lemma RemoveOff(low: nat, high: nat, m: map<nat, bool>, k: nat, w: nat)
    requires low <= w <= high && k in m && !m[k]
    ensures Enter(low, high, m - {k}, w) == Enter(low, high, m, w)
  {
  }

  /** Each wire of a finished level, with both columns set and both lists filled in. */
  ghost predicate WireDone(low: nat, high: nat, pi: seq<nat>, piInv: seq<nat>, lhs: map<nat, bool>, rhs: map<nat, bool>,
                           perm: seq<nat>, permInv: seq<nat>, w: nat)
    requires low <= w <= high && |pi| == |piInv| == |perm| == |permInv| == high - low + 1
  {
    var v, t := At(pi, low, w), Enter(low, high, lhs, w);
    && low <= v <= high && At(piInv, low, v) == w && low <= t <= high
    && low <= Enter(low, high, rhs, v) <= high
    && At(perm, low, t) == Enter(low, high, rhs, v) && At(permInv, low, Enter(low, high, rhs, v)) == t
    && (GoesTop(low, high, lhs, w) <==> GoesTop(low, high, rhs, v))
    && (Straight(low, high, w) || (CanonicalRow(low, w) in lhs && CanonicalRow(low, w) in rhs))
  }

  lemma WireIsDone(low: nat, high: nat, pi: seq<nat>, piInv: seq<nat>, lhs: map<nat, bool>, rhs: map<nat, bool>,
                   perm: seq<nat>, permInv: seq<nat>, w: nat)
    requires low < high && low <= w <= high && |pi| == |piInv| == |perm| == |permInv| == high - low + 1
    requires low <= At(pi, low, w) <= high && At(piInv, low, At(pi, low, w)) == w
    requires HalfOf(low, high, lhs, w) != Unset && HalfOf(low, high, rhs, w) != Unset
    requires HalfOf(low, high, lhs, w) == HalfOf(low, high, rhs, At(pi, low, w))
    requires var h, v := HalfOf(low, high, lhs, w), At(pi, low, w);
             && low <= RowOf(low, high, w, h) <= high && low <= RowOf(low, high, v, h) <= high
             && At(perm, low, RowOf(low, high, w, h)) == RowOf(low, high, v, h)
             && At(permInv, low, RowOf(low, high, v, h)) == RowOf(low, high, w, h)
    ensures WireDone(low, high, pi, piInv, lhs, rhs, perm, permInv, w)
  {
    EnterIsRow(low, high, lhs, w);
    EnterIsRow(low, high, rhs, At(pi, low, w));
  }

  lemma RowsJoined(low: nat, high: nat, pi: seq<nat>, piInv: seq<nat>, lhs: map<nat, bool>, rhs: map<nat, bool>,
                   perm: seq<nat>, permInv: seq<nat>, r: nat)
    requires |pi| == |perm| == |permInv| == high - low + 1 && AreInverse(pi, piInv, low)
    requires forall w: nat | low <= w <= high :: WireDone(low, high, pi, piInv, lhs, rhs, perm, permInv, w)
    requires low + 2 <= high && low <= r <= high
    ensures low <= At(perm, low, r) <= high && At(permInv, low, At(perm, low, r)) == r
    ensures low <= At(permInv, low, r) <= high && At(perm, low, At(permInv, low, r)) == r
    ensures r < Mid(low, high) <==> At(perm, low, r) < Mid(low, high)
  {
    EnterLeave(low, high, lhs, r);
    EnterLeave(low, high, rhs, r);
    var w, v := Leave(low, high, lhs, r), Leave(low, high, rhs, r);
    assert WireDone(low, high, pi, piInv, lhs, rhs, perm, permInv, w);
    assert At(pi, low, At(piInv, low, v)) == v;
    assert WireDone(low, high, pi, piInv, lhs, rhs, perm, permInv, At(piInv, low, v));
    EnterInRange(low, high, lhs, w);
    EnterInRange(low, high, rhs, At(pi, low, w));
  }

  lemma AllWiresDone(low: nat, high: nat, pi: seq<nat>, piInv: seq<nat>, lhs: map<nat, bool>, rhs: map<nat, bool>,
                     perm: seq<nat>, permInv: seq<nat>)
    requires |pi| == |perm| == |permInv| == high - low + 1 && AreInverse(pi, piInv, low) && low + 2 <= high
    requires forall w: nat | low <= w <= high :: WireDone(low, high, pi, piInv, lhs, rhs, perm, permInv, w)
    requires KeysFit(low, high, lhs) && KeysFit(low, high, rhs)
    requires (high - low) % 2 == 1 ==> high - 1 in lhs && !lhs[high - 1]
    ensures LevelRouted(low, high, pi, WithoutFixedSwitch(low, high, lhs), rhs, perm, permInv)
  {
    var lhs' := WithoutFixedSwitch(low, high, lhs);
    forall r: nat | low <= r <= high
      ensures low <= At(perm, low, r) <= high && At(permInv, low, At(perm, low, r)) == r
      ensures low <= At(permInv, low, r) <= high && At(perm, low, At(permInv, low, r)) == r
      ensures r < Mid(low, high) <==> At(perm, low, r) < Mid(low, high)
    {
      RowsJoined(low, high, pi, piInv, lhs, rhs, perm, permInv, r);
    }
    forall k: nat | low <= k <= high
      ensures k in lhs' <==> k in SwitchRows(low, (high - low) / 2)
      ensures k in rhs <==> k in SwitchRows(low, (high - low + 1) / 2)
    {
      SwitchRow(low, (high - low) / 2, k);
      SwitchRow(low, (high - low + 1) / 2, k);
      assert WireDone(low, high, pi, piInv, lhs, rhs, perm, permInv, k);
    }
    forall w: nat | low <= w <= high ensures Crosses(low, high, pi, lhs', rhs, perm, w) {
      assert WireDone(low, high, pi, piInv, lhs, rhs, perm, permInv, w);
      if (high - low) % 2 == 1 { RemoveOff(low, high, lhs, high - 1, w); }
    }
  }

  /** The left column without the last pair's entry, which an even size keeps no switch for. */
  function WithoutFixedSwitch(low: nat, high: nat, m: map<nat, bool>): map<nat, bool>
    requires low < high
  {
    if (high - low + 1) % 2 == 0 then m - {high - 1} else m
  }

  lemma FixedSwitchOnly(low: nat, high: nat, m: map<nat, bool>)
    requires low < high
    ensures OthersKept(low, high, m, WithoutFixedSwitch(low, high, m))
  {
  }

  lemma AllDone(g: Level, s: State)
    requires g.pi.Keys <= s.routed
    ensures forall w: nat | g.Wire(w) :: s.Done(w)
  {
  }

  /** What the colouring says about a wire at the end, said about the rows. */
  lemma WireFinished(low: nat, high: nat, pi: seq<nat>, piInv: seq<nat>, g: Level, s: State, open: int, w: nat, v: nat)
    requires low < high && g.low == low && g.last == high && |pi| == |piInv| == high - low + 1
    requires low <= w <= high && low <= v <= high && v == At(pi, low, w)
    requires Describes(low, high, pi, piInv, g, w) && Describes(low, high, pi, piInv, g, v)
    requires s.Between(g, open) && forall u: nat | g.Wire(u) :: s.Done(u)
    ensures |s.perm| == |s.permInv| == high - low + 1
    ensures RowsFinished(low, high, s, w, v)
  {
    Finish(g, s, open, w);
    var h := s.L(w);
    var r, t := g.Row(w, h), g.Row(v, h);
    assert r == RowOf(low, high, w, h) && t == RowOf(low, high, v, h);
    AtRow(s.perm, low, r);
    AtRow(s.permInv, low, t);
  }

  lemma AtRow(p: seq<nat>, low: nat, r: nat)
    requires low <= r < low + |p|
    ensures At(p, low, r) == p[r - low]
  {
  }

  /** Both sides of the wire take the same half, and the row joined to its row there is that of its image. */
  ghost predicate RowsFinished(low: nat, high: nat, s: State, w: nat, v: nat)
    requires low <= w <= high && low <= v <= high && |s.perm| == |s.permInv| == high - low + 1
  {
    var h := s.L(w);
    && h != Unset && s.R(w) != Unset && h == s.R(v)
    && low <= RowOf(low, high, w, h) <= high && low <= RowOf(low, high, v, h) <= high
    && At(s.perm, low, RowOf(low, high, w, h)) == RowOf(low, high, v, h)
    && At(s.permInv, low, RowOf(low, high, v, h)) == RowOf(low, high, w, h)
  }

  /** The state before the first wire is routed. */
  ghost function BlankState(low: nat, high: nat): State
    requires low <= high
  {
    var straight := if (high - low) % 2 == 0 then map[high := Bottom] else map[];
    State(straight, straight, {}, Interval(low, high - low + 1), Interval(low, high - low + 1))
  }

  lemma BlankIsTracked(low: nat, high: nat, lhs: map<nat, bool>, rhs: map<nat, bool>, routed: seq<bool>)
    requires low + 2 <= high && |routed| == high - low + 1 && forall i | 0 <= i < |routed| :: !routed[i]
    requires forall k: nat | low <= k <= high :: k !in lhs && k !in rhs
    ensures Tracks(low, high, lhs, rhs, routed, Interval(low, high - low + 1), Interval(low, high - low + 1),
                   BlankState(low, high))
  {
    forall w: nat ensures Reflects(low, high, lhs, rhs, routed, BlankState(low, high), w) {
      if low <= w <= high { assert CanonicalRow(low, w) !in lhs; }
    }
  }

  lemma BlankIsBlank(low: nat, high: nat, pi: seq<nat>, piInv: seq<nat>, g: Level)
    requires low + 2 <= high && |pi| == |piInv| == high - low + 1 && g.Valid() && g.low == low && g.last == high
    requires Describes(low, high, pi, piInv, g, high)
    ensures AllBlank(g, BlankState(low, high))
  {
    forall w: nat ensures Blank(g, BlankState(low, high), w) {
    }
  }

  // ---- The pass ----

  /** The local state of one level of the recursion: the switch maps of its two columns (while
      the level is being routed they live here), the flags and the smaller permutations.  The
      ghost fields are the same level and the same state as the colouring sees them. */
  class LevelPass {
    const low: nat
    const high: nat
    const permutation: seq<nat>
    const permutationInversed: seq<nat>
    var lhs: map<nat, bool>
    var rhs: map<nat, bool>
    var newPermutation: seq<nat>
    var newPermutationInversed: seq<nat>
    var lhsIsRouted: seq<bool>
    var toRoute: nat
    var maxUnrouted: nat
    var shouldRouteLeft: bool
    ghost const g: Level
    ghost var s: State
    ghost var open: int

    ghost predicate Input() {
      && low + 2 <= high && |permutation| == |permutationInversed| == high - low + 1
      && g.low == low && g.last == high
      && forall w: nat :: Describes(low, high, permutation, permutationInversed, g, w)
    }

    ghost predicate Common()
      reads this
    {
      && Input()
      && Tracks(low, high, lhs, rhs, lhsIsRouted, newPermutation, newPermutationInversed, s)
      && low <= maxUnrouted <= high && s.routed <= g.pi.Keys
      && forall w: nat | maxUnrouted < w <= high :: w in s.routed
    }

    /** In the middle of a walk, with a wire to route. */
    ghost predicate Walking()
      reads this
    {
      Common() && s.Inv(g, toRoute, shouldRouteLeft, open)
    }

    /** A walk is over and the next wire has to be looked for. */
    ghost predicate Searching()
      reads this
    {
      Common() && shouldRouteLeft && low <= toRoute <= high && s.Between(g, open)
    }

    /** Before the first wire is routed. */
    ghost predicate Fresh()
      reads this
    {
      && Input() && AreInverse(permutation, permutationInversed, low)
      && Tracks(low, high, lhs, rhs, lhsIsRouted, newPermutation, newPermutationInversed, s)
      && s.routed == {} && AllBlank(g, s)
    }

    constructor (low: nat, high: nat, permutation: seq<nat>, permutationInversed: seq<nat>,
                 lhs: map<nat, bool>, rhs: map<nat, bool>)
      requires low + 2 <= high && |permutation| == high - low + 1
      requires AreInverse(permutation, permutationInversed, low)
      requires forall k: nat | low <= k <= high :: k !in lhs && k !in rhs
      ensures Fresh() && this.low == low && this.high == high && this.lhs == lhs && this.rhs == rhs
      ensures this.permutation == permutation && this.permutationInversed == permutationInversed
    {
      this.low, this.high, this.lhs, this.rhs := low, high, lhs, rhs;
      this.permutation, this.permutationInversed := permutation, permutationInversed;
      newPermutation, newPermutationInversed := Interval(low, high - low + 1), Interval(low, high - low + 1);
      lhsIsRouted := seq(high - low + 1, _ => false);
      ghost var described := LevelIsDescribed(low, high, permutation, permutationInversed);
      g := described;
      s := BlankState(low, high);
      new;
      BlankIsTracked(low, high, lhs, rhs, lhsIsRouted);
      BlankIsBlank(low, high, permutation, permutationInversed, g);
    }

    /** Deals with the bottom-most wire and chooses where the first walk starts. */
    method Begin()
      requires Fresh()
      modifies this
      ensures Walking()
      ensures OthersKept(low, high, old(lhs), lhs) && OthersKept(low, high, old(rhs), rhs)
    {
      assert Describes(low, high, permutation, permutationInversed, g, high);
      maxUnrouted := high;
      if (high - low + 1) % 2 == 1 {
        if permutation[high - low] == high {
          BeginHome();
        } else {
          BeginStraightPath();
        }
        open := -1;
        maxUnrouted := high - 1;
      } else {
        BeginEvenSize();
      }
    }

    /** An even size: the last left wire starts in the bottom half, and the walk opens at its partner. */
    method BeginEvenSize()
      requires Fresh() && !g.Odd() && maxUnrouted == high
      modifies this
      ensures Walking() && OthersKept(low, high, old(lhs), lhs) && rhs == old(rhs)
    {
      assert Describes(low, high, permutation, permutationInversed, g, high);
      BeginEven(g, s);
      OffSendsLowerWireDown(low, high);
      SetLeftSwitch(high, false);
      toRoute := high;
      shouldRouteLeft := true;
      open := g.Partner(high);
    }

    /** An odd size whose last wire is its own image: both sides of it take the bottom half and are done. */
    method BeginHome()
      requires Fresh() && g.Odd() && permutation[high - low] == high && maxUnrouted == high
      modifies this
      ensures Common() && s.Inv(g, toRoute, shouldRouteLeft, -1) && s.routed == {high}
      ensures lhs == old(lhs) && rhs == old(rhs) && maxUnrouted == high
    {
      assert Describes(low, high, permutation, permutationInversed, g, high);
      assert Describes(low, high, permutation, permutationInversed, g, high - 1);
      BottomOfLast(low, high);
      BeginAtHome(g, s, high - 1);
      Connect(high, high, high, Bottom);
      toRoute := high - 1;
      shouldRouteLeft := true;
    }

    /** An odd size whose last wire has another image: the image takes the bottom half as the wire does,
        and the walk continues backwards from the image's partner. */
    method BeginStraightPath()
      requires Fresh() && g.Odd() && permutation[high - low] != high && maxUnrouted == high
      modifies this
      ensures Common() && s.Inv(g, toRoute, shouldRouteLeft, -1) && s.routed == {high}
      ensures lhs == old(lhs) && OthersKept(low, high, old(rhs), rhs) && maxUnrouted == high
    {
      var image := permutation[high - low];
      assert Describes(low, high, permutation, permutationInversed, g, high);
      assert At(permutationInversed, low, At(permutation, low, high)) == high;
      assert Describes(low, high, permutation, permutationInversed, g, image);
      BottomOfLast(low, high);
      BeginAway(g, s);
      SetRightSwitch(image, false);
      var tprime := NetworkRow(image, false);
      Connect(high, high, tprime, Bottom);
      toRoute := OtherPosition(low, image);
      shouldRouteLeft := false;
    }

    /** The row of a half-network for wire `w` of a switch. */
    function NetworkRow(w: nat, isTop: bool): (t: nat)
      requires Input() && low <= w <= high && g.Partner(w) != w
      ensures t == g.Row(w, ToHalf(isTop)) && OtherPosition(low, w) == g.Partner(w) && g.Wire(w)
    {
      assert Describes(low, high, permutation, permutationInversed, g, w);
      SwitchWire(low, high, permutation, permutationInversed, g, w, isTop);
      InOutIndex(high - low + 1, low, CanonicalRow(low, w), isTop)
    }

    /** After a step: a wire that can be routed, or an already routed one at the end of a walk. */
    ghost predicate Stepped()
      reads this
    {
      if shouldRouteLeft && s.Done(toRoute) then Searching() else Walking()
    }

    /** Sends the left wire `toRoute` across. */
    method RouteFromLeft()
      requires Walking() && shouldRouteLeft
      modifies this
      ensures OthersKept(low, high, old(lhs), lhs) && OthersKept(low, high, old(rhs), rhs)
      ensures Stepped()
      ensures old(s.routed) < s.routed
    {
      AssignLeftSwitch();
      var lhsSwitch := CanonicalRow(low, toRoute);
      var shouldUseTop := DecisionFromSetting(low, toRoute, lhs[lhsSwitch]);
      var t := NetworkRow(toRoute, shouldUseTop);
      if permutation[toRoute - low] == high {
        ArriveAtHigh(t);
      } else {
        ArriveAtSwitch(t, shouldUseTop);
      }
    }

    /** Gives the wire `toRoute` a half: the one its pair has already, or else a new walk opens here. */
    method AssignLeftSwitch()
      requires Walking() && shouldRouteLeft
      modifies this`lhs, this`open, this`s
      ensures Walking() && OthersKept(low, high, old(lhs), lhs) && s.routed == old(s.routed)
      ensures low <= toRoute <= high && g.Partner(toRoute) != toRoute
      ensures CanonicalRow(low, toRoute) in lhs
      ensures s.L(toRoute) == ToHalf(DecisionFromSetting(low, toRoute, lhs[CanonicalRow(low, toRoute)]))
    {
      assert Describes(low, high, permutation, permutationInversed, g, toRoute);
      assert Reflects(low, high, lhs, rhs, lhsIsRouted, s, toRoute);
      var lhsSwitch := CanonicalRow(low, toRoute);
      if lhsSwitch !in lhs {
        StartWalk(g, s, toRoute, open);
        OffSendsLowerWireDown(low, toRoute);
        TrackSetLeft(low, high, lhs, rhs, lhsIsRouted, newPermutation, newPermutationInversed, g, s, toRoute, false);
        lhs := lhs[lhsSwitch := false];
        open := g.Partner(toRoute);
        s := s.SetLeft(g, toRoute, ToHalf(false));
      }
    }

    /** The image is the last wire.  In an odd size it takes the bottom half anyway; in an even one its
        pair stays open until the other end of the walk gets there. */
    method ArriveAtHigh(t: nat)
      requires Walking() && shouldRouteLeft && low <= toRoute <= high && s.L(toRoute) != Unset
      requires t == g.Row(toRoute, s.L(toRoute)) && permutation[toRoute - low] == high
      modifies this
      ensures lhs == old(lhs) && rhs == old(rhs) && shouldRouteLeft
      ensures Stepped()
      ensures old(s.routed) < s.routed
    {
      assert Describes(low, high, permutation, permutationInversed, g, toRoute);
      assert Describes(low, high, permutation, permutationInversed, g, high);
      ReachLast(g, s, toRoute, open);
      BottomOfLast(low, high);
      Connect(toRoute, t, high, Bottom);
      Restart();
    }

    /** The last wire that was unrouted when it was looked for is next. */
    method Restart()
      requires Common() && shouldRouteLeft && s.Between(g, open)
      modifies this`toRoute, this`shouldRouteLeft, this`open
      ensures Stepped() && shouldRouteLeft
    {
      toRoute := maxUnrouted;
      shouldRouteLeft := true;
      assert Reflects(low, high, lhs, rhs, lhsIsRouted, s, toRoute);
      if !lhsIsRouted[toRoute - low] {
        StartNext();
      }
    }

    /** The last unrouted wire is the next one. */
    ghost method StartNext()
      requires Searching() && toRoute == maxUnrouted && !s.Done(toRoute)
      modifies this`open
      ensures Walking() && shouldRouteLeft
    {
      assert Describes(low, high, permutation, permutationInversed, g, toRoute);
      forall w: nat | g.Wire(w) && w > toRoute ensures s.Done(w) {
        assert Describes(low, high, permutation, permutationInversed, g, w);
      }
      PickNext(g, s, toRoute, open);
      open := -1;
    }

    /** Records that wire `w` crosses from row `t` to row `tprime` of the half-networks. */
    method Connect(w: nat, t: nat, tprime: nat, ghost h: Half)
      requires Common() && g.Valid() && |s.perm| == |s.permInv| == high - low + 1 && g.Wire(w)
      requires t == g.Row(w, h) && tprime == g.Row(g.Image(w), h)
      modifies this`newPermutation, this`newPermutationInversed, this`lhsIsRouted, this`s
      ensures Common() && s == old(s).Record(g, w, h)
    {
      assert Describes(low, high, permutation, permutationInversed, g, w);
      TrackRecord(low, high, lhs, rhs, lhsIsRouted, newPermutation, newPermutationInversed, g, s, w, h, t, tprime);
      newPermutation := newPermutation[t - low := tprime];
      newPermutationInversed := newPermutationInversed[tprime - low := t];
      lhsIsRouted := lhsIsRouted[w - low := true];
      s := s.Record(g, w, h);
    }

    /** The image is in a pair that has no half yet (RightSwitchIsFree) and takes that of the wire. */
    method ArriveAtSwitch(t: nat, shouldUseTop: bool)
      requires Walking() && shouldRouteLeft && low <= toRoute <= high && s.L(toRoute) == ToHalf(shouldUseTop)
      requires t == g.Row(toRoute, s.L(toRoute)) && permutation[toRoute - low] != high
      modifies this
      ensures lhs == old(lhs) && OthersKept(low, high, old(rhs), rhs)
      ensures !shouldRouteLeft && Walking()
      ensures old(s.routed) < s.routed
    {
      var image := permutation[toRoute - low];
      RightSwitchIsFree();
      assert CanonicalRow(low, image) !in rhs;
      ghost var s0 := s;
      SetRightSwitch(image, shouldUseTop);
      FinishForward(s0, image, t, shouldUseTop);
    }

    /** The second half of the step: the wire is recorded and the other wire of the switch on
        the right is next. */
    method FinishForward(ghost s0: State, image: nat, t: nat, shouldUseTop: bool)
      requires Common() && s0.Inv(g, toRoute, true, open) && s0.L(toRoute) == ToHalf(shouldUseTop)
      requires low <= image < high && g.Image(toRoute) == image && g.Partner(image) != image
      requires t == g.Row(toRoute, ToHalf(shouldUseTop)) && s == s0.SetRight(g, image, ToHalf(shouldUseTop))
      modifies this
      ensures lhs == old(lhs) && rhs == old(rhs) && !shouldRouteLeft && Walking() && s0.routed < s.routed
    {
      StepForward(g, s0, toRoute, open);
      var tprime := NetworkRow(image, shouldUseTop);
      Connect(toRoute, t, tprime, ToHalf(shouldUseTop));
      toRoute := OtherPosition(low, image);
      shouldRouteLeft := false;
    }

    method SetRightSwitch(v: nat, isTop: bool)
      requires Common() && low <= v <= high && g.Partner(v) != v
      modifies this`rhs, this`s
      ensures Common() && s == old(s).SetRight(g, v, ToHalf(isTop))
      ensures OthersKept(low, high, old(rhs), rhs)
    {
      assert Describes(low, high, permutation, permutationInversed, g, v);
      TrackSetRight(low, high, lhs, rhs, lhsIsRouted, newPermutation, newPermutationInversed, g, s, v, isTop);
      var switchSetting := SettingFromDecision(low, v, isTop);
      rhs := rhs[CanonicalRow(low, v) := switchSetting];
      s := s.SetRight(g, v, ToHalf(isTop));
    }

    method SetLeftSwitch(w: nat, isTop: bool)
      requires Common() && low <= w <= high && g.Partner(w) != w
      modifies this`lhs, this`s
      ensures Common() && s == old(s).SetLeft(g, w, ToHalf(isTop))
      ensures OthersKept(low, high, old(lhs), lhs)
    {
      assert Describes(low, high, permutation, permutationInversed, g, w);
      TrackSetLeft(low, high, lhs, rhs, lhsIsRouted, newPermutation, newPermutationInversed, g, s, w, isTop);
      var switchSetting := SettingFromDecision(low, w, isTop);
      lhs := lhs[CanonicalRow(low, w) := switchSetting];
      s := s.SetLeft(g, w, ToHalf(isTop));
    }

    lemma RightSwitchIsFree()
      requires Walking() && shouldRouteLeft && low <= toRoute <= high && s.L(toRoute) != Unset
      requires permutation[toRoute - low] != high
      ensures var image := permutation[toRoute - low];
              && low <= image < high && g.Image(toRoute) == image && g.Wire(toRoute)
              && g.Partner(image) != image && Describes(low, high, permutation, permutationInversed, g, image)
              && CanonicalRow(low, image) !in rhs
    {
      var image := permutation[toRoute - low];
      assert Describes(low, high, permutation, permutationInversed, g, toRoute);
      assert Describes(low, high, permutation, permutationInversed, g, image);
      ForwardFits(g, s, toRoute, open);
      assert Reflects(low, high, lhs, rhs, lhsIsRouted, s, image);
    }

    /** A step backwards: the half of the right wire `toRoute` is known, and its pre-image takes the same. */
    method RouteFromRight()
      requires Walking() && !shouldRouteLeft
      modifies this
      ensures OthersKept(low, high, old(lhs), lhs) && rhs == old(rhs)
      ensures Stepped() && shouldRouteLeft
      ensures old(s.routed) <= s.routed
    {
      RightSwitchIsSet();
      var source := permutationInversed[toRoute - low];
      var rhsSwitch := CanonicalRow(low, toRoute);
      var lhsSwitch := CanonicalRow(low, source);
      assert rhsSwitch in rhs;
      var shouldUseTop := DecisionFromSetting(low, toRoute, rhs[rhsSwitch]);
      var lhsSwitchSetting := SettingFromDecision(low, source, shouldUseTop);
      // The half demanded of the pre-image never differs from one it already has (RightSwitchIsSet).
      assert lhsSwitch in lhs ==> lhs[lhsSwitch] == lhsSwitchSetting;
      ghost var s0 := s;
      SetLeftSwitch(source, shouldUseTop);
      FinishBackward(s0, source, shouldUseTop);
    }

    method FinishBackward(ghost s0: State, source: nat, shouldUseTop: bool)
      requires Common() && s0.Inv(g, toRoute, false, open) && s0.R(toRoute) == ToHalf(shouldUseTop)
      requires low <= source <= high && g.PreImage(toRoute) == source && g.Partner(source) != source
      requires low <= toRoute <= high && s == s0.SetLeft(g, source, ToHalf(shouldUseTop))
      modifies this
      ensures lhs == old(lhs) && rhs == old(rhs)
      ensures Stepped() && shouldRouteLeft && s0.routed <= s.routed
    {
      StepBackward(g, s0, toRoute, open);
      var t := NetworkRow(toRoute, shouldUseTop);
      var tprime := NetworkRow(source, shouldUseTop);
      Connect(source, tprime, t, ToHalf(shouldUseTop));
      toRoute := OtherPosition(low, source);
      shouldRouteLeft := true;
      if s.Done(toRoute) {
        open := -1;
      }
    }

    lemma RightSwitchIsSet()
      requires Walking() && !shouldRouteLeft
      ensures low <= toRoute <= high && g.Partner(toRoute) != toRoute
      ensures Describes(low, high, permutation, permutationInversed, g, toRoute)
      ensures CanonicalRow(low, toRoute) in rhs
      ensures var source := permutationInversed[toRoute - low];
              var shouldUseTop := DecisionFromSetting(low, toRoute, rhs[CanonicalRow(low, toRoute)]);
              && low <= source <= high && source == g.PreImage(toRoute) && g.Image(source) == toRoute
              && g.Partner(source) != source
              && Describes(low, high, permutation, permutationInversed, g, source)
              && s.R(toRoute) == ToHalf(shouldUseTop)
              && (CanonicalRow(low, source) in lhs ==>
                    lhs[CanonicalRow(low, source)] == SettingFromDecision(low, source, shouldUseTop))
    {
      assert Describes(low, high, permutation, permutationInversed, g, toRoute);
      var source := permutationInversed[toRoute - low];
      assert Describes(low, high, permutation, permutationInversed, g, source);
      BackwardFits(g, s, toRoute, open);
      assert Reflects(low, high, lhs, rhs, lhsIsRouted, s, toRoute);
      assert Reflects(low, high, lhs, rhs, lhsIsRouted, s, source);
    }

    /** Routes until no wire is left. */
    method Run()
      requires Walking()
      modifies this
      ensures OthersKept(low, high, old(lhs), lhs) && OthersKept(low, high, old(rhs), rhs)
      ensures Searching() && g.pi.Keys <= s.routed
    {
      while true
        invariant Walking()
        invariant OthersKept(low, high, old(lhs), lhs) && OthersKept(low, high, old(rhs), rhs)
        decreases g.pi.Keys - s.routed, !shouldRouteLeft
      {
        if shouldRouteLeft {
          RouteFromLeft();
        } else {
          RouteFromRight();
        }
        NextWireKnown();
        // The walk is over exactly when it is back on the left at a wire that is `Done` (Stepped).
        if !shouldRouteLeft || !lhsIsRouted[toRoute - low] {
          continue;
        }
        var allRouted := FindUnrouted();
        if allRouted {
          break;
        }
      }
    }

    lemma NextWireKnown()
      requires Stepped()
      ensures |lhsIsRouted| == high + 1 - low && low <= toRoute <= high
      ensures s.Done(toRoute) <==> lhsIsRouted[toRoute - low]
    {
      if !shouldRouteLeft || !s.Done(toRoute) { NextIsWire(g, s, toRoute, shouldRouteLeft, open); }
      assert Describes(low, high, permutation, permutationInversed, g, toRoute);
      TrackedDone(low, high, lhs, rhs, lhsIsRouted, newPermutation, newPermutationInversed, s, toRoute);
    }

    /** Between two walks: the largest wire that is not `Done` starts the next one; if there is none, all are. */
    method FindUnrouted() returns (allRouted: bool)
      requires Searching()
      modifies this`maxUnrouted, this`toRoute, this`open
      ensures if allRouted then Searching() && g.pi.Keys <= s.routed else Walking()
    {
      while maxUnrouted > low && lhsIsRouted[maxUnrouted - low]
        invariant Searching()
        decreases maxUnrouted
      {
        assert Reflects(low, high, lhs, rhs, lhsIsRouted, s, maxUnrouted);
        maxUnrouted := maxUnrouted - 1;
      }
      assert Reflects(low, high, lhs, rhs, lhsIsRouted, s, maxUnrouted);
      if maxUnrouted < low || (maxUnrouted == low && lhsIsRouted[0]) {
        forall w | w in g.pi ensures w in s.routed {
          assert Describes(low, high, permutation, permutationInversed, g, w);
        }
        return true;
      } else {
        toRoute := maxUnrouted;
        StartNext();
        return false;
      }
    }

    /** Drops the last pair's entry of an even size and concludes that the level is routed. */
    method Finalize()
      requires Searching() && g.pi.Keys <= s.routed && AreInverse(permutation, permutationInversed, low)
      modifies this`lhs
      ensures LevelRouted(low, high, permutation, lhs, rhs, newPermutation, newPermutationInversed)
      ensures OthersKept(low, high, old(lhs), lhs)
    {
      LevelComplete();
      FixedSwitchOnly(low, high, lhs);
      lhs := WithoutFixedSwitch(low, high, lhs);
    }

    lemma LevelComplete()
      requires Searching() && g.pi.Keys <= s.routed && AreInverse(permutation, permutationInversed, low)
      ensures LevelRouted(low, high, permutation, WithoutFixedSwitch(low, high, lhs), rhs,
                          newPermutation, newPermutationInversed)
    {
      forall w: nat | low <= w <= high
        ensures WireDone(low, high, permutation, permutationInversed, lhs, rhs, newPermutation, newPermutationInversed,
                         w)
      {
        FinishWire(w);
      }
      assert Reflects(low, high, lhs, rhs, lhsIsRouted, s, high);
      AllWiresDone(low, high, permutation, permutationInversed, lhs, rhs, newPermutation, newPermutationInversed);
    }

    lemma FinishWire(w: nat)
      requires Searching() && g.pi.Keys <= s.routed && AreInverse(permutation, permutationInversed, low)
      requires low <= w <= high
      ensures |newPermutation| == |newPermutationInversed| == high - low + 1
      ensures WireDone(low, high, permutation, permutationInversed, lhs, rhs, newPermutation, newPermutationInversed, w)
    {
      AllDone(g, s);
      var v := permutation[w - low];
      assert At(permutationInversed, low, At(permutation, low, w)) == w;
      assert Describes(low, high, permutation, permutationInversed, g, w);
      assert Describes(low, high, permutation, permutationInversed, g, v);
      WireFinished(low, high, permutation, permutationInversed, g, s, open, w, v);
      assert Reflects(low, high, lhs, rhs, lhsIsRouted, s, w) && Reflects(low, high, lhs, rhs, lhsIsRouted, s, v);
      WireIsDone(low, high, permutation, permutationInversed, lhs, rhs, newPermutation, newPermutationInversed, w);
    }
  }
}
