/** The looping algorithm that routes one level of an AS-Waksman network, as a two-colouring.

    Every left wire has to be given a half-size network, top or bottom, and every right wire
    too, so that a packet keeps its half and the two wires of a switch take different halves.
    The pass alternates: it sends a left wire across, which fixes a right switch, and then
    serves the other wire of that switch backwards, which fixes a left one. */
module WaksmanLooping {

  datatype Half = Unset | Top | Bottom {
    function Other(): Half {
      match this
      case Unset => Unset
      case Top => Bottom
      case Bottom => Top
    }
  }

  /** What is fixed during a pass: the wires, the last of them, the pairing of the wires into
      switches (a straight wire is its own partner), the permutation with its inverse, and the
      row of the top and of the bottom network on which each wire may continue. */
  datatype Level = Level(low: nat, last: nat, partner: map<nat, nat>, pi: map<nat, nat>, inv: map<nat, nat>,
                         rows: map<nat, (nat, nat)>) {
    predicate Wire(w: int) { w in pi }
    function Partner(w: nat): nat { if w in partner then partner[w] else w }
    function Image(w: nat): nat { if w in pi then pi[w] else w }
    function PreImage(v: nat): nat { if v in inv then inv[v] else v }
    function Row(w: nat, h: Half): nat { if w !in rows then low else if h == Top then rows[w].0 else rows[w].1 }

    ghost predicate Valid() {
      && low < last && Wire(last)
      && (forall w: nat {:trigger Wire(w)} | Wire(w) :: w <= last)
      && (forall w: nat {:trigger Image(w)} | Wire(w) :: Wire(Image(w)) && PreImage(Image(w)) == w)
      && (forall v: nat {:trigger PreImage(v)} | Wire(v) :: Wire(PreImage(v)) && Image(PreImage(v)) == v)
      && (forall w: nat {:trigger Partner(w)} | Wire(w) ::
            && Wire(Partner(w)) && Partner(Partner(w)) == w && (Partner(w) == w ==> w == last)
            && w - 1 <= Partner(w) <= w + 1)
      && (forall w: nat, h: Half {:trigger Row(w, h)} | Wire(w) :: low <= Row(w, h) <= last)
      && (forall u: nat, w: nat, h: Half, k: Half :: RowsDiffer(u, h, w, k))
    }

    /** Different wires share a row only if they belong to one switch and take the same half. */
    ghost predicate RowsDiffer(u: nat, h: Half, w: nat, k: Half) {
      Wire(u) && Wire(w) && u != w && Row(u, h) == Row(w, k) ==> u == Partner(w) && (h == Top <==> k == Top)
    }

    predicate Odd() { Partner(last) == last }
  }

  /** What a pass has fixed so far: the halves of the wires whose switch is set, the left wires
      that have been dealt with, and the rows that the smaller permutation and its inverse
      connect. */
  datatype State = State(left: map<nat, Half>, right: map<nat, Half>, routed: set<nat>,
                         perm: seq<nat>, permInv: seq<nat>) {
    function L(w: nat): Half { if w in left then left[w] else Unset }
    function R(v: nat): Half { if v in right then right[v] else Unset }
    predicate Done(w: nat) { w in routed }

    /** The two wires of a set switch take different halves; a straight wire takes the bottom. */
    ghost predicate SplitL(g: Level, w: nat) {
      L(w) != Unset ==> g.Wire(w) && L(g.Partner(w)) == (if g.Partner(w) == w then Bottom else L(w).Other())
    }

    ghost predicate SplitR(g: Level, v: nat) {
      R(v) != Unset ==> g.Wire(v) && R(g.Partner(v)) == (if g.Partner(v) == v then Bottom else R(v).Other())
    }

    ghost predicate WellFormed(g: Level) {
      && g.Valid() && |perm| == |permInv| == g.last - g.low + 1
      && (forall w: nat :: SplitL(g, w)) && (forall v: nat :: SplitR(g, v))
      && L(g.last) == Bottom
      && (g.Odd() ==> Done(g.last) && R(g.last) == Bottom)
    }

    /** A routed wire takes the same half on both sides; only the switch of the last right wire
        may still be open, and then the wire has come through the bottom half. */
    ghost predicate Linked(g: Level, w: nat) {
      Done(w) ==>
        && g.Wire(w) && L(w) != Unset
        && (R(g.Image(w)) == L(w) || (g.Image(w) == g.last && R(g.last) == Unset && L(w) == Bottom))
    }

    ghost predicate Links(g: Level) {
      forall w: nat :: Linked(g, w)
    }

    /** The smaller permutation carries a routed wire from the row where it enters the
        half-networks to the row where it leaves them, and its inverse carries it back. */
    ghost predicate Carried(g: Level, w: nat)
      requires g.Valid() && |perm| == |permInv| == g.last - g.low + 1
    {
      Done(w) && g.Wire(w) ==>
        && perm[g.Row(w, L(w)) - g.low] == g.Row(g.Image(w), L(w))
        && permInv[g.Row(g.Image(w), L(w)) - g.low] == g.Row(w, L(w))
    }

    ghost predicate Carries(g: Level)
      requires g.Valid() && |perm| == |permInv| == g.last - g.low + 1
    {
      forall w: nat :: Carried(g, w)
    }

    /** The wire whose image is the last one has been routed, but the switch there is not set. */
    ghost predicate Pending(g: Level) {
      Done(g.PreImage(g.last)) && R(g.last) == Unset
    }

    /** Odd sizes: the walk that started at the straight wire is not over. */
    ghost predicate OnStraightPath(g: Level) {
      g.Odd() && !Done(g.PreImage(g.last))
    }

    /** A set right switch has both wires served, except for the one to be served next. */
    ghost predicate RightDone(g: Level, v: nat, next: nat, onLeft: bool) {
      R(v) != Unset && g.Partner(v) != v ==> Done(g.PreImage(v)) || (!onLeft && v == next)
    }

    ghost predicate RightsDone(g: Level, next: nat, onLeft: bool) {
      forall v: nat :: RightDone(g, v, next, onLeft)
    }

    /** An unrouted left wire has an unrouted partner on an unset switch, except for the other
        end of the current walk (`open`, negative if there is none) and the wire to be routed. */
    ghost predicate LeftPaired(g: Level, u: nat, next: nat, onLeft: bool, open: int) {
      g.Wire(u) && !Done(u) ==>
        u == open || (onLeft && u == next) || (!Done(g.Partner(u)) && L(u) == Unset)
    }

    ghost predicate LeftsPaired(g: Level, next: nat, onLeft: bool, open: int) {
      forall u: nat :: LeftPaired(g, u, next, onLeft, open)
    }

    ghost predicate DoneBehind(g: Level, w: nat, end: nat, next: nat, onLeft: bool) {
      g.Wire(w) && w > end ==> Done(w) || (onLeft && w == next)
    }

    /** The other end of the walk waits with the top half, and all wires behind it are routed. */
    ghost predicate OpenEnd(g: Level, next: nat, onLeft: bool, open: nat) {
      && g.Wire(open) && !Done(open) && L(open) == Top
      && forall w: nat :: DoneBehind(g, w, open, next, onLeft)
    }

    ghost predicate OpenFits(g: Level, next: nat, onLeft: bool, open: int) {
      && (OnStraightPath(g) || Pending(g) ==> open < 0)
      && (open >= 0 ==>
            && OpenEnd(g, next, onLeft, open) && (onLeft ==> next != open)
            && (Done(g.Partner(open)) || (onLeft && next == g.Partner(open))))
    }

    /** The next wire is an unrouted left wire: either its switch is set, and to the half that
        the current walk sends across; or it starts a new walk, as the last unrouted wire. */
    ghost predicate LeftNext(g: Level, next: nat, open: int) {
      && g.Wire(next) && !Done(next)
      && if L(next) != Unset then
           && L(next) == (if Pending(g) then Top else Bottom)
           && (open >= 0 || OnStraightPath(g) || Pending(g))
         else
           && open < 0 && !OnStraightPath(g) && !Pending(g)
           && !Done(g.Partner(next))
           && forall w: nat :: DoneBehind(g, w, next, next, false)
    }

    /** The next wire is a right wire whose switch has just been set by its partner.  Only the
        last one can be served already; that is how a pending walk closes. */
    ghost predicate RightNext(g: Level, next: nat, open: int) {
      var closing := Done(g.PreImage(next));
      && g.Wire(next) && R(next) == (if Pending(g) || closing then Bottom else Top)
      && g.Partner(next) != next && Done(g.PreImage(g.Partner(next)))
      && (closing ==> next == g.last && open < 0)
      && (open >= 0 || OnStraightPath(g) || Pending(g) || closing)
    }

    ghost predicate Inv(g: Level, next: nat, onLeft: bool, open: int) {
      && WellFormed(g) && Links(g) && Carries(g)
      && RightsDone(g, next, onLeft) && LeftsPaired(g, next, onLeft, open)
      && OpenFits(g, next, onLeft, open)
      && (if onLeft then LeftNext(g, next, open) else RightNext(g, next, open))
    }

    /** Between two walks: everything is paired up; or the last walk has just sent its wire to
        the last one, and its other end is still open. */
    ghost predicate Between(g: Level, open: int) {
      && WellFormed(g) && Links(g) && Carries(g) && !OnStraightPath(g)
      && RightsDone(g, g.last, true) && LeftsPaired(g, g.last, false, open)
      && if Pending(g) then open >= 0 && OpenEnd(g, g.last, false, open) else open < 0
    }

    // ---- The steps of the pass ----

    /** Gives the switch of left wire `w` the setting that sends `w` to half `h`. */
    function SetLeft(g: Level, w: nat, h: Half): State {
      this.(left := left[w := h][g.Partner(w) := h.Other()])
    }

    /** Marks left wire `w` as routed and connects its rows. */
    ghost function Record(g: Level, w: nat, h: Half): State
      requires g.Valid() && |perm| == |permInv| == g.last - g.low + 1 && g.Wire(w)
    {
      var t, t' := g.Row(w, h), g.Row(g.Image(w), h);
      this.(routed := routed + {w}, perm := perm[t - g.low := t'], permInv := permInv[t' - g.low := t])
    }

    ghost function SetRight(g: Level, v: nat, h: Half): State {
      this.(right := right[v := h][g.Partner(v) := h.Other()])
    }
  }

  /** Recording one more wire disturbs none of the others: by the colouring, no two routed wires
      enter or leave the half-networks on the same row. */
  lemma KeepCarried(g: Level, s: State, s': State, w: nat)
    requires s.WellFormed(g) && s.Carries(g) && s'.WellFormed(g) && s'.Links(g) && g.Wire(w)
    requires s'.routed == s.routed + {w} && (forall u: nat | s.Done(u) :: s'.L(u) == s.L(u))
    requires s'.perm == s.Record(g, w, s'.L(w)).perm && s'.permInv == s.Record(g, w, s'.L(w)).permInv
    ensures s'.Carries(g)
  {
    forall u: nat ensures s'.Carried(g, u) {
      if u != w && s'.Done(u) && g.Wire(u) {
        var h, k, u', w' := s'.L(u), s'.L(w), g.Image(u), g.Image(w);
        assert s.Carried(g, u);
        assert g.RowsDiffer(u, h, w, k) && g.RowsDiffer(u', h, w', k);
        assert s'.SplitL(g, u) && s'.SplitL(g, w) && s'.Linked(g, u) && s'.Linked(g, w);
        assert s'.SplitR(g, u') && s'.SplitR(g, w');
      }
    }
  }

  /** Before the first step no switch is set, and no wire is routed. */
  ghost predicate Blank(g: Level, s: State, w: nat) {
    var h := if g.Odd() && w == g.last then Bottom else Unset;
    s.L(w) == h && s.R(w) == h && !s.Done(w)
  }

  ghost predicate AllBlank(g: Level, s: State) {
    g.Valid() && |s.perm| == |s.permInv| == g.last - g.low + 1 && forall w: nat :: Blank(g, s, w)
  }

  /** Odd size, and the straight wire goes straight: the first walk starts next to it. */
  lemma BeginAtHome(g: Level, s: State, next: nat)
    requires AllBlank(g, s) && g.Odd() && g.Image(g.last) == g.last && next + 1 == g.last && g.Wire(next)
    ensures s.Record(g, g.last, Bottom).Inv(g, next, true, -1)
  {
    var s' := s.Record(g, g.last, Bottom);
    assert Blank(g, s, g.last) && Blank(g, s, next) && Blank(g, s, g.Partner(next));
    forall u: nat ensures s'.SplitL(g, u) && s'.SplitR(g, u) && s'.Linked(g, u)
      && s'.Carried(g, u) { assert Blank(g, s, u); }
    forall u: nat ensures s'.RightDone(g, u, next, true) { assert Blank(g, s, u); }
    forall u: nat ensures s'.LeftPaired(g, u, next, true, -1) { assert Blank(g, s, u) && Blank(g, s, g.Partner(u)); }
  }

  /** Odd size, and the straight wire goes to a switch: the first walk starts on the right. */
  lemma BeginAway(g: Level, s: State)
    requires AllBlank(g, s) && g.Odd() && g.Image(g.last) != g.last
    ensures s.SetRight(g, g.Image(g.last), Bottom).Record(g, g.last, Bottom).Inv(g, g.Partner(g.Image(g.last)), false,
        -1)
  {
    var v := g.Image(g.last);
    var next := g.Partner(v);
    var s' := s.SetRight(g, v, Bottom).Record(g, g.last, Bottom);
    assert Blank(g, s, g.last) && Blank(g, s, v) && Blank(g, s, next) && Blank(g, s, g.PreImage(next));
    assert Blank(g, s, g.PreImage(g.last));
    forall u: nat ensures s'.SplitL(g, u) && s'.SplitR(g, u) && s'.Linked(g, u)
      && s'.Carried(g, u) { assert Blank(g, s, u); }
    forall u: nat ensures s'.RightDone(g, u, next, false) { assert Blank(g, s, u); }
    forall u: nat ensures s'.LeftPaired(g, u, next, false, -1) { assert Blank(g, s, u) && Blank(g, s, g.Partner(u)); }
  }

  /** Even size: the last left switch is fixed, and the first walk starts at its lower wire. */
  lemma BeginEven(g: Level, s: State)
    requires AllBlank(g, s) && !g.Odd()
    ensures s.SetLeft(g, g.last, Bottom).Inv(g, g.last, true, g.Partner(g.last))
  {
    var s', o := s.SetLeft(g, g.last, Bottom), g.Partner(g.last);
    assert Blank(g, s, g.last) && Blank(g, s, o) && Blank(g, s, g.PreImage(g.last));
    forall u: nat ensures s'.SplitL(g, u) && s'.SplitR(g, u) && s'.Linked(g, u)
      && s'.Carried(g, u) { assert Blank(g, s, u); }
    forall u: nat ensures s'.RightDone(g, u, g.last, true) { assert Blank(g, s, u); }
    forall u: nat ensures s'.LeftPaired(g, u, g.last, true, o) { assert Blank(g, s, u) && Blank(g, s, g.Partner(u)); }
    forall u: nat ensures s'.DoneBehind(g, u, o, g.last, true) { assert Blank(g, s, u); }
  }

  /** A new walk sets the switch of its first wire to the bottom half; the partner is the open
      end of the walk. */
  lemma StartWalk(g: Level, s: State, w: nat, open: int)
    requires s.Inv(g, w, true, open) && s.L(w) == Unset
    ensures g.Partner(w) < w
    ensures s.SetLeft(g, w, Bottom).Inv(g, w, true, g.Partner(w))
  {
    var s', o := s.SetLeft(g, w, Bottom), g.Partner(w);
    assert s.DoneBehind(g, o, w, w, false);
    assert s.SplitL(g, w) && s.SplitL(g, o);
    forall u: nat ensures s'.SplitL(g, u) { assert s.SplitL(g, u); }
    forall u: nat ensures s'.SplitR(g, u) { assert s.SplitR(g, u); }
    forall u: nat ensures s'.Linked(g, u) { assert s.Linked(g, u); }
    forall u: nat ensures s'.Carried(g, u) { assert s.Linked(g, u) && s.Carried(g, u); }
    forall u: nat ensures s'.RightDone(g, u, w, true) { assert s.RightDone(g, u, w, true); }
    forall u: nat ensures s'.LeftPaired(g, u, w, true, o) { assert s.LeftPaired(g, u, w, true, open); }
    forall u: nat ensures s'.DoneBehind(g, u, o, w, true) {
      assert s.DoneBehind(g, u, w, w, false);
    }
  }

  /** The straight wire of an odd size, or the pending switch of an even one, is reached. */
  lemma ReachLast(g: Level, s: State, w: nat, open: int)
    requires s.Inv(g, w, true, open) && s.L(w) != Unset && g.Image(w) == g.last
    ensures s.L(w) == Bottom
    ensures s.Record(g, w, s.L(w)).Between(g, open)
  {
    var s' := s.Record(g, w, s.L(w));
    assert s.SplitR(g, g.last) && s.RightDone(g, g.last, w, true) && s.SplitL(g, w);
    forall u: nat ensures s'.SplitL(g, u) { assert s.SplitL(g, u); }
    forall u: nat ensures s'.SplitR(g, u) { assert s.SplitR(g, u); }
    forall u: nat ensures s'.Linked(g, u) { assert s.Linked(g, u); }
    KeepCarried(g, s, s', w);
    forall u: nat ensures s'.RightDone(g, u, g.last, true) { assert s.RightDone(g, u, w, true); }
    forall u: nat ensures s'.LeftPaired(g, u, g.last, false, open) { assert s.LeftPaired(g, u, w, true, open); }
    if open >= 0 {
      forall u: nat ensures s'.DoneBehind(g, u, open, g.last, false) { assert s.DoneBehind(g, u, open, w, true); }
    }
  }

  /** Sending a wire across sets a right switch that was not set before, and consistently. */
  lemma ForwardFits(g: Level, s: State, w: nat, open: int)
    requires s.Inv(g, w, true, open) && s.L(w) != Unset && g.Image(w) != g.last
    ensures s.R(g.Image(w)) == Unset
    ensures var s' := s.SetRight(g, g.Image(w), s.L(w)).Record(g, w, s.L(w));
            s'.WellFormed(g) && s'.Links(g)
  {
    var v := g.Image(w);
    var s' := s.SetRight(g, v, s.L(w)).Record(g, w, s.L(w));
    assert s.RightDone(g, v, w, true) && s.SplitR(g, v) && s.SplitR(g, g.Partner(v));
    assert s.Linked(g, g.PreImage(g.Partner(v))) && s.Linked(g, g.PreImage(g.last));
    forall u: nat ensures s'.SplitL(g, u) { assert s.SplitL(g, u); }
    forall u: nat ensures s'.SplitR(g, u) { assert s.SplitR(g, u); }
    forall u: nat ensures s'.Linked(g, u) { assert s.Linked(g, u); }
  }

  /** The walk continues with the other wire of that switch. */
  lemma StepForward(g: Level, s: State, w: nat, open: int)
    requires s.Inv(g, w, true, open) && s.L(w) != Unset && g.Image(w) != g.last
    ensures s.SetRight(g, g.Image(w), s.L(w)).Record(g, w, s.L(w)).Inv(g, g.Partner(g.Image(w)), false, open)
  {
    var v := g.Image(w);
    var next, s' := g.Partner(v), s.SetRight(g, v, s.L(w)).Record(g, w, s.L(w));
    ForwardFits(g, s, w, open);
    KeepCarried(g, s, s', w);
    assert s.SplitR(g, next) && s.SplitL(g, w) && s.Linked(g, g.PreImage(next));
    forall u: nat ensures s'.RightDone(g, u, next, false) { assert s.RightDone(g, u, w, true); }
    forall u: nat ensures s'.LeftPaired(g, u, next, false, open) { assert s.LeftPaired(g, u, w, true, open); }
    if open >= 0 {
      forall u: nat ensures s'.DoneBehind(g, u, open, next, false) { assert s.DoneBehind(g, u, open, w, true); }
    }
  }

  /** Serving the other wire of that switch never contradicts a left switch. */
  lemma BackwardFits(g: Level, s: State, v: nat, open: int)
    requires s.Inv(g, v, false, open)
    ensures var w := g.PreImage(v);
            && (s.L(w) == Unset || s.L(w) == s.R(v)) && g.Partner(w) != w
            && s.SetLeft(g, w, s.R(v)).Record(g, w, s.R(v)).WellFormed(g)
            && s.SetLeft(g, w, s.R(v)).Record(g, w, s.R(v)).Links(g)
            && forall u: nat | s.Done(u) :: s.SetLeft(g, w, s.R(v)).L(u) == s.L(u)
  {
    var w := g.PreImage(v);
    var s' := s.SetLeft(g, w, s.R(v)).Record(g, w, s.R(v));
    assert s.SplitR(g, v) && s.SplitL(g, w) && s.SplitL(g, g.Partner(w));
    assert s.Linked(g, w) && s.LeftPaired(g, w, v, false, open);
    forall u: nat ensures s'.SplitL(g, u) { assert s.SplitL(g, u); }
    forall u: nat ensures s'.SplitR(g, u) { assert s.SplitR(g, u); }
    forall u: nat ensures s'.Linked(g, u) { assert s.Linked(g, u); }
    forall u: nat | s.Done(u) ensures s'.L(u) == s.L(u) { assert s.Linked(g, u); }
  }

  /** Either the walk goes on with the partner on the left, or it has come to its end. */
  lemma StepBackward(g: Level, s: State, v: nat, open: int)
    requires s.Inv(g, v, false, open)
    ensures var w := g.PreImage(v);
            var s', o := s.SetLeft(g, w, s.R(v)).Record(g, w, s.R(v)), g.Partner(w);
            if s'.Done(o) then s'.Between(g, -1) else s'.Inv(g, o, true, open)
  {
    var w := g.PreImage(v);
    var s', o := s.SetLeft(g, w, s.R(v)).Record(g, w, s.R(v)), g.Partner(w);
    BackwardFits(g, s, v, open);
    assert forall u: nat | s.Done(u) :: s'.L(u) == s.SetLeft(g, w, s.R(v)).L(u);
    KeepCarried(g, s, s', w);
    assert s.SplitR(g, v) && s.SplitL(g, w) && s.SplitL(g, o);
    assert s.Linked(g, w) && s.LeftPaired(g, w, v, false, open) && s.LeftPaired(g, o, v, false, open);
    if s'.Done(o) {
      forall u: nat ensures s'.RightDone(g, u, g.last, true) { assert s.RightDone(g, u, v, false); }
      forall u: nat ensures s'.LeftPaired(g, u, g.last, false, -1) { assert s.LeftPaired(g, u, v, false, open); }
    } else {
      forall u: nat ensures s'.RightDone(g, u, o, true) { assert s.RightDone(g, u, v, false); }
      forall u: nat ensures s'.LeftPaired(g, u, o, true, open) { assert s.LeftPaired(g, u, v, false, open); }
      if open >= 0 {
        forall u: nat ensures s'.DoneBehind(g, u, open, o, true) { assert s.DoneBehind(g, u, open, v, false); }
      }
    }
  }

  /** The last unrouted wire starts the next walk, or resumes the pending one from its other end. */
  lemma PickNext(g: Level, s: State, next: nat, open: int)
    requires s.Between(g, open) && g.Wire(next) && !s.Done(next)
    requires forall w: nat | g.Wire(w) && w > next :: s.Done(w)
    ensures s.Inv(g, next, true, -1)
  {
    assert s.LeftPaired(g, next, g.last, false, open);
    if open >= 0 { assert s.DoneBehind(g, next, open, g.last, false); }
    forall u: nat ensures s.RightDone(g, u, next, true) { assert s.RightDone(g, u, g.last, true); }
    forall u: nat ensures s.LeftPaired(g, u, next, true, -1) { assert s.LeftPaired(g, u, g.last, false, open); }
  }

  lemma NextIsWire(g: Level, s: State, next: nat, onLeft: bool, open: int)
    requires s.Inv(g, next, onLeft, open)
    ensures g.Wire(next)
  {
  }

  /** When every left wire is routed, every switch is set and every packet keeps its half. */
  lemma Finish(g: Level, s: State, open: int, w: nat)
    requires s.Between(g, open) && (forall w: nat | g.Wire(w) :: s.Done(w)) && g.Wire(w)
    ensures |s.perm| == |s.permInv| == g.last - g.low + 1
    ensures s.L(w) != Unset && s.R(w) != Unset && s.L(w) == s.R(g.Image(w))
    ensures g.low <= g.Row(w, s.L(w)) <= g.last && g.low <= g.Row(g.Image(w), s.L(w)) <= g.last
    ensures s.perm[g.Row(w, s.L(w)) - g.low] == g.Row(g.Image(w), s.L(w))
    ensures s.permInv[g.Row(g.Image(w), s.L(w)) - g.low] == g.Row(w, s.L(w))
  {
    assert s.Carried(g, w);
    assert s.Linked(g, w) && s.Linked(g, g.PreImage(w)) && s.Linked(g, g.PreImage(g.last));
  }
}
