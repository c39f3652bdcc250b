/**
 * The generic descent `_cebu_descend` for scalar keys, as a loop over the
 * records.  The loop cannot see the roles of the records it visits; it infers
 * them from the branches it reads.  `Descend` is proved to stop exactly where
 * the role-aware `Walk` stops and to report what the C function reports
 * through its return value and its `ret_*` pointers.
 */
module CebDescent {
  import opened Wrappers
  import opened Bits
  import opened Shapes
  import opened Walks
  import opened Arena

  /**
   * The pointers a descent keeps while it moves down: the slot that leads to
   * the current record (`root`), the leaf's parent and grandparent with the
   * sides taken there, and the parent of the record holding the key, seen as
   * a split node, with its side.
   */
  datatype Window = Window(slot: Slot, lparent: Parent, lpside: bool, gparent: Parent, gpside: bool,
                           nparent: Parent, npside: bool)

  /** Moving down from split node p to its side branch; `found` when p holds the key. */
  function Shift(win: Window, p: NodeId, side: bool, found: bool): Window
  {
    Window(Branch(p, side), Node(p), side, win.lparent, win.lpside,
           if found then win.lparent else win.nparent, if found then win.lpside else win.npside)
  }

  /**
   * Everything a descent reports: the record returned, the record it stopped
   * on (`p`) and whether it stopped above it on a key mismatch, the side a new
   * record would take (`ret_nside`), the window at the stop, and the anchor
   * (`ret_back`).
   */
  datatype Descent = Descent(ret: Option<NodeId>, p: NodeId, mismatch: bool, nside: bool, win: Window,
                             back: Option<NodeId>)

  /** The record n frames up from the end of ctx, or the virtual parent when that is above depth base. */
  function Above(ctx: seq<Frame>, base: nat, n: nat): Parent
  {
    if 1 <= n && base + n <= |ctx| then Node(ctx[|ctx| - n].id) else Virtual
  }

  function SideAbove(ctx: seq<Frame>, base: nat, n: nat): bool
  {
    if 1 <= n && base + n <= |ctx| then ctx[|ctx| - n].side else false
  }

  /** The slot through which the end of ctx was reached. */
  function SlotAt(ctx: seq<Frame>, base: nat): Slot
  {
    if base < |ctx| then Branch(ctx[|ctx| - 1].id, ctx[|ctx| - 1].side) else Start
  }

  /** The parent (and side) of the last split node of ctx below depth base whose key is k. */
  function KeyParent(ctx: seq<Frame>, base: nat, k: nat, key: NodeId -> nat): (Parent, bool)
    decreases |ctx|
  {
    if |ctx| <= base then (Virtual, false)
    else if key(ctx[|ctx| - 1].id) == k then
      (Above(ctx[..|ctx| - 1], base, 1), SideAbove(ctx[..|ctx| - 1], base, 1))
    else KeyParent(ctx[..|ctx| - 1], base, k, key)
  }

  function AnchorId(a: Anchor): Option<NodeId>
  {
    if a.Anchor? then Some(a.at.id) else None
  }

  /** The inter-branch xor the loop compares against: all ones before the first split node. */
  function PrevXor(ctx: seq<Frame>, base: nat, cur: Shape, key: NodeId -> nat, kt: KeyType): nat
  {
    if |ctx| <= base then Limit(kt) - 1
    else
      var s := Fill(ctx[|ctx| - 1], cur);
      Xor(key(s.left.id), key(s.right.id))
  }

  /** The window after walking the path ctx from depth base. */
  function WindowAt(ctx: seq<Frame>, base: nat, m: WalkMeth, k: nat, key: NodeId -> nat): Window
  {
    var np := if m.Keyed() then KeyParent(ctx, base, k, key) else (Virtual, false);
    Window(SlotAt(ctx, base), Above(ctx, base, 1), SideAbove(ctx, base, 1), Above(ctx, base, 2),
           SideAbove(ctx, base, 2), np.0, np.1)
  }

  /** What the descent reports once the walk from depth base has stopped at w. */
  function Outcome(w: Stop, base: nat, m: WalkMeth, k: nat, key: NodeId -> nat): Descent
  {
    var p := w.at.id;
    Descent(if !m.Keyed() || Accepts(m, key(p), k) then Some(p) else None,
            p, w.at.Split?, m.Keyed() && k >= key(p), WindowAt(w.path, base, m, k, key), AnchorId(w.anchor))
  }

  lemma OutcomeAt(ctx: seq<Frame>, cur: Shape, anchor: Anchor, base: nat, m: WalkMeth, k: nat, key: NodeId -> nat)
    ensures Outcome(Stop(ctx, cur, anchor), base, m, k, key) ==
              Descent(if !m.Keyed() || Accepts(m, key(cur.id), k) then Some(cur.id) else None, cur.id, cur.Split?,
                      m.Keyed() && k >= key(cur.id), WindowAt(ctx, base, m, k, key), AnchorId(anchor))
  {
  }

  /**
   * How the loop tells roles apart.  Entering record cur.id through the path
   * ctx, its branches are always set; they differ and their xor does not
   * exceed the previous inter-branch xor exactly when cur is a split node,
   * in which case they are its two subtrees.  A leaf that is also a split node
   * higher up has the larger xor of that node; the nodeless leaf loops on itself.
   */
  lemma Classify(whole: Shape, ctx: seq<Frame>, cur: Shape, base: nat, b: Branches, key: NodeId -> nat,
                 kt: KeyType)
    requires Wf(whole, key) && Linked(whole, b) && Nodeless(whole, b) && Plug(ctx, cur) == whole
    requires forall x :: key(x) < Limit(kt)
    requires base <= |ctx|
    requires |ctx| == base ==> cur.Split? || |ctx| == 0
    requires |ctx| > base ==> cur.id != ctx[|ctx| - 1].id
    ensures (cur.id, false) in b && (cur.id, true) in b
    ensures cur.Split? <==>
              b[(cur.id, false)] != b[(cur.id, true)] &&
              Xor(key(b[(cur.id, false)]), key(b[(cur.id, true)])) <= PrevXor(ctx, base, cur, key, kt)
    ensures cur.Split? ==> b[(cur.id, false)] == cur.left.id && b[(cur.id, true)] == cur.right.id
  {
    LinkedPlug(ctx, cur, b);
    PlugSets(ctx, cur, key);
    if cur.Split? {
      ClassifySplit(whole, ctx, cur, base, b, key, kt);
    } else if cur.id in Splits(whole) {
      ClassifyLeaf(whole, ctx, cur, b, key);
    }
  }

  lemma ClassifySplit(whole: Shape, ctx: seq<Frame>, cur: Shape, base: nat, b: Branches, key: NodeId -> nat,
                      kt: KeyType)
    requires Wf(whole, key) && Plug(ctx, cur) == whole && Linked(cur, b) && cur.Split?
    requires forall x :: key(x) < Limit(kt)
    requires base <= |ctx|
    ensures cur.left.id != cur.right.id
    ensures Xor(key(cur.left.id), key(cur.right.id)) <= PrevXor(ctx, base, cur, key, kt)
    ensures |ctx| > base ==>
              var s := Fill(ctx[|ctx| - 1], cur);
              Dist(key(cur.left.id), key(cur.right.id)) < Dist(key(s.left.id), key(s.right.id))
  {
    var n := |ctx|;
    SubtreeWf(ctx, cur, key);
    var l, r := cur.left, cur.right;
    TopIsLeaf(l);
    TopIsLeaf(r);
    LeavesApart(cur, key);
    if n == base {
      LimitPow2(kt);
      XorBound(key(l.id), key(r.id), WordBits(kt));
    } else {
      var up := ctx[..n - 1];
      var s := Fill(ctx[n - 1], cur);
      assert up + [ctx[n - 1]] == ctx;
      PlugPush(up, ctx[n - 1], cur);
      SubtreeWf(up, s, key);
      ChildSplitCloser(s, key);
      XorLess(key(l.id), key(r.id), key(s.left.id), key(s.right.id));
    }
  }

  lemma ClassifyLeaf(whole: Shape, ctx: seq<Frame>, cur: Shape, b: Branches, key: NodeId -> nat)
    requires Wf(whole, key) && Plug(ctx, cur) == whole && LinkedPath(ctx, cur, b)
    requires cur.Leaf? && cur.id in Splits(whole)
    requires |ctx| > 0 && cur.id != ctx[|ctx| - 1].id
    ensures (cur.id, false) in b && (cur.id, true) in b
    ensures var s := Fill(ctx[|ctx| - 1], cur);
      Xor(key(b[(cur.id, false)]), key(b[(cur.id, true)])) > Xor(key(s.left.id), key(s.right.id)) &&
      Dist(key(b[(cur.id, false)]), key(b[(cur.id, true)])) > Dist(key(s.left.id), key(s.right.id)) &&
      b[(cur.id, false)] != b[(cur.id, true)]
  {
    var n := |ctx|;
    var up := ctx[..n - 1];
    var s := Fill(ctx[n - 1], cur);
    assert up + [ctx[n - 1]] == ctx;
    PlugPush(up, ctx[n - 1], cur);
    SubtreeWf(up, s, key);
    SplitsInLeaves(ctx[n - 1].sib);
    LeavesApart(s, key);
    PlugSets(up, s, key);
    var i := SplitAbove(up, s, cur.id, key);
    assert up[i + 1..] + [ctx[n - 1]] == ctx[i + 1..];
    PlugPush(up[i + 1..], ctx[n - 1], cur);
    var f := BranchesOf(whole, ctx, cur, b, key, i);
    assert Wf(ctx[n - 1].sib, key);
    TopKey(ctx[n - 1].sib, key);
    XorLess(key(s.left.id), key(s.right.id), key(f.left.id), key(f.right.id));
    XorZero(key(f.left.id), key(f.right.id));
  }

  /** The branches of the record of frame i lead to the two subtrees of its split node. */
  lemma BranchesOf(whole: Shape, ctx: seq<Frame>, cur: Shape, b: Branches, key: NodeId -> nat, i: nat)
    returns (f: Shape)
    requires Wf(whole, key) && Plug(ctx, cur) == whole && LinkedPath(ctx, cur, b) && i < |ctx|
    ensures f == Fill(ctx[i], Plug(ctx[i + 1..], cur)) && Wf(f, key)
    ensures (ctx[i].id, false) in b && b[(ctx[i].id, false)] == f.left.id
    ensures (ctx[i].id, true) in b && b[(ctx[i].id, true)] == f.right.id
  {
    var below := Plug(ctx[i + 1..], cur);
    f := Fill(ctx[i], below);
    assert FrameLinked(ctx, i, cur, b);
    assert below.id == TopAt(ctx, i + 1, cur) by {
      if i + 1 < |ctx| {
        assert ctx[i + 1..][0] == ctx[i + 1];
      }
    }
    assert ctx[..i] + [ctx[i]] + ctx[i + 1..] == ctx;
    PlugAppend(ctx[..i] + [ctx[i]], ctx[i + 1..], cur);
    PlugPush(ctx[..i], ctx[i], below);
    SubtreeWf(ctx[..i], f, key);
  }

  /** A walk stops on a leaf, and a keyed walk on a split node whose prefix excludes its key. */
  lemma WalkStops(ctx: seq<Frame>, cur: Shape, m: WalkMeth, k: nat, side: bool, anchor: Anchor, key: NodeId -> nat)
    ensures cur.Leaf? || (cur.Split? && m.Keyed() && Mismatch(k, key(cur.left.id), key(cur.right.id))) ==>
              Walk(ctx, cur, m, k, side, anchor, key) == Stop(ctx, cur, anchor)
  {
  }

  /** Where the loop is in the ghost walk: the path so far, the subtree below, the side and the anchor. */
  datatype Pos = Pos(ctx: seq<Frame>, cur: Shape, side: bool, anchor: Anchor)

  /** The loop state agrees with the walk position pos, below depth base of whole, before a stop. */
  ghost predicate Running(whole: Shape, base: nat, pos: Pos, m: WalkMeth, k: nat, key: NodeId -> nat, kt: KeyType,
                          p: NodeId, win: Window, brside: bool, pxor: nat, bnode: Option<NodeId>)
  {
    var ctx := pos.ctx;
    base <= |ctx| && Plug(ctx, pos.cur) == whole &&
    (if |ctx| == base then pos.cur.Split? || base == 0 else pos.cur.id != ctx[|ctx| - 1].id) &&
    // the loop's own copies of what the walk knows
    (p, pxor, win, bnode) == (pos.cur.id, PrevXor(ctx, base, pos.cur, key, kt), WindowAt(ctx, base, m, k, key),
                              AnchorId(pos.anchor)) &&
    (!m.Keyed() ==> brside == pos.side)
  }

  /** The loop has stopped where the walk w stops, holding what the walk knows there. */
  ghost predicate Stopped(w: Stop, base: nat, pos: Pos, m: WalkMeth, k: nat, key: NodeId -> nat,
                          mismatch: bool, p: NodeId, win: Window, bnode: Option<NodeId>)
  {
    (w, mismatch, p, win, bnode) ==
    (Stop(pos.ctx, pos.cur, pos.anchor), pos.cur.Split?, pos.cur.id, WindowAt(pos.ctx, base, m, k, key), AnchorId(pos.anchor))
  }

  /** The walk from pos, in the walk's own terms. */
  ghost function WalkFrom(pos: Pos, m: WalkMeth, k: nat, key: NodeId -> nat): Stop
  {
    Walk(pos.ctx, pos.cur, m, k, pos.side, pos.anchor, key)
  }

  /** The position after walking down from split node pos.cur to side sd. */
  ghost function Down(pos: Pos, m: WalkMeth, sd: bool): Pos
    requires pos.cur.Split?
  {
    var cur := pos.cur;
    var f := if sd then Frame(cur.id, true, cur.left) else Frame(cur.id, false, cur.right);
    var next := if sd then cur.right else cur.left;
    var anchor' := if (sd && m.Down()) || (!sd && m.Up()) then Anchor(pos.ctx, cur) else pos.anchor;
    var side' := if m == Next then false else if m == Prev then true else sd;
    Pos(pos.ctx + [f], next, side', anchor')
  }

  /** The loop's update on going down from split node pos.cur keeps it in step with the walk. */
  lemma Follow(whole: Shape, base: nat, pos: Pos, m: WalkMeth, k: nat, key: NodeId -> nat, kt: KeyType,
               win: Window, brside: bool, pxor: nat, bnode: Option<NodeId>, sd: bool)
    requires Wf(whole, key) && Running(whole, base, pos, m, k, key, kt, pos.cur.id, win, brside, pxor, bnode)
    requires pos.cur.Split? && !(m.Keyed() && Mismatch(k, key(pos.cur.left.id), key(pos.cur.right.id)))
    requires sd == if m.Keyed() then KeySide(k, key(pos.cur.left.id), key(pos.cur.right.id)) else pos.side
    ensures var pos' := Down(pos, m, sd);
      var p := pos.cur.id;
      var win' := Shift(win, p, sd, m.Keyed() && k == key(p));
      var bnode' := if (sd && m.Down()) || (!sd && m.Up()) then Some(p) else bnode;
      WalkFrom(pos', m, k, key) == WalkFrom(pos, m, k, key) &&
      (pos'.cur.id == p ==> WalkFrom(pos, m, k, key) == Stop(pos'.ctx, pos'.cur, pos'.anchor) && pos'.cur.Leaf?) &&
      win' == WindowAt(pos'.ctx, base, m, k, key) && bnode' == AnchorId(pos'.anchor) &&
      (pos'.cur.id != p ==>
         Running(whole, base, pos', m, k, key, kt, pos'.cur.id, win', pos'.side,
                 Xor(key(pos.cur.left.id), key(pos.cur.right.id)), bnode'))
  {
    DownWalk(pos, m, k, key, sd);
    DownPlug(whole, pos, m, key, sd);
    DownWindow(pos, base, m, k, key, sd);
    DownPrev(pos, base, m, key, kt, sd);
    var pos' := Down(pos, m, sd);
    WalkStops(pos'.ctx, pos'.cur, m, k, pos'.side, pos'.anchor, key);
  }

  /** The walk from pos goes on from Down(pos, m, sd). */
  lemma DownWalk(pos: Pos, m: WalkMeth, k: nat, key: NodeId -> nat, sd: bool)
    requires pos.cur.Split? && !(m.Keyed() && Mismatch(k, key(pos.cur.left.id), key(pos.cur.right.id)))
    requires sd == if m.Keyed() then KeySide(k, key(pos.cur.left.id), key(pos.cur.right.id)) else pos.side
    ensures WalkFrom(Down(pos, m, sd), m, k, key) == WalkFrom(pos, m, k, key)
  {
  }

  /** Going down keeps the path inside the tree; a branch back to the same record is a leaf. */
  lemma DownPlug(whole: Shape, pos: Pos, m: WalkMeth, key: NodeId -> nat, sd: bool)
    requires pos.cur.Split? && Wf(whole, key) && Plug(pos.ctx, pos.cur) == whole
    ensures var pos' := Down(pos, m, sd);
      Plug(pos'.ctx, pos'.cur) == whole && |pos'.ctx| == |pos.ctx| + 1 &&
      pos'.ctx[..|pos.ctx|] == pos.ctx && (pos'.cur.id == pos.cur.id ==> pos'.cur.Leaf?)
  {
    var cur := pos.cur;
    var pos' := Down(pos, m, sd);
    var f := pos'.ctx[|pos.ctx|];
    assert pos'.ctx == pos.ctx + [f];
    assert Fill(f, pos'.cur) == cur;
    PlugPush(pos.ctx, f, pos'.cur);
    SubtreeWf(pos.ctx, cur, key);
    assert pos'.cur.id == cur.id ==> pos'.cur.Leaf? by {
      assert cur.id !in Splits(pos'.cur);
    }
  }

  /** Going down shifts the window by one frame. */
  lemma DownWindow(pos: Pos, base: nat, m: WalkMeth, k: nat, key: NodeId -> nat, sd: bool)
    requires pos.cur.Split? && base <= |pos.ctx|
    ensures WindowAt(Down(pos, m, sd).ctx, base, m, k, key) ==
              Shift(WindowAt(pos.ctx, base, m, k, key), pos.cur.id, sd, m.Keyed() && k == key(pos.cur.id))
  {
    var ctx' := Down(pos, m, sd).ctx;
    assert ctx'[..|ctx'| - 1] == pos.ctx;
  }

  /** After going down, the previous inter-branch xor is the one of the split node just left. */
  lemma DownPrev(pos: Pos, base: nat, m: WalkMeth, key: NodeId -> nat, kt: KeyType, sd: bool)
    requires pos.cur.Split? && base <= |pos.ctx|
    ensures var pos' := Down(pos, m, sd);
      PrevXor(pos'.ctx, base, pos'.cur, key, kt) == Xor(key(pos.cur.left.id), key(pos.cur.right.id))
  {
  }


  /** The tree whole is well formed, wired by b, and holds keys of type kt. */
  ghost predicate Sound(whole: Shape, b: Branches, key: NodeId -> nat, kt: KeyType)
  {
    Wf(whole, key) && Linked(whole, b) && Nodeless(whole, b) && forall x :: key(x) < Limit(kt)
  }

  /**
   * The first half of a turn of the descent loop: reading the branches of
   * record p to tell whether the descent stops there (the nodeless leaf, a
   * leaf whose split node was visited higher up, or a split node whose keys
   * all differ from k above its split bit), and otherwise on which side it
   * goes on.
   */
  method Inspect(b: Branches, key: NodeId -> nat, kt: KeyType, m: WalkMeth, k: nat, ghost whole: Shape, ghost base: nat,
                 ghost pos: Pos, p: NodeId, win: Window, brside: bool, pxor: nat, bnode: Option<NodeId>)
    returns (stop: bool, mismatch: bool, brside': bool, x: nat)
    requires Sound(whole, b, key, kt)
    requires Running(whole, base, pos, m, k, key, kt, p, win, brside, pxor, bnode)
    ensures stop ==> WalkFrom(pos, m, k, key) == Stop(pos.ctx, pos.cur, pos.anchor)
    ensures mismatch <==> stop && pos.cur.Split?
    ensures !stop ==>
              pos.cur.Split? &&
              var l, r := pos.cur.left.id, pos.cur.right.id;
              !(m.Keyed() && Mismatch(k, key(l), key(r))) && x == Xor(key(l), key(r)) &&
              brside' == (if m.Keyed() then KeySide(k, key(l), key(r)) else pos.side) &&
              (p, brside') in b && b[(p, brside')] == if brside' then r else l
  {
    Classify(whole, pos.ctx, pos.cur, base, b, key, kt);
    WalkStops(pos.ctx, pos.cur, m, k, pos.side, pos.anchor, key);
    stop, mismatch, brside', x := true, false, brside, 0;
    var l := b[(p, false)];
    var r := b[(p, true)];
    if l == r {
      // the nodeless leaf
      return;
    }
    var kl := key(l);
    var kr := key(r);
    if m.Keyed() {
      brside' := Xor(k, kl) >= Xor(k, kr);
    }
    x := Xor(kl, kr);
    if x > pxor {
      // a leaf whose split node was visited higher up
    } else if m.Keyed() && Xor(k, kl) > x && Xor(k, kr) > x {
      // k cannot be below this split node
      mismatch := true;
    } else {
      stop := false;
    }
  }

  /** The second half of a turn of the descent loop: following the branch chosen at split node p. */
  method Go(b: Branches, key: NodeId -> nat, kt: KeyType, m: WalkMeth, k: nat, ghost whole: Shape, ghost base: nat,
            ghost pos: Pos, p: NodeId, win: Window, brside: bool, pxor: nat, bnode: Option<NodeId>, sd: bool, x: nat)
    returns (pxor': nat, brside': bool, bnode': Option<NodeId>, win': Window, done: bool, p': NodeId, ghost pos': Pos)
    requires Wf(whole, key) && Running(whole, base, pos, m, k, key, kt, p, win, brside, pxor, bnode)
    requires pos.cur.Split? && !(m.Keyed() && Mismatch(k, key(pos.cur.left.id), key(pos.cur.right.id)))
    requires sd == if m.Keyed() then KeySide(k, key(pos.cur.left.id), key(pos.cur.right.id)) else pos.side
    requires (p, sd) in b && b[(p, sd)] == if sd then pos.cur.right.id else pos.cur.left.id
    requires x == Xor(key(pos.cur.left.id), key(pos.cur.right.id))
    ensures pos' == Down(pos, m, sd)
    ensures WalkFrom(pos', m, k, key) == WalkFrom(pos, m, k, key)
    ensures done ==> Stopped(WalkFrom(pos, m, k, key), base, pos', m, k, key, false, p', win', bnode')
    ensures !done ==> Running(whole, base, pos', m, k, key, kt, p', win', brside', pxor', bnode')
  {
    Follow(whole, base, pos, m, k, key, kt, win, brside, pxor, bnode, sd);
    pxor' := x;
    // shift all copies by one, remembering the parent of the key's own split node
    win' := Shift(win, p, sd, m.Keyed() && k == key(p));
    bnode' := bnode;
    if (sd && m.Down()) || (!sd && m.Up()) {
      bnode' := Some(p);
    }
    // next and prev go down the other way once they have turned
    brside' := if m == Next then false else if m == Prev then true else sd;
    pos' := Down(pos, m, sd);
    var c := b[(win'.slot.owner, win'.slot.side)];
    done := c == p;
    // when the branch loops back to p, p is its own leaf
    p' := c;
  }

  /** Before the first turn, the loop's copies hold what the walk knows at its start. */
  lemma Begin(whole: Shape, ctx0: seq<Frame>, cur0: Shape, m: WalkMeth, k: nat, key: NodeId -> nat, kt: KeyType)
    requires Plug(ctx0, cur0) == whole && (cur0.Split? || |ctx0| == 0)
    ensures Running(whole, |ctx0|, Pos(ctx0, cur0, m.InitialSide(), NoAnchor), m, k, key, kt, cur0.id,
                    Window(Start, Virtual, false, Virtual, false, Virtual, false), m.InitialSide(), Limit(kt) - 1, None)
  {
  }

  /** Once the loop has stopped where the walk w stops, its copies make up the walk's outcome. */
  lemma Finish(w: Stop, base: nat, pos: Pos, m: WalkMeth, k: nat, key: NodeId -> nat, mismatch: bool, p: NodeId,
               win: Window, bnode: Option<NodeId>)
    requires Stopped(w, base, pos, m, k, key, mismatch, p, win, bnode)
    ensures Outcome(w, base, m, k, key) ==
              Descent(if !m.Keyed() || Accepts(m, key(p), k) then Some(p) else None, p, mismatch,
                      m.Keyed() && k >= key(p), win, bnode)
  {
    OutcomeAt(pos.ctx, pos.cur, pos.anchor, base, m, k, key);
  }

  /**
   * `_cebu_descend` on the scalar key types: starting from the record `start`
   * (the tree's root, or a restart point of next and prev), reached through
   * the ghost path ctx0 into the subtree cur0, it follows the walk method m
   * for key k and stops where `Walk` stops, reporting `Outcome` of that stop.
   */
  method Descend(b: Branches, key: NodeId -> nat, kt: KeyType, start: NodeId, ghost whole: Shape,
                 ghost ctx0: seq<Frame>, ghost cur0: Shape, m: WalkMeth, k: nat)
    returns (d: Descent)
    requires Sound(whole, b, key, kt)
    requires Plug(ctx0, cur0) == whole && start == cur0.id && (cur0.Split? || |ctx0| == 0)
    ensures d == Outcome(Walk(ctx0, cur0, m, k, m.InitialSide(), NoAnchor, key), |ctx0|, m, k, key)
  {
    ghost var base := |ctx0|;
    ghost var pos := Pos(ctx0, cur0, m.InitialSide(), NoAnchor);
    ghost var w := Walk(ctx0, cur0, m, k, m.InitialSide(), NoAnchor, key);
    var p := start;
    var win := Window(Start, Virtual, false, Virtual, false, Virtual, false);
    var brside := m.InitialSide();
    var pxor: nat := Limit(kt) - 1;
    var bnode: Option<NodeId> := None;
    var mismatch := false;
    var done := false;
    Begin(whole, ctx0, cur0, m, k, key, kt);
    while !done
      invariant WalkFrom(pos, m, k, key) == w
      invariant !done ==> Running(whole, base, pos, m, k, key, kt, p, win, brside, pxor, bnode) && !mismatch
      invariant done ==> Stopped(w, base, pos, m, k, key, mismatch, p, win, bnode)
      decreases pos.cur, !done
    {
      var stop, x;
      stop, mismatch, brside, x := Inspect(b, key, kt, m, k, whole, base, pos, p, win, brside, pxor, bnode);
      if stop {
        done := true;
      } else {
        pxor, brside, bnode, win, done, p, pos := Go(b, key, kt, m, k, whole, base, pos, p, win, brside, pxor, bnode, brside, x);
      }
    }
    var ret := if !m.Keyed() || Accepts(m, key(p), k) then Some(p) else None;
    d := Descent(ret, p, mismatch, m.Keyed() && k >= key(p), win, bnode);
    Finish(w, base, pos, m, k, key, mismatch, p, win, bnode);
  }
}
