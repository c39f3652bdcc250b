/**
 * The earlier engine for unique 32-bit keys (`cbatree_u32.c`): its own
 * keyed descent `cbau_descend_u32`, and insert, lookup and delete built on
 * it.  The descent takes the key from a record `node` (a stack record
 * wrapping the key, for lookups), recognises node's own split node by
 * identity rather than by key, and returns node itself for an insertion of
 * a new key.  The rewiring of the deletion is the one of the generic engine,
 * but the deleted record is not marked.
 */
module CbaU32 {
  import opened Wrappers
  import opened Bits
  import opened Shapes
  import opened Walks
  import opened Arena
  import opened CebDescent
  import opened CebTree
  import opened Surgery
  import opened CebUpdate
  import opened CebDelete

  /**
   * What `cbau_descend_u32` reports: the record returned, the side a new
   * record takes (`ret_nside`), and the window at the stop (`ret_root` and
   * the three parents with their sides).
   */
  datatype Found = Found(ret: Option<NodeId>, nside: bool, win: Window)

  /** The parent (and side) of the split node of record node on path ctx, recognised by identity. */
  function IdParent(ctx: seq<Frame>, node: Option<NodeId>): (Parent, bool)
    decreases |ctx|
  {
    if |ctx| == 0 then (Virtual, false)
    else if node == Some(ctx[|ctx| - 1].id) then (Above(ctx[..|ctx| - 1], 0, 1), SideAbove(ctx[..|ctx| - 1], 0, 1))
    else IdParent(ctx[..|ctx| - 1], node)
  }

  /** The window after walking the path ctx from the root. */
  function WindowOf(ctx: seq<Frame>, node: Option<NodeId>): Window
  {
    var np := IdParent(ctx, node);
    Window(SlotAt(ctx, 0), Above(ctx, 0, 1), SideAbove(ctx, 0, 1), Above(ctx, 0, 2), SideAbove(ctx, 0, 2), np.0, np.1)
  }

  /**
   * What the descent reports once the keyed walk has stopped at w: the record
   * stopped on when it holds k; otherwise node when the caller asked for the
   * slot to insert at (`insert`), and nothing for lookups and deletions.
   */
  ghost function Report(w: Stop, node: Option<NodeId>, k: nat, insert: bool, key: NodeId -> nat): Found
  {
    var p := w.at.id;
    Found(if k == key(p) then Some(p) else if insert then node else None, k >= key(p), WindowOf(w.path, node))
  }

  /** Going down from split node pos.cur shifts the window by one frame. */
  lemma WindowDown(pos: Pos, node: Option<NodeId>, sd: bool)
    requires pos.cur.Split?
    ensures WindowOf(Down(pos, KeyEq, sd).ctx, node) ==
              Shift(WindowOf(pos.ctx, node), pos.cur.id, sd, node == Some(pos.cur.id))
  {
    var ctx' := Down(pos, KeyEq, sd).ctx;
    assert ctx'[..|ctx'| - 1] == pos.ctx;
  }

  /**
   * The tests at record p in one turn of `cbau_descend_u32`: the nodeless
   * leaf, a leaf recognised by its larger inter-branch xor, and a key that
   * differs from both branches above their split bit all stop the descent;
   * otherwise it goes on to the side closer to k.
   */
  method Probe(b: Branches, key: NodeId -> nat, ghost whole: Shape, ghost pos: Pos, k: nat, p: NodeId, pxor: nat)
    returns (stop: bool, sd: bool, x: nat)
    requires Sound(whole, b, key, U32)
    requires Running(whole, 0, pos, KeyEq, k, key, U32, p, WindowAt(pos.ctx, 0, KeyEq, k, key), pos.side, pxor, None)
    ensures stop ==> WalkFrom(pos, KeyEq, k, key) == Stop(pos.ctx, pos.cur, pos.anchor)
    ensures !stop ==>
              pos.cur.Split? &&
              var l, r := pos.cur.left.id, pos.cur.right.id;
              !Mismatch(k, key(l), key(r)) && x == Xor(key(l), key(r)) && sd == KeySide(k, key(l), key(r)) &&
              (p, sd) in b && b[(p, sd)] == if sd then r else l
  {
    Classify(whole, pos.ctx, pos.cur, 0, b, key, U32);
    WalkStops(pos.ctx, pos.cur, KeyEq, k, pos.side, pos.anchor, key);
    stop, sd, x := true, false, 0;
    var l := b[(p, false)];
    var r := b[(p, true)];
    if l == r {
      // the nodeless leaf
    } else if Xor(key(l), key(r)) > pxor {
      // a leaf, whose split node was visited higher up
    } else if Xor(k, key(l)) > Xor(key(l), key(r)) && Xor(k, key(r)) > Xor(key(l), key(r)) {
      // k differs from both branches above their split bit: it cannot be below p
    } else {
      stop, sd, x := false, !(Xor(k, key(l)) < Xor(k, key(r))), Xor(key(l), key(r));
    }
  }

  /**
   * Going down from split node p to side sd in `cbau_descend_u32`: all copies
   * shift by one, and the descent stops when the branch loops back to p.
   */
  method Pass(b: Branches, key: NodeId -> nat, ghost whole: Shape, ghost pos: Pos, k: nat, node: Option<NodeId>,
              p: NodeId, win: Window, pxor: nat, sd: bool, x: nat)
    returns (done: bool, p': NodeId, win': Window, pxor': nat, ghost pos': Pos)
    requires Wf(whole, key)
    requires Running(whole, 0, pos, KeyEq, k, key, U32, p, WindowAt(pos.ctx, 0, KeyEq, k, key), pos.side, pxor, None)
    requires win == WindowOf(pos.ctx, node)
    requires pos.cur.Split? && !Mismatch(k, key(pos.cur.left.id), key(pos.cur.right.id))
    requires sd == KeySide(k, key(pos.cur.left.id), key(pos.cur.right.id))
    requires (p, sd) in b && b[(p, sd)] == if sd then pos.cur.right.id else pos.cur.left.id
    requires x == Xor(key(pos.cur.left.id), key(pos.cur.right.id))
    ensures pos' == Down(pos, KeyEq, sd)
    ensures WalkFrom(pos', KeyEq, k, key) == WalkFrom(pos, KeyEq, k, key)
    ensures win' == WindowOf(pos'.ctx, node) && p' == pos'.cur.id
    ensures done ==> WalkFrom(pos, KeyEq, k, key) == Stop(pos'.ctx, pos'.cur, pos'.anchor)
    ensures !done ==>
              Running(whole, 0, pos', KeyEq, k, key, U32, p', WindowAt(pos'.ctx, 0, KeyEq, k, key), pos'.side, pxor',
                      None)
  {
    Follow(whole, 0, pos, KeyEq, k, key, U32, WindowAt(pos.ctx, 0, KeyEq, k, key), pos.side, pxor, None, sd);
    WindowDown(pos, node, sd);
    pxor' := x;
    // shift all copies by one, noting the parent of node's own split node
    win' := Shift(win, p, sd, node == Some(p));
    pos' := Down(pos, KeyEq, sd);
    var c := b[(p, sd)];
    // when the branch loops back to p, p is its own leaf
    done := c == p;
    p' := c;
  }

  /**
   * `cbau_descend_u32`: from the root record `start` of the tree whole, the
   * descent for key k stops where the keyed walk stops, and reports what
   * `Report` says of that stop.
   */
  method Descend(b: Branches, key: NodeId -> nat, start: NodeId, ghost whole: Shape, node: Option<NodeId>, k: nat,
                 insert: bool)
    returns (d: Found)
    requires Wf(whole, key) && Linked(whole, b) && Nodeless(whole, b) && forall x :: key(x) < Limit(U32)
    requires start == whole.id
    ensures d == Report(Walk([], whole, KeyEq, k, false, NoAnchor, key), node, k, insert, key)
  {
    ghost var pos := Pos([], whole, false, NoAnchor);
    ghost var w := WalkFrom(pos, KeyEq, k, key);
    var p := start;
    var win := Window(Start, Virtual, false, Virtual, false, Virtual, false);
    // larger than any inter-branch xor, so the first record is never taken for a leaf
    var pxor: nat := Limit(U32) - 1;
    var done := false;
    Begin(whole, [], whole, KeyEq, k, key, U32);
    while !done
      invariant WalkFrom(pos, KeyEq, k, key) == w
      invariant win == WindowOf(pos.ctx, node) && p == pos.cur.id
      invariant !done ==> Running(whole, 0, pos, KeyEq, k, key, U32, p, WindowAt(pos.ctx, 0, KeyEq, k, key), pos.side,
                                  pxor, None)
      invariant done ==> w == Stop(pos.ctx, pos.cur, pos.anchor)
      decreases pos.cur, !done
    {
      var stop, sd, x := Probe(b, key, whole, pos, k, p, pxor);
      if stop {
        done := true;
      } else {
        done, p, win, pxor, pos := Pass(b, key, whole, pos, k, node, p, win, pxor, sd, x);
      }
    }
    var ret := if k == key(p) then Some(p) else if insert then node else None;
    d := Found(ret, k >= key(p), win);
  }

  /** What a descent of a valid tree reports, in the terms the operations need. */
  lemma Reached(s: Shape, k: nat, key: NodeId -> nat, b: Branches, node: Option<NodeId>, insert: bool, w: Stop, d: Found)
    requires Wf(s, key) && Linked(s, b)
    requires w == Walk([], s, KeyEq, k, false, NoAnchor, key) && d == Report(w, node, k, insert, key)
    ensures Plug(w.path, w.at) == s && w.at.id in Leaves(s) && d.win == WindowOf(w.path, node)
    ensures d.nside == (k >= key(w.at.id)) && (k == key(w.at.id) <==> k in Keys(s, key))
    ensures k in Keys(s, key) ==> d.ret == Some(w.at.id) && w.at.Leaf?
    ensures k !in Keys(s, key) ==> d.ret == (if insert then node else None)
    ensures Fits(w.path, w.at, k, key) && (w.at.Leaf? || Mismatch(k, key(w.at.left.id), key(w.at.right.id)))
    ensures Holds(Some(s.id), b, d.win.slot, w.at.id)
  {
    KeyedHit(s, KeyEq, k, key);
    StopInside(s, KeyEq, k, false, key);
    WalkShape([], s, KeyEq, k, false, NoAnchor, key);
    WalkFits([], s, KeyEq, k, false, NoAnchor, key);
    LinkedPlug(w.path, w.at, b);
    if |w.path| > 0 {
      assert FrameLinked(w.path, |w.path| - 1, w.at, b);
    }
  }

  // ------------------------------------------------------------- lookup

  /** `cba_lookup_u32`: the record holding key k, if any. */
  method Lookup(t: Tree, k: nat) returns (r: Option<NodeId>)
    requires t.Valid() && t.kt == U32
    ensures r.Some? <==> k in t.Contents()
    ensures r.Some? ==> r.value in t.Records() && t.key(r.value) == k
  {
    if t.root.None? {
      return None;
    }
    ghost var s := t.shape.value;
    // the stack record wrapping k is never a record of the tree
    var d := Descend(t.b, t.key, t.root.value, s, None, k, false);
    Reached(s, k, t.key, t.b, None, false, Walk([], s, KeyEq, k, false, NoAnchor, t.key), d);
    r := d.ret;
  }

  // ---------------------------------------------------------- insertion

  /**
   * The splice of `cba_insert_u32`: node takes side nside of its own branches,
   * the record found at slot parent takes the other, and parent now leads to
   * node.
   */
  method Link(t: Tree, node: NodeId, parent: Slot, nside: bool, ghost path: seq<Frame>, ghost at: Shape)
    requires t.Valid() && t.shape == Some(Plug(path, at)) && node !in t.Records() && t.key(node) !in t.Contents()
    requires nside == (t.key(node) >= t.key(at.id)) && parent == SlotAt(path, 0) && Holds(t.root, t.b, parent, at.id)
    requires Fits(path, at, t.key(node), t.key) && (at.Leaf? || Mismatch(t.key(node), t.key(at.left.id), t.key(at.right.id)))
    modifies t
    ensures t.Valid()
    ensures t.Contents() == old(t.Contents()) + {t.key(node)} && t.Records() == old(t.Records()) + {node}
    ensures t.b == StoreBranch(old(t.b)[(node, nside) := node][(node, !nside) := at.id], parent, node)
    ensures t.root == StoreRoot(old(t.root), parent, node)
    ensures KeepsOthers(old(t.b), t.b, old(t.Records()) + {node})
  {
    var cur := if parent.Start? then t.root.value else t.b[(parent.owner, parent.side)];
    if !nside {
      t.b := t.b[(node, false) := node];
      t.b := t.b[(node, true) := cur];
    } else {
      t.b := t.b[(node, true) := node];
      t.b := t.b[(node, false) := cur];
    }
    Store(t, parent, node);
    SlotOwner(path, at);
    SplitsInLeaves(Plug(path, at));
    KeepsWrites(old(t.b), node, nside, node, !nside, at.id, parent, node, old(t.Records()) + {node});
    Grafted(Plug(path, at), path, at, node, nside, t.key, old(t.b), t.b);
    t.shape := Some(Plug(path, Graft(at, node, nside)));
  }

  /**
   * `cba_insert_u32` as written: inserts node under its own key unless that
   * key is stored, and returns node or the record holding the key.  The
   * result being node is what tells it to link node in, which is only right
   * while node is not in the tree already (`ReinsertLoses`).  Besides r, it
   * reports the pointer location `slot` the descent reached and the record
   * p found there.
   */
  method Insert(t: Tree, node: NodeId) returns (r: NodeId, ghost slot: Slot, ghost p: NodeId)
    requires t.Valid() && t.kt == U32 && node !in t.Records()
    modifies t
    ensures t.Valid()
    ensures old(t.root).None? ==>
              r == node && t.root == Some(node) && t.b == old(t.b)[(node, false) := node][(node, true) := node]
    ensures t.key(node) in old(t.Contents()) ==>
              r in old(t.Records()) && t.key(r) == t.key(node) && t.root == old(t.root) && t.b == old(t.b) &&
              t.shape == old(t.shape)
    ensures t.key(node) !in old(t.Contents()) ==>
              r == node && t.Contents() == old(t.Contents()) + {t.key(node)} && t.Records() == old(t.Records()) + {node}
    // a new key writes node's two branches and the branch that led to p
    ensures old(t.root).Some? && t.key(node) !in old(t.Contents()) ==>
              p in old(t.Records()) && Holds(old(t.root), old(t.b), slot, p) &&
              var nside := t.key(node) >= t.key(p);
              t.b == StoreBranch(old(t.b)[(node, nside) := node][(node, !nside) := p], slot, node) &&
              t.root == StoreRoot(old(t.root), slot, node)
    ensures KeepsOthers(old(t.b), t.b, old(t.Records()) + {node})
  {
    if t.root.None? {
      // empty tree, insert a leaf only
      KeepsWrites(t.b, node, false, node, true, node, Start, node, {node});
      t.b := t.b[(node, false) := node][(node, true) := node];
      t.root := Some(node);
      t.shape := Some(Leaf(node));
      return node, Start, node;
    }
    var k := t.key(node);
    ghost var s := t.shape.value;
    var d := Descend(t.b, t.key, t.root.value, s, Some(node), k, true);
    ghost var w := Walk([], s, KeyEq, k, false, NoAnchor, t.key);
    Reached(s, k, t.key, t.b, Some(node), true, w, d);
    r := d.ret.value;
    slot, p := d.win.slot, w.at.id;
    if r == node {
      Link(t, node, d.win.slot, d.nside, w.path, w.at);
    }
  }

  /**
   * `cba_insert_u32` with the splice guarded by `*parent != node` as well:
   * a record already in the tree is returned as the record holding its key,
   * and nothing is written.
   */
  method InsertChecked(t: Tree, node: NodeId) returns (r: NodeId)
    requires t.Valid() && t.kt == U32
    modifies t
    ensures t.Valid()
    ensures old(t.root).None? ==>
              r == node && t.root == Some(node) && t.b == old(t.b)[(node, false) := node][(node, true) := node]
    ensures t.key(node) in old(t.Contents()) ==>
              r in old(t.Records()) && t.key(r) == t.key(node) && t.root == old(t.root) && t.b == old(t.b) &&
              t.shape == old(t.shape)
    ensures node in old(t.Records()) ==> r == node
    ensures t.key(node) !in old(t.Contents()) ==>
              r == node && t.Contents() == old(t.Contents()) + {t.key(node)} && t.Records() == old(t.Records()) + {node}
    ensures KeepsOthers(old(t.b), t.b, old(t.Records()) + {node})
  {
    if t.root.None? {
      KeepsWrites(t.b, node, false, node, true, node, Start, node, {node});
      t.b := t.b[(node, false) := node][(node, true) := node];
      t.root := Some(node);
      t.shape := Some(Leaf(node));
      return node;
    }
    var k := t.key(node);
    ghost var s := t.shape.value;
    var d := Descend(t.b, t.key, t.root.value, s, Some(node), k, true);
    ghost var w := Walk([], s, KeyEq, k, false, NoAnchor, t.key);
    Reached(s, k, t.key, t.b, Some(node), true, w, d);
    if node in Leaves(s) {
      LeafKey(s, node, t.key);
      KeysInjective(s, node, w.at.id, t.key);
    }
    r := d.ret.value;
    var parent := d.win.slot;
    var cur := if parent.Start? then t.root.value else t.b[(parent.owner, parent.side)];
    if r == node && cur != node {
      Link(t, node, parent, d.nside, w.path, w.at);
    }
  }

  /**
   * Records 1 and 2, inserted in that order, make record 2 the split node
   * above the leaves 1 and 2.  Inserting record 2 again, the descent finds
   * key 2 on record 2 and returns it, which is node; the splice then points
   * both branches of record 2 at itself.  The root record 2 has become a
   * lone nodeless leaf, and record 1 is no longer reachable.
   */
  lemma ReinsertLoses()
    ensures Wf(TwoShape(), Ident) && Linked(TwoShape(), TwoBranches()) && Nodeless(TwoShape(), TwoBranches())
    ensures Leaves(TwoShape()) == {1, 2}
    ensures var d := Report(Walk([], TwoShape(), KeyEq, 2, false, NoAnchor, Ident), Some(2), 2, true, Ident);
      d.ret == Some(2) && d.nside && d.win.slot == Branch(2, true)
    ensures Holds(Some(2), TwoBranches(), Branch(2, true), 2)
    ensures var b' := StoreBranch(TwoBranches()[(2, true) := 2][(2, false) := 2], Branch(2, true), 2);
      b'[(2, false)] == 2 && b'[(2, true)] == 2
  {
    TwoValid();
    TwoWalk();
  }

  /** Records 1 and 2 under the split node 2, as two insertions leave them. */
  function TwoShape(): Shape
  {
    Split(2, Leaf(1), Leaf(2))
  }

  function TwoBranches(): Branches
  {
    map[(1, false) := 1, (1, true) := 1, (2, false) := 1, (2, true) := 2]
  }

  lemma TwoValid()
    ensures Wf(TwoShape(), Ident) && Linked(TwoShape(), TwoBranches()) && Nodeless(TwoShape(), TwoBranches())
  {
    assert Xor(1, 2) == 3;
    assert Dist(1, 2) == 2;
  }

  lemma TwoWalk()
    ensures Walk([], TwoShape(), KeyEq, 2, false, NoAnchor, Ident) == Stop([Frame(2, true, Leaf(1))], Leaf(2), NoAnchor)
  {
    assert Xor(2, 1) == 3 && Xor(1, 2) == 3 && Xor(2, 2) == 0;
  }

  // ------------------------------------------------------------- deletion

  /** For a record of the tree, the parent found by identity is the one found by key. */
  lemma {:induction false} IdKeyParent(ctx: seq<Frame>, t: Shape, node: NodeId, key: NodeId -> nat)
    requires Wf(Plug(ctx, t), key) && node in Leaves(Plug(ctx, t))
    ensures IdParent(ctx, Some(node)) == KeyParent(ctx, 0, key(node), key)
    decreases |ctx|
  {
    if |ctx| > 0 {
      var n := |ctx|;
      var c, f := ctx[..n - 1], ctx[n - 1];
      assert c + [f] == ctx;
      PlugPush(c, f, t);
      InPathSplits(ctx, n - 1);
      PlugSets(ctx, t, key);
      SplitsInLeaves(Plug(ctx, t));
      if key(f.id) == key(node) {
        KeysInjective(Plug(ctx, t), f.id, node, key);
      }
      IdKeyParent(c, Fill(f, t), node, key);
    }
  }

  /**
   * `cba_delete_u32`: removes record node when it holds its key in the tree.
   * A record whose b[0] is NULL, or any record when the tree is empty, is
   * returned untouched; otherwise the record found under node's key is
   * returned, None when there is none.  A removed record keeps its branches
   * set.
   */
  method Delete(t: Tree, node: NodeId) returns (r: Option<NodeId>)
    requires t.Valid() && t.kt == U32
    modifies t
    ensures t.Valid()
    ensures (node, false) !in old(t.b) || old(t.root).None? ==> r == Some(node)
    ensures node in old(t.Records()) ==>
              r == Some(node) && t.Contents() == old(t.Contents()) - {t.key(node)} &&
              t.Records() == old(t.Records()) - {node} && (node, false) in t.b
    ensures node !in old(t.Records()) && (node, false) in old(t.b) && old(t.root).Some? ==>
              (r.Some? <==> t.key(node) in old(t.Contents())) &&
              (r.Some? ==> r.value in old(t.Records()) && t.key(r.value) == t.key(node))
    ensures node !in old(t.Records()) ==> t.root == old(t.root) && t.b == old(t.b) && t.shape == old(t.shape)
    // only branches of records of the tree are written
    ensures KeepsOthers(old(t.b), t.b, old(t.Records()))
  {
    if t.shape.Some? && node in t.Records() {
      RecordLinked(t.shape.value, t.b, node);
    }
    if (node, false) !in t.b {
      // NULL on a branch means the node is not in the tree
      return Some(node);
    }
    if t.root.None? {
      return Some(node);
    }
    var k := t.key(node);
    ghost var s := t.shape.value;
    var d := Descend(t.b, t.key, t.root.value, s, Some(node), k, false);
    ghost var w := Walk([], s, KeyEq, k, false, NoAnchor, t.key);
    Located(s, t.key, t.b, node, w, d);
    r := d.ret;
    if r != Some(node) {
      return;
    }
    if d.win.lparent.Virtual? {
      // there was a single entry, this one
      t.root := None;
      t.shape := None;
      return;
    }
    ghost var up, L := w.path[..|w.path| - 1], w.path[|w.path| - 1];
    assert w.path == up + [L];
    DeleteFrame(s, t.b, w, up, L, node, d.win, t.key);
    Unlink(t, node, d.win, up, L);
  }

  /** What the descent of a deletion tells about node: found exactly when it is a record of s. */
  lemma Located(s: Shape, key: NodeId -> nat, b: Branches, node: NodeId, w: Stop, d: Found)
    requires Wf(s, key) && Linked(s, b)
    requires w == Walk([], s, KeyEq, key(node), false, NoAnchor, key) && d == Report(w, Some(node), key(node), false, key)
    ensures Plug(w.path, w.at) == s && d.win == WindowOf(w.path, Some(node))
    ensures d.ret.Some? <==> key(node) in Keys(s, key)
    ensures d.ret.Some? ==> d.ret.value in Leaves(s) && key(d.ret.value) == key(node)
    ensures d.ret == Some(node) <==> node in Leaves(s)
    ensures d.ret == Some(node) ==> w.at == Leaf(node) && (d.win.lparent.Virtual? <==> |w.path| == 0)
  {
    Reached(s, key(node), key, b, Some(node), false, w, d);
    if node in Leaves(s) {
      LeafKey(s, node, key);
      KeysInjective(s, node, w.at.id, key);
    }
  }

  /** The facts `Unlink` needs about the window of a descent that found node below a split node. */
  lemma DeleteFrame(s: Shape, b: Branches, w: Stop, up: seq<Frame>, L: Frame, node: NodeId, win: Window,
                    key: NodeId -> nat)
    requires Wf(s, key) && Linked(s, b) && Plug(w.path, w.at) == s && w.at == Leaf(node)
    requires w.path == up + [L] && win == WindowOf(w.path, Some(node))
    ensures s == Plug(up, Fill(L, Leaf(node)))
    ensures win.lparent == Node(L.id) && win.lpside == L.side && (L.id, !L.side) in b && b[(L.id, !L.side)] == L.sib.id
    ensures SlotOfParent(win.gparent, win.gpside) == SlotAt(up, 0)
    ensures (win.nparent, win.npside) == KeyParent(up + [L], 0, key(node), key)
  {
    var n := |w.path|;
    assert w.path[..n - 1] == up;
    PlugPush(up, L, w.at);
    LinkedPlug(w.path, w.at, b);
    assert FrameLinked(w.path, n - 1, w.at, b);
    PlugSets(w.path, w.at, key);
    IdKeyParent(w.path, w.at, node, key);
  }

  // ----------------------------------------------------------- stress test

  /**
   * One round of the stress test: a key the lookup reports present is
   * deleted through the record found, one it reports absent is inserted with
   * a new record holding it; the test aborts if delete does not return the
   * record found, or insert the new record.
   */
  method StressRound(t: Tree, v: nat, newRec: NodeId) returns (aborts: bool)
    requires t.Valid() && t.kt == U32 && newRec !in t.Records() && t.key(newRec) == v
    modifies t
    ensures !aborts && t.Valid()
    ensures v in old(t.Contents()) ==> t.Contents() == old(t.Contents()) - {v}
    ensures v !in old(t.Contents()) ==> t.Contents() == old(t.Contents()) + {v}
  {
    var found := Lookup(t, v);
    if found.Some? {
      var gone := Delete(t, found.value);
      aborts := gone != found;
    } else {
      var added, _, _ := Insert(t, newRec);
      aborts := added != newRec;
    }
  }
}
