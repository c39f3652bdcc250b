/**
 * The two operations of the generic engine that change a tree with unique
 * scalar keys: `_cebu_insert` and `_cebu_delete`.  Both start with a keyed
 * descent and then rewrite a handful of branches; the lemmas here show that
 * the rewritten branches encode a well-formed tree again, holding one key
 * more or one key less.
 */
module CebUpdate {
  import opened Wrappers
  import opened Bits
  import opened Shapes
  import opened Walks
  import opened Arena
  import opened CebDescent
  import opened CebTree
  import opened Surgery

  /** The record a pointer location leads to: the tree's root, or a branch of a record. */
  ghost predicate Holds(root: Option<NodeId>, b: Branches, slot: Slot, p: NodeId)
  {
    if slot.Start? then root == Some(p) else (slot.owner, slot.side) in b && b[(slot.owner, slot.side)] == p
  }

  /** Writing record v to a pointer location: the root, or a branch of a record. */
  function StoreRoot(root: Option<NodeId>, slot: Slot, v: NodeId): Option<NodeId>
  {
    if slot.Start? then Some(v) else root
  }

  function StoreBranch(b: Branches, slot: Slot, v: NodeId): Branches
  {
    if slot.Start? then b else b[(slot.owner, slot.side) := v]
  }

  /** The pointer location `p->b[side]`: for the virtual parent, the root. */
  function SlotOfParent(p: Parent, side: bool): Slot
  {
    if p.Virtual? then Start else Branch(p.id, side)
  }

  /** Writes record v to a pointer location of the tree. */
  method Store(t: Tree, slot: Slot, v: NodeId)
    modifies t
    ensures t.root == StoreRoot(old(t.root), slot, v) && t.b == StoreBranch(old(t.b), slot, v)
    ensures t.shape == old(t.shape) && old(t.b).Keys <= t.b.Keys
  {
    if slot.Start? {
      t.root := Some(v);
    } else {
      t.b := t.b[(slot.owner, slot.side) := v];
    }
  }

  /** Writing two branches of record x and then a slot of a record of R leaves every other record's branches. */
  lemma KeepsWrites(b: Branches, x: NodeId, s1: bool, u: NodeId, s2: bool, v: NodeId, slot: Slot, w: NodeId,
                    R: set<NodeId>)
    requires x in R && (slot.Branch? ==> slot.owner in R)
    ensures KeepsOthers(b, StoreBranch(b[(x, s1) := u][(x, s2) := v], slot, w), R)
  {
  }

  /** The slot of a path's last frame belongs to a split node of the tree. */
  lemma SlotOwner(up: seq<Frame>, t: Shape)
    ensures SlotAt(up, 0).Branch? ==> SlotAt(up, 0).owner in Splits(Plug(up, t))
  {
    if |up| > 0 {
      InPathSplits(up, |up| - 1);
      PlugSets(up, t, x => 0);
    }
  }

  lemma KeepsStore(b: Branches, slot: Slot, w: NodeId, R: set<NodeId>)
    requires slot.Branch? ==> slot.owner in R
    ensures KeepsOthers(b, StoreBranch(b, slot, w), R)
  {
  }

  // ------------------------------------------------------------- insertion

  /**
   * The subtree that replaces subtree `at` when record node is inserted
   * above it: node becomes the split node of at and of its own leaf, on
   * side nside.
   */
  function Graft(at: Shape, node: NodeId, nside: bool): Shape
  {
    if nside then Split(node, at, Leaf(node)) else Split(node, Leaf(node), at)
  }

  /** The grafted subtree on its own: distinct and ordered when node's key k is new and lies outside at's cluster. */
  lemma GraftLocal(at: Shape, node: NodeId, key: NodeId -> nat)
    requires Wf(at, key) && node !in Leaves(at) && key(node) !in Keys(at, key)
    requires at.Leaf? || Mismatch(key(node), key(at.left.id), key(at.right.id))
    ensures var n := Graft(at, node, key(node) >= key(at.id));
      Wf(n, key) && key(n.id) in Keys(n, key)
  {
    var k := key(node);
    SplitsInLeaves(at);
    TopKey(at, key);
    DistSym(key(at.id), k);
    forall a | a in Keys(at, key)
      ensures Dist(a, key(at.id)) < Dist(key(at.id), k)
    {
      if at.Split? {
        MismatchFar(at, k, key, a);
      }
    }
  }

  /** The sets of a tree after a graft. */
  lemma GraftSets(path: seq<Frame>, at: Shape, node: NodeId, nside: bool, key: NodeId -> nat)
    ensures var s, s' := Plug(path, at), Plug(path, Graft(at, node, nside));
      Keys(s', key) == Keys(s, key) + {key(node)} && Leaves(s') == Leaves(s) + {node} &&
      Splits(s') == Splits(s) + {node}
  {
    PlugSets(path, at, key);
    PlugSets(path, Graft(at, node, nside), key);
  }

  /**
   * Grafting a record with a new key above the place where the keyed descent
   * for that key stopped keeps the tree well formed.
   */
  lemma GraftWf(path: seq<Frame>, at: Shape, node: NodeId, key: NodeId -> nat)
    requires Wf(Plug(path, at), key) && node !in Leaves(Plug(path, at)) && key(node) !in Keys(Plug(path, at), key)
    requires Fits(path, at, key(node), key) && (at.Leaf? || Mismatch(key(node), key(at.left.id), key(at.right.id)))
    ensures Wf(Plug(path, Graft(at, node, key(node) >= key(at.id))), key)
  {
    var n := Graft(at, node, key(node) >= key(at.id));
    PlugDisjoint(path, at);
    SubtreeWf(path, at, key);
    PlugSets(path, at, key);
    SplitsInLeaves(Plug(path, at));
    GraftLocal(at, node, key);
    DistinctReplace(path, at, n);
    InFits(path, at, key);
    OrderedReplace(path, at, n, key);
  }

  /** The branches written by an insertion wire the grafted tree. */
  lemma GraftLinked(path: seq<Frame>, at: Shape, node: NodeId, nside: bool, b: Branches, b': Branches)
    requires Distinct(Plug(path, at)) && Linked(Plug(path, at), b) && node !in Leaves(Plug(path, at))
    requires b' == StoreBranch(b[(node, nside) := node][(node, !nside) := at.id], SlotAt(path, 0), node)
    ensures Linked(Plug(path, Graft(at, node, nside)), b')
  {
    if |path| > 0 {
      var up, f := path[..|path| - 1], path[|path| - 1];
      assert up + [f] == path;
      GraftLinkedUnder(up, f, at, node, nside, b, b');
    } else {
      assert Touches(b, b', {node});
      SplitsInLeaves(at);
      LinkedTouch(at, b, b', {node});
    }
  }

  /** The case of `GraftLinked` with a non-empty path: sets up the touched nodes and the last frame's link. */
  lemma GraftLinkedUnder(up: seq<Frame>, f: Frame, at: Shape, node: NodeId, nside: bool, b: Branches, b': Branches)
    requires Distinct(Plug(up + [f], at)) && Linked(Plug(up + [f], at), b) && node !in Leaves(Plug(up + [f], at))
    requires b' == StoreBranch(b[(node, nside) := node][(node, !nside) := at.id], SlotAt(up + [f], 0), node)
    ensures Linked(Plug(up + [f], Graft(at, node, nside)), b')
  {
    var path := up + [f];
    var W := {node, f.id};
    assert Touches(b, b', W);
    PlugDisjoint(path, at);
    PlugSets(path, at, x => 0);
    SplitsInLeaves(Plug(path, at));
    LinkedPlug(path, at, b);
    InPathSplits(path, |path| - 1);
    assert path[|path| - 1] == f;
    assert FrameLinked(path, |path| - 1, at, b);
    GraftLinkedBelow(up, f, at, node, nside, b, b', W);
  }

  /** The case of `GraftLinked` where the graft hangs below frame f at the end of path up. */
  lemma GraftLinkedBelow(up: seq<Frame>, f: Frame, at: Shape, node: NodeId, nside: bool, b: Branches, b': Branches,
                         W: set<NodeId>)
    requires Distinct(Plug(up + [f], at)) && Linked(Plug(up + [f], at), b) && node !in Splits(Plug(up + [f], at))
    requires Linked(at, b) && Splits(at) !! W && W == {node, f.id} && Touches(b, b', W) && f.id != node
    requires (f.id, !f.side) in b
    requires b' == b[(node, nside) := node][(node, !nside) := at.id][(f.id, f.side) := node]
    ensures Linked(Plug(up + [f], Graft(at, node, nside)), b')
  {
    var n := Graft(at, node, nside);
    LinkedTouch(at, b, b', W);
    PlugPush(up, f, at);
    PlugPush(up, f, n);
    PlugSets(up, Fill(f, at), x => 0);
    Rewire(up, f, at, n, b, b', W);
  }

  /** The nodeless leaf is not disturbed by a graft: node becomes a split node. */
  lemma GraftNodeless(path: seq<Frame>, at: Shape, node: NodeId, nside: bool, b: Branches, b': Branches)
    requires Nodeless(Plug(path, at), b)
    requires b' == StoreBranch(b[(node, nside) := node][(node, !nside) := at.id], SlotAt(path, 0), node)
    requires |path| > 0 ==> path[|path| - 1].id in Splits(Plug(path, at))
    ensures Nodeless(Plug(path, Graft(at, node, nside)), b')
  {
    GraftSets(path, at, node, nside, x => 0);
  }

  /** Everything `Insert` needs about a graft where a keyed descent for a new key stopped. */
  lemma Grafted(s: Shape, path: seq<Frame>, at: Shape, node: NodeId, nside: bool, key: NodeId -> nat,
                b: Branches, b': Branches)
    requires Wf(s, key) && Linked(s, b) && Nodeless(s, b) && Plug(path, at) == s
    requires node !in Leaves(s) && key(node) !in Keys(s, key) && nside == (key(node) >= key(at.id))
    requires Fits(path, at, key(node), key) && (at.Leaf? || Mismatch(key(node), key(at.left.id), key(at.right.id)))
    requires b' == StoreBranch(b[(node, nside) := node][(node, !nside) := at.id], SlotAt(path, 0), node)
    ensures var s' := Plug(path, Graft(at, node, nside));
      Wf(s', key) && Linked(s', b') && Nodeless(s', b') && Keys(s', key) == Keys(s, key) + {key(node)} &&
      Leaves(s') == Leaves(s) + {node} && s'.id == (if |path| == 0 then node else s.id)
  {
    GraftWf(path, at, node, key);
    GraftLinked(path, at, node, nside, b, b');
    if |path| > 0 {
      InPathSplits(path, |path| - 1);
      PlugSets(path, at, key);
    }
    GraftNodeless(path, at, node, nside, b, b');
    GraftSets(path, at, node, nside, key);
    PlugTop(path, at);
    PlugTop(path, Graft(at, node, nside));
  }

  /** What the keyed descent of `Insert` reports, in the terms `Insert` needs. */
  lemma InsertStop(s: Shape, k: nat, key: NodeId -> nat, b: Branches, w: Stop, d: Descent)
    requires Wf(s, key) && Linked(s, b)
    requires w == Walk([], s, KeyEq, k, false, NoAnchor, key) && d == Outcome(w, 0, KeyEq, k, key)
    ensures Plug(w.path, w.at) == s && d.p == w.at.id && d.p in Leaves(s) && d.win.slot == SlotAt(w.path, 0)
    ensures d.nside == (k >= key(w.at.id)) && (d.ret.Some? <==> k in Keys(s, key))
    ensures d.ret.Some? ==> d.ret.value in Leaves(s) && key(d.ret.value) == k
    ensures Fits(w.path, w.at, k, key) && (w.at.Leaf? || Mismatch(k, key(w.at.left.id), key(w.at.right.id)))
    ensures Holds(Some(s.id), b, d.win.slot, d.p)
  {
    KeyedHit(s, KeyEq, k, key);
    StopInside(s, KeyEq, k, false, key);
    WalkShape([], s, KeyEq, k, false, NoAnchor, key);
    WalkFits([], s, KeyEq, k, false, NoAnchor, key);
    LinkedPlug(w.path, w.at, b);
    if |w.path| > 0 {
      assert FrameLinked(w.path, |w.path| - 1, w.at, b);
    }
  }

  /**
   * `_cebu_insert`: inserts record node, whose key is k, unless a record
   * with key k is already stored.  Returns node, or the record already
   * holding k.  Besides r, it reports the pointer location `slot` that the
   * descent reached and the record p found there.
   */
  method Insert(t: Tree, node: NodeId, k: nat) returns (r: NodeId, ghost slot: Slot, ghost p: NodeId)
    requires t.Valid() && k == t.key(node)
    modifies t
    ensures t.Valid()
    // an empty tree gets a single nodeless leaf
    ensures old(t.root).None? ==>
              r == node && t.root == Some(node) && t.b == old(t.b)[(node, false) := node][(node, true) := node]
    // a duplicate key writes nothing
    ensures k in old(t.Contents()) ==>
              r in old(t.Records()) && t.key(r) == k && t.root == old(t.root) && t.b == old(t.b) &&
              t.shape == old(t.shape)
    // a new key is added with its record
    ensures k !in old(t.Contents()) ==>
              r == node && t.Contents() == old(t.Contents()) + {k} && t.Records() == old(t.Records()) + {node}
    // by writing exactly three branches: node's two, and the one that led to p
    ensures old(t.root).Some? && k !in old(t.Contents()) ==>
              p in old(t.Records()) && Holds(old(t.root), old(t.b), slot, p) &&
              var nside := k >= t.key(p);
              t.b == StoreBranch(old(t.b)[(node, nside) := node][(node, !nside) := p], slot, node) &&
              t.root == StoreRoot(old(t.root), slot, node)
    // the branches of records outside the tree, other than node, are left as they were
    ensures KeepsOthers(old(t.b), t.b, old(t.Records()) + {node})
  {
    if t.root.None? {
      // empty tree, insert a leaf only
      KeepsWrites(t.b, node, false, node, true, node, Start, node, {node});
      t.b := t.b[(node, false) := node][(node, true) := node];
      t.root := Some(node);
      t.shape := Some(Leaf(node));
      return node, Start, node;
    }
    ghost var s := t.shape.value;
    var d := Descend(t.b, t.key, t.kt, t.root.value, s, [], s, KeyEq, k);
    ghost var w := Walk([], s, KeyEq, k, false, NoAnchor, t.key);
    InsertStop(s, k, t.key, t.b, w, d);
    slot, p := d.win.slot, d.p;
    if d.ret.Some? {
      return d.ret.value, slot, p;
    }
    // the key is new: node goes above the record p the descent stopped on
    if node in Leaves(s) {
      LeafKey(s, node, t.key);
    }
    var parent := d.win.slot;
    var cur := if parent.Start? then t.root.value else t.b[(parent.owner, parent.side)];
    if d.nside {
      t.b := t.b[(node, true) := node];
      t.b := t.b[(node, false) := cur];
    } else {
      t.b := t.b[(node, false) := node];
      t.b := t.b[(node, true) := cur];
    }
    Store(t, parent, node);
    r := node;
    SlotOwner(w.path, w.at);
    SplitsInLeaves(s);
    KeepsWrites(old(t.b), node, d.nside, node, !d.nside, cur, parent, node, old(t.Records()) + {node});
    Grafted(s, w.path, w.at, node, d.nside, t.key, old(t.b), t.b);
    t.shape := Some(Plug(w.path, Graft(w.at, node, d.nside)));
  }
}

module CebDelete {
  import opened Wrappers
  import opened Bits
  import opened Shapes
  import opened Walks
  import opened Arena
  import opened CebDescent
  import opened CebTree
  import opened Surgery
  import opened CebUpdate

  /**
   * Removing the leaf ret that hangs below split frame L at the end of path
   * up: L's split node goes, and L's other branch takes its place.
   */
  lemma PruneShape(up: seq<Frame>, L: Frame, ret: NodeId, key: NodeId -> nat)
    requires Wf(Plug(up, Fill(L, Leaf(ret))), key)
    ensures var s, s' := Plug(up, Fill(L, Leaf(ret))), Plug(up, L.sib);
      Ordered(s', key) && Leaves(s') == Leaves(s) - {ret} && Keys(s', key) == Keys(s, key) - {key(ret)} &&
      Splits(s') == Splits(s) - {L.id}
  {
    SubtreeWf(up, Fill(L, Leaf(ret)), key);
    TopKey(L.sib, key);
    InFits(up, Fill(L, Leaf(ret)), key);
    OrderedReplace(up, Fill(L, Leaf(ret)), L.sib, key);
    PruneSets(up, L, ret, key);
  }

  lemma PruneSets(up: seq<Frame>, L: Frame, ret: NodeId, key: NodeId -> nat)
    requires Wf(Plug(up, Fill(L, Leaf(ret))), key)
    ensures var s, s' := Plug(up, Fill(L, Leaf(ret))), Plug(up, L.sib);
      Leaves(s') == Leaves(s) - {ret} && Keys(s', key) == Keys(s, key) - {key(ret)} &&
      Splits(s') == Splits(s) - {L.id}
  {
    var s, s' := Plug(up, Fill(L, Leaf(ret))), Plug(up, L.sib);
    PlugSets(up, Fill(L, Leaf(ret)), key);
    PlugSets(up, L.sib, key);
    PlugDisjoint(up, Fill(L, Leaf(ret)));
    PlugLeavesApart(up, Fill(L, Leaf(ret)), key);
    SubtreeWf(up, Fill(L, Leaf(ret)), key);
    LeavesApart(Fill(L, Leaf(ret)), key);
    assert Leaves(s') == Leaves(s) - {ret};
    if key(ret) in Keys(s', key) {
      var x := KeyLeaf(s', key(ret), key);
      KeysInjective(s, x, ret, key);
    }
  }

  lemma PruneDistinct(up: seq<Frame>, L: Frame, ret: NodeId)
    requires Distinct(Plug(up, Fill(L, Leaf(ret)))) && ret !in PathSplits(up)
    ensures Distinct(Plug(up, L.sib))
  {
    PlugDisjoint(up, Fill(L, Leaf(ret)));
    FrameIdsInSplits(up);
    DistinctReplace(up, Fill(L, Leaf(ret)), L.sib);
  }

  /** Storing L's other branch where L was linked from wires the pruned tree. */
  lemma PruneLinked(up: seq<Frame>, L: Frame, ret: NodeId, b: Branches, b': Branches)
    requires Distinct(Plug(up, Fill(L, Leaf(ret)))) && Linked(Plug(up, Fill(L, Leaf(ret))), b)
    requires b' == StoreBranch(b, SlotAt(up, 0), L.sib.id)
    ensures Linked(Plug(up, L.sib), b')
  {
    LinkedPlug(up, Fill(L, Leaf(ret)), b);
    if |up| > 0 {
      var u, g := up[..|up| - 1], up[|up| - 1];
      assert u + [g] == up;
      assert FrameLinked(up, |up| - 1, Fill(L, Leaf(ret)), b);
      PlugPush(u, g, Fill(L, Leaf(ret)));
      PlugPush(u, g, L.sib);
      PlugDisjoint(u, Fill(g, Fill(L, Leaf(ret))));
      assert Touches(b, b', {g.id});
      LinkedTouch(L.sib, b, b', {g.id});
      Rewire(u, g, Fill(L, Leaf(ret)), L.sib, b, b', {g.id});
    }
  }

  /** The root after a prune is the top of the pruned tree. */
  lemma PruneRoot(up: seq<Frame>, L: Frame, ret: NodeId)
    ensures StoreRoot(Some(Plug(up, Fill(L, Leaf(ret))).id), SlotAt(up, 0), L.sib.id) == Some(Plug(up, L.sib).id)
  {
  }

  /**
   * Deleting a record that is the split node right above its own leaf: the
   * leaf's sibling is stored where that split node was linked.
   */
  lemma UnlinkOwn(up: seq<Frame>, L: Frame, ret: NodeId, key: NodeId -> nat, b: Branches, b': Branches)
    requires Wf(Plug(up, Fill(L, Leaf(ret))), key) && Linked(Plug(up, Fill(L, Leaf(ret))), b)
    requires Nodeless(Plug(up, Fill(L, Leaf(ret))), b) && L.id == ret
    requires b' == StoreBranch(b, SlotAt(up, 0), L.sib.id)
    ensures var s, s' := Plug(up, Fill(L, Leaf(ret))), Plug(up, L.sib);
      Wf(s', key) && Linked(s', b') && Nodeless(s', b') &&
      Leaves(s') == Leaves(s) - {ret} && Keys(s', key) == Keys(s, key) - {key(ret)}
  {
    var s, s' := Plug(up, Fill(L, Leaf(ret))), Plug(up, L.sib);
    PruneShape(up, L, ret, key);
    PlugDisjoint(up, Fill(L, Leaf(ret)));
    PruneDistinct(up, L, ret);
    PruneLinked(up, L, ret, b, b');
    SlotOwner(up, Fill(L, Leaf(ret)));
  }

  /**
   * Deleting the nodeless leaf: it is pruned as above, and the split node of
   * its parent, no longer needed as one, becomes the nodeless leaf.
   */
  lemma UnlinkNodeless(up: seq<Frame>, L: Frame, ret: NodeId, key: NodeId -> nat, b: Branches, b': Branches)
    requires Wf(Plug(up, Fill(L, Leaf(ret))), key) && Linked(Plug(up, Fill(L, Leaf(ret))), b)
    requires Nodeless(Plug(up, Fill(L, Leaf(ret))), b) && ret !in Splits(Plug(up, Fill(L, Leaf(ret))))
    requires b' == StoreBranch(b, SlotAt(up, 0), L.sib.id)[(L.id, false) := L.id][(L.id, true) := L.id]
    ensures var s, s' := Plug(up, Fill(L, Leaf(ret))), Plug(up, L.sib);
      Wf(s', key) && Linked(s', b') && Nodeless(s', b') &&
      Leaves(s') == Leaves(s) - {ret} && Keys(s', key) == Keys(s, key) - {key(ret)}
  {
    var s, s' := Plug(up, Fill(L, Leaf(ret))), Plug(up, L.sib);
    var b1 := StoreBranch(b, SlotAt(up, 0), L.sib.id);
    PruneShape(up, L, ret, key);
    PlugSets(up, Fill(L, Leaf(ret)), key);
    PruneDistinct(up, L, ret);
    PruneLinked(up, L, ret, b, b1);
    LinkedKeep(s', b1, (L.id, false), L.id);
    LinkedKeep(s', b1[(L.id, false) := L.id], (L.id, true), L.id);
    NodelessHandOver(up, L, ret, b, b');
  }

  lemma NodelessHandOver(up: seq<Frame>, L: Frame, ret: NodeId, b: Branches, b': Branches)
    requires Distinct(Plug(up, Fill(L, Leaf(ret)))) && Nodeless(Plug(up, Fill(L, Leaf(ret))), b)
    requires Leaves(Plug(up, L.sib)) == Leaves(Plug(up, Fill(L, Leaf(ret)))) - {ret}
    requires Splits(Plug(up, L.sib)) == Splits(Plug(up, Fill(L, Leaf(ret)))) - {L.id}
    requires b' == StoreBranch(b, SlotAt(up, 0), L.sib.id)[(L.id, false) := L.id][(L.id, true) := L.id]
    ensures Nodeless(Plug(up, L.sib), b')
  {
    SlotOwner(up, Fill(L, Leaf(ret)));
    SplitsInLeaves(Plug(up, Fill(L, Leaf(ret))));
  }

  // ----------------------------------------------- deleting a split record

  /**
   * The tree after deleting record ret, the split node of frame F, whose
   * leaf hangs below frame L: ret's leaf is pruned as above, and L's record,
   * whose split node is no longer needed, takes over ret's split node.
   */
  function Swapped(P: seq<Frame>, F: Frame, Q: seq<Frame>, L: Frame): Shape
  {
    Plug(P, Fill(Frame(L.id, F.side, F.sib), Plug(Q, L.sib)))
  }

  lemma Unfold3(P: seq<Frame>, F: Frame, Q: seq<Frame>, x: Shape)
    ensures Plug(P + [F] + Q, x) == Plug(P, Fill(F, Plug(Q, x)))
  {
    PlugAppend(P + [F], Q, x);
    PlugPush(P, F, Plug(Q, x));
  }

  /** Which records are split where, below the frame of the deleted split node. */
  lemma SwapFacts(Q: seq<Frame>, L: Frame, ret: NodeId)
    requires Distinct(Plug(Q, Fill(L, Leaf(ret)))) && ret !in Splits(Plug(Q, Fill(L, Leaf(ret))))
    ensures var z, y := Plug(Q, Fill(L, Leaf(ret))), Plug(Q, L.sib);
      Splits(z) == PathSplits(Q) + {L.id} + Splits(L.sib) && Splits(y) == PathSplits(Q) + Splits(L.sib) &&
      Leaves(z) == Leaves(y) + {ret} && L.id !in PathSplits(Q) + Splits(L.sib) &&
      L.id != ret && L.id in Leaves(y) && Distinct(y)
  {
    PrunePieces(Q, L, ret);
    PlugDisjoint(Q, Fill(L, Leaf(ret)));
    FrameIdsInSplits(Q);
    DistinctReplace(Q, Fill(L, Leaf(ret)), L.sib);
  }

  /** Pruning ret's leaf and L's split node from below path Q, as sets. */
  lemma PrunePieces(Q: seq<Frame>, L: Frame, ret: NodeId)
    ensures var z, y := Plug(Q, Fill(L, Leaf(ret))), Plug(Q, L.sib);
      Splits(z) == PathSplits(Q) + {L.id} + Splits(L.sib) && Splits(y) == PathSplits(Q) + Splits(L.sib) &&
      Leaves(z) == Leaves(y) + {ret}
  {
    PlugSets(Q, Fill(L, Leaf(ret)), x => 0);
    PlugSets(Q, L.sib, x => 0);
  }

  lemma SwapOrdered(P: seq<Frame>, F: Frame, Q: seq<Frame>, L: Frame, ret: NodeId, key: NodeId -> nat)
    requires Wf(Plug(P, Fill(F, Plug(Q, Fill(L, Leaf(ret))))), key) && F.id == ret
    ensures Ordered(Swapped(P, F, Q, L), key)
  {
    var z, y := Plug(Q, Fill(L, Leaf(ret))), Plug(Q, L.sib);
    var f' := Frame(L.id, F.side, F.sib);
    Unfold3(P, F, Q, Fill(L, Leaf(ret)));
    Unfold3(P, F, Q, L.sib);
    PruneShape(P + [F] + Q, L, ret, key);
    PlugDisjoint(P, Fill(F, z));
    SwapFacts(Q, L, ret);
    SubtreeOrdered(P, Fill(F, y), key);
    assert Ordered(Fill(f', y), key);
    LeafKey(y, L.id, key);
    InFits(P, Fill(F, y), key);
    OrderedReplace(P, Fill(F, y), Fill(f', y), key);
  }

  lemma SwapDistinct(P: seq<Frame>, F: Frame, Q: seq<Frame>, L: Frame, ret: NodeId)
    requires Distinct(Plug(P, Fill(F, Plug(Q, Fill(L, Leaf(ret)))))) && F.id == ret
    ensures Distinct(Swapped(P, F, Q, L))
  {
    var z, y := Plug(Q, Fill(L, Leaf(ret))), Plug(Q, L.sib);
    var f' := Frame(L.id, F.side, F.sib);
    PlugDisjoint(P, Fill(F, z));
    SwapFacts(Q, L, ret);
    assert Distinct(Fill(f', y));
    FrameIdsInSplits(P);
    DistinctReplace(P, Fill(F, z), Fill(f', y));
  }

  lemma SwapSets(P: seq<Frame>, F: Frame, Q: seq<Frame>, L: Frame, ret: NodeId, key: NodeId -> nat)
    requires Wf(Plug(P, Fill(F, Plug(Q, Fill(L, Leaf(ret))))), key) && F.id == ret
    ensures var s, s' := Plug(P, Fill(F, Plug(Q, Fill(L, Leaf(ret))))), Swapped(P, F, Q, L);
      Leaves(s') == Leaves(s) - {ret} && Keys(s', key) == Keys(s, key) - {key(ret)} &&
      Splits(s') == Splits(s) - {ret}
  {
    var y := Plug(Q, L.sib);
    Unfold3(P, F, Q, Fill(L, Leaf(ret)));
    Unfold3(P, F, Q, L.sib);
    PruneSets(P + [F] + Q, L, ret, key);
    PlugSets(P, Fill(F, y), key);
    PlugSets(P, Fill(Frame(L.id, F.side, F.sib), y), key);
    SwapSplits(P, F, Q, L, ret);
  }

  lemma SwapSplits(P: seq<Frame>, F: Frame, Q: seq<Frame>, L: Frame, ret: NodeId)
    requires Distinct(Plug(P, Fill(F, Plug(Q, Fill(L, Leaf(ret)))))) && F.id == ret
    ensures Splits(Swapped(P, F, Q, L)) == Splits(Plug(P, Fill(F, Plug(Q, Fill(L, Leaf(ret)))))) - {ret}
  {
    var z, y := Plug(Q, Fill(L, Leaf(ret))), Plug(Q, L.sib);
    PlugDisjoint(P, Fill(F, z));
    SwapFacts(Q, L, ret);
    PlugSets(P, Fill(F, z), x => 0);
    PlugSets(P, Fill(Frame(L.id, F.side, F.sib), y), x => 0);
  }

  /** The id of a path's last frame, if any. */
  function LastIds(ctx: seq<Frame>): set<NodeId>
  {
    if |ctx| == 0 then {} else {ctx[|ctx| - 1].id}
  }

  /** Frame f's branch down the path now leads to v; its other branch is untouched. */
  ghost predicate Rewired(b: Branches, b': Branches, f: Frame, v: NodeId)
  {
    (f.id, f.side) in b' && b'[(f.id, f.side)] == v &&
    (f.id, !f.side) in b && (f.id, !f.side) in b' && b'[(f.id, !f.side)] == b[(f.id, !f.side)]
  }

  /** Below the deleted split node, the leaf's parent is pruned as in `PruneLinked`. */
  lemma SwapLinkedBelow(Q: seq<Frame>, L: Frame, ret: NodeId, b: Branches, b': Branches, W: set<NodeId>)
    requires Distinct(Plug(Q, Fill(L, Leaf(ret)))) && Linked(Plug(Q, Fill(L, Leaf(ret))), b) && Touches(b, b', W)
    requires forall x :: x in W ==> x !in PathSplits(Q) + Splits(L.sib) || x in LastIds(Q)
    requires |Q| > 0 ==> Rewired(b, b', Q[|Q| - 1], L.sib.id)
    ensures Linked(Plug(Q, L.sib), b')
  {
    LinkedPlug(Q, Fill(L, Leaf(ret)), b);
    PlugDisjoint(Q, Fill(L, Leaf(ret)));
    if |Q| == 0 {
      LinkedTouch(L.sib, b, b', W);
    } else {
      var u, g := Q[..|Q| - 1], Q[|Q| - 1];
      assert u + [g] == Q;
      PlugPush(u, g, Fill(L, Leaf(ret)));
      PlugPush(u, g, L.sib);
      PathSplitsAppend(u, [g]);
      LinkedTouch(L.sib, b, b', W);
      Rewire(u, g, Fill(L, Leaf(ret)), L.sib, b, b', W);
    }
  }

  /** The records a swap touches are split nowhere else than where it rewires them. */
  lemma SwapTouched(P: seq<Frame>, F: Frame, Q: seq<Frame>, L: Frame, ret: NodeId)
    requires Distinct(Plug(P, Fill(F, Plug(Q, Fill(L, Leaf(ret)))))) && F.id == ret
    ensures var W := {ret, L.id} + LastIds(Q) + LastIds(P);
      (forall x :: x in W ==> x !in PathSplits(Q) + Splits(L.sib) || x in LastIds(Q)) &&
      Splits(F.sib) !! W && (forall x :: x in W ==> x in Splits(Fill(F, Plug(Q, Fill(L, Leaf(ret))))) || x in LastIds(P))
  {
    TouchedBelow(P, F, Q, L, ret);
    TouchedAbove(P, F, Q, L, ret);
    TouchedAside(P, F, Q, L, ret);
  }

  /** None of the records a swap rewires is a split node of ret's sibling subtree. */
  lemma TouchedAside(P: seq<Frame>, F: Frame, Q: seq<Frame>, L: Frame, ret: NodeId)
    requires Distinct(Plug(P, Fill(F, Plug(Q, Fill(L, Leaf(ret)))))) && F.id == ret
    ensures Splits(F.sib) !! {ret, L.id} + LastIds(Q) + LastIds(P)
  {
    var z := Plug(Q, Fill(L, Leaf(ret)));
    PlugDisjoint(P, Fill(F, z));
    SwapFacts(Q, L, ret);
    if |P| > 0 {
      InPathSplits(P, |P| - 1);
    }
    if |Q| > 0 {
      InPathSplits(Q, |Q| - 1);
    }
  }

  /** The records a swap rewires are not split nodes below ret's split node, except the last one of Q. */
  lemma TouchedBelow(P: seq<Frame>, F: Frame, Q: seq<Frame>, L: Frame, ret: NodeId)
    requires Distinct(Plug(P, Fill(F, Plug(Q, Fill(L, Leaf(ret)))))) && F.id == ret
    ensures var W := {ret, L.id} + LastIds(Q) + LastIds(P);
      forall x :: x in W ==> x !in PathSplits(Q) + Splits(L.sib) || x in LastIds(Q)
  {
    var z := Plug(Q, Fill(L, Leaf(ret)));
    PlugDisjoint(P, Fill(F, z));
    SwapFacts(Q, L, ret);
    if |P| > 0 {
      InPathSplits(P, |P| - 1);
    }
  }

  /** The records a swap rewires are split nodes from ret down, or the last one of P. */
  lemma TouchedAbove(P: seq<Frame>, F: Frame, Q: seq<Frame>, L: Frame, ret: NodeId)
    requires Distinct(Plug(P, Fill(F, Plug(Q, Fill(L, Leaf(ret)))))) && F.id == ret
    ensures var W := {ret, L.id} + LastIds(Q) + LastIds(P);
      forall x :: x in W ==> x in Splits(Fill(F, Plug(Q, Fill(L, Leaf(ret))))) || x in LastIds(P)
  {
    var z := Plug(Q, Fill(L, Leaf(ret)));
    PlugDisjoint(P, Fill(F, z));
    SwapFacts(Q, L, ret);
    if |Q| > 0 {
      InPathSplits(Q, |Q| - 1);
    }
  }

  /**
   * The branches a swap writes wire the swapped tree: the pruned parent's
   * parent (or ret itself) leads to the leaf's sibling, L's record carries
   * ret's two branches, and ret's parent leads to L's record.
   */
  lemma SwapLinked(P: seq<Frame>, F: Frame, Q: seq<Frame>, L: Frame, ret: NodeId, b: Branches, b': Branches)
    requires Distinct(Plug(P, Fill(F, Plug(Q, Fill(L, Leaf(ret)))))) && Linked(Plug(P, Fill(F, Plug(Q, Fill(L, Leaf(ret))))), b)
    requires F.id == ret && Touches(b, b', {ret, L.id} + LastIds(Q) + LastIds(P))
    requires (L.id, F.side) in b' && b'[(L.id, F.side)] == Plug(Q, L.sib).id
    requires (L.id, !F.side) in b' && b'[(L.id, !F.side)] == F.sib.id
    requires |Q| > 0 ==> Rewired(b, b', Q[|Q| - 1], L.sib.id)
    requires |P| > 0 ==> Rewired(b, b', P[|P| - 1], L.id)
    ensures Linked(Swapped(P, F, Q, L), b')
  {
    var z, y := Plug(Q, Fill(L, Leaf(ret))), Plug(Q, L.sib);
    var f' := Frame(L.id, F.side, F.sib);
    var W := {ret, L.id} + LastIds(Q) + LastIds(P);
    PlugDisjoint(P, Fill(F, z));
    LinkedPlug(P, Fill(F, z), b);
    SwapTouched(P, F, Q, L, ret);
    SwapLinkedBelow(Q, L, ret, b, b', W);
    LinkedTouch(F.sib, b, b', W);
    assert Linked(Fill(f', y), b');
    if |P| > 0 {
      var u, g := P[..|P| - 1], P[|P| - 1];
      assert u + [g] == P;
      PlugPush(u, g, Fill(F, z));
      PlugPush(u, g, Fill(f', y));
      PathSplitsAppend(u, [g]);
      Rewire(u, g, Fill(F, z), Fill(f', y), b, b', W);
    }
  }

  /**
   * After the leaf's sibling is stored in the grandparent's slot, the
   * deleted record's branches lead to the rest of the path and to F's
   * sibling; they differ, which is how the deletion tells this case from the
   * nodeless leaf.
   */
  lemma SwapRead(P: seq<Frame>, F: Frame, Q: seq<Frame>, L: Frame, ret: NodeId, key: NodeId -> nat,
                 b: Branches, b1: Branches)
    requires Wf(Plug(P, Fill(F, Plug(Q, Fill(L, Leaf(ret))))), key) && Linked(Plug(P, Fill(F, Plug(Q, Fill(L, Leaf(ret))))), b)
    requires F.id == ret && b1 == StoreBranch(b, SlotAt(P + [F] + Q, 0), L.sib.id)
    ensures (ret, F.side) in b1 && b1[(ret, F.side)] == Plug(Q, L.sib).id
    ensures (ret, !F.side) in b1 && b1[(ret, !F.side)] == F.sib.id
    ensures b1[(ret, false)] != b1[(ret, true)]
  {
    var z, y := Plug(Q, Fill(L, Leaf(ret))), Plug(Q, L.sib);
    var up := P + [F] + Q;
    assert up[|up| - 1] == if |Q| > 0 then Q[|Q| - 1] else F;
    PlugDisjoint(P, Fill(F, z));
    SwapFacts(Q, L, ret);
    LinkedPlug(P, Fill(F, z), b);
    if |Q| > 0 {
      InPathSplits(Q, |Q| - 1);
    }
    SubtreeWf(P, Fill(F, z), key);
    TopIsLeaf(y);
    TopIsLeaf(F.sib);
    LeavesApart(Fill(F, z), key);
  }

  /** The branches a swap writes, in the order the deletion writes them, are those `SwapLinked` asks for. */
  lemma SwapWrites(P: seq<Frame>, F: Frame, Q: seq<Frame>, L: Frame, ret: NodeId, b: Branches, b1: Branches, b': Branches)
    requires Distinct(Plug(P, Fill(F, Plug(Q, Fill(L, Leaf(ret)))))) && Linked(Plug(P, Fill(F, Plug(Q, Fill(L, Leaf(ret))))), b)
    requires F.id == ret && b1 == StoreBranch(b, SlotAt(P + [F] + Q, 0), L.sib.id)
    requires (ret, F.side) in b1 && b1[(ret, F.side)] == Plug(Q, L.sib).id
    requires (ret, !F.side) in b1 && b1[(ret, !F.side)] == F.sib.id
    requires b' == StoreBranch(b1[(L.id, false) := b1[(ret, false)]][(L.id, true) := b1[(ret, true)]], SlotAt(P, 0), L.id)
    ensures Touches(b, b', {ret, L.id} + LastIds(Q) + LastIds(P))
    ensures (L.id, F.side) in b' && b'[(L.id, F.side)] == Plug(Q, L.sib).id
    ensures (L.id, !F.side) in b' && b'[(L.id, !F.side)] == F.sib.id
    ensures |Q| > 0 ==> Rewired(b, b', Q[|Q| - 1], L.sib.id)
    ensures |P| > 0 ==> Rewired(b, b', P[|P| - 1], L.id)
  {
    SwapIds(P, F, Q, L, ret, b);
  }

  /** The records a swap writes to are distinct, and the branches it keeps are set. */
  lemma SwapIds(P: seq<Frame>, F: Frame, Q: seq<Frame>, L: Frame, ret: NodeId, b: Branches)
    requires Distinct(Plug(P, Fill(F, Plug(Q, Fill(L, Leaf(ret)))))) && Linked(Plug(P, Fill(F, Plug(Q, Fill(L, Leaf(ret))))), b)
    requires F.id == ret
    ensures L.id != ret
    ensures SlotAt(P + [F] + Q, 0) == if |Q| > 0 then Branch(Q[|Q| - 1].id, Q[|Q| - 1].side) else Branch(F.id, F.side)
    ensures |Q| > 0 ==> Q[|Q| - 1].id != ret && Q[|Q| - 1].id != L.id && (Q[|Q| - 1].id, !Q[|Q| - 1].side) in b
    ensures |P| > 0 ==> P[|P| - 1].id != ret && P[|P| - 1].id != L.id && (P[|P| - 1].id, !P[|P| - 1].side) in b
    ensures |P| > 0 && |Q| > 0 ==> P[|P| - 1].id != Q[|Q| - 1].id
  {
    var z := Plug(Q, Fill(L, Leaf(ret)));
    var up := P + [F] + Q;
    assert up[|up| - 1] == if |Q| > 0 then Q[|Q| - 1] else F;
    PlugDisjoint(P, Fill(F, z));
    SwapFacts(Q, L, ret);
    LinkedPlug(P, Fill(F, z), b);
    if |Q| > 0 {
      InPathSplits(Q, |Q| - 1);
      LinkedPlug(Q, Fill(L, Leaf(ret)), b);
      assert FrameLinked(Q, |Q| - 1, Fill(L, Leaf(ret)), b);
    }
    if |P| > 0 {
      InPathSplits(P, |P| - 1);
      assert FrameLinked(P, |P| - 1, Fill(F, z), b);
    }
  }

  /** A rewiring keeps the nodeless leaf when it touches no record that ends up nodeless. */
  lemma NodelessTouch(s: Shape, s': Shape, b: Branches, b': Branches, W: set<NodeId>)
    requires Nodeless(s, b) && Touches(b, b', W)
    requires forall x :: x in Leaves(s') && x !in Splits(s') ==> x in Leaves(s) && x !in Splits(s) && x !in W
    ensures Nodeless(s', b')
  {
  }

  /** The parent `_cebu_descend` reports for the record holding k is the frame above the last split node with key k. */
  lemma {:induction false} KeyParentAt(ctx: seq<Frame>, i: nat, k: nat, key: NodeId -> nat)
    requires i < |ctx| && key(ctx[i].id) == k && forall j :: i < j < |ctx| ==> key(ctx[j].id) != k
    ensures KeyParent(ctx, 0, k, key) == (Above(ctx[..i], 0, 1), SideAbove(ctx[..i], 0, 1))
    decreases |ctx|
  {
    var c := ctx[..|ctx| - 1];
    if i < |ctx| - 1 {
      assert c[..i] == ctx[..i];
      KeyParentAt(c, i, k, key);
    } else {
      assert c == ctx[..i];
    }
  }

  /**
   * When the record being deleted is a split node other than its leaf's
   * parent, the path to its leaf decomposes around the frame F where it is
   * split, and the descent's nparent is the record above F.
   */
  lemma SwapPlan(path: seq<Frame>, ret: NodeId, key: NodeId -> nat) returns (P: seq<Frame>, F: Frame, Q: seq<Frame>)
    requires Wf(Plug(path, Leaf(ret)), key) && |path| > 0 && ret in Splits(Plug(path, Leaf(ret)))
    requires path[|path| - 1].id != ret
    ensures path[..|path| - 1] == P + [F] + Q && F.id == ret
    ensures Plug(path, Leaf(ret)) == Plug(P, Fill(F, Plug(Q, Fill(path[|path| - 1], Leaf(ret)))))
    ensures KeyParent(path, 0, key(ret), key) == (Above(P, 0, 1), SideAbove(P, 0, 1))
    ensures SlotOfParent(Above(P, 0, 1), SideAbove(P, 0, 1)) == SlotAt(P, 0)
  {
    var n := |path|;
    var s := Plug(path, Leaf(ret));
    var i := SplitAbove(path, Leaf(ret), ret, key);
    P, F, Q := path[..i], path[i], path[i + 1..n - 1];
    assert path[..n - 1] == P + [F] + Q;
    assert path == path[..n - 1] + [path[n - 1]];
    PlugPush(path[..n - 1], path[n - 1], Leaf(ret));
    Unfold3(P, F, Q, Fill(path[n - 1], Leaf(ret)));
    KeysBelow(path, i, ret, key);
    KeyParentAt(path, i, key(ret), key);
  }

  /** Below the frame where ret is split, no split node carries ret's key. */
  lemma KeysBelow(path: seq<Frame>, i: nat, ret: NodeId, key: NodeId -> nat)
    requires Wf(Plug(path, Leaf(ret)), key) && i < |path| && path[i].id == ret
    ensures forall j :: i < j < |path| ==> key(path[j].id) != key(ret)
  {
    var s := Plug(path, Leaf(ret));
    var P, R := path[..i], path[i + 1..];
    assert path == P + [path[i]] + R;
    Unfold3(P, path[i], R, Leaf(ret));
    PlugDisjoint(P, Fill(path[i], Plug(R, Leaf(ret))));
    PlugSets(R, Leaf(ret), key);
    PlugSets(P, Fill(path[i], Plug(R, Leaf(ret))), key);
    SplitsInLeaves(s);
    forall j | i < j < |path|
      ensures key(path[j].id) != key(ret)
    {
      assert path[j] == R[j - i - 1];
      InPathSplits(R, j - i - 1);
      if key(path[j].id) == key(ret) {
        TopIsLeaf(s);
        KeysInjective(s, path[j].id, ret, key);
      }
    }
  }

  lemma NodelessRead(up: seq<Frame>, L: Frame, ret: NodeId, b: Branches, b1: Branches)
    requires Distinct(Plug(up, Fill(L, Leaf(ret)))) && Nodeless(Plug(up, Fill(L, Leaf(ret))), b)
    requires ret !in Splits(Plug(up, Fill(L, Leaf(ret)))) && b1 == StoreBranch(b, SlotAt(up, 0), L.sib.id)
    ensures (ret, false) in b1 && (ret, true) in b1 && b1[(ret, false)] == b1[(ret, true)]
  {
    SlotOwner(up, Fill(L, Leaf(ret)));
    PlugSets(up, Fill(L, Leaf(ret)), x => 0);
  }

  /**
   * Deleting a record whose split node sits above its leaf's parent: the
   * leaf is pruned, and the parent's record takes over the split node.
   */
  lemma UnlinkSwap(P: seq<Frame>, F: Frame, Q: seq<Frame>, L: Frame, ret: NodeId, key: NodeId -> nat,
                   b: Branches, b1: Branches, b': Branches)
    requires Wf(Plug(P, Fill(F, Plug(Q, Fill(L, Leaf(ret))))), key) && Linked(Plug(P, Fill(F, Plug(Q, Fill(L, Leaf(ret))))), b)
    requires Nodeless(Plug(P, Fill(F, Plug(Q, Fill(L, Leaf(ret))))), b) && F.id == ret
    requires b1 == StoreBranch(b, SlotAt(P + [F] + Q, 0), L.sib.id) && (ret, false) in b1 && (ret, true) in b1
    requires b' == StoreBranch(b1[(L.id, false) := b1[(ret, false)]][(L.id, true) := b1[(ret, true)]], SlotAt(P, 0), L.id)
    ensures var s, s' := Plug(P, Fill(F, Plug(Q, Fill(L, Leaf(ret))))), Swapped(P, F, Q, L);
      Wf(s', key) && Linked(s', b') && Nodeless(s', b') &&
      Leaves(s') == Leaves(s) - {ret} && Keys(s', key) == Keys(s, key) - {key(ret)}
  {
    var s := Plug(P, Fill(F, Plug(Q, Fill(L, Leaf(ret)))));
    SwapRead(P, F, Q, L, ret, key, b, b1);
    SwapWrites(P, F, Q, L, ret, b, b1, b');
    SwapLinked(P, F, Q, L, ret, b, b');
    SwapOrdered(P, F, Q, L, ret, key);
    SwapDistinct(P, F, Q, L, ret);
    SwapSets(P, F, Q, L, ret, key);
    SwapOwners(P, F, Q, L, ret);
    NodelessTouch(s, Swapped(P, F, Q, L), b, b', {ret, L.id} + LastIds(Q) + LastIds(P));
  }

  /** The records a swap rewires are split nodes of the tree. */
  lemma SwapOwners(P: seq<Frame>, F: Frame, Q: seq<Frame>, L: Frame, ret: NodeId)
    requires Distinct(Plug(P, Fill(F, Plug(Q, Fill(L, Leaf(ret)))))) && F.id == ret
    ensures {ret, L.id} + LastIds(Q) + LastIds(P) <= Splits(Plug(P, Fill(F, Plug(Q, Fill(L, Leaf(ret))))))
  {
    var z := Plug(Q, Fill(L, Leaf(ret)));
    PlugSets(P, Fill(F, z), x => 0);
    PlugSets(Q, Fill(L, Leaf(ret)), x => 0);
    if |P| > 0 {
      InPathSplits(P, |P| - 1);
    }
    if |Q| > 0 {
      InPathSplits(Q, |Q| - 1);
    }
  }

  /** The leaf's parent L is a record of the tree. */
  lemma LeafParentOwned(up: seq<Frame>, L: Frame, ret: NodeId)
    requires Distinct(Plug(up, Fill(L, Leaf(ret))))
    ensures L.id in Leaves(Plug(up, Fill(L, Leaf(ret))))
  {
    PlugPush(up, L, Leaf(ret));
    SlotOwner(up + [L], Leaf(ret));
    SplitsInLeaves(Plug(up, Fill(L, Leaf(ret))));
  }

  /** The slot above the deleted split node belongs to a record of the tree. */
  lemma SwapSlotOwned(P: seq<Frame>, F: Frame, Q: seq<Frame>, L: Frame, ret: NodeId)
    requires Distinct(Plug(P, Fill(F, Plug(Q, Fill(L, Leaf(ret)))))) && F.id == ret
    ensures SlotAt(P, 0).Branch? ==> SlotAt(P, 0).owner in Leaves(Plug(P, Fill(F, Plug(Q, Fill(L, Leaf(ret))))))
  {
    SwapOwners(P, F, Q, L, ret);
    SplitsInLeaves(Plug(P, Fill(F, Plug(Q, Fill(L, Leaf(ret))))));
  }

  lemma SwapRoot(P: seq<Frame>, F: Frame, Q: seq<Frame>, L: Frame, ret: NodeId)
    ensures StoreRoot(StoreRoot(Some(Plug(P, Fill(F, Plug(Q, Fill(L, Leaf(ret))))).id), SlotAt(P + [F] + Q, 0), L.sib.id),
                      SlotAt(P, 0), L.id) == Some(Swapped(P, F, Q, L).id)
  {
  }

  // ------------------------------------------------------------ the deletion

  /** What the keyed descent of `Delete` reports, in the terms `Delete` needs. */
  lemma DeleteStop(s: Shape, k: nat, key: NodeId -> nat, b: Branches, w: Stop, d: Descent)
    requires Wf(s, key) && Linked(s, b)
    requires w == Walk([], s, KeyEq, k, false, NoAnchor, key) && d == Outcome(w, 0, KeyEq, k, key)
    ensures Plug(w.path, w.at) == s && (d.ret.Some? <==> k in Keys(s, key))
    ensures d.ret.Some? ==> w.at == Leaf(d.ret.value) && d.ret.value in Leaves(s) && key(d.ret.value) == k
    ensures d.win == WindowAt(w.path, 0, KeyEq, k, key)
  {
    KeyedHit(s, KeyEq, k, key);
    StopInside(s, KeyEq, k, false, key);
  }

  /** The leaf's parent in the window at the end of a path from the root is virtual when the path is empty. */
  lemma LoneWindow(path: seq<Frame>, k: nat, key: NodeId -> nat, win: Window)
    requires win == WindowAt(path, 0, KeyEq, k, key)
    ensures win.lparent.Virtual? <==> |path| == 0
  {
  }

  /** Otherwise the window names the leaf's parent L, at the end of the path, and the slot leading to it. */
  lemma EndWindow(s: Shape, k: nat, key: NodeId -> nat, b: Branches, up: seq<Frame>, L: Frame, at: Shape, win: Window)
    requires Linked(s, b) && Plug(up + [L], at) == s && win == WindowAt(up + [L], 0, KeyEq, k, key)
    ensures win.lparent == Node(L.id) && win.lpside == L.side && (L.id, !L.side) in b && b[(L.id, !L.side)] == L.sib.id
    ensures SlotOfParent(win.gparent, win.gpside) == SlotAt(up, 0)
    ensures s == Plug(up, Fill(L, at))
    ensures (win.nparent, win.npside) == KeyParent(up + [L], 0, k, key)
  {
    var path := up + [L];
    var n := |path|;
    assert path[..n - 1] == up && path[n - 1] == L;
    LinkedPlug(path, at, b);
    assert FrameLinked(path, n - 1, at, b);
    PlugPush(up, L, at);
  }

  /**
   * The rewiring of `_cebu_delete` once the record ret holding the key was
   * found below its leaf's parent L, at the end of path up, and may be
   * removed: the leaf's sibling replaces L in the grandparent's branch, and
   * if ret's split node is not L, L's record either becomes the nodeless
   * leaf (when ret was it) or takes over ret's split node.  The branches of
   * ret are left set; marking it is up to the caller.
   */
  method Unlink(t: Tree, ret: NodeId, win: Window, ghost up: seq<Frame>, ghost L: Frame)
    requires t.Valid() && t.shape == Some(Plug(up, Fill(L, Leaf(ret))))
    requires win.lparent == Node(L.id) && win.lpside == L.side && (L.id, !L.side) in t.b && t.b[(L.id, !L.side)] == L.sib.id
    requires SlotOfParent(win.gparent, win.gpside) == SlotAt(up, 0)
    requires (win.nparent, win.npside) == KeyParent(up + [L], 0, t.key(ret), t.key)
    modifies t
    ensures t.Valid() && old(t.b).Keys <= t.b.Keys && KeepsOthers(old(t.b), t.b, old(t.Records()))
    ensures t.Contents() == old(t.Contents()) - {t.key(ret)} && t.Records() == old(t.Records()) - {ret}
  {
    ghost var s, b0 := t.shape.value, t.b;
    var lp, lpside := win.lparent.id, win.lpside;
    SlotOwner(up, Fill(L, Leaf(ret)));
    SplitsInLeaves(s);
    KeepsStore(t.b, SlotAt(up, 0), t.b[(lp, !lpside)], Leaves(s));
    Store(t, SlotOfParent(win.gparent, win.gpside), t.b[(lp, !lpside)]);
    if lp == ret {
      // the leaf goes with its own split node
      UnlinkOwn(up, L, ret, t.key, b0, t.b);
      PruneRoot(up, L, ret);
      t.shape := Some(Plug(up, L.sib));
    } else {
      ghost var b1 := t.b;
      HandOver(t, ret, win, up, L, b0);
      KeepsTrans(b0, b1, t.b, Leaves(s), Leaves(s));
    }
  }

  /**
   * The second half of `Unlink` when ret's leaf hangs below another
   * record's split node L, once the leaf's sibling took L's place: the
   * record of L becomes the nodeless leaf if ret was it, or else takes over
   * ret's split node.
   */
  method HandOver(t: Tree, ret: NodeId, win: Window, ghost up: seq<Frame>, ghost L: Frame, ghost b0: Branches)
    requires t.shape == Some(Plug(up, Fill(L, Leaf(ret)))) && (forall x :: t.key(x) < Limit(t.kt))
    requires Wf(t.shape.value, t.key) && Linked(t.shape.value, b0) && Nodeless(t.shape.value, b0)
    requires t.b == StoreBranch(b0, SlotAt(up, 0), L.sib.id)
    requires t.root == StoreRoot(Some(t.shape.value.id), SlotAt(up, 0), L.sib.id)
    requires win.lparent == Node(L.id) && L.id != ret
    requires (win.nparent, win.npside) == KeyParent(up + [L], 0, t.key(ret), t.key)
    modifies t
    ensures t.Valid() && old(t.b).Keys <= t.b.Keys && KeepsOthers(old(t.b), t.b, old(t.Records()))
    ensures t.Contents() == old(t.Contents()) - {t.key(ret)} && t.Records() == old(t.Records()) - {ret}
  {
    ghost var s, b1 := t.shape.value, t.b;
    var lp := win.lparent.id;
    ghost var P, F, Q := [], L, [];
    LeafParentOwned(up, L, ret);
    if ret in Splits(s) {
      PlugPush(up, L, Leaf(ret));
      assert (up + [L])[..|up|] == up && (up + [L])[|up|] == L;
      P, F, Q := SwapPlan(up + [L], ret, t.key);
      SwapRead(P, F, Q, L, ret, t.key, b0, b1);
      SwapSlotOwned(P, F, Q, L, ret);
    } else {
      NodelessRead(up, L, ret, b0, b1);
    }
    if t.b[(ret, false)] == t.b[(ret, true)] {
      // the nodeless leaf goes; its parent's record becomes the nodeless leaf
      KeepsWrites(t.b, lp, false, lp, true, lp, Start, lp, Leaves(s));
      t.b := t.b[(lp, false) := lp][(lp, true) := lp];
      UnlinkNodeless(up, L, ret, t.key, b0, t.b);
      PruneRoot(up, L, ret);
      t.shape := Some(Plug(up, L.sib));
    } else {
      // the leaf's parent record takes over ret's split node
      KeepsWrites(t.b, lp, false, t.b[(ret, false)], true, t.b[(ret, true)], SlotAt(P, 0), lp, Leaves(s));
      t.b := t.b[(lp, false) := t.b[(ret, false)]][(lp, true) := t.b[(ret, true)]];
      Store(t, SlotOfParent(win.nparent, win.npside), lp);
      UnlinkSwap(P, F, Q, L, ret, t.key, b0, b1, t.b);
      SwapRoot(P, F, Q, L, ret);
      t.shape := Some(Swapped(P, F, Q, L));
    }
  }

  /**
   * `_cebu_delete`: removes the record holding key k.  When the caller names
   * the record (node), a record whose b[0] is NULL is known not to be in the
   * tree, and a record found for k that is not node is returned but left in
   * place.  A removed record is marked by clearing its b[0].
   */
  method Delete(t: Tree, node: Option<NodeId>, k: nat) returns (r: Option<NodeId>)
    requires t.Valid()
    modifies t
    ensures t.Valid()
    // a named record with a NULL b[0] is not in the tree
    ensures node.Some? && (node.value, false) !in old(t.b) ==> r.None?
    // otherwise the record holding k is found
    ensures node.None? || (node.value, false) in old(t.b) ==> (r.Some? <==> k in old(t.Contents()))
    ensures r.Some? ==> r.value in old(t.Records()) && t.key(r.value) == k
    // and removed with its key, and marked
    ensures r.Some? && (node.None? || node == r) ==>
              t.Contents() == old(t.Contents()) - {k} && t.Records() == old(t.Records()) - {r.value} &&
              (r.value, false) !in t.b
    // nothing changes when nothing is removed
    ensures r.None? || (node.Some? && node != r) ==>
              t.root == old(t.root) && t.b == old(t.b) && t.shape == old(t.shape)
    // only branches of records of the tree are written
    ensures KeepsOthers(old(t.b), t.b, old(t.Records()))
  {
    if node.Some? && (node.value, false) !in t.b {
      // NULL on a branch means the node is not in the tree
      return None;
    }
    if t.root.None? {
      return None;
    }
    ghost var s := t.shape.value;
    var d := Descend(t.b, t.key, t.kt, t.root.value, s, [], s, KeyEq, k);
    ghost var w := Walk([], s, KeyEq, k, false, NoAnchor, t.key);
    DeleteStop(s, k, t.key, t.b, w, d);
    r := d.ret;
    if r.None? || (node.Some? && node != r) {
      return;
    }
    Detach(t, r.value, d.win, w.path);
  }

  /**
   * The removal step of `_cebu_delete` once the record ret was found at the
   * end of path: a lone record empties the tree, any other is unlinked; in
   * both cases the record is then marked.
   */
  method Detach(t: Tree, ret: NodeId, win: Window, ghost path: seq<Frame>)
    requires t.Valid() && t.shape == Some(Plug(path, Leaf(ret)))
    requires win == WindowAt(path, 0, KeyEq, t.key(ret), t.key)
    modifies t
    ensures t.Valid() && (ret, false) !in t.b && KeepsOthers(old(t.b), t.b, old(t.Records()))
    ensures t.Contents() == old(t.Contents()) - {t.key(ret)} && t.Records() == old(t.Records()) - {ret}
  {
    ghost var R, b0 := t.Records(), t.b;
    PlugSets(path, Leaf(ret), t.key);
    LoneWindow(path, t.key(ret), t.key, win);
    if win.lparent.Virtual? {
      // a single record, the nodeless leaf
      assert t.Records() == {ret} && t.Contents() == {t.key(ret)} by {
        assert path == [];
      }
      t.root := None;
      t.shape := None;
    } else {
      ghost var up, L := path[..|path| - 1], path[|path| - 1];
      assert path == up + [L];
      EndWindow(t.shape.value, t.key(ret), t.key, t.b, up, L, Leaf(ret), win);
      Unlink(t, ret, win, up, L);
    }
    ghost var b1 := t.b;
    Mark(t, ret);
    KeepsPut(b1, ret, false, ret, R);
    KeepsTrans(b0, b1, t.b, R, R);
  }

  /** Marks a record that is no longer in the tree as deleted, by clearing its b[0]. */
  method Mark(t: Tree, ret: NodeId)
    requires t.Valid() && ret !in t.Records()
    modifies t
    ensures t.Valid() && t.b == old(t.b) - {(ret, false)} && t.root == old(t.root) && t.shape == old(t.shape)
  {
    if t.shape.Some? {
      SplitsInLeaves(t.shape.value);
      LinkedDrop(t.shape.value, t.b, (ret, false));
    }
    t.b := t.b - {(ret, false)};
  }
}
