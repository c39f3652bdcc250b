/**
 * The role structure of a compact binary tree with scalar keys.  A tree of n
 * records has n leaves and n-1 split nodes, and every record except one (the
 * "nodeless" leaf) plays both roles: it is a leaf somewhere and a split node
 * somewhere above that leaf.  The records themselves carry no flag telling
 * the roles apart; `Shape` makes them explicit so that the descents can be
 * proved to recover them.
 */
module Shapes {
  import opened Bits

  type NodeId = nat

  datatype Shape = Leaf(id: NodeId) | Split(id: NodeId, left: Shape, right: Shape)

  function Leaves(s: Shape): set<NodeId>
  {
    match s
    case Leaf(x) => {x}
    case Split(_, l, r) => Leaves(l) + Leaves(r)
  }

  function Splits(s: Shape): set<NodeId>
  {
    match s
    case Leaf(_) => {}
    case Split(x, l, r) => {x} + Splits(l) + Splits(r)
  }

  function Keys(s: Shape, key: NodeId -> nat): set<nat>
  {
    match s
    case Leaf(x) => {key(x)}
    case Split(_, l, r) => Keys(l, key) + Keys(r, key)
  }

  /** Each split record is used once as a split, above its own leaf. */
  ghost predicate Distinct(s: Shape)
  {
    match s
    case Leaf(_) => true
    case Split(x, l, r) =>
      Distinct(l) && Distinct(r) && Splits(l) !! Splits(r) &&
      x !in Splits(l) && x !in Splits(r) && x in Leaves(l) + Leaves(r)
  }

  /** Every key of S shares rep's bits above position d. */
  ghost predicate Within(S: set<nat>, rep: nat, d: nat)
  {
    forall a :: a in S ==> Dist(a, rep) < d
  }

  /**
   * The split between subtrees l and r happens at the position where their
   * top keys differ: each side agrees with its top key above that position,
   * and the left keys are the smaller ones.
   */
  ghost predicate Apart(l: Shape, r: Shape, key: NodeId -> nat)
  {
    var kl := key(l.id);
    var kr := key(r.id);
    kl < kr && Within(Keys(l, key), kl, Dist(kl, kr)) && Within(Keys(r, key), kr, Dist(kl, kr))
  }

  ghost predicate Ordered(s: Shape, key: NodeId -> nat)
  {
    match s
    case Leaf(_) => true
    case Split(_, l, r) => Apart(l, r, key) && Ordered(l, key) && Ordered(r, key)
  }

  ghost predicate Wf(s: Shape, key: NodeId -> nat)
  {
    Distinct(s) && Ordered(s, key)
  }

  /** Split position of a split node's two top keys. */
  function SplitDist(s: Shape, key: NodeId -> nat): nat
    requires s.Split?
  {
    Dist(key(s.left.id), key(s.right.id))
  }

  /** One step of a path: at split `id` the path goes to `side`, leaving `sib` on the other. */
  datatype Frame = Frame(id: NodeId, side: bool, sib: Shape)

  function Fill(f: Frame, t: Shape): Shape
  {
    if f.side then Split(f.id, f.sib, t) else Split(f.id, t, f.sib)
  }

  /** The tree made of the path ctx (root first) ending in t. */
  function Plug(ctx: seq<Frame>, t: Shape): Shape
    decreases |ctx|
  {
    if |ctx| == 0 then t else Fill(ctx[0], Plug(ctx[1..], t))
  }

  function FrameIds(ctx: seq<Frame>): set<NodeId>
    decreases |ctx|
  {
    if |ctx| == 0 then {} else {ctx[0].id} + FrameIds(ctx[1..])
  }

  function PathSplits(ctx: seq<Frame>): set<NodeId>
    decreases |ctx|
  {
    if |ctx| == 0 then {} else {ctx[0].id} + Splits(ctx[0].sib) + PathSplits(ctx[1..])
  }

  function PathLeaves(ctx: seq<Frame>): set<NodeId>
    decreases |ctx|
  {
    if |ctx| == 0 then {} else Leaves(ctx[0].sib) + PathLeaves(ctx[1..])
  }

  function PathKeys(ctx: seq<Frame>, key: NodeId -> nat): set<nat>
    decreases |ctx|
  {
    if |ctx| == 0 then {} else Keys(ctx[0].sib, key) + PathKeys(ctx[1..], key)
  }

  /** a lies in the cluster the path takes at every frame of ctx. */
  ghost predicate Fits(ctx: seq<Frame>, t: Shape, a: nat, key: NodeId -> nat)
    decreases |ctx|
  {
    |ctx| > 0 ==>
      var s := Fill(ctx[0], Plug(ctx[1..], t));
      Dist(a, key(Plug(ctx[1..], t).id)) < SplitDist(s, key) && Fits(ctx[1..], t, a, key)
  }

  function Leftmost(s: Shape): NodeId
  {
    match s
    case Leaf(x) => x
    case Split(_, l, _) => Leftmost(l)
  }

  function Rightmost(s: Shape): NodeId
  {
    match s
    case Leaf(x) => x
    case Split(_, _, r) => Rightmost(r)
  }

  // ---------------------------------------------------------------- paths

  lemma {:induction false} PlugAppend(a: seq<Frame>, b: seq<Frame>, t: Shape)
    ensures Plug(a + b, t) == Plug(a, Plug(b, t))
    decreases |a|
  {
    if |a| > 0 {
      assert (a + b)[1..] == a[1..] + b;
      PlugAppend(a[1..], b, t);
    } else {
      assert a + b == b;
    }
  }

  lemma PlugPush(ctx: seq<Frame>, f: Frame, t: Shape)
    ensures Plug(ctx + [f], t) == Plug(ctx, Fill(f, t))
  {
    PlugAppend(ctx, [f], t);
    assert Plug([f], t) == Fill(f, Plug([], t));
  }

  lemma {:induction false} PlugSets(ctx: seq<Frame>, t: Shape, key: NodeId -> nat)
    ensures Leaves(Plug(ctx, t)) == PathLeaves(ctx) + Leaves(t)
    ensures Splits(Plug(ctx, t)) == PathSplits(ctx) + Splits(t)
    ensures Keys(Plug(ctx, t), key) == PathKeys(ctx, key) + Keys(t, key)
    decreases |ctx|
  {
    if |ctx| > 0 {
      PlugSets(ctx[1..], t, key);
    }
  }

  lemma {:induction false} FrameIdsInSplits(ctx: seq<Frame>)
    ensures FrameIds(ctx) <= PathSplits(ctx)
    decreases |ctx|
  {
    if |ctx| > 0 {
      FrameIdsInSplits(ctx[1..]);
    }
  }

  lemma {:induction false} FramesPush(ctx: seq<Frame>, f: Frame, t: Shape, key: NodeId -> nat)
    ensures FrameIds(ctx + [f]) == FrameIds(ctx) + {f.id}
    ensures PathKeys(ctx + [f], key) == PathKeys(ctx, key) + Keys(f.sib, key)
    decreases |ctx|
  {
    if |ctx| > 0 {
      assert (ctx + [f])[1..] == ctx[1..] + [f];
      FramesPush(ctx[1..], f, t, key);
    } else {
      assert ctx + [f] == [f];
    }
  }

  lemma {:induction false} FitsPush(ctx: seq<Frame>, f: Frame, t: Shape, a: nat, key: NodeId -> nat)
    ensures Fits(ctx + [f], t, a, key) <==>
              Fits(ctx, Fill(f, t), a, key) && Dist(a, key(t.id)) < SplitDist(Fill(f, t), key)
    decreases |ctx|
  {
    if |ctx| > 0 {
      assert (ctx + [f])[1..] == ctx[1..] + [f];
      PlugPush(ctx[1..], f, t);
      FitsPush(ctx[1..], f, t, a, key);
    } else {
      assert ctx + [f] == [f];
      assert [f][1..] == [];
    }
  }

  // ------------------------------------------------------ well-formedness

  lemma {:induction false} SplitsInLeaves(s: Shape)
    requires Distinct(s)
    ensures Splits(s) <= Leaves(s)
  {
    if s.Split? {
      SplitsInLeaves(s.left);
      SplitsInLeaves(s.right);
    }
  }

  lemma TopIsLeaf(s: Shape)
    requires Distinct(s)
    ensures s.id in Leaves(s)
  {
    SplitsInLeaves(s);
  }

  lemma TopKey(s: Shape, key: NodeId -> nat)
    requires Distinct(s)
    ensures key(s.id) in Keys(s, key)
  {
    TopIsLeaf(s);
    LeafKey(s, s.id, key);
  }

  lemma {:induction false} LeafKey(s: Shape, x: NodeId, key: NodeId -> nat)
    requires x in Leaves(s)
    ensures key(x) in Keys(s, key)
  {
    if s.Split? {
      if x in Leaves(s.left) {
        LeafKey(s.left, x, key);
      } else {
        LeafKey(s.right, x, key);
      }
    }
  }

  /** Every key of s comes from a leaf of s. */
  lemma {:induction false} KeyLeaf(s: Shape, a: nat, key: NodeId -> nat) returns (x: NodeId)
    requires a in Keys(s, key)
    ensures x in Leaves(s) && key(x) == a
  {
    if s.Leaf? {
      x := s.id;
    } else if a in Keys(s.left, key) {
      x := KeyLeaf(s.left, a, key);
    } else {
      x := KeyLeaf(s.right, a, key);
    }
  }

  /** Keys of the left subtree are below those of the right subtree. */
  lemma KeysApart(l: Shape, r: Shape, key: NodeId -> nat, a: nat, c: nat)
    requires Apart(l, r, key)
    requires a in Keys(l, key) && c in Keys(r, key)
    ensures a < c
  {
    Across(key(l.id), key(r.id), a, c);
  }

  /** In an ordered tree, two leaves with the same key are the same leaf. */
  lemma {:induction false} LeavesApart(s: Shape, key: NodeId -> nat)
    requires s.Split? && Ordered(s, key)
    ensures Leaves(s.left) !! Leaves(s.right)
  {
    forall x | x in Leaves(s.left) && x in Leaves(s.right)
      ensures false
    {
      LeafKey(s.left, x, key);
      LeafKey(s.right, x, key);
      KeysApart(s.left, s.right, key, key(x), key(x));
    }
  }

  /** Distinct leaves of an ordered tree carry distinct keys. */
  lemma {:induction false} KeysInjective(s: Shape, x: NodeId, y: NodeId, key: NodeId -> nat)
    requires Ordered(s, key) && x in Leaves(s) && y in Leaves(s) && key(x) == key(y)
    ensures x == y
  {
    if s.Split? {
      if x in Leaves(s.left) && y in Leaves(s.left) {
        KeysInjective(s.left, x, y, key);
      } else if x in Leaves(s.right) && y in Leaves(s.right) {
        KeysInjective(s.right, x, y, key);
      } else {
        LeafKey(s.left, if x in Leaves(s.left) then x else y, key);
        LeafKey(s.right, if x in Leaves(s.left) then y else x, key);
        KeysApart(s.left, s.right, key, key(x), key(x));
      }
    }
  }

  lemma {:induction false} SubtreeWf(ctx: seq<Frame>, t: Shape, key: NodeId -> nat)
    requires Wf(Plug(ctx, t), key)
    ensures Wf(t, key)
    ensures forall i :: 0 <= i < |ctx| ==> Wf(ctx[i].sib, key)
    decreases |ctx|
  {
    if |ctx| > 0 {
      SubtreeWf(ctx[1..], t, key);
      assert forall i :: 1 <= i < |ctx| ==> ctx[i] == ctx[1..][i - 1];
    }
  }

  /** The split position shrinks strictly from a split node to a split child. */
  lemma ChildSplitCloser(s: Shape, key: NodeId -> nat)
    requires s.Split? && Wf(s, key)
    ensures s.left.Split? ==> SplitDist(s.left, key) < SplitDist(s, key)
    ensures s.right.Split? ==> SplitDist(s.right, key) < SplitDist(s, key)
  {
    var d := SplitDist(s, key);
    if s.left.Split? {
      var c := s.left;
      assert Distinct(c);
      TopKey(c.left, key);
      TopKey(c.right, key);
      var kc := key(c.id);
      Ultra(key(c.left.id), kc, key(c.right.id));
      DistSym(kc, key(c.right.id));
    }
    if s.right.Split? {
      var c := s.right;
      assert Distinct(c);
      TopKey(c.left, key);
      TopKey(c.right, key);
      var kc := key(c.id);
      Ultra(key(c.left.id), kc, key(c.right.id));
      DistSym(kc, key(c.right.id));
    }
  }

  /** All keys of a cluster are closer to each other than the cluster's bound. */
  lemma Pairwise(S: set<nat>, rep: nat, d: nat, a: nat, c: nat)
    requires Within(S, rep, d) && a in S && c in S
    ensures Dist(a, c) < d
  {
    Ultra(a, rep, c);
    DistSym(c, rep);
  }

  /**
   * A record that is a leaf of t but whose split node is not inside t has
   * that split node on the path above t, and every two keys of t are closer
   * to each other than that split's two top keys.
   */
  lemma {:induction false} SplitAbove(ctx: seq<Frame>, t: Shape, p: NodeId, key: NodeId -> nat) returns (i: nat)
    requires Wf(Plug(ctx, t), key)
    requires p in Leaves(t) && p !in Splits(t) && p in Splits(Plug(ctx, t))
    ensures i < |ctx| && ctx[i].id == p
    ensures forall a, c :: a in Keys(t, key) && c in Keys(t, key) ==>
              Dist(a, c) < SplitDist(Fill(ctx[i], Plug(ctx[i + 1..], t)), key)
    decreases |ctx|
  {
    var f := ctx[0];
    var B := Plug(ctx[1..], t);
    PlugSets(ctx[1..], t, key);
    if p in Splits(B) {
      var j := SplitAbove(ctx[1..], t, p, key);
      i := j + 1;
      assert ctx[1..][j + 1..] == ctx[i + 1..];
    } else if p == f.id {
      i := 0;
      var s := Fill(f, B);
      forall a, c | a in Keys(t, key) && c in Keys(t, key)
        ensures Dist(a, c) < SplitDist(s, key)
      {
        TopKey(B, key);
        if f.side {
          Pairwise(Keys(B, key), key(B.id), SplitDist(s, key), a, c);
        } else {
          Pairwise(Keys(B, key), key(B.id), SplitDist(s, key), a, c);
        }
      }
    } else {
      assert p in Splits(f.sib);
      SplitsInLeaves(f.sib);
      LeavesApart(Fill(f, B), key);
      assert false;
    }
  }

  // --------------------------------------------------- ordering of leaves

  lemma {:induction false} LeftmostMin(s: Shape, key: NodeId -> nat)
    requires Ordered(s, key)
    ensures key(Leftmost(s)) in Keys(s, key)
    ensures forall a :: a in Keys(s, key) ==> key(Leftmost(s)) <= a
  {
    if s.Split? {
      LeftmostMin(s.left, key);
      forall a | a in Keys(s.right, key)
        ensures key(Leftmost(s)) <= a
      {
        KeysApart(s.left, s.right, key, key(Leftmost(s)), a);
      }
    }
  }

  lemma {:induction false} RightmostMax(s: Shape, key: NodeId -> nat)
    requires Ordered(s, key)
    ensures key(Rightmost(s)) in Keys(s, key)
    ensures forall a :: a in Keys(s, key) ==> a <= key(Rightmost(s))
  {
    if s.Split? {
      RightmostMax(s.right, key);
      forall a | a in Keys(s.left, key)
        ensures a <= key(Rightmost(s))
      {
        KeysApart(s.left, s.right, key, a, key(Rightmost(s)));
      }
    }
  }

  lemma {:induction false} LeftmostLeaf(s: Shape)
    ensures Leftmost(s) in Leaves(s) && Rightmost(s) in Leaves(s)
  {
    if s.Split? {
      LeftmostLeaf(s.left);
      LeftmostLeaf(s.right);
    }
  }
}
