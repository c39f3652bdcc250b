/**
 * Facts about replacing one subtree of a tree by another, used to show that
 * insertion and deletion rewire the records into a well-formed tree again.
 * A subtree reached by a path is replaced; what must hold of the new subtree
 * for the whole to stay distinct, ordered and wired is stated once here.
 */
module Surgery {
  import opened Bits
  import opened Shapes
  import opened Arena

  // ---------------------------------------------------------------- paths

  lemma {:induction false} PathSplitsAppend(a: seq<Frame>, c: seq<Frame>)
    ensures PathSplits(a + c) == PathSplits(a) + PathSplits(c)
    decreases |a|
  {
    if |a| > 0 {
      assert (a + c)[1..] == a[1..] + c;
      PathSplitsAppend(a[1..], c);
    } else {
      assert a + c == c;
    }
  }

  /** Frame j's split node and everything split in its sibling are split nodes of the path. */
  lemma {:induction false} InPathSplits(ctx: seq<Frame>, j: nat)
    requires j < |ctx|
    ensures ctx[j].id in PathSplits(ctx) && Splits(ctx[j].sib) <= PathSplits(ctx)
    decreases j
  {
    if j > 0 {
      InPathSplits(ctx[1..], j - 1);
    }
  }

  /** Below a path of a distinct tree, no record is split again that was split on the path. */
  lemma {:induction false} PlugDisjoint(ctx: seq<Frame>, t: Shape)
    requires Distinct(Plug(ctx, t))
    ensures Distinct(t) && Splits(t) !! PathSplits(ctx)
    decreases |ctx|
  {
    if |ctx| > 0 {
      PlugDisjoint(ctx[1..], t);
      PlugSets(ctx[1..], t, x => 0);
    }
  }

  /** A subtree of an ordered tree is ordered. */
  lemma {:induction false} SubtreeOrdered(ctx: seq<Frame>, t: Shape, key: NodeId -> nat)
    requires Ordered(Plug(ctx, t), key)
    ensures Ordered(t, key)
    decreases |ctx|
  {
    if |ctx| > 0 {
      SubtreeOrdered(ctx[1..], t, key);
    }
  }

  /** In an ordered tree, no record is a leaf both below a path and beside it. */
  lemma {:induction false} PlugLeavesApart(ctx: seq<Frame>, t: Shape, key: NodeId -> nat)
    requires Ordered(Plug(ctx, t), key)
    ensures Leaves(t) !! PathLeaves(ctx)
    decreases |ctx|
  {
    if |ctx| > 0 {
      PlugLeavesApart(ctx[1..], t, key);
      PlugSets(ctx[1..], t, key);
      LeavesApart(Plug(ctx, t), key);
    }
  }

  // ---------------------------------------------------------- distinctness

  /**
   * Replacing t by t' keeps the tree distinct when t' is, splits no record
   * the path splits, and keeps as leaves the path's split records that were
   * leaves of t.
   */
  lemma {:induction false} DistinctReplace(ctx: seq<Frame>, t: Shape, t': Shape)
    requires Distinct(Plug(ctx, t)) && Distinct(t') && Splits(t') !! PathSplits(ctx)
    requires FrameIds(ctx) * Leaves(t) <= Leaves(t')
    ensures Distinct(Plug(ctx, t'))
    decreases |ctx|
  {
    if |ctx| > 0 {
      var rest := ctx[1..];
      DistinctReplace(rest, t, t');
      PlugSets(rest, t, x => 0);
      PlugSets(rest, t', x => 0);
    }
  }

  // ------------------------------------------------------------- ordering

  /**
   * Replacing the right subtree r of a split by r' keeps the two apart when
   * every key of r' and the top key of r' stay within the split distance of
   * r's top key.
   */
  lemma ReanchorRight(l: Shape, r: Shape, r': Shape, key: NodeId -> nat)
    requires Apart(l, r, key)
    requires var d := Dist(key(l.id), key(r.id));
      Within(Keys(r', key), key(r.id), d) && Dist(key(r'.id), key(r.id)) < d
    ensures Apart(l, r', key)
  {
    var kl, kr, kr' := key(l.id), key(r.id), key(r'.id);
    var d := Dist(kl, kr);
    DistSym(kl, kr);
    UltraEq(kr', kr, kl);
    DistSym(kr', kl);
    CmpFar(kl, kr', kr);
    forall a | a in Keys(r', key)
      ensures Dist(a, kr') < d
    {
      Ultra(a, kr, kr');
      DistSym(kr', kr);
    }
  }

  lemma ReanchorLeft(l: Shape, r: Shape, l': Shape, key: NodeId -> nat)
    requires Apart(l, r, key)
    requires var d := Dist(key(l.id), key(r.id));
      Within(Keys(l', key), key(l.id), d) && Dist(key(l'.id), key(l.id)) < d
    ensures Apart(l', r, key)
  {
    var kl, kr, kl' := key(l.id), key(r.id), key(l'.id);
    var d := Dist(kl, kr);
    DistSym(kl, kr);
    UltraEq(kl', kl, kr);
    CmpFar(kr, kl', kl);
    DistSym(kl', kr);
    forall a | a in Keys(l', key)
      ensures Dist(a, kl') < d
    {
      Ultra(a, kl, kl');
      DistSym(kl', kl);
    }
  }

  /** The keys of a subtree of an ordered tree fit the path above it. */
  lemma {:induction false} InFits(ctx: seq<Frame>, t: Shape, key: NodeId -> nat)
    requires Ordered(Plug(ctx, t), key)
    ensures forall a :: a in Keys(t, key) ==> Fits(ctx, t, a, key)
    decreases |ctx|
  {
    if |ctx| > 0 {
      InFits(ctx[1..], t, key);
      PlugSets(ctx[1..], t, key);
    }
  }

  /**
   * Replacing t by an ordered t' keeps the tree ordered when every key of t'
   * fits the path to t, and the top key of t' is one of its keys.
   */
  lemma {:induction false} OrderedReplace(ctx: seq<Frame>, t: Shape, t': Shape, key: NodeId -> nat)
    requires Ordered(Plug(ctx, t), key) && Ordered(t', key) && key(t'.id) in Keys(t', key)
    requires forall a :: a in Keys(t', key) ==> Fits(ctx, t, a, key)
    ensures Ordered(Plug(ctx, t'), key)
    decreases |ctx|
  {
    if |ctx| > 0 {
      OrderedReplace(ctx[1..], t, t', key);
      ReplaceHead(ctx[0], ctx[1..], t, t', key);
    }
  }

  /** The step of `OrderedReplace` at the top frame of the path. */
  lemma ReplaceHead(f: Frame, rest: seq<Frame>, t: Shape, t': Shape, key: NodeId -> nat)
    requires Ordered(Fill(f, Plug(rest, t)), key) && Ordered(Plug(rest, t'), key) && key(t'.id) in Keys(t', key)
    requires forall a :: a in Keys(t', key) ==> Dist(a, key(Plug(rest, t).id)) < SplitDist(Fill(f, Plug(rest, t)), key)
    ensures Ordered(Fill(f, Plug(rest, t')), key)
  {
    var x, x' := Plug(rest, t), Plug(rest, t');
    var kx, ks := key(x.id), key(f.sib.id);
    var d := SplitDist(Fill(f, x), key);
    DistSym(kx, ks);
    assert Within(Keys(x, key), kx, d);
    assert Within(Keys(x', key), kx, d) && Dist(key(x'.id), kx) < d by {
      SiblingWithin(rest, t, t', kx, d, key);
    }
    if f.side {
      ReanchorRight(f.sib, x, x', key);
    } else {
      ReanchorLeft(x, f.sib, x', key);
    }
  }

  lemma SiblingWithin(rest: seq<Frame>, t: Shape, t': Shape, kx: nat, d: nat, key: NodeId -> nat)
    requires kx == key(Plug(rest, t).id) && d > 0 && key(t'.id) in Keys(t', key)
    requires Within(Keys(Plug(rest, t), key), kx, d)
    requires forall a :: a in Keys(t', key) ==> Dist(a, kx) < d
    ensures Within(Keys(Plug(rest, t'), key), kx, d) && Dist(key(Plug(rest, t').id), kx) < d
  {
    PlugSets(rest, t, key);
    PlugSets(rest, t', key);
  }

  /**
   * When a keyed descent stops on split node s because k differs from both
   * its branches above their split bit, every key below s is closer to the
   * top key of s than k is.
   */
  lemma MismatchFar(s: Shape, k: nat, key: NodeId -> nat, a: nat)
    requires s.Split? && Wf(s, key) && Xor(k, key(s.left.id)) > Xor(key(s.left.id), key(s.right.id)) &&
             Xor(k, key(s.right.id)) > Xor(key(s.left.id), key(s.right.id))
    requires a in Keys(s, key)
    ensures Dist(a, key(s.id)) < Dist(k, key(s.id))
  {
    var kl, kr, ks := key(s.left.id), key(s.right.id), key(s.id);
    Steer(k, kl, kr);
    TopKey(s, key);
    DistSym(kl, kr);
    forall c | c in Keys(s, key)
      ensures Dist(c, kl) < Dist(k, kl)
    {
      if c in Keys(s.right, key) {
        Ultra(c, kr, kl);
      }
    }
    Ultra(a, kl, ks);
    DistSym(ks, kl);
    DistSym(k, kl);
    UltraEq(ks, kl, k);
    DistSym(ks, k);
  }

  // ---------------------------------------------------------------- wiring

  /** b' differs from b at most on the branches of the records in W. */
  ghost predicate Touches(b: Branches, b': Branches, W: set<NodeId>)
  {
    forall x: NodeId, side: bool :: x !in W ==>
      ((x, side) in b <==> (x, side) in b') && ((x, side) in b ==> b[(x, side)] == b'[(x, side)])
  }

  lemma {:induction false} LinkedTouch(s: Shape, b: Branches, b': Branches, W: set<NodeId>)
    requires Linked(s, b) && Touches(b, b', W) && Splits(s) !! W
    ensures Linked(s, b')
  {
    if s.Split? {
      LinkedTouch(s.left, b, b', W);
      LinkedTouch(s.right, b, b', W);
    }
  }

  /** A path none of whose records is touched stays wired, down to any subtree with the same top record. */
  lemma PathTouch(ctx: seq<Frame>, t: Shape, t': Shape, b: Branches, b': Branches, W: set<NodeId>)
    requires LinkedPath(ctx, t, b) && Touches(b, b', W) && PathSplits(ctx) !! W && t'.id == t.id
    ensures LinkedPath(ctx, t', b')
  {
    forall j | 0 <= j < |ctx|
      ensures FrameLinked(ctx, j, t', b')
    {
      assert FrameLinked(ctx, j, t, b);
      InPathSplits(ctx, j);
      LinkedTouch(ctx[j].sib, b, b', W);
    }
  }

  /**
   * Replacing t, below frame f at the end of path up, by a wired t' keeps the
   * tree wired when f's branch down the path now leads to t', its other
   * branch is unchanged, and no other touched record is split on the path
   * or beside it.
   */
  lemma Rewire(up: seq<Frame>, f: Frame, t: Shape, t': Shape, b: Branches, b': Branches, W: set<NodeId>)
    requires Linked(Plug(up, Fill(f, t)), b) && Distinct(Plug(up, Fill(f, t))) && Linked(t', b')
    requires Touches(b, b', W) && forall x :: x in W && x != f.id ==> x !in PathSplits(up) && x !in Splits(f.sib)
    requires (f.id, f.side) in b' && b'[(f.id, f.side)] == t'.id
    requires (f.id, !f.side) in b && (f.id, !f.side) in b' && b'[(f.id, !f.side)] == b[(f.id, !f.side)]
    ensures Linked(Plug(up, Fill(f, t')), b')
  {
    LinkedPlug(up, Fill(f, t), b);
    PlugDisjoint(up, Fill(f, t));
    assert f.id !in PathSplits(up) && f.id !in Splits(f.sib);
    LinkedTouch(f.sib, b, b', W);
    PathTouch(up, Fill(f, t), Fill(f, t'), b, b', W);
    LinkedPlug(up, Fill(f, t'), b');
  }
}
