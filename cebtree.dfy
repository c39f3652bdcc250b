/**
 * The lookups of the generic engine for trees with unique scalar keys
 * (`_cebu_first`, `_cebu_last`, `_cebu_next`, `_cebu_prev`, `_cebu_lookup`
 * and the four range lookups), built on `Descend` the way the C functions
 * are built on `_cebu_descend`.  None of them changes the tree.
 */
module CebTree {
  import opened Wrappers
  import opened Bits
  import opened Shapes
  import opened Walks
  import opened Arena
  import opened CebDescent

  // ------------------------------------------------------------ helpers

  /** Where a descent of the whole tree stops lies inside the tree. */
  lemma StopInside(s: Shape, m: WalkMeth, k: nat, side: bool, key: NodeId -> nat)
    requires Wf(s, key)
    ensures var w := Walk([], s, m, k, side, NoAnchor, key);
      Plug(w.path, w.at) == s && Wf(w.at, key) && Leaves(w.at) <= Leaves(s) &&
      Keys(w.at, key) <= Keys(s, key) && w.at.id in Leaves(s) && key(w.at.id) in Keys(s, key)
  {
    var w := Walk([], s, m, k, side, NoAnchor, key);
    WalkShape([], s, m, k, side, NoAnchor, key);
    SubtreeWf(w.path, w.at, key);
    PlugSets(w.path, w.at, key);
    TopIsLeaf(w.at);
    TopKey(w.at, key);
  }

  /** A keyed descent stops on a record holding k exactly when k is stored, and then on that record's leaf. */
  lemma KeyedHit(s: Shape, m: WalkMeth, k: nat, key: NodeId -> nat)
    requires Wf(s, key) && m.Keyed()
    ensures var w := Walk([], s, m, k, m.InitialSide(), NoAnchor, key);
      (key(w.at.id) == k <==> k in Keys(s, key)) && (key(w.at.id) == k ==> w.at.Leaf?)
  {
    StopInside(s, m, k, m.InitialSide(), key);
    if k in Keys(s, key) {
      WalkFinds([], s, m, k, m.InitialSide(), NoAnchor, key);
    }
  }

  /**
   * The restart of next (prev) from a split node the first descent anchored
   * on reaches the leftmost leaf of its right branch (the rightmost leaf of its
   * left branch), a record of the tree.
   */
  lemma Restart(s: Shape, a: Anchor, m: WalkMeth, key: NodeId -> nat)
    requires a.Anchor? && a.at.Split? && Plug(a.above, a.at) == s && (m == WalkMeth.Next || m == WalkMeth.Prev)
    ensures var w := Walk(a.above, a.at, m, 0, m.InitialSide(), NoAnchor, key);
      w.at.id == (if m == WalkMeth.Next then Leftmost(a.at.right) else Rightmost(a.at.left)) && w.at.id in Leaves(s)
  {
    WalkStep(a.above, a.at, m, key);
    LeftmostLeaf(a.at.right);
    LeftmostLeaf(a.at.left);
    PlugSets(a.above, a.at, key);
  }

  // ------------------------------------------------------- first, last

  /** `_cebu_first`: the record holding the smallest key; none in an empty tree. */
  method First(t: Tree) returns (r: Option<NodeId>)
    requires t.Valid()
    ensures r.None? <==> t.Contents() == {}
    ensures r.Some? ==> r.value in t.Records() && Least(t.Contents(), t.key(r.value))
  {
    if t.root.None? {
      return None;
    }
    ghost var s := t.shape.value;
    var d := Descend(t.b, t.key, t.kt, t.root.value, s, [], s, WalkMeth.First, 0);
    WalkExtreme([], s, WalkMeth.First, false, NoAnchor, t.key);
    LeftmostMin(s, t.key);
    LeftmostLeaf(s);
    r := d.ret;
  }

  /** `_cebu_last`: the record holding the largest key; none in an empty tree. */
  method Last(t: Tree) returns (r: Option<NodeId>)
    requires t.Valid()
    ensures r.None? <==> t.Contents() == {}
    ensures r.Some? ==> r.value in t.Records() && Greatest(t.Contents(), t.key(r.value))
  {
    if t.root.None? {
      return None;
    }
    ghost var s := t.shape.value;
    var d := Descend(t.b, t.key, t.kt, t.root.value, s, [], s, WalkMeth.Last, 0);
    WalkExtreme([], s, WalkMeth.Last, true, NoAnchor, t.key);
    RightmostMax(s, t.key);
    LeftmostLeaf(s);
    r := d.ret;
  }

  // ------------------------------------------------------------ lookup

  /** `_cebu_lookup`: the record holding k, if k is stored. */
  method Lookup(t: Tree, k: nat) returns (r: Option<NodeId>)
    requires t.Valid()
    ensures r.Some? <==> k in t.Contents()
    ensures r.Some? ==> r.value in t.Records() && t.key(r.value) == k
  {
    if t.root.None? {
      return None;
    }
    ghost var s := t.shape.value;
    var d := Descend(t.b, t.key, t.kt, t.root.value, s, [], s, KeyEq, k);
    KeyedHit(s, KeyEq, k, t.key);
    StopInside(s, KeyEq, k, false, t.key);
    r := d.ret;
  }

  // -------------------------------------------------------- next, prev

  /**
   * `_cebu_next`: given the key k of a stored record, the record holding the
   * next greater key.  None when k is not stored or is the largest key.
   */
  method Next(t: Tree, k: nat) returns (r: Option<NodeId>)
    requires t.Valid()
    ensures r.Some? <==> k in t.Contents() && Candidates(t.Contents(), KeyNext, k) != {}
    ensures r.Some? ==> r.value in t.Records() && Least(Candidates(t.Contents(), KeyNext, k), t.key(r.value))
  {
    if t.root.None? {
      return None;
    }
    ghost var s := t.shape.value;
    var d := Descend(t.b, t.key, t.kt, t.root.value, s, [], s, KeyNext, k);
    ghost var w := Walk([], s, KeyNext, k, false, NoAnchor, t.key);
    KeyedHit(s, KeyNext, k, t.key);
    if d.ret.None? {
      return None;
    }
    WalkCeil([], s, KeyNext, k, false, NoAnchor, t.key);
    var restart := d.back;
    if restart.None? {
      return None;
    }
    WalkShape([], s, KeyNext, k, false, NoAnchor, t.key);
    Restart(s, w.anchor, WalkMeth.Next, t.key);
    var d2 := Descend(t.b, t.key, t.kt, restart.value, s, w.anchor.above, w.anchor.at, WalkMeth.Next, 0);
    r := d2.ret;
  }

  /**
   * `_cebu_prev`: given the key k of a stored record, the record holding the
   * next lower key.  None when k is not stored or is the smallest key.
   */
  method Prev(t: Tree, k: nat) returns (r: Option<NodeId>)
    requires t.Valid()
    ensures r.Some? <==> k in t.Contents() && Candidates(t.Contents(), KeyPrev, k) != {}
    ensures r.Some? ==> r.value in t.Records() && Greatest(Candidates(t.Contents(), KeyPrev, k), t.key(r.value))
  {
    if t.root.None? {
      return None;
    }
    ghost var s := t.shape.value;
    var d := Descend(t.b, t.key, t.kt, t.root.value, s, [], s, KeyPrev, k);
    ghost var w := Walk([], s, KeyPrev, k, false, NoAnchor, t.key);
    KeyedHit(s, KeyPrev, k, t.key);
    if d.ret.None? {
      return None;
    }
    WalkFloor([], s, KeyPrev, k, false, NoAnchor, t.key);
    var restart := d.back;
    if restart.None? {
      return None;
    }
    WalkShape([], s, KeyPrev, k, false, NoAnchor, t.key);
    Restart(s, w.anchor, WalkMeth.Prev, t.key);
    var d2 := Descend(t.b, t.key, t.kt, restart.value, s, w.anchor.above, w.anchor.at, WalkMeth.Prev, 0);
    r := d2.ret;
  }

  // ------------------------------------------------------ range lookups

  /**
   * What `_cebu_lookup_ge` (m = KeyGe) and `_cebu_lookup_gt` (m = KeyGt)
   * return on a non-empty tree of shape s: the record the keyed descent stops
   * on if its key passes the method's test, otherwise the restart from the
   * last left turn, if any.
   */
  ghost function CeilAsWritten(s: Shape, m: WalkMeth, k: nat, key: NodeId -> nat): Option<NodeId>
  {
    var w := Walk([], s, m, k, false, NoAnchor, key);
    if Accepts(m, key(w.at.id), k) then Some(w.at.id)
    else if w.anchor.Anchor? then
      Some(Walk(w.anchor.above, w.anchor.at, WalkMeth.Next, 0, WalkMeth.Next.InitialSide(), NoAnchor, key).at.id)
    else None
  }

  /** The mirror of `CeilAsWritten` for `_cebu_lookup_le` (m = KeyLe) and `_cebu_lookup_lt` (m = KeyLt). */
  ghost function FloorAsWritten(s: Shape, m: WalkMeth, k: nat, key: NodeId -> nat): Option<NodeId>
  {
    var w := Walk([], s, m, k, false, NoAnchor, key);
    if Accepts(m, key(w.at.id), k) then Some(w.at.id)
    else if w.anchor.Anchor? then
      Some(Walk(w.anchor.above, w.anchor.at, WalkMeth.Prev, 0, WalkMeth.Prev.InitialSide(), NoAnchor, key).at.id)
    else None
  }

  /**
   * The range lookups as written find a record exactly when some stored key
   * passes the test, and what they find passes it.
   */
  lemma CeilAsWrittenSound(s: Shape, m: WalkMeth, k: nat, key: NodeId -> nat)
    requires Wf(s, key) && (m == KeyGe || m == KeyGt)
    ensures var r := CeilAsWritten(s, m, k, key);
      (r.Some? <==> Candidates(Keys(s, key), m, k) != {}) &&
      (r.Some? ==> r.value in Leaves(s) && key(r.value) in Candidates(Keys(s, key), m, k))
  {
    var w := Walk([], s, m, k, false, NoAnchor, key);
    StopInside(s, m, k, false, key);
    WalkCeil([], s, m, k, false, NoAnchor, key);
    WalkShape([], s, m, k, false, NoAnchor, key);
    if w.anchor.Anchor? {
      Restart(s, w.anchor, WalkMeth.Next, key);
    }
  }

  lemma FloorAsWrittenSound(s: Shape, m: WalkMeth, k: nat, key: NodeId -> nat)
    requires Wf(s, key) && (m == KeyLe || m == KeyLt)
    ensures var r := FloorAsWritten(s, m, k, key);
      (r.Some? <==> Candidates(Keys(s, key), m, k) != {}) &&
      (r.Some? ==> r.value in Leaves(s) && key(r.value) in Candidates(Keys(s, key), m, k))
  {
    var w := Walk([], s, m, k, false, NoAnchor, key);
    StopInside(s, m, k, false, key);
    WalkFloor([], s, m, k, false, NoAnchor, key);
    WalkShape([], s, m, k, false, NoAnchor, key);
    if w.anchor.Anchor? {
      Restart(s, w.anchor, WalkMeth.Prev, key);
    }
  }

  /** Records keyed by their own number. */
  function Ident(x: NodeId): nat
  {
    x
  }

  /**
   * Records 4 and 6, inserted in that order, make record 6 the split node
   * above the leaves 4 and 6.  Looking up the least key >= 1, the descent
   * stops on that split node, since 1 differs from both 4 and 6 above their
   * split bit; 6 >= 1 passes the test and record 6 is returned, although 4
   * is the least key >= 1.
   */
  lemma CeilAsWrittenNotLeast()
    ensures var s := Split(6, Leaf(4), Leaf(6));
      Wf(s, Ident) && CeilAsWritten(s, KeyGe, 1, Ident) == Some(6) &&
      Least(Candidates(Keys(s, Ident), KeyGe, 1), 4)
  {
    CeilExampleTree();
    CeilExampleWalk();
  }

  /** The bitwise differences the two examples below rely on. */
  lemma ExampleXors()
    ensures Xor(1, 4) == 5 && Xor(1, 6) == 7 && Xor(4, 6) == 2 && Xor(9, 4) == 13 && Xor(9, 6) == 15
  {
    assert Xor(1, 4) == 5;
    assert Xor(1, 6) == 7;
    assert Xor(4, 6) == 2;
    assert Xor(9, 4) == 13;
    assert Xor(9, 6) == 15;
  }

  /** The tree of `CeilAsWrittenNotLeast` is well formed, and 4 is its least key >= 1. */
  lemma CeilExampleTree()
    ensures var s := Split(6, Leaf(4), Leaf(6));
      Wf(s, Ident) && Least(Candidates(Keys(s, Ident), KeyGe, 1), 4)
  {
    assert Xor(4, 6) == 2;
    assert Dist(4, 6) == 2;
  }

  /** The descent of `CeilAsWrittenNotLeast` for 1 stops on the split node and returns record 6. */
  lemma CeilExampleWalk()
    ensures CeilAsWritten(Split(6, Leaf(4), Leaf(6)), KeyGe, 1, Ident) == Some(6)
  {
    var s := Split(6, Leaf(4), Leaf(6));
    ExampleXors();
    assert Walk([], s, KeyGe, 1, false, NoAnchor, Ident) == Stop([], s, NoAnchor);
  }

  /**
   * Records 6 and 4, inserted in that order, make record 4 the split node
   * above the leaves 4 and 6.  Looking up the greatest key <= 9 stops on that
   * split node and returns record 4, although 6 is the greatest key <= 9.
   */
  lemma FloorAsWrittenNotGreatest()
    ensures var s := Split(4, Leaf(4), Leaf(6));
      Wf(s, Ident) && FloorAsWritten(s, KeyLe, 9, Ident) == Some(4) &&
      Greatest(Candidates(Keys(s, Ident), KeyLe, 9), 6)
  {
    FloorExampleTree();
    FloorExampleWalk();
  }

  /** The tree of `FloorAsWrittenNotGreatest` is well formed, and 6 is its greatest key <= 9. */
  lemma FloorExampleTree()
    ensures var s := Split(4, Leaf(4), Leaf(6));
      Wf(s, Ident) && Greatest(Candidates(Keys(s, Ident), KeyLe, 9), 6)
  {
    assert Xor(4, 6) == 2;
    assert Dist(4, 6) == 2;
  }

  /** The descent of `FloorAsWrittenNotGreatest` for 9 stops on the split node and returns record 4. */
  lemma FloorExampleWalk()
    ensures FloorAsWritten(Split(4, Leaf(4), Leaf(6)), KeyLe, 9, Ident) == Some(4)
  {
    var s := Split(4, Leaf(4), Leaf(6));
    ExampleXors();
    assert Walk([], s, KeyLe, 9, false, NoAnchor, Ident) == Stop([], s, NoAnchor);
  }

  /**
   * `_cebu_lookup_ge` and `_cebu_lookup_gt` as written: the record found
   * holds a key passing the test, and one is found whenever some stored key
   * passes it, but it need not be the least such key (`CeilAsWrittenNotLeast`).
   */
  method LookupCeilAsWritten(t: Tree, m: WalkMeth, k: nat) returns (r: Option<NodeId>)
    requires t.Valid() && (m == KeyGe || m == KeyGt)
    ensures t.shape.None? ==> r.None?
    ensures t.shape.Some? ==> r == CeilAsWritten(t.shape.value, m, k, t.key)
    ensures r.Some? <==> Candidates(t.Contents(), m, k) != {}
    ensures r.Some? ==> r.value in t.Records() && t.key(r.value) in Candidates(t.Contents(), m, k)
  {
    if t.root.None? {
      return None;
    }
    ghost var s := t.shape.value;
    CeilAsWrittenSound(s, m, k, t.key);
    var d := Descend(t.b, t.key, t.kt, t.root.value, s, [], s, m, k);
    if d.ret.Some? {
      return d.ret;
    }
    var restart := d.back;
    if restart.None? {
      return None;
    }
    ghost var w := Walk([], s, m, k, false, NoAnchor, t.key);
    WalkShape([], s, m, k, false, NoAnchor, t.key);
    var d2 := Descend(t.b, t.key, t.kt, restart.value, s, w.anchor.above, w.anchor.at, WalkMeth.Next, 0);
    r := d2.ret;
  }

  /** `_cebu_lookup_le` and `_cebu_lookup_lt` as written; see `FloorAsWrittenNotGreatest`. */
  method LookupFloorAsWritten(t: Tree, m: WalkMeth, k: nat) returns (r: Option<NodeId>)
    requires t.Valid() && (m == KeyLe || m == KeyLt)
    ensures t.shape.None? ==> r.None?
    ensures t.shape.Some? ==> r == FloorAsWritten(t.shape.value, m, k, t.key)
    ensures r.Some? <==> Candidates(t.Contents(), m, k) != {}
    ensures r.Some? ==> r.value in t.Records() && t.key(r.value) in Candidates(t.Contents(), m, k)
  {
    if t.root.None? {
      return None;
    }
    ghost var s := t.shape.value;
    FloorAsWrittenSound(s, m, k, t.key);
    var d := Descend(t.b, t.key, t.kt, t.root.value, s, [], s, m, k);
    if d.ret.Some? {
      return d.ret;
    }
    var restart := d.back;
    if restart.None? {
      return None;
    }
    ghost var w := Walk([], s, m, k, false, NoAnchor, t.key);
    WalkShape([], s, m, k, false, NoAnchor, t.key);
    var d2 := Descend(t.b, t.key, t.kt, restart.value, s, w.anchor.above, w.anchor.at, WalkMeth.Prev, 0);
    r := d2.ret;
  }

  /**
   * The range lookups `_cebu_lookup_ge` (m = KeyGe) and `_cebu_lookup_gt`
   * (m = KeyGt), corrected: when the keyed descent stops on a split node
   * whose keys are all above k, the answer is the leftmost leaf below that
   * node, which a descent to the first leaf from there finds.
   */
  method LookupCeil(t: Tree, m: WalkMeth, k: nat) returns (r: Option<NodeId>)
    requires t.Valid() && (m == KeyGe || m == KeyGt)
    ensures r.Some? <==> Candidates(t.Contents(), m, k) != {}
    ensures r.Some? ==> r.value in t.Records() && Least(Candidates(t.Contents(), m, k), t.key(r.value))
  {
    if t.root.None? {
      return None;
    }
    ghost var s := t.shape.value;
    var d := Descend(t.b, t.key, t.kt, t.root.value, s, [], s, m, k);
    ghost var w := Walk([], s, m, k, false, NoAnchor, t.key);
    StopInside(s, m, k, false, t.key);
    WalkCeil([], s, m, k, false, NoAnchor, t.key);
    WalkShape([], s, m, k, false, NoAnchor, t.key);
    if d.ret.Some? {
      if !d.mismatch {
        return d.ret;
      }
      r := CeilBelow(t, m, k, d.p, w);
      return;
    }
    var restart := d.back;
    if restart.None? {
      return None;
    }
    Restart(s, w.anchor, WalkMeth.Next, t.key);
    var d2 := Descend(t.b, t.key, t.kt, restart.value, s, w.anchor.above, w.anchor.at, WalkMeth.Next, 0);
    r := d2.ret;
  }

  /** The stop of LookupCeil on a split node whose keys are all above k: the smallest of them answers. */
  method CeilBelow(t: Tree, m: WalkMeth, k: nat, p: NodeId, ghost w: Stop) returns (r: Option<NodeId>)
    requires t.Valid() && t.shape.Some? && (m == KeyGe || m == KeyGt)
    requires w == Walk([], t.shape.value, m, k, false, NoAnchor, t.key)
    requires w.at.Split? && p == w.at.id && Accepts(m, t.key(p), k)
    ensures r.Some? && r.value in t.Records() && Least(Candidates(t.Contents(), m, k), t.key(r.value))
  {
    ghost var s := t.shape.value;
    StopInside(s, m, k, false, t.key);
    WalkCeil([], s, m, k, false, NoAnchor, t.key);
    WalkShape([], s, m, k, false, NoAnchor, t.key);
    TopKey(w.at, t.key);
    Outside(w.at, k, t.key, t.key(w.at.id));
    WalkExtreme(w.path, w.at, WalkMeth.First, false, NoAnchor, t.key);
    LeftmostLeaf(w.at);
    var d1 := Descend(t.b, t.key, t.kt, p, s, w.path, w.at, WalkMeth.First, 0);
    r := d1.ret;
  }

  /**
   * `_cebu_lookup_le` (m = KeyLe) and `_cebu_lookup_lt` (m = KeyLt),
   * corrected: a stop on a split node whose keys are all below k answers
   * with the rightmost leaf below that node.
   */
  method LookupFloor(t: Tree, m: WalkMeth, k: nat) returns (r: Option<NodeId>)
    requires t.Valid() && (m == KeyLe || m == KeyLt)
    ensures r.Some? <==> Candidates(t.Contents(), m, k) != {}
    ensures r.Some? ==> r.value in t.Records() && Greatest(Candidates(t.Contents(), m, k), t.key(r.value))
  {
    if t.root.None? {
      return None;
    }
    ghost var s := t.shape.value;
    var d := Descend(t.b, t.key, t.kt, t.root.value, s, [], s, m, k);
    ghost var w := Walk([], s, m, k, false, NoAnchor, t.key);
    StopInside(s, m, k, false, t.key);
    WalkFloor([], s, m, k, false, NoAnchor, t.key);
    WalkShape([], s, m, k, false, NoAnchor, t.key);
    if d.ret.Some? {
      if !d.mismatch {
        return d.ret;
      }
      r := FloorBelow(t, m, k, d.p, w);
      return;
    }
    var restart := d.back;
    if restart.None? {
      return None;
    }
    Restart(s, w.anchor, WalkMeth.Prev, t.key);
    var d2 := Descend(t.b, t.key, t.kt, restart.value, s, w.anchor.above, w.anchor.at, WalkMeth.Prev, 0);
    r := d2.ret;
  }

  /** The stop of LookupFloor on a split node whose keys are all below k: the largest of them answers. */
  method FloorBelow(t: Tree, m: WalkMeth, k: nat, p: NodeId, ghost w: Stop) returns (r: Option<NodeId>)
    requires t.Valid() && t.shape.Some? && (m == KeyLe || m == KeyLt)
    requires w == Walk([], t.shape.value, m, k, false, NoAnchor, t.key)
    requires w.at.Split? && p == w.at.id && Accepts(m, t.key(p), k)
    ensures r.Some? && r.value in t.Records() && Greatest(Candidates(t.Contents(), m, k), t.key(r.value))
  {
    ghost var s := t.shape.value;
    StopInside(s, m, k, false, t.key);
    WalkFloor([], s, m, k, false, NoAnchor, t.key);
    WalkShape([], s, m, k, false, NoAnchor, t.key);
    TopKey(w.at, t.key);
    Outside(w.at, k, t.key, t.key(w.at.id));
    WalkExtreme(w.path, w.at, WalkMeth.Last, true, NoAnchor, t.key);
    LeftmostLeaf(w.at);
    var d1 := Descend(t.b, t.key, t.kt, p, s, w.path, w.at, WalkMeth.Last, 0);
    r := d1.ret;
  }
}
