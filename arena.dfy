/**
 * The records of a tree and the pointers between them.  Every record embeds
 * one node of two branches `b[0]` and `b[1]`; the tree itself is nothing but
 * a root pointer.  Records are named by `NodeId`s, and the branches of all
 * records form one map from (record, side) to record, where a missing entry
 * is a NULL branch.  The ghost `Shape` of a tree tells which record plays
 * which role; `Linked` and `Nodeless` say that the branches really encode it.
 */
module Arena {
  import opened Wrappers
  import opened Bits
  import opened Shapes

  /**
   * The key types: the scalar ones of the generic engine (CEB_KT_U32 and
   * CEB_KT_U64), and the NUL-terminated strings of the string engine, each
   * read as the number spelt by its first `width` bytes, NUL-padded.
   */
  datatype KeyType = U32 | U64 | Str(width: nat)

  function WordBits(kt: KeyType): nat
  {
    match kt
    case U32 => 32
    case U64 => 64
    case Str(width) => 8 * width
  }

  /** One more than the largest key of the type: 2^32, 2^64 or 2^(8 width). */
  function Limit(kt: KeyType): (n: nat)
    ensures n > 0
  {
    match kt
    case U32 => 0x1_0000_0000
    case U64 => 0x1_0000_0000_0000_0000
    case Str(width) => Pow2Positive(8 * width); Pow2(8 * width)
  }

  lemma LimitPow2(kt: KeyType)
    ensures Limit(kt) == Pow2(WordBits(kt))
  {
    WordLimits();
  }

  /**
   * A pointer location: the one a descent starts from (the tree's root for
   * every descent except the restarts of next and prev), or a branch of a record.
   */
  datatype Slot = Start | Branch(owner: NodeId, side: bool)

  /** The record owning a slot; the start slot is b[0] of a virtual parent. */
  datatype Parent = Virtual | Node(id: NodeId)

  type Branches = map<(NodeId, bool), NodeId>

  /**
   * The branches of every record outside R are the same in b and b': an
   * operation that only writes to records of R leaves all others as they were.
   */
  ghost predicate KeepsOthers(b: Branches, b': Branches, R: set<NodeId>)
  {
    forall e: (NodeId, bool) :: e.0 !in R ==> (e in b <==> e in b') && (e in b ==> b'[e] == b[e])
  }

  /** Every split node's branches point at its two subtrees. */
  ghost predicate Linked(s: Shape, b: Branches)
  {
    match s
    case Leaf(_) => true
    case Split(x, l, r) =>
      (x, false) in b && b[(x, false)] == l.id && (x, true) in b && b[(x, true)] == r.id &&
      Linked(l, b) && Linked(r, b)
  }

  /** A record that is only a leaf (the nodeless leaf) has both branches on itself. */
  ghost predicate Nodeless(s: Shape, b: Branches)
  {
    forall x :: x in Leaves(s) && x !in Splits(s) ==>
      (x, false) in b && b[(x, false)] == x && (x, true) in b && b[(x, true)] == x
  }

  /** The record at depth j of the path ctx ending in t. */
  function TopAt(ctx: seq<Frame>, j: nat, t: Shape): NodeId
    requires j <= |ctx|
  {
    if j < |ctx| then ctx[j].id else t.id
  }

  /** Frame j of the path is wired: its side branch leads down the path, the other to its sibling. */
  ghost predicate FrameLinked(ctx: seq<Frame>, j: nat, t: Shape, b: Branches)
    requires j < |ctx|
  {
    (ctx[j].id, ctx[j].side) in b && b[(ctx[j].id, ctx[j].side)] == TopAt(ctx, j + 1, t) &&
    (ctx[j].id, !ctx[j].side) in b && b[(ctx[j].id, !ctx[j].side)] == ctx[j].sib.id &&
    Linked(ctx[j].sib, b)
  }

  ghost predicate LinkedPath(ctx: seq<Frame>, t: Shape, b: Branches)
  {
    forall j :: 0 <= j < |ctx| ==> FrameLinked(ctx, j, t, b)
  }

  // ------------------------------------------------------------- lemmas

  /** Writing a branch of a record of R keeps the other records' branches. */
  lemma KeepsPut(b: Branches, x: NodeId, side: bool, v: NodeId, R: set<NodeId>)
    requires x in R
    ensures KeepsOthers(b, b[(x, side) := v], R) && KeepsOthers(b, b - {(x, side)}, R)
  {
  }

  lemma KeepsTrans(b0: Branches, b1: Branches, b2: Branches, R: set<NodeId>, R': set<NodeId>)
    requires KeepsOthers(b0, b1, R) && KeepsOthers(b1, b2, R') && R' <= R
    ensures KeepsOthers(b0, b2, R)
  {
  }

  lemma PlugTop(ctx: seq<Frame>, t: Shape)
    ensures Plug(ctx, t).id == TopAt(ctx, 0, t)
  {
  }

  /** A tree is wired exactly when the path to t and t itself are. */
  lemma {:induction false} LinkedPlug(ctx: seq<Frame>, t: Shape, b: Branches)
    ensures Linked(Plug(ctx, t), b) <==> LinkedPath(ctx, t, b) && Linked(t, b)
    decreases |ctx|
  {
    if |ctx| > 0 {
      var rest := ctx[1..];
      LinkedPlug(rest, t, b);
      PlugTop(rest, t);
      forall j | 0 <= j < |rest|
        ensures FrameLinked(rest, j, t, b) == FrameLinked(ctx, j + 1, t, b)
      {
        assert rest[j] == ctx[j + 1];
        assert TopAt(rest, j + 1, t) == TopAt(ctx, j + 2, t);
      }
      if LinkedPath(rest, t, b) && FrameLinked(ctx, 0, t, b) {
        forall j | 0 <= j < |ctx|
          ensures FrameLinked(ctx, j, t, b)
        {
          if j > 0 {
            assert FrameLinked(rest, j - 1, t, b);
          }
        }
      }
    }
  }

  /** Changing a branch of a record that is not a split node of s keeps s wired. */
  lemma {:induction false} LinkedKeep(s: Shape, b: Branches, c: (NodeId, bool), v: NodeId)
    requires Linked(s, b) && c.0 !in Splits(s)
    ensures Linked(s, b[c := v])
  {
    if s.Split? {
      LinkedKeep(s.left, b, c, v);
      LinkedKeep(s.right, b, c, v);
    }
  }

  /** Clearing a branch of a record that is not a split node of s keeps s wired. */
  lemma {:induction false} LinkedDrop(s: Shape, b: Branches, c: (NodeId, bool))
    requires Linked(s, b) && c.0 !in Splits(s)
    ensures Linked(s, b - {c})
  {
    if s.Split? {
      LinkedDrop(s.left, b, c);
      LinkedDrop(s.right, b, c);
    }
  }

  /** Both branches of every record of a wired tree are set. */
  lemma {:induction false} RecordLinked(s: Shape, b: Branches, x: NodeId)
    requires Linked(s, b) && Nodeless(s, b) && x in Leaves(s)
    ensures (x, false) in b && (x, true) in b
  {
    if x in Splits(s) {
      SplitLinked(s, x, b);
    }
  }

  lemma {:induction false} SplitLinked(s: Shape, x: NodeId, b: Branches)
    requires Linked(s, b) && x in Splits(s)
    ensures (x, false) in b && (x, true) in b
  {
    if s.Split? && s.id != x {
      if x in Splits(s.left) {
        SplitLinked(s.left, x, b);
      } else {
        SplitLinked(s.right, x, b);
      }
    }
  }

  /** Both branches of every record of a wired tree lead to records of the tree. */
  lemma {:induction false} BranchesInside(s: Shape, b: Branches, x: NodeId)
    requires Distinct(s) && Linked(s, b) && Nodeless(s, b) && x in Leaves(s)
    ensures (x, false) in b && b[(x, false)] in Leaves(s) && (x, true) in b && b[(x, true)] in Leaves(s)
  {
    if x in Splits(s) {
      SplitInside(s, x, b);
    }
  }

  lemma {:induction false} SplitInside(s: Shape, x: NodeId, b: Branches)
    requires Distinct(s) && Linked(s, b) && x in Splits(s)
    ensures (x, false) in b && b[(x, false)] in Leaves(s) && (x, true) in b && b[(x, true)] in Leaves(s)
  {
    if s.id == x {
      TopIsLeaf(s.left);
      TopIsLeaf(s.right);
    } else if x in Splits(s.left) {
      SplitInside(s.left, x, b);
    } else {
      SplitInside(s.right, x, b);
    }
  }

  /** The records of a valid tree: each key type bounds every key; the shape is wired and well formed. */
  class Tree {
    var root: Option<NodeId>
    var b: Branches
    const key: NodeId -> nat
    const kt: KeyType
    ghost var shape: Option<Shape>

    ghost predicate Valid()
      reads this
    {
      (forall x :: key(x) < Limit(kt)) &&
      (root.None? <==> shape.None?) &&
      (shape.Some? ==>
         root == Some(shape.value.id) && Wf(shape.value, key) &&
         Linked(shape.value, b) && Nodeless(shape.value, b))
    }

    /** The set of keys stored in the tree. */
    ghost function Contents(): set<nat>
      reads this
    {
      if shape.None? then {} else Keys(shape.value, key)
    }

    /** The records stored in the tree. */
    ghost function Records(): set<NodeId>
      reads this
    {
      if shape.None? then {} else Leaves(shape.value)
    }

    /** An empty tree (a NULL root) over records whose branches are b. */
    constructor (kt: KeyType, key: NodeId -> nat, b: Branches)
      requires forall x :: key(x) < Limit(kt)
      ensures Valid() && Contents() == {} && Records() == {}
      ensures this.kt == kt && this.key == key && this.b == b && root == None
    {
      this.kt := kt;
      this.key := key;
      this.b := b;
      root := None;
      shape := None;
    }
  }
}
