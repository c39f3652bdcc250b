/**
 * The descents of the scalar trees, stated over the explicit role structure.
 * `Walk` is the path a descent takes through a `Shape`, where split nodes and
 * leaves are told apart by the structure itself.  The imperative descents
 * work on records whose roles they must infer; they are proved to stop where
 * `Walk` stops.  The lemmas here say what those stops mean for the set of keys.
 */
module Walks {
  import opened Bits
  import opened Shapes

  /** The walk methods of a descent, in the order of `enum ceb_walk_meth`. */
  datatype WalkMeth =
    | First      // CEB_WM_FST: walk left only
    | Next       // CEB_WM_NXT: walk right once then left
    | Prev       // CEB_WM_PRV: walk left once then right
    | Last       // CEB_WM_LST: walk right only
    | KeyEq      // CEB_WM_KEQ: the node holding the key
    | KeyGe      // CEB_WM_KGE: the key or the next greater one
    | KeyGt      // CEB_WM_KGT: the next greater key
    | KeyLe      // CEB_WM_KLE: the key or the next lower one
    | KeyLt      // CEB_WM_KLT: the next lower key
    | KeyNext    // CEB_WM_KNX: the key, remembering where to find the next one
    | KeyPrev    // CEB_WM_KPR: the key, remembering where to find the previous one
  {
    /** Methods from CEB_WM_KEQ on carry a key. */
    predicate Keyed()
    {
      !(this == First || this == Next || this == Prev || this == Last)
    }

    /** Methods that remember the last left turn (the next greater keys hang to its right). */
    predicate Up()
    {
      this == KeyNext || this == KeyGe || this == KeyGt
    }

    /** Methods that remember the last right turn (the next lower keys hang to its left). */
    predicate Down()
    {
      this == KeyPrev || this == KeyLe || this == KeyLt
    }

    /** The initial branch of a keyless descent: right for next and last. */
    function InitialSide(): bool
    {
      this == Next || this == Last
    }
  }

  /** Whether a record found with key a answers a keyed descent for k. */
  predicate Accepts(m: WalkMeth, a: nat, k: nat)
  {
    match m
    case KeyGe => a >= k
    case KeyGt => a > k
    case KeyLe => a <= k
    case KeyLt => a < k
    case _ => a == k
  }

  /** Whether key a lies on the searched side of k: beyond it for the up methods, below it for the down ones. */
  predicate Beyond(m: WalkMeth, a: nat, k: nat)
  {
    match m
    case KeyGe => a >= k
    case KeyLe => a <= k
    case KeyGt => a > k
    case KeyNext => a > k
    case KeyLt => a < k
    case KeyPrev => a < k
    case _ => false
  }

  ghost function Candidates(S: set<nat>, m: WalkMeth, k: nat): set<nat>
  {
    set a | a in S && Beyond(m, a, k)
  }

  ghost predicate Least(S: set<nat>, v: nat)
  {
    v in S && forall a :: a in S ==> v <= a
  }

  ghost predicate Greatest(S: set<nat>, v: nat)
  {
    v in S && forall a :: a in S ==> a <= v
  }

  /** The key test at a split node: k differs from both branches before their split bit. */
  predicate Mismatch(k: nat, kl: nat, kr: nat)
  {
    Xor(k, kl) > Xor(kl, kr) && Xor(k, kr) > Xor(kl, kr)
  }

  /** The branch a keyed descent takes: right unless k is strictly closer to the left key. */
  predicate KeySide(k: nat, kl: nat, kr: nat)
  {
    Xor(k, kl) >= Xor(k, kr)
  }

  /** The split node where a descent turned the way its method remembers. */
  datatype Anchor = NoAnchor | Anchor(above: seq<Frame>, at: Shape)

  /** Where a walk stopped: the path taken, the subtree reached and the anchor. */
  datatype Stop = Stop(path: seq<Frame>, at: Shape, anchor: Anchor)

  /**
   * The walk of method m for key k from subtree cur, reached through path ctx,
   * with the current keyless branch `side` and the anchor recorded so far.
   */
  ghost function Walk(ctx: seq<Frame>, cur: Shape, m: WalkMeth, k: nat, side: bool, anchor: Anchor,
                      key: NodeId -> nat): Stop
    decreases cur
  {
    match cur
    case Leaf(_) => Stop(ctx, cur, anchor)
    case Split(p, l, r) =>
      var kl := key(l.id);
      var kr := key(r.id);
      if m.Keyed() && Mismatch(k, kl, kr) then Stop(ctx, cur, anchor)
      else
        var sd := if m.Keyed() then KeySide(k, kl, kr) else side;
        var anchor' := if (sd && m.Down()) || (!sd && m.Up()) then Anchor(ctx, cur) else anchor;
        var side' := if sd && m == Next then false else if !sd && m == Prev then true else sd;
        if sd then Walk(ctx + [Frame(p, true, l)], r, m, k, side', anchor', key)
        else Walk(ctx + [Frame(p, false, r)], l, m, k, side', anchor', key)
  }

  // ------------------------------------------------------------ structure

  /** A walk extends its path and ends on a leaf or a key mismatch, inside the tree it started in. */
  lemma {:induction false} WalkPath(ctx: seq<Frame>, cur: Shape, m: WalkMeth, k: nat, side: bool,
                                    anchor: Anchor, key: NodeId -> nat)
    ensures var w := Walk(ctx, cur, m, k, side, anchor, key);
      |ctx| <= |w.path| && w.path[..|ctx|] == ctx && Plug(w.path, w.at) == Plug(ctx, cur) &&
      (w.at.Leaf? || (m.Keyed() && Mismatch(k, key(w.at.left.id), key(w.at.right.id))))
    decreases cur
  {
    match cur
    case Leaf(_) =>
    case Split(p, l, r) =>
      var kl := key(l.id);
      var kr := key(r.id);
      if !(m.Keyed() && Mismatch(k, kl, kr)) {
        var sd := if m.Keyed() then KeySide(k, kl, kr) else side;
        var anchor' := if (sd && m.Down()) || (!sd && m.Up()) then Anchor(ctx, cur) else anchor;
        var side' := if sd && m == Next then false else if !sd && m == Prev then true else sd;
        var f := if sd then Frame(p, true, l) else Frame(p, false, r);
        var c := if sd then r else l;
        assert Fill(f, c) == cur;
        WalkPath(ctx + [f], c, m, k, side', anchor', key);
        PlugPush(ctx, f, c);
        var w := Walk(ctx + [f], c, m, k, side', anchor', key);
        assert w.path[..|ctx|] == ctx by {
          assert w.path[..|ctx|] == w.path[..|ctx + [f]|][..|ctx|];
        }
      }
  }

  /** A walk keeps the anchor it was given or anchors on a split node of its own path. */
  lemma {:induction false} WalkAnchored(ctx: seq<Frame>, cur: Shape, m: WalkMeth, k: nat, side: bool,
                                        anchor: Anchor, key: NodeId -> nat)
    ensures var w := Walk(ctx, cur, m, k, side, anchor, key);
      w.anchor == anchor ||
      (w.anchor.Anchor? && w.anchor.at.Split? && |ctx| <= |w.anchor.above| < |w.path| &&
       w.anchor.above == w.path[..|w.anchor.above|] &&
       Plug(w.anchor.above, w.anchor.at) == Plug(ctx, cur))
    decreases cur
  {
    match cur
    case Leaf(_) =>
    case Split(p, l, r) =>
      var kl := key(l.id);
      var kr := key(r.id);
      if !(m.Keyed() && Mismatch(k, kl, kr)) {
        var sd := if m.Keyed() then KeySide(k, kl, kr) else side;
        var anchor' := if (sd && m.Down()) || (!sd && m.Up()) then Anchor(ctx, cur) else anchor;
        var side' := if sd && m == Next then false else if !sd && m == Prev then true else sd;
        var f := if sd then Frame(p, true, l) else Frame(p, false, r);
        var c := if sd then r else l;
        assert Fill(f, c) == cur;
        WalkAnchored(ctx + [f], c, m, k, side', anchor', key);
        WalkPath(ctx + [f], c, m, k, side', anchor', key);
        AnchoredStep(ctx, f, c, anchor, anchor', Walk(ctx + [f], c, m, k, side', anchor', key));
      }
  }

  /** The anchor facts of a walk one frame down carry over to the walk from the frame's node. */
  lemma AnchoredStep(ctx: seq<Frame>, f: Frame, c: Shape, anchor: Anchor, anchor': Anchor, w: Stop)
    requires anchor' == anchor || anchor' == Anchor(ctx, Fill(f, c))
    requires |ctx| < |w.path| && w.path[..|ctx| + 1] == ctx + [f]
    requires w.anchor == anchor' ||
             (w.anchor.Anchor? && w.anchor.at.Split? && |ctx| + 1 <= |w.anchor.above| < |w.path| &&
              w.anchor.above == w.path[..|w.anchor.above|] &&
              Plug(w.anchor.above, w.anchor.at) == Plug(ctx + [f], c))
    ensures w.anchor == anchor ||
            (w.anchor.Anchor? && w.anchor.at.Split? && |ctx| <= |w.anchor.above| < |w.path| &&
             w.anchor.above == w.path[..|w.anchor.above|] &&
             Plug(w.anchor.above, w.anchor.at) == Plug(ctx, Fill(f, c)))
  {
    PlugPush(ctx, f, c);
    if w.anchor != anchor' {
    } else if anchor' != anchor {
      assert w.path[..|ctx|] == w.path[..|ctx| + 1][..|ctx|];
    }
  }

  /** A walk extends its path, ends on a leaf or a key mismatch, and anchors on its path. */
  lemma WalkShape(ctx: seq<Frame>, cur: Shape, m: WalkMeth, k: nat, side: bool, anchor: Anchor, key: NodeId -> nat)
    ensures var w := Walk(ctx, cur, m, k, side, anchor, key);
      |ctx| <= |w.path| && w.path[..|ctx|] == ctx && Plug(w.path, w.at) == Plug(ctx, cur) &&
      (w.at.Leaf? || (m.Keyed() && Mismatch(k, key(w.at.left.id), key(w.at.right.id)))) &&
      (w.anchor == anchor ||
       (w.anchor.Anchor? && w.anchor.at.Split? && |ctx| <= |w.anchor.above| < |w.path| &&
        w.anchor.above == w.path[..|w.anchor.above|] &&
        Plug(w.anchor.above, w.anchor.at) == Plug(ctx, cur)))
  {
    WalkPath(ctx, cur, m, k, side, anchor, key);
    WalkAnchored(ctx, cur, m, k, side, anchor, key);
  }

  /** A keyed walk that only ever takes branches its key fits keeps fitting them. */
  lemma {:induction false} WalkFits(ctx: seq<Frame>, cur: Shape, m: WalkMeth, k: nat, side: bool,
                                    anchor: Anchor, key: NodeId -> nat)
    requires m.Keyed() && Wf(cur, key) && Fits(ctx, cur, k, key)
    ensures var w := Walk(ctx, cur, m, k, side, anchor, key); Fits(w.path, w.at, k, key)
    decreases cur
  {
    match cur
    case Leaf(_) =>
    case Split(p, l, r) =>
      var kl := key(l.id);
      var kr := key(r.id);
      if !Mismatch(k, kl, kr) {
        Steer(k, kl, kr);
        var sd := KeySide(k, kl, kr);
        var anchor' := if (sd && m.Down()) || (!sd && m.Up()) then Anchor(ctx, cur) else anchor;
        var side' := if sd && m == Next then false else if !sd && m == Prev then true else sd;
        var f := if sd then Frame(p, true, l) else Frame(p, false, r);
        var c := if sd then r else l;
        assert Fill(f, c) == cur;
        FitsPush(ctx, f, c, k, key);
        WalkFits(ctx + [f], c, m, k, side', anchor', key);
      }
  }

  /** A keyed walk for a key of the subtree ends on that key's leaf. */
  lemma {:induction false} WalkFinds(ctx: seq<Frame>, cur: Shape, m: WalkMeth, k: nat, side: bool,
                                     anchor: Anchor, key: NodeId -> nat)
    requires m.Keyed() && Wf(cur, key) && k in Keys(cur, key)
    ensures var w := Walk(ctx, cur, m, k, side, anchor, key); w.at.Leaf? && key(w.at.id) == k
    decreases cur
  {
    match cur
    case Leaf(_) =>
    case Split(p, l, r) =>
      var kl := key(l.id);
      var kr := key(r.id);
      Steer(k, kl, kr);
      if k in Keys(l, key) {
        DistSym(kl, kr);
        assert !Mismatch(k, kl, kr) && !KeySide(k, kl, kr);
        var anchor' := if m.Up() then Anchor(ctx, cur) else anchor;
        var side' := if m == Prev then true else false;
        WalkFinds(ctx + [Frame(p, false, r)], l, m, k, side', anchor', key);
      } else {
        DistSym(kl, kr);
        UltraEq(k, kr, kl);
        DistSym(k, kl);
        assert !Mismatch(k, kl, kr) && KeySide(k, kl, kr);
        var anchor' := if m.Down() then Anchor(ctx, cur) else anchor;
        var side' := if m == Next then false else true;
        WalkFinds(ctx + [Frame(p, true, l)], r, m, k, side', anchor', key);
      }
  }

  /** Walking always left reaches the leftmost leaf; always right, the rightmost. */
  lemma {:induction false} WalkExtreme(ctx: seq<Frame>, cur: Shape, m: WalkMeth, side: bool, anchor: Anchor,
                                       key: NodeId -> nat)
    requires (m == First && !side) || (m == Next && !side) || (m == Last && side) || (m == Prev && side)
    ensures var w := Walk(ctx, cur, m, 0, side, anchor, key);
      w.at == Leaf(if side then Rightmost(cur) else Leftmost(cur))
    decreases cur
  {
    match cur
    case Leaf(_) =>
    case Split(p, l, r) =>
      if side {
        WalkExtreme(ctx + [Frame(p, true, l)], r, m, side, anchor, key);
      } else {
        WalkExtreme(ctx + [Frame(p, false, r)], l, m, side, anchor, key);
      }
  }

  /** The restart of next (prev) from a split node: right once then left (left once then right). */
  lemma WalkStep(ctx: seq<Frame>, cur: Shape, m: WalkMeth, key: NodeId -> nat)
    requires cur.Split? && (m == Next || m == Prev)
    ensures var w := Walk(ctx, cur, m, 0, m.InitialSide(), NoAnchor, key);
      w.at == Leaf(if m == Next then Leftmost(cur.right) else Rightmost(cur.left))
  {
    if m == Next {
      WalkExtreme(ctx + [Frame(cur.id, true, cur.left)], cur.right, m, false, NoAnchor, key);
    } else {
      WalkExtreme(ctx + [Frame(cur.id, false, cur.right)], cur.left, m, true, NoAnchor, key);
    }
  }

  // --------------------------------------------------- ordered neighbours

  /** Outside a split node's prefix, k compares alike with every key below it. */
  lemma Outside(s: Shape, k: nat, key: NodeId -> nat, a: nat)
    requires s.Split? && Wf(s, key) && Mismatch(k, key(s.left.id), key(s.right.id))
    requires a in Keys(s, key)
    ensures a != k && (k < a <==> k < key(s.id))
  {
    var kl := key(s.left.id);
    var kr := key(s.right.id);
    Steer(k, kl, kr);
    TopKey(s, key);
    DistSym(kl, kr);
    forall c | c in Keys(s, key)
      ensures Dist(c, kl) < Dist(k, kl)
    {
      if c in Keys(s.right, key) {
        Ultra(c, kr, kl);
      }
    }
    CmpFar(k, a, kl);
    CmpFar(k, key(s.id), kl);
  }

  /** One step of a keyed walk past a split node whose prefix k matches. */
  lemma KeyedStep(ctx: seq<Frame>, cur: Shape, m: WalkMeth, k: nat, side: bool, anchor: Anchor, key: NodeId -> nat)
    requires m.Keyed() && cur.Split? && !Mismatch(k, key(cur.left.id), key(cur.right.id))
    ensures KeySide(k, key(cur.left.id), key(cur.right.id)) ==>
              Walk(ctx, cur, m, k, side, anchor, key) ==
              Walk(ctx + [Frame(cur.id, true, cur.left)], cur.right, m, k, true,
                   if m.Down() then Anchor(ctx, cur) else anchor, key)
    ensures !KeySide(k, key(cur.left.id), key(cur.right.id)) ==>
              Walk(ctx, cur, m, k, side, anchor, key) ==
              Walk(ctx + [Frame(cur.id, false, cur.right)], cur.left, m, k, false,
                   if m.Up() then Anchor(ctx, cur) else anchor, key)
  {
  }

  /** What an up walk's stop says about the candidates G of the subtree it walked. */
  ghost predicate CeilOk(w: Stop, G: set<nat>, anchor: Anchor, m: WalkMeth, k: nat, key: NodeId -> nat)
  {
    (w.at.Leaf? && Beyond(m, key(w.at.id), k) ==> Least(G, key(w.at.id))) &&
    (w.at.Split? && k < key(w.at.id) ==> Least(G, key(Leftmost(w.at)))) &&
    (!(w.at.Leaf? && Beyond(m, key(w.at.id), k)) && !(w.at.Split? && k < key(w.at.id)) ==>
       (G == {} ==> w.anchor == anchor) &&
       (G != {} ==> w.anchor.Anchor? && w.anchor.at.Split? && Least(G, key(Leftmost(w.anchor.at.right)))))
  }

  /** What a down walk's stop says about the candidates G of the subtree it walked. */
  ghost predicate FloorOk(w: Stop, G: set<nat>, anchor: Anchor, m: WalkMeth, k: nat, key: NodeId -> nat)
  {
    (w.at.Leaf? && Beyond(m, key(w.at.id), k) ==> Greatest(G, key(w.at.id))) &&
    (w.at.Split? && key(w.at.id) < k ==> Greatest(G, key(Rightmost(w.at)))) &&
    (!(w.at.Leaf? && Beyond(m, key(w.at.id), k)) && !(w.at.Split? && key(w.at.id) < k) ==>
       (G == {} ==> w.anchor == anchor) &&
       (G != {} ==> w.anchor.Anchor? && w.anchor.at.Split? && Greatest(G, key(Rightmost(w.anchor.at.left)))))
  }

  /** Turning left at a split adds the whole right subtree R above the left candidates Gl. */
  lemma CeilLeft(w: Stop, Gl: set<nat>, R: set<nat>, anchor: Anchor, here: Anchor, m: WalkMeth, k: nat,
                 key: NodeId -> nat)
    requires CeilOk(w, Gl, here, m, k, key)
    requires here.Anchor? && here.at.Split? && Least(R, key(Leftmost(here.at.right)))
    requires forall a, c :: a in Gl && c in R ==> a < c
    ensures CeilOk(w, Gl + R, anchor, m, k, key)
  {
  }

  lemma FloorRight(w: Stop, Gr: set<nat>, L: set<nat>, anchor: Anchor, here: Anchor, m: WalkMeth, k: nat,
                   key: NodeId -> nat)
    requires FloorOk(w, Gr, here, m, k, key)
    requires here.Anchor? && here.at.Split? && Greatest(L, key(Rightmost(here.at.left)))
    requires forall a, c :: a in Gr && c in L ==> c < a
    ensures FloorOk(w, Gr + L, anchor, m, k, key)
  {
  }

  /**
   * An up walk (next, ge, gt) over cur: what it accepts on a leaf is the
   * least candidate of cur; when it stops on a mismatch below all of cur the
   * least candidate is cur's leftmost key; otherwise the least candidate, if
   * any, is the leftmost key right of the anchor the walk recorded inside cur.
   */
  lemma {:induction false} WalkCeil(ctx: seq<Frame>, cur: Shape, m: WalkMeth, k: nat, side: bool,
                                    anchor: Anchor, key: NodeId -> nat)
    requires m.Up() && Wf(cur, key)
    ensures CeilOk(Walk(ctx, cur, m, k, side, anchor, key), Candidates(Keys(cur, key), m, k), anchor, m, k, key)
    decreases cur, 1
  {
    match cur
    case Leaf(x) =>
      assert Keys(cur, key) == {key(x)};
    case Split(p, l, r) =>
      var kl := key(l.id);
      var kr := key(r.id);
      if Mismatch(k, kl, kr) {
        CeilMismatch(cur, m, k, key);
      } else if !KeySide(k, kl, kr) {
        KeyedStep(ctx, cur, m, k, side, anchor, key);
        CeilTurnLeft(ctx, cur, m, k, anchor, key);
      } else {
        KeyedStep(ctx, cur, m, k, side, anchor, key);
        CeilTurnRight(ctx, cur, m, k, anchor, key);
      }
  }

  lemma {:induction false} CeilTurnLeft(ctx: seq<Frame>, cur: Shape, m: WalkMeth, k: nat, anchor: Anchor,
                                        key: NodeId -> nat)
    requires m.Up() && Wf(cur, key) && cur.Split?
    requires !Mismatch(k, key(cur.left.id), key(cur.right.id)) && !KeySide(k, key(cur.left.id), key(cur.right.id))
    ensures CeilOk(Walk(ctx + [Frame(cur.id, false, cur.right)], cur.left, m, k, false, Anchor(ctx, cur), key),
                   Candidates(Keys(cur, key), m, k), anchor, m, k, key)
    decreases cur, 0
  {
    var l, r := cur.left, cur.right;
    var kl, kr := key(l.id), key(r.id);
    var G := Candidates(Keys(cur, key), m, k);
    var here := Anchor(ctx, cur);
    Steer(k, kl, kr);
    DistSym(kl, kr);
    WalkCeil(ctx + [Frame(cur.id, false, r)], l, m, k, false, here, key);
    var Gl := Candidates(Keys(l, key), m, k);
    forall c | c in Keys(r, key)
      ensures c in G && forall a :: a in Keys(l, key) ==> a < c
    {
      Across(kl, kr, k, c);
      forall a | a in Keys(l, key) ensures a < c {
        KeysApart(l, r, key, a, c);
      }
    }
    assert G == Gl + Keys(r, key);
    LeftmostMin(r, key);
    CeilLeft(Walk(ctx + [Frame(cur.id, false, r)], l, m, k, false, here, key), Gl, Keys(r, key), anchor, here, m, k, key);
  }

  lemma {:induction false} CeilTurnRight(ctx: seq<Frame>, cur: Shape, m: WalkMeth, k: nat, anchor: Anchor,
                                         key: NodeId -> nat)
    requires m.Up() && Wf(cur, key) && cur.Split?
    requires !Mismatch(k, key(cur.left.id), key(cur.right.id)) && KeySide(k, key(cur.left.id), key(cur.right.id))
    ensures CeilOk(Walk(ctx + [Frame(cur.id, true, cur.left)], cur.right, m, k, true, anchor, key),
                   Candidates(Keys(cur, key), m, k), anchor, m, k, key)
    decreases cur, 0
  {
    var l, r := cur.left, cur.right;
    var kl, kr := key(l.id), key(r.id);
    var G := Candidates(Keys(cur, key), m, k);
    Steer(k, kl, kr);
    DistSym(kl, kr);
    WalkCeil(ctx + [Frame(cur.id, true, l)], r, m, k, true, anchor, key);
    var Gr := Candidates(Keys(r, key), m, k);
    forall a | a in Keys(l, key)
      ensures a !in G
    {
      Across(kl, kr, a, k);
    }
    assert G == Gr;
  }

  lemma CeilMismatch(cur: Shape, m: WalkMeth, k: nat, key: NodeId -> nat)
    requires m.Up() && cur.Split? && Wf(cur, key) && Mismatch(k, key(cur.left.id), key(cur.right.id))
    ensures var G := Candidates(Keys(cur, key), m, k);
      (k < key(cur.id) ==> Least(G, key(Leftmost(cur)))) && (!(k < key(cur.id)) ==> G == {})
  {
    var G := Candidates(Keys(cur, key), m, k);
    if k < key(cur.id) {
      forall a | a in Keys(cur, key)
        ensures a in G
      {
        Outside(cur, k, key, a);
      }
      LeftmostMin(cur, key);
    } else {
      forall a | a in Keys(cur, key)
        ensures a !in G
      {
        Outside(cur, k, key, a);
      }
    }
  }

  lemma FloorMismatch(cur: Shape, m: WalkMeth, k: nat, key: NodeId -> nat)
    requires m.Down() && cur.Split? && Wf(cur, key) && Mismatch(k, key(cur.left.id), key(cur.right.id))
    ensures var G := Candidates(Keys(cur, key), m, k);
      (key(cur.id) < k ==> Greatest(G, key(Rightmost(cur)))) && (!(key(cur.id) < k) ==> G == {})
  {
    var G := Candidates(Keys(cur, key), m, k);
    TopKey(cur, key);
    Outside(cur, k, key, key(cur.id));
    if key(cur.id) < k {
      forall a | a in Keys(cur, key)
        ensures a in G
      {
        Outside(cur, k, key, a);
      }
      RightmostMax(cur, key);
    } else {
      forall a | a in Keys(cur, key)
        ensures a !in G
      {
        Outside(cur, k, key, a);
      }
    }
  }

  /** The mirror of `WalkCeil` for down walks (prev, le, lt). */
  lemma {:induction false} WalkFloor(ctx: seq<Frame>, cur: Shape, m: WalkMeth, k: nat, side: bool,
                                     anchor: Anchor, key: NodeId -> nat)
    requires m.Down() && Wf(cur, key)
    ensures FloorOk(Walk(ctx, cur, m, k, side, anchor, key), Candidates(Keys(cur, key), m, k), anchor, m, k, key)
    decreases cur, 1
  {
    match cur
    case Leaf(x) =>
      assert Keys(cur, key) == {key(x)};
    case Split(p, l, r) =>
      var kl := key(l.id);
      var kr := key(r.id);
      if Mismatch(k, kl, kr) {
        FloorMismatch(cur, m, k, key);
      } else if KeySide(k, kl, kr) {
        KeyedStep(ctx, cur, m, k, side, anchor, key);
        FloorTurnRight(ctx, cur, m, k, anchor, key);
      } else {
        KeyedStep(ctx, cur, m, k, side, anchor, key);
        FloorTurnLeft(ctx, cur, m, k, anchor, key);
      }
  }

  lemma {:induction false} FloorTurnRight(ctx: seq<Frame>, cur: Shape, m: WalkMeth, k: nat, anchor: Anchor,
                                          key: NodeId -> nat)
    requires m.Down() && Wf(cur, key) && cur.Split?
    requires !Mismatch(k, key(cur.left.id), key(cur.right.id)) && KeySide(k, key(cur.left.id), key(cur.right.id))
    ensures FloorOk(Walk(ctx + [Frame(cur.id, true, cur.left)], cur.right, m, k, true, Anchor(ctx, cur), key),
                    Candidates(Keys(cur, key), m, k), anchor, m, k, key)
    decreases cur, 0
  {
    var l, r := cur.left, cur.right;
    var kl, kr := key(l.id), key(r.id);
    var G := Candidates(Keys(cur, key), m, k);
    var here := Anchor(ctx, cur);
    Steer(k, kl, kr);
    DistSym(kl, kr);
    WalkFloor(ctx + [Frame(cur.id, true, l)], r, m, k, true, here, key);
    var Gr := Candidates(Keys(r, key), m, k);
    forall c | c in Keys(l, key)
      ensures c in G && forall a :: a in Keys(r, key) ==> c < a
    {
      Across(kl, kr, c, k);
      forall a | a in Keys(r, key) ensures c < a {
        KeysApart(l, r, key, c, a);
      }
    }
    assert G == Gr + Keys(l, key);
    RightmostMax(l, key);
    FloorRight(Walk(ctx + [Frame(cur.id, true, l)], r, m, k, true, here, key), Gr, Keys(l, key), anchor, here, m, k, key);
  }

  lemma {:induction false} FloorTurnLeft(ctx: seq<Frame>, cur: Shape, m: WalkMeth, k: nat, anchor: Anchor,
                                         key: NodeId -> nat)
    requires m.Down() && Wf(cur, key) && cur.Split?
    requires !Mismatch(k, key(cur.left.id), key(cur.right.id)) && !KeySide(k, key(cur.left.id), key(cur.right.id))
    ensures FloorOk(Walk(ctx + [Frame(cur.id, false, cur.right)], cur.left, m, k, false, anchor, key),
                    Candidates(Keys(cur, key), m, k), anchor, m, k, key)
    decreases cur, 0
  {
    var l, r := cur.left, cur.right;
    var kl, kr := key(l.id), key(r.id);
    var G := Candidates(Keys(cur, key), m, k);
    Steer(k, kl, kr);
    DistSym(kl, kr);
    WalkFloor(ctx + [Frame(cur.id, false, r)], l, m, k, false, anchor, key);
    var Gl := Candidates(Keys(l, key), m, k);
    forall a | a in Keys(r, key)
      ensures a !in G
    {
      Across(kl, kr, k, a);
    }
    assert G == Gl;
  }

  // ------------------------------------------------------- nearest keys

  /**
   * A keyed walk stops on a record of the subtree whose key splits from k
   * no earlier than any other key of the subtree does: the longest shared
   * prefix.
   */
  lemma {:induction false} WalkNearest(ctx: seq<Frame>, cur: Shape, m: WalkMeth, k: nat, side: bool,
                                       anchor: Anchor, key: NodeId -> nat)
    requires m.Keyed() && Wf(cur, key)
    ensures var w := Walk(ctx, cur, m, k, side, anchor, key);
      key(w.at.id) in Keys(cur, key) && forall a :: a in Keys(cur, key) ==> Dist(k, key(w.at.id)) <= Dist(k, a)
    decreases cur
  {
    match cur
    case Leaf(_) =>
    case Split(p, l, r) =>
      var kl := key(l.id);
      var kr := key(r.id);
      var d := Dist(kl, kr);
      Steer(k, kl, kr);
      DistSym(kl, kr);
      TopKey(cur, key);
      if Mismatch(k, kl, kr) {
        // every key below is as far from k as kl is
        forall a | a in Keys(cur, key)
          ensures Dist(k, a) == Dist(k, kl)
        {
          if a in Keys(r, key) {
            Ultra(a, kr, kl);
          }
          DistSym(k, kl);
          UltraEq(a, kl, k);
          DistSym(a, k);
        }
      } else {
        var sd := KeySide(k, kl, kr);
        var anchor' := if (sd && m.Down()) || (!sd && m.Up()) then Anchor(ctx, cur) else anchor;
        var side' := if sd && m == Next then false else if !sd && m == Prev then true else sd;
        var f := if sd then Frame(p, true, l) else Frame(p, false, r);
        var c, o := if sd then r else l, if sd then l else r;
        KeyedStep(ctx, cur, m, k, side, anchor, key);
        WalkNearest(ctx + [f], c, m, k, side', anchor', key);
        TopKey(c, key);
        // the keys on the other side split from k at the split position
        assert Dist(k, key(o.id)) == d by {
          if !sd {
            UltraEq(k, kl, kr);
          } else {
            DistSym(k, kl);
          }
        }
        forall a | a in Keys(o, key)
          ensures Dist(k, a) == d
        {
          DistSym(k, key(o.id));
          UltraEq(a, key(o.id), k);
          DistSym(a, k);
        }
      }
  }

  /** The anchor of an up (down) walk has only keys above (below) k on the side the walk did not take. */
  ghost predicate AnchorBeyond(a: Anchor, m: WalkMeth, k: nat, key: NodeId -> nat)
  {
    a.Anchor? ==>
      a.at.Split? &&
      (m.Up() ==> forall c :: c in Keys(a.at.right, key) ==> k < c) &&
      (m.Down() ==> forall c :: c in Keys(a.at.left, key) ==> c < k)
  }

  /** Whatever key the walk was given, the split node it anchored on hangs keys beyond it on the other side. */
  lemma {:induction false} WalkAnchorBeyond(ctx: seq<Frame>, cur: Shape, m: WalkMeth, k: nat, side: bool,
                                            anchor: Anchor, key: NodeId -> nat)
    requires m.Keyed() && Wf(cur, key) && AnchorBeyond(anchor, m, k, key)
    ensures AnchorBeyond(Walk(ctx, cur, m, k, side, anchor, key).anchor, m, k, key)
    decreases cur
  {
    match cur
    case Leaf(_) =>
    case Split(p, l, r) =>
      var kl := key(l.id);
      var kr := key(r.id);
      if !Mismatch(k, kl, kr) {
        Steer(k, kl, kr);
        DistSym(kl, kr);
        KeyedStep(ctx, cur, m, k, side, anchor, key);
        if KeySide(k, kl, kr) {
          if m.Down() {
            forall c | c in Keys(l, key)
              ensures c < k
            {
              Across(kl, kr, c, k);
            }
          }
          WalkAnchorBeyond(ctx + [Frame(p, true, l)], r, m, k, true, if m.Down() then Anchor(ctx, cur) else anchor, key);
        } else {
          if m.Up() {
            forall c | c in Keys(r, key)
              ensures k < c
            {
              Across(kl, kr, k, c);
            }
          }
          WalkAnchorBeyond(ctx + [Frame(p, false, r)], l, m, k, false, if m.Up() then Anchor(ctx, cur) else anchor, key);
        }
      }
  }
}
