/**
 * The string engine of the earlier API (`cbatree-prv.h` with key type
 * `CB_KT_ST`): its own descent `_cbau_descend`, which measures strings by
 * the number of leading bits they share instead of xoring them, and insert,
 * first, last, next, prev and lookup built on it.  Every record holds a C
 * string shorter than w bytes; read as the number `Enc(s, w)` its bytes
 * spell, a tree of such strings is a tree of numbers, and the descent is
 * proved to stop where the role-aware `Walk` stops on those numbers.
 */
module CbaString {
  import opened Wrappers
  import opened Bits
  import opened Shapes
  import opened Walks
  import opened Arena
  import opened StrKeys
  import opened CebDescent
  import opened CebTree
  import opened CebUpdate
  import CbaU32

  /** Every record holds a C string shorter than w bytes. */
  ghost predicate Texts(str: NodeId -> Str, w: nat)
  {
    forall x :: CStr(str(x)) && |str(x)| < w
  }

  /** key reads each record's string as a number of w bytes (w small enough for bit lengths to fit an `int`). */
  ghost predicate Spells(key: NodeId -> nat, str: NodeId -> Str, w: nat)
  {
    Texts(str, w) && w < 0x1000_0000 && forall x :: key(x) == Enc(str(x), w)
  }

  /** A tree of strings str: its keys are the strings, read at the tree's width. */
  ghost predicate Spelt(t: Tree, str: NodeId -> Str)
  {
    t.kt.Str? && Spells(t.key, str, t.kt.width)
  }

  /** `strcmp(a, b) < 0`. */
  function Below(a: Str, b: Str): bool
  {
    CompareFrom(a, b, 0) < 0
  }

  /**
   * The walk methods `_cbau_descend` knows: First, Last, Next and Prev are
   * the key-less CB_WM_FST, CB_WM_LST, CB_WM_NXT and CB_WM_PRV; the keyed
   * CB_WM_KEY appears as KeyEq, or as KeyNext (KeyPrev) when the caller asks
   * for `ret_alt_r` (`ret_alt_l`).
   */
  predicate CbMeth(m: WalkMeth)
  {
    m == WalkMeth.First || m == WalkMeth.Last || m == WalkMeth.Next || m == WalkMeth.Prev ||
    m == KeyEq || m == KeyNext || m == KeyPrev
  }

  /**
   * What `_cbau_descend` reports: the record returned, the side a new record
   * takes (`ret_nside`), the slot leading to the record stopped on
   * (`ret_root`), and the slot leading to the split node of the last left
   * turn (`ret_alt_r`, for KeyNext) or right turn (`ret_alt_l`, for KeyPrev).
   */
  datatype Seen = Seen(ret: Option<NodeId>, nside: bool, slot: Slot, alt: Option<Slot>)

  function AltSlot(a: Anchor, base: nat): Option<Slot>
  {
    if a.Anchor? then Some(SlotAt(a.above, base)) else None
  }

  /**
   * What the descent reports once the walk from depth base has stopped at w:
   * the record stopped on when it holds k or the walk is key-less; otherwise
   * node when the caller asked for the slot to insert at, and nothing for
   * lookups.
   */
  ghost function Sees(w: Stop, base: nat, m: WalkMeth, k: nat, node: Option<NodeId>, insert: bool,
                      key: NodeId -> nat): Seen
  {
    var p := w.at.id;
    Seen(if !m.Keyed() || k == key(p) then Some(p) else if insert then node else None,
         !m.Keyed() || k >= key(p), SlotAt(w.path, base), AltSlot(w.anchor, base))
  }

  /** The previous inter-branch length the loop compares against: 0 before the first split node. */
  function PrevLen(ctx: seq<Frame>, base: nat, cur: Shape, str: NodeId -> Str): int
  {
    if |ctx| <= base then 0
    else
      var s := Fill(ctx[|ctx| - 1], cur);
      EqualBits(str(s.left.id), str(s.right.id))
  }

  // -------------------------------------------------------------- lengths

  lemma KeysBelow(key: NodeId -> nat, str: NodeId -> Str, w: nat)
    requires Spells(key, str, w)
    ensures forall x :: key(x) < Limit(Str(w))
  {
    forall x
      ensures key(x) < Limit(Str(w))
    {
      EncBound(str(x), w);
    }
  }

  /**
   * How the loop steers with lengths.  For branches a and c, k differs from
   * both before their split bit exactly when the keys mismatch, and
   * otherwise the unsigned comparison of the shared lengths, where -1 (k
   * equal to a branch) counts as infinite, picks the side the keys pick.
   */
  lemma SteerLen(k: Str, a: Str, c: Str, w: nat)
    requires CStr(k) && CStr(a) && CStr(c) && |k| < w && |a| < w && |c| < w && w < 0x1000_0000 && a != c
    ensures var kn, ka, kc := Enc(k, w), Enc(a, w), Enc(c, w);
      var llen, rlen, xlen := EqualBits(k, a), EqualBits(k, c), EqualBits(a, c);
      (Unsigned(llen) < Unsigned(xlen) && Unsigned(rlen) < Unsigned(xlen)) == Mismatch(kn, ka, kc) &&
      (!Mismatch(kn, ka, kc) ==> (Unsigned(llen) <= Unsigned(rlen)) == KeySide(kn, ka, kc))
  {
    var kn, ka, kc := Enc(k, w), Enc(a, w), Enc(c, w);
    EqualBitsRange(k, a, w);
    EqualBitsRange(k, c, w);
    EqualBitsRange(a, c, w);
    EqualBitsEnc(k, a, w);
    EqualBitsEnc(k, c, w);
    EqualBitsEnc(a, c, w);
    Steer(kn, ka, kc);
    XorZero(kn, ka);
    XorZero(kn, kc);
    Ultra(kn, ka, kc);
    if Dist(kn, ka) < Dist(ka, kc) {
      UltraEq(kn, ka, kc);
    }
  }

  /** A key no farther from k spells a string sharing at least as many bits with k. */
  lemma Nearer(k: Str, a: Str, c: Str, w: nat)
    requires CStr(k) && CStr(a) && CStr(c) && |k| < w && |a| < w && |c| < w && w < 0x1000_0000
    requires Dist(Enc(k, w), Enc(c, w)) <= Dist(Enc(k, w), Enc(a, w))
    ensures Unsigned(EqualBits(k, a)) <= Unsigned(EqualBits(k, c))
  {
    EqualBitsRange(k, a, w);
    EqualBitsRange(k, c, w);
    EqualBitsEnc(k, a, w);
    EqualBitsEnc(k, c, w);
    if k != c {
      XorZero(Enc(k, w), Enc(c, w));
      DistWidth(Enc(k, w), Enc(c, w));
      XorZero(Enc(k, w), Enc(a, w));
      DistWidth(Enc(k, w), Enc(a, w));
    }
  }

  /** The bits two records' strings share, when their keys differ. */
  lemma LenOf(key: NodeId -> nat, str: NodeId -> Str, w: nat, x: NodeId, y: NodeId)
    requires Spells(key, str, w) && key(x) != key(y)
    ensures EqualBits(str(x), str(y)) == 8 * w - Dist(key(x), key(y)) >= 0
  {
    EqualBitsRange(str(x), str(y), w);
    EqualBitsEnc(str(x), str(y), w);
  }

  /** Below depth base, the previous length is the one of the split node just left. */
  lemma PrevLenOf(whole: Shape, ctx: seq<Frame>, cur: Shape, base: nat, key: NodeId -> nat, str: NodeId -> Str, w: nat)
    requires Spells(key, str, w) && Wf(whole, key) && Plug(ctx, cur) == whole && base < |ctx|
    ensures var s := Fill(ctx[|ctx| - 1], cur);
      PrevLen(ctx, base, cur, str) == 8 * w - Dist(key(s.left.id), key(s.right.id))
  {
    var s := Fill(ctx[|ctx| - 1], cur);
    var up := ctx[..|ctx| - 1];
    assert up + [ctx[|ctx| - 1]] == ctx;
    PlugPush(up, ctx[|ctx| - 1], cur);
    SubtreeWf(up, s, key);
    LenOf(key, str, w, s.left.id, s.right.id);
  }

  /**
   * How the loop tells roles apart with lengths.  Entering record cur.id
   * through ctx, its branches are set; when they differ, cur is a split node
   * exactly when they share no fewer bits than the previous branches did.
   */
  lemma ClassifyLen(whole: Shape, ctx: seq<Frame>, cur: Shape, base: nat, b: Branches, key: NodeId -> nat,
                    str: NodeId -> Str, w: nat)
    requires Spells(key, str, w) && Wf(whole, key) && Linked(whole, b) && Nodeless(whole, b)
    requires Plug(ctx, cur) == whole && base <= |ctx|
    requires |ctx| == base ==> cur.Split? || |ctx| == 0
    requires |ctx| > base ==> cur.id != ctx[|ctx| - 1].id
    ensures (cur.id, false) in b && (cur.id, true) in b
    ensures var l, r := b[(cur.id, false)], b[(cur.id, true)];
      l != r ==> (cur.Split? <==> !(EqualBits(str(l), str(r)) < PrevLen(ctx, base, cur, str)))
    ensures cur.Split? ==>
              b[(cur.id, false)] == cur.left.id && b[(cur.id, true)] == cur.right.id &&
              key(cur.left.id) < key(cur.right.id)
  {
    KeysBelow(key, str, w);
    Classify(whole, ctx, cur, base, b, key, Str(w));
    if cur.Split? {
      LinkedPlug(ctx, cur, b);
      ClassifySplitLen(whole, ctx, cur, base, b, key, str, w);
    } else if b[(cur.id, false)] != b[(cur.id, true)] {
      ClassifyLeafLen(whole, ctx, cur, base, b, key, str, w);
    }
  }

  lemma ClassifySplitLen(whole: Shape, ctx: seq<Frame>, cur: Shape, base: nat, b: Branches, key: NodeId -> nat,
                         str: NodeId -> Str, w: nat)
    requires Spells(key, str, w) && Wf(whole, key) && Plug(ctx, cur) == whole && base <= |ctx|
    requires cur.Split? && Linked(cur, b)
    ensures !(EqualBits(str(cur.left.id), str(cur.right.id)) < PrevLen(ctx, base, cur, str))
    ensures key(cur.left.id) < key(cur.right.id)
  {
    KeysBelow(key, str, w);
    ClassifySplit(whole, ctx, cur, base, b, key, Str(w));
    SubtreeWf(ctx, cur, key);
    LenOf(key, str, w, cur.left.id, cur.right.id);
    if |ctx| > base {
      PrevLenOf(whole, ctx, cur, base, key, str, w);
    }
  }

  lemma ClassifyLeafLen(whole: Shape, ctx: seq<Frame>, cur: Shape, base: nat, b: Branches, key: NodeId -> nat,
                        str: NodeId -> Str, w: nat)
    requires Spells(key, str, w) && Wf(whole, key) && Linked(whole, b) && Nodeless(whole, b)
    requires Plug(ctx, cur) == whole && base <= |ctx|
    requires |ctx| == base ==> cur.Split? || |ctx| == 0
    requires |ctx| > base ==> cur.id != ctx[|ctx| - 1].id
    requires cur.Leaf? && (cur.id, false) in b && (cur.id, true) in b && b[(cur.id, false)] != b[(cur.id, true)]
    ensures EqualBits(str(b[(cur.id, false)]), str(b[(cur.id, true)])) < PrevLen(ctx, base, cur, str)
  {
    var l, r := b[(cur.id, false)], b[(cur.id, true)];
    PlugSets(ctx, cur, key);
    if cur.id !in Splits(whole) {
      // the nodeless leaf loops on itself
      assert false;
    }
    if |ctx| == 0 {
      assert false;
    }
    LinkedPlug(ctx, cur, b);
    ClassifyLeaf(whole, ctx, cur, b, key);
    XorZero(key(l), key(r));
    DistWidth(key(l), key(r));
    LenOf(key, str, w, l, r);
    PrevLenOf(whole, ctx, cur, base, key, str, w);
  }

  /**
   * The shared length of k with a record x of a set S, against the record at
   * of S nearest to k: negative only when k is x's string, and otherwise no
   * more than the length k shares with at.
   */
  lemma Gauge(key: NodeId -> nat, str: NodeId -> Str, w: nat, k: Str, x: NodeId, at: NodeId, S: set<nat>)
    requires Spells(key, str, w) && CStr(k) && |k| < w
    requires key(x) in S && forall a :: a in S ==> Dist(Enc(k, w), key(at)) <= Dist(Enc(k, w), a)
    ensures var len := EqualBits(k, str(x));
      (len < 0 ==> Enc(k, w) == key(x)) &&
      (len >= 0 ==> len < 8 * w && len <= Unsigned(EqualBits(k, str(at))))
  {
    EqualBitsRange(k, str(x), w);
    EqualBitsEnc(k, str(x), w);
    Nearer(k, str(x), str(at), w);
  }

  /**
   * The final comparison: once k and a are known to share len bits (any
   * number when they are equal), `strcmp` from byte len / 8 on tells their
   * numbers' equality and order.
   */
  lemma Settle(k: Str, a: Str, len: int, w: nat)
    requires CStr(k) && CStr(a) && |k| < w && |a| < w && w < 0x1000_0000
    requires 0 <= len && (k != a ==> len <= EqualBits(k, a))
    ensures (CompareFrom(k, a, len / 8) == 0) == (Enc(k, w) == Enc(a, w))
    ensures (CompareFrom(k, a, len / 8) >= 0) == (Enc(k, w) >= Enc(a, w))
  {
    EqualBitsEnc(k, a, w);
    if k != a {
      PrefixAgree(k, a, len);
    }
    CompareEnc(k, a, len / 8, w);
  }

  // -------------------------------------------------------------- descent

  /** at is the record of S nearest to kn: none splits later from kn. */
  ghost predicate Nearest(kn: nat, at: NodeId, S: set<nat>, key: NodeId -> nat)
  {
    key(at) in S && forall a :: a in S ==> Dist(kn, key(at)) <= Dist(kn, a)
  }

  /**
   * What the loop's last keyed lengths say, until an exact match is met:
   * they are real lengths, and k shares no fewer bits with the record at
   * where the walk stops.
   */
  ghost predicate Lens(m: WalkMeth, k: Str, str: NodeId -> Str, w: nat, at: NodeId, found: bool, llen: int, rlen: int)
  {
    m.Keyed() && !found ==>
      0 <= llen < 8 * w && 0 <= rlen < 8 * w &&
      llen <= Unsigned(EqualBits(k, str(at))) && rlen <= Unsigned(EqualBits(k, str(at)))
  }

  /**
   * Measuring k against the branches of a record p of the tree keeps the
   * lengths' meaning: a negative length is an exact match, on a key of the
   * tree.
   */
  lemma Measured(key: NodeId -> nat, str: NodeId -> Str, w: nat, k: Str, whole: Shape, b: Branches, p: NodeId,
                 at: NodeId, m: WalkMeth, found: bool, llen: int, rlen: int)
    requires Spells(key, str, w) && CStr(k) && |k| < w && m.Keyed()
    requires Distinct(whole) && Linked(whole, b) && Nodeless(whole, b) && p in Leaves(whole)
    requires Nearest(Enc(k, w), at, Keys(whole, key), key)
    requires Lens(m, k, str, w, at, found, llen, rlen) && (found ==> Enc(k, w) in Keys(whole, key))
    ensures (p, false) in b && (p, true) in b
    ensures var llen', rlen' := EqualBits(k, str(b[(p, false)])), EqualBits(k, str(b[(p, true)]));
      var found' := found || llen' < 0 || rlen' < 0;
      Lens(m, k, str, w, at, found', llen', rlen') && (found' ==> Enc(k, w) in Keys(whole, key))
  {
    BranchesInside(whole, b, p);
    var l, r := b[(p, false)], b[(p, true)];
    LeafKey(whole, l, key);
    LeafKey(whole, r, key);
    Gauge(key, str, w, k, l, at, Keys(whole, key));
    Gauge(key, str, w, k, r, at, Keys(whole, key));
  }

  /** The record a descent is on belongs to the tree. */
  lemma OnRecord(ctx: seq<Frame>, cur: Shape, key: NodeId -> nat)
    requires Wf(Plug(ctx, cur), key)
    ensures cur.id in Leaves(Plug(ctx, cur))
  {
    SubtreeWf(ctx, cur, key);
    TopIsLeaf(cur);
    PlugSets(ctx, cur, key);
  }

  /**
   * The second half of a turn: going down from split node pos.cur to side
   * sd keeps the loop's slots and lengths in step with the walk.
   */
  lemma Advance(whole: Shape, base: nat, pos: Pos, m: WalkMeth, kn: nat, key: NodeId -> nat, kt: KeyType,
                str: NodeId -> Str, brside: bool, sd: bool)
    requires Wf(whole, key)
    requires Running(whole, base, pos, m, kn, key, kt, pos.cur.id, WindowAt(pos.ctx, base, m, kn, key), brside,
                     PrevXor(pos.ctx, base, pos.cur, key, kt), AnchorId(pos.anchor))
    requires pos.cur.Split? && !(m.Keyed() && Mismatch(kn, key(pos.cur.left.id), key(pos.cur.right.id)))
    requires sd == if m.Keyed() then KeySide(kn, key(pos.cur.left.id), key(pos.cur.right.id)) else pos.side
    ensures var pos' := Down(pos, m, sd);
      var p := pos.cur.id;
      WalkFrom(pos', m, kn, key) == WalkFrom(pos, m, kn, key) &&
      SlotAt(pos'.ctx, base) == Branch(p, sd) &&
      AltSlot(pos'.anchor, base) ==
        (if (sd && m.Down()) || (!sd && m.Up()) then Some(SlotAt(pos.ctx, base)) else AltSlot(pos.anchor, base)) &&
      pos'.cur.id == (if sd then pos.cur.right.id else pos.cur.left.id) &&
      pos'.side == (if sd && m == WalkMeth.Next then false else if !sd && m == WalkMeth.Prev then true else sd) &&
      (pos'.cur.id == p ==> WalkFrom(pos, m, kn, key) == Stop(pos'.ctx, pos'.cur, pos'.anchor)) &&
      (pos'.cur.id != p ==>
         Running(whole, base, pos', m, kn, key, kt, pos'.cur.id, WindowAt(pos'.ctx, base, m, kn, key), pos'.side,
                 PrevXor(pos'.ctx, base, pos'.cur, key, kt), AnchorId(pos'.anchor)) &&
         PrevLen(pos'.ctx, base, pos'.cur, str) == EqualBits(str(pos.cur.left.id), str(pos.cur.right.id)))
  {
    Follow(whole, base, pos, m, kn, key, kt, WindowAt(pos.ctx, base, m, kn, key), brside,
           PrevXor(pos.ctx, base, pos.cur, key, kt), AnchorId(pos.anchor), sd);
    DownPrev(pos, base, m, key, kt, sd);
  }

  /** What holds throughout one descent: the tree is well formed and spelt by str, and k fits its width. */
  ghost predicate Setting(b: Branches, str: NodeId -> Str, w: nat, key: NodeId -> nat, whole: Shape, k: Str)
  {
    Spells(key, str, w) && CStr(k) && |k| < w && Wf(whole, key) && Linked(whole, b) && Nodeless(whole, b)
  }

  /** The descent loop is running at pos, with p and brside its copies of what the walk knows. */
  ghost predicate Live(whole: Shape, base: nat, pos: Pos, m: WalkMeth, k: Str, w: nat, key: NodeId -> nat,
                       p: NodeId, brside: bool)
  {
    Running(whole, base, pos, m, Enc(k, w), key, Str(w), p, WindowAt(pos.ctx, base, m, Enc(k, w), key), brside,
            PrevXor(pos.ctx, base, pos.cur, key, Str(w)), AnchorId(pos.anchor))
  }

  /**
   * The first half of a turn of the descent loop: reading the branches of
   * record p, and for a keyed descent measuring k against them, to tell
   * whether the descent stops there (the nodeless leaf, a leaf whose split
   * node was visited higher up, or a split node whose strings all differ
   * from k before their split bit), and otherwise on which side it goes on.
   */
  method Look(b: Branches, str: NodeId -> Str, w: nat, ghost key: NodeId -> nat, ghost whole: Shape, ghost base: nat,
              ghost pos: Pos, ghost wst: Stop, m: WalkMeth, k: Str, p: NodeId, brside: bool, plen: int,
              llen: int, rlen: int, found: bool)
    returns (stop: bool, brside': bool, xlen: int, llen': int, rlen': int, found': bool)
    requires Setting(b, str, w, key, whole, k)
    requires Live(whole, base, pos, m, k, w, key, p, brside) && plen == PrevLen(pos.ctx, base, pos.cur, str)
    requires WalkFrom(pos, m, Enc(k, w), key) == wst
    requires m.Keyed() ==> Nearest(Enc(k, w), wst.at.id, Keys(whole, key), key)
    requires Lens(m, k, str, w, wst.at.id, found, llen, rlen) && (found ==> m.Keyed() && Enc(k, w) in Keys(whole, key))
    ensures Lens(m, k, str, w, wst.at.id, found', llen', rlen') && (found' ==> m.Keyed() && Enc(k, w) in Keys(whole, key))
    ensures stop ==> wst == Stop(pos.ctx, pos.cur, pos.anchor)
    ensures !stop ==>
              pos.cur.Split? &&
              var l, r := pos.cur.left.id, pos.cur.right.id;
              !(m.Keyed() && Mismatch(Enc(k, w), key(l), key(r))) && xlen == EqualBits(str(l), str(r)) &&
              brside' == (if m.Keyed() then KeySide(Enc(k, w), key(l), key(r)) else pos.side) &&
              (p, brside') in b && b[(p, brside')] == if brside' then r else l
  {
    ghost var kn := Enc(k, w);
    ClassifyLen(whole, pos.ctx, pos.cur, base, b, key, str, w);
    WalkStops(pos.ctx, pos.cur, m, kn, pos.side, pos.anchor, key);
    stop, brside', xlen, llen', rlen', found' := true, brside, 0, llen, rlen, found;
    var l := b[(p, false)];
    var r := b[(p, true)];
    if l == r {
      // the nodeless leaf
      return;
    }
    if m.Keyed() {
      OnRecord(pos.ctx, pos.cur, key);
      Measured(key, str, w, k, whole, b, p, wst.at.id, m, found, llen, rlen);
      llen' := EqualBits(k, str(l));
      rlen' := EqualBits(k, str(r));
      // a negative length (k is that branch's string) counts as infinite
      brside' := Unsigned(llen') <= Unsigned(rlen');
      if llen' < 0 || rlen' < 0 {
        found' := true;
      }
    }
    xlen := EqualBits(str(l), str(r));
    if xlen < plen {
      // a leaf, whose split node was visited higher up
    } else {
      if m.Keyed() {
        SteerLen(k, str(l), str(r), w);
      }
      if m.Keyed() && Unsigned(llen') < Unsigned(xlen) && Unsigned(rlen') < Unsigned(xlen) {
        // k differs from both branches before their split bit: it cannot be below p
      } else {
        stop := false;
      }
    }
  }

  /**
   * The end of `_cbau_descend`: the record p it stopped on is returned when
   * the descent is key-less or p holds k, and a new record with k would take
   * the right side of p exactly when k is no smaller.  The final `strcmp`
   * starts from the longer of the two last lengths, which k shares with p;
   * an exact match met on the way needs no comparison.
   */
  method Conclude(b: Branches, str: NodeId -> Str, w: nat, ghost key: NodeId -> nat, ghost whole: Shape, m: WalkMeth, k: Str,
                  p: NodeId, llen: int, rlen: int, found: bool, node: Option<NodeId>, insert: bool)
    returns (ret: Option<NodeId>, nside: bool)
    requires Setting(b, str, w, key, whole, k)
    requires m.Keyed() ==> p == Walk([], whole, m, Enc(k, w), m.InitialSide(), NoAnchor, key).at.id
    requires Lens(m, k, str, w, p, found, llen, rlen) && (found ==> m.Keyed() && Enc(k, w) in Keys(whole, key))
    ensures ret == if !m.Keyed() || Enc(k, w) == key(p) then Some(p) else if insert then node else None
    ensures nside == (!m.Keyed() || Enc(k, w) >= key(p))
  {
    var plen;
    if found || !m.Keyed() {
      plen := -1;
    } else {
      plen := if llen > rlen then llen else rlen;
      EqualBitsRange(k, str(p), w);
      Settle(k, str(p), plen, w);
    }
    if found {
      KeyedHit(whole, m, Enc(k, w), key);
    }
    nside := plen < 0 || CompareFrom(k, str(p), plen / 8) >= 0;
    ret := if plen < 0 || CompareFrom(k, str(p), plen / 8) == 0 then Some(p) else if insert then node else None;
  }

  /**
   * Going down from split node p to side brside: the slot that led to p is
   * remembered as the last left turn (right turn) when the caller asked for
   * it, the branch taken becomes the slot, and next (prev) turns the other
   * way from then on.  Returns the record the branch leads to.
   */
  method Turn(b: Branches, m: WalkMeth, p: NodeId, slot: Slot, alt: Option<Slot>, brside: bool)
    returns (slot': Slot, alt': Option<Slot>, brside': bool, c: NodeId)
    requires (p, brside) in b
    ensures slot' == Branch(p, brside) && c == b[(p, brside)]
    ensures alt' == if (brside && m.Down()) || (!brside && m.Up()) then Some(slot) else alt
    ensures brside' == if brside && m == WalkMeth.Next then false else if !brside && m == WalkMeth.Prev then true else brside
  {
    alt', brside' := alt, brside;
    if brside {
      if m.Down() {
        alt' := Some(slot);
      }
      slot' := Branch(p, true);
      // next goes left once it has turned right
      if m == WalkMeth.Next {
        brside' := false;
      }
    } else {
      if m.Up() {
        alt' := Some(slot);
      }
      slot' := Branch(p, false);
      // prev goes right once it has turned left
      if m == WalkMeth.Prev {
        brside' := true;
      }
    }
    c := b[(p, slot'.side)];
  }

  /**
   * The second half of a turn of the descent loop: following the branch
   * chosen at split node p, and stopping when it loops back to p.
   */
  method Go(b: Branches, str: NodeId -> Str, w: nat, ghost key: NodeId -> nat, ghost whole: Shape, ghost base: nat,
            ghost pos: Pos, m: WalkMeth, k: Str, p: NodeId, slot: Slot, alt: Option<Slot>, brside: bool, xlen: int)
    returns (done: bool, p': NodeId, slot': Slot, alt': Option<Slot>, brside': bool, plen': int, ghost pos': Pos)
    requires Wf(whole, key)
    requires Live(whole, base, pos, m, k, w, key, p, brside)
    requires slot == SlotAt(pos.ctx, base) && alt == AltSlot(pos.anchor, base)
    requires pos.cur.Split? && !(m.Keyed() && Mismatch(Enc(k, w), key(pos.cur.left.id), key(pos.cur.right.id)))
    requires brside == if m.Keyed() then KeySide(Enc(k, w), key(pos.cur.left.id), key(pos.cur.right.id)) else pos.side
    requires (p, brside) in b && b[(p, brside)] == (if brside then pos.cur.right.id else pos.cur.left.id)
    requires xlen == EqualBits(str(pos.cur.left.id), str(pos.cur.right.id))
    ensures pos'.cur == pos.cur.left || pos'.cur == pos.cur.right
    ensures WalkFrom(pos', m, Enc(k, w), key) == WalkFrom(pos, m, Enc(k, w), key)
    ensures p' == pos'.cur.id && slot' == SlotAt(pos'.ctx, base) && alt' == AltSlot(pos'.anchor, base)
    ensures done ==> WalkFrom(pos, m, Enc(k, w), key) == Stop(pos'.ctx, pos'.cur, pos'.anchor)
    ensures !done ==> Live(whole, base, pos', m, k, w, key, p', brside') && plen' == PrevLen(pos'.ctx, base, pos'.cur, str)
  {
    Advance(whole, base, pos, m, Enc(k, w), key, Str(w), str, brside, brside);
    pos' := Down(pos, m, brside);
    var c;
    slot', alt', brside', c := Turn(b, m, p, slot, alt, brside);
    p', plen' := c, xlen;
    // when the branch loops back to p, p is its own leaf
    done := c == p;
  }

  /**
   * `_cbau_descend`: starting from the record `start` (the tree's root, or
   * the record a next or prev restarts from), reached through the ghost path
   * ctx0 into the subtree cur0, it follows walk method m for the string k and
   * stops where `Walk` stops on the numbers the strings spell, reporting
   * `Sees` of that stop.  Keyed descents start from the root.
   */
  method Descend(b: Branches, str: NodeId -> Str, w: nat, ghost key: NodeId -> nat, start: NodeId,
                 ghost whole: Shape, ghost ctx0: seq<Frame>, ghost cur0: Shape, m: WalkMeth, k: Str,
                 node: Option<NodeId>, insert: bool)
    returns (d: Seen)
    requires Spells(key, str, w) && CStr(k) && |k| < w && CbMeth(m)
    requires Wf(whole, key) && Linked(whole, b) && Nodeless(whole, b)
    requires Plug(ctx0, cur0) == whole && start == cur0.id && (cur0.Split? || |ctx0| == 0)
    requires m.Keyed() ==> |ctx0| == 0
    ensures d == Sees(Walk(ctx0, cur0, m, Enc(k, w), m.InitialSide(), NoAnchor, key), |ctx0|, m, Enc(k, w),
                      node, insert, key)
  {
    ghost var kn := Enc(k, w);
    ghost var kt := Str(w);
    ghost var base := |ctx0|;
    ghost var pos := Pos(ctx0, cur0, m.InitialSide(), NoAnchor);
    ghost var wst := WalkFrom(pos, m, kn, key);
    KeysBelow(key, str, w);
    if m.Keyed() {
      WalkNearest(ctx0, cur0, m, kn, m.InitialSide(), NoAnchor, key);
    }
    var p := start;
    var slot := Start;
    var alt: Option<Slot> := None;
    var brside := m.InitialSide();
    var llen, rlen, xlen, plen := 0, 0, 0, 0;
    var found := false;
    var done := false;
    while !done
      invariant WalkFrom(pos, m, kn, key) == wst
      invariant p == pos.cur.id && slot == SlotAt(pos.ctx, base) && alt == AltSlot(pos.anchor, base)
      invariant !done ==> Live(whole, base, pos, m, k, w, key, p, brside) && plen == PrevLen(pos.ctx, base, pos.cur, str)
      invariant done ==> wst == Stop(pos.ctx, pos.cur, pos.anchor)
      invariant Lens(m, k, str, w, wst.at.id, found, llen, rlen) && (found ==> m.Keyed() && kn in Keys(whole, key))
      decreases pos.cur, !done
    {
      var stop;
      stop, brside, xlen, llen, rlen, found := Look(b, str, w, key, whole, base, pos, wst, m, k, p, brside, plen,
                                                    llen, rlen, found);
      if stop {
        done := true;
      } else {
        done, p, slot, alt, brside, plen, pos := Go(b, str, w, key, whole, base, pos, m, k, p, slot, alt, brside, xlen);
      }
    }
    var ret, nside := Conclude(b, str, w, key, whole, m, k, p, llen, rlen, found, node, insert);
    d := Seen(ret, nside, slot, alt);
  }

  // ------------------------------------------------- strings and numbers

  /** Reading C strings as numbers keeps equality and the order of `strcmp`. */
  lemma Reading(a: Str, c: Str, w: nat)
    requires CStr(a) && CStr(c) && |a| < w && |c| < w
    ensures (a == c) == (Enc(a, w) == Enc(c, w))
    ensures Below(a, c) == (Enc(a, w) < Enc(c, w))
  {
    CompareEnc(a, c, 0, w);
    EqualBitsEnc(a, c, w);
  }

  /** String k is stored in s exactly when its number is a key of s. */
  lemma Stored(s: Shape, key: NodeId -> nat, str: NodeId -> Str, w: nat, k: Str)
    requires Spells(key, str, w) && CStr(k) && |k| < w
    ensures (Enc(k, w) in Keys(s, key)) == (exists x :: x in Leaves(s) && str(x) == k)
  {
    if Enc(k, w) in Keys(s, key) {
      var x := KeyLeaf(s, Enc(k, w), key);
      Reading(str(x), k, w);
    } else {
      forall x | x in Leaves(s)
        ensures str(x) != k
      {
        LeafKey(s, x, key);
      }
    }
  }

  /** Record r holds the least key of s above k's: as strings, r's is the first one after k. */
  lemma Successor(s: Shape, key: NodeId -> nat, str: NodeId -> Str, w: nat, k: Str, r: NodeId)
    requires Spells(key, str, w) && CStr(k) && |k| < w && r in Leaves(s)
    requires Least(Candidates(Keys(s, key), KeyNext, Enc(k, w)), key(r))
    ensures Below(k, str(r)) && forall x :: x in Leaves(s) && Below(k, str(x)) ==> !Below(str(x), str(r))
  {
    Reading(k, str(r), w);
    forall x | x in Leaves(s) && Below(k, str(x))
      ensures !Below(str(x), str(r))
    {
      LeafKey(s, x, key);
      Reading(k, str(x), w);
      Reading(str(x), str(r), w);
      assert key(x) in Candidates(Keys(s, key), KeyNext, Enc(k, w));
    }
  }

  /** Record r holds the greatest key of s below k's: as strings, r's is the last one before k. */
  lemma Predecessor(s: Shape, key: NodeId -> nat, str: NodeId -> Str, w: nat, k: Str, r: NodeId)
    requires Spells(key, str, w) && CStr(k) && |k| < w && r in Leaves(s)
    requires Greatest(Candidates(Keys(s, key), KeyPrev, Enc(k, w)), key(r))
    ensures Below(str(r), k) && forall x :: x in Leaves(s) && Below(str(x), k) ==> !Below(str(r), str(x))
  {
    Reading(str(r), k, w);
    forall x | x in Leaves(s) && Below(str(x), k)
      ensures !Below(str(r), str(x))
    {
      LeafKey(s, x, key);
      Reading(str(x), k, w);
      Reading(str(r), str(x), w);
      assert key(x) in Candidates(Keys(s, key), KeyPrev, Enc(k, w));
    }
  }

  /** A record holding the least (greatest) key of s holds the first (last) string. */
  lemma Extreme(s: Shape, key: NodeId -> nat, str: NodeId -> Str, w: nat, r: NodeId)
    requires Spells(key, str, w) && r in Leaves(s)
    ensures (forall a :: a in Keys(s, key) ==> key(r) <= a) ==> forall x :: x in Leaves(s) ==> !Below(str(x), str(r))
    ensures (forall a :: a in Keys(s, key) ==> a <= key(r)) ==> forall x :: x in Leaves(s) ==> !Below(str(r), str(x))
  {
    forall x | x in Leaves(s)
      ensures key(r) <= key(x) ==> !Below(str(x), str(r))
      ensures key(x) <= key(r) ==> !Below(str(r), str(x))
      ensures key(x) in Keys(s, key)
    {
      LeafKey(s, x, key);
      Reading(str(x), str(r), w);
      Reading(str(r), str(x), w);
    }
  }

  /** The first (last) record of a part of the tree whose strings all follow (precede) k. */
  lemma Beyond(s: Shape, key: NodeId -> nat, str: NodeId -> Str, w: nat, k: Str, sub: Shape, r: NodeId)
    requires Spells(key, str, w) && CStr(k) && |k| < w
    requires r == Leftmost(sub) || r == Rightmost(sub)
    ensures (forall c :: c in Keys(sub, key) ==> Enc(k, w) < c) ==> Below(k, str(r))
    ensures (forall c :: c in Keys(sub, key) ==> c < Enc(k, w)) ==> Below(str(r), k)
  {
    LeftmostLeaf(sub);
    LeafKey(sub, r, key);
    Reading(k, str(r), w);
    Reading(str(r), k, w);
  }

  /** Some stored string lies past k in the order of m exactly when some key of s does. */
  lemma Past(s: Shape, key: NodeId -> nat, str: NodeId -> Str, w: nat, m: WalkMeth, k: Str)
    requires Spells(key, str, w) && CStr(k) && |k| < w && (m == KeyNext || m == KeyPrev)
    ensures m == KeyNext ==>
              (Candidates(Keys(s, key), m, Enc(k, w)) != {} <==> exists x :: x in Leaves(s) && Below(k, str(x)))
    ensures m == KeyPrev ==>
              (Candidates(Keys(s, key), m, Enc(k, w)) != {} <==> exists x :: x in Leaves(s) && Below(str(x), k))
  {
    var G := Candidates(Keys(s, key), m, Enc(k, w));
    if G != {} {
      var a :| a in G;
      var x := KeyLeaf(s, a, key);
      Reading(k, str(x), w);
      Reading(str(x), k, w);
    }
    forall x | x in Leaves(s)
      ensures m == KeyNext && Below(k, str(x)) ==> key(x) in G
      ensures m == KeyPrev && Below(str(x), k) ==> key(x) in G
    {
      LeafKey(s, x, key);
      Reading(k, str(x), w);
      Reading(str(x), k, w);
    }
  }

  /** The slot a walk from the root reports for a part of the tree leads to that part. */
  lemma SlotHolds(s: Shape, b: Branches, ctx: seq<Frame>, t: Shape)
    requires Linked(s, b) && Plug(ctx, t) == s
    ensures Holds(Some(s.id), b, SlotAt(ctx, 0), t.id)
  {
    LinkedPlug(ctx, t, b);
    PlugTop(ctx, t);
    if |ctx| > 0 {
      assert FrameLinked(ctx, |ctx| - 1, t, b);
    }
  }

  /** Where a keyed descent of a valid tree stops, in the terms insertion needs. */
  lemma Arrived(s: Shape, m: WalkMeth, k: nat, key: NodeId -> nat, b: Branches)
    requires Wf(s, key) && Linked(s, b) && m.Keyed()
    ensures var w := Walk([], s, m, k, m.InitialSide(), NoAnchor, key);
      Plug(w.path, w.at) == s && w.at.id in Leaves(s) && (k == key(w.at.id) <==> k in Keys(s, key)) &&
      (k in Keys(s, key) ==> w.at.Leaf?) &&
      Fits(w.path, w.at, k, key) && (w.at.Leaf? || Mismatch(k, key(w.at.left.id), key(w.at.right.id))) &&
      Holds(Some(s.id), b, SlotAt(w.path, 0), w.at.id)
  {
    var w := Walk([], s, m, k, m.InitialSide(), NoAnchor, key);
    KeyedHit(s, m, k, key);
    StopInside(s, m, k, m.InitialSide(), key);
    WalkShape([], s, m, k, m.InitialSide(), NoAnchor, key);
    WalkFits([], s, m, k, m.InitialSide(), NoAnchor, key);
    SlotHolds(s, b, w.path, w.at);
  }

  // ----------------------------------------------------------- lookups

  /** `_cbau_lookup`: the record holding string k, if any. */
  method Lookup(t: Tree, str: NodeId -> Str, k: Str) returns (r: Option<NodeId>)
    requires t.Valid() && Spelt(t, str) && CStr(k) && |k| < t.kt.width
    ensures r.Some? <==> exists x :: x in t.Records() && str(x) == k
    ensures r.Some? ==> r.value in t.Records() && str(r.value) == k
  {
    if t.root.None? {
      return None;
    }
    ghost var s := t.shape.value;
    var w := t.kt.width;
    var d := Descend(t.b, str, w, t.key, t.root.value, s, [], s, KeyEq, k, None, false);
    ghost var p := Walk([], s, KeyEq, Enc(k, w), false, NoAnchor, t.key).at.id;
    Arrived(s, KeyEq, Enc(k, w), t.key, t.b);
    Stored(s, t.key, str, w, k);
    Reading(str(p), k, w);
    r := d.ret;
  }

  /** `_cbau_first`: the record holding the smallest string; none in an empty tree. */
  method First(t: Tree, str: NodeId -> Str) returns (r: Option<NodeId>)
    requires t.Valid() && Spelt(t, str)
    ensures r.None? <==> t.Records() == {}
    ensures r.Some? ==> r.value in t.Records() && forall x :: x in t.Records() ==> !Below(str(x), str(r.value))
  {
    if t.root.None? {
      return None;
    }
    ghost var s := t.shape.value;
    var w := t.kt.width;
    assert |str(t.root.value)| < w;
    EncEmpty(w);
    var d := Descend(t.b, str, w, t.key, t.root.value, s, [], s, WalkMeth.First, [], None, false);
    WalkExtreme([], s, WalkMeth.First, false, NoAnchor, t.key);
    LeftmostMin(s, t.key);
    LeftmostLeaf(s);
    r := d.ret;
    Extreme(s, t.key, str, w, Leftmost(s));
  }

  /** `_cbau_last`: the record holding the largest string; none in an empty tree. */
  method Last(t: Tree, str: NodeId -> Str) returns (r: Option<NodeId>)
    requires t.Valid() && Spelt(t, str)
    ensures r.None? <==> t.Records() == {}
    ensures r.Some? ==> r.value in t.Records() && forall x :: x in t.Records() ==> !Below(str(r.value), str(x))
  {
    if t.root.None? {
      return None;
    }
    ghost var s := t.shape.value;
    var w := t.kt.width;
    assert |str(t.root.value)| < w;
    EncEmpty(w);
    var d := Descend(t.b, str, w, t.key, t.root.value, s, [], s, WalkMeth.Last, [], None, false);
    WalkExtreme([], s, WalkMeth.Last, true, NoAnchor, t.key);
    RightmostMax(s, t.key);
    LeftmostLeaf(s);
    r := d.ret;
    Extreme(s, t.key, str, w, Rightmost(s));
  }

  // -------------------------------------------------------- next, prev

  /** The key-less walk `Next` or `Prev` restarts with: CB_WM_NXT for KeyNext, CB_WM_PRV for KeyPrev. */
  function Onward(m: WalkMeth): WalkMeth
  {
    if m == KeyNext then WalkMeth.Next else WalkMeth.Prev
  }

  /** Record r's string lies past k in the direction of m: after k for KeyNext, before it for KeyPrev. */
  predicate PastIn(m: WalkMeth, k: Str, r: Str)
  {
    if m == KeyNext then Below(k, r) else Below(r, k)
  }

  /**
   * What `Next` and `Prev` learn from the keyed walk for k.  Without an
   * alternative turn and with k stored, no string lies past k.  With one, the
   * slot above the turn holds its split node, and the key-less walk restarted
   * there stops on a record past k, the nearest one when k is stored.
   */
  lemma Resume(s: Shape, b: Branches, key: NodeId -> nat, str: NodeId -> Str, w: nat, k: Str, m: WalkMeth)
    requires Spells(key, str, w) && CStr(k) && |k| < w && Wf(s, key) && Linked(s, b)
    requires m == KeyNext || m == KeyPrev
    ensures var a := Walk([], s, m, Enc(k, w), false, NoAnchor, key).anchor;
      a.NoAnchor? && (exists x :: x in Leaves(s) && str(x) == k) ==>
        forall x :: x in Leaves(s) ==> !PastIn(m, k, str(x))
    ensures var a := Walk([], s, m, Enc(k, w), false, NoAnchor, key).anchor;
      a.Anchor? ==> a.at.Split? && Plug(a.above, a.at) == s && Holds(Some(s.id), b, SlotAt(a.above, 0), a.at.id)
    ensures var a := Walk([], s, m, Enc(k, w), false, NoAnchor, key).anchor;
      a.Anchor? ==>
        var r := Walk(a.above, a.at, Onward(m), Enc([], w), Onward(m).InitialSide(), NoAnchor, key).at.id;
        r in Leaves(s) && PastIn(m, k, str(r)) &&
        ((exists x :: x in Leaves(s) && str(x) == k) ==>
           forall x :: x in Leaves(s) && PastIn(m, k, str(x)) ==> !PastIn(m, str(x), str(r)))
  {
    var kn := Enc(k, w);
    var a := Walk([], s, m, kn, false, NoAnchor, key).anchor;
    KeyedHit(s, m, kn, key);
    Stored(s, key, str, w, k);
    Past(s, key, str, w, m, k);
    if m == KeyNext {
      WalkCeil([], s, m, kn, false, NoAnchor, key);
    } else {
      WalkFloor([], s, m, kn, false, NoAnchor, key);
    }
    if a.Anchor? {
      WalkShape([], s, m, kn, false, NoAnchor, key);
      SlotHolds(s, b, a.above, a.at);
      Restart(s, a, Onward(m), key);
      EncEmpty(w);
      WalkAnchorBeyond([], s, m, kn, false, NoAnchor, key);
      var r := Walk(a.above, a.at, Onward(m), Enc([], w), Onward(m).InitialSide(), NoAnchor, key).at.id;
      if m == KeyNext {
        Beyond(s, key, str, w, k, a.at.right, r);
        if exists x :: x in Leaves(s) && str(x) == k {
          Successor(s, key, str, w, k, r);
        }
      } else {
        Beyond(s, key, str, w, k, a.at.left, r);
        if exists x :: x in Leaves(s) && str(x) == k {
          Predecessor(s, key, str, w, k, r);
        }
      }
    }
  }

  /**
   * `_cbau_next`: the record holding the string after k.  The keyed descent
   * for k remembers the slot leading to the split node of its last left turn;
   * with no such turn there is no next record, otherwise a CB_WM_NXT descent
   * from that slot finds it.  Whether k is stored is not checked: when it is,
   * the result is the next stored string; when it is not, the result still
   * comes after k.
   */
  method Next(t: Tree, str: NodeId -> Str, k: Str) returns (r: Option<NodeId>)
    requires t.Valid() && Spelt(t, str) && CStr(k) && |k| < t.kt.width
    ensures r.Some? ==> r.value in t.Records() && Below(k, str(r.value))
    ensures (exists x :: x in t.Records() && str(x) == k) ==>
              (r.Some? <==> exists x :: x in t.Records() && Below(k, str(x))) &&
              (r.Some? ==> forall x :: x in t.Records() && Below(k, str(x)) ==> !Below(str(x), str(r.value)))
  {
    if t.root.None? {
      return None;
    }
    ghost var s := t.shape.value;
    var w := t.kt.width;
    var d := Descend(t.b, str, w, t.key, t.root.value, s, [], s, KeyNext, k, None, false);
    Resume(s, t.b, t.key, str, w, k, KeyNext);
    if d.alt.None? {
      return None;
    }
    var slot := d.alt.value;
    var start := if slot.Start? then t.root.value else t.b[(slot.owner, slot.side)];
    ghost var a := Walk([], s, KeyNext, Enc(k, w), false, NoAnchor, t.key).anchor;
    var d2 := Descend(t.b, str, w, t.key, start, s, a.above, a.at, WalkMeth.Next, [], None, false);
    r := d2.ret;
  }

  /**
   * `_cbau_prev`: the record holding the string before k, the mirror of
   * `Next`: the slot of the last right turn, then a CB_WM_PRV descent.
   */
  method Prev(t: Tree, str: NodeId -> Str, k: Str) returns (r: Option<NodeId>)
    requires t.Valid() && Spelt(t, str) && CStr(k) && |k| < t.kt.width
    ensures r.Some? ==> r.value in t.Records() && Below(str(r.value), k)
    ensures (exists x :: x in t.Records() && str(x) == k) ==>
              (r.Some? <==> exists x :: x in t.Records() && Below(str(x), k)) &&
              (r.Some? ==> forall x :: x in t.Records() && Below(str(x), k) ==> !Below(str(r.value), str(x)))
  {
    if t.root.None? {
      return None;
    }
    ghost var s := t.shape.value;
    var w := t.kt.width;
    var d := Descend(t.b, str, w, t.key, t.root.value, s, [], s, KeyPrev, k, None, false);
    Resume(s, t.b, t.key, str, w, k, KeyPrev);
    if d.alt.None? {
      return None;
    }
    var slot := d.alt.value;
    var start := if slot.Start? then t.root.value else t.b[(slot.owner, slot.side)];
    ghost var a := Walk([], s, KeyPrev, Enc(k, w), false, NoAnchor, t.key).anchor;
    var d2 := Descend(t.b, str, w, t.key, start, s, a.above, a.at, WalkMeth.Prev, [], None, false);
    r := d2.ret;
  }

  // ---------------------------------------------------------- insertion

  /**
   * `_cbau_insert` as written: an empty tree gets node as a self-looped
   * root; otherwise node is spliced in at the slot the keyed descent reports,
   * on side nside, unless a record already holds its string, which is then
   * returned.  As in `CbaU32.Insert`, the result being node is what triggers
   * the splice, so node must not be in the tree already.  Besides r, it
   * reports the slot the descent reached and the record p found there.
   */
  method Insert(t: Tree, str: NodeId -> Str, node: NodeId) returns (r: NodeId, ghost slot: Slot, ghost p: NodeId)
    requires t.Valid() && Spelt(t, str) && node !in t.Records()
    modifies t
    ensures t.Valid()
    ensures old(t.root).None? ==>
              r == node && t.root == Some(node) && t.b == old(t.b)[(node, false) := node][(node, true) := node]
    ensures (exists x :: x in old(t.Records()) && str(x) == str(node)) ==>
              r in old(t.Records()) && str(r) == str(node) &&
              t.root == old(t.root) && t.b == old(t.b) && t.shape == old(t.shape)
    ensures !(exists x :: x in old(t.Records()) && str(x) == str(node)) ==>
              r == node && t.Records() == old(t.Records()) + {node} && t.Contents() == old(t.Contents()) + {t.key(node)}
    // a new string writes node's two branches and the branch that led to p
    ensures old(t.root).Some? && !(exists x :: x in old(t.Records()) && str(x) == str(node)) ==>
              p in old(t.Records()) && Holds(old(t.root), old(t.b), slot, p) &&
              var nside := !Below(str(node), str(p));
              t.b == StoreBranch(old(t.b)[(node, nside) := node][(node, !nside) := p], slot, node) &&
              t.root == StoreRoot(old(t.root), slot, node)
    ensures KeepsOthers(old(t.b), t.b, old(t.Records()) + {node})
  {
    if t.root.None? {
      // empty tree, insert a leaf only
      KeepsWrites(t.b, node, false, node, true, node, Start, node, {node});
      t.b := t.b[(node, false) := node][(node, true) := node];
      t.root := Some(node);
      t.shape := Some(Leaf(node));
      return node, Start, node;
    }
    ghost var s := t.shape.value;
    var w := t.kt.width;
    var k := str(node);
    var d := Descend(t.b, str, w, t.key, t.root.value, s, [], s, KeyEq, k, Some(node), true);
    ghost var at := Walk([], s, KeyEq, Enc(k, w), false, NoAnchor, t.key).at;
    ghost var path := Walk([], s, KeyEq, Enc(k, w), false, NoAnchor, t.key).path;
    Arrived(s, KeyEq, Enc(k, w), t.key, t.b);
    Stored(s, t.key, str, w, k);
    Reading(str(at.id), k, w);
    r := d.ret.value;
    slot, p := d.slot, at.id;
    assert d.nside == !Below(k, str(p)) by {
      Reading(k, str(p), w);
    }
    if r == node {
      CbaU32.Link(t, node, d.slot, d.nside, path, at);
    }
  }
}
