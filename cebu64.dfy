/**
 * The 64-bit unique-key API: each entry point reads the key stored right
 * after the node (for insert, next, prev and delete) or takes it from the
 * caller (for the lookups and pick), and forwards it to the generic engine
 * with the U64 key type.
 */
module Cebu64 {
  import opened Wrappers
  import opened Shapes
  import opened Walks
  import opened Arena
  import CebTree
  import CebUpdate
  import CebDelete

  /**
   * Inserts node under its own key; returns it, or the record already
   * holding that key.  Besides r, it reports the pointer location `slot`
   * the descent reached and the record p found there.
   */
  method Insert(t: Tree, node: NodeId) returns (r: NodeId, ghost slot: Slot, ghost p: NodeId)
    requires t.Valid() && t.kt == U64
    modifies t
    ensures t.Valid()
    ensures t.key(r) == t.key(node) && r in t.Records()
    ensures old(t.root).None? ==>
              r == node && t.root == Some(node) && t.b == old(t.b)[(node, false) := node][(node, true) := node]
    ensures t.key(node) in old(t.Contents()) ==>
              r in old(t.Records()) && t.root == old(t.root) && t.b == old(t.b) && t.shape == old(t.shape)
    ensures t.key(node) !in old(t.Contents()) ==>
              r == node && t.Contents() == old(t.Contents()) + {t.key(node)} &&
              t.Records() == old(t.Records()) + {node}
    // a new key writes node's two branches and the branch that led to p
    ensures old(t.root).Some? && t.key(node) !in old(t.Contents()) ==>
              p in old(t.Records()) && CebUpdate.Holds(old(t.root), old(t.b), slot, p) &&
              var nside := t.key(node) >= t.key(p);
              t.b == CebUpdate.StoreBranch(old(t.b)[(node, nside) := node][(node, !nside) := p], slot, node) &&
              t.root == CebUpdate.StoreRoot(old(t.root), slot, node)
    ensures KeepsOthers(old(t.b), t.b, old(t.Records()) + {node})
  {
    r, slot, p := CebUpdate.Insert(t, node, t.key(node));
  }

  /** The record with the smallest key, None for an empty tree. */
  method First(t: Tree) returns (r: Option<NodeId>)
    requires t.Valid() && t.kt == U64
    ensures r.None? <==> t.Contents() == {}
    ensures r.Some? ==> r.value in t.Records() && Least(t.Contents(), t.key(r.value))
  {
    r := CebTree.First(t);
  }

  /** The record with the largest key, None for an empty tree. */
  method Last(t: Tree) returns (r: Option<NodeId>)
    requires t.Valid() && t.kt == U64
    ensures r.None? <==> t.Contents() == {}
    ensures r.Some? ==> r.value in t.Records() && Greatest(t.Contents(), t.key(r.value))
  {
    r := CebTree.Last(t);
  }

  /** The record holding key k, if any. */
  method Lookup(t: Tree, k: nat) returns (r: Option<NodeId>)
    requires t.Valid() && t.kt == U64
    ensures r.Some? <==> k in t.Contents()
    ensures r.Some? ==> r.value in t.Records() && t.key(r.value) == k
  {
    r := CebTree.Lookup(t, k);
  }

  /**
   * `cebu64_lookup_le`: the record the engine's le lookup returns.  It holds a key
   * at most k, and one is found exactly when such a key is stored; it is not
   * always the largest of them (`CebTree.FloorAsWrittenNotGreatest`).
   */
  method LookupLe(t: Tree, k: nat) returns (r: Option<NodeId>)
    requires t.Valid() && t.kt == U64
    ensures t.shape.Some? ==> r == CebTree.FloorAsWritten(t.shape.value, KeyLe, k, t.key)
    ensures r.Some? <==> exists a :: a in t.Contents() && a <= k
    ensures r.Some? ==> r.value in t.Records() && t.key(r.value) <= k
  {
    r := CebTree.LookupFloorAsWritten(t, KeyLe, k);
    assert forall a :: a in Candidates(t.Contents(), KeyLe, k) <==> a in t.Contents() && a <= k;
  }

  /**
   * `cebu64_lookup_lt`: the record the engine's lt lookup returns.  It holds a key
   * below k, and one is found exactly when such a key is stored; like the le
   * lookup, it is not always the largest of them.
   */
  method LookupLt(t: Tree, k: nat) returns (r: Option<NodeId>)
    requires t.Valid() && t.kt == U64
    ensures t.shape.Some? ==> r == CebTree.FloorAsWritten(t.shape.value, KeyLt, k, t.key)
    ensures r.Some? <==> exists a :: a in t.Contents() && a < k
    ensures r.Some? ==> r.value in t.Records() && t.key(r.value) < k
  {
    r := CebTree.LookupFloorAsWritten(t, KeyLt, k);
    assert forall a :: a in Candidates(t.Contents(), KeyLt, k) <==> a in t.Contents() && a < k;
  }

  /**
   * `cebu64_lookup_ge`: the record the engine's ge lookup returns.  It holds a key
   * at least k, and one is found exactly when such a key is stored; it is not
   * always the smallest of them (`CebTree.CeilAsWrittenNotLeast`).
   */
  method LookupGe(t: Tree, k: nat) returns (r: Option<NodeId>)
    requires t.Valid() && t.kt == U64
    ensures t.shape.Some? ==> r == CebTree.CeilAsWritten(t.shape.value, KeyGe, k, t.key)
    ensures r.Some? <==> exists a :: a in t.Contents() && a >= k
    ensures r.Some? ==> r.value in t.Records() && t.key(r.value) >= k
  {
    r := CebTree.LookupCeilAsWritten(t, KeyGe, k);
    assert forall a :: a in Candidates(t.Contents(), KeyGe, k) <==> a in t.Contents() && a >= k;
  }

  /**
   * `cebu64_lookup_gt`: the record the engine's gt lookup returns.  It holds a key
   * above k, and one is found exactly when such a key is stored; like the ge
   * lookup, it is not always the smallest of them.
   */
  method LookupGt(t: Tree, k: nat) returns (r: Option<NodeId>)
    requires t.Valid() && t.kt == U64
    ensures t.shape.Some? ==> r == CebTree.CeilAsWritten(t.shape.value, KeyGt, k, t.key)
    ensures r.Some? <==> exists a :: a in t.Contents() && a > k
    ensures r.Some? ==> r.value in t.Records() && t.key(r.value) > k
  {
    r := CebTree.LookupCeilAsWritten(t, KeyGt, k);
    assert forall a :: a in Candidates(t.Contents(), KeyGt, k) <==> a in t.Contents() && a > k;
  }

  /** The record following node's key, when that key is in the tree. */
  method Next(t: Tree, node: NodeId) returns (r: Option<NodeId>)
    requires t.Valid() && t.kt == U64
    ensures r.Some? <==> t.key(node) in t.Contents() && exists a :: a in t.Contents() && a > t.key(node)
    ensures r.Some? ==> (r.value in t.Records() && t.key(r.value) > t.key(node) &&
              forall a :: a in t.Contents() && a > t.key(node) ==> t.key(r.value) <= a)
  {
    var k := t.key(node);
    r := CebTree.Next(t, k);
    assert forall a :: a in Candidates(t.Contents(), KeyNext, k) <==> a in t.Contents() && a > k;
  }

  /** The record preceding node's key, when that key is in the tree. */
  method Prev(t: Tree, node: NodeId) returns (r: Option<NodeId>)
    requires t.Valid() && t.kt == U64
    ensures r.Some? <==> t.key(node) in t.Contents() && exists a :: a in t.Contents() && a < t.key(node)
    ensures r.Some? ==> (r.value in t.Records() && t.key(r.value) < t.key(node) &&
              forall a :: a in t.Contents() && a < t.key(node) ==> a <= t.key(r.value))
  {
    var k := t.key(node);
    r := CebTree.Prev(t, k);
    assert forall a :: a in Candidates(t.Contents(), KeyPrev, k) <==> a in t.Contents() && a < k;
  }

  /**
   * Deletes node when it is the record holding its key; returns the record
   * found under that key (node itself when deleted), None when none is.
   */
  method Delete(t: Tree, node: NodeId) returns (r: Option<NodeId>)
    requires t.Valid() && t.kt == U64
    modifies t
    ensures t.Valid()
    ensures node in old(t.Records()) ==> r == Some(node)
    ensures r.Some? ==> r.value in old(t.Records()) && t.key(r.value) == t.key(node)
    ensures r == Some(node) ==>
              t.Contents() == old(t.Contents()) - {t.key(node)} && t.Records() == old(t.Records()) - {node} &&
              (node, false) !in t.b
    ensures r != Some(node) ==> t.root == old(t.root) && t.b == old(t.b) && t.shape == old(t.shape)
    // a NULL b[0] means node is not in the tree; otherwise the holder of its key is found
    ensures (node, false) !in old(t.b) ==> r.None?
    ensures (node, false) in old(t.b) ==> (r.Some? <==> t.key(node) in old(t.Contents()))
    ensures KeepsOthers(old(t.b), t.b, old(t.Records()))
  {
    if node in t.Records() {
      var s := t.shape.value;
      LeafKey(s, node, t.key);
      RecordLinked(s, t.b, node);
    }
    r := CebDelete.Delete(t, Some(node), t.key(node));
    if node in old(t.Records()) {
      KeysInjective(old(t.shape).value, node, r.value, t.key);
    }
  }

  /** Detaches and returns the record holding key k, None when there is none. */
  method Pick(t: Tree, k: nat) returns (r: Option<NodeId>)
    requires t.Valid() && t.kt == U64
    modifies t
    ensures t.Valid()
    ensures r.Some? <==> k in old(t.Contents())
    ensures r.Some? ==>
              r.value in old(t.Records()) && t.key(r.value) == k &&
              t.Contents() == old(t.Contents()) - {k} && t.Records() == old(t.Records()) - {r.value} &&
              (r.value, false) !in t.b
    ensures r.None? ==> t.root == old(t.root) && t.b == old(t.b) && t.shape == old(t.shape)
    ensures KeepsOthers(old(t.b), t.b, old(t.Records()))
  {
    r := CebDelete.Delete(t, None, k);
  }
}
