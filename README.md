# Compact binary radix trees, modelled in Dafny

cbtree stores records in binary radix trees without allocating any
internal node. Each record carries two branches, `b[0]` and `b[1]`, and
plays up to two roles. It is always a *leaf*, which holds its key. It may
also be the *split node* of the place where it was inserted, the node
where two clusters of keys part on their highest differing bit. One
record, the *nodeless leaf*, has no split node: its branches point back
at itself. A descent cannot tell the roles apart from the pointers alone.
It tells them apart from the keys: going down, the xor of the two
branches' keys (or, for strings, the number of leading bits they share)
must shrink. A record whose branches do not shrink it is met in its leaf
role.

This project models two generations of the engine:

- **ceb**, the current generic engine (`ceb/cebtree-prv.h`), on scalar
  keys, with its 64-bit wrapper `ceb/cebu64_tree.c`. It covers
  `_cebu_descend` and, built on it, insert, delete, first, last, next,
  prev, lookup and the four range lookups (le, lt, ge, gt).
- **cba**, the earlier engine: its 32-bit descent, lookup, insert and
  delete (`cb/cbatree_u32.c`), and its string descent `_cbau_descend`
  with insert, first, last, next, prev and lookup (`cb/cbatree-prv.h`).

How the model is built:

- **Records and the tree.** Records are `NodeId`s. The branch pointers are
  one map `b` from (record, side) to record, in the class `Arena.Tree`,
  together with the root pointer and the key of each record. A ghost
  `Shape` (`Leaf(id)` or `Split(id, left, right)`) records which role each
  record plays. `Tree.Valid` ties the pointers to that shape:
  - every split node's branches lead to its two subtrees;
  - a leaf's branches are those of its split node, or loop on itself for
    the nodeless leaf;
  - keys are distinct and clustered by their bit prefixes.
- **Keys.** Keys are `nat` below 2^32 or 2^64, with `Bits.Xor` and the
  split position `Bits.Dist` (one plus the index of the highest
  differing bit).
- **Strings.** A C string shorter than `w` bytes is read as the number
  its bytes spell (`StrKeys.Enc`). `string_equal_bits` and `strcmp` are
  proved faithful to that reading, so a tree of strings is a tree of
  numbers.
- **Descents.** Every descent is an imperative method with the source's
  loop and variables (`pxor`, `brside`, `lparent`, `gparent`, `nparent`,
  `bnode`, `llen`, `rlen`, `xlen`, `plen`, `found`). The string descent
  keeps one `alt` slot: it stands for `alt_r` in next and for `alt_l` in
  prev, the only one of the two each caller asks for. Every descent
  is proved to stop where the role-aware walk `Walks.Walk` stops, and to
  report what that stop means.
- **Operations.** The lemmas about `Walk` give the meaning of each
  operation in terms of the set of stored keys. Each operation promises
  it as a postcondition on `Tree.Contents()` / `Tree.Records()` and on
  the new pointers.

## Model

| member | source | states |
|---|---|---|
| Bits.Steer | ceb/cebtree-prv.h:451-468 | At a split node with branch keys kl != kr, "k xors both branches above their xor" holds exactly when k leaves the node's prefix, and otherwise the side test `(k^l) >= (k^r)` picks the branch whose prefix k shares. |
| Walks.WalkShape | ceb/cebtree-prv.h:384-761 | A walk only extends its path, stays in the tree it started in, and ends on a leaf or, for a keyed walk, on a split node whose prefix excludes k. The anchor it records is a split node on its own path. |
| Walks.WalkFinds | ceb/cebtree-prv.h:842 | A keyed walk for a key stored in the subtree ends on the leaf holding it. |
| Walks.WalkNearest | ceb/cebtree-prv.h:764-768 | A keyed walk stops on a record whose key shares with k at least as long a prefix as any stored key. |
| Walks.WalkExtreme | ceb/cebtree-prv.h:366-376 | Walking always left reaches the leftmost leaf, and always right the rightmost. |
| Walks.WalkStep | ceb/cebtree-prv.h:739-753 | A next (prev) walk restarted at a split node goes right once and then left (left once and then right). It reaches the leftmost leaf of the right branch (the rightmost leaf of the left branch). |
| Walks.WalkCeil | ceb/cebtree-prv.h:746-747 | For an up walk, what it accepts on a leaf is the least candidate key. A mismatch stop below the whole subtree means the least candidate is the subtree's leftmost key. Otherwise the least candidate, if any, is the leftmost key right of the recorded anchor, and there is none when no anchor was recorded. |
| Walks.WalkFloor | ceb/cebtree-prv.h:735-736 | The mirror of WalkCeil for down walks: greatest candidates, rightmost keys, left branches. |
| Walks.Outside | ceb/cebtree-prv.h:465-468 | Outside a split node's prefix, k differs from every key below the node and compares with all of them as it compares with the node's own key. |
| Walks.WalkAnchorBeyond | ceb/cebtree-prv.h:729-755 | Whatever key it was given, the split node a walk anchors on hangs keys beyond k on its other side. |
| CebDescent.Classify | ceb/cebtree-prv.h:397-401 | Entering a record, both its branches are set. It is met as a split node exactly when its branches differ and their xor does not exceed the previous inter-branch xor, and then its branches are its two subtrees. |
| CebDescent.ClassifySplit | ceb/cebtree-prv.h:456-460 | A split node's branches differ, and their xor is no larger than the previous one: the xor > pxor test lets split nodes through. |
| CebDescent.ClassifyLeaf | ceb/cebtree-prv.h:456-460 | A leaf met below its own split node has branches whose xor exceeds the previous one: the xor > pxor test stops there. |
| CebDescent.Follow | ceb/cebtree-prv.h:728-761 | Going down from a split node keeps the loop's copies (window, bnode, pxor, brside) equal to what the walk knows one step further on. A branch that loops back means the walk has stopped on a leaf. |
| CebDescent.Inspect | ceb/cebtree-prv.h:384-511 | The first half of a loop turn stops exactly where the walk stops (nodeless leaf, leaf met through its xor, key mismatch). Otherwise the chosen branch leads to the subtree on k's side, or on the key-less walk's side. |
| CebDescent.Go | ceb/cebtree-prv.h:728-761 | The second half of a loop turn shifts gparent, lparent and lpside, records bnode on the turn the method needs, and either stops on a self-loop or keeps the loop invariant. |
| CebDescent.Begin | ceb/cebtree-prv.h:360-383 | The initial virtual parent, the start side (right for next and last) and pxor = ~0 make up the walk's start. |
| CebDescent.Finish | ceb/cebtree-prv.h:774-952 | Once stopped, the loop's copies give exactly the outcome of the walk's stop. |
| CebDescent.Descend | ceb/cebtree-prv.h:325-952 | `_cebu_descend` on U32/U64 keys returns `CebDescent.Outcome` of the stop of `Walks.Walk`. That outcome is the record returned (key accepted by the method, or any key-less stop), nside = (k >= key of p), lparent/lpside, gparent/gpside, nparent/npside, the slot that led to p, and the restart point `ret_back`. |
| CebTree.KeyedHit | ceb/cebtree-prv.h:842 | A keyed descent stops on a record holding k exactly when k is stored, and then on that record's leaf. |
| CebTree.Restart | ceb/cebtree-prv.h:1047-1050 | The key-less restart from the anchored split node reaches a record of the tree: the first leaf of its right branch for next, the last leaf of its left branch for prev. |
| CebTree.First | ceb/cebtree-prv.h:1002-1010 | Returns None exactly for an empty tree, and otherwise the record holding the least stored key. |
| CebTree.Last | ceb/cebtree-prv.h:1015-1023 | Returns None exactly for an empty tree, and otherwise the record holding the greatest stored key. |
| CebTree.Lookup | ceb/cebtree-prv.h:1084-1095 | Finds a record exactly when k is stored, and that record holds k. |
| CebTree.Next | ceb/cebtree-prv.h:1032-1051 | Finds a record exactly when k is stored and some stored key exceeds it, and that record holds the least such key. |
| CebTree.Prev | ceb/cebtree-prv.h:1060-1079 | Finds a record exactly when k is stored and some stored key is below it, and that record holds the greatest such key. |
| CebTree.CeilAsWrittenSound | ceb/cebtree-prv.h:1156-1205 | The ge/gt lookups as written (`CebTree.CeilAsWritten`, the descent's stop read as the engine reads it) find a record exactly when some stored key passes the test, and the record found passes it. |
| CebTree.FloorAsWrittenSound | ceb/cebtree-prv.h:1101-1150 | The same for the le/lt lookups as written (`CebTree.FloorAsWritten`). |
| CebTree.CeilAsWrittenNotLeast | ceb/cebtree-prv.h:1156-1177 | With records 4 and 6 inserted in that order, lookup_ge(1) as written returns record 6, while 4 is the least key >= 1. |
| CebTree.CeilExampleWalk | ceb/cebtree-prv.h:462-468 | The descent of lookup_ge(1) on that tree stops on the split node after a mismatch, and accepts its key 6. |
| CebTree.FloorAsWrittenNotGreatest | ceb/cebtree-prv.h:1101-1122 | With records 6 and 4 inserted in that order, lookup_le(9) as written returns record 4, while 6 is the greatest key <= 9. |
| CebTree.FloorExampleWalk | ceb/cebtree-prv.h:462-468 | The descent of lookup_le(9) on that tree stops on the split node after a mismatch, and accepts its key 4. |
| CebTree.LookupCeilAsWritten | ceb/cebtree-prv.h:1156-1205 | `_cebu_lookup_ge/gt` as written compute CeilAsWritten on the tree's shape. They return None on an empty tree, find a record exactly when a stored key passes the test, and the record found passes it. |
| CebTree.LookupFloorAsWritten | ceb/cebtree-prv.h:1101-1150 | `_cebu_lookup_le/lt` as written, stated in the same way. |
| CebTree.LookupCeil | ceb/cebtree-prv.h:1156-1205 | ge/gt corrected: find a record exactly when some stored key passes the test, and the record found holds the least such key. |
| CebTree.CeilBelow | ceb/cebtree-prv.h:845-846 | After a mismatch stop on a split node whose keys are all above k, the first leaf below that node holds the least passing key. |
| CebTree.LookupFloor | ceb/cebtree-prv.h:1101-1150 | le/lt corrected: find a record exactly when some stored key passes the test, and the record found holds the greatest such key. |
| CebTree.FloorBelow | ceb/cebtree-prv.h:847-848 | After a mismatch stop on a split node whose keys are all below k, the last leaf below that node holds the greatest passing key. |
| CebUpdate.Store | ceb/cebtree-prv.h:993 | Writing through a pointer location changes the root or exactly one branch, and no branch is cleared. |
| CebUpdate.GraftWf | ceb/cebtree-prv.h:986-993 | Splicing a new key's record above the place where its descent stopped keeps the keys distinct and the prefix clusters ordered. |
| CebUpdate.GraftLinked | ceb/cebtree-prv.h:986-993 | After the splice (node's own side loops on itself, its other side takes the old subtree, the parent slot takes node), every split node's branches again lead to its subtrees. |
| CebUpdate.GraftNodeless | ceb/cebtree-prv.h:986-993 | The splice leaves the nodeless leaf intact: node gets a split node. |
| CebUpdate.Grafted | ceb/cebtree-prv.h:986-993 | The tree after the splice is valid and stores exactly one more key and one more record, and node becomes the root only when the descent stopped at the root. |
| CebUpdate.InsertStop | ceb/cebtree-prv.h:978-980 | The insert descent reports a record of the tree, the slot that holds it, nside = (k >= its key), and a hit exactly when k is stored. |
| CebUpdate.Insert | ceb/cebtree-prv.h:959-997 | An empty tree gets node as a self-looped root. A stored key writes nothing and returns the record holding it. A new key adds node and its key by writing exactly node's two branches and the slot that led to the stop record. The tree stays valid. Every record outside the tree, other than node, keeps its branches. |
| CebDelete.PruneShape | ceb/cebtree-prv.h:1256 | Replacing a leaf's split parent by the leaf's sibling removes exactly that record and its key, and keeps keys ordered. |
| CebDelete.UnlinkOwn | ceb/cebtree-prv.h:1256-1263 | When the deleted record is its leaf's own parent, storing the sibling in the grandparent leaves a valid tree without that record and key. |
| CebDelete.UnlinkNodeless | ceb/cebtree-prv.h:1265-1271 | Deleting the nodeless leaf: after the prune, the parent record loops on itself and becomes the new nodeless leaf, and the tree stays valid. |
| CebDelete.NodelessRead | ceb/cebtree-prv.h:1265 | The deleted record has equal branches after the prune exactly in the nodeless case: both branches are set and equal. |
| CebDelete.SwapRead | ceb/cebtree-prv.h:1277-1278 | When the deleted record is a split node higher up, its branches after the prune lead to the rest of its subtree and to its sibling, and they differ. |
| CebDelete.SwapPlan | ceb/cebtree-prv.h:470-476 | When the deleted record is split above its leaf's parent, the path decomposes around its frame, and the descent's nparent/npside name the slot above that frame. |
| CebDelete.UnlinkSwap | ceb/cebtree-prv.h:1273-1279 | The leaf's parent takes over the deleted record's split node (its two branches, and nparent's branch), which leaves a valid tree without that record and key. |
| CebDelete.DeleteStop | ceb/cebtree-prv.h:1238-1244 | The delete descent finds a record exactly when k is stored, on its leaf, and reports the window (lparent, gparent, nparent) of the path to it. |
| CebDelete.EndWindow | ceb/cebtree-prv.h:1256 | Below a split parent, the window names that parent, the slot above it and the sibling branch `lparent->b[!lpside]`. |
| CebDelete.Unlink | ceb/cebtree-prv.h:1256-1279 | The rewiring of delete removes exactly the found record and its key, keeps the tree valid and clears no branch. Every record outside the tree keeps its branches. |
| CebDelete.HandOver | ceb/cebtree-prv.h:1258-1279 | After the sibling took the parent's place, the nodeless and swap cases leave a valid tree without that record and key. Every record outside the tree keeps its branches. |
| CebDelete.Detach | ceb/cebtree-prv.h:1246-1283 | A lone record empties the tree, and any other is unlinked. The record is then marked with a NULL b[0], and exactly it and its key are gone. Every record outside the tree keeps its branches. |
| CebDelete.Mark | ceb/cebtree-prv.h:1281-1283 | Clearing b[0] of a record no longer in the tree changes nothing else and keeps the tree valid. |
| CebDelete.Delete | ceb/cebtree-prv.h:1207-1287 | A named record with a NULL b[0] gives None. Otherwise the record holding k is found exactly when k is stored. It is removed, with its key, and marked when no record was named or the named one was found. In every other case nothing changes. Every record outside the tree keeps its branches. |
| Cebu64.Insert | ceb/cebu64_tree.c:37-42 | Inserts node under its own key. It returns node with the key added, or the record already holding that key with the tree unchanged. A new key writes exactly node's two branches and the slot that led to the stop record, on the side the key comparison picks; every other record outside the tree keeps its branches. |
| Cebu64.First | ceb/cebu64_tree.c:45-48 | None exactly for an empty tree, otherwise the record holding the least key. |
| Cebu64.Last | ceb/cebu64_tree.c:51-54 | None exactly for an empty tree, otherwise the record holding the greatest key. |
| Cebu64.Lookup | ceb/cebu64_tree.c:59-62 | Finds a record exactly when k is stored, and it holds k. |
| Cebu64.LookupLe | ceb/cebu64_tree.c:67-70 | Returns what the engine's le lookup as written returns (`CebTree.FloorAsWritten` on the tree). It finds a record exactly when some key <= k is stored, and that record's key is <= k. |
| Cebu64.LookupLt | ceb/cebu64_tree.c:75-78 | Returns what the engine's lt lookup as written returns (`CebTree.FloorAsWritten`). It finds a record exactly when some key < k is stored, and that record's key is < k. |
| Cebu64.LookupGe | ceb/cebu64_tree.c:83-86 | Returns what the engine's ge lookup as written returns (`CebTree.CeilAsWritten` on the tree). It finds a record exactly when some key >= k is stored, and that record's key is >= k. |
| Cebu64.LookupGt | ceb/cebu64_tree.c:91-94 | Returns what the engine's gt lookup as written returns (`CebTree.CeilAsWritten`). It finds a record exactly when some key > k is stored, and that record's key is > k. |
| Cebu64.Next | ceb/cebu64_tree.c:101-106 | Finds a record exactly when node's key is stored and a greater one exists, and it holds the least greater key. |
| Cebu64.Prev | ceb/cebu64_tree.c:113-118 | Finds a record exactly when node's key is stored and a smaller one exists, and it holds the greatest smaller key. |
| Cebu64.Delete | ceb/cebu64_tree.c:123-128 | A record of the tree is returned, after it and its key are removed and it is marked with a NULL b[0]. Any record returned is one of the tree holding node's key. When node itself is not returned (not in the tree, or already deleted), the tree is unchanged. A NULL b[0] gives None. Otherwise a record is returned exactly when node's key is stored. Every record outside the tree keeps its branches. |
| Cebu64.Pick | ceb/cebu64_tree.c:133-136 | Finds a record exactly when k is stored, and detaches and marks it. Nothing changes otherwise. Every record outside the tree keeps its branches. |
| CbaU32.WindowDown | cb/cbatree_u32.c:181-198 | Going down shifts gparent/lparent/lpside by one, and nparent is set where the visited split node is node itself. |
| CbaU32.Probe | cb/cbatree_u32.c:135-175 | One loop turn's tests stop exactly where the keyed walk stops (l == r, xor > pxor, mismatch on both sides). Otherwise it goes to the side closer to k. |
| CbaU32.Pass | cb/cbatree_u32.c:181-204 | Going down keeps the loop's window equal to the walk's, and stops exactly on a self-loop. |
| CbaU32.Descend | cb/cbatree_u32.c:98-267 | `cbau_descend_u32` reports the walk's stop. It returns the record holding k if stored, otherwise node for inserts and NULL for lookups, with nside, the slot, and the window found by identity. |
| CbaU32.Reached | cb/cbatree_u32.c:238-265 | What a descent of a valid tree reports: a record of the tree, reached through the reported slot, holding k exactly when k is stored. |
| CbaU32.IdKeyParent | cb/cbatree_u32.c:181-184 | For a record of the tree, the parent found by identity (`node == &p->node`) is the one found by key. |
| CbaU32.Lookup | cb/cbatree_u32.c:301-310 | Finds a record exactly when k is stored, and it holds k. |
| CbaU32.Link | cb/cbatree_u32.c:284-293 | The splice adds exactly node and its key by writing node's two branches and the parent slot, and the tree stays valid. Every record outside the tree, other than node, keeps its branches. |
| CbaU32.Insert | cb/cbatree_u32.c:269-296 | For a record not yet in the tree, it behaves as the ceb insert. An empty tree gets a self-looped root. A stored key returns its holder with nothing written. A new key writes exactly node's two branches and the slot that led to the stop record, on the side the key comparison picks. Every other record outside the tree keeps its branches. |
| CbaU32.ReinsertLoses | cb/cbatree_u32.c:282-293 | With records 1 and 2 inserted, re-inserting record 2 gets node back from the descent, and the splice points both branches of the root at itself: record 1 is no longer reachable. |
| CbaU32.InsertChecked | cb/cbatree_u32.c:269-296 | Insert with the splice also guarded by the record not being in the tree already. For every record it keeps the tree valid, and a re-inserted record is returned unchanged. Every record outside the tree, other than node, keeps its branches. |
| CbaU32.Located | cb/cbatree_u32.c:331-332 | The delete descent finds node exactly when node is a record of the tree, and otherwise the holder of its key, if any. |
| CbaU32.DeleteFrame | cb/cbatree_u32.c:335-374 | Below a split parent, the window names the parent, the grandparent slot, the sibling branch, and nparent as found by key. |
| CbaU32.Delete | cb/cbatree_u32.c:315-378 | A NULL b[0] or an empty tree returns node untouched. A record of the tree is removed with its key (its branches stay set) and returned. For any other record, the holder of its key (if any) is returned and nothing changes. Every record outside the tree keeps its branches. |
| CbaU32.StressRound | tests/stresscba.c:141-155 | One round of the stress test never aborts: a present value is deleted through the record found, and an absent one is inserted with its new record. The set of stored values toggles v. |
| StrKeys.EqualBitsEnc | cb/cbatree-prv.h:223-238 | `string_equal_bits` gives -1 exactly for equal strings, and otherwise the number of leading bits the strings' numbers share. |
| StrKeys.EqualBitsRange | cb/cbatree-prv.h:239 | For different strings the shared length is below 8 w and survives the unsigned cast, and -1 becomes the largest unsigned value. |
| StrKeys.CompareEnc | cb/cbatree-prv.h:452 | `strcmp` from a byte the strings agree below reports equality exactly for equal strings, and a non-negative result exactly when the first string's number is no smaller. |
| StrKeys.FirstDiff | cb/cbatree-prv.h:237-238 | Different C strings first differ at a byte inside one of them. `string_equal_bits` counts the bits before that byte's differing bit, and `strcmp` compares as that byte does. |
| StrKeys.PrefixAgree | cb/cbatree-prv.h:399-408 | Bytes below a length no larger than the shared bits are equal: `strcmp` may start there. |
| CbaString.SteerLen | cb/cbatree-prv.h:237-296 | The unsigned tests on llen, rlen and xlen, with -1 read as infinite, are the mismatch test and the side test on the strings' numbers. |
| CbaString.Nearer | cb/cbatree-prv.h:239 | A key no farther from k, as a number, shares at least as many bits with k as a string. |
| CbaString.ClassifyLen | cb/cbatree-prv.h:210-276 | Entering a record, both branches are set. When they differ, it is a split node exactly when its branches share no fewer bits than the previous ones (the `xlen < plen` leaf test fails). |
| CbaString.ClassifySplitLen | cb/cbatree-prv.h:259-265 | A split node passes the leaf test, and its left key is below its right key. |
| CbaString.ClassifyLeafLen | cb/cbatree-prv.h:259-276 | A leaf met below its split node, with differing branches, fails the leaf test `xlen < plen`. |
| CbaString.Gauge | cb/cbatree-prv.h:237-242 | Against the stored record nearest to k, a record's shared length is negative only when it holds k itself, and otherwise is no longer than the nearest one's. |
| CbaString.Settle | cb/cbatree-prv.h:399-453 | The final `strcmp`, started at byte len / 8 with len at most the bits k shares with p, tells equality and order of the numbers. |
| CbaString.Measured | cb/cbatree-prv.h:235-242 | Measuring k against a record's branches keeps the meaning of llen, rlen and found: found implies k is stored. |
| CbaString.Advance | cb/cbatree-prv.h:330-388 | Going down keeps the slot, the last alternative turn, brside (flipped for next and prev), and plen = xlen in step with the walk. A self-loop means the walk stopped. |
| CbaString.Look | cb/cbatree-prv.h:190-296 | The first half of a loop turn stops exactly where the walk on the strings' numbers stops (l == r, leaf test, mismatch). Otherwise it goes to k's side, or the key-less side. |
| CbaString.Go | cb/cbatree-prv.h:330-388 | The second half of a loop turn keeps the loop invariant, or stops exactly on a self-loop. |
| CbaString.Conclude | cb/cbatree-prv.h:399-462 | The end of the descent returns p when the walk is key-less or p holds k, otherwise node for inserts and NULL for lookups, and nside = (k >= p's string). |
| CbaString.Descend | cb/cbatree-prv.h:125-463 | `_cbau_descend` reports the walk's stop on the strings' numbers: the record returned, nside, the slot that led to p, and the alternative slot. |
| CbaString.Reading | cb/cbatree-prv.h:452 | Reading strings as numbers keeps equality and `strcmp` order. |
| CbaString.Stored | cb/cbatree-prv.h:452 | A string is stored exactly when its number is a key of the tree. |
| CbaString.Successor | cb/cbatree-prv.h:532-538 | The record holding the least key above k's holds the first string after k. |
| CbaString.Predecessor | cb/cbatree-prv.h:555-561 | The record holding the greatest key below k's holds the last string before k. |
| CbaString.Resume | cb/cbatree-prv.h:549-552 | With no alternative turn and k stored, no string lies past k. With one, its slot holds that turn's split node, and the key-less descent from there stops on a string past k, the nearest one when k is stored. |
| CbaString.Lookup | cb/cbatree-prv.h:581-590 | Finds a record exactly when some record holds k, and it holds k. |
| CbaString.First | cb/cbatree-prv.h:509-517 | None exactly for an empty tree, otherwise a record whose string no other string precedes. |
| CbaString.Last | cb/cbatree-prv.h:522-530 | None exactly for an empty tree, otherwise a record whose string no other string follows. |
| CbaString.Next | cb/cbatree-prv.h:539-553 | Any record found holds a string after k. When k is stored, a record is found exactly when some string follows k, and it holds the first such string. |
| CbaString.Prev | cb/cbatree-prv.h:562-576 | Any record found holds a string before k. When k is stored, a record is found exactly when some string precedes k, and it holds the last such string. |
| CbaString.Insert | cb/cbatree-prv.h:470-504 | For a record not yet in the tree: an empty tree gets a self-looped root. A stored string returns its holder with nothing written. A new string writes exactly node's two branches and the slot that led to the stop record, on the side `strcmp` picks, and the tree stays valid. Every other record outside the tree keeps its branches. |

## Left out

- Tracing (`dbg`, `CBADBG`), the dump functions and the `__builtin_prefetch` hints: they produce output or affect only speed.
- The key types of `_cebu_descend` other than U32 and U64 (memory blocks, strings, indirect keys and addresses, ceb/cebtree-prv.h:512-727), and their final comparisons (ceb/cebtree-prv.h:861-938). The ceb descent is modelled on scalar keys, as `cebu64_tree.c` uses it. The string descent is modelled in the cba engine.
- The nparent/`mlen`/`strcmp` block of `_cbau_descend` (cb/cbatree-prv.h:298-327), and its lparent, gparent and npside outputs. None of the string operations modelled asks for them, since the string engine has no delete.
- `string_equal_bits` is not part of this model: it is defined outside the files modelled. `StrKeys.EqualBits` models it from the meaning stated at cb/cbatree-prv.h:223-231.
- C `int` overflow of bit lengths: strings are shorter than a width `w` below 2^28 bytes, so every length fits an `int`.
- Key-less string descents (first, last and the restarts of next and prev) do not read a key. The model passes them the empty string.
- Memory: records are identities, branch pointers are entries of one map, and `container_of` address arithmetic is not modelled. Allocation and `free` in the stress test become a fresh record passed in. `rnd32` becomes the value v passed in.
- CbaU32.Insert: requires node not to be in the tree already. What the code does to a record already in the tree is shown by `CbaU32.ReinsertLoses`.
- CbaString.Insert: requires node not to be in the tree already. It has the same splice guard as `cba_insert_u32`. Re-inserting a record that is also a split node would overwrite both its branches with a self-loop and lose the other records below it, as `CbaU32.ReinsertLoses` shows for 32-bit keys. Re-inserting the nodeless leaf, or the only record, rewrites branches that already loop on it. The string case is left unmodelled.
- Cebu64.LookupLe: returns what the le lookup returns as written, a record whose key is <= k but not always the greatest such key (see Findings). The lookup with the intended result is `CebTree.LookupFloor`.
- Cebu64.LookupLt: returns what the lt lookup returns as written, a record whose key is < k but not always the greatest such key. The lookup with the intended result is `CebTree.LookupFloor`.
- Cebu64.LookupGe: returns what the ge lookup returns as written, a record whose key is >= k but not always the least such key (see Findings). The lookup with the intended result is `CebTree.LookupCeil`.
- Cebu64.LookupGt: returns what the gt lookup returns as written, a record whose key is > k but not always the least such key. The lookup with the intended result is `CebTree.LookupCeil`.
- CbaString.Next: when k is not stored, it states only that the result follows k. The source requires callers to pass the key of a record in the tree.
- CbaString.Prev: when k is not stored, it states only that the result precedes k, for the same reason.

## Findings

| source | as written | input that shows it | evidently intended | confidence | as-written member | corrected member |
|---|---|---|---|---|---|---|
| ceb/cebtree-prv.h:1156-1205 | After a mismatch stop on a split node p, lookup_ge/gt return p whenever p's key passes the test (ceb/cebtree-prv.h:845-846). | Insert 4, then 6 (record 6 becomes the split node above 4 and 6), then call lookup_ge(1): it returns 6. | The least stored key >= 1, which is 4: the first leaf below p. | high; not executed | CebTree.CeilAsWrittenNotLeast | CebTree.LookupCeil |
| ceb/cebtree-prv.h:1101-1150 | After a mismatch stop on a split node p, lookup_le/lt return p whenever p's key passes the test (ceb/cebtree-prv.h:847-848). | Insert 6, then 4 (record 4 becomes the split node), then call lookup_le(9): it returns 4. | The greatest stored key <= 9, which is 6: the last leaf below p. | high; not executed | CebTree.FloorAsWrittenNotGreatest | CebTree.LookupFloor |
| cb/cbatree_u32.c:282-293 | The splice runs whenever the descent returns node, which it also does when node is already the record holding its key. | Insert records 1 and 2, then insert record 2 again: both branches of root 2 point at 2, and record 1 is lost. | Return the existing record and write nothing, as `_cebu_insert` does by splicing only on a miss. | medium; not executed | CbaU32.ReinsertLoses | CbaU32.InsertChecked |
