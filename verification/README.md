# Verified model of tcpdaemon's red-black tree, lists and message codec

This project models, in Dafny, the data structures that tcpdaemon is built on, and proves what they keep and what they promise.

* **The pointer red-black tree** (`src/rbtree.c`, `src/rbtree.h`), modules `Rb*`: rotations, both repair loops, erasing, linking, walking, replacing a node and the augmented hooks. A `Node` has the fields of `struct rb_node`; parent and color are two fields. `RbRoot` has the pointer to the root and, as ghosts, the in-order sequence `Contents` and the shape `tree`.
* **The templates over it** (`src/rbtree_tpl.h`) and the daemon's timeout index (`src/rbtree_ins.c`), modules `RbIndex`, `RbOrder`, `RbRuns`, `RbKeyed`, `RbSession`. A `Node` leads to its `Unit` (the struct it is embedded in) by a constant field; keys live in the unit, so that it is visible that the tree never writes them and that erasing never reads them.
* **The circular lists and the hash lists** (`src/list.c`, `src/list.h`), modules `ListRing`, `ListSplice`, `ListHash`, `ListTable`.
* **The variable-length integer codec and the length-prefixed message** (`test2/IDL_hello_world.dsc.h`, `test2/IDL_hello_world.dsc.c`), modules `Dsc*`.

## How the tree is proved

A node is named by its rank in the in-order sequence. `RbShape` describes memory as a sequence of cells of ranks and says when a tree and a context (a zipper) agree with it. A context covers the ranks outside an interval and the focused subtree those inside, so that separation is arithmetic, and a tree that covers all ranks has exactly the in-order sequence it is numbered by. Recoloring and rotating do not change ranks; linking and erasing move the ranks behind one place by one (`RbRerank`). Three facts follow a focus through a repair: how memory and tree agree (`RbShape`), heights and colors (`RbBalance`), and which nodes keep their children (`RbTrace`). The last one is what the augmented hooks rest on. The methods of `RbTree`, `RbInsert`, `RbEraseColor`, `RbErase` and `RbLink` do to the heap what the pure steps say, one assignment for one assignment of the source; the two halves of a rotation (`SinkLeft` and `RiseLeft`, `SinkRight` and `RiseRight`) and the three parts of the case of `rb_erase` with two children (`Reseat`, `LiftOut`, `TakePlace` in `RbErase.Supplant`) stand in the source's order. `RbReading` says what validity means without heights and without ghosts.

The value `Fits` or `Misfit` stands for a truth value: the verifier then carries a fact as one and does not take it apart.

`hide` in a body only keeps definitions from the verifier that the body does not need.

## Model

| member | source | states |
|---|---|---|
| RbReading.RedBlackReads | src/rbtree.c:89-232 | the definition used by all proofs is the textbook one, both ways: black root, no red node with a red child, as many black nodes on every way to a NULL as on any other |
| RbReading.NodeReads | src/rbtree.h:46-66 | in a valid tree child and parent links agree at every node, only the root has no parent, the root is black and a red node has black children |
| RbReading.ValidHeight | src/rbtree.c:89-152 | a valid tree of n nodes, hence every tree that insertions and erasures reach, has at most 2 log2(n + 1) levels |
| RbShape.RotLLinked | src/rbtree.c:43-64 | the pointers left by a left rotation are those of the rotated tree in the same context; ranks, hence the in-order sequence, stay |
| RbShape.RotRLinked | src/rbtree.c:66-87 | the same for a right rotation |
| RbShape.ShapeWired | src/rbtree.h:46-66 | every node of a tree has links that agree: children point back, the node is a child of its parent, no two links lead to the same node |
| RbTree.RbRoot.LinksAgree | src/rbtree.h:46-66 | a valid tree's links agree at every node |
| RbTree.RbRoot.RotateLeft | src/rbtree.c:43-64 | all fields of all nodes after the rotation, in terms of the fields before |
| RbTree.RbRoot.RotateRight | src/rbtree.c:66-87 | all fields of all nodes after the rotation, in terms of the fields before |
| RbBalance.Grandparent | src/rbtree.c:93-95 | a red parent of a red node has a black parent: `gparent` is never NULL when it is used |
| RbBalance.LiftedLevel | src/rbtree.c:99-109 | with a red uncle the recoloring restores the heights and moves the red pair up by exactly two levels |
| RbBalance.TurnedOutLevel | src/rbtree.c:111-118 | the inner case becomes the outer case at the same depth, with node and parent exchanged |
| RbBalance.SettledLevel | src/rbtree.c:120-122 | the second rotation leaves even heights and no red pair: a pass that rotates is the last |
| RbInsert.InsertLeft | src/rbtree.c:97-122 | one pass, parent on the left: either two levels up with the way down intact, or no red pair is left |
| RbInsert.InsertRight | src/rbtree.c:123-148 | the same, parent on the right |
| RbInsert.InsertColor | src/rbtree.c:89-152 | from a tree that is red-black but for one red leaf below a red parent: a valid red-black tree with the same in-order sequence; all nodes off the way to the new node keep their children, but for the roots of what hangs off |
| RbLink.LinkNode | src/rbtree.c:471-477 | a node stored in an empty slot becomes a red leaf and enters the in-order sequence exactly at the place of that slot; every other node keeps its children but for the slot |
| RbTree.RbRoot.constructor | src/rbtree.h:68 | the empty root is a valid tree without nodes |
| RbIndex.VacantBelow | src/rbtree.h:24-28 | every NULL child slot of a valid tree is an empty place, at the rank right before or right behind its node |
| RbIndex.LinkInto | src/rbtree.h:24-28 | rb_link_node in any empty slot, told by parent and slot alone, then rb_insert_color: a valid tree whose sequence has the node right before or right behind the parent |
| RbIndex.LinkAndColor | src/rbtree.h:24-28 | rb_link_node in any empty slot of a valid tree, then rb_insert_color: a valid tree whose sequence has the node at the place of the slot |
| RbBalance.SiblingExists | src/rbtree.c:159-176 | where one black is missing the sibling exists, and a red sibling has two black children: `other` and the child that becomes `other` are never NULL |
| RbBalance.SibLoweredShort | src/rbtree.c:164-170 | a red sibling: still exactly one black short, one level down, below a red parent and beside a black sibling |
| RbBalance.SibReddenedShort | src/rbtree.c:171-177 | a black sibling without red children: one black short at the parent |
| RbBalance.SibTurnedShort | src/rbtree.c:180-186 | only the inner child of the sibling red: turned into the outer case, still one black short |
| RbBalance.MendedLevel | src/rbtree.c:187-193 | the final rotation supplies the missing black; no red pair and no red root arise |
| RbEraseColor.Kin | src/rbtree.c:161-190 | the pointers and colors that the repair reads around the focus; none that it follows is NULL |
| RbEraseColor.EraseLeft | src/rbtree.c:161-194 | one pass, node on the left: done and even, or one black short again at smaller depth, or at the same depth but red; this is why the loop ends |
| RbEraseColor.EraseRight | src/rbtree.c:195-228 | the same, node on the right |
| RbEraseColor.EraseColor | src/rbtree.c:154-232 | from a tree one black short at `node`: a valid red-black tree with the same in-order sequence; all nodes off one way keep their children |
| RbRerank.SplicedLinked | src/rbtree.c:281-294 | bypassing a node with at most one child leaves the pointers of the tree without it, all ranks behind it one lower |
| RbRerank.SplicedLevel | src/rbtree.c:281-298 | splicing out a red node leaves all even, splicing out a black one leaves its place exactly one black short |
| RbRerank.SupplantedIsSpliced | src/rbtree.c:251-276 | the successor taking the place of the erased node comes, rank by rank, to splicing the successor's own place out, in both cases: successor is the right child or deeper |
| RbRerank.SupplantedUnlinked | src/rbtree.c:251-276 | afterwards no pointer leads to the erased node |
| RbRerank.SplicedTraced | src/rbtree.c:234-298 | all nodes off the way to the spliced place keep their children |
| RbErase.Supplant | src/rbtree.c:251-276 | all fields of all nodes when the successor moves up |
| RbErase.Bypass | src/rbtree.c:281-294 | all fields of all nodes when the only child moves up |
| RbErase.Successor | src/rbtree.c:247-249 | the descent finds the node whose rank follows, with no left child |
| RbErase.Erase | src/rbtree.c:234-299 | erasing any node of any valid tree gives a valid tree whose in-order sequence is the old one with exactly that node removed; which nodes keep their children |
| RbReading.HeightIsLongestWay | src/rbtree_tpl.h:71-82 | the height that the bounds speak of is the length of the longest way down to a NULL |
| RbHeight.Pow2Doubles | src/rbtree_tpl.h:71-82 | the powers that the bounds speak of start at one and double |
| RbHeight.BalancedSize | src/rbtree.c:89-152 | a tree of black height h has at least 2^h - 1 nodes and at most 2h levels, 2h + 1 below a red root |
| RbHeight.HeightBound | src/rbtree.c:154-232 | a red-black tree of n nodes has at most 2 log2(n + 1) levels |
| RbHeight.DescentBound | src/rbtree_tpl.h:71-82 | no descent is longer than that |
| RbWalk.First | src/rbtree.c:372-382 | the first node of the sequence, or NULL; the number of steps is bounded as above |
| RbWalk.Last | src/rbtree.c:384-394 | the last node of the sequence, or NULL; the number of steps is bounded as above |
| RbWalk.Next | src/rbtree.c:396-422 | the node behind in the sequence, NULL at the end and for a node cleared to be its own parent |
| RbWalk.Prev | src/rbtree.c:424-446 | the node before in the sequence, NULL at the start and for a node cleared to be its own parent |
| RbWalk.FollowingPreceding | src/rbtree.c:396-446 | the two walks are inverse to each other |
| RbWalk.TravelVisitsAll | src/rbtree_tpl.h:256-275 | repeated travel meets every node exactly once, in sequence, and stops |
| RbReplace.ReplaceNode | src/rbtree.c:448-469 | shape, colors and all links stay; the sequence has the new node in the victim's place, also at the root |
| RbTrace.TurnedWalked | src/rbtree.c:111-122 | the double rotation of the insertion repair keeps the children of all nodes that rb_augment_path will not reach |
| RbTrace.SettledWalked | src/rbtree.c:120-122 | the single rotation does |
| RbTrace.MendedWalked | src/rbtree.c:187-193 | the last rotation of the erasure repair does |
| RbTrace.TurnedMendedWalked | src/rbtree.c:178-193 | the double rotation of the erasure repair does |
| RbTrace.SibLoweredTraced | src/rbtree.c:164-170 | the rotation around a red sibling does |
| RbSummary.WalkTrack | src/rbtree.c:301-318 | after a repair that keeps children off a way, only summaries on the way and of the roots beside it can be wrong |
| RbSummary.CorrectInserted | src/rbtree.c:320-332 | before anything is recomputed, summaries are right for the children the nodes had before the link |
| RbSummary.CorrectErased | src/rbtree.c:334-367 | the same before and after an erasure, but for the nodes whose children it changes |
| RbSummary.RenewedSib | src/rbtree.c:311-314 | recomputing the sibling makes everything below the parent right, given a right subtree at the node |
| RbAugment.AugmentPath | src/rbtree.c:301-318 | one walk to the root makes every summary in the tree correct |
| RbAugment.AugmentInsert | src/rbtree.c:324-332 | starting at a child of the new node if it has one, the same |
| RbAugment.InsertAugmented | src/rbtree.c:320-332 | link, rb_insert_color, rb_augment_insert: if every summary was correct, every summary is correct |
| RbAugment.DeepestNodeIs | src/rbtree.c:338-357 | the five cases of the choice are one: the child of what is spliced out or, failing that, its parent, in the ranks after the erasure |
| RbAugment.AugmentEraseBegin | src/rbtree.c:338-357 | the node returned is not the erased one, is in the tree, and its rank after the erasure is that of the deepest disturbed node; NULL exactly if there is none |
| RbAugment.AugmentEraseEnd | src/rbtree.c:363-367 | every summary correct afterwards; nothing to do for NULL, when the tree is empty |
| RbAugment.EraseAugmented | src/rbtree.c:334-367 | rb_augment_erase_begin, rb_erase, rb_augment_erase_end: if every summary was correct, every summary is correct, and exactly the node is gone |
| RbIndex.LinkAllowDuplicate | src/rbtree_tpl.h:111-136 | the tree stays valid; in a sorted index the unit goes behind every unit whose key is not greater and before every greater one, said by the units' keys and by the sorted sequence; bounded descent |
| RbIndex.LinkUnique | src/rbtree_tpl.h:63-88 | in an index with unique keys -1 exactly if the key is present, and then nothing at all changes, also when the unit itself is linked already; otherwise the map from keys to units gains exactly this pair; bounded descent |
| RbIndex.Query | src/rbtree_tpl.h:90-109 | the unit that the map has under the key, NULL exactly if it has none; bounded descent |
| RbKeyed.Handle | src/rbtree_tpl.h:63-109 | one link, unlink or query has the effect and the answer that it has on the finite map |
| RbKeyed.RepliesAreLawful | src/rbtree_tpl.h:63-247 | that law of codes and answers, for the finite map of every run |
| RbKeyed.KeptIsHeld | src/rbtree_tpl.h:63-247 | the map of a run has exactly the units that are held, under the keys they were linked with |
| RbKeyed.AdmissibleRuns | src/rbtree_tpl.h:63-247 | which runs are covered, said by requests and replies: only held units are unlinked, and a held unit is linked again under its own key only |
| RbKeyed.Serve | src/rbtree_tpl.h:63-247 | over every run of links, unlinks and queries on an empty index with unique keys: a link is refused exactly if a unit is held under the key, a query finds exactly the unit held under the key, and what is linked in the end is what is held, where a unit is held from the link that returned 0 to its unlink; a unit may be linked again under another key |
| RbIndex.Unlink | src/rbtree_tpl.h:242-247 | exactly the unit leaves the sequence, and its key the map |
| RbIndex.UpdateAllowDuplicate | src/rbtree_tpl.h:249-254 | even if the unit's key was changed while it was linked: if the others are sorted, all are sorted afterwards, the unit behind its equals |
| RbIndex.UpdateUnique | src/rbtree_tpl.h:249-254 | the unit is in the tree afterwards exactly if 0 is returned, -1 exactly if another unit has the key; the others keep their place |
| RbIndex.Travel | src/rbtree_tpl.h:256-275 | NULL leads to the first unit, a unit to the one behind, the last to NULL |
| RbIndex.TravelAll | src/rbtree_tpl.h:256-275 | a travel from NULL to NULL meets exactly the in-order sequence |
| RbIndex.FarewellsAre | src/rbtree_tpl.h:288-302 | the log entry by entry: erasures only without a free function, otherwise erasure and call in turn, the erasure first |
| RbIndex.Destroy | src/rbtree_tpl.h:279-303 | ends with an empty valid tree; the log has, for each node in sequence, its erasure and right behind it, if there is a free function, the one call of it, and nothing else |
| RbIndex.KeyAbsent | src/rbtree_tpl.h:71-82 | where a descent ends without finding the key, no unit of a sorted index has it |
| RbOrder.PlaceIs | src/rbtree_tpl.h:119-130 | the place between the last key not greater and the first greater one is unique |
| RbOrder.OfKeyInserted | src/rbtree_tpl.h:124-129 | a linked entry becomes the last of its key, other keys are not touched |
| RbOrder.OfKeyDropped | src/rbtree_tpl.h:242-247 | an unlinked entry leaves only its own key's entries |
| RbRuns.RunIsStableSort | src/rbtree_ins.c:13-29 | over every run of links, unlinks and queries the sequence is what is linked, sorted by timestamp, ties in the order of linking |
| RbRuns.StableSortIsUnique | src/rbtree_ins.c:13-29 | that describes exactly one sequence |
| RbRuns.TimedOutIs | src/rbtree_ins.c:14-28 | after any run the answer is NULL exactly if no linked session has expired, otherwise the earliest begun and, among ties, the first linked |
| RbOrder.MapInserted | src/rbtree_tpl.h:188-216 | linking a new key adds one pair to the finite map |
| RbOrder.MapDropped | src/rbtree_tpl.h:242-247 | unlinking takes one pair out of it |
| RbOrder.MapIsUnique | src/rbtree_tpl.h:218-240 | a sequence with unique keys stands for one map |
| RbRuns.RunIsHeldInOrder | src/rbtree_ins.c:13-29 | the sequence of every run is exactly what was linked and not unlinked since, by timestamp and then by the order of linking |
| RbRuns.RepliesAreLawful | src/rbtree_ins.c:14-28 | the replies of every run obey the law stated for RbSession.Serve |
| RbRuns.LegalRuns | src/rbtree_ins.c:13-29 | which runs are covered, said by steps only: what is held is not linked, only what is held is unlinked |
| RbSession.GetTimeoutAcceptedSession | src/rbtree_ins.c:14-28 | NULL exactly if no linked session has expired, otherwise an expired one that none precedes |
| RbSession.CloseTimedOut | src/rbtree_ins.c:14-29 | asking and unlinking until the answer is NULL removes exactly the expired sessions, in sequence, and leaves the others in order |
| RbSession.Handle | src/rbtree_ins.c:13-29 | one link, unlink or query on the tree is that step on the sorted sequence |
| RbSession.Serve | src/rbtree_ins.c:13-29 | the tree code, over every run, a session struct linked again under a new timestamp included: the tree is valid; its sequence is what is held, by timestamp and then by the order of linking; the reply to a query is NULL exactly if no session held has expired, otherwise the expired one that comes first in that order |
| ListRing.SeenFrom | src/list.c:33-50 | every entry can serve as the head of its ring |
| ListRing.InitListHead | src/list.c:3-7 | an empty list |
| ListRing.ListAdd | src/list.c:15-36 | the new entry is first, both link directions agree all the way round |
| ListRing.ListAddTail | src/list.c:47-50 | the new entry is last |
| ListRing.ListDel | src/list.c:59-81 | exactly the entry leaves the list, wherever it is |
| ListRing.ListDelInit | src/list.c:108-112 | the same, and the entry is an empty list of its own |
| ListRing.ListReplace | src/list.c:90-96 | the new node takes the old one's place on the ring; an empty head leaves an empty head |
| ListRing.ListReplaceInit | src/list.c:98-102 | the same, and the old node is an empty list |
| ListRing.ListIsLast | src/list.c:141-144 | true exactly of the last entry |
| ListRing.ListEmpty | src/list.c:150-153 | true exactly of the empty list |
| ListRing.ListIsSingular | src/list.c:192-195 | true exactly of lists of one entry |
| ListSplice.ListMove | src/list.c:119-123 | the entry becomes the first of its list, the others keep their order |
| ListSplice.ListMoveAcross | src/list.c:119-123 | the entry leaves one list and becomes the first of another |
| ListSplice.ListMoveTail | src/list.c:130-134 | the entry becomes the last of its list |
| ListSplice.ListMoveTailAcross | src/list.c:130-134 | the entry leaves one list and becomes the last of another |
| ListSplice.ListRotateLeft | src/list.c:178-186 | the first entry becomes the last |
| ListSplice.RotatedStep | src/list.c:178-186 | rotating once more than k times is rotating k + 1 times modulo the length |
| ListSplice.RotatedAt | src/list.c:178-186 | the entry at each place after k rotations |
| ListSplice.RotateBy | src/list.c:178-186 | k left rotations are a rotation by k modulo the length |
| ListSplice.ListCutPosition | src/list.c:197-234 | the prefix through the entry moves to the new list, the rest stays; when nothing is cut, and when the new head is left alone |
| ListSplice.ListSplice | src/list.c:236-259 | the entries of the one list come before those of the other |
| ListSplice.ListSpliceTail | src/list.c:266-270 | the entries of the one list come behind those of the other |
| ListSplice.ListSpliceInit | src/list.c:279-285 | the same as list_splice, and the spliced head is empty |
| ListSplice.ListSpliceTailInit | src/list.c:295-301 | the same as list_splice_tail, and the spliced head is empty |
| ListSplice.CutAndSplice | src/list.c:223-285 | cutting at any entry and splicing back restores the list |
| ListSplice.ForEach | src/list.h:130-131 | the loop visits the entries in order, each once |
| ListSplice.DeleteEach | src/list.h:147-149 | deleting the cursor in the safe loop visits every entry once and empties the list |
| ListHash.Unhook | src/list.c:319-327 | exactly the node leaves its list although the head is not known, and every `pprev` names the slot that holds its node |
| ListHash.HlistDel | src/list.c:329-334 | the same, the node's own fields poisoned; of a fake node too, where only the node it leads to, if any, changes |
| ListHash.HlistDelInit | src/list.c:336-342 | the same, the node's own fields cleared; nothing happens to an unhashed node |
| ListHash.HlistAddHead | src/list.c:344-352 | the node is first |
| ListHash.HlistAddBefore | src/list.c:355-361 | the node comes right before the other |
| ListHash.HlistAddBehind | src/list.c:363-371 | the node comes right behind the other |
| ListHash.HlistMoveList | src/list.c:397-403 | all nodes are on the other head, the first one's `pprev` with them, exactly if the heads differ or there are no nodes: moved to its own head, a list of one or more nodes is lost; the old head is empty in any case |
| ListHash.HlistIsSingularNode | src/list.c:388-391 | true exactly if the node is alone on the list of that head |
| ListHash.FakeAndDelete | src/list.c:373-377 | initialised, made fake and deleted: works, and leaves every list alone |
| ListHash.HlistFake | src/list.c:379-382 | never true of a node on a list |
| ListHash.HlistEmpty | src/list.c:314-317 | true exactly of the empty list |
| ListTable.ApplyMeans | src/list.c:329-403 | what each operation means for the sequences, place by place |
| ListTable.AfterLaws | src/list.c:329-403 | nothing changes without operations, and the last operation of a run acts on what the others left; a run is legal if each operation is, where it comes |
| ListTable.Step | src/list.c:329-403 | one operation on one of many lists, on the heap: where the node comes to lie or what is left without it, how its own fields are left, and that all other lists stay as they are |
| ListTable.Run | src/list.c:329-403 | over every legal run every `pprev` names the one slot that holds its node and every list is that of the run on sequences |
| DscBytes.HtonllStored | test2/IDL_hello_world.dsc.h:94-95 | __HTONLL puts the big-endian bytes into memory on hosts of either byte order |
| DscBytes.NtohllFetched | test2/IDL_hello_world.dsc.h:96 | __NTOHLL reads big-endian bytes on hosts of either byte order |
| DscCodec.EncodedBytes | test2/IDL_hello_world.dsc.h:109-151 | every byte of a code, said by arithmetic on the number |
| DscCodec.SignedSays | test2/IDL_hello_world.dsc.h:153-168 | the integer that any header and payload say, the wrap-around of both conversions included |
| DscBytes.BigAt | test2/IDL_hello_world.dsc.h:126-149 | each big-endian byte of a number is its digit to base 256 |
| DscCodec.SignedRoundTrip | test2/IDL_hello_world.dsc.h:109-168 | decoding an encoded signed integer gives it back, including the least one, whose negation wraps |
| DscCodec.UnsignedRoundTrip | test2/IDL_hello_world.dsc.h:170-213 | the same for unsigned integers |
| DscCodec.MagnitudeIs | test2/IDL_hello_world.dsc.h:115-125 | the magnitude taken by the encoder is the absolute value, also of the least integer |
| DscCodec.DecodedTwice | test2/IDL_hello_world.dsc.h:153-168 | since the decoder clears the sign in the buffer, decoding again gives the same exactly for what is not negative and for the least integer |
| DscMacros.Size4 | test2/IDL_hello_world.dsc.h:126-149 | the chain of masks finds the least number of bytes |
| DscMacros.Size8 | test2/IDL_hello_world.dsc.h:234-281 | the chain of masks finds the least number of bytes |
| DscMacros.CompressInt4 | test2/IDL_hello_world.dsc.h:109-151 | header byte 0x10 for a negative number, 0 otherwise, plus the length; then the bytes of the magnitude, highest first, as few as possible, on either host; no other byte of the buffer changes |
| DscMacros.CompressUint4 | test2/IDL_hello_world.dsc.h:170-202 | header byte is the length; then the bytes of the number, highest first, as few as possible, on either host; no other byte changes |
| DscMacros.CompressInt8 | test2/IDL_hello_world.dsc.h:215-283 | the same as COMPRESS_INT4 for eight bytes |
| DscMacros.CompressUint8 | test2/IDL_hello_world.dsc.h:302-359 | the same as COMPRESS_UINT4 for eight bytes |
| DscMacros.UncompressInt4 | test2/IDL_hello_world.dsc.h:153-168 | the payload as a 32-bit two's-complement number, negated with wrap-around if bit 4 of the header is set, on either host; only the header byte changes, it loses its high half |
| DscMacros.UncompressUint4 | test2/IDL_hello_world.dsc.h:204-213 | the same without a sign |
| DscMacros.UncompressInt8 | test2/IDL_hello_world.dsc.h:285-300 | the same as UNCOMPRESS_INT4 for eight bytes |
| DscMacros.UncompressUint8 | test2/IDL_hello_world.dsc.h:361-370 | the same without a sign |
| DscStream.MinimalLength | test2/IDL_hello_world.dsc.h:109-370 | no byte sequence with the same value is shorter than the encoded magnitude |
| DscStream.CodeBytes | test2/IDL_hello_world.dsc.h:109-370 | every byte of the code of each of the four types, and what is left of it after decoding |
| DscStream.CodeSays | test2/IDL_hello_world.dsc.h:109-370 | each of the four types decodes what its encoder has written |
| DscStream.CompressAll | test2/IDL_hello_world.dsc.h:109-370 | encoders called one after the other write the concatenation of the codes and count its bytes |
| DscStream.UncompressAll | test2/IDL_hello_world.dsc.h:109-370 | decoders called once with the matching types give the same integers, on a host of the same or the other byte order, and consume exactly the bytes written |
| DscHello.PackedBytes | test2/IDL_hello_world.dsc.c:36-38 | the same of the packed text on its own |
| DscHello.Serialize | test2/IDL_hello_world.dsc.c:28-45 | the bytes written: 1 and the length for texts up to 255 characters, 2, 1, 0 for 256, then the text; no byte behind them changes |
| DscHello.Deserialize | test2/IDL_hello_world.dsc.c:47-64 | the message's front is what the length code says; the rest of the message stays |
| DscHello.RoundTrip | test2/IDL_hello_world.dsc.c:6-64 | a text of up to 256 characters, serialized into any buffer that its code fits and deserialized into an initialised struct, is restored; exactly the bytes of its code are written and consumed |
| DscHello.BufferSize | test2/IDL_hello_world.dsc.h:408-418 | the announced buffer size is enough exactly for texts shorter than the longest |

## Left out

- Sockets, processes, threads, epoll, the server models and the test programs: I/O and process plumbing.
- The packing of parent and color into one word (src/rbtree.h:61-66): the model has two fields, as for nodes aligned to four bytes.
- `container_of` and `rb_entry`: a constant field leads from a node to its unit.
- The string, pointer and callback variants of the link and query templates: they differ from the integer variant in the comparison only, and the order of the integer keys is used as a strict total order and in no other way.
- The width of timestamps: begin timestamp plus timeout is a mathematical integer; the daemon's `int` sum must not overflow.
- The event worker around `RbSession.CloseTimedOut` (src/tcpdaemon_lib.c, lines 423 to 435): what it does to a session besides unlinking it, and that it skips the loop when no timeout is configured.
- What a free function given to DESTROY_RBTREE does to the memory: the model records that and when it is called, with which node.
- What the summary callback computes: it is any function of the node and its children's summaries, called with the node; a summary that was never computed is absent.
- Poison addresses of deleted list entries: `next` and `prev` become NULL in the model, `pprev` a value of its own; deleted entries are outside every list.
- `list_empty_careful`, READ_ONCE and WRITE_ONCE: single-threaded plain reads and writes.
- The entry variants of the traversal macros and the reverse traversals: ForEach and DeleteEach stand for them.
- Floating-point COMPRESS macros, which refer to an undeclared variable, the NATO macros and the log printer.
- Decoding of malformed messages: the source has no checks; the model requires what its memory accesses require.
