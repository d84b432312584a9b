# Verified models of the server's C data structures

This project models six self-contained C components that the game server is built on, and proves what they promise.

- **Red-black tree** (`Rb*.dfy`, from `libuv/tree.h`). Nodes are heap objects with left, right and parent links and a
  colour; the operations write those fields as the macros do. A ghost tree on the head says what the links form.
- **Splay tree** (`Splay*.dfy`, from the same header). Top-down splaying through a dummy node's two side trees.
- **Hash table** (`Uthash*.dfy`, from `uthash.h`). Chained buckets with adaptive doubling, threaded with an
  application-order list that is sorted in place. Handles are numbered and each handle field is a dictionary of the table.
- **MD5** (`Md5*.dfy`, from `md5.c`). The streaming digest with its unrolled rounds, against RFC 1321 sections 3.1 to 3.5,
  and against three answers of its section A.5. The width of `MD5_u32plus` is a parameter of the context, from 32 to 64 bits.
- **lpack** (`Lpack*.dfy`, from `lpack.c`). The format-driven packer and unpacker, their round trip, and what each code means
  in bytes.
- **skip_trailing_space** (`SkipSpace.dfy`, from `libmysql/m_string.h`). Both word-at-a-time variants.

`Numbers.dfy` holds bytes, powers of two and remainders. `KeyOrder.dfy` holds what both trees need of a comparison
function: it orders the nodes, possibly with ties, and the signs of its results agree. Each operation is a method that
follows the source's control flow; its contract ties the new state to the old one, and the lemmas beside it carry the
invariants. `dafny verify dfyconfig.toml` checks everything.

Conventions. `x & (n - 1)` and `>>` on the hash table's unsigned counters are written out on natural numbers and proved
to be remainder and quotient. MD5 words are bit vectors; its two counters are natural numbers with the reductions written
out, and a word of less than 64 bits is masked after each assignment. Inside some predicates a quantifier carries a
trigger of its own, which keeps a definition closed until a proof mentions it.

Where code and comments disagree, the model follows the code. The comment on `expand_mult` says that a bucket expands
when its chain exceeds the threshold; the code expands when the chain reaches it (`UthashTable.Table.AddToBucket`).

## Model

| member | source | states |
|---|---|---|
| `RbRemove.Remove` | GameServer/GameServer/libuv/tree.h:530-595 | Deletion: exactly the given node leaves the tree; search order, agreement of every parent and child link, a black root, no red node under a red one and equal black counts all hold again, and every other node keeps its identity. |
| `RbRemove.RemoveColor` | GameServer/GameServer/libuv/tree.h:451-528 | The fix-up after a black node has gone ends with a red-black tree of the same nodes in the same order, from any state in which one subtree is short of one black; no sibling it reads is null. |
| `RbRemove.RefillLeft` | GameServer/GameServer/libuv/tree.h:458-490 | One turn of the fix-up on the left side: the shortage is repaired or moves up. |
| `RbRemove.RefillRight` | GameServer/GameServer/libuv/tree.h:491-524 | The mirror turn on the right side. |
| `RbRemove.FillLeft` | GameServer/GameServer/libuv/tree.h:465-490 | What is left of a turn on the left side once the sibling is black: two black nephews, an inner red one or an outer red one. |
| `RbRemove.FillRight` | GameServer/GameServer/libuv/tree.h:498-523 | The mirror. |
| `RbShape.StarvedSibling` | GameServer/GameServer/libuv/tree.h:459-460 | A subtree that is short of a black always has a sibling node, so the fix-up may read it without a null check. |
| `RbShape.StarvedRedSibling` | GameServer/GameServer/libuv/tree.h:460-464 | After a red sibling has been rotated away, the short subtree has a red parent and a black sibling. |
| `RbShape.StarvedNear` | GameServer/GameServer/libuv/tree.h:473-482 | With a black outer and a red inner nephew, one rotation brings the red nephew outside. |
| `RbShape.StarvedFar` | GameServer/GameServer/libuv/tree.h:483-490 | With a red outer nephew, one rotation and two repaintings give the tree its black counts back. |
| `RbShape.StarvedUp` | GameServer/GameServer/libuv/tree.h:465-471 | With two black nephews the sibling turns red and the parent is the one short of a black. |
| `RbRemove.Exchange` | GameServer/GameServer/libuv/tree.h:539-577 | A node with two children is replaced by its successor: the successor takes over the links and the colour, and what then hangs below is short of at most the black that left. |
| `RbRemove.Supplant` | GameServer/GameServer/libuv/tree.h:539-577 | The successor leaves its own place and takes that of the removed node, also when it hangs directly below it. |
| `RbRemove.Splice` | GameServer/GameServer/libuv/tree.h:579-590 | A node with at most one child is bypassed. |
| `RbRemove.Detach` | GameServer/GameServer/libuv/tree.h:534-592 | Before any fix-up: the node is out, the order of the others is kept, and the colour says whether a black is missing. |
| `RbInsert.Insert` | GameServer/GameServer/libuv/tree.h:597-626 | Insertion adds exactly one node in its place, or returns the equal node and leaves every cell as it was; an element that is already in the tree counts as equal to itself. All red-black and link invariants are restored. |
| `RbInsert.NotLinked` | GameServer/GameServer/libuv/tree.h:603-615 | An element that differs from every node of the tree is not in it, so only a new element is ever hung. |
| `RbInsert.InsertColor` | GameServer/GameServer/libuv/tree.h:406-449 | The fix-up turns a tree whose only fault is a red node under a red parent into a red-black tree of the same nodes in the same order; it ends because the depth of the current node shrinks. |
| `RbInsert.ClimbLeft` | GameServer/GameServer/libuv/tree.h:414-429 | One turn with the parent on the left: the red pair is resolved or moves two levels up. |
| `RbInsert.ClimbRight` | GameServer/GameServer/libuv/tree.h:430-446 | The mirror turn. |
| `RbShape.Grandparent` | GameServer/GameServer/libuv/tree.h:411-413 | A red parent is never the root, so the grandparent that the fix-up reads exists; and it is black. |
| `RbShape.ClimbPast` | GameServer/GameServer/libuv/tree.h:416-420 | With a red uncle, parent and uncle turn black and the grandparent red, and the one possible fault moves up to the grandparent. |
| `RbShape.ClimbEnds` | GameServer/GameServer/libuv/tree.h:428-429 | With a black uncle and the red node on the outer side, repainting and one rotation remove the fault. |
| `RbShape.ClimbInward` | GameServer/GameServer/libuv/tree.h:422-427 | With the red node on the inner side, a rotation of the parent first brings it outside. |
| `RbInsert.Grown` | GameServer/GameServer/libuv/tree.h:601-622 | Hanging the new node at the place the search found puts it into the sorted order, and no node equal to it was there. |
| `RbHead.Head.RotateLeft` | GameServer/GameServer/libuv/tree.h:342-360 | A left rotation relinks three nodes, keeps parent links and order, and works at the root as well. |
| `RbHead.Head.RotateRight` | GameServer/GameServer/libuv/tree.h:362-380 | The mirror rotation. |
| `RbLinks.RotatedLeft` | GameServer/GameServer/libuv/tree.h:342-360 | What the six link writes of a left rotation make of a linked tree, inside any surrounding tree. |
| `RbLinks.RotatedRight` | GameServer/GameServer/libuv/tree.h:362-380 | The mirror. |
| `RbLinks.Substituted` | GameServer/GameServer/libuv/tree.h:559-570 | Copying a node's link field into another and redirecting its neighbours puts that node in its place. |
| `RbWalk.Find` | GameServer/GameServer/libuv/tree.h:628-644 | Search finds an equal node exactly when there is one. |
| `RbWalk.NFind` | GameServer/GameServer/libuv/tree.h:646-665 | The result is the first node, in order, that is not below the key, or null when all are. |
| `RbTraverse.Next` | GameServer/GameServer/libuv/tree.h:667-687 | The in-order successor, or null after the last node. |
| `RbTraverse.Prev` | GameServer/GameServer/libuv/tree.h:689-709 | The in-order predecessor, or null before the first node. |
| `RbTraverse.MinMax` | GameServer/GameServer/libuv/tree.h:711-724 | The first or the last node in order. |
| `RbTraverse.ForeachSafe` | GameServer/GameServer/libuv/tree.h:748-751 | A traversal whose body removes any nodes it likes, each while it is the current one, still visits every node once in order, and the tree keeps just the others. |
| `RbHeight.BalancedPaths` | GameServer/GameServer/libuv/tree.h:53-61 | The invariant means that no red node has a red child and that every path down to a missing child passes the same number of black nodes. |
| `RbHeight.PathsBalanced` | GameServer/GameServer/libuv/tree.h:53-61 | And conversely. |
| `RbHeight.HeightBound` | GameServer/GameServer/libuv/tree.h:53-61 | The height h of a red-black tree of n nodes satisfies 2^h <= (n + 1)^2, the bound 2 lg (n + 1) of the comment. |
| `SplayTree.Splay` | GameServer/GameServer/libuv/tree.h:209-242 | Top-down splaying keeps the order and the nodes, reads no null root, and brings to the root the equal node if there is one, otherwise the immediate predecessor or successor of the key. |
| `SplayTree.TopDown` | GameServer/GameServer/libuv/tree.h:209-242 | The loop through the dummy node's two side trees; it ends because the middle tree shrinks. |
| `SplayTree.StepLeft` | GameServer/GameServer/libuv/tree.h:217-227 | One turn to the left: rotation when two steps go the same way, then the root joins the right side tree. |
| `SplayTree.StepRight` | GameServer/GameServer/libuv/tree.h:228-239 | The mirror turn. |
| `SplayTree.Assemble` | GameServer/GameServer/libuv/tree.h:112-117 | The side trees and the middle tree become one tree. |
| `SplayTree.AssembledOrder` | GameServer/GameServer/libuv/tree.h:112-117 | Its order is left side, middle, right side. |
| `SplayTree.Stopped` | GameServer/GameServer/libuv/tree.h:217-233 | When the loop stops, the root is nearest to the key in the whole order. |
| `SplayLinks.SplitJoined` | GameServer/GameServer/libuv/tree.h:112-117 | The four link writes of the assembly join the three linked pieces. |
| `SplayOps.Find` | GameServer/GameServer/libuv/tree.h:127-137 | After a search the order is unchanged and the result says whether the key is there. |
| `SplayOps.Insert` | GameServer/GameServer/libuv/tree.h:164-186 | Insertion refines insertion into a sorted sequence, or returns the equal node; an element that is already in the tree is found equal to itself and stays in its place. |
| `SplayOps.EnterBeside` | GameServer/GameServer/libuv/tree.h:170-184 | With its neighbour at the root, the new element becomes the root and the neighbour goes to the side on which it belongs. |
| `SplayOps.Remove` | GameServer/GameServer/libuv/tree.h:188-207 | Removal refines deletion from a sorted sequence: the equal node leaves, all others stay. |
| `SplayOps.RemoveRoot` | GameServer/GameServer/libuv/tree.h:193-202 | Taking out the root joins its two subtrees. |
| `SplayOps.LiftLargest` | GameServer/GameServer/libuv/tree.h:197-200 | Splaying the left subtree for a key above all of it leaves a root with no right child, so hanging the right subtree there loses nothing. |
| `SplayOps.LargestUp` | GameServer/GameServer/libuv/tree.h:197-200 | Why that root has no right child. |
| `SplayOps.MinMax` | GameServer/GameServer/libuv/tree.h:153-158 | The first or last node in order is brought to the root and returned. |
| `SplayOps.MinMaxDown` | GameServer/GameServer/libuv/tree.h:244-278 | Splaying towards one end keeps the order and empties that side. |
| `SplayWalk.Next` | GameServer/GameServer/libuv/tree.h:139-151 | The in-order successor, found after splaying. |
| `SplayWalk.Foreach` | GameServer/GameServer/libuv/tree.h:292-295 | The traversal visits every node once, in order. |
| `UthashTable.Table.Add` | GameServer/GameServer/uthash.h:173-196 | The element joins the end of the application order and the map gains its key; integrity and the chain bound are kept. A first element starts a new table of 32 buckets; otherwise the buckets double exactly when the new element fills its bucket to the threshold and expansion is not inhibited, and the bucket side that results is the one the items call for. |
| `UthashTable.Table.LoadAdded` | GameServer/GameServer/uthash.h:612-623 | A bucket reaches its threshold just when that many items, the new one among them, have hash values that select it. |
| `UthashTable.Table.GrownRecords` | GameServer/GameServer/uthash.h:667-713 | After a doubling the multipliers, the ideal length, the nonideal count and the inhibition are those computed from the items' hash values alone. |
| `UthashTable.Table.Find` | GameServer/GameServer/uthash.h:94-105 | Lookup agrees with the map that the table stands for: an element comes back exactly when its key is present. |
| `UthashTable.Table.FindInBucket` | GameServer/GameServer/uthash.h:598-609 | The scan of one chain. |
| `UthashTable.Table.Delete` | GameServer/GameServer/uthash.h:215-248 | Just the given element leaves the order and the map; the last one takes the table with it; the bucket count and the inhibition do not change. |
| `UthashTable.Table.DelInBucket` | GameServer/GameServer/uthash.h:626-636 | The patch of a chain around a handle, at the head, in the middle and at the end. |
| `UthashTable.Table.Replace` | GameServer/GameServer/uthash.h:163-171 | The element with the same key, if any, which may be the given one itself, is removed and returned; the given one goes to the end. The bucket side becomes the one that the items call for after a deletion and an addition, and only a table that loses its one element is started afresh. |
| `UthashTable.Table.AddToBucket` | GameServer/GameServer/uthash.h:612-623 | The handle goes to the front of its chain; the buckets double exactly when the chain reaches its threshold and expansion is not inhibited; afterwards every chain is within its threshold again. |
| `UthashTable.Table.Expand` | GameServer/GameServer/uthash.h:667-713 | The buckets double without losing an item; the ideal length is the ceiling of items over new buckets; the nonideal count and every multiplier are those of the final chains; the ineffective-doubling history and the inhibition flag advance together. |
| `UthashTable.Table.MoveChain` | GameServer/GameServer/uthash.h:684-700 | The inner loop follows a chain whose handles it relinks. |
| `UthashTable.Table.MakeTable` | GameServer/GameServer/uthash.h:141-158 | A fresh table is empty, within bounds and not inhibited. |
| `UthashTable.Table.ChainBound` | GameServer/GameServer/uthash.h:881-898 | In every valid state, unless expansion is inhibited: at most 19 items for each bucket, multipliers that sum to at most the bucket count, and each chain at most 10 * (expand_mult + 1) long. |
| `UthashTable.Table.Fsck` | GameServer/GameServer/uthash.h:278-328 | The integrity check, carried out on any valid table, finds nothing wrong. |
| `UthashBound.ExpandedFit` | GameServer/GameServer/uthash.h:644-647 | The counting argument: from at most 19 m + 1 items in m old buckets, every new chain is within its threshold, and the multipliers together with the buckets left just at the threshold of 10 number at most the new buckets. |
| `UthashBound.FewItems` | GameServer/GameServer/uthash.h:619-622 | Thresholds and multipliers within bounds mean at most 19 items for each bucket. |
| `UthashBound.SharesUnder` | GameServer/GameServer/uthash.h:689-693 | The ideal length times the sum of the multipliers, and of one for each bucket left just at the threshold, is at most the number of items. |
| `UthashBound.IdealAtMostTen` | GameServer/GameServer/uthash.h:678-680 | The ideal length after a doubling from at most 19 m + 1 items in m buckets lies between 1 and 10. |
| `UthashBound.TallyMore` | GameServer/GameServer/uthash.h:689-693 | Counting item by item keeps the nonideal total and the multiplier of each bucket exact. |
| `UthashBits.MaskIsRemainder` | GameServer/GameServer/uthash.h:198-201 | Masking with a power of two less one is the remainder. |
| `UthashBits.ShiftAndMask` | GameServer/GameServer/uthash.h:656-663 | The shift-and-mask formula is the ceiling of n / b. |
| `UthashChains.SpreadPlaced` | GameServer/GameServer/uthash.h:682-701 | Pushing items one by one onto the chains their hash values select misplaces and loses none. |
| `UthashChains.SplitInTwo` | GameServer/GameServer/uthash.h:687 | An item of bucket i moves to bucket i or to bucket i plus the old bucket count. |
| `UthashExpand.DoubledBy` | GameServer/GameServer/uthash.h:682-701 | Each old bucket's items are exactly those of the two new buckets. |
| `UthashExpand.InhibitedMore` | GameServer/GameServer/uthash.h:706-711 | Expansion is inhibited exactly when two successive doublings each left more than half the items beyond the ideal position. |
| `UthashExpand.LoadIs` | GameServer/GameServer/uthash.h:612-623 | A chain that holds just the items of a bucket, each once, is as long as the number of items whose hash values select it. |
| `UthashList.Appended` | GameServer/GameServer/uthash.h:184-187 | Writing the tail's next link and the new element's prev link extends the list. |
| `UthashList.Unlinked` | GameServer/GameServer/uthash.h:224-241 | Joining the two neighbours takes the element out. |
| `UthashRuns.PerformAll` | GameServer/GameServer/uthash.h:94-248 | Every permitted run of additions, deletions, replacements, lookups and sorts from an empty table ends in the order and with the keys that a plain sequence model gives, and the lookups and replacements return what it gives; bucket count, multipliers, records of the last doubling, inhibition and history are, after every single operation, those that the model computes from the items alone. |
| `UthashRuns.InhibitedExactly` | GameServer/GameServer/uthash.h:706-711 | Whenever a table stands in a run, it began at some operation of that run, and its expansion is inhibited exactly when two successive growths of its bucket array since then each left more than half the items beyond the ideal position. |
| `UthashRuns.GrowthOf` | GameServer/GameServer/uthash.h:667-711 | A growth doubles the number of buckets and adds to the history whether more than half the items stand beyond the ideal position of the new buckets. |
| `UthashRuns.StaysInhibited` | GameServer/GameServer/uthash.h:619-622 | Once inhibited, a table keeps its number of buckets, its multipliers and the inhibition for as long as it stands. |
| `UthashRuns.KeptBut` | GameServer/GameServer/uthash.h:215-248 | Removing one of distinct items is what filtering it out of the plain sequence gives. |
| `UthashSort.Sort` | GameServer/GameServer/uthash.h:720-805 | The order list becomes a sorted, stable rearrangement of itself, with all links, head and tail consistent and chains untouched; it ends because the run width doubles. |
| `UthashSort.Pass` | GameServer/GameServer/uthash.h:730-801 | One pass relinks the list into merged pairs of runs and counts the merges. |
| `UthashSort.MergeRuns` | GameServer/GameServer/uthash.h:745-790 | Two neighbouring runs are merged in place, the earlier one first on ties. |
| `UthashSort.Advance` | GameServer/GameServer/uthash.h:736-744 | Counting off a run stops at the run width or at the end of the list. |
| `UthashMerge.MergesortSorts` | GameServer/GameServer/uthash.h:720-805 | What the passes compute is sorted, holds the same elements and keeps tied elements in their old order. |
| `UthashMerge.StablySortedMeans` | GameServer/GameServer/uthash.h:761-771 | In plain comparisons: no element compares above a later one, and of two that compare equal the one that was ahead still is. |
| `UthashMerge.PassRuns` | GameServer/GameServer/uthash.h:729-802 | A pass over sorted runs leaves sorted runs of twice the width. |
| `UthashMerge.PassTies` | GameServer/GameServer/uthash.h:761-771 | A pass keeps the order of the elements that tie with any given one. |
| `UthashMerge.MergeTies` | GameServer/GameServer/uthash.h:761-771 | So does a single merge. |
| `Md5.DigestOfChunks` | GameServer/GameServer/md5.c:199-293 | MD5_Init, MD5_Update on any list of chunks and MD5_Final give the RFC 1321 digest of the concatenation, on words of any width from 32 to 64 bits: registers, kept block words and both counters wrap at that width, as the header comment promises for any type of 32 bits or more. |
| `Md5Known.EmptyDigest` | GameServer/GameServer/md5.c:92-293 | The digest of the empty message is d41d8cd98f00b204e9800998ecf8427e, as in section A.5 of RFC 1321; followed step by step. |
| `Md5Known.AbcDigest` | GameServer/GameServer/md5.c:92-293 | The digest of "abc" is 900150983cd24fb0d6963f7d28e17f72, as in the same section. |
| `Md5Known.AlphabetDigest` | GameServer/GameServer/md5.c:92-293 | The digest of the 62 letters and digits is d174ab98d277d9f5a5611c2c9f419d9f, as in the same section; it takes two blocks. |
| `Md5.Context.Update` | GameServer/GameServer/md5.c:210-242 | The bytes taken in grow by the new data, however they are cut up: chain, counters and buffer remain those of the whole message. |
| `Md5.Context.Final` | GameServer/GameServer/md5.c:244-293 | The result is the digest of the message taken in, with one or two padding blocks, and the context is cleared. |
| `Md5.Context.Mark` | GameServer/GameServer/md5.c:248-259 | The end mark and, when fewer than 8 bytes are free, an extra block; the rest of the padding fits the last block. |
| `Md5.Context.Close` | GameServer/GameServer/md5.c:261-271 | Zeros and the length in bits fill the last block. |
| `Md5.Context.Count` | GameServer/GameServer/md5.c:215-218 | The split counter advances by the number of bytes, carrying exactly when the low part wraps, at any width. |
| `Md5.CountedTogether` | GameServer/GameServer/md5.c:215-218 | The two counters together are the byte count modulo 2^29 times the range of the word. |
| `Md5.Context.Body` | GameServer/GameServer/md5.c:92-197 | Several blocks are folded in one after another. |
| `Md5.SameMessage` | GameServer/GameServer/md5.c:210-242 | Two contexts that have taken in the same message, in whatever chunks and with words of whatever widths, agree on chain value and waiting bytes; 2^29 * hi + lo is the byte count modulo 2^29 times the range of the word. |
| `Md5.SameWords` | GameServer/GameServer/md5.c:210-242 | On 32-bit words they agree on every word of the chain and on both counters. |
| `Md5.PaddedOne` | GameServer/GameServer/md5.c:250-271 | When at most 55 bytes wait, the padding of RFC 1321 fits their block. |
| `Md5.PaddedTwo` | GameServer/GameServer/md5.c:254-271 | Otherwise it takes one more block, zero up to the length. |
| `Md5Bytes.PaddingIs` | GameServer/GameServer/md5.c:248-271 | The padding byte by byte: 0x80 after the message, zeros up to the last eight bytes, and in these, lowest first, the length in bits modulo 2^64; the total is the next multiple of 64 bytes. |
| `Md5.SplitCounter` | GameServer/GameServer/md5.c:263-271 | The bytes of the two counters are the low 64 bits of the length in bits. |
| `Md5.WiderField` | GameServer/GameServer/md5.c:267-271 | The bits that a wider counter has above 32 do not reach the padding. |
| `Md5.Block` | GameServer/GameServer/md5.c:105-187 | One turn of the loop, on wider words, is the RFC 1321 compression of one block in the low 32 bits, and its results fit the word again. |
| `Md5Bytes.WordValue` | GameServer/GameServer/md5.c:78-83 | Four bytes make a word, the first of them being the lowest digit to the base 256. |
| `Md5Bytes.WordBytesValue` | GameServer/GameServer/md5.c:275-290 | The four bytes put out for a word are its digits to the base 256, the lowest first. |
| `Md5Rounds.Round1` | GameServer/GameServer/md5.c:111-127 | The first round reads and keeps the block words and carries out steps 1 to 16 of the table in the low 32 bits of the words. |
| `Md5Rounds.Round2` | GameServer/GameServer/md5.c:129-145 | Steps 17 to 32 on the kept words. |
| `Md5Rounds.Round3` | GameServer/GameServer/md5.c:147-163 | Steps 33 to 48. |
| `Md5Rounds.Round4` | GameServer/GameServer/md5.c:165-181 | Steps 49 to 64. |
| `Md5Words.LowRotl` | GameServer/GameServer/md5.c:59-62 | The mask in the step macro keeps the bits above 32 out of the rotation of RFC 1321. |
| `Md5Words.LowSum` | GameServer/GameServer/md5.c:59-62 | The sums of a step agree in their low 32 bits, whatever stands above. |
| `Md5Words.LowQuickF` | GameServer/GameServer/md5.c:51 | The optimized F is the F of RFC 1321 in the low 32 bits. |
| `Md5Words.LowQuickG` | GameServer/GameServer/md5.c:52 | The optimized G is the G of RFC 1321. |
| `Md5Words.LowI` | GameServer/GameServer/md5.c:54 | The complement in I, which sets all bits above 32 of a wider word, leaves the low ones right. |
| `Md5Words.LowBytes` | GameServer/GameServer/md5.c:273-288 | The bytes put out are those of the low 32 bits. |
| `Md5Bytes.Masks` | GameServer/GameServer/md5.c:26-27 | A word of 33, 36, 40, 48, 56, 63 or 64 bits keeps just that many. |
| `Md5Bytes.RangePower` | GameServer/GameServer/md5.c:26-27 | Counters of any width wrap at that power of two. |
| `Md5Spec.FoldAppend` | GameServer/GameServer/md5.c:92-197 | Processing two runs of blocks in turn is processing them together. |
| `LpackSpec.RoundTrip` | GameServer/GameServer/lpack.c:98-252 | For every format of byte-order marks, separators, repeat counts, integers, z strings and prefixed strings whose values fit: unpack of pack returns the values that the format takes and the position past the end. |
| `Lpack.PackThenUnpack` | GameServer/GameServer/lpack.c:98-252 | The same of the two loops. |
| `Lpack.LPack` | GameServer/GameServer/lpack.c:195-252 | The packing loop carries out the codes of the format one by one, up to the end of the string, and fails just when one of them does; each number must be in the range of the type it is cast to. |
| `LpackBytes.PackedByte` | GameServer/GameServer/lpack.c:235-236 | c and b pack one byte, the number modulo 256. |
| `LpackBytes.PackedShort` | GameServer/GameServer/lpack.c:237-238 | h and H pack two bytes: the number modulo 256 and its next digit, in the order of the mark or of the machine. |
| `LpackBytes.PackedInt` | GameServer/GameServer/lpack.c:239-240 | i and I pack four bytes, the four digits likewise. |
| `LpackBytes.PackedLong` | GameServer/GameServer/lpack.c:241-242 | l and L pack as many bytes as a long has, all its digits likewise. |
| `LpackBytes.PackedZString` | GameServer/GameServer/lpack.c:222-228 | z packs the string and one zero byte. |
| `LpackBytes.PackedShortString` | GameServer/GameServer/lpack.c:229 | p packs one byte, the length modulo 256, and the string. |
| `LpackBytes.PackedString` | GameServer/GameServer/lpack.c:230 | P packs two bytes, the digits of the length, in the order of the mark or of the machine, and the string. |
| `Lpack.LUnpack` | GameServer/GameServer/lpack.c:98-172 | The unpacking loop does the same for reading and stops where the subject runs out. |
| `LpackBytes.UnpackedByte` | GameServer/GameServer/lpack.c:153-154 | b reads one byte as it is, and c as signed where plain char is. |
| `LpackBytes.UnpackedShort` | GameServer/GameServer/lpack.c:155-156 | From any position, H reads two bytes x, y as x + 256 y or y + 256 x, and h takes 65536 off where the highest byte is 128 or more. |
| `LpackBytes.UnpackedInt` | GameServer/GameServer/lpack.c:157-158 | I reads four bytes as digits in the order of the mark or of the machine, and i takes 2^32 off where the highest is 128 or more. |
| `LpackBytes.UnpackedUnsignedLong` | GameServer/GameServer/lpack.c:160 | L reads as many bytes as a long has as the digits of one number. |
| `LpackBytes.UnpackedLong` | GameServer/GameServer/lpack.c:159 | l takes the range off where the highest byte is 128 or more. |
| `LpackBytes.TooShort` | GameServer/GameServer/lpack.c:68-80 | Where fewer bytes are left than the code takes, nothing comes out and the position stays. |
| `LpackBytes.UnpackedZString` | GameServer/GameServer/lpack.c:137-146 | z reads up to the first zero byte or the end, and moves past one byte more. |
| `LpackBytes.UnpackedShortString` | GameServer/GameServer/lpack.c:147 | p reads one byte as a length and that many bytes. |
| `LpackBytes.UnpackedString` | GameServer/GameServer/lpack.c:148 | P reads two bytes as a length, in the order of the mark or of the machine, and that many bytes. |
| `Lpack.DoSwap` | GameServer/GameServer/lpack.c:55-66 | The two-ended exchange reverses the bytes in place, and does nothing without the flag. |
| `Lpack.DoEndian` | GameServer/GameServer/lpack.c:45-53 | After the mark, swapping leaves the digits to the base 256 of any integer, in two's complement, lowest first for <, highest first for >, and as the machine has them for =, on machines of either byte order. |
| `Lpack.ReadCount` | GameServer/GameServer/lpack.c:110-116 | The decimal count after a code, 1 when there is none. |
| `LpackFormat.CodeCounted` | GameServer/GameServer/lpack.c:204-220 | A code with a decimal count is carried out that many times, a mark at most once. |
| `LpackFormat.CodeAlone` | GameServer/GameServer/lpack.c:204-220 | A code without a count is carried out once. |
| `LpackFormat.DecimalPlaces` | GameServer/GameServer/lpack.c:208-209 | Each digit of a count counts by its place. |
| `LpackFormat.KnownExactly` | GameServer/GameServer/lpack.c:10-28 | The codes of this model, character by character, and those left out. |
| `LpackFormat.BadCode` | GameServer/GameServer/lpack.c:163-165 | Any other character is refused by both loops. |
| `LpackFormat.BadArgument` | GameServer/GameServer/lpack.c:174-193 | Packing fails without an argument, and with one exactly when it is of the wrong kind. |
| `LpackFormat.FitsExactly` | GameServer/GameServer/lpack.c:174-193 | Which values come back: the range of each integer code, and the strings that each string code has room for, in plain numbers. |
| `LpackSpec.NumberBack` | GameServer/GameServer/lpack.c:68-80 | An integer in range survives layout, swapping, swapping back and reading, in both byte orders, signed and unsigned. |
| `LpackSpec.ZStringBackExactly` | GameServer/GameServer/lpack.c:138-146 | A z string comes back exactly when it holds no zero byte. |
| `LpackSpec.PrefixedBackExactly` | GameServer/GameServer/lpack.c:82-96 | A prefixed string comes back exactly when its length fits the prefix. |
| `LpackSpec.RoundTripFrom` | GameServer/GameServer/lpack.c:98-252 | The round trip from any point of packing, under any mix of byte orders. |
| `LpackSpec.MarkOrders` | GameServer/GameServer/lpack.c:45-66 | A mark fixes the order of the bytes of an integer of any size, whatever the machine's own order. |
| `LpackSpec.MarkDigits` | GameServer/GameServer/lpack.c:45-66 | Which digit of the integer stands at which byte after each mark. |
| `LpackSpec.SameBytes` | GameServer/GameServer/lpack.c:195-252 | A format in which every value of more than one byte comes where a mark is in force packs the same bytes on machines of either byte order; = takes a mark back. |
| `LpackSpec.Portable` | GameServer/GameServer/lpack.c:98-252 | What one machine packs with such a format, a machine of either byte order unpacks to the same values. |
| `Lpack.PackHereUnpackThere` | GameServer/GameServer/lpack.c:98-252 | The same of the two loops. |
| `LpackSpec.PortableExactly` | GameServer/GameServer/lpack.c:45-252 | For two machines of different byte order, a format packs all fitting values to the same bytes exactly when every value of more than one byte comes where a mark is in force. |
| `LpackSpec.UnmarkedDiffers` | GameServer/GameServer/lpack.c:45-80 | A format that is not marked so packs the number 1, or a string of length 1, differently on the two machines. |
| `SkipSpace.SkipByEight` | GameServer/GameServer/libmysql/m_string.h:253-265 | Reading 8 bytes at a time ends where the plain backward loop ends, for every buffer. |
| `SkipSpace.SkipByWord` | GameServer/GameServer/libmysql/m_string.h:216-246 | So does reading aligned words, for every buffer, start address and byte order; the asserted bound on the last aligned address holds. |
| `SkipSpace.Korr8Spaces` | GameServer/GameServer/libmysql/byte_order_generic.h:55-63 | The assembled 8-byte value equals the constant exactly when all eight bytes are spaces. |
| `SkipSpace.WordSpaces` | GameServer/GameServer/libmysql/m_string.h:240-241 | A word equals the word of spaces exactly when all its bytes are spaces, in either byte order. |

## Left out

- Payload keys: tree nodes carry no key of their own; the comparison function takes nodes, as the macros' `cmp` does.
- SplayWalk.Next: takes the element's position in the order as a ghost argument, so that the successor can be named.
- UthashTable.Table.Add: the new element must bring a key that is not yet there, as the header leaves to its callers. Handles are numbers and each handle field is a dictionary held by the table, so the pointer arithmetic between elements and handles (`hho`) and an element that is in two tables at once are not modelled; counters do not wrap; memory never runs out.
- UthashSort.Sort: the comparison function must order the elements (ties allowed); with one that does not, only the linking could be promised.
- UthashRuns.PerformAll: covers the permitted uses, in which an added element is not yet in the table and brings a new key.
- HASH_SELECT: it never advances the destination's tail, skips the Bloom filter and counts an item only after a possible expansion, so the table's invariants do not hold for its destination.
- Hash functions, the Bloom filter, HASH_CLEAR and the key log: the hash is any function from keys to numbers; the filter is off by default.
- RB_AUGMENT and the reverse and "from" traversals: the hook is empty, and the traversals are the same walks from other starts.
- The amortized cost of splaying: the argument needs logarithms of real numbers.
- Md5.Block: models the portable branch that assembles block words from bytes; the branch for x86 and VAX reads the same words straight from memory.
- Md5.DigestOfChunks: words wider than 64 bits are not modelled.
- Lpack.LPack: the codes `a`, `A`, `f`, `d` and `n` are not modelled: floating point needs IEEE rounding, and `A` packs one string per repetition but unpacks one string of that many bytes. Lua's conversions between numbers and numeric strings, numbers that are not integers or, by the casts of C, out of range, and repeat counts beyond `int` are not modelled.
- Lpack.LUnpack: the same codes; the start position is at least 1, below which the C code would not read the subject; the Lua stack is the list of returned values; an integer of 8 bytes that no Lua number holds exactly would be rounded.
- SkipSpace.SkipByWord: a pointer is a number and the buffer a sequence of bytes; word sizes are the two that the header allows.
- Packet framing, user interface, sockets, the event loop and the Lua bindings: input and output.
