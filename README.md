# libkern in Dafny

This is a model of the data-structure core of libkern, a small C library of
kernel-style containers and bit utilities. It covers seven parts:

- **The intrusive red-black tree** (`lib/rbtree.c`, `include/rbtree.h`).
  - The rotations, the insert and erase fix-ups and `rb_erase` with its successor splice.
  - `rb_first`, `rb_last`, `rb_next`, `rb_prev` and `rb_replace_node`.
  - The node accessors, `rb_link_node` and the `rb_find`, `rb_insert` and `rb_del` descents.
- **Word-array bitmaps** (`lib/bitmap.c`).
  - The whole-bitmap tests and operations, shifts, range set and clear.
  - The hex-chunk and range-list parsers, and remap, onto and fold.
  - The buddy-style region allocator and the aligned zero-area search.
- **Bit searches** (`lib/bitops.c`): the forward searches and `find_last_bit`.
- **The leftist heap** (`include/lheap.h`): merge, insert, del_min and del.
- **The growable vector** (`include/vec.h`).
- **Multiplicative hashing** (`include/hash.h`).

Every part is stated in Dafny's own terms and proved.

- **Red-black tree.** The tree is a class, `RbTree.RbRoot`. Its fields are `root->node` plus four sequences indexed by node: the two child links and the two halves of `par_color` (parent and colour). `NIL` stands for `NULL`.
  - A ghost `Tree` value records the shape the links describe (module `Arena`).
  - Module `RedBlack` gives the red-black rules and the proof of every colour case of the two fix-up loops.
  - Module `Order` gives the order of keys along the in-order sequence.
  - Each C function is a method that performs the same field stores, in the same order.
- **Bitmaps.** A bitmap is an `array` of 64-bit words, each held as a natural number below 2^64 (module `Words`). `TestBit` reads bit `i` of a word sequence, and each operation is specified bit by bit in terms of it.
- **Leftist heap.** The heap is a class, `LHeap.Heap`, over the same node arena.
- **Vector.** The vector is a class, `Vec.Vector`. The C header before the elements, which holds the count and the capacity, becomes the field `count` and the length of the array `data`.
- **Hashing.** The hash functions are pure functions on unbounded integers, with the C unsigned wrap-around written out.

Constants follow the source:
- `BITS_PER_LONG` is 64 (LP64).
- `GOLDEN_RATIO_PRIME_32` is `0x9e370001` and `GOLDEN_RATIO_PRIME_64` is `0x9e37fffffffc0001`.
- The error codes are EINVAL 22, ERANGE 34, EOVERFLOW 75, ENOMEM 12 and EBUSY 16.

The caller's comparison function `cmp` becomes a sequence of integer keys `K` indexed by node. `Order.Cmp` is the comparison: `cmp(a, b) < 0` exactly when `a < b`.

In the model, `rb_find` and `rb_insert` descend to the left at a node whose key compares below the value sought. The in-order sequence of a tree that both keep is therefore in *decreasing* key order (`Order.Descending`), which is what `RbRoot.Ordered` states.

`lh_merge` swaps so that the root is the input root that does not compare below the other. The heap's root therefore holds the greatest key under `cmp`, and it is the least key only when the caller passes a reversed comparison.

## Model

| member | source | states |
|---|---|---|
| RbTree.RbRoot.constructor | include/rbtree.h:28 | `RB_ROOT`: an empty valid tree with `root->node` NULL over an arena of n nodes |
| RbTree.RbRoot.Closed | include/rbtree.h:8-14 | in a well-linked tree the `left`, `right` and parent pointers of every tree node are NULL or point to nodes of the tree, so every store through them stays inside the tree |
| RbTree.RbRoot.SetParent | include/rbtree.h:40-42 | `rb_set_parent` changes only the parent half of node x's `par_color`; children, colours and the root stay as they were |
| RbTree.RbRoot.SetColor | include/rbtree.h:50-52 | `rb_set_color` changes only the colour half of node x; parents, children and the root stay as they were |
| RbTree.RbRoot.ClearNode | include/rbtree.h:31-32 | after `RB_CLEAR_NODE(x)` the node is its own parent and `RB_EMPTY_NODE(x)` holds; nothing else changes, and a node outside the tree leaves the tree well linked |
| RbTree.RbRoot.EmptyNode | include/rbtree.h:31 | `RB_EMPTY_NODE(x)`: x is its own parent, a mark that no node of a well-linked tree carries, so a node it holds for is not in the tree |
| RbTree.RbRoot.LinkNode | include/rbtree.h:61-67 | `rb_link_node` hangs x, red and with NULL children, at the NULL link the path leads to, with that link's node as parent; the links then describe the tree with x plugged in. The arena keeps its size, and every node outside the old tree other than x keeps its links and colour. |
| RbTree.RbRoot.RotateLeft | lib/rbtree.c:9-28 | `__rb_rotate_left`: x becomes the left child of its former right child y, y takes x's place under x's parent or as `root->node`, and y's left subtree moves to x; in-order sequence, node set and colours are unchanged. The arena keeps its size, and every node outside the old tree keeps its links and colour. |
| RbTree.RbRoot.RotateRight | lib/rbtree.c:36-55 | the mirror image of RotateLeft, with the same guarantees. The arena keeps its size, and every node outside the old tree keeps its links and colour. |
| RbTree.RbRoot.InsertRecolor | lib/rbtree.c:69-78 | red-uncle case of `rb_insert_color`: recolouring moves the red-red conflict two levels up and raises the black height of the subtree by one, with the same tree shape. The arena keeps its size, and every node outside the old tree keeps its links and colour. |
| RbTree.RbRoot.InsertRotateRight | lib/rbtree.c:81-91 | black-uncle case on the left: after the optional rotation at the parent and the rotation at the grandparent, the loop invariant holds with a black parent strictly closer to the root, so the loop ends; in-order and node set unchanged. The arena keeps its size, and every node outside the old tree keeps its links and colour. |
| RbTree.RbRoot.InsertRotateLeft | lib/rbtree.c:104-114 | the mirror case on the right, with the same guarantees. The arena keeps its size, and every node outside the old tree keeps its links and colour. |
| RbTree.RbRoot.InsertStep | lib/rbtree.c:66-116 | one pass of the `rb_insert_color` loop keeps the loop invariant `Fixing` and brings the conflict strictly closer to the root; in-order and node set unchanged. The arena keeps its size, and every node outside the old tree keeps its links and colour. |
| RbTree.RbRoot.InsertColor | lib/rbtree.c:63-119 | given a red-black tree with a red leaf linked at its search position, `rb_insert_color` yields a valid red-black tree (black root, no red-red, equal black heights) with unchanged in-order sequence and node set. The arena keeps its size, and every node outside the old tree keeps its links and colour. |
| RbTree.RbRoot.EraseRedSiblingLeft | lib/rbtree.c:133-139 | erase fix-up, red sibling on the right: after the recolouring and rotation the sibling is black, the parent red, and the deficit one level deeper. Nodes outside the old tree keep their links and colour. |
| RbTree.RbRoot.EraseRedSiblingRight | lib/rbtree.c:163-169 | the mirror of EraseRedSiblingLeft. Nodes outside the old tree keep their links and colour. |
| RbTree.RbRoot.EraseBlackSibling | lib/rbtree.c:140-144 | black sibling with black children: the sibling is made red and the deficit moves to the parent, which is red exactly when the parent was; `parent` becomes the parent's parent. Nodes outside the old tree keep their links and colour. |
| RbTree.RbRoot.EraseInnerNephewLeft | lib/rbtree.c:146-153 | red inner nephew: the rotation at the sibling gives a black sibling with a red outer child; in-order and node set unchanged. Nodes outside the old tree keep their links and colour. |
| RbTree.RbRoot.EraseInnerNephewRight | lib/rbtree.c:176-183 | the mirror of EraseInnerNephewLeft. Nodes outside the old tree keep their links and colour. |
| RbTree.RbRoot.EraseOuterNephewLeft | lib/rbtree.c:154-160 | red outer nephew: the sibling takes the parent's colour, parent and nephew turn black, and the rotation at the parent ends the fix-up with a valid red-black tree. Nodes outside the old tree keep their links and colour. |
| RbTree.RbRoot.EraseOuterNephewRight | lib/rbtree.c:184-190 | the mirror of EraseOuterNephewLeft. Nodes outside the old tree keep their links and colour. |
| RbTree.RbRoot.EraseRedNephewLeft | lib/rbtree.c:145-161 | either nephew red (the else branch): the tree ends valid, in-order and node set unchanged. Nodes outside the old tree keep their links and colour. |
| RbTree.RbRoot.EraseRedNephewRight | lib/rbtree.c:175-191 | the mirror of EraseRedNephewLeft. Nodes outside the old tree keep their links and colour. |
| RbTree.RbRoot.BlackSiblingLeft | lib/rbtree.c:133-139 | the first step of the left branch leaves a black sibling, one level deeper only when the parent became red. Nodes outside the old tree keep their links and colour. |
| RbTree.RbRoot.BlackSiblingRight | lib/rbtree.c:163-169 | the mirror of BlackSiblingLeft. Nodes outside the old tree keep their links and colour. |
| RbTree.RbRoot.EraseStepLeft | lib/rbtree.c:132-161 | one pass of the left branch of `__rb_erase_color` keeps the invariant `Repairing` and decreases the loop measure. The arena keeps its size, and every node outside the old tree keeps its links and colour. |
| RbTree.RbRoot.EraseStepRight | lib/rbtree.c:162-192 | one pass of the right branch, with the same guarantees. The arena keeps its size, and every node outside the old tree keeps its links and colour. |
| RbTree.RbRoot.EraseColor | lib/rbtree.c:128-196 | `__rb_erase_color` turns a tree that is one black short below (node, parent) into a valid red-black tree, colouring the final node black; in-order sequence and node set unchanged. The arena keeps its size, and every node outside the old tree keeps its links and colour. |
| RbTree.RbRoot.UnlinkOne | lib/rbtree.c:248-260 | the at-most-one-child case of `rb_erase`: the child takes x's link and parent, and the colour read is x's; no colour changes. The arena keeps its size, and every node outside the old tree keeps its links and colour. |
| RbTree.RbRoot.EraseWithChild | lib/rbtree.c:204-264 | `rb_erase` of a node with a NULL child: the tree stays valid, its in-order sequence is the old one without x, and its node set loses exactly x. The arena keeps its size, and every node outside the old tree keeps its links and colour. |
| RbTree.RbRoot.SpliceSuccessor | lib/rbtree.c:218-228 | the successor y is cut out: its right child takes its place, and the fix-up parent is y's old parent, or y itself when y was x's right child. The arena keeps its size, and every node outside the old tree keeps its links and colour. |
| RbTree.RbRoot.CopyNode | lib/rbtree.c:230-232 | `*node = *old` for links and colour: y gets x's parent, colour and both child links, and nothing else changes |
| RbTree.RbRoot.ChangeChild | lib/rbtree.c:234-240 | the parent's child link that pointed at x (or `root->node`) now points at y; nothing else changes |
| RbTree.RbRoot.AdoptChildren | lib/rbtree.c:242-244 | x's non-NULL children get y as their parent; nothing else changes |
| RbTree.RbRoot.SubstituteSuccessor | lib/rbtree.c:230-244 | the successor takes over the erased node's parent, colour and both children: the links describe the tree with y in x's place, and y has x's colour. The arena keeps its size, and every node outside the old tree other than y keeps its links and colour. |
| RbTree.RbRoot.EraseWithSuccessor | lib/rbtree.c:212-264 | `rb_erase` of a node with two children: the tree stays valid, its in-order sequence is the old one without x, and its node set loses exactly x. The arena keeps its size, and every node outside the old tree keeps its links and colour. |
| RbTree.RbRoot.Erase | lib/rbtree.c:204-265 | `rb_erase` removes exactly x: the result is a valid red-black tree whose in-order sequence is the old one with x deleted. The arena keeps its size, and every node outside the old tree keeps its links and colour. |
| RbTree.RbRoot.Leftmost | lib/rbtree.c:276-281 | the loop of `rb_first` stops at the first node of the subtree's in-order sequence, which has no left child |
| RbTree.RbRoot.Rightmost | lib/rbtree.c:294-299 | the loop of `rb_last` stops at the last node of the subtree's in-order sequence, which has no right child |
| RbTree.RbRoot.First | lib/rbtree.c:273-282 | `rb_first` is NULL for an empty tree and otherwise the first node in order |
| RbTree.RbRoot.Last | lib/rbtree.c:291-300 | `rb_last` is NULL for an empty tree and otherwise the last node in order |
| RbTree.RbRoot.Next | lib/rbtree.c:308-331 | `rb_next` is NULL for a cleared node, and for a node of the tree it is the node after it in order, or NULL at the end |
| RbTree.RbRoot.Prev | lib/rbtree.c:340-360 | `rb_prev` is NULL for a cleared node, and for a node of the tree it is the node before it in order, or NULL at the start |
| RbTree.RbRoot.Substitute | lib/rbtree.c:369-388 | the stores of `rb_replace_node`: the links describe the same shape with `replacement` in the victim's place, and it has the victim's colour. The arena keeps its size, and every node outside the old tree other than the replacement keeps its links and colour. |
| RbTree.RbRoot.ReplaceNode | lib/rbtree.c:369-388 | `rb_replace_node` keeps a valid red-black tree whose in-order sequence is the old one with the victim renamed; the node set swaps the victim for the replacement; only the replacement's colour changes, to the victim's. The arena keeps its size, and every node outside the old tree other than the replacement keeps its links and colour. |
| RbTree.RbRoot.Find | include/rbtree.h:90-105 | `rb_find` returns a node whose key equals v, or NULL exactly when no node of the tree has key v |
| RbTree.RbRoot.Descend | include/rbtree.h:117-131 | the descent of `rb_insert` either stops at a node with the item's key, or reaches a NULL link whose parent and side it reports, with every key before the place above the item's and every key after it below |
| RbTree.RbRoot.Insert | include/rbtree.h:117-137 | `rb_insert` inserts exactly when no node has the item's key, and then adds exactly the item; the tree stays a valid, ordered red-black tree; with the key present nothing changes. The arena keeps its size, and every node outside the old tree other than the item keeps its links and colour. |
| RbTree.RbRoot.InsertThenFind | include/rbtree.h:90-137 | `rb_find` after `rb_insert` finds the item's key, and finds the item itself when it was inserted. The arena keeps its size, and every node outside the old tree other than the item keeps its links and colour. |
| RbTree.RbRoot.Del | include/rbtree.h:149-154 | `rb_del` on the node `rb_find` reaches (see Left out for the container offset): the tree stays valid and ordered, exactly the nodes with key v leave it, and when none has key v every field is unchanged. The arena keeps its size, and every node outside the old tree keeps its links and colour. |
| RbTree.RotateSame | lib/rbtree.c:9-55 | a rotation keeps the in-order sequence and the node set |
| RbTree.NextInTree | lib/rbtree.c:308-331 | the in-order successor of a node is the first node of its right subtree, or else the first node after the subtree of the path above it |
| RbTree.PrevInTree | lib/rbtree.c:340-360 | the in-order predecessor is the last node of the left subtree, or else the last node before the subtree |
| RbTree.EraseOneInorder | lib/rbtree.c:248-260 | replacing a node that has a NULL child by its other child deletes exactly that node from the in-order sequence and the node set |
| RbTree.EraseTwoInorder | lib/rbtree.c:213-244 | moving the successor into the erased node's place and splicing out its old position deletes exactly the erased node from the in-order sequence and the node set |
| RbTree.LeftmostInorder | lib/rbtree.c:215-218 | the leftmost node of a subtree comes first in order, followed by the rest of the subtree with it removed |
| RbTree.ReplaceTree | lib/rbtree.c:369-388 | renaming one node keeps the red-black rules when the new node takes the old colour, and renames it in the in-order sequence |
| RbTree.InsertPlace | include/rbtree.h:117-137 | a leaf at the search position, coloured red, keeps the tree red-black and the keys descending, and no old node has the item's key |
| Arena.RotateLeftShaped | lib/rbtree.c:9-28 | the stores of `__rb_rotate_left` (x, y, the moved subtree and the parent's link) relink exactly the rotated shape |
| Arena.RotateRightShaped | lib/rbtree.c:36-55 | the stores of `__rb_rotate_right` relink exactly the rotated shape |
| Arena.LinkLeafShaped | include/rbtree.h:61-67 | the stores of `rb_link_node` relink the tree with the new leaf |
| Arena.SubstituteShaped | lib/rbtree.c:369-388 | the stores of `rb_replace_node` relink the tree with the new node in the victim's place |
| Arena.SpliceShaped | lib/rbtree.c:218-228 | hanging a subtree at its grandparent's link removes its parent from the shape |
| Arena.PlugInorder | lib/rbtree.c:308-360 | the in-order sequence of a tree is the part before a subtree's place, the subtree, then the part after |
| Arena.Find | lib/rbtree.c:204 | every node of a tree sits at the end of a path from the root |
| RedBlack.BalancedHeight | lib/rbtree.c:128-196 | the black height a subtree is balanced at is unique (its `BlackHeight`) and never negative |
| RedBlack.InsRecolor | lib/rbtree.c:72-77 | the red-uncle recolouring keeps the context and raises the balanced height by one |
| RedBlack.InsStraight | lib/rbtree.c:89-91 | blackening the parent and reddening the grandparent before the last rotation keeps every subtree balanced |
| RedBlack.InsDone | lib/rbtree.c:118 | once the parent is black or the root is reached, blackening the root gives a red-black tree |
| RedBlack.InsertStart | lib/rbtree.c:63-66 | a red leaf linked into a red-black tree starts the insert loop invariant |
| RedBlack.DelCase1Left | lib/rbtree.c:134-139 | the red-sibling rotation keeps the black-height deficit and gives a black sibling |
| RedBlack.DelCase2 | lib/rbtree.c:140-144 | reddening a black sibling with black children moves the deficit to the parent |
| RedBlack.DelCase3Left | lib/rbtree.c:146-153 | the inner-nephew rotation gives a black sibling with a red outer child |
| RedBlack.DelCase4Left | lib/rbtree.c:154-160 | the outer-nephew recolouring and rotation give a red-black tree |
| RedBlack.DelDone | lib/rbtree.c:194-195 | when the loop stops at the root or a red node, blackening it gives a red-black tree |
| RedBlack.DelDoneRed | lib/rbtree.c:194-195 | a red node with balanced children, blackened, ends the deficit |
| RedBlack.EraseOne | lib/rbtree.c:248-264 | removing a node with a NULL child keeps a red-black tree when the node was red, and leaves a one-black deficit below the parent, which the fix-up repairs, when it was black |
| RedBlack.EraseTwo | lib/rbtree.c:212-264 | moving the successor into the erased node's place with the erased node's colour keeps a red-black tree when the successor was red, and otherwise leaves a one-black deficit at the successor's old place |
| RedBlack.SubstituteRedBlack | lib/rbtree.c:369-388 | a node that takes another's place and colour keeps the red-black rules |
| RedBlack.RecolorRedBlack | include/rbtree.h:50-52 | recolouring a node outside the tree leaves the tree's red-black rules intact |
| Order.Cmp | include/rbtree.h:94-98 | the comparison: negative exactly when a < b, zero exactly when a == b |
| Order.DescendingNoDup | include/rbtree.h:117-137 | strictly descending keys mean no node appears twice |
| Order.SubtreeKeys | include/rbtree.h:94-98 | in an ordered tree every key on the left of a node is above it and every key on the right below: the direction both descents take |
| Order.DescendingInsert | include/rbtree.h:127-133 | a node whose key lies between the keys before and after its place keeps the keys descending |
| Order.DescendingWithout | lib/rbtree.c:204-265 | deleting a node keeps the keys descending |
| Order.DescendingRename | lib/rbtree.c:369-388 | a node renamed to one with the same key keeps the keys descending |
| Order.DescendingDistinctKeys | include/rbtree.h:90-105 | two distinct nodes of an ordered tree have distinct keys |
| Order.NextAt | lib/rbtree.c:308-331 | the successor of the i-th node is the (i+1)-th, or NIL at the end |
| Order.PrevAt | lib/rbtree.c:340-360 | the predecessor of the i-th node is the (i-1)-th, or NIL at the start |
| Order.NextPrev | lib/rbtree.c:308-360 | next and prev are inverse on adjacent nodes |
| Order.WithoutSplit | lib/rbtree.c:204-265 | deleting a node that occurs once leaves the sequences on either side of it joined |
| Order.WithoutAbsent | lib/rbtree.c:204-265 | deleting an absent node changes nothing |
| Order.DescendingEnds | lib/rbtree.c:273-300 | the first node in order has the greatest key and the last the least |
| Bitmap.BitmapEmpty | lib/bitmap.c:28-39 | `__bitmap_empty` is true exactly when no bit below `bits` is set; bits past `bits` in the last word are not looked at |
| Bitmap.BitmapFull | lib/bitmap.c:41-52 | `__bitmap_full` is true exactly when every bit below `bits` is set |
| Bitmap.BitmapEqual | lib/bitmap.c:54-65 | `__bitmap_equal` is true exactly when the two agree on every bit below `bits` |
| Bitmap.BitmapComplement | lib/bitmap.c:67-74 | dst bit i is the negation of src bit i below `bits`, the unused bits of the last word are zero, and words past the bitmap are untouched |
| Bitmap.BitmapAnd | lib/bitmap.c:154-162 | dst is the bitwise and of the two inputs over whole words, and the result is true exactly when some bit of dst is set |
| Bitmap.BitmapOr | lib/bitmap.c:164-170 | dst is the bitwise or of the inputs |
| Bitmap.BitmapXor | lib/bitmap.c:172-178 | dst is the bitwise exclusive or of the inputs |
| Bitmap.BitmapAndNot | lib/bitmap.c:180-188 | dst is bitmap1 and not bitmap2, and the result is true exactly when some bit of dst is set |
| Bitmap.BitmapIntersects | lib/bitmap.c:190-200 | true exactly when some bit below `bits` is set in both |
| Bitmap.BitmapSubset | lib/bitmap.c:202-212 | true exactly when every bit below `bits` set in bitmap1 is set in bitmap2 |
| Bitmap.BitmapWeight | lib/bitmap.c:214-224 | the number of set bits below `bits` |
| Bitmap.WeightZero | lib/bitmap.c:214-224 | the weight is zero exactly when no bit below n is set |
| Bitmap.CombineWords | lib/bitmap.c:154-188 | the shared word loop of and/or/xor/andnot: each dst bit is the operation of the two input bits, and the result reports a nonzero word |
| Bitmap.NoneBelow | lib/bitmap.c:28-65 | the shared test loop: true exactly when the test holds for no bit below `bits`, masking the last word with `BITMAP_LAST_WORD_MASK` |
| Bitmap.ZeroWords | lib/bitmap.c:114 | `memset` of words lo..hi-1 to zero: exactly those words become 0 and the others are kept |
| Bitmap.BitmapZero | lib/bitmap.c:618 | `bitmap_zero(dst, bits)`: every bit of the words that hold `bits` bits is clear, and later words are kept |
| Bitmap.SetBit | lib/bitmap.c:625 | `set_bit(i, dst)`: bit i becomes set and every other bit is kept; every word other than word i/64 keeps its value |
| Bitmap.SetBitAt | lib/bitmap.c:625 | or-ing 2^(i mod 64) into word i/64 sets bit i and no other bit of the bitmap |
| BitmapShift.ShiftRight | lib/bitmap.c:88-115 | dst bit i is src bit i+shift when i+shift < bits, and 0 otherwise, for every bit of the used words |
| BitmapShift.ShiftLeft | lib/bitmap.c:129-152 | dst bit i is src bit i-shift when shift <= i < bits, and 0 otherwise |
| BitmapRange.BitmapSet | lib/bitmap.c:228-245 | `bitmap_set` sets exactly bits start..start+nr-1 and leaves every other bit as it was |
| BitmapRange.BitmapClear | lib/bitmap.c:247-264 | `bitmap_clear` clears exactly that range and leaves every other bit |
| BitmapRange.UpdateRange | lib/bitmap.c:228-264 | the shared loop of set and clear: whole words under the first-word and last-word masks, then the partial last word |
| BitmapRange.RegionMask | lib/bitmap.c:829-850 | the index, word count and mask `__reg_op` computes cover exactly the aligned region of 2^order bits |
| BitmapRange.RegOp | lib/bitmap.c:829-878 | `__reg_op`: REG_OP_ISFREE reports whether the region is all clear and changes nothing; REG_OP_ALLOC sets exactly the region; REG_OP_RELEASE clears it |
| BitmapRange.FindFreeRegion | lib/bitmap.c:894-904 | `bitmap_find_free_region` returns the first multiple of 2^order whose region fits and is clear, and allocates it; otherwise -ENOMEM with no change, every aligned region being taken |
| BitmapRange.ReleaseRegion | lib/bitmap.c:913-915 | `bitmap_release_region` clears exactly the region |
| BitmapRange.AllocateRegion | lib/bitmap.c:926-931 | `bitmap_allocate_region` returns 0 and sets the region exactly when it was clear, and otherwise -EBUSY with no change |
| BitmapArea.AlignMaskSpec | lib/bitmap.c:286 | `__ALIGN_MASK` rounds up to the next multiple of 2^a and skips no multiple |
| BitmapArea.FindNextZeroArea | lib/bitmap.c:279-296 | the result is at or after `start`; a result r with r+nr <= size is aligned and starts a zero area of nr bits, and for nr > 0 it is the first aligned start at or after `start` to do so; a result past the end means no aligned zero area exists |
| BitmapParse.BitmapParseHex | lib/bitmap.c:357-416 | `__bitmap_parse` returns 0 exactly when the text is comma-separated 32-bit hex chunks whose number fits in nmaskbits bits, and the bitmap then holds that number; -EINVAL only for malformed text, and on well-formed text -EOVERFLOW exactly when the number is too large; words past the first and at or past `BITS_TO_LONGS(nmaskbits)` keep their value on every path |
| BitmapParse.NextChunk | lib/bitmap.c:366-412 | one pass of the outer loop: a chunk read, shifted in and counted, or the error whose text is not accepted; words past the first and at or past `BITS_TO_LONGS(nmaskbits)` keep their value |
| BitmapParse.ScanStep | lib/bitmap.c:369-401 | one character of the chunk loop: whitespace skipped, a digit added, a NUL or comma ending the chunk, and as an error of a malformed text embedded whitespace, an illegal character, or a digit met once the chunk has a bit at or above 2^28 (a ninth significant hex digit) |
| BitmapParse.ScanChunk | lib/bitmap.c:366-401 | the chunk loop: an error only for text that is not well formed from there; otherwise the loop stopped at the end of the buffer, or just past a NUL or a comma, having read exactly the digits of the chunk, and `totaldigits` grew by their number |
| BitmapParse.ReadChunk | lib/bitmap.c:366-403 | one chunk: an error or no digits only for text that is not well formed; otherwise the chunk is below 2^32 and the groups of the text are the chunk followed by those after it |
| BitmapParse.AddChunk | lib/bitmap.c:389-404 | the chunk shifted in: overflow is returned exactly when the number no longer fits, and otherwise the bitmap holds it and `nbits` is its length; words past the first and at or past `BITS_TO_LONGS(nmaskbits)` keep their value |
| BitmapList.StrToUL | lib/bitmap.c:491-496 | `strtoul` in base 10 reads the whole run of digits and saturates at `ULONG_MAX` |
| BitmapList.ParseItem | lib/bitmap.c:489-506 | one item of the list: its error code, or the next position with exactly the range's bits set in addition; words at or past `BITS_TO_LONGS(nmaskbits)` keep their value |
| BitmapList.SetBits | lib/bitmap.c:502-505 | the `set_bit` loop sets exactly the bits a..b and keeps every other bit; words past word b/64 keep their value |
| BitmapList.ParseList | lib/bitmap.c:484-510 | `bitmap_parselist` returns 0 exactly when the text is a list of numbers and ranges a-b with a <= b < nmaskbits, and the bitmap then holds exactly their bits; otherwise -EINVAL or -ERANGE, as the first bad item says; words at or past `BITS_TO_LONGS(nmaskbits)` keep their value on every path |
| BitmapList.ListBounds | lib/bitmap.c:498-501 | every range of an accepted list has lo <= hi < nmaskbits |
| BitmapList.FirstTooLarge | lib/bitmap.c:491-501 | read whole, a list whose first number is at or above nmaskbits (below 2^32) is an error |
| BitmapList.TruncatedNumber | lib/bitmap.c:485-491 | "4294967296" with nmaskbits 1 is accepted as bit 0 when the number is cut to 32 bits, and refused with -ERANGE when it is read whole |
| BitmapRemap.PosToOrd | lib/bitmap.c:530-544 | `bitmap_pos_to_ord` is the number of set bits below a set position, and -1 for a position that is out of range or clear |
| BitmapRemap.OrdToPos | lib/bitmap.c:565-580 | `bitmap_ord_to_pos` is the position of the ord-th set bit, or 0 when there is none |
| BitmapRemap.NthOfOrd | lib/bitmap.c:530-580 | ord of a set position, then pos of that ord, gives the position back |
| BitmapRemap.OrdOfNth | lib/bitmap.c:530-580 | pos of an ord, then ord of that position, gives the ord back |
| BitmapRemap.BitRemap | lib/bitmap.c:658-665 | `bitmap_bitremap` maps the n-th set bit of `old` to the (n mod w)-th set bit of `new`, and any other bit, like every bit when `new` is empty, to itself |
| BitmapRemap.RemapNth | lib/bitmap.c:658-665 | the image of the n-th set bit of `old` is the (n mod weight)-th set bit of `new` |
| BitmapRemap.RemapSame | lib/bitmap.c:658-665 | remapping through equal maps is the identity |
| BitmapRemap.Remap | lib/bitmap.c:613-629 | `bitmap_remap`: with dst = src nothing changes, and otherwise dst holds exactly the images of src's set bits; dst words at or past `BITS_TO_LONGS(bits)` keep their value |
| BitmapRemap.RemapIdentity | lib/bitmap.c:613-629 | remapping through equal maps copies the bitmap |
| BitmapRemap.Onto | lib/bitmap.c:763-787 | `bitmap_onto`: with dst = orig nothing changes, and otherwise bit n of dst is set exactly when n is the m-th set bit of relmap and bit m of orig is set; dst words at or past `BITS_TO_LONGS(bits)` keep their value |
| BitmapRemap.OntoNth | lib/bitmap.c:763-787 | the m-th set bit of relmap carries bit m of orig |
| BitmapRemap.Fold | lib/bitmap.c:800-809 | `bitmap_fold`: with dst = orig nothing changes, and otherwise bit k of dst is set exactly when some set bit j of orig has j mod sz = k; dst words at or past `BITS_TO_LONGS(bits)` keep their value |
| BitmapRemap.FoldBelow | lib/bitmap.c:800-809 | every bit of a fold lies below sz |
| BitmapRemap.FoldWide | lib/bitmap.c:800-809 | folding by sz >= bits copies the bitmap |
| BitOps.NextWithSpec | lib/bitops.c:12-91 | the reference search: size when offset >= size, and otherwise the first bit in [offset, size) with the wanted value, all bits before it differing, or size |
| BitOps.FindNextBit | lib/bitops.c:12-47 | `find_next_bit` returns the first set bit at or after offset, or size |
| BitOps.FindNextZeroBit | lib/bitops.c:56-91 | `find_next_zero_bit` returns the first clear bit at or after offset, or size |
| BitOps.FindFirstBit | lib/bitops.c:100-119 | `find_first_bit` is the next-set search from 0 |
| BitOps.FindFirstZeroBit | lib/bitops.c:128-147 | `find_first_zero_bit` is the next-clear search from 0 |
| BitOps.ScanWords | lib/bitops.c:20-46 | the shared word loop of the forward searches: whole words skipped while they hold no wanted bit, then the first wanted bit of the last partial word |
| BitOps.LastSetSpec | lib/bitops.c:156-181 | the reference: the highest set bit below size, or size when none is set |
| BitOps.FindLastBitAsWritten | lib/bitops.c:156-181 | `find_last_bit` as written returns the word base plus the 1-based `fls` of the word |
| BitOps.FindLastBitOffByOne | lib/bitops.c:175 | as written the result for the word 1 is 1, a clear bit, where the last set bit is 0 |
| BitOps.FindLastBit | lib/bitops.c:156-181 | with the 0-based `__fls`, the highest set bit below size, or size |
| Words.Ffs | lib/bitops.c:42 | `__ffs`: the lowest set bit of a nonzero word |
| Words.Ffz | lib/bitops.c:86 | `ffz`: the lowest clear bit of a word that is not all ones |
| Words.Fls | lib/bitmap.c:302 | `fls`: one more than the highest set bit, 0 for 0 |
| Words.FlsIndex | lib/bitops.c:175 | `__fls`: the highest set bit of a nonzero word |
| Words.Hweight | lib/bitmap.c:218 | `hweight_long`: the number of set bits of a word, at most 64, and zero exactly for the zero word; `Bitmap.BitmapWeight` adds it up |
| Words.LastWordMask | lib/bitmap.c:35 | `BITMAP_LAST_WORD_MASK(n)` has exactly the bits below n mod 64 set, all of them when n is a multiple of 64 |
| Words.TestBitWord | lib/bitmap.c:28-224 | bit 64k+j of a bitmap is bit j of word k |
| LHeap.Heap.constructor | include/lheap.h:21 | `lh_heap`: an empty heap, `node` NULL, over an arena whose nodes are all cleared |
| LHeap.Heap.HeapInit | include/lheap.h:22-24 | `lh_heap_init` makes the heap empty and touches no node |
| LHeap.Heap.Empty | include/lheap.h:26 | `lh_heap_empty` holds exactly when the heap has no node |
| LHeap.Heap.NodeInit | include/lheap.h:29-33 | `lh_node_init` sets the node's three links to NULL and its npl to 0, and nothing else |
| LHeap.Heap.Min | include/lheap.h:134 | `lh_min` is the root, whose key is not below any key of the heap |
| LHeap.Heap.FixNode | include/lheap.h:76-81 | the bottom-up step: the children are swapped when the left is NULL or has the smaller npl, then npl is the right child's plus one, or 0 |
| LHeap.Heap.RightSpine | include/lheap.h:61-74 | the first loop of `lh_merge` hangs the two right spines together, in order of keys, with parent links set |
| LHeap.Heap.Climb | include/lheap.h:75-84 | the second loop climbs parent links to the top, keeping the leftist rule and npl of every node passed |
| LHeap.Heap.Merge | include/lheap.h:56-87 | `lh_merge` of two heaps is a heap of exactly their nodes, with the other operand returned when one is NULL and, when neither is, the root that does not compare below the other on top |
| LHeap.Heap.MergeBoth | include/lheap.h:60-85 | the merge of two nonempty heaps |
| LHeap.Heap.Insert | include/lheap.h:112-113 | `lh_insert` merges the item into the heap: the heap gains exactly the item, and the root is the item exactly when the heap was empty or the item's key is above the old root's |
| LHeap.Heap.DelMinAsWritten | include/lheap.h:125-126 | `lh_del_min` as written: with two children the old root stays the root, and with one it is still the child's parent |
| LHeap.Heap.DelMin | include/lheap.h:125-126 | `lh_del_min` with the children's parent links cleared first: the heap loses exactly the old root, and the new root is the child with the greater key; every node outside the old heap keeps its links and npl |
| LHeap.Heap.Del | include/lheap.h:146-171 | `lh_del` removes exactly the item, keeps a valid heap, and leaves the item's three links NULL |
| LHeap.Heap.ClearParents | include/lheap.h:148-149 | the parent links of the item's two children become NULL, so each child heads a heap of its own; no other link or npl changes |
| LHeap.Heap.DelChildren | include/lheap.h:148-151 | the item's children are detached and merged into one heap of exactly the item's subtree without the item, and the item's child links become NULL |
| LHeap.Heap.DelFixNode | include/lheap.h:162-165 | the climb's body at one node: the children are swapped when the right has the larger npl, then npl is the right child's plus one, or 0 without a right child; nothing else changes |
| LHeap.Heap.DelCut | include/lheap.h:152-159 | the item's parent link becomes NULL, and its parent gets npl 0, keeps its other child on the left and has no right child |
| LHeap.Heap.DelClimb | include/lheap.h:160-166 | the climb from the cut point to the root leaves a heap of exactly the nodes above and beside the item, with the same root |
| LHeap.Heap.DelCutClimb | include/lheap.h:152-166 | for an item with a parent, cutting it off and climbing leaves a heap of the path's nodes without the item, with the old root |
| LHeap.Heap.DelUpper | include/lheap.h:152-167 | for an item with a parent, the cut and climb followed by the merge with the children's heap give a valid heap of every node but the item |
| LHeap.RootIsMax | include/lheap.h:61-64 | in a heap no key is above the root's |
| LHeap.NplLeftist | include/lheap.h:75-84 | in a leftist tree npl is at least -1, and at least 0 on a node |
| Vec.NewCapacity | include/vec.h:36 | the growth rule: 2m+k for a live vector, k+1 for a NULL one |
| Vec.GrowthFits | include/vec.h:29-44 | after growing, count + k is below the new capacity |
| Vec.Vector.Null | include/vec.h:4-6 | the NULL vector: no buffer and no elements |
| Vec.Vector.Init | include/vec.h:4 | `vec_init(a, n)`: a live empty vector of capacity n+1 |
| Vec.Vector.Size | include/vec.h:6 | `vec_size` is the number of elements, 0 for NULL |
| Vec.Vector.NeedGrow | include/vec.h:29 | `__vec_needgrow(a, k)` is false exactly when the vector is live and its count plus k is below the capacity, so k more elements fit with a spare slot |
| Vec.Vector.Grow | include/vec.h:31-44 | `__vec_growf`: a fresh buffer of the new capacity with the same elements, and count 0 for a vector that was NULL |
| Vec.Vector.MaybeGrow | include/vec.h:29-30 | `__vec_maybegrow`: grows exactly when the vector is NULL or count + k >= capacity, and afterwards count + k < capacity with the elements unchanged |
| Vec.Vector.Push | include/vec.h:8 | `vec_push` appends v and keeps every earlier element |
| Vec.Vector.Pop | include/vec.h:9 | `vec_pop` returns the old size and drops the last element, and does nothing to a NULL vector |
| Vec.Vector.Erase | include/vec.h:18-19 | `vec_erase(a, i)` removes element i, later elements moving down one place |
| Vec.Vector.ShiftUp | include/vec.h:32 | `__vec_rshift`: elements i..count-1 move up one place and the rest of the buffer stays |
| Vec.Vector.InsertAsWritten | include/vec.h:16-17 | `vec_insert` as written: after the shift v is stored at the old count, not at i |
| Vec.Vector.Insert | include/vec.h:16-17 | the intended `vec_insert`: v is stored at i, after the earlier elements and before the later ones |
| Vec.Erased | include/vec.h:18-19 | the list without element i: elements before i kept, later ones one place down |
| Vec.Inserted | include/vec.h:16-17 | the list with v at i |
| Vec.EraseInserted | include/vec.h:16-19 | erasing at i what was inserted at i gives the list back |
| Vec.InsertAsWrittenLoses | include/vec.h:16-17 | as written, inserting 9 at 0 into [1, 2] gives [1, 1, 9] rather than [9, 1, 2] |
| Hash.GoldenRatioPrimeSums | include/hash.h:35-38 | the two primes equal the sparse sums of powers of 2 their comments state |
| Hash.Hash32 | include/hash.h:69-74 | `hash_32` is below 2^bits and is the top `bits` bits of val * 0x9e370001 mod 2^32 |
| Hash.Hash64Multiplier | include/hash.h:51-63 | the six shift/add/subtract steps of `hash_64` multiply by `GOLDEN_RATIO_PRIME_64` |
| Hash.RunStepsIsProduct | include/hash.h:51-63 | running the steps in uint64_t computes val times their multiplier, mod 2^64 |
| Hash.ShiftAddIsProduct | include/hash.h:48-63 | the shift/add sequence equals val * `GOLDEN_RATIO_PRIME_64` mod 2^64 |
| Hash.Hash64 | include/hash.h:48-67 | `hash_64` is below 2^bits and is the top `bits` bits of val * `GOLDEN_RATIO_PRIME_64` mod 2^64 |
| Hash.HashLong | include/hash.h:40-46 | `hash_long` is `hash_32` when `__WORDSIZE` is 32 and `hash_64` when it is 64 |

## Left out

- The packing of parent and colour into `par_color`, and `rb_parent`/`rb_color` as bit expressions (include/rbtree.h:9-26): parent and colour are separate fields, as `rb_set_parent` and `rb_set_color` keep them apart.
- `container_of`, `rb_entry` and `lh_entry` offset arithmetic: nodes are arena indices, and keys are a sequence `K` indexed by node.
- The caller's `cmp`: modelled as the order of integer keys (`Order.Cmp`); an arbitrary comparator is not modelled.
- `RB_EMPTY_ROOT` (include/rbtree.h:30) names a field that does not exist; emptiness is `node == NIL`.
- LHeap.Heap.constructor: `lh_heap(name)` (include/lheap.h:21) declares a `struct lh_node` initialised to `{ NULL }` rather than a `struct lh_heap`, and it clears no other node. The constructor models the evident intent, an empty heap whose `node` is NULL, over an arena of cleared nodes.
- The iteration macros `rb_for_each*` (include/rbtree.h:162-222): they are loops over `rb_first`/`rb_next`, which are modelled.
- RbTree.RbRoot.Del: the model erases the node `rb_find` reached. `rb_find` returns `rb_entry(node, type, member)`, the containing struct, and `rb_del` (include/rbtree.h:150-152) passes that pointer to `rb_erase` as a `struct rb_node *`. The two are the same address only when `member` is at offset 0 of `type`, so the model covers only that layout; with any other offset the C hands `rb_erase` a pointer that is not the node, which has no meaning to model.
- RbTree.RbRoot.Erase: the erased node's own links are left as they were, as in the C; the model says nothing about them afterwards.
- RbTree.RbRoot.InsertColor, RbTree.RbRoot.EraseColor: each fix-up loop is proved from the invariant that the tree is red-black apart from the one conflict being repaired, so a call on a tree that breaks the rules elsewhere is not modelled.
- Vec.Vector.Pop: requires `live ==> count > 0`; on an empty live vector the C makes the count -1 and later reads `data[-1]`, which has no meaning to model.
- Vec.Vector.Grow: assumes `realloc` succeeds. On failure the C stops at `assert(p)`, or with `NDEBUG` leaves the vector unchanged (include/vec.h:38-39); neither path is modelled, nor is `vec_destroy`'s `free`.
- Vec.Vector.MaybeGrow: assumes `realloc` succeeds, as Grow does.
- Vec.Vector.Push: the `int` count and capacity are unbounded; 32-bit overflow of `2 * m + incr` is not modelled.
- `vec_add`, `vec_first` and `vec_last` (include/vec.h:11-14): plain index expressions over the same buffer, not modelled separately.
- Bitmap.BitmapWeight: `bits` and the returned weight are unbounded naturals, so a negative `int bits` and `int` overflow are not modelled. The same holds for every `int bits`/`nbits` argument in the bitmap modules (a negative size is excluded by the type `nat`).
- BitmapShift.ShiftRight: requires `shift / 64 <= BITS_TO_LONGS(bits)`; for a larger shift the C `memset(&dst[lim - off], ...)` writes before `dst`.
- BitmapShift.ShiftLeft: requires `shift / 64 <= BITS_TO_LONGS(bits)`; for a larger shift the C `memset(dst, 0, off * sizeof(long))` writes past the bitmap.
- BitmapRange.RegOp: requires `order < 31`; `1 << order` on an `int` is undefined from 31 on. The same bound is on FindFreeRegion, ReleaseRegion and AllocateRegion.
- BitmapArea.FindNextZeroArea: requires `size + alignMask + nr < 2^64`; the wrap-around of `unsigned long` index arithmetic near 2^64 is not modelled.
- BitmapRemap.Remap: requires `dst != before && dst != after`. The C does not exclude these aliases, but `bitmap_zero(dst)` would then clear the map it reads, so that case is not modelled.
- BitmapRemap.Onto: requires `dst != relmap`. The C does not exclude this alias; the model does not cover it, for the same reason as Remap.
- BitmapParse.BitmapParseHex: on malformed text it says only that the result is -EINVAL or -EOVERFLOW. Which one depends on the error met first in reading order: a chunk of more than 32 bits, or a prefix of chunks that is already too large, gives -EOVERFLOW before a later syntax error.
- BitmapParse.BitmapParseHex: the C reads at most `buflen` characters and stops at a NUL; the model takes `buflen` as the length of the buffer.
- BitmapRemap.Fold: requires `sz > 0`; the C `oldbit % sz` divides by zero otherwise.
- BitmapArea.FindNextZeroArea: requires `align_mask` to be 2^a - 1, the only form for which `__ALIGN_MASK` rounds up to an alignment.
- LHeap.Heap.Insert: requires the item to have been through `lh_node_init`, since `lh_merge` reads its links and npl.
- Vec.Vector.Erase: requires `i < count`; for a larger index the C `memmove` gets a negative length.
- Vec.Vector.Insert: requires `i <= count`; for a larger index the C `memmove` gets a negative length.
- `bitmap_snprintf` and `bitmap_snlistprintf` (lib/bitmap.c:317-339, 423-467): their output is libc `snprintf`'s buffer truncation and return-length behaviour.
- Hash.Hash32, Hash.Hash64: they require `1 <= bits <= 32` and `1 <= bits <= 64`. Outside those bounds the C shift by `32 - bits` or `64 - bits` is by the full width or by a negative count, which is undefined behaviour, so those cases are not modelled.
- `hash_ptr` (include/hash.h:76-78): a cast of a pointer to `unsigned long` before `hash_long`; pointers are not modelled.
- `hash_internal` (include/hash.h:80-91): it computes its end pointer from a byte value (`*p + len`), so it has no meaningful contract.
- The helpers `__ffs`, `ffz`, `fls`, `__fls`, `hweight_long` and `BITMAP_LAST_WORD_MASK` live in headers that are not part of this model. They are given as specified functions in `Words`.
- include/atomic.h, lib/atomic.c, include/compiler.h, include/debug.h and include/common.h: concurrency primitives, compiler attributes and debug printing.

## Findings

| source | as written | input that shows it | evidently intended | confidence | as-written member | corrected member |
|---|---|---|---|---|---|---|
| include/vec.h:16-17 | `vec_insert` shifts elements i..n-1 up, then stores v at index n (the old count) | [1, 2] insert 9 at 0 gives [1, 1, 9] | v stored at index i, giving [9, 1, 2] | high (not executed) | Vec.InsertAsWrittenLoses | Vec.Vector.Insert |
| lib/bitops.c:175 | `find_last_bit` adds the 1-based `fls` of the word to its base, one past the last set bit | a word 1 with size 64 returns 1, and bit 1 is clear | the 0-based `__fls`, giving 0 | high (not executed) | BitOps.FindLastBitOffByOne | BitOps.FindLastBit |
| include/lheap.h:125-126 | `lh_del_min` merges the root's children without clearing their parent links, so the climb in `lh_merge` goes past them to the old root | a root with two children: the old root is returned as the new root | the children's parents cleared first, as `lh_del` does at include/lheap.h:148-149, so the new root is the greater child | high (not executed) | LHeap.Heap.DelMinAsWritten | LHeap.Heap.DelMin |
| lib/bitmap.c:485-501 | `bitmap_parselist` keeps `strtoul`'s `unsigned long` value in an `unsigned`, losing its high bits on LP64 | "4294967296" with nmaskbits 1 sets bit 0 | a number at or above nmaskbits refused with -ERANGE | medium (not executed) | BitmapList.TruncatedNumber | BitmapList.ParseList |
