# Gator Library engine in Dafny

A verified model of the engine in `gatorLibrary.py`. It is a library catalogue keyed by integer
`bookID`, built on a pointer-based red-black tree. The tree follows Cormen et al., chapter 13:
a shared black `NIL` sentinel, parent/left/right links, and insertion and deletion fix-ups.
Each book node carries a lending state (`availability`, `borrowedBy`) and a reservation list.
A node class also has an array-backed min-heap, which the library itself never uses.
Every method of `Node` and `RedBlackTree` is modelled except `Quit`, which only prints; the
`main` driver is not modelled.

## How the model is built

- **Arena** (`arena.dfy`). The nodes live in a sequence `nodes: seq<Node>`, and index 0 is
  the `NIL` sentinel. A `Node` holds a `Book` (id, title, author, availability, borrower,
  reservations), a colour, the `left`/`right` indices and `parent: Option<nat>`. `None` is
  Python's `None` on the root. The class `Library.RedBlackTree` has fields `nodes`, `root` and
  `colorFlipCount`, and its methods update them step by step, as the Python methods do.
- **Ghost tree** (`shape.dfy`). The ghost field `shape: Tree` is the binary tree the pointers
  describe, and `Wired` ties the two together. Positions in the tree are paths (`seq<bool>`,
  `false` = left). A path can name a `NIL` position, which `insert` and `fix_delete` both need.
  The structural methods (the rotations, `Attach`, the insertion cases `RecolorUp`, `Straighten`,
  `TurnDown` and `RotateUp`, and case 1 of `fix_delete`, `DarkenSibling`) state their effect as
  `shape == Put(old(shape), p, f(At(old(shape), p)))`; `ResolveSibling` states the loop state it
  reaches and its exact counter growth instead.
- **Red-black rules** (`redblack.dfy`). They are equal black height (`Balanced`), no red-red
  edge (`NoRR`) and a black root. `fixup.dfy` holds the insertion cases and `rebalance.dfy` the
  four double-black cases of `fix_delete`. `removal.dfy` holds the spliced tree of
  `delete_node`, and `rewire.dfy` and `splice.dfy` hold the pointer surgery of the rotations and
  of `transplant`.
- **Lending** (`circulation.dfy`, `reservations.dfy`). These cover what `BorrowBook` and
  `ReturnBook` do to the one book found, and the sorted `(priority, patronID)` reservation list.
- **Range reports** (`ranges.dfy`, `reports.dfy`). These are the two pruned walks and their
  reference definitions: all nodes in the range, in in-order or in pre-order.
- **Heap** (`heap.dfy`). This is the unused `Node` min-heap, as a class over a sequence.

Behaviour of the code worth knowing, which the model follows as written:

- **Duplicate ids.** A duplicate `bookID` is inserted to the right, as written at
  gatorLibrary.py:221-224; it is not rejected. So the tree invariant is "in-order keys
  non-decreasing". The exact range results are stated for trees whose ids are distinct.
- **FindClosestBook order.** `FindClosestBook` lists the books in pre-order (node, then left,
  then right), as the walk appends them (gatorLibrary.py:365-370), not in id order.
- **Reservation ties.** The reservation list is ordered by priority, then by patron id, because
  Python sorts the `(priority, patronID)` tuples (gatorLibrary.py:327-328); arrival time plays
  no part.
- **Deletion with two children.** `delete_node` relinks the successor node into `z`'s place
  (gatorLibrary.py:144-155); no book data moves between nodes.

## Model

| member | source | states |
|---|---|---|
| `Library.RedBlackTree.constructor` | gatorLibrary.py:57-60 | the empty library: black `NIL`, root `NIL`, counter 0, a valid red-black tree with no books |
| `Library.RedBlackTree.SearchFrom` | gatorLibrary.py:177-182 | the pointer descent from a subtree's top ends at the node the ghost search path `Find` reaches (left iff the key is smaller) |
| `Library.RedBlackTree.Search` | gatorLibrary.py:177-182 | returns `NIL` (0) exactly when no book has the id; otherwise a node of the tree holding that id |
| `Shape.FindCorrect` | gatorLibrary.py:177-182 | on a key-ordered tree the search path ends at a node iff the key is present, and that node holds the key |
| `Library.RedBlackTree.LeftRotate` | gatorLibrary.py:278-296 | the arena after `left_rotate`: the right child takes the node's place under its parent, or becomes the root when the node had no parent; the counter grows by 1 exactly when the two colours differ |
| `Library.RedBlackTree.RightRotate` | gatorLibrary.py:298-316 | the mirror of `LeftRotate`: the left child takes the node's place or becomes the root; +1 on the counter exactly when the colours differ |
| `Library.RedBlackTree.Rotate` | gatorLibrary.py:278-316 | a rotation keeps the pointers well formed, the in-order node and key sequences, the node set and every book; it raises the child in the ghost tree; the counter gets +1 iff the colours differ |
| `Shape.RotateLeftContent` | gatorLibrary.py:278-296 | a left rotation keeps the in-order sequence, the keys and the node set |
| `Shape.RotateRightContent` | gatorLibrary.py:298-316 | a right rotation keeps the in-order sequence, the keys and the node set |
| `Shape.RotationsInverse` | gatorLibrary.py:278-316 | right rotation undoes left rotation and vice versa |
| `Library.RedBlackTree.Descend` | gatorLibrary.py:215-224 | the descent of `insert` follows the insertion path (equal keys go right); `y` is the last node passed, a node of the tree, and `None` exactly when the tree is empty |
| `Library.RedBlackTree.HangNode` | gatorLibrary.py:226-236 | the new node's parent is set, it becomes the root or the child on the side its key selects, and it is coloured red |
| `Library.RedBlackTree.Attach` | gatorLibrary.py:226-236 | after hanging the red leaf, the tree is the old tree with the leaf at the insertion path, in the loop state of `fix_insert` |
| `Library.RedBlackTree.RecolorUp` | gatorLibrary.py:245-250 | case 1 (red uncle): the grandparent subtree becomes `Recolored` (parent and uncle black, grandparent red) and the grandparent becomes `k`; order and books are kept; counter +1 |
| `Fixup.RecoloredRules` | gatorLibrary.py:245-250 | the recoloured grandparent subtree is balanced with the same black height, has no red-red edge and is red on top |
| `Library.RedBlackTree.Straighten` | gatorLibrary.py:252-254 | case 2: an inner grandchild is rotated to an outer one and becomes `k`; order and books are kept |
| `Library.RedBlackTree.RotateUp` | gatorLibrary.py:255-258 | cases 2 and 3: the grandparent subtree becomes `Restructured` (straightened, parent black, grandparent red and rotated down); the red-red edge is gone; order and books are kept; counter +2 |
| `Fixup.RestructuredRules` | gatorLibrary.py:252-258 | the restructured subtree is balanced with the same black height, has no red-red edge and has a black top |
| `Library.RedBlackTree.FixInsertStep` | gatorLibrary.py:242-274 | one loop round keeps the insertion loop state with `k` strictly higher, and keeps order, node set and books; the counter grows by 1 when the uncle is red and by 2 otherwise |
| `Library.RedBlackTree.FixInsert` | gatorLibrary.py:241-275 | `fix_insert` ends with a red-black tree (black root, no red-red edge, equal black height) and the same order, nodes and books; the counter never decreases |
| `Library.RedBlackTree.Insert` | gatorLibrary.py:214-239 | the new node enters the in-order sequence right after every key not greater than its own; the node set grows by exactly it; the red-black rules hold; no book changes; the counter grows by at least the 1 of line 238 |
| `Content.InsertKeysSorted` | gatorLibrary.py:219-233 | hanging a leaf at the end of the descent keeps the keys non-decreasing |
| `Library.RedBlackTree.InsertBook` | gatorLibrary.py:207-212 | exactly one book, not borrowed and with no reservations, joins the contents at its rank; the other books are unchanged; the tree stays a valid red-black tree; the counter grows |
| `Library.RedBlackTree.Transplant` | gatorLibrary.py:62-69 | `u`'s parent (or the root) now points at `v`, and `v`'s parent is `u`'s parent, even when `v` is `NIL` |
| `Library.RedBlackTree.Minimum` | gatorLibrary.py:71-74 | returns the leftmost node of the subtree: the first in in-order and holding its least key |
| `Removal.MinLeast` | gatorLibrary.py:71-74 | the leftmost node is first in in-order and its key is not greater than any key of the subtree |
| `Library.RedBlackTree.Detach` | gatorLibrary.py:148-151 | the successor leaves its place and takes over `z`'s right subtree; when it is `z`'s own right child, the parent of `x` is set to it (corrected, see Findings) |
| `Library.RedBlackTree.Replace` | gatorLibrary.py:152-155 | the successor takes `z`'s place, left subtree and colour |
| `Library.RedBlackTree.UnlinkChild` | gatorLibrary.py:138-143 | a node with at most one child is replaced by that child; `x` roots the moved-up subtree and knows its parent |
| `Library.RedBlackTree.UnlinkSuccessor` | gatorLibrary.py:144-155 | a node with two children is replaced by its successor; the spliced colour is reported |
| `Removal.RemovedContent` | gatorLibrary.py:135-155 | splicing a node out leaves the in-order sequence of its left subtree followed by that of its right subtree |
| `Removal.RemovalContent` | gatorLibrary.py:135-155 | in the whole tree exactly the removed node leaves the in-order and key sequences, at its position `j`; order is kept |
| `Removal.RemovalRules` | gatorLibrary.py:137-161 | a red spliced colour leaves a red-black tree; a black one leaves the tree one black short exactly at `x`'s position |
| `Rebalance.SiblingRedRules` | gatorLibrary.py:80-86 | case 1 (red sibling): recolour and rotate the parent; `x` is still one black short, now below a red parent |
| `Rebalance.SiblingPaledRules` | gatorLibrary.py:88-90 | case 2 (both nephews black): the sibling turns red and the shortage moves up to the parent |
| `Rebalance.NearRaisedRules` | gatorLibrary.py:92-98 | case 3 (near nephew red): rotating the sibling makes the far nephew red, without changing the black heights |
| `Rebalance.FarRaisedRules` | gatorLibrary.py:100-104 | case 4 (far nephew red): the rotated parent subtree is balanced at the full height, has no red-red edge and keeps the parent's colour |
| `Rebalance.DeleteExit` | gatorLibrary.py:132 | colouring the final `x` black restores the red-black rules when `x` is red or the root |
| `Library.RedBlackTree.DarkenSibling` | gatorLibrary.py:79-86 | case 1: a red sibling turns black, the parent red and is rotated down; `x` keeps its parent, now red, and gets the old sibling's near child as its black sibling; when case 1 runs the parent's subtree becomes `SiblingRed` and the counter gets +2; otherwise the ghost tree and the counter are unchanged |
| `Library.RedBlackTree.ResolveSibling` | gatorLibrary.py:88-104 | cases 2 to 4 at a black sibling: case 2 moves `x` up to the parent, cases 3 and 4 end at the root in the loop state; order, nodes and books are kept; counter +0 / +2 / +1 iff the parent was red |
| `Library.RedBlackTree.FixDeleteStep` | gatorLibrary.py:77-131 | one loop round (both mirrored halves) keeps the deletion loop state, moving `x` up or onto a red node; order, nodes and books are kept; the counter grows by exactly `DeleteRoundFlips` (case 1 +2, case 3 +2, case 4 +1 iff the parent was red) |
| `Library.RedBlackTree.FixDelete` | gatorLibrary.py:76-132 | `fix_delete` ends with a red-black tree and the same order, nodes and books; the counter never decreases |
| `Library.RedBlackTree.DeleteNode` | gatorLibrary.py:135-161 | exactly node `z` leaves the in-order and key sequences (at its position); the other nodes keep their order and books; the red-black rules hold again |
| `Library.RedBlackTree.DeleteBook` | gatorLibrary.py:164-174 | a missing id changes nothing; otherwise the book of the node `_search` finds (the first equal id on the search path) leaves the contents at its position, the others keep their order, and the cancelled patrons are its reservation patrons in list order; the counter never decreases, and is unchanged for a missing id |
| `Library.RedBlackTree.PrintBook` | gatorLibrary.py:184-190 | the book of the node `_search` finds, which holds that id and is in the contents, or `None` exactly when no book has the id |
| `Reservations.PatronIds` | gatorLibrary.py:187 | the patron ids of a reservation list, position by position |
| `Reservations.Insert` | gatorLibrary.py:327-328 | the extended list has one more entry: the old entries plus the new reservation |
| `Reservations.InsertSorted` | gatorLibrary.py:327-328 | inserting into a sorted reservation list keeps it sorted by (priority, patron id) |
| `Reservations.SortedUnique` | gatorLibrary.py:328 | two sorted lists with the same entries are equal, so `sort()` has one possible result |
| `Reservations.AppendThenSort` | gatorLibrary.py:327-328 | `append` followed by any sorted permutation is exactly `Insert` |
| `Reservations.PopFront` | gatorLibrary.py:338 | `pop(0)` on a sorted list takes a least entry and leaves the rest sorted, with the same other entries |
| `Circulation.Lent` | gatorLibrary.py:321-329 | an available book becomes "No" and lent to the patron; otherwise the reservation is added and nothing else changes |
| `Circulation.Returned` | gatorLibrary.py:336-344 | with reservations, the head's patron becomes the borrower and leaves the list, and the book stays unavailable; without them, "Yes" and no borrower |
| `Circulation.LentKept` | gatorLibrary.py:319-329 | borrowing keeps the reservation list sorted, and keeps an available book unlent and unreserved |
| `Circulation.ReturnedKept` | gatorLibrary.py:334-344 | a valid return keeps the same book state |
| `Circulation.ReturnedFirst` | gatorLibrary.py:337-339 | the promoted patron holds a least reservation, and the remaining list stays sorted |
| `Circulation.BorrowReturn` | gatorLibrary.py:319-344 | borrowing an available book and returning it restores the book exactly |
| `Circulation.ReserveReturn` | gatorLibrary.py:326-340 | a single reservation on a lent book is promoted by the return |
| `Library.RedBlackTree.BorrowBook` | gatorLibrary.py:319-331 | a missing id changes nothing; otherwise only the found book changes, to `Lent`, and it stays in place; the outcome says lent vs reserved |
| `Library.RedBlackTree.ReturnBook` | gatorLibrary.py:334-346 | an invalid return (missing book or other patron) changes nothing; otherwise only the found book changes, to `Returned`, and the outcome names the allotted patron |
| `Library.RedBlackTree.RangeFrom` | gatorLibrary.py:193-202 | the pointer walk of `_print_range` lists exactly the ghost pruned in-order walk |
| `Ranges.PrunedExact` | gatorLibrary.py:193-202 | with distinct ids, the pruned walks list exactly the nodes in the range, in in-order and in pre-order |
| `Ranges.PrunedInterior` | gatorLibrary.py:193-202 | even with duplicate ids, every node strictly inside the range is printed |
| `Reports.WalksExact` | gatorLibrary.py:192-204 | with distinct ids, the printed books are the library's books filtered to the range, in id order |
| `Library.RedBlackTree.PrintBooks` | gatorLibrary.py:192-204 | every printed book is in the library and in `[bookID1, bookID2]`; every book strictly inside is printed; with distinct ids, exactly the range, ascending |
| `Library.RedBlackTree.ClosestFrom` | gatorLibrary.py:362-370 | the pointer walk of `_find_books_in_range` lists exactly the ghost pruned pre-order walk |
| `Ranges.PrunedPreEmpty` | gatorLibrary.py:362-379 | the pre-order walk finds nothing iff no key lies in the window |
| `Library.RedBlackTree.Closest` | gatorLibrary.py:362-373 | the collected books are in the library and in the window; empty iff none is; with distinct ids, exactly the window's books in pre-order |
| `Library.RedBlackTree.FindClosestBook` | gatorLibrary.py:361-379 | books within `range` (default 3) of the target, in pre-order; "No books found" exactly when that set is empty |
| `Library.RedBlackTree.ColorFlipCount` | gatorLibrary.py:384-385 | the report is the counter less the fixed offset 3 |
| `ReservationHeap.Heap.MinHeapifyUp` | gatorLibrary.py:33-36 | sifting up from the one out-of-place entry makes a min-heap on priority with the same entries |
| `ReservationHeap.Heap.MinHeapifyDown` | gatorLibrary.py:38-52 | sifting down from the one out-of-place entry makes a min-heap on priority with the same entries |
| `ReservationHeap.Heap.AddReservation` | gatorLibrary.py:20-23 | the heap stays a min-heap and gains exactly the new entry |
| `ReservationHeap.Heap.PopReservation` | gatorLibrary.py:25-31 | `None` exactly on an empty heap; otherwise an entry of least priority, removed exactly once, and the rest is still a heap |
| `ReservationHeap.RootIsMinimal` | gatorLibrary.py:25-31 | the top of a min-heap has the least priority |
| `Splice.DetachedAsWritten` | gatorLibrary.py:148-151 | lines 148-151 as written: nothing is updated when the successor is `z`'s own right child |
| `Splice.DetachedDiffer` | gatorLibrary.py:148-151 | the written and corrected splices differ only at `x`'s parent pointer, and they part exactly when that pointer is stale |
| `Splice.StaleParentWitness` | gatorLibrary.py:148-161 | on a reachable tree, the code as written leaves `NIL`'s parent at a leaf that is not its parent; the corrected splice names the right parent |

## Findings

| source | as written | input that shows it | evidently intended | confidence | as-written member | corrected member |
|---|---|---|---|---|---|---|
| gatorLibrary.py:148-151 | when the successor `y` is `z`'s right child, `x.parent = y` is never set; for `x = NIL`, `fix_delete(NIL)` then starts from a stale `NIL.parent` | insert 1, 2, 3, 0; delete 0 (leaves `NIL.parent` = node 1); delete 2: `y` = 3, `x` = `NIL`, whose parent is still node 1, now a leaf; `fix_delete` takes `NIL` as the sibling and reads `NIL.left.color` (`None`) | set `x.parent = y` in that case, as in Cormen et al. | high, not executed | `Splice.StaleParentWitness` | `Library.RedBlackTree.Detach` |

## Left out

- The `main` driver is not modelled: script reading, `sys.stdout` redirection and `exec` of each line. These are I/O and dynamic evaluation.
- Quit only prints, so it is not modelled.
- The commented-out second `DeleteBook` is dead code and is not modelled.
- Output text is not modelled. The reports return values instead of printed text: `Book`s, `Loan`, `Handback`, and the cancelled patron ids.
  - The f-string layouts, Python's list and tuple `repr`, and `borrowedBy or 'None'` are not modelled.
  - `FindClosestBook` prints raw reservation tuples where `PrintBook` prints patron ids. The model returns the same `Book` value in both cases.
- The `time.time()` stamp of `add_reservation` is a caller-supplied `real` that is never compared.
- Library.RedBlackTree.DeleteNode uses the corrected successor splice (see Findings), not the code as written. The written splice is modelled separately as `Splice.DetachedAsWritten`.
- Library.RedBlackTree.PrintBooks is exact only for trees with distinct ids. With duplicate ids, rotations can move an equal key into a pruned left subtree, so a book whose id equals `bookID1` or `bookID2` may be skipped. The contract then promises only soundness and the strict interior.
- Library.RedBlackTree.FindClosestBook is exact (equal to the window's books in pre-order) only for trees with distinct ids, and so is its helper `Library.RedBlackTree.Closest`. For all trees both promise soundness and "empty iff no book in the window".
- Library.RedBlackTree.FixInsert states only that the counter never decreases; the exact growth of each loop round (+1 or +2) is stated by `Library.RedBlackTree.FixInsertStep`. A total would need a sum over the rounds the loop takes.
- Library.RedBlackTree.Insert states only that the counter grows by at least the 1 of line 238, for the same reason as `FixInsert`.
- Library.RedBlackTree.InsertBook states only that the counter grows, for the same reason as `FixInsert`.
- Library.RedBlackTree.DeleteBook states only that the counter never decreases when a book is deleted, for the same reason as `FixDelete`.
- Library.RedBlackTree.FixDelete states only that the counter never decreases; the exact growth of each loop round is stated by `Library.RedBlackTree.FixDeleteStep`, and of each rotation by `Library.RedBlackTree.Rotate`.
- Library.RedBlackTree.DeleteNode states only that the counter never decreases, for the same reason as `FixDelete`.
- The heap methods take `IsHeap` as a precondition. In the source that holds only because `reservations` is filled by these methods alone. The library itself fills the list with `append`/`sort()`, and never calls the heap methods.
