# itreap in Dafny

A verified model of the `itreap` crate's indexed treap. The container holds a
sequence in a binary tree. Leaves are blocks of at most `BLOCK_SIZE` (1000)
elements. Inner nodes cache the number of elements below them and own two
children. The crate's code carries no priorities, rotations or random
source, so neither does the model.

The abstraction function is `Nodes.Flatten`, the in-order concatenation of
the leaf blocks. Every operation is specified against it:

- insertion is list insertion;
- indexing is sequence indexing;
- `between` is slicing clipped to the length;
- `from_iter` is the identity.

Two invariants hold throughout:

- `SizeOk`: every inner node's size is the number of elements below it.
- `LeavesAtMost(n, BLOCK_SIZE)`: no leaf holds more than `BLOCK_SIZE` elements.

Layout:

- `nodes.dfy`, module `Nodes`: the tree of `src/node.rs`.
  - `Node` is a datatype; the `LEFT`/`RIGHT` child indices of src/node.rs:2-3
    become the `left`/`right` fields of `Inner`.
  - `is_leaf` (src/node.rs:47-52) is the datatype test `IsLeaf`, used in
    `Divide`'s precondition and in `IsFull`.
  - `insert` and `divide` rebuild the path they change, as functions that
    return the new node.
  - `get` and `get_mut` are modelled twice: as written, and corrected (see
    Findings).
- `treap.dfy`, module `Treap`: the façade of `src/treap.rs`.
  - `ITreap` is a class whose single field `root` is reassigned by the
    mutating methods.
  - `between` is a method that drains an explicit work stack of
    (node, position range) entries. Its loop invariant states that the
    output so far, followed by what the stack still covers, is the selected
    window of the contents.
  - `from_iter` is a pair of loops over a merge stack:
    - chunks of `BLOCK_SIZE / 2` are pushed, and the two topmost subtrees
      are merged while their lengths are equal;
    - the stack is then folded from the top.

  The documentation examples of `insert`, `push` and `between` appear as
  client methods whose assertions the verifier checks (`InsertExample`,
  `PushExample`, `BetweenExample`). `EmptyExample` exercises the
  empty-input branch of `from_iter` (src/treap.rs:183-185) in the same way.

## Model

| member | source | states |
|---|---|---|
| Nodes.Len | src/node.rs:53-58 | under the size invariant the cached size (or the block length of a leaf) is the number of elements the node holds |
| Nodes.LeavesAtMostMono | src/treap.rs:154 | a tree whose leaves hold at most `BLOCK_SIZE / 2` elements also meets the `BLOCK_SIZE` leaf bound |
| Nodes.Divide | src/node.rs:31-46 | a leaf of n elements becomes an inner node of size n over a leaf of the first n/2 elements and a leaf of the remaining n - n/2, with the same element sequence and a correct size |
| Nodes.Insert | src/node.rs:11-30 | for `index <= len`: the new sequence is the old one with `element` inserted at `index`; both invariants are kept (a full leaf is divided first); the length grows by one; an inner node's size grows by one and the child off the descent path is unchanged; a non-full leaf stays a leaf; the returned slot holds `element` |
| Nodes.InsertedLeft | src/node.rs:22-24 | descending left (`left_size >= index`) and inserting there inserts at `index` in the whole sequence |
| Nodes.InsertedRight | src/node.rs:25-27 | descending right with `index - left_size` inserts at `index` in the whole sequence |
| Nodes.RightStartsInside | src/node.rs:62-69 | every position at which a non-empty right subtree starts is a valid position |
| Nodes.Get | src/node.rs:59-71 | whatever the as-written lookup finds is the element at that position, and it finds nothing at or past the length |
| Nodes.GetAsWritten | src/node.rs:59-71 | the as-written lookup finds the element at `index` exactly when `index < len` and `index` is not the first position of a non-empty right subtree; otherwise it returns `None` |
| Nodes.GetMut | src/node.rs:72-84 | when the as-written `get_mut` finds a slot, storing `v` there gives a well-formed tree whose sequence is the old one with position `index` set to `v` |
| Nodes.GetMutRoutesLikeGet | src/node.rs:59-84 | `get_mut` finds a slot exactly when `get` finds an element |
| Nodes.GetMutAsWritten | src/node.rs:72-84 | the as-written `get_mut` succeeds exactly at the positions `get` succeeds at, and the store updates that position only |
| Nodes.PushLeaf | src/node.rs:12-18 | inserting at the end of a leaf with fewer than `BLOCK_SIZE` elements appends to its block and keeps it a leaf |
| Nodes.Pushes | src/node.rs:11-30 | inserting 0, 1, ..., k - 1 in turn at the end of the empty leaf (what `push` does), for any k, gives a well-formed tree of k elements |
| Nodes.PushesAll | src/node.rs:11-30 | for any number k of such insertions, leaf divisions included, the tree holds exactly `0, 1, ..., k - 1` in order |
| Nodes.PushesLeaf | src/node.rs:12-18 | up to `BLOCK_SIZE` such insertions give the single leaf `[0, 1, ..., k - 1]` |
| Nodes.GetBoundaryCounterexample | src/node.rs:64 | after 1001 insertions at the end of the empty leaf, the tree is well formed and holds 1001 elements, yet the as-written lookup of position 500 returns `None` |
| Nodes.GetCorrected | src/node.rs:59-71 | with the strict comparison, lookup returns `Some` of the element at `index` when `index < len` and `None` otherwise |
| Nodes.GetMutCorrected | src/node.rs:72-84 | with the strict comparison, `get_mut` succeeds exactly when `index < len`, and the store keeps both invariants and sets only that position |
| Treap.IntersectRanges | src/treap.rs:189-191 | a position lies in the intersection exactly when it lies in both ranges |
| Treap.IntersectionEmptyIff | src/treap.rs:189-191 | the intersection is empty exactly when no position lies in both ranges |
| Treap.WindowOutside | src/treap.rs:96-98 | a node whose range does not meet the selection contributes nothing, which is why `between` leaves it off the stack |
| Treap.WindowSplit | src/treap.rs:105-108 | the selected part of two consecutive runs is the selected part of the first followed by that of the second, which starts where the first ends |
| Treap.InnerWindow | src/treap.rs:104-108 | an inner node's selected elements are its left child's at `start..right_start` followed by its right child's at `right_start..end`, with `right_start = start + left.len()` |
| Treap.StackPop | src/treap.rs:103 | popping the work stack keeps its invariant; the popped entry lies before every remaining entry |
| Treap.StackPush | src/treap.rs:109-114 | pushing an entry that meets the selection and lies before the rest keeps the stack invariant |
| Treap.PushIfMeets | src/treap.rs:109-114 | the conditional push keeps the invariant and adds exactly that entry's selected elements in front of what the stack covers |
| Treap.PendingInner | src/treap.rs:104-115 | an inner entry on top of the stack covers its left child's selected elements, then its right child's, then the rest of the stack's |
| Treap.Descend | src/treap.rs:104-115 | replacing an inner entry by its children (right pushed first) keeps the stack invariant and what the stack covers, and strictly decreases the stack's node count |
| Treap.PendingLeaf | src/treap.rs:116-122 | a leaf entry on top of the stack covers `block[selected.start - range.start .. selected.end - range.start]`, a valid slice of its block, followed by the rest of the stack's elements |
| Treap.YieldSlice | src/treap.rs:126-133 | draining the block iterator appends exactly `block[from..to]` to the output, in order |
| Treap.DrainLeaf | src/treap.rs:116-133 | popping a leaf entry and yielding its retained elements keeps the stack invariant and the sum of output and pending elements, and decreases the node count |
| Treap.ITreap.Between | src/treap.rs:92-138 | yields exactly the elements at positions `sel.start..min(sel.end, len)` in ascending order, and nothing when that range is empty |
| Treap.ITreap.Iter | src/treap.rs:78-80 | yields the whole contents in order |
| Treap.FullRunsApart | src/treap.rs:161-172 | two different lengths that the merge loop can produce from full chunks differ at least by a factor of two |
| Treap.MergeTop | src/treap.rs:163-168 | merging the two topmost equal-length subtrees keeps the stack's shape invariant, shrinks it by one, and keeps its concatenated elements |
| Treap.PushChunk | src/treap.rs:156-174 | after a chunk is pushed and merged, the stack is non-empty, strictly decreasing in length, and made of full runs except possibly a short last chunk; its concatenated elements are the old ones followed by the chunk |
| Treap.ChunkStack | src/treap.rs:154-175 | the chunk fold leaves a strictly decreasing stack of well-built subtrees whose concatenated elements are the whole input, empty exactly when the input is |
| Treap.FoldStack | src/treap.rs:176-182 | the right-to-left fold builds one well-built tree holding the stack's elements in order |
| Treap.BuildRoot | src/treap.rs:151-186 | the built tree holds exactly the input sequence, satisfies the size invariant and has leaves of at most `BLOCK_SIZE / 2` elements; an empty input gives the empty leaf |
| Treap.ITreap.constructor | src/treap.rs:28-32 | `new` (and `Default`, src/treap.rs:141-145) gives an empty container over the root `Leaf([])` |
| Treap.ITreap.FromIter | src/treap.rs:147-186 | `from_iter` gives a well-formed container holding exactly the input, with the empty leaf for an empty input |
| Treap.ITreap.Len | src/treap.rs:73-75 | the length is the number of elements held |
| Treap.ITreap.Insert | src/treap.rs:49-51 | positional insertion into the contents, keeping both invariants; the returned slot holds `element` |
| Treap.ITreap.Push | src/treap.rs:68-70 | appends `element` to the contents |
| Treap.ITreap.Index | src/treap.rs:9-16 | the element at position `i`, for `i < len` |
| Treap.ITreap.IndexMut | src/treap.rs:18-24 | storing `v` through the reference sets position `i` and nothing else, for `i < len` |

## Left out

- Priorities, heap order, rotation and a random source: whatever the name "treap" suggests, the crate's code has no priority field, no rotation and no random source. `Inner` carries only a size and two children (src/node.rs:7), so the model has none of them either.
- Nodes.Insert: requires `index <= len`. For a larger index the source first raises the sizes on the descent path and then panics inside `Vec::insert`, leaving the tree inconsistent; the model states the panic condition as a precondition and does not model the partial update.
- Nodes.GetMut: models `get_mut` followed by one store through the returned reference. The reference itself, and any aliasing through it, is not modelled.
- Treap.ITreap.Insert: returns the value the returned `&mut C` designates, not a reference.
- Treap.ITreap.Push: returns the value the returned `&mut C` designates, not a reference.
- Treap.ITreap.Index: uses the corrected lookup; `unwrap` becomes the precondition `i < len`. With the lookup as written it would panic at right-subtree boundaries (see Findings).
- Treap.ITreap.IndexMut: uses the corrected lookup; `unwrap` becomes the precondition `i < len`.
- Treap.ITreap.Between: drains the iterator into a sequence. Laziness, the `from_fn` closure state and lifetimes are not modelled. The traversal order and the work stack are modelled.
- `itertools::chunks` is modelled as slicing the input sequence into consecutive pieces of `BLOCK_SIZE / 2`, the last possibly shorter. The input iterator is a finite sequence.
- `usize` arithmetic is unbounded here. Sizes cannot approach the `usize` limit in memory, so no wrap-around is modelled.
- Cost bounds (O(log(n/B)), O(n)) are not modelled. The "perfectly balanced" shape of `from_iter` is captured only as the merge stack's lengths: full chunks times powers of two, strictly decreasing.
- src/lib.rs holds only module wiring and re-exports; src/lib.rs is not part of this model.

## Findings

| source | as written | input that shows it | evidently intended | confidence | as-written member | corrected member |
|---|---|---|---|---|---|---|
| src/node.rs:64 | `get` descends left when `left_size >= index`, so `index == left_size` is looked up one past the end of the left child and returns `None` | 1001 `push`es into an empty container (the last one divides the full leaf into 500 + 500), then `t[500]`: `get(500)` returns `None` and `index` panics on `unwrap` although 500 < 1001 | descend left only when `left_size > index` | not executed | Nodes.GetAsWritten | Nodes.GetCorrected |
| src/node.rs:77 | `get_mut` uses the same `left_size >= index` test and misses the same positions | the same tree, `get_mut(500)` returns `None`, so `index_mut` panics | descend left only when `left_size > index` | not executed | Nodes.GetMutAsWritten | Nodes.GetMutCorrected |
