/**
 * The indexed treap façade (src/treap.rs): a sequence container over one
 * owned root node, with positional insertion, push, indexing, range
 * traversal over an explicit work stack, and a linear bulk build.
 */
module Treap {
  import opened Wrappers
  import opened Nodes

  /** Length of the chunks the bulk build cuts its input into. */
  const CHUNK_SIZE: nat := BLOCK_SIZE / 2

  function Max(a: nat, b: nat): nat { if a >= b then a else b }
  function Min(a: nat, b: nat): nat { if a <= b then a else b }

  // ---------------------------------------------------------------------
  // Half-open position ranges, `start..end` as in Rust
  // ---------------------------------------------------------------------

  datatype Range = Range(start: nat, end: nat)

  predicate Contains(r: Range, p: nat)
  {
    r.start <= p < r.end
  }

  /** Rust's `Range::is_empty`: no position lies in the range. */
  predicate IsEmpty(r: Range)
  {
    !(r.start < r.end)
  }

  /** The positions lying in both ranges. */
  function IntersectRanges(r1: Range, r2: Range): (r: Range)
    ensures forall p :: Contains(r, p) <==> Contains(r1, p) && Contains(r2, p)
  {
    Range(Max(r1.start, r2.start), Min(r1.end, r2.end))
  }

  /** The intersection is empty exactly when the two ranges share no position. */
  lemma IntersectionEmptyIff(r1: Range, r2: Range)
    ensures IsEmpty(IntersectRanges(r1, r2)) <==> !exists p :: Contains(r1, p) && Contains(r2, p)
  {
    var r := IntersectRanges(r1, r2);
    if !IsEmpty(r) {
      assert Contains(r, r.start);
    }
  }

  // ---------------------------------------------------------------------
  // What a traversal yields
  // ---------------------------------------------------------------------

  /**
   * The elements of `s`, placed at positions `base`, `base + 1`, ...,
   * whose positions lie in `sel`, in position order.
   */
  ghost function Window<T>(s: seq<T>, base: nat, sel: Range): seq<T>
  {
    var lo := Max(base, sel.start);
    var hi := Min(base + |s|, sel.end);
    if lo < hi then s[lo - base..hi - base] else []
  }

  lemma WindowOutside<T>(s: seq<T>, base: nat, sel: Range)
    requires IsEmpty(IntersectRanges(Range(base, base + |s|), sel))
    ensures Window(s, base, sel) == []
  {
  }

  /** Splitting a placed sequence at position `mid` splits its window there. */
  lemma WindowSplit<T>(a: seq<T>, b: seq<T>, base: nat, mid: nat, sel: Range)
    requires mid == base + |a|
    ensures Window(a + b, base, sel) == Window(a, base, sel) + Window(b, mid, sel)
  {
    if sel.end <= mid {
      WindowSplitBefore(a, b, base, mid, sel);
    } else if mid <= sel.start {
      WindowSplitAfter(a, b, base, mid, sel);
    } else {
      WindowSplitAcross(a, b, base, mid, sel);
    }
  }

  /** A selection ending before `mid` sees only the first part. */
  lemma WindowSplitBefore<T>(a: seq<T>, b: seq<T>, base: nat, mid: nat, sel: Range)
    requires mid == base + |a| && sel.end <= mid
    ensures Window(b, mid, sel) == []
    ensures Window(a + b, base, sel) == Window(a, base, sel)
  {
    var lo := Max(base, sel.start);
    if lo < sel.end {
      assert (a + b)[lo - base..sel.end - base] == a[lo - base..sel.end - base];
    }
  }

  /** A selection starting at or after `mid` sees only the second part. */
  lemma WindowSplitAfter<T>(a: seq<T>, b: seq<T>, base: nat, mid: nat, sel: Range)
    requires mid == base + |a| && mid <= sel.start
    ensures Window(a, base, sel) == []
    ensures Window(a + b, base, sel) == Window(b, mid, sel)
  {
    var hi := Min(mid + |b|, sel.end);
    if sel.start < hi {
      assert (a + b)[sel.start - base..hi - base] == b[sel.start - mid..hi - mid];
    }
  }

  /** A selection straddling `mid` sees a suffix of the first part and a prefix of the second. */
  lemma WindowSplitAcross<T>(a: seq<T>, b: seq<T>, base: nat, mid: nat, sel: Range)
    requires mid == base + |a| && sel.start < mid < sel.end
    ensures Window(a + b, base, sel) == Window(a, base, sel) + Window(b, mid, sel)
  {
    var lo := Max(base, sel.start);
    var hi := Min(mid + |b|, sel.end);
    assert Window(a, base, sel) == a[lo - base..];
    assert Window(b, mid, sel) == b[..hi - mid];
    assert Window(a + b, base, sel) == (a + b)[lo - base..hi - base];
    SliceAcross(a, b, lo - base, hi - base);
  }

  /** A slice of a concatenation that straddles the join. */
  lemma SliceAcross<T>(a: seq<T>, b: seq<T>, i: nat, j: nat)
    requires i <= |a| <= j <= |a| + |b|
    ensures (a + b)[i..j] == a[i..] + b[..j - |a|]
  {
    var ab := a + b;
    assert ab[i..j] == ab[i..|a|] + ab[|a|..j];
    assert ab[i..|a|] == a[i..];
    assert ab[|a|..j] == b[..j - |a|];
  }

  /** A node on the work stack with the positions it covers. */
  datatype Span<T> = Span(node: Node<T>, range: Range)

  /** The span's range has exactly as many positions as its node has elements. */
  ghost predicate Placed<T>(sp: Span<T>)
  {
    SizeOk(sp.node) && sp.range.end == sp.range.start + |Flatten(sp.node)|
  }

  /** What the stack still has to yield: the top entry's window first. */
  ghost function Pending<T>(stack: seq<Span<T>>, sel: Range): seq<T>
  {
    if stack == [] then []
    else
      var top := stack[|stack| - 1];
      Window(Flatten(top.node), top.range.start, sel) + Pending(stack[..|stack| - 1], sel)
  }

  /** Nodes still reachable from the stack; the traversal's termination measure. */
  function Weight<T>(stack: seq<Span<T>>): nat
  {
    if stack == [] then 0 else NodeCount(stack[|stack| - 1].node) + Weight(stack[..|stack| - 1])
  }

  /**
   * The work stack's invariant: every entry's range has as many positions
   * as its node has elements and meets the selection, and entries nearer
   * the top cover earlier positions.
   */
  ghost predicate StackOk<T>(stack: seq<Span<T>>, sel: Range)
  {
    && (forall k :: 0 <= k < |stack| ==> Placed(stack[k]))
    && (forall k :: 0 <= k < |stack| ==> !IsEmpty(IntersectRanges(stack[k].range, sel)))
    && (forall j, k :: 0 <= j < k < |stack| ==> stack[k].range.end <= stack[j].range.start)
  }

  lemma PendingPush<T>(stack: seq<Span<T>>, sp: Span<T>, sel: Range)
    ensures Pending(stack + [sp], sel) == Window(Flatten(sp.node), sp.range.start, sel) + Pending(stack, sel)
    ensures Weight(stack + [sp]) == NodeCount(sp.node) + Weight(stack)
  {
    assert (stack + [sp])[..|stack|] == stack;
  }

  /** Popping the top entry keeps the invariant; the top entry lies before all the rest. */
  lemma StackPop<T>(stack: seq<Span<T>>, sel: Range)
    requires StackOk(stack, sel) && stack != []
    ensures Placed(stack[|stack| - 1]) && !IsEmpty(IntersectRanges(stack[|stack| - 1].range, sel))
    ensures StackOk(stack[..|stack| - 1], sel)
    ensures forall j :: 0 <= j < |stack| - 1 ==> stack[|stack| - 1].range.end <= stack[j].range.start
  {
    var rest := stack[..|stack| - 1];
    assert forall j :: 0 <= j < |rest| ==> rest[j] == stack[j];
  }

  /** Pushing an entry that meets the selection and lies before the rest. */
  lemma StackPush<T>(stack: seq<Span<T>>, sp: Span<T>, sel: Range)
    requires StackOk(stack, sel) && Placed(sp) && !IsEmpty(IntersectRanges(sp.range, sel))
    requires forall j :: 0 <= j < |stack| ==> sp.range.end <= stack[j].range.start
    ensures StackOk(stack + [sp], sel)
  {
    assert forall j :: 0 <= j < |stack| ==> (stack + [sp])[j] == stack[j];
  }

  /**
   * An inner node's window is its left child's window followed by its
   * right child's, the right child's positions starting at `rightStart`,
   * where the left child's end.
   */
  lemma InnerWindow<T>(n: Node<T>, start: nat, rightStart: nat, sel: Range)
    requires SizeOk(n) && n.Inner? && rightStart == start + Len(n.left)
    ensures SizeOk(n.left) && SizeOk(n.right) && Len(n) == Len(n.left) + Len(n.right)
    ensures Window(Flatten(n), start, sel)
         == Window(Flatten(n.left), start, sel) + Window(Flatten(n.right), rightStart, sel)
  {
    WindowSplit(Flatten(n.left), Flatten(n.right), start, rightStart, sel);
  }

  /** An inner top entry's pending elements are its children's windows, then the rest's. */
  lemma PendingInner<T>(stack: seq<Span<T>>, top: Span<T>, rest: seq<Span<T>>, rightStart: nat, sel: Range)
    requires stack != [] && top == stack[|stack| - 1] && rest == stack[..|stack| - 1]
    requires SizeOk(top.node) && top.node.Inner? && rightStart == top.range.start + Len(top.node.left)
    ensures Pending(stack, sel)
         == Window(Flatten(top.node.left), top.range.start, sel)
            + (Window(Flatten(top.node.right), rightStart, sel) + Pending(rest, sel))
  {
    InnerWindow(top.node, top.range.start, rightStart, sel);
    Reassociate(Pending(stack, sel), Window(Flatten(top.node.left), top.range.start, sel),
                Window(Flatten(top.node.right), rightStart, sel), Pending(rest, sel));
  }

  /**
   * Associativity of concatenation, stated on plain sequences. It states
   * nothing new; it only keeps the solver from unfolding `Window` and
   * `Pending` while regrouping in `PendingInner`, which otherwise runs out
   * of resource.
   */
  lemma Reassociate<T>(whole: seq<T>, x: seq<T>, y: seq<T>, z: seq<T>)
    requires whole == (x + y) + z
    ensures whole == x + (y + z)
  {
  }

  /** Pushes an entry for `node` at `start..end` only when that range meets the selection. */
  method PushIfMeets<T>(stack: seq<Span<T>>, node: Node<T>, start: nat, end: nat, sel: Range)
    returns (stack': seq<Span<T>>)
    requires StackOk(stack, sel) && Placed(Span(node, Range(start, end)))
    requires forall j :: 0 <= j < |stack| ==> end <= stack[j].range.start
    ensures StackOk(stack', sel)
    ensures Pending(stack', sel) == Window(Flatten(node), start, sel) + Pending(stack, sel)
    ensures Weight(stack') <= NodeCount(node) + Weight(stack)
    ensures forall j :: 0 <= j < |stack'| ==> start <= stack'[j].range.start
  {
    var sp := Span(node, Range(start, end));
    if !IsEmpty(IntersectRanges(sp.range, sel)) {
      StackPush(stack, sp, sel);
      PendingPush(stack, sp, sel);
      stack' := stack + [sp];
    } else {
      WindowOutside(Flatten(node), start, sel);
      stack' := stack;
    }
  }

  /**
   * The inner-node step of the traversal: pop the top entry and push those
   * of its children whose ranges meet the selection, the right child first.
   */
  method Descend<T>(stack: seq<Span<T>>, sel: Range) returns (stack': seq<Span<T>>)
    requires StackOk(stack, sel) && stack != [] && stack[|stack| - 1].node.Inner?
    ensures StackOk(stack', sel)
    ensures Pending(stack', sel) == Pending(stack, sel)
    ensures Weight(stack') < Weight(stack)
  {
    var top := stack[|stack| - 1];
    var rest := stack[..|stack| - 1];
    var rightStart := top.range.start + Len(top.node.left);
    StackPop(stack, sel);
    InnerWindow(top.node, top.range.start, rightStart, sel);
    PendingInner(stack, top, rest, rightStart, sel);
    var mid := PushIfMeets(rest, top.node.right, rightStart, top.range.end, sel);
    stack' := PushIfMeets(mid, top.node.left, top.range.start, rightStart, sel);
  }

  /** What a leaf top entry yields: the slice of its block inside the selection. */
  lemma PendingLeaf<T>(stack: seq<Span<T>>, top: Span<T>, rest: seq<Span<T>>, from: int, to: int, sel: Range)
    requires stack != [] && top == stack[|stack| - 1] && rest == stack[..|stack| - 1]
    requires Placed(top) && top.node.Leaf? && !IsEmpty(IntersectRanges(top.range, sel))
    requires from == IntersectRanges(top.range, sel).start - top.range.start
    requires to == IntersectRanges(top.range, sel).end - top.range.start
    ensures 0 <= from <= to <= |top.node.block|
    ensures Pending(stack, sel) == top.node.block[from..to] + Pending(rest, sel)
  {
    assert Window(Flatten(top.node), top.range.start, sel) == top.node.block[from..to];
  }

  /**
   * Drains the iterator over `block[from..to]`: its elements are appended
   * to `out` one at a time, in order.
   */
  method YieldSlice<T>(block: seq<T>, from: nat, to: nat, out: seq<T>) returns (out': seq<T>)
    requires from <= to <= |block|
    ensures out' == out + block[from..to]
  {
    out' := out;
    var k := from;
    while k < to
      invariant from <= k <= to
      invariant out' == out + block[from..k]
    {
      assert block[from..k + 1] == block[from..k] + [block[k]];
      out' := out' + [block[k]];
      k := k + 1;
    }
  }

  /**
   * The leaf step of the traversal: pop the top entry and yield, one by
   * one, the elements of its block whose positions meet the selection.
   */
  method DrainLeaf<T>(stack: seq<Span<T>>, sel: Range, out: seq<T>) returns (stack': seq<Span<T>>, out': seq<T>)
    requires StackOk(stack, sel) && stack != [] && stack[|stack| - 1].node.Leaf?
    ensures StackOk(stack', sel)
    ensures out' + Pending(stack', sel) == out + Pending(stack, sel)
    ensures Weight(stack') < Weight(stack)
  {
    var top := stack[|stack| - 1];
    stack' := stack[..|stack| - 1];
    StackPop(stack, sel);
    var selected := IntersectRanges(top.range, sel);
    var from, to := selected.start - top.range.start, selected.end - top.range.start;
    PendingLeaf(stack, top, stack', from, to, sel);
    out' := YieldSlice(top.node.block, from, to, out);
    Handover(out', out, top.node.block[from..to], Pending(stack', sel), Pending(stack, sel));
  }

  /** Yielding the top entry's elements moves them from the pending part to the output. */
  lemma Handover<T>(out': seq<T>, out: seq<T>, yielded: seq<T>, rest: seq<T>, pending: seq<T>)
    requires out' == out + yielded && pending == yielded + rest
    ensures out' + rest == out + pending
  {
  }

  // ---------------------------------------------------------------------
  // Bulk build
  // ---------------------------------------------------------------------

  /**
   * A length the merge loop produces from full chunks: CHUNK_SIZE times a
   * power of two.
   */
  predicate FullRun(len: nat)
  {
    len == CHUNK_SIZE || (len > CHUNK_SIZE && len % 2 == 0 && FullRun(len / 2))
  }

  lemma {:induction false} FullRunAtLeastChunk(x: nat)
    requires FullRun(x)
    ensures x >= CHUNK_SIZE
  {
    if x != CHUNK_SIZE {
      FullRunAtLeastChunk(x / 2);
    }
  }

  /** Two different full runs differ at least by a factor of two. */
  lemma {:induction false} FullRunsApart(x: nat, y: nat)
    requires FullRun(x) && FullRun(y) && x > y
    ensures x >= 2 * y
  {
    if y == CHUNK_SIZE {
      FullRunAtLeastChunk(x / 2);
    } else {
      FullRunsApart(x / 2, y / 2);
    }
  }

  lemma FullRunDoubles(x: nat)
    requires FullRun(x)
    ensures FullRun(2 * x) && x >= CHUNK_SIZE
  {
    FullRunAtLeastChunk(x);
    assert (2 * x) / 2 == x;
  }

  /** A subtree the bulk build may put on its stack. */
  ghost predicate Built<T>(n: Node<T>)
  {
    SizeOk(n) && LeavesAtMost(n, CHUNK_SIZE)
  }

  /** The elements of a stack of subtrees, bottom first. */
  ghost function Concat<T>(tree: seq<Node<T>>): seq<T>
  {
    if tree == [] then [] else Concat(tree[..|tree| - 1]) + Flatten(tree[|tree| - 1])
  }

  lemma ConcatPush<T>(tree: seq<Node<T>>, n: Node<T>)
    ensures Concat(tree + [n]) == Concat(tree) + Flatten(n)
  {
    assert (tree + [n])[..|tree|] == tree;
  }

  /**
   * The build stack's shape between chunks: well-built subtrees of strictly
   * decreasing length, each a full run of chunks.
   */
  ghost predicate Decreasing<T>(tree: seq<Node<T>>)
  {
    && (forall k :: 0 <= k < |tree| ==> Built(tree[k]))
    && (forall j, k :: 0 <= j < k < |tree| ==> Len(tree[j]) > Len(tree[k]))
  }

  /**
   * The build stack inside the merge loop: below the top it is as between
   * chunks, and the top is no longer than anything beneath it. The top is a
   * full run unless it holds the short last chunk.
   */
  ghost predicate Merging<T>(tree: seq<Node<T>>, short: bool)
  {
    && tree != []
    && Decreasing(tree[..|tree| - 1])
    && Built(tree[|tree| - 1])
    && (forall j :: 0 <= j < |tree| - 1 ==> FullRun(Len(tree[j])) && Len(tree[j]) >= Len(tree[|tree| - 1]))
    && (FullRun(Len(tree[|tree| - 1])) || short)
  }

  lemma MergingStarts<T>(tree: seq<Node<T>>, block: seq<T>)
    requires Decreasing(tree) && forall k :: 0 <= k < |tree| ==> FullRun(Len(tree[k]))
    requires 0 < |block| <= CHUNK_SIZE
    ensures Merging(tree + [Leaf(block)], |block| < CHUNK_SIZE)
    ensures Concat(tree + [Leaf(block)]) == Concat(tree) + block
  {
    var t := tree + [Leaf(block)];
    assert t[..|t| - 1] == tree;
    ConcatPush(tree, Leaf(block));
    forall k | 0 <= k < |tree| ensures Len(tree[k]) >= CHUNK_SIZE {
      FullRunDoubles(Len(tree[k]));
    }
    assert |block| == CHUNK_SIZE ==> FullRun(|block|);
  }

  /**
   * The body of the merge loop: pop the right node, pop the left one, and
   * push an inner node over both whose size is the sum of their lengths.
   */
  method MergeTop<T>(tree: seq<Node<T>>, ghost short: bool) returns (tree': seq<Node<T>>)
    requires Merging(tree, short) && |tree| >= 2
    requires Len(tree[|tree| - 1]) == Len(tree[|tree| - 2])
    ensures Merging(tree', short) && |tree'| == |tree| - 1
    ensures Concat(tree') == Concat(tree)
  {
    var right := tree[|tree| - 1];
    var left := tree[|tree| - 2];
    var rest := tree[..|tree| - 2];
    var size := Len(left) + Len(right);
    var merged := Inner(size, left, right);
    tree' := rest + [merged];

    assert tree == rest + [left] + [right];
    assert tree[..|tree| - 1] == rest + [left];
    ConcatPush(rest, left);
    ConcatPush(rest + [left], right);
    ConcatPush(rest, merged);
    assert Built(left) && FullRun(Len(left));
    FullRunDoubles(Len(left));
    assert Len(merged) == 2 * Len(left);
    assert Decreasing(rest) by {
      assert forall j :: 0 <= j < |rest| ==> rest[j] == (rest + [left])[j];
    }
    forall j | 0 <= j < |rest|
      ensures FullRun(Len(rest[j])) && Len(rest[j]) >= Len(merged)
    {
      assert rest[j] == tree[j];
      FullRunsApart(Len(rest[j]), Len(left));
    }
    assert tree'[..|tree'| - 1] == rest;
  }

  lemma MergingStops<T>(tree: seq<Node<T>>, short: bool)
    requires Merging(tree, short)
    requires !(|tree| >= 2 && Len(tree[|tree| - 1]) == Len(tree[|tree| - 2]))
    ensures Decreasing(tree)
    ensures forall k :: 0 <= k < |tree| ==> FullRun(Len(tree[k])) || (k == |tree| - 1 && short)
  {
  }

  /**
   * One step of the fold in `from_iter`: push a chunk as a leaf, then merge
   * the two topmost entries while their lengths are equal. The loop stops
   * with the stack strictly decreasing in length again.
   */
  method PushChunk<T>(tree: seq<Node<T>>, block: seq<T>) returns (tree': seq<Node<T>>)
    requires Decreasing(tree) && forall k :: 0 <= k < |tree| ==> FullRun(Len(tree[k]))
    requires 0 < |block| <= CHUNK_SIZE
    ensures tree' != [] && Decreasing(tree')
    ensures Concat(tree') == Concat(tree) + block
    ensures forall k :: 0 <= k < |tree'| ==> FullRun(Len(tree'[k])) || (k == |tree'| - 1 && |block| < CHUNK_SIZE)
  {
    ghost var short := |block| < CHUNK_SIZE;
    MergingStarts(tree, block);
    tree' := tree + [Leaf(block)];
    while |tree'| >= 2 && Len(tree'[|tree'| - 1]) == Len(tree'[|tree'| - 2])
      invariant Merging(tree', short)
      invariant Concat(tree') == Concat(tree) + block
      decreases |tree'|
    {
      tree' := MergeTop(tree', short);
    }
    MergingStops(tree', short);
  }

  /**
   * The first phase of `from_iter`: cut the input into consecutive chunks
   * of CHUNK_SIZE (the last one possibly shorter) and push each onto the
   * merge stack.
   */
  method ChunkStack<T>(s: seq<T>) returns (tree: seq<Node<T>>)
    ensures tree == [] <==> s == []
    ensures Decreasing(tree)
    ensures Concat(tree) == s
    ensures forall k :: 0 <= k < |tree| - 1 ==> FullRun(Len(tree[k]))
  {
    tree := [];
    var i := 0;
    while i < |s|
      invariant i <= |s|
      invariant tree == [] <==> i == 0
      invariant Decreasing(tree)
      invariant Concat(tree) == s[..i]
      invariant forall k :: 0 <= k < |tree| ==> FullRun(Len(tree[k])) || (k == |tree| - 1 && i == |s|)
    {
      var next := if i + CHUNK_SIZE <= |s| then i + CHUNK_SIZE else |s|;
      var block := s[i..next];
      assert s[..next] == s[..i] + block;
      tree := PushChunk(tree, block);
      i := next;
    }
    assert s[..i] == s;
  }

  /**
   * The second phase of `from_iter`: fold the merge stack from the top,
   * each subtree becoming the right child of the one beneath it.
   */
  method FoldStack<T>(tree: seq<Node<T>>) returns (root: Node<T>)
    requires tree != [] && forall k :: 0 <= k < |tree| ==> Built(tree[k])
    ensures Built(root)
    ensures Flatten(root) == Concat(tree)
  {
    var rest := tree[..|tree| - 1];
    root := tree[|tree| - 1];
    while rest != []
      invariant forall k :: 0 <= k < |rest| ==> Built(rest[k])
      invariant Built(root)
      invariant Concat(rest) + Flatten(root) == Concat(tree)
    {
      var left := rest[|rest| - 1];
      rest := rest[..|rest| - 1];
      var size := Len(left) + Len(root);
      root := Inner(size, left, root);
    }
  }

  /**
   * The tree `from_iter` builds: leaves are consecutive chunks of the
   * input, merged by `PushChunk`, and the remaining stack is folded right
   * to left; an empty input gives the empty leaf of `new`.
   */
  method BuildRoot<T>(s: seq<T>) returns (root: Node<T>)
    ensures SizeOk(root) && LeavesAtMost(root, CHUNK_SIZE)
    ensures Flatten(root) == s
    ensures s == [] ==> root == Leaf([])
  {
    var tree := ChunkStack(s);
    if tree == [] {
      root := Leaf([]);
    } else {
      root := FoldStack(tree);
    }
  }

  // ---------------------------------------------------------------------
  // The container
  // ---------------------------------------------------------------------

  class ITreap<T> {
    var root: Node<T>

    ghost predicate Valid()
      reads this
    {
      WellFormed(root)
    }

    /** The sequence the container holds. */
    ghost function Contents(): seq<T>
      reads this
    {
      Flatten(root)
    }

    /** `new` and `Default`: an empty container over an empty leaf. */
    constructor ()
      ensures Valid() && Contents() == [] && root == Leaf([])
    {
      root := Leaf([]);
    }

    /** `from_iter`: a container holding exactly `s`, in order. */
    constructor FromIter(s: seq<T>)
      ensures Valid() && Contents() == s
      ensures LeavesAtMost(root, CHUNK_SIZE)
      ensures s == [] ==> root == Leaf([])
    {
      var built := BuildRoot(s);
      LeavesAtMostMono(built, CHUNK_SIZE, BLOCK_SIZE);
      root := built;
    }

    function Len(): (r: nat)
      reads this
      ensures Valid() ==> r == |Contents()|
    {
      Nodes.Len(root)
    }

    /** Puts `element` at position `index`; later elements shift right. */
    method Insert(index: nat, element: T) returns (slot: T)
      requires Valid() && index <= |Contents()|
      modifies this
      ensures Valid()
      ensures Contents() == old(Contents())[..index] + [element] + old(Contents())[index..]
      ensures slot == element
    {
      var r := Nodes.Insert(root, index, element);
      root := r.node;
      slot := r.slot;
    }

    /** Appends `element`. */
    method Push(element: T) returns (slot: T)
      requires Valid()
      modifies this
      ensures Valid()
      ensures Contents() == old(Contents()) + [element]
      ensures slot == element
    {
      ghost var was := Contents();
      slot := Insert(Len(), element);
      assert was[..|was|] == was && was[|was|..] == [];
    }

    /** The `Index` impl, with the corrected lookup; `unwrap` becomes the precondition. */
    function Index(i: nat): (r: T)
      reads this
      requires Valid() && i < |Contents()|
      ensures r == Contents()[i]
    {
      GetCorrected(root, i).value
    }

    /** The `IndexMut` impl followed by a store of `v`, with the corrected lookup. */
    method IndexMut(i: nat, v: T)
      requires Valid() && i < |Contents()|
      modifies this
      ensures Valid()
      ensures Contents() == old(Contents())[i := v]
    {
      root := GetMutCorrected(root, i, v).value;
    }

    /**
     * The elements at the positions of `sel` that exist, in ascending
     * position order, drained from a work stack of (node, range) pairs on
     * which the right child is pushed before the left one.
     */
    method Between(sel: Range) returns (out: seq<T>)
      requires Valid()
      ensures var hi := Min(sel.end, |Contents()|);
        out == if sel.start < hi then Contents()[sel.start..hi] else []
    {
      var whole := Range(0, Nodes.Len(root));
      var stack: seq<Span<T>> := [];
      if !IsEmpty(IntersectRanges(whole, sel)) {
        stack := [Span(root, whole)];
        PendingPush([], Span(root, whole), sel);
      } else {
        WindowOutside(Contents(), 0, sel);
      }
      out := [];
      while stack != []
        invariant StackOk(stack, sel)
        invariant out + Pending(stack, sel) == Window(Contents(), 0, sel)
        decreases Weight(stack)
      {
        if stack[|stack| - 1].node.Inner? {
          stack := Descend(stack, sel);
        } else {
          stack, out := DrainLeaf(stack, sel, out);
        }
      }
    }

    /** All elements, in order. */
    method Iter() returns (out: seq<T>)
      requires Valid()
      ensures out == Contents()
    {
      out := Between(Range(0, Len()));
    }
  }

  // The usage examples of the container's documentation, as a client.

  method InsertExample()
  {
    var t := new ITreap<int>();
    var slot := t.Insert(0, 7);
    slot := t.Insert(0, 2);
    slot := t.Insert(1, 3);
    var all := t.Iter();
    assert all == [2, 3, 7];
  }

  method PushExample()
  {
    var t := new ITreap<int>();
    var slot := t.Push(2);
    slot := t.Push(4);
    slot := t.Push(6);
    var all := t.Iter();
    assert all == [2, 4, 6];
  }

  method BetweenExample()
  {
    var doubled := seq(10, x => 2 * x);
    var t := new ITreap<int>.FromIter(doubled);
    var some := t.Between(Range(1, 4));
    assert doubled[1..4] == [doubled[1], doubled[2], doubled[3]];
    assert some == [2, 4, 6];
  }

  method EmptyExample()
  {
    var t := new ITreap<int>.FromIter([]);
    var all := t.Iter();
    assert t.Len() == 0 && all == [];
  }
}
