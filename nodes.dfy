/** Optional value, standing for Rust's `Option`. */
module Wrappers {
  datatype Option<+T> = None | Some(value: T)
}

/**
 * The tree of an indexed treap (src/node.rs): inner nodes cache the number
 * of elements below them, leaves hold blocks of at most BLOCK_SIZE elements.
 * The logical sequence a tree stands for is `Flatten`, the in-order
 * concatenation of its leaf blocks.
 */
module Nodes {
  import opened Wrappers

  /** Largest number of elements a leaf block may hold. */
  const BLOCK_SIZE: nat := 1000

  /**
   * `Inner(size, left, right)` is the Rust `Inner(size, [left, right])`:
   * `left` is `children[LEFT]` and `right` is `children[RIGHT]`.
   */
  datatype Node<T> = Leaf(block: seq<T>) | Inner(size: nat, left: Node<T>, right: Node<T>)

  /**
   * What `insert` hands back: the updated tree, and the element that the
   * returned mutable reference designates.
   */
  datatype Inserted<T> = Inserted(node: Node<T>, slot: T)

  // ---------------------------------------------------------------------
  // Abstraction function and invariants
  // ---------------------------------------------------------------------

  /** The logical sequence: the leaf blocks concatenated in order. */
  ghost function Flatten<T>(n: Node<T>): seq<T>
  {
    match n
    case Leaf(block) => block
    case Inner(_, left, right) => Flatten(left) + Flatten(right)
  }

  /** Size invariant: every inner node caches the number of elements below it. */
  ghost predicate SizeOk<T>(n: Node<T>)
  {
    match n
    case Leaf(_) => true
    case Inner(size, left, right) =>
      SizeOk(left) && SizeOk(right) && size == |Flatten(left)| + |Flatten(right)|
  }

  /** Every leaf block holds at most `bound` elements. */
  ghost predicate LeavesAtMost<T>(n: Node<T>, bound: nat)
  {
    match n
    case Leaf(block) => |block| <= bound
    case Inner(_, left, right) => LeavesAtMost(left, bound) && LeavesAtMost(right, bound)
  }

  /** The two invariants every tree of the container keeps. */
  ghost predicate WellFormed<T>(n: Node<T>)
  {
    SizeOk(n) && LeavesAtMost(n, BLOCK_SIZE)
  }

  lemma {:induction false} LeavesAtMostMono<T>(n: Node<T>, small: nat, large: nat)
    requires LeavesAtMost(n, small) && small <= large
    ensures LeavesAtMost(n, large)
  {
    match n
    case Leaf(_) =>
    case Inner(_, left, right) =>
      LeavesAtMostMono(left, small, large);
      LeavesAtMostMono(right, small, large);
  }

  /** Number of nodes in a tree; a termination measure. */
  function NodeCount<T>(n: Node<T>): (c: nat)
    ensures c >= 1
  {
    match n
    case Leaf(_) => 1
    case Inner(_, left, right) => 1 + NodeCount(left) + NodeCount(right)
  }

  // ---------------------------------------------------------------------
  // is_leaf, len, divide, insert
  // ---------------------------------------------------------------------

  function IsLeaf<T>(n: Node<T>): bool
  {
    n.Leaf?
  }

  /** The cached size of an inner node, the block length of a leaf. */
  function Len<T>(n: Node<T>): (r: nat)
    ensures SizeOk(n) ==> r == |Flatten(n)|
  {
    match n
    case Leaf(block) => |block|
    case Inner(size, _, _) => size
  }

  /**
   * Promotes a leaf to an inner node over its two halves, split by position;
   * the new node's size is the old block length.
   */
  function Divide<T>(n: Node<T>): (r: Node<T>)
    requires IsLeaf(n)
    ensures r.Inner? && r.left.Leaf? && r.right.Leaf?
    ensures r.size == |n.block|
    ensures |r.left.block| == |n.block| / 2 && |r.right.block| == |n.block| - |n.block| / 2
    ensures SizeOk(r) && Flatten(r) == Flatten(n)
  {
    var block := n.block;
    var size := |block|;
    Inner(size, Leaf(block[..size / 2]), Leaf(block[size / 2..]))
  }

  /** A leaf that must be divided before anything is added to it. */
  predicate IsFull<T>(n: Node<T>)
  {
    IsLeaf(n) && Len(n) == BLOCK_SIZE
  }

  /**
   * Positional insertion: `element` becomes the element at `index` and the
   * later elements shift right. A full leaf is divided first; every inner
   * node on the way down has its size raised by one and keeps the child it
   * does not descend into.
   */
  function Insert<T>(n: Node<T>, index: nat, element: T): (r: Inserted<T>)
    requires WellFormed(n) && index <= |Flatten(n)|
    ensures WellFormed(r.node)
    ensures Flatten(r.node) == Flatten(n)[..index] + [element] + Flatten(n)[index..]
    ensures Len(r.node) == Len(n) + 1
    ensures r.slot == element
    ensures n.Leaf? && |n.block| < BLOCK_SIZE ==> r.node.Leaf?
    ensures IsFull(n) ==> r.node.Inner? && r.node.left.Leaf? && r.node.right.Leaf?
    ensures n.Inner? ==>
      && r.node.Inner?
      && r.node.size == n.size + 1
      && (if Len(n.left) >= index then r.node.right == n.right else r.node.left == n.left)
    decreases NodeCount(n), if IsFull(n) then 1 else 0
  {
    var m := if IsLeaf(n) && Len(n) == BLOCK_SIZE then Divide(n) else n;
    match m
    case Leaf(block) =>
      var block' := block[..index] + [element] + block[index..];
      Inserted(Leaf(block'), block'[index])
    case Inner(size, left, right) =>
      var leftSize := Len(left);
      if leftSize >= index then
        var sub := Insert(left, index, element);
        InsertedLeft(m, index, element, sub);
        Inserted(Inner(size + 1, sub.node, right), sub.slot)
      else
        var sub := Insert(right, index - leftSize, element);
        InsertedRight(m, index, element, sub);
        Inserted(Inner(size + 1, left, sub.node), sub.slot)
  }

  /** Sequence step of `Insert` when the left child receives the element. */
  lemma InsertedLeft<T>(m: Node<T>, index: nat, element: T, sub: Inserted<T>)
    requires m.Inner? && SizeOk(m) && index <= |Flatten(m.left)|
    requires Flatten(sub.node) == Flatten(m.left)[..index] + [element] + Flatten(m.left)[index..]
    ensures Flatten(Inner(m.size + 1, sub.node, m.right))
         == Flatten(m)[..index] + [element] + Flatten(m)[index..]
  {
    var l, r := Flatten(m.left), Flatten(m.right);
    assert Flatten(m) == l + r;
    assert (l + r)[..index] == l[..index];
    assert (l + r)[index..] == l[index..] + r;
  }

  /** Sequence step of `Insert` when the right child receives the element. */
  lemma InsertedRight<T>(m: Node<T>, index: nat, element: T, sub: Inserted<T>)
    requires m.Inner? && SizeOk(m) && |Flatten(m.left)| < index <= |Flatten(m)|
    requires var k := index - |Flatten(m.left)|;
      Flatten(sub.node) == Flatten(m.right)[..k] + [element] + Flatten(m.right)[k..]
    ensures Flatten(Inner(m.size + 1, m.left, sub.node))
         == Flatten(m)[..index] + [element] + Flatten(m)[index..]
  {
    var l, r := Flatten(m.left), Flatten(m.right);
    var k := index - |l|;
    assert Flatten(m) == l + r;
    assert (l + r)[..index] == l + r[..k];
    assert (l + r)[index..] == r[k..];
  }

  // ---------------------------------------------------------------------
  // get and get_mut, as written (descend left when left size >= index)
  // ---------------------------------------------------------------------

  /**
   * The positions at which some non-empty right subtree begins. These are
   * exactly the positions the as-written lookup routes into the wrong child.
   */
  ghost function RightStarts<T>(n: Node<T>): set<nat>
  {
    match n
    case Leaf(_) => {}
    case Inner(_, left, right) =>
      var offset := |Flatten(left)|;
      RightStarts(left)
      + (if |Flatten(right)| > 0 then {offset} else {})
      + set p | p in RightStarts(right) :: offset + p
  }

  lemma {:induction false} RightStartsInside<T>(n: Node<T>)
    ensures forall p :: p in RightStarts(n) ==> p < |Flatten(n)|
  {
    match n
    case Leaf(_) =>
    case Inner(_, left, right) =>
      RightStartsInside(left);
      RightStartsInside(right);
  }

  /** Lookup by position, with the comparison of src/node.rs:64. */
  function Get<T>(n: Node<T>, index: nat): (r: Option<T>)
    ensures SizeOk(n) && r.Some? ==> index < |Flatten(n)| && r.value == Flatten(n)[index]
  {
    match n
    case Leaf(block) => if index < |block| then Some(block[index]) else None
    case Inner(_, left, right) =>
      var leftSize := Len(left);
      if leftSize >= index then Get(left, index) else Get(right, index - leftSize)
  }

  /**
   * Exact behaviour of the as-written lookup: it finds the element at
   * `index` unless `index` is past the end or is the first position of a
   * non-empty right subtree, in which case it finds nothing.
   */
  lemma {:induction false} GetAsWritten<T>(n: Node<T>, index: nat)
    requires SizeOk(n)
    ensures Get(n, index)
         == if index < |Flatten(n)| && index !in RightStarts(n) then Some(Flatten(n)[index]) else None
  {
    match n
    case Leaf(_) =>
    case Inner(_, left, right) =>
      var leftSize := Len(left);
      RightStartsInside(left);
      RightStartsInside(right);
      if leftSize >= index {
        GetAsWritten(left, index);
        if index == leftSize {
          if index < |Flatten(n)| {
            assert index in RightStarts(n);
          }
        } else {
          assert Flatten(n)[index] == Flatten(left)[index];
        }
      } else {
        GetAsWritten(right, index - leftSize);
        var offset := |Flatten(left)|;
        assert index in RightStarts(n) <==> index - offset in RightStarts(right) by {
          if index - offset in RightStarts(right) {
            assert index == offset + (index - offset);
          }
        }
        if index < |Flatten(n)| {
          assert Flatten(n)[index] == Flatten(right)[index - leftSize];
        }
      }
  }

  /**
   * `get_mut` followed by a store of `v` through the reference it returns:
   * the tree with that slot overwritten, or None when `get_mut` finds
   * nothing. Routes like `Get`, with the comparison of src/node.rs:77.
   */
  function GetMut<T>(n: Node<T>, index: nat, v: T): (r: Option<Node<T>>)
    ensures WellFormed(n) && r.Some? ==>
      && index < |Flatten(n)|
      && WellFormed(r.value)
      && Flatten(r.value) == Flatten(n)[index := v]
  {
    match n
    case Leaf(block) => if index < |block| then Some(Leaf(block[index := v])) else None
    case Inner(size, left, right) =>
      var leftSize := Len(left);
      if leftSize >= index then
        match GetMut(left, index, v)
        case Some(left') => Some(Inner(size, left', right))
        case None => None
      else
        match GetMut(right, index - leftSize, v)
        case Some(right') => Some(Inner(size, left, right'))
        case None => None
  }

  /** `get_mut` succeeds exactly where `get` does. */
  lemma {:induction false} GetMutRoutesLikeGet<T>(n: Node<T>, index: nat, v: T)
    ensures GetMut(n, index, v).Some? <==> Get(n, index).Some?
  {
    match n
    case Leaf(_) =>
    case Inner(_, left, right) =>
      if Len(left) >= index {
        GetMutRoutesLikeGet(left, index, v);
      } else {
        GetMutRoutesLikeGet(right, index - Len(left), v);
      }
  }

  /** Exact behaviour of the as-written `get_mut`. */
  lemma GetMutAsWritten<T>(n: Node<T>, index: nat, v: T)
    requires WellFormed(n)
    ensures GetMut(n, index, v).Some? <==> index < |Flatten(n)| && index !in RightStarts(n)
    ensures GetMut(n, index, v).Some? ==> Flatten(GetMut(n, index, v).value) == Flatten(n)[index := v]
  {
    GetMutRoutesLikeGet(n, index, v);
    GetAsWritten(n, index);
  }

  /** Inserting at the end of a leaf with room appends to its block. */
  lemma PushLeaf<T>(b: seq<T>, e: T)
    requires |b| < BLOCK_SIZE
    ensures Insert(Leaf(b), |b|, e).node == Leaf(b + [e])
  {
    assert b[..|b|] == b;
  }

  /** The tree after inserting 0, 1, ..., k - 1, each at the end, into the empty leaf. */
  function Pushes(k: nat): (r: Node<int>)
    ensures WellFormed(r) && |Flatten(r)| == k
  {
    if k == 0 then Leaf([]) else Insert(Pushes(k - 1), k - 1, k - 1).node
  }

  /** Up to BLOCK_SIZE insertions at the end keep a single leaf. */
  lemma {:induction false} PushesLeaf(k: nat)
    requires k <= BLOCK_SIZE
    ensures Pushes(k) == Leaf(seq(k, j => j))
  {
    if k > 0 {
      PushesLeaf(k - 1);
      PushLeaf(seq(k - 1, j => j), k - 1);
      assert seq(k - 1, j => j) + [k - 1] == seq(k, j => j);
    }
  }

  /** Any number of insertions at the end, past leaf divisions too, hold 0, 1, ..., k - 1 in order. */
  lemma {:induction false} PushesAll(k: nat)
    ensures Flatten(Pushes(k)) == seq(k, j => j)
  {
    if k > 0 {
      PushesAll(k - 1);
      var s := seq(k - 1, j => j);
      assert s[..k - 1] == s && s[k - 1..] == [];
      assert s + [k - 1] == seq(k, j => j);
    }
  }

  /**
   * A reachable tree on which the as-written lookup misses an element:
   * the 1001st insertion at the end of the empty leaf divides the full
   * leaf, and position 500, the first element of the right half, is then
   * not found.
   */
  lemma GetBoundaryCounterexample()
    ensures var n := Insert(Pushes(BLOCK_SIZE), BLOCK_SIZE, BLOCK_SIZE).node;
      WellFormed(n) && Len(n) == BLOCK_SIZE + 1 && Get(n, 500) == None
  {
    PushesLeaf(BLOCK_SIZE);
    var full := Leaf(seq(BLOCK_SIZE, k => k));
    var n := Insert(full, BLOCK_SIZE, BLOCK_SIZE).node;
    assert n.left == Leaf(full.block[..500]);
    GetAsWritten(n, 500);
    assert 500 in RightStarts(n);
  }

  // ---------------------------------------------------------------------
  // get and get_mut, corrected (descend left only when left size > index)
  // ---------------------------------------------------------------------

  /** Lookup by position with the strict comparison. */
  function GetCorrected<T>(n: Node<T>, index: nat): (r: Option<T>)
    ensures SizeOk(n) ==> r == if index < |Flatten(n)| then Some(Flatten(n)[index]) else None
  {
    match n
    case Leaf(block) => if index < |block| then Some(block[index]) else None
    case Inner(_, left, right) =>
      var leftSize := Len(left);
      if leftSize > index then GetCorrected(left, index) else GetCorrected(right, index - leftSize)
  }

  /** `get_mut` with the strict comparison, followed by a store of `v`. */
  function GetMutCorrected<T>(n: Node<T>, index: nat, v: T): (r: Option<Node<T>>)
    ensures WellFormed(n) ==> (r.Some? <==> index < |Flatten(n)|)
    ensures WellFormed(n) && r.Some? ==>
      WellFormed(r.value) && Flatten(r.value) == Flatten(n)[index := v]
  {
    match n
    case Leaf(block) => if index < |block| then Some(Leaf(block[index := v])) else None
    case Inner(size, left, right) =>
      var leftSize := Len(left);
      if leftSize > index then
        match GetMutCorrected(left, index, v)
        case Some(left') => Some(Inner(size, left', right))
        case None => None
      else
        match GetMutCorrected(right, index - leftSize, v)
        case Some(right') => Some(Inner(size, left, right'))
        case None => None
  }
}
