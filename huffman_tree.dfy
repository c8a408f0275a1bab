/**
 * The Huffman tree and its construction by the two-queue merge.
 *
 * A node is a value: a leaf carries its symbol and its count, an internal
 * node its frequency and its two children (the symbol the source stores in
 * an internal node is never read).  The leaf queue and the queue of merged
 * nodes are sequences whose front is index 0.
 */
module Huffman {

  datatype Tree = Leaf(ch: int, f: int) | Node(f: int, left: Tree, right: Tree)

  /** A node's frequency is the sum of its children's frequencies. */
  predicate WellFormed(t: Tree)
  {
    match t
    case Leaf(_, _) => true
    case Node(f, l, r) => f == l.f + r.f && WellFormed(l) && WellFormed(r)
  }

  /** The leaves of t, left to right. */
  function LeavesOf(t: Tree): (ls: seq<Tree>)
    ensures |ls| >= 1
    ensures forall i :: 0 <= i < |ls| ==> ls[i].Leaf?
  {
    match t
    case Leaf(_, _) => [t]
    case Node(_, l, r) => LeavesOf(l) + LeavesOf(r)
  }

  function InternalCount(t: Tree): nat
  {
    match t
    case Leaf(_, _) => 0
    case Node(_, l, r) => 1 + InternalCount(l) + InternalCount(r)
  }

  function Height(t: Tree): nat
  {
    match t
    case Leaf(_, _) => 0
    case Node(_, l, r) => 1 + (if Height(l) < Height(r) then Height(r) else Height(l))
  }

  /** The leaves of all trees of a queue. */
  function QueueLeaves(q: seq<Tree>): multiset<Tree>
  {
    if q == [] then multiset{} else multiset(LeavesOf(q[0])) + QueueLeaves(q[1..])
  }

  /** Sum of the frequencies of the trees of a queue. */
  function QueueWeight(q: seq<Tree>): int
  {
    if q == [] then 0 else q[0].f + QueueWeight(q[1..])
  }

  predicate AllLeaves(q: seq<Tree>)
  {
    forall i :: 0 <= i < |q| ==> q[i].Leaf?
  }

  /** Ascending by frequency: what the comparator handed to `std::sort` orders by. */
  predicate SortedByFrequency(q: seq<Tree>)
  {
    forall i, j :: 0 <= i < j < |q| ==> q[i].f <= q[j].f
  }

  // ---------------------------------------------------------------- leaves

  /** One leaf per symbol i < limit with a nonzero count, in symbol order. */
  function NonzeroLeaves(counts: seq<int>, limit: nat): seq<Tree>
    requires limit <= |counts|
  {
    if limit == 0 then []
    else NonzeroLeaves(counts, limit - 1)
         + (if counts[limit - 1] != 0 then [Leaf(limit - 1, counts[limit - 1])] else [])
  }

  /** The leaf loop: `push_back` a leaf for each index with a nonzero count. */
  method MakeLeaves(counts: seq<int>, limit: nat) returns (leaves: seq<Tree>)
    requires limit <= |counts|
    ensures leaves == NonzeroLeaves(counts, limit)
  {
    leaves := [];
    var i := 0;
    while i < limit
      invariant 0 <= i <= limit
      invariant leaves == NonzeroLeaves(counts, i)
    {
      if counts[i] != 0 {
        leaves := leaves + [Leaf(i, counts[i])];
      }
      i := i + 1;
    }
  }

  /**
   * The leaves are exactly the symbols below limit whose count is nonzero,
   * each carrying its count, in strictly increasing symbol order.
   */
  lemma {:induction false} NonzeroLeavesExact(counts: seq<int>, limit: nat)
    requires limit <= |counts|
    ensures AllLeaves(NonzeroLeaves(counts, limit))
    ensures forall k :: 0 <= k < |NonzeroLeaves(counts, limit)| ==>
              var t := NonzeroLeaves(counts, limit)[k];
              0 <= t.ch < limit && counts[t.ch] != 0 && t.f == counts[t.ch]
    ensures forall c :: 0 <= c < limit && counts[c] != 0 ==> Leaf(c, counts[c]) in NonzeroLeaves(counts, limit)
    ensures forall i, j :: 0 <= i < j < |NonzeroLeaves(counts, limit)| ==>
              NonzeroLeaves(counts, limit)[i].ch < NonzeroLeaves(counts, limit)[j].ch
  {
    if limit > 0 {
      NonzeroLeavesExact(counts, limit - 1);
    }
  }

  // ---------------------------------------------------------------- min_node

  /**
   * `min_node`: pop the front of the leaf queue lq or of the queue of merged
   * nodes cq, whichever is smaller; the leaf only when it is strictly
   * smaller, so ties go to the merged nodes.
   */
  function MinNode(lq: seq<Tree>, cq: seq<Tree>): (r: (Tree, seq<Tree>, seq<Tree>))
    requires |lq| + |cq| >= 1
    ensures |r.1| + |r.2| == |lq| + |cq| - 1
    ensures (lq != [] && r.0 == lq[0] && r.1 == lq[1..] && r.2 == cq) ||
            (cq != [] && r.0 == cq[0] && r.1 == lq && r.2 == cq[1..])
    ensures (lq != [] ==> r.0.f <= lq[0].f) && (cq != [] ==> r.0.f <= cq[0].f)
    ensures lq != [] && cq != [] && lq[0].f == cq[0].f ==> r.0 == cq[0] && r.1 == lq
  {
    if lq == [] then (cq[0], lq, cq[1..])
    else if cq == [] then (lq[0], lq[1..], cq)
    else if lq[0].f < cq[0].f then (lq[0], lq[1..], cq)
    else (cq[0], lq, cq[1..])
  }

  // ---------------------------------------------------------------- the merge

  /**
   * The merge loop as a function of the two queues: while more than one
   * node is queued, pop the two smallest and push their parent (the first
   * popped on the left); then the root is the front of the queue of merged
   * nodes, or the only leaf when there was nothing to merge.
   */
  function Merge(lq: seq<Tree>, cq: seq<Tree>): Tree
    requires |lq| + |cq| >= 1
    decreases |lq| + |cq|
  {
    if |lq| + |cq| == 1 then (if cq == [] then lq[0] else cq[0])
    else
      var (lq', cq') := MergeStep(lq, cq);
      Merge(lq', cq')
  }

  /** One iteration of the loop: pop min and second_min, push their parent. */
  function MergeStep(lq: seq<Tree>, cq: seq<Tree>): (r: (seq<Tree>, seq<Tree>))
    requires |lq| + |cq| >= 2
    ensures |r.0| + |r.1| == |lq| + |cq| - 1
  {
    var (a, lq1, cq1) := MinNode(lq, cq);
    var (b, lq2, cq2) := MinNode(lq1, cq1);
    (lq2, cq2 + [Node(a.f + b.f, a, b)])
  }

  /** The tree the constructor builds from the sorted leaves. */
  function HuffmanOf(sortedLeaves: seq<Tree>): Tree
    requires |sortedLeaves| >= 1
  {
    Merge(sortedLeaves, [])
  }

  /** `createHuffmanTree` and the constructor's loop over the queues. */
  method CreateHuffmanTree(leafQueue: seq<Tree>) returns (root: Tree)
    requires |leafQueue| >= 1
    ensures root == HuffmanOf(leafQueue)
  {
    var lq, cq := leafQueue, [];
    while |lq| + |cq| > 1
      invariant |lq| + |cq| >= 1
      invariant Merge(lq, cq) == Merge(leafQueue, [])
      decreases |lq| + |cq|
    {
      var min, lq1, cq1 := MinNode(lq, cq).0, MinNode(lq, cq).1, MinNode(lq, cq).2;
      var secondMin, lq2, cq2 := MinNode(lq1, cq1).0, MinNode(lq1, cq1).1, MinNode(lq1, cq1).2;
      var newNode := Node(min.f + secondMin.f, min, secondMin);
      lq, cq := lq2, cq2 + [newNode];
    }
    if cq == [] {
      root := lq[0];
    } else {
      root := cq[0];
    }
  }

  // ---------------------------------------------------------------- queue facts

  /** Pushing t adds its leaves and its frequency to those of the queue. */
  lemma {:induction false} QueuePushLeaves(q: seq<Tree>, t: Tree)
    ensures QueueLeaves(q + [t]) == QueueLeaves(q) + multiset(LeavesOf(t))
  {
    if q == [] {
      assert [t][1..] == [];
      assert q + [t] == [t];
    } else {
      assert (q + [t])[1..] == q[1..] + [t];
      QueuePushLeaves(q[1..], t);
    }
  }

  lemma {:induction false} QueuePushWeight(q: seq<Tree>, t: Tree)
    ensures QueueWeight(q + [t]) == QueueWeight(q) + t.f
  {
    if q == [] {
      assert [t][1..] == [];
      assert q + [t] == [t];
    } else {
      assert (q + [t])[1..] == q[1..] + [t];
      QueuePushWeight(q[1..], t);
    }
  }

  /** Popping one node keeps the leaves and the weight of the two queues. */
  lemma {:induction false} MinNodeKeeps(lq: seq<Tree>, cq: seq<Tree>)
    requires |lq| + |cq| >= 1
    ensures var r := MinNode(lq, cq);
            multiset(LeavesOf(r.0)) + QueueLeaves(r.1) + QueueLeaves(r.2) == QueueLeaves(lq) + QueueLeaves(cq) &&
            r.0.f + QueueWeight(r.1) + QueueWeight(r.2) == QueueWeight(lq) + QueueWeight(cq)
  {
  }

  /** One merge step keeps the leaves and the weight of the queues. */
  lemma MergeStepKeeps(lq: seq<Tree>, cq: seq<Tree>)
    requires |lq| + |cq| >= 2
    ensures QueueLeaves(MergeStep(lq, cq).0) + QueueLeaves(MergeStep(lq, cq).1) == QueueLeaves(lq) + QueueLeaves(cq)
    ensures QueueWeight(MergeStep(lq, cq).0) + QueueWeight(MergeStep(lq, cq).1) == QueueWeight(lq) + QueueWeight(cq)
  {
    MergeStepLeaves(lq, cq);
    MergeStepWeight(lq, cq);
  }

  lemma MergeStepLeaves(lq: seq<Tree>, cq: seq<Tree>)
    requires |lq| + |cq| >= 2
    ensures QueueLeaves(MergeStep(lq, cq).0) + QueueLeaves(MergeStep(lq, cq).1) == QueueLeaves(lq) + QueueLeaves(cq)
  {
    var r1 := MinNode(lq, cq);
    var r2 := MinNode(r1.1, r1.2);
    var n := Node(r1.0.f + r2.0.f, r1.0, r2.0);
    assert MergeStep(lq, cq) == (r2.1, r2.2 + [n]);
    MinNodeKeeps(lq, cq);
    MinNodeKeeps(r1.1, r1.2);
    QueuePushLeaves(r2.2, n);
    assert multiset(LeavesOf(n)) == multiset(LeavesOf(r1.0)) + multiset(LeavesOf(r2.0));
  }

  lemma MergeStepWeight(lq: seq<Tree>, cq: seq<Tree>)
    requires |lq| + |cq| >= 2
    ensures QueueWeight(MergeStep(lq, cq).0) + QueueWeight(MergeStep(lq, cq).1) == QueueWeight(lq) + QueueWeight(cq)
  {
    var r1 := MinNode(lq, cq);
    var r2 := MinNode(r1.1, r1.2);
    var n := Node(r1.0.f + r2.0.f, r1.0, r2.0);
    assert MergeStep(lq, cq) == (r2.1, r2.2 + [n]);
    MinNodeKeeps(lq, cq);
    MinNodeKeeps(r1.1, r1.2);
    QueuePushWeight(r2.2, n);
  }

  /**
   * The merge keeps everything it is given: the root's leaves are the leaves
   * of the queued trees and its frequency is their total.
   */
  lemma {:induction false} MergeKeeps(lq: seq<Tree>, cq: seq<Tree>)
    requires |lq| + |cq| >= 1
    ensures multiset(LeavesOf(Merge(lq, cq))) == QueueLeaves(lq) + QueueLeaves(cq)
    ensures Merge(lq, cq).f == QueueWeight(lq) + QueueWeight(cq)
    decreases |lq| + |cq|
  {
    if |lq| + |cq| == 1 {
      if cq == [] {
        assert lq[1..] == [];
      } else {
        assert lq == [] && cq[1..] == [];
      }
    } else {
      var (lq', cq') := MergeStep(lq, cq);
      MergeStepKeeps(lq, cq);
      MergeKeeps(lq', cq');
    }
  }

  predicate QueueWellFormed(q: seq<Tree>)
  {
    forall i :: 0 <= i < |q| ==> WellFormed(q[i])
  }

  /** Every node the merge builds has the sum of its children's frequencies. */
  lemma {:induction false} MergeWellFormed(lq: seq<Tree>, cq: seq<Tree>)
    requires |lq| + |cq| >= 1
    requires QueueWellFormed(lq) && QueueWellFormed(cq)
    ensures WellFormed(Merge(lq, cq))
    decreases |lq| + |cq|
  {
    if |lq| + |cq| > 1 {
      var r1 := MinNode(lq, cq);
      var r2 := MinNode(r1.1, r1.2);
      assert WellFormed(r1.0) && QueueWellFormed(r1.1) && QueueWellFormed(r1.2);
      assert WellFormed(r2.0) && QueueWellFormed(r2.1) && QueueWellFormed(r2.2);
      var (lq', cq') := MergeStep(lq, cq);
      MergeWellFormed(lq', cq');
    }
  }

  /** A Huffman tree over at least two leaves has an internal root. */
  lemma {:induction false} MergeIsNode(lq: seq<Tree>, cq: seq<Tree>)
    requires |lq| + |cq| >= 2 || (|lq| + |cq| == 1 && cq != [] && cq[0].Node?)
    ensures Merge(lq, cq).Node?
    decreases |lq| + |cq|
  {
    if |lq| + |cq| > 1 {
      var (lq', cq') := MergeStep(lq, cq);
      MergeIsNode(lq', cq');
    }
  }

  /** Both queues ascend and nothing queued weighs less than lo. */
  predicate Bounded(lq: seq<Tree>, cq: seq<Tree>, lo: int)
  {
    SortedByFrequency(lq) && SortedByFrequency(cq) &&
    (forall i :: 0 <= i < |lq| ==> lo <= lq[i].f) &&
    (forall i :: 0 <= i < |cq| ==> lo <= cq[i].f)
  }

  /**
   * The invariant that makes the two fronts stand in for the global minimum:
   * both queues ascend, nothing queued is below lo (the frequency popped
   * last), and the last merged node weighs at most 2 * lo.
   */
  predicate QueueOrder(lq: seq<Tree>, cq: seq<Tree>, lo: int)
  {
    lo >= 0 && Bounded(lq, cq, lo) && (cq != [] ==> Last(cq).f <= 2 * lo)
  }

  /**
   * With both queues ascending, min_node pops a node no heavier than
   * anything queued, and what stays queued is still ascending and bounded
   * below by the popped node.
   */
  lemma {:induction false} MinNodeIsMinimum(lq: seq<Tree>, cq: seq<Tree>, lo: int)
    requires |lq| + |cq| >= 1
    requires Bounded(lq, cq, lo)
    ensures forall i :: 0 <= i < |lq| ==> MinNode(lq, cq).0.f <= lq[i].f
    ensures forall i :: 0 <= i < |cq| ==> MinNode(lq, cq).0.f <= cq[i].f
    ensures lo <= MinNode(lq, cq).0.f
    ensures Bounded(MinNode(lq, cq).1, MinNode(lq, cq).2, MinNode(lq, cq).0.f)
    ensures MinNode(lq, cq).2 != [] ==> Last(MinNode(lq, cq).2) == Last(cq)
  {
  }

  /**
   * One step of the loop keeps the order invariant; the new lower bound is
   * the frequency of second_min, and the node pushed is no lighter than the
   * last node pushed before it.
   */
  lemma {:induction false} MergeStepOrder(lq: seq<Tree>, cq: seq<Tree>, lo: int) returns (lo': int)
    requires |lq| + |cq| >= 2
    requires QueueOrder(lq, cq, lo)
    ensures QueueOrder(MergeStep(lq, cq).0, MergeStep(lq, cq).1, lo')
    ensures cq != [] ==> Last(cq).f <= Last(MergeStep(lq, cq).1).f
  {
    var r1 := MinNode(lq, cq);
    MinNodeIsMinimum(lq, cq, lo);
    var r2 := MinNode(r1.1, r1.2);
    MinNodeIsMinimum(r1.1, r1.2, r1.0.f);
    var n := Node(r1.0.f + r2.0.f, r1.0, r2.0);
    var cq' := r2.2 + [n];
    PushKeepsBounded(r2.1, r2.2, r2.0.f, n);
    assert MergeStep(lq, cq) == (r2.1, cq');
    lo' := r2.0.f;
  }

  /** Pushing a node no lighter than the last one queued keeps the queues ascending and bounded. */
  lemma {:induction false} PushKeepsBounded(lq: seq<Tree>, cq: seq<Tree>, lo: int, t: Tree)
    requires Bounded(lq, cq, lo) && lo <= t.f
    requires cq != [] ==> Last(cq).f <= t.f
    ensures Bounded(lq, cq + [t], lo) && Last(cq + [t]) == t
  {
    var cq' := cq + [t];
    assert forall i :: 0 <= i < |cq| ==> cq'[i] == cq[i];
    forall i, j | 0 <= i < j < |cq'|
      ensures cq'[i].f <= cq'[j].f
    {
      if j == |cq| && i < |cq| {
        assert cq[i].f <= Last(cq).f;
      }
    }
  }

  function Last(q: seq<Tree>): Tree
    requires q != []
  {
    q[|q| - 1]
  }

  /** The frequencies of the nodes the loop pushes, in the order it pushes them. */
  function Pushed(lq: seq<Tree>, cq: seq<Tree>): seq<int>
    requires |lq| + |cq| >= 1
    decreases |lq| + |cq|
  {
    if |lq| + |cq| == 1 then []
    else
      var (lq', cq') := MergeStep(lq, cq);
      [Last(cq').f] + Pushed(lq', cq')
  }

  predicate Ascending(s: seq<int>)
  {
    forall i, j :: 0 <= i < j < |s| ==> s[i] <= s[j]
  }

  /**
   * From sorted leaves with nonnegative counts, the nodes are pushed onto the
   * queue of merged nodes in nondecreasing order of frequency.
   */
  lemma {:induction false} PushedAscending(lq: seq<Tree>, cq: seq<Tree>, lo: int)
    requires |lq| + |cq| >= 1
    requires QueueOrder(lq, cq, lo)
    ensures Ascending(Pushed(lq, cq))
    ensures cq != [] && Pushed(lq, cq) != [] ==> Last(cq).f <= Pushed(lq, cq)[0]
    decreases |lq| + |cq|
  {
    if |lq| + |cq| > 1 {
      var (lq', cq') := MergeStep(lq, cq);
      var lo' := MergeStepOrder(lq, cq, lo);
      PushedAscending(lq', cq', lo');
    }
  }

  /** The merge pushes in nondecreasing order for any ascending arrangement of nonnegative leaves. */
  lemma HuffmanPushesAscending(leaves: seq<Tree>)
    requires |leaves| >= 1 && SortedByFrequency(leaves)
    requires forall i :: 0 <= i < |leaves| ==> leaves[i].f >= 0
    ensures Ascending(Pushed(leaves, []))
    ensures |Pushed(leaves, [])| == |leaves| - 1
  {
    PushedAscending(leaves, [], 0);
    PushedLength(leaves, []);
  }

  /** Each iteration shrinks the two queues by one node: there are |lq| + |cq| - 1 merges. */
  lemma {:induction false} PushedLength(lq: seq<Tree>, cq: seq<Tree>)
    requires |lq| + |cq| >= 1
    ensures |Pushed(lq, cq)| == |lq| + |cq| - 1
    decreases |lq| + |cq|
  {
    if |lq| + |cq| > 1 {
      var (lq', cq') := MergeStep(lq, cq);
      PushedLength(lq', cq');
    }
  }

  /** HuffmanOf keeps the leaves and totals the counts: the root weighs the sum of all counts. */
  lemma HuffmanOfKeeps(leaves: seq<Tree>)
    requires |leaves| >= 1 && AllLeaves(leaves)
    ensures multiset(LeavesOf(HuffmanOf(leaves))) == multiset(leaves)
    ensures HuffmanOf(leaves).f == QueueWeight(leaves)
    ensures InternalCount(HuffmanOf(leaves)) == |leaves| - 1
    ensures WellFormed(HuffmanOf(leaves))
    ensures |leaves| >= 2 ==> HuffmanOf(leaves).Node?
  {
    MergeKeeps(leaves, []);
    LeafQueue(leaves);
    LeavesInternal(HuffmanOf(leaves));
    MergeWellFormed(leaves, []);
    if |leaves| >= 2 {
      MergeIsNode(leaves, []);
    }
  }

  /** A full binary tree has one leaf more than it has internal nodes. */
  lemma {:induction false} LeavesInternal(t: Tree)
    ensures |LeavesOf(t)| == InternalCount(t) + 1
  {
    if t.Node? {
      LeavesInternal(t.left);
      LeavesInternal(t.right);
    }
  }

  lemma {:induction false} LeafQueue(leaves: seq<Tree>)
    requires AllLeaves(leaves)
    ensures QueueLeaves(leaves) == multiset(leaves)
  {
    if leaves != [] {
      LeafQueue(leaves[1..]);
      assert leaves == [leaves[0]] + leaves[1..];
    }
  }

  lemma {:induction false} QueueWeightConcat(a: seq<Tree>, b: seq<Tree>)
    ensures QueueWeight(a + b) == QueueWeight(a) + QueueWeight(b)
  {
    if a != [] {
      assert (a + b)[1..] == a[1..] + b;
      QueueWeightConcat(a[1..], b);
    } else {
      assert a + b == b;
    }
  }

  /** The weight of a queue does not depend on its order. */
  lemma {:induction false} QueueWeightPermutation(a: seq<Tree>, b: seq<Tree>)
    requires multiset(a) == multiset(b)
    ensures QueueWeight(a) == QueueWeight(b)
    decreases |a|
  {
    if a != [] {
      var j := FindTree(b, a[0]);
      var b' := b[..j] + b[j + 1..];
      assert multiset(a[1..]) == multiset(b') by {
        MultisetRemove(b, j);
        MultisetTail(a);
        calc {
          multiset(a[1..]);
          multiset(a) - multiset{a[0]};
          multiset(b) - multiset{b[j]};
          multiset(b');
        }
      }
      QueueWeightPermutation(a[1..], b');
      QueueWeightRemove(b, j);
      assert QueueWeight(a) == a[0].f + QueueWeight(a[1..]);
    } else {
      assert |b| == |multiset(b)| == 0;
    }
  }

  /** A position of t in q, when q holds t. */
  lemma FindTree(q: seq<Tree>, t: Tree) returns (j: nat)
    requires t in multiset(q)
    ensures j < |q| && q[j] == t
  {
    assert t in q;
    j :| 0 <= j < |q| && q[j] == t;
  }

  lemma MultisetTail(q: seq<Tree>)
    requires q != []
    ensures multiset(q[1..]) == multiset(q) - multiset{q[0]}
  {
    assert q == [q[0]] + q[1..];
  }

  /** Taking out the tree at j takes one copy of it out of the multiset. */
  lemma MultisetRemove(q: seq<Tree>, j: nat)
    requires j < |q|
    ensures multiset(q[..j] + q[j + 1..]) == multiset(q) - multiset{q[j]}
  {
    assert q == q[..j] + [q[j]] + q[j + 1..];
    assert multiset(q) == multiset(q[..j]) + multiset{q[j]} + multiset(q[j + 1..]);
  }

  /** The weight of a queue is the weight of its tree at j plus that of the others. */
  lemma QueueWeightRemove(q: seq<Tree>, j: nat)
    requires j < |q|
    ensures QueueWeight(q) == q[j].f + QueueWeight(q[..j] + q[j + 1..])
  {
    var x, y := q[..j], q[j + 1..];
    assert q == x + ([q[j]] + y);
    assert ([q[j]] + y)[1..] == y;
    QueueWeightConcat(x, [q[j]] + y);
    QueueWeightConcat(x, y);
  }
}
