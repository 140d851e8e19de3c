/** Specification of the greedy construction from a frequency table: which
    symbols enter the queue, what the queue holds, how the lightest node is
    chosen, and what every node built by merging looks like. */
module Build {
  import opened HuffmanNode

  /** The indices i with frequencies[i] > 0, in increasing order: the
      symbols that receive a leaf. */
  function Positive(frequencies: seq<int>): seq<nat>
  {
    if frequencies == [] then []
    else
      var n := |frequencies| - 1;
      Positive(frequencies[..n]) + (if frequencies[n] > 0 then [n] else [])
  }

  /** Every index with a positive frequency occurs in Positive exactly once,
      and no other number occurs in it. */
  lemma {:induction false} PositiveCounts(frequencies: seq<int>, x: nat)
    ensures multiset(Positive(frequencies))[x] == if x < |frequencies| && frequencies[x] > 0 then 1 else 0
    decreases |frequencies|
  {
    if frequencies != [] {
      var n := |frequencies| - 1;
      var init := frequencies[..n];
      var last: seq<nat> := if frequencies[n] > 0 then [n] else [];
      PositiveCounts(init, x);
      assert Positive(frequencies) == Positive(init) + last;
      assert multiset(Positive(frequencies)) == multiset(Positive(init)) + multiset(last);
      if x == n {
        assert multiset(last)[x] == if frequencies[n] > 0 then 1 else 0;
      } else {
        assert multiset(last)[x] == 0;
        if x < n {
          assert init[x] == frequencies[x];
        }
      }
    }
  }

  /** The sum of the positive frequencies. */
  function SumPositive(frequencies: seq<int>): int
  {
    if frequencies == [] then 0
    else
      var n := |frequencies| - 1;
      SumPositive(frequencies[..n]) + (if frequencies[n] > 0 then frequencies[n] else 0)
  }

  /** What every node in the queue satisfies. A leaf stands for a symbol
      with a positive frequency and weighs that frequency; a merged node has
      both children, weighs the sum of their weights, its left child
      (removed first) weighs at most its right child (removed second), and
      both children are built. */
  predicate Built(t: Tree, frequencies: seq<int>)
    decreases t
  {
    t.Node? &&
    if t.IsLeaf() then t.value < |frequencies| && t.weight == frequencies[t.value] && t.weight > 0
    else
      t.left.Node? && t.right.Node? &&
      t.weight == t.left.weight + t.right.weight && t.left.weight <= t.right.weight &&
      Built(t.left, frequencies) && Built(t.right, frequencies)
  }

  /** A built tree has no one-child node. */
  lemma {:induction false} BuiltFull(t: Tree, frequencies: seq<int>)
    requires Built(t, frequencies)
    ensures Full(t)
    decreases t
  {
    if !t.IsLeaf() {
      BuiltFull(t.left, frequencies);
      BuiltFull(t.right, frequencies);
    }
  }

  /** Every node in the queue is a built tree. */
  predicate AllBuilt(q: seq<Tree>, frequencies: seq<int>)
  {
    forall j :: 0 <= j < |q| ==> Built(q[j], frequencies)
  }

  lemma AppendBuilt(q: seq<Tree>, t: Tree, frequencies: seq<int>)
    requires AllBuilt(q, frequencies) && Built(t, frequencies)
    ensures AllBuilt(q + [t], frequencies)
  {
    forall j | 0 <= j < |q| + 1 ensures Built((q + [t])[j], frequencies) {
      if j < |q| { assert (q + [t])[j] == q[j]; }
    }
  }

  /** The merge of two built trees, the lighter on the left, is built, and
      its leaves are theirs. */
  lemma MergeBuilt(left: Tree, right: Tree, frequencies: seq<int>)
    requires Built(left, frequencies) && Built(right, frequencies)
    requires left.weight <= right.weight
    ensures Built(Node(0, left.weight + right.weight, left, right), frequencies)
    ensures Leaves(Node(0, left.weight + right.weight, left, right)) == Leaves(left) + Leaves(right)
  {
  }

  /** Taking a node out keeps the rest built and no lighter than a bound
      that held for the whole queue. */
  lemma RemoveKeeps(q: seq<Tree>, k: nat, rest: seq<Tree>, frequencies: seq<int>, bound: int)
    requires k < |q| && rest == q[..k] + q[k + 1..] && AllBuilt(q, frequencies)
    requires forall j :: 0 <= j < |q| ==> bound <= q[j].weight
    ensures AllBuilt(rest, frequencies)
    ensures forall j :: 0 <= j < |rest| ==> bound <= rest[j].weight
  {
    forall j | 0 <= j < |rest|
      ensures Built(rest[j], frequencies) && bound <= rest[j].weight
    {
      assert rest[j] == q[if j < k then j else j + 1];
    }
  }

  /** The leaf symbols of every tree in the queue, in queue order. */
  function QueueLeaves(q: seq<Tree>): seq<nat>
  {
    if q == [] then [] else Leaves(q[0]) + QueueLeaves(q[1..])
  }

  /** The sum of the weights of the trees in the queue (the queue holds no
      null, so the 0 for Nil never counts). */
  function QueueWeight(q: seq<Tree>): int
  {
    if q == [] then 0 else (if q[0].Node? then q[0].weight else 0) + QueueWeight(q[1..])
  }

  lemma {:induction false} QueueLeavesAppend(a: seq<Tree>, b: seq<Tree>)
    ensures QueueLeaves(a + b) == QueueLeaves(a) + QueueLeaves(b)
  {
    if a != [] {
      assert (a + b)[1..] == a[1..] + b;
      QueueLeavesAppend(a[1..], b);
    } else {
      assert a + b == b;
    }
  }

  lemma {:induction false} QueueWeightAppend(a: seq<Tree>, b: seq<Tree>)
    ensures QueueWeight(a + b) == QueueWeight(a) + QueueWeight(b)
  {
    if a != [] {
      assert (a + b)[1..] == a[1..] + b;
      QueueWeightAppend(a[1..], b);
    } else {
      assert a + b == b;
    }
  }

  /** Removing the node at index k takes its leaves out of the queue and
      leaves the rest. */
  lemma QueueRemoveLeaves(q: seq<Tree>, k: nat)
    requires k < |q|
    ensures multiset(QueueLeaves(q)) == multiset(QueueLeaves(q[..k] + q[k + 1..])) + multiset(Leaves(q[k]))
  {
    var a, m, b := q[..k], [q[k]], q[k + 1..];
    assert q == a + (m + b);
    QueueLeavesAppend(m, b);
    QueueLeavesAppend(a, m + b);
    QueueLeavesAppend(a, b);
    assert QueueLeaves(m) == Leaves(q[k]) by {
      assert m[1..] == [];
    }
    var la, lm, lb := QueueLeaves(a), Leaves(q[k]), QueueLeaves(b);
    assert QueueLeaves(q) == la + (lm + lb);
    assert QueueLeaves(a + b) == la + lb;
    MultisetMiddle(la, lm, lb);
  }

  /** Removing the node at index k takes its weight out of the queue. */
  lemma QueueRemoveWeight(q: seq<Tree>, k: nat)
    requires k < |q| && q[k].Node?
    ensures QueueWeight(q) == QueueWeight(q[..k] + q[k + 1..]) + q[k].weight
  {
    var a, m, b := q[..k], [q[k]], q[k + 1..];
    assert q == a + (m + b);
    QueueWeightAppend(m, b);
    QueueWeightAppend(a, m + b);
    QueueWeightAppend(a, b);
    assert QueueWeight(m) == q[k].weight by {
      assert m[1..] == [];
    }
  }

  lemma MultisetMiddle(a: seq<nat>, m: seq<nat>, b: seq<nat>)
    ensures multiset(a + (m + b)) == multiset(a + b) + multiset(m)
  {
  }

  /** The remove() of the priority queue: the index of the FIRST node of
      least weight, compared with compareTo. Every node weighs at least as
      much as the one chosen, and every node before it weighs strictly more. */
  method IndexOfMin(q: seq<Tree>) returns (k: nat)
    requires |q| > 0
    requires forall i :: 0 <= i < |q| ==> q[i].Node?
    ensures k < |q|
    ensures forall j :: 0 <= j < |q| ==> q[k].weight <= q[j].weight
    ensures forall j :: 0 <= j < k ==> q[k].weight < q[j].weight
  {
    k := 0;
    var j := 1;
    while j < |q|
      invariant 1 <= j <= |q| && k < j
      invariant forall i :: 0 <= i < j ==> q[k].weight <= q[i].weight
      invariant forall i :: 0 <= i < k ==> q[k].weight < q[i].weight
    {
      if q[j].CompareTo(q[k]) < 0 {
        k := j;
      }
      j := j + 1;
    }
  }

  /** The queue the scan fills: a leaf per index with a positive frequency,
      weighing that frequency, in index order. */
  function InitialQueue(frequencies: seq<int>): seq<Tree>
  {
    if frequencies == [] then []
    else
      var n := |frequencies| - 1;
      InitialQueue(frequencies[..n]) + (if frequencies[n] > 0 then [Node(n, frequencies[n], Nil, Nil)] else [])
  }

  /** The queue after the first i frequencies were scanned: one leaf per
      positive index below i, in index order. */
  predicate Scanned(pq: seq<Tree>, frequencies: seq<int>, i: nat)
    requires i <= |frequencies|
  {
    pq == InitialQueue(frequencies[..i]) &&
    AllBuilt(pq, frequencies) && QueueLeaves(pq) == Positive(frequencies[..i]) &&
    QueueWeight(pq) == SumPositive(frequencies[..i])
  }

  /** Scanning index i adds a leaf for it exactly when its frequency is
      positive. */
  lemma ScanStep(pq: seq<Tree>, frequencies: seq<int>, i: nat)
    requires i < |frequencies| && Scanned(pq, frequencies, i)
    ensures frequencies[i] > 0 ==> Scanned(pq + [Node(i, frequencies[i], Nil, Nil)], frequencies, i + 1)
    ensures frequencies[i] <= 0 ==> Scanned(pq, frequencies, i + 1)
  {
    assert frequencies[..i + 1][..i] == frequencies[..i];
    assert frequencies[..i + 1][i] == frequencies[i];
    var node := Node(i, frequencies[i], Nil, Nil);
    if frequencies[i] > 0 {
      QueueLeavesAppend(pq, [node]);
      QueueWeightAppend(pq, [node]);
      AppendBuilt(pq, node, frequencies);
      assert QueueLeaves([node]) == [i] by { assert [node][1..] == []; }
      assert QueueWeight([node]) == frequencies[i] by { assert [node][1..] == []; }
    }
  }

  /** The invariant of the merging loop: every node in the queue is built,
      and together they hold each positive index once as a leaf and weigh
      the sum of the positive frequencies. */
  predicate Merging(pq: seq<Tree>, frequencies: seq<int>)
  {
    && AllBuilt(pq, frequencies)
    && multiset(QueueLeaves(pq)) == multiset(Positive(frequencies))
    && QueueWeight(pq) == SumPositive(frequencies)
  }

  /** Once every index is scanned, the merging loop may start. */
  lemma ScanDone(pq: seq<Tree>, frequencies: seq<int>)
    requires Scanned(pq, frequencies, |frequencies|)
    ensures Merging(pq, frequencies) && pq == InitialQueue(frequencies)
  {
    assert frequencies[..|frequencies|] == frequencies;
  }

  /** One round of the merging loop keeps the built trees: the node k
      taken out first weighs no more than the node k2 taken out of what is
      left, so their merge, the first on the left, is built. */
  lemma MergeKeepsBuilt(pq: seq<Tree>, k: nat, rest: seq<Tree>, k2: nat, next: seq<Tree>, frequencies: seq<int>)
    requires AllBuilt(pq, frequencies)
    requires k < |pq| && forall j :: 0 <= j < |pq| ==> pq[k].weight <= pq[j].weight
    requires rest == pq[..k] + pq[k + 1..] && k2 < |rest|
    requires next == rest[..k2] + rest[k2 + 1..] + [Node(0, pq[k].weight + rest[k2].weight, pq[k], rest[k2])]
    ensures AllBuilt(next, frequencies)
  {
    var rest2 := rest[..k2] + rest[k2 + 1..];
    RemoveKeeps(pq, k, rest, frequencies, pq[k].weight);
    RemoveKeeps(rest, k2, rest2, frequencies, pq[k].weight);
    MergeBuilt(pq[k], rest[k2], frequencies);
    AppendBuilt(rest2, Node(0, pq[k].weight + rest[k2].weight, pq[k], rest[k2]), frequencies);
  }

  /** One round of the merging loop keeps the leaves of the queue: the two
      nodes taken out come back as the children of one node, whatever its
      weight. */
  lemma MergeKeepsLeaves(pq: seq<Tree>, k: nat, rest: seq<Tree>, k2: nat, w: int, next: seq<Tree>)
    requires k < |pq| && rest == pq[..k] + pq[k + 1..] && k2 < |rest|
    requires pq[k].Node? && rest[k2].Node?
    requires next == rest[..k2] + rest[k2 + 1..] + [Node(0, w, pq[k], rest[k2])]
    ensures multiset(QueueLeaves(next)) == multiset(QueueLeaves(pq))
  {
    var rest2, merged := rest[..k2] + rest[k2 + 1..], Node(0, w, pq[k], rest[k2]);
    QueueRemoveLeaves(pq, k);
    QueueRemoveLeaves(rest, k2);
    QueueLeavesAppend(rest2, [merged]);
    assert QueueLeaves([merged]) == Leaves(pq[k]) + Leaves(rest[k2]) by {
      assert [merged][1..] == [];
    }
    MergedLeaves(QueueLeaves(pq), QueueLeaves(rest), QueueLeaves(rest2), QueueLeaves(rest2 + [merged]),
                 Leaves(pq[k]), Leaves(rest[k2]));
  }

  lemma MergedLeaves(all: seq<nat>, rest: seq<nat>, rest2: seq<nat>, next: seq<nat>, left: seq<nat>, right: seq<nat>)
    requires multiset(all) == multiset(rest) + multiset(left)
    requires multiset(rest) == multiset(rest2) + multiset(right)
    requires next == rest2 + (left + right)
    ensures multiset(next) == multiset(all)
  {
  }

  /** One round of the merging loop keeps the total weight of the queue:
      the merge weighs the sum of the two nodes taken out. */
  lemma MergeKeepsWeight(pq: seq<Tree>, k: nat, rest: seq<Tree>, k2: nat, next: seq<Tree>)
    requires k < |pq| && rest == pq[..k] + pq[k + 1..] && k2 < |rest|
    requires pq[k].Node? && rest[k2].Node?
    requires next == rest[..k2] + rest[k2 + 1..] + [Node(0, pq[k].weight + rest[k2].weight, pq[k], rest[k2])]
    ensures QueueWeight(next) == QueueWeight(pq)
  {
    var rest2, merged := rest[..k2] + rest[k2 + 1..], Node(0, pq[k].weight + rest[k2].weight, pq[k], rest[k2]);
    QueueRemoveWeight(pq, k);
    QueueRemoveWeight(rest, k2);
    QueueWeightAppend(rest2, [merged]);
    assert QueueWeight([merged]) == merged.weight by {
      assert [merged][1..] == [];
    }
  }

  /** One round of the merging loop keeps its invariant. */
  lemma MergeStep(pq: seq<Tree>, k: nat, rest: seq<Tree>, k2: nat, next: seq<Tree>, frequencies: seq<int>)
    requires Merging(pq, frequencies)
    requires k < |pq| && forall j :: 0 <= j < |pq| ==> pq[k].weight <= pq[j].weight
    requires rest == pq[..k] + pq[k + 1..] && k2 < |rest|
    requires next == rest[..k2] + rest[k2 + 1..] + [Node(0, pq[k].weight + rest[k2].weight, pq[k], rest[k2])]
    ensures Merging(next, frequencies) && |next| == |pq| - 1
  {
    RemoveKeeps(pq, k, rest, frequencies, pq[k].weight);
    assert pq[k].Node? && rest[k2].Node?;
    MergeKeepsBuilt(pq, k, rest, k2, next, frequencies);
    MergeKeepsLeaves(pq, k, rest, k2, pq[k].weight + rest[k2].weight, next);
    MergeKeepsWeight(pq, k, rest, k2, next);
  }

  /** One round of the merging loop: remove() the lightest node, remove()
      the lightest of what is left, and add their merge, the first on the
      left, weighing their sum. The queue shrinks by one and keeps its
      invariant. */
  method MergeLightest(pq: seq<Tree>, ghost frequencies: seq<int>) returns (next: seq<Tree>)
    requires |pq| > 1 && Merging(pq, frequencies)
    ensures Merging(next, frequencies)
    ensures GreedyRound(pq, next)
  {
    var k := IndexOfMin(pq);
    var left := pq[k];
    var rest := pq[..k] + pq[k + 1..];
    RemoveKeeps(pq, k, rest, frequencies, left.weight);
    var k2 := IndexOfMin(rest);
    var right := rest[k2];
    next := rest[..k2] + rest[k2 + 1..] + [Node(0, left.weight + right.weight, left, right)];
    MergeStep(pq, k, rest, k2, next, frequencies);
    MergeIsGreedy(pq, k, rest, k2, next, frequencies);
  }

  /** The merging loop: while the queue holds more than one node, its two
      lightest nodes are merged; the last node left, if any, is the root.
      The ghost trace records the queue before each round and after the
      last. */
  method MergeAll(pq: seq<Tree>, ghost frequencies: seq<int>) returns (top: Tree, ghost trace: seq<seq<Tree>>)
    requires Merging(pq, frequencies)
    ensures GreedyRoot(top, frequencies)
    ensures GreedyTrace(trace) && trace[0] == pq
    ensures trace[|trace| - 1] == if top.Nil? then [] else [top]
  {
    var queue := pq;
    trace := [queue];
    while |queue| > 1
      invariant Merging(queue, frequencies)
      invariant GreedyTrace(trace) && trace[0] == pq && trace[|trace| - 1] == queue
      decreases |queue|
    {
      var next := MergeLightest(queue, frequencies);
      TraceExtend(trace, next);
      trace := trace + [next];
      queue := next;
    }
    top := if queue == [] then Nil else queue[0];
    QueueDone(queue, frequencies, top);
  }

  /** One round of the greedy merge, read off the queues before and after
      it: the queue loses two nodes and gains their merge, whose symbol is
      0 and whose weight is their sum; its left child weighs no more than any
      node of the queue before the round, and its right child no more than
      any node left after the left child was taken out. */
  predicate GreedyRound(pq: seq<Tree>, next: seq<Tree>)
  {
    |pq| > 1 && |next| == |pq| - 1 &&
    var merged, kept := next[|next| - 1], next[..|next| - 1];
    && merged.Node? && merged.value == 0 && merged.left.Node? && merged.right.Node?
    && merged.weight == merged.left.weight + merged.right.weight
    && multiset(kept) + multiset{merged.left, merged.right} == multiset(pq)
    && (forall j :: 0 <= j < |pq| ==> pq[j].Node? && merged.left.weight <= pq[j].weight)
    && (forall j :: 0 <= j < |kept| ==> kept[j].Node? && merged.right.weight <= kept[j].weight)
  }

  /** Removing the node at index k takes exactly that node out of the
      multiset of the queue. */
  lemma RemoveMultiset(q: seq<Tree>, k: nat)
    requires k < |q|
    ensures multiset(q[..k] + q[k + 1..]) + multiset{q[k]} == multiset(q)
  {
    assert q == q[..k] + [q[k]] + q[k + 1..];
  }

  lemma TwoRemoved(kept: multiset<Tree>, rest: multiset<Tree>, all: multiset<Tree>, left: Tree, right: Tree)
    requires kept + multiset{right} == rest && rest + multiset{left} == all
    ensures kept + multiset{left, right} == all
  {
  }

  /** The round the merging loop performs is a greedy round: node k is the
      lightest of the queue, node k2 the lightest of what is left. */
  lemma MergeIsGreedy(pq: seq<Tree>, k: nat, rest: seq<Tree>, k2: nat, next: seq<Tree>, frequencies: seq<int>)
    requires AllBuilt(pq, frequencies)
    requires k < |pq| && forall j :: 0 <= j < |pq| ==> pq[k].weight <= pq[j].weight
    requires rest == pq[..k] + pq[k + 1..] && k2 < |rest|
    requires forall j :: 0 <= j < |rest| ==> rest[k2].Node? && rest[k2].weight <= rest[j].weight
    requires next == rest[..k2] + rest[k2 + 1..] + [Node(0, pq[k].weight + rest[k2].weight, pq[k], rest[k2])]
    ensures GreedyRound(pq, next)
  {
    var left, right, kept := pq[k], rest[k2], rest[..k2] + rest[k2 + 1..];
    RemoveKeeps(pq, k, rest, frequencies, left.weight);
    RemoveKeeps(rest, k2, kept, frequencies, right.weight);
    assert next[..|next| - 1] == kept && next[|next| - 1] == Node(0, left.weight + right.weight, left, right);
    RemoveMultiset(pq, k);
    RemoveMultiset(rest, k2);
    TwoRemoved(multiset(kept), multiset(rest), multiset(pq), left, right);
  }

  /** A run of the merging loop, as the queue before each round and after
      the last: every step is a greedy round. */
  predicate GreedyTrace(rounds: seq<seq<Tree>>)
  {
    |rounds| > 0 && forall r :: 0 <= r < |rounds| - 1 ==> GreedyRound(rounds[r], rounds[r + 1])
  }

  lemma TraceExtend(rounds: seq<seq<Tree>>, next: seq<Tree>)
    requires GreedyTrace(rounds) && GreedyRound(rounds[|rounds| - 1], next)
    ensures GreedyTrace(rounds + [next])
    ensures (rounds + [next])[0] == rounds[0] && (rounds + [next])[|rounds|] == next
  {
    var t := rounds + [next];
    forall r | 0 <= r < |t| - 1 ensures GreedyRound(t[r], t[r + 1]) {
      assert t[r] == rounds[r];
      if r + 1 < |rounds| {
        assert t[r + 1] == rounds[r + 1];
      }
    }
  }

  /** What the greedy construction promises of its root: Nil exactly when
      no frequency is positive; otherwise a built tree holding each symbol
      with a positive frequency exactly once, weighing the sum of the
      positive frequencies, with n leaves and n - 1 internal nodes; a single
      leaf when one frequency is positive, and a tree translate can walk when
      there are more. */
  predicate GreedyRoot(root: Tree, frequencies: seq<int>)
  {
    && multiset(Leaves(root)) == multiset(Positive(frequencies))
    && (root == Nil <==> Positive(frequencies) == [])
    && (|Positive(frequencies)| == 1 ==> root.Node? && root.IsLeaf())
    && (|Positive(frequencies)| >= 2 ==> root.Node? && !root.IsLeaf() && Full(root))
    && (root.Node? ==> Built(root, frequencies) && Full(root) && root.weight == SumPositive(frequencies))
    && (root.Node? ==> |Leaves(root)| == Internals(root) + 1)
  }

  /** The greedy root holds a leaf for every index with a positive
      frequency, exactly once, and no other leaf. */
  lemma GreedySymbols(root: Tree, frequencies: seq<int>, x: nat)
    requires GreedyRoot(root, frequencies)
    ensures multiset(Leaves(root))[x] == if x < |frequencies| && frequencies[x] > 0 then 1 else 0
  {
    PositiveCounts(frequencies, x);
  }

  /** When at most one node is left, it is the root the construction
      promises. */
  lemma QueueDone(pq: seq<Tree>, frequencies: seq<int>, top: Tree)
    requires |pq| <= 1 && Merging(pq, frequencies)
    requires top == if pq == [] then Nil else pq[0]
    ensures GreedyRoot(top, frequencies)
    ensures pq == if top.Nil? then [] else [top]
  {
    if pq != [] {
      assert pq == [top] && pq[1..] == [];
      assert QueueLeaves(pq) == Leaves(top) && QueueWeight(pq) == top.weight;
      BuiltFull(top, frequencies);
      BuiltLeaves(top, frequencies);
      FullShape(top);
      assert |multiset(Leaves(top))| == |Leaves(top)|;
    }
  }

  /** A built tree holds at least one leaf; one that is not a leaf holds at
      least two. */
  lemma BuiltLeaves(t: Tree, frequencies: seq<int>)
    requires Built(t, frequencies)
    ensures |Leaves(t)| >= 1
    ensures !t.IsLeaf() ==> |Leaves(t)| >= 2
  {
    BuiltFull(t, frequencies);
    FullShape(t);
  }

  /** The weight of a built tree is the sum of the frequencies of its leaves. */
  lemma {:induction false} BuiltWeight(t: Tree, frequencies: seq<int>)
    requires Built(t, frequencies)
    ensures t.weight == SumAt(frequencies, Leaves(t))
  {
    if !t.IsLeaf() {
      BuiltWeight(t.left, frequencies);
      BuiltWeight(t.right, frequencies);
      SumAtAppend(frequencies, Leaves(t.left), Leaves(t.right));
    }
  }

  /** The sum of the frequencies of the given symbols (0 for a symbol out of
      range). */
  function SumAt(frequencies: seq<int>, symbols: seq<nat>): int
  {
    if symbols == [] then 0
    else (if symbols[0] < |frequencies| then frequencies[symbols[0]] else 0) + SumAt(frequencies, symbols[1..])
  }

  lemma {:induction false} SumAtAppend(frequencies: seq<int>, a: seq<nat>, b: seq<nat>)
    ensures SumAt(frequencies, a + b) == SumAt(frequencies, a) + SumAt(frequencies, b)
  {
    if a != [] {
      assert (a + b)[1..] == a[1..] + b;
      SumAtAppend(frequencies, a[1..], b);
    } else {
      assert a + b == b;
    }
  }
}
