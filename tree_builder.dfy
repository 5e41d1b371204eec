/** The pieces of `buildTree` in backend/Huffman.cpp that are not the `root` assignment: the
    priority queue of nodes ordered by `compareWeights`, and what the finished tree satisfies. */
module TreeBuilder {
  import opened Common
  import opened NodeRecord
  import opened Frequency

  /** The queue's `top()`: the position of a node that no other node outranks, that is, of a
      lightest node. Of several lightest nodes the first in queue order is taken. */
  method TopIndex(q: seq<Node>) returns (i: nat)
    requires |q| > 0
    ensures i < |q|
    ensures forall j :: 0 <= j < |q| ==> !CompareWeights(q[i], q[j])
    ensures forall j :: 0 <= j < i ==> CompareWeights(q[j], q[i])
  {
    i := 0;
    for j := 1 to |q|
      invariant i < j
      invariant forall k :: 0 <= k < j ==> !CompareWeights(q[i], q[k])
      invariant forall k :: 0 <= k < i ==> CompareWeights(q[k], q[i])
    {
      if CompareWeights(q[i], q[j]) {
        i := j;
      }
    }
  }

  /** The leaf letters of all trees in the queue. */
  function QueueLetters(q: seq<Node>): multiset<Byte>
  {
    if q == [] then multiset{} else Letters(q[0]) + QueueLetters(q[1..])
  }

  /** The sum of the weights of the trees in the queue. */
  function QueueWeight(q: seq<Node>): int
  {
    if q == [] then 0 else q[0].weight + QueueWeight(q[1..])
  }

  /** Both queue totals distribute over concatenation. */
  lemma {:induction false} QueueConcat(a: seq<Node>, b: seq<Node>)
    ensures QueueLetters(a + b) == QueueLetters(a) + QueueLetters(b)
    ensures QueueWeight(a + b) == QueueWeight(a) + QueueWeight(b)
  {
    if a == [] {
      assert a + b == b;
    } else {
      assert (a + b)[1..] == a[1..] + b;
      QueueConcat(a[1..], b);
    }
  }

  /** A queue of one node holds that node's letters and weight. */
  lemma QueueSingle(n: Node)
    ensures QueueLetters([n]) == Letters(n) && QueueWeight([n]) == n.weight
  {
    assert [n][1..] == [];
  }

  /** A sequence is what lies before position `i`, the element there, and what lies after. */
  lemma SplitAround<T>(q: seq<T>, i: nat)
    requires i < |q|
    ensures q == q[..i] + ([q[i]] + q[i + 1..])
  {
  }

  /** Popping the node at `i` takes exactly its letters and its weight out of the queue. */
  lemma QueueRemove(q: seq<Node>, i: nat)
    requires i < |q|
    ensures QueueLetters(q) == Letters(q[i]) + QueueLetters(q[..i] + q[i + 1..])
    ensures QueueWeight(q) == q[i].weight + QueueWeight(q[..i] + q[i + 1..])
  {
    var before, after := q[..i], q[i + 1..];
    SplitAround(q, i);
    QueueConcat(before, [q[i]] + after);
    QueueConcat([q[i]], after);
    QueueConcat(before, after);
    QueueSingle(q[i]);
  }

  /** Pushing a node adds exactly its letters and its weight to the queue. */
  lemma QueuePush(q: seq<Node>, n: Node)
    ensures QueueLetters(q + [n]) == QueueLetters(q) + Letters(n)
    ensures QueueWeight(q + [n]) == QueueWeight(q) + n.weight
  {
    QueueConcat(q, [n]);
    QueueSingle(n);
  }

  /** Every leaf holds a letter of the table with that letter's count as its weight. */
  ghost predicate LeavesFrom(t: Node, freqTable: map<Byte, int>)
  {
    if IsLeaf(t) then t.letter in freqTable && t.weight == freqTable[t.letter]
    else (t.zero.Some? ==> LeavesFrom(t.zero.value, freqTable)) &&
         (t.one.Some? ==> LeavesFrom(t.one.value, freqTable))
  }

  /** What `buildTree` promises of the tree it builds from a table: every internal node has
      two children and weighs their sum, each leaf weighs its letter's count, the leaves hold
      each key of the table exactly once, and the root weighs the sum of all counts. */
  ghost predicate IsCodingTreeFor(t: Node, freqTable: map<Byte, int>)
  {
    Full(t) && Weighted(t) && LeavesFrom(t, freqTable) &&
    Letters(t) == multiset(freqTable.Keys) && t.weight == Total(freqTable)
  }

  /** The root is a single leaf exactly when the table has one entry; that leaf then holds
      the entry's letter and count. */
  lemma SingleEntryIsLeaf(t: Node, freqTable: map<Byte, int>)
    requires IsCodingTreeFor(t, freqTable)
    ensures IsLeaf(t) <==> |freqTable| == 1
    ensures IsLeaf(t) ==> freqTable == map[t.letter := t.weight]
  {
    FullLetters(t);
    assert |multiset(freqTable.Keys)| == |freqTable.Keys|;
    if IsLeaf(t) {
      assert multiset(freqTable.Keys) == multiset{t.letter};
      assert t.letter in freqTable.Keys;
      assert freqTable.Keys == {t.letter} by {
        forall b | b in freqTable.Keys
          ensures b == t.letter
        {
          assert b in multiset(freqTable.Keys);
        }
      }
    }
  }

  /** Each letter occurs at one leaf only. */
  lemma CodingTreeLettersDistinct(t: Node, freqTable: map<Byte, int>)
    requires IsCodingTreeFor(t, freqTable)
    ensures forall c :: LettersOf(Some(t))[c] <= 1
  {
    assert LettersOf(Some(t)) == multiset(freqTable.Keys);
  }

  /** The queue while leaves are pushed, one per table key taken from `pending`: `pq` holds a
      leaf for each key already taken, weighted by its count. */
  ghost predicate LeafQueue(pq: seq<Node>, pending: set<Byte>, freqTable: map<Byte, int>)
  {
    pending <= freqTable.Keys &&
    |pq| + |pending| == |freqTable.Keys| &&
    (forall n :: n in pq ==> IsLeaf(n) && LeavesFrom(n, freqTable)) &&
    (forall b :: QueueLetters(pq)[b] == if b in freqTable && b !in pending then 1 else 0) &&
    QueueWeight(pq) + SumBelow(freqTable, pending, 256) == Total(freqTable)
  }

  /** Every tree in the queue is well formed and its leaves come from the table. */
  ghost predicate WellFormedQueue(pq: seq<Node>, freqTable: map<Byte, int>)
  {
    forall n :: n in pq ==> Full(n) && Weighted(n) && LeavesFrom(n, freqTable)
  }

  /** The queue while nodes are merged: its trees are well formed, hold every key once
      between them, and weigh the table's total between them. */
  ghost predicate MergeQueue(pq: seq<Node>, freqTable: map<Byte, int>)
  {
    WellFormedQueue(pq, freqTable) &&
    QueueLetters(pq) == multiset(freqTable.Keys) &&
    QueueWeight(pq) == Total(freqTable)
  }

  /** Before any key is taken the queue is empty. */
  lemma LeafQueueStart(freqTable: map<Byte, int>)
    ensures LeafQueue([], freqTable.Keys, freqTable)
  {
  }

  /** Pushing the leaf of a pending key keeps the push loop's invariant. */
  lemma LeafQueueStep(pq: seq<Node>, pending: set<Byte>, c: Byte, freqTable: map<Byte, int>)
    requires LeafQueue(pq, pending, freqTable) && c in pending
    ensures LeafQueue(pq + [NewLeaf(c, freqTable[c])], pending - {c}, freqTable)
  {
    var leaf := NewLeaf(c, freqTable[c]);
    SumBelowRemove(freqTable, pending, c, 256);
    QueuePush(pq, leaf);
    assert Letters(leaf) == multiset{c};
  }

  /** Once every key is taken, the queue holds one leaf per key and the merge loop can start. */
  lemma LeafQueueDone(pq: seq<Node>, freqTable: map<Byte, int>)
    requires LeafQueue(pq, {}, freqTable)
    requires |freqTable| > 0
    ensures |pq| >= 1 && MergeQueue(pq, freqTable)
  {
    SumBelowEmpty(freqTable, 256);
    assert QueueLetters(pq) == multiset(freqTable.Keys);
  }

  /** Popping a node leaves only nodes that were queued. */
  lemma RemoveKeeps(q: seq<Node>, i: nat, n: Node)
    requires i < |q| && n in q[..i] + q[i + 1..]
    ensures n in q
  {
  }

  /** Popping two nodes and pushing their parent keeps every queued tree well formed. */
  lemma MergeWellFormed(pq: seq<Node>, i: nat, rest: seq<Node>, k: nat, parent: Node,
                        freqTable: map<Byte, int>)
    requires WellFormedQueue(pq, freqTable)
    requires i < |pq| && rest == pq[..i] + pq[i + 1..] && k < |rest|
    requires parent == NewNode('\0', pq[i].weight + rest[k].weight, Some(pq[i]), Some(rest[k]))
    ensures WellFormedQueue(rest[..k] + rest[k + 1..] + [parent], freqTable)
  {
    RemoveKeeps(pq, i, rest[k]);
    forall n | n in rest[..k] + rest[k + 1..] + [parent]
      ensures Full(n) && Weighted(n) && LeavesFrom(n, freqTable)
    {
      if n != parent {
        RemoveKeeps(rest, k, n);
        RemoveKeeps(pq, i, n);
      }
    }
  }

  /** Popping two nodes and pushing their parent keeps the queue's letters and total weight. */
  lemma MergeTotals(pq: seq<Node>, i: nat, rest: seq<Node>, k: nat, parent: Node)
    requires i < |pq| && rest == pq[..i] + pq[i + 1..] && k < |rest|
    requires parent == NewNode('\0', pq[i].weight + rest[k].weight, Some(pq[i]), Some(rest[k]))
    ensures QueueLetters(rest[..k] + rest[k + 1..] + [parent]) == QueueLetters(pq)
    ensures QueueWeight(rest[..k] + rest[k + 1..] + [parent]) == QueueWeight(pq)
  {
    QueueRemove(pq, i);
    QueueRemove(rest, k);
    QueuePush(rest[..k] + rest[k + 1..], parent);
    assert Letters(parent) == Letters(pq[i]) + Letters(rest[k]);
  }

  /** Popping the node at `i` (leaving `rest`), then the node at `k` of `rest`, and pushing
      their parent (leaving `next`) keeps the merge loop's invariant and shortens the queue by
      one. */
  lemma MergeQueueStep(pq: seq<Node>, i: nat, rest: seq<Node>, k: nat, next: seq<Node>,
                       freqTable: map<Byte, int>)
    requires MergeQueue(pq, freqTable)
    requires i < |pq| && rest == pq[..i] + pq[i + 1..]
    requires k < |rest|
    requires next == rest[..k] + rest[k + 1..] + [NewNode('\0', pq[i].weight + rest[k].weight, Some(pq[i]), Some(rest[k]))]
    ensures |next| == |pq| - 1 && MergeQueue(next, freqTable)
  {
    var parent := NewNode('\0', pq[i].weight + rest[k].weight, Some(pq[i]), Some(rest[k]));
    MergeWellFormed(pq, i, rest, k, parent, freqTable);
    MergeTotals(pq, i, rest, k, parent);
  }

  /** A single tree left in the queue is a coding tree for the table. */
  lemma MergeQueueDone(pq: seq<Node>, freqTable: map<Byte, int>)
    requires MergeQueue(pq, freqTable) && |pq| == 1
    ensures IsCodingTreeFor(pq[0], freqTable)
  {
    assert pq[1..] == [];
    assert QueueLetters(pq) == Letters(pq[0]);
    assert QueueWeight(pq) == pq[0].weight;
  }
}
