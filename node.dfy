/** The tree node record of backend/Node.h and the weight ordering the priority queue uses. */
module NodeRecord {
  import opened Common

  /** A node of the coding tree. `zero` and `one` are the child pointers (None is a null
      pointer); `letter` is meaningful only at a leaf; `code` is a field the engine
      initialises and never reads. */
  datatype Node = Node(letter: Byte, weight: int, zero: Option<Node>, one: Option<Node>, code: seq<Byte>)

  /** A node is a leaf exactly when both child pointers are null: every traversal tests this. */
  predicate IsLeaf(n: Node)
  {
    n.zero.None? && n.one.None?
  }

  /** The two-argument constructor: a leaf holding `letter` with `weight`. */
  function NewLeaf(letter: Byte, weight: int): (r: Node)
    ensures IsLeaf(r)
    ensures r.letter == letter && r.weight == weight && r.code == []
  {
    Node(letter, weight, None, None, [])
  }

  /** The four-argument constructor: stores exactly what it is given, with an empty code. */
  function NewNode(letter: Byte, weight: int, zero: Option<Node>, one: Option<Node>): (r: Node)
    ensures r.letter == letter && r.weight == weight && r.zero == zero && r.one == one
    ensures r.code == []
    ensures IsLeaf(r) <==> zero.None? && one.None?
  {
    Node(letter, weight, zero, one, [])
  }

  /** The weight comparator: `lhs` ranks below `rhs` when it is heavier, so a queue ordered by
      it has a lightest node on top. This is `compareWeights` of backend/Node.h:38-42, and it
      compares exactly as the lambda `compare` that `buildTree`'s queue is declared with
      (backend/Huffman.cpp:39-41); `compareWeights` itself is used nowhere else. */
  predicate CompareWeights(lhs: Node, rhs: Node)
  {
    lhs.weight > rhs.weight
  }

  /** The comparator is a strict weak order: irreflexive, asymmetric, transitive, and nodes of
      equal weight are unordered with respect to each other. */
  lemma CompareWeightsIsStrictWeakOrder(a: Node, b: Node, c: Node)
    ensures !CompareWeights(a, a)
    ensures CompareWeights(a, b) ==> !CompareWeights(b, a)
    ensures CompareWeights(a, b) && CompareWeights(b, c) ==> CompareWeights(a, c)
    ensures a.weight == b.weight ==> !CompareWeights(a, b) && !CompareWeights(b, a)
  {
  }

  /** Every node has either no children or two: the shape tree construction produces. */
  predicate Full(n: Node)
  {
    IsLeaf(n) || (n.zero.Some? && n.one.Some? && Full(n.zero.value) && Full(n.one.value))
  }

  /** Every internal node weighs the sum of its children's weights. */
  predicate Weighted(n: Node)
  {
    IsLeaf(n) ||
    (n.zero.Some? && n.one.Some? && n.weight == n.zero.value.weight + n.one.value.weight &&
     Weighted(n.zero.value) && Weighted(n.one.value))
  }

  /** The letters at the leaves of a subtree, with multiplicity; empty for a null pointer. */
  function LettersOf(n: Option<Node>): multiset<Byte>
    decreases n
  {
    match n
    case None => multiset{}
    case Some(x) => if IsLeaf(x) then multiset{x.letter} else LettersOf(x.zero) + LettersOf(x.one)
  }

  /** The letters at the leaves of the tree rooted at `n`. */
  function Letters(n: Node): multiset<Byte>
  {
    LettersOf(Some(n))
  }

  /** Number of internal nodes of a subtree. */
  function InternalCount(n: Option<Node>): nat
    decreases n
  {
    match n
    case None => 0
    case Some(x) => if IsLeaf(x) then 0 else 1 + InternalCount(x.zero) + InternalCount(x.one)
  }

  /** A full tree has at least one leaf, and exactly one when it is a single leaf. */
  lemma {:induction false} FullLetters(n: Node)
    requires Full(n)
    ensures |Letters(n)| >= 1
    ensures IsLeaf(n) <==> |Letters(n)| == 1
  {
    if !IsLeaf(n) {
      FullLetters(n.zero.value);
      FullLetters(n.one.value);
    }
  }
}
