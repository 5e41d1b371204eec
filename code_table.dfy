/** Code derivation: `making_codes` (byte to code) and `ReverseCodes` (code to byte) in
    backend/Huffman.cpp. Both walk the tree depth first, appending '0' on the way to the zero
    child and '1' on the way to the one child, and record the accumulated path at each leaf. */
module CodeTable {
  import opened Common
  import opened NodeRecord

  /** The child reached from `n` by one code character; no child for a character that is
      neither '0' nor '1'. */
  function Step(n: Node, bit: Byte): Option<Node>
  {
    if bit == ZeroBit then n.zero else if bit == OneBit then n.one else None
  }

  /** The node reached from `n` by following `path`; None once the path leaves the tree. */
  function Follow(n: Option<Node>, path: seq<Byte>): Option<Node>
    decreases |path|
  {
    if path == [] then n
    else if n.None? then None
    else Follow(Step(n.value, path[0]), path[1..])
  }

  /** `path` leads from `n` to a leaf. */
  predicate IsLeafPath(n: Option<Node>, path: seq<Byte>)
  {
    var x := Follow(n, path);
    x.Some? && IsLeaf(x.value)
  }

  /** `path` leads from `n` to a leaf holding `c`. */
  predicate LeafAt(n: Option<Node>, path: seq<Byte>, c: Byte)
  {
    var x := Follow(n, path);
    x.Some? && IsLeaf(x.value) && x.value.letter == c
  }

  /** `k` is `code` followed by a path from `n` to a leaf. */
  predicate LeafPathBelow(n: Option<Node>, code: seq<Byte>, k: seq<Byte>)
  {
    Extends(k, code) && IsLeafPath(n, k[|code|..])
  }

  /** The forward table of a tree: exactly the leaf letters are keys, and each is mapped to a
      path that leads to a leaf holding it. */
  ghost predicate IsCodeTable(root: Option<Node>, codes: map<Byte, seq<Byte>>)
  {
    (forall c :: c in codes <==> c in LettersOf(root)) &&
    (forall c :: c in codes ==> LeafAt(root, codes[c], c))
  }

  /** The reverse table of a tree: exactly the leaf paths are keys, each mapped to the letter
      of its leaf. */
  ghost predicate IsDecodeTable(root: Option<Node>, table: map<seq<Byte>, Byte>)
  {
    (forall k :: k in table <==> IsLeafPath(root, k)) &&
    (forall k :: k in table ==> LeafAt(root, k, table[k]))
  }

  lemma FollowNone(path: seq<Byte>)
    ensures Follow(None, path) == None
  {
  }

  /** Following a path from a leaf leaves the tree after the first step. */
  lemma FollowPastLeaf(x: Node, path: seq<Byte>)
    requires IsLeaf(x) && path != []
    ensures Follow(Some(x), path) == None
  {
    FollowNone(path[1..]);
  }

  /** Following `a + b` is following `a`, then `b`. */
  lemma {:induction false} FollowConcat(n: Option<Node>, a: seq<Byte>, b: seq<Byte>)
    ensures Follow(n, a + b) == Follow(Follow(n, a), b)
    decreases |a|
  {
    if a == [] {
      assert a + b == b;
    } else if n.None? {
      FollowNone(b);
    } else {
      assert (a + b)[1..] == a[1..] + b;
      FollowConcat(Step(n.value, a[0]), a[1..], b);
    }
  }

  /** Descending one level: below `code + [bit]` in a child is below `code` in the parent. */
  lemma Descend(n: Node, code: seq<Byte>, bit: Byte, k: seq<Byte>)
    requires Extends(k, code + [bit])
    ensures Extends(k, code)
    ensures k[|code|..] == [bit] + k[|code| + 1..]
    ensures Follow(Some(n), k[|code|..]) == Follow(Step(n, bit), k[|code| + 1..])
  {
    assert k[..|code|] == (code + [bit])[..|code|];
    assert k[|code|] == (code + [bit])[|code|];
    assert k[|code|..] == [bit] + k[|code| + 1..];
  }

  /** A path below an internal node goes through its zero child or its one child, never both. */
  lemma SplitBelow(n: Node, code: seq<Byte>, k: seq<Byte>)
    requires !IsLeaf(n)
    ensures LeafPathBelow(Some(n), code, k) <==>
            LeafPathBelow(n.zero, code + [ZeroBit], k) || LeafPathBelow(n.one, code + [OneBit], k)
    ensures !(LeafPathBelow(n.zero, code + [ZeroBit], k) && LeafPathBelow(n.one, code + [OneBit], k))
  {
    if LeafPathBelow(Some(n), code, k) {
      var p := k[|code|..];
      assert p != [];
      if p[0] != ZeroBit && p[0] != OneBit {
        FollowNone(p[1..]);
        assert false;
      }
      assert k[..|code| + 1] == code + [p[0]];
      Descend(n, code, p[0], k);
    }
    if LeafPathBelow(n.zero, code + [ZeroBit], k) {
      Descend(n, code, ZeroBit, k);
    }
    if LeafPathBelow(n.one, code + [OneBit], k) {
      Descend(n, code, OneBit, k);
    }
  }

  /** The only path below a leaf is the empty one. */
  lemma LeafBelow(x: Node, code: seq<Byte>, k: seq<Byte>)
    requires IsLeaf(x)
    ensures LeafPathBelow(Some(x), code, k) <==> k == code
  {
    if LeafPathBelow(Some(x), code, k) && k[|code|..] != [] {
      FollowPastLeaf(x, k[|code|..]);
    }
    if k == code {
      assert k[|code|..] == [];
    }
  }

  /** There is no path below a null pointer. */
  lemma NoPathBelowNull(code: seq<Byte>, k: seq<Byte>)
    ensures !LeafPathBelow(None, code, k)
  {
    if Extends(k, code) {
      FollowNone(k[|code|..]);
    }
  }

  /** `result` is `codes` with, for each letter at a leaf below `node`, the path to such a leaf
      prefixed by `code`; entries for other letters are kept. */
  ghost predicate CodesBelow(node: Option<Node>, code: seq<Byte>, codes: map<Byte, seq<Byte>>,
                             result: map<Byte, seq<Byte>>)
  {
    (forall c :: c in result <==> c in codes || c in LettersOf(node)) &&
    (forall c :: c in result && c !in LettersOf(node) ==> result[c] == codes[c]) &&
    (forall c :: c in LettersOf(node) ==> Extends(result[c], code) && LeafAt(node, result[c][|code|..], c))
  }

  /** The zero subtree's codes, then the one subtree's codes, make the parent's codes. */
  lemma CodesCompose(n: Node, code: seq<Byte>, codes: map<Byte, seq<Byte>>,
                     afterZero: map<Byte, seq<Byte>>, result: map<Byte, seq<Byte>>)
    requires !IsLeaf(n)
    requires CodesBelow(n.zero, code + [ZeroBit], codes, afterZero)
    requires CodesBelow(n.one, code + [OneBit], afterZero, result)
    ensures CodesBelow(Some(n), code, codes, result)
  {
    assert LettersOf(Some(n)) == LettersOf(n.zero) + LettersOf(n.one);
    forall c | c in LettersOf(n.one)
      ensures Extends(result[c], code) && LeafAt(Some(n), result[c][|code|..], c)
    {
      Descend(n, code, OneBit, result[c]);
    }
    forall c | c in LettersOf(n.zero) && c !in LettersOf(n.one)
      ensures Extends(result[c], code) && LeafAt(Some(n), result[c][|code|..], c)
    {
      Descend(n, code, ZeroBit, result[c]);
    }
  }

  /** A leaf contributes its letter with the path `code`; its null children contribute nothing. */
  lemma CodesLeaf(n: Node, code: seq<Byte>, codes: map<Byte, seq<Byte>>,
                  afterZero: map<Byte, seq<Byte>>, result: map<Byte, seq<Byte>>)
    requires IsLeaf(n)
    requires CodesBelow(n.zero, code + [ZeroBit], codes[n.letter := code], afterZero)
    requires CodesBelow(n.one, code + [OneBit], afterZero, result)
    ensures CodesBelow(Some(n), code, codes, result)
  {
    assert LettersOf(Some(n)) == multiset{n.letter};
    assert result == codes[n.letter := code];
    assert code[|code|..] == [];
  }

  /** A table built from the empty map with the empty prefix is the tree's forward table. */
  lemma CodesFromRoot(node: Option<Node>, result: map<Byte, seq<Byte>>)
    requires CodesBelow(node, [], map[], result)
    ensures IsCodeTable(node, result)
  {
    forall c | c in result
      ensures LeafAt(node, result[c], c)
    {
      assert result[c][0..] == result[c];
    }
  }

  /** `making_codes`: records in `codes`, for each leaf below `node`, the path from `node` to it
      prefixed by `code`. Entries for letters not in the subtree are kept. When two leaves hold
      the same letter, a later one in preorder overwrites an earlier one. */
  method MakingCodes(node: Option<Node>, code: seq<Byte>, codes: map<Byte, seq<Byte>>)
    returns (result: map<Byte, seq<Byte>>)
    decreases node
    ensures CodesBelow(node, code, codes, result)
    ensures code == [] && codes == map[] ==> IsCodeTable(node, result)
  {
    if node.None? {
      return codes;
    }
    var n := node.value;
    result := codes;
    if IsLeaf(n) {
      result := result[n.letter := code];
    }
    var afterZero := MakingCodes(n.zero, code + [ZeroBit], result);
    result := MakingCodes(n.one, code + [OneBit], afterZero);
    if IsLeaf(n) {
      CodesLeaf(n, code, codes, afterZero, result);
    } else {
      CodesCompose(n, code, codes, afterZero, result);
    }
    if code == [] && codes == map[] {
      CodesFromRoot(node, result);
    }
  }

  /** `result` is `table` with each path below `node`, prefixed by `code`, mapped to the letter
      of its leaf; other entries are kept. */
  ghost predicate ReverseBelow(node: Option<Node>, code: seq<Byte>, table: map<seq<Byte>, Byte>,
                               result: map<seq<Byte>, Byte>)
  {
    (forall k :: k in result <==> k in table || LeafPathBelow(node, code, k)) &&
    (forall k :: LeafPathBelow(node, code, k) ==> LeafAt(node, k[|code|..], result[k])) &&
    (forall k :: k in result && !LeafPathBelow(node, code, k) ==> result[k] == table[k])
  }

  /** The zero subtree's entries, then the one subtree's entries, make the parent's entries. */
  lemma ReverseCompose(n: Node, code: seq<Byte>, table: map<seq<Byte>, Byte>,
                       afterZero: map<seq<Byte>, Byte>, result: map<seq<Byte>, Byte>)
    requires !IsLeaf(n)
    requires ReverseBelow(n.zero, code + [ZeroBit], table, afterZero)
    requires ReverseBelow(n.one, code + [OneBit], afterZero, result)
    ensures ReverseBelow(Some(n), code, table, result)
  {
    forall k
      ensures LeafPathBelow(Some(n), code, k) <==>
              LeafPathBelow(n.zero, code + [ZeroBit], k) || LeafPathBelow(n.one, code + [OneBit], k)
      ensures LeafPathBelow(Some(n), code, k) ==> LeafAt(Some(n), k[|code|..], result[k])
    {
      SplitBelow(n, code, k);
      if LeafPathBelow(n.zero, code + [ZeroBit], k) {
        Descend(n, code, ZeroBit, k);
      } else if LeafPathBelow(n.one, code + [OneBit], k) {
        Descend(n, code, OneBit, k);
      }
    }
  }

  /** A leaf contributes exactly the entry for `code`. */
  lemma ReverseLeaf(n: Node, code: seq<Byte>, table: map<seq<Byte>, Byte>, result: map<seq<Byte>, Byte>)
    requires IsLeaf(n)
    requires result == table[code := n.letter]
    ensures ReverseBelow(Some(n), code, table, result)
  {
    assert code[|code|..] == [];
    forall k
      ensures LeafPathBelow(Some(n), code, k) <==> k == code
    {
      LeafBelow(n, code, k);
    }
  }

  /** A table built from the empty map with the empty prefix is the tree's reverse table. */
  lemma ReverseFromRoot(node: Option<Node>, result: map<seq<Byte>, Byte>)
    requires ReverseBelow(node, [], map[], result)
    ensures IsDecodeTable(node, result)
  {
    forall k
      ensures k in result <==> IsLeafPath(node, k)
      ensures k in result ==> LeafAt(node, k, result[k])
    {
      assert k[0..] == k;
    }
  }

  /** `ReverseCodes`: records in `table`, for each leaf below `node`, the path from `node` to
      it prefixed by `code`, mapped to the leaf's letter. Other entries are kept. */
  method ReverseCodes(node: Option<Node>, code: seq<Byte>, table: map<seq<Byte>, Byte>)
    returns (result: map<seq<Byte>, Byte>)
    decreases node
    ensures ReverseBelow(node, code, table, result)
    ensures code == [] && table == map[] ==> IsDecodeTable(node, result)
  {
    if node.None? {
      forall k
        ensures !LeafPathBelow(node, code, k)
      {
        NoPathBelowNull(code, k);
      }
      return table;
    }
    var n := node.value;
    result := table;
    if IsLeaf(n) {
      result := result[code := n.letter];
      ReverseLeaf(n, code, table, result);
    }
    var afterZero := ReverseCodes(n.zero, code + [ZeroBit], result);
    result := ReverseCodes(n.one, code + [OneBit], afterZero);
    if IsLeaf(n) {
      forall k
        ensures !LeafPathBelow(n.zero, code + [ZeroBit], k) && !LeafPathBelow(n.one, code + [OneBit], k)
      {
        NoPathBelowNull(code + [ZeroBit], k);
        NoPathBelowNull(code + [OneBit], k);
      }
    } else {
      ReverseCompose(n, code, table, afterZero, result);
    }
    if code == [] && table == map[] {
      ReverseFromRoot(node, result);
    }
  }

  /** Leaf paths of one tree are prefix-free: a path that reaches a leaf cannot go any further. */
  lemma LeafPathsPrefixFree(root: Option<Node>, p: seq<Byte>, q: seq<Byte>)
    requires IsLeafPath(root, p) && IsLeafPath(root, q) && Extends(q, p)
    ensures p == q
  {
    assert q == p + q[|p|..];
    FollowConcat(root, p, q[|p|..]);
    if q[|p|..] != [] {
      FollowPastLeaf(Follow(root, p).value, q[|p|..]);
    }
  }

  /** The reverse table of any tree is prefix-free, so greedy matching against it is
      unambiguous. */
  lemma DecodeTableIsPrefixFree(root: Option<Node>, table: map<seq<Byte>, Byte>)
    requires IsDecodeTable(root, table)
    ensures PrefixFree(table)
  {
    forall p, q | p in table && q in table && Extends(q, p)
      ensures p == q
    {
      LeafPathsPrefixFree(root, p, q);
    }
  }

  /** No letter's code is a prefix of (or equal to) another letter's code. */
  lemma CodesArePrefixFree(root: Option<Node>, codes: map<Byte, seq<Byte>>)
    requires IsCodeTable(root, codes)
    ensures forall c, d :: c in codes && d in codes && Extends(codes[d], codes[c]) ==> c == d
  {
    forall c, d | c in codes && d in codes && Extends(codes[d], codes[c])
      ensures c == d
    {
      LeafPathsPrefixFree(root, codes[c], codes[d]);
    }
  }

  /** When the root is internal, every code has at least one bit. */
  lemma CodesAreNonEmpty(root: Node, codes: map<Byte, seq<Byte>>)
    requires !IsLeaf(root)
    requires IsCodeTable(Some(root), codes)
    ensures forall c :: c in codes ==> |codes[c]| > 0
  {
    forall c | c in codes
      ensures |codes[c]| > 0
    {
      assert LeafAt(Some(root), codes[c], c);
    }
  }

  /** A single-leaf tree gives its letter the empty code. */
  lemma SingleLeafCode(root: Node, codes: map<Byte, seq<Byte>>)
    requires IsLeaf(root)
    requires IsCodeTable(Some(root), codes)
    ensures codes == map[root.letter := []]
  {
    assert LettersOf(Some(root)) == multiset{root.letter};
    if codes[root.letter] != [] {
      FollowPastLeaf(root, codes[root.letter]);
    }
  }

  /** The reverse table maps each letter's code back to the letter. */
  lemma ReverseInvertsCodes(root: Option<Node>, codes: map<Byte, seq<Byte>>, table: map<seq<Byte>, Byte>)
    requires IsCodeTable(root, codes) && IsDecodeTable(root, table)
    ensures forall c :: c in codes ==> codes[c] in table && table[codes[c]] == c
  {
    forall c | c in codes
      ensures codes[c] in table && table[codes[c]] == c
    {
      assert LeafAt(root, codes[c], c);
      assert IsLeafPath(root, codes[c]);
    }
  }

  /** A leaf reached from `n` holds one of the letters of `n`. */
  lemma {:induction false} LeafAtHasLetter(n: Option<Node>, p: seq<Byte>, c: Byte)
    requires LeafAt(n, p, c)
    ensures c in LettersOf(n)
    decreases |p|
  {
    var x := n.value;
    if p == [] {
    } else if IsLeaf(x) {
      FollowPastLeaf(x, p);
    } else {
      LeafAtHasLetter(Step(x, p[0]), p[1..], c);
    }
  }

  /** Two different paths to leaves holding the same letter mean the letter occurs twice. */
  lemma {:induction false} TwoLeavesSameLetter(n: Option<Node>, p: seq<Byte>, q: seq<Byte>, c: Byte)
    requires LeafAt(n, p, c) && LeafAt(n, q, c) && p != q
    ensures LettersOf(n)[c] >= 2
    decreases |p|
  {
    var x := n.value;
    if IsLeaf(x) {
      if p != [] {
        FollowPastLeaf(x, p);
      }
      if q != [] {
        FollowPastLeaf(x, q);
      }
    } else {
      assert p != [] && q != [];
      if p[0] == q[0] {
        assert p == [p[0]] + p[1..] && q == [q[0]] + q[1..];
        TwoLeavesSameLetter(Step(x, p[0]), p[1..], q[1..], c);
      } else {
        LeafAtHasLetter(Step(x, p[0]), p[1..], c);
        LeafAtHasLetter(Step(x, q[0]), q[1..], c);
      }
    }
  }

  /** When every letter occurs at one leaf only, the forward table also maps each reverse
      entry's letter back to its code: the two tables are exact inverses. */
  lemma CodesInvertReverse(root: Option<Node>, codes: map<Byte, seq<Byte>>, table: map<seq<Byte>, Byte>)
    requires IsCodeTable(root, codes) && IsDecodeTable(root, table)
    requires forall c :: LettersOf(root)[c] <= 1
    ensures forall k :: k in table ==> table[k] in codes && codes[table[k]] == k
  {
    forall k | k in table
      ensures table[k] in codes && codes[table[k]] == k
    {
      var c := table[k];
      LeafAtHasLetter(root, k, c);
      if codes[c] != k {
        TwoLeavesSameLetter(root, codes[c], k, c);
      }
    }
  }

  /** The prefix the corrected code derivation starts from: '0' when the whole tree is one
      leaf, so that its letter gets a one-bit code; the empty prefix otherwise, where nothing
      changes. */
  function StartCode(root: Option<Node>): seq<Byte>
  {
    if root.Some? && IsLeaf(root.value) then [ZeroBit] else []
  }

  /** Dropping a common prefix keeps the extension relation between two sequences. */
  lemma ExtendsAfterPrefix(p: seq<Byte>, q: seq<Byte>, start: seq<Byte>)
    requires Extends(p, start) && Extends(q, start) && Extends(q, p)
    ensures Extends(q[|start|..], p[|start|..])
  {
    assert q[|start|..][..|p| - |start|] == q[..|p|][|start|..];
  }

  /** A reverse table derived from a start prefix: its keys are the prefix followed by a leaf
      path, each mapped to that leaf's letter, and it is prefix-free. */
  lemma StartedReverseTable(root: Option<Node>, start: seq<Byte>, table: map<seq<Byte>, Byte>)
    requires ReverseBelow(root, start, map[], table)
    ensures forall k :: k in table <==> LeafPathBelow(root, start, k)
    ensures forall k :: k in table ==> LeafAt(root, k[|start|..], table[k])
    ensures PrefixFree(table)
  {
    forall p, q | p in table && q in table && Extends(q, p)
      ensures p == q
    {
      ExtendsAfterPrefix(p, q, start);
      LeafPathsPrefixFree(root, p[|start|..], q[|start|..]);
      assert p == p[..|start|] + p[|start|..];
      assert q == q[..|start|] + q[|start|..];
    }
  }

  /** With the corrected start every code has at least one bit, whatever the tree's shape. */
  lemma StartedCodesNonEmpty(root: Node, codes: map<Byte, seq<Byte>>)
    requires CodesBelow(Some(root), StartCode(Some(root)), map[], codes)
    ensures forall c :: c in codes ==> |codes[c]| >= 1
  {
    forall c | c in codes
      ensures |codes[c]| >= 1
    {
      var start := StartCode(Some(root));
      assert LeafAt(Some(root), codes[c][|start|..], c);
    }
  }

  /** With the corrected start a single-leaf tree gives its letter the code "0". */
  lemma StartedSingleLeafCode(root: Node, codes: map<Byte, seq<Byte>>)
    requires IsLeaf(root)
    requires CodesBelow(Some(root), StartCode(Some(root)), map[], codes)
    ensures codes == map[root.letter := [ZeroBit]]
  {
    assert LettersOf(Some(root)) == multiset{root.letter};
    assert codes.Keys == {root.letter};
    var k := codes[root.letter];
    assert Extends(k, [ZeroBit]) && LeafAt(Some(root), k[1..], root.letter);
    if k[1..] != [] {
      FollowPastLeaf(root, k[1..]);
    }
    assert k[1..] == [];
    assert k == [ZeroBit];
  }
}
