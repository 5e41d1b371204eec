/** The tree header: `encodeTree`, `decodeTree` and `reconstruct_tree` in backend/Huffman.cpp.
    The header is a preorder walk: '0' for an internal node followed by its two children, '1'
    for a leaf followed by the leaf's raw byte. */
module TreeCodec {
  import opened Common
  import opened NodeRecord
  import opened CodeTable

  /** `encodeTree`: the preorder description of the subtree. A null pointer is written as a
      single '0'. A description is never empty, and it starts with '1' exactly when it
      describes a leaf, which is what lets `decodeTree` tell the two apart. */
  function EncodeTree(node: Option<Node>): (r: seq<Byte>)
    ensures |r| >= 1
    ensures r[0] == OneBit <==> node.Some? && IsLeaf(node.value)
    decreases node
  {
    match node
    case None => [ZeroBit]
    case Some(n) =>
      if IsLeaf(n) then [OneBit, n.letter]
      else [ZeroBit] + EncodeTree(n.zero) + EncodeTree(n.one)
  }

  /** A full tree's header has two characters per leaf and one per internal node. */
  lemma {:induction false} EncodeTreeLength(t: Node)
    requires Full(t)
    ensures |EncodeTree(Some(t))| == 2 * |Letters(t)| + InternalCount(Some(t))
  {
    if !IsLeaf(t) {
      EncodeTreeLength(t.zero.value);
      EncodeTreeLength(t.one.value);
    }
  }

  /** What `decodeTree` returns: the rebuilt node (None for a null pointer) and the value the
      by-reference index holds afterwards. */
  datatype Decoded = Decoded(node: Option<Node>, next: nat)

  /** `data[k]` on a constant string: the character at `k`, and the terminating '\0' at
      `k == |data|`. */
  function CharAt(data: seq<Byte>, k: nat): Byte
  {
    if k < |data| then data[k] else '\0'
  }

  /** Every weight is zero and every internal node holds '\0': what the decoder builds. */
  predicate Unweighted(n: Node)
  {
    n.weight == 0 && n.code == [] &&
    (!IsLeaf(n) ==> n.letter == '\0') &&
    (n.zero.Some? ==> Unweighted(n.zero.value)) &&
    (n.one.Some? ==> Unweighted(n.one.value))
  }

  /** `decodeTree(data, index)`: past the end it yields a null pointer and leaves the index;
      otherwise it reads a marker, makes a leaf of weight 0 from the next character when the
      marker is '1', and for any other marker decodes the zero child and then the one child. */
  function DecodeTree(data: seq<Byte>, index: nat): (r: Decoded)
    ensures index >= |data| ==> r == Decoded(None, index)
    ensures index < |data| ==> index < r.next <= |data| + 1 && r.node.Some?
    decreases |data| - index
  {
    if index >= |data| then Decoded(None, index)
    else if data[index] == OneBit then
      Decoded(Some(NewLeaf(CharAt(data, index + 1), 0)), index + 2)
    else
      var zero := DecodeTree(data, index + 1);
      var one := DecodeTree(data, zero.next);
      Decoded(Some(NewNode('\0', 0, zero.node, one.node)), one.next)
  }

  /** The tree with every weight set to zero and every internal letter set to '\0': shape and
      leaf letters are all the header keeps. */
  function Strip(t: Node): (r: Node)
    ensures IsLeaf(r) <==> IsLeaf(t)
  {
    if IsLeaf(t) then NewLeaf(t.letter, 0)
    else
      NewNode('\0', 0,
              if t.zero.Some? then Some(Strip(t.zero.value)) else None,
              if t.one.Some? then Some(Strip(t.one.value)) else None)
  }

  /** Every tree `decodeTree` builds has zero weights and '\0' at its internal nodes. */
  lemma {:induction false} DecodedIsUnweighted(data: seq<Byte>, index: nat)
    ensures DecodeTree(data, index).node.Some? ==> Unweighted(DecodeTree(data, index).node.value)
    decreases |data| - index
  {
    if index < |data| && data[index] != OneBit {
      DecodedIsUnweighted(data, index + 1);
      DecodedIsUnweighted(data, DecodeTree(data, index + 1).next);
    }
  }

  /** Stripping leaves zero weights and '\0' at internal nodes. */
  lemma {:induction false} StripIsUnweighted(t: Node)
    ensures Unweighted(Strip(t))
  {
    if !IsLeaf(t) {
      if t.zero.Some? {
        StripIsUnweighted(t.zero.value);
      }
      if t.one.Some? {
        StripIsUnweighted(t.one.value);
      }
    }
  }

  /** Where a marker followed by two pieces starts, the first piece follows the marker and
      the second follows the first. */
  lemma MarkerThenPieces<T>(data: seq<T>, index: nat, marker: T, x: seq<T>, y: seq<T>, rest: seq<T>)
    requires index <= |data| && data[index..] == [marker] + x + y + rest
    ensures index < |data| && data[index] == marker
    ensures data[index + 1..] == x + (y + rest)
    ensures data[index + 1 + |x|..] == y + rest
  {
    assert data[index] == data[index..][0];
    assert data[index + 1..] == data[index..][1..];
    assert data[index + 1 + |x|..] == data[index + 1..][|x|..];
  }

  /** Where an internal node's description starts, its marker is followed first by the
      zero child's description and then by the one child's. */
  lemma ChildrenFollowMarker(t: Node, data: seq<Byte>, index: nat, rest: seq<Byte>)
    requires Full(t) && !IsLeaf(t)
    requires index <= |data| && data[index..] == EncodeTree(Some(t)) + rest
    ensures var ez, eo := EncodeTree(Some(t.zero.value)), EncodeTree(Some(t.one.value));
            |EncodeTree(Some(t))| == 1 + |ez| + |eo| &&
            index < |data| && data[index] == ZeroBit &&
            data[index + 1..] == ez + (eo + rest) &&
            data[index + 1 + |ez|..] == eo + rest
  {
    var ez, eo := EncodeTree(Some(t.zero.value)), EncodeTree(Some(t.one.value));
    assert EncodeTree(Some(t)) == [ZeroBit] + ez + eo;
    MarkerThenPieces(data, index, ZeroBit, ez, eo, rest);
  }

  /** `data` holds the description of `t` from `index` on, character by character. */
  ghost predicate DescribedAt(data: seq<Byte>, index: nat, t: Node)
    decreases t
  {
    if IsLeaf(t) then
      index + 1 < |data| && data[index] == OneBit && data[index + 1] == t.letter
    else
      t.zero.Some? && t.one.Some? && index < |data| && data[index] == ZeroBit &&
      DescribedAt(data, index + 1, t.zero.value) &&
      DescribedAt(data, index + 1 + |EncodeTree(t.zero)|, t.one.value)
  }

  /** Where the description of a full tree is written, it is described character by
      character. */
  lemma {:induction false} DescribedWhereWritten(t: Node, data: seq<Byte>, index: nat, rest: seq<Byte>)
    requires Full(t)
    requires index <= |data| && data[index..] == EncodeTree(Some(t)) + rest
    ensures DescribedAt(data, index, t)
  {
    if IsLeaf(t) {
      var e := EncodeTree(Some(t));
      assert data[index] == (e + rest)[0] && data[index + 1] == (e + rest)[1];
    } else {
      ChildrenFollowMarker(t, data, index, rest);
      DescribedWhereWritten(t.zero.value, data, index + 1, EncodeTree(Some(t.one.value)) + rest);
      DescribedWhereWritten(t.one.value, data, index + 1 + |EncodeTree(Some(t.zero.value))|, rest);
    }
  }

  /** Decoding a described tree rebuilds it with its weights dropped and leaves the index
      just past its description. */
  lemma {:induction false} DecodeDescribed(t: Node, data: seq<Byte>, index: nat)
    requires DescribedAt(data, index, t)
    ensures DecodeTree(data, index) == Decoded(Some(Strip(t)), index + |EncodeTree(Some(t))|)
  {
    if !IsLeaf(t) {
      var mid := index + 1 + |EncodeTree(t.zero)|;
      DecodeDescribed(t.zero.value, data, index + 1);
      DecodeDescribed(t.one.value, data, mid);
      assert |EncodeTree(Some(t))| == 1 + |EncodeTree(t.zero)| + |EncodeTree(t.one)|;
      assert Strip(t) == NewNode('\0', 0, Some(Strip(t.zero.value)), Some(Strip(t.one.value)));
    }
  }

  /** Header round trip: decoding the description of a full tree, wherever it starts in the
      data and whatever follows it, rebuilds the tree with its weights dropped and leaves the
      index just past it. */
  lemma DecodeEncodeTree(t: Node, data: seq<Byte>, index: nat, rest: seq<Byte>)
    requires Full(t)
    requires index <= |data| && data[index..] == EncodeTree(Some(t)) + rest
    ensures DecodeTree(data, index) == Decoded(Some(Strip(t)), index + |EncodeTree(Some(t))|)
  {
    DescribedWhereWritten(t, data, index, rest);
    DecodeDescribed(t, data, index);
  }

  /** The header written for a full tree, followed by anything, reconstructs that tree's
      shape and letters. */
  lemma ReconstructFromHeader(t: Node, rest: seq<Byte>)
    requires Full(t)
    ensures DecodeTree(EncodeTree(Some(t)) + rest, 0).node == Some(Strip(t))
  {
    var data := EncodeTree(Some(t)) + rest;
    assert data[0..] == data;
    DecodeEncodeTree(t, data, 0, rest);
  }

  /** A header cut short is not rejected: the missing children become null pointers, so the
      single marker "0" rebuilds a leaf holding '\0'. */
  lemma TruncatedHeaderGivesLeaf()
    ensures DecodeTree([ZeroBit], 0).node == Some(NewLeaf('\0', 0))
  {
    assert DecodeTree([ZeroBit], 1) == Decoded(None, 1);
  }

  /** Dropping weights does not move leaves: following a path in the stripped tree reaches
      the stripped version of the node it reaches in the original. */
  lemma {:induction false} FollowStrip(t: Node, p: seq<Byte>)
    requires Full(t)
    ensures Follow(Some(Strip(t)), p).Some? <==> Follow(Some(t), p).Some?
    ensures Follow(Some(t), p).Some? ==>
              Full(Follow(Some(t), p).value) &&
              Follow(Some(Strip(t)), p) == Some(Strip(Follow(Some(t), p).value))
    decreases |p|
  {
    if p != [] {
      if IsLeaf(t) {
        FollowPastLeaf(t, p);
        FollowPastLeaf(Strip(t), p);
      } else if p[0] == ZeroBit {
        FollowStrip(t.zero.value, p[1..]);
      } else if p[0] == OneBit {
        FollowStrip(t.one.value, p[1..]);
      } else {
        FollowNone(p[1..]);
      }
    }
  }

  /** Codes depend on shape and letters only: the reconstructed tree has the same leaf paths,
      holding the same letters, as the tree the header was written from. */
  lemma StripKeepsLeaves(t: Node, p: seq<Byte>, c: Byte)
    requires Full(t)
    ensures IsLeafPath(Some(Strip(t)), p) <==> IsLeafPath(Some(t), p)
    ensures LeafAt(Some(Strip(t)), p, c) <==> LeafAt(Some(t), p, c)
  {
    FollowStrip(t, p);
  }
}
