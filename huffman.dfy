/** The `Huffman` object of backend/Huffman.cpp: the `root` field that `buildTree` and
    `reconstruct_tree` set, and the two operations `compress` and `decompress` that sequence
    the engine. The storage layer is not modelled: what `compress` hands to it is returned,
    and what `decompress` reads from it is passed in. */
module Engine {
  import opened Common
  import opened NodeRecord
  import opened Frequency
  import opened TreeBuilder
  import opened CodeTable
  import opened TreeCodec
  import opened Decoder

  /** What `compress` hands to the storage layer: the header line given to `setHeader`, and
      the code strings given to `insert`, in order. */
  datatype Compressed = Compressed(header: seq<Byte>, payload: seq<seq<Byte>>)

  class Huffman {
    /** The root of the current tree; None is a null pointer. */
    var root: Option<Node>

    /** A fresh engine holds no tree. */
    constructor()
      ensures root == None
    {
      root := None;
    }

    /** `buildTree`: one leaf per table entry, pushed in the table's (unspecified) iteration
        order; then, while more than one node is queued, the two lightest are popped and
        replaced by a parent whose zero child is the first popped and whose weight is the sum
        of theirs; the last node becomes the root. An empty table is excluded: the source
        would call `top()` on an empty queue. */
    method BuildTree(freqTable: map<Byte, int>)
      requires |freqTable| > 0
      modifies this
      ensures root.Some? && IsCodingTreeFor(root.value, freqTable)
      ensures IsLeaf(root.value) <==> |freqTable| == 1
      ensures |freqTable| == 1 ==> freqTable == map[root.value.letter := root.value.weight]
    {
      var pq: seq<Node> := [];
      var pending := freqTable.Keys;
      LeafQueueStart(freqTable);
      while pending != {}
        invariant LeafQueue(pq, pending, freqTable)
        decreases pending
      {
        var c :| c in pending;
        LeafQueueStep(pq, pending, c, freqTable);
        pq := pq + [NewLeaf(c, freqTable[c])];
        pending := pending - {c};
      }
      LeafQueueDone(pq, freqTable);

      while |pq| > 1
        invariant |pq| >= 1 && MergeQueue(pq, freqTable)
        decreases |pq|
      {
        ghost var before := pq;
        var i := TopIndex(pq);
        var left := pq[i];
        pq := pq[..i] + pq[i + 1..];
        ghost var popped := pq;
        var k := TopIndex(pq);
        var right := pq[k];
        pq := pq[..k] + pq[k + 1..];
        var parent := NewNode('\0', left.weight + right.weight, Some(left), Some(right));
        pq := pq + [parent];
        MergeQueueStep(before, i, popped, k, pq, freqTable);
      }
      MergeQueueDone(pq, freqTable);
      root := Some(pq[0]);
      SingleEntryIsLeaf(pq[0], freqTable);
    }

    /** `reconstruct_tree`: the tree described by the header, read from its first character. */
    method ReconstructTree(header: seq<Byte>)
      modifies this
      ensures root == DecodeTree(header, 0).node
    {
      root := DecodeTree(header, 0).node;
    }

    /** `compress`, given the file's content. Empty content returns before anything is built
        or written. Otherwise: count, build the tree, derive the codes, describe the tree in a
        header line, hand over the code of each byte in order, and drop the tree. The ghost
        results name the table and tree that were built. */
    method Compress(content: seq<Byte>) returns (stored: Option<Compressed>,
                                                ghost freqTable: map<Byte, int>, ghost tree: Node)
      modifies this
      ensures content == [] ==> stored == None && root == old(root)
      ensures content != [] ==> stored.Some? && root == None &&
                                 IsCompressionOf(content, stored.value, freqTable, tree)
      ensures content != [] ==> tree.weight == |content|
    {
      if content == [] {
        return None, map[], NewLeaf('\0', 0);
      }
      var table := FrequencyTable(content, map[]);
      TotalEmpty();
      BuildTree(table);
      var t := root.value;
      var huffmanCodes := MakingCodes(root, [], map[]);
      CodesCoverContent(content, table, t, huffmanCodes);
      var header := EncodeTree(root) + ['\n'];
      var payload := CodeEach(content, huffmanCodes);
      CodedContent(content, table, t, huffmanCodes, payload);
      freqTable, tree := table, t;
      root := None;
      stored := Some(Compressed(header, payload));
    }

    /** `decompress`, given the header line and the bit chunks the storage layer hands out:
        rebuild the tree from the header, derive the reverse table, then match the bits
        greedily against it. The ghost result names the reverse table. */
    method Decompress(header: seq<Byte>, chunks: seq<seq<Byte>>) returns (out: seq<Byte>,
                                                                       ghost table: map<seq<Byte>, Byte>)
      modifies this
      ensures root == DecodeTree(header, 0).node
      ensures IsDecodeTable(root, table)
      ensures out == Greedy(table, Flatten(chunks), [])
    {
      ReconstructTree(header);
      var reverseCodes := ReverseCodes(root, [], map[]);
      out := DecodeBits(reverseCodes, chunks);
      table := reverseCodes;
    }

    /** `compress` with the single-leaf case corrected: codes are derived from the start
        prefix `StartCode(root)`, so a tree that is one leaf gives its letter the code "0";
        everything else is as in `Compress`. */
    method CompressCorrected(content: seq<Byte>) returns (stored: Option<Compressed>,
                                                         ghost freqTable: map<Byte, int>, ghost tree: Node)
      modifies this
      ensures content == [] ==> stored == None && root == old(root)
      ensures content != [] ==> stored.Some? && root == None &&
                                 IsCorrectedCompressionOf(content, stored.value, freqTable, tree)
      ensures content != [] ==> tree.weight == |content|
    {
      if content == [] {
        return None, map[], NewLeaf('\0', 0);
      }
      var table := FrequencyTable(content, map[]);
      TotalEmpty();
      BuildTree(table);
      var t := root.value;
      var huffmanCodes := MakingCodes(root, StartCode(root), map[]);
      StartedCoverContent(content, table, t, huffmanCodes);
      var header := EncodeTree(root) + ['\n'];
      var payload := CodeEach(content, huffmanCodes);
      freqTable, tree := table, t;
      root := None;
      stored := Some(Compressed(header, payload));
    }

    /** `decompress` with the single-leaf case corrected: the reverse table is derived from the
        same start prefix as in `CompressCorrected`. */
    method DecompressCorrected(header: seq<Byte>, chunks: seq<seq<Byte>>) returns (out: seq<Byte>,
                                                                                ghost table: map<seq<Byte>, Byte>)
      modifies this
      ensures root == DecodeTree(header, 0).node
      ensures ReverseBelow(root, StartCode(root), map[], table)
      ensures out == Greedy(table, Flatten(chunks), [])
    {
      ReconstructTree(header);
      var reverseCodes := ReverseCodes(root, StartCode(root), map[]);
      out := DecodeBits(reverseCodes, chunks);
      table := reverseCodes;
    }
  }

  /** The `insert` loop of `compress`: the code of each byte of the content, in order. */
  method CodeEach(content: seq<Byte>, codes: map<Byte, seq<Byte>>) returns (payload: seq<seq<Byte>>)
    requires forall i :: 0 <= i < |content| ==> content[i] in codes
    ensures |payload| == |content|
    ensures forall i :: 0 <= i < |content| ==> payload[i] == codes[content[i]]
  {
    payload := [];
    for i := 0 to |content|
      invariant |payload| == i
      invariant forall j :: 0 <= j < i ==> payload[j] == codes[content[j]]
    {
      payload := payload + [codes[content[i]]];
    }
  }

  /** What `compress` hands to storage for `content`: a header line describing a coding
      tree built from the content's counts, and, byte by byte, the path to that byte's leaf. */
  ghost predicate IsCompressionOf(content: seq<Byte>, stored: Compressed,
                                  freqTable: map<Byte, int>, tree: Node)
  {
    CountsOf(content, freqTable) && IsCodingTreeFor(tree, freqTable) &&
    stored.header == EncodeTree(Some(tree)) + ['\n'] &&
    |stored.payload| == |content| &&
    forall i :: 0 <= i < |content| ==> LeafAt(Some(tree), stored.payload[i], content[i])
  }

  /** Every byte of the content has a code. */
  lemma CodesCoverContent(content: seq<Byte>, freqTable: map<Byte, int>, tree: Node,
                          codes: map<Byte, seq<Byte>>)
    requires CountsOf(content, freqTable) && IsCodingTreeFor(tree, freqTable)
    requires IsCodeTable(Some(tree), codes)
    ensures forall i :: 0 <= i < |content| ==> content[i] in codes
  {
    forall i | 0 <= i < |content|
      ensures content[i] in codes
    {
      assert content[i] in freqTable;
      assert content[i] in multiset(freqTable.Keys);
    }
  }

  /** Handing over each byte's code from the tree's code table is a compression of the
      content. */
  lemma CodedContent(content: seq<Byte>, freqTable: map<Byte, int>, tree: Node,
                     codes: map<Byte, seq<Byte>>, payload: seq<seq<Byte>>)
    requires CountsOf(content, freqTable) && IsCodingTreeFor(tree, freqTable)
    requires IsCodeTable(Some(tree), codes)
    requires |payload| == |content|
    requires forall i :: 0 <= i < |content| ==> content[i] in codes && payload[i] == codes[content[i]]
    ensures IsCompressionOf(content, Compressed(EncodeTree(Some(tree)) + ['\n'], payload), freqTable, tree)
  {
  }

  /** The whole round trip, for content with at least two distinct bytes: decoding the header
      `compress` wrote rebuilds a tree whose reverse table, matched greedily against the codes
      `compress` handed over (in whatever chunks storage returns them), gives back the
      content. */
  lemma CompressThenDecompress(content: seq<Byte>, freqTable: map<Byte, int>, tree: Node,
                               payload: seq<seq<Byte>>, header: seq<Byte>, rest: seq<Byte>,
                               chunks: seq<seq<Byte>>, table: map<seq<Byte>, Byte>)
    requires CountsOf(content, freqTable) && IsCodingTreeFor(tree, freqTable)
    requires |freqTable| >= 2
    requires |payload| == |content|
    requires forall i :: 0 <= i < |content| ==> LeafAt(Some(tree), payload[i], content[i])
    requires header == EncodeTree(Some(tree)) + rest
    requires Flatten(chunks) == Flatten(payload)
    requires IsDecodeTable(DecodeTree(header, 0).node, table)
    ensures Greedy(table, Flatten(chunks), []) == content
  {
    ReconstructFromHeader(tree, rest);
    var rebuilt := Some(Strip(tree));
    SingleEntryIsLeaf(tree, freqTable);
    DecodeTableIsPrefixFree(rebuilt, table);
    forall i | 0 <= i < |payload|
      ensures payload[i] in table && payload[i] != [] && table[payload[i]] == content[i]
    {
      StripKeepsLeaves(tree, payload[i], content[i]);
      assert IsLeafPath(rebuilt, payload[i]);
      assert LeafAt(rebuilt, payload[i], table[payload[i]]);
    }
    GreedyDecodesCodes(table, payload);
  }

  /** As written, content made of one distinct byte is lost: the tree is a single leaf, every
      code is empty, no bit is handed to storage, and decoding writes nothing, whatever the
      reverse table. */
  lemma SingleSymbolLost(content: seq<Byte>, freqTable: map<Byte, int>, tree: Node,
                         payload: seq<seq<Byte>>, chunks: seq<seq<Byte>>, table: map<seq<Byte>, Byte>)
    requires CountsOf(content, freqTable) && IsCodingTreeFor(tree, freqTable)
    requires |freqTable| == 1
    requires |payload| == |content|
    requires forall i :: 0 <= i < |content| ==> LeafAt(Some(tree), payload[i], content[i])
    requires Flatten(chunks) == Flatten(payload)
    ensures content != [] && Greedy(table, Flatten(chunks), []) == []
  {
    SingleEntryIsLeaf(tree, freqTable);
    assert tree.letter in freqTable;
    forall i | 0 <= i < |payload|
      ensures payload[i] == []
    {
      if payload[i] != [] {
        FollowPastLeaf(tree, payload[i]);
      }
    }
    FlattenEmpty(payload);
  }

  /** What the corrected `compress` hands to storage: as in `IsCompressionOf`, except that
      each code is the start prefix followed by the path to the byte's leaf. */
  ghost predicate IsCorrectedCompressionOf(content: seq<Byte>, stored: Compressed,
                                           freqTable: map<Byte, int>, tree: Node)
  {
    CountsOf(content, freqTable) && IsCodingTreeFor(tree, freqTable) &&
    stored.header == EncodeTree(Some(tree)) + ['\n'] &&
    |stored.payload| == |content| &&
    forall i :: 0 <= i < |content| ==>
      var start := StartCode(Some(tree));
      Extends(stored.payload[i], start) && LeafAt(Some(tree), stored.payload[i][|start|..], content[i])
  }

  /** With the corrected start prefix every byte of the content still has a code. */
  lemma StartedCoverContent(content: seq<Byte>, freqTable: map<Byte, int>, tree: Node,
                            codes: map<Byte, seq<Byte>>)
    requires CountsOf(content, freqTable) && IsCodingTreeFor(tree, freqTable)
    requires CodesBelow(Some(tree), StartCode(Some(tree)), map[], codes)
    ensures forall i :: 0 <= i < |content| ==> content[i] in codes
  {
    forall i | 0 <= i < |content|
      ensures content[i] in codes
    {
      assert content[i] in freqTable;
      assert content[i] in multiset(freqTable.Keys);
    }
  }

  /** The corrected round trip, for any content, a single distinct byte included. */
  lemma CorrectedRoundTrip(content: seq<Byte>, freqTable: map<Byte, int>, tree: Node,
                           payload: seq<seq<Byte>>, header: seq<Byte>, rest: seq<Byte>,
                           chunks: seq<seq<Byte>>, table: map<seq<Byte>, Byte>)
    requires CountsOf(content, freqTable) && IsCodingTreeFor(tree, freqTable)
    requires |payload| == |content|
    requires forall i :: 0 <= i < |content| ==>
               var start := StartCode(Some(tree));
               Extends(payload[i], start) && LeafAt(Some(tree), payload[i][|start|..], content[i])
    requires header == EncodeTree(Some(tree)) + rest
    requires Flatten(chunks) == Flatten(payload)
    requires ReverseBelow(DecodeTree(header, 0).node, StartCode(DecodeTree(header, 0).node), map[], table)
    ensures Greedy(table, Flatten(chunks), []) == content
  {
    ReconstructFromHeader(tree, rest);
    var rebuilt := Some(Strip(tree));
    var start := StartCode(Some(tree));
    assert StartCode(rebuilt) == start;
    StartedReverseTable(rebuilt, start, table);
    forall i | 0 <= i < |payload|
      ensures payload[i] in table && payload[i] != [] && table[payload[i]] == content[i]
    {
      var path := payload[i][|start|..];
      StripKeepsLeaves(tree, path, content[i]);
      assert LeafPathBelow(rebuilt, start, payload[i]);
      assert LeafAt(rebuilt, path, table[payload[i]]);
      if start == [] {
        assert path == payload[i];
      }
    }
    GreedyDecodesCodes(table, payload);
  }
}
