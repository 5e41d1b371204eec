/** The bit-matching loop of `decompress` in backend/Huffman.cpp: bits are appended to an
    accumulator; whenever the accumulator is a key of the reverse table, that key's byte is
    written out and the accumulator is cleared. */
module Decoder {
  import opened Common

  /** The chunks handed out by the storage layer, run together. */
  function Flatten(chunks: seq<seq<Byte>>): (r: seq<Byte>)
  {
    if chunks == [] then [] else chunks[0] + Flatten(chunks[1..])
  }

  /** Running chunks together distributes over splitting the list of chunks. */
  lemma {:induction false} FlattenConcat(a: seq<seq<Byte>>, b: seq<seq<Byte>>)
    ensures Flatten(a + b) == Flatten(a) + Flatten(b)
  {
    if a == [] {
      assert a + b == b;
    } else {
      assert (a + b)[1..] == a[1..] + b;
      FlattenConcat(a[1..], b);
    }
  }

  /** Chunks that are all empty run together to nothing. */
  lemma {:induction false} FlattenEmpty(chunks: seq<seq<Byte>>)
    requires forall i :: 0 <= i < |chunks| ==> chunks[i] == []
    ensures Flatten(chunks) == []
  {
    if chunks != [] {
      FlattenEmpty(chunks[1..]);
    }
  }

  /** What the loop writes for `bits`, when `pending` is already in the accumulator. Bits left
      in the accumulator when the input ends are dropped. */
  function Greedy(table: map<seq<Byte>, Byte>, bits: seq<Byte>, pending: seq<Byte>): seq<Byte>
    decreases |bits|
  {
    if bits == [] then []
    else
      var current := pending + [bits[0]];
      if current in table then [table[current]] + Greedy(table, bits[1..], [])
      else Greedy(table, bits[1..], current)
  }

  /** The loop over the chunks and the bits of each chunk. */
  method DecodeBits(table: map<seq<Byte>, Byte>, chunks: seq<seq<Byte>>) returns (out: seq<Byte>)
    ensures out == Greedy(table, Flatten(chunks), [])
  {
    out := [];
    var currentCode: seq<Byte> := [];
    var ci := 0;
    while ci < |chunks|
      invariant 0 <= ci <= |chunks|
      invariant out + Greedy(table, Flatten(chunks[ci..]), currentCode) == Greedy(table, Flatten(chunks), [])
    {
      var binaryData := chunks[ci];
      assert chunks[ci..] == [binaryData] + chunks[ci + 1..];
      FlattenConcat([binaryData], chunks[ci + 1..]);
      assert Flatten([binaryData]) == binaryData;
      var rest := Flatten(chunks[ci + 1..]);
      for j := 0 to |binaryData|
        invariant out + Greedy(table, binaryData[j..] + rest, currentCode) == Greedy(table, Flatten(chunks), [])
      {
        var bit := binaryData[j];
        assert (binaryData[j..] + rest)[1..] == binaryData[j + 1..] + rest;
        currentCode := currentCode + [bit];
        if currentCode in table {
          out := out + [table[currentCode]];
          currentCode := [];
        }
      }
      assert binaryData[|binaryData|..] + rest == rest;
      ci := ci + 1;
    }
  }

  /** Reading one whole code: when no shorter non-empty prefix of `w` is a key, the loop,
      having accumulated the first `k` bits of `w`, reads the remaining bits, writes `w`'s byte
      and starts `rest` with an empty accumulator. */
  lemma {:induction false} GreedyReadsCode(table: map<seq<Byte>, Byte>, w: seq<Byte>, k: nat, rest: seq<Byte>)
    requires w in table && k < |w|
    requires forall j :: 0 < j < |w| ==> w[..j] !in table
    ensures Greedy(table, w[k..] + rest, w[..k]) == [table[w]] + Greedy(table, rest, [])
    decreases |w| - k
  {
    var bits := w[k..] + rest;
    assert bits[0] == w[k];
    assert w[..k] + [w[k]] == w[..k + 1];
    assert bits[1..] == w[k + 1..] + rest;
    if k + 1 == |w| {
      assert w[..k + 1] == w;
      assert w[k + 1..] + rest == rest;
    } else {
      GreedyReadsCode(table, w, k + 1, rest);
    }
  }

  /** Greedy decoding of codes run together: when the table is prefix-free, every code is a
      non-empty key, the loop writes exactly the byte of each code, in order. */
  lemma {:induction false} GreedyDecodesCodes(table: map<seq<Byte>, Byte>, codes: seq<seq<Byte>>)
    requires PrefixFree(table)
    requires forall i :: 0 <= i < |codes| ==> codes[i] in table && codes[i] != []
    ensures var out := Greedy(table, Flatten(codes), []);
            |out| == |codes| && forall i :: 0 <= i < |codes| ==> out[i] == table[codes[i]]
  {
    if codes != [] {
      var w := codes[0];
      forall j | 0 < j < |w|
        ensures w[..j] !in table
      {
        if w[..j] in table {
          assert Extends(w, w[..j]);
        }
      }
      GreedyReadsCode(table, w, 0, Flatten(codes[1..]));
      assert w[0..] == w && w[..0] == [];
      GreedyDecodesCodes(table, codes[1..]);
    }
  }
  /** Trailing bits that never complete a key are dropped: when no prefix of `tail`, after
      what is already accumulated, is a key, the loop writes nothing more. */
  lemma {:induction false} GreedyDropsTail(table: map<seq<Byte>, Byte>, tail: seq<Byte>, pending: seq<Byte>)
    requires forall j :: 0 < j <= |tail| ==> pending + tail[..j] !in table
    ensures Greedy(table, tail, pending) == []
    decreases |tail|
  {
    if tail != [] {
      var current := pending + [tail[0]];
      assert tail[..1] == [tail[0]];
      forall j | 0 < j <= |tail[1..]|
        ensures current + tail[1..][..j] !in table
      {
        assert current + tail[1..][..j] == pending + tail[..j + 1];
      }
      GreedyDropsTail(table, tail[1..], current);
    }
  }

  /** Codes run together and followed by bits that never complete a key (the padding of the
      last byte, say) decode to exactly the codes' bytes, in order; the tail is dropped. */
  lemma {:induction false} GreedyDecodesCodesThenTail(table: map<seq<Byte>, Byte>, codes: seq<seq<Byte>>,
                                                      tail: seq<Byte>)
    requires PrefixFree(table)
    requires forall i :: 0 <= i < |codes| ==> codes[i] in table && codes[i] != []
    requires forall j :: 0 < j <= |tail| ==> tail[..j] !in table
    ensures var out := Greedy(table, Flatten(codes) + tail, []);
            |out| == |codes| && forall i :: 0 <= i < |codes| ==> out[i] == table[codes[i]]
  {
    if codes == [] {
      assert Flatten(codes) + tail == tail;
      forall j | 0 < j <= |tail|
        ensures [] + tail[..j] !in table
      {
        assert [] + tail[..j] == tail[..j];
      }
      GreedyDropsTail(table, tail, []);
    } else {
      var w := codes[0];
      forall j | 0 < j < |w|
        ensures w[..j] !in table
      {
        if w[..j] in table {
          assert Extends(w, w[..j]);
        }
      }
      var rest := Flatten(codes[1..]) + tail;
      assert Flatten(codes) + tail == w[0..] + rest;
      GreedyReadsCode(table, w, 0, rest);
      assert w[..0] == [];
      GreedyDecodesCodesThenTail(table, codes[1..], tail);
    }
  }
}
