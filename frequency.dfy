/** Frequency analysis: `frequencyTable` in backend/Huffman.cpp. */
module Frequency {
  import opened Common

  /** The sum of `m[b]` over the bytes `b < n` that are both in `keys` and in `m`. The byte
      alphabet is finite, so a table's total is a sum over byte values in order. */
  ghost function SumBelow(m: map<Byte, int>, keys: set<Byte>, n: nat): int
    requires n <= 256
  {
    if n == 0 then 0
    else
      var b := (n - 1) as char;
      SumBelow(m, keys, n - 1) + (if b in keys && b in m then m[b] else 0)
  }

  /** The sum of all counts in a table. */
  ghost function Total(m: map<Byte, int>): int
  {
    SumBelow(m, m.Keys, 256)
  }

  /** Dropping one key from the summed set takes away exactly its count. */
  lemma {:induction false} SumBelowRemove(m: map<Byte, int>, keys: set<Byte>, c: Byte, n: nat)
    requires n <= 256
    ensures SumBelow(m, keys, n) ==
            SumBelow(m, keys - {c}, n) + (if c as int < n && c in keys && c in m then m[c] else 0)
  {
    if n > 0 {
      SumBelowRemove(m, keys, c, n - 1);
    }
  }

  /** Changing one entry of the table only changes the sum by that entry. */
  lemma {:induction false} SumBelowUpdate(m: map<Byte, int>, keys: set<Byte>, c: Byte, v: int, n: nat)
    requires n <= 256
    ensures SumBelow(m[c := v], keys + {c}, n) == SumBelow(m, keys - {c}, n) + (if c as int < n then v else 0)
  {
    if n > 0 {
      SumBelowUpdate(m, keys, c, v, n - 1);
    }
  }

  /** Summing over no keys gives zero. */
  lemma {:induction false} SumBelowEmpty(m: map<Byte, int>, n: nat)
    requires n <= 256
    ensures SumBelow(m, {}, n) == 0
  {
    if n > 0 {
      SumBelowEmpty(m, n - 1);
    }
  }

  /** The empty table has total zero. */
  lemma TotalEmpty()
    ensures Total(map[]) == 0
  {
    var empty: map<Byte, int> := map[];
    SumBelowEmpty(empty, 256);
    assert empty.Keys == {};
  }

  /** Adding one to the entry of `c` (creating it at zero first, as `operator[]` does) adds one
      to the table's total. */
  lemma TotalIncrement(m: map<Byte, int>, c: Byte)
    ensures Total(m[c := (if c in m then m[c] else 0) + 1]) == Total(m) + 1
  {
    var v := (if c in m then m[c] else 0) + 1;
    assert m[c := v].Keys == m.Keys + {c};
    SumBelowUpdate(m, m.Keys, c, v, 256);
    SumBelowRemove(m, m.Keys, c, 256);
  }

  /** `text`'s counts are exactly `table`: the bytes that occur are the keys, each mapped to
      its number of occurrences. */
  ghost predicate CountsOf(text: seq<Byte>, table: map<Byte, int>)
  {
    (forall c :: c in table <==> c in text) &&
    (forall c :: c in table ==> table[c] == multiset(text)[c])
  }

  /** Adds one to the entry of each byte of `text`, in order, starting from `freqTable`. */
  method FrequencyTable(text: seq<Byte>, freqTable: map<Byte, int>) returns (table: map<Byte, int>)
    ensures forall c :: c in table <==> c in freqTable || c in text
    ensures forall c :: c in table ==>
              table[c] == (if c in freqTable then freqTable[c] else 0) + multiset(text)[c]
    ensures Total(table) == Total(freqTable) + |text|
  {
    table := freqTable;
    for i := 0 to |text|
      invariant forall c :: c in table <==> c in freqTable || c in text[..i]
      invariant forall c :: c in table ==>
                  table[c] == (if c in freqTable then freqTable[c] else 0) + multiset(text[..i])[c]
      invariant Total(table) == Total(freqTable) + i
    {
      var c := text[i];
      assert text[..i + 1] == text[..i] + [c];
      TotalIncrement(table, c);
      table := table[c := (if c in table then table[c] else 0) + 1];
    }
    assert text[..|text|] == text;
  }
}
