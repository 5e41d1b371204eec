/** Shared vocabulary: the byte alphabet, the nullable wrapper and the two marker characters. */
module Common {

  /** One byte of input. The engine keeps bytes in `char`-typed strings, so a byte is a
      character whose code is below 256. */
  type Byte = c: char | c as int < 256

  /** Stands in for a pointer that may be null. */
  datatype Option<T> = None | Some(value: T)

  /** The character appended for a step to the zero child, and the preorder marker of an
      internal node. */
  const ZeroBit: Byte := '0'

  /** The character appended for a step to the one child, and the preorder marker of a leaf. */
  const OneBit: Byte := '1'

  /** `prefix` is an initial segment of `s`. */
  predicate Extends(s: seq<Byte>, prefix: seq<Byte>)
  {
    |prefix| <= |s| && s[..|prefix|] == prefix
  }

  /** No key of `table` is a proper prefix of another key: the condition under which greedy
      matching of accumulated bits is unambiguous. */
  predicate PrefixFree<V>(table: map<seq<Byte>, V>)
  {
    forall p, q :: p in table && q in table && Extends(q, p) ==> p == q
  }
}
