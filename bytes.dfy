/** The two operations of Go's `bytes` package that the detector relies on,
    stated by their documented meaning (not by how the library computes them). */
module Bytes {

  /** Go's `byte`: an unsigned 8-bit integer. */
  type Byte = b: int | 0 <= b < 256

  /** `bytes.HasPrefix(s, prefix)`: the leading bytes of `s` are exactly `prefix`. */
  predicate HasPrefix(s: seq<Byte>, prefix: seq<Byte>)
    ensures HasPrefix(s, prefix) <==> |prefix| <= |s| && forall i | 0 <= i < |prefix| :: s[i] == prefix[i]
  {
    |prefix| <= |s| && s[..|prefix|] == prefix
  }

  /** `sub` occurs in `s` starting at offset `i`. */
  predicate OccursAt(s: seq<Byte>, sub: seq<Byte>, i: int) {
    0 <= i && i + |sub| <= |s| && s[i..i + |sub|] == sub
  }

  /** `bytes.Contains(s, sub)`: there is an offset of `s` where `sub` starts. */
  predicate Contains(s: seq<Byte>, sub: seq<Byte>)
    ensures sub == [] ==> Contains(s, sub)
    ensures Contains(s, sub) ==> |sub| <= |s|
    ensures HasPrefix(s, sub) ==> Contains(s, sub)
  {
    assert HasPrefix(s, sub) ==> OccursAt(s, sub, 0);
    exists i | 0 <= i <= |s| - |sub| :: OccursAt(s, sub, i)
  }

  /** Two prefixes of one buffer are nested: the shorter is a prefix of the longer. */
  lemma PrefixesNest(s: seq<Byte>, p: seq<Byte>, q: seq<Byte>)
    requires HasPrefix(s, p) && HasPrefix(s, q) && |p| <= |q|
    ensures HasPrefix(q, p)
  {
  }
}
