/** Byte sequences, and the single search primitive of Go's `bytes` package that the
    splitter relies on (`bytes.Index`). */
module Bytes {
  newtype byte = b: int | 0 <= b < 256

  /** `pat` occurs in `data` at offset `k`. */
  predicate OccursAt(data: seq<byte>, pat: seq<byte>, k: int) {
    0 <= k && k + |pat| <= |data| && data[k..k + |pat|] == pat
  }

  /** `bytes.Index(data, pat)`: the offset of the first occurrence of `pat` in `data`,
      or -1 when there is none. */
  function Index(data: seq<byte>, pat: seq<byte>): (r: int)
    ensures -1 <= r
    ensures r < 0 <==> forall k :: !OccursAt(data, pat, k)
    ensures r >= 0 ==> OccursAt(data, pat, r) && forall k :: 0 <= k < r ==> !OccursAt(data, pat, k)
  {
    IndexFrom(data, pat, 0)
  }

  /** The first occurrence of `pat` in `data` at an offset no smaller than `from`, or -1. */
  function IndexFrom(data: seq<byte>, pat: seq<byte>, from: nat): (r: int)
    decreases |data| - from
    ensures -1 <= r
    ensures r < 0 ==> forall k :: from <= k ==> !OccursAt(data, pat, k)
    ensures r >= 0 ==> from <= r && OccursAt(data, pat, r)
    ensures r >= 0 ==> forall k :: from <= k < r ==> !OccursAt(data, pat, k)
  {
    if from + |pat| > |data| then -1
    else if data[from..from + |pat|] == pat then from
    else IndexFrom(data, pat, from + 1)
  }

  /** Cutting a sequence at two offsets and gluing the parts back gives the sequence. */
  lemma ThreeParts(s: seq<byte>, i: nat, j: nat)
    requires i <= j <= |s|
    ensures s == s[..i] + s[i..j] + s[j..]
  {
  }

  /** Dropping a prefix of `a` commutes with appending `b`. */
  lemma DropThenAppend(a: seq<byte>, b: seq<byte>, k: nat)
    requires k <= |a|
    ensures (a + b)[k..] == a[k..] + b
  {
  }

  /** An occurrence in a prefix of `data` is an occurrence in `data`. */
  lemma OccursInExtension(a: seq<byte>, b: seq<byte>, pat: seq<byte>, k: int)
    requires OccursAt(a, pat, k)
    ensures OccursAt(a + b, pat, k)
  {
    assert (a + b)[k..k + |pat|] == a[k..k + |pat|];
  }

  /** An occurrence that ends inside `a` is an occurrence in `a`. */
  lemma OccursInPrefix(a: seq<byte>, b: seq<byte>, pat: seq<byte>, k: int)
    requires OccursAt(a + b, pat, k) && k + |pat| <= |a|
    ensures OccursAt(a, pat, k)
  {
    assert (a + b)[k..k + |pat|] == a[k..k + |pat|];
  }
}
