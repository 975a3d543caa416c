/** Blank-line detection: `containsDoubleNewline` and `minPosInt` of event.go.
    A boundary is one of five literal byte patterns; the detector reports the earliest
    offset at which any of them starts, and the length of that pattern. */
module Boundary {
  import opened Bytes

  const CR: byte := 13
  const LF: byte := 10

  const CrCr: seq<byte> := [CR, CR]
  const LfLf: seq<byte> := [LF, LF]
  const CrLfLf: seq<byte> := [CR, LF, LF]
  const LfCrLf: seq<byte> := [LF, CR, LF]
  const CrLfCrLf: seq<byte> := [CR, LF, CR, LF]

  /** `d` is one of the five recognised double-newline patterns. */
  predicate IsDelimiter(d: seq<byte>) {
    d == CrCr || d == LfLf || d == CrLfLf || d == LfCrLf || d == CrLfCrLf
  }

  /** Some recognised pattern starts at offset `k` of `data`. */
  predicate BoundaryAt(data: seq<byte>, k: int) {
    OccursAt(data, CrCr, k) || OccursAt(data, LfLf, k) || OccursAt(data, CrLfLf, k) ||
    OccursAt(data, LfCrLf, k) || OccursAt(data, CrLfCrLf, k)
  }

  /** No recognised pattern occurs anywhere in `data`. */
  ghost predicate NoBoundary(data: seq<byte>) {
    forall k :: !BoundaryAt(data, k)
  }

  /** `p` is the smallest offset of `data` at which a pattern starts. */
  ghost predicate FirstBoundary(data: seq<byte>, p: int) {
    BoundaryAt(data, p) && forall k :: 0 <= k < p ==> !BoundaryAt(data, k)
  }

  /** `b` ends a line: a carriage return or a line feed. */
  predicate IsLineBreak(b: byte) {
    b == CR || b == LF
  }

  /** Every pattern starts with two line-break bytes. */
  lemma BoundaryStartsWithTwoLineBreaks(data: seq<byte>, k: int)
    requires BoundaryAt(data, k)
    ensures 0 <= k && k + 1 < |data| && IsLineBreak(data[k]) && IsLineBreak(data[k + 1])
  {
    var n := if OccursAt(data, CrCr, k) || OccursAt(data, LfLf, k) then 2
             else if OccursAt(data, CrLfCrLf, k) then 4 else 3;
    assert data[k..k + n][0] == data[k] && data[k..k + n][1] == data[k + 1];
  }

  /** No pattern starts where the next two bytes are not both line breaks. */
  lemma NoBoundaryWithoutTwoLineBreaks(data: seq<byte>, k: int)
    requires 0 <= k
    requires k + 1 >= |data| || !IsLineBreak(data[k]) || !IsLineBreak(data[k + 1])
    ensures !BoundaryAt(data, k)
  {
    if BoundaryAt(data, k) {
      BoundaryStartsWithTwoLineBreaks(data, k);
    }
  }

  /** minPosInt: the smaller of the non-negative arguments; negative only when both are
      (and then it is `b`). */
  function MinPos(a: int, b: int): (r: int)
    ensures r < 0 <==> a < 0 && b < 0
    ensures a < 0 && b < 0 ==> r == b
    ensures r >= 0 ==> (r == a || r == b) && (a >= 0 ==> r <= a) && (b >= 0 ==> r <= b)
  {
    if a < 0 then b
    else if b < 0 then a
    else if a > b then b
    else a
  }

  /** containsDoubleNewline: `(position, length)` of the earliest pattern in `data`.
      When there is none the position is -1, and the length is 4, because the -1 of the
      failed `\r\n\r\n` search equals the -1 minimum. */
  function ContainsDoubleNewline(data: seq<byte>): (r: (int, int))
    ensures r.0 < 0 <==> NoBoundary(data)
    ensures r.0 < 0 ==> r == (-1, 4)
    ensures r.0 >= 0 ==> FirstBoundary(data, r.0)
    ensures r.0 >= 0 ==> 2 <= r.1 && r.0 + r.1 <= |data| && IsDelimiter(data[r.0..r.0 + r.1])
  {
    var crcr := Index(data, CrCr);
    var lflf := Index(data, LfLf);
    var crlflf := Index(data, CrLfLf);
    var lfcrlf := Index(data, LfCrLf);
    var crlfcrlf := Index(data, CrLfCrLf);
    var minPos := MinPos(crcr, MinPos(lflf, MinPos(crlflf, MinPos(lfcrlf, crlfcrlf))));
    var nlen := if minPos == crlfcrlf then 4
                else if minPos == crlflf || minPos == lfcrlf then 3
                else 2;
    EarliestOfFive(data, crcr, lflf, crlflf, lfcrlf, crlfcrlf, minPos);
    (minPos, nlen)
  }

  /** The first occurrence of a pattern is no later than any occurrence of it. */
  lemma IndexIsFirst(data: seq<byte>, pat: seq<byte>, k: int)
    requires OccursAt(data, pat, k)
    ensures 0 <= Index(data, pat) <= k
  {
  }

  /** The minimum of the five first-occurrence offsets is the first boundary, and is
      negative exactly when there is no boundary at all. */
  lemma EarliestOfFive(data: seq<byte>, crcr: int, lflf: int, crlflf: int, lfcrlf: int, crlfcrlf: int, minPos: int)
    requires crcr == Index(data, CrCr) && lflf == Index(data, LfLf) && crlflf == Index(data, CrLfLf)
    requires lfcrlf == Index(data, LfCrLf) && crlfcrlf == Index(data, CrLfCrLf)
    requires minPos == MinPos(crcr, MinPos(lflf, MinPos(crlflf, MinPos(lfcrlf, crlfcrlf))))
    ensures minPos < 0 <==> NoBoundary(data)
    ensures minPos < 0 ==> minPos == -1
    ensures minPos >= 0 ==> FirstBoundary(data, minPos)
  {
    if minPos < 0 {
      forall k ensures !BoundaryAt(data, k) {
      }
    } else {
      assert BoundaryAt(data, minPos);
      forall k | 0 <= k < minPos ensures !BoundaryAt(data, k) {
        if OccursAt(data, CrCr, k) { IndexIsFirst(data, CrCr, k); }
        if OccursAt(data, LfLf, k) { IndexIsFirst(data, LfLf, k); }
        if OccursAt(data, CrLfLf, k) { IndexIsFirst(data, CrLfLf, k); }
        if OccursAt(data, LfCrLf, k) { IndexIsFirst(data, LfCrLf, k); }
        if OccursAt(data, CrLfCrLf, k) { IndexIsFirst(data, CrLfCrLf, k); }
      }
      assert !NoBoundary(data);
    }
  }

  /** No pattern is a proper prefix of another: the two-byte patterns repeat one byte
      while the longer ones start with two different bytes, and the three-byte patterns
      end in `\n` where `\r\n\r\n` has `\r`. */
  lemma DelimitersPrefixFree(d: seq<byte>, e: seq<byte>)
    requires IsDelimiter(d) && IsDelimiter(e) && |d| < |e|
    ensures d != e[..|d|]
  {
    if |d| == 2 {
      assert d[0] == d[1] && e[..2][0] != e[..2][1];
    } else {
      assert d[2] == LF && e[..3][2] == CR;
    }
  }

  /** At any offset at most one pattern starts, so the length reported for a position
      is determined by the data. */
  lemma OnePatternPerOffset(data: seq<byte>, k: int, n: int, m: int)
    requires 0 <= k && 0 <= n <= m && k + m <= |data|
    requires IsDelimiter(data[k..k + n]) && IsDelimiter(data[k..k + m])
    ensures n == m
  {
    if n < m {
      var d, e := data[k..k + n], data[k..k + m];
      forall i | 0 <= i < n ensures d[i] == e[..n][i] {
        assert d[i] == data[k + i];
      }
      assert d == e[..n];
      DelimitersPrefixFree(d, e);
    }
  }

  /** A pattern found in `a` is still found in `a + b`. */
  lemma BoundaryInExtension(a: seq<byte>, b: seq<byte>, k: int)
    requires BoundaryAt(a, k)
    ensures BoundaryAt(a + b, k)
  {
    if OccursAt(a, CrCr, k) { OccursInExtension(a, b, CrCr, k); }
    if OccursAt(a, LfLf, k) { OccursInExtension(a, b, LfLf, k); }
    if OccursAt(a, CrLfLf, k) { OccursInExtension(a, b, CrLfLf, k); }
    if OccursAt(a, LfCrLf, k) { OccursInExtension(a, b, LfCrLf, k); }
    if OccursAt(a, CrLfCrLf, k) { OccursInExtension(a, b, CrLfCrLf, k); }
  }

  /** Only `\r\n\r\n` is long enough to start before a complete pattern at `p` and
      reach past the end of `a`; it cannot, because it would put `\n\r` at `p`, and
      the two-byte patterns repeat one byte. */
  lemma LongPatternCannotStraddle(a: seq<byte>, b: seq<byte>, p: int, k: int)
    requires BoundaryAt(a, p) && 0 <= k < p && |a| < k + 4
    ensures !OccursAt(a + b, CrLfCrLf, k)
  {
    var c := a + b;
    assert k == p - 1 && |a| == p + 2;
    assert a[p..p + 2] == CrCr || a[p..p + 2] == LfLf;
    assert a[p..p + 2][0] == a[p..p + 2][1];
    assert c[k + 1] == c[k + 2];
    if k + 4 <= |c| {
      assert c[k..k + 4][1] == c[k..k + 4][2];
    }
  }

  /** Appending bytes after the first pattern of `a`, at `p`, creates no pattern that
      starts before `p`. */
  lemma NoEarlierBoundaryInExtension(a: seq<byte>, b: seq<byte>, p: int, k: int)
    requires FirstBoundary(a, p) && 0 <= k < p
    ensures !BoundaryAt(a + b, k)
  {
    var c := a + b;
    assert p + 2 <= |a|;
    assert !BoundaryAt(a, k);
    if |a| < k + 4 { LongPatternCannotStraddle(a, b, p, k); }
    if OccursAt(c, CrCr, k) { OccursInPrefix(a, b, CrCr, k); }
    if OccursAt(c, LfLf, k) { OccursInPrefix(a, b, LfLf, k); }
    if OccursAt(c, CrLfLf, k) { OccursInPrefix(a, b, CrLfLf, k); }
    if OccursAt(c, LfCrLf, k) { OccursInPrefix(a, b, LfCrLf, k); }
    if OccursAt(c, CrLfCrLf, k) { OccursInPrefix(a, b, CrLfCrLf, k); }
  }

  /** There is only one first boundary, and one pattern starts there. */
  lemma FirstBoundaryUnique(data: seq<byte>, p: int, n: int, q: int, m: int)
    requires FirstBoundary(data, p) && 0 <= n && p + n <= |data| && IsDelimiter(data[p..p + n])
    requires FirstBoundary(data, q) && 0 <= m && q + m <= |data| && IsDelimiter(data[q..q + m])
    ensures p == q && n == m
  {
    assert p == q;
    if n <= m { OnePatternPerOffset(data, p, n, m); } else { OnePatternPerOffset(data, p, m, n); }
  }

  /** The detector's answer is determined by the first boundary: a first boundary at
      `p` whose pattern has length `n` is exactly what the detector reports. */
  lemma DetectionDetermined(data: seq<byte>, p: int, n: int)
    requires FirstBoundary(data, p) && 0 <= n && p + n <= |data| && IsDelimiter(data[p..p + n])
    ensures ContainsDoubleNewline(data) == (p, n)
  {
    var r := ContainsDoubleNewline(data);
    assert !NoBoundary(data);
    FirstBoundaryUnique(data, p, n, r.0, r.1);
  }

  /** The first boundary of `a`, with its pattern, is the first boundary of `a + b`. */
  lemma FirstBoundaryInExtension(a: seq<byte>, b: seq<byte>, p: int, n: int)
    requires FirstBoundary(a, p) && 0 <= n && p + n <= |a| && IsDelimiter(a[p..p + n])
    ensures FirstBoundary(a + b, p) && IsDelimiter((a + b)[p..p + n])
  {
    BoundaryInExtension(a, b, p);
    forall k | 0 <= k < p ensures !BoundaryAt(a + b, k) {
      NoEarlierBoundaryInExtension(a, b, p, k);
    }
    assert (a + b)[p..p + n] == a[p..p + n];
  }

  /** The detector's answer on `a` does not change when more bytes arrive once `a`
      already holds a boundary: the frame boundary does not depend on how the stream
      was cut into reads. */
  lemma {:induction false} DetectionStableUnderExtension(a: seq<byte>, b: seq<byte>)
    requires ContainsDoubleNewline(a).0 >= 0
    ensures ContainsDoubleNewline(a + b) == ContainsDoubleNewline(a)
  {
    var r := ContainsDoubleNewline(a);
    FirstBoundaryInExtension(a, b, r.0, r.1);
    DetectionDetermined(a + b, r.0, r.1);
  }

  /** A position reported by the detector is the first boundary, so all frames cut
      at it are free of patterns. */
  lemma {:induction false} NoBoundaryBeforeFirst(data: seq<byte>, p: int)
    requires FirstBoundary(data, p)
    ensures NoBoundary(data[..p])
  {
    forall k ensures !BoundaryAt(data[..p], k) {
      var a, b := data[..p], data[p..];
      assert a + b == data;
      if BoundaryAt(a, k) {
        BoundaryInExtension(a, b, k);
      }
    }
  }
}
