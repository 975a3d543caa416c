/** Concrete streams and the frames they are cut into. */
module Scenarios {
  import opened Bytes
  import opened Boundary
  import opened Splitter

  const A: byte := 97
  const B: byte := 98

  /** `a\r\rb`: the `\r\r` after `a` is a boundary, so the frames are `a` and, flushed
      at end of input, `b`. */
  lemma CrCrSplitsTwoFrames()
    ensures Frames([A, CR, CR, B]) == [[A], [B]]
  {
    var s: seq<byte> := [A, CR, CR, B];
    assert s[1..3] == CrCr;
    assert OccursAt(s, CrCr, 1);
    NoBoundaryWithoutTwoLineBreaks(s, 0);
    FrameAt(s, 1, 2);
    assert s[..1] == [A] && s[3..] == [B];
    forall k ensures !BoundaryAt([B], k) {
      if k >= 0 { NoBoundaryWithoutTwoLineBreaks([B], k); }
    }
    StreamWithoutBlankLine([B]);
  }

  /** `\n\n\n\n`: two zero-length frames, and no error. */
  lemma OnlyDelimitersGiveEmptyFrames()
    ensures Frames(LfLf + LfLf) == [[], []]
  {
    AdjacentDelimitersGiveEmptyFrame(LfLf, LfLf);
    assert LfLf == LfLf + [];
    AdjacentDelimitersGiveEmptyFrame(LfLf, []);
    FramesStep([]);
  }
}
