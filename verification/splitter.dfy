/** The split function that `NewEventStreamReaderWithBufferSize` installs in its scanner,
    and the frames it cuts a complete stream into. */
module Splitter {
  import opened Wrappers
  import opened Bytes
  import opened Boundary

  /** What a split function returns: how many bytes to consume, and the frame, if any.
      The error result of the Go closure is always nil and is not modelled. */
  datatype SplitResult = SplitResult(advance: nat, token: Option<seq<byte>>)

  /** The split closure. The token is the data before the first boundary, the boundary
      bytes are consumed with it and dropped; without a boundary the whole data is the
      final token at end of input, and otherwise nothing is consumed so that the
      scanner reads more. */
  function Split(data: seq<byte>, atEOF: bool): (r: SplitResult)
    ensures r.advance <= |data|
    ensures r.token.None? <==> (atEOF && data == []) || (!atEOF && NoBoundary(data))
    ensures r.token.None? ==> r.advance == 0
    ensures r.token.Some? ==> 0 < r.advance && |r.token.value| <= r.advance
    ensures r.token.Some? ==> r.token.value == data[..|r.token.value|] && NoBoundary(r.token.value)
    ensures r.token.Some? && NoBoundary(data) ==> atEOF && r.token.value == data && r.advance == |data|
    ensures r.token.Some? && !NoBoundary(data) ==>
              FirstBoundary(data, |r.token.value|) && IsDelimiter(data[|r.token.value|..r.advance])
  {
    if atEOF && |data| == 0 then
      SplitResult(0, None)
    else
      var (i, nlen) := ContainsDoubleNewline(data);
      if i >= 0 then
        assert !NoBoundary(data) && FirstBoundary(data, i);
        NoBoundaryBeforeFirst(data, i);
        SplitResult(i + nlen, Some(data[0..i]))
      else if atEOF then
        assert NoBoundary(data) && data[..|data|] == data;
        SplitResult(|data|, Some(data))
      else
        SplitResult(0, None)
  }

  /** A token split finds before the end of input is the token it finds at the end of
      any longer input: more data never moves a boundary already seen. */
  lemma SplitStableUnderExtension(data: seq<byte>, more: seq<byte>)
    requires Split(data, false).token.Some?
    ensures Split(data + more, true) == Split(data, false)
  {
    DetectionStableUnderExtension(data, more);
    var i := ContainsDoubleNewline(data).0;
    assert (data + more)[0..i] == data[0..i];
  }

  /** One frame of a stream: its body, and the delimiter that ended it (empty for a
      final frame flushed at end of input). */
  datatype Frame = Frame(body: seq<byte>, delimiter: seq<byte>)

  /** The bytes the frames were cut from, delimiters included. */
  function Concat(fs: seq<Frame>): seq<byte> {
    if fs == [] then [] else fs[0].body + fs[0].delimiter + Concat(fs[1..])
  }

  /** The bodies of the frames, in order. */
  function Bodies(fs: seq<Frame>): (r: seq<seq<byte>>)
    ensures |r| == |fs| && forall i :: 0 <= i < |fs| ==> r[i] == fs[i].body
  {
    if fs == [] then [] else [fs[0].body] + Bodies(fs[1..])
  }

  /** The frames of a complete stream: split applied at end of input until it yields no
      token. Concatenating the frames with their delimiters gives back the stream, byte
      for byte. */
  function Pieces(stream: seq<byte>): (r: seq<Frame>)
    decreases |stream|
    ensures Concat(r) == stream
  {
    var sp := Split(stream, true);
    if sp.token.None? then []
    else
      var t := sp.token.value;
      var rest := Pieces(stream[sp.advance..]);
      assert ([Frame(t, stream[|t|..sp.advance])] + rest)[1..] == rest;
      ThreeParts(stream, |t|, sp.advance);
      [Frame(t, stream[|t|..sp.advance])] + rest
  }

  /** No frame body holds a boundary. */
  ghost predicate CleanBodies(fs: seq<Frame>) {
    forall i :: 0 <= i < |fs| ==> NoBoundary(fs[i].body)
  }

  /** Every frame but the last ends with a delimiter, and the last ends with one or is
      the unterminated remainder flushed at end of input. */
  ghost predicate Delimited(fs: seq<Frame>) {
    (forall i :: 0 <= i < |fs| - 1 ==> IsDelimiter(fs[i].delimiter)) &&
    (|fs| > 0 ==> IsDelimiter(fs[|fs| - 1].delimiter) || fs[|fs| - 1].delimiter == [])
  }

  lemma CleanBodiesCons(f: Frame, rest: seq<Frame>)
    requires NoBoundary(f.body) && CleanBodies(rest)
    ensures CleanBodies([f] + rest)
  {
    var r := [f] + rest;
    forall i | 0 <= i < |r| ensures NoBoundary(r[i].body) {
      if i > 0 { assert r[i] == rest[i - 1]; }
    }
  }

  lemma DelimitedCons(f: Frame, rest: seq<Frame>)
    requires Delimited(rest)
    requires rest == [] ==> IsDelimiter(f.delimiter) || f.delimiter == []
    requires rest != [] ==> IsDelimiter(f.delimiter)
    ensures Delimited([f] + rest)
  {
    var r := [f] + rest;
    forall i | 0 <= i < |r| - 1 ensures IsDelimiter(r[i].delimiter) {
      if i > 0 { assert r[i] == rest[i - 1]; }
    }
    if rest != [] { assert r[|r| - 1] == rest[|rest| - 1]; }
  }

  /** The frames of a stream have clean bodies and end with delimiters. */
  lemma {:induction false} PiecesAreDelimited(stream: seq<byte>)
    decreases |stream|
    ensures CleanBodies(Pieces(stream)) && Delimited(Pieces(stream))
  {
    var sp := Split(stream, true);
    if sp.token.Some? {
      var t := sp.token.value;
      var f := Frame(t, stream[|t|..sp.advance]);
      var rest := Pieces(stream[sp.advance..]);
      PiecesAreDelimited(stream[sp.advance..]);
      assert Pieces(stream) == [f] + rest;
      if NoBoundary(stream) {
        assert f.delimiter == [] && stream[sp.advance..] == [];
        assert rest == [];
      } else {
        assert IsDelimiter(f.delimiter);
      }
      CleanBodiesCons(f, rest);
      DelimitedCons(f, rest);
    }
  }

  /** The frame bodies a reader yields for a complete stream. */
  function Frames(stream: seq<byte>): seq<seq<byte>> {
    Bodies(Pieces(stream))
  }

  /** Frames unfolds as one split at end of input followed by the frames of the rest. */
  lemma {:induction false} FramesStep(stream: seq<byte>)
    ensures var sp := Split(stream, true);
            Frames(stream) == if sp.token.None? then [] else [sp.token.value] + Frames(stream[sp.advance..])
  {
    var sp := Split(stream, true);
    if sp.token.Some? {
      var t := sp.token.value;
      var f := Frame(t, stream[|t|..sp.advance]);
      var rest := Pieces(stream[sp.advance..]);
      assert Pieces(stream) == [f] + rest;
      assert ([f] + rest)[1..] == rest;
    }
  }

  /** A first boundary at `p` of length `n` ends the first frame, `stream[..p]`; the
      remaining frames are those of what follows the delimiter. */
  lemma FrameAt(stream: seq<byte>, p: int, n: int)
    requires FirstBoundary(stream, p) && 0 <= n && p + n <= |stream| && IsDelimiter(stream[p..p + n])
    ensures Frames(stream) == [stream[..p]] + Frames(stream[p + n..])
  {
    DetectionDetermined(stream, p, n);
    FramesStep(stream);
  }

  /** A stream without a blank line is one frame, the whole stream. */
  lemma StreamWithoutBlankLine(stream: seq<byte>)
    requires stream != [] && NoBoundary(stream)
    ensures Frames(stream) == [stream]
  {
    FramesStep(stream);
    assert stream[|stream|..] == [];
    FramesStep([]);
  }

  /** A delimiter followed by another one gives a zero-length frame, not an error. */
  lemma AdjacentDelimitersGiveEmptyFrame(d: seq<byte>, rest: seq<byte>)
    requires IsDelimiter(d)
    ensures Frames(d + rest) == [[]] + Frames(rest)
  {
    var s := d + rest;
    assert OccursAt(s, d, 0) by { assert s[0..|d|] == d; }
    assert BoundaryAt(s, 0);
    assert FirstBoundary(s, 0);
    assert s[0..|d|] == d;
    DetectionDetermined(s, 0, |d|);
    FramesStep(s);
    assert s[|d|..] == rest;
  }
}
