/** `EventStreamReader` and the scanner it pulls frames from. The scanner keeps an
    accumulation buffer and a sticky read error; each request applies the split
    function to the buffered bytes and reads more from the source only when split asks
    for more. The source is the sequence of results its Read calls will return. */
module StreamReader {
  import opened Wrappers
  import opened Bytes
  import opened Boundary
  import opened Splitter

  /** Errors a byte source can return: `io.EOF`, `context.Canceled`, or any other
      failure. */
  datatype Error = EOF | Canceled | Failed(reason: string)

  /** The result of one Read call: the bytes delivered and the error returned with
      them. */
  datatype Chunk = Chunk(bytes: seq<byte>, err: Option<Error>)

  /** Scanner state: unconsumed buffered bytes, the sticky read error, and the Read
      results still to come. */
  datatype ScanState = ScanState(buf: seq<byte>, err: Option<Error>, source: seq<Chunk>)

  /** The bytes the source delivers, up to and including the first read that reports an
      error; nothing after that read is ever requested. */
  function Delivered(chunks: seq<Chunk>): seq<byte> {
    if chunks == [] then []
    else chunks[0].bytes + (if chunks[0].err.Some? then [] else Delivered(chunks[1..]))
  }

  /** The error that ends the source: the first error a read reports, or `io.EOF` once
      the reads run out. */
  function EndOf(chunks: seq<Chunk>): Error {
    if chunks == [] then EOF
    else if chunks[0].err.Some? then chunks[0].err.value
    else EndOf(chunks[1..])
  }

  /** All bytes the scanner will still split: the buffer, then whatever the source has
      yet to deliver. */
  function Pending(s: ScanState): seq<byte> {
    if s.err.Some? then s.buf else s.buf + Delivered(s.source)
  }

  /** The error the scanner will end with. */
  function Terminal(s: ScanState): Error {
    if s.err.Some? then s.err.value else EndOf(s.source)
  }

  /** One Read call: its bytes are appended to the buffer and its error becomes the
      sticky error; a source with no reads left reports `io.EOF`. No byte is lost or
      invented, and the end of the stream does not change. */
  function Fill(s: ScanState): (r: ScanState)
    requires s.err.None?
    ensures Pending(r) == Pending(s) && Terminal(r) == Terminal(s)
    ensures |r.source| < |s.source| || (s.source == [] && r.source == [] && r.err.Some?)
  {
    if s.source == [] then
      assert s.buf + [] == s.buf;
      ScanState(s.buf, Some(EOF), [])
    else
      var c := s.source[0];
      assert s.buf + (c.bytes + Delivered(s.source[1..])) == s.buf + c.bytes + Delivered(s.source[1..]);
      assert s.buf + (c.bytes + []) == s.buf + c.bytes;
      ScanState(s.buf + c.bytes, c.err, s.source[1..])
  }

  /** `Scanner.Scan`: split the buffered bytes (at end of input once a read error is
      recorded); return the token split yields, read more when it yields none, and
      stop with an empty buffer when it yields none after the error. A scan only ever
      uses up reads, and one that yields nothing ends with a read error recorded. */
  function ScanFrom(s: ScanState): (r: (ScanState, Option<seq<byte>>))
    decreases |s.source|, if s.err.None? then 1 else 0
    ensures |r.0.source| <= |s.source|
    ensures s.err.Some? ==> r.0.err == s.err
    ensures r.1.None? ==> r.0.buf == [] && r.0.err.Some?
  {
    if |s.buf| > 0 || s.err.Some? then
      var sp := Split(s.buf, s.err.Some?);
      if sp.token.Some? then (s.(buf := s.buf[sp.advance..]), sp.token)
      else if s.err.Some? then (s.(buf := []), None)
      else ScanFrom(Fill(s))
    else
      ScanFrom(Fill(s))
  }

  /** A boundary already in the buffer is the boundary of everything pending, so the
      scan that finds it agrees with split at end of input on the pending bytes. */
  lemma BufferedBoundaryIsPendingBoundary(s: ScanState)
    requires s.err.None? && Split(s.buf, false).token.Some?
    ensures var sp, all := Split(s.buf, false), Split(Pending(s), true);
            sp.token == all.token && s.buf[sp.advance..] + Delivered(s.source) == Pending(s)[all.advance..]
  {
    SplitStableUnderExtension(s.buf, Delivered(s.source));
    DropThenAppend(s.buf, Delivered(s.source), Split(s.buf, false).advance);
  }

  /** Whatever the chunk sizes, one scan behaves as split at end of input on all the
      bytes still to be split: it yields that split's token and consumes that split's
      advance. A scan that yields nothing leaves an empty buffer and the source's
      terminal error recorded. */
  lemma {:induction false} ScanAgreesWithSplit(s: ScanState)
    decreases |s.source|, if s.err.None? then 1 else 0
    ensures ScanFrom(s).1 == Split(Pending(s), true).token
    ensures Pending(ScanFrom(s).0) == Pending(s)[Split(Pending(s), true).advance..]
    ensures Terminal(ScanFrom(s).0) == Terminal(s)
    ensures ScanFrom(s).1.None? ==> ScanFrom(s).0.buf == [] && ScanFrom(s).0.err == Some(Terminal(s))
  {
    if s.err.None? {
      if |s.buf| > 0 && Split(s.buf, false).token.Some? {
        BufferedBoundaryIsPendingBoundary(s);
      } else {
        ScanAgreesWithSplit(Fill(s));
      }
    }
  }

  /** The frames a reader yields from state `s` before it reports the end. */
  ghost function Drain(s: ScanState): seq<seq<byte>>
    decreases |Pending(s)|
  {
    ScanAgreesWithSplit(s);
    var r := ScanFrom(s);
    if r.1.None? then [] else [r.1.value] + Drain(r.0)
  }

  /** The reader yields exactly the frames of the bytes still pending. */
  lemma {:induction false} DrainIsFrames(s: ScanState)
    decreases |Pending(s)|
    ensures Drain(s) == Frames(Pending(s))
  {
    ScanAgreesWithSplit(s);
    FramesStep(Pending(s));
    var r := ScanFrom(s);
    if r.1.Some? {
      DrainIsFrames(r.0);
    }
  }

  /** A fresh reader yields the frames of everything the source delivers. */
  lemma ReaderYieldsFrames(chunks: seq<Chunk>)
    ensures Drain(ScanState([], None, chunks)) == Frames(Delivered(chunks))
  {
    DrainIsFrames(ScanState([], None, chunks));
    assert [] + Delivered(chunks) == Delivered(chunks);
  }

  /** Splitting does not depend on how the source cuts its bytes into reads: two
      sources that deliver the same bytes yield the same frames. */
  lemma ChunkingDoesNotMatter(c1: seq<Chunk>, c2: seq<Chunk>)
    requires Delivered(c1) == Delivered(c2)
    ensures Drain(ScanState([], None, c1)) == Drain(ScanState([], None, c2))
  {
    ReaderYieldsFrames(c1);
    ReaderYieldsFrames(c2);
  }

  /** Once a scan has yielded nothing, every later scan yields nothing and changes
      nothing. */
  lemma EndIsSticky(s: ScanState)
    requires ScanFrom(s).1.None?
    ensures ScanFrom(ScanFrom(s).0) == ScanFrom(s)
  {
    ScanAgreesWithSplit(s);
  }

  /** What `ReadEvent` reports when the stream ends with `e`: cancellation reads as a
      clean end of input, every other error is passed through. */
  function Surfaced(e: Error): (r: Error)
    ensures r != Canceled
    ensures r == EOF <==> e == EOF || e == Canceled
    ensures r != EOF ==> r == e
  {
    if e == Canceled then EOF else e
  }

  /** Reads frames from a byte source. */
  class EventStreamReader {
    var buf: seq<byte>
    var err: Option<Error>
    var source: seq<Chunk>

    /** NewEventStreamReader: an empty buffer over a source no read has touched. */
    constructor (source: seq<Chunk>)
      ensures State() == ScanState([], None, source)
      ensures Pending(State()) == Delivered(source)
    {
      buf := [];
      err := None;
      this.source := source;
      assert [] + Delivered(source) == Delivered(source);
    }

    /** The scanner state this object holds. */
    function State(): ScanState
      reads this
    {
      ScanState(buf, err, source)
    }

    /** `Scanner.Err`: the recorded read error, where a clean end of input counts as
        none. */
    function Err(): (r: Option<Error>)
      reads this
      ensures r.None? <==> err.None? || err == Some(EOF)
      ensures r.Some? ==> r == err
    {
      if err == Some(EOF) then None else err
    }

    /** `Scanner.Scan` followed by `Scanner.Bytes`: the next token, if any. */
    method Scan() returns (token: Option<seq<byte>>)
      modifies this
      ensures (State(), token) == ScanFrom(old(State()))
    {
      while true
        invariant ScanFrom(State()) == ScanFrom(old(State()))
        decreases |source|, if err.None? then 1 else 0
      {
        if |buf| > 0 || err.Some? {
          var sp := Split(buf, err.Some?);
          if sp.token.Some? {
            buf := buf[sp.advance..];
            return sp.token;
          }
          if err.Some? {
            buf := [];
            return None;
          }
        }
        if source == [] {
          err := Some(EOF);
        } else {
          buf, err, source := buf + source[0].bytes, source[0].err, source[1..];
        }
      }
    }

    /** ReadEvent: the next frame with no error, or no frame and the error that ended
        the stream, with cancellation reported as `io.EOF`. The frame is the first of
        the frames of the bytes still pending, and the rest of those frames are what
        later calls yield. */
    method ReadEvent() returns (event: Option<seq<byte>>, e: Option<Error>)
      modifies this
      ensures event.Some? <==> e.None?
      ensures event.Some? ==> Frames(Pending(old(State()))) == [event.value] + Frames(Pending(State()))
      ensures event.None? ==> Frames(Pending(old(State()))) == [] && Pending(State()) == []
      ensures event.None? ==> e == Some(Surfaced(Terminal(old(State()))))
      ensures Terminal(State()) == Terminal(old(State()))
    {
      ghost var before := State();
      var token := Scan();
      ScanAgreesWithSplit(before);
      FramesStep(Pending(before));
      if token.Some? {
        return token, None;
      }
      var scanErr := Err();
      if scanErr.Some? {
        if scanErr.value == Canceled {
          return None, Some(EOF);
        }
        return None, scanErr;
      }
      return None, Some(EOF);
    }
  }
}
