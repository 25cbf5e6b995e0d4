/** readLimitedLine: one newline-terminated frame, read in chunks under a hard cap. */
module FrameReader {

  type byte = bv8

  const NEWLINE: byte := 10

  // ----- The buffered reader

  /** How ReadSlice ended: at the newline, with its buffer full, or with the stream's closing error. */
  datatype Ending = AtNewline | BufferFull | StreamError

  /** The unread bytes of the worker's standard output. */
  class Reader {
    var rest: seq<byte>

    constructor (rest: seq<byte>)
      ensures this.rest == rest
    {
      this.rest := rest;
    }

    /**
     * ReadSlice('\n'): through the first newline if the buffer fills no sooner; otherwise some bytes without one. When
     * the buffer fills is not determined.
     */
    method ReadSlice() returns (chunk: seq<byte>, ending: Ending)
      modifies this
      ensures old(rest) == chunk + rest
      ensures ending == AtNewline ==> chunk != [] && chunk[|chunk| - 1] == NEWLINE && NEWLINE !in chunk[..|chunk| - 1]
      ensures ending == BufferFull ==> chunk != [] && NEWLINE !in chunk
      ensures ending == StreamError ==> rest == [] && NEWLINE !in chunk
    {
      var size: nat :| size > 0;
      var i := 0;
      while i < |rest| && i < size && rest[i] != NEWLINE
        invariant 0 <= i <= |rest| && i <= size && NEWLINE !in rest[..i] && rest == old(rest)
      {
        i := i + 1;
      }
      if i == size {
        chunk, ending := rest[..i], BufferFull;
      } else if i < |rest| {
        i := i + 1;
        chunk, ending := rest[..i], AtNewline;
      } else {
        chunk, ending := rest, StreamError;
      }
      rest := rest[i..];
    }
  }

  // ----- What a read means

  /** A complete line, the unterminated tail with its read error, or a refusal. */
  datatype ReadResult = Line(bytes: seq<byte>) | Tail(bytes: seq<byte>) | TooLarge

  ghost predicate FirstNewline(stream: seq<byte>, i: nat) {
    i < |stream| && stream[i] == NEWLINE && NEWLINE !in stream[..i]
  }

  lemma FirstNewlineIsUnique(stream: seq<byte>, i: nat, j: nat)
    requires FirstNewline(stream, i) && FirstNewline(stream, j)
    ensures i == j
  {
    assert forall k :: 0 <= k < j ==> stream[..j][k] == stream[k];
    assert forall k :: 0 <= k < i ==> stream[..i][k] == stream[k];
  }

  /** The line written as a payload without newlines and a newline is what is read back, whatever follows. */
  lemma FramesAreReadBack(payload: seq<byte>, later: seq<byte>, i: nat)
    requires NEWLINE !in payload
    ensures FirstNewline(payload + [NEWLINE] + later, i) <==> i == |payload|
    ensures (payload + [NEWLINE] + later)[..|payload| + 1] == payload + [NEWLINE]
  {
    var stream := payload + [NEWLINE] + later;
    assert stream[..|payload|] == payload;
    if FirstNewline(stream, i) {
      FirstNewlineIsUnique(stream, i, |payload|);
    }
  }

  /** The newline that ends the bytes read so far is the first of the stream. */
  lemma EndsAtFirstNewline(stream: seq<byte>, line: seq<byte>, rest: seq<byte>)
    requires stream == line + rest && line != [] && line[|line| - 1] == NEWLINE && NEWLINE !in line[..|line| - 1]
    ensures FirstNewline(stream, |line| - 1) && stream[..|line|] == line && stream[|line|..] == rest
  {
    assert stream[..|line| - 1] == line[..|line| - 1];
  }

  /** Bytes without a newline lie before the first newline of the stream. */
  lemma BeforeFirstNewline(stream: seq<byte>, read: seq<byte>, rest: seq<byte>)
    requires stream == read + rest && NEWLINE !in read
    ensures forall i: nat :: FirstNewline(stream, i) ==> |read| <= i
  {
    assert forall i :: 0 <= i < |read| ==> read[i] == stream[i];
  }

  /**
   * The stream through its first newline if that fits the cap, and then the reader stands just after it; the whole
   * stream if it has no newline and fits; else a refusal. However the reader chunks the stream, the bytes accumulated
   * never exceed the cap.
   */
  method ReadLimitedLine(reader: Reader, max: nat) returns (result: ReadResult, ghost peak: nat)
    modifies reader
    ensures forall i: nat :: FirstNewline(old(reader.rest), i) && i + 1 <= max ==>
              result == Line(old(reader.rest)[..i + 1]) && reader.rest == old(reader.rest)[i + 1..]
    ensures forall i: nat :: FirstNewline(old(reader.rest), i) && i + 1 > max ==> result == TooLarge
    ensures NEWLINE !in old(reader.rest) && |old(reader.rest)| <= max ==>
              result == Tail(old(reader.rest)) && reader.rest == []
    ensures NEWLINE !in old(reader.rest) && |old(reader.rest)| > max ==> result == TooLarge
    ensures peak <= max
  {
    var buf: seq<byte> := [];
    peak := 0;
    ghost var stream := reader.rest;
    while true
      invariant stream == buf + reader.rest && NEWLINE !in buf
      invariant |buf| <= peak <= max
      decreases |reader.rest|
    {
      var chunk, ending := reader.ReadSlice();
      ghost var read := buf + chunk;
      assert stream == read + reader.rest;
      if ending == AtNewline {
        assert read[..|read| - 1] == buf + chunk[..|chunk| - 1];
        EndsAtFirstNewline(stream, read, reader.rest);
        forall i: nat | FirstNewline(stream, i) ensures i == |read| - 1 {
          FirstNewlineIsUnique(stream, i, |read| - 1);
        }
        assert stream[|read| - 1] in stream;
      } else {
        BeforeFirstNewline(stream, read, reader.rest);
      }
      if |buf| + |chunk| > max {
        return TooLarge, peak;
      }
      buf := buf + chunk;
      peak := |buf|;
      match ending
      case AtNewline => return Line(buf), peak;
      case BufferFull =>
      case StreamError =>
        assert stream == buf;
        return Tail(buf), peak;
    }
  }
}
