/** The line framer of `call_claude`: standard output is read in chunks of up to 1 MiB (never line by line),
    appended to a growable buffer, and every complete line is cut off and handed to `_process_line`. */
module Framer {
  import opened Seqs

  type Byte = b: int | 0 <= b < 256
  type Bytes = seq<Byte>

  /** The line terminator `b"\n"`. */
  const NL: Byte := 10

  /** The bytes `bytes.strip()` removes: space, tab, line feed, vertical tab, form feed, carriage return. */
  predicate IsAsciiSpace(b: Byte) {
    b == 32 || 9 <= b <= 13
  }

  /** `buf.strip()` is empty. */
  predicate IsBlankBytes(s: Bytes) {
    forall i :: 0 <= i < |s| ==> IsAsciiSpace(s[i])
  }

  /** The inner loop `while b"\n" in buf: raw_line, buf = buf.split(b"\n", 1)`: the complete lines cut off the
      front of `buf`, in order, and the newline-free remainder kept for the next read. */
  function Drain(buf: Bytes): (r: (seq<Bytes>, Bytes))
    ensures NL !in r.1
    ensures r.0 + [r.1] == Split(buf, NL)
    decreases |buf|
  {
    if NL in buf then
      var i := IndexOf(buf, NL);
      var (lines, rest) := Drain(buf[i + 1..]);
      SplitAtFirst(buf, i, NL);
      ([buf[..i]] + lines, rest)
    else
      SplitFree(buf, NL);
      ([], buf)
  }

  /** The read loop until end of stream: each chunk is appended to the buffer (`buf += chunk`), which is then
      drained. Returns every line handed over, in order, and the final buffer. */
  function ReadAll(buf: Bytes, chunks: seq<Bytes>): (r: (seq<Bytes>, Bytes))
    requires NL !in buf
    ensures NL !in r.1
    ensures r.0 + [r.1] == Split(buf + Concat(chunks), NL)
    decreases |chunks|
  {
    if |chunks| == 0 then
      SplitFree(buf, NL);
      assert buf + Concat(chunks) == buf;
      ([], buf)
    else
      var (lines, rest) := Drain(buf + chunks[0]);
      var (more, final) := ReadAll(rest, chunks[1..]);
      ReadAllStep(buf, chunks, lines, rest);
      (lines + more, final)
  }

  /** The splitting argument behind one iteration of the read loop: the lines cut from `buf + chunk` followed by
      the pieces of the remainder plus the rest of the stream are the pieces of the whole. */
  lemma ReadAllStep(buf: Bytes, chunks: seq<Bytes>, lines: seq<Bytes>, rest: Bytes)
    requires |chunks| > 0 && NL !in rest
    requires lines + [rest] == Split(buf + chunks[0], NL)
    ensures Split(buf + Concat(chunks), NL) == lines + Split(rest + Concat(chunks[1..]), NL)
  {
    var x, tail := buf + chunks[0], Concat(chunks[1..]);
    assert Concat(chunks) == chunks[0] + tail;
    AppendAssoc(buf, chunks[0], tail);
    SplitResume(x, tail, lines, rest, NL);
  }

  /** The reference framing: split the whole stream at every newline at once; the trailing unterminated segment
      counts as a line only when it is not all whitespace. */
  function NaiveLines(s: Bytes): seq<Bytes> {
    var p := Split(s, NL);
    p[..|p| - 1] + (if IsBlankBytes(Last(p)) then [] else [Last(p)])
  }

  /** The lines `call_claude` hands to `_process_line` when the stream reaches end of file: those the read loop
      cut off, then the leftover buffer once if `buf.strip()` is non-empty. Whatever the chunk sizes, these are the
      lines of the whole stream split at once. */
  function Lines(chunks: seq<Bytes>): (r: seq<Bytes>)
    ensures r == NaiveLines(Concat(chunks))
    ensures forall i :: 0 <= i < |r| ==> NL !in r[i]
  {
    var (lines, rest) := ReadAll([], chunks);
    assert [] + Concat(chunks) == Concat(chunks);
    var p := Split(Concat(chunks), NL);
    SplitPiecesFree(Concat(chunks), NL);
    assert p[..|p| - 1] == lines && Last(p) == rest by { assert (lines + [rest])[..|lines|] == lines; }
    if IsBlankBytes(rest) then lines else lines + [rest]
  }

  /** The lines handed over when the deadline expires mid-stream: only the complete ones; the leftover buffer is
      dropped without being processed. */
  function CompleteLines(chunks: seq<Bytes>): (r: seq<Bytes>)
    ensures var p := Split(Concat(chunks), NL); r == p[..|p| - 1]
  {
    var (lines, rest) := ReadAll([], chunks);
    assert [] + Concat(chunks) == Concat(chunks);
    assert (lines + [rest])[..|lines|] == lines;
    lines
  }

  /** Chunk boundaries never matter: two ways of reading the same stream hand over the same lines. */
  lemma ChunkingIrrelevant(c1: seq<Bytes>, c2: seq<Bytes>)
    requires Concat(c1) == Concat(c2)
    ensures Lines(c1) == Lines(c2)
    ensures CompleteLines(c1) == CompleteLines(c2)
  {
  }

  /** Nothing is lost or duplicated: rejoining the complete lines and the leftover buffer with newlines gives
      back the stream exactly. */
  lemma {:induction false} ReadAllLossless(chunks: seq<Bytes>)
    ensures var (lines, rest) := ReadAll([], chunks); Join(lines + [rest], NL) == Concat(chunks)
  {
    assert [] + Concat(chunks) == Concat(chunks);
    JoinSplit(Concat(chunks), NL);
  }
}
