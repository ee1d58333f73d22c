/** Framing of NMEA sentences in a byte stream (nmea_reader_addc and the loop that feeds it in gps/gps.c). */
module Nmea {
  import opened Bytes

  const NMEA_MAX_SIZE := 83
  const NEWLINE: byte := 10

  // ----- The reader as a value -----

  /** The bytes of the line so far, whether the line is being thrown away, and the sentences parsed. */
  datatype Reader = Reader(line: seq<byte>, overflow: bool, parsed: seq<seq<byte>>)

  function AddedC(r: Reader, c: byte): Reader {
    if r.overflow then r.(overflow := c != NEWLINE)
    else if |r.line| >= NMEA_MAX_SIZE then r.(overflow := true, line := [])
    else if c == NEWLINE then r.(line := [], parsed := r.parsed + [r.line + [c]])
    else r.(line := r.line + [c])
  }

  function Fed(r: Reader, stream: seq<byte>): Reader
    decreases |stream|
  {
    if stream == [] then r else Fed(AddedC(r, stream[0]), stream[1..])
  }

  lemma {:induction false} FedAppend(r: Reader, x: seq<byte>, y: seq<byte>)
    ensures Fed(r, x + y) == Fed(Fed(r, x), y)
    decreases |x|
  {
    if x == [] {
      assert x + y == y;
    } else {
      assert (x + y)[1..] == x[1..] + y;
      FedAppend(AddedC(r, x[0]), x[1..], y);
    }
  }

  class NmeaReader {
    const buffer: array<byte>
    var pos: nat
    var overflow: bool
    var parsed: seq<seq<byte>>
    ghost var history: seq<byte>

    function Value(): Reader
      requires pos <= buffer.Length
      reads this, buffer
    {
      Reader(buffer[..pos], overflow, parsed)
    }

    ghost predicate Valid()
      reads this, buffer
    {
      && buffer.Length == NMEA_MAX_SIZE + 1 && pos <= NMEA_MAX_SIZE
      && Value() == Fed(Reader([], false, []), history)
    }

    constructor ()
      ensures Valid() && fresh(buffer) && history == []
    {
      buffer := new byte[NMEA_MAX_SIZE + 1];
      pos, overflow, parsed, history := 0, false, [], [];
    }

    method AddC(c: byte)
      requires Valid()
      modifies this, buffer
      ensures Valid() && history == old(history) + [c]
    {
      hide Fed;
      ghost var before := Value();
      FedAppend(Reader([], false, []), history, [c]);
      FedOne(before, c);
      history := history + [c];
      if overflow {
        overflow := c != NEWLINE;
        return;
      }
      if pos >= buffer.Length - 1 {
        overflow := true;
        pos := 0;
        return;
      }
      buffer[pos] := c;
      pos := pos + 1;
      assert buffer[..pos] == before.line + [c];
      if c == NEWLINE {
        parsed := parsed + [buffer[..pos]];
        pos := 0;
      }
    }

    /** One read from the descriptor: what is parsed depends on the bytes alone, not on how they were cut. */
    method Feed(chunk: seq<byte>)
      requires Valid()
      modifies this, buffer
      ensures Valid() && history == old(history) + chunk
      ensures parsed == Kept(Lines(history))
    {
      for nn := 0 to |chunk|
        invariant Valid() && history == old(history) + chunk[..nn]
      {
        AddC(chunk[nn]);
      }
      assert chunk[..|chunk|] == chunk;
      ParsesKept(history);
    }
  }

  lemma FedOne(r: Reader, c: byte)
    ensures Fed(r, [c]) == AddedC(r, c)
  {
    assert Fed(AddedC(r, c), []) == AddedC(r, c);
  }

  // ----- The lines of a stream, and those that become sentences -----

  function LineEnd(stream: seq<byte>): (k: nat)
    ensures k <= |stream| && NEWLINE !in stream[..k] && (k < |stream| ==> stream[k] == NEWLINE)
  {
    if stream == [] || stream[0] == NEWLINE then 0
    else
      var k := LineEnd(stream[1..]);
      assert stream[..k + 1] == [stream[0]] + stream[1..][..k];
      k + 1
  }

  /** The lines that a newline ends, without it. */
  function Lines(stream: seq<byte>): seq<seq<byte>>
    decreases |stream|
  {
    var k := LineEnd(stream);
    if k == |stream| then [] else [stream[..k]] + Lines(stream[k + 1..])
  }

  /** The newline of a line of exactly 83 bytes is lost, and the next line with it. */
  function Kept(lines: seq<seq<byte>>): seq<seq<byte>>
    decreases |lines|
  {
    if lines == [] then []
    else if |lines[0]| < NMEA_MAX_SIZE then [lines[0] + [NEWLINE]] + Kept(lines[1..])
    else if |lines[0]| == NMEA_MAX_SIZE && |lines| > 1 then Kept(lines[2..])
    else Kept(lines[1..])
  }

  /** What a reader of sentences of up to 82 bytes before the newline should find. */
  function Short(lines: seq<seq<byte>>): seq<seq<byte>> {
    if lines == [] then []
    else (if |lines[0]| < NMEA_MAX_SIZE then [lines[0] + [NEWLINE]] else []) + Short(lines[1..])
  }

  /** No line of exactly 83 bytes, met in step, is followed by a line that is short enough. */
  predicate InStep(lines: seq<seq<byte>>)
    decreases |lines|
  {
    if lines == [] then true
    else if |lines[0]| == NMEA_MAX_SIZE && |lines| > 1 then |lines[1]| >= NMEA_MAX_SIZE && InStep(lines[2..])
    else InStep(lines[1..])
  }

  lemma {:induction false} FillLine(r: Reader, line: seq<byte>)
    requires !r.overflow && NEWLINE !in line && |r.line| + |line| <= NMEA_MAX_SIZE
    ensures Fed(r, line) == r.(line := r.line + line)
    decreases |line|
  {
    if line == [] {
      assert r.line + line == r.line;
    } else {
      assert forall b | b in line[1..] :: b in line;
      FillLine(AddedC(r, line[0]), line[1..]);
      assert (r.line + [line[0]]) + line[1..] == r.line + line;
    }
  }

  lemma {:induction false} SkipLine(r: Reader, line: seq<byte>)
    requires r.overflow && NEWLINE !in line
    ensures Fed(r, line) == r
    decreases |line|
  {
    if line != [] {
      assert forall b | b in line[1..] :: b in line;
      SkipLine(AddedC(r, line[0]), line[1..]);
    }
  }

  lemma OverLine(r: Reader, line: seq<byte>)
    requires !r.overflow && r.line == [] && NEWLINE !in line && |line| > NMEA_MAX_SIZE
    ensures Fed(r, line) == r.(overflow := true)
  {
    hide Fed;
    var full, more := line[..NMEA_MAX_SIZE], line[NMEA_MAX_SIZE..];
    FillLine(r, full);
    assert more == [more[0]] + more[1..];
    FedOne(Fed(r, full), more[0]);
    FedAppend(Fed(r, full), [more[0]], more[1..]);
    assert forall b | b in more[1..] :: b in line;
    SkipLine(AddedC(Fed(r, full), more[0]), more[1..]);
    FedAppend(r, full, more);
    assert line == full + more;
  }

  /** A line that is thrown away ends the throwing away. */
  lemma SkippedLine(r: Reader, line: seq<byte>)
    requires r.overflow && NEWLINE !in line
    ensures Fed(r, line + [NEWLINE]) == r.(overflow := false)
  {
    hide Fed;
    SkipLine(r, line);
    FedAppend(r, line, [NEWLINE]);
    FedOne(r, NEWLINE);
  }

  /** A whole line, from a reader in step. */
  lemma WholeLine(r: Reader, line: seq<byte>)
    requires !r.overflow && r.line == [] && NEWLINE !in line
    ensures Fed(r, line + [NEWLINE]) == if |line| < NMEA_MAX_SIZE then r.(parsed := r.parsed + [line + [NEWLINE]])
                                        else if |line| == NMEA_MAX_SIZE then r.(overflow := true) else r
  {
    hide Fed;
    FedAppend(r, line, [NEWLINE]);
    FedOne(Fed(r, line), NEWLINE);
    if |line| <= NMEA_MAX_SIZE {
      FillLine(r, line);
      assert [] + line == line;
    } else {
      OverLine(r, line);
    }
  }

  lemma {:induction false} ParsesFrom(r: Reader, stream: seq<byte>)
    requires r.line == []
    ensures Fed(r, stream).parsed == r.parsed + if !r.overflow then Kept(Lines(stream))
                                                else if Lines(stream) == [] then [] else Kept(Lines(stream)[1..])
    decreases |stream|
  {
    hide Fed, Kept, AddedC, LineEnd;
    var k := LineEnd(stream);
    var line := stream[..k];
    if k == |stream| {
      PartLine(r, stream);
      KeptNone();
    } else {
      var rest := stream[k + 1..];
      assert stream == (line + [NEWLINE]) + rest;
      FedAppend(r, line + [NEWLINE], rest);
      if r.overflow {
        SkippedLine(r, line);
      } else {
        WholeLine(r, line);
      }
      ParsesFrom(Fed(r, line + [NEWLINE]), rest);
      KeptFirst(line, Lines(rest));
    }
  }

  lemma KeptNone()
    ensures Kept([]) == []
  {
  }

  lemma KeptFirst(line: seq<byte>, lines: seq<seq<byte>>)
    ensures Kept([line] + lines) == if |line| < NMEA_MAX_SIZE then [line + [NEWLINE]] + Kept(lines)
                                    else if |line| > NMEA_MAX_SIZE then Kept(lines)
                                    else if lines == [] then [] else Kept(lines[1..])
  {
    var all := [line] + lines;
    assert all[1..] == lines && (lines != [] ==> all[2..] == lines[1..]);
  }

  /** A line without its end parses nothing. */
  lemma {:induction false} PartLine(r: Reader, line: seq<byte>)
    requires NEWLINE !in line
    ensures Fed(r, line).parsed == r.parsed
    decreases |line|
  {
    if line != [] {
      assert forall b | b in line[1..] :: b in line;
      PartLine(AddedC(r, line[0]), line[1..]);
    }
  }

  /** Every stream, byte for byte. */
  lemma ParsesKept(stream: seq<byte>)
    ensures Fed(Reader([], false, []), stream).parsed == Kept(Lines(stream))
  {
    ParsesFrom(Reader([], false, []), stream);
  }

  lemma {:induction false} KeptNoMore(lines: seq<seq<byte>>)
    ensures |Kept(lines)| <= |Short(lines)|
    ensures Kept(lines) == Short(lines) <==> InStep(lines)
    decreases |lines|
  {
    if lines != [] {
      KeptNoMore(lines[1..]);
      if |lines[0]| == NMEA_MAX_SIZE && |lines| > 1 {
        KeptNoMore(lines[2..]);
        assert lines[1..][1..] == lines[2..];
      } else if |lines[0]| < NMEA_MAX_SIZE {
        var sentence := [lines[0] + [NEWLINE]];
        assert (sentence + Kept(lines[1..]))[1..] == Kept(lines[1..]);
        assert (sentence + Short(lines[1..]))[1..] == Short(lines[1..]);
      }
    }
  }

  /** The sentences are exactly the lines of up to 82 bytes, in order, if and only if no line of exactly 83 bytes that
      is met in step is followed by one of them. */
  lemma SentencesExact(stream: seq<byte>)
    ensures Fed(Reader([], false, []), stream).parsed == Short(Lines(stream)) <==> InStep(Lines(stream))
  {
    ParsesKept(stream);
    KeptNoMore(Lines(stream));
  }

  /** In particular when no line has exactly 83. */
  lemma {:induction false} NoLongLines(lines: seq<seq<byte>>)
    requires forall i | 0 <= i < |lines| :: |lines[i]| != NMEA_MAX_SIZE
    ensures InStep(lines)
    decreases |lines|
  {
    if lines != [] {
      NoLongLines(lines[1..]);
    }
  }
}
