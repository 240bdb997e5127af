/**
 Line assembly in nmea_reader_addc against its reference, "split the stream at newlines".

 The buffer takes 128 bytes. A line of exactly 128 bytes before its newline fills it without
 overflowing; the newline itself then triggers the overflow, and the recovery skips to the next
 newline, so the following line is lost as well.
 */
module NmeaLines {
  import opened Bytes
  import opened Tokenizer

  const NMEA_MAX_SIZE := 128

  /** The reader's overflow flag and in[..pos]. */
  datatype Assembler = Assembler(overflow: bool, acc: seq<byte>)

  const EMPTY := Assembler(false, [])

  /** One byte: the next state and the sentence it completes, if any. */
  function AddByte(a: Assembler, c: byte): (Assembler, Option<seq<byte>>) {
    if a.overflow then (Assembler(c != LF, a.acc), None)
    else if |a.acc| >= NMEA_MAX_SIZE then (Assembler(true, []), None)
    else if c == LF then (EMPTY, Some(a.acc + [c]))
    else (Assembler(false, a.acc + [c]), None)
  }

  /** The state after a stream of bytes and the sentences handed to the parser on the way. */
  function Assemble(a: Assembler, stream: seq<byte>): (r: (Assembler, seq<seq<byte>>)) {
    if stream == [] then (a, [])
    else
      var (b, lines) := Assemble(a, stream[..|stream| - 1]);
      var (next, line) := AddByte(b, stream[|stream| - 1]);
      (next, if line.Some? then lines + [line.value] else lines)
  }

  // ----- the reference -----

  /** The newline-terminated lines of a stream, without their newlines, and what follows the last. */
  function SplitLines(stream: seq<byte>): (r: (seq<seq<byte>>, seq<byte>)) {
    if stream == [] then ([], [])
    else
      var (lines, partial) := SplitLines(stream[..|stream| - 1]);
      var c := stream[|stream| - 1];
      if c == LF then (lines + [partial], []) else (lines, partial + [c])
  }

  function Unsplit(lines: seq<seq<byte>>): seq<byte> {
    if lines == [] then [] else Unsplit(lines[..|lines| - 1]) + lines[|lines| - 1] + [LF]
  }

  /** Splitting loses nothing, and no line holds a newline. */
  lemma {:induction false} SplitLinesInverse(stream: seq<byte>)
    ensures var (lines, partial) := SplitLines(stream);
            && stream == Unsplit(lines) + partial
            && LF !in partial
            && forall i :: 0 <= i < |lines| ==> LF !in lines[i]
  {
    if stream != [] {
      var (lines, partial) := SplitLines(stream[..|stream| - 1]);
      var c := stream[|stream| - 1];
      SplitLinesInverse(stream[..|stream| - 1]);
      assert stream == stream[..|stream| - 1] + [c];
      if c == LF {
        assert (lines + [partial])[..|lines|] == lines;
        assert stream == Unsplit(lines + [partial]) + [];
      }
    }
  }

  predicate Short(line: seq<byte>) {
    |line| < 128
  }

  /** The lines that fit the buffer together with their newline. */
  function ShortLines(lines: seq<seq<byte>>): (kept: seq<seq<byte>>) {
    if lines == [] then []
    else
      var kept := ShortLines(lines[..|lines| - 1]);
      var line := lines[|lines| - 1];
      if Short(line) then kept + [line + [LF]] else kept
  }

  /** How many lines at the end have exactly 128 bytes. */
  function FullRun(lines: seq<seq<byte>>): nat {
    if lines == [] || |lines[|lines| - 1]| != 128 then 0 else 1 + FullRun(lines[..|lines| - 1])
  }

  /** A line after an odd run of full lines is skipped by the overflow recovery. */
  predicate Skips(lines: seq<seq<byte>>) {
    FullRun(lines) % 2 == 1
  }

  /** The short lines that are not skipped. */
  function KeptLines(lines: seq<seq<byte>>): (kept: seq<seq<byte>>) {
    if lines == [] then []
    else
      var before := lines[..|lines| - 1];
      var line := lines[|lines| - 1];
      if Short(line) && !Skips(before) then KeptLines(before) + [line + [LF]] else KeptLines(before)
  }

  /** The buffer's state is a function of the split stream. */
  function StateAfter(lines: seq<seq<byte>>, partial: seq<byte>): Assembler {
    if Skips(lines) || |partial| > NMEA_MAX_SIZE then Assembler(true, []) else Assembler(false, partial)
  }

  /** Every stream: exactly the short lines not swallowed by a full one reach the parser, in order. */
  lemma {:induction false} AssembleKeepsLines(stream: seq<byte>)
    ensures var (lines, partial) := SplitLines(stream);
            Assemble(EMPTY, stream) == (StateAfter(lines, partial), KeptLines(lines))
    ensures |Assemble(EMPTY, stream).0.acc| <= 128
  {
    if stream != [] {
      var before := stream[..|stream| - 1];
      AssembleKeepsLines(before);
      var (lines, partial) := SplitLines(before);
      if stream[|stream| - 1] == LF {
        assert (lines + [partial])[..|lines|] == lines;
      }
    }
  }

  lemma {:induction false} KeptLinesBound(lines: seq<seq<byte>>)
    ensures |KeptLines(lines)| <= |ShortLines(lines)|
  {
    if lines != [] { KeptLinesBound(lines[..|lines| - 1]); }
  }

  /** The i-th line fits the buffer but comes after an odd run of full lines. */
  predicate Swallowed(lines: seq<seq<byte>>, i: nat)
    requires i < |lines|
  {
    Short(lines[i]) && Skips(lines[..i])
  }

  /** Dropping long lines is all the reader does if and only if no short line follows an odd run of full ones. */
  lemma {:induction false} KeptLinesExact(lines: seq<seq<byte>>)
    ensures KeptLines(lines) == ShortLines(lines) <==> forall i :: 0 <= i < |lines| ==> !Swallowed(lines, i)
  {
    if lines != [] {
      var n := |lines| - 1;
      var before := lines[..n];
      KeptLinesExact(before);
      KeptLinesBound(before);
      forall i | 0 <= i < n
        ensures Swallowed(before, i) == Swallowed(lines, i)
      {
        assert before[..i] == lines[..i];
      }
      var kept, short := KeptLines(before), ShortLines(before);
      if Swallowed(lines, n) {
        assert |KeptLines(lines)| < |ShortLines(lines)|;
      } else if Short(lines[n]) {
        assert (kept + [lines[n] + [LF]])[..|kept|] == kept;
        assert (short + [lines[n] + [LF]])[..|short|] == short;
      }
      assert KeptLines(lines) == ShortLines(lines) <==> kept == short && !Swallowed(lines, n);
    }
  }

  lemma {:induction false} NoFullLineNoRun(lines: seq<seq<byte>>, i: nat)
    requires i <= |lines|
    requires forall k :: 0 <= k < |lines| ==> |lines[k]| != NMEA_MAX_SIZE
    ensures FullRun(lines[..i]) == 0
  {
  }

  /** The promise for streams without a full line: the sentences are the short lines, in order. */
  lemma AssembleIsSplitting(stream: seq<byte>)
    requires forall k :: 0 <= k < |SplitLines(stream).0| ==> |SplitLines(stream).0[k]| != 128
    ensures Assemble(EMPTY, stream).1 == ShortLines(SplitLines(stream).0)
  {
    var lines := SplitLines(stream).0;
    AssembleKeepsLines(stream);
    forall i | 0 <= i < |lines|
      ensures !Swallowed(lines, i)
    {
      NoFullLineNoRun(lines, i);
    }
    KeptLinesExact(lines);
  }

  /** A full line costs the next one: the second line of this stream never reaches the parser. */
  lemma FullLineSwallowsNext(full: seq<byte>, next: seq<byte>)
    requires |full| == 128 && LF !in full && Short(next) && LF !in next
    ensures Unsplit([full, next]) == full + [LF] + next + [LF]
    ensures Assemble(EMPTY, Unsplit([full, next])).1 == []
  {
    var lines := [full, next];
    UnsplitInverse(lines);
    assert lines[..1] == [full] && [full][..0] == [];
    assert Unsplit([full]) == full + [LF];
    AssembleKeepsLines(Unsplit(lines));
    assert FullRun([full]) == 1 && KeptLines([full]) == [];
    assert lines[..|lines| - 1] == [full];
  }

  /** Appending a line and its newline to complete lines appends it to the split. */
  lemma {:induction false} SplitOneLine(lines: seq<seq<byte>>, line: seq<byte>)
    requires LF !in line
    requires SplitLines(Unsplit(lines)) == (lines, [])
    ensures SplitLines(Unsplit(lines) + line) == (lines, line)
    ensures SplitLines(Unsplit(lines) + line + [LF]) == (lines + [line], [])
  {
    hide SplitLines, Unsplit;
    var u := Unsplit(lines);
    if line != [] {
      var init := line[..|line| - 1];
      SplitOneLine(lines, init);
      SplitStep(u + init, line[|line| - 1]);
      assert u + line == u + init + [line[|line| - 1]];
      assert init + [line[|line| - 1]] == line;
    } else {
      assert u + line == u;
    }
    SplitStep(u + line, LF);
  }

  lemma SplitStep(s: seq<byte>, c: byte)
    ensures var (lines, partial) := SplitLines(s);
            SplitLines(s + [c]) == if c == LF then (lines + [partial], []) else (lines, partial + [c])
  {
  }

  /** Writing lines out and splitting again gives them back. */
  lemma {:induction false} UnsplitInverse(lines: seq<seq<byte>>)
    requires forall i :: 0 <= i < |lines| ==> LF !in lines[i]
    ensures SplitLines(Unsplit(lines)) == (lines, [])
  {
    if lines != [] {
      var before := lines[..|lines| - 1];
      UnsplitInverse(before);
      SplitOneLine(before, lines[|lines| - 1]);
      assert before + [lines[|lines| - 1]] == lines;
    }
  }
}
