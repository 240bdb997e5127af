/**
 Several reads from the gps channel: when their boundaries show in the reports, and what an epoch
 loses by them.
 */
module NmeaReads {
  import opened Bytes
  import opened Tokenizer
  import opened NmeaLines
  import opened Satellites
  import opened Epochs
  import opened NmeaReader

  /** One read after another, each with the end tag on its last byte. */
  ghost function ReceiveAll(line: Assembler, sky: Sky, chunks: seq<seq<byte>>): (r: Result)
    requires Satellites.Valid(sky)
    ensures Satellites.Valid(r.sky) && |r.sky.list| == |sky.list|
  {
    if chunks == [] then Result(line, sky, [], [])
    else
      var before := ReceiveAll(line, sky, chunks[..|chunks| - 1]);
      var last := chunks[|chunks| - 1];
      Then(before, Run(before.line, before.sky, last, |last|))
  }

  function Then(a: Result, b: Result): Result {
    b.(sentences := a.sentences + b.sentences, reports := a.reports + b.reports)
  }

  function Flatten(chunks: seq<seq<byte>>): seq<byte> {
    if chunks == [] then [] else Flatten(chunks[..|chunks| - 1]) + chunks[|chunks| - 1]
  }

  /** The read ends with the newline of a sentence, not too short, and behind a closed group of satellites. */
  ghost predicate EndsAfterGroup(line: Assembler, sky: Sky, chunk: seq<byte>)
    requires Satellites.Valid(sky)
  {
    chunk != [] &&
    var before := Run(line, sky, chunk, |chunk| - 1);
    var sentence := AddByte(before.line, chunk[|chunk| - 1]).1;
    && sentence.Some? && !Decode(sentence.value).Ignored?
    && Absorb(before.sky, Decode(sentence.value)).numSvs != 0
  }

  /** A read reports at most once, and exactly when it ends behind a closed group; nothing is kept of it then. */
  lemma ReadReportsIff(line: Assembler, sky: Sky, chunk: seq<byte>)
    requires Satellites.Valid(sky)
    ensures var r := Run(line, sky, chunk, |chunk|);
            && (r.reports == [] <==> !EndsAfterGroup(line, sky, chunk))
            && (r.reports != [] ==> |r.reports| == 1 && Clean(r.sky) && r.reports[0].list == r.sky.list)
  {
    hide Decode, Absorb, AddByte;
    if chunk != [] { RunAbsorbs(line, sky, chunk, |chunk| - 1); }
  }

  lemma {:induction false} RunPrefix(line: Assembler, sky: Sky, a: seq<byte>, b: seq<byte>, n: nat)
    requires Satellites.Valid(sky) && n <= |a|
    requires n == |a| ==> b == [] || !EndsAfterGroup(line, sky, a)
    ensures Run(line, sky, a + b, n) == Run(line, sky, a, n)
  {
    hide Decode, Absorb, AddByte;
    if n > 0 {
      RunPrefix(line, sky, a, b, n - 1);
      assert (a + b)[n - 1] == a[n - 1];
    }
  }

  lemma {:induction false} RunSuffix(line: Assembler, sky: Sky, a: seq<byte>, b: seq<byte>, n: nat)
    requires Satellites.Valid(sky) && n <= |b| && !EndsAfterGroup(line, sky, a)
    ensures var r := Run(line, sky, a, |a|);
            Run(line, sky, a + b, |a| + n) == Then(r, Run(r.line, r.sky, b, n))
  {
    hide Decode, Absorb, AddByte, Apply, EndsAfterGroup;
    if n == 0 {
      RunPrefix(line, sky, a, b, |a|);
    } else {
      RunSuffix(line, sky, a, b, n - 1);
      assert (a + b)[|a| + n - 1] == b[n - 1];
    }
  }

  /** No read but perhaps the last ends behind a closed group. */
  ghost predicate QuietCuts(line: Assembler, sky: Sky, chunks: seq<seq<byte>>)
    requires Satellites.Valid(sky)
  {
    forall i :: 0 <= i < |chunks| - 1 ==>
      var r := ReceiveAll(line, sky, chunks[..i]);
      !EndsAfterGroup(r.line, r.sky, chunks[i])
  }

  lemma {:induction false} QuietSoFar(line: Assembler, sky: Sky, chunks: seq<seq<byte>>, n: nat)
    requires Satellites.Valid(sky) && QuietCuts(line, sky, chunks) && n < |chunks|
    ensures ReceiveAll(line, sky, chunks[..n]).reports == []
  {
    hide Run, EndsAfterGroup;
    if n > 0 {
      QuietSoFar(line, sky, chunks, n - 1);
      assert chunks[..n][..n - 1] == chunks[..n - 1];
      var r := ReceiveAll(line, sky, chunks[..n - 1]);
      ReadReportsIff(r.line, r.sky, chunks[n - 1]);
    }
  }

  /** Then the cuts do not show: the reads have the effect of one read of all their bytes. */
  lemma {:induction false} QuietCutsJoin(line: Assembler, sky: Sky, chunks: seq<seq<byte>>)
    requires Satellites.Valid(sky) && chunks != [] && QuietCuts(line, sky, chunks)
    ensures ReceiveAll(line, sky, chunks) == Run(line, sky, Flatten(chunks), |Flatten(chunks)|)
  {
    hide Run, EndsAfterGroup;
    var n := |chunks| - 1;
    var init, last := chunks[..n], chunks[n];
    var before := Flatten(init);
    if n == 0 {
      assert before + last == last;
      assert ReceiveAll(line, sky, init) == Result(line, sky, [], []);
      assert init == [] && before == [];
    } else {
      forall i | 0 <= i < n - 1
        ensures var r := ReceiveAll(line, sky, init[..i]);
                !EndsAfterGroup(r.line, r.sky, init[i])
      {
        assert init[..i] == chunks[..i] && init[i] == chunks[i];
      }
      QuietCutsJoin(line, sky, init);
      QuietSoFar(line, sky, chunks, n);
      ReadReportsIff(line, sky, before);
      RunSuffix(line, sky, before, last, |last|);
    }
  }

  /** An epoch cut into reads none of which ends behind a closed group gives the one report all the same. */
  lemma EpochFromReads(sky: Sky, chunks: seq<seq<byte>>, lines: seq<seq<byte>>, items: seq<Item>)
    requires Clean(sky) && sky.list != [] && EpochBytes(lines, items) && Expected(items, NoneUsed()) != []
    requires chunks != [] && Flatten(chunks) == Unsplit(lines) && QuietCuts(EMPTY, sky, chunks)
    ensures var r := ReceiveAll(EMPTY, sky, chunks);
            && r.line == EMPTY && Clean(r.sky)
            && |r.reports| == 1 && IsReport(r.reports[0], items, |sky.list|)
  {
    hide Run, Unsplit, Decode, Expected, Sentences, ShortLines, QuietCuts;
    QuietCutsJoin(EMPTY, sky, chunks);
    EpochFromBytes(sky, lines, items);
  }

  datatype Part = Part(lines: seq<seq<byte>>, items: seq<Item>)

  function PartBytes(parts: seq<Part>): (chunks: seq<seq<byte>>)
    ensures |chunks| == |parts| && forall i :: 0 <= i < |parts| ==> chunks[i] == Unsplit(parts[i].lines)
  {
    seq(|parts|, i requires 0 <= i < |parts| => Unsplit(parts[i].lines))
  }

  /** Epochs with satellites, one a read: one report each, of exactly its satellites with the marks of its own. */
  lemma {:induction false} EpochsReportApart(sky: Sky, parts: seq<Part>)
    requires Clean(sky) && sky.list != []
    requires forall i :: 0 <= i < |parts| ==>
               EpochBytes(parts[i].lines, parts[i].items) && Expected(parts[i].items, NoneUsed()) != []
    ensures var r := ReceiveAll(EMPTY, sky, PartBytes(parts));
            && r.line == EMPTY && Clean(r.sky) && |r.sky.list| == |sky.list|
            && |r.reports| == |parts|
            && forall i :: 0 <= i < |parts| ==> IsReport(r.reports[i], parts[i].items, |sky.list|)
  {
    hide Run, Unsplit, EpochBytes, IsReport, Expected;
    if parts != [] {
      var n := |parts| - 1;
      EpochsReportApart(sky, parts[..n]);
      assert PartBytes(parts)[..n] == PartBytes(parts[..n]);
      var before := ReceiveAll(EMPTY, sky, PartBytes(parts[..n]));
      assert EpochBytes(parts[n].lines, parts[n].items);
      EpochFromBytes(before.sky, parts[n].lines, parts[n].items);
    }
  }

  // ----- an epoch of which a read ends behind a closed group -----

  lemma {:induction false} FlattenAppend(a: seq<seq<byte>>, b: seq<seq<byte>>)
    ensures Flatten(a + b) == Flatten(a) + Flatten(b)
  {
    if b == [] {
      assert a + b == a;
    } else {
      var all, init, last := a + b, b[..|b| - 1], b[|b| - 1];
      assert all[..|all| - 1] == a + init && all[|all| - 1] == last;
      FlattenAppend(a, init);
      assert Flatten(a) + (Flatten(init) + last) == Flatten(a) + Flatten(init) + last;
    }
  }

  lemma {:induction false} UnsplitAppend(a: seq<seq<byte>>, b: seq<seq<byte>>)
    ensures Unsplit(a + b) == Unsplit(a) + Unsplit(b)
  {
    if b == [] {
      assert a + b == a;
    } else {
      var all, init, last := a + b, b[..|b| - 1], b[|b| - 1];
      assert all[..|all| - 1] == a + init && all[|all| - 1] == last;
      UnsplitAppend(a, init);
      assert Unsplit(a) + (Unsplit(init) + last + [LF]) == Unsplit(a) + Unsplit(init) + last + [LF];
    }
  }

  lemma {:induction false} ReceiveAppend(line: Assembler, sky: Sky, a: seq<seq<byte>>, b: seq<seq<byte>>)
    requires Satellites.Valid(sky)
    ensures var r := ReceiveAll(line, sky, a);
            ReceiveAll(line, sky, a + b) == Then(r, ReceiveAll(r.line, r.sky, b))
  {
    hide Run;
    if b == [] {
      assert a + b == a;
    } else {
      assert (a + b)[..|a + b| - 1] == a + b[..|b| - 1];
      ReceiveAppend(line, sky, a, b[..|b| - 1]);
    }
  }

  /** Reads that report nothing at all have the effect of one read. */
  lemma SilentReadsJoin(line: Assembler, sky: Sky, chunks: seq<seq<byte>>)
    requires Satellites.Valid(sky) && chunks != [] && ReceiveAll(line, sky, chunks).reports == []
    ensures ReceiveAll(line, sky, chunks) == Run(line, sky, Flatten(chunks), |Flatten(chunks)|)
  {
    hide Run, EndsAfterGroup;
    forall i | 0 <= i < |chunks| - 1
      ensures var r := ReceiveAll(line, sky, chunks[..i]);
              !EndsAfterGroup(r.line, r.sky, chunks[i])
    {
      assert chunks == chunks[..i + 1] + chunks[i + 1..];
      ReceiveAppend(line, sky, chunks[..i + 1], chunks[i + 1..]);
      assert chunks[..i + 1][..i] == chunks[..i];
      var r := ReceiveAll(line, sky, chunks[..i]);
      ReadReportsIff(r.line, r.sky, chunks[i]);
    }
    QuietCutsJoin(line, sky, chunks);
  }

  lemma {:induction false} AssembleAppend(line: Assembler, a: seq<byte>, b: seq<byte>)
    ensures var (mid, lines) := Assemble(line, a);
            var (end, more) := Assemble(mid, b);
            Assemble(line, a + b) == (end, lines + more)
  {
    hide AddByte;
    if b == [] {
      assert a + b == a;
      assert Assemble(line, a).1 + [] == Assemble(line, a).1;
    } else {
      var all, init := a + b, b[..|b| - 1];
      assert all[..|all| - 1] == a + init && all[|all| - 1] == b[|b| - 1];
      AssembleAppend(line, a, init);
      var (mid, lines) := Assemble(line, a);
      var (end, more) := Assemble(mid, init);
      var (_, sentence) := AddByte(end, b[|b| - 1]);
      if sentence.Some? { assert lines + more + [sentence.value] == lines + (more + [sentence.value]); }
    }
  }

  /** However the bytes are cut into reads, the same sentences come out. */
  lemma {:induction false} ReadsAssemble(line: Assembler, sky: Sky, chunks: seq<seq<byte>>)
    requires Satellites.Valid(sky)
    ensures var r := ReceiveAll(line, sky, chunks);
            (r.line, r.sentences) == Assemble(line, Flatten(chunks))
  {
    hide Run;
    if chunks != [] {
      var init, last := chunks[..|chunks| - 1], chunks[|chunks| - 1];
      ReadsAssemble(line, sky, init);
      var r := ReceiveAll(line, sky, init);
      RunAssembles(r.line, r.sky, last, |last|);
      assert last[..|last|] == last;
      AssembleAppend(line, Flatten(init), last);
    }
  }

  lemma LinesComeOut(lines: seq<seq<byte>>)
    requires forall i :: 0 <= i < |lines| ==> LF !in lines[i] && Short(lines[i])
    ensures Assemble(EMPTY, Unsplit(lines)) == (EMPTY, ShortLines(lines))
  {
    UnsplitInverse(lines);
    AssembleKeepsLines(Unsplit(lines));
    AllShort(lines);
  }

  // ----- sentences that announce no satellite -----

  predicate NoCount(sky: Sky) {
    sky.svCount == 0 && sky.numSvs == 0
  }

  lemma BarrenAbsorb(sky: Sky, s: Sentence)
    requires Satellites.Valid(sky) && WellFormed(s) && Barren(s) && NoCount(sky)
    ensures NoCount(Absorb(sky, s))
  {
    if s.Gsv? {
      AddSatsNone(sky, s.sats[..SlotsRead(s.index, s.cnt)], s.beidou);
    }
  }

  ghost predicate AllBarren(lines: seq<seq<byte>>) {
    forall i :: 0 <= i < |lines| ==> WellFormed(Decode(lines[i])) && Barren(Decode(lines[i]))
  }

  lemma {:induction false} BarrenRun(line: Assembler, sky: Sky, chunk: seq<byte>, n: nat)
    requires Satellites.Valid(sky) && NoCount(sky) && n <= |chunk|
    requires AllBarren(Run(line, sky, chunk, n).sentences)
    ensures NoCount(Run(line, sky, chunk, n).sky) && Run(line, sky, chunk, n).reports == []
  {
    hide Decode, Absorb, Barren, WellFormed, AddByte;
    if n > 0 {
      var before, after := Run(line, sky, chunk, n - 1), Run(line, sky, chunk, n);
      var (_, sentence) := AddByte(before.line, chunk[n - 1]);
      assert forall i :: 0 <= i < |before.sentences| ==> before.sentences[i] == after.sentences[i];
      BarrenRun(line, sky, chunk, n - 1);
      if sentence.Some? {
        assert after.sentences[|before.sentences|] == sentence.value;
        BarrenAbsorb(before.sky, Decode(sentence.value));
      }
    }
  }

  lemma {:induction false} BarrenReads(line: Assembler, sky: Sky, chunks: seq<seq<byte>>)
    requires Satellites.Valid(sky) && NoCount(sky) && AllBarren(ReceiveAll(line, sky, chunks).sentences)
    ensures NoCount(ReceiveAll(line, sky, chunks).sky) && ReceiveAll(line, sky, chunks).reports == []
  {
    hide Run, Decode, Barren, WellFormed;
    if chunks != [] {
      var init, last := chunks[..|chunks| - 1], chunks[|chunks| - 1];
      var before, after := ReceiveAll(line, sky, init), ReceiveAll(line, sky, chunks);
      var r := Run(before.line, before.sky, last, |last|);
      assert after.sentences == before.sentences + r.sentences;
      assert forall i :: 0 <= i < |before.sentences| ==> before.sentences[i] == after.sentences[i];
      assert forall i :: 0 <= i < |r.sentences| ==> r.sentences[i] == after.sentences[|before.sentences| + i];
      BarrenReads(line, sky, init);
      BarrenRun(before.line, before.sky, last, |last|);
    }
  }

  // ----- an epoch of which a read ends behind a closed group -----

  lemma DecodeSlice(lines: seq<seq<byte>>, a: nat, b: nat)
    requires a <= b <= |lines| && forall i :: 0 <= i < |lines| ==> Short(lines[i])
    ensures |ShortLines(lines)| == |lines|
    ensures DecodeAll(ShortLines(lines[a..b])) == DecodeAll(ShortLines(lines))[a..b]
  {
    hide Decode, ShortLines;
    AllShort(lines);
    AllShort(lines[a..b]);
  }

  /** The lines of an epoch in front of a place, and those behind it. */
  lemma LinesInTwo(lines: seq<seq<byte>>, items: seq<Item>, i: nat, k: nat)
    requires EpochBytes(lines, items) && Place(items, i, k)
    ensures var p := |FrontPart(items, i, k)|;
            && p <= |lines|
            && DecodeAll(ShortLines(lines[..p])) == FrontPart(items, i, k)
            && DecodeAll(ShortLines(lines[p..])) == RestPart(items, i, k)
  {
    hide DecodeAll, FrontPart, RestPart, Sentences, ShortLines;
    FrontAndRest(items, i, k);
    var front, rest, n := FrontPart(items, i, k), RestPart(items, i, k), |lines|;
    DecodeSlice(lines, 0, n);
    DecodeSlice(lines, 0, |front|);
    DecodeSlice(lines, |front|, n);
    assert lines[0..|front|] == lines[..|front|] && lines[|front|..n] == lines[|front|..];
    assert (front + rest)[0..|front|] == front && (front + rest)[|front|..n] == rest;
  }

  /** The bytes end at a place of the epoch, behind a sentence that reports if the groups closed have satellites. */
  ghost predicate EndsAt(bytes: seq<byte>, lines: seq<seq<byte>>, items: seq<Item>, i: nat, k: nat)
    requires Place(items, i, k)
  {
    && |FrontPart(items, i, k)| <= |lines| && bytes == Unsplit(lines[..|FrontPart(items, i, k)|])
    && Expected(items[..i], NoneUsed()) != [] && (k == 0 ==> items[i - 1] != OtherItem(true))
  }

  /** The first read of an epoch to report: exactly the groups closed so far. */
  lemma FirstReport(sky: Sky, front: seq<seq<byte>>, lines: seq<seq<byte>>, items: seq<Item>, i: nat, k: nat)
    requires Clean(sky) && sky.list != [] && EpochBytes(lines, items) && Place(items, i, k)
    requires front != [] && QuietCuts(EMPTY, sky, front) && EndsAt(Flatten(front), lines, items, i, k)
    ensures var r := ReceiveAll(EMPTY, sky, front);
            && r.line == EMPTY && Clean(r.sky) && |r.sky.list| == |sky.list|
            && |r.reports| == 1 && Holding(r.reports[0], Expected(items[..i], NoneUsed()), |sky.list|)
  {
    hide QuietCuts, Run, Unsplit, Decode, Expected, FrontPart, ShortLines, ApplyChunk, Holding;
    QuietCutsJoin(EMPTY, sky, front);
    LinesInTwo(lines, items, i, k);
    FrontReport(sky, items, i, k);
    var before := lines[..|FrontPart(items, i, k)|];
    assert forall j :: 0 <= j < |before| ==> before[j] == lines[j];
    NoLinesNoSentences(before);
    ChunkEffect(sky, before);
  }

  /** The reads behind it report nothing exactly when no satellite is announced there. */
  lemma RestIsSilentIff(sky: Sky, rest: seq<seq<byte>>, lines: seq<seq<byte>>, items: seq<Item>, i: nat, k: nat)
    requires Clean(sky) && sky.list != [] && EpochBytes(lines, items) && Place(items, i, k)
    requires |FrontPart(items, i, k)| <= |lines| && Flatten(rest) == Unsplit(lines[|FrontPart(items, i, k)|..])
    ensures ReceiveAll(EMPTY, sky, rest).reports == [] <==> Behind(items, i, k) == []
  {
    hide Run, Unsplit, Decode, Behind, FrontPart, RestPart, ShortLines, ApplyChunk, Assemble, Barren, ReceiveAll;
    var behind := lines[|FrontPart(items, i, k)|..];
    assert forall j :: 0 <= j < |behind| ==> behind[j] == lines[|FrontPart(items, i, k)| + j];
    LinesInTwo(lines, items, i, k);
    if Behind(items, i, k) == [] {
      RestIsBarren(items, i, k);
      LinesComeOut(behind);
      ReadsAssemble(EMPTY, sky, rest);
      var out := ReceiveAll(EMPTY, sky, rest).sentences;
      assert forall j :: 0 <= j < |out| ==> Decode(out[j]) == RestPart(items, i, k)[j];
      BarrenReads(EMPTY, sky, rest);
    } else if ReceiveAll(EMPTY, sky, rest).reports == [] {
      RestReport(sky, items, i, k);
      NoLinesNoSentences(behind);
      UnsplitEnds(behind);
      assert rest != [] by { assert Flatten([]) == []; }
      SilentReadsJoin(EMPTY, sky, rest);
      ChunkEffect(sky, behind);
      assert false;
    }
  }

  /** The reports are the one report of the whole epoch. */
  ghost predicate OneWholeReport(reports: seq<Report>, items: seq<Item>, capacity: nat) {
    |reports| == 1 && IsReport(reports[0], items, capacity)
  }

  lemma WholeIff(first: Report, items: seq<Item>, i: nat, k: nat, capacity: nat)
    requires Place(items, i, k) && Behind(items, i, k) == []
    requires Holding(first, Expected(items[..i], NoneUsed()), capacity)
    ensures IsReport(first, items, capacity)
       <==> Caught(items, i, k) == [] || |Expected(items[..i], NoneUsed())| >= capacity
  {
    hide Expected, Caught, Behind;
    FirstReportIsAllIff(items, i, k, capacity);
  }

  /**
   What becomes of an epoch whose first reporting read ends at a place of it, however the rest is
   read. That read reports the groups closed by then. Anything announced behind the place is
   reported apart, exactly that if no read in between reports; what an open group was caught with is
   not reported at all. So the epoch gives its one whole report if and only if nothing is announced
   behind the place, and nothing was caught or the list was full already.
   */
  lemma EpochFromReadsIff(sky: Sky, front: seq<seq<byte>>, rest: seq<seq<byte>>, lines: seq<seq<byte>>,
                          items: seq<Item>, i: nat, k: nat)
    requires Clean(sky) && sky.list != [] && EpochBytes(lines, items) && Place(items, i, k)
    requires Flatten(front + rest) == Unsplit(lines)
    requires front != [] && QuietCuts(EMPTY, sky, front) && EndsAt(Flatten(front), lines, items, i, k)
    ensures var mid := ReceiveAll(EMPTY, sky, front).sky;
            var reports := ReceiveAll(EMPTY, sky, front + rest).reports;
            && reports != [] && Holding(reports[0], Expected(items[..i], NoneUsed()), |sky.list|)
            && (|reports| == 1 <==> Behind(items, i, k) == [])
            && (rest != [] && QuietCuts(EMPTY, mid, rest) && Behind(items, i, k) != [] ==>
                  |reports| == 2 && Holding(reports[1], Behind(items, i, k), |sky.list|))
            && (OneWholeReport(reports, items, |sky.list|) <==>
                  && Behind(items, i, k) == []
                  && (Caught(items, i, k) == [] || |Expected(items[..i], NoneUsed())| >= |sky.list|))
  {
    hide QuietCuts, Run, Unsplit, Expected, Behind, Caught, FrontPart, Holding, IsReport, ReceiveAll;
    FirstReport(sky, front, lines, items, i, k);
    ReceiveAppend(EMPTY, sky, front, rest);
    var r := ReceiveAll(EMPTY, sky, front);
    RestBytes(front, rest, lines, |FrontPart(items, i, k)|);
    RestIsSilentIff(r.sky, rest, lines, items, i, k);
    if rest != [] && QuietCuts(EMPTY, r.sky, rest) { RestReports(r.sky, rest, lines, items, i, k); }
    if Behind(items, i, k) == [] { WholeIff(r.reports[0], items, i, k, |sky.list|); }
  }

  lemma RestBytes(front: seq<seq<byte>>, rest: seq<seq<byte>>, lines: seq<seq<byte>>, p: nat)
    requires Flatten(front + rest) == Unsplit(lines) && p <= |lines| && Flatten(front) == Unsplit(lines[..p])
    ensures Flatten(rest) == Unsplit(lines[p..])
  {
    hide Flatten, Unsplit;
    FlattenAppend(front, rest);
    assert lines == lines[..p] + lines[p..];
    UnsplitAppend(lines[..p], lines[p..]);
    var all, n := Unsplit(lines), |Flatten(front)|;
    assert all[n..] == Flatten(rest) && all[n..] == Unsplit(lines[p..]);
  }

  lemma RestReports(sky: Sky, rest: seq<seq<byte>>, lines: seq<seq<byte>>, items: seq<Item>, i: nat, k: nat)
    requires Clean(sky) && sky.list != [] && EpochBytes(lines, items) && Place(items, i, k)
    requires |FrontPart(items, i, k)| <= |lines| && Flatten(rest) == Unsplit(lines[|FrontPart(items, i, k)|..])
    requires rest != [] && QuietCuts(EMPTY, sky, rest)
    ensures Behind(items, i, k) != [] ==>
              var reports := ReceiveAll(EMPTY, sky, rest).reports;
              |reports| == 1 && Holding(reports[0], Behind(items, i, k), |sky.list|)
  {
    hide Run, Unsplit, Decode, Behind, FrontPart, RestPart, ShortLines, ApplyChunk, ReceiveAll, Holding, QuietCuts;
    if Behind(items, i, k) != [] {
      var behind := lines[|FrontPart(items, i, k)|..];
      assert forall j :: 0 <= j < |behind| ==> behind[j] == lines[|FrontPart(items, i, k)| + j];
      LinesInTwo(lines, items, i, k);
      RestReport(sky, items, i, k);
      NoLinesNoSentences(behind);
      QuietCutsJoin(EMPTY, sky, rest);
      ChunkEffect(sky, behind);
    }
  }

  // ----- every first report is at a place -----

  lemma {:induction false} SplitGrows(a: seq<byte>, b: seq<byte>)
    ensures SplitLines(a).0 <= SplitLines(a + b).0
  {
    if b == [] {
      assert a + b == a;
    } else {
      var init := b[..|b| - 1];
      SplitGrows(a, init);
      assert a + b == a + init + [b[|b| - 1]];
      SplitStep(a + init, b[|b| - 1]);
    }
  }

  /** Bytes that begin complete lines and end with a newline are the first of these lines. */
  lemma PrefixIsLines(bytes: seq<byte>, lines: seq<seq<byte>>)
    requires forall i :: 0 <= i < |lines| ==> LF !in lines[i]
    requires bytes <= Unsplit(lines) && bytes != [] && bytes[|bytes| - 1] == LF
    ensures var p := |SplitLines(bytes).0|;
            p <= |lines| && bytes == Unsplit(lines[..p])
  {
    hide SplitLines, Unsplit;
    var all := Unsplit(lines);
    assert all == bytes + all[|bytes|..];
    SplitGrows(bytes, all[|bytes|..]);
    UnsplitInverse(lines);
    SplitLinesInverse(bytes);
    var mine := SplitLines(bytes).0;
    assert mine == lines[..|mine|];
    NoPartial(bytes);
    assert Unsplit(mine) + [] == Unsplit(mine);
  }

  lemma NoPartial(bytes: seq<byte>)
    requires bytes != [] && bytes[|bytes| - 1] == LF
    ensures SplitLines(bytes).1 == []
  {
  }

  lemma {:induction false} PlaceOf(items: seq<Item>, p: nat)
    requires 0 < p <= |Sentences(items)| && forall j :: 0 <= j < |items| ==> ProperItem(items[j])
    ensures exists i: nat, k: nat :: Place(items, i, k) && |FrontPart(items, i, k)| == p
  {
    var n := |items| - 1;
    var init, last := items[..n], items[n];
    if p <= |Sentences(init)| {
      PlaceOf(init, p);
      var i: nat, k: nat :| Place(init, i, k) && |FrontPart(init, i, k)| == p;
      assert items[..i] == init[..i];
      assert Place(items, i, k) && FrontPart(items, i, k) == FrontPart(init, i, k);
    } else if p == |Sentences(items)| {
      assert items[..|items|] == items;
      assert Place(items, |items|, 0) && |FrontPart(items, |items|, 0)| == p;
    } else {
      var k := p - |Sentences(init)|;
      assert Place(items, n, k) && |FrontPart(items, n, k)| == p;
    }
  }

  /** Wherever the reads are cut, the first that reports ends at a place of the epoch. */
  lemma FirstReportHasPlace(sky: Sky, front: seq<seq<byte>>, lines: seq<seq<byte>>, items: seq<Item>)
    requires Clean(sky) && sky.list != [] && EpochBytes(lines, items)
    requires front != [] && QuietCuts(EMPTY, sky, front) && Flatten(front) <= Unsplit(lines)
    requires ReceiveAll(EMPTY, sky, front).reports != []
    ensures exists i: nat, k: nat :: Place(items, i, k) && EndsAt(Flatten(front), lines, items, i, k)
  {
    hide QuietCuts, Run, Unsplit, Decode, Expected, FrontPart, ShortLines, Sentences, Flatten, ReceiveAll, SplitLines;
    hide EndsAfterGroup;
    var bytes := Flatten(front);
    QuietCutsJoin(EMPTY, sky, front);
    ReadReportsIff(EMPTY, sky, bytes);
    GroupEndsLine(EMPTY, sky, bytes);
    PrefixIsLines(bytes, lines);
    var p := |SplitLines(bytes).0|;
    NoLinesNoBytes(lines[..p]);
    AllShort(lines);
    PlaceOf(items, p);
    var i: nat, k: nat :| Place(items, i, k) && |FrontPart(items, i, k)| == p;
    ReportAtPlace(sky, lines, items, i, k);
    assert EndsAt(bytes, lines, items, i, k);
  }

  lemma NoLinesNoBytes(lines: seq<seq<byte>>)
    ensures Unsplit(lines) != [] ==> lines != []
  {
  }

  lemma GroupEndsLine(line: Assembler, sky: Sky, chunk: seq<byte>)
    requires Satellites.Valid(sky) && EndsAfterGroup(line, sky, chunk)
    ensures chunk != [] && chunk[|chunk| - 1] == LF
  {
    hide Run, Decode, Absorb;
  }

  /** A chunk that ends at a place reports only behind a closed group and a sentence that is looked at. */
  lemma ReportAtPlace(sky: Sky, lines: seq<seq<byte>>, items: seq<Item>, i: nat, k: nat)
    requires Clean(sky) && sky.list != [] && EpochBytes(lines, items) && Place(items, i, k)
    requires FrontPart(items, i, k) != [] && |FrontPart(items, i, k)| <= |lines|
    requires var bytes := Unsplit(lines[..|FrontPart(items, i, k)|]);
             Run(EMPTY, sky, bytes, |bytes|).reports != []
    ensures Expected(items[..i], NoneUsed()) != [] && (k == 0 ==> items[i - 1] != OtherItem(true))
  {
    hide Run, Unsplit, Decode, Expected, FrontPart, ShortLines, ApplyChunk;
    LinesInTwo(lines, items, i, k);
    var before := lines[..|FrontPart(items, i, k)|];
    assert forall j :: 0 <= j < |before| ==> before[j] == lines[j];
    NoLinesNoSentences(before);
    ChunkEffect(sky, before);
    FrontContent(sky, items, i, k);
    FrontReportsOnlyIf(sky, items, i, k);
  }
}
