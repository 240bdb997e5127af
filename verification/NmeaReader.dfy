/**
 The NMEA reader as the HAL runs it: bytes in, sentences and satellite reports out.

 The fields `sentences` and `reports` record what the nmea and the satellite-status callbacks
 were given, in order.
 */
module NmeaReader {
  import opened Bytes
  import opened Tokenizer
  import opened NmeaLines
  import opened Satellites
  import opened Epochs

  class Reader {
    // in[] and its bookkeeping
    const buffer: array<byte>
    var pos: nat
    var overflow: bool
    // satellites
    var svCount: nat
    var numSvs: nat
    const svList: array<Sv>
    const used: array<bool>
    var fixMode: int
    // what the callbacks received
    var sentences: seq<seq<byte>>
    var reports: seq<Report>

    ghost predicate Valid()
      reads this
    {
      && buffer.Length == NMEA_MAX_SIZE + 1 && used.Length == USED_SIZE
      && pos <= NMEA_MAX_SIZE
    }

    ghost function Line(): Assembler
      requires Valid()
      reads this, buffer
    {
      Assembler(overflow, buffer[..pos])
    }

    ghost function View(): (sky: Sky)
      requires Valid()
      reads this, svList, used
      ensures Satellites.Valid(sky)
    {
      Sky(svCount, numSvs, svList[..], used[..], fixMode)
    }

    constructor (capacity: nat)
      ensures Valid() && fresh(buffer) && fresh(svList) && fresh(used)
      ensures Line() == EMPTY && Clean(View()) && svList.Length == capacity
      ensures sentences == [] && reports == []
    {
      buffer := new byte[NMEA_MAX_SIZE + 1];
      svList := new Sv[capacity](i => Sv(0, [], 0, 0, false));
      used := new bool[USED_SIZE](i => false);
      pos, overflow, svCount, numSvs, fixMode := 0, false, 0, 0, 0;
      sentences, reports := [], [];
    }

    /** nmea_reader_update_sv_status_gnss: every index written lies inside the list. */
    method UpdateSvStatus(f: SatField, beidou: bool)
      requires Valid()
      modifies this`svCount, svList
      ensures View() == AddSat(old(View()), f, beidou)
    {
      var prn := Prn(f.id, beidou);
      if prn <= 0 || (prn < 65 && prn > GPS_MAX_SVS) || (prn > 96 && prn < 200) || prn > 232
         || svCount >= svList.Length {
        return;
      }
      var svIndex := svCount + numSvs;
      if svList.Length <= svIndex {
        return;
      }
      svList[svIndex] := Sv(prn, f.snr, f.elevation, f.azimuth, used[prn]);
      svCount := svCount + 1;
    }

    /** The GSA branch: marks the satellites in fields 3 to 14 until an empty or unknown one. */
    method ParseGsa(line: seq<byte>, tzer: NmeaTokenizer, beidou: bool)
      requires Valid() && tzer.Holds(line)
      modifies this`fixMode, used
      ensures View() == Absorb(old(View()),
                               Gsa(beidou, StrToInt(Field(line, 2)), GsaIds(line)))
    {
      hide Field, StrToInt, tzer.Holds, I32;
      ghost var ids := GsaIds(line);
      fixMode := Str2Int(tzer.Get(line, 2));
      if fixMode == 2 || fixMode == 3 {
        var idx, going := 0, true;
        while idx < 12 && going
          invariant idx <= 12 && fixMode == StrToInt(Field(line, 2))
          invariant MarkUsed(old(used[..]), ids, beidou)
                 == if going then MarkUsed(used[..], ids[idx..], beidou) else used[..]
        {
          var satellite := tzer.Get(line, idx + 3);
          assert ids[idx..][0] == GsaId(line, idx) && ids[idx..][1..] == ids[idx + 1..];
          if satellite == [] {
            going := false;
          } else {
            var id := Str2Int(satellite);
            var prn := Prn(id, beidou);
            if 1 <= prn <= 32 {
              used[prn] := true;
            } else if 193 <= prn <= 197 {
              used[prn] := false;
            } else if 65 <= prn <= 96 {
              used[prn] := true;
            } else if 201 <= prn <= 232 {
              used[prn] := true;
            } else {
              going := false;
            }
          }
          idx := idx + 1;
        }
      }
    }

    /** The loop over a GSV sentence's satellites; a negative count reads none. */
    method ReadSatellites(line: seq<byte>, tzer: NmeaTokenizer, beidou: bool, svNum: int)
      requires Valid() && tzer.Holds(line) && svNum <= NMEA_MAX_SV_INFO
      modifies this`svCount, svList
      ensures View() == AddSats(old(View()),
                                GsvSats(line)[..if svNum > 0 then svNum else 0], beidou)
    {
      hide Field, StrToInt, AddSat, AddSats, tzer.Holds, GsvSats;
      ghost var sats := GsvSats(line);
      assert View() == AddSats(View(), sats[..0], beidou) by { AddNone(View(), sats, beidou); }
      var idx := 0;
      while idx < svNum
        invariant 0 <= idx <= NMEA_MAX_SV_INFO && (idx <= svNum || idx == 0)
        invariant View() == AddSats(old(View()), sats[..idx], beidou)
      {
        var base := 4 * (idx + 1);
        var id := Str2Int(tzer.Get(line, base));
        var elevation := Str2Int(tzer.Get(line, base + 1));
        var azimuth := Str2Int(tzer.Get(line, base + 2));
        UpdateSvStatus(SatField(id, elevation, azimuth, tzer.Get(line, base + 3)), beidou);
        AddSatsStep(old(View()), sats, idx, beidou);
        idx := idx + 1;
      }
    }

    /** The GSV branch. */
    method ParseGsv(line: seq<byte>, tzer: NmeaTokenizer, beidou: bool)
      requires Valid() && tzer.Holds(line)
      modifies this`svCount, this`numSvs, svList
      ensures View() == Absorb(old(View()),
                               Gsv(beidou, StrToInt(Field(line, 1)), StrToInt(Field(line, 2)), StrToInt(Field(line, 3)),
                                   GsvSats(line)))
    {
      hide Field, StrToInt, AddSats, tzer.Holds, GsvSats, I32;
      var num := Str2Int(tzer.Get(line, 1));
      var index := Str2Int(tzer.Get(line, 2));
      var cnt := Str2Int(tzer.Get(line, 3));
      var svBase := I32(I32(index - 1) * NMEA_MAX_SV_INFO);
      var svNum := I32(cnt - svBase);
      if svNum > NMEA_MAX_SV_INFO {
        svNum := NMEA_MAX_SV_INFO;
      }
      if index == 1 {
        svCount := 0;
      }
      ReadSatellites(line, tzer, beidou, svNum);
      if index == num {
        if svCount <= cnt {
          numSvs := numSvs + svCount;
        } else {
          svCount := 0;
          numSvs := 0;
        }
      }
    }

    /** The branches of nmea_reader_parse that concern satellites; false for its two early returns. */
    method ParseSentence(line: seq<byte>) returns (parsed: bool)
      requires Valid()
      modifies this`svCount, this`numSvs, this`fixMode, svList, used
      ensures parsed <==> !Decode(line).Ignored?
      ensures View() == Absorb(old(View()), Decode(line))
    {
      if |line| < 9 {
        return false;
      }
      var tzer := new NmeaTokenizer();
      tzer.Init(line);
      var tok := tzer.Get(line, 0);
      if |tok| < 5 {
        return false;
      }
      parsed := true;
      hide Field, StrToInt, Absorb, GsaId, GsvSat;
      SplitIdentifier(tok);
      var beidou := tok[..2] == BD;
      var kind := tok[2..5];
      if kind == GGA {
        assert Decode(line) == Other;
        AbsorbOther(View());
      } else if tok[..5] == GP + GSA || tok[..5] == BD + GSA || tok[..5] == GL + GSA {
        ParseGsa(line, tzer, beidou);
      } else if kind == RMC {
        assert Decode(line) == Other;
        AbsorbOther(View());
      } else if kind == GSV {
        ParseGsv(line, tzer, beidou);
      } else {
        assert Decode(line) == Other;
        AbsorbOther(View());
      }
    }

    /** nmea_reader_parse: a sentence and, at the end of a chunk, the report. */
    method Parse(line: seq<byte>, endTag: bool)
      requires Valid()
      modifies this`svCount, this`numSvs, this`fixMode, this`reports, svList, used
      ensures var (sky, report) := Apply(old(View()), Decode(line), endTag);
              && View() == sky
              && reports == old(reports) + (if report.Some? then [report.value] else [])
    {
      hide Decode, Absorb;
      var parsed := ParseSentence(line);
      if !parsed {
        AbsorbOther(old(View()));
        return;
      }
      if numSvs != 0 && endTag {
        reports := reports + [Report(numSvs, svList[..])];
        svCount := 0;
        numSvs := 0;
        ClearUsed();
      }
    }

    method ClearUsed()
      requires Valid()
      modifies used
      ensures used[..] == NoneUsed()
    {
      var i := 0;
      while i < USED_SIZE
        invariant 0 <= i <= USED_SIZE
        invariant forall k :: 0 <= k < i ==> !used[k]
      {
        used[i] := false;
        i := i + 1;
      }
    }

    /** nmea_reader_addc. */
    method Addc(c: byte, endTag: bool)
      requires Valid()
      modifies this, buffer, svList, used
      ensures Valid()
      ensures var (line, sentence) := AddByte(old(Line()), c);
              && Line() == line
              && sentences == old(sentences) + (if sentence.Some? then [sentence.value] else [])
              && var (sky, report) := if sentence.Some? then Apply(old(View()), Decode(sentence.value), endTag)
                                      else (old(View()), None);
              && View() == sky
              && reports == old(reports) + (if report.Some? then [report.value] else [])
    {
      hide Apply, Decode;
      if overflow {
        overflow := c != LF;
        return;
      }
      if pos >= buffer.Length - 1 || pos < 0 {
        overflow := true;
        pos := 0;
        return;
      }
      buffer[pos] := c;
      pos := pos + 1;
      if c == LF {
        var line := buffer[..pos];
        assert line == old(buffer[..pos]) + [c];
        Parse(line, endTag);
        sentences := sentences + [line];
        pos := 0;
      }
    }

    /** One read from the gps channel: the end tag goes with the last byte. */
    method Receive(chunk: seq<byte>)
      requires Valid()
      modifies this, buffer, svList, used
      ensures Valid()
      ensures var r := Run(old(Line()), old(View()), chunk, |chunk|);
              && Line() == r.line && View() == r.sky
              && sentences == old(sentences) + r.sentences
              && reports == old(reports) + r.reports
    {
      hide Decode;
      var nn := 0;
      while nn < |chunk|
        invariant Valid() && 0 <= nn <= |chunk|
        invariant var r := Run(old(Line()), old(View()), chunk, nn);
                  && Line() == r.line && View() == r.sky
                  && sentences == old(sentences) + r.sentences
                  && reports == old(reports) + r.reports
      {
        Addc(chunk[nn], nn == |chunk| - 1);
        nn := nn + 1;
      }
    }
  }

  lemma AddNone(sky: Sky, fs: seq<SatField>, beidou: bool)
    requires Satellites.Valid(sky)
    ensures AddSats(sky, fs[..0], beidou) == sky
  {
  }

  lemma AbsorbOther(sky: Sky)
    requires Satellites.Valid(sky)
    ensures Absorb(sky, Other) == sky && Absorb(sky, Ignored) == sky
  {
  }

  lemma SplitIdentifier(tok: seq<byte>)
    requires |tok| >= 5
    ensures tok[..5] == tok[..2] + tok[2..5]
    ensures (tok[..5] == GP + GSA || tok[..5] == BD + GSA || tok[..5] == GL + GSA)
       <==> tok[2..5] == GSA && tok[..2] in {GP, BD, GL}
  {
  }

  // ----- chunks -----

  datatype Result = Result(line: Assembler, sky: Sky, sentences: seq<seq<byte>>, reports: seq<Report>)

  lemma DecodeWellFormed(line: seq<byte>)
    ensures WellFormed(Decode(line))
  {
  }

  /** The first n bytes of a chunk, byte by byte. */
  ghost function Run(line: Assembler, sky: Sky, chunk: seq<byte>, n: nat): (r: Result)
    requires n <= |chunk| && Satellites.Valid(sky)
    ensures Satellites.Valid(r.sky) && |r.sky.list| == |sky.list|
  {
    if n == 0 then Result(line, sky, [], [])
    else
      var r := Run(line, sky, chunk, n - 1);
      var (next, sentence) := AddByte(r.line, chunk[n - 1]);
      if sentence.None? then r.(line := next)
      else
        var (sky', report) := Apply(r.sky, Decode(sentence.value), n == |chunk|);
        Result(next, sky', r.sentences + [sentence.value],
               r.reports + (if report.Some? then [report.value] else []))
  }

  function DecodeAll(lines: seq<seq<byte>>): (ss: seq<Sentence>)
    ensures |ss| == |lines|
    ensures forall i :: 0 <= i < |ss| ==> ss[i] == Decode(lines[i])
  {
    seq(|lines|, i requires 0 <= i < |lines| => Decode(lines[i]))
  }

  lemma DecodeAllStep(sky: Sky, lines: seq<seq<byte>>, line: seq<byte>)
    requires Satellites.Valid(sky)
    ensures WellFormed(Decode(line))
    ensures AbsorbAll(sky, DecodeAll(lines + [line])) == Absorb(AbsorbAll(sky, DecodeAll(lines)), Decode(line))
  {
    DecodeWellFormed(line);
    var ss := DecodeAll(lines + [line]);
    assert ss[..|ss| - 1] == DecodeAll(lines);
  }

  lemma {:induction false} RunAssembles(line: Assembler, sky: Sky, chunk: seq<byte>, n: nat)
    requires Satellites.Valid(sky) && n <= |chunk|
    ensures (Run(line, sky, chunk, n).line, Run(line, sky, chunk, n).sentences) == Assemble(line, chunk[..n])
  {
    hide Decode, Apply, AddByte;
    if n == 0 {
      assert chunk[..0] == [];
    } else {
      RunAssembles(line, sky, chunk, n - 1);
      var bytes := chunk[..n];
      assert bytes[..|bytes| - 1] == chunk[..n - 1] && bytes[|bytes| - 1] == chunk[n - 1];
      var r := Run(line, sky, chunk, n - 1);
      var (next, sentence) := AddByte(r.line, chunk[n - 1]);
      assert Run(line, sky, chunk, n).line == next;
    }
  }

  /** Before its last byte a chunk assembles sentences and absorbs each as it completes, reporting nothing. */
  lemma RunAbsorbs(line: Assembler, sky: Sky, chunk: seq<byte>, n: nat)
    requires n < |chunk| && Satellites.Valid(sky)
    ensures var r := Run(line, sky, chunk, n);
            && (r.line, r.sentences) == Assemble(line, chunk[..n])
            && r.reports == []
            && r.sky == AbsorbAll(sky, DecodeAll(r.sentences))
  {
    hide Run;
    RunAssembles(line, sky, chunk, n);
    RunKeepsAbsorbing(line, sky, chunk, n);
  }

  lemma {:induction false} RunKeepsAbsorbing(line: Assembler, sky: Sky, chunk: seq<byte>, n: nat)
    requires n < |chunk| && Satellites.Valid(sky)
    ensures var r := Run(line, sky, chunk, n);
            r.reports == [] && r.sky == AbsorbAll(sky, DecodeAll(r.sentences))
  {
    hide Decode, Absorb, AddByte, Apply;
    if n > 0 {
      RunKeepsAbsorbing(line, sky, chunk, n - 1);
      var before := Run(line, sky, chunk, n - 1);
      var (_, sentence) := AddByte(before.line, chunk[n - 1]);
      if sentence.Some? {
        hide AbsorbAll, DecodeAll;
        DecodeAllStep(sky, before.sentences, sentence.value);
        ApplyInside(before.sky, Decode(sentence.value));
      }
    }
  }

  /**
   From bytes to report: a chunk of complete short lines, received by a reader between lines,
   hands over exactly those lines and has the effect of their decoded sentences, the last one
   with the end tag.
   */
  lemma ChunkEffect(sky: Sky, lines: seq<seq<byte>>)
    requires Satellites.Valid(sky) && lines != []
    requires forall i :: 0 <= i < |lines| ==> LF !in lines[i] && Short(lines[i])
    ensures var chunk := Unsplit(lines);
            var r := Run(EMPTY, sky, chunk, |chunk|);
            var (after, report) := ApplyChunk(sky, DecodeAll(ShortLines(lines)));
            && r.line == EMPTY
            && r.sentences == ShortLines(lines)
            && r.sky == after
            && r.reports == if report.Some? then [report.value] else []
  {
    hide Decode, Absorb, Apply, AddByte, SplitLines, AbsorbAll, ShortLines, Assemble, Unsplit, Run, KeptLines;
    var chunk := Unsplit(lines);
    var n := |chunk| - 1;
    UnsplitEnds(lines);
    UnsplitInverse(lines);
    AllShort(lines);
    AssembleKeepsLines(chunk);
    AssembleLastByte(chunk);
    RunAbsorbs(EMPTY, sky, chunk, n);
    RunLastByte(EMPTY, sky, chunk);
    var ss := DecodeAll(ShortLines(lines));
    assert ss[..|ss| - 1] == DecodeAll(Run(EMPTY, sky, chunk, n).sentences);
  }

  lemma UnsplitEnds(lines: seq<seq<byte>>)
    requires lines != []
    ensures Unsplit(lines) != [] && Unsplit(lines)[|Unsplit(lines)| - 1] == LF
  {
  }

  lemma RunLastByte(line: Assembler, sky: Sky, chunk: seq<byte>)
    requires Satellites.Valid(sky) && chunk != []
    requires AddByte(Run(line, sky, chunk, |chunk| - 1).line, chunk[|chunk| - 1]).1.Some?
    ensures var r := Run(line, sky, chunk, |chunk| - 1);
            var (next, last) := AddByte(r.line, chunk[|chunk| - 1]);
            var (after, report) := Apply(r.sky, Decode(last.value), true);
            Run(line, sky, chunk, |chunk|)
              == Result(next, after, r.sentences + [last.value],
                        r.reports + (if report.Some? then [report.value] else []))
  {
  }

  /** The final newline of complete short lines hands over the last of them. */
  lemma AssembleLastByte(chunk: seq<byte>)
    requires chunk != [] && chunk[|chunk| - 1] == LF
    requires forall i :: 0 <= i < |SplitLines(chunk).0| ==> Short(SplitLines(chunk).0[i])
    ensures var (before, sentences) := Assemble(EMPTY, chunk[..|chunk| - 1]);
            var (after, last) := AddByte(before, LF);
            && after == EMPTY && last.Some?
            && Assemble(EMPTY, chunk) == (EMPTY, sentences + [last.value])
  {
    SplitLinesEnd(chunk);
  }

  lemma {:induction false} AllShort(lines: seq<seq<byte>>)
    requires forall i :: 0 <= i < |lines| ==> Short(lines[i])
    ensures KeptLines(lines) == ShortLines(lines) && FullRun(lines) == 0
    ensures |ShortLines(lines)| == |lines|
    ensures forall i :: 0 <= i < |lines| ==> ShortLines(lines)[i] == lines[i] + [LF]
  {
    if lines != [] { AllShort(lines[..|lines| - 1]); }
  }

  /** Before the final newline of complete short lines the buffer holds the last of them. */
  lemma SplitLinesEnd(chunk: seq<byte>)
    requires chunk != [] && chunk[|chunk| - 1] == LF
    requires forall i :: 0 <= i < |SplitLines(chunk).0| ==> Short(SplitLines(chunk).0[i])
    ensures AddByte(Assemble(EMPTY, chunk[..|chunk| - 1]).0, LF).1.Some?
  {
    var before := chunk[..|chunk| - 1];
    AssembleKeepsLines(before);
    var (lines, partial) := SplitLines(before);
    assert SplitLines(chunk).0 == lines + [partial];
    assert forall i :: 0 <= i < |lines| ==> lines[i] == SplitLines(chunk).0[i];
    assert partial == SplitLines(chunk).0[|lines|];
    AllShort(lines);
  }

  /** Lines and the epoch they decode to. */
  ghost predicate EpochBytes(lines: seq<seq<byte>>, items: seq<Item>) {
    && ProperEpoch(items)
    && (forall i :: 0 <= i < |lines| ==> LF !in lines[i] && Short(lines[i]))
    && DecodeAll(ShortLines(lines)) == Sentences(items)
  }

  /** The report lists the epoch's accepted satellites, all that a list of this capacity takes. */
  ghost predicate IsReport(report: Report, items: seq<Item>, capacity: nat) {
    Holding(report, Expected(items, NoneUsed()), capacity)
  }

  /**
   From the bytes of an epoch to its report. Whatever bytes the lines hold, if they decode to the
   sentences of an epoch with any satellites, the reader hands out one report, exactly the epoch's
   accepted satellites, and is left without satellites for the next chunk.
   */
  lemma EpochFromBytes(sky: Sky, lines: seq<seq<byte>>, items: seq<Item>)
    requires Clean(sky) && sky.list != [] && EpochBytes(lines, items) && Expected(items, NoneUsed()) != []
    ensures var r := Run(EMPTY, sky, Unsplit(lines), |Unsplit(lines)|);
            && r.line == EMPTY && Clean(r.sky)
            && |r.reports| == 1 && IsReport(r.reports[0], items, |sky.list|)
  {
    hide Run, Unsplit, Decode, Expected, Sentences, Apply, ShortLines;
    EpochReport(sky, items);
    NoLinesNoSentences(lines);
    ChunkEffect(sky, lines);
  }

  lemma NoLinesNoSentences(lines: seq<seq<byte>>)
    ensures lines == [] ==> DecodeAll(ShortLines(lines)) == []
  {
  }
}
