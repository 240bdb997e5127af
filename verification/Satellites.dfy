/**
 Satellites in view: what GSA and GSV sentences do to the reader, and what a flushed epoch reports.

 The satellite list is a buffer of fixed capacity, |list|. It holds numSvs satellites of closed
 GSV groups and, behind them, svCount satellites of the group being read.
 */
module Satellites {
  import opened Bytes
  import opened Tokenizer

  const GPS_MAX_SVS := 32
  const NMEA_MAX_SV_INFO := 4
  const GSA_IDS := 12
  const USED_SIZE := 256

  // Talker and sentence identifiers, as bytes.
  const GP: seq<byte> := [71, 80]
  const GL: seq<byte> := [71, 76]
  const BD: seq<byte> := [66, 68]
  const GGA: seq<byte> := [71, 71, 65]
  const GSA: seq<byte> := [71, 83, 65]
  const RMC: seq<byte> := [82, 77, 67]
  const GSV: seq<byte> := [71, 83, 86]

  /** One satellite of a report; the signal strength is kept as its text. */
  datatype Sv = Sv(prn: int, snr: seq<byte>, elevation: int, azimuth: int, usedInFix: bool)

  datatype Sky = Sky(svCount: nat, numSvs: nat, list: seq<Sv>, used: seq<bool>, fixMode: int)

  /** The status structure handed to the framework: numSvs entries of `list` are meant. */
  datatype Report = Report(numSvs: nat, list: seq<Sv>)

  datatype SatField = SatField(id: int, elevation: int, azimuth: int, snr: seq<byte>)

  datatype Sentence =
    | Ignored  // too short to be looked at
    | Other
    | Gsa(beidou: bool, fixMode: int, ids: seq<Option<int>>)
    | Gsv(beidou: bool, num: int, index: int, cnt: int, sats: seq<SatField>)

  // ----- what a sentence says -----

  function GsaId(line: seq<byte>, i: nat): Option<int> {
    var text := Field(line, i + 3);
    if text == [] then None else Some(StrToInt(text))
  }

  function GsvSat(line: seq<byte>, i: nat): SatField {
    var base := 4 * (i + 1);
    SatField(StrToInt(Field(line, base)), StrToInt(Field(line, base + 1)),
             StrToInt(Field(line, base + 2)), Field(line, base + 3))
  }

  function GsaIds(line: seq<byte>): (ids: seq<Option<int>>)
    ensures |ids| == GSA_IDS && forall i :: 0 <= i < GSA_IDS ==> ids[i] == GsaId(line, i)
  {
    seq(GSA_IDS, i requires 0 <= i => GsaId(line, i))
  }

  function GsvSats(line: seq<byte>): (sats: seq<SatField>)
    ensures |sats| == NMEA_MAX_SV_INFO && forall i :: 0 <= i < NMEA_MAX_SV_INFO ==> sats[i] == GsvSat(line, i)
  {
    seq(NMEA_MAX_SV_INFO, i requires 0 <= i => GsvSat(line, i))
  }

  function Decode(line: seq<byte>): Sentence {
    var id := Field(line, 0);
    if |line| < 9 || |id| < 5 then Ignored
    else
      var beidou := id[..2] == BD;
      var kind := id[2..5];
      if kind == GSA && id[..2] in {GP, BD, GL} then
        Gsa(beidou, StrToInt(Field(line, 2)), GsaIds(line))
      else if kind == GSV then
        Gsv(beidou, StrToInt(Field(line, 1)), StrToInt(Field(line, 2)), StrToInt(Field(line, 3)), GsvSats(line))
      else Other
  }

  // ----- GSA: the satellites used in the fix -----

  predicate Trackable(prn: int) {
    1 <= prn <= 32 || 65 <= prn <= 96 || 201 <= prn <= 232
  }

  predicate Qzss(prn: int) {
    193 <= prn <= 197
  }

  function Prn(id: int, beidou: bool): int {
    if beidou then I32(id + 200) else id
  }

  function MarkUsed(used: seq<bool>, ids: seq<Option<int>>, beidou: bool): (r: seq<bool>)
    requires |used| == USED_SIZE
    ensures |r| == USED_SIZE
    decreases ids
  {
    if ids == [] || ids[0].None? then used
    else
      var prn := Prn(ids[0].value, beidou);
      if Trackable(prn) then MarkUsed(used[prn := true], ids[1..], beidou)
      else if Qzss(prn) then MarkUsed(used[prn := false], ids[1..], beidou)
      else used
  }

  /** The list names satellite `prn`, and everything before it is a satellite of some kind. */
  ghost predicate Names(ids: seq<Option<int>>, beidou: bool, prn: int) {
    exists k: nat :: NamesAt(ids, beidou, prn, k)
  }

  ghost predicate NamesAt(ids: seq<Option<int>>, beidou: bool, prn: int, k: nat) {
    && k < |ids| && ids[k].Some? && Prn(ids[k].value, beidou) == prn
    && forall j :: 0 <= j < k ==> SomeSatellite(ids[j], beidou)
  }

  predicate SomeSatellite(id: Option<int>, beidou: bool) {
    id.Some? && (Trackable(Prn(id.value, beidou)) || Qzss(Prn(id.value, beidou)))
  }

  /** A GSA sentence adds exactly the satellites it names, and no satellite but QZSS loses its mark. */
  lemma {:induction false} MarkUsedAdds(used: seq<bool>, ids: seq<Option<int>>, beidou: bool, prn: int)
    requires |used| == USED_SIZE
    requires 0 <= prn < USED_SIZE && !Qzss(prn)
    ensures MarkUsed(used, ids, beidou)[prn] <==> used[prn] || (Trackable(prn) && Names(ids, beidou, prn))
    decreases ids
  {
    if ids == [] || !SomeSatellite(ids[0], beidou) {
      if Names(ids, beidou, prn) {
        var k: nat :| NamesAt(ids, beidou, prn, k);
        assert k == 0;
      }
    } else {
      var first := Prn(ids[0].value, beidou);
      var next := used[first := Trackable(first)];
      MarkUsedAdds(next, ids[1..], beidou, prn);
      assert MarkUsed(used, ids, beidou) == MarkUsed(next, ids[1..], beidou);
      if Names(ids, beidou, prn) {
        var k: nat :| NamesAt(ids, beidou, prn, k);
        if k > 0 { assert NamesAt(ids[1..], beidou, prn, k - 1); }
      }
      if Names(ids[1..], beidou, prn) {
        var k: nat :| NamesAt(ids[1..], beidou, prn, k);
        assert NamesAt(ids, beidou, prn, k + 1);
      }
      if first == prn { assert NamesAt(ids, beidou, prn, 0); }
    }
  }

  // ----- GSV: the satellites in view -----

  predicate Accepts(prn: int) {
    !(prn <= 0 || (prn < 65 && prn > GPS_MAX_SVS) || (prn > 96 && prn < 200) || prn > 232)
  }

  ghost predicate Valid(sky: Sky) {
    |sky.used| == USED_SIZE
  }

  function MakeSv(f: SatField, beidou: bool, used: seq<bool>): Sv
    requires |used| == USED_SIZE && Accepts(Prn(f.id, beidou))
  {
    var prn := Prn(f.id, beidou);
    Sv(prn, f.snr, f.elevation, f.azimuth, used[prn])
  }

  function AddSat(sky: Sky, f: SatField, beidou: bool): (r: Sky)
    requires Valid(sky)
    ensures Valid(r) && |r.list| == |sky.list|
  {
    var slot := sky.svCount + sky.numSvs;
    if !Accepts(Prn(f.id, beidou)) || sky.svCount >= |sky.list| || |sky.list| <= slot then sky
    else sky.(list := sky.list[slot := MakeSv(f, beidou, sky.used)], svCount := sky.svCount + 1)
  }

  function AddSats(sky: Sky, fs: seq<SatField>, beidou: bool): (r: Sky)
    requires Valid(sky)
    ensures Valid(r) && |r.list| == |sky.list|
  {
    if fs == [] then sky else AddSat(AddSats(sky, fs[..|fs| - 1], beidou), fs[|fs| - 1], beidou)
  }

  lemma AddSatsStep(sky: Sky, fs: seq<SatField>, n: nat, beidou: bool)
    requires Valid(sky) && n < |fs|
    ensures AddSats(sky, fs[..n + 1], beidou) == AddSat(AddSats(sky, fs[..n], beidou), fs[n], beidou)
  {
    assert fs[..n + 1][..n] == fs[..n];
  }

  /** How many of a message's four slots are read, in C's int arithmetic. */
  function SlotsRead(index: int, cnt: int): (n: nat)
    ensures n <= NMEA_MAX_SV_INFO
  {
    var left := I32(cnt - I32(I32(index - 1) * NMEA_MAX_SV_INFO));
    if left > NMEA_MAX_SV_INFO then NMEA_MAX_SV_INFO else if left > 0 then left else 0
  }

  function CloseGroup(sky: Sky, cnt: int): Sky {
    if sky.svCount <= cnt then sky.(numSvs := sky.numSvs + sky.svCount) else sky.(svCount := 0, numSvs := 0)
  }

  ghost predicate WellFormed(s: Sentence) {
    (s.Gsv? ==> |s.sats| == NMEA_MAX_SV_INFO) && (s.Gsa? ==> |s.ids| == GSA_IDS)
  }

  function Absorb(sky: Sky, s: Sentence): (r: Sky)
    requires Valid(sky) && WellFormed(s)
    ensures Valid(r) && |r.list| == |sky.list|
  {
    match s
    case Gsa(beidou, fixMode, ids) =>
      sky.(fixMode := fixMode,
           used := if fixMode == 2 || fixMode == 3 then MarkUsed(sky.used, ids, beidou) else sky.used)
    case Gsv(beidou, num, index, cnt, sats) =>
      var start := if index == 1 then sky.(svCount := 0) else sky;
      var read := AddSats(start, sats[..SlotsRead(index, cnt)], beidou);
      if index == num then CloseGroup(read, cnt) else read
    case _ => sky
  }

  function NoneUsed(): (r: seq<bool>)
    ensures |r| == USED_SIZE
  {
    seq(USED_SIZE, i => false)
  }

  /** One sentence; at the end of a chunk the satellites, if there are any, are reported and dropped. */
  function Apply(sky: Sky, s: Sentence, endTag: bool): (r: (Sky, Option<Report>))
    requires Valid(sky) && WellFormed(s)
    ensures Valid(r.0) && |r.0.list| == |sky.list|
  {
    var next := Absorb(sky, s);
    if s.Ignored? then (sky, None)
    else if next.numSvs != 0 && endTag then
      (next.(svCount := 0, numSvs := 0, used := NoneUsed()), Some(Report(next.numSvs, next.list)))
    else (next, None)
  }

  lemma ApplyInside(sky: Sky, s: Sentence)
    requires Valid(sky) && WellFormed(s)
    ensures Apply(sky, s, false) == (Absorb(sky, s), None)
  {
  }

  // ----- reports never claim more satellites than the buffer holds, if groups begin at their beginning -----

  /**
   A GSV message must begin a group or come while one is open; messages of a group may be lost,
   repeated or renumbered, and other sentences may come at any time.
   */
  predicate Expects(open: bool, s: Sentence) {
    s.Gsv? ==> s.index == 1 || open
  }

  function OpenAfter(open: bool, s: Sentence): bool {
    if s.Gsv? then s.index != s.num else open
  }

  ghost predicate InGroups(open: bool, ss: seq<Sentence>)
    decreases ss
  {
    ss != [] ==> Expects(open, ss[0]) && InGroups(OpenAfter(open, ss[0]), ss[1..])
  }

  ghost predicate Room(sky: Sky, open: bool) {
    sky.numSvs + (if open then sky.svCount else 0) <= |sky.list|
  }

  /** The reports of a run; `tags` says after which sentences a chunk ends. */
  ghost function Reports(sky: Sky, ss: seq<Sentence>, tags: seq<bool>): seq<Report>
    requires Valid(sky) && |tags| == |ss| && forall i :: 0 <= i < |ss| ==> WellFormed(ss[i])
    decreases ss
  {
    if ss == [] then []
    else
      var (next, report) := Apply(sky, ss[0], tags[0]);
      (if report.Some? then [report.value] else []) + Reports(next, ss[1..], tags[1..])
  }

  lemma {:induction false} AddSatsRoom(sky: Sky, fs: seq<SatField>, beidou: bool)
    requires Valid(sky) && sky.numSvs + sky.svCount <= |sky.list|
    ensures var r := AddSats(sky, fs, beidou);
            r.numSvs == sky.numSvs && r.numSvs + r.svCount <= |r.list|
  {
    if fs != [] { AddSatsRoom(sky, fs[..|fs| - 1], beidou); }
  }

  lemma AbsorbRoom(sky: Sky, open: bool, s: Sentence)
    requires Valid(sky) && WellFormed(s) && Room(sky, open) && Expects(open, s)
    ensures Room(Absorb(sky, s), OpenAfter(open, s))
  {
    if s.Gsv? {
      var start := if s.index == 1 then sky.(svCount := 0) else sky;
      AddSatsRoom(start, s.sats[..SlotsRead(s.index, s.cnt)], s.beidou);
    }
  }

  /**
   Whatever the talkers, satellite counts, lost or aborted messages and chunk boundaries: while no
   GSV message other than a first one comes after a group has closed, every report's count lies
   within the buffer.
   */
  lemma {:induction false} ReportsWithinBuffer(sky: Sky, open: bool, ss: seq<Sentence>, tags: seq<bool>)
    requires Valid(sky) && |tags| == |ss| && forall i :: 0 <= i < |ss| ==> WellFormed(ss[i])
    requires Room(sky, open) && InGroups(open, ss)
    ensures forall r :: r in Reports(sky, ss, tags) ==> 0 < r.numSvs <= |r.list| == |sky.list|
    decreases ss
  {
    if ss != [] {
      AbsorbRoom(sky, open, ss[0]);
      var (next, report) := Apply(sky, ss[0], tags[0]);
      ReportsWithinBuffer(next, OpenAfter(open, ss[0]), ss[1..], tags[1..]);
    }
  }

  /** A closing message finds more satellites counted than the buffer holds, and closes the group all the same. */
  predicate Overcounts(sky: Sky, s: Sentence) {
    && s.Gsv? && s.index == s.num && s.index != 1
    && sky.numSvs + sky.svCount > |sky.list| && sky.svCount <= s.cnt
  }

  lemma {:induction false} AddSatsFull(sky: Sky, fs: seq<SatField>, beidou: bool)
    requires Valid(sky) && sky.numSvs + sky.svCount >= |sky.list|
    ensures AddSats(sky, fs, beidou) == sky
  {
    if fs != [] { AddSatsFull(sky, fs[..|fs| - 1], beidou); }
  }

  /** One sentence takes the count past the buffer exactly when it overcounts, which shows before it is read. */
  lemma OvercountsIff(sky: Sky, s: Sentence)
    requires Valid(sky) && WellFormed(s) && sky.numSvs <= |sky.list|
    ensures Absorb(sky, s).numSvs > |sky.list| <==> Overcounts(sky, s)
  {
    if s.Gsv? {
      var start := if s.index == 1 then sky.(svCount := 0) else sky;
      var fs := s.sats[..SlotsRead(s.index, s.cnt)];
      if start.numSvs + start.svCount <= |sky.list| {
        AddSatsRoom(start, fs, s.beidou);
      } else {
        AddSatsFull(start, fs, s.beidou);
      }
    }
  }

  /** The count stays within the buffer all through a run. */
  ghost predicate CountStays(sky: Sky, ss: seq<Sentence>, tags: seq<bool>)
    requires Valid(sky) && |tags| == |ss| && forall i :: 0 <= i < |ss| ==> WellFormed(ss[i])
    decreases ss
  {
    && sky.numSvs <= |sky.list|
    && (ss != [] ==>
          && Absorb(sky, ss[0]).numSvs <= |sky.list|
          && CountStays(Apply(sky, ss[0], tags[0]).0, ss[1..], tags[1..]))
  }

  ghost predicate NoneOvercounts(sky: Sky, ss: seq<Sentence>, tags: seq<bool>)
    requires Valid(sky) && |tags| == |ss| && forall i :: 0 <= i < |ss| ==> WellFormed(ss[i])
    decreases ss
  {
    ss != [] ==> !Overcounts(sky, ss[0]) && NoneOvercounts(Apply(sky, ss[0], tags[0]).0, ss[1..], tags[1..])
  }

  /** Over every run, in or out of groups: the count stays within the buffer iff no message overcounts. */
  lemma {:induction false} CountStaysIff(sky: Sky, ss: seq<Sentence>, tags: seq<bool>)
    requires Valid(sky) && |tags| == |ss| && forall i :: 0 <= i < |ss| ==> WellFormed(ss[i])
    requires sky.numSvs <= |sky.list|
    ensures CountStays(sky, ss, tags) <==> NoneOvercounts(sky, ss, tags)
    ensures CountStays(sky, ss, tags) ==>
              forall r :: r in Reports(sky, ss, tags) ==> r.numSvs <= |r.list| == |sky.list|
    decreases ss
  {
    if ss != [] {
      hide Absorb;
      OvercountsIff(sky, ss[0]);
      var next := Apply(sky, ss[0], tags[0]).0;
      if next.numSvs <= |sky.list| { CountStaysIff(next, ss[1..], tags[1..]); }
    }
  }

  // ----- a message after its group has closed can always be repeated past the buffer -----

  function Copies(s: Sentence, n: nat): (ss: seq<Sentence>)
    ensures |ss| == n && forall i :: 0 <= i < n ==> ss[i] == s
  {
    seq(n, _ => s)
  }

  lemma {:induction false} AddSatsCount(sky: Sky, fs: seq<SatField>, beidou: bool)
    requires Valid(sky) && sky.svCount <= |sky.list|
    ensures var r := AddSats(sky, fs, beidou);
            r.numSvs == sky.numSvs && sky.svCount <= r.svCount <= |sky.list|
  {
    if fs != [] { AddSatsCount(sky, fs[..|fs| - 1], beidou); }
  }

  lemma {:induction false} CopiesAdd(sky: Sky, last: Sentence, n: nat)
    requires Valid(sky) && WellFormed(last) && 0 < sky.svCount <= |sky.list|
    requires last.Gsv? && last.index == last.num && last.num != 1 && |sky.list| <= last.cnt
    ensures var r := AbsorbAll(sky, Copies(last, n));
            sky.numSvs + n <= r.numSvs && 0 < r.svCount <= |sky.list|
  {
    if n > 0 {
      assert Copies(last, n)[..n - 1] == Copies(last, n - 1);
      CopiesAdd(sky, last, n - 1);
      var before := AbsorbAll(sky, Copies(last, n - 1));
      AddSatsCount(before, last.sats[..SlotsRead(last.index, last.cnt)], last.beidou);
    }
  }

  /**
   Out of groups the bound fails: wherever satellites are counted, a closing message that allows a
   full buffer counts them again each time it comes, so that enough of them in one chunk end in a
   report of more satellites than the buffer holds.
   */
  lemma RepeatedLastMessageOvercounts(sky: Sky, last: Sentence, n: nat)
    requires Valid(sky) && WellFormed(last) && 0 < sky.svCount <= |sky.list|
    requires last.Gsv? && last.index == last.num && last.num != 1 && |sky.list| <= last.cnt
    requires n > 0
    ensures var report := ApplyChunk(sky, Copies(last, n)).1;
            report.Some? && report.value.numSvs >= sky.numSvs + n && |report.value.list| == |sky.list|
  {
    CopiesAdd(sky, last, n);
    assert Copies(last, n)[|Copies(last, n)| - 1] == last;
  }

  /** Such a run from a clean reader: one group of two messages, its last message repeated. */
  lemma OvercountingRun(sky: Sky, cnt: int, sats: seq<SatField>)
    requires Clean(sky) && 0 < |sky.list| <= cnt < TWO_31
    requires |sats| == NMEA_MAX_SV_INFO && Accepts(sats[0].id)
    ensures var chunk := [Gsv(false, 2, 1, cnt, sats)] + Copies(Gsv(false, 2, 2, cnt, sats), |sky.list| + 1);
            var report := ApplyChunk(sky, chunk).1;
            report.Some? && report.value.numSvs > |report.value.list| == |sky.list|
  {
    var first, last := Gsv(false, 2, 1, cnt, sats), Gsv(false, 2, 2, cnt, sats);
    var n := |sky.list| + 1;
    FirstMessageCounts(sky, first);
    hide Absorb, Copies, ApplyChunk;
    RepeatedLastMessageOvercounts(Absorb(sky, first), last, n);
    ChunkAfterFirst(sky, first, Copies(last, n));
  }

  lemma ChunkAfterFirst(sky: Sky, first: Sentence, ss: seq<Sentence>)
    requires Valid(sky) && WellFormed(first) && ss != [] && forall i :: 0 <= i < |ss| ==> WellFormed(ss[i])
    ensures forall i :: 0 <= i < |[first] + ss| ==> WellFormed(([first] + ss)[i])
    ensures ApplyChunk(sky, [first] + ss) == ApplyChunk(Absorb(sky, first), ss)
  {
    hide Absorb, AbsorbAll, Apply, WellFormed;
    var all, n := [first] + ss, |ss|;
    AbsorbOne(sky, first);
    AbsorbAllSplit(sky, [first], ss[..n - 1]);
    assert all[..n] == [first] + ss[..n - 1] && all[n] == ss[n - 1];
  }

  lemma AbsorbOne(sky: Sky, s: Sentence)
    requires Valid(sky) && WellFormed(s)
    ensures AbsorbAll(sky, [s]) == Absorb(sky, s)
  {
  }

  lemma FirstMessageCounts(sky: Sky, first: Sentence)
    requires Clean(sky) && 0 < |sky.list| && WellFormed(first)
    requires first.Gsv? && !first.beidou && first.num != 1 && first.index == 1 && 0 < first.cnt < TWO_31
    requires Accepts(first.sats[0].id)
    ensures var r := Absorb(sky, first);
            r.numSvs == 0 && 0 < r.svCount <= |sky.list|
  {
    var n := SlotsRead(1, first.cnt);
    AddSatsStep(sky, first.sats, 0, false);
    AddSatsMonotone(sky, first.sats, 1, n, false);
    AddSatsCount(sky, first.sats[..n], false);
  }

  lemma {:induction false} AddSatsMonotone(sky: Sky, fs: seq<SatField>, m: nat, n: nat, beidou: bool)
    requires Valid(sky) && m <= n <= |fs|
    ensures AddSats(sky, fs[..m], beidou).svCount <= AddSats(sky, fs[..n], beidou).svCount
    decreases n
  {
    if m < n {
      AddSatsStep(sky, fs, n - 1, beidou);
      AddSatsMonotone(sky, fs, m, n - 1, beidou);
    }
  }

  // ----- the content of an epoch's report -----

  /** The accepted satellites among `fs`, in order, with the marks of `used`. */
  function Accepted(fs: seq<SatField>, beidou: bool, used: seq<bool>): (svs: seq<Sv>)
    requires |used| == USED_SIZE
  {
    if fs == [] then []
    else
      var f := fs[|fs| - 1];
      var before := Accepted(fs[..|fs| - 1], beidou, used);
      if Accepts(Prn(f.id, beidou)) then before + [MakeSv(f, beidou, used)] else before
  }

  /** The first n satellites; a full list takes no more. */
  function Cut(svs: seq<Sv>, n: nat): (r: seq<Sv>)
    ensures |r| <= n && r <= svs
  {
    if |svs| <= n then svs else svs[..n]
  }

  function RoomLeft(sky: Sky): nat {
    if sky.numSvs <= |sky.list| then |sky.list| - sky.numSvs else 0
  }

  /** The sky after reading more of a group: `svs`, as far as there is room, stand behind those of closed groups. */
  ghost predicate Holds(sky: Sky, before: Sky, svs: seq<Sv>) {
    var kept := Cut(svs, RoomLeft(before));
    && before.numSvs + |kept| <= |before.list|
    && sky == before.(svCount := |kept|, list := sky.list)
    && |sky.list| == |before.list|
    && sky.list[..before.numSvs + |kept|] == before.list[..before.numSvs] + kept
  }

  /** The list has taken `svs`, as far as there was room, as satellites of closed groups. */
  ghost predicate Appended(before: Sky, after: Sky, svs: seq<Sv>) {
    var kept := Cut(svs, RoomLeft(before));
    && after.numSvs == before.numSvs + |kept| <= |before.list| == |after.list|
    && after.list[..after.numSvs] == before.list[..before.numSvs] + kept
  }

  lemma AppendedTwice(a: Sky, b: Sky, c: Sky, svs: seq<Sv>, more: seq<Sv>)
    requires Appended(a, b, svs) && Appended(b, c, more)
    ensures Appended(a, c, svs + more)
  {
    CutAppend(svs, more, RoomLeft(a));
  }

  lemma CutAppend(svs: seq<Sv>, more: seq<Sv>, n: nat)
    ensures Cut(svs + more, n) == Cut(svs, n) + Cut(more, n - |Cut(svs, n)|)
  {
  }

  lemma {:induction false} AddSatsHolds(before: Sky, sky: Sky, done: seq<SatField>, fs: seq<SatField>, beidou: bool)
    requires Valid(before)
    requires Holds(sky, before, Accepted(done, beidou, before.used))
    ensures Holds(AddSats(sky, fs, beidou), before, Accepted(done + fs, beidou, before.used))
  {
    if fs == [] {
      assert done + fs == done;
    } else {
      var init, f := fs[..|fs| - 1], fs[|fs| - 1];
      assert (done + fs)[..|done + fs| - 1] == done + init;
      AddSatsHolds(before, sky, done, init, beidou);
      hide Accepted, AddSats;
      AcceptedStep(done + init, f, beidou, before.used);
      assert done + init + [f] == done + fs;
      AddSatsOne(sky, fs, beidou);
      AddSatHolds(before, AddSats(sky, init, beidou), Accepted(done + init, beidou, before.used), f, beidou);
    }
  }

  lemma AddSatsOne(sky: Sky, fs: seq<SatField>, beidou: bool)
    requires Valid(sky) && fs != []
    ensures AddSats(sky, fs, beidou) == AddSat(AddSats(sky, fs[..|fs| - 1], beidou), fs[|fs| - 1], beidou)
  {
  }

  lemma AcceptedStep(fs: seq<SatField>, f: SatField, beidou: bool, used: seq<bool>)
    requires |used| == USED_SIZE
    ensures Accepted(fs + [f], beidou, used)
         == Accepted(fs, beidou, used) + if Accepts(Prn(f.id, beidou)) then [MakeSv(f, beidou, used)] else []
  {
    assert (fs + [f])[..|fs|] == fs;
  }

  lemma AddSatHolds(before: Sky, sky: Sky, svs: seq<Sv>, f: SatField, beidou: bool)
    requires Valid(before) && Holds(sky, before, svs)
    ensures Holds(AddSat(sky, f, beidou), before,
                  svs + if Accepts(Prn(f.id, beidou)) then [MakeSv(f, beidou, before.used)] else [])
  {
    hide MakeSv;
    if Accepts(Prn(f.id, beidou)) {
      var sv := MakeSv(f, beidou, before.used);
      var slot := before.numSvs + |svs|;
      if |svs| < RoomLeft(before) {
        assert AddSat(sky, f, beidou).list[..slot + 1] == sky.list[..slot] + [sv];
      } else {
        assert Cut(svs + [sv], RoomLeft(before)) == Cut(svs, RoomLeft(before));
      }
    } else {
      assert svs + [] == svs;
    }
  }

  lemma {:induction false} AddSatsCounts(sky: Sky, fs: seq<SatField>, beidou: bool)
    requires Valid(sky) && sky.numSvs + sky.svCount <= |sky.list|
    ensures var n := sky.svCount + |Accepted(fs, beidou, sky.used)|;
            var room := |sky.list| - sky.numSvs;
            var r := AddSats(sky, fs, beidou);
            r.numSvs == sky.numSvs && r.used == sky.used && r.svCount == if n <= room then n else room
  {
    if fs != [] { AddSatsCounts(sky, fs[..|fs| - 1], beidou); }
  }

  /**
   A closing message counts the group's satellites in if it allows as many as were taken, those it
   brings itself included; otherwise everything collected so far is dropped, closed groups too.
   */
  lemma ClosingCounts(sky: Sky, s: Sentence)
    requires Valid(sky) && WellFormed(s) && s.Gsv? && s.index == s.num
    requires s.index == 1 || sky.numSvs + sky.svCount <= |sky.list|
    requires sky.numSvs <= |sky.list|
    ensures var own := |Accepted(s.sats[..SlotsRead(s.index, s.cnt)], s.beidou, sky.used)|;
            var n := (if s.index == 1 then 0 else sky.svCount) + own;
            var room := |sky.list| - sky.numSvs;
            var taken := if n <= room then n else room;
            var r := Absorb(sky, s);
            if taken <= s.cnt then r.numSvs == sky.numSvs + taken && r.svCount == taken
            else r.numSvs == 0 && r.svCount == 0
  {
    hide AddSats, Accepted, SlotsRead;
    AddSatsCounts(if s.index == 1 then sky.(svCount := 0) else sky, s.sats[..SlotsRead(s.index, s.cnt)], s.beidou);
  }

  /** The messages of a complete group announce `sats` four at a time, all under one count. */
  ghost predicate Announces(msgs: seq<Sentence>, beidou: bool, sats: seq<SatField>) {
    && 0 < |msgs| && |sats| <= 4 * |msgs| < TWO_31
    && forall i :: 0 <= i < |msgs| ==> AnnouncesPart(msgs[i], i, |msgs|, beidou, sats)
  }

  ghost predicate AnnouncesPart(m: Sentence, i: nat, num: nat, beidou: bool, sats: seq<SatField>) {
    && m.Gsv? && m.beidou == beidou && m.num == num && m.index == i + 1 && m.cnt == |sats|
    && |m.sats| == NMEA_MAX_SV_INFO
    && forall j :: 0 <= j < 4 && 4 * i + j < |sats| ==> m.sats[j] == sats[4 * i + j]
  }

  function AbsorbAll(sky: Sky, ss: seq<Sentence>): (r: Sky)
    requires Valid(sky) && forall i :: 0 <= i < |ss| ==> WellFormed(ss[i])
    ensures Valid(r) && |r.list| == |sky.list|
  {
    if ss == [] then sky else Absorb(AbsorbAll(sky, ss[..|ss| - 1]), ss[|ss| - 1])
  }

  function Covered(n: nat, sats: seq<SatField>): (r: seq<SatField>)
    ensures r <= sats
  {
    if 4 * n <= |sats| then sats[..4 * n] else sats
  }

  lemma MessageCovers(m: Sentence, i: nat, num: nat, beidou: bool, sats: seq<SatField>)
    requires AnnouncesPart(m, i, num, beidou, sats)
    requires 4 * i + 4 < TWO_31 && |sats| < TWO_31
    ensures Covered(i + 1, sats) == Covered(i, sats) + m.sats[..SlotsRead(m.index, m.cnt)]
  {
  }

  /** What messages `from` to i-1 of a group announce. */
  function Between(from: nat, i: nat, sats: seq<SatField>): seq<SatField>
    requires from <= i
  {
    Covered(i, sats)[|Covered(from, sats)|..]
  }

  /**
   The sky as the i-th message of a group (counting from 0) finds it when message `from` found
   `before`; anything but the first message builds on satellites already counted.
   */
  ghost predicate AtMessage(before: Sky, sky: Sky, from: nat, i: nat, beidou: bool, sats: seq<SatField>)
    requires Valid(before) && from <= i
  {
    if i == from then sky == before && before.numSvs <= |before.list| && (from > 0 ==> before.svCount == 0)
    else Holds(sky, before, Accepted(Between(from, i, sats), beidou, before.used))
  }

  /** Reading the i-th message adds its satellites to those of the messages before it. */
  lemma MessageRead(before: Sky, start: Sky, m: Sentence, from: nat, i: nat, num: nat, beidou: bool,
                    sats: seq<SatField>)
    requires Valid(before) && from <= i
    requires AnnouncesPart(m, i, num, beidou, sats) && 4 * i + 4 < TWO_31 && |sats| < TWO_31
    requires Valid(start) && Holds(start, before, Accepted(Between(from, i, sats), beidou, before.used))
    ensures Holds(AddSats(start, m.sats[..SlotsRead(m.index, m.cnt)], beidou), before,
                  Accepted(Between(from, i + 1, sats), beidou, before.used))
  {
    hide Holds, Accepted, AddSats, SlotsRead;
    MessageCovers(m, i, num, beidou, sats);
    AddSatsHolds(before, start, Between(from, i, sats), m.sats[..SlotsRead(m.index, m.cnt)], beidou);
    assert Between(from, i + 1, sats) == Between(from, i, sats) + m.sats[..SlotsRead(m.index, m.cnt)];
  }

  /** A group has been closed: its satellites are appended, and nothing else has changed. */
  ghost predicate Closed(before: Sky, after: Sky, svs: seq<Sv>) {
    && Appended(before, after, svs)
    && after == before.(svCount := |Cut(svs, RoomLeft(before))|, numSvs := after.numSvs, list := after.list)
  }

  lemma NothingBetween(before: Sky, sky: Sky, from: nat, beidou: bool, sats: seq<SatField>)
    requires Valid(before) && AtMessage(before, sky, from, from, beidou, sats)
    ensures Holds(before.(svCount := 0), before, Accepted(Between(from, from, sats), beidou, before.used))
  {
  }

  lemma MessageStep(before: Sky, sky: Sky, m: Sentence, from: nat, i: nat, num: nat, beidou: bool, sats: seq<SatField>)
    requires Valid(before) && from <= i
    requires AnnouncesPart(m, i, num, beidou, sats) && 4 * i + 4 < TWO_31 && |sats| < TWO_31
    requires Valid(sky) && AtMessage(before, sky, from, i, beidou, sats)
    ensures i + 1 < num ==> AtMessage(before, Absorb(sky, m), from, i + 1, beidou, sats)
    ensures i + 1 == num ==>
              Closed(before, Absorb(sky, m), Accepted(Between(from, num, sats), beidou, before.used))
  {
    hide AddSats, SlotsRead, Accepted, Covered;
    var start := if m.index == 1 then sky.(svCount := 0) else sky;
    if i == from { NothingBetween(before, sky, from, beidou, sats); }
    MessageRead(before, start, m, from, i, num, beidou, sats);
    BetweenBound(from, i + 1, sats);
    AcceptedBound(Between(from, i + 1, sats), beidou, before.used);
  }

  lemma BetweenBound(from: nat, i: nat, sats: seq<SatField>)
    requires from <= i
    ensures |Between(from, i, sats)| <= |sats|
  {
  }

  lemma AtFirstMessage(before: Sky, from: nat, beidou: bool, sats: seq<SatField>)
    requires Valid(before) && before.numSvs <= |before.list| && (from > 0 ==> before.svCount == 0)
    ensures AtMessage(before, before, from, from, beidou, sats)
  {
  }

  lemma {:induction false} GroupProgress(before: Sky, msgs: seq<Sentence>, from: nat, k: nat, beidou: bool,
                                         sats: seq<SatField>)
    requires Valid(before) && Announces(msgs, beidou, sats) && from <= k < |msgs|
    requires before.numSvs <= |before.list| && (from > 0 ==> before.svCount == 0)
    ensures forall i :: 0 <= i < k - from ==> WellFormed(msgs[from..k][i])
    ensures AtMessage(before, AbsorbAll(before, msgs[from..k]), from, k, beidou, sats)
  {
    hide AtMessage, Accepted, Absorb;
    if k == from {
      assert AtMessage(before, before, from, from, beidou, sats) by { AtFirstMessage(before, from, beidou, sats); }
    } else {
      GroupProgress(before, msgs, from, k - 1, beidou, sats);
      assert AnnouncesPart(msgs[k - 1], k - 1, |msgs|, beidou, sats);
      var part := msgs[from..k];
      assert part[..|part| - 1] == msgs[from..k - 1] && part[|part| - 1] == msgs[k - 1];
      MessageStep(before, AbsorbAll(before, msgs[from..k - 1]), msgs[k - 1], from, k - 1, |msgs|, beidou, sats);
      forall i | 0 <= i < k - from
        ensures WellFormed(part[i])
      {
        if i < k - 1 - from { assert part[i] == msgs[from..k - 1][i]; }
      }
    }
  }

  lemma {:induction false} AcceptedBound(fs: seq<SatField>, beidou: bool, used: seq<bool>)
    requires |used| == USED_SIZE
    ensures |Accepted(fs, beidou, used)| <= |fs|
  {
    if fs != [] { AcceptedBound(fs[..|fs| - 1], beidou, used); }
  }

  /** Messages `from` and after of a complete group append exactly their accepted satellites, in order. */
  lemma GroupRestAppends(before: Sky, msgs: seq<Sentence>, from: nat, beidou: bool, sats: seq<SatField>)
    requires Valid(before) && Announces(msgs, beidou, sats) && from < |msgs|
    requires before.numSvs <= |before.list| && (from > 0 ==> before.svCount == 0)
    ensures forall i :: 0 <= i < |msgs| - from ==> WellFormed(msgs[from..][i])
    ensures Closed(before, AbsorbAll(before, msgs[from..]),
                   Accepted(sats[|Covered(from, sats)|..], beidou, before.used))
  {
    hide Closed, Accepted, AtMessage, Absorb;
    var k := |msgs| - 1;
    var rest := msgs[from..];
    assert AnnouncesPart(msgs[k], k, |msgs|, beidou, sats);
    GroupProgress(before, msgs, from, k, beidou, sats);
    MessageStep(before, AbsorbAll(before, msgs[from..k]), msgs[k], from, k, |msgs|, beidou, sats);
    assert Covered(|msgs|, sats) == sats;
    assert rest[..k - from] == msgs[from..k] && rest[k - from] == msgs[k];
    forall i | 0 <= i < |msgs| - from
      ensures WellFormed(rest[i])
    {
      if i < k - from { assert rest[i] == msgs[from..k][i]; }
    }
  }

  /** A complete group appends exactly its accepted satellites, in order, as far as there is room. */
  lemma GroupAppends(before: Sky, msgs: seq<Sentence>, beidou: bool, sats: seq<SatField>)
    requires Valid(before) && Announces(msgs, beidou, sats) && before.numSvs <= |before.list|
    ensures forall i :: 0 <= i < |msgs| ==> WellFormed(msgs[i])
    ensures Closed(before, AbsorbAll(before, msgs), Accepted(sats, beidou, before.used))
  {
    hide AbsorbAll, Accepted, Closed;
    GroupRestAppends(before, msgs, 0, beidou, sats);
    assert msgs[0..] == msgs && sats[|Covered(0, sats)|..] == sats;
  }

  lemma {:induction false} AbsorbAllSplit(sky: Sky, ss: seq<Sentence>, ts: seq<Sentence>)
    requires Valid(sky)
    requires forall i :: 0 <= i < |ss| ==> WellFormed(ss[i])
    requires forall i :: 0 <= i < |ts| ==> WellFormed(ts[i])
    ensures AbsorbAll(sky, ss + ts) == AbsorbAll(AbsorbAll(sky, ss), ts)
  {
    if ts == [] {
      assert ss + ts == ss;
    } else {
      assert (ss + ts)[..|ss + ts| - 1] == ss + ts[..|ts| - 1];
      AbsorbAllSplit(sky, ss, ts[..|ts| - 1]);
    }
  }

  /** Running a chunk's sentences: only the last one sees the end tag. */
  function ApplyChunk(sky: Sky, ss: seq<Sentence>): (r: (Sky, Option<Report>))
    requires Valid(sky) && ss != [] && forall i :: 0 <= i < |ss| ==> WellFormed(ss[i])
    ensures Valid(r.0)
  {
    Apply(AbsorbAll(sky, ss[..|ss| - 1]), ss[|ss| - 1], true)
  }

  ghost predicate Clean(sky: Sky) {
    Valid(sky) && sky.svCount == 0 && sky.numSvs == 0 && sky.used == NoneUsed()
  }
}
