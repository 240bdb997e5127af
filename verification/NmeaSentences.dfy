/**
 Written sentences: what the HAL's tokenizer and decoder make of fields put together as NMEA 0183
 writes them, with decimal numbers.
 */
module NmeaSentences {
  import opened Bytes
  import opened Tokenizer
  import opened Satellites

  // ----- fields -----

  /** What may stand around a sentence's text: a dollar sign, a star and two checksum digits, the line ending. */
  datatype Frame = Frame(front: seq<byte>, checksum: seq<byte>, ending: seq<byte>)

  predicate ProperFrame(frame: Frame) {
    && (frame.front == [] || frame.front == [36])
    && (frame.checksum == [] || (|frame.checksum| == 3 && frame.checksum[0] == 42))
    && (frame.ending == [10] || frame.ending == [13, 10])
  }

  function Framed(text: seq<byte>, frame: Frame): seq<byte> {
    frame.front + text + frame.checksum + frame.ending
  }

  /** The frame cannot be mistaken for text, nor text for a part of the frame that is missing. */
  predicate Unambiguous(text: seq<byte>, frame: Frame) {
    && ProperFrame(frame)
    && (frame.front == [] ==> text != [] && text[0] != 36)
    && (frame.checksum == [] ==> |text| < 3 || text[|text| - 3] != 42)
    && (frame.ending == [10] ==>
          if frame.checksum != [] then frame.checksum[2] != 13 else text == [] || text[|text| - 1] != 13)
  }

  lemma Parts(a: seq<byte>, b: seq<byte>, c: seq<byte>, d: seq<byte>)
    ensures var s := a + b + c + d;
            && s[|a|..|a| + |b|] == b
            && (forall k :: 0 <= k < |a| ==> s[k] == a[k])
            && (forall k :: 0 <= k < |b| ==> s[|a| + k] == b[k])
            && (forall k :: 0 <= k < |c| ==> s[|a| + |b| + k] == c[k])
            && (forall k :: 0 <= k < |d| ==> s[|a| + |b| + |c| + k] == d[k])
  {
  }

  lemma RangeIs(s: seq<byte>, p: nat, n: nat, e: nat)
    requires p <= n <= e < |s| && s[|s| - 1] == LF && p <= 1
    requires p == 1 <==> s[0] == DOLLAR
    requires (e == |s| - 2 && s[e] == CR) || (e == |s| - 1 && (e > p ==> s[e - 1] != CR))
    requires (e == n + 3 && s[n] == STAR) || (e == n && (n >= p + 3 ==> s[n - 3] != STAR))
    ensures BodyRange(s) == (p, n)
  {
  }

  /** Taking the frame off gives the text. */
  lemma BodyOfFramed(text: seq<byte>, frame: Frame)
    requires Unambiguous(text, frame)
    ensures Body(Framed(text, frame)) == text
  {
    var s := Framed(text, frame);
    var p, c := |frame.front|, frame.checksum;
    var n := p + |text|;
    assert s[p..n] == text && s[|s| - 1] == LF by { Parts(frame.front, text, c, frame.ending); }
    FrameBytes(text, frame);
    hide BodyRange, Framed;
    RangeIs(s, p, n, n + |c|);
  }

  /** The bytes of a framed text that decide where its body lies. */
  lemma FrameBytes(text: seq<byte>, frame: Frame)
    requires Unambiguous(text, frame)
    ensures var s := Framed(text, frame);
            var p := |frame.front|;
            var n := p + |text|;
            var e := n + |frame.checksum|;
            && p <= 1 && e < |s| && (p == 1 <==> s[0] == DOLLAR)
            && ((e == |s| - 2 && s[e] == CR) || (e == |s| - 1 && (e > p ==> s[e - 1] != CR)))
            && ((e == n + 3 && s[n] == STAR) || (e == n && (n >= p + 3 ==> s[n - 3] != STAR)))
  {
    var a, c, d := frame.front, frame.checksum, frame.ending;
    var p, n := |a|, |a| + |text|;
    var s := Framed(text, frame);
    Parts(a, text, c, d);
    assert d == [13, 10] ==> s[n + |c|] == d[0];
    if a == [] {
      assert s[p] == text[0];
    } else {
      assert s[0] == a[0];
    }
    if c == [] {
      if text != [] { assert s[p + (|text| - 1)] == text[|text| - 1]; }
      if |text| >= 3 { assert s[p + (|text| - 3)] == text[|text| - 3]; }
    } else {
      assert s[n] == c[0] && s[n + 2] == c[2];
    }
  }

  /**
   The i-th field read from a written sentence is the i-th field written, for i below 24, and empty
   for any other i.
   */
  lemma FieldOfWritten(fields: seq<seq<byte>>, frame: Frame, i: int)
    requires fields != [] && forall k :: 0 <= k < |fields| ==> 44 !in fields[k]
    requires Unambiguous(Join(fields), frame)
    ensures Field(Framed(Join(fields), frame), i)
         == if 0 <= i < |fields| && i < 24 then fields[i] else []
  {
    hide Framed, BodyRange, Body, Fields, Join, Unambiguous;
    BodyOfFramed(Join(fields), frame);
    JoinFields(fields);
  }

  /** The line is read as these fields. */
  ghost predicate ReadAs(line: seq<byte>, fields: seq<seq<byte>>) {
    |line| >= 9 && forall i :: Field(line, i) == if 0 <= i < |fields| && i < 24 then fields[i] else []
  }

  /** A written sentence with an identifier of five letters and three more fields is read as it was written. */
  lemma WrittenIsRead(fields: seq<seq<byte>>, frame: Frame)
    requires |fields| >= 4 && |fields[0]| == 5 && forall k :: 0 <= k < |fields| ==> 44 !in fields[k]
    requires Unambiguous(Join(fields), frame)
    ensures ReadAs(Framed(Join(fields), frame), fields)
  {
    hide Field, Unambiguous, Framed;
    LongEnough(fields, frame);
    forall i
      ensures Field(Framed(Join(fields), frame), i)
           == if 0 <= i < |fields| && i < 24 then fields[i] else []
    {
      FieldOfWritten(fields, frame, i);
    }
  }

  lemma LongEnough(fields: seq<seq<byte>>, frame: Frame)
    requires |fields| >= 4 && |fields[0]| == 5 && Unambiguous(Join(fields), frame)
    ensures |Framed(Join(fields), frame)| >= 9
  {
    JoinLength(fields);
  }

  lemma {:induction false} JoinLength(f: seq<seq<byte>>)
    requires f != []
    ensures |Join(f)| >= |f[0]| + |f| - 1
  {
    if |f| > 1 { JoinLength(f[1..]); }
  }

  // ----- numbers -----

  /** A decimal digit's character. */
  function Digit(d: nat): byte
    requires d < 10
  {
    48 + d
  }

  /** The decimal digits of a number. */
  function Digits(n: nat): (s: seq<byte>)
    ensures s != []
  {
    if n < 10 then [Digit(n)] else Digits(n / 10) + [Digit(n % 10)]
  }

  lemma {:induction false} DigitsRead(n: nat)
    ensures AllDigits(Digits(n)) && Decimal(Digits(n)) == n
  {
    if n < 10 {
      assert Digits(n)[..0] == [];
    } else {
      DigitsRead(n / 10);
      var s := Digits(n);
      assert s[..|s| - 1] == Digits(n / 10);
    }
  }

  /** Reading decimal digits gives the number they write. */
  lemma ReadsDigits(n: nat)
    requires n < TWO_31
    ensures StrToInt(Digits(n)) == n && 44 !in Digits(n)
  {
    hide Digits;
    DigitsRead(n);
    assert IsDigit(Digits(n)[0]);
    assert forall i :: 0 <= i < |Digits(n)| ==> IsDigit(Digits(n)[i]);
  }

  /** A minus sign negates, and an empty field is 0. */
  lemma ReadsNegative(text: seq<byte>, n: int)
    requires AllDigits(text) && Decimal(text) == n <= TWO_31
    ensures StrToInt([45] + text) == -n && StrToInt([]) == 0
  {
    assert ([45] + text)[1..] == text;
  }

  // ----- GSV -----

  /** A satellite as it is written; the signal strength is any text. */
  datatype Seen = Seen(id: nat, elevation: nat, azimuth: nat, snr: seq<byte>)

  predicate Writable(s: Seen) {
    s.id < TWO_31 && s.elevation < TWO_31 && s.azimuth < TWO_31 && 44 !in s.snr
  }

  /** The fields of a GSV sentence: talker and GSV, messages, message, satellites in view, then four fields each. */
  function GsvFields(talker: seq<byte>, num: nat, index: nat, cnt: nat, seen: seq<Seen>): (f: seq<seq<byte>>)
    ensures |f| == 4 + 4 * |seen|
  {
    if seen == [] then [talker + [71, 83, 86], Digits(num), Digits(index), Digits(cnt)]
    else
      var s := seen[|seen| - 1];
      GsvFields(talker, num, index, cnt, seen[..|seen| - 1])
      + [Digits(s.id), Digits(s.elevation), Digits(s.azimuth), s.snr]
  }

  /** The fields written for satellite j. */
  predicate SeenAt(f: seq<seq<byte>>, j: nat, s: Seen)
    requires 4 * j + 7 < |f|
  {
    f[4 + 4 * j] == Digits(s.id) && f[5 + 4 * j] == Digits(s.elevation)
    && f[6 + 4 * j] == Digits(s.azimuth) && f[7 + 4 * j] == s.snr
  }

  predicate NoCommas(f: seq<seq<byte>>) {
    forall k :: 0 <= k < |f| ==> 44 !in f[k]
  }

  lemma GsvFieldsFirst(talker: seq<byte>, num: nat, index: nat, cnt: nat)
    requires num < TWO_31 && index < TWO_31 && cnt < TWO_31 && 44 !in talker
    ensures GsvFields(talker, num, index, cnt, [])
         == [talker + [71, 83, 86], Digits(num), Digits(index), Digits(cnt)]
    ensures NoCommas(GsvFields(talker, num, index, cnt, []))
  {
    hide Digits;
    ReadsDigits(num);
    ReadsDigits(index);
    ReadsDigits(cnt);
  }

  lemma {:induction false} GsvFieldsAre(talker: seq<byte>, num: nat, index: nat, cnt: nat, seen: seq<Seen>)
    requires num < TWO_31 && index < TWO_31 && cnt < TWO_31
    requires 44 !in talker && forall j :: 0 <= j < |seen| ==> Writable(seen[j])
    ensures var f := GsvFields(talker, num, index, cnt, seen);
            && f[0] == talker + [71, 83, 86] && f[1] == Digits(num) && f[2] == Digits(index) && f[3] == Digits(cnt)
            && NoCommas(f)
            && forall j :: 0 <= j < |seen| ==> SeenAt(f, j, seen[j])
  {
    hide Digits, GsvFields, Writable, SeenAt, NoCommas;
    if seen == [] {
      GsvFieldsFirst(talker, num, index, cnt);
    } else {
      var init, s := seen[..|seen| - 1], seen[|seen| - 1];
      GsvFieldsAre(talker, num, index, cnt, init);
      GsvFieldsStep(talker, num, index, cnt, seen);
      OneSeen(GsvFields(talker, num, index, cnt, init), init, s);
      assert init + [s] == seen;
    }
  }

  lemma GsvFieldsStep(talker: seq<byte>, num: nat, index: nat, cnt: nat, seen: seq<Seen>)
    requires seen != []
    ensures var s := seen[|seen| - 1];
            GsvFields(talker, num, index, cnt, seen)
            == GsvFields(talker, num, index, cnt, seen[..|seen| - 1])
               + [Digits(s.id), Digits(s.elevation), Digits(s.azimuth), s.snr]
  {
  }

  lemma OneSeen(before: seq<seq<byte>>, init: seq<Seen>, s: Seen)
    requires Writable(s) && NoCommas(before) && |before| == 4 + 4 * |init|
    requires forall j :: 0 <= j < |init| ==> SeenAt(before, j, init[j])
    ensures var f := before + [Digits(s.id), Digits(s.elevation), Digits(s.azimuth), s.snr];
            && NoCommas(f)
            && forall j :: 0 <= j <= |init| ==> SeenAt(f, j, (init + [s])[j])
  {
    hide Digits;
    ReadsDigits(s.id);
    ReadsDigits(s.elevation);
    ReadsDigits(s.azimuth);
    var f := before + [Digits(s.id), Digits(s.elevation), Digits(s.azimuth), s.snr];
    forall j | 0 <= j < |init|
      ensures SeenAt(f, j, init[j])
    {
      assert SeenAt(before, j, init[j]);
    }
  }

  /** The decoded satellite is the one written. */
  predicate Same(f: SatField, s: Seen) {
    f.id == s.id && f.elevation == s.elevation && f.azimuth == s.azimuth && f.snr == s.snr
  }

  /**
   A written GSV sentence of any two-letter talker decodes to what was written: a BeiDou sentence or
   not, the number of messages, the message's number, the satellites in view, and up to four
   satellites with their number, elevation, azimuth and signal strength.
   */
  lemma GsvDecodes(talker: seq<byte>, num: nat, index: nat, cnt: nat, seen: seq<Seen>,
                   frame: Frame)
    requires |talker| == 2 && 44 !in talker && num < TWO_31 && index < TWO_31 && cnt < TWO_31
    requires |seen| <= 4 && forall j :: 0 <= j < |seen| ==> Writable(seen[j])
    requires Unambiguous(Join(GsvFields(talker, num, index, cnt, seen)), frame)
    ensures var s := Decode(Framed(Join(GsvFields(talker, num, index, cnt, seen)), frame));
            && s.Gsv? && (s.beidou <==> talker == [66, 68])
            && s.num == num && s.index == index && s.cnt == cnt
            && |s.sats| == 4 && forall j :: 0 <= j < |seen| ==> Same(s.sats[j], seen[j])
  {
    hide Digits, GsvFields, Framed, Join, StrToInt, ReadAs, SeenAt, Writable, Same, Unambiguous, Decode, NoCommas;
    var fields := GsvFields(talker, num, index, cnt, seen);
    var line := Framed(Join(fields), frame);
    GsvFieldsAre(talker, num, index, cnt, seen);
    AllClean(fields);
    WrittenIsRead(fields, frame);
    ReadsDigits(num);
    ReadsDigits(index);
    ReadsDigits(cnt);
    GsvIsSeen(line, fields, talker);
    forall j | 0 <= j < |seen|
      ensures Same(GsvSat(line, j), seen[j])
    {
      SatIsSeen(line, fields, j, seen[j]);
    }
  }

  lemma AllClean(fields: seq<seq<byte>>)
    requires NoCommas(fields)
    ensures forall k :: 0 <= k < |fields| ==> 44 !in fields[k]
  {
  }

  lemma GsvIsSeen(line: seq<byte>, fields: seq<seq<byte>>, talker: seq<byte>)
    requires ReadAs(line, fields) && |fields| >= 4 && |talker| == 2 && fields[0] == talker + [71, 83, 86]
    ensures Decode(line)
         == Gsv(talker == [66, 68], StrToInt(fields[1]), StrToInt(fields[2]), StrToInt(fields[3]), GsvSats(line))
  {
    hide Field, StrToInt, GsvSats;
    assert fields[0][..2] == talker && fields[0][2..5] == GSV;
  }

  lemma SatIsSeen(line: seq<byte>, fields: seq<seq<byte>>, j: nat, s: Seen)
    requires ReadAs(line, fields) && 4 * j + 7 < |fields| && j < 4 && SeenAt(fields, j, s) && Writable(s)
    ensures Same(GsvSat(line, j), s)
  {
    hide Field, StrToInt, Digits;
    ReadsDigits(s.id);
    ReadsDigits(s.elevation);
    ReadsDigits(s.azimuth);
  }

  // ----- GSA -----

  /** A written id: a number, or nothing. */
  function IdText(id: Option<nat>): seq<byte> {
    if id.None? then [] else Digits(id.value)
  }

  /** The fields of a GSA sentence: talker and GSA, selection, fix mode, twelve ids, and whatever follows. */
  function GsaFields(talker: seq<byte>, selection: seq<byte>, fix: nat, ids: seq<Option<nat>>, more: seq<seq<byte>>):
    (f: seq<seq<byte>>)
    ensures |f| == 3 + |ids| + |more|
  {
    [talker + [71, 83, 65], selection, Digits(fix)]
    + seq(|ids|, j requires 0 <= j < |ids| => IdText(ids[j])) + more
  }

  lemma GsaFieldsAre(talker: seq<byte>, selection: seq<byte>, fix: nat, ids: seq<Option<nat>>, more: seq<seq<byte>>)
    requires 44 !in talker && 44 !in selection && fix < TWO_31 && NoCommas(more)
    requires forall j :: 0 <= j < |ids| && ids[j].Some? ==> ids[j].value < TWO_31
    ensures var f := GsaFields(talker, selection, fix, ids, more);
            && f[0] == talker + [71, 83, 65] && f[2] == Digits(fix) && NoCommas(f)
            && forall j :: 0 <= j < |ids| ==> f[3 + j] == IdText(ids[j])
  {
    hide Digits, IdText, StrToInt;
    ReadsDigits(fix);
    forall j | 0 <= j < |ids|
      ensures 44 !in IdText(ids[j])
    {
      IdTextClean(ids[j]);
    }
    var f := GsaFields(talker, selection, fix, ids, more);
    forall k | 0 <= k < |f|
      ensures 44 !in f[k]
    {
      if k >= 3 + |ids| {
        assert f[k] == more[k - 3 - |ids|];
      } else if k >= 3 {
        assert f[k] == IdText(ids[k - 3]);
      }
    }
  }

  lemma IdTextClean(id: Option<nat>)
    requires id.Some? ==> id.value < TWO_31
    ensures 44 !in IdText(id)
  {
    hide Digits, StrToInt;
    if id.Some? { ReadsDigits(id.value); }
  }

  /**
   A written GSA sentence of GPS, GLONASS or BeiDou decodes to what was written: a BeiDou sentence or
   not, the fix mode and the twelve ids, empty ones as such. One of any other talker is not a GSA
   sentence to the HAL.
   */
  lemma GsaDecodes(talker: seq<byte>, selection: seq<byte>, fix: nat, ids: seq<Option<nat>>, more: seq<seq<byte>>,
                   frame: Frame)
    requires |talker| == 2 && 44 !in talker && 44 !in selection && fix < TWO_31 && NoCommas(more)
    requires |ids| == 12 && forall j :: 0 <= j < |ids| && ids[j].Some? ==> ids[j].value < TWO_31
    requires Unambiguous(Join(GsaFields(talker, selection, fix, ids, more)), frame)
    ensures var s := Decode(Framed(Join(GsaFields(talker, selection, fix, ids, more)), frame));
            if talker == [71, 80] || talker == [71, 76] || talker == [66, 68] then
              && s.Gsa? && (s.beidou <==> talker == [66, 68]) && s.fixMode == fix && |s.ids| == 12
              && forall j :: 0 <= j < 12 ==>
                   if ids[j].None? then s.ids[j] == None else s.ids[j] == Some(ids[j].value)
            else s == Other
  {
    hide Digits, GsaFields, Framed, Join, StrToInt, ReadAs, IdText, Unambiguous, Decode, NoCommas;
    var fields := GsaFields(talker, selection, fix, ids, more);
    var line := Framed(Join(fields), frame);
    GsaFieldsAre(talker, selection, fix, ids, more);
    AllClean(fields);
    WrittenIsRead(fields, frame);
    ReadsDigits(fix);
    GsaIsSeen(line, fields, talker);
    forall j | 0 <= j < 12
      ensures GsaId(line, j) == if ids[j].None? then None else Some(ids[j].value)
    {
      IdIsSeen(line, fields, j, ids[j]);
    }
  }

  lemma GsaIsSeen(line: seq<byte>, fields: seq<seq<byte>>, talker: seq<byte>)
    requires ReadAs(line, fields) && |fields| >= 4 && |talker| == 2 && fields[0] == talker + [71, 83, 65]
    ensures Decode(line)
         == if talker == [71, 80] || talker == [71, 76] || talker == [66, 68]
            then Gsa(talker == [66, 68], StrToInt(fields[2]), GsaIds(line)) else Other
  {
    hide Field, StrToInt, GsaIds;
    assert fields[0][..2] == talker && fields[0][2..5] == GSA;
  }

  lemma IdIsSeen(line: seq<byte>, fields: seq<seq<byte>>, j: nat, id: Option<nat>)
    requires ReadAs(line, fields) && 3 + j < |fields| && j < 12 && fields[3 + j] == IdText(id)
    requires id.Some? ==> id.value < TWO_31
    ensures GsaId(line, j) == if id.None? then None else Some(id.value)
  {
    hide Field, StrToInt, Digits;
    if id.Some? { IdReads(id.value); }
  }

  lemma IdReads(n: nat)
    requires n < TWO_31
    ensures Digits(n) != [] && StrToInt(Digits(n)) == n
  {
    hide StrToInt;
    ReadsDigits(n);
  }

  // ----- what is not looked at -----

  /** A line is passed over exactly if it has fewer than 9 bytes or an identifier of fewer than 5. */
  lemma IgnoredIff(line: seq<byte>)
    ensures Decode(line) == Ignored <==> |line| < 9 || |Field(line, 0)| < 5
  {
    hide Field, StrToInt;
  }
}
