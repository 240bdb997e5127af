/**
 What sentences leave with a talker of the YGPS parser, field by field and over runs: which text a
 number is read from, which field a value comes from, and which satellites are flagged as used.
 */
module TalkerFields {
  import opened Bytes
  import opened TalkerState

  // ----- text -----

  predicate OccursAt(s: string, part: string, k: int) {
    0 <= k <= |s| - |part| && s[k..k + |part|] == part
  }

  /** An occurrence in a text is one at its beginning or one in the rest. */
  lemma OccursStep(s: string, part: string, k: int)
    requires s != ""
    ensures OccursAt(s, part, 0) <==> part <= s
    ensures k > 0 ==> (OccursAt(s, part, k) <==> OccursAt(s[1..], part, k - 1))
  {
    if 0 < k <= |s| - |part| {
      var here, there := s[k..k + |part|], s[1..][k - 1..k - 1 + |part|];
      forall j | 0 <= j < |part|
        ensures here[j] == there[j]
      {
        assert here[j] == s[k + j] == s[1..][k - 1 + j] == there[j];
      }
      assert here == there;
    }
  }

  lemma {:induction false} ContainsIff(s: string, part: string)
    ensures Contains(s, part) <==> exists k :: OccursAt(s, part, k)
    decreases |s|
  {
    if s == "" {
      if part == "" { assert OccursAt(s, part, 0); }
    } else {
      ContainsIff(s[1..], part);
      OccursStep(s, part, 0);
      hide OccursAt;
      if exists k :: OccursAt(s[1..], part, k) {
        var k :| OccursAt(s[1..], part, k);
        OccursNonnegative(s[1..], part, k);
        OccursStep(s, part, k + 1);
        assert OccursAt(s, part, k + 1);
      }
      if exists k :: OccursAt(s, part, k) {
        var k :| OccursAt(s, part, k);
        OccursNonnegative(s, part, k);
        OccursStep(s, part, k);
      }
    }
  }

  lemma OccursNonnegative(s: string, part: string, k: int)
    requires OccursAt(s, part, k)
    ensures k >= 0
  {
  }

  /** The talker of a sentence, and the colour its satellites are shown in. */
  lemma TalkerIs(record: string)
    ensures CheckTalker(record) == "GP" <==> Contains(record, "GP")
    ensures CheckTalker(record) == "GL" <==> Contains(record, "GL") && !Contains(record, "GP")
    ensures CheckTalker(record) == "GA"
       <==> Contains(record, "GA") && !Contains(record, "GP") && !Contains(record, "GL")
    ensures CheckTalker(record) == "BD"
       <==> Contains(record, "BD") && !Contains(record, "GP") && !Contains(record, "GL") && !Contains(record, "GA")
    ensures CheckTalker(record) in {"GP", "GL", "GA", "BD", "none"}
    ensures Color("GP") == 0xff00ffff && Color("GL") == 0xffffff00 && Color("GA") == 0xffffffff
    ensures Color("BD") == 0xff0000ff && Color("none") == 0xffff0000
  {
    hide Contains;
  }

  function Written(fields: seq<string>): string
    requires fields != []
  {
    if |fields| == 1 then fields[0] else fields[0] + "," + Written(fields[1..])
  }

  lemma {:induction false} SplitAllCons(f: string, rest: string)
    requires ',' !in f
    ensures SplitAll(f) == [f]
    ensures SplitAll(f + "," + rest) == [f] + SplitAll(rest)
  {
    if f != "" {
      SplitAllCons(f[1..], rest);
      assert (f + "," + rest)[1..] == f[1..] + "," + rest;
      assert [f[0]] + f[1..] == f;
      assert [[f[0]] + f[1..]] + SplitAll(rest) == [f] + SplitAll(rest);
    } else {
      assert "" + "," + rest == "," + rest;
      assert ("," + rest)[1..] == rest;
    }
  }

  lemma {:induction false} SplitAllWritten(fields: seq<string>)
    requires fields != [] && forall i :: 0 <= i < |fields| ==> ',' !in fields[i]
    ensures SplitAll(Written(fields)) == fields
  {
    hide SplitAll;
    if |fields| == 1 {
      SplitAllCons(fields[0], "");
      assert fields == [fields[0]];
    } else {
      SplitAllCons(fields[0], Written(fields[1..]));
      SplitAllWritten(fields[1..]);
      assert fields == [fields[0]] + fields[1..];
    }
  }

  /** Splitting gives back the fields a sentence was written with, unless the last is empty. */
  lemma SplitWritten(fields: seq<string>)
    requires |fields| > 1 && forall i :: 0 <= i < |fields| ==> ',' !in fields[i]
    requires fields[|fields| - 1] != ""
    ensures Split(Written(fields)) == fields
  {
    SplitAllWritten(fields);
    assert ',' in fields[0] + "," + Written(fields[1..]);
  }

  /** Which of the four kinds a written sentence is read as. */
  lemma WrittenSentence(t: Talker, fields: seq<string>)
    requires |fields| > 1 && fields[|fields| - 1] != "" && forall i :: 0 <= i < |fields| ==> ',' !in fields[i]
    ensures var record := Written(fields);
            var rmc, gsa := Contains(record, "RMC"), Contains(record, "GSA");
            var gga, gsv := Contains(record, "GGA"), Contains(record, "GSV");
            && (rmc ==> Apply(t, record) == ApplyRmc(t, fields))
            && (gsa && !rmc ==> Apply(t, record) == ApplyGsa(t, fields))
            && (gga && !rmc && !gsa ==> Apply(t, record) == ApplyGga(t, fields))
            && (gsv && !rmc && !gsa && !gga ==> Apply(t, record) == ApplyGsv(t, fields, Color(CheckTalker(record))))
            && (!rmc && !gsa && !gga && !gsv ==> Apply(t, record) == t)
  {
    hide Contains, Split, ApplyRmc, ApplyGsa, ApplyGga, ApplyGsv, CheckTalker, Color;
    SplitWritten(fields);
  }

  // ----- numbers -----

  /** The number is the text without its leading zeros; an empty text is the number of no text. */
  predicate Reads(n: Number, text: string) {
    if text == "" then n.text == ""
    else
      && 0 < |n.text| <= |text| && n.text[0] != '0'
      && text[|text| - |n.text|..] == n.text
      && forall i :: 0 <= i < |text| - |n.text| ==> text[i] == '0'
  }

  lemma {:induction false} RemovedZeros(s: string)
    requires RemoveFirstZero(s).Some?
    ensures Reads(Number(RemoveFirstZero(s).value), s) && s != ""
  {
    if s[0] == '0' {
      RemovedZeros(s[1..]);
      var t := RemoveFirstZero(s).value;
      assert s[|s| - |t|..] == s[1..][|s[1..]| - |t|..];
      assert forall i :: 0 < i < |s| - |t| ==> s[i] == s[1..][i - 1];
    }
  }

  /** A field that is not zeros only is read as its text without leading zeros. */
  lemma NumberReads(text: string)
    ensures ParseNumber(text).Some? <==> text == "" || exists i :: 0 <= i < |text| && text[i] != '0'
    ensures ParseNumber(text).Some? ==> Reads(ParseNumber(text).value, text)
  {
    ZerosThrow(text);
    if text != "" && ParseNumber(text).Some? { RemovedZeros(text); }
  }

  /** The text of a signal strength: up to the checksum's star. */
  function BeforeChecksum(text: string): string {
    if text == "" || text[0] == '*' then "" else [text[0]] + BeforeChecksum(text[1..])
  }

  lemma {:induction false} BeforeChecksumIs(text: string)
    ensures BeforeChecksum(text) <= text && '*' !in BeforeChecksum(text)
    ensures |BeforeChecksum(text)| < |text| ==> text[|BeforeChecksum(text)|] == '*'
    ensures UpToStar(text) == BeforeChecksum(text)
  {
    if text != "" && text[0] != '*' { BeforeChecksumIs(text[1..]); }
  }

  lemma SnrReads(text: string)
    requires ParseSnr(text).Some?
    ensures Reads(ParseSnr(text).value, BeforeChecksum(text))
  {
    hide ParseNumber, Reads, BeforeChecksum, UpToStar;
    BeforeChecksumIs(text);
    NumberReads(text);
    NumberReads(BeforeChecksum(text));
    if '*' !in text { NoChecksum(text); }
  }

  lemma {:induction false} NoChecksum(text: string)
    requires '*' !in text
    ensures BeforeChecksum(text) == text
  {
    if text != "" { NoChecksum(text[1..]); }
  }

  // ----- GGA and RMC -----

  predicate Unreadable(text: string) {
    text != "" && forall i :: 0 <= i < |text| ==> text[i] == '0'
  }

  lemma UnreadableIff(text: string)
    ensures ParseNumber(text).None? <==> Unreadable(text)
  {
    NumberReads(text);
  }

  /**
   A GGA sentence takes the time from field 1, the latitude from field 2, negated unless field 3 is
   N, the longitude from field 4, negated unless field 5 is E, and the altitude from field 9, if all
   four can be read; otherwise, and in everything else, the talker stays as it was.
   */
  lemma GgaFields(t: Talker, v: seq<string>)
    ensures var r := ApplyGga(t, v);
            && r == t.(location := r.location)
            && r.location == t.location.(time := r.location.time, altitude := r.location.altitude,
                                         latitude := r.location.latitude, longitude := r.location.longitude)
            && (if t.known && |v| >= 10
                   && !Unreadable(v[1]) && !Unreadable(v[2]) && !Unreadable(v[4]) && !Unreadable(v[9])
                then
                  && Reads(r.location.time, v[1]) && Reads(r.location.altitude, v[9])
                  && Reads(r.location.latitude.value, v[2]) && (r.location.latitude.negated <==> v[3] != "N")
                  && Reads(r.location.longitude.value, v[4]) && (r.location.longitude.negated <==> v[5] != "E")
                else r == t)
  {
    hide ParseNumber, Reads, Unreadable;
    if |v| >= 10 {
      Readings(v[1]);
      Readings(v[2]);
      Readings(v[4]);
      Readings(v[9]);
    }
  }

  lemma Readings(text: string)
    ensures ParseNumber(text).None? <==> Unreadable(text)
    ensures ParseNumber(text).Some? ==> Reads(ParseNumber(text).value, text)
  {
    NumberReads(text);
  }

  /**
   An RMC sentence that is valid (A in field 2) takes the latitude from field 3, negated unless
   field 4 is N, the longitude from field 5, negated unless field 6 is E, both zero if one of them is
   empty; the speed from field 7 and the bearing from field 8, due south if that cannot be read. If
   the speed or a position that is given cannot be read, nothing changes, and nothing else ever does.
   */
  lemma RmcFields(t: Talker, v: seq<string>)
    ensures var r := ApplyRmc(t, v);
            && r == t.(location := r.location)
            && r.location == t.location.(latitude := r.location.latitude, longitude := r.location.longitude,
                                         bearing := r.location.bearing, speed := r.location.speed)
            && (if t.known && |v| >= 9 && v[2] == "A" && !Unreadable(v[7])
                   && (v[3] == "" || v[5] == "" || (!Unreadable(v[3]) && !Unreadable(v[5])))
                then
                  && Reads(r.location.speed, v[7])
                  && (if v[8] == "" then r.location.bearing == NoCourse
                      else if Unreadable(v[8]) then r.location.bearing == South
                      else r.location.bearing.Course? && Reads(r.location.bearing.value, v[8]))
                  && (if v[3] == "" || v[5] == ""
                      then r.location.latitude == r.location.longitude == Angle(Number(""), false)
                      else
                        && Reads(r.location.latitude.value, v[3]) && (r.location.latitude.negated <==> v[4] != "N")
                        && Reads(r.location.longitude.value, v[5]) && (r.location.longitude.negated <==> v[6] != "E"))
                else r == t)
  {
    hide ParseNumber, Reads, Unreadable;
    if |v| >= 9 {
      Readings(v[3]);
      Readings(v[5]);
      Readings(v[7]);
      Readings(v[8]);
    }
  }

  // ----- GSV -----

  /** The satellite is written in fields 4+4k to 7+4k. */
  predicate WrittenAt(sat: Sat, v: seq<string>, k: nat)
    requires 4 * k + 7 < |v|
  {
    && ParseInt(v[4 + 4 * k]) == Some(sat.prn) && sat.prn > 0
    && Reads(sat.elevation, v[5 + 4 * k])
    && Reads(sat.azimuth, v[6 + 4 * k])
    && Reads(sat.snr, BeforeChecksum(v[7 + 4 * k]))
  }

  /** The satellites among the first n of a GSV sentence that have a positive number, in order. */
  function Numbered(v: seq<string>, n: nat): (ks: seq<nat>)
    requires n <= SatCount(v)
    ensures forall j :: 0 <= j < |ks| ==> ks[j] < n
  {
    if n == 0 then []
    else
      var prn := ParseInt(v[4 + 4 * (n - 1)]);
      Numbered(v, n - 1) + if prn.Some? && prn.value > 0 then [n - 1] else []
  }

  lemma {:induction false} NumberedIs(v: seq<string>, n: nat)
    requires n <= SatCount(v)
    ensures forall i, j :: 0 <= i < j < |Numbered(v, n)| ==> Numbered(v, n)[i] < Numbered(v, n)[j]
    ensures forall k: nat :: k in Numbered(v, n) <==>
              k < n && ParseInt(v[4 + 4 * k]).Some? && ParseInt(v[4 + 4 * k]).value > 0
  {
    hide ParseInt;
    if n > 0 { NumberedIs(v, n - 1); }
  }

  /** The satellite added for the k-th of a sentence: as written, in the colour, flagged iff it is a used one. */
  predicate AddedAs(t: Talker, v: seq<string>, k: nat, color: int, sat: Sat) {
    && 4 * k + 7 < |v| && WrittenAt(sat, v, k) && sat.color == color
    && (sat.usedInFix <==> t.used.Some? && sat.prn in t.used.value)
  }

  lemma SatAtIsWritten(t: Talker, v: seq<string>, k: nat, color: int)
    requires k < SatCount(v) && SatAt(t, v, k, color).Some?
    ensures ParseInt(v[4 + 4 * k]) == Some(SatAt(t, v, k, color).value.prn)
    ensures SatAt(t, v, k, color).value.prn > 0 ==> AddedAs(t, v, k, color, SatAt(t, v, k, color).value)
  {
    hide ParseInt, ParseNumber, ParseSnr, Reads, BeforeChecksum;
    Readings(v[5 + 4 * k]);
    Readings(v[6 + 4 * k]);
    if ParseSnr(v[7 + 4 * k]).Some? { SnrReads(v[7 + 4 * k]); }
  }

  lemma {:induction false} ListedIs(t: Talker, v: seq<string>, n: nat, color: int)
    requires n <= SatCount(v) && forall k :: 0 <= k < n ==> SatAt(t, v, k, color).Some?
    ensures |Listed(t, v, n, color)| == |Numbered(v, n)|
    ensures forall j :: 0 <= j < |Numbered(v, n)| ==>
              AddedAs(t, v, Numbered(v, n)[j], color, Listed(t, v, n, color)[j])
  {
    hide AddedAs, SatAt, ParseInt;
    if n > 0 {
      ListedIs(t, v, n - 1, color);
      SatAtIsWritten(t, v, n - 1, color);
    }
  }

  /** `sats` is `base` with one satellite added for each of the first n of the sentence that has a positive number. */
  predicate Adds(t: Talker, v: seq<string>, n: nat, color: int, base: seq<Sat>, sats: seq<Sat>)
    requires n <= SatCount(v)
  {
    var ks := Numbered(v, n);
    && |sats| == |base| + |ks| && base <= sats
    && forall j :: 0 <= j < |ks| ==> AddedAs(t, v, ks[j], color, sats[|base| + j])
  }

  /**
   A GSV sentence adds one satellite for each positive number it lists, in order, up to the first
   satellite that cannot be read: with its elevation, azimuth and signal strength from the three
   fields behind the number, in the talker's colour, and flagged exactly when the number is among the
   talker's used ids. Message 1 of a positive number of messages begins the list anew. With an
   unreadable header, or of an unknown talker, the sentence changes nothing.
   */
  lemma GsvAddsWritten(t: Talker, v: seq<string>, n: nat, color: int)
    requires ReadableTo(t, v, n, color)
    ensures n <= SatCount(v)
    ensures var r := ApplyGsv(t, v, color);
            if t.known && |v| >= 3 && ParseInt(v[1]).Some? && ParseInt(v[2]).Some? then
              var anew := ParseInt(v[1]).value > 0 && ParseInt(v[2]).value == 1;
              Adds(t, v, n, color, if anew then [] else t.sats, r.sats)
            else r == t
  {
    hide ApplyGsv, Listed, AddedAs, Adds, ParseInt, SatAt, ReadableTo, Numbered, SatCount, SameUsed;
    ReadableSats(t, v, n, color);
    if t.known && HeaderReadable(v) {
      GsvExtendsExactly(t, v, n, color);
      ListedAdds(t, v, n, color, if FirstOfGroup(v) then [] else t.sats);
    } else {
      GsvUnchanged(t, v, color);
    }
  }

  lemma ListedAdds(t: Talker, v: seq<string>, n: nat, color: int, base: seq<Sat>)
    requires n <= SatCount(v) && forall k :: 0 <= k < n ==> SatAt(t, v, k, color).Some?
    ensures Adds(t, v, n, color, base, base + Listed(t, v, n, color))
  {
    hide AddedAs, SatAt, Numbered, Listed, SatCount;
    ListedIs(t, v, n, color);
    var listed := Listed(t, v, n, color);
    assert forall j :: 0 <= j < |listed| ==> (base + listed)[|base| + j] == listed[j];
  }

  lemma ReadableSats(t: Talker, v: seq<string>, n: nat, color: int)
    requires ReadableTo(t, v, n, color)
    ensures n <= SatCount(v) && forall k :: 0 <= k < n ==> SatAt(t, v, k, color).Some?
  {
  }

  lemma GsvUnchanged(t: Talker, v: seq<string>, color: int)
    requires !t.known || !HeaderReadable(v)
    ensures ApplyGsv(t, v, color) == t
  {
    hide GsvSats, ParseInt;
  }

  // ----- flags over runs -----

  /** The sentence is read as a GSA sentence, or as a GSV sentence that begins a group. */
  predicate IsGsa(record: string) {
    Contains(record, "GSA") && !Contains(record, "RMC")
  }

  predicate BeginsGroup(record: string) {
    && Contains(record, "GSV") && !Contains(record, "RMC") && !Contains(record, "GSA") && !Contains(record, "GGA")
    && var v := Split(record);
       HeaderReadable(v) && ParseInt(v[1]).value > 0 && ParseInt(v[2]).value == 1
  }

  /** The GSA sentence has a fix and names the satellite, or has it for its fix mode, in a field that is read. */
  ghost predicate UsedBy(known: bool, gsa: string, prn: int) {
    var v := Split(gsa);
    known && |v| >= 17 && v[2] != "1" && exists k: nat :: IdAt(v, 2, k, prn)
  }

  /** A GSA sentence takes every flag back and leaves exactly the ids it names. */
  lemma GsaFlagsNone(t: Talker, gsa: string)
    requires IsGsa(gsa)
    ensures var r := Apply(t, gsa);
            && |r.sats| == |t.sats|
            && (forall i :: 0 <= i < |r.sats| ==> r.sats[i] == t.sats[i].(usedInFix := false))
            && r.used.Some? && r.known == t.known
            && forall prn :: prn in r.used.value <==> UsedBy(t.known, gsa, prn)
  {
    hide ParseInt, GsaIds, Contains, Split, CheckTalker, Color;
    var v := Split(gsa);
    if |v| >= 17 {
      forall prn
        ensures prn in GsaIds(v, 2).0 <==> exists k: nat :: IdAt(v, 2, k, prn)
      {
        GsaIdsExact(v, 2, prn);
      }
    }
  }

  /** `r` is `t` with satellites added, each flagged exactly when its number is among the used ids. */
  ghost predicate AddsFlagged(t: Talker, r: Talker) {
    && t.sats <= r.sats && SameUsed(t, r) && r.known == t.known
    && (t.used.Some? ==> r.used.Some?)
    && forall i :: |t.sats| <= i < |r.sats| ==>
         (r.sats[i].usedInFix <==> t.used.Some? && r.sats[i].prn in t.used.value)
  }

  lemma {:induction false} GsvSatsFlagged(t: Talker, v: seq<string>, index: nat, color: int)
    ensures AddsFlagged(t, GsvSats(t, v, index, color).0)
    decreases |v| - index
  {
    hide ParseInt, ParseNumber, ParseSnr;
    if index + 3 < |v| && ParseInt(v[index]).Some? {
      var sat := MakeSat(t, ParseInt(v[index]).value, v, index, color);
      if sat.Some? { GsvSatsFlagged(AddSat(t, sat.value), v, index + 4, color); }
    }
  }

  /** Any sentence but GSA adds flagged satellites to the list, or to an empty one if it begins a group. */
  lemma OthersAddFlagged(t: Talker, record: string)
    requires !IsGsa(record)
    ensures AddsFlagged(if t.known && BeginsGroup(record) then t.(sats := []) else t, Apply(t, record))
  {
    hide ParseInt, ParseNumber, GsvSats, Split, Contains, Color, CheckTalker, ParseCourse;
    var v := Split(record);
    var color := Color(CheckTalker(record));
    GsvSatsFlagged(t, v, 4, color);
    GsvSatsFlagged(t.(sats := []), v, 4, color);
  }

  /** How many satellites are still those of before, after these sentences of their talker. */
  function Remaining(t: Talker, records: seq<string>): nat {
    if records == [] then |t.sats|
    else if t.known && BeginsGroup(records[|records| - 1]) then 0
    else Remaining(t, records[..|records| - 1])
  }

  /**
   Since a talker's last GSA sentence: of the satellites listed before it, those still there are not
   flagged; a satellite added since is flagged exactly when that sentence used it. That holds
   whatever came before and whatever other sentences came since, thrown ones included.
   */
  lemma {:induction false} FlagsSinceGsa(t: Talker, gsa: string, records: seq<string>)
    requires IsGsa(gsa) && forall i :: 0 <= i < |records| ==> !IsGsa(records[i])
    ensures var start := Apply(t, gsa);
            var r := ApplyAll(start, records);
            var m := Remaining(start, records);
            && m <= |r.sats| && m <= |start.sats| && r.known == t.known && r.used.Some?
            && (forall prn :: prn in r.used.value <==> UsedBy(t.known, gsa, prn))
            && r.sats[..m] == start.sats[..m]
            && (forall i :: 0 <= i < m ==> !r.sats[i].usedInFix)
            && (forall i :: m <= i < |r.sats| ==> (r.sats[i].usedInFix <==> UsedBy(t.known, gsa, r.sats[i].prn)))
  {
    hide Apply, IsGsa, BeginsGroup, UsedBy;
    GsaFlagsNone(t, gsa);
    if records != [] {
      var init, last := records[..|records| - 1], records[|records| - 1];
      FlagsSinceGsa(t, gsa, init);
      OthersAddFlagged(ApplyAll(Apply(t, gsa), init), last);
    }
  }
}
