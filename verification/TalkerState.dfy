/**
 What one NMEA sentence means to the YGPS parser, for the talker it comes from.

 Java exceptions end a sentence early; what was changed before stays changed. Functions that may
 throw return None for that. Floating-point numbers are kept as the text that is parsed: Number("")
 is 0, as is any text Java's parser refuses.
 */
module TalkerState {
  import opened Bytes

  datatype Number = Number(text: string)
  const ZERO := Number("")

  datatype Angle = Angle(value: Number, negated: bool)

  datatype Course = NoCourse | Course(value: Number) | South

  datatype Location = Location(latitude: Angle, longitude: Angle, altitude: Number, time: Number,
                               bearing: Course, speed: Number)

  datatype Extra = Extra(pdop: string, hdop: string, vdop: string, fixType: string)

  datatype Sat = Sat(prn: int, snr: Number, elevation: Number, azimuth: Number, usedInFix: bool, color: int)

  /** All the parser holds under one talker's name. `used` is None until a list has been made. */
  datatype Talker = Talker(known: bool, sats: seq<Sat>, used: Option<seq<int>>, location: Location, extra: Extra)

  const NO_LOCATION := Location(Angle(ZERO, false), Angle(ZERO, false), ZERO, ZERO, NoCourse, ZERO)
  const NO_EXTRA := Extra("", "", "", "")

  const TALKERS: seq<string> := ["GP", "GL", "GA", "BD"]
  const NONE := "none"

  function Fresh(t: string): Talker {
    Talker(t in TALKERS, [], None, NO_LOCATION, NO_EXTRA)
  }

  // ----- text -----

  function Contains(s: string, part: string): bool
    decreases |s|
  {
    part <= s || (s != "" && Contains(s[1..], part))
  }

  function CheckTalker(record: string): string {
    if Contains(record, "GP") then "GP"
    else if Contains(record, "GL") then "GL"
    else if Contains(record, "GA") then "GA"
    else if Contains(record, "BD") then "BD"
    else NONE
  }

  function Color(talker: string): int {
    match talker
    case "GP" => 0xff00ffff
    case "GL" => 0xffffff00
    case "GA" => 0xffffffff
    case "BD" => 0xff0000ff
    case _ => 0xffff0000
  }

  function SplitAll(s: string): (parts: seq<string>)
    ensures |parts| > 0
  {
    if s == "" then [""]
    else
      var rest := SplitAll(s[1..]);
      if s[0] == ',' then [""] + rest else [[s[0]] + rest[0]] + rest[1..]
  }

  function DropTrailingEmpty(parts: seq<string>): seq<string> {
    if parts != [] && parts[|parts| - 1] == "" then DropTrailingEmpty(parts[..|parts| - 1]) else parts
  }

  /** String.split("[,]"): empty strings at the end are dropped, unless there was nothing to split. */
  function Split(s: string): seq<string> {
    if ',' in s then DropTrailingEmpty(SplitAll(s)) else [s]
  }

  /** removeFirstZero: None when it runs off a string of zeros. */
  function RemoveFirstZero(s: string): Option<string> {
    if s == "" then None else if s[0] == '0' then RemoveFirstZero(s[1..]) else Some(s)
  }

  predicate Digits(s: string) {
    s != "" && forall i :: 0 <= i < |s| ==> '0' <= s[i] <= '9'
  }

  function DecimalValue(s: string): nat
    requires forall i :: 0 <= i < |s| ==> '0' <= s[i] <= '9'
  {
    if s == "" then 0 else 10 * DecimalValue(s[..|s| - 1]) + (s[|s| - 1] - '0') as int
  }

  /** Integer.valueOf, with 0 for what it refuses. */
  function IntegerValue(s: string): int {
    var signed := s != "" && s[0] in {'-', '+'};
    var digits := if signed then s[1..] else s;
    if !Digits(digits) then 0
    else
      var n := if signed && s[0] == '-' then 0 - DecimalValue(digits) else DecimalValue(digits);
      if -TWO_31 <= n < TWO_31 then n else 0
  }

  function ParseInt(s: string): Option<int> {
    if s == "" then Some(0)
    else match RemoveFirstZero(s) case None => None case Some(t) => Some(IntegerValue(t))
  }

  /** parseFloat and parseDouble. */
  function ParseNumber(s: string): Option<Number> {
    if s == "" then Some(ZERO)
    else match RemoveFirstZero(s) case None => None case Some(t) => Some(Number(t))
  }

  /** The part before the first '*' as split("\\*")[0] gives it; None when only stars are there. */
  function BeforeStar(s: string): Option<string> {
    if forall i :: 0 <= i < |s| ==> s[i] == '*' then None else Some(UpToStar(s))
  }

  function UpToStar(s: string): string {
    if s == "" || s[0] == '*' then "" else [s[0]] + UpToStar(s[1..])
  }

  /** A signal strength, possibly followed by the checksum. */
  function ParseSnr(s: string): Option<Number> {
    if '*' in s then (match BeforeStar(s) case None => None case Some(t) => ParseNumber(t)) else ParseNumber(s)
  }

  // ----- RMC and GGA -----

  function ParseCourse(s: string): Course {
    if s == "" then NoCourse else match ParseNumber(s) case None => South case Some(n) => Course(n)
  }

  function ApplyRmc(t: Talker, v: seq<string>): Talker {
    if |v| < 9 || ParseNumber(v[7]).None? then t
    else
      var given := v[5] != "" && v[3] != "";
      if given && (ParseNumber(v[5]).None? || ParseNumber(v[3]).None?) then t
      else if v[2] != "A" || !t.known then t
      else
        var longitude := if given then Angle(ParseNumber(v[5]).value, v[6] != "E") else Angle(ZERO, false);
        var latitude := if given then Angle(ParseNumber(v[3]).value, v[4] != "N") else Angle(ZERO, false);
        t.(location := t.location.(latitude := latitude, longitude := longitude,
                                   bearing := ParseCourse(v[8]), speed := ParseNumber(v[7]).value))
  }

  function ApplyGga(t: Talker, v: seq<string>): Talker {
    if |v| < 10 || ParseNumber(v[1]).None? || ParseNumber(v[2]).None?
       || ParseNumber(v[4]).None? || ParseNumber(v[9]).None?
    then t
    else if !t.known then t
    else t.(location := t.location.(time := ParseNumber(v[1]).value, altitude := ParseNumber(v[9]).value,
                                    latitude := Angle(ParseNumber(v[2]).value, v[3] != "N"),
                                    longitude := Angle(ParseNumber(v[4]).value, v[5] != "E")))
  }

  // ----- GSA -----

  function Unflag(sats: seq<Sat>): (r: seq<Sat>)
    ensures |r| == |sats|
  {
    seq(|sats|, i requires 0 <= i < |sats| => sats[i].(usedInFix := false))
  }

  /** The ids in fields i..14, up to the first that throws; the loop starts at field 2, the fix mode. */
  function GsaIds(v: seq<string>, i: nat): (r: (seq<int>, bool))
    requires i <= 15 <= |v|
    decreases 15 - i
  {
    if i == 15 then ([], false)
    else match ParseInt(v[i])
      case None => ([], true)
      case Some(prn) =>
        var (ids, thrown) := GsaIds(v, i + 1);
        (if prn > 0 then [prn] + ids else ids, thrown)
  }

  function ApplyGsa(t: Talker, v: seq<string>): Talker {
    if t.known && |v| >= 17 && v[2] != "1" then
      var (ids, thrown) := GsaIds(v, 2);
      var t1 := t.(sats := Unflag(t.sats), used := Some(ids), extra := t.extra.(fixType := v[2]));
      if thrown then t1
      else
        var t2 := t1.(extra := t1.extra.(pdop := v[15], hdop := v[16]));
        if |v| == 17 then t2 else t2.(extra := t2.extra.(vdop := v[17]))
    else t.(sats := Unflag(t.sats), used := Some([]))
  }

  // ----- GSV -----

  function MakeSat(t: Talker, prn: int, v: seq<string>, index: nat, color: int): Option<Sat>
    requires index + 3 < |v|
  {
    match ParseNumber(v[index + 1])
    case None => None
    case Some(elevation) =>
      match ParseNumber(v[index + 2])
      case None => None
      case Some(azimuth) =>
        match ParseSnr(v[index + 3])
        case None => None
        case Some(snr) =>
          Some(Sat(prn, snr, elevation, azimuth, t.used.Some? && prn in t.used.value, color))
  }

  /** Adds a satellite; looking its id up creates the used list if there was none. */
  function AddSat(t: Talker, sat: Sat): Talker {
    if sat.prn > 0 then t.(sats := t.sats + [sat], used := Some(if t.used.Some? then t.used.value else [])) else t
  }

  /** The satellites from field `index` on, up to the first that throws. */
  function GsvSats(t: Talker, v: seq<string>, index: nat, color: int): (r: (Talker, bool))
    decreases |v| - index
  {
    if index + 3 >= |v| then (t, false)
    else match ParseInt(v[index])
      case None => (t, true)
      case Some(prn) =>
        match MakeSat(t, prn, v, index, color)
        case None => (t, true)
        case Some(sat) => GsvSats(AddSat(t, sat), v, index + 4, color)
  }

  function ApplyGsv(t: Talker, v: seq<string>, color: int): Talker {
    if !t.known || |v| < 3 || ParseInt(v[1]).None? || ParseInt(v[2]).None? then t
    else
      var t1 := if ParseInt(v[1]).value > 0 && ParseInt(v[2]).value == 1 then t.(sats := []) else t;
      GsvSats(t1, v, 4, color).0
  }

  /** A sentence's effect on the talker it is attributed to. */
  function Apply(t: Talker, record: string): Talker {
    var v := Split(record);
    if Contains(record, "RMC") then ApplyRmc(t, v)
    else if Contains(record, "GSA") then ApplyGsa(t, v)
    else if Contains(record, "GGA") then ApplyGga(t, v)
    else if Contains(record, "GSV") then ApplyGsv(t, v, Color(CheckTalker(record)))
    else t
  }

  // ----- numbers with leading zeros -----

  predicate AllZeros(s: string) {
    forall i :: 0 <= i < |s| ==> s[i] == '0'
  }

  /** Any number field throws exactly when it is made of zeros only; so "0" and "000" abort a sentence. */
  lemma {:induction false} ZerosThrow(s: string)
    ensures RemoveFirstZero(s).None? <==> AllZeros(s)
    ensures ParseInt(s).None? <==> s != "" && AllZeros(s)
    ensures ParseNumber(s).None? <==> s != "" && AllZeros(s)
  {
    if s != "" && s[0] == '0' {
      ZerosThrow(s[1..]);
      assert AllZeros(s) <==> AllZeros(s[1..]);
    }
  }

  lemma {:induction false} LeadingZero(s: string)
    requires Digits(s) && s[0] == '0'
    ensures forall i :: 0 <= i < |s[1..]| ==> '0' <= s[1..][i] <= '9'
    ensures DecimalValue(s) == DecimalValue(s[1..])
  {
    assert forall i :: 0 <= i < |s[1..]| ==> s[1..][i] == s[i + 1];
    if |s| > 1 {
      var init := s[..|s| - 1];
      LeadingZero(init);
      assert init[1..] == s[1..][..|s[1..]| - 1];
    }
  }

  /** Every other decimal field is read as the number it writes, leading zeros or not. */
  lemma {:induction false} ParseIntReadsDecimals(s: string)
    requires Digits(s) && !AllZeros(s) && DecimalValue(s) < TWO_31
    ensures ParseInt(s) == Some(DecimalValue(s))
  {
    if s[0] == '0' {
      LeadingZero(s);
      var rest := s[1..];
      assert forall i :: 0 <= i < |rest| ==> rest[i] == s[i + 1];
      assert Digits(rest) && !AllZeros(rest);
      ParseIntReadsDecimals(rest);
    }
  }

  // ----- what GSA and GSV sentences record -----

  /** Field k holds id `prn`, and no field from 2 up to it throws. */
  ghost predicate IdAt(v: seq<string>, first: nat, k: nat, prn: int)
    requires 15 <= |v|
  {
    && first <= k < 15 && prn > 0 && ParseInt(v[k]) == Some(prn)
    && forall j :: first <= j < k ==> ParseInt(v[j]).Some?
  }

  /** The used ids are the positive numbers in fields 2 to 14, as far as the sentence is read. */
  lemma {:induction false} GsaIdsExact(v: seq<string>, i: nat, prn: int)
    requires i <= 15 <= |v|
    ensures prn in GsaIds(v, i).0 <==> exists k: nat :: IdAt(v, i, k, prn)
    decreases 15 - i
  {
    hide ParseInt;
    if i < 15 {
      GsaIdsExact(v, i + 1, prn);
      if ParseInt(v[i]) == Some(prn) && prn > 0 { assert IdAt(v, i, i, prn); }
      if ParseInt(v[i]).Some? {
        var next := i + 1;
        if exists k: nat :: IdAt(v, next, k, prn) {
          var k: nat :| IdAt(v, next, k, prn);
          assert IdAt(v, i, k, prn);
        }
        if exists k: nat :: IdAt(v, i, k, prn) {
          var k: nat :| IdAt(v, i, k, prn);
          if k > i { assert IdAt(v, next, k, prn); }
        }
      }
    }
  }

  lemma {:induction false} GsaThrowsIff(v: seq<string>, i: nat)
    requires i <= 15 <= |v|
    ensures GsaIds(v, i).1 <==> exists k :: i <= k < 15 && ParseInt(v[k]).None?
    decreases 15 - i
  {
    hide ParseInt;
    if i < 15 { GsaThrowsIff(v, i + 1); }
  }

  /** The sentence names this satellite, in fields 3 to 14. */
  ghost predicate Named(v: seq<string>, prn: int)
    requires |v| >= 15
  {
    exists k :: 3 <= k < 15 && ParseInt(v[k]) == Some(prn)
  }

  /**
   The used ids are all satellites the sentence names exactly when there is no fix, the fix mode is
   not a positive number, or a satellite of that very number is named.
   */
  lemma UsedIdsAreNamedIff(t: Talker, v: seq<string>)
    requires t.known && |v| >= 17
    ensures ApplyGsa(t, v).used.Some?
    ensures (forall prn :: prn in ApplyGsa(t, v).used.value ==> Named(v, prn))
       <==> || v[2] == "1" || ParseInt(v[2]).None? || ParseInt(v[2]).value <= 0
            || Named(v, ParseInt(v[2]).value)
  {
    hide ParseInt, GsaIds;
    if v[2] != "1" {
      var used := ApplyGsa(t, v).used.value;
      forall prn
        ensures prn in used <==> exists k: nat :: IdAt(v, 2, k, prn)
      {
        GsaIdsExact(v, 2, prn);
      }
      forall prn | prn in used && ParseInt(v[2]) != Some(prn)
        ensures Named(v, prn)
      {
        var k: nat :| IdAt(v, 2, k, prn);
        assert k != 2;
      }
      if ParseInt(v[2]).Some? && ParseInt(v[2]).value > 0 {
        assert IdAt(v, 2, 2, ParseInt(v[2]).value);
      }
    }
  }

  /** A satellite field, or the fix mode, that is zeros only. */
  predicate ZeroField(v: seq<string>, k: nat)
    requires k < |v|
  {
    v[k] != "" && AllZeros(v[k])
  }

  /** A GSA sentence with a fix always leaves its fix mode, but its dilutions only if no field from 2 to 14 is zeros. */
  lemma GsaDilutionsIff(t: Talker, v: seq<string>)
    requires t.known && |v| >= 17 && v[2] != "1"
    ensures var kept := t.extra.(fixType := v[2]);
            ApplyGsa(t, v).extra ==
              if exists k :: 2 <= k < 15 && ZeroField(v, k) then kept
              else kept.(pdop := v[15], hdop := v[16], vdop := if |v| == 17 then t.extra.vdop else v[17])
  {
    GsaThrowsIff(v, 2);
    hide ParseInt, GsaIds;
    forall k | 2 <= k < 15
      ensures ParseInt(v[k]).None? <==> ZeroField(v, k)
    {
      ZerosThrow(v[k]);
    }
  }

  /** Field 2 is the fix mode: a 3D fix counts satellite 3 as used, a 2D fix satellite 2, listed or not. */
  lemma FixModeCountsAsSatellite(t: Talker, v: seq<string>, mode: int)
    requires t.known && |v| >= 17 && v[2] != "1" && ParseInt(v[2]) == Some(mode) && mode > 0
    ensures ApplyGsa(t, v).used.Some? && mode in ApplyGsa(t, v).used.value
  {
  }

  /** How many complete satellites a GSV sentence has. */
  function SatCount(v: seq<string>): nat {
    if |v| < 8 then 0 else (|v| - 4) / 4
  }

  /** The k-th satellite of a GSV sentence, marked by the talker's used ids. */
  function SatAt(t: Talker, v: seq<string>, k: nat, color: int): Option<Sat>
    requires k < SatCount(v)
  {
    match ParseInt(v[4 + 4 * k]) case None => None case Some(prn) => MakeSat(t, prn, v, 4 + 4 * k, color)
  }

  /** The first n satellites with a positive number, in order. */
  function Listed(t: Talker, v: seq<string>, n: nat, color: int): seq<Sat>
    requires n <= SatCount(v) && forall k :: 0 <= k < n ==> SatAt(t, v, k, color).Some?
  {
    if n == 0 then []
    else
      var sat := SatAt(t, v, n - 1, color).value;
      Listed(t, v, n - 1, color) + if sat.prn > 0 then [sat] else []
  }

  predicate SameUsed(t: Talker, u: Talker) {
    (if t.used.Some? then t.used.value else []) == (if u.used.Some? then u.used.value else [])
  }

  lemma {:induction false} ListedSameUsed(t: Talker, u: Talker, v: seq<string>, n: nat, color: int)
    requires SameUsed(t, u) && n <= SatCount(v) && forall k :: 0 <= k < n ==> SatAt(t, v, k, color).Some?
    ensures forall k :: 0 <= k < n ==> SatAt(u, v, k, color) == SatAt(t, v, k, color)
    ensures Listed(u, v, n, color) == Listed(t, v, n, color)
  {
    hide ParseInt, ParseNumber, ParseSnr;
    if n > 0 { ListedSameUsed(t, u, v, n - 1, color); }
  }

  lemma {:induction false} GsvSatsFrom(t: Talker, u: Talker, v: seq<string>, k: nat, n: nat, color: int)
    requires k <= n && ReadableTo(t, v, n, color)
    requires SameUsed(t, u) && u == t.(used := u.used, sats := t.sats + Listed(t, v, k, color))
    ensures var (r, thrown) := GsvSats(u, v, 4 + 4 * k, color);
            && (thrown <==> n < SatCount(v)) && SameUsed(t, r)
            && r == t.(used := r.used, sats := t.sats + Listed(t, v, n, color))
    decreases n - k
  {
    hide GsvSats, SatAt;
    GsvStep(u, v, k, color);
    ListedSameUsed(t, u, v, n, color);
    if k < n {
      var sat := SatAt(t, v, k, color).value;
      GsvSatsFrom(t, AddSat(u, sat), v, k + 1, n, color);
    } else if n < SatCount(v) {
      SatAtSameUsed(t, u, v, n, color);
    }
  }

  /** The first n satellites of a GSV sentence can be read, and then comes the end or one that cannot. */
  predicate ReadableTo(t: Talker, v: seq<string>, n: nat, color: int) {
    && n <= SatCount(v) && (forall j :: 0 <= j < n ==> SatAt(t, v, j, color).Some?)
    && (n < SatCount(v) ==> SatAt(t, v, n, color).None?)
  }

  lemma SatAtSameUsed(t: Talker, u: Talker, v: seq<string>, k: nat, color: int)
    requires SameUsed(t, u) && k < SatCount(v)
    ensures SatAt(u, v, k, color) == SatAt(t, v, k, color)
  {
    hide ParseInt, ParseNumber, ParseSnr;
  }

  /** One turn of the GSV loop. */
  lemma GsvStep(u: Talker, v: seq<string>, k: nat, color: int)
    requires k <= SatCount(v)
    ensures k == SatCount(v) ==> GsvSats(u, v, 4 + 4 * k, color) == (u, false)
    ensures k < SatCount(v) && SatAt(u, v, k, color).None? ==> GsvSats(u, v, 4 + 4 * k, color) == (u, true)
    ensures k < SatCount(v) && SatAt(u, v, k, color).Some? ==>
              GsvSats(u, v, 4 + 4 * k, color)
              == GsvSats(AddSat(u, SatAt(u, v, k, color).value), v, 4 + 4 * (k + 1), color)
  {
  }

  predicate HeaderReadable(v: seq<string>) {
    |v| >= 3 && ParseInt(v[1]).Some? && ParseInt(v[2]).Some?
  }

  predicate FirstOfGroup(v: seq<string>)
    requires HeaderReadable(v)
  {
    ParseInt(v[1]).value > 0 && ParseInt(v[2]).value == 1
  }

  /**
   A GSV sentence of a known talker with a readable header: the first of a group replaces the list,
   the others extend it, by exactly the satellites in front of the first that cannot be read, in
   order; used ids, location and the rest stay.
   */
  lemma GsvExtendsExactly(t: Talker, v: seq<string>, n: nat, color: int)
    requires t.known && HeaderReadable(v) && ReadableTo(t, v, n, color)
    ensures var r := ApplyGsv(t, v, color);
            && SameUsed(t, r)
            && r == t.(used := r.used,
                       sats := (if FirstOfGroup(v) then [] else t.sats) + Listed(t, v, n, color))
  {
    hide ParseInt, MakeSat;
    var t1 := if FirstOfGroup(v) then t.(sats := []) else t;
    ListedSameUsed(t, t1, v, n, color);
    if n < SatCount(v) { SatAtSameUsed(t, t1, v, n, color); }
    assert t1.sats + Listed(t1, v, 0, color) == t1.sats;
    GsvSatsFrom(t1, t1, v, 0, n, color);
  }

  // ----- flagged satellites are used satellites -----

  /** Every satellite shown as used has its id in the current list of used ids. */
  ghost predicate FlagsHonest(t: Talker) {
    forall i :: 0 <= i < |t.sats| && t.sats[i].usedInFix ==> t.used.Some? && t.sats[i].prn in t.used.value
  }

  lemma {:induction false} GsvSatsHonest(t: Talker, v: seq<string>, index: nat, color: int)
    requires FlagsHonest(t)
    ensures FlagsHonest(GsvSats(t, v, index, color).0)
    decreases |v| - index
  {
    hide ParseInt, ParseNumber, ParseSnr;
    if index + 3 < |v| && ParseInt(v[index]).Some? {
      var sat := MakeSat(t, ParseInt(v[index]).value, v, index, color);
      if sat.Some? { GsvSatsHonest(AddSat(t, sat.value), v, index + 4, color); }
    }
  }

  lemma ApplyKeepsFlagsHonest(t: Talker, record: string)
    requires FlagsHonest(t)
    ensures FlagsHonest(Apply(t, record))
  {
    hide ParseInt, ParseNumber, GsvSats, GsaIds, Split, Contains, Color, CheckTalker, ParseCourse;
    var v := Split(record);
    GsvSatsHonest(t, v, 4, Color(CheckTalker(record)));
    GsvSatsHonest(t.(sats := []), v, 4, Color(CheckTalker(record)));
  }

  // ----- runs -----

  function ApplyAll(t: Talker, records: seq<string>): Talker {
    if records == [] then t else Apply(ApplyAll(t, records[..|records| - 1]), records[|records| - 1])
  }

  /** The sentences attributed to talker `name`, in order. */
  function From(records: seq<string>, name: string): seq<string> {
    if records == [] then []
    else
      var before := From(records[..|records| - 1], name);
      var last := records[|records| - 1];
      if CheckTalker(last) == name then before + [last] else before
  }

  /** In every reachable state, even across sentences that throw part-way, the flags are honest. */
  lemma {:induction false} FlagsStayHonest(name: string, records: seq<string>)
    ensures FlagsHonest(ApplyAll(Fresh(name), records))
  {
    hide Apply;
    if records != [] {
      FlagsStayHonest(name, records[..|records| - 1]);
      ApplyKeepsFlagsHonest(ApplyAll(Fresh(name), records[..|records| - 1]), records[|records| - 1]);
    }
  }
}
