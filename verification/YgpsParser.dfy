/**
 The YGPS NMEA parser: four maps keyed by talker name, updated sentence by sentence, proved to
 treat each talker as TalkerState says and to leave the others alone.
 */
module YgpsParser {
  import opened Bytes
  import opened TalkerState

  /** removeFirstZero; None when charAt runs past the end. */
  method StripZeros(record: string) returns (r: Option<string>)
    ensures r == RemoveFirstZero(record)
  {
    var ind := 0;
    while ind < |record| && record[ind] == '0'
      invariant 0 <= ind <= |record|
      invariant RemoveFirstZero(record) == RemoveFirstZero(record[ind..])
    {
      ind := ind + 1;
    }
    if ind == |record| {
      return None;
    }
    r := Some(record[ind..]);
  }

  /** parseInt; None when removeFirstZero throws. */
  method ReadInt(str: string) returns (r: Option<int>)
    ensures r == ParseInt(str)
  {
    if str == "" {
      return Some(0);
    }
    var stripped := StripZeros(str);
    r := if stripped.None? then None else Some(IntegerValue(stripped.value));
  }

  /** parseFloat and parseDouble; None when removeFirstZero throws. */
  method ReadNumber(str: string) returns (r: Option<Number>)
    ensures r == ParseNumber(str)
  {
    if str == "" {
      return Some(ZERO);
    }
    var stripped := StripZeros(str);
    r := if stripped.None? then None else Some(Number(stripped.value));
  }

  /** checkTalker: the first talker name that occurs anywhere in the sentence. */
  method FindTalker(record: string) returns (result: string)
    ensures result == CheckTalker(record)
  {
    hide Contains;
    assert TALKERS[0] == "GP" && TALKERS[1] == "GL" && TALKERS[2] == "GA" && TALKERS[3] == "BD";
    result := NONE;
    var i := 0;
    while i < |TALKERS|
      invariant 0 <= i <= |TALKERS|
      invariant result == NONE
      invariant i > 0 ==> !Contains(record, "GP")
      invariant i > 1 ==> !Contains(record, "GL")
      invariant i > 2 ==> !Contains(record, "GA")
      invariant i > 3 ==> !Contains(record, "BD")
    {
      if Contains(record, TALKERS[i]) {
        result := TALKERS[i];
        break;
      }
      i := i + 1;
    }
  }

  method UnflagAll(svlist: seq<Sat>) returns (r: seq<Sat>)
    ensures r == Unflag(svlist)
  {
    r := svlist;
    var i := 0;
    while i < |r|
      invariant 0 <= i <= |r| == |svlist|
      invariant forall k :: 0 <= k < i ==> r[k] == svlist[k].(usedInFix := false)
      invariant forall k :: i <= k < |r| ==> r[k] == svlist[k]
    {
      r := r[i := r[i].(usedInFix := false)];
      i := i + 1;
    }
  }

  /** The four fields of one satellite; None when one of them throws. */
  method ReadFields(values: seq<string>, index: nat) returns (r: Option<(int, Number, Number, Number)>)
    requires index + 3 < |values|
    ensures r.Some? <==>
              && ParseInt(values[index]).Some? && ParseNumber(values[index + 1]).Some?
              && ParseNumber(values[index + 2]).Some? && ParseSnr(values[index + 3]).Some?
    ensures r.Some? ==>
              r.value == (ParseInt(values[index]).value, ParseNumber(values[index + 1]).value,
                          ParseNumber(values[index + 2]).value, ParseSnr(values[index + 3]).value)
  {
    hide ParseInt, ParseNumber;
    var number := ReadInt(values[index]);
    if number.None? {
      return None;
    }
    var elevation := ReadNumber(values[index + 1]);
    if elevation.None? {
      return None;
    }
    var azimuth := ReadNumber(values[index + 2]);
    if azimuth.None? {
      return None;
    }
    var snr := None;
    if '*' in values[index + 3] {
      var before := BeforeStar(values[index + 3]);
      if before.None? {
        return None;
      }
      snr := ReadNumber(before.value);
    } else {
      snr := ReadNumber(values[index + 3]);
    }
    if snr.None? {
      return None;
    }
    r := Some((number.value, elevation.value, azimuth.value, snr.value));
  }

  class NmeaParser {
    var satelInfoList: map<string, seq<Sat>>
    var extraInfoList: map<string, Extra>
    var locRecord: map<string, Location>
    var usedFixIds: map<string, seq<int>>
    var currentTalker: string

    ghost predicate Valid()
      reads this
    {
      satelInfoList.Keys == extraInfoList.Keys == locRecord.Keys == (set t | t in TALKERS)
    }

    /** All the parser holds under a talker's name. */
    ghost function Of(t: string): Talker
      reads this
      requires Valid()
    {
      Talker(t in TALKERS,
             if t in satelInfoList then satelInfoList[t] else [],
             if t in usedFixIds then Some(usedFixIds[t]) else None,
             if t in locRecord then locRecord[t] else NO_LOCATION,
             if t in extraInfoList then extraInfoList[t] else NO_EXTRA)
    }

    /** Only the current talker changes, and becomes `t`. */
    twostate predicate OnlyCurrent(t: Talker)
      reads this
      requires old(Valid()) && Valid()
    {
      forall name: string :: Of(name) == if name == currentTalker then t else old(Of(name))
    }

    constructor ()
      ensures Valid() && forall t: string :: Of(t) == Fresh(t)
    {
      satelInfoList := map t | t in TALKERS :: [];
      extraInfoList := map t | t in TALKERS :: NO_EXTRA;
      locRecord := map t | t in TALKERS :: NO_LOCATION;
      usedFixIds := map[];
      currentTalker := NONE;
    }

    method ClearUsedFixList()
      requires Valid()
      modifies this`usedFixIds
      ensures OnlyCurrent(old(Of(currentTalker)).(used := Some([])))
    {
      usedFixIds := usedFixIds[currentTalker := []];
    }

    method AddUsedFixId(prn: int)
      requires Valid()
      modifies this`usedFixIds
      ensures var t := old(Of(currentTalker));
              OnlyCurrent(t.(used := Some((if t.used.Some? then t.used.value else []) + [prn])))
    {
      if currentTalker !in usedFixIds {
        usedFixIds := usedFixIds[currentTalker := []];
      }
      usedFixIds := usedFixIds[currentTalker := usedFixIds[currentTalker] + [prn]];
    }

    /** isUsedInFix: the first question about a talker creates its list. */
    method IsUsedInFix(prn: int) returns (used: bool)
      requires Valid()
      modifies this`usedFixIds
      ensures var t := old(Of(currentTalker));
              && used == (t.used.Some? && prn in t.used.value)
              && OnlyCurrent(t.(used := Some(if t.used.Some? then t.used.value else [])))
    {
      if currentTalker !in usedFixIds {
        usedFixIds := usedFixIds[currentTalker := []];
        return false;
      }
      var ids := usedFixIds[currentTalker];
      var i := 0;
      while i < |ids|
        invariant 0 <= i <= |ids| && prn !in ids[..i]
      {
        if prn == ids[i] {
          return true;
        }
        i := i + 1;
      }
      used := false;
    }

    /** clearSatelliteList(talker): the satellites stay, their flags go. */
    method ClearFlags()
      requires Valid()
      modifies this`satelInfoList
      ensures Valid() && OnlyCurrent(old(Of(currentTalker)).(sats := Unflag(old(Of(currentTalker)).sats)))
    {
      if currentTalker in satelInfoList {
        var svlist := UnflagAll(satelInfoList[currentTalker]);
        satelInfoList := satelInfoList[currentTalker := svlist];
      }
    }

    /** The loop of parseGSA over the used ids; true when an id throws. */
    method ReadUsedIds(values: seq<string>) returns (thrown: bool)
      requires Valid() && |values| >= 15 && Of(currentTalker).used == Some([])
      modifies this`usedFixIds
      ensures var (ids, t) := GsaIds(values, 2);
              thrown == t && OnlyCurrent(old(Of(currentTalker)).(used := Some(ids)))
    {
      hide ParseInt, GsaIds;
      thrown := false;
      var i := 2;
      ghost var done: seq<int> := [];
      GsaIdsFrom(values, 2, []);
      while i < 15 && !thrown
        invariant 2 <= i <= 15
        invariant forall name: string :: name != currentTalker ==> Of(name) == old(Of(name))
        invariant Of(currentTalker) == old(Of(currentTalker)).(used := Some(done))
        invariant GsaIds(values, 2)
               == if thrown then (done, true) else (done + GsaIds(values, i).0, GsaIds(values, i).1)
        decreases 15 - i, !thrown
      {
        GsaIdsFrom(values, i, done);
        var prn := ReadInt(values[i]);
        if prn.None? {
          thrown := true;
        } else {
          if prn.value > 0 {
            AddUsedFixId(prn.value);
            done := done + [prn.value];
          }
          i := i + 1;
        }
      }
      if !thrown { GsaIdsFrom(values, 15, done); }
    }

    method ParseGsa(values: seq<string>)
      requires Valid()
      modifies this`usedFixIds, this`satelInfoList, this`extraInfoList
      ensures Valid() && OnlyCurrent(ApplyGsa(old(Of(currentTalker)), values))
    {
      ClearUsedFixList();
      if currentTalker in extraInfoList && |values| >= 17 {
        if values[2] == "1" {
          ClearFlags();
          return;
        }
        SetExtra(extraInfoList[currentTalker].(fixType := values[2]));
        ClearFlags();
        var thrown := ReadUsedIds(values);
        if thrown {
          return;
        }
        SetExtra(extraInfoList[currentTalker].(pdop := values[15], hdop := values[16]));
        if |values| == 17 {
          return;  // values[17] throws
        }
        SetExtra(extraInfoList[currentTalker].(vdop := values[17]));
      } else {
        ClearFlags();
      }
    }

    method SetExtra(extra: Extra)
      requires Valid() && currentTalker in TALKERS
      modifies this`extraInfoList
      ensures Valid() && OnlyCurrent(old(Of(currentTalker)).(extra := extra))
    {
      extraInfoList := extraInfoList[currentTalker := extra];
    }

    method SetLocation(location: Location)
      requires Valid() && currentTalker in TALKERS
      modifies this`locRecord
      ensures Valid() && OnlyCurrent(old(Of(currentTalker)).(location := location))
    {
      locRecord := locRecord[currentTalker := location];
    }

    method ParseRmc(values: seq<string>)
      requires Valid()
      modifies this`locRecord
      ensures Valid() && OnlyCurrent(ApplyRmc(old(Of(currentTalker)), values))
    {
      if |values| < 9 {
        return;
      }
      var groundSpeed := ReadNumber(values[7]);
      if groundSpeed.None? {
        return;
      }
      var longitude, latitude := Angle(ZERO, false), Angle(ZERO, false);
      if |values[5]| > 0 && |values[3]| > 0 {
        var degrees := ReadNumber(values[5]);
        if degrees.None? {
          return;
        }
        longitude := Angle(degrees.value, values[6] != "E");
        degrees := ReadNumber(values[3]);
        if degrees.None? {
          return;
        }
        latitude := Angle(degrees.value, values[4] != "N");
      }
      var course := NoCourse;
      if |values[8]| > 0 {
        var degrees := ReadNumber(values[8]);
        course := if degrees.None? then South else Course(degrees.value);
      }
      if values[2] == "A" {
        if currentTalker in locRecord {
          SetLocation(locRecord[currentTalker].(latitude := latitude, longitude := longitude,
                                                bearing := course, speed := groundSpeed.value));
        }
      }
    }

    method ParseGga(values: seq<string>)
      requires Valid()
      modifies this`locRecord
      ensures Valid() && OnlyCurrent(ApplyGga(old(Of(currentTalker)), values))
    {
      if |values| < 10 {
        return;  // some field below throws before anything is set
      }
      var time := ReadNumber(values[1]);
      if time.None? {
        return;
      }
      var lat := ReadNumber(values[2]);
      if lat.None? {
        return;
      }
      var longt := ReadNumber(values[4]);
      if longt.None? {
        return;
      }
      var alti := ReadNumber(values[9]);
      if alti.None? {
        return;
      }
      if currentTalker in locRecord {
        SetLocation(locRecord[currentTalker].(time := time.value, altitude := alti.value,
                                              latitude := Angle(lat.value, values[3] != "N"),
                                              longitude := Angle(longt.value, values[5] != "E")));
      }
    }

    method SetSats(sats: seq<Sat>)
      requires Valid() && currentTalker in TALKERS
      modifies this`satelInfoList
      ensures Valid() && OnlyCurrent(old(Of(currentTalker)).(sats := sats))
    {
      satelInfoList := satelInfoList[currentTalker := sats];
    }

    /** One satellite of a GSV sentence; true when a field throws. */
    method ReadSatellite(values: seq<string>, index: nat) returns (thrown: bool)
      requires Valid() && currentTalker in TALKERS && index + 3 < |values|
      modifies this`satelInfoList, this`usedFixIds
      ensures Valid()
      ensures var t := old(Of(currentTalker));
              var prn := ParseInt(values[index]);
              var sat := if prn.None? then None else MakeSat(t, prn.value, values, index, Color(currentTalker));
              thrown == sat.None? && OnlyCurrent(if sat.None? then t else TalkerState.AddSat(t, sat.value))
    {
      hide ParseInt, ParseNumber, ParseSnr, Color;
      var fields := ReadFields(values, index);
      if fields.None? {
        return true;
      }
      var (number, elevation, azimuth, snr) := fields.value;
      if number > 0 {
        var used := IsUsedInFix(number);
        var sat := Sat(number, snr, elevation, azimuth, used, Color(currentTalker));
        SetSats(satelInfoList[currentTalker] + [sat]);
      }
      thrown := false;
    }

    method ParseGsv(values: seq<string>)
      requires Valid()
      modifies this`satelInfoList, this`usedFixIds
      ensures Valid() && OnlyCurrent(ApplyGsv(old(Of(currentTalker)), values, Color(currentTalker)))
    {
      hide ParseInt, Color, MakeSat;
      if currentTalker !in satelInfoList {
        return;
      }
      if |values| < 3 {
        return;  // values[1] or values[2] throws
      }
      var totalNum := ReadInt(values[1]);
      if totalNum.None? {
        return;
      }
      var msgInd := ReadInt(values[2]);
      if msgInd.None? {
        return;
      }
      if totalNum.value > 0 && msgInd.value == 1 {
        SetSats([]);
      }
      ReadSatellites(values);
    }

    method ReadSatellites(values: seq<string>)
      requires Valid() && currentTalker in TALKERS
      modifies this`satelInfoList, this`usedFixIds
      ensures Valid() && OnlyCurrent(GsvSats(old(Of(currentTalker)), values, 4, Color(currentTalker)).0)
    {
      hide ParseInt, Color, MakeSat;
      var index, thrown := 4, false;
      ghost var all := GsvSats(Of(currentTalker), values, 4, Color(currentTalker)).0;
      while index + 3 < |values| && !thrown
        invariant Valid() && 4 <= index
        invariant forall name: string :: name != currentTalker ==> Of(name) == old(Of(name))
        invariant all == if thrown then Of(currentTalker)
                         else GsvSats(Of(currentTalker), values, index, Color(currentTalker)).0
        decreases |values| - index, !thrown
      {
        thrown := ReadSatellite(values, index);
        if !thrown {
          index := index + 4;
        }
      }
    }

    /** parse: each branch catches what its parser throws. */
    method Parse(record: string)
      requires Valid()
      modifies this
      ensures Valid()
      ensures forall name: string ::
                Of(name) == if name == CheckTalker(record) then Apply(old(Of(name)), record) else old(Of(name))
    {
      hide ApplyRmc, ApplyGsa, ApplyGga, ApplyGsv, Contains, CheckTalker, Split;
      currentTalker := FindTalker(record);
      var values := Split(record);
      if Contains(record, "RMC") {
        ParseRmc(values);
      } else if Contains(record, "GSA") {
        ParseGsa(values);
      } else if Contains(record, "GGA") {
        ParseGga(values);
      } else if Contains(record, "GSV") {
        ParseGsv(values);
      }
    }

    /** A stream of sentences: every talker ends where its own sentences take it. */
    method ParseStream(records: seq<string>)
      requires Valid()
      modifies this
      ensures Valid()
      ensures forall name: string :: Of(name) == ApplyAll(old(Of(name)), From(records, name))
    {
      hide Apply, CheckTalker;
      var i := 0;
      assert records[..0] == [];
      while i < |records|
        invariant Valid() && 0 <= i <= |records|
        invariant forall name: string :: Of(name) == ApplyAll(old(Of(name)), From(records[..i], name))
      {
        assert records[..i + 1][..i] == records[..i];
        forall name: string
          ensures ApplyAll(old(Of(name)), From(records[..i + 1], name))
               == if CheckTalker(records[i]) == name
                  then Apply(ApplyAll(old(Of(name)), From(records[..i], name)), records[i])
                  else ApplyAll(old(Of(name)), From(records[..i], name))
        {
          FromStep(records[..i], records[i], name);
        }
        Parse(records[i]);
        i := i + 1;
      }
      assert records[..i] == records;
    }
  }

  /**
   So only the order within each talker's sentences matters: two parsers that hold the same agree
   after any two interleavings of the same talkers' streams, sentences that throw included.
   */
  method ParseInterleavings(p: NmeaParser, q: NmeaParser, a: seq<string>, b: seq<string>)
    requires p != q && p.Valid() && q.Valid()
    requires forall name: string :: p.Of(name) == q.Of(name)
    requires forall name: string :: From(a, name) == From(b, name)
    modifies p, q
    ensures p.Valid() && q.Valid()
    ensures forall name: string :: p.Of(name) == q.Of(name)
  {
    p.ParseStream(a);
    q.ParseStream(b);
    assert forall name: string :: q.Of(name) == ApplyAll(old(q.Of(name)), From(b, name));
    assert forall name: string :: From(a, name) == From(b, name);
  }

  /** One step of the used-id loop, behind the ids already read. */
  lemma GsaIdsFrom(values: seq<string>, i: nat, done: seq<int>)
    requires i <= 15 <= |values|
    ensures var (ids, thrown) := GsaIds(values, i);
            if i == 15 then done + ids == done && !thrown
            else match ParseInt(values[i]) {
              case None => done + ids == done && thrown
              case Some(prn) =>
                && thrown == GsaIds(values, i + 1).1
                && done + ids == (if prn > 0 then done + [prn] else done) + GsaIds(values, i + 1).0
            }
    ensures [] + GsaIds(values, i).0 == GsaIds(values, i).0
  {
  }

  lemma FromStep(records: seq<string>, last: string, name: string)
    ensures From(records + [last], name)
         == if CheckTalker(last) == name then From(records, name) + [last] else From(records, name)
    ensures forall t :: ApplyAll(t, From(records, name) + [last]) == Apply(ApplyAll(t, From(records, name)), last)
  {
  }
}
