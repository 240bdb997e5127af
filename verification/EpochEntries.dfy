/**
 The entries of an epoch's report, one by one: which announced satellite each comes from, what it
 holds of it, and when it is marked used.
 */
module EpochEntries {
  import opened Bytes
  import opened Tokenizer
  import opened NmeaLines
  import opened Satellites
  import opened Epochs
  import opened NmeaReader

  /** A satellite's number in a report: BeiDou's are moved behind the others. */
  function Numbered(id: int, beidou: bool): int {
    if beidou then id + 200 else id
  }

  /** GPS, GLONASS and BeiDou numbers are taken into the list. */
  predicate Taken(n: int) {
    1 <= n <= 32 || 65 <= n <= 96 || 200 <= n <= 232
  }

  /** A GSA sentence reads on past a number of GPS, GLONASS, QZSS or BeiDou, and stops at any other. */
  predicate ReadPast(n: int) {
    1 <= n <= 32 || 65 <= n <= 96 || 193 <= n <= 197 || 201 <= n <= 232
  }

  /** The k-th id of the sentence is this satellite's, and it is read. */
  predicate GivenAt(ids: seq<Option<int>>, beidou: bool, prn: int, k: nat) {
    && k < |ids| && ids[k].Some? && Numbered(ids[k].value, beidou) == prn
    && forall j :: 0 <= j <= k ==> ids[j].Some? && ReadPast(Numbered(ids[j].value, beidou))
  }

  /** A GSA sentence with a 2D or 3D fix that gives this satellite. */
  ghost predicate Uses(item: Item, prn: int) {
    && item.GsaItem? && item.gsa.Gsa? && (item.gsa.fixMode == 2 || item.gsa.fixMode == 3)
    && exists k: nat :: GivenAt(item.gsa.ids, item.gsa.beidou, prn, k)
  }

  /** The numbers of the items are C ints. */
  ghost predicate Ints(items: seq<Item>) {
    forall i :: 0 <= i < |items| ==> IntItem(items[i])
  }

  ghost predicate IntItem(item: Item) {
    match item
    case GroupItem(_, _, sats) => forall m :: 0 <= m < |sats| ==> -TWO_31 <= sats[m].id < TWO_31
    case GsaItem(gsa) =>
      gsa.Gsa? ==> forall k :: 0 <= k < |gsa.ids| && gsa.ids[k].Some? ==> -TWO_31 <= gsa.ids[k].value < TWO_31
    case OtherItem(_) => true
  }

  // ----- where the entries come from -----

  datatype Origin = Origin(item: nat, sat: nat)

  function TakenOf(i: nat, sats: seq<SatField>, beidou: bool, n: nat): (os: seq<Origin>)
    requires n <= |sats|
  {
    if n == 0 then []
    else TakenOf(i, sats, beidou, n - 1) + if Taken(Numbered(sats[n - 1].id, beidou)) then [Origin(i, n - 1)] else []
  }

  /** The satellites taken from the groups of an epoch, in the order in which they are announced. */
  function Origins(items: seq<Item>): (os: seq<Origin>) {
    if items == [] then []
    else
      var n := |items| - 1;
      var last := items[n];
      Origins(items[..n]) + if last.GroupItem? then TakenOf(n, last.sats, last.beidou, |last.sats|) else []
  }

  predicate Before(a: Origin, b: Origin) {
    a.item < b.item || (a.item == b.item && a.sat < b.sat)
  }

  predicate IsTaken(items: seq<Item>, o: Origin) {
    && o.item < |items| && items[o.item].GroupItem? && o.sat < |items[o.item].sats|
    && Taken(Numbered(items[o.item].sats[o.sat].id, items[o.item].beidou))
  }

  lemma {:induction false} TakenOfIs(i: nat, sats: seq<SatField>, beidou: bool, n: nat)
    requires n <= |sats|
    ensures forall a, b :: 0 <= a < b < |TakenOf(i, sats, beidou, n)| ==>
              Before(TakenOf(i, sats, beidou, n)[a], TakenOf(i, sats, beidou, n)[b])
    ensures forall o :: o in TakenOf(i, sats, beidou, n) <==>
              o.item == i && o.sat < n && Taken(Numbered(sats[o.sat].id, beidou))
  {
    if n > 0 { TakenOfIs(i, sats, beidou, n - 1); }
  }

  /** Origins lists exactly the satellites taken, each once and in the order announced. */
  lemma {:induction false} OriginsAre(items: seq<Item>)
    ensures forall a, b :: 0 <= a < b < |Origins(items)| ==> Before(Origins(items)[a], Origins(items)[b])
    ensures forall o :: o in Origins(items) <==> IsTaken(items, o)
  {
    hide Taken, Numbered;
    if items != [] {
      var n := |items| - 1;
      OriginsAre(items[..n]);
      var front := Origins(items[..n]);
      forall a | 0 <= a < |front|
        ensures front[a].item < n
      {
        assert front[a] in front;
      }
      if items[n].GroupItem? {
        TakenOfIs(n, items[n].sats, items[n].beidou, |items[n].sats|);
        var back := TakenOf(n, items[n].sats, items[n].beidou, |items[n].sats|);
        forall b | 0 <= b < |back|
          ensures back[b].item == n
        {
          assert back[b] in back;
        }
      }
      forall o
        ensures o in Origins(items) <==> IsTaken(items, o)
      {
        assert o in Origins(items[..n]) <==> IsTaken(items[..n], o);
        if o.item < n { assert items[..n][o.item] == items[o.item]; }
      }
    }
  }

  // ----- what an entry holds -----

  /** The entry is that of the satellite at `o`, marked exactly if a GSA sentence before its group uses it. */
  ghost predicate Describes(sv: Sv, items: seq<Item>, o: Origin)
    requires o.item < |items| && items[o.item].GroupItem? && o.sat < |items[o.item].sats|
  {
    var f := items[o.item].sats[o.sat];
    && sv.prn == (if items[o.item].beidou then f.id + 200 else f.id)
    && sv.elevation == f.elevation && sv.azimuth == f.azimuth && sv.snr == f.snr
    && (sv.usedInFix <==> exists h :: 0 <= h < o.item && Uses(items[h], sv.prn))
  }

  lemma AcceptsIff(id: int, beidou: bool)
    requires -TWO_31 <= id < TWO_31
    ensures Accepts(Prn(id, beidou)) <==> Taken(Numbered(id, beidou))
    ensures Accepts(Prn(id, beidou)) ==> Prn(id, beidou) == Numbered(id, beidou)
  {
  }

  lemma ReadPastIff(id: Option<int>, beidou: bool)
    requires id.Some? ==> -TWO_31 <= id.value < TWO_31
    ensures SomeSatellite(id, beidou) <==> id.Some? && ReadPast(Numbered(id.value, beidou))
    ensures SomeSatellite(id, beidou) ==> Prn(id.value, beidou) == Numbered(id.value, beidou)
  {
  }

  /** For a satellite that a report can hold, being named by a GSA sentence is being given by it. */
  lemma UsesIff(item: Item, prn: int)
    requires IntItem(item) && Taken(prn)
    ensures NamedBy(item, prn) <==> Uses(item, prn)
  {
    if item.GsaItem? && item.gsa.Gsa? {
      var ids, beidou := item.gsa.ids, item.gsa.beidou;
      forall k | 0 <= k < |ids|
        ensures SomeSatellite(ids[k], beidou) <==> ids[k].Some? && ReadPast(Numbered(ids[k].value, beidou))
        ensures SomeSatellite(ids[k], beidou) ==> Prn(ids[k].value, beidou) == Numbered(ids[k].value, beidou)
      {
        ReadPastIff(ids[k], beidou);
      }
      if Trackable(prn) && Names(ids, beidou, prn) {
        var k: nat :| NamesAt(ids, beidou, prn, k);
        assert SomeSatellite(ids[k], beidou);
        assert GivenAt(ids, beidou, prn, k);
      }
      if exists k: nat :: GivenAt(ids, beidou, prn, k) {
        var k: nat :| GivenAt(ids, beidou, prn, k);
        assert SomeSatellite(ids[k], beidou);
        assert NamesAt(ids, beidou, prn, k);
      }
    }
  }

  lemma MarkedIff(items: seq<Item>, n: nat, prn: int)
    requires n <= |items| && Ints(items) && (forall i :: 0 <= i < |items| ==> ProperItem(items[i])) && Taken(prn)
    ensures UsedAfter(items[..n], NoneUsed())[prn] <==> exists h :: 0 <= h < n && Uses(items[h], prn)
  {
    hide IntItem, NamedBy, Uses, UsedAfter, ProperItem;
    var init := items[..n];
    assert !Qzss(prn);
    assert forall i :: 0 <= i < n ==> init[i] == items[i];
    UsedAfterIsNamed(init, prn);
    forall h | 0 <= h < n
      ensures NamedBy(init[h], prn) <==> Uses(items[h], prn)
    {
      UsesIff(items[h], prn);
    }
    if exists i :: 0 <= i < |init| && NamedBy(init[i], prn) {
      var i :| 0 <= i < |init| && NamedBy(init[i], prn);
      assert Uses(items[i], prn);
    }
    if exists h :: 0 <= h < n && Uses(items[h], prn) {
      var h :| 0 <= h < n && Uses(items[h], prn);
      assert NamedBy(init[h], prn);
    }
  }

  /** The accepted satellites of item i, marked as recorded before it, are those taken from it. */
  lemma {:induction false} AcceptedAre(items: seq<Item>, i: nat, n: nat)
    requires Ints(items) && forall h :: 0 <= h < |items| ==> ProperItem(items[h])
    requires i < |items| && items[i].GroupItem? && n <= |items[i].sats|
    ensures var svs := Accepted(items[i].sats[..n], items[i].beidou, UsedAfter(items[..i], NoneUsed()));
            var os := TakenOf(i, items[i].sats, items[i].beidou, n);
            && |svs| == |os|
            && (forall j :: 0 <= j < |os| ==> os[j].item == i && os[j].sat < n)
            && forall j :: 0 <= j < |os| ==> Describes(svs[j], items, os[j])
  {
    hide Describes, UsedAfter, Taken, Accepts;
    var sats, beidou, used := items[i].sats, items[i].beidou, UsedAfter(items[..i], NoneUsed());
    if n > 0 {
      AcceptedAre(items, i, n - 1);
      var f := sats[n - 1];
      assert sats[..n] == sats[..n - 1] + [f];
      AcceptedStep(sats[..n - 1], f, beidou, used);
      assert IntItem(items[i]);
      AcceptsIff(f.id, beidou);
      if Accepts(Prn(f.id, beidou)) { MadeDescribes(items, i, n - 1); }
    } else {
      assert sats[..0] == [];
    }
  }

  lemma MadeDescribes(items: seq<Item>, i: nat, m: nat)
    requires Ints(items) && forall h :: 0 <= h < |items| ==> ProperItem(items[h])
    requires i < |items| && items[i].GroupItem? && m < |items[i].sats|
    requires Accepts(Prn(items[i].sats[m].id, items[i].beidou))
    ensures Describes(MakeSv(items[i].sats[m], items[i].beidou, UsedAfter(items[..i], NoneUsed())), items, Origin(i, m))
  {
    hide ProperItem, Uses, UsedAfter, Accepts;
    assert IntItem(items[i]);
    AcceptsIff(items[i].sats[m].id, items[i].beidou);
    MarkedIff(items, i, Numbered(items[i].sats[m].id, items[i].beidou));
  }

  /** The expected list of an epoch, entry by entry. */
  lemma {:induction false} ExpectedAre(items: seq<Item>, n: nat)
    requires Ints(items) && (forall h :: 0 <= h < |items| ==> ProperItem(items[h])) && n <= |items|
    ensures var svs := Expected(items[..n], NoneUsed());
            var os := Origins(items[..n]);
            && |svs| == |os|
            && (forall j :: 0 <= j < |os| ==> IsTaken(items, os[j]))
            && forall j :: 0 <= j < |os| ==> Describes(svs[j], items, os[j])
  {
    hide Describes, UsedAfter, Accepted, Ints, ProperItem;
    if n > 0 {
      ExpectedAre(items, n - 1);
      var part, last := items[..n], items[n - 1];
      assert part[..n - 1] == items[..n - 1] && part[n - 1] == last;
      if last.GroupItem? {
        AcceptedAre(items, n - 1, |last.sats|);
        assert last.sats[..|last.sats|] == last.sats;
        TakenOfIs(n - 1, last.sats, last.beidou, |last.sats|);
      }
    } else {
      assert items[..0] == [];
    }
  }

  // ----- from bytes -----

  lemma DecodedInts(line: seq<byte>)
    ensures Decode(line).Gsv? ==>
              forall j :: 0 <= j < |Decode(line).sats| ==> -TWO_31 <= Decode(line).sats[j].id < TWO_31
    ensures Decode(line).Gsa? ==>
              forall j :: 0 <= j < |Decode(line).ids| && Decode(line).ids[j].Some? ==>
                -TWO_31 <= Decode(line).ids[j].value < TWO_31
  {
    hide Field;
  }

  lemma {:induction false} ItemSentenceIsIn(items: seq<Item>, i: nat, s: Sentence)
    requires i < |items| && s in ItemSentences(items[i])
    ensures s in Sentences(items)
  {
    if i < |items| - 1 { ItemSentenceIsIn(items[..|items| - 1], i, s); }
  }

  /** The numbers of an epoch read from bytes are C ints. */
  lemma BytesAreInts(lines: seq<seq<byte>>, items: seq<Item>)
    requires EpochBytes(lines, items)
    ensures Ints(items)
  {
    hide Decode, Sentences, ShortLines;
    var texts := ShortLines(lines);
    forall i | 0 <= i < |items|
      ensures IntItem(items[i])
    {
      assert ProperItem(items[i]);
      match items[i]
      case GroupItem(msgs, beidou, sats) =>
        forall m | 0 <= m < |sats|
          ensures -TWO_31 <= sats[m].id < TWO_31
        {
          var p := m / 4;
          assert AnnouncesPart(msgs[p], p, |msgs|, beidou, sats);
          ItemSentenceIsIn(items, i, msgs[p]);
          var q :| 0 <= q < |texts| && DecodeAll(texts)[q] == msgs[p];
          DecodedInts(texts[q]);
          assert msgs[p].sats[m % 4] == sats[m];
        }
      case GsaItem(gsa) =>
        ItemSentenceIsIn(items, i, gsa);
        var q :| 0 <= q < |texts| && DecodeAll(texts)[q] == gsa;
        DecodedInts(texts[q]);
      case OtherItem(_) =>
    }
  }

  /**
   An epoch received in one read, entry by entry: the report lists the satellites with GPS, GLONASS
   or BeiDou numbers in the order in which its groups announce them, as far as the list goes. Each
   entry has the number, moved by 200 for BeiDou, and the elevation, azimuth and signal strength
   announced, and it is marked used exactly when a GSA sentence with a fix before its group gives that
   number.
   */
  lemma ReportEntries(sky: Sky, lines: seq<seq<byte>>, items: seq<Item>)
    requires Clean(sky) && sky.list != [] && EpochBytes(lines, items) && Origins(items) != []
    ensures var r := Run(EMPTY, sky, Unsplit(lines), |Unsplit(lines)|);
            var os := Origins(items);
            && |r.reports| == 1
            && var report := r.reports[0];
               && |report.list| == |sky.list|
               && report.numSvs == (if |os| <= |sky.list| then |os| else |sky.list|)
               && (forall j :: 0 <= j < |os| ==> IsTaken(items, os[j]))
               && forall j :: 0 <= j < report.numSvs ==> Describes(report.list[j], items, os[j])
  {
    hide Run, Unsplit, Decode, Expected, Sentences, ShortLines, Describes, IsTaken, Origins;
    BytesAreInts(lines, items);
    ExpectedAre(items, |items|);
    assert items[..|items|] == items;
    var svs := Expected(items, NoneUsed());
    EpochFromBytes(sky, lines, items);
    var report := Run(EMPTY, sky, Unsplit(lines), |Unsplit(lines)|).reports[0];
    forall j | 0 <= j < report.numSvs
      ensures report.list[j] == svs[j]
    {
      assert report.list[j] == report.list[..report.numSvs][j];
    }
  }
}
