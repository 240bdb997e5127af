/**
 Epochs of GSV groups and GSA sentences: what their reports hold, received whole or in parts.
 */
module Epochs {
  import opened Bytes
  import opened Tokenizer
  import opened Satellites

  /** What an epoch is made of: GSV groups, GSA sentences and others, in any order. */
  datatype Item =
    | GroupItem(msgs: seq<Sentence>, beidou: bool, sats: seq<SatField>)
    | GsaItem(gsa: Sentence)
    | OtherItem(tooShort: bool)

  ghost predicate ProperItem(item: Item) {
    match item
    case GroupItem(msgs, beidou, sats) => Announces(msgs, beidou, sats)
    case GsaItem(gsa) => gsa.Gsa? && |gsa.ids| == GSA_IDS
    case OtherItem(_) => true
  }

  function ItemSentences(item: Item): seq<Sentence> {
    match item
    case GroupItem(msgs, _, _) => msgs
    case GsaItem(gsa) => [gsa]
    case OtherItem(tooShort) => [if tooShort then Ignored else Other]
  }

  function Sentences(items: seq<Item>): seq<Sentence> {
    if items == [] then [] else Sentences(items[..|items| - 1]) + ItemSentences(items[|items| - 1])
  }

  /** The marks after one item: a GSA sentence with a fix adds its satellites. */
  function ItemUsed(item: Item, used: seq<bool>): (r: seq<bool>)
    requires |used| == USED_SIZE
    ensures |r| == USED_SIZE
  {
    if item.GsaItem? && item.gsa.Gsa? && item.gsa.fixMode in {2, 3}
    then MarkUsed(used, item.gsa.ids, item.gsa.beidou) else used
  }

  /** The satellites of one item, with the marks recorded so far. */
  function ItemSvs(item: Item, used: seq<bool>): seq<Sv>
    requires |used| == USED_SIZE
  {
    if item.GroupItem? then Accepted(item.sats, item.beidou, used) else []
  }

  /** The satellites recorded as used by the GSA sentences of `items`. */
  function UsedAfter(items: seq<Item>, used: seq<bool>): (r: seq<bool>)
    requires |used| == USED_SIZE
    ensures |r| == USED_SIZE
  {
    if items == [] then used else ItemUsed(items[|items| - 1], UsedAfter(items[..|items| - 1], used))
  }

  /** The report an epoch should give: every group's accepted satellites, each with the mark recorded so far. */
  function Expected(items: seq<Item>, used: seq<bool>): (svs: seq<Sv>)
    requires |used| == USED_SIZE
  {
    if items == [] then []
    else
      var init := items[..|items| - 1];
      Expected(init, used) + ItemSvs(items[|items| - 1], UsedAfter(init, used))
  }

  /** A satellite is marked used exactly when a preceding GSA sentence with a fix names it. */
  lemma {:induction false} UsedAfterIsNamed(items: seq<Item>, prn: int)
    requires forall i :: 0 <= i < |items| ==> ProperItem(items[i])
    requires 0 <= prn < USED_SIZE && !Qzss(prn)
    ensures UsedAfter(items, NoneUsed())[prn] <==> exists i :: 0 <= i < |items| && NamedBy(items[i], prn)
  {
    if items != [] {
      var init, last := items[..|items| - 1], items[|items| - 1];
      UsedAfterIsNamed(init, prn);
      assert forall i :: 0 <= i < |init| ==> init[i] == items[i];
      assert ProperItem(last);
      if last.GsaItem? {
        MarkUsedAdds(UsedAfter(init, NoneUsed()), last.gsa.ids, last.gsa.beidou, prn);
      }
      if NamedBy(last, prn) {
        assert NamedBy(items[|items| - 1], prn);
      }
    }
  }

  ghost predicate NamedBy(item: Item, prn: int) {
    && item.GsaItem? && item.gsa.Gsa? && item.gsa.fixMode in {2, 3}
    && Trackable(prn) && Names(item.gsa.ids, item.gsa.beidou, prn)
  }

  lemma {:induction false} SentencesWellFormed(items: seq<Item>)
    requires forall i :: 0 <= i < |items| ==> ProperItem(items[i])
    ensures forall i :: 0 <= i < |Sentences(items)| ==> WellFormed(Sentences(items)[i])
  {
    if items != [] {
      var last := items[|items| - 1];
      SentencesWellFormed(items[..|items| - 1]);
      assert ProperItem(last);
      if last.GroupItem? {
        forall i | 0 <= i < |last.msgs|
          ensures WellFormed(last.msgs[i])
        {
          assert AnnouncesPart(last.msgs[i], i, |last.msgs|, last.beidou, last.sats);
        }
      }
    }
  }

  lemma ItemContent(sky: Sky, item: Item)
    requires Valid(sky) && sky.numSvs <= |sky.list| && ProperItem(item)
    ensures forall i :: 0 <= i < |ItemSentences(item)| ==> WellFormed(ItemSentences(item)[i])
    ensures var after := AbsorbAll(sky, ItemSentences(item));
            && after.used == ItemUsed(item, sky.used)
            && Appended(sky, after, ItemSvs(item, sky.used))
            && (sky.svCount == 0 && after.numSvs == 0 ==> after.svCount == 0)
  {
    match item
    case GroupItem(msgs, beidou, sats) =>
      hide AbsorbAll, Accepted;
      GroupAppends(sky, msgs, beidou, sats);
    case GsaItem(gsa) =>
      AbsorbOne(sky, gsa);
    case OtherItem(tooShort) =>
      AbsorbOne(sky, if tooShort then Ignored else Other);
  }

  /**
   Any mix of groups and other sentences appends exactly the groups' accepted satellites, as far as
   the list goes, and leaves the running count at zero if there are none.
   */
  lemma {:induction false} EpochContent(sky: Sky, items: seq<Item>)
    requires Valid(sky) && sky.numSvs <= |sky.list|
    requires forall i :: 0 <= i < |items| ==> ProperItem(items[i])
    ensures forall i :: 0 <= i < |Sentences(items)| ==> WellFormed(Sentences(items)[i])
    ensures var after := AbsorbAll(sky, Sentences(items));
            && after.used == UsedAfter(items, sky.used)
            && Appended(sky, after, Expected(items, sky.used))
            && (sky.svCount == 0 && after.numSvs == 0 ==> after.svCount == 0)
  {
    hide ItemSvs, ItemUsed, ItemSentences, Absorb;
    SentencesWellFormed(items);
    var after := AbsorbAll(sky, Sentences(items));
    if items != [] {
      var init, last := items[..|items| - 1], items[|items| - 1];
      SentencesWellFormed(init);
      EpochContent(sky, init);
      var mid := AbsorbAll(sky, Sentences(init));
      ItemContent(mid, last);
      AbsorbAllSplit(sky, Sentences(init), ItemSentences(last));
      assert mid.numSvs <= after.numSvs;
      AppendedTwice(sky, mid, after, Expected(init, sky.used), ItemSvs(last, mid.used));
    }
  }

  /** Items in order, the last of them not too short to be looked at. */
  ghost predicate ProperEpoch(items: seq<Item>) {
    items != [] && items[|items| - 1] != OtherItem(true) && forall i :: 0 <= i < |items| ==> ProperItem(items[i])
  }

  /** What the list takes of an epoch received by a reader without satellites. */
  function Fitting(items: seq<Item>, capacity: nat): (svs: seq<Sv>) {
    Cut(Expected(items, NoneUsed()), capacity)
  }

  /**
   One epoch, sent as one chunk to a reader without satellites, its last sentence not too short to
   be looked at: if the list takes any satellite, that last sentence reports exactly the expected
   list, as far as the buffer goes, and leaves nothing behind. An epoch without satellites reports
   nothing, and then the marks of its GSA sentences leak into the next.
   */
  lemma EpochReport(sky: Sky, items: seq<Item>)
    requires Clean(sky) && ProperEpoch(items)
    ensures Sentences(items) != []
    ensures forall i :: 0 <= i < |Sentences(items)| ==> WellFormed(Sentences(items)[i])
    ensures var (after, report) := ApplyChunk(sky, Sentences(items));
            var svs := Fitting(items, |sky.list|);
            && (report.Some? <==> svs != [])
            && (report.Some? ==> report.value.numSvs == |svs| <= |report.value.list| == |sky.list|)
            && (report.Some? ==> report.value.list[..|svs|] == svs)
            && (Clean(after) <==> svs != [] || UsedAfter(items, NoneUsed()) == NoneUsed())
            && after.used == (if svs != [] then NoneUsed() else UsedAfter(items, NoneUsed()))
  {
    hide Expected, UsedAfter, Absorb, Sentences;
    var ss := Sentences(items);
    EpochContent(sky, items);
    LastIsSeen(items);
  }

  lemma LastIsSeen(items: seq<Item>)
    requires items != [] && items[|items| - 1] != OtherItem(true) && ProperItem(items[|items| - 1])
    ensures Sentences(items) != [] && !Sentences(items)[|Sentences(items)| - 1].Ignored?
  {
  }

  // ----- epochs received in two parts -----

  /** A place in an epoch: between items (k is 0), or behind the first k messages of the group that is item i. */
  ghost predicate Place(items: seq<Item>, i: nat, k: nat) {
    i <= |items| && (k > 0 ==> i < |items| && items[i].GroupItem? && k < |items[i].msgs|)
  }

  ghost function FrontPart(items: seq<Item>, i: nat, k: nat): seq<Sentence>
    requires Place(items, i, k)
  {
    Sentences(items[..i]) + if k > 0 then items[i].msgs[..k] else []
  }

  ghost function RestPart(items: seq<Item>, i: nat, k: nat): seq<Sentence>
    requires Place(items, i, k)
  {
    if k > 0 then items[i].msgs[k..] + Sentences(items[i + 1..]) else Sentences(items[i..])
  }

  /** The satellites announced in front of the place by the group it lies in. */
  ghost function Caught(items: seq<Item>, i: nat, k: nat): seq<Sv>
    requires Place(items, i, k)
  {
    if k > 0 then Accepted(Covered(k, items[i].sats), items[i].beidou, NoneUsed()) else []
  }

  /** The satellites announced behind the place, with the marks of the GSA sentences behind it. */
  ghost function Behind(items: seq<Item>, i: nat, k: nat): seq<Sv>
    requires Place(items, i, k)
  {
    if k == 0 then Expected(items[i..], NoneUsed())
    else
      var sats := items[i].sats;
      Accepted(sats[|Covered(k, sats)|..], items[i].beidou, NoneUsed()) + Expected(items[i + 1..], NoneUsed())
  }

  lemma {:induction false} SentencesAppend(items: seq<Item>, more: seq<Item>)
    ensures Sentences(items + more) == Sentences(items) + Sentences(more)
  {
    hide ItemSentences;
    if more == [] {
      assert items + more == items;
    } else {
      var all, init := items + more, more[..|more| - 1];
      assert all[..|all| - 1] == items + init && all[|all| - 1] == more[|more| - 1];
      SentencesAppend(items, init);
      var last := ItemSentences(more[|more| - 1]);
      assert Sentences(items) + Sentences(init) + last == Sentences(items) + (Sentences(init) + last);
    }
  }

  lemma {:induction false} ExpectedAppend(items: seq<Item>, more: seq<Item>, used: seq<bool>)
    requires |used| == USED_SIZE
    ensures UsedAfter(items + more, used) == UsedAfter(more, UsedAfter(items, used))
    ensures Expected(items + more, used) == Expected(items, used) + Expected(more, UsedAfter(items, used))
  {
    if more == [] {
      assert items + more == items;
    } else {
      hide ItemSvs, ItemUsed;
      assert (items + more)[..|items + more| - 1] == items + more[..|more| - 1];
      ExpectedAppend(items, more[..|more| - 1], used);
    }
  }

  lemma {:induction false} AcceptedAppend(fs: seq<SatField>, more: seq<SatField>, beidou: bool, used: seq<bool>)
    requires |used| == USED_SIZE
    ensures Accepted(fs + more, beidou, used) == Accepted(fs, beidou, used) + Accepted(more, beidou, used)
  {
    if more == [] {
      assert fs + more == fs;
    } else {
      assert (fs + more)[..|fs + more| - 1] == fs + more[..|more| - 1];
      AcceptedAppend(fs, more[..|more| - 1], beidou, used);
    }
  }

  /** The marks do not decide which satellites are accepted. */
  lemma {:induction false} AcceptedLength(fs: seq<SatField>, beidou: bool, used: seq<bool>, other: seq<bool>)
    requires |used| == |other| == USED_SIZE
    ensures |Accepted(fs, beidou, used)| == |Accepted(fs, beidou, other)|
  {
    if fs != [] { AcceptedLength(fs[..|fs| - 1], beidou, used, other); }
  }

  lemma {:induction false} ExpectedLength(items: seq<Item>, used: seq<bool>, other: seq<bool>)
    requires |used| == |other| == USED_SIZE
    ensures |Expected(items, used)| == |Expected(items, other)|
  {
    if items != [] {
      var init, last := items[..|items| - 1], items[|items| - 1];
      ExpectedLength(init, used, other);
      if last.GroupItem? {
        AcceptedLength(last.sats, last.beidou, UsedAfter(init, used), UsedAfter(init, other));
      }
    }
  }

  lemma FrontAndRest(items: seq<Item>, i: nat, k: nat)
    requires Place(items, i, k)
    ensures Sentences(items) == FrontPart(items, i, k) + RestPart(items, i, k)
  {
    hide Sentences, ItemSentences;
    assert items == items[..i] + items[i..];
    SentencesAppend(items[..i], items[i..]);
    if k > 0 {
      assert items[i..] == [items[i]] + items[i + 1..];
      SentencesAppend([items[i]], items[i + 1..]);
      assert Sentences([items[i]]) == items[i].msgs by { GroupSentences(items[i]); }
      var front, msgs := Sentences(items[..i]), items[i].msgs;
      assert msgs == msgs[..k] + msgs[k..];
      assert front + (msgs + Sentences(items[i + 1..])) == front + msgs[..k] + (msgs[k..] + Sentences(items[i + 1..]));
    }
  }

  lemma GroupSentences(item: Item)
    requires item.GroupItem?
    ensures Sentences([item]) == item.msgs
  {
    OneItem(item, NoneUsed());
  }

  lemma OneItem(item: Item, used: seq<bool>)
    requires |used| == USED_SIZE
    ensures Sentences([item]) == ItemSentences(item)
    ensures UsedAfter([item], used) == ItemUsed(item, used) && Expected([item], used) == ItemSvs(item, used)
  {
    assert [item][..0] == [];
    assert Sentences([]) == [] && Expected([], used) == [] && UsedAfter([], used) == used;
  }

  /**
   All an epoch expects, from a place on: what its group was caught with, and what is behind. Cut
   off from the rest, the satellites the group was caught with are not there; nothing is missing if
   and only if there are none.
   */
  lemma NothingMissingIff(items: seq<Item>, i: nat, k: nat)
    requires Place(items, i, k)
    ensures Expected(items[i..], NoneUsed()) == Caught(items, i, k) + Behind(items, i, k)
    ensures Behind(items, i, k) == Expected(items[i..], NoneUsed()) <==> Caught(items, i, k) == []
  {
    if k > 0 {
      hide Expected, UsedAfter, Accepted, Covered, ItemSentences, Sentences;
      var item := items[i];
      assert items[i..] == [item] + items[i + 1..];
      ExpectedAppend([item], items[i + 1..], NoneUsed());
      OneItem(item, NoneUsed());
      GroupInTwo(item, k);
    }
  }

  lemma GroupInTwo(item: Item, k: nat)
    requires item.GroupItem?
    ensures ItemUsed(item, NoneUsed()) == NoneUsed()
    ensures ItemSvs(item, NoneUsed())
         == Accepted(Covered(k, item.sats), item.beidou, NoneUsed())
            + Accepted(item.sats[|Covered(k, item.sats)|..], item.beidou, NoneUsed())
  {
    hide Accepted, Covered;
    var front := Covered(k, item.sats);
    assert item.sats == front + item.sats[|front|..];
    AcceptedAppend(front, item.sats[|front|..], item.beidou, NoneUsed());
  }

  /** Reading into a group leaves the satellites of closed groups alone. */
  lemma OpenGroupAppendsNothing(sky: Sky, mid: Sky, after: Sky, item: Item, k: nat, svs: seq<Sv>)
    requires Valid(mid) && item.GroupItem? && k > 0 && Appended(sky, mid, svs)
    requires AtMessage(mid, after, 0, k, item.beidou, item.sats)
    ensures Appended(sky, after, svs)
  {
    hide Accepted, Between;
    assert after.numSvs == mid.numSvs;
    assert after.list[..after.numSvs] == mid.list[..mid.numSvs];
  }

  lemma {:induction false} AllAccepted(fs: seq<SatField>, f: SatField)
    requires Accepts(f.id) && forall j :: 0 <= j < |fs| ==> fs[j] == f
    ensures |Accepted(fs, false, NoneUsed())| == |fs|
  {
    if fs != [] { AllAccepted(fs[..|fs| - 1], f); }
  }

  /** A group of one satellite and a group of five, cut behind the first message of the second: four are missing. */
  lemma FourMissing(f: SatField)
    requires Accepts(f.id)
    ensures var four := [f, f, f, f];
            var one := GroupItem([Gsv(false, 1, 1, 1, four)], false, [f]);
            var five := GroupItem([Gsv(false, 2, 1, 5, four), Gsv(false, 2, 2, 5, four)], false, four + [f]);
            && ProperEpoch([one, five]) && Place([one, five], 1, 1)
            && |Expected([one, five], NoneUsed())| == 6 && |Expected([one, five][..1], NoneUsed())| == 1
            && |Caught([one, five], 1, 1)| == 4 && |Behind([one, five], 1, 1)| == 1
  {
    var four := [f, f, f, f];
    var one := GroupItem([Gsv(false, 1, 1, 1, four)], false, [f]);
    var five := GroupItem([Gsv(false, 2, 1, 5, four), Gsv(false, 2, 2, 5, four)], false, four + [f]);
    hide Expected, UsedAfter, Accepted;
    assert [one, five][..1] == [one] && [one, five][1..] == [five] && [one, five] == [one] + [five];
    assert (four + [f])[..4] == four && Covered(1, four + [f]) == four;
    ExpectedAppend([one], [five], NoneUsed());
    OneItem(one, NoneUsed());
    OneItem(five, UsedAfter([one], NoneUsed()));
    AllAccepted([f], f);
    AllAccepted(four, f);
    AllAccepted(four + [f], f);
    NothingMissingIff([one, five], 1, 1);
    ExpectedLength([five], UsedAfter([one], NoneUsed()), NoneUsed());
  }

  /** In front of a place the closed groups are those of the items before it. */
  lemma FrontContent(sky: Sky, items: seq<Item>, i: nat, k: nat)
    requires Clean(sky) && Place(items, i, k)
    requires forall j :: 0 <= j < |items| ==> ProperItem(items[j])
    ensures forall j :: 0 <= j < |FrontPart(items, i, k)| ==> WellFormed(FrontPart(items, i, k)[j])
    ensures Appended(sky, AbsorbAll(sky, FrontPart(items, i, k)), Expected(items[..i], NoneUsed()))
  {
    hide Accepted, Covered, Expected, Sentences, UsedAfter, Absorb;
    var init := items[..i];
    EpochContent(sky, init);
    var mid := AbsorbAll(sky, Sentences(init));
    if k > 0 {
      var item := items[i];
      assert ProperItem(item);
      GroupProgress(mid, item.msgs, 0, k, item.beidou, item.sats);
      assert item.msgs[0..k] == item.msgs[..k];
      AbsorbAllSplit(sky, Sentences(init), item.msgs[..k]);
      var after := AbsorbAll(mid, item.msgs[..k]);
      hide AbsorbAll, Appended;
      OpenGroupAppendsNothing(sky, mid, after, item, k, Expected(init, NoneUsed()));
    } else {
      assert Sentences(init) + [] == Sentences(init);
    }
  }

  /** Behind a place a reader without satellites takes those announced there, and no others. */
  lemma RestContent(sky: Sky, items: seq<Item>, i: nat, k: nat)
    requires Clean(sky) && Place(items, i, k)
    requires forall j :: 0 <= j < |items| ==> ProperItem(items[j])
    ensures forall j :: 0 <= j < |RestPart(items, i, k)| ==> WellFormed(RestPart(items, i, k)[j])
    ensures Appended(sky, AbsorbAll(sky, RestPart(items, i, k)), Behind(items, i, k))
  {
    hide Accepted, Covered, Expected, Sentences, UsedAfter, Absorb;
    if k == 0 {
      EpochContent(sky, items[i..]);
    } else {
      var item, rest := items[i], items[i + 1..];
      assert ProperItem(item);
      GroupRestAppends(sky, item.msgs, k, item.beidou, item.sats);
      var mid := AbsorbAll(sky, item.msgs[k..]);
      EpochContent(mid, rest);
      AbsorbAllSplit(sky, item.msgs[k..], Sentences(rest));
      var svs := Accepted(item.sats[|Covered(k, item.sats)|..], item.beidou, NoneUsed());
      AppendedTwice(sky, mid, AbsorbAll(mid, Sentences(rest)), svs, Expected(rest, NoneUsed()));
    }
  }

  /** The report of a chunk that began without satellites. */
  lemma ChunkReport(sky: Sky, ss: seq<Sentence>, svs: seq<Sv>)
    requires Clean(sky) && ss != [] && forall i :: 0 <= i < |ss| ==> WellFormed(ss[i])
    requires !ss[|ss| - 1].Ignored? && Appended(sky, AbsorbAll(sky, ss), svs)
    ensures var (after, report) := ApplyChunk(sky, ss);
            && (report.Some? <==> svs != [] && sky.list != [])
            && (report.Some? ==> Clean(after) && |after.list| == |sky.list| && Holding(report.value, svs, |sky.list|))
  {
    hide Absorb;
  }

  /** The report lists exactly `svs`, as far as a list of this capacity goes. */
  ghost predicate Holding(report: Report, svs: seq<Sv>, capacity: nat) {
    var kept := Cut(svs, capacity);
    |report.list| == capacity && report.numSvs == |kept| && report.list[..|kept|] == kept
  }

  /** A chunk that ends at a place, behind a closed group, reports the groups closed by then and leaves nothing. */
  lemma FrontReport(sky: Sky, items: seq<Item>, i: nat, k: nat)
    requires Clean(sky) && sky.list != [] && Place(items, i, k) && ProperEpoch(items)
    requires Expected(items[..i], NoneUsed()) != [] && (k == 0 ==> items[i - 1] != OtherItem(true))
    ensures FrontPart(items, i, k) != []
    ensures forall j :: 0 <= j < |FrontPart(items, i, k)| ==> WellFormed(FrontPart(items, i, k)[j])
    ensures var (after, report) := ApplyChunk(sky, FrontPart(items, i, k));
            && report.Some? && Holding(report.value, Expected(items[..i], NoneUsed()), |sky.list|)
            && Clean(after) && |after.list| == |sky.list|
  {
    FrontContent(sky, items, i, k);
    FrontIsSeen(items, i, k);
    hide FrontPart, Expected, AbsorbAll, ApplyChunk, Appended, Holding;
    ChunkReport(sky, FrontPart(items, i, k), Expected(items[..i], NoneUsed()));
  }

  /**
   The rest of the epoch then reports exactly the satellites announced behind the place, with the
   marks of that rest alone. Those the open group was caught with are in neither report.
   */
  lemma RestReport(sky: Sky, items: seq<Item>, i: nat, k: nat)
    requires Clean(sky) && sky.list != [] && Place(items, i, k) && ProperEpoch(items)
    ensures Behind(items, i, k) != [] ==> RestPart(items, i, k) != []
    ensures forall j :: 0 <= j < |RestPart(items, i, k)| ==> WellFormed(RestPart(items, i, k)[j])
    ensures RestPart(items, i, k) != [] ==>
              var report := ApplyChunk(sky, RestPart(items, i, k)).1;
              && (report.Some? <==> Behind(items, i, k) != [])
              && (report.Some? ==> Holding(report.value, Behind(items, i, k), |sky.list|))
  {
    RestContent(sky, items, i, k);
    NoRestNothingBehind(items, i, k);
    hide RestPart, Behind, AbsorbAll, ApplyChunk, Appended, Holding;
    if RestPart(items, i, k) != [] {
      RestIsSeen(items, i, k);
      ChunkReport(sky, RestPart(items, i, k), Behind(items, i, k));
    }
  }

  /** And a chunk that ends at a place reports only then. */
  lemma FrontReportsOnlyIf(sky: Sky, items: seq<Item>, i: nat, k: nat)
    requires Clean(sky) && Place(items, i, k) && ProperEpoch(items) && FrontPart(items, i, k) != []
    requires forall j :: 0 <= j < |FrontPart(items, i, k)| ==> WellFormed(FrontPart(items, i, k)[j])
    requires ApplyChunk(sky, FrontPart(items, i, k)).1.Some?
    ensures Expected(items[..i], NoneUsed()) != [] && (k == 0 ==> i > 0 && items[i - 1] != OtherItem(true))
  {
    FrontContent(sky, items, i, k);
    hide Expected, AbsorbAll, ApplyChunk, Appended, Sentences;
    ChunkReportsOnlyIf(sky, FrontPart(items, i, k), Expected(items[..i], NoneUsed()));
    assert Expected([], NoneUsed()) == [] by { NothingExpected(); }
    if k == 0 {
      assert FrontPart(items, i, k) == Sentences(items[..i]);
      LastIsShort(items[..i]);
    }
  }

  lemma NothingExpected()
    ensures Expected([], NoneUsed()) == []
  {
  }

  lemma LastIsShort(items: seq<Item>)
    requires items != []
    ensures items[|items| - 1] == OtherItem(true) ==>
              Sentences(items) != [] && Sentences(items)[|Sentences(items)| - 1] == Ignored
  {
  }

  lemma ChunkReportsOnlyIf(sky: Sky, ss: seq<Sentence>, svs: seq<Sv>)
    requires Clean(sky) && ss != [] && forall i :: 0 <= i < |ss| ==> WellFormed(ss[i])
    requires Appended(sky, AbsorbAll(sky, ss), svs) && ApplyChunk(sky, ss).1.Some?
    ensures svs != [] && !ss[|ss| - 1].Ignored?
  {
    hide Absorb;
  }

  lemma FrontIsSeen(items: seq<Item>, i: nat, k: nat)
    requires Place(items, i, k) && forall j :: 0 <= j < |items| ==> ProperItem(items[j])
    requires Expected(items[..i], NoneUsed()) != [] && (k == 0 ==> items[i - 1] != OtherItem(true))
    ensures FrontPart(items, i, k) != [] && !FrontPart(items, i, k)[|FrontPart(items, i, k)| - 1].Ignored?
  {
    if k == 0 {
      LastIsSeen(items[..i]);
    } else {
      var item := items[i];
      assert ProperItem(item);
      assert AnnouncesPart(item.msgs[k - 1], k - 1, |item.msgs|, item.beidou, item.sats);
    }
  }

  lemma NoRestNothingBehind(items: seq<Item>, i: nat, k: nat)
    requires Place(items, i, k) && forall j :: 0 <= j < |items| ==> ProperItem(items[j])
    ensures RestPart(items, i, k) == [] ==> Behind(items, i, k) == []
  {
    if k == 0 && i < |items| { ItemsHaveSentences(items[i..]); }
  }

  lemma ItemsHaveSentences(items: seq<Item>)
    requires items != [] && forall j :: 0 <= j < |items| ==> ProperItem(items[j])
    ensures Sentences(items) != []
  {
    assert ProperItem(items[|items| - 1]);
  }

  lemma RestIsSeen(items: seq<Item>, i: nat, k: nat)
    requires Place(items, i, k) && ProperEpoch(items) && RestPart(items, i, k) != []
    ensures !RestPart(items, i, k)[|RestPart(items, i, k)| - 1].Ignored?
  {
    hide FrontPart, RestPart, Sentences;
    FrontAndRest(items, i, k);
    LastIsSeen(items);
    var ss := Sentences(items);
    assert ss[|ss| - 1] == RestPart(items, i, k)[|RestPart(items, i, k)| - 1];
  }

  /** The first report is the epoch's own exactly when nothing is announced behind the cut or caught by it. */
  lemma FirstReportIsAllIff(items: seq<Item>, i: nat, k: nat, capacity: nat)
    requires Place(items, i, k) && Behind(items, i, k) == []
    ensures Cut(Expected(items[..i], NoneUsed()), capacity) == Fitting(items, capacity)
       <==> Caught(items, i, k) == [] || |Expected(items[..i], NoneUsed())| >= capacity
  {
    hide Expected, UsedAfter;
    var used := UsedAfter(items[..i], NoneUsed());
    assert items == items[..i] + items[i..];
    ExpectedAppend(items[..i], items[i..], NoneUsed());
    ExpectedLength(items[i..], used, NoneUsed());
    NothingMissingIff(items, i, k);
    CutAppend(Expected(items[..i], NoneUsed()), Expected(items[i..], used), capacity);
  }

  // ----- sentences that announce no satellite -----

  /** No satellite the message announces is accepted. */
  predicate Barren(s: Sentence)
    requires WellFormed(s)
  {
    s.Gsv? ==> Accepted(s.sats[..SlotsRead(s.index, s.cnt)], s.beidou, NoneUsed()) == []
  }

  lemma {:induction false} AddSatsNone(sky: Sky, fs: seq<SatField>, beidou: bool)
    requires Valid(sky) && Accepted(fs, beidou, NoneUsed()) == []
    ensures AddSats(sky, fs, beidou) == sky
  {
    if fs != [] { AddSatsNone(sky, fs[..|fs| - 1], beidou); }
  }

  lemma MessageIsBarren(m: Sentence, i: nat, from: nat, num: nat, beidou: bool, sats: seq<SatField>)
    requires AnnouncesPart(m, i, num, beidou, sats) && from <= i && 4 * i + 4 < TWO_31 && |sats| < TWO_31
    requires Accepted(sats[|Covered(from, sats)|..], beidou, NoneUsed()) == []
    ensures WellFormed(m) && Barren(m)
  {
    hide Accepted, SlotsRead;
    MessageCovers(m, i, num, beidou, sats);
    var done, own, more := Between(from, i, sats), m.sats[..SlotsRead(m.index, m.cnt)], sats[|Covered(i + 1, sats)|..];
    assert sats[|Covered(from, sats)|..] == done + own + more by { InThree(m, i, from, own, sats); }
    AcceptedAppend(done + own, more, beidou, NoneUsed());
    AcceptedAppend(done, own, beidou, NoneUsed());
  }

  lemma InThree(m: Sentence, i: nat, from: nat, own: seq<SatField>, sats: seq<SatField>)
    requires from <= i && Covered(i + 1, sats) == Covered(i, sats) + own
    ensures sats[|Covered(from, sats)|..] == Between(from, i, sats) + own + sats[|Covered(i + 1, sats)|..]
  {
  }

  lemma GroupIsBarren(item: Item, from: nat)
    requires item.GroupItem? && ProperItem(item) && from <= |item.msgs|
    requires Accepted(item.sats[|Covered(from, item.sats)|..], item.beidou, NoneUsed()) == []
    ensures forall j :: from <= j < |item.msgs| ==> WellFormed(item.msgs[j]) && Barren(item.msgs[j])
  {
    hide Barren, Accepted;
    forall j | from <= j < |item.msgs|
      ensures WellFormed(item.msgs[j]) && Barren(item.msgs[j])
    {
      assert AnnouncesPart(item.msgs[j], j, |item.msgs|, item.beidou, item.sats);
      MessageIsBarren(item.msgs[j], j, from, |item.msgs|, item.beidou, item.sats);
    }
  }

  lemma {:induction false} ItemsAreBarren(items: seq<Item>, used: seq<bool>)
    requires forall j :: 0 <= j < |items| ==> ProperItem(items[j])
    requires |used| == USED_SIZE && Expected(items, used) == []
    ensures forall j :: 0 <= j < |Sentences(items)| ==> WellFormed(Sentences(items)[j]) && Barren(Sentences(items)[j])
  {
    hide Accepted, MarkUsed, Barren, WellFormed, ProperItem;
    if items != [] {
      var init, last := items[..|items| - 1], items[|items| - 1];
      ItemsAreBarren(init, used);
      assert ProperItem(last);
      ItemIsBarren(last, UsedAfter(init, used));
    }
  }

  lemma ItemIsBarren(item: Item, used: seq<bool>)
    requires ProperItem(item) && |used| == USED_SIZE && ItemSvs(item, used) == []
    ensures forall s :: s in ItemSentences(item) ==> WellFormed(s) && Barren(s)
  {
    hide Accepted;
    if item.GroupItem? {
      AcceptedLength(item.sats, item.beidou, used, NoneUsed());
      assert item.sats[|Covered(0, item.sats)|..] == item.sats;
      GroupIsBarren(item, 0);
    }
  }

  lemma RestIsBarren(items: seq<Item>, i: nat, k: nat)
    requires Place(items, i, k) && Behind(items, i, k) == [] && forall j :: 0 <= j < |items| ==> ProperItem(items[j])
    ensures forall s :: s in RestPart(items, i, k) ==> WellFormed(s) && Barren(s)
  {
    hide Accepted, Barren;
    if k == 0 {
      ItemsAreBarren(items[i..], NoneUsed());
    } else {
      GroupIsBarren(items[i], k);
      ItemsAreBarren(items[i + 1..], NoneUsed());
    }
  }
}
