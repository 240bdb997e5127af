/** The distinct operating frequencies of the interfaces that share one radio. */
module SharedFreqs {
  import opened Bytes

  datatype Mode = Infra | Ibss | Ap | P2pGo | P2pGroupFormation | Mesh

  datatype Ssid = Ssid(mode: Mode, frequency: int, p2pGroup: bool)

  /** hasBssid: the driver can tell the BSSID the interface is associated with. */
  datatype Iface = Iface(currentSsid: Option<Ssid>, assocFreq: int, hasBssid: bool)

  datatype Flag = NoFlag | ByInfraStation | ByP2pClient

  datatype Entry = Entry(freq: int, flags: Flag)

  const CLEARED := Entry(0, NoFlag)

  // ----- the reference -----

  /** The frequency an interface contributes, if it contributes one. */
  function FreqOf(i: Iface): Option<int> {
    if i.currentSsid.None? || i.assocFreq == 0 then None
    else if i.currentSsid.value.mode == Ap || i.currentSsid.value.mode == P2pGo then Some(i.currentSsid.value.frequency)
    else if i.hasBssid then Some(i.assocFreq)
    else None
  }

  /** The frequencies contributed, each once, in the order in which they first appear. */
  function Distinct(ifs: seq<Iface>): seq<int> {
    if ifs == [] then []
    else
      var before := Distinct(ifs[..|ifs| - 1]);
      var freq := FreqOf(ifs[|ifs| - 1]);
      if freq.Some? && freq.value !in before then before + [freq.value] else before
  }

  predicate StationOn(i: Iface, freq: int) {
    FreqOf(i) == Some(freq) && i.currentSsid.value.mode == Infra
  }

  /** The flag set by the last infrastructure interface on a frequency. */
  function LastFlag(ifs: seq<Iface>, freq: int): Flag {
    if ifs == [] then NoFlag
    else
      var last := ifs[|ifs| - 1];
      if StationOn(last, freq) then (if last.currentSsid.value.p2pGroup then ByP2pClient else ByInfraStation)
      else LastFlag(ifs[..|ifs| - 1], freq)
  }

  /** How many interfaces are looked at: the list is left as soon as `len` frequencies are found. */
  function Processed(ifs: seq<Iface>, len: nat): (n: nat)
    ensures n <= |ifs|
  {
    if ifs == [] then 0
    else
      var n := Processed(ifs[..|ifs| - 1], len);
      if n < |ifs| - 1 || |Distinct(ifs[..|ifs| - 1])| >= len then n else |ifs|
  }

  /** Distinct lists exactly the contributed frequencies, none twice. */
  lemma {:induction false} DistinctIsExact(ifs: seq<Iface>)
    ensures forall f :: f in Distinct(ifs) <==> exists k :: 0 <= k < |ifs| && FreqOf(ifs[k]) == Some(f)
    ensures forall i, j :: 0 <= i < j < |Distinct(ifs)| ==> Distinct(ifs)[i] != Distinct(ifs)[j]
  {
    if ifs != [] {
      var init := ifs[..|ifs| - 1];
      DistinctIsExact(init);
      assert forall k :: 0 <= k < |init| ==> init[k] == ifs[k];
      forall f
        ensures f in Distinct(ifs) <==> exists k :: 0 <= k < |ifs| && FreqOf(ifs[k]) == Some(f)
      {
        if FreqOf(ifs[|ifs| - 1]) != Some(f) {
          assert f in Distinct(ifs) <==> f in Distinct(init);
          if exists k :: 0 <= k < |init| && FreqOf(init[k]) == Some(f) {
            var k :| 0 <= k < |init| && FreqOf(init[k]) == Some(f);
            assert FreqOf(ifs[k]) == Some(f);
          }
        }
      }
    }
  }

  /** More interfaces only add frequencies at the end. */
  lemma {:induction false} DistinctPrefix(ifs: seq<Iface>, n: nat)
    requires n <= |ifs|
    ensures Distinct(ifs[..n]) <= Distinct(ifs)
    decreases |ifs|
  {
    if n < |ifs| {
      DistinctPrefix(ifs[..|ifs| - 1], n);
      assert ifs[..|ifs| - 1][..n] == ifs[..n];
    } else {
      assert ifs[..n] == ifs;
    }
  }

  /** The interfaces looked at yield the first `len` distinct frequencies of the whole list. */
  lemma {:induction false} ProcessedYields(ifs: seq<Iface>, len: nat)
    ensures var all := Distinct(ifs);
            Distinct(ifs[..Processed(ifs, len)]) == if |all| <= len then all else all[..len]
    ensures Processed(ifs, len) < |ifs| ==> |Distinct(ifs[..Processed(ifs, len)])| == len
    ensures forall k :: 0 <= k < Processed(ifs, len) ==> |Distinct(ifs[..k])| < len
  {
    if ifs == [] {
      assert ifs[..0] == [];
    } else {
      var init := ifs[..|ifs| - 1];
      ProcessedYields(init, len);
      var n := Processed(ifs, len);
      if n == |ifs| {
        assert ifs[..n] == ifs;
        assert init[..Processed(init, len)] == init;
        forall k | 0 <= k < n
          ensures |Distinct(ifs[..k])| < len
        {
          assert ifs[..k] == init[..k];
        }
      } else {
        assert init[..n] == ifs[..n];
        assert forall k :: 0 <= k < n ==> ifs[..k] == init[..k];
        DistinctPrefix(ifs, |ifs| - 1);
        DistinctPrefix(init, n);
      }
    }
  }

  // ----- the code -----

  /** The state of freqs_data after some interfaces. */
  ghost predicate Recorded(data: seq<Entry>, idx: nat, ifs: seq<Iface>) {
    && idx == |Distinct(ifs)| <= |data|
    && (forall i :: 0 <= i < idx ==> data[i] == Entry(Distinct(ifs)[i], LastFlag(ifs, Distinct(ifs)[i])))
    && (forall i :: idx <= i < |data| ==> data[i] == CLEARED)
  }

  /**
   mtk_get_shared_radio_freqs_data. Entry i is the i-th distinct frequency with the flag of the
   last infrastructure interface among those looked at; the rest of the array is cleared.
   */
  method GetSharedRadioFreqsData(ifaces: seq<Iface>, data: array<Entry>) returns (idx: nat)
    modifies data
    ensures idx <= data.Length
    ensures Recorded(data[..], idx, ifaces[..Processed(ifaces, data.Length)])
    ensures idx == if |Distinct(ifaces)| <= data.Length then |Distinct(ifaces)| else data.Length
    ensures forall i :: 0 <= i < idx ==> data[i].freq == Distinct(ifaces)[i]
  {
    var len := data.Length;
    Clear(data);
    idx := 0;
    var n := 0;
    ProcessedYields(ifaces, len);
    assert ifaces[..0] == [];
    while n < |ifaces|
      invariant 0 <= n <= Processed(ifaces, len)
      invariant Recorded(data[..], idx, ifaces[..n])
    {
      var ifs := ifaces[n];
      if idx == len {
        break;
      }
      idx := Record(ifs, data, idx, ifaces[..n]);
      StillProcessing(ifaces, len, n);
      assert ifaces[..n + 1] == ifaces[..n] + [ifs];
      n := n + 1;
    }
    assert n == Processed(ifaces, len);
  }

  lemma StillProcessing(ifaces: seq<Iface>, len: nat, n: nat)
    requires n < |ifaces| && n <= Processed(ifaces, len) && |Distinct(ifaces[..n])| < len
    ensures n < Processed(ifaces, len)
  {
    ProcessedYields(ifaces, len);
  }

  method Clear(data: array<Entry>)
    modifies data
    ensures forall i :: 0 <= i < data.Length ==> data[i] == CLEARED
  {
    var i := 0;
    while i < data.Length
      invariant 0 <= i <= data.Length
      invariant forall k :: 0 <= k < i ==> data[k] == CLEARED
    {
      data[i] := CLEARED;
      i := i + 1;
    }
  }

  lemma OneMore(ifs: seq<Iface>, last: Iface)
    ensures Distinct(ifs + [last]) == if FreqOf(last).Some? && FreqOf(last).value !in Distinct(ifs)
                                      then Distinct(ifs) + [FreqOf(last).value] else Distinct(ifs)
    ensures forall f :: LastFlag(ifs + [last], f)
                     == if StationOn(last, f)
                        then (if last.currentSsid.value.p2pGroup then ByP2pClient else ByInfraStation)
                        else LastFlag(ifs, f)
  {
  }

  lemma {:induction false} UnseenHasNoFlag(ifs: seq<Iface>, f: int)
    requires f !in Distinct(ifs)
    ensures LastFlag(ifs, f) == NoFlag
  {
    if ifs != [] { UnseenHasNoFlag(ifs[..|ifs| - 1], f); }
  }

  /** The body of the loop over the interfaces. */
  method Record(ifs: Iface, data: array<Entry>, idx: nat, ghost seen: seq<Iface>) returns (idx': nat)
    requires idx < data.Length && Recorded(data[..], idx, seen)
    modifies data
    ensures Recorded(data[..], idx', seen + [ifs])
  {
    OneMore(seen, ifs);
    DistinctIsExact(seen);
    hide Distinct, LastFlag;
    idx' := idx;
    if ifs.currentSsid.None? || ifs.assocFreq == 0 {
      return;
    }
    var ssid := ifs.currentSsid.value;
    var freq;
    if ssid.mode == Ap || ssid.mode == P2pGo {
      freq := ssid.frequency;
    } else if ifs.hasBssid {
      freq := ifs.assocFreq;
    } else {
      return;
    }
    var i := 0;
    while i < idx && data[i].freq != freq
      invariant 0 <= i <= idx
      invariant forall k :: 0 <= k < i ==> data[k].freq != freq
    {
      i := i + 1;
    }
    if i == idx {
      assert forall k :: 0 <= k < idx ==> Distinct(seen)[k] == data[..][k].freq;
      assert freq !in Distinct(seen);
      UnseenHasNoFlag(seen, freq);
      data[idx] := Entry(freq, data[idx].flags);
      idx' := idx + 1;
    }
    if ssid.mode == Infra {
      data[i] := data[i].(flags := if ssid.p2pGroup then ByP2pClient else ByInfraStation);
    }
  }

  /** mtk_get_shared_radio_freqs; `gotScratch` says whether the scratch array could be had. */
  method GetSharedRadioFreqs(ifaces: seq<Iface>, freqArray: array<int>, gotScratch: bool) returns (num: int)
    modifies freqArray
    ensures !gotScratch ==> num == -1 && forall i :: 0 <= i < freqArray.Length ==> freqArray[i] == 0
    ensures gotScratch ==>
              && num == (if |Distinct(ifaces)| <= freqArray.Length then |Distinct(ifaces)| else freqArray.Length)
              && (forall i :: 0 <= i < num ==> freqArray[i] == Distinct(ifaces)[i])
              && (forall i :: num <= i < freqArray.Length ==> freqArray[i] == 0)
  {
    var k := 0;
    while k < freqArray.Length
      invariant 0 <= k <= freqArray.Length
      invariant forall i :: 0 <= i < k ==> freqArray[i] == 0
    {
      freqArray[k] := 0;
      k := k + 1;
    }
    if !gotScratch {
      return -1;
    }
    var data := new Entry[freqArray.Length](i => CLEARED);
    var n := GetSharedRadioFreqsData(ifaces, data);
    hide Distinct;
    var i := 0;
    while i < n
      invariant 0 <= i <= n
      invariant forall j :: 0 <= j < i ==> freqArray[j] == data[j].freq
      invariant forall j :: i <= j < freqArray.Length ==> freqArray[j] == 0
      invariant forall j :: 0 <= j < n ==> data[j].freq == Distinct(ifaces)[j]
    {
      freqArray[i] := data[i].freq;
      i := i + 1;
    }
    num := n;
  }

  // ----- what the entries mean -----

  /**
   The interface operates on this frequency of the radio: an access point or group owner on its
   network's frequency, any other on the one it is associated on, if the driver knows its BSSID.
   */
  predicate OperatesOn(i: Iface, freq: int) {
    && i.currentSsid.Some? && i.assocFreq != 0
    && (match i.currentSsid.value.mode
        case Ap => freq == i.currentSsid.value.frequency
        case P2pGo => freq == i.currentSsid.value.frequency
        case _ => i.hasBssid && freq == i.assocFreq)
  }

  /** An infrastructure interface on this frequency. */
  predicate InfraOn(i: Iface, freq: int) {
    OperatesOn(i, freq) && i.currentSsid.value.mode.Infra?
  }

  lemma OperatesIff(i: Iface, freq: int)
    ensures FreqOf(i) == Some(freq) <==> OperatesOn(i, freq)
    ensures StationOn(i, freq) <==> InfraOn(i, freq)
  {
  }

  /** Interface k is the last infrastructure interface on the frequency. */
  ghost predicate LastInfra(ifs: seq<Iface>, freq: int, k: nat) {
    && k < |ifs| && InfraOn(ifs[k], freq)
    && forall j :: k < j < |ifs| ==> !InfraOn(ifs[j], freq)
  }

  function FlagGiven(i: Iface): Flag {
    if i.currentSsid.Some? && i.currentSsid.value.p2pGroup then ByP2pClient else ByInfraStation
  }

  /** The flag: none without an infrastructure interface, else by whether the last one is in a P2P group. */
  lemma {:induction false} LastFlagIs(ifs: seq<Iface>, freq: int)
    ensures LastFlag(ifs, freq) == NoFlag <==> forall k :: 0 <= k < |ifs| ==> !InfraOn(ifs[k], freq)
    ensures forall k: nat :: LastInfra(ifs, freq, k) ==> LastFlag(ifs, freq) == FlagGiven(ifs[k])
  {
    hide InfraOn;
    if ifs != [] {
      var init, last := ifs[..|ifs| - 1], ifs[|ifs| - 1];
      LastFlagIs(init, freq);
      OperatesIff(last, freq);
      assert forall k :: 0 <= k < |init| ==> init[k] == ifs[k];
      forall k: nat | LastInfra(ifs, freq, k)
        ensures LastFlag(ifs, freq) == FlagGiven(ifs[k])
      {
        if k < |init| {
          assert !InfraOn(ifs[|ifs| - 1], freq);
          assert LastInfra(init, freq, k);
        }
      }
    }
  }

  /**
   What the array holds of a frequency after some interfaces: an entry exactly if one of them
   operates on it, and only one; with no flag if no infrastructure interface is on it, and else that
   of the last one, by its P2P group.
   */
  lemma EntriesMean(data: seq<Entry>, idx: nat, ifs: seq<Iface>, freq: int)
    requires Recorded(data, idx, ifs)
    ensures (exists i :: 0 <= i < idx && data[i].freq == freq)
       <==> exists k :: 0 <= k < |ifs| && OperatesOn(ifs[k], freq)
    ensures forall i, j :: 0 <= i < j < idx ==> data[i].freq != data[j].freq
    ensures forall i :: 0 <= i < idx && data[i].freq == freq ==>
              (data[i].flags == NoFlag <==> forall k :: 0 <= k < |ifs| ==> !InfraOn(ifs[k], freq))
    ensures forall i, k: nat :: 0 <= i < idx && data[i].freq == freq && LastInfra(ifs, freq, k) ==>
              data[i].flags == FlagGiven(ifs[k])
  {
    hide Distinct, LastFlag, OperatesOn, InfraOn, FreqOf, StationOn, LastInfra, FlagGiven;
    DistinctIsExact(ifs);
    LastFlagIs(ifs, freq);
    forall k | 0 <= k < |ifs|
      ensures FreqOf(ifs[k]) == Some(freq) <==> OperatesOn(ifs[k], freq)
    {
      OperatesIff(ifs[k], freq);
    }
    assert freq in Distinct(ifs) <==> exists k :: 0 <= k < |ifs| && FreqOf(ifs[k]) == Some(freq);
    if freq in Distinct(ifs) {
      var i :| 0 <= i < idx && Distinct(ifs)[i] == freq;
      assert data[i].freq == freq;
    }
  }
}
