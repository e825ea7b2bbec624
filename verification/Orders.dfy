/** The orders Go leaves open when a refresh visits its maps: the device table and every station list (code/refresh.go).
    When do they show in what is published? */
module Orders {
  import opened Common
  import opened Text
  import opened Presence
  import opened Devices
  import opened Traffic
  import opened Fetch

  // ---- the station loops as one ----

  /** The names asked for stations, in order, over all access points. */
  function AllNames(ifaces: seq<Interface>): seq<string> {
    if ifaces == [] then [] else AllNames(ifaces[..|ifaces| - 1]) + StationNames(ifaces[|ifaces| - 1])
  }

  lemma {:induction false} NamePairsConcat(a: seq<string>, b: seq<string>, lists: map<string, seq<Station>>)
    ensures NamePairs(a + b, lists) == NamePairs(a, lists) + NamePairs(b, lists)
  {
    hide ListPairs, Listed;
    if b == [] {
      assert a + b == a;
    } else {
      assert (a + b)[..|a + b| - 1] == a + b[..|b| - 1];
      NamePairsConcat(a, b[..|b| - 1], lists);
    }
  }

  lemma {:induction false} StationPairsByName(ifaces: seq<Interface>, lists: map<string, seq<Station>>)
    ensures StationPairs(ifaces, lists) == NamePairs(AllNames(ifaces), lists)
  {
    hide NamePairs, StationNames;
    if ifaces != [] {
      var before, last := ifaces[..|ifaces| - 1], ifaces[|ifaces| - 1];
      StationPairsByName(before, lists);
      NamePairsConcat(AllNames(before), StationNames(last), lists);
    } else {
      NoNames(lists);
    }
  }

  lemma {:induction false} NoNames(lists: map<string, seq<Station>>)
    ensures NamePairs([], lists) == []
  {
  }

  lemma {:induction false} LastWinsConcat<K, V>(a: seq<(K, V)>, b: seq<(K, V)>)
    ensures LastWins(a + b) == LastWins(a) + LastWins(b)
  {
    if b == [] {
      assert a + b == a;
    } else {
      assert (a + b)[..|a + b| - 1] == a + b[..|b| - 1];
      LastWinsConcat(a, b[..|b| - 1]);
    }
  }

  // ---- which list decides ----

  ghost predicate Lists(list: seq<Station>, mac: string) {
    exists sta :: sta in list && NormalizeMac(sta.mac) == mac
  }

  /** The last list with the address. */
  ghost predicate LastListing(names: seq<string>, lists: map<string, seq<Station>>, mac: string, i: int) {
    && 0 <= i < |names| && Lists(Listed(lists, names[i]), mac)
    && forall j | i < j < |names| :: !Lists(Listed(lists, names[j]), mac)
  }

  /** An entry of that list for the address: some order of the list makes it the one that counts. */
  ghost predicate Candidate(names: seq<string>, lists: map<string, seq<Station>>, mac: string, info: StationInfo) {
    exists i, sta :: LastListing(names, lists, mac, i) && sta in Listed(lists, names[i]) &&
      NormalizeMac(sta.mac) == mac && info == InfoOf(names[i], sta)
  }

  function OneList(name: string, list: seq<Station>): map<string, StationInfo> {
    LastWins(ListPairs(name, list))
  }

  /** One list assigns exactly the addresses it has, each some entry's data. */
  lemma {:induction false} OneListHas(name: string, list: seq<Station>, mac: string)
    requires MacShape(mac)
    ensures mac in OneList(name, list) <==> Lists(list, mac)
    ensures mac in OneList(name, list) ==>
              exists sta :: sta in list && NormalizeMac(sta.mac) == mac && OneList(name, list)[mac] == InfoOf(name, sta)
  {
    hide MacShape, NormalizeMac, LastWins, InfoOf, ListPairs;
    var pairs := ListPairs(name, list);
    LastWinsLookup(pairs, mac);
    forall info
      ensures (mac, info) in pairs <==>
              exists sta :: sta in list && (mac, info) == (NormalizeMac(sta.mac), InfoOf(name, sta))
    {
      ListPairsHave(name, list, (mac, info));
    }
    assert forall i | 0 <= i < |pairs| :: pairs[i] == (pairs[i].0, pairs[i].1) && pairs[i] in pairs;
    if Lists(list, mac) {
      var sta :| sta in list && NormalizeMac(sta.mac) == mac;
      assert (mac, InfoOf(name, sta)) in pairs;
    }
  }

  /** The station map holds an address exactly when some list has it, with the data of the last such list. */
  lemma {:induction false} LastListDecides(names: seq<string>, lists: map<string, seq<Station>>, mac: string)
    requires MacShape(mac)
    ensures mac in LastWins(NamePairs(names, lists)) <==> exists i :: LastListing(names, lists, mac, i)
    ensures forall i | LastListing(names, lists, mac, i) ::
              && mac in LastWins(NamePairs(names, lists)) && mac in OneList(names[i], Listed(lists, names[i]))
              && LastWins(NamePairs(names, lists))[mac] == OneList(names[i], Listed(lists, names[i]))[mac]
  {
    hide MacShape, NormalizeMac, ListPairs, Listed, Lists, LastWins;
    if names == [] {
      LastWinsLookup(NamePairs(names, lists), mac);
    } else {
      var n := |names| - 1;
      var before, name := names[..n], names[n];
      LastListDecides(before, lists, mac);
      LastWinsConcat(NamePairs(before, lists), ListPairs(name, Listed(lists, name)));
      OneListHas(name, Listed(lists, name), mac);
      assert forall i | 0 <= i < n :: before[i] == names[i];
      if Lists(Listed(lists, name), mac) {
        assert LastListing(names, lists, mac, n);
      } else {
        assert forall i | 0 <= i < n :: LastListing(before, lists, mac, i) <==> LastListing(names, lists, mac, i);
      }
    }
  }

  // ---- visiting the lists in another order ----

  /** The same lists, each visited in some order. */
  ghost predicate SameLists(a: map<string, seq<Station>>, b: map<string, seq<Station>>) {
    a.Keys == b.Keys && forall name | name in a :: multiset(a[name]) == multiset(b[name])
  }

  lemma {:induction false} SameMembers(a: map<string, seq<Station>>, b: map<string, seq<Station>>, name: string)
    requires SameLists(a, b)
    ensures forall sta :: sta in Listed(a, name) <==> sta in Listed(b, name)
    ensures forall mac :: Lists(Listed(a, name), mac) <==> Lists(Listed(b, name), mac)
  {
    assert forall sta :: sta in Listed(a, name) <==> sta in multiset(Listed(a, name));
    assert forall sta :: sta in Listed(b, name) <==> sta in multiset(Listed(b, name));
  }

  lemma {:induction false} SameCandidates(names: seq<string>, a: map<string, seq<Station>>,
                                          b: map<string, seq<Station>>, mac: string)
    requires SameLists(a, b)
    ensures forall i :: LastListing(names, a, mac, i) <==> LastListing(names, b, mac, i)
    ensures forall info :: Candidate(names, a, mac, info) <==> Candidate(names, b, mac, info)
  {
    forall name ensures forall sta :: sta in Listed(a, name) <==> sta in Listed(b, name)
      ensures forall mac :: Lists(Listed(a, name), mac) <==> Lists(Listed(b, name), mac)
    {
      SameMembers(a, b, name);
    }
    hide Listed, Lists, NormalizeMac, SameLists, InfoOf;
  }

  /** The station map of all the lists. */
  function StationsOf(names: seq<string>, lists: map<string, seq<Station>>): map<string, StationInfo> {
    LastWins(NamePairs(names, lists))
  }

  /** What the map holds for an address is one of its candidates. */
  lemma {:induction false} HeldIsCandidate(names: seq<string>, lists: map<string, seq<Station>>, mac: string)
    requires MacShape(mac)
    ensures mac in StationsOf(names, lists) <==> exists info :: Candidate(names, lists, mac, info)
    ensures mac in StationsOf(names, lists) ==> Candidate(names, lists, mac, StationsOf(names, lists)[mac])
  {
    hide MacShape, NormalizeMac, OneList, InfoOf, Listed, NamePairs;
    LastListDecides(names, lists, mac);
    if mac in StationsOf(names, lists) {
      var i :| LastListing(names, lists, mac, i);
      var list := Listed(lists, names[i]);
      OneListHas(names[i], list, mac);
      var sta :| sta in list && NormalizeMac(sta.mac) == mac && OneList(names[i], list)[mac] == InfoOf(names[i], sta);
      assert Candidate(names, lists, mac, InfoOf(names[i], sta));
    }
  }

  lemma {:induction false} MovedToEnd<T>(s: seq<T>, k: nat)
    requires k < |s|
    ensures multiset(s[..k] + s[k + 1..] + [s[k]]) == multiset(s)
  {
    assert s == s[..k] + [s[k]] + s[k + 1..];
  }

  lemma {:induction false} LastEntryCounts(name: string, list: seq<Station>, sta: Station)
    requires MacShape(NormalizeMac(sta.mac))
    ensures OneList(name, list + [sta]) == OneList(name, list)[NormalizeMac(sta.mac) := InfoOf(name, sta)]
  {
    hide MacShape, NormalizeMac;
    NormalizeIdempotent(sta.mac);
    assert (list + [sta])[..|list|] == list;
    LastWinsSnoc(ListPairs(name, list), (NormalizeMac(sta.mac), InfoOf(name, sta)));
  }

  /** Every candidate is what the map holds for some order of the lists. */
  lemma {:induction false} CandidateIsPossible(names: seq<string>, a: map<string, seq<Station>>, mac: string,
                                               info: StationInfo)
    returns (b: map<string, seq<Station>>)
    requires MacShape(mac) && Candidate(names, a, mac, info)
    ensures SameLists(a, b) && mac in StationsOf(names, b) && StationsOf(names, b)[mac] == info
  {
    hide MacShape, NormalizeMac, OneList, InfoOf, NamePairs;
    var i, sta :| LastListing(names, a, mac, i) && sta in Listed(a, names[i]) && NormalizeMac(sta.mac) == mac
                  && info == InfoOf(names[i], sta);
    var name, list := names[i], a[names[i]];
    var k :| 0 <= k < |list| && list[k] == sta;
    MovedToEnd(list, k);
    b := a[name := list[..k] + list[k + 1..] + [sta]];
    SameCandidates(names, a, b, mac);
    LastEntryCounts(name, list[..k] + list[k + 1..], sta);
    LastListDecides(names, b, mac);
  }

  // ---- the published list ----

  /** The same answers, with the device table and the station lists visited in other orders. */
  ghost predicate Reordered(a: Answers, b: Answers) {
    && b == a.(order := b.order, lists := b.lists)
    && ValidAnswers(b) && SameLists(a.lists, b.lists)
  }

  function RecordsOf(a: Answers, latest: string, copied: map<string, nat>, now: nat): seq<TrackedDevice> {
    Records(ReadingOf(a, latest).g, copied, now, a.order)
  }

  /** Whatever orders the maps are visited in, and however the sort treats ties, the published list is the same. */
  ghost predicate OrderFree(a: Answers, latest: string, copied: map<string, nat>, now: nat) {
    forall b, x, y
      | Reordered(a, b)
        && IsSortOf(x, RecordsOf(a, latest, copied, now)) && IsSortOf(y, RecordsOf(b, latest, copied, now)) ::
      x == y
  }

  /** The record of a row if its address's station data were these. */
  function RecordWith(g: Gathered, copied: map<string, nat>, now: nat, id: string, info: StationInfo): TrackedDevice
    requires IsTracked(g, id) && g.presence.Legacy?
  {
    var mac := DeviceMac(id, g.devices[id]);
    var g' := g.(presence := Legacy(g.presence.stations[mac := info], g.presence.arp));
    assert IsTracked(g', id);
    Record(g', copied, now, id)
  }

  /** It makes no difference to any record which entry of the last list with its address is visited last. */
  ghost predicate CandidatesAgree(a: Answers, latest: string, copied: map<string, nat>, now: nat) {
    var g := ReadingOf(a, latest).g;
    g.presence.Legacy? ==>
      forall id, info
        | IsTracked(g, id) && Candidate(AllNames(a.ifaces), a.lists, DeviceMac(id, g.devices[id]), info) ::
        RecordWith(g, copied, now, id, info) == Record(g, copied, now, id)
  }

  /** What a reordering leaves as it was. */
  lemma {:induction false} ReorderedReading(a: Answers, b: Answers, latest: string)
    requires Reordered(a, b)
    ensures var g, h := ReadingOf(a, latest).g, ReadingOf(b, latest).g;
            && h == g.(order := b.order, presence := h.presence)
            && (g.presence.Topology? ==> h.presence == g.presence)
            && (g.presence.Legacy? ==>
                  && h.presence.Legacy? && h.presence.arp == g.presence.arp
                  && g.presence.stations == StationsOf(AllNames(a.ifaces), a.lists)
                  && h.presence.stations == StationsOf(AllNames(a.ifaces), b.lists))
  {
    hide CountersOf, Bytes, UplinkName, TopoPairs, ArpPairs, LastWins, StationPairs, NamePairs, AllNames, HasGuestBss;
    StationPairsByName(a.ifaces, a.lists);
    StationPairsByName(a.ifaces, b.lists);
  }

  lemma {:induction false} TrackedMac(g: Gathered, id: string)
    requires IsTracked(g, id)
    ensures MacShape(DeviceMac(id, g.devices[id]))
  {
    hide MacShape, NormalizeMac;
    NormalizeIdempotent(g.devices[id].mac);
    NormalizeIdempotent(id);
  }

  /** Only the address's own station data matters to a record. */
  lemma {:induction false} RecordDependsOn(g: Gathered, h: Gathered, copied: map<string, nat>, now: nat, id: string)
    requires IsTracked(g, id) && g.presence.Legacy? && h.presence.Legacy?
    requires h == g.(order := h.order, presence := h.presence) && h.presence.arp == g.presence.arp
    requires var mac := DeviceMac(id, g.devices[id]);
             mac in h.presence.stations <==> mac in g.presence.stations
    ensures IsTracked(h, id)
    ensures var mac := DeviceMac(id, g.devices[id]);
            if mac in h.presence.stations
            then Record(h, copied, now, id) == RecordWith(g, copied, now, id, h.presence.stations[mac])
            else Record(h, copied, now, id) == Record(g, copied, now, id)
  {
    hide IsMac, NormalizeMac, HasWan;
  }

  lemma {:induction false} RecordsAgree(g: Gathered, h: Gathered, copied: map<string, nat>, now: nat,
                                        order: seq<string>)
    requires forall id :: IsTracked(g, id) <==> IsTracked(h, id)
    requires forall id | IsTracked(g, id) :: Record(g, copied, now, id) == Record(h, copied, now, id)
    ensures Records(g, copied, now, order) == Records(h, copied, now, order)
  {
    hide IsTracked, Record;
    if order != [] {
      RecordsAgree(g, h, copied, now, order[..|order| - 1]);
    }
  }

  /** In a reordering the same addresses have station data, from the same candidates. */
  lemma {:induction false} ReorderedRecord(a: Answers, b: Answers, latest: string, copied: map<string, nat>, now: nat,
                                           id: string)
    requires Reordered(a, b) && IsTracked(ReadingOf(a, latest).g, id)
    ensures var g, h := ReadingOf(a, latest).g, ReadingOf(b, latest).g;
            var mac := DeviceMac(id, g.devices[id]);
            && IsTracked(h, id)
            && if g.presence.Legacy? && h.presence.Legacy? && mac in h.presence.stations
               then && Candidate(AllNames(a.ifaces), a.lists, mac, h.presence.stations[mac])
                    && Record(h, copied, now, id) == RecordWith(g, copied, now, id, h.presence.stations[mac])
               else Record(h, copied, now, id) == Record(g, copied, now, id)
  {
    hide IsMac, NormalizeMac, HasWan, Candidate, StationsOf, AllNames, SameLists, ReadingOf, RecordWith;
    var g, h := ReadingOf(a, latest).g, ReadingOf(b, latest).g;
    ReorderedReading(a, b, latest);
    var names, mac := AllNames(a.ifaces), DeviceMac(id, g.devices[id]);
    if g.presence.Legacy? {
      TrackedMac(g, id);
      HeldIsCandidate(names, a.lists, mac);
      HeldIsCandidate(names, b.lists, mac);
      SameCandidates(names, a.lists, b.lists, mac);
      RecordDependsOn(g, h, copied, now, id);
    }
  }

  /** If the candidates agree, a reordering changes no record. */
  lemma {:induction false} AgreeingCandidates(a: Answers, b: Answers, latest: string, copied: map<string, nat>,
                                              now: nat)
    requires Reordered(a, b) && CandidatesAgree(a, latest, copied, now)
    ensures RecordsOf(b, latest, copied, now) == Records(ReadingOf(a, latest).g, copied, now, b.order)
  {
    var g, h := ReadingOf(a, latest).g, ReadingOf(b, latest).g;
    ReorderedReading(a, b, latest);
    hide ReadingOf, Record, RecordWith, IsMac, Candidate, DeviceMac, SameLists, ValidAnswers, AllNames, StationsOf;
    forall id | IsTracked(g, id) ensures IsTracked(h, id) && Record(g, copied, now, id) == Record(h, copied, now, id) {
      ReorderedRecord(a, b, latest, copied, now, id);
    }
    assert h.devices == g.devices;
    hide IsTracked;
    RecordsAgree(g, h, copied, now, b.order);
  }

  lemma {:induction false} RecordListed(g: Gathered, copied: map<string, nat>, now: nat, order: seq<string>, id: string)
    requires id in order && IsTracked(g, id)
    ensures Record(g, copied, now, id) in Records(g, copied, now, order)
  {
    hide IsTracked, Record;
    var n := |order| - 1;
    if order[n] != id {
      RecordListed(g, copied, now, order[..n], id);
    }
  }

  lemma {:induction false} RecordMac(g: Gathered, copied: map<string, nat>, now: nat, id: string)
    requires IsTracked(g, id)
    ensures Record(g, copied, now, id).mac == DeviceMac(id, g.devices[id])
  {
    hide IsMac, DeviceMac, LinkOf, HasWan, SightingFor;
  }

  /** If orders do not show, the records are the same in every reordering, and one per address. */
  lemma {:induction false} SameRecords(a: Answers, b: Answers, latest: string, copied: map<string, nat>, now: nat)
    requires OrderFree(a, latest, copied, now) && ValidAnswers(a) && Reordered(a, b)
    ensures multiset(RecordsOf(a, latest, copied, now)) == multiset(RecordsOf(b, latest, copied, now))
    ensures MacDecides(RecordsOf(a, latest, copied, now))
  {
    hide RecordsOf, MacDecides, ValidAnswers;
    var records := RecordsOf(a, latest, copied, now);
    SortSorts(records);
    SortSorts(RecordsOf(b, latest, copied, now));
    assert Reordered(a, a);
    SortDeterminedExactly(records);
  }

  /** So every entry of the deciding list would have given each row the same record. */
  lemma {:induction false} CandidateAgrees(a: Answers, latest: string, copied: map<string, nat>, now: nat, id: string,
                                           info: StationInfo)
    requires ValidAnswers(a) && OrderFree(a, latest, copied, now)
    requires IsTracked(ReadingOf(a, latest).g, id) && ReadingOf(a, latest).g.presence.Legacy?
    requires Candidate(AllNames(a.ifaces), a.lists, DeviceMac(id, ReadingOf(a, latest).g.devices[id]), info)
    ensures var g := ReadingOf(a, latest).g;
            RecordWith(g, copied, now, id, info) == Record(g, copied, now, id)
  {
    var g := ReadingOf(a, latest).g;
    TrackedMac(g, id);
    var lists := CandidateIsPossible(AllNames(a.ifaces), a.lists, DeviceMac(id, g.devices[id]), info);
    var b := a.(lists := lists);
    assert Reordered(a, b);
    assert id in a.order && g.order == a.order;
    ReorderedReading(a, b, latest);
    ReorderedRecord(a, b, latest, copied, now, id);
    SameRecords(a, b, latest, copied, now);
    var h := ReadingOf(b, latest).g;
    hide IsTracked, DeviceMac, ReadingOf, Record, RecordWith, Candidate, StationsOf, OrderFree, SameLists, ValidAnswers,
         MacShape,
         AllNames, Records;
    RecordListed(g, copied, now, a.order, id);
    RecordListed(h, copied, now, a.order, id);
    RecordMac(g, copied, now, id);
    RecordMac(h, copied, now, id);
    assert Record(h, copied, now, id) in multiset(RecordsOf(b, latest, copied, now));
    assert Record(h, copied, now, id) in RecordsOf(a, latest, copied, now);
  }

  /** The published list is determined by what was fetched, whatever order the device table and the station lists are
      visited in and however ties are sorted, exactly when no two different records share an address and the entries of
      the list that decides an address would all give its rows the same record. */
  lemma {:induction false} PublishedDeterminedExactly(a: Answers, latest: string, copied: map<string, nat>, now: nat)
    requires ValidAnswers(a)
    ensures OrderFree(a, latest, copied, now) <==>
            MacDecides(RecordsOf(a, latest, copied, now)) && CandidatesAgree(a, latest, copied, now)
  {
    var g := ReadingOf(a, latest).g;
    assert g.devices == a.devices && g.order == a.order;
    hide ReadingOf, Record, RecordWith, IsTracked, Candidate, DeviceMac, MacDecides, Records, AllNames,
         IsIterationOrder;
    if MacDecides(RecordsOf(a, latest, copied, now)) && CandidatesAgree(a, latest, copied, now) {
      RowOrderDecidesExactly(g, copied, now);
      forall b, x, y
        | Reordered(a, b)
          && IsSortOf(x, RecordsOf(a, latest, copied, now)) && IsSortOf(y, RecordsOf(b, latest, copied, now))
        ensures x == y
      {
        AgreeingCandidates(a, b, latest, copied, now);
      }
    }
    if OrderFree(a, latest, copied, now) {
      assert Reordered(a, a);
      SameRecords(a, a, latest, copied, now);
      forall id, info
        | IsTracked(g, id) && g.presence.Legacy?
          && Candidate(AllNames(a.ifaces), a.lists, DeviceMac(id, g.devices[id]), info)
        ensures RecordWith(g, copied, now, id, info) == Record(g, copied, now, id)
      {
        CandidateAgrees(a, latest, copied, now, id, info);
      }
    }
  }

  /** No station list has two entries of one address. */
  ghost predicate NoRepeats(lists: map<string, seq<Station>>) {
    forall name, s, t
      | name in lists && s in lists[name] && t in lists[name] && NormalizeMac(s.mac) == NormalizeMac(t.mac) ::
      s == t
  }

  lemma {:induction false} OneCandidate(names: seq<string>, lists: map<string, seq<Station>>, mac: string,
                                        x: StationInfo, y: StationInfo)
    requires NoRepeats(lists) && Candidate(names, lists, mac, x) && Candidate(names, lists, mac, y)
    ensures x == y
  {
    hide NormalizeMac;
    var i, s :| LastListing(names, lists, mac, i) && s in Listed(lists, names[i]) && NormalizeMac(s.mac) == mac
                && x == InfoOf(names[i], s);
    var j, t :| LastListing(names, lists, mac, j) && t in Listed(lists, names[j]) && NormalizeMac(t.mac) == mac
                && y == InfoOf(names[j], t);
    assert i == j;
  }

  /** That is so in particular when the tracked rows have distinct addresses and no station list repeats one. */
  lemma {:induction false} DistinctAddressesDetermine(a: Answers, latest: string, copied: map<string, nat>, now: nat)
    requires ValidAnswers(a) && DistinctMacs(ReadingOf(a, latest).g) && NoRepeats(a.lists)
    ensures OrderFree(a, latest, copied, now)
  {
    var g := ReadingOf(a, latest).g;
    var names := AllNames(a.ifaces);
    assert Reordered(a, a) && g.order == a.order && g.devices == a.devices;
    ReorderedReading(a, a, latest);
    hide ReadingOf, Record, RecordWith, Candidate, DeviceMac, MacDecides, AllNames, NoRepeats, OrderFree, ValidAnswers,
         IsMac,
         StationsOf, SameLists, Records;
    DistinctMacsDecideRows(g, copied, now);
    RowOrderDecidesExactly(g, copied, now);
    forall id, info
      | IsTracked(g, id) && g.presence.Legacy? && Candidate(names, a.lists, DeviceMac(id, g.devices[id]), info)
      ensures RecordWith(g, copied, now, id, info) == Record(g, copied, now, id)
    {
      var mac := DeviceMac(id, g.devices[id]);
      TrackedMac(g, id);
      HeldIsCandidate(names, a.lists, mac);
      OneCandidate(names, a.lists, mac, info, g.presence.stations[mac]);
      ReorderedRecord(a, a, latest, copied, now, id);
    }
    PublishedDeterminedExactly(a, latest, copied, now);
  }
}
