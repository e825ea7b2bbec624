/** Who is on the network right now: SPR's own topology, or else station lists and the ARP table
    (code/topology.go, and the presence part of code/refresh.go). */
module Presence {
  import opened Common
  import opened Text

  datatype TopoNode = TopoNode(
    kind: string, mac: string, connType: string, iface: string, rssi: Option<int>, online: bool)

  datatype TopoPresence = TopoPresence(online: bool, connType: string, iface: string, signal: int)

  datatype Interface = Interface(name: string, kind: string, enabled: bool, extraBss: nat)

  /** An entry of a station list: the address and its already parsed counters. */
  datatype Station = Station(mac: string, signal: int, rxBytes: nat, txBytes: nat)

  datatype StationInfo = StationInfo(iface: string, signal: int, rxBytes: nat, txBytes: nat)

  /** `flags` is the parsed hexadecimal field, or nothing when it does not parse. */
  datatype ArpEntry = ArpEntry(mac: string, device: string, flags: Option<int>)

  datatype Presence =
    | Topology(nodes: map<string, TopoPresence>)
    | Legacy(stations: map<string, StationInfo>, arp: map<string, string>)

  // ---- the interfaces ----

  /** The uplink the interface loop settles on: an enabled one replaces whatever was chosen before it. */
  function UplinkName(ifaces: seq<Interface>): string {
    if ifaces == [] then ""
    else
      var before, iface := UplinkName(ifaces[..|ifaces| - 1]), ifaces[|ifaces| - 1];
      if iface.kind == "Uplink" && (before == "" || iface.enabled) then iface.name else before
  }

  predicate HasGuestBss(ifaces: seq<Interface>) {
    exists iface :: iface in ifaces && iface.kind == "AP" && iface.extraBss > 0
  }

  method ScanInterfaces(ifaces: seq<Interface>) returns (guestEnabled: bool, wan: string)
    ensures guestEnabled == HasGuestBss(ifaces) && wan == UplinkName(ifaces)
    ensures guestEnabled <==> exists iface :: iface in ifaces && iface.kind == "AP" && iface.extraBss > 0
  {
    guestEnabled, wan := false, "";
    for i := 0 to |ifaces|
      invariant guestEnabled == HasGuestBss(ifaces[..i]) && wan == UplinkName(ifaces[..i])
    {
      assert ifaces[..i + 1] == ifaces[..i] + [ifaces[i]];
      assert ifaces[..i + 1][..i] == ifaces[..i];
      if ifaces[i].kind == "Uplink" {
        if wan == "" || ifaces[i].enabled {
          wan := ifaces[i].name;
        }
      } else if ifaces[i].kind == "AP" {
        if ifaces[i].extraBss > 0 {
          guestEnabled := true;
        }
      }
    }
    assert ifaces[..|ifaces|] == ifaces;
  }

  ghost predicate IsEnabledUplink(ifaces: seq<Interface>, i: int) {
    0 <= i < |ifaces| && ifaces[i].kind == "Uplink" && ifaces[i].enabled
  }

  /** The last enabled uplink is the one; without an enabled one it is the first uplink. (Interfaces have names.) */
  lemma {:induction false} UplinkIsLastEnabled(ifaces: seq<Interface>, k: nat)
    requires forall iface | iface in ifaces :: iface.name != ""
    requires k < |ifaces| && ifaces[k].kind == "Uplink"
    requires if exists i :: IsEnabledUplink(ifaces, i)
             then ifaces[k].enabled && forall i | k < i :: !IsEnabledUplink(ifaces, i)
             else forall i | 0 <= i < k :: ifaces[i].kind != "Uplink"
    ensures UplinkName(ifaces) == ifaces[k].name
  {
    var n := |ifaces| - 1;
    var before := ifaces[..n];
    assert forall i | 0 <= i < n :: before[i] == ifaces[i];
    assert ifaces[n] in ifaces;
    if k < n {
      assert forall i | 0 <= i < n :: IsEnabledUplink(before, i) <==> IsEnabledUplink(ifaces, i);
      assert !IsEnabledUplink(ifaces, n);
      UplinkIsLastEnabled(before, k);
      assert before[k] in before;
    } else {
      if !ifaces[k].enabled {
        NoUplink(before);
      }
    }
  }

  lemma {:induction false} NoUplink(ifaces: seq<Interface>)
    requires forall i | 0 <= i < |ifaces| :: ifaces[i].kind != "Uplink"
    ensures UplinkName(ifaces) == ""
  {
    if ifaces != [] {
      NoUplink(ifaces[..|ifaces| - 1]);
    }
  }

  // ---- the topology endpoint ----

  predicate IsDeviceNode(node: TopoNode) {
    node.kind == "device" && IsMac(NormalizeMac(node.mac))
  }

  function TopoEntry(node: TopoNode): TopoPresence {
    TopoPresence(node.online, node.connType, node.iface, if node.rssi.Some? then node.rssi.value else 0)
  }

  /** The assignments `fetchTopologyPresence` makes, in order. */
  function TopoPairs(nodes: seq<TopoNode>): seq<(string, TopoPresence)> {
    if nodes == [] then []
    else
      var node := nodes[|nodes| - 1];
      var before := TopoPairs(nodes[..|nodes| - 1]);
      if IsDeviceNode(node) then before + [(NormalizeMac(node.mac), TopoEntry(node))] else before
  }

  /** The last device node for an address. */
  ghost predicate LastNodeFor(nodes: seq<TopoNode>, mac: string, i: int) {
    && 0 <= i < |nodes| && nodes[i].kind == "device" && NormalizeMac(nodes[i].mac) == mac
    && forall j | i < j < |nodes| && nodes[j].kind == "device" :: NormalizeMac(nodes[j].mac) != mac
  }

  /** `fetchTopologyPresence`; no response, or one without nodes, means the endpoint is unavailable. */
  method FetchTopologyPresence(response: Option<seq<TopoNode>>)
    returns (presence: Option<map<string, TopoPresence>>)
    ensures presence.Some? <==> response.Some? && response.value != []
    ensures presence.Some? ==> presence.value == LastWins(TopoPairs(response.value))
  {
    hide NormalizeMac, MacShape;
    if response.None? || response.value == [] {
      return None;
    }
    var nodes := response.value;
    var found: map<string, TopoPresence> := map[];
    for i := 0 to |nodes|
      invariant found == LastWins(TopoPairs(nodes[..i]))
    {
      assert nodes[..i + 1][..i] == nodes[..i];
      var node := nodes[i];
      if node.kind != "device" {
        continue;
      }
      var mac := NormalizeMac(node.mac);
      if !IsMac(mac) {
        continue;
      }
      LastWinsSnoc(TopoPairs(nodes[..i]), (mac, TopoEntry(node)));
      found := found[mac := TopoEntry(node)];
    }
    assert nodes[..|nodes|] == nodes;
    return Some(found);
  }

  lemma TopologySnoc(nodes: seq<TopoNode>)
    requires nodes != []
    ensures var before, node := LastWins(TopoPairs(nodes[..|nodes| - 1])), nodes[|nodes| - 1];
            var key := NormalizeMac(node.mac);
            LastWins(TopoPairs(nodes)) ==
            if node.kind == "device" && MacShape(key) then before[key := TopoEntry(node)] else before
  {
    hide NormalizeMac, MacShape, LastWins;
    var node := nodes[|nodes| - 1];
    NormalizeIdempotent(node.mac);
    LastWinsSnoc(TopoPairs(nodes[..|nodes| - 1]), (NormalizeMac(node.mac), TopoEntry(node)));
  }

  lemma LastNodeSnoc(nodes: seq<TopoNode>, mac: string)
    requires nodes != []
    ensures var n := |nodes| - 1;
            var last := nodes[n].kind == "device" && NormalizeMac(nodes[n].mac) == mac;
            forall i :: LastNodeFor(nodes, mac, i) <==> if last then i == n else LastNodeFor(nodes[..n], mac, i)
  {
    hide NormalizeMac;
    var n := |nodes| - 1;
    assert forall i | 0 <= i < n :: nodes[i] == nodes[..n][i];
  }

  /** The topology map holds an address exactly when it is well formed and has a device node, with the last one's
      data; a node without a signal counts as signal 0. */
  lemma {:induction false} TopologyIsLastNode(nodes: seq<TopoNode>, mac: string)
    ensures mac in LastWins(TopoPairs(nodes)) <==> MacShape(mac) && exists i :: LastNodeFor(nodes, mac, i)
    ensures forall i | LastNodeFor(nodes, mac, i) && MacShape(mac) ::
              && mac in LastWins(TopoPairs(nodes))
              && var node := nodes[i];
                 LastWins(TopoPairs(nodes))[mac] ==
                 TopoPresence(node.online, node.connType, node.iface, match node.rssi case None => 0 case Some(r) => r)
  {
    hide NormalizeMac, MacShape;
    if nodes != [] {
      var n := |nodes| - 1;
      TopologyIsLastNode(nodes[..n], mac);
      TopologySnoc(nodes);
      LastNodeSnoc(nodes, mac);
      assert forall i :: LastNodeFor(nodes[..n], mac, i) ==> nodes[i] == nodes[..n][i];
      hide LastNodeFor, TopoPairs, LastWins;
      var key := NormalizeMac(nodes[n].mac);
      if nodes[n].kind == "device" && key == mac {
        assert LastNodeFor(nodes, mac, n);
      }
    }
  }

  // ---- station lists ----

  /** The interface names asked for an access point's stations. */
  function StationNames(iface: Interface): seq<string> {
    if iface.kind != "AP" || !iface.enabled then []
    else if iface.extraBss > 0 then [iface.name, iface.name + ".ap0"]
    else [iface.name]
  }

  /** What hostapd lists for a name; a failed request reads as an empty list. */
  function Listed(lists: map<string, seq<Station>>, name: string): seq<Station> {
    if name in lists then lists[name] else []
  }

  function InfoOf(name: string, sta: Station): StationInfo {
    StationInfo(name, sta.signal, sta.rxBytes, sta.txBytes)
  }

  function ListPairs(name: string, list: seq<Station>): seq<(string, StationInfo)> {
    if list == [] then []
    else
      var sta := list[|list| - 1];
      var before := ListPairs(name, list[..|list| - 1]);
      if IsMac(NormalizeMac(sta.mac)) then before + [(NormalizeMac(sta.mac), InfoOf(name, sta))] else before
  }

  function NamePairs(names: seq<string>, lists: map<string, seq<Station>>): seq<(string, StationInfo)> {
    if names == [] then []
    else
      var name := names[|names| - 1];
      NamePairs(names[..|names| - 1], lists) + ListPairs(name, Listed(lists, name))
  }

  /** The assignments of the three nested station loops, in order. */
  function StationPairs(ifaces: seq<Interface>, lists: map<string, seq<Station>>): seq<(string, StationInfo)> {
    if ifaces == [] then []
    else
      StationPairs(ifaces[..|ifaces| - 1], lists) + NamePairs(StationNames(ifaces[|ifaces| - 1]), lists)
  }

  /** The innermost station loop: the assignments for one list, after those in `done`. */
  method AddStations(stations: map<string, StationInfo>, ghost done: seq<(string, StationInfo)>,
                     name: string, list: seq<Station>)
    returns (result: map<string, StationInfo>)
    requires stations == LastWins(done)
    ensures result == LastWins(done + ListPairs(name, list))
  {
    hide NormalizeMac, MacShape;
    result := stations;
    assert done + ListPairs(name, list[..0]) == done;
    for k := 0 to |list|
      invariant result == LastWins(done + ListPairs(name, list[..k]))
    {
      assert list[..k + 1][..k] == list[..k];
      var mac := NormalizeMac(list[k].mac);
      if !IsMac(mac) {
        continue;
      }
      var info := InfoOf(name, list[k]);
      ghost var inner := ListPairs(name, list[..k]);
      LastWinsSnoc(done + inner, (mac, info));
      assert (done + inner) + [(mac, info)] == done + (inner + [(mac, info)]);
      result := result[mac := info];
    }
    assert list[..|list|] == list;
  }

  /** The middle loop: the lists of every name of one access point. */
  method AddAccessPoint(stations: map<string, StationInfo>, ghost done: seq<(string, StationInfo)>,
                        names: seq<string>, lists: map<string, seq<Station>>)
    returns (result: map<string, StationInfo>)
    requires stations == LastWins(done)
    ensures result == LastWins(done + NamePairs(names, lists))
  {
    hide ListPairs, LastWins;
    result := stations;
    assert done + NamePairs(names[..0], lists) == done;
    for j := 0 to |names|
      invariant result == LastWins(done + NamePairs(names[..j], lists))
    {
      ghost var middle := done + NamePairs(names[..j], lists);
      assert names[..j + 1][..j] == names[..j];
      var list := Listed(lists, names[j]);
      result := AddStations(result, middle, names[j], list);
      assert middle + ListPairs(names[j], list) == done + NamePairs(names[..j + 1], lists);
    }
    assert names[..|names|] == names;
  }

  /** The loop over access points. Each station list is given in its iteration order. */
  method CollectStations(ifaces: seq<Interface>, lists: map<string, seq<Station>>)
    returns (stations: map<string, StationInfo>)
    ensures stations == LastWins(StationPairs(ifaces, lists))
  {
    hide ListPairs;
    stations := map[];
    for i := 0 to |ifaces|
      invariant stations == LastWins(StationPairs(ifaces[..i], lists))
    {
      ghost var outer := StationPairs(ifaces[..i], lists);
      assert ifaces[..i + 1][..i] == ifaces[..i];
      var names := StationNames(ifaces[i]);
      stations := AddAccessPoint(stations, outer, names, lists);
      assert StationPairs(ifaces[..i + 1], lists) == outer + NamePairs(names, lists);
    }
    assert ifaces[..|ifaces|] == ifaces;
  }

  /** An enabled access point, asked under this name: its own, or that of its extra network. */
  ghost predicate AsksFor(ap: Interface, name: string) {
    ap.kind == "AP" && ap.enabled && (name == ap.name || (ap.extraBss > 0 && name == ap.name + ".ap0"))
  }

  /** Some enabled access point lists the address, under one of its names, with this data. */
  ghost predicate ListedAs(ifaces: seq<Interface>, lists: map<string, seq<Station>>, mac: string, info: StationInfo) {
    exists ap, sta :: ap in ifaces && AsksFor(ap, info.iface) && info.iface in lists && sta in lists[info.iface] &&
      NormalizeMac(sta.mac) == mac &&
      info.signal == sta.signal && info.rxBytes == sta.rxBytes && info.txBytes == sta.txBytes
  }

  /** The names asked for are those, the extra network's after the access point's own. */
  lemma StationNamesAre(ap: Interface)
    ensures forall name :: name in StationNames(ap) <==> AsksFor(ap, name)
    ensures AsksFor(ap, ap.name) ==>
              && StationNames(ap)[0] == ap.name && |StationNames(ap)| == (if ap.extraBss > 0 then 2 else 1)
              && (ap.extraBss > 0 ==> StationNames(ap)[1] == ap.name + ".ap0")
  {
  }

  ghost predicate ListedByAccessPoint(ifaces: seq<Interface>, lists: map<string, seq<Station>>, mac: string) {
    exists info :: ListedAs(ifaces, lists, mac, info)
  }

  lemma {:induction false} ListPairsHave(name: string, list: seq<Station>, p: (string, StationInfo))
    requires MacShape(p.0)
    ensures p in ListPairs(name, list) <==> exists sta :: sta in list && p == (NormalizeMac(sta.mac), InfoOf(name, sta))
  {
    hide NormalizeMac, MacShape;
    if list != [] {
      var before, last := list[..|list| - 1], list[|list| - 1];
      ListPairsHave(name, before, p);
      NormalizeIdempotent(last.mac);
      assert list == before + [last];
    }
  }

  lemma {:induction false} NamePairsHave(names: seq<string>, lists: map<string, seq<Station>>, p: (string, StationInfo))
    ensures p in NamePairs(names, lists) <==> exists name :: name in names && p in ListPairs(name, Listed(lists, name))
  {
    hide Listed, ListPairs;
    if names != [] {
      var before, last := names[..|names| - 1], names[|names| - 1];
      NamePairsHave(before, lists, p);
      assert names == before + [last];
    }
  }

  lemma {:induction false} StationPairsHave(ifaces: seq<Interface>, lists: map<string, seq<Station>>,
                                            p: (string, StationInfo))
    ensures p in StationPairs(ifaces, lists) <==> exists ap :: ap in ifaces && p in NamePairs(StationNames(ap), lists)
  {
    hide NamePairs, StationNames;
    if ifaces != [] {
      var before, last := ifaces[..|ifaces| - 1], ifaces[|ifaces| - 1];
      StationPairsHave(before, lists, p);
      assert ifaces == before + [last];
    }
  }

  /** The three loops make exactly the assignments the lists call for. */
  lemma StationsListed(ifaces: seq<Interface>, lists: map<string, seq<Station>>, mac: string, info: StationInfo)
    requires MacShape(mac)
    ensures (mac, info) in StationPairs(ifaces, lists) <==> ListedAs(ifaces, lists, mac, info)
  {
    hide MacShape, NormalizeMac, StationNames, Listed, StationPairs, NamePairs, ListPairs, InfoOf, ListedAs;
    var p := (mac, info);
    StationPairsHave(ifaces, lists, p);
    forall ap | ap in ifaces
      ensures p in NamePairs(StationNames(ap), lists) <==>
              exists name :: name in StationNames(ap) && p in ListPairs(name, Listed(lists, name))
    {
      NamePairsHave(StationNames(ap), lists, p);
    }
    forall name
      ensures p in ListPairs(name, Listed(lists, name)) <==>
              exists sta :: sta in Listed(lists, name) && p == (NormalizeMac(sta.mac), InfoOf(name, sta))
    {
      ListPairsHave(name, Listed(lists, name), p);
    }
    ListedIsListedAs(ifaces, lists, mac, info);
  }

  lemma ListedIsListedAs(ifaces: seq<Interface>, lists: map<string, seq<Station>>, mac: string, info: StationInfo)
    ensures ListedAs(ifaces, lists, mac, info) <==>
            exists ap, name, sta :: ap in ifaces && name in StationNames(ap) && sta in Listed(lists, name) &&
              (mac, info) == (NormalizeMac(sta.mac), InfoOf(name, sta))
  {
    hide NormalizeMac, StationNames;
    forall ap {
      StationNamesAre(ap);
    }
    if ListedAs(ifaces, lists, mac, info) {
      var ap, sta :| ap in ifaces && AsksFor(ap, info.iface) && info.iface in lists && sta in lists[info.iface] &&
                     NormalizeMac(sta.mac) == mac &&
                     info.signal == sta.signal && info.rxBytes == sta.rxBytes && info.txBytes == sta.txBytes;
      assert info.iface in StationNames(ap) && sta in Listed(lists, info.iface);
    }
  }

  // ---- the ARP table ----

  /** Bit `k` of a flags word, for negative words too (two's complement). */
  predicate Bit(flags: int, k: nat) {
    flags / (if k == 1 then 2 else 4) % 2 == 1
  }

  /** A learned, complete entry off the uplink: flag 0x2 set and the permanent flag 0x4 clear. */
  predicate IsLearned(entry: ArpEntry, wan: string) {
    && entry.device != wan
    && entry.flags.Some? && Bit(entry.flags.value, 1) && !Bit(entry.flags.value, 2)
    && IsMac(NormalizeMac(entry.mac))
  }

  function ArpPairs(entries: seq<ArpEntry>, wan: string): seq<(string, string)> {
    if entries == [] then []
    else
      var e := entries[|entries| - 1];
      var before := ArpPairs(entries[..|entries| - 1], wan);
      if IsLearned(e, wan) then before + [(NormalizeMac(e.mac), e.device)] else before
  }

  method CollectArp(entries: seq<ArpEntry>, wan: string) returns (arpSeen: map<string, string>)
    ensures arpSeen == LastWins(ArpPairs(entries, wan))
  {
    hide NormalizeMac, MacShape;
    arpSeen := map[];
    for i := 0 to |entries|
      invariant arpSeen == LastWins(ArpPairs(entries[..i], wan))
    {
      assert entries[..i + 1][..i] == entries[..i];
      var entry := entries[i];
      if entry.device == wan {
        continue;
      }
      if entry.flags.None? || !Bit(entry.flags.value, 1) || Bit(entry.flags.value, 2) {
        continue;
      }
      var mac := NormalizeMac(entry.mac);
      if IsMac(mac) {
        LastWinsSnoc(ArpPairs(entries[..i], wan), (mac, entry.device));
        arpSeen := arpSeen[mac := entry.device];
      }
    }
    assert entries[..|entries|] == entries;
  }

  /** An entry off the uplink with a well-formed address counts exactly when its flags have 0x2 and not 0x4. */
  lemma LearnedExactly(entry: ArpEntry, wan: string)
    ensures IsLearned(entry, wan) <==>
            && entry.device != wan && MacShape(NormalizeMac(entry.mac))
            && entry.flags.Some? && entry.flags.value / 2 % 2 == 1 && entry.flags.value / 4 % 2 == 0
    ensures IsLearned(entry, wan) ==> entry.flags != Some(0x6) && entry.flags != Some(0x4) && entry.flags != Some(0)
    ensures entry.flags == Some(0x2) && entry.device != wan && MacShape(NormalizeMac(entry.mac)) ==>
              IsLearned(entry, wan)
  {
    hide NormalizeMac, MacShape;
    NormalizeIdempotent(entry.mac);
  }

  /** The ARP table has learned the address on an interface other than the uplink. */
  ghost predicate LearnedOn(entries: seq<ArpEntry>, wan: string, mac: string, device: string) {
    exists e :: e in entries && e.device == device != wan && NormalizeMac(e.mac) == mac &&
      e.flags.Some? && e.flags.value / 2 % 2 == 1 && e.flags.value / 4 % 2 == 0
  }

  ghost predicate LearnedInArp(entries: seq<ArpEntry>, wan: string, mac: string) {
    exists device :: LearnedOn(entries, wan, mac, device)
  }

  lemma {:induction false} ArpLearned(entries: seq<ArpEntry>, wan: string, mac: string, device: string)
    ensures (mac, device) in ArpPairs(entries, wan) <==> MacShape(mac) && LearnedOn(entries, wan, mac, device)
  {
    hide NormalizeMac, IsLearned, MacShape;
    if entries != [] {
      LearnedExactly(entries[|entries| - 1], wan);
      var before, last := entries[..|entries| - 1], entries[|entries| - 1];
      ArpLearned(before, wan, mac, device);
      assert entries == before + [last];
    }
  }

  // ---- the merge ----

  /** What one refresh fetched about presence, and the name of its uplink interface. */
  datatype Fetched = Fetched(
    topology: Option<seq<TopoNode>>, ifaces: seq<Interface>, lists: map<string, seq<Station>>,
    arp: seq<ArpEntry>, wan: string)

  predicate TopologyAvailable(f: Fetched) {
    f.topology.Some? && f.topology.value != []
  }

  function PresenceOf(f: Fetched): Presence {
    if TopologyAvailable(f) then Topology(LastWins(TopoPairs(f.topology.value)))
    else Legacy(LastWins(StationPairs(f.ifaces, f.lists)), LastWins(ArpPairs(f.arp, f.wan)))
  }

  /** Gathers presence as `refreshState` does: station lists and ARP are read only without topology. */
  method GatherPresence(f: Fetched) returns (p: Presence)
    ensures p == PresenceOf(f)
  {
    var topology := FetchTopologyPresence(f.topology);
    if topology.Some? {
      return Topology(topology.value);
    }
    var stations := CollectStations(f.ifaces, f.lists);
    var arp := CollectArp(f.arp, f.wan);
    return Legacy(stations, arp);
  }

  /** The presence fields of a device record. */
  datatype Link = Link(connected: bool, wired: bool, iface: string, signal: int, rxBytes: nat, txBytes: nat)

  const AWAY := Link(false, false, "", 0, 0, 0)

  /** The precedence chain: topology, else a station list, else the ARP table. */
  function LinkOf(p: Presence, mac: string): Link {
    match p
    case Topology(nodes) =>
      if mac in nodes && nodes[mac].online
      then Link(true, nodes[mac].connType == "wired", nodes[mac].iface, nodes[mac].signal, 0, 0)
      else AWAY
    case Legacy(stations, arp) =>
      if mac in stations then
        var sta := stations[mac];
        Link(true, false, sta.iface, sta.signal, sta.rxBytes, sta.txBytes)
      else if mac in arp then Link(true, true, arp[mac], 0, 0, 0)
      else AWAY
  }

  predicate IsPresent(p: Presence, mac: string) {
    LinkOf(p, mac).connected
  }

  /** What being connected means: with topology, the address's last device node is online; without it,
      an enabled access point lists the address or the ARP table has learned it off the uplink. */
  ghost predicate ShouldBeConnected(f: Fetched, mac: string) {
    if f.topology.Some? && f.topology.value != []
    then exists i :: LastNodeFor(f.topology.value, mac, i) && f.topology.value[i].online
    else ListedByAccessPoint(f.ifaces, f.lists, mac) || LearnedInArp(f.arp, f.wan, mac)
  }

  /** What the maps filled by the station and ARP loops hold for an address. */
  lemma LegacyMapsAreExact(f: Fetched, mac: string)
    requires MacShape(mac)
    ensures var stations, arp := LastWins(StationPairs(f.ifaces, f.lists)), LastWins(ArpPairs(f.arp, f.wan));
            && (mac in stations <==> ListedByAccessPoint(f.ifaces, f.lists, mac))
            && (mac in stations ==> ListedAs(f.ifaces, f.lists, mac, stations[mac]))
            && (mac in arp <==> LearnedInArp(f.arp, f.wan, mac))
            && (mac in arp ==> LearnedOn(f.arp, f.wan, mac, arp[mac]))
  {
    hide MacShape, StationPairs, ArpPairs, LastWins, ListedAs, LearnedOn;
    var stations, arp := StationPairs(f.ifaces, f.lists), ArpPairs(f.arp, f.wan);
    LastWinsLookup(stations, mac);
    LastWinsLookup(arp, mac);
    forall info ensures (mac, info) in stations <==> ListedAs(f.ifaces, f.lists, mac, info) {
      StationsListed(f.ifaces, f.lists, mac, info);
    }
    forall device ensures (mac, device) in arp <==> LearnedOn(f.arp, f.wan, mac, device) {
      ArpLearned(f.arp, f.wan, mac, device);
    }
    assert forall i | 0 <= i < |stations| :: stations[i] == (stations[i].0, stations[i].1) && stations[i] in stations;
    assert forall i | 0 <= i < |arp| :: arp[i] == (arp[i].0, arp[i].1) && arp[i] in arp;
  }

  /** The loops compute exactly that, for every well-formed address. */
  lemma ConnectedIsExact(f: Fetched, mac: string)
    requires MacShape(mac)
    ensures IsPresent(PresenceOf(f), mac) <==> ShouldBeConnected(f, mac)
  {
    hide MacShape, ListedByAccessPoint, LearnedInArp, LearnedOn, ListedAs, TopoPairs, StationPairs, ArpPairs, LastWins,
         LastNodeFor;
    if TopologyAvailable(f) {
      TopologyIsLastNode(f.topology.value, mac);
    } else {
      LegacyMapsAreExact(f, mac);
    }
  }

  /** What the rest of a device's link should be: that of the source that decided, which is the last device node; else a
      station list entry, which outranks ARP; else a learned ARP entry. A device that is away has none of it. */
  ghost predicate ShouldBeLinked(f: Fetched, mac: string, link: Link) {
    if !ShouldBeConnected(f, mac) then link == Link(false, false, "", 0, 0, 0)
    else if f.topology.Some? && f.topology.value != [] then
      forall i | LastNodeFor(f.topology.value, mac, i) ::
        var node := f.topology.value[i];
        var signal := if node.rssi.Some? then node.rssi.value else 0;
        link == Link(true, node.connType == "wired", node.iface, signal, 0, 0)
    else if ListedByAccessPoint(f.ifaces, f.lists, mac) then
      var info := StationInfo(link.iface, link.signal, link.rxBytes, link.txBytes);
      link.connected && !link.wired && ListedAs(f.ifaces, f.lists, mac, info)
    else
      && LearnedOn(f.arp, f.wan, mac, link.iface)
      && link == Link(true, true, link.iface, 0, 0, 0)
  }

  /** And it is. */
  lemma LinkIsExact(f: Fetched, mac: string)
    requires MacShape(mac)
    ensures ShouldBeLinked(f, mac, LinkOf(PresenceOf(f), mac))
  {
    ConnectedIsExact(f, mac);
    hide MacShape, ListedByAccessPoint, LearnedInArp, LearnedOn, ListedAs, TopoPairs, StationPairs, ArpPairs, LastWins,
         LastNodeFor, ShouldBeConnected;
    if TopologyAvailable(f) {
      TopologyIsLastNode(f.topology.value, mac);
    } else {
      LegacyMapsAreExact(f, mac);
    }
  }
}
