/** Turning the router's device table into the published device list (code/refresh.go). */
module Devices {
  import opened Common
  import opened Text
  import opened Presence

  /** A row of SPR's device table, as far as the refresh reads it. */
  datatype DeviceEntry = DeviceEntry(
    name: string, mac: string, vlanTag: string, recentIP: string,
    policies: seq<string>, groups: seq<string>, deviceTags: seq<string>)

  datatype TrackedDevice = TrackedDevice(
    mac: string, name: string, ip: string, vlanTag: string, groups: seq<string>, tags: seq<string>,
    connected: bool, wired: bool, iface: string, signal: int, lastSeen: nat,
    rxBytes: nat, txBytes: nat, blocked: bool, guest: bool)

  /** `hasWAN`: current releases grant access by policy; old ones, without policies, by group. */
  predicate HasWan(dev: DeviceEntry) {
    "wan" in dev.policies || (dev.policies == [] && "wan" in dev.groups)
  }

  /** The key a row is tracked under; when it is not an address the row is skipped. */
  function DeviceMac(identity: string, dev: DeviceEntry): string {
    var mac := NormalizeMac(dev.mac);
    if mac == "" then NormalizeMac(identity) else mac
  }

  /** What a refresh has gathered by the time it reads the sightings: the device table and the order the
      map iteration happens to take, presence, and the per-address byte counters. */
  datatype Gathered = Gathered(
    devices: map<string, DeviceEntry>, order: seq<string>, presence: Presence,
    rxByIP: map<string, nat>, txByIP: map<string, nat>)

  /** Each key of the map exactly once. */
  ghost predicate IsIterationOrder<V>(order: seq<string>, m: map<string, V>) {
    && (forall k :: k in order <==> k in m)
    && forall i, j | 0 <= i < j < |order| :: order[i] != order[j]
  }

  predicate IsTracked(g: Gathered, identity: string) {
    identity in g.devices && IsMac(DeviceMac(identity, g.devices[identity]))
  }

  /** The sighting a device gets: this refresh's clock if it is present, else the copied one. */
  function SightingFor(g: Gathered, copied: map<string, nat>, now: nat, mac: string): nat {
    if IsPresent(g.presence, mac) then Unix(now) else Get(copied, mac)
  }

  /** The record of a tracked row before its sighting is filled in. */
  function Unstamped(g: Gathered, identity: string): TrackedDevice
    requires IsTracked(g, identity)
  {
    var dev := g.devices[identity];
    var mac := DeviceMac(identity, dev);
    var link := LinkOf(g.presence, mac);
    var rx, tx := Get(g.rxByIP, dev.recentIP), Get(g.txByIP, dev.recentIP);
    TrackedDevice(
      mac, dev.name, dev.recentIP, dev.vlanTag, dev.groups, dev.deviceTags,
      link.connected, link.wired, link.iface, link.signal, 0,
      if dev.recentIP != "" && rx > 0 then rx else link.rxBytes,
      if dev.recentIP != "" && tx > 0 then tx else link.txBytes,
      !HasWan(dev), "guest" in dev.deviceTags || "guestonly" in dev.policies)
  }

  /** The published record of a tracked row, as a function of that row alone. */
  function Record(g: Gathered, copied: map<string, nat>, now: nat, identity: string): TrackedDevice
    requires IsTracked(g, identity)
  {
    var td := Unstamped(g, identity);
    td.(lastSeen := SightingFor(g, copied, now, td.mac))
  }

  /** The records of the tracked rows, in iteration order. */
  function Records(g: Gathered, copied: map<string, nat>, now: nat, order: seq<string>): seq<TrackedDevice> {
    if order == [] then []
    else
      var last := order[|order| - 1];
      var before := Records(g, copied, now, order[..|order| - 1]);
      if IsTracked(g, last) then before + [Record(g, copied, now, last)] else before
  }

  function ConnectedCount(devices: seq<TrackedDevice>): nat {
    if devices == [] then 0
    else ConnectedCount(devices[..|devices| - 1]) + if devices[|devices| - 1].connected then 1 else 0
  }

  /** The local sightings after the device loop: the copy, with every connected device stamped. */
  function Sightings(copied: map<string, nat>, now: nat, devices: seq<TrackedDevice>): map<string, nat> {
    if devices == [] then copied
    else
      var last := devices[|devices| - 1];
      var before := Sightings(copied, now, devices[..|devices| - 1]);
      if last.connected then before[last.mac := Unix(now)] else before
  }

  /** Every record agrees with presence and with the sightings rule. */
  ghost predicate AllFrom(g: Gathered, copied: map<string, nat>, now: nat, devices: seq<TrackedDevice>) {
    forall d | d in devices ::
      && MacShape(d.mac)
      && d.connected == IsPresent(g.presence, d.mac)
      && d.lastSeen == SightingFor(g, copied, now, d.mac)
  }

  lemma {:induction false} RecordsAllFrom(g: Gathered, copied: map<string, nat>, now: nat, order: seq<string>)
    ensures AllFrom(g, copied, now, Records(g, copied, now, order))
  {
    hide MacShape, NormalizeMac, LinkOf, SightingFor;
    if order != [] {
      var last := order[|order| - 1];
      RecordsAllFrom(g, copied, now, order[..|order| - 1]);
      if IsTracked(g, last) {
        NormalizeIdempotent(g.devices[last].mac);
        NormalizeIdempotent(last);
      }
    }
  }

  /** Looking a sighting up after the loop: this refresh's clock if some record of the address is connected,
      and otherwise whatever the copy had. */
  lemma {:induction false} SightingsLookup(g: Gathered, copied: map<string, nat>, now: nat, devices: seq<TrackedDevice>,
                                           mac: string)
    requires AllFrom(g, copied, now, devices)
    ensures (exists d :: d in devices && d.mac == mac && d.connected) ==>
              Get(Sightings(copied, now, devices), mac) == Unix(now)
    ensures (forall d | d in devices && d.connected :: d.mac != mac) ==>
              && Get(Sightings(copied, now, devices), mac) == Get(copied, mac)
              && (mac in Sightings(copied, now, devices) <==> mac in copied)
  {
    hide MacShape, LinkOf;
    if devices != [] {
      var before, last := devices[..|devices| - 1], devices[|devices| - 1];
      assert devices == before + [last];
      SightingsLookup(g, copied, now, before, mac);
    }
  }

  /** The part of the device loop that fills in one record. */
  method Describe(g: Gathered, identity: string) returns (td: TrackedDevice)
    requires IsTracked(g, identity)
    ensures td == Unstamped(g, identity)
  {
    hide MacShape, NormalizeMac, HasWan;
    var dev := g.devices[identity];
    var mac := DeviceMac(identity, dev);
    var guest := "guest" in dev.deviceTags;
    if "guestonly" in dev.policies {
      guest := true;
    }
    var connected, wired, iface, signal, rxBytes, txBytes := false, false, "", 0, 0, 0;
    match g.presence {
      case Topology(nodes) =>
        if mac in nodes && nodes[mac].online {
          connected, wired := true, nodes[mac].connType == "wired";
          iface, signal := nodes[mac].iface, nodes[mac].signal;
        }
      case Legacy(stations, arp) =>
        if mac in stations {
          var sta := stations[mac];
          connected, iface, signal := true, sta.iface, sta.signal;
          rxBytes, txBytes := sta.rxBytes, sta.txBytes;
        } else if mac in arp {
          connected, wired, iface := true, true, arp[mac];
        }
    }
    assert LinkOf(g.presence, mac) == Link(connected, wired, iface, signal, rxBytes, txBytes);
    hide LinkOf;
    if dev.recentIP != "" { // per-address counters survive a wifi reassociation
      var rx := Get(g.rxByIP, dev.recentIP);
      if rx > 0 {
        rxBytes := rx;
      }
      var tx := Get(g.txByIP, dev.recentIP);
      if tx > 0 {
        txBytes := tx;
      }
    }
    td := TrackedDevice(mac, dev.name, dev.recentIP, dev.vlanTag, dev.groups, dev.deviceTags,
                        connected, wired, iface, signal, 0, rxBytes, txBytes, !HasWan(dev), guest);
  }

  lemma UnstampedKey(g: Gathered, identity: string)
    requires IsTracked(g, identity)
    ensures var td := Unstamped(g, identity);
            td.mac == DeviceMac(identity, g.devices[identity]) && td.connected == IsPresent(g.presence, td.mac)
  {
    hide MacShape, NormalizeMac, LinkOf, HasWan;
  }

  lemma NoRecords(g: Gathered, copied: map<string, nat>, now: nat)
    ensures Records(g, copied, now, []) == [] && Sightings(copied, now, []) == copied && ConnectedCount([]) == 0
  {
  }

  /** What one turn of the device loop adds. */
  lemma RecordsTurn(g: Gathered, copied: map<string, nat>, now: nat, order: seq<string>, i: nat)
    requires i < |order|
    ensures var before, after := Records(g, copied, now, order[..i]), Records(g, copied, now, order[..i + 1]);
            if IsTracked(g, order[i]) then
              var d := Record(g, copied, now, order[i]);
              && after == before + [d]
              && ConnectedCount(after) == ConnectedCount(before) + (if d.connected then 1 else 0)
              && Sightings(copied, now, after) ==
                   (if d.connected then Sightings(copied, now, before)[d.mac := Unix(now)]
                    else Sightings(copied, now, before))
            else after == before
  {
    hide IsTracked, Record;
    assert order[..i + 1][..i] == order[..i];
    var before := Records(g, copied, now, order[..i]);
    if IsTracked(g, order[i]) {
      assert (before + [Record(g, copied, now, order[i])])[..|before|] == before;
    }
  }

  lemma SightingIs(g: Gathered, copied: map<string, nat>, now: nat, mac: string)
    ensures SightingFor(g, copied, now, mac) == if IsPresent(g.presence, mac) then Unix(now) else Get(copied, mac)
  {
  }

  /** The device loop, which stamps sightings as it goes and reads them back into the records. */
  method BuildRecords(g: Gathered, copied: map<string, nat>, now: nat)
    returns (tracked: seq<TrackedDevice>, lastSeen: map<string, nat>, connectedCount: nat)
    requires IsIterationOrder(g.order, g.devices)
    ensures tracked == Records(g, copied, now, g.order)
    ensures lastSeen == Sightings(copied, now, tracked)
    ensures connectedCount == ConnectedCount(tracked)
  {
    hide MacShape, NormalizeMac, IsPresent, Unstamped, SightingFor, Records, Sightings, ConnectedCount;
    tracked, lastSeen, connectedCount := [], copied, 0;
    NoRecords(g, copied, now);
    for i := 0 to |g.order|
      invariant tracked == Records(g, copied, now, g.order[..i])
      invariant lastSeen == Sightings(copied, now, tracked)
      invariant connectedCount == ConnectedCount(tracked)
    {
      RecordsTurn(g, copied, now, g.order, i);
      var identity := g.order[i];
      var mac := DeviceMac(identity, g.devices[identity]);
      if !IsMac(mac) {
        continue; // "pending" placeholder or VPN-only device
      }
      var td := Describe(g, identity);
      StampedBefore(g, copied, now, g.order[..i], mac);
      UnstampedKey(g, identity);
      SightingIs(g, copied, now, mac);
      if td.connected {
        lastSeen := lastSeen[mac := Unix(now)];
      }
      td := td.(lastSeen := Get(lastSeen, mac));
      if td.connected {
        connectedCount := connectedCount + 1;
      }
      tracked := tracked + [td];
    }
    assert g.order[..|g.order|] == g.order;
  }

  /** An absent device reads its copied sighting back: no earlier row of the same address was stamped. */
  lemma StampedBefore(g: Gathered, copied: map<string, nat>, now: nat, order: seq<string>, mac: string)
    ensures !IsPresent(g.presence, mac) ==>
              Get(Sightings(copied, now, Records(g, copied, now, order)), mac) == Get(copied, mac)
  {
    var devices := Records(g, copied, now, order);
    RecordsAllFrom(g, copied, now, order);
    SightingsLookup(g, copied, now, devices, mac);
  }

  // ---- sorting ----

  ghost predicate IsSorted(devices: seq<TrackedDevice>) {
    forall i, j | 0 <= i < j < |devices| :: Leq(devices[i].mac, devices[j].mac)
  }

  /** What `sort.Slice` by address may leave; it says nothing of records with the same address. */
  ghost predicate IsSortOf(sorted: seq<TrackedDevice>, devices: seq<TrackedDevice>) {
    multiset(sorted) == multiset(devices) && IsSorted(sorted)
  }

  function Insert(d: TrackedDevice, sorted: seq<TrackedDevice>): seq<TrackedDevice> {
    if sorted == [] || Leq(d.mac, sorted[0].mac) then [d] + sorted
    else [sorted[0]] + Insert(d, sorted[1..])
  }

  function Sort(devices: seq<TrackedDevice>): seq<TrackedDevice> {
    if devices == [] then [] else Insert(devices[0], Sort(devices[1..]))
  }

  lemma {:induction false} InsertPermutes(d: TrackedDevice, sorted: seq<TrackedDevice>)
    ensures multiset(Insert(d, sorted)) == multiset{d} + multiset(sorted)
  {
    if sorted != [] {
      InsertPermutes(d, sorted[1..]);
      assert sorted == [sorted[0]] + sorted[1..];
    }
  }

  lemma {:induction false} InsertSorts(d: TrackedDevice, sorted: seq<TrackedDevice>)
    requires IsSorted(sorted)
    ensures IsSorted(Insert(d, sorted))
  {
    hide Leq;
    if sorted == [] {
    } else if Leq(d.mac, sorted[0].mac) {
      forall j | 0 < j < |sorted| ensures Leq(d.mac, sorted[j].mac) {
        LeqTransitive(d.mac, sorted[0].mac, sorted[j].mac);
      }
    } else {
      var head, tail := sorted[0], sorted[1..];
      var rest := Insert(d, tail);
      InsertSorts(d, tail);
      InsertPermutes(d, tail);
      LeqTotal(d.mac, head.mac);
      forall j | 0 <= j < |rest| ensures Leq(head.mac, rest[j].mac) {
        assert rest[j] in multiset(rest);
      }
    }
  }

  lemma {:induction false} SortSorts(devices: seq<TrackedDevice>)
    ensures IsSortOf(Sort(devices), devices)
  {
    if devices != [] {
      SortSorts(devices[1..]);
      InsertSorts(devices[0], Sort(devices[1..]));
      InsertPermutes(devices[0], Sort(devices[1..]));
      assert devices == [devices[0]] + devices[1..];
    }
  }

  /** Records with the same address are the same record. */
  ghost predicate MacDecides(devices: seq<TrackedDevice>) {
    forall a, b | a in devices && b in devices && a.mac == b.mac :: a == b
  }

  lemma SortsShareHead(a: seq<TrackedDevice>, b: seq<TrackedDevice>)
    requires IsSorted(a) && IsSorted(b) && multiset(a) == multiset(b) && MacDecides(a) && a != []
    ensures b != [] && a[0] == b[0]
  {
    hide Leq;
    assert |a| == |multiset(a)| == |multiset(b)| == |b|;
    assert a[0] in multiset(b) && b[0] in multiset(a);
    var i :| 0 <= i < |a| && a[i] == b[0];
    var j :| 0 <= j < |b| && b[j] == a[0];
    if i != 0 && j != 0 {
      LeqAntisymmetric(a[0].mac, b[0].mac);
    }
  }

  lemma MacDecidesTail(a: seq<TrackedDevice>)
    requires a != [] && MacDecides(a)
    ensures MacDecides(a[1..])
  {
  }

  lemma {:induction false} SortIsUnique(a: seq<TrackedDevice>, b: seq<TrackedDevice>)
    requires IsSorted(a) && IsSorted(b) && multiset(a) == multiset(b) && MacDecides(a)
    ensures a == b
  {
    hide Leq, MacDecides;
    if a == [] {
      assert |b| == |multiset(b)| == 0;
    } else {
      SortsShareHead(a, b);
      MacDecidesTail(a);
      assert a == [a[0]] + a[1..] && b == [b[0]] + b[1..];
      assert multiset(a[1..]) == multiset(a) - multiset{a[0]};
      assert multiset(b[1..]) == multiset(b) - multiset{b[0]};
      SortIsUnique(a[1..], b[1..]);
    }
  }

  /** Sorting by address leaves one possible list exactly when no two different records share an address. */
  lemma SortDeterminedExactly(devices: seq<TrackedDevice>)
    ensures MacDecides(devices) <==>
            forall a, b | IsSortOf(a, devices) && IsSortOf(b, devices) :: a == b
  {
    hide Leq;
    if MacDecides(devices) {
      forall a, b | IsSortOf(a, devices) && IsSortOf(b, devices) ensures a == b {
        DecidesPermute(devices, a);
        SortIsUnique(a, b);
      }
    } else {
      var x, y :| x in devices && y in devices && x.mac == y.mac && x != y;
      var a, b := TwoSorts(devices, x, y);
    }
  }

  lemma SwapPermutes<T>(a: seq<T>, i: nat, j: nat)
    requires i < |a| && j < |a|
    ensures multiset(a[i := a[j]][j := a[i]]) == multiset(a)
  {
  }

  lemma SameMacsSorted(a: seq<TrackedDevice>, b: seq<TrackedDevice>)
    requires IsSorted(a) && |a| == |b| && forall k | 0 <= k < |a| :: b[k].mac == a[k].mac
    ensures IsSorted(b)
  {
    hide Leq;
    forall i, j | 0 <= i < j < |b| ensures Leq(b[i].mac, b[j].mac) {
      assert Leq(a[i].mac, a[j].mac);
    }
  }

  /** Swapping two records with the same address keeps a list sorted. */
  lemma TwoSorts(devices: seq<TrackedDevice>, x: TrackedDevice, y: TrackedDevice)
    returns (a: seq<TrackedDevice>, b: seq<TrackedDevice>)
    requires x in devices && y in devices && x.mac == y.mac && x != y
    ensures IsSortOf(a, devices) && IsSortOf(b, devices) && a != b
  {
    hide Leq;
    a := Sort(devices);
    SortSorts(devices);
    assert x in multiset(a) && y in multiset(a);
    var i :| 0 <= i < |a| && a[i] == x;
    var j :| 0 <= j < |a| && a[j] == y;
    b := a[i := y][j := x];
    SwapPermutes(a, i, j);
    SameMacsSorted(a, b);
    assert a[i] != b[i];
  }

  // ---- independence of the iteration order ----

  lemma {:induction false} RecordsConcat(g: Gathered, copied: map<string, nat>, now: nat, a: seq<string>,
                                         b: seq<string>)
    ensures Records(g, copied, now, a + b) == Records(g, copied, now, a) + Records(g, copied, now, b)
  {
    hide IsTracked, Record;
    if b == [] {
      assert a + b == a;
    } else {
      assert (a + b)[..|a + b| - 1] == a + b[..|b| - 1];
      RecordsConcat(g, copied, now, a, b[..|b| - 1]);
    }
  }

  /** The last element of one list, found in a permutation of it and taken out of both. */
  lemma TakeOut<T>(a: seq<T>, b: seq<T>) returns (k: nat)
    requires multiset(a) == multiset(b) && a != []
    ensures k < |b| && b[k] == a[|a| - 1]
    ensures b == b[..k] + ([b[k]] + b[k + 1..])
    ensures multiset(a[..|a| - 1]) == multiset(b[..k] + b[k + 1..])
  {
    var n := |a| - 1;
    assert a[n] in multiset(b);
    k :| 0 <= k < |b| && b[k] == a[n];
    assert a == a[..n] + [a[n]];
    assert b == b[..k] + ([b[k]] + b[k + 1..]);
    assert multiset(a[..n]) == multiset(a) - multiset{a[n]};
    assert multiset(b[..k] + b[k + 1..]) == multiset(b) - multiset{b[k]};
  }

  lemma {:induction false} RecordsPermute(g: Gathered, copied: map<string, nat>, now: nat, a: seq<string>,
                                          b: seq<string>)
    requires multiset(a) == multiset(b)
    ensures multiset(Records(g, copied, now, a)) == multiset(Records(g, copied, now, b))
  {
    hide IsTracked, Record, Records;
    if a == [] {
      assert |b| == |multiset(b)| == 0;
    } else {
      var n := |a| - 1;
      var x := a[n];
      var k := TakeOut(a, b);
      RecordsPermute(g, copied, now, a[..n], b[..k] + b[k + 1..]);
      RecordsConcat(g, copied, now, a[..n], [x]);
      assert a == a[..n] + [x];
      RecordsConcat(g, copied, now, b[..k], b[k + 1..]);
      RecordsConcat(g, copied, now, b[..k], [x] + b[k + 1..]);
      RecordsConcat(g, copied, now, [x], b[k + 1..]);
    }
  }

  lemma IterationOrdersPermute<V>(a: seq<string>, b: seq<string>, m: map<string, V>)
    requires IsIterationOrder(a, m) && IsIterationOrder(b, m)
    ensures multiset(a) == multiset(b)
  {
    forall k ensures multiset(a)[k] == multiset(b)[k] {
      OnceEach(a, k);
      OnceEach(b, k);
    }
  }

  lemma {:induction false} OnceEach(a: seq<string>, k: string)
    requires forall i, j | 0 <= i < j < |a| :: a[i] != a[j]
    ensures multiset(a)[k] == if k in a then 1 else 0
  {
    if a != [] {
      var n := |a| - 1;
      assert a == a[..n] + [a[n]];
      OnceEach(a[..n], k);
    }
  }

  /** The list a refresh publishes. */
  function Published(g: Gathered, copied: map<string, nat>, now: nat): seq<TrackedDevice> {
    Sort(Records(g, copied, now, g.order))
  }

  /** No two tracked rows normalise to the same address. */
  ghost predicate DistinctMacs(g: Gathered) {
    forall i, j | IsTracked(g, i) && IsTracked(g, j) && i != j ::
      DeviceMac(i, g.devices[i]) != DeviceMac(j, g.devices[j])
  }

  lemma {:induction false} RecordsFromRows(g: Gathered, copied: map<string, nat>, now: nat, order: seq<string>)
    ensures forall d | d in Records(g, copied, now, order) ::
              exists id :: id in order && IsTracked(g, id) && d == Record(g, copied, now, id)
  {
    hide IsTracked, Record;
    if order != [] {
      RecordsFromRows(g, copied, now, order[..|order| - 1]);
      assert order == order[..|order| - 1] + [order[|order| - 1]];
    }
  }

  /** Whatever order the device map is iterated in and however the sort treats ties, the list is the same. */
  ghost predicate RowOrderFree(g: Gathered, copied: map<string, nat>, now: nat) {
    forall order, a, b
      | IsIterationOrder(order, g.devices)
        && IsSortOf(a, Records(g, copied, now, g.order)) && IsSortOf(b, Records(g, copied, now, order)) ::
      a == b
  }

  /** The published list is determined exactly when no two different records share an address. */
  lemma RowOrderDecidesExactly(g: Gathered, copied: map<string, nat>, now: nat)
    requires IsIterationOrder(g.order, g.devices)
    ensures RowOrderFree(g, copied, now) <==> MacDecides(Records(g, copied, now, g.order))
  {
    hide Records, MacDecides, IsSorted;
    var records := Records(g, copied, now, g.order);
    if MacDecides(records) {
      forall order, a, b
        | IsIterationOrder(order, g.devices) && IsSortOf(a, records) && IsSortOf(b, Records(g, copied, now, order))
        ensures a == b
      {
        IterationOrdersPermute(g.order, order, g.devices);
        RecordsPermute(g, copied, now, g.order, order);
        DecidesPermute(records, a);
        SortIsUnique(a, b);
      }
    } else if RowOrderFree(g, copied, now) {
      SortDeterminedExactly(records);
    }
  }

  lemma DecidesPermute(a: seq<TrackedDevice>, b: seq<TrackedDevice>)
    requires MacDecides(a) && multiset(a) == multiset(b)
    ensures MacDecides(b)
  {
    assert forall d :: d in b <==> d in multiset(a);
  }

  /** That is so in particular when the tracked rows have distinct addresses; `Published` is then the list. */
  lemma DistinctMacsDecideRows(g: Gathered, copied: map<string, nat>, now: nat)
    requires IsIterationOrder(g.order, g.devices) && DistinctMacs(g)
    ensures RowOrderFree(g, copied, now) && IsSortOf(Published(g, copied, now), Records(g, copied, now, g.order))
  {
    hide IsTracked, Record, Records, IsSorted, RowOrderFree;
    var records := Records(g, copied, now, g.order);
    RecordsFromRows(g, copied, now, g.order);
    DistinctRowsDecide(g, copied, now, records);
    RowOrderDecidesExactly(g, copied, now);
    SortSorts(records);
  }

  lemma DistinctRowsDecide(g: Gathered, copied: map<string, nat>, now: nat, records: seq<TrackedDevice>)
    requires DistinctMacs(g)
    requires forall d | d in records :: exists id :: IsTracked(g, id) && d == Record(g, copied, now, id)
    ensures MacDecides(records)
  {
    hide IsMac, NormalizeMac, LinkOf, SightingFor;
    forall a, b | a in records && b in records && a.mac == b.mac ensures a == b {
      var i :| IsTracked(g, i) && a == Record(g, copied, now, i);
      var j :| IsTracked(g, j) && b == Record(g, copied, now, j);
      assert a.mac == DeviceMac(i, g.devices[i]) && b.mac == DeviceMac(j, g.devices[j]);
    }
  }

  /** Everything published is a well-formed address, agrees with presence and the sightings rule, and is
      in address order. */
  lemma PublishedIsWellFormed(g: Gathered, copied: map<string, nat>, now: nat)
    ensures AllFrom(g, copied, now, Published(g, copied, now)) && IsSorted(Published(g, copied, now))
  {
    var records := Records(g, copied, now, g.order);
    RecordsAllFrom(g, copied, now, g.order);
    SortSorts(records);
    assert forall d :: d in Sort(records) ==> d in multiset(records);
  }

  /** Fetch to snapshot: a published device is connected exactly when the fetched data says so, and only a
      connected device is wired or has a signal or an interface. */
  lemma PublishedPresenceIsExact(g: Gathered, f: Fetched, copied: map<string, nat>, now: nat)
    requires g.presence == PresenceOf(f)
    ensures forall d | d in Published(g, copied, now) ::
              && (d.connected <==> ShouldBeConnected(f, d.mac))
              && (d.wired || d.signal != 0 || d.iface != "" ==> d.connected)
  {
    PublishedIsWellFormed(g, copied, now);
    hide IsMac, MacShape, NormalizeMac, ShouldBeConnected, PresenceOf, HasWan, SightingFor, IsSorted, Published,
         IsTracked;
    forall d | d in Published(g, copied, now)
      ensures d.connected <==> ShouldBeConnected(f, d.mac)
      ensures d.wired || d.signal != 0 || d.iface != "" ==> d.connected
    {
      var id := RowOf(g, copied, now, d);
      ConnectedIsExact(f, d.mac);
      LinkIsExact(f, d.mac);
    }
  }

  /** The row behind a published record. */
  lemma RowOf(g: Gathered, copied: map<string, nat>, now: nat, d: TrackedDevice) returns (id: string)
    requires d in Published(g, copied, now)
    ensures IsTracked(g, id) && d == Record(g, copied, now, id)
  {
    hide IsTracked, Record;
    var records := Records(g, copied, now, g.order);
    RecordsFromRows(g, copied, now, g.order);
    SortSorts(records);
    assert d in multiset(records) && d in records;
    id :| id in g.order && IsTracked(g, id) && d == Record(g, copied, now, id);
  }

  // ---- every row, once ----

  /** The rows visited that are tracked. */
  function TrackedIds(g: Gathered, order: seq<string>): seq<string> {
    if order == [] then []
    else
      var last := order[|order| - 1];
      TrackedIds(g, order[..|order| - 1]) + if IsTracked(g, last) then [last] else []
  }

  lemma {:induction false} RecordsByRow(g: Gathered, copied: map<string, nat>, now: nat, order: seq<string>)
    ensures var ids, records := TrackedIds(g, order), Records(g, copied, now, order);
            && |ids| == |records|
            && (forall i | 0 <= i < |ids| :: IsTracked(g, ids[i]) && records[i] == Record(g, copied, now, ids[i]))
            && forall id :: id in ids <==> id in order && IsTracked(g, id)
  {
    hide IsTracked, Record;
    if order != [] {
      var n := |order| - 1;
      var before := order[..n];
      RecordsByRow(g, copied, now, before);
      assert order == before + [order[n]];
    }
  }

  lemma {:induction false} TrackedOnce(g: Gathered, order: seq<string>)
    requires forall i, j | 0 <= i < j < |order| :: order[i] != order[j]
    ensures forall id :: multiset(TrackedIds(g, order))[id] <= if id in order then 1 else 0
  {
    hide IsTracked;
    if order != [] {
      var n := |order| - 1;
      TrackedOnce(g, order[..n]);
      assert order == order[..n] + [order[n]];
      assert order[n] !in order[..n];
    }
  }

  /** Labels of a list, carried over to a permutation of it. */
  lemma {:induction false} Relabel<T>(a: seq<T>, b: seq<T>, labels: seq<string>) returns (ids: seq<string>)
    requires multiset(a) == multiset(b) && |labels| == |b|
    ensures |ids| == |a| && multiset(ids) == multiset(labels)
    ensures forall i | 0 <= i < |a| :: exists j :: 0 <= j < |b| && a[i] == b[j] && ids[i] == labels[j]
  {
    if a == [] {
      assert |b| == |multiset(b)| == 0;
      ids := [];
    } else {
      var n := |a| - 1;
      var k := TakeOut(a, b);
      var rest, left := b[..k] + b[k + 1..], labels[..k] + labels[k + 1..];
      var before := Relabel(a[..n], rest, left);
      ids := before + [labels[k]];
      assert labels == labels[..k] + [labels[k]] + labels[k + 1..];
      forall i | 0 <= i < |a| ensures exists j :: 0 <= j < |b| && a[i] == b[j] && ids[i] == labels[j] {
        if i < n {
          var j :| 0 <= j < |rest| && a[..n][i] == rest[j] && before[i] == left[j];
          var j' := if j < k then j else j + 1;
          assert b[j'] == rest[j] && labels[j'] == left[j];
        } else {
          assert a[n] == b[k] && ids[n] == labels[k];
        }
      }
    }
  }

  lemma OnceIsDistinct(ids: seq<string>)
    requires forall id :: multiset(ids)[id] <= 1
    ensures forall i, j | 0 <= i < j < |ids| :: ids[i] != ids[j]
  {
    forall i, j | 0 <= i < j < |ids| ensures ids[i] != ids[j] {
      assert ids == ids[..i] + [ids[i]] + ids[i + 1..j] + [ids[j]] + ids[j + 1..];
      assert multiset(ids)[ids[i]] >= multiset{ids[i], ids[j]}[ids[i]];
    }
  }

  /** A row's own address: the one it carries, or its key when that is blank. */
  ghost predicate HasAddress(identity: string, dev: DeviceEntry, mac: string) {
    mac == NormalizeMac(if NormalizeMac(dev.mac) == "" then identity else dev.mac)
  }

  lemma TrackedExactly(g: Gathered, identity: string)
    ensures IsTracked(g, identity) <==>
            identity in g.devices && exists mac :: HasAddress(identity, g.devices[identity], mac) && MacShape(mac)
  {
    hide MacShape, NormalizeMac;
    if identity in g.devices {
      var dev := g.devices[identity];
      NormalizeIdempotent(dev.mac);
      NormalizeIdempotent(identity);
      assert HasAddress(identity, dev, DeviceMac(identity, dev));
    }
  }

  /** What a row becomes, given the device's link and the bytes counted for the row's address. */
  ghost predicate Describes(d: TrackedDevice, identity: string, dev: DeviceEntry, link: Link, rx: nat, tx: nat) {
    && HasAddress(identity, dev, d.mac)
    && d.name == dev.name && d.ip == dev.recentIP && d.vlanTag == dev.vlanTag
    && d.groups == dev.groups && d.tags == dev.deviceTags
    && (d.blocked <==> "wan" !in dev.policies && !(dev.policies == [] && "wan" in dev.groups))
    && (d.guest <==> "guest" in dev.deviceTags || "guestonly" in dev.policies)
    && d.connected == link.connected && d.wired == link.wired && d.iface == link.iface && d.signal == link.signal
    && d.rxBytes == (if dev.recentIP != "" && rx > 0 then rx else link.rxBytes)
    && d.txBytes == (if dev.recentIP != "" && tx > 0 then tx else link.txBytes)
  }

  lemma RecordDescribes(g: Gathered, copied: map<string, nat>, now: nat, identity: string)
    requires IsTracked(g, identity)
    ensures var d, dev := Record(g, copied, now, identity), g.devices[identity];
            && MacShape(d.mac)
            && Describes(d, identity, dev, LinkOf(g.presence, d.mac),
                         Get(g.rxByIP, dev.recentIP), Get(g.txByIP, dev.recentIP))
  {
    hide MacShape, NormalizeMac, LinkOf, SightingFor;
    NormalizeIdempotent(g.devices[identity].mac);
    NormalizeIdempotent(identity);
  }

  /** The published list has one record of every row whose own address is well formed, and no others; `ids` are the
      rows in the order in which their records are published. */
  lemma PublishedAreTheRows(g: Gathered, copied: map<string, nat>, now: nat) returns (ids: seq<string>)
    requires IsIterationOrder(g.order, g.devices)
    ensures |ids| == |Published(g, copied, now)| && forall i, j | 0 <= i < j < |ids| :: ids[i] != ids[j]
    ensures forall id :: id in ids <==>
              id in g.devices && exists mac :: HasAddress(id, g.devices[id], mac) && MacShape(mac)
    ensures forall i | 0 <= i < |ids| ::
              ids[i] in g.devices
              && var d, dev := Published(g, copied, now)[i], g.devices[ids[i]];
                 MacShape(d.mac)
                 && Describes(d, ids[i], dev, LinkOf(g.presence, d.mac),
                              Get(g.rxByIP, dev.recentIP), Get(g.txByIP, dev.recentIP))
  {
    hide IsTracked, Record, HasAddress, MacShape, Describes, LinkOf, Records, TrackedIds, IsSorted;
    var records, labels := Records(g, copied, now, g.order), TrackedIds(g, g.order);
    RecordsByRow(g, copied, now, g.order);
    TrackedOnce(g, g.order);
    SortSorts(records);
    var devices := Published(g, copied, now);
    ids := Relabel(devices, records, labels);
    OnceIsDistinct(ids);
    forall id
      ensures id in ids <==>
              id in g.devices && exists mac :: HasAddress(id, g.devices[id], mac) && MacShape(mac)
    {
      assert id in ids <==> id in multiset(labels);
      TrackedExactly(g, id);
    }
    forall i | 0 <= i < |ids|
      ensures ids[i] in g.devices
      ensures var d, dev := devices[i], g.devices[ids[i]];
              MacShape(d.mac)
              && Describes(d, ids[i], dev, LinkOf(g.presence, d.mac),
                           Get(g.rxByIP, dev.recentIP), Get(g.txByIP, dev.recentIP))
    {
      var j :| 0 <= j < |records| && devices[i] == records[j] && ids[i] == labels[j];
      TrackedExactly(g, ids[i]);
      RecordDescribes(g, copied, now, ids[i]);
    }
  }

  /** The client count is the number of connected records. */
  lemma {:induction false} CountIsCardinality(devices: seq<TrackedDevice>)
    ensures ConnectedCount(devices) == |set i | 0 <= i < |devices| && devices[i].connected|
  {
    var connected := set i | 0 <= i < |devices| && devices[i].connected;
    if devices == [] {
      assert connected == {};
    } else {
      var n := |devices| - 1;
      var before := devices[..n];
      CountIsCardinality(before);
      var earlier := set i | 0 <= i < n && before[i].connected;
      assert ConnectedCount(devices) == ConnectedCount(before) + if devices[n].connected then 1 else 0;
      hide ConnectedCount;
      assert forall i | 0 <= i < n :: before[i] == devices[i];
      assert n !in earlier;
      assert connected == if devices[n].connected then earlier + {n} else earlier;
    }
  }

  lemma {:induction false} CountPermute(a: seq<TrackedDevice>, b: seq<TrackedDevice>)
    requires multiset(a) == multiset(b)
    ensures ConnectedCount(a) == ConnectedCount(b)
  {
    if a == [] {
      assert |b| == |multiset(b)| == 0;
    } else {
      var n := |a| - 1;
      var x := a[n];
      var k := TakeOut(a, b);
      CountPermute(a[..n], b[..k] + b[k + 1..]);
      CountConcat(b[..k], b[k + 1..]);
      CountConcat(b[..k], [x] + b[k + 1..]);
      CountConcat([x], b[k + 1..]);
    }
  }

  lemma {:induction false} CountConcat(a: seq<TrackedDevice>, b: seq<TrackedDevice>)
    ensures ConnectedCount(a + b) == ConnectedCount(a) + ConnectedCount(b)
  {
    if b == [] {
      assert a + b == a;
    } else {
      assert (a + b)[..|a + b| - 1] == a + b[..|b| - 1];
      CountConcat(a, b[..|b| - 1]);
    }
  }
}
