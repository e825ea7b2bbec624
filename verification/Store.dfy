/** The shared state behind the lock, and what each locked section of a refresh does to it
    (code/state.go, code/refresh.go). */
module Store {
  import opened Common
  import opened Text
  import opened Presence
  import opened Devices
  import opened Traffic

  datatype RouterInfo = RouterInfo(
    hostname: string, version: string, latestVersion: string, updateAvailable: bool,
    wanIface: string, guestWifiEnabled: bool, clientsConnected: nat)

  datatype Snapshot = Snapshot(
    router: RouterInfo, rxBytes: nat, txBytes: nat, rates: Rates, devices: seq<TrackedDevice>, timestamp: nat)

  const NO_ROUTER := RouterInfo("", "", "", false, "", false, 0)
  const NO_SNAPSHOT := Snapshot(NO_ROUTER, 0, 0, NO_RATES, [], 0)

  /** The fields of `stateStore`; `prev` is the previous traffic reading, absent at first. */
  datatype State = State(lastSeen: map<string, nat>, snapshot: Snapshot, prev: Option<Sample>)

  const EMPTY_STATE := State(map[], NO_SNAPSHOT, None)

  /** A connect or disconnect transition. */
  datatype Event = Event(connected: bool, mac: string, name: string, ip: string)

  /** All a refresh has fetched; the client count in `router` is filled in later. */
  datatype Reading = Reading(g: Gathered, rxTotal: nat, txTotal: nat, router: RouterInfo)

  ghost predicate ValidReading(r: Reading) {
    IsIterationOrder(r.g.order, r.g.devices)
  }

  // ---- sightings ----

  function Marked(s: State, mac: string, when: nat): State {
    s.(lastSeen := s.lastSeen[NormalizeMac(mac) := Unix(when)])
  }

  /** The sightings after merging a local copy back: an entry moves only to a newer time. */
  function Merge(shared: map<string, nat>, local: map<string, nat>): map<string, nat> {
    map m | m in shared.Keys + local.Keys && (m in shared || local[m] > 0) ::
      Max(Get(shared, m), Get(local, m))
  }

  /** The merge is the exact pointwise maximum, an absent entry counting as zero; nothing is removed. */
  lemma MergeIsPointwiseMax(shared: map<string, nat>, local: map<string, nat>)
    ensures forall m :: Get(Merge(shared, local), m) == Max(Get(shared, m), Get(local, m))
    ensures shared.Keys <= Merge(shared, local).Keys <= shared.Keys + local.Keys
  {
  }

  // ---- transitions ----

  function ConnectedPairs(devices: seq<TrackedDevice>): seq<(string, bool)> {
    seq(|devices|, i requires 0 <= i < |devices| => (devices[i].mac, devices[i].connected))
  }

  /** `prevConnected`: the connected flag by address. */
  function ConnectedMap(devices: seq<TrackedDevice>): map<string, bool> {
    LastWins(ConnectedPairs(devices))
  }

  /** The transitions announced for a device list, given the previous flags. */
  function Transitions(devices: seq<TrackedDevice>, prev: map<string, bool>): seq<Event> {
    if devices == [] then []
    else
      var d := devices[|devices| - 1];
      var before := Transitions(devices[..|devices| - 1], prev);
      if d.mac in prev && prev[d.mac] != d.connected
      then before + [Event(d.connected, d.mac, d.name, d.ip)]
      else before
  }

  /** They are one for each record whose address was known with the other flag, in the order of the list, with that
      record's flag, address, name and IP. */
  lemma {:induction false} TransitionsAreExact(devices: seq<TrackedDevice>, prev: map<string, bool>)
    returns (ks: seq<nat>)
    ensures |ks| == |Transitions(devices, prev)| && forall i, j | 0 <= i < j < |ks| :: ks[i] < ks[j]
    ensures forall k: nat :: k in ks <==>
              k < |devices| && devices[k].mac in prev && prev[devices[k].mac] != devices[k].connected
    ensures forall i | 0 <= i < |ks| ::
              ks[i] < |devices|
              && var d, event := devices[ks[i]], Transitions(devices, prev)[i];
                 event.connected == d.connected && event.mac == d.mac && event.name == d.name && event.ip == d.ip
  {
    if devices == [] {
      ks := [];
    } else {
      var n := |devices| - 1;
      var before, earlier := devices[..n], Transitions(devices[..n], prev);
      var d := devices[n];
      ks := TransitionsAreExact(before, prev);
      assert forall i | 0 <= i < |ks| :: ks[i] in ks;
      assert forall k | 0 <= k < n :: before[k] == devices[k];
      var changed := d.mac in prev && prev[d.mac] != d.connected;
      assert Transitions(devices, prev) == earlier + if changed then [Event(d.connected, d.mac, d.name, d.ip)] else [];
      hide Transitions;
      if changed {
        ks := ks + [n];
      }
    }
  }

  // ---- publishing ----

  function SampleOf(r: Reading, now: nat): Sample {
    Sample(now, r.rxTotal, r.txTotal)
  }

  function SnapshotOf(r: Reading, copied: map<string, nat>, now: nat, prev: Option<Sample>): Snapshot {
    Snapshot(r.router.(clientsConnected := ConnectedCount(Records(r.g, copied, now, r.g.order))),
             r.rxTotal, r.txTotal, RatesBetween(prev, SampleOf(r, now)),
             Published(r.g, copied, now), Unix(now))
  }

  function LocalSightings(r: Reading, copied: map<string, nat>, now: nat): map<string, nat> {
    Sightings(copied, now, Records(r.g, copied, now, r.g.order))
  }

  /** The second locked section: merge the sightings back, compute the rates, swap the snapshot in. */
  function PublishOn(s: State, r: Reading, copied: map<string, nat>, now: nat): State {
    State(Merge(s.lastSeen, LocalSightings(r, copied, now)),
          SnapshotOf(r, copied, now, s.prev), Some(SampleOf(r, now)))
  }

  /** Looking up the sightings a refresh writes back. */
  lemma LocalSightingsLookup(r: Reading, copied: map<string, nat>, now: nat, mac: string)
    ensures Get(LocalSightings(r, copied, now), mac) in {Unix(now), Get(copied, mac)}
    ensures forall d | d in Published(r.g, copied, now) && d.mac == mac ::
              d.lastSeen == Get(LocalSightings(r, copied, now), mac)
  {
    hide MacShape, LinkOf, NormalizeMac, IsTracked, Record;
    var records := Records(r.g, copied, now, r.g.order);
    RecordsAllFrom(r.g, copied, now, r.g.order);
    SightingsLookup(r.g, copied, now, records, mac);
    SortSorts(records);
    assert forall d :: d in Sort(records) ==> d in multiset(records);
  }

  /** Whatever landed in the shared sightings since they were copied, every published sighting is at most
      the shared entry the publication leaves, and that entry never moves back. */
  lemma PublishKeepsSightings(s: State, r: Reading, copied: map<string, nat>, now: nat)
    ensures var t := PublishOn(s, r, copied, now);
            && (forall d | d in t.snapshot.devices :: d.lastSeen <= Get(t.lastSeen, d.mac))
            && (forall m :: Get(s.lastSeen, m) <= Get(t.lastSeen, m))
  {
    var t := PublishOn(s, r, copied, now);
    hide LocalSightings, Published, RatesBetween, Records, ConnectedCount;
    MergeIsPointwiseMax(s.lastSeen, LocalSightings(r, copied, now));
    forall d | d in t.snapshot.devices ensures d.lastSeen <= Get(t.lastSeen, d.mac) {
      LocalSightingsLookup(r, copied, now, d.mac);
    }
  }

  /** The published client count is the number of connected devices in the published list. */
  lemma ClientsConnectedIsExact(r: Reading, copied: map<string, nat>, now: nat, prev: Option<Sample>)
    ensures var snap := SnapshotOf(r, copied, now, prev);
            snap.router.clientsConnected == ConnectedCount(snap.devices)
  {
    var records := Records(r.g, copied, now, r.g.order);
    SortSorts(records);
    CountPermute(Sort(records), records);
  }

  // ---- device bytes ----

  function RxCredits(devices: seq<TrackedDevice>): Credits {
    seq(|devices|, i requires 0 <= i < |devices| => (devices[i].ip, devices[i].rxBytes))
  }

  function TxCredits(devices: seq<TrackedDevice>): Credits {
    seq(|devices|, i requires 0 <= i < |devices| => (devices[i].ip, devices[i].txBytes))
  }

  ghost predicate DistinctIPs(devices: seq<TrackedDevice>) {
    forall i, j | 0 <= i < j < |devices| && devices[i].ip != "" :: devices[i].ip != devices[j].ip
  }

  /** In topology mode the published devices' bytes add up to at most the WAN totals, when their addresses
      are distinct and the totals did not wrap. */
  lemma DeviceBytesWithinTotals(r: Reading, rxEls: seq<Element>, txEls: seq<Element>, copied: map<string, nat>,
                                now: nat)
    requires r.g.presence.Topology?
    requires Accounted(rxEls, r.g.rxByIP, r.rxTotal) && Bytes(rxEls) < WORD
    requires Accounted(txEls, r.g.txByIP, r.txTotal) && Bytes(txEls) < WORD
    requires DistinctIPs(Published(r.g, copied, now))
    ensures SumCredits(RxCredits(Published(r.g, copied, now))) <= r.rxTotal
    ensures SumCredits(TxCredits(Published(r.g, copied, now))) <= r.txTotal
  {
    hide IsMac, NormalizeMac, HasWan, SightingFor, Accounted, Published, IsTracked, Bytes;
    var devices := Published(r.g, copied, now);
    forall d | d in devices
      ensures d.rxBytes <= if d.ip == "" then 0 else Get(r.g.rxByIP, d.ip)
      ensures d.txBytes <= if d.ip == "" then 0 else Get(r.g.txByIP, d.ip)
    {
      var id := RowOf(r.g, copied, now, d);
    }
    hide Unstamped, Record;
    assert forall i | 0 <= i < |devices| :: devices[i] in devices;
    CreditsWithinTotal(rxEls, r.g.rxByIP, r.rxTotal, RxCredits(devices));
    CreditsWithinTotal(txEls, r.g.txByIP, r.txTotal, TxCredits(devices));
  }

  // ---- the loop's constants ----

  /** The least time between the end of a refresh and the start of an event-driven one. */
  const FLOOR: nat := 2 * SECOND

  /** The bus events that count as sightings. */
  predicate IsSighting(topic: string, mac: string) {
    mac != "" && IsMac(mac) && (topic == "wifi:auth:success" || topic == "dhcp:request")
  }

  // ---- the store ----

  class StateStore {
    var lastSeen: map<string, nat>
    var snapshot: Snapshot
    var prevWANRx: nat
    var prevWANTx: nat
    var prevTrafficAt: Option<nat>

    function View(): State
      reads this
    {
      State(lastSeen, snapshot,
            if prevTrafficAt.Some? then Some(Sample(prevTrafficAt.value, prevWANRx, prevWANTx)) else None)
    }

    constructor ()
      ensures View() == EMPTY_STATE
    {
      lastSeen, snapshot := map[], NO_SNAPSHOT;
      prevWANRx, prevWANTx, prevTrafficAt := 0, 0, None;
    }

    method ReadSnapshot() returns (snap: Snapshot)
      ensures snap == View().snapshot
    {
      snap := snapshot;
    }

    /** `markSeen`: the time given replaces whatever sighting was there. */
    method MarkSeen(mac: string, when: nat)
      modifies this
      ensures View() == Marked(old(View()), mac, when)
      ensures lastSeen == old(lastSeen)[NormalizeMac(mac) := when / 1_000_000_000]
    {
      lastSeen := lastSeen[NormalizeMac(mac) := Unix(when)];
    }

    /** The first locked section of a refresh. */
    method CopyForRefresh() returns (copied: map<string, nat>, prevConnected: map<string, bool>)
      ensures copied == View().lastSeen
      ensures prevConnected == ConnectedMap(View().snapshot.devices)
    {
      copied := lastSeen;
      prevConnected := map[];
      var devices := snapshot.devices;
      for i := 0 to |devices|
        invariant prevConnected == LastWins(ConnectedPairs(devices)[..i])
      {
        var pairs := ConnectedPairs(devices);
        assert pairs[..i + 1] == pairs[..i] + [pairs[i]];
        LastWinsSnoc(pairs[..i], pairs[i]);
        prevConnected := prevConnected[devices[i].mac := devices[i].connected];
      }
      assert ConnectedPairs(devices)[..|devices|] == ConnectedPairs(devices);
    }

    /** The merge loop, in whatever order the local map is visited. */
    method MergeSightings(local: map<string, nat>)
      modifies this`lastSeen
      ensures lastSeen == Merge(old(lastSeen), local)
    {
      var rest := local.Keys;
      while rest != {}
        invariant rest <= local.Keys
        invariant forall m :: m in lastSeen <==> m in old(lastSeen) || (m in local.Keys - rest && local[m] > 0)
        invariant forall m | m in lastSeen ::
                    lastSeen[m] == if m in rest then Get(old(lastSeen), m)
                                   else Max(Get(old(lastSeen), m), Get(local, m))
      {
        var mac :| mac in rest;
        if local[mac] > Get(lastSeen, mac) {
          lastSeen := lastSeen[mac := local[mac]];
        }
        rest := rest - {mac};
      }
    }

    /** The second locked section of a refresh. */
    method Publish(local: map<string, nat>, snap: Snapshot, now: nat)
      modifies this
      ensures View() == State(Merge(old(lastSeen), local),
                              snap.(rates := RatesBetween(old(View()).prev, Sample(now, snap.rxBytes, snap.txBytes))),
                              Some(Sample(now, snap.rxBytes, snap.txBytes)))
    {
      MergeSightings(local);
      var rates := NO_RATES;
      if prevTrafficAt.Some? {
        var dt := (now - prevTrafficAt.value) as real / SECOND as real;
        if dt > 0.0 && snap.rxBytes >= prevWANRx && snap.txBytes >= prevWANTx {
          rates := Rates((snap.rxBytes - prevWANRx) as real * 8.0 / dt,
                         (snap.txBytes - prevWANTx) as real * 8.0 / dt);
        }
      }
      prevWANRx, prevWANTx := snap.rxBytes, snap.txBytes;
      prevTrafficAt := Some(now);
      snapshot := snap.(rates := rates);
    }
  }
}
