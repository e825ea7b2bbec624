/** What the announced events say about the snapshots, over whole runs (code/refresh.go). */
module Replay {
  import opened Common
  import opened Text
  import opened Presence
  import opened Devices
  import opened Traffic
  import opened Store
  import opened Version
  import opened Fetch
  import opened Protocol

  // ---- the history ----

  function Number(n: nat, events: seq<Event>): seq<Emitted> {
    seq(|events|, i requires 0 <= i < |events| => Emitted(n, events[i]))
  }

  /** The events of all publications, in order. */
  function AllEvents(ps: seq<Publication>): seq<Emitted> {
    if ps == [] then [] else AllEvents(ps[..|ps| - 1]) + Number(|ps|, ps[|ps| - 1].events)
  }

  /** The device list shown before publication `k`. */
  function DevicesBefore(ps: seq<Publication>, k: nat): seq<TrackedDevice>
    requires k <= |ps|
  {
    if k == 0 then [] else ps[k - 1].snapshot.devices
  }

  function SampleBefore(ps: seq<Publication>, k: nat): Option<Sample>
    requires k <= |ps|
  {
    if k == 0 then None else Some(ps[k - 1].sample)
  }

  /** Records of one address agree on being connected. */
  ghost predicate Coherent(devices: seq<TrackedDevice>) {
    forall d, e | d in devices && e in devices && d.mac == e.mac :: d.connected == e.connected
  }

  /** Publication `k` follows from the one before it: its events are the transitions since then, its
      rates the traffic since then. */
  ghost predicate Follows(ps: seq<Publication>, k: nat)
    requires k < |ps|
  {
    var p := ps[k];
    && Coherent(p.snapshot.devices)
    && p.events == Transitions(p.snapshot.devices, ConnectedMap(DevicesBefore(ps, k)))
    && p.snapshot.rates == RatesBetween(SampleBefore(ps, k), p.sample)
  }

  ghost predicate Chain(ps: seq<Publication>) {
    forall k: nat | k < |ps| :: Follows(ps, k)
  }

  function Unsent(pc: Pc): seq<Event> {
    if pc.Broadcasting? then pc.queue else []
  }

  ghost predicate HistoryInv(s: Sys) {
    var ps := s.history.published;
    && Chain(ps)
    && s.store.snapshot.devices == DevicesBefore(ps, |ps|)
    && (ps != [] ==> s.store.snapshot == ps[|ps| - 1].snapshot)
    && s.store.prev == SampleBefore(ps, |ps|)
    && (s.pc.Copied? ==> s.pc.prev == ConnectedMap(s.store.snapshot.devices))
    && s.history.emitted + Number(|ps|, Unsent(s.pc)) == AllEvents(ps)
  }

  lemma {:induction false} PublishedIsCoherent(g: Gathered, copied: map<string, nat>, now: nat)
    ensures Coherent(Published(g, copied, now))
  {
    PublishedIsWellFormed(g, copied, now);
    hide Published, MacShape, LinkOf, SightingFor;
    assert AllFrom(g, copied, now, Published(g, copied, now));
  }

  lemma {:induction false} ChainSnoc(ps: seq<Publication>, p: Publication)
    requires Chain(ps) && Follows(ps + [p], |ps|)
    ensures Chain(ps + [p])
  {
    forall k: nat | k < |ps| + 1 ensures Follows(ps + [p], k) {
      if k < |ps| {
        assert Follows(ps, k);
        assert DevicesBefore(ps + [p], k) == DevicesBefore(ps, k);
        assert SampleBefore(ps + [p], k) == SampleBefore(ps, k);
      }
    }
  }

  lemma {:induction false} PublishStep(s: Sys)
    requires Enabled(s, PublishState) && HistoryInv(s)
    ensures HistoryInv(Do(s, PublishState))
  {
    var r, copied, now := s.pc.reading, s.pc.copied, s.pc.now;
    var t := Do(s, PublishState);
    var ps, qs := s.history.published, t.history.published;
    PublishedIsCoherent(r.g, copied, now);
    hide Published, LocalSightings, RatesBetween, ConnectedCount, Records, ConnectedMap, Transitions, Merge, Coherent,
         Chain;
    assert qs == ps + [qs[|ps|]];
    assert Follows(qs, |ps|);
    ChainSnoc(ps, qs[|ps|]);
    assert qs[..|qs| - 1] == ps;
    assert s.history.emitted + Number(|ps|, []) == s.history.emitted;
  }

  lemma {:induction false} HistoryStep(s: Sys, a: Action)
    requires Enabled(s, a) && HistoryInv(s)
    ensures HistoryInv(Do(s, a))
  {
    hide PublishOn, Transitions, SampleOf, ConnectedMap, IsSighting, ValidAnswers, Chain, AllEvents, NormalizeMac,
         ReadingOf, Answer, AfterCall;
    if a.PublishState? {
      PublishStep(s);
    } else if a.Emit? {
      var n := |s.history.published|;
      assert Number(n, s.pc.queue) == [Emitted(n, s.pc.queue[0])] + Number(n, s.pc.queue[1..]);
    }
  }

  lemma {:induction false} HistoryAt(acts: Schedule, n: nat)
    requires IsRun(acts)
    ensures HistoryInv(At(acts, n))
  {
    hide Enabled, Do;
    if n > 0 {
      HistoryAt(acts, n - 1);
      StepAt(acts, n - 1);
      HistoryStep(At(acts, n - 1), acts(n - 1));
    } else {
      assert Number(0, []) == [];
    }
  }

  lemma {:induction false} HistoryGrows(acts: Schedule, i: nat, j: nat)
    requires IsRun(acts) && i <= j
    ensures At(acts, i).history.published <= At(acts, j).history.published
    ensures At(acts, i).history.emitted <= At(acts, j).history.emitted
    decreases j - i
  {
    hide At, Enabled, Do;
    if i < j {
      HistoryGrows(acts, i, j - 1);
      StepAt(acts, j - 1);
      StepGrows(At(acts, j - 1), acts(j - 1));
    }
  }

  lemma {:induction false} StepGrows(s: Sys, a: Action)
    requires Enabled(s, a)
    ensures s.history.published <= Do(s, a).history.published && s.history.emitted <= Do(s, a).history.emitted
  {
    hide PublishOn, Marked, Transitions, SampleOf, ConnectedMap, IsSighting, ValidAnswers, ReadingOf, Answer, AfterCall;
  }

  // ---- causality ----

  lemma {:induction false} NumbersAreBounded(ps: seq<Publication>, e: Emitted)
    requires e in AllEvents(ps)
    ensures 1 <= e.number <= |ps| && e.event in ps[e.number - 1].events
  {
    var n := |ps| - 1;
    if e in AllEvents(ps[..n]) {
      NumbersAreBounded(ps[..n], e);
    }
  }

  /** The list has the record's address with the other flag. */
  ghost predicate ShownOtherwise(devices: seq<TrackedDevice>, d: TrackedDevice) {
    exists e :: e in devices && e.mac == d.mac && e.connected != d.connected
  }

  /** What a publication announces: nothing if it is the first, and otherwise one event for each record whose
      address the snapshot before it showed with the other flag, in the order of the list, with that record's flag,
      address, name and IP. */
  lemma {:induction false} AnnouncedExactly(acts: Schedule, n: nat, k: nat) returns (ks: seq<nat>)
    requires IsRun(acts) && k < |At(acts, n).history.published|
    ensures var ps := At(acts, n).history.published;
            var devices, events := ps[k].snapshot.devices, ps[k].events;
            && |ks| == |events| && (forall i, j | 0 <= i < j < |ks| :: ks[i] < ks[j])
            && (forall l: nat :: l in ks <==>
                  l < |devices| && k > 0 && ShownOtherwise(ps[k - 1].snapshot.devices, devices[l]))
            && forall i | 0 <= i < |ks| ::
                 ks[i] < |devices|
                 && var d := devices[ks[i]];
                    events[i].connected == d.connected && events[i].mac == d.mac && events[i].name == d.name &&
                    events[i].ip == d.ip
  {
    HistoryAt(acts, n);
    hide At, Transitions, ConnectedMap, Coherent, Has, ShownOtherwise;
    var ps := At(acts, n).history.published;
    assert Follows(ps, k);
    NothingBefore();
    if k > 0 {
      assert Follows(ps, k - 1);
    }
    var before := DevicesBefore(ps, k);
    ks := TransitionsAreExact(ps[k].snapshot.devices, ConnectedMap(before));
    forall d: TrackedDevice
      ensures d.mac in ConnectedMap(before) && ConnectedMap(before)[d.mac] != d.connected <==> ShownOtherwise(before, d)
    {
      KnownFlag(before, d);
    }
  }

  lemma {:induction false} NothingBefore()
    ensures Coherent([]) && forall d :: !ShownOtherwise([], d)
  {
  }

  lemma {:induction false} KnownFlag(devices: seq<TrackedDevice>, d: TrackedDevice)
    requires Coherent(devices)
    ensures d.mac in ConnectedMap(devices) && ConnectedMap(devices)[d.mac] != d.connected <==>
            ShownOtherwise(devices, d)
  {
    hide ConnectedMap;
    ConnectedMapShows(devices, d.mac);
  }

  /** A state read after an event was sent returns the snapshot of the refresh that announced the event,
      or of a later one. */
  lemma {:induction false} ReadAfterEvent(acts: Schedule, sent: nat, read: nat, e: Emitted)
    requires IsRun(acts) && sent <= read && e in At(acts, sent).history.emitted
    ensures var ps := At(acts, read).history.published;
            && 1 <= e.number <= |ps|
            && e.event in ps[e.number - 1].events
            && At(acts, read).store.snapshot == ps[|ps| - 1].snapshot
  {
    HistoryAt(acts, read);
    HistoryGrows(acts, sent, read);
    hide At;
    var s := At(acts, read);
    assert e in s.history.emitted + Number(|s.history.published|, Unsent(s.pc));
    NumbersAreBounded(s.history.published, e);
  }

  // ---- replay ----

  /** A client's view of who is connected, after applying events to it. */
  function Apply(view: map<string, bool>, events: seq<Emitted>): map<string, bool> {
    if events == [] then view
    else
      var e := events[|events| - 1].event;
      Apply(view, events[..|events| - 1])[e.mac := e.connected]
  }

  lemma {:induction false} ApplyConcat(view: map<string, bool>, a: seq<Emitted>, b: seq<Emitted>)
    ensures Apply(view, a + b) == Apply(Apply(view, a), b)
  {
    if b == [] {
      assert a + b == a;
    } else {
      assert (a + b)[..|a + b| - 1] == a + b[..|b| - 1];
      ApplyConcat(view, a, b[..|b| - 1]);
    }
  }

  ghost predicate Has(devices: seq<TrackedDevice>, mac: string) {
    exists d :: d in devices && d.mac == mac
  }

  /** The flag a coherent list shows for an address. */
  lemma {:induction false} ConnectedMapShows(devices: seq<TrackedDevice>, mac: string)
    requires Coherent(devices)
    ensures mac in ConnectedMap(devices) <==> Has(devices, mac)
    ensures forall d | d in devices && d.mac == mac ::
              mac in ConnectedMap(devices) && ConnectedMap(devices)[mac] == d.connected
  {
    var pairs := ConnectedPairs(devices);
    LastWinsLookup(pairs, mac);
    forall d | d in devices && d.mac == mac
      ensures mac in ConnectedMap(devices) && ConnectedMap(devices)[mac] == d.connected
    {
      var i :| 0 <= i < |devices| && devices[i] == d;
      assert pairs[i].0 == mac;
      var k :| IsLastFor(pairs, k) && pairs[k].0 == mac && LastWins(pairs)[mac] == pairs[k].1;
      assert devices[k] in devices;
    }
    if mac in ConnectedMap(devices) {
      var i :| 0 <= i < |pairs| && pairs[i].0 == mac;
      assert devices[i] in devices && devices[i].mac == mac;
    }
  }

  lemma {:induction false} NumberSnoc(n: nat, events: seq<Event>, e: Event)
    ensures Number(n, events + [e]) == Number(n, events) + [Emitted(n, e)]
  {
  }

  /** One publication's events bring a view that was right before it up to date. */
  lemma {:induction false} TransitionsApply(n: nat, devices: seq<TrackedDevice>, prev: map<string, bool>,
                                            view: map<string, bool>, mac: string)
    requires Coherent(devices) && mac in prev && mac in view && view[mac] == prev[mac]
    ensures var after := Apply(view, Number(n, Transitions(devices, prev)));
            && mac in after
            && (!Has(devices, mac) ==> after[mac] == prev[mac])
            && forall d | d in devices && d.mac == mac :: after[mac] == d.connected
  {
    if devices == [] {
    } else {
      var before, d := devices[..|devices| - 1], devices[|devices| - 1];
      assert devices == before + [d];
      TransitionsApply(n, before, prev, view, mac);
      var earlier := Number(n, Transitions(before, prev));
      var event := Event(d.connected, d.mac, d.name, d.ip);
      NumberSnoc(n, Transitions(before, prev), event);
      assert (earlier + [Emitted(n, event)])[..|earlier|] == earlier;
      if d.mac == mac && Has(before, mac) {
        var e :| e in before && e.mac == mac;
        assert e.connected == d.connected;
      }
    }
  }

  /** The events announced after the first `i` publications. */
  function EventsSince(ps: seq<Publication>, i: nat): seq<Emitted>
    requires i <= |ps|
    decreases |ps|
  {
    if i == |ps| then [] else EventsSince(ps[..|ps| - 1], i) + Number(|ps|, ps[|ps| - 1].events)
  }

  lemma {:induction false} EventsSinceSnoc(ps: seq<Publication>, i: nat)
    requires i <= |ps|
    ensures i == |ps| ==> EventsSince(ps, i) == []
    ensures i < |ps| ==> EventsSince(ps, i) == EventsSince(ps[..|ps| - 1], i) + Number(|ps|, ps[|ps| - 1].events)
  {
  }

  lemma {:induction false} EventsSinceIsRest(ps: seq<Publication>, i: nat)
    requires i <= |ps|
    ensures AllEvents(ps) == AllEvents(ps[..i]) + EventsSince(ps, i)
    decreases |ps|
  {
    if i == |ps| {
      assert ps[..i] == ps;
    } else {
      EventsSinceIsRest(ps[..|ps| - 1], i);
      assert ps[..|ps| - 1][..i] == ps[..i];
    }
  }

  /** The address has a record in every publication from `i - 1` on. */
  ghost predicate PresentSince(ps: seq<Publication>, i: nat, mac: string) {
    forall k | i - 1 <= k < |ps| && 0 <= k :: Has(ps[k].snapshot.devices, mac)
  }

  lemma {:induction false} ChainPrefix(ps: seq<Publication>, n: nat)
    requires Chain(ps) && n <= |ps|
    ensures Chain(ps[..n])
  {
    forall k: nat | k < n ensures Follows(ps[..n], k) {
      assert Follows(ps, k);
      assert DevicesBefore(ps[..n], k) == DevicesBefore(ps, k);
      assert SampleBefore(ps[..n], k) == SampleBefore(ps, k);
    }
  }

  /** One more publication keeps a replayed view right. */
  lemma {:induction false} ReplayStep(n: nat, before: seq<TrackedDevice>, devices: seq<TrackedDevice>,
                                      first: map<string, bool>,
                   earlier: seq<Emitted>, mac: string)
    requires Coherent(devices) && Has(devices, mac)
    requires mac in ConnectedMap(before) && mac in Apply(first, earlier)
    requires Apply(first, earlier)[mac] == ConnectedMap(before)[mac]
    ensures var view := Apply(first, earlier + Number(n, Transitions(devices, ConnectedMap(before))));
            mac in ConnectedMap(devices) && mac in view && view[mac] == ConnectedMap(devices)[mac]
  {
    var events := Number(n, Transitions(devices, ConnectedMap(before)));
    ConnectedMapShows(devices, mac);
    ApplyConcat(first, earlier, events);
    TransitionsApply(n, devices, ConnectedMap(before), Apply(first, earlier), mac);
  }

  lemma {:induction false} PresentPrefix(ps: seq<Publication>, i: nat, mac: string)
    requires 1 <= i <= |ps| && PresentSince(ps, i, mac)
    ensures Has(ps[|ps| - 1].snapshot.devices, mac)
    ensures PresentSince(ps[..|ps| - 1], i, mac)
  {
    hide Has;
  }

  lemma {:induction false} ChainReplays(ps: seq<Publication>, i: nat, mac: string)
    requires Chain(ps) && 1 <= i <= |ps| && PresentSince(ps, i, mac)
    ensures var first, last := ConnectedMap(ps[i - 1].snapshot.devices), ConnectedMap(ps[|ps| - 1].snapshot.devices);
            var view := Apply(first, EventsSince(ps, i));
            mac in first && mac in last && mac in view && view[mac] == last[mac]
    decreases |ps|
  {
    hide ConnectedMap, Transitions, Chain, Coherent, Has, RatesBetween, PresentSince, EventsSince, Apply, Follows,
         Number;
    var n := |ps| - 1;
    ChainAt(ps, n);
    PresentPrefix(ps, i, mac);
    ConnectedMapShows(ps[n].snapshot.devices, mac);
    EventsSinceSnoc(ps, i);
    NothingApplied(ConnectedMap(ps[i - 1].snapshot.devices));
    if i < |ps| {
      var before := ps[..n];
      ChainPrefix(ps, n);
      ChainReplays(before, i, mac);
      ReplayStep(|ps|, ps[n - 1].snapshot.devices, ps[n].snapshot.devices,
                 ConnectedMap(ps[i - 1].snapshot.devices), EventsSince(before, i), mac);
    }
  }

  /** What a chain says of one publication. */
  lemma {:induction false} ChainAt(ps: seq<Publication>, k: nat)
    requires Chain(ps) && k < |ps|
    ensures Coherent(ps[k].snapshot.devices)
    ensures k > 0 ==> ps[k].events == Transitions(ps[k].snapshot.devices, ConnectedMap(ps[k - 1].snapshot.devices))
  {
    assert Follows(ps, k);
  }

  lemma {:induction false} NothingApplied(view: map<string, bool>)
    ensures Apply(view, []) == view
  {
  }

  /** No event is waiting to be sent. */
  predicate Settled(s: Sys) {
    Unsent(s.pc) == []
  }

  /** The events sent between two settled moments are those of the publications between them. */
  lemma {:induction false} SentSince(acts: Schedule, i: nat, j: nat)
    requires IsRun(acts) && i <= j && Settled(At(acts, i)) && Settled(At(acts, j))
    ensures var a, b := At(acts, i).history, At(acts, j).history;
            && a.published <= b.published && a.emitted <= b.emitted
            && b.emitted[|a.emitted|..] == EventsSince(b.published, |a.published|)
            && Chain(b.published)
  {
    HistoryAt(acts, i);
    HistoryAt(acts, j);
    HistoryGrows(acts, i, j);
    hide At, Chain;
    var a, b := At(acts, i).history, At(acts, j).history;
    EventsSinceIsRest(b.published, |a.published|);
    assert b.published[..|a.published|] == a.published;
    assert a.emitted + [] == a.emitted && b.emitted + [] == b.emitted;
  }

  /** Without a publication in between, as when every device fetch fails, no event is sent. */
  lemma {:induction false} NoPublicationNoEvents(acts: Schedule, i: nat, j: nat)
    requires IsRun(acts) && i <= j && Settled(At(acts, i)) && Settled(At(acts, j))
    requires |At(acts, i).history.published| == |At(acts, j).history.published|
    ensures At(acts, i).history.emitted == At(acts, j).history.emitted
    ensures At(acts, i).store.snapshot.devices == At(acts, j).store.snapshot.devices
  {
    HistoryAt(acts, i);
    HistoryAt(acts, j);
    SentSince(acts, i, j);
  }

  /** The current snapshot is that of the last publication. */
  lemma {:induction false} ShownIsLast(acts: Schedule, n: nat)
    requires IsRun(acts) && At(acts, n).history.published != []
    ensures var s := At(acts, n); s.store.snapshot == s.history.published[|s.history.published| - 1].snapshot
  {
    HistoryAt(acts, n);
  }

  /** Over any run, applying the events sent since an earlier snapshot to that snapshot's flags gives the
      current flag of every address continuously listed in between. */
  lemma {:induction false} EventsReplaySnapshots(acts: Schedule, i: nat, j: nat, mac: string)
    requires IsRun(acts) && i <= j && Settled(At(acts, i)) && Settled(At(acts, j))
    requires At(acts, i).history.published != []
    requires PresentSince(At(acts, j).history.published, |At(acts, i).history.published|, mac)
    ensures At(acts, i).history.emitted <= At(acts, j).history.emitted
    ensures var s, t := At(acts, i), At(acts, j);
            var view := Apply(ConnectedMap(s.store.snapshot.devices), t.history.emitted[|s.history.emitted|..]);
            && mac in view && mac in ConnectedMap(t.store.snapshot.devices)
            && view[mac] == ConnectedMap(t.store.snapshot.devices)[mac]
  {
    hide At, Chain, ConnectedMap, Apply, PresentSince, EventsSince, Settled;
    SentSince(acts, i, j);
    ShownIsLast(acts, i);
    ShownIsLast(acts, j);
    ChainReplays(At(acts, j).history.published, |At(acts, i).history.published|, mac);
  }

  // ---- alternation ----

  /** What the events say of one address, in order. */
  function ForMac(events: seq<Emitted>, mac: string): seq<bool> {
    if events == [] then []
    else
      var e := events[|events| - 1].event;
      var before := ForMac(events[..|events| - 1], mac);
      if e.mac == mac then before + [e.connected] else before
  }

  lemma {:induction false} ForMacConcat(a: seq<Emitted>, b: seq<Emitted>, mac: string)
    ensures ForMac(a + b, mac) == ForMac(a, mac) + ForMac(b, mac)
  {
    if b == [] {
      assert a + b == a;
    } else {
      assert (a + b)[..|a + b| - 1] == a + b[..|b| - 1];
      ForMacConcat(a, b[..|b| - 1], mac);
    }
  }

  function CountMac(devices: seq<TrackedDevice>, mac: string): nat {
    if devices == [] then 0
    else CountMac(devices[..|devices| - 1], mac) + if devices[|devices| - 1].mac == mac then 1 else 0
  }

  lemma {:induction false} CountMacHas(devices: seq<TrackedDevice>, mac: string)
    ensures CountMac(devices, mac) > 0 <==> Has(devices, mac)
  {
    if devices != [] {
      var before, d := devices[..|devices| - 1], devices[|devices| - 1];
      assert devices == before + [d];
      CountMacHas(before, mac);
    }
  }

  function Repeat(b: bool, n: nat): seq<bool> {
    seq(n, i => b)
  }

  /** A refresh announces a change of an address it knew once per record of that address, and announces
      nothing of an address that is new, re-added, unchanged or gone. */
  lemma {:induction false} TransitionsOfMac(n: nat, devices: seq<TrackedDevice>, prev: map<string, bool>, mac: string,
                                            flag: bool)
    requires forall d | d in devices && d.mac == mac :: d.connected == flag
    ensures ForMac(Number(n, Transitions(devices, prev)), mac) ==
            Repeat(flag, if mac in prev && prev[mac] != flag then CountMac(devices, mac) else 0)
  {
    if devices != [] {
      var before, d := devices[..|devices| - 1], devices[|devices| - 1];
      assert devices == before + [d];
      TransitionsOfMac(n, before, prev, mac, flag);
      var event := Event(d.connected, d.mac, d.name, d.ip);
      NumberSnoc(n, Transitions(before, prev), event);
      var earlier := Number(n, Transitions(before, prev));
      assert (earlier + [Emitted(n, event)])[..|earlier|] == earlier;
      assert Repeat(flag, CountMac(devices, mac)) ==
             Repeat(flag, CountMac(before, mac)) + (if d.mac == mac then [flag] else []);
    }
  }

  function LastOf(start: bool, flags: seq<bool>): bool {
    if flags == [] then start else flags[|flags| - 1]
  }

  /** Each value differs from the one before it, the first from a given one. */
  predicate Alternates(start: bool, flags: seq<bool>) {
    flags == [] ||
    var n := |flags| - 1;
    flags[n] != LastOf(start, flags[..n]) && Alternates(start, flags[..n])
  }

  lemma {:induction false} AlternatesConcat(start: bool, a: seq<bool>, b: seq<bool>)
    ensures Alternates(start, a + b) <==> Alternates(start, a) && Alternates(LastOf(start, a), b)
    ensures LastOf(start, a + b) == LastOf(LastOf(start, a), b)
  {
    if b == [] {
      assert a + b == a;
    } else {
      assert (a + b)[..|a + b| - 1] == a + b[..|b| - 1];
      AlternatesConcat(start, a, b[..|b| - 1]);
    }
  }

  lemma {:induction false} RepeatAlternates(start: bool, flag: bool, n: nat)
    ensures Alternates(start, Repeat(flag, n)) <==> n == 0 || (n == 1 && start != flag)
  {
    if n > 1 {
      var flags := Repeat(flag, n);
      assert flags[n - 1] == flags[..n - 1][n - 2];
    } else if n == 1 {
      assert Repeat(flag, 1)[..0] == [];
    }
  }

  /** One refresh keeps the alternation of a known address exactly when the address did not change or has
      a single record. */
  lemma {:induction false} RefreshAlternatesExactly(n: nat, devices: seq<TrackedDevice>, prev: map<string, bool>,
                                                    mac: string, flag: bool)
    requires mac in prev && Has(devices, mac)
    requires forall d | d in devices && d.mac == mac :: d.connected == flag
    ensures var flags := ForMac(Number(n, Transitions(devices, prev)), mac);
            && (Alternates(prev[mac], flags) <==> prev[mac] == flag || CountMac(devices, mac) == 1)
            && LastOf(prev[mac], flags) == flag
  {
    TransitionsOfMac(n, devices, prev, mac, flag);
    CountMacHas(devices, mac);
    RepeatAlternates(prev[mac], flag, CountMac(devices, mac));
  }

  /** The flag a list shows for an address it lists. */
  function FlagOf(devices: seq<TrackedDevice>, mac: string): bool {
    var flags := ConnectedMap(devices);
    mac in flags && flags[mac]
  }

  /** Publication `k` says nothing new of the address, or has a single record of it. */
  predicate SaysOnce(ps: seq<Publication>, k: int, mac: string)
    requires 0 < k < |ps|
  {
    || CountMac(ps[k].snapshot.devices, mac) == 1
    || FlagOf(ps[k - 1].snapshot.devices, mac) == FlagOf(ps[k].snapshot.devices, mac)
  }

  lemma {:induction false} AlternateStep(n: nat, before: seq<TrackedDevice>, devices: seq<TrackedDevice>, first: bool,
                      earlier: seq<Emitted>, mac: string)
    requires Coherent(devices) && Has(devices, mac)
    requires mac in ConnectedMap(before) && LastOf(first, ForMac(earlier, mac)) == ConnectedMap(before)[mac]
    ensures mac in ConnectedMap(devices)
    ensures var now, flags := FlagOf(devices, mac),
                              ForMac(earlier + Number(n, Transitions(devices, ConnectedMap(before))), mac);
            && LastOf(first, flags) == now
            && (Alternates(first, flags) <==>
                Alternates(first, ForMac(earlier, mac)) && (CountMac(devices, mac) == 1 || FlagOf(before, mac) == now))
  {
    hide ConnectedMap, Transitions, ForMac;
    var events := Number(n, Transitions(devices, ConnectedMap(before)));
    ConnectedMapShows(devices, mac);
    ForMacConcat(earlier, events, mac);
    RefreshAlternatesExactly(n, devices, ConnectedMap(before), mac, ConnectedMap(devices)[mac]);
    AlternatesConcat(first, ForMac(earlier, mac), ForMac(events, mac));
  }

  lemma {:induction false} NothingSaid(view: map<string, bool>, mac: string)
    ensures ForMac([], mac) == []
    ensures mac in view ==> Alternates(view[mac], []) && LastOf(view[mac], []) == view[mac]
  {
  }

  lemma {:induction false} SaysOncePrefix(ps: seq<Publication>, i: nat, n: nat, mac: string)
    requires 1 <= i <= n < |ps|
    ensures (forall k | i <= k <= n :: SaysOnce(ps, k, mac)) <==>
            (forall k | i <= k < n :: SaysOnce(ps[..n], k, mac)) && SaysOnce(ps, n, mac)
  {
    hide FlagOf, CountMac;
    assert forall k | i <= k < n :: SaysOnce(ps[..n], k, mac) <==> SaysOnce(ps, k, mac);
  }

  lemma {:induction false} ChainAlternatesExactly(ps: seq<Publication>, i: nat, mac: string)
    requires Chain(ps) && 1 <= i <= |ps| && PresentSince(ps, i, mac)
    ensures var flags := ForMac(EventsSince(ps, i), mac);
            var first, last := FlagOf(ps[i - 1].snapshot.devices, mac), FlagOf(ps[|ps| - 1].snapshot.devices, mac);
            && LastOf(first, flags) == last
            && (Alternates(first, flags) <==> forall k | i <= k < |ps| :: SaysOnce(ps, k, mac))
    decreases |ps|
  {
    hide ConnectedMap, Transitions, Chain, Coherent, CountMac, Has, RatesBetween, PresentSince, EventsSince, ForMac,
         Alternates, LastOf, Number;
    var n := |ps| - 1;
    ChainAt(ps, n);
    PresentPrefix(ps, i, mac);
    ConnectedMapShows(ps[n].snapshot.devices, mac);
    EventsSinceSnoc(ps, i);
    NothingSaid(ConnectedMap(ps[i - 1].snapshot.devices), mac);
    if i < |ps| {
      var before := ps[..n];
      ChainPrefix(ps, n);
      ChainAlternatesExactly(before, i, mac);
      ChainAt(ps, n - 1);
      PresentPrefix(before, i, mac);
      ConnectedMapShows(ps[n - 1].snapshot.devices, mac);
      AlternateStep(|ps|, ps[n - 1].snapshot.devices, ps[n].snapshot.devices,
                    FlagOf(ps[i - 1].snapshot.devices, mac), EventsSince(before, i), mac);
      SaysOncePrefix(ps, i, n, mac);
    }
  }

  /** Over any run, the events sent about an address listed throughout strictly alternate, starting from the opposite
      of the earlier flag, exactly when every snapshot that changes its flag has a single record of it. */
  lemma {:induction false} EventsAlternateExactly(acts: Schedule, i: nat, j: nat, mac: string)
    requires IsRun(acts) && i <= j && Settled(At(acts, i)) && Settled(At(acts, j))
    requires At(acts, i).history.published != []
    requires PresentSince(At(acts, j).history.published, |At(acts, i).history.published|, mac)
    ensures At(acts, i).history.emitted <= At(acts, j).history.emitted
    ensures var s, t := At(acts, i), At(acts, j);
            var n, ps := |s.history.published|, t.history.published;
            var flags := ForMac(t.history.emitted[|s.history.emitted|..], mac);
            Alternates(FlagOf(s.store.snapshot.devices, mac), flags) <==>
            forall k | n <= k < |ps| :: SaysOnce(ps, k, mac)
  {
    hide At, Chain, FlagOf, ForMac, Alternates, PresentSince, EventsSince, Settled, SaysOnce;
    SentSince(acts, i, j);
    ShownIsLast(acts, i);
    ChainAlternatesExactly(At(acts, j).history.published, |At(acts, i).history.published|, mac);
  }

  // ---- traffic over a run ----

  function Samples(ps: seq<Publication>): seq<Sample> {
    seq(|ps|, i requires 0 <= i < |ps| => ps[i].sample)
  }

  /** Published rates, each over the time since the previous publication, added up. */
  function PublishedBits(ps: seq<Publication>): Rates {
    if |ps| <= 1 then NO_RATES
    else
      var n := |ps| - 1;
      var before := PublishedBits(ps[..n]);
      var bits := Over(ps[n].snapshot.rates, ps[n - 1].sample, ps[n].sample);
      Rates(before.rx + bits.rx, before.tx + bits.tx)
  }

  lemma {:induction false} ChainBits(ps: seq<Publication>)
    requires Chain(ps)
    ensures PublishedBits(ps) == BitsReported(Samples(ps))
  {
    hide RatesBetween, Over, Transitions, ConnectedMap, Coherent;
    if |ps| > 1 {
      var n := |ps| - 1;
      ChainPrefix(ps, n);
      ChainBits(ps[..n]);
      assert Follows(ps, n);
      assert Samples(ps)[..n] == Samples(ps[..n]);
    }
  }

  /** Over any run, the published rates account for exactly the bits the WAN counters advanced by between
      comparable refreshes. */
  lemma {:induction false} PublishedRatesAreExact(acts: Schedule, n: nat)
    requires IsRun(acts)
    ensures var ps := At(acts, n).history.published;
            var (rx, tx) := BitsPassed(Samples(ps));
            PublishedBits(ps) == Rates(rx as real, tx as real)
  {
    HistoryAt(acts, n);
    hide At, Chain;
    var ps := At(acts, n).history.published;
    ChainBits(ps);
    RatesAreExact(Samples(ps));
  }
}
