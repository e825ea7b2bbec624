/** What every publication of every run says of the data its refresh fetched (code/refresh.go, code/version.go). */
module EndToEnd {
  import opened Common
  import opened Text
  import opened Presence
  import opened Devices
  import opened Traffic
  import opened Store
  import opened Version
  import opened Fetch
  import opened Protocol
  import opened Replay
  import Hub

  /** The snapshot a publication leaves is that of the reading its own fetch ended with. */
  lemma {:induction false} PublishedFrom(acts: Schedule, publish: nat, fetch: nat)
    returns (copied: map<string, nat>, now: nat, prev: Option<Sample>)
    requires IsRun(acts) && acts(publish).PublishState? && IsLast(acts, FETCH, fetch, publish)
    ensures acts(fetch).FetchAll? && EnabledAt(acts, fetch)
    ensures At(acts, publish + 1).store.snapshot ==
            SnapshotOf(ReadingFrom(At(acts, fetch), acts(fetch)), copied, now, prev)
  {
    hide At, ReadingFrom, SnapshotOf, LocalSightings, Merge, Transitions, ConnectedMap;
    var start, fetch', copy := BehindPublication(acts, publish);
    LastIsUnique(acts, FETCH, fetch, fetch', publish);
    StepAt(acts, publish);
    var s := At(acts, publish);
    copied, now, prev := s.pc.copied, s.pc.now, s.store.prev;
    assert EnabledAt(acts, fetch);
  }

  /** In every run, every published device is connected exactly when the data fetched for that snapshot says so, only
      connected devices are wired or have a signal or an interface, and the client count is their number. */
  lemma {:induction false} PresenceIsPublished(acts: Schedule, fetch: nat, publish: nat)
    requires IsRun(acts) && acts(publish).PublishState? && IsLast(acts, FETCH, fetch, publish)
    ensures acts(fetch).FetchAll?
    ensures var snap, data := At(acts, publish + 1).store.snapshot, PresenceData(acts(fetch).answers);
            && (forall d | d in snap.devices ::
                  && (d.connected <==> ShouldBeConnected(data, d.mac))
                  && (d.wired || d.signal != 0 || d.iface != "" ==> d.connected))
            && snap.router.clientsConnected == ConnectedCount(snap.devices)
  {
    hide At, ShouldBeConnected, PresenceOf, PresenceData, Published, RatesBetween, Records, ConnectedCount, CountersOf,
         Bytes,
         UpdateAvailable;
    var copied, now, prev := PublishedFrom(acts, publish, fetch);
    var r := ReadingFrom(At(acts, fetch), acts(fetch));
    PublishedPresenceIsExact(r.g, PresenceData(acts(fetch).answers), copied, now);
    ClientsConnectedIsExact(r, copied, now, prev);
  }

  /** The data a refresh has on presence. */
  ghost predicate IsPresenceData(data: Fetched, a: Answers) {
    data == Fetched.Fetched(a.topology, a.ifaces, a.lists, a.arp, UplinkName(a.ifaces))
  }

  /** A published record is what the fetched data makes of a row: its own fields, the link the presence data calls for,
      and the bytes counted for its IP, modulo 2^64, which outrank a station's. */
  ghost predicate IsRecordOf(a: Answers, data: Fetched, id: string, d: TrackedDevice) {
    && id in a.devices && MacShape(d.mac)
    && exists link :: ShouldBeLinked(data, d.mac, link) &&
         Describes(d, id, a.devices[id], link,
                   BytesOf(a.rxEls, a.devices[id].recentIP) % 0x1_0000_0000_0000_0000,
                   BytesOf(a.txEls, a.devices[id].recentIP) % 0x1_0000_0000_0000_0000)
  }

  lemma {:induction false} RecordIsOfRow(a: Answers, latest: string, data: Fetched, id: string, d: TrackedDevice)
    requires IsPresenceData(data, a) && id in a.devices && MacShape(d.mac)
    requires var g, dev := ReadingOf(a, latest).g, a.devices[id];
             Describes(d, id, dev, LinkOf(g.presence, d.mac), Get(g.rxByIP, dev.recentIP), Get(g.txByIP, dev.recentIP))
    ensures IsRecordOf(a, data, id, d)
  {
    CountersAreAccounted(a.rxEls);
    CountersAreAccounted(a.txEls);
    hide MacShape, Describes, LinkOf, ShouldBeLinked, CountersOf, BytesOf, PresenceOf, Bytes, UpdateAvailable;
    LinkIsExact(data, d.mac);
  }

  /** In every run, every publication has one record of each row of the fetched device table whose own address is well
      formed, and no others, in address order. */
  lemma {:induction false} RowsArePublished(acts: Schedule, fetch: nat, publish: nat)
    returns (ids: seq<string>, data: Fetched)
    requires IsRun(acts) && acts(publish).PublishState? && IsLast(acts, FETCH, fetch, publish)
    ensures acts(fetch).FetchAll? && IsPresenceData(data, acts(fetch).answers)
    ensures var a, devices := acts(fetch).answers, At(acts, publish + 1).store.snapshot.devices;
            && |ids| == |devices| && (forall i, j | 0 <= i < j < |ids| :: ids[i] != ids[j])
            && (forall id :: id in ids <==>
                  id in a.devices && exists mac :: HasAddress(id, a.devices[id], mac) && MacShape(mac))
            && (forall i | 0 <= i < |ids| :: IsRecordOf(a, data, ids[i], devices[i]))
            && forall i, j | 0 <= i < j < |devices| :: Leq(devices[i].mac, devices[j].mac)
  {
    hide At, Published, RatesBetween, Records, ConnectedCount, HasAddress, MacShape, Describes, LinkOf, PresenceOf,
         CountersOf, Bytes, UpdateAvailable, IsRecordOf;
    var copied, now, prev := PublishedFrom(acts, publish, fetch);
    var a, r := acts(fetch).answers, ReadingFrom(At(acts, fetch), acts(fetch));
    data := PresenceData(a);
    ids := PublishedAreTheRows(r.g, copied, now);
    PublishedIsWellFormed(r.g, copied, now);
    hide IsSorted;
    forall i | 0 <= i < |ids| ensures IsRecordOf(a, data, ids[i], Published(r.g, copied, now)[i]) {
      RecordIsOfRow(a, r.router.latestVersion, data, ids[i], Published(r.g, copied, now)[i]);
    }
  }

  /** In every run, the rest of a published snapshot is that of its own refresh: host name, the installed version or
      else the release's, the uplink, whether there is a guest network, and the time of its start. */
  lemma {:induction false} RouterIsPublished(acts: Schedule, start: nat, fetch: nat, publish: nat)
    requires IsRun(acts) && acts(publish).PublishState? && IsLast(acts, FETCH, fetch, publish)
    requires IsLast(acts, START, start, publish)
    ensures acts(fetch).FetchAll?
    ensures var snap, a := At(acts, publish + 1).store.snapshot, acts(fetch).answers;
            && snap.router.hostname == a.hostname
            && snap.router.version == (if a.version != "" then a.version else a.release)
            && snap.router.wanIface == UplinkName(a.ifaces)
            && (snap.router.guestWifiEnabled <==>
                exists iface :: iface in a.ifaces && iface.kind == "AP" && iface.extraBss > 0)
            && snap.timestamp == Unix(At(acts, start).clock)
  {
    hide At, Published, RatesBetween, Records, ConnectedCount, PresenceOf, CountersOf, Bytes, UpdateAvailable,
         UplinkName,
         Transitions, ConnectedMap, LocalSightings, Merge, Answer;
    var start', fetch', copy := BehindPublication(acts, publish);
    LastIsUnique(acts, START, start, start', publish);
    LastIsUnique(acts, FETCH, fetch, fetch', publish);
    StepAt(acts, publish);
    StepAt(acts, fetch);
  }

  /** In every run, the published totals are the bytes of the fetched elements modulo 2^64, and with a topology,
      distinct device addresses and no wrap-around the published devices' bytes add up to at most those totals. */
  lemma {:induction false} BytesArePublished(acts: Schedule, fetch: nat, publish: nat)
    requires IsRun(acts) && acts(publish).PublishState? && IsLast(acts, FETCH, fetch, publish)
    ensures acts(fetch).FetchAll?
    ensures var snap, a := At(acts, publish + 1).store.snapshot, acts(fetch).answers;
            var word := 0x1_0000_0000_0000_0000;
            && snap.rxBytes == Bytes(a.rxEls) % word && snap.txBytes == Bytes(a.txEls) % word
            && (a.topology.Some? && a.topology.value != [] && DistinctIPs(snap.devices)
                && Bytes(a.rxEls) < word && Bytes(a.txEls) < word ==>
                  && SumCredits(RxCredits(snap.devices)) <= snap.rxBytes
                  && SumCredits(TxCredits(snap.devices)) <= snap.txBytes)
  {
    hide At, Published, RatesBetween, Records, ConnectedCount, Bytes, CountersOf, DistinctIPs, RxCredits, TxCredits,
         SumCredits, UpdateAvailable;
    var copied, now, prev := PublishedFrom(acts, publish, fetch);
    var a, r := acts(fetch).answers, ReadingFrom(At(acts, fetch), acts(fetch));
    CountersAreAccounted(a.rxEls);
    CountersAreAccounted(a.txEls);
    if a.topology.Some? && a.topology.value != [] && DistinctIPs(Published(r.g, copied, now))
       && Bytes(a.rxEls) < WORD && Bytes(a.txEls) < WORD {
      DeviceBytesWithinTotals(r, a.rxEls, a.txEls, copied, now);
    }
  }

  /** In every run, a published rate times the time from the start of the refresh before is eight times the bytes by
      which the published totals grew, if time has passed and neither total fell; otherwise both rates are 0, as at
      first. */
  lemma {:induction false} RatesArePublished(acts: Schedule, n: nat, k: nat)
    requires IsRun(acts) && k < |At(acts, n).history.published|
    ensures var ps := At(acts, n).history.published;
            var rates := ps[k].snapshot.rates;
            if k == 0 then rates == Rates(0.0, 0.0)
            else
              var a, b := ps[k - 1].sample, ps[k].sample;
              var seconds := (b.at - a.at) as real / 1_000_000_000.0;
              if b.at > a.at && b.rx >= a.rx && b.tx >= a.tx then
                && rates.rx * seconds == (8 * (b.rx - a.rx)) as real
                && rates.tx * seconds == (8 * (b.tx - a.tx)) as real
              else rates == Rates(0.0, 0.0)
  {
    HistoryAt(acts, n);
    hide At, RatesBetween, Transitions, ConnectedMap, Coherent;
    var ps := At(acts, n).history.published;
    assert Follows(ps, k);
    RatesBetweenExactly(SampleBefore(ps, k), ps[k].sample);
  }

  /** The reading behind those rates: the totals the snapshot shows, at the start of its refresh. */
  lemma {:induction false} SampleIsPublished(acts: Schedule, start: nat, publish: nat)
    requires IsRun(acts) && acts(publish).PublishState? && IsLast(acts, START, start, publish)
    ensures var ps, snap := At(acts, publish + 1).history.published, At(acts, publish + 1).store.snapshot;
            && ps != [] && ps[|ps| - 1].snapshot == snap
            && ps[|ps| - 1].sample == Sample(At(acts, start).clock, snap.rxBytes, snap.txBytes)
  {
    hide At, Published, RatesBetween, Records, ConnectedCount, Transitions, ConnectedMap, LocalSightings, Merge,
         ReadingFrom;
    var start', fetch, copy := BehindPublication(acts, publish);
    LastIsUnique(acts, START, start, start', publish);
    StepAt(acts, publish);
  }

  // ---- from the events to a subscriber ----

  /** A subscriber that joins at a settled moment, and through whose queue nothing is lost until the next, can
      follow the snapshots by the messages alone: applied to the flags of the first moment, those it has read and
      those waiting give the flag of every address listed throughout. */
  lemma {:induction false} SubscriberFollows(acts: Schedule, i: nat, j: nat, mac: string,
                                             ops: seq<Hub.Op<Emitted>>, joined: nat, id: nat)
    requires IsRun(acts) && i <= j && Settled(At(acts, i)) && Settled(At(acts, j))
    requires At(acts, i).history.published != []
    requires PresentSince(At(acts, j).history.published, |At(acts, i).history.published|, mac)
    requires joined <= |ops| && id in Hub.Run(ops[..joined])
    requires Hub.Run(ops[..joined])[id] == Hub.Subscriber(true, [], [])
    requires forall k | joined <= k < |ops| ::
               ops[k] != Hub.Unsubscribe(id) && (id in Hub.Run(ops[..k]) ==> |Hub.Run(ops[..k])[id].queue| < 16)
    requires At(acts, i).history.emitted + Hub.MessagesOf(ops[joined..]) == At(acts, j).history.emitted
    ensures id in Hub.Run(ops)
    ensures var s, t, sub := At(acts, i), At(acts, j), Hub.Run(ops)[id];
            var view := Apply(ConnectedMap(s.store.snapshot.devices), sub.received + sub.queue);
            && mac in view && mac in ConnectedMap(t.store.snapshot.devices)
            && view[mac] == ConnectedMap(t.store.snapshot.devices)[mac]
  {
    hide At, Apply, ConnectedMap, PresentSince, Settled, Hub.Run, Hub.MessagesOf;
    Hub.NothingIsLost(ops, joined, id);
    EventsReplaySnapshots(acts, i, j, mac);
    var s, t := At(acts, i), At(acts, j);
    assert t.history.emitted[|s.history.emitted|..] == Hub.MessagesOf(ops[joined..]);
  }

  // ---- the version check over a run ----

  /** The version cache is that of the run's calls, which take turns. */
  ghost predicate CallsInv(s: Sys) {
    var calls := s.history.calls;
    && s.cache == CacheAfter(calls) && InTurn(calls)
    && (calls != [] ==> calls[|calls| - 1].done <= if s.pc.Fetching? then s.pc.now else s.clock)
    && (s.pc.Fetching? ==> s.pc.now <= s.clock)
  }

  lemma {:induction false} TurnsSnoc(calls: seq<Call>, call: Call)
    requires InTurn(calls) && call.asked <= call.done && (calls != [] ==> calls[|calls| - 1].done <= call.asked)
    ensures InTurn(calls + [call])
  {
    var all, n := calls + [call], |calls|;
    forall i, j | 0 <= i < j < |all| ensures all[i].done <= all[j].asked {
      if j == n {
        assert i < n - 1 ==> calls[i].done <= calls[n - 1].asked <= calls[n - 1].done;
      } else {
        assert all[i] == calls[i] && all[j] == calls[j];
      }
    }
    forall i | 0 <= i < |all| ensures all[i].asked <= all[i].done {
      assert i < n ==> all[i] == calls[i];
    }
  }

  lemma {:induction false} CacheSnoc(calls: seq<Call>, call: Call)
    ensures CacheAfter(calls + [call]) == AfterCall(CacheAfter(calls), call)
  {
    hide AfterCall;
    assert (calls + [call])[..|calls|] == calls;
  }

  lemma {:induction false} CallsStep(s: Sys, a: Action)
    requires Enabled(s, a) && CallsInv(s)
    ensures CallsInv(Do(s, a))
  {
    hide PublishOn, Marked, Transitions, SampleOf, ConnectedMap, IsSighting, ValidAnswers, ReadingOf, Answer, AfterCall,
         InTurn, CacheAfter;
    if a.FetchAll? {
      var call := CallOf(a.answers, a.asked, a.done);
      TurnsSnoc(s.history.calls, call);
      CacheSnoc(s.history.calls, call);
    }
  }

  lemma {:induction false} CallsAt(acts: Schedule, n: nat)
    requires IsRun(acts)
    ensures CallsInv(At(acts, n))
  {
    hide Enabled, Do;
    if n == 0 {
      assert InTurn([]) && CacheAfter([]) == EMPTY_CACHE;
    } else {
      CallsAt(acts, n - 1);
      StepAt(acts, n - 1);
      CallsStep(At(acts, n - 1), acts(n - 1));
    }
  }

  /** The version check of a publication's fetch is the last of the calls made by then, and its snapshot shows the
      installed version asked about and the answer. */
  lemma {:induction false} CheckIsPublished(acts: Schedule, fetch: nat, publish: nat)
    requires IsRun(acts) && acts(publish).PublishState? && IsLast(acts, FETCH, fetch, publish)
    ensures var router, calls := At(acts, publish + 1).store.snapshot.router, At(acts, fetch + 1).history.calls;
            && calls != [] && acts(fetch).FetchAll?
            && calls[|calls| - 1] ==
                 Call(router.version, acts(fetch).asked, acts(fetch).answers.tags, acts(fetch).done)
            && router.latestVersion == AnswerAt(calls, |calls| - 1)
            && router.updateAvailable == UpdateAvailable(router.version, router.latestVersion)
  {
    hide At, PresenceOf, PresenceData, Published, RatesBetween, Records, ConnectedCount, CountersOf, Bytes,
         UpdateAvailable, AfterCall, Answer;
    var copied, now, prev := PublishedFrom(acts, publish, fetch);
    StepAt(acts, fetch);
    CallsAt(acts, fetch);
    var s, a := At(acts, fetch), acts(fetch);
    var before, calls := s.history.calls, At(acts, fetch + 1).history.calls;
    assert calls == before + [CallOf(a.answers, a.asked, a.done)];
    assert calls[..|before|] == before;
  }

  /** In every run, a snapshot announces an update exactly when the latest registry fetch that succeeded by then offered
      something strictly newer than the version it shows; and it shows the newest tag of that fetch, or nothing when its
      own version does not parse. */
  lemma {:induction false} UpdatesArePublished(acts: Schedule, fetch: nat, publish: nat)
    requires IsRun(acts) && acts(publish).PublishState? && IsLast(acts, FETCH, fetch, publish)
    ensures var router, calls := At(acts, publish + 1).store.snapshot.router, At(acts, fetch + 1).history.calls;
            var k := LatestFetch(calls, |calls|);
            && (router.updateAvailable <==> k >= 0 && OffersNewer(calls[k].answer.value, router.version))
            && (ParseSemver(router.version).None? ==> router.latestVersion == "")
            && (ParseSemver(router.version).Some? ==>
                  if k < 0 then router.latestVersion == ""
                  else FirstNewest(calls[k].answer.value, router.latestVersion))
  {
    hide At, UpdateAvailable, AnswerAt, LatestFetch, OffersNewer, ParseSemver, FirstNewest;
    CheckIsPublished(acts, fetch, publish);
    var calls := At(acts, fetch + 1).history.calls;
    var n := |calls| - 1;
    UpdateFollowsLatestFetch(calls, n);
    AnswerIsLatestOffer(calls, n);
    var k := LatestFetch(calls, n + 1);
    if k >= 0 {
      BestIsFirstNewest(calls[k].answer.value);
    }
  }

  /** In every run, the registry is fetched from successfully at most once an hour. */
  lemma {:induction false} RegistryIsSpared(acts: Schedule, n: nat, i: nat, j: nat)
    requires IsRun(acts) && i < j
    requires WasFetched(At(acts, n).history.calls, i) && WasFetched(At(acts, n).history.calls, j)
    ensures At(acts, n).history.calls[j].asked - At(acts, n).history.calls[i].done >= 3600 * 1_000_000_000
  {
    CallsAt(acts, n);
    hide At;
    FetchesAnHourApart(At(acts, n).history.calls, i, j);
  }
}
