/** A concrete run in which a published time goes back: a handler reads the clock, is overtaken by a whole refresh,
    and then overwrites the newer sighting (code/events.go, code/state.go). */
module LateMark {
  import opened Common
  import opened Text
  import opened Presence
  import opened Devices
  import opened Traffic
  import opened Store
  import opened Version
  import opened Fetch
  import opened Protocol

  const PHONE := "aa:bb:cc:dd:ee:01"
  const FIVE: nat := 5 * SECOND

  function Row(name: string, mac: string): DeviceEntry {
    DeviceEntry(name, mac, "", "", [], [], [])
  }

  /** The topology knows the phone, online or not. */
  function PhoneNodes(online: bool): seq<TopoNode> {
    [TopoNode("device", PHONE, "wifi", "wlan0", None, online)]
  }

  /** One device in the table. */
  function PhoneAnswers(online: bool): Answers {
    Answers(map[PHONE := Row("phone", PHONE)], [PHONE],
            Some(PhoneNodes(online)), [], map[], [], [], [], "", "", "", None)
  }

  lemma {:induction false} PhoneIsMac()
    ensures NormalizeMac(PHONE) == PHONE && MacShape(PHONE) && IsMac(PHONE)
  {
    forall i | 0 <= i < 17 ensures if i % 3 == 2 then PHONE[i] == ':' else HexDigit(PHONE[i]) {
    }
    NormalizeFixesShape(PHONE);
  }

  /** The phone is present exactly when its node is online. */
  lemma {:induction false} PhonePresence(online: bool, p: Presence)
    requires p == Topology(LastWins(TopoPairs(PhoneNodes(online))))
    ensures IsPresent(p, PHONE) <==> online
  {
    PhoneIsMac();
    hide MacShape, NormalizeMac;
    var nodes := PhoneNodes(online);
    assert LastNodeFor(nodes, PHONE, 0);
    TopologyIsLastNode(nodes, PHONE);
  }

  /** Only the phone is published, seen now if it is online and otherwise as the copy says. */
  lemma {:induction false} PhonePublished(online: bool, latest: string, copied: map<string, nat>,
                                          now: nat)
    returns (d: TrackedDevice)
    ensures Published(ReadingOf(PhoneAnswers(online), latest).g, copied, now) == [d]
    ensures d.mac == PHONE && d.connected == online
    ensures d.lastSeen == if online then Unix(now) else Get(copied, PHONE)
    ensures Get(LocalSightings(ReadingOf(PhoneAnswers(online), latest), copied, now), PHONE) == d.lastSeen
  {
    PhoneIsMac();
    hide MacShape, NormalizeMac, HasWan, LinkOf, TopoPairs, LastWins, UpdateAvailable, CountersOf, Bytes;
    var r := ReadingOf(PhoneAnswers(online), latest);
    PhonePresence(online, r.g.presence);
    assert IsTracked(r.g, PHONE);
    d := Record(r.g, copied, now, PHONE);
    assert [PHONE][..0] == [];
    assert Records(r.g, copied, now, [PHONE]) == [d];
    assert Sort([d]) == [d] by {
      assert [d][1..] == [];
    }
    LocalSightingsLookup(r, copied, now, PHONE);
    assert d in Published(r.g, copied, now);
  }

  /** The handler stamps at 0 s; a refresh sees the phone online at 5 s; the handler then writes; the next
      refresh finds the phone offline. */
  ghost function LateSchedule(n: nat): Action {
    match n
    case 0 => EventArrives(1, "dhcp:request", PHONE)
    case 1 => Advance(FIVE)
    case 2 => StartRefresh
    case 3 => FetchAll(PhoneAnswers(true), FIVE, FIVE)
    case 4 => CopyState
    case 5 => PublishState
    case 6 => EndRefresh
    case 7 => Mark(1)
    case 8 => TickerFires
    case 9 => StartRefresh
    case 10 => FetchAll(PhoneAnswers(false), FIVE, FIVE)
    case 11 => CopyState
    case 12 => PublishState
    case _ => Advance(FIVE)
  }

  /** Publishing the phone over sightings copied from the store itself. */
  lemma {:induction false} PhonePublishes(s: State, online: bool, latest: string, now: nat) returns (d: TrackedDevice)
    ensures ValidAnswers(PhoneAnswers(online))
    ensures var t := PublishOn(s, ReadingOf(PhoneAnswers(online), latest), s.lastSeen, now);
            && t.snapshot.devices == [d] && d.mac == PHONE && d.connected == online
            && d.lastSeen == (if online then Unix(now) else Get(s.lastSeen, PHONE))
            && Get(t.lastSeen, PHONE) == Max(Get(s.lastSeen, PHONE), d.lastSeen)
            && (s.snapshot.devices == [] ==> Transitions([d], ConnectedMap(s.snapshot.devices)) == [])
  {
    d := PhonePublished(online, latest, s.lastSeen, now);
    hide Published, LocalSightings, RatesBetween, Records, ReadingOf;
    MergeIsPointwiseMax(s.lastSeen, LocalSightings(ReadingOf(PhoneAnswers(online), latest), s.lastSeen, now));
    assert [d][..0] == [];
  }

  /** The newest version known to the refresh starting at step `n`. */
  ghost function LatestAt(acts: Schedule, n: nat, answers: Answers): string {
    Answer(At(acts, n).cache, CallOf(answers, At(acts, n).clock, At(acts, n).clock))
  }

  /** A whole refresh of the phone, in any schedule. */
  lemma {:induction false} PhoneRefresh(acts: Schedule, n: nat, online: bool) returns (d: TrackedDevice)
    requires At(acts, n).pc.Starting? && acts(n) == StartRefresh
    requires acts(n + 1) == FetchAll(PhoneAnswers(online), At(acts, n).clock, At(acts, n).clock)
    requires acts(n + 2) == CopyState && acts(n + 3) == PublishState
    ensures EnabledAt(acts, n) && EnabledAt(acts, n + 1) && EnabledAt(acts, n + 2) && EnabledAt(acts, n + 3)
    ensures d.mac == PHONE && d.connected == online
    ensures var s, t := At(acts, n), At(acts, n + 4);
            && t.clock == s.clock && t.handlers == s.handlers && t.store.snapshot.devices == [d]
            && d.lastSeen == (if online then Unix(s.clock) else Get(s.store.lastSeen, PHONE))
            && Get(t.store.lastSeen, PHONE) == Max(Get(s.store.lastSeen, PHONE), d.lastSeen)
            && t.pc.Broadcasting? && (s.store.snapshot.devices == [] ==> t.pc.queue == [])
  {
    hide At, Do, Enabled, PublishOn, PhoneAnswers, Transitions, ConnectedMap, ReadingOf, CallOf, Answer, AfterCall,
         ValidAnswers;
    d := PhonePublishes(At(acts, n).store, online, LatestAt(acts, n, PhoneAnswers(online)), At(acts, n).clock);
    UndisturbedRefresh(acts, n, PhoneAnswers(online));
  }

  /** The handler reads the clock at 0 s; then five seconds pass. */
  lemma {:induction false} HandlerStamps()
    ensures EnabledAt(LateSchedule, 0) && EnabledAt(LateSchedule, 1)
    ensures At(LateSchedule, 2) == INIT.(clock := FIVE, handlers := map[1 := Stamped(PHONE, 0)])
  {
    PhoneIsMac();
    assert At(LateSchedule, 0) == INIT;
    assert IsSighting("dhcp:request", PHONE);
    hide At, IsSighting;
    assert EnabledAt(LateSchedule, 0);
    Take(LateSchedule, 0);
    assert EnabledAt(LateSchedule, 1);
    Take(LateSchedule, 1);
  }

  /** The first refresh, ending with the phone published as seen at 5 s. */
  lemma {:induction false} FirstRefresh() returns (d: TrackedDevice)
    ensures EnabledAt(LateSchedule, 2) && EnabledAt(LateSchedule, 3) && EnabledAt(LateSchedule, 4)
    ensures EnabledAt(LateSchedule, 5) && EnabledAt(LateSchedule, 6)
    ensures var s := At(LateSchedule, 7);
            && s.clock == FIVE && s.pc == Selecting && s.handlers == map[1 := Stamped(PHONE, 0)]
            && Get(s.store.lastSeen, PHONE) == 5
            && s.store.snapshot.devices == [d] && d.mac == PHONE && d.lastSeen == 5
  {
    hide At, MacShape, NormalizeMac, PublishOn, PhoneAnswers, Transitions, ConnectedMap, IsSighting, ReadingOf, CallOf,
         Answer, AfterCall, ValidAnswers;
    HandlerStamps();
    d := PhoneRefresh(LateSchedule, 2, true);
    assert EnabledAt(LateSchedule, 6);
    Take(LateSchedule, 6);
  }

  /** The late write puts 0 s back over 5 s. */
  lemma {:induction false} LateWrite()
    ensures EnabledAt(LateSchedule, 7) && EnabledAt(LateSchedule, 8)
    ensures OvertakenAt(LateSchedule, 7, PHONE)
    ensures var s := At(LateSchedule, 9);
            s.clock == FIVE && s.pc == Starting(false) && Get(s.store.lastSeen, PHONE) == 0
  {
    PhoneIsMac();
    hide At, MacShape, NormalizeMac, PublishOn, Transitions, ConnectedMap, IsSighting, ValidAnswers, PhoneAnswers,
         ReadingOf, CallOf, Answer, AfterCall;
    var d := FirstRefresh();
    assert EnabledAt(LateSchedule, 7);
    Take(LateSchedule, 7);
    assert EnabledAt(LateSchedule, 8);
    Take(LateSchedule, 8);
  }

  /** The second refresh publishes the phone as not seen since 0 s. */
  lemma {:induction false} SecondRefresh() returns (d: TrackedDevice)
    ensures EnabledAt(LateSchedule, 9) && EnabledAt(LateSchedule, 10)
    ensures EnabledAt(LateSchedule, 11) && EnabledAt(LateSchedule, 12)
    ensures var s := At(LateSchedule, 13);
            s.clock == FIVE && s.store.snapshot.devices == [d] && d.mac == PHONE && d.lastSeen == 0
  {
    hide At, Do, Enabled, PhoneAnswers;
    LateWrite();
    d := PhoneRefresh(LateSchedule, 9, false);
  }

  lemma {:induction false} ThenIdle(n: nat)
    requires n >= 13
    ensures At(LateSchedule, n).clock == FIVE && EnabledAt(LateSchedule, n)
  {
    if n == 13 {
      var d := SecondRefresh();
    } else {
      ThenIdle(n - 1);
      Take(LateSchedule, n - 1);
    }
  }

  /** The published time does go back: this is a run of the system in which the phone's handler is overtaken, and
      the phone's published time falls from 5 s to 0 s. */
  lemma {:induction false} LateWriteMovesPublishedTimeBack() returns (d: TrackedDevice, e: TrackedDevice)
    ensures IsRun(LateSchedule) && !TimelyFor(LateSchedule, PHONE)
    ensures d in At(LateSchedule, 7).store.snapshot.devices && e in At(LateSchedule, 13).store.snapshot.devices
    ensures d.mac == e.mac && e.lastSeen < d.lastSeen
  {
    hide At, Enabled, Do, LateSchedule, OvertakenAt, Get;
    HandlerStamps();
    d := FirstRefresh();
    LateWrite();
    e := SecondRefresh();
    forall n: nat ensures EnabledAt(LateSchedule, n) {
      if n >= 13 {
        ThenIdle(n);
      }
    }
    assert IsRun(LateSchedule);
    assert OvertakenAt(LateSchedule, 7, PHONE);
  }
}
