/** What two rows of one address do (code/refresh.go): a run in which one change is announced twice, and a table for
    which two device lists could be published. */
module Twins {
  import opened Common
  import opened Text
  import opened Presence
  import opened Devices
  import opened Traffic
  import opened Store
  import opened Version
  import opened Fetch
  import opened Orders
  import opened Protocol
  import opened Replay
  import opened LateMark

  const OLD := "old phone"
  const NEW := "phone"
  const BOTH := [OLD, PHONE]

  /** The phone is in the table twice: under its address, and under a name with its address filled in. */
  function TwinAnswers(online: bool): Answers {
    PhoneAnswers(online).(devices := map[OLD := Row(OLD, PHONE), PHONE := Row(NEW, "")], order := BOTH)
  }

  lemma {:induction false} BothTracked(online: bool, latest: string)
    ensures ValidAnswers(TwinAnswers(online))
    ensures var g := ReadingOf(TwinAnswers(online), latest).g;
            && (IsTracked(g, OLD) && DeviceMac(OLD, g.devices[OLD]) == PHONE)
            && (IsTracked(g, PHONE) && DeviceMac(PHONE, g.devices[PHONE]) == PHONE)
            && (IsPresent(g.presence, PHONE) <==> online)
  {
    PhoneIsMac();
    hide MacShape;
    assert OLD[0] != PHONE[0];
    assert NormalizeMac("") == "";
    hide NormalizeMac, LinkOf, TopoPairs, LastWins;
    PhonePresence(online, ReadingOf(TwinAnswers(online), latest).g.presence);
  }

  /** Both records are published, alike in everything but their names. */
  lemma {:induction false} TwinsPublished(online: bool, latest: string, copied: map<string, nat>, now: nat)
    returns (a: TrackedDevice, b: TrackedDevice)
    ensures var g := ReadingOf(TwinAnswers(online), latest).g;
            Records(g, copied, now, g.order) == Published(g, copied, now) == [a, b]
    ensures a.mac == b.mac == PHONE && a.connected == b.connected == online && a.name == OLD && b.name == NEW
    ensures a.ip == b.ip == ""
  {
    hide MacShape, NormalizeMac, LinkOf, HasWan, UpdateAvailable, CountersOf, Bytes, TopoPairs, LastWins, IsMac;
    var g := ReadingOf(TwinAnswers(online), latest).g;
    BothTracked(online, latest);
    a, b := Record(g, copied, now, OLD), Record(g, copied, now, PHONE);
    LeqTotal(PHONE, PHONE);
    hide Leq;
    TwoRecords(g, copied, now);
    assert [a, b][1..] == [b] && [b][1..] == [];
    assert Insert(b, []) == [b];
    assert Sort([]) == [];
    assert Sort([b]) == [b];
    assert Sort([a, b]) == Insert(a, [b]) == [a, b];
  }

  lemma {:induction false} TwoRecords(g: Gathered, copied: map<string, nat>, now: nat)
    requires IsTracked(g, OLD) && IsTracked(g, PHONE)
    ensures Records(g, copied, now, BOTH) == [Record(g, copied, now, OLD), Record(g, copied, now, PHONE)]
  {
    hide IsTracked, Record;
    assert BOTH[..1] == [OLD] && [OLD][..0] == [];
    assert Records(g, copied, now, [OLD]) == [Record(g, copied, now, OLD)];
  }

  /** Such a table leaves the published list to the order of a map, or to how the sort treats ties. */
  lemma {:induction false} TwinListsDiffer(online: bool, latest: string, copied: map<string, nat>, now: nat)
    returns (one: seq<TrackedDevice>, other: seq<TrackedDevice>)
    ensures var records := RecordsOf(TwinAnswers(online), latest, copied, now);
            IsSortOf(one, records) && IsSortOf(other, records) && one != other
    ensures ValidAnswers(TwinAnswers(online)) && !OrderFree(TwinAnswers(online), latest, copied, now)
  {
    var answers := TwinAnswers(online);
    var a, b := TwinsPublished(online, latest, copied, now);
    BothTracked(online, latest);
    assert answers.order == ReadingOf(answers, latest).g.order;
    hide TwinAnswers, ReadingOf, Records, Published, IsSortOf, ValidAnswers;
    var records := RecordsOf(answers, latest, copied, now);
    assert a in records && b in records;
    one, other := TwoSorts(records, a, b);
    hide *;
    TwoListsShow(answers, latest, copied, now, one, other);
  }

  lemma {:induction false} TwoListsShow(a: Answers, latest: string, copied: map<string, nat>, now: nat,
                     x: seq<TrackedDevice>, y: seq<TrackedDevice>)
    requires ValidAnswers(a) && x != y
    requires IsSortOf(x, RecordsOf(a, latest, copied, now)) && IsSortOf(y, RecordsOf(a, latest, copied, now))
    ensures !OrderFree(a, latest, copied, now)
  {
    hide RecordsOf, IsSortOf, ValidAnswers;
    assert Reordered(a, a);
  }

  // ---- the run ----

  /** A refresh that finds the phone online, then one that finds it offline, and what that announces. */
  ghost function TwinSchedule(n: nat): Action {
    match n
    case 0 => StartRefresh
    case 1 => FetchAll(TwinAnswers(true), 0, 0)
    case 2 => CopyState
    case 3 => PublishState
    case 4 => EndRefresh
    case 5 => TickerFires
    case 6 => StartRefresh
    case 7 => FetchAll(TwinAnswers(false), 0, 0)
    case 8 => CopyState
    case 9 => PublishState
    case 10 => Emit
    case 11 => Emit
    case _ => Advance(0)
  }

  function Gone(name: string): Event {
    Event(false, PHONE, name, "")
  }

  lemma {:induction false} TwinFlags(a: TrackedDevice, b: TrackedDevice)
    requires a.mac == b.mac == PHONE && a.connected == b.connected
    ensures ConnectedMap([a, b]) == map[PHONE := a.connected]
  {
    var pairs := ConnectedPairs([a, b]);
    assert pairs == [] + [(PHONE, a.connected)] + [(PHONE, a.connected)];
    LastWinsSnoc([], (PHONE, a.connected));
    LastWinsSnoc([(PHONE, a.connected)], (PHONE, a.connected));
  }

  lemma {:induction false} TwinTransitions(a: TrackedDevice, b: TrackedDevice, prev: map<string, bool>)
    requires a.mac == b.mac == PHONE && a.connected == b.connected
    requires a.name == OLD && b.name == NEW && a.ip == b.ip == ""
    ensures PHONE !in prev ==> Transitions([a, b], prev) == []
    ensures PHONE in prev && prev[PHONE] && !a.connected ==> Transitions([a, b], prev) == [Gone(OLD), Gone(NEW)]
  {
    assert [a, b][..1] == [a] && [a][..0] == [];
    assert Transitions([], prev) == [];
  }

  /** The phone is listed twice, online or not. */
  ghost predicate ListsTwins(devices: seq<TrackedDevice>, online: bool) {
    && |devices| == 2 && devices[0].name == OLD && devices[1].name == NEW
    && forall d | d in devices :: d.mac == PHONE && d.ip == "" && d.connected == online
  }

  lemma {:induction false} TwinNews(devices: seq<TrackedDevice>, online: bool, prev: map<string, bool>)
    requires ListsTwins(devices, online)
    ensures ConnectedMap(devices) == map[PHONE := online]
    ensures PHONE !in prev ==> Transitions(devices, prev) == []
    ensures PHONE in prev && prev[PHONE] && !online ==> Transitions(devices, prev) == [Gone(OLD), Gone(NEW)]
  {
    var a, b := devices[0], devices[1];
    assert devices == [a, b] && a in devices && b in devices;
    TwinFlags(a, b);
    TwinTransitions(a, b, prev);
  }

  /** `t` has published the table, once more than `s`, and has to send what that announces. */
  ghost predicate PublishedTwins(s: Sys, t: Sys, online: bool) {
    var ps, qs := s.history.published, t.history.published;
    && t.clock == s.clock && ListsTwins(t.store.snapshot.devices, online)
    && t.pc == Broadcasting(Transitions(t.store.snapshot.devices, ConnectedMap(s.store.snapshot.devices)))
    && t.history.emitted == s.history.emitted
    && |qs| == |ps| + 1 && qs[..|ps|] == ps && qs[|ps|].snapshot == t.store.snapshot
  }

  lemma {:induction false} TwinPublishes(s: State, online: bool, latest: string, now: nat)
    ensures ListsTwins(PublishOn(s, ReadingOf(TwinAnswers(online), latest), s.lastSeen, now).snapshot.devices, online)
  {
    var a, b := TwinsPublished(online, latest, s.lastSeen, now);
    hide ReadingOf, TwinAnswers, LocalSightings, RatesBetween, Merge, Records, Published;
  }

  lemma {:induction false} TwinRefresh(acts: Schedule, n: nat, online: bool)
    requires At(acts, n).clock == 0 && At(acts, n).pc.Starting?
    requires acts(n) == StartRefresh && acts(n + 1) == FetchAll(TwinAnswers(online), 0, 0)
    requires acts(n + 2) == CopyState && acts(n + 3) == PublishState
    ensures EnabledAt(acts, n) && EnabledAt(acts, n + 1) && EnabledAt(acts, n + 2) && EnabledAt(acts, n + 3)
    ensures PublishedTwins(At(acts, n), At(acts, n + 4), online)
  {
    hide At, Do, Enabled, ReadingOf, CallOf, Answer, AfterCall, ValidAnswers, TwinAnswers, PublishOn, ListsTwins,
         Transitions, ConnectedMap;
    var latest := LatestAt(acts, n, TwinAnswers(online));
    BothTracked(online, latest);
    TwinPublishes(At(acts, n).store, online, latest, 0);
    UndisturbedRefresh(acts, n, TwinAnswers(online));
  }

  lemma {:induction false} RunsBegin(acts: Schedule)
    ensures At(acts, 0) == INIT
  {
  }

  /** The table has been published once, and nothing announced. */
  ghost predicate OnceListed(s: Sys) {
    var ps := s.history.published;
    && s.clock == 0 && Settled(s) && s.history.emitted == []
    && |ps| == 1 && ps[0].snapshot == s.store.snapshot && ListsTwins(s.store.snapshot.devices, true)
  }

  /** Then once more, and one disconnection has been announced twice. */
  ghost predicate TwiceListed(s: Sys) {
    var ps := s.history.published;
    && s.clock == 0 && Settled(s) && s.history.emitted == [Emitted(2, Gone(OLD)), Emitted(2, Gone(NEW))]
    && |ps| == 2 && ListsTwins(ps[0].snapshot.devices, true) && ListsTwins(ps[1].snapshot.devices, false)
  }

  lemma {:induction false} FirstHalf()
    ensures forall n: nat | n < 6 :: EnabledAt(TwinSchedule, n)
    ensures OnceListed(At(TwinSchedule, 5)) && OnceListed(At(TwinSchedule, 6)) && At(TwinSchedule, 6).pc.Starting?
  {
    hide At, TwinAnswers, PhoneAnswers, ListsTwins, PublishOn, ReadingOf, CallOf, Answer, AfterCall, ValidAnswers,
         IsSighting, Marked;
    RunsBegin(TwinSchedule);
    TwinRefresh(TwinSchedule, 0, true);
    assert PHONE !in ConnectedMap([]);
    hide Transitions, ConnectedMap;
    TwinNews(At(TwinSchedule, 4).store.snapshot.devices, true, ConnectedMap([]));
    assert EnabledAt(TwinSchedule, 4);
    Take(TwinSchedule, 4);
    assert EnabledAt(TwinSchedule, 5);
    Take(TwinSchedule, 5);
  }

  /** The state in between, with the two announcements still to send. */
  ghost predicate AboutToSay(s: Sys) {
    var ps := s.history.published;
    && s.clock == 0 && s.history.emitted == [] && s.pc == Broadcasting([Gone(OLD), Gone(NEW)])
    && |ps| == 2 && ListsTwins(ps[0].snapshot.devices, true) && ListsTwins(ps[1].snapshot.devices, false)
  }

  lemma {:induction false} SecondRefresh(s: Sys, t: Sys)
    requires OnceListed(s) && PublishedTwins(s, t, false)
    ensures AboutToSay(t)
  {
    hide ListsTwins, Transitions, ConnectedMap;
    TwinNews(s.store.snapshot.devices, true, map[]);
    TwinNews(t.store.snapshot.devices, false, map[PHONE := true]);
    assert t.history.published[0] == s.history.published[0];
  }

  lemma {:induction false} SecondHalf()
    ensures forall n: nat | 6 <= n < 12 :: EnabledAt(TwinSchedule, n)
    ensures TwiceListed(At(TwinSchedule, 12))
  {
    hide At, TwinAnswers, PhoneAnswers, ListsTwins, PublishOn, ReadingOf, CallOf, Answer, AfterCall, ValidAnswers,
         IsSighting, Marked, Transitions, ConnectedMap, OnceListed, PublishedTwins;
    FirstHalf();
    AtSix();
    SecondRefresh(At(TwinSchedule, 6), At(TwinSchedule, 10));
    assert EnabledAt(TwinSchedule, 10);
    Take(TwinSchedule, 10);
    assert EnabledAt(TwinSchedule, 11);
    Take(TwinSchedule, 11);
  }

  lemma {:induction false} AtSix()
    ensures EnabledAt(TwinSchedule, 6) && EnabledAt(TwinSchedule, 7) && EnabledAt(TwinSchedule, 8)
    ensures EnabledAt(TwinSchedule, 9) && PublishedTwins(At(TwinSchedule, 6), At(TwinSchedule, 10), false)
  {
    hide At, TwinAnswers, Enabled, Do, PublishedTwins;
    FirstHalf();
    TwinRefresh(TwinSchedule, 6, false);
  }

  lemma {:induction false} ThenStill(n: nat)
    requires n >= 12
    ensures At(TwinSchedule, n).clock == 0 && EnabledAt(TwinSchedule, n)
  {
    hide At, TwinAnswers, PhoneAnswers, PublishOn, ReadingOf, ValidAnswers;
    if n == 12 {
      SecondHalf();
    } else {
      ThenStill(n - 1);
      Take(TwinSchedule, n - 1);
    }
  }

  /** The events sent about the phone between two moments. */
  ghost function SentAbout(s: Sys, t: Sys): seq<bool>
    requires |s.history.emitted| <= |t.history.emitted|
  {
    ForMac(t.history.emitted[|s.history.emitted|..], PHONE)
  }

  lemma {:induction false} TwinsSay(s: Sys, t: Sys)
    requires OnceListed(s) && TwiceListed(t)
    ensures |s.history.emitted| <= |t.history.emitted| && SentAbout(s, t) == [false, false]
    ensures !Alternates(FlagOf(s.store.snapshot.devices, PHONE), SentAbout(s, t))
    ensures s.history.published != [] && PresentSince(t.history.published, |s.history.published|, PHONE)
  {
    TwinNews(s.store.snapshot.devices, true, map[]);
    hide ConnectedMap;
    BothListed(t.history.published[0].snapshot.devices, true);
    BothListed(t.history.published[1].snapshot.devices, false);
    SaidTwice(Emitted(2, Gone(OLD)), Emitted(2, Gone(NEW)));
    var sent := t.history.emitted;
    assert sent[0..] == sent;
  }

  /** Alternation does fail: this is a run of the system whose second refresh announces one disconnection of the phone
      twice, once for each of its records. */
  lemma {:induction false} TwinsAnnounceTwice() returns (i: nat, j: nat)
    ensures IsRun(TwinSchedule) && i <= j && Settled(At(TwinSchedule, i)) && Settled(At(TwinSchedule, j))
    ensures At(TwinSchedule, i).history.published != []
    ensures PresentSince(At(TwinSchedule, j).history.published, |At(TwinSchedule, i).history.published|, PHONE)
    ensures |At(TwinSchedule, i).history.emitted| <= |At(TwinSchedule, j).history.emitted|
    ensures var s, t := At(TwinSchedule, i), At(TwinSchedule, j);
            SentAbout(s, t) == [false, false] && !Alternates(FlagOf(s.store.snapshot.devices, PHONE), SentAbout(s, t))
  {
    hide At, Enabled, Do, TwinSchedule;
    i, j := 5, 12;
    FirstHalf();
    SecondHalf();
    forall n: nat ensures EnabledAt(TwinSchedule, n) {
      if n >= 12 {
        ThenStill(n);
      }
    }
    TwinsSay(At(TwinSchedule, 5), At(TwinSchedule, 12));
  }

  lemma {:induction false} BothListed(devices: seq<TrackedDevice>, online: bool)
    requires ListsTwins(devices, online)
    ensures Has(devices, PHONE)
  {
    assert devices[0] in devices;
  }

  lemma {:induction false} SaidTwice(a: Emitted, b: Emitted)
    requires a.event.mac == b.event.mac == PHONE && !a.event.connected && !b.event.connected
    ensures ForMac([a, b], PHONE) == [false, false] && !Alternates(true, [false, false])
  {
    assert [a, b][..1] == [a] && [a][..0] == [];
    assert ForMac([a], PHONE) == [false];
    assert [false, false][..1] == [false];
  }
}
