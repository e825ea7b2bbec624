/** The plugin as a concurrent system: the poll loop refreshing and publishing, any number of bus handlers
    recording sightings and asking for refreshes, and a clock (code/state.go, code/events.go,
    code/refresh.go). A step is what happens between two points where another goroutine may run.
    Lemmas about steps and runs switch automatic induction off: none needs it, and it is costly over so many numbers. */
module Protocol {
  import opened Common
  import opened Text
  import opened Presence
  import opened Devices
  import opened Traffic
  import opened Store
  import opened Version
  import opened Fetch

  /** A bus handler in progress: it has read the clock and will write the sighting, or has only the
      refresh request left. */
  datatype Handler =
    | Stamped(mac: string, when: nat)
    | Requesting

  /** Where the poll loop stands. */
  datatype Pc =
    | Starting(eventDriven: bool)  // about to call refreshState
    | Fetching(now: nat)           // clock read, requests under way
    | Fetched(now: nat, reading: Reading)
    | Copied(now: nat, reading: Reading, copied: map<string, nat>, prev: map<string, bool>)
    | Broadcasting(queue: seq<Event>)
    | Selecting                    // waiting for the ticker or a token
    | Woken                        // took a token
    | Sleeping(until: nat)
    | Slept                        // about to drain the channel

  /** The start of an event-driven refresh, and the end of the refresh before it. */
  datatype Start = Start(previousEnd: nat, at: nat)

  /** A snapshot swap, the traffic reading behind it, and the transitions it announces. */
  datatype Publication = Publication(snapshot: Snapshot, sample: Sample, events: seq<Event>)

  /** An event sent to the hub, with the number of the publication that announced it. */
  datatype Emitted = Emitted(number: nat, event: Event)

  /** What has happened so far; nothing in the system reads it. */
  datatype History = History(
    published: seq<Publication>, emitted: seq<Emitted>, eventStarts: seq<Start>,
    accepted: nat, collapsed: nat, unserved: nat, calls: seq<Call>)

  datatype Sys = Sys(
    clock: nat, store: State, cache: Cache, token: bool, handlers: map<nat, Handler>, pc: Pc, last: nat,
    history: History)

  const INIT := Sys(0, EMPTY_STATE, EMPTY_CACHE, false, map[], Starting(false), 0, History([], [], [], 0, 0, 0, []))

  datatype Action =
    | Advance(clock: nat)
    | EventArrives(id: nat, topic: string, mac: string)
    | Mark(id: nat)
    | Request(id: nat)
    | StartRefresh
    | DevicesFail
    | FetchAll(answers: Answers, asked: nat, done: nat) // with the times of the version check
    | CopyState
    | PublishState
    | Emit
    | EndRefresh
    | TickerFires
    | TakeToken
    | CheckFloor
    | WakeUp
    | DrainToken

  ghost predicate Enabled(s: Sys, a: Action) {
    match a
    case Advance(clock) => s.clock <= clock
    case EventArrives(id, _, _) => id !in s.handlers
    case Mark(id) => id in s.handlers && s.handlers[id].Stamped?
    case Request(id) => id in s.handlers && s.handlers[id].Requesting?
    case StartRefresh => s.pc.Starting?
    case DevicesFail => s.pc.Fetching?
    case FetchAll(answers, asked, done) =>
      s.pc.Fetching? && ValidAnswers(answers) && s.pc.now <= asked <= done <= s.clock
    case CopyState => s.pc.Fetched?
    case PublishState => s.pc.Copied?
    case Emit => s.pc.Broadcasting? && s.pc.queue != []
    case EndRefresh => s.pc.Broadcasting? && s.pc.queue == []
    case TickerFires => s.pc.Selecting?
    case TakeToken => s.pc.Selecting? && s.token
    case CheckFloor => s.pc.Woken?
    case WakeUp => s.pc.Sleeping? && s.pc.until <= s.clock
    case DrainToken => s.pc.Slept?
  }

  ghost function Do(s: Sys, a: Action): Sys
    requires Enabled(s, a)
  {
    match a
    case Advance(clock) => s.(clock := clock)
    case EventArrives(id, topic, mac) =>
      s.(handlers := s.handlers[id := if IsSighting(topic, mac) then Stamped(mac, s.clock) else Requesting])
    case Mark(id) =>
      s.(store := Marked(s.store, s.handlers[id].mac, s.handlers[id].when),
         handlers := s.handlers[id := Requesting])
    case Request(id) =>
      s.(token := true, handlers := s.handlers - {id},
         history := s.history.(accepted := s.history.accepted + (if s.token then 0 else 1),
                               unserved := s.history.unserved + 1))
    case StartRefresh =>
      s.(pc := Fetching(s.clock),
         history := s.history.(
           unserved := 0,
           eventStarts := s.history.eventStarts + (if s.pc.eventDriven then [Start(s.last, s.clock)] else [])))
    case DevicesFail => s.(pc := Broadcasting([]))
    case FetchAll(answers, asked, done) =>
      var call := CallOf(answers, asked, done);
      s.(pc := Pc.Fetched(s.pc.now, ReadingOf(answers, Answer(s.cache, call))),
         cache := AfterCall(s.cache, call),
         history := s.history.(calls := s.history.calls + [call]))
    case CopyState =>
      s.(pc := Copied(s.pc.now, s.pc.reading, s.store.lastSeen, ConnectedMap(s.store.snapshot.devices)))
    case PublishState =>
      var t := PublishOn(s.store, s.pc.reading, s.pc.copied, s.pc.now);
      var events := Transitions(t.snapshot.devices, s.pc.prev);
      s.(store := t, pc := Broadcasting(events),
         history := s.history.(
           published := s.history.published + [Publication(t.snapshot, SampleOf(s.pc.reading, s.pc.now), events)]))
    case Emit =>
      s.(pc := Broadcasting(s.pc.queue[1..]),
         history := s.history.(
           emitted := s.history.emitted + [Emitted(|s.history.published|, s.pc.queue[0])]))
    case EndRefresh => s.(pc := Selecting, last := s.clock)
    case TickerFires => s.(pc := Starting(false))
    case TakeToken => s.(pc := Woken, token := false)
    case CheckFloor =>
      if s.clock - s.last < FLOOR then s.(pc := Sleeping(s.clock + (FLOOR - (s.clock - s.last))))
      else s.(pc := Starting(true))
    case WakeUp => s.(pc := Slept)
    case DrainToken =>
      s.(pc := Starting(true), token := false,
         history := s.history.(collapsed := s.history.collapsed + (if s.token then 1 else 0)))
  }

  // ---- runs ----

  /** An infinite run is given by its actions; advancing the clock to where it is changes nothing, so
      every finite run is the beginning of one. */
  type Schedule = nat -> Action

  ghost function At(acts: Schedule, n: nat): Sys {
    if n == 0 then INIT
    else
      var s := At(acts, n - 1);
      if Enabled(s, acts(n - 1)) then Do(s, acts(n - 1)) else s
  }

  ghost predicate EnabledAt(acts: Schedule, n: nat) {
    Enabled(At(acts, n), acts(n))
  }

  ghost predicate IsRun(acts: Schedule) {
    forall n: nat :: EnabledAt(acts, n)
  }

  lemma {:induction false} StepAt(acts: Schedule, n: nat)
    requires IsRun(acts)
    ensures Enabled(At(acts, n), acts(n)) && At(acts, n + 1) == Do(At(acts, n), acts(n))
  {
    assert EnabledAt(acts, n);
  }

  lemma {:induction false} Take(acts: Schedule, n: nat)
    requires EnabledAt(acts, n)
    ensures At(acts, n + 1) == Do(At(acts, n), acts(n))
  {
  }

  /** `t` is `s` after a whole refresh at one instant, with its transitions still to send. */
  ghost predicate RefreshedTo(s: Sys, t: Sys, answers: Answers) {
    var call := CallOf(answers, s.clock, s.clock);
    && t.store == PublishOn(s.store, ReadingOf(answers, Answer(s.cache, call)), s.store.lastSeen, s.clock)
    && t.cache == AfterCall(s.cache, call)
    && t.pc == Broadcasting(Transitions(t.store.snapshot.devices, ConnectedMap(s.store.snapshot.devices)))
    && t.clock == s.clock && t.handlers == s.handlers && t.token == s.token && t.last == s.last
    && t.history.emitted == s.history.emitted
    && t.history.published ==
         s.history.published + [Publication(t.store.snapshot, t.store.prev.value, t.pc.queue)]
  }

  /** A refresh no handler interrupts does to the store what the sequential `Refresh.RefreshState` does,
      and is left with the same transitions to send. */
  lemma {:induction false} UndisturbedRefresh(acts: Schedule, n: nat, answers: Answers)
    requires At(acts, n).pc.Starting? && ValidAnswers(answers)
    requires acts(n) == StartRefresh && acts(n + 1) == FetchAll(answers, At(acts, n).clock, At(acts, n).clock)
    requires acts(n + 2) == CopyState && acts(n + 3) == PublishState
    ensures EnabledAt(acts, n) && EnabledAt(acts, n + 1) && EnabledAt(acts, n + 2) && EnabledAt(acts, n + 3)
    ensures RefreshedTo(At(acts, n), At(acts, n + 4), answers)
  {
    hide At, LocalSightings, SnapshotOf, Merge, Transitions, ConnectedMap, ValidAnswers, ReadingOf, Answer, AfterCall;
    assert EnabledAt(acts, n);
    Take(acts, n);
    assert EnabledAt(acts, n + 1);
    Take(acts, n + 1);
    assert EnabledAt(acts, n + 2);
    Take(acts, n + 2);
    assert EnabledAt(acts, n + 3);
    Take(acts, n + 3);
  }

  // ---- sightings and the clock ----

  ghost predicate NoLaterThan(seen: map<string, nat>, t: nat) {
    forall m :: Get(seen, m) <= Unix(t)
  }

  /** No recorded time lies in the future. */
  ghost predicate ClockInv(s: Sys) {
    && NoLaterThan(s.store.lastSeen, s.clock)
    && (forall id | id in s.handlers && s.handlers[id].Stamped? :: s.handlers[id].when <= s.clock)
    && (s.pc.Fetching? || s.pc.Fetched? || s.pc.Copied? ==> s.pc.now <= s.clock)
    && (s.pc.Copied? ==> NoLaterThan(s.pc.copied, s.clock))
    && s.last <= s.clock
  }

  lemma {:induction false} ClockStep(s: Sys, a: Action)
    requires Enabled(s, a) && ClockInv(s)
    ensures ClockInv(Do(s, a))
  {
    hide LocalSightings, Published, RatesBetween, NormalizeMac, IsSighting, ConnectedMap, ConnectedCount, Transitions,
         Records, ReadingOf, Answer, AfterCall;
    match a {
      case PublishState =>
        var r, copied, now := s.pc.reading, s.pc.copied, s.pc.now;
        MergeIsPointwiseMax(s.store.lastSeen, LocalSightings(r, copied, now));
        forall m ensures Get(Do(s, a).store.lastSeen, m) <= Unix(s.clock) {
          LocalSightingsLookup(r, copied, now, m);
        }
      case Mark(id) =>
        var h := s.handlers[id];
        assert Unix(h.when) <= Unix(s.clock);
        forall m ensures Get(Do(s, a).store.lastSeen, m) <= Unix(s.clock) {
          assert Get(s.store.lastSeen, m) <= Unix(s.clock);
        }
      case Advance(clock) =>
        assert Unix(s.clock) <= Unix(clock);
      case _ =>
    }
  }

  lemma {:induction false} ClockAt(acts: Schedule, n: nat)
    requires IsRun(acts)
    ensures ClockInv(At(acts, n))
  {
    hide Enabled, Do;
    if n > 0 {
      ClockAt(acts, n - 1);
      StepAt(acts, n - 1);
      ClockStep(At(acts, n - 1), acts(n - 1));
    }
  }

  lemma {:induction false} ClockAdvances(s: Sys, a: Action)
    requires Enabled(s, a)
    ensures s.clock <= Do(s, a).clock
  {
    hide PublishOn, Marked, Transitions, SampleOf, ConnectedMap, IsSighting, ValidAnswers, ReadingOf, Answer, AfterCall;
  }

  lemma {:induction false} ClockGrows(acts: Schedule, i: nat, j: nat)
    requires IsRun(acts) && i <= j
    ensures At(acts, i).clock <= At(acts, j).clock
    decreases j - i
  {
    hide At, Enabled, Do;
    if i < j {
      ClockGrows(acts, i, j - 1);
      StepAt(acts, j - 1);
      ClockAdvances(At(acts, j - 1), acts(j - 1));
    }
  }

  // ---- bus events ----

  /** What an arriving bus event starts: a sighting of its address at this moment when the address is well formed and
      the topic is one of two, and otherwise only a request. */
  lemma {:induction false} ArrivalExactly(s: Sys, id: nat, topic: string, mac: string)
    requires id !in s.handlers
    ensures var sighting := MacShape(NormalizeMac(mac)) && (topic == "wifi:auth:success" || topic == "dhcp:request");
            Do(s, EventArrives(id, topic, mac)) ==
            s.(handlers := s.handlers[id := if sighting then Stamped(mac, s.clock) else Requesting])
  {
    assert NormalizeMac("") == "";
    hide NormalizeMac, MacShape;
  }

  /** The handler's next move is a step of its own. */
  ghost predicate MovesHandler(a: Action, id: nat) {
    (a.Mark? || a.Request?) && a.id == id
  }

  lemma {:induction false} OthersLeaveHandler(s: Sys, a: Action, id: nat)
    requires Enabled(s, a) && id in s.handlers && !MovesHandler(a, id)
    ensures id in Do(s, a).handlers && Do(s, a).handlers[id] == s.handlers[id]
  {
    hide PublishOn, Marked, Transitions, SampleOf, ConnectedMap, IsSighting, ValidAnswers, ReadingOf, Answer,
         AfterCall;
  }

  lemma {:induction false} HandlerBegins(s: Sys, a: Action, id: nat)
    requires Enabled(s, a) && id in Do(s, a).handlers && Do(s, a).handlers[id].Stamped?
    ensures (a.EventArrives? && a.id == id) ||
            (id in s.handlers && s.handlers[id] == Do(s, a).handlers[id] && !MovesHandler(a, id))
  {
    hide PublishOn, Marked, Transitions, SampleOf, ConnectedMap, IsSighting, ValidAnswers, ReadingOf, Answer,
         AfterCall;
  }

  /** Every sighting a handler holds is that of an event that arrived as one, at the time it arrived. */
  lemma {:induction false} StampComesFromArrival(acts: Schedule, n: nat, id: nat) returns (arrive: nat)
    requires IsRun(acts) && id in At(acts, n).handlers && At(acts, n).handlers[id].Stamped?
    ensures arrive < n && acts(arrive).EventArrives? && acts(arrive).id == id
    ensures MacShape(NormalizeMac(acts(arrive).mac))
    ensures acts(arrive).topic == "wifi:auth:success" || acts(arrive).topic == "dhcp:request"
    ensures At(acts, n).handlers[id] == Stamped(acts(arrive).mac, At(acts, arrive).clock)
  {
    hide Enabled, Do, MacShape, NormalizeMac, MovesHandler;
    StepAt(acts, n - 1);
    var s, a := At(acts, n - 1), acts(n - 1);
    HandlerBegins(s, a, id);
    if a.EventArrives? && a.id == id {
      arrive := n - 1;
      assert id !in s.handlers by { ArrivesFresh(s, a); }
      ArrivalExactly(s, id, a.topic, a.mac);
    } else {
      arrive := StampComesFromArrival(acts, n - 1, id);
    }
  }

  lemma {:induction false} ArrivesFresh(s: Sys, a: Action)
    requires Enabled(s, a) && a.EventArrives?
    ensures a.id !in s.handlers
  {
  }

  // ---- what lies behind a publication ----

  /** Step `k` is the last one of its kind before `n`. */
  ghost predicate IsLast(acts: Schedule, kind: Action -> bool, k: nat, n: nat) {
    k < n && kind(acts(k)) && forall i | k < i < n :: !kind(acts(i))
  }

  const START := (a: Action) => a.StartRefresh?
  const FETCH := (a: Action) => a.FetchAll?
  const COPY := (a: Action) => a.CopyState?
  const PUBLISH := (a: Action) => a.PublishState?

  predicate LoopAction(a: Action) {
    !(a.Advance? || a.EventArrives? || a.Mark? || a.Request?)
  }

  lemma {:induction false} OthersLeaveTheLoop(s: Sys, a: Action)
    requires Enabled(s, a) && !LoopAction(a)
    ensures Do(s, a).pc == s.pc && (s.token ==> Do(s, a).token)
  {
  }

  /** The last thing the loop did. */
  lemma {:induction false} LastMove(acts: Schedule, n: nat) returns (k: nat)
    requires IsRun(acts) && !At(acts, n).pc.Starting?
    ensures k < n && LoopAction(acts(k)) && At(acts, k + 1).pc == At(acts, n).pc
    ensures forall i | k < i < n :: !LoopAction(acts(i))
  {
    hide Enabled, Do, LoopAction;
    k := n - 1;
    if !LoopAction(acts(k)) {
      StepAt(acts, k);
      OthersLeaveTheLoop(At(acts, k), acts(k));
      k := LastMove(acts, n - 1);
    }
  }

  lemma {:induction false} WhatLedHere(s: Sys, a: Action)
    requires Enabled(s, a) && LoopAction(a)
    ensures Do(s, a).pc.Fetching? ==> a.StartRefresh? && Do(s, a).pc.now == s.clock
    ensures Do(s, a).pc.Fetched? ==>
              && s.pc.Fetching? && a.FetchAll?
              && Do(s, a).pc == Pc.Fetched(s.pc.now, ReadingFrom(s, a))
    ensures Do(s, a).pc.Copied? ==>
              && s.pc.Fetched? && a.CopyState?
              && Do(s, a).pc ==
                   Copied(s.pc.now, s.pc.reading, s.store.lastSeen, ConnectedMap(s.store.snapshot.devices))
  {
    hide PublishOn, Marked, Transitions, SampleOf, ConnectedMap, IsSighting, ValidAnswers, ReadingOf, Answer, AfterCall;
  }

  /** The reading a fetch ends with. */
  function ReadingFrom(s: Sys, a: Action): Reading
    requires a.FetchAll?
  {
    ReadingOf(a.answers, Answer(s.cache, CallOf(a.answers, a.asked, a.done)))
  }

  /** Behind every publication are the start, the fetch and the copy of its own refresh, none other in between. */
  lemma {:induction false} BehindPublication(acts: Schedule, publish: nat) returns (start: nat, fetch: nat, copy: nat)
    requires IsRun(acts) && acts(publish).PublishState?
    ensures start < fetch < copy < publish
    ensures IsLast(acts, START, start, publish) && IsLast(acts, FETCH, fetch, publish)
    ensures IsLast(acts, COPY, copy, publish)
    ensures forall i | start < i < publish :: !acts(i).PublishState?
    ensures At(acts, publish).pc ==
            Copied(At(acts, start).clock, ReadingFrom(At(acts, fetch), acts(fetch)),
                   At(acts, copy).store.lastSeen, ConnectedMap(At(acts, copy).store.snapshot.devices))
  {
    hide At, Do, ConnectedMap, ReadingFrom;
    StepAt(acts, publish);
    copy := LastMove(acts, publish);
    StepAt(acts, copy);
    WhatLedHere(At(acts, copy), acts(copy));
    fetch := LastMove(acts, copy);
    StepAt(acts, fetch);
    WhatLedHere(At(acts, fetch), acts(fetch));
    start := LastMove(acts, fetch);
    StepAt(acts, start);
    WhatLedHere(At(acts, start), acts(start));
  }

  lemma {:induction false} LastIsUnique(acts: Schedule, kind: Action -> bool, i: nat, j: nat, n: nat)
    requires IsLast(acts, kind, i, n) && IsLast(acts, kind, j, n)
    ensures i == j
  {
  }

  /** The publication behind the snapshot shown at a moment. */
  lemma {:induction false} BehindSnapshot(acts: Schedule, n: nat) returns (publish: nat)
    requires IsRun(acts) && At(acts, n).store.snapshot.devices != []
    ensures IsLast(acts, PUBLISH, publish, n)
    ensures At(acts, publish + 1).store.snapshot == At(acts, n).store.snapshot
  {
    hide Enabled, Do;
    publish := n - 1;
    if !acts(publish).PublishState? {
      StepAt(acts, publish);
      OthersKeepSnapshot(At(acts, publish), acts(publish));
      publish := BehindSnapshot(acts, n - 1);
    }
  }

  lemma {:induction false} OthersKeepSnapshot(s: Sys, a: Action)
    requires Enabled(s, a) && !a.PublishState?
    ensures Do(s, a).store.snapshot == s.store.snapshot
  {
    hide PublishOn, Transitions, SampleOf, ConnectedMap, IsSighting, NormalizeMac, ValidAnswers, ReadingOf, Answer,
         AfterCall;
  }

  // ---- when a shared sighting is below a time ----

  /** A handler is about to write the address. */
  ghost predicate Writes(s: Sys, a: Action, m: string) {
    && a.Mark? && a.id in s.handlers && s.handlers[a.id].Stamped?
    && NormalizeMac(s.handlers[a.id].mac) == m
  }

  /** It writes a time below `v`. */
  ghost predicate Lowers(s: Sys, a: Action, m: string, v: nat) {
    Writes(s, a, m) && Unix(s.handlers[a.id].when) < v
  }

  /** A handler writes a time of at least `v`, or a publication merges one back. */
  ghost predicate Raises(s: Sys, a: Action, m: string, v: nat) {
    || (Writes(s, a, m) && v <= Unix(s.handlers[a.id].when))
    || (a.PublishState? && s.pc.Copied? && v <= Get(LocalSightings(s.pc.reading, s.pc.copied, s.pc.now), m))
  }

  /** One step leaves a sighting below `v` exactly when it puts it there, or finds it there and does not raise it. */
  lemma {:induction false} StepBelowExactly(s: Sys, a: Action, m: string, v: nat)
    requires Enabled(s, a)
    ensures Get(Do(s, a).store.lastSeen, m) < v <==>
            Lowers(s, a, m, v) || (Get(s.store.lastSeen, m) < v && !Raises(s, a, m, v))
  {
    hide LocalSightings, Published, RatesBetween, NormalizeMac, IsSighting, ConnectedMap, ConnectedCount, Transitions,
         Records, ReadingOf, Answer, AfterCall;
    match a {
      case PublishState =>
        MergeIsPointwiseMax(s.store.lastSeen, LocalSightings(s.pc.reading, s.pc.copied, s.pc.now));
      case Mark(id) =>
        var h := s.handlers[id];
        assert Get(Do(s, a).store.lastSeen, NormalizeMac(h.mac)) == Unix(h.when);
      case _ =>
    }
  }

  ghost predicate LowersAt(acts: Schedule, n: nat, m: string, v: nat) {
    Lowers(At(acts, n), acts(n), m, v)
  }

  ghost predicate RaisesAt(acts: Schedule, n: nat, m: string, v: nat) {
    Raises(At(acts, n), acts(n), m, v)
  }

  /** Between `from` and `n` a handler wrote a time below `v`, and nothing raised the sighting to `v` after it. */
  ghost predicate Lowered(acts: Schedule, from: nat, n: nat, m: string, v: nat) {
    exists w: nat :: from <= w < n && LowersAt(acts, w, m, v) && forall k | w < k < n :: !RaisesAt(acts, k, m, v)
  }

  /** So a sighting that was at `v` or above is below it later exactly when an old time was written over it
      and nothing has raised it since. */
  lemma {:induction false} SightingBelowExactly(acts: Schedule, from: nat, n: nat, m: string, v: nat)
    requires IsRun(acts) && from <= n && v <= Get(At(acts, from).store.lastSeen, m)
    ensures Get(At(acts, n).store.lastSeen, m) < v <==> Lowered(acts, from, n, m, v)
    decreases n - from
  {
    hide At, Enabled, Do, Lowers, Raises;
    if from < n {
      SightingBelowExactly(acts, from, n - 1, m, v);
      StepAt(acts, n - 1);
      StepBelowExactly(At(acts, n - 1), acts(n - 1), m, v);
      var lowers, raises := LowersAt(acts, n - 1, m, v), RaisesAt(acts, n - 1, m, v);
      if lowers {
        LowersOrRaises(At(acts, n - 1), acts(n - 1), m, v);
        assert Lowered(acts, from, n, m, v);
      } else if !raises && Lowered(acts, from, n - 1, m, v) {
        var w: nat :| from <= w < n - 1 && LowersAt(acts, w, m, v)
                      && forall k | w < k < n - 1 :: !RaisesAt(acts, k, m, v);
        assert Lowered(acts, from, n, m, v);
      }
    }
  }

  lemma {:induction false} LowersOrRaises(s: Sys, a: Action, m: string, v: nat)
    requires Lowers(s, a, m, v)
    ensures !Raises(s, a, m, v)
  {
  }

  // ---- when a published time is below a time ----

  /** The snapshot a publication leaves has this record. */
  ghost predicate Publishes(acts: Schedule, publish: nat, d: TrackedDevice) {
    d in At(acts, publish + 1).store.snapshot.devices
  }

  /** The data fetched for a publication has the address present. */
  ghost predicate FoundPresent(acts: Schedule, publish: nat, m: string) {
    var pc := At(acts, publish).pc;
    pc.Copied? && IsPresent(pc.reading.g.presence, m)
  }

  /** The time a publication shows for an address: its refresh's clock if the fetched data has it present, and
      otherwise the shared sighting at the moment of the copy. */
  lemma {:induction false} PublishedTimeIs(acts: Schedule, publish: nat, start: nat, copy: nat, e: TrackedDevice)
    requires IsRun(acts) && acts(publish).PublishState?
    requires IsLast(acts, START, start, publish) && IsLast(acts, COPY, copy, publish)
    requires Publishes(acts, publish, e)
    ensures e.lastSeen == if FoundPresent(acts, publish, e.mac) then Unix(At(acts, start).clock)
                          else Get(At(acts, copy).store.lastSeen, e.mac)
  {
    hide At, Records, Published, LinkOf, MacShape, NormalizeMac, ConnectedMap, ReadingFrom, Transitions, Merge,
         LocalSightings, RatesBetween, ConnectedCount;
    StepAt(acts, publish);
    var start', fetch, copy' := BehindPublication(acts, publish);
    LastIsUnique(acts, START, start, start', publish);
    LastIsUnique(acts, COPY, copy, copy', publish);
    var s := At(acts, publish);
    PublishedIsWellFormed(s.pc.reading.g, s.pc.copied, s.pc.now);
  }

  /** A refresh that starts when an address was already seen at `v` shows it below `v` exactly when the fetched data
      has it absent and, by the time of the copy, an old time had been written over the sighting to stay. */
  lemma {:induction false} ShownBelowExactly(acts: Schedule, from: nat, start: nat, copy: nat, publish: nat,
                                             e: TrackedDevice, v: nat)
    requires IsRun(acts) && acts(publish).PublishState?
    requires IsLast(acts, START, start, publish) && IsLast(acts, COPY, copy, publish) && from <= start
    requires v <= Get(At(acts, from).store.lastSeen, e.mac) && v <= Unix(At(acts, from).clock)
    requires Publishes(acts, publish, e)
    ensures e.lastSeen < v <==>
            !FoundPresent(acts, publish, e.mac) && Lowered(acts, from, copy, e.mac, v)
  {
    hide At, FoundPresent, Lowered;
    PublishedTimeIs(acts, publish, start, copy, e);
    ClockGrows(acts, from, start);
    var start', fetch, copy' := BehindPublication(acts, publish);
    LastIsUnique(acts, START, start, start', publish);
    LastIsUnique(acts, COPY, copy, copy', publish);
    SightingBelowExactly(acts, from, copy, e.mac, v);
  }

  /** What a publication shows is recorded, and not in the future. */
  lemma {:induction false} PublishedIsRecorded(acts: Schedule, publish: nat, d: TrackedDevice)
    requires IsRun(acts) && acts(publish).PublishState?
    requires Publishes(acts, publish, d)
    ensures d.lastSeen <= Get(At(acts, publish + 1).store.lastSeen, d.mac)
    ensures d.lastSeen <= Unix(At(acts, publish + 1).clock)
  {
    StepAt(acts, publish);
    ClockAt(acts, publish + 1);
    hide At, PublishOn, Transitions;
    var s := At(acts, publish);
    PublishKeepsSightings(s.store, s.pc.reading, s.pc.copied, s.pc.now);
  }

  /** When published times go back: between any two publications showing a device, its time falls exactly when
      the later one finds it absent and a handler wrote an older time between the first publication and the copy of
      the second, with nothing to raise it again. */
  lemma {:induction false} PublishedTimeFallsExactly(acts: Schedule, p: nat, copy: nat, q: nat, d: TrackedDevice,
                                                     e: TrackedDevice)
    requires IsRun(acts) && p < q && acts(p).PublishState? && acts(q).PublishState? && IsLast(acts, COPY, copy, q)
    requires Publishes(acts, p, d) && Publishes(acts, q, e)
    requires d.mac == e.mac
    ensures e.lastSeen < d.lastSeen <==>
            !FoundPresent(acts, q, d.mac) && Lowered(acts, p + 1, copy, d.mac, d.lastSeen)
  {
    hide At, FoundPresent, Lowered;
    var start, fetch, copy' := BehindPublication(acts, q);
    PublishedIsRecorded(acts, p, d);
    ShownBelowExactly(acts, p + 1, start, copy, q, e, d.lastSeen);
  }

  /** Step `w` is the last write of the address before `n`. */
  ghost predicate IsLastWrite(acts: Schedule, m: string, w: nat, n: nat) {
    w < n && WritesAt(acts, w, m) && forall k | w < k < n :: !WritesAt(acts, k, m)
  }

  ghost predicate WritesAt(acts: Schedule, n: nat, m: string) {
    Writes(At(acts, n), acts(n), m)
  }

  /** When nothing is published in between, it is the last handler write that decides. */
  lemma {:induction false} LoweredByLastWrite(acts: Schedule, from: nat, n: nat, m: string, v: nat)
    requires forall k | from <= k < n :: !acts(k).PublishState?
    ensures Lowered(acts, from, n, m, v) <==>
            exists w: nat :: from <= w && IsLastWrite(acts, m, w, n) && LowersAt(acts, w, m, v)
  {
    hide At, LocalSightings;
    if Lowered(acts, from, n, m, v) {
      var w: nat :| from <= w < n && LowersAt(acts, w, m, v) && forall k | w < k < n :: !RaisesAt(acts, k, m, v);
      var w' := LastWriteFrom(acts, m, w, n);
      assert w < w' ==> !RaisesAt(acts, w', m, v);
      assert LowersAt(acts, w', m, v);
    }
    if w: nat :| from <= w && IsLastWrite(acts, m, w, n) && LowersAt(acts, w, m, v) {
      forall k | w < k < n ensures !RaisesAt(acts, k, m, v) {
        assert !WritesAt(acts, k, m) && !acts(k).PublishState?;
      }
    }
  }

  /** From one publication to the next it is the last handler write in between, before the copy, that decides. */
  lemma {:induction false} NextTimeFallsExactly(acts: Schedule, p: nat, copy: nat, q: nat, d: TrackedDevice,
                                                e: TrackedDevice)
    requires IsRun(acts) && acts(q).PublishState? && IsLast(acts, PUBLISH, p, q) && IsLast(acts, COPY, copy, q)
    requires Publishes(acts, p, d) && Publishes(acts, q, e)
    requires d.mac == e.mac
    ensures e.lastSeen < d.lastSeen <==>
            && !FoundPresent(acts, q, d.mac)
            && exists w: nat :: p + 1 <= w && IsLastWrite(acts, d.mac, w, copy) && LowersAt(acts, w, d.mac, d.lastSeen)
  {
    hide At, FoundPresent, Lowered, IsLastWrite, LowersAt;
    PublishedTimeFallsExactly(acts, p, copy, q, d, e);
    LoweredByLastWrite(acts, p + 1, copy, d.mac, d.lastSeen);
  }

  lemma {:induction false} LastWriteFrom(acts: Schedule, m: string, w: nat, n: nat) returns (last: nat)
    requires w < n && WritesAt(acts, w, m)
    ensures w <= last && IsLastWrite(acts, m, last, n)
    decreases n - w
  {
    hide WritesAt;
    last := w;
    if k :| w < k < n && WritesAt(acts, k, m) {
      last := LastWriteFrom(acts, m, k, n);
    }
  }

  // ---- handlers that are not overtaken ----

  /** No handler writes a time of this address older than the one it replaces. */
  ghost predicate TimelyFor(acts: Schedule, m: string) {
    forall n: nat :: !OvertakenAt(acts, n, m)
  }

  ghost predicate OvertakenAt(acts: Schedule, n: nat, m: string) {
    LowersAt(acts, n, m, Get(At(acts, n).store.lastSeen, m))
  }

  /** Which is so if the address's handlers write in the second in which they read the clock. */
  lemma {:induction false} PromptHandlersAreTimely(acts: Schedule, m: string)
    requires IsRun(acts)
    requires forall n: nat | WritesAt(acts, n, m) ::
               Unix(At(acts, n).handlers[acts(n).id].when) == Unix(At(acts, n).clock)
    ensures TimelyFor(acts, m)
  {
    hide At, Do;
    forall n: nat ensures !OvertakenAt(acts, n, m) {
      ClockAt(acts, n);
      assert Writes(At(acts, n), acts(n), m) ==> WritesAt(acts, n, m);
    }
  }

  lemma {:induction false} TimelyNeverLowers(acts: Schedule, from: nat, n: nat, m: string, v: nat)
    requires IsRun(acts) && TimelyFor(acts, m) && from <= n && v <= Get(At(acts, from).store.lastSeen, m)
    ensures v <= Get(At(acts, n).store.lastSeen, m) && !Lowered(acts, from, n, m, v)
    decreases n - from
  {
    hide At, Enabled, Do;
    if from < n {
      TimelyNeverLowers(acts, from, n - 1, m, v);
      StepAt(acts, n - 1);
      assert !OvertakenAt(acts, n - 1, m);
      StepBelowExactly(At(acts, n - 1), acts(n - 1), m, v);
    }
    SightingBelowExactly(acts, from, n, m, v);
  }

  lemma {:induction false} LaterTimeIsNoEarlier(acts: Schedule, p: nat, q: nat, d: TrackedDevice, e: TrackedDevice)
    requires IsRun(acts) && TimelyFor(acts, d.mac) && p < q && acts(p).PublishState? && acts(q).PublishState?
    requires Publishes(acts, p, d) && Publishes(acts, q, e) && d.mac == e.mac
    ensures d.lastSeen <= e.lastSeen
  {
    hide At, FoundPresent, Lowered, TimelyFor, IsRun, Publishes, ReadingFrom, ConnectedMap;
    var start, fetch, copy := BehindPublication(acts, q);
    PublishedIsRecorded(acts, p, d);
    assert p + 1 <= copy;
    hide IsLast;
    TimelyNeverLowers(acts, p + 1, copy, d.mac, d.lastSeen);
    PublishedTimeFallsExactly(acts, p, copy, q, d, e);
  }

  lemma {:induction false} OneTimePerAddress(acts: Schedule, p: nat, d: TrackedDevice, e: TrackedDevice)
    requires IsRun(acts) && acts(p).PublishState? && Publishes(acts, p, d) && Publishes(acts, p, e) && d.mac == e.mac
    ensures d.lastSeen == e.lastSeen
  {
    hide At, FoundPresent, IsRun, Publishes, ReadingFrom, ConnectedMap;
    var start, fetch, copy := BehindPublication(acts, p);
    PublishedTimeIs(acts, p, start, copy, d);
    PublishedTimeIs(acts, p, start, copy, e);
  }

  /** Over a whole run, a device's published time never decreases between any two snapshots showing it, as long as
      no handler of that device is overtaken, even though each refresh stamps with a clock it read before its
      requests. */
  lemma {:induction false} LastSeenNeverDecreases(acts: Schedule, i: nat, j: nat, d: TrackedDevice, e: TrackedDevice)
    requires IsRun(acts) && TimelyFor(acts, d.mac) && i <= j
    requires d in At(acts, i).store.snapshot.devices && e in At(acts, j).store.snapshot.devices
    requires d.mac == e.mac
    ensures d.lastSeen <= e.lastSeen
  {
    hide At, TimelyFor, IsRun;
    var p := BehindSnapshot(acts, i);
    var q := BehindSnapshot(acts, j);
    assert p <= q && Publishes(acts, p, d) && Publishes(acts, q, e);
    hide IsLast, Publishes;
    if p < q {
      LaterTimeIsNoEarlier(acts, p, q, d, e);
    } else {
      OneTimePerAddress(acts, p, d, e);
    }
  }

  // ---- from a handler's write to the snapshots ----

  /** Step `n` is a handler writing the time `v` for the address. */
  ghost predicate WritesTime(acts: Schedule, n: nat, m: string, v: nat) {
    WritesAt(acts, n, m) && v == Unix(At(acts, n).handlers[acts(n).id].when)
  }

  /** A handler's write records the normalised address at the time at which an event arrived whose address was well
      formed and whose topic was one of two; nothing else makes a handler write. */
  lemma {:induction false} WriteComesFromArrival(acts: Schedule, mark: nat) returns (arrive: nat)
    requires IsRun(acts) && acts(mark).Mark?
    ensures arrive < mark && acts(arrive).EventArrives? && acts(arrive).id == acts(mark).id
    ensures MacShape(NormalizeMac(acts(arrive).mac))
    ensures acts(arrive).topic == "wifi:auth:success" || acts(arrive).topic == "dhcp:request"
    ensures WritesTime(acts, mark, NormalizeMac(acts(arrive).mac), Unix(At(acts, arrive).clock))
  {
    hide At, NormalizeMac, MacShape;
    StepAt(acts, mark);
    arrive := StampComesFromArrival(acts, mark, acts(mark).id);
  }

  ghost predicate Shows(snap: Snapshot, m: string, v: nat) {
    forall d | d in snap.devices && d.mac == m :: v <= d.lastSeen
  }

  lemma {:induction false} WriteIsRecorded(acts: Schedule, mark: nat, m: string, v: nat)
    requires IsRun(acts) && WritesTime(acts, mark, m, v)
    ensures Get(At(acts, mark + 1).store.lastSeen, m) == v <= Unix(At(acts, mark + 1).clock)
  {
    hide At, NormalizeMac;
    StepAt(acts, mark);
    ClockAt(acts, mark + 1);
  }

  /** When a sighting is missed: a refresh that starts after a handler's write publishes an earlier time exactly when
      it finds the device absent and an older time was written in between, with nothing to raise it again. */
  lemma {:induction false} SightingMissedExactly(acts: Schedule, mark: nat, start: nat, copy: nat, publish: nat,
                                                 m: string, v: nat,
                              e: TrackedDevice)
    requires IsRun(acts) && WritesTime(acts, mark, m, v) && mark < start && acts(publish).PublishState?
    requires IsLast(acts, START, start, publish) && IsLast(acts, COPY, copy, publish)
    requires Publishes(acts, publish, e) && e.mac == m
    ensures e.lastSeen < v <==>
            !FoundPresent(acts, publish, m) && Lowered(acts, mark + 1, copy, m, v)
  {
    hide At, FoundPresent, Lowered, WritesTime;
    WriteIsRecorded(acts, mark, m, v);
    ShownBelowExactly(acts, mark + 1, start, copy, publish, e, v);
  }

  lemma {:induction false} LaterSnapshotShows(acts: Schedule, mark: nat, start: nat, publish: nat, later: nat,
                                              m: string, v: nat,
                           e: TrackedDevice)
    requires IsRun(acts) && TimelyFor(acts, m) && WritesTime(acts, mark, m, v)
    requires mark < start < publish < later && acts(start).StartRefresh? && acts(publish).PublishState?
    requires e in At(acts, later).store.snapshot.devices && e.mac == m
    ensures v <= e.lastSeen
  {
    hide At, FoundPresent, Lowered, TimelyFor, WritesTime, IsRun, ReadingFrom, ConnectedMap;
    var q := BehindSnapshot(acts, later);
    assert publish <= q;
    var start', fetch, copy := BehindPublication(acts, q);
    assert start <= start';
    hide IsLast;
    WriteIsRecorded(acts, mark, m, v);
    TimelyNeverLowers(acts, mark + 1, copy, m, v);
    SightingMissedExactly(acts, mark, start', copy, q, m, v, e);
  }

  /** A handler's sighting is reflected: once a refresh that starts after the write has published, that snapshot and
      every later one show the device seen at that time or after, as long as no handler of it is overtaken. */
  lemma {:induction false} SightingReachesSnapshots(acts: Schedule, mark: nat, start: nat, publish: nat, later: nat,
                                                    m: string, v: nat)
    requires IsRun(acts) && TimelyFor(acts, m) && WritesTime(acts, mark, m, v)
    requires mark < start < publish < later && acts(start).StartRefresh? && acts(publish).PublishState?
    ensures Shows(At(acts, later).store.snapshot, m, v)
  {
    hide At, TimelyFor, WritesTime, IsRun;
    forall e | e in At(acts, later).store.snapshot.devices && e.mac == m ensures v <= e.lastSeen {
      LaterSnapshotShows(acts, mark, start, publish, later, m, v, e);
    }
  }
}
