/** Wake-ups: no request is lost, and event-driven refreshes keep their distance (code/state.go). */
module Wakeup {
  import opened Common
  import opened Text
  import opened Store
  import opened Version
  import opened Fetch
  import opened Protocol

  // ---- the token ----

  /** The loop is committed to a refresh it has not started. */
  predicate BeforeStart(pc: Pc) {
    pc.Woken? || pc.Sleeping? || pc.Slept? || pc.Starting?
  }

  /** The loop took a token and has not started the refresh it asks for. */
  predicate HoldsToken(pc: Pc) {
    pc.Woken? || pc.Sleeping? || pc.Slept? || (pc.Starting? && pc.eventDriven)
  }

  function One(b: bool): nat {
    if b then 1 else 0
  }

  /** A request not yet followed by a refresh start is held as a token or by the loop; and every accepted
      request has started a refresh, was collapsed into another, or is still held. */
  ghost predicate TokenInv(s: Sys) {
    && (s.history.unserved > 0 ==> s.token || BeforeStart(s.pc))
    && s.history.accepted ==
         |s.history.eventStarts| + s.history.collapsed + One(s.token) + One(HoldsToken(s.pc))
  }

  lemma {:induction false} TokenStep(s: Sys, a: Action)
    requires Enabled(s, a) && TokenInv(s)
    ensures TokenInv(Do(s, a))
  {
    hide PublishOn, Marked, Transitions, SampleOf, ConnectedMap, IsSighting, ValidAnswers, ReadingOf, Answer, AfterCall;
  }

  lemma {:induction false} TokenAt(acts: Schedule, n: nat)
    requires IsRun(acts)
    ensures TokenInv(At(acts, n))
  {
    hide Enabled, Do;
    if n > 0 {
      TokenAt(acts, n - 1);
      StepAt(acts, n - 1);
      TokenStep(At(acts, n - 1), acts(n - 1));
    }
  }

  /** No lost wake-up: in every reachable state, a request no refresh has started after is still held by
      the channel or by a loop about to start one; and every accepted request has started a refresh, was collapsed
      into another, or is still held. */
  lemma {:induction false} NoLostWakeup(acts: Schedule, n: nat)
    requires IsRun(acts)
    ensures var s := At(acts, n);
            && (s.history.unserved > 0 ==> s.token || s.pc.Woken? || s.pc.Sleeping? || s.pc.Slept? || s.pc.Starting?)
            && s.history.accepted == |s.history.eventStarts| + s.history.collapsed + (if s.token then 1 else 0) +
                 match s.pc
                 case Woken => 1 case Sleeping(_) => 1 case Slept => 1 case Starting(true) => 1 case _ => 0
  {
    hide At;
    TokenAt(acts, n);
  }

  lemma {:induction false} StaysUnserved(acts: Schedule, request: nat, n: nat)
    requires IsRun(acts) && request < n && acts(request).Request?
    requires forall k | request < k < n :: !acts(k).StartRefresh?
    ensures At(acts, n).history.unserved > 0
  {
    StepAt(acts, n - 1);
    hide At;
    if request < n - 1 {
      StaysUnserved(acts, request, n - 1);
      UnservedStep(At(acts, n - 1), acts(n - 1));
    }
  }

  lemma {:induction false} UnservedStep(s: Sys, a: Action)
    requires Enabled(s, a) && !a.StartRefresh? && s.history.unserved > 0
    ensures Do(s, a).history.unserved > 0
  {
    hide PublishOn, Marked, Transitions, SampleOf, ConnectedMap, IsSighting, ValidAnswers, ReadingOf, Answer, AfterCall;
  }

  /** The same, of the actions alone: from a request until the next refresh starts, a token or the loop
      holds on to it. */
  lemma {:induction false} PendingRequestIsHeld(acts: Schedule, request: nat, n: nat)
    requires IsRun(acts) && request < n && acts(request).Request?
    requires forall k | request < k < n :: !acts(k).StartRefresh?
    ensures var s := At(acts, n); s.token || s.pc.Woken? || s.pc.Sleeping? || s.pc.Slept? || s.pc.Starting?
  {
    hide At;
    StaysUnserved(acts, request, n);
    TokenAt(acts, n);
  }

  // ---- the rate floor ----

  predicate InRefresh(pc: Pc) {
    pc.Fetching? || pc.Fetched? || pc.Copied? || pc.Broadcasting?
  }

  ghost predicate FloorInv(s: Sys) {
    var starts := s.history.eventStarts;
    && s.last <= s.clock
    && (s.pc.Slept? || s.pc == Starting(true) ==> s.last + FLOOR <= s.clock)
    && (s.pc.Sleeping? ==> s.last + FLOOR <= s.pc.until)
    && Spread(starts)
    && (starts != [] ==> starts[|starts| - 1].at <= if InRefresh(s.pc) then s.clock else s.last)
  }

  ghost predicate Spread(starts: seq<Start>) {
    && (forall k | 0 <= k < |starts| :: starts[k].previousEnd + FLOOR <= starts[k].at)
    && forall k | 0 < k < |starts| :: starts[k - 1].at <= starts[k].previousEnd
  }

  lemma {:induction false} SpreadSnoc(starts: seq<Start>, s: Start)
    requires Spread(starts) && s.previousEnd + FLOOR <= s.at
    requires starts != [] ==> starts[|starts| - 1].at <= s.previousEnd
    ensures Spread(starts + [s])
  {
  }

  lemma {:induction false} FloorStep(s: Sys, a: Action)
    requires Enabled(s, a) && FloorInv(s)
    ensures FloorInv(Do(s, a))
  {
    hide PublishOn, Marked, Transitions, SampleOf, ConnectedMap, IsSighting, ValidAnswers, ReadingOf, Answer, AfterCall,
         Spread;
    if a.StartRefresh? && s.pc.eventDriven {
      SpreadSnoc(s.history.eventStarts, Start(s.last, s.clock));
    } else {
      assert s.history.eventStarts + [] == s.history.eventStarts;
    }
  }

  lemma {:induction false} FloorAt(acts: Schedule, n: nat)
    requires IsRun(acts)
    ensures FloorInv(At(acts, n))
  {
    hide Enabled, Do;
    if n > 0 {
      FloorAt(acts, n - 1);
      StepAt(acts, n - 1);
      FloorStep(At(acts, n - 1), acts(n - 1));
    }
  }

  lemma {:induction false} StartsSpread(starts: seq<Start>, i: nat, j: nat)
    requires i <= j < |starts| && Spread(starts)
    ensures starts[j].at - starts[i].at >= (j - i) * FLOOR
  {
    if i < j {
      StartsSpread(starts, i, j - 1);
      assert starts[j - 1].at <= starts[j].previousEnd;
    }
  }

  /** Every event-driven refresh starts at least two seconds after the refresh before it ended, any
      stretch of them is spread accordingly, and there are no more of them than accepted requests. */
  lemma {:induction false} EventRefreshesAreSpread(acts: Schedule, n: nat, i: nat, j: nat)
    requires IsRun(acts)
    requires i <= j < |At(acts, n).history.eventStarts|
    ensures var starts := At(acts, n).history.eventStarts;
            && starts[i].at - starts[i].previousEnd >= 2_000_000_000
            && starts[j].at - starts[i].at >= (j - i) * 2_000_000_000
            && |starts| <= At(acts, n).history.accepted
  {
    FloorAt(acts, n);
    TokenAt(acts, n);
    StartsSpread(At(acts, n).history.eventStarts, i, j);
  }

  lemma {:induction false} OthersKeepLast(s: Sys, a: Action)
    requires Enabled(s, a) && !a.EndRefresh?
    ensures Do(s, a).last == s.last
  {
    hide PublishOn, Marked, Transitions, SampleOf, ConnectedMap, IsSighting, ValidAnswers, ReadingOf, Answer,
         AfterCall;
  }

  lemma {:induction false} LastEnd(acts: Schedule, end: nat, n: nat)
    requires IsRun(acts) && end < n && acts(end).EndRefresh? && forall k | end < k < n :: !acts(k).EndRefresh?
    ensures At(acts, n).last == At(acts, end).clock
  {
    hide At, Enabled, Do;
    StepAt(acts, n - 1);
    if end < n - 1 {
      LastEnd(acts, end, n - 1);
      OthersKeepLast(At(acts, n - 1), acts(n - 1));
    } else {
      EndSetsLast(At(acts, end), acts(end));
    }
  }

  lemma {:induction false} EndSetsLast(s: Sys, a: Action)
    requires Enabled(s, a) && a.EndRefresh?
    ensures Do(s, a).last == s.clock
  {
  }

  /** The same, of the steps: a refresh that a token started begins two seconds or more after the last one ended. */
  lemma {:induction false} EventRefreshWaits(acts: Schedule, end: nat, start: nat)
    requires IsRun(acts) && end < start && acts(end).EndRefresh? && acts(start).StartRefresh?
    requires forall k | end < k < start :: !acts(k).EndRefresh?
    requires At(acts, start).pc == Starting(true)
    ensures At(acts, start).clock - At(acts, end).clock >= 2_000_000_000
  {
    hide At;
    LastEnd(acts, end, start);
    FloorAt(acts, start);
  }

  // ---- every request is followed by a refresh ----

  /** The loop can move without the ticker's help. */
  predicate LoopReady(s: Sys) {
    match s.pc
    case Selecting => s.token
    case Sleeping(until) => until <= s.clock
    case _ => true
  }

  ghost predicate MovesFrom(acts: Schedule, i: nat) {
    exists j: nat :: i <= j && LoopAction(acts(j))
  }

  ghost predicate TimeReaches(acts: Schedule, i: nat, t: nat) {
    exists j: nat :: i <= j && t <= At(acts, j).clock
  }

  /** Requests to SPR return, the scheduler runs a loop that can move, and time passes. Nothing is
      assumed of the ticker. */
  ghost predicate Fair(acts: Schedule) {
    && IsRun(acts)
    && (forall i: nat | LoopReady(At(acts, i)) :: MovesFrom(acts, i))
    && forall i: nat, t: nat :: TimeReaches(acts, i, t)
  }

  /** The first loop action from `i` on, or `j` if there is none before it. */
  lemma {:induction false} QuietUntil(acts: Schedule, i: nat, j: nat) returns (k: nat)
    requires IsRun(acts) && i <= j
    ensures i <= k <= j && (k < j ==> LoopAction(acts(k)))
    ensures At(acts, k).pc == At(acts, i).pc && (At(acts, i).token ==> At(acts, k).token)
    decreases j - i
  {
    hide Enabled, Do, LoopAction;
    k := i;
    if i < j && !LoopAction(acts(i)) {
      StepAt(acts, i);
      OthersLeaveTheLoop(At(acts, i), acts(i));
      k := QuietUntil(acts, i + 1, j);
    }
  }

  /** A loop that is ready, or asleep, makes its next move. */
  lemma {:induction false} NextMove(acts: Schedule, i: nat) returns (k: nat)
    requires Fair(acts) && (LoopReady(At(acts, i)) || At(acts, i).pc.Sleeping?)
    ensures i <= k && LoopAction(acts(k))
    ensures At(acts, k).pc == At(acts, i).pc && (At(acts, i).token ==> At(acts, k).token)
  {
    hide At, LoopAction;
    var i' := i;
    if !LoopReady(At(acts, i)) {
      var until := At(acts, i).pc.until;
      assert TimeReaches(acts, i, until);
      var j: nat :| i <= j && until <= At(acts, j).clock;
      i' := QuietUntil(acts, i, j);
      if LoopAction(acts(i')) {
        return i';
      }
    }
    assert MovesFrom(acts, i');
    var j: nat :| i' <= j && LoopAction(acts(j));
    k := QuietUntil(acts, i', j);
  }

  function Rank(pc: Pc): nat {
    match pc
    case Starting(_) => 0
    case Slept => 1
    case Sleeping(_) => 2
    case Woken => 3
    case Selecting => 4
    case Broadcasting(_) => 5
    case Copied(_, _, _, _) => 6
    case Fetched(_, _) => 7
    case Fetching(_) => 8
  }

  function ToSend(pc: Pc): nat {
    if pc.Broadcasting? then |pc.queue| else 0
  }

  /** A loop action with a wake-up pending starts a refresh or comes closer to starting one. */
  lemma {:induction false} MoveComesCloser(s: Sys, a: Action)
    requires Enabled(s, a) && LoopAction(a) && (s.token || BeforeStart(s.pc))
    ensures var t := Do(s, a);
            || a.StartRefresh?
            || ((t.token || BeforeStart(t.pc))
                && (Rank(t.pc) < Rank(s.pc) || (Rank(t.pc) == Rank(s.pc) && ToSend(t.pc) < ToSend(s.pc))))
  {
    hide PublishOn, Marked, Transitions, SampleOf, ConnectedMap, IsSighting, ValidAnswers, ReadingOf, Answer, AfterCall;
  }

  lemma {:induction false} PendingStarts(acts: Schedule, i: nat) returns (k: nat)
    requires Fair(acts) && (At(acts, i).token || BeforeStart(At(acts, i).pc))
    ensures i <= k && acts(k).StartRefresh?
    decreases Rank(At(acts, i).pc), ToSend(At(acts, i).pc)
  {
    hide Enabled, Do, At, LoopAction;
    var j := NextMove(acts, i);
    StepAt(acts, j);
    MoveComesCloser(At(acts, j), acts(j));
    if acts(j).StartRefresh? {
      k := j;
    } else {
      k := PendingStarts(acts, j + 1);
    }
  }

  /** Every request is followed by a refresh that starts after it, in every fair run, even one whose
      ticker never fires. */
  lemma {:induction false} RequestIsServed(acts: Schedule, request: nat) returns (start: nat)
    requires Fair(acts) && acts(request).Request?
    ensures request < start && acts(start).StartRefresh?
  {
    StepAt(acts, request);
    start := PendingStarts(acts, request + 1);
  }

  // ---- from an event's arrival to the snapshots ----

  ghost predicate HandlerMovesFrom(acts: Schedule, i: nat, id: nat) {
    exists j: nat :: i <= j && MovesHandler(acts(j), id)
  }

  /** The scheduler runs every handler that has something left to do. */
  ghost predicate HandlersMove(acts: Schedule) {
    forall i: nat, id: nat | id in At(acts, i).handlers :: HandlerMovesFrom(acts, i, id)
  }

  lemma {:induction false} HandlerUntil(acts: Schedule, i: nat, j: nat, id: nat) returns (k: nat)
    requires IsRun(acts) && i <= j && id in At(acts, i).handlers && MovesHandler(acts(j), id)
    ensures i <= k && MovesHandler(acts(k), id)
    ensures id in At(acts, k).handlers && At(acts, k).handlers[id] == At(acts, i).handlers[id]
    decreases j - i
  {
    hide At, Enabled, Do, MovesHandler;
    k := i;
    if !MovesHandler(acts(i), id) {
      StepAt(acts, i);
      OthersLeaveHandler(At(acts, i), acts(i), id);
      k := HandlerUntil(acts, i + 1, j, id);
    }
  }

  lemma {:induction false} HandlerMove(s: Sys, a: Action, id: nat)
    requires Enabled(s, a) && MovesHandler(a, id) && id in s.handlers
    ensures s.handlers[id].Stamped? ==> a == Mark(id) && id in Do(s, a).handlers && Do(s, a).handlers[id] == Requesting
    ensures s.handlers[id].Requesting? ==> a == Request(id)
  {
  }

  /** A handler's next step. */
  lemma {:induction false} NextHandlerMove(acts: Schedule, i: nat, id: nat) returns (k: nat)
    requires IsRun(acts) && HandlersMove(acts) && id in At(acts, i).handlers
    ensures i <= k && id in At(acts, k).handlers && At(acts, k).handlers[id] == At(acts, i).handlers[id]
    ensures At(acts, i).handlers[id].Stamped? ==>
              acts(k) == Mark(id) && id in At(acts, k + 1).handlers && At(acts, k + 1).handlers[id] == Requesting
    ensures At(acts, i).handlers[id].Requesting? ==> acts(k) == Request(id)
  {
    hide At, Enabled, Do, MovesHandler;
    assert HandlerMovesFrom(acts, i, id);
    var j: nat :| i <= j && MovesHandler(acts(j), id);
    k := HandlerUntil(acts, i, j, id);
    StepAt(acts, k);
    HandlerMove(At(acts, k), acts(k), id);
  }

  /** An event whose address is well formed, on one of two topics, leads to a write of that address at the time of its
      arrival and then to a request; any other event leads to the request alone. */
  lemma {:induction false} ArrivalIsHandled(acts: Schedule, arrive: nat) returns (mark: nat, request: nat)
    requires IsRun(acts) && HandlersMove(acts) && acts(arrive).EventArrives?
    ensures arrive < request && acts(request) == Request(acts(arrive).id)
    ensures var a, m := acts(arrive), NormalizeMac(acts(arrive).mac);
            MacShape(m) && (a.topic == "wifi:auth:success" || a.topic == "dhcp:request") ==>
              && arrive < mark < request && acts(mark) == Mark(a.id)
              && WritesTime(acts, mark, m, Unix(At(acts, arrive).clock))
  {
    hide At, Enabled, Do, MacShape, NormalizeMac, MovesHandler, HandlersMove;
    StepAt(acts, arrive);
    var s, a := At(acts, arrive), acts(arrive);
    ArrivesFresh(s, a);
    ArrivalExactly(s, a.id, a.topic, a.mac);
    mark := NextHandlerMove(acts, arrive + 1, a.id);
    request := mark;
    if At(acts, arrive + 1).handlers[a.id].Stamped? {
      request := NextHandlerMove(acts, mark + 1, a.id);
    }
  }

  /** Every bus event is followed by a refresh that starts after it, without waiting for the ticker. */
  lemma {:induction false} ArrivalIsServed(acts: Schedule, arrive: nat) returns (start: nat)
    requires Fair(acts) && HandlersMove(acts) && acts(arrive).EventArrives?
    ensures arrive < start && acts(start).StartRefresh?
  {
    hide At, HandlersMove;
    var mark, request := ArrivalIsHandled(acts, arrive);
    start := RequestIsServed(acts, request);
  }

  /** And a sighting is reflected: after an event of a well-formed address on one of the two topics a refresh starts
      such that once it or any later refresh publishes, the device shows the time of the event's arrival or a later
      one. */
  lemma {:induction false} BusSightingIsReflected(acts: Schedule, arrive: nat) returns (start: nat)
    requires Fair(acts) && HandlersMove(acts) && acts(arrive).EventArrives?
    requires acts(arrive).topic == "wifi:auth:success" || acts(arrive).topic == "dhcp:request"
    requires MacShape(NormalizeMac(acts(arrive).mac)) && TimelyFor(acts, NormalizeMac(acts(arrive).mac))
    ensures arrive < start && acts(start).StartRefresh?
    ensures forall publish: nat, later: nat {:trigger At(acts, later), acts(publish)}
              | start < publish < later && acts(publish).PublishState? ::
              Shows(At(acts, later).store.snapshot, NormalizeMac(acts(arrive).mac), Unix(At(acts, arrive).clock))
  {
    hide Enabled, Do, At, WritesTime, Shows, TimelyFor, HandlersMove, NormalizeMac, MacShape;
    var mark, request := ArrivalIsHandled(acts, arrive);
    start := RequestIsServed(acts, request);
    var m, v := NormalizeMac(acts(arrive).mac), Unix(At(acts, arrive).clock);
    forall publish: nat, later: nat {:trigger At(acts, later), acts(publish)}
      | start < publish < later && acts(publish).PublishState?
      ensures Shows(At(acts, later).store.snapshot, m, v)
    {
      SightingReachesSnapshots(acts, mark, start, publish, later, m, v);
    }
  }
}
