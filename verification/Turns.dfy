/** The sequential poll loop and bus handler are runs of the interleaved system: each is a sequence of its steps. */
module Turns {
  import opened Common
  import opened Store
  import opened Version
  import opened Fetch
  import opened Refresh
  import opened Protocol
  import opened Replay

  /** The state a sequence of steps leads to, if each can be taken. */
  ghost function After(s: Sys, steps: seq<Action>): Option<Sys> {
    if steps == [] then Some(s)
    else
      var before, a := After(s, steps[..|steps| - 1]), steps[|steps| - 1];
      if before.Some? && Enabled(before.value, a) then Some(Do(before.value, a)) else None
  }

  lemma {:induction false} Then(s: Sys, steps: seq<Action>, t: Sys, a: Action) returns (more: seq<Action>, u: Sys)
    requires After(s, steps) == Some(t) && Enabled(t, a)
    ensures After(s, more) == Some(u) && u == Do(t, a)
  {
    more, u := steps + [a], Do(t, a);
    assert more[..|more| - 1] == steps;
  }

  ghost function LoopOf(s: Sys): Loop {
    Loop(s.store, s.cache, s.token, s.last)
  }

  /** The transitions waiting to be sent are sent one by one. */
  lemma {:induction false} SendAll(s: Sys, steps: seq<Action>, t: Sys) returns (more: seq<Action>, u: Sys)
    requires After(s, steps) == Some(t) && t.pc.Broadcasting?
    ensures After(s, more) == Some(u)
    ensures u == t.(pc := Broadcasting([]),
                    history := t.history.(
                      emitted := t.history.emitted + Number(|t.history.published|, t.pc.queue)))
    decreases |t.pc.queue|
  {
    var n := |t.history.published|;
    if t.pc.queue == [] {
      more, u := steps, t;
      assert t.history.emitted + Number(n, []) == t.history.emitted;
    } else {
      more, u := Then(s, steps, t, Emit);
      assert [Emitted(n, t.pc.queue[0])] + Number(n, t.pc.queue[1..]) == Number(n, t.pc.queue);
      more, u := SendAll(s, more, u);
    }
  }

  /** The transitions of a refresh have been sent, and nothing else changed but the loop's own state. */
  ghost predicate Announced(s: Sys, t: Sys, events: seq<Event>) {
    && t.pc == Selecting && t.clock == t.last && t.handlers == s.handlers
    && t.history.emitted == s.history.emitted + Number(|t.history.published|, events)
  }

  /** A refresh about to start is a run of the system to its end. */
  lemma {:induction false} RefreshIsARun(s: Sys, steps: seq<Action>, t: Sys, answers: Option<Answers>, pace: Pace)
    returns (more: seq<Action>, u: Sys)
    requires After(s, steps) == Some(t) && t.pc.Starting?
    requires answers.Some? ==> ValidAnswers(answers.value)
    ensures After(s, more) == Some(u) && LoopOf(u) == AfterRefresh(LoopOf(t), t.clock, answers, pace)
    ensures Announced(t, u, EventsOf(LoopOf(t), t.clock, answers, pace))
  {
    hide After, ReadingOf, CallOf, AfterCall, Answer, ValidAnswers, PublishOn, ConnectedMap, Transitions, Number,
         SampleOf;
    var times, end := TimesOf(t.clock, pace), EndOf(t.clock, pace);
    more, u := Then(s, steps, t, StartRefresh);
    more, u := Then(s, more, u, Advance(times.done));
    if answers.None? {
      more, u := Then(s, more, u, DevicesFail);
    } else {
      more, u := Then(s, more, u, FetchAll(answers.value, times.asked, times.done));
      more, u := Then(s, more, u, CopyState);
      more, u := Then(s, more, u, PublishState);
    }
    more, u := SendAll(s, more, u);
    more, u := Then(s, more, u, Advance(end));
    more, u := Then(s, more, u, EndRefresh);
  }

  /** The start of the loop is a run from the initial state. */
  lemma {:induction false} BeginIsARun(started: nat, answers: Option<Answers>, pace: Pace)
    returns (steps: seq<Action>, t: Sys)
    requires answers.Some? ==> ValidAnswers(answers.value)
    ensures After(INIT, steps) == Some(t) && LoopOf(t) == AfterRefresh(LoopOf(INIT), started, answers, pace)
    ensures Announced(INIT, t, EventsOf(LoopOf(INIT), started, answers, pace))
  {
    hide AfterRefresh, EffectOf, ValidAnswers;
    steps, t := Then(INIT, [], INIT, Advance(started));
    steps, t := RefreshIsARun(INIT, steps, t, answers, pace);
  }

  /** From a token in the channel to the start of the refresh it asks for, through the floor. */
  lemma {:induction false} FloorIsARun(s: Sys, steps: seq<Action>, t: Sys, pace: Pace)
    returns (more: seq<Action>, u: Sys)
    requires After(s, steps) == Some(t) && t.pc == Selecting && t.token && t.clock == t.last + pace.idle
    ensures After(s, more) == Some(u)
    ensures u == t.(pc := Starting(true), token := false, history := u.history,
                    clock := t.last + if pace.idle < FLOOR then FLOOR else pace.idle)
    ensures u.history.emitted == t.history.emitted
  {
    hide After, PublishOn, Marked, Transitions, ConnectedMap, IsSighting, ValidAnswers, ReadingOf, Answer, AfterCall;
    more, u := Then(s, steps, t, TakeToken);
    more, u := Then(s, more, u, CheckFloor);
    if pace.idle < FLOOR {
      more, u := Then(s, more, u, Advance(t.last + FLOOR));
      more, u := Then(s, more, u, WakeUp);
      more, u := Then(s, more, u, DrainToken);
    }
  }

  /** From the select to the point where the refresh of the turn starts. */
  lemma {:induction false} WakeIsARun(s: Sys, ticked: bool, pace: Pace) returns (steps: seq<Action>, t: Sys)
    requires s.pc == Selecting && (ticked || s.token) && s.clock <= s.last + pace.idle
    ensures After(s, steps) == Some(t) && t.pc.Starting? && t.clock == StartOf(LoopOf(s), ticked, pace)
    ensures LoopOf(t) == LoopOf(s).(token := ticked && s.token)
    ensures t.handlers == s.handlers && t.history.emitted == s.history.emitted
  {
    assert After(s, []) == Some(s);
    hide After, PublishOn, Marked, Transitions, ConnectedMap, IsSighting, ValidAnswers, ReadingOf, Answer, AfterCall,
         CallOf;
    steps, t := Then(s, [], s, Advance(s.last + pace.idle));
    if ticked {
      steps, t := Then(s, steps, t, TickerFires);
    } else {
      steps, t := FloorIsARun(s, steps, t, pace);
    }
    steps, t := Then(s, steps, t, Advance(StartOf(LoopOf(s), ticked, pace)));
  }

  /** A turn of the loop is a run from a state where the loop selects to the next such state. */
  lemma {:induction false} TurnIsARun(s: Sys, ticked: bool, answers: Option<Answers>,
                                      pace: Pace)
    returns (steps: seq<Action>, t: Sys)
    requires s.pc == Selecting && (ticked || s.token) && s.clock <= s.last + pace.idle
    requires answers.Some? ==> ValidAnswers(answers.value)
    ensures After(s, steps) == Some(t) && LoopOf(t) == AfterTurn(LoopOf(s), ticked, answers, pace)
    ensures Announced(s, t, EventsOf(LoopOf(s), StartOf(LoopOf(s), ticked, pace), answers, pace))
  {
    hide After, StartOf, AfterRefresh, EffectOf, ValidAnswers;
    steps, t := WakeIsARun(s, ticked, pace);
    steps, t := RefreshIsARun(s, steps, t, answers, pace);
  }

  /** A bus event handled at once is a run: the clock is read, the sighting written, the refresh requested. */
  lemma {:induction false} BusEventIsARun(s: Sys, id: nat, topic: string, mac: string)
    returns (steps: seq<Action>, t: Sys)
    requires id !in s.handlers
    ensures After(s, steps) == Some(t) && LoopOf(t) == AfterBusEvent(LoopOf(s), topic, mac, s.clock)
    ensures t.clock == s.clock && t.pc == s.pc && t.handlers == s.handlers
  {
    hide IsSighting, Marked;
    assert After(s, []) == Some(s);
    hide After;
    steps, t := Then(s, [], s, EventArrives(id, topic, mac));
    if IsSighting(topic, mac) {
      steps, t := Then(s, steps, t, Mark(id));
    }
    steps, t := Then(s, steps, t, Request(id));
    assert t.handlers == s.handlers;
  }
}
