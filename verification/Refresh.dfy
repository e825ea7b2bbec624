/** One refresh from end to end, and the poll loop around it, when nothing else runs in between (code/refresh.go,
    code/state.go, code/events.go). Module `Turns` shows that these are runs of the interleaved system. */
module Refresh {
  import opened Common
  import opened Text
  import opened Devices
  import opened Traffic
  import opened Store
  import opened Version
  import opened Fetch
  import opened Hub

  /** The clock readings of a refresh: the one it stamps with, and when its version check is asked and answered. */
  datatype Times = Times(now: nat, asked: nat, done: nat)

  /** What a refresh leaves in the store and the version cache, and the transitions it announces. */
  datatype Effect = Effect(store: State, cache: Cache, events: seq<Event>)

  /** The effect of a refresh; without answers, the device fetch failed and nothing changes. */
  function EffectOf(store: State, cache: Cache, answers: Option<Answers>, t: Times): Effect {
    match answers
    case None => Effect(store, cache, [])
    case Some(a) =>
      var call := CallOf(a, t.asked, t.done);
      var after := PublishOn(store, ReadingOf(a, Answer(cache, call)), store.lastSeen, t.now);
      Effect(after, AfterCall(cache, call),
             Transitions(after.snapshot.devices, ConnectedMap(store.snapshot.devices)))
  }

  /** `refreshState`, through all its loops. */
  method RefreshState(store: StateStore, check: VersionCheck, hub: SseHub<Event>, answers: Option<Answers>, t: Times)
    requires answers.Some? ==> ValidAnswers(answers.value)
    modifies store, check, hub.subs
    ensures hub.subs == old(hub.subs)
    ensures var effect := EffectOf(old(store.View()), old(check.View()), answers, t);
            && store.View() == effect.store && check.View() == effect.cache
            && forall ch | ch in hub.subs ::
                 ch.queue == old(ch.queue) + effect.events[..Fitting(|old(ch.queue)|, |effect.events|)]
  {
    if answers.None? {
      return;
    }
    var r := FetchReading(answers.value, check, t.asked, t.done);
    var copied, prevConnected := store.CopyForRefresh();
    var tracked, local, connectedCount := BuildRecords(r.g, copied, t.now);
    tracked := Sort(tracked);
    var router := r.router.(clientsConnected := connectedCount);
    var snap := Snapshot(router, r.rxTotal, r.txTotal, NO_RATES, tracked, Unix(t.now));
    store.Publish(local, snap, t.now);
    Announce(hub, tracked, prevConnected);
  }

  /** The loop that broadcasts the transitions. */
  method Announce(hub: SseHub<Event>, tracked: seq<TrackedDevice>, prevConnected: map<string, bool>)
    modifies hub.subs
    ensures hub.subs == old(hub.subs)
    ensures var events := Transitions(tracked, prevConnected);
            forall ch | ch in hub.subs ::
              ch.queue == old(ch.queue) + events[..Fitting(|old(ch.queue)|, |events|)]
  {
    hide Fitting, Offer;
    ghost var subs := hub.subs;
    for i := 0 to |tracked|
      invariant hub.subs == subs
      invariant forall ch | ch in subs ::
                  var events := Transitions(tracked[..i], prevConnected);
                  ch.queue == old(ch.queue) + events[..Fitting(|old(ch.queue)|, |events|)]
    {
      assert tracked[..i + 1][..i] == tracked[..i];
      var d := tracked[i];
      if d.mac !in prevConnected || prevConnected[d.mac] == d.connected {
        continue;
      }
      ghost var earlier := Transitions(tracked[..i], prevConnected);
      var event := Event(d.connected, d.mac, d.name, d.ip);
      assert (earlier + [event])[..|earlier|] == earlier;
      label before:
      hub.Broadcast(event);
      forall ch | ch in subs
        ensures ch.queue == old(ch.queue) + (earlier + [event])[..Fitting(|old(ch.queue)|, |earlier| + 1)]
      {
        OfferFits(old(ch.queue), earlier, event);
        assert ch.queue == Offer(old@before(ch.queue), event);
      }
    }
    assert tracked[..|tracked|] == tracked;
  }

  // ---- the poll loop ----

  /** How long the loop waits and works in a turn: in the select, between being ready and reading the clock again,
      until the version check is asked, until that is answered, and until the refresh has ended. */
  datatype Pace = Pace(idle: nat, late: nat, asking: nat, answering: nat, rest: nat)

  function TimesOf(started: nat, pace: Pace): Times {
    Times(started, started + pace.asking, started + pace.asking + pace.answering)
  }

  function EndOf(started: nat, pace: Pace): nat {
    started + pace.asking + pace.answering + pace.rest
  }

  /** What the loop and the handlers share, and the loop's own reference time. */
  datatype Loop = Loop(store: State, cache: Cache, token: bool, last: nat)

  /** When the refresh of a turn starts: at once after a tick or a long enough pause, else when the floor is over. */
  function StartOf(l: Loop, ticked: bool, pace: Pace): nat {
    l.last + (if ticked then pace.idle else if pace.idle < FLOOR then FLOOR else pace.idle) + pace.late
  }

  /** The loop after a refresh started at `started`. */
  function AfterRefresh(l: Loop, started: nat, answers: Option<Answers>, pace: Pace): Loop {
    var effect := EffectOf(l.store, l.cache, answers, TimesOf(started, pace));
    Loop(effect.store, effect.cache, l.token, EndOf(started, pace))
  }

  /** What it announces. */
  function EventsOf(l: Loop, started: nat, answers: Option<Answers>, pace: Pace): seq<Event> {
    EffectOf(l.store, l.cache, answers, TimesOf(started, pace)).events
  }

  function AfterTurn(l: Loop, ticked: bool, answers: Option<Answers>, pace: Pace): Loop {
    AfterRefresh(l.(token := ticked && l.token), StartOf(l, ticked, pace), answers, pace)
  }

  function AfterBusEvent(l: Loop, topic: string, mac: string, now: nat): Loop {
    l.(token := true, store := if IsSighting(topic, mac) then Marked(l.store, mac, now) else l.store)
  }

  /** The poll loop with its wake-up channel, which holds at most one token. */
  class PollLoop {
    const store: StateStore
    const check: VersionCheck
    const hub: SseHub<Event>
    var token: bool
    var last: nat

    function View(): Loop
      reads this, store, check
    {
      Loop(store.View(), check.View(), token, last)
    }

    constructor (store: StateStore, check: VersionCheck, hub: SseHub<Event>)
      ensures this.store == store && this.check == check && this.hub == hub && !token && last == 0
    {
      this.store, this.check, this.hub := store, check, hub;
      token, last := false, 0;
    }

    /** `requestRefresh`: a second token would not fit and is not needed. */
    method RequestRefresh()
      modifies this`token
      ensures token
    {
      if !token {
        token := true;
      }
    }

    /** `handleBusEvent`: a sighting is recorded before the refresh is asked for. */
    method HandleBusEvent(topic: string, mac: string, now: nat)
      modifies this`token, store
      ensures View() == AfterBusEvent(old(View()), topic, mac, now)
      ensures token && View().last == old(View()).last && View().cache == old(View()).cache
      ensures var key := NormalizeMac(mac);
              if MacShape(key) && (topic == "wifi:auth:success" || topic == "dhcp:request")
              then View().store == old(View()).store.(lastSeen := old(View()).store.lastSeen[key := Unix(now)])
              else View().store == old(View()).store
    {
      assert NormalizeMac("") == "";
      hide NormalizeMac, MacShape, Unix;
      if mac != "" && IsMac(mac) {
        if topic == "wifi:auth:success" || topic == "dhcp:request" {
          store.MarkSeen(mac, now);
        }
      }
      RequestRefresh();
    }

    /** A refresh of the loop, from whose end the next interval is measured. The loop begins with one. */
    method RunRefresh(started: nat, answers: Option<Answers>, pace: Pace)
      requires answers.Some? ==> ValidAnswers(answers.value)
      modifies this`last, store, check, hub.subs
      ensures View() == AfterRefresh(old(View()), started, answers, pace) && hub.subs == old(hub.subs)
      ensures var events := EventsOf(old(View()), started, answers, pace);
              forall ch | ch in hub.subs ::
                ch.queue == old(ch.queue) + events[..Fitting(|old(ch.queue)|, |events|)]
    {
      hide EffectOf, TimesOf, EndOf, Fitting;
      RefreshState(store, check, hub, answers, TimesOf(started, pace));
      last := EndOf(started, pace);
    }

    /** One turn of the loop, from a select that chose the ticker or the token to the end of its refresh. */
    method Turn(ticked: bool, answers: Option<Answers>, pace: Pace) returns (started: nat)
      requires ticked || token
      requires answers.Some? ==> ValidAnswers(answers.value)
      modifies this, store, check, hub.subs
      ensures View() == AfterTurn(old(View()), ticked, answers, pace) && hub.subs == old(hub.subs)
      ensures started == StartOf(old(View()), ticked, pace)
      ensures !ticked ==> old(last) + FLOOR <= started
      ensures var events := EventsOf(old(View()), started, answers, pace);
              forall ch | ch in hub.subs ::
                ch.queue == old(ch.queue) + events[..Fitting(|old(ch.queue)|, |events|)]
    {
      hide EffectOf, TimesOf, EndOf, Fitting;
      var clock := last + pace.idle;
      if !ticked {
        token := false;
        var since := clock - last;
        if since < FLOOR {
          clock := clock + (FLOOR - since);
          token := false; // collapse the requests that piled up while sleeping
        }
      }
      started := clock + pace.late;
      RunRefresh(started, answers, pace);
    }
  }
}
