/** The hypotheses of the liveness results are met: a run with a bus sighting, the request behind it and a refresh
    that publishes, followed by refreshes whose device fetch fails, for ever (code/state.go, code/events.go). */
module FairRun {
  import opened Common
  import opened Text
  import opened Devices
  import opened Store
  import opened Version
  import opened Fetch
  import opened Protocol
  import opened Wakeup
  import opened LateMark

  /** The handler writes at 5 s; the refresh it asks for finds the phone offline. Afterwards the clock moves on by
      a step's number. */
  ghost function FairSchedule(n: nat): Action {
    match n
    case 0 => Advance(FIVE)
    case 1 => EventArrives(1, "dhcp:request", PHONE)
    case 2 => Mark(1)
    case 3 => Request(1)
    case 4 => StartRefresh
    case 5 => FetchAll(PhoneAnswers(false), FIVE, FIVE)
    case 6 => CopyState
    case 7 => PublishState
    case 8 => EndRefresh
    case _ =>
      match n % 5
      case 4 => TickerFires
      case 0 => StartRefresh
      case 1 => DevicesFail
      case 2 => EndRefresh
      case _ => Advance(FIVE + n)
  }

  /** The state before step `n` of the endless part. */
  ghost predicate FairShape(n: nat, s: Sys) {
    && FIVE <= s.clock <= FIVE + n && (n > 9 && n % 5 == 4 ==> s.clock == FIVE + n - 1)
    && s.handlers == map[]
    && match n % 5
       case 0 => s.pc.Starting?
       case 1 => s.pc.Fetching?
       case 2 => s.pc == Broadcasting([])
       case _ => s.pc == Selecting
  }

  lemma {:induction false} FairStep(n: nat, s: Sys)
    requires n >= 9 && FairShape(n, s)
    ensures Enabled(s, FairSchedule(n)) && FairShape(n + 1, Do(s, FairSchedule(n)))
  {
    hide PublishOn, Marked, Transitions, SampleOf, ConnectedMap, ValidAnswers, ReadingOf, Answer, AfterCall,
         PhoneAnswers;
    var r := n % 5;
    assert (n + 1) % 5 == if r == 4 then 0 else r + 1;
  }

  /** The handler's part: the sighting and the request. */
  lemma {:induction false} SightingIsWritten()
    ensures forall n: nat | n < 4 :: EnabledAt(FairSchedule, n)
    ensures WritesTime(FairSchedule, 2, PHONE, 5) && Get(At(FairSchedule, 2).store.lastSeen, PHONE) == 0
    ensures var s := At(FairSchedule, 4);
            && s.clock == FIVE && s.pc.Starting? && s.handlers == map[]
            && s.store.snapshot.devices == [] && Get(s.store.lastSeen, PHONE) == 5
  {
    PhoneIsMac();
    assert IsSighting("dhcp:request", PHONE);
    hide At, MacShape, NormalizeMac, IsSighting, PhoneAnswers;
    FairBegins();
    assert EnabledAt(FairSchedule, 0);
    Take(FairSchedule, 0);
    assert EnabledAt(FairSchedule, 1);
    Take(FairSchedule, 1);
    assert EnabledAt(FairSchedule, 2);
    Take(FairSchedule, 2);
    assert EnabledAt(FairSchedule, 3);
    Take(FairSchedule, 3);
  }

  lemma {:induction false} FairBegins()
    ensures At(FairSchedule, 0) == INIT
  {
  }

  /** The refresh's part: the phone is published offline, seen when the handler saw it. */
  lemma {:induction false} SightingIsPublished() returns (d: TrackedDevice)
    ensures forall n: nat | n < 9 :: EnabledAt(FairSchedule, n)
    ensures FairShape(9, At(FairSchedule, 9))
    ensures At(FairSchedule, 9).store.snapshot.devices == [d]
    ensures d.mac == PHONE && !d.connected && d.lastSeen == 5
  {
    hide At, MacShape, NormalizeMac, PublishOn, PhoneAnswers, Transitions, ConnectedMap, IsSighting, ReadingOf, CallOf,
         Answer, AfterCall, ValidAnswers, WritesTime;
    SightingIsWritten();
    d := PhoneRefresh(FairSchedule, 4, false);
    assert EnabledAt(FairSchedule, 8);
    Take(FairSchedule, 8);
  }

  lemma {:induction false} FairState(n: nat)
    ensures EnabledAt(FairSchedule, n) && (n >= 9 ==> FairShape(n, At(FairSchedule, n)))
  {
    hide Enabled, Do, At, FairShape, FairSchedule;
    if n <= 9 {
      var d := SightingIsPublished();
    } else {
      FairState(n - 1);
      FairStep(n - 1, At(FairSchedule, n - 1));
      Take(FairSchedule, n - 1);
    }
    if n >= 9 {
      FairStep(n, At(FairSchedule, n));
    }
  }

  lemma {:induction false} OneWrite(n: nat)
    ensures !OvertakenAt(FairSchedule, n, PHONE)
  {
    hide At, Get;
    SightingIsWritten();
  }

  lemma {:induction false} OneHandler(n: nat)
    ensures n <= 3 ==> forall id | id in At(FairSchedule, n).handlers :: id == 1
    ensures n >= 4 ==> At(FairSchedule, n).handlers == map[]
  {
    hide At, Enabled, Do, PhoneAnswers;
    if n == 4 {
      SightingIsWritten();
    } else if n == 0 {
      FairBegins();
    } else {
      OneHandler(n - 1);
      FairState(n - 1);
      Take(FairSchedule, n - 1);
      AddsOnlyItsOwn(At(FairSchedule, n - 1), FairSchedule(n - 1));
    }
  }

  lemma {:induction false} AddsOnlyItsOwn(s: Sys, a: Action)
    requires Enabled(s, a)
    ensures forall id | id in Do(s, a).handlers :: id in s.handlers || (a.EventArrives? && id == a.id)
    ensures !(a.EventArrives? || a.Mark? || a.Request?) ==> Do(s, a).handlers == s.handlers
  {
    hide PublishOn, Transitions, SampleOf, ConnectedMap, IsSighting, ValidAnswers, ReadingOf, Answer, AfterCall, Marked;
  }

  /** There is a fair run that is timely for the phone, in which a handler writes a sighting, asks for a refresh, and
      the refresh that follows publishes it: all that `Wakeup.BusSightingIsReflected` asks for. */
  lemma {:induction false} FairRunExists() returns (d: TrackedDevice)
    ensures Fair(FairSchedule) && HandlersMove(FairSchedule) && TimelyFor(FairSchedule, NormalizeMac(PHONE))
    ensures FairSchedule(1) == EventArrives(1, "dhcp:request", PHONE) && MacShape(NormalizeMac(PHONE))
    ensures WritesTime(FairSchedule, 2, PHONE, 5) && FairSchedule(3) == Request(FairSchedule(2).id)
    ensures FairSchedule(4).StartRefresh? && FairSchedule(7).PublishState?
    ensures d in At(FairSchedule, 9).store.snapshot.devices && d.mac == PHONE && d.lastSeen == 5
  {
    PhoneIsMac();
    hide At, Enabled, Do, WritesTime, NormalizeMac, MacShape, PhoneAnswers, OvertakenAt;
    SightingIsWritten();
    d := SightingIsPublished();
    forall n: nat ensures EnabledAt(FairSchedule, n) {
      FairState(n);
    }
    assert IsRun(FairSchedule);
    forall n: nat ensures !OvertakenAt(FairSchedule, n, PHONE) {
      OneWrite(n);
    }
    forall i: nat, id: nat | id in At(FairSchedule, i).handlers ensures HandlerMovesFrom(FairSchedule, i, id) {
      OneHandler(i);
      assert MovesHandler(FairSchedule(3), 1);
    }
    forall i: nat | LoopReady(At(FairSchedule, i)) ensures MovesFrom(FairSchedule, i) {
      var j := 5 * i + 10;
      assert i <= j && LoopAction(FairSchedule(j));
    }
    forall i: nat, t: nat ensures TimeReaches(FairSchedule, i, t) {
      var j := 5 * (i + t) + 14;
      FairState(j);
      assert i <= j && t <= At(FairSchedule, j).clock;
    }
  }
}
