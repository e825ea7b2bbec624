/** How long the event listener waits before it reconnects (custom_components/spr/coordinator.py). */
module Backoff {

  /** How one attempt to listen ended: the stream closed, the token was rejected, or anything else failed. */
  datatype Outcome = Ended | Rejected | Failed

  const FIRST: nat := 5
  const LONGEST: nat := 300

  function Min(a: nat, b: nat): nat {
    if a < b then a else b
  }

  function Pow2(n: nat): nat {
    if n == 0 then 1 else 2 * Pow2(n - 1)
  }

  /** How many attempts failed in a row, up to the last. */
  function Streak(outcomes: seq<Outcome>): nat {
    if outcomes == [] || !outcomes[|outcomes| - 1].Failed? then 0 else 1 + Streak(outcomes[..|outcomes| - 1])
  }

  /** The wait after the last attempt: five seconds doubled once per failure in a row, at most five minutes.
      The first failures count one less, as the doubling follows the wait. */
  function Delay(outcomes: seq<Outcome>): nat
    requires outcomes != []
  {
    var streak := Streak(outcomes);
    Min(LONGEST, FIRST * Pow2(if streak == |outcomes| then streak - 1 else streak))
  }

  /** Failures in a row wait twice as long as the attempt before, up to five minutes; anything else waits five
      seconds, and so does the first attempt. */
  lemma DelayExactly(outcomes: seq<Outcome>, n: nat)
    requires n < |outcomes|
    ensures Delay(outcomes[..n + 1]) ==
            if n == 0 || !outcomes[n].Failed? then 5
            else if Delay(outcomes[..n]) <= 150 then 2 * Delay(outcomes[..n]) else 300
  {
    if n == 0 {
      FirstDelay(outcomes[..1]);
    } else {
      assert outcomes[..n + 1] == outcomes[..n] + [outcomes[n]];
      Doubling(outcomes[..n], outcomes[n]);
      hide Delay;
    }
  }

  lemma FirstDelay(outcomes: seq<Outcome>)
    requires |outcomes| == 1
    ensures Delay(outcomes) == 5
  {
    assert outcomes[..0] == [] && Streak([]) == 0;
  }

  lemma Doubling(outcomes: seq<Outcome>, last: Outcome)
    requires outcomes != []
    ensures Delay(outcomes + [last]) == if last.Failed? then Min(LONGEST, 2 * Delay(outcomes)) else FIRST
  {
    assert (outcomes + [last])[..|outcomes|] == outcomes;
    StreakAtMost(outcomes);
  }

  lemma {:induction false} StreakAtMost(outcomes: seq<Outcome>)
    ensures Streak(outcomes) <= |outcomes|
  {
    if outcomes != [] {
      StreakAtMost(outcomes[..|outcomes| - 1]);
    }
  }

  /** `_event_loop` over the outcomes of its attempts: it stops at the first rejection, and otherwise waits
      as `Delay` says after each attempt. */
  method EventLoop(outcomes: seq<Outcome>) returns (waits: seq<nat>)
    ensures |waits| <= |outcomes|
    ensures forall i | 0 <= i < |waits| :: !outcomes[i].Rejected? && waits[i] == Delay(outcomes[..i + 1])
    ensures |waits| < |outcomes| ==> outcomes[|waits|].Rejected?
    ensures forall i | 0 <= i < |waits| ::
              waits[i] == if i == 0 || outcomes[i].Ended? then 5
                          else if waits[i - 1] <= 150 then 2 * waits[i - 1] else 300
  {
    hide Delay, Streak;
    var backoff := FIRST;
    waits := [];
    for n := 0 to |outcomes|
      invariant |waits| == n
      invariant backoff == if n == 0 then FIRST else Min(LONGEST, 2 * Delay(outcomes[..n]))
      invariant forall i | 0 <= i < n :: !outcomes[i].Rejected? && waits[i] == Delay(outcomes[..i + 1])
      invariant forall i | 0 <= i < n ::
                  waits[i] == if i == 0 || outcomes[i].Ended? then 5
                              else if waits[i - 1] <= 150 then 2 * waits[i - 1] else 300
    {
      DelayExactly(outcomes, n);
      if outcomes[n].Rejected? {
        return;
      }
      if outcomes[n].Ended? {
        backoff := FIRST;
      }
      waits := waits + [backoff];
      backoff := Min(backoff * 2, LONGEST);
    }
  }
}
