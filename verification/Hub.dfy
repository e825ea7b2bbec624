/** The event hub: bounded queues, one per subscriber, filled without ever blocking (code/api.go). */
module Hub {
  const CAPACITY: nat := 16

  /** A non-blocking send: a full queue drops the message. */
  function Offer<T>(queue: seq<T>, msg: T): seq<T> {
    if |queue| < CAPACITY then queue + [msg] else queue
  }

  /** How many of the messages coming in fit behind those waiting: all of them, or as many as make 16. */
  function Fitting(waiting: nat, coming: nat): (k: nat)
    ensures k <= coming && (k == coming || waiting + k >= 16)
    ensures waiting + k <= 16 || k == 0
  {
    if waiting >= CAPACITY then 0 else if coming <= CAPACITY - waiting then coming else CAPACITY - waiting
  }

  lemma OfferFits<T>(queue: seq<T>, msgs: seq<T>, msg: T)
    ensures Offer(queue + msgs[..Fitting(|queue|, |msgs|)], msg) ==
            queue + (msgs + [msg])[..Fitting(|queue|, |msgs| + 1)]
  {
    var k := Fitting(|queue|, |msgs|);
    assert k <= |msgs| && (msgs + [msg])[..k] == msgs[..k];
    if |queue| + k < CAPACITY {
      assert (msgs + [msg])[..k + 1] == msgs[..k] + [msg];
    }
  }

  class Channel<T> {
    var queue: seq<T>

    constructor ()
      ensures queue == []
    {
      queue := [];
    }

    method Receive() returns (msg: T)
      requires queue != []
      modifies this
      ensures [msg] + queue == old(queue)
    {
      msg := queue[0];
      queue := queue[1..];
    }
  }

  class SseHub<T> {
    var subs: set<Channel<T>>

    constructor ()
      ensures subs == {}
    {
      subs := {};
    }

    method Subscribe() returns (ch: Channel<T>)
      modifies this
      ensures fresh(ch) && ch.queue == []
      ensures subs == old(subs) + {ch}
    {
      ch := new Channel();
      subs := subs + {ch};
    }

    method Unsubscribe(ch: Channel<T>)
      modifies this
      ensures subs == old(subs) - {ch}
    {
      subs := subs - {ch};
    }

    /** Offers the message to every subscriber, whatever order the set is visited in. */
    method Broadcast(msg: T)
      modifies subs
      ensures forall ch | ch in subs ::
                ch.queue == if |old(ch.queue)| < 16 then old(ch.queue) + [msg] else old(ch.queue)
    {
      var rest := subs;
      while rest != {}
        invariant rest <= subs
        invariant forall ch | ch in subs ::
                    ch.queue == if ch in rest then old(ch.queue) else Offer(old(ch.queue), msg)
      {
        var ch :| ch in rest;
        if |ch.queue| < CAPACITY {
          ch.queue := ch.queue + [msg];
        }
        rest := rest - {ch};
      }
    }
  }

  // ---- runs ----

  datatype Op<T> =
    | Subscribe(id: nat)
    | Unsubscribe(id: nat)
    | Broadcast(msg: T)
    | Receive(id: nat)

  /** A subscriber: still in the hub's set or not, what waits for it, and what it has read. */
  datatype Subscriber<T> = Subscriber(live: bool, queue: seq<T>, received: seq<T>)

  type Subscribers<T> = map<nat, Subscriber<T>>

  /** One operation on the whole hub. Reading an empty queue blocks, so it changes nothing. */
  function Apply<T>(subs: Subscribers<T>, op: Op<T>): Subscribers<T> {
    match op
    case Subscribe(id) => if id in subs then subs else subs[id := Subscriber(true, [], [])]
    case Unsubscribe(id) => if id in subs then subs[id := subs[id].(live := false)] else subs
    case Broadcast(msg) =>
      map id | id in subs ::
        if subs[id].live then subs[id].(queue := Offer(subs[id].queue, msg)) else subs[id]
    case Receive(id) =>
      if id in subs && subs[id].queue != [] then
        var sub := subs[id];
        subs[id := sub.(queue := sub.queue[1..], received := sub.received + [sub.queue[0]])]
      else subs
  }

  function Run<T>(ops: seq<Op<T>>): Subscribers<T> {
    if ops == [] then map[] else Apply(Run(ops[..|ops| - 1]), ops[|ops| - 1])
  }

  /** Operation `k` put its message into the queue of `id`. */
  predicate Accepts<T>(ops: seq<Op<T>>, id: nat, k: nat)
    requires k < |ops|
  {
    var before := Run(ops[..k]);
    ops[k].Broadcast? && id in before && before[id].live && |before[id].queue| < 16
  }

  /** The positions of the broadcasts `id` accepted among the first `n` operations. */
  function Accepted<T>(ops: seq<Op<T>>, id: nat, n: nat): seq<nat>
    requires n <= |ops|
  {
    if n == 0 then []
    else if Accepts(ops, id, n - 1) then Accepted(ops, id, n - 1) + [n - 1]
    else Accepted(ops, id, n - 1)
  }

  ghost predicate Increasing(ks: seq<nat>, bound: nat) {
    && (forall i | 0 <= i < |ks| :: ks[i] < bound)
    && forall i, j | 0 <= i < j < |ks| :: ks[i] < ks[j]
  }

  /** What a subscriber has read and what waits for it are, in order, the messages of an increasing
      choice of the broadcasts; at most 16 wait. */
  lemma {:induction false} Delivery<T>(ops: seq<Op<T>>, id: nat, n: nat)
    requires n <= |ops|
    ensures Increasing(Accepted(ops, id, n), n)
    ensures forall i | 0 <= i < |Accepted(ops, id, n)| :: ops[Accepted(ops, id, n)[i]].Broadcast?
    ensures id !in Run(ops[..n]) ==> Accepted(ops, id, n) == []
    ensures id in Run(ops[..n]) ==>
              var sub, ks := Run(ops[..n])[id], Accepted(ops, id, n);
              && |sub.queue| <= 16
              && sub.received + sub.queue == seq(|ks|, i requires 0 <= i < |ks| => ops[ks[i]].msg)
  {
    if n > 0 {
      Delivery(ops, id, n - 1);
      assert ops[..n][..n - 1] == ops[..n - 1];
      var before, after := Run(ops[..n - 1]), Run(ops[..n]);
      if id in before {
        var sub, next := before[id], after[id];
        if Accepts(ops, id, n - 1) {
          assert next.received + next.queue == (sub.received + sub.queue) + [ops[n - 1].msg];
        } else {
          assert next.received + next.queue == sub.received + sub.queue;
        }
      }
    }
  }

  function Broadcasts<T>(msgs: seq<T>): seq<Op<T>> {
    seq(|msgs|, i requires 0 <= i < |msgs| => Broadcast(msgs[i]))
  }

  lemma RunSnoc<T>(ops: seq<Op<T>>, op: Op<T>)
    ensures Run(ops + [op]) == Apply(Run(ops), op)
  {
    assert (ops + [op])[..|ops|] == ops;
  }

  /** One broadcast after another leaves a subscriber with as many of the messages, from the first on, as fit. */
  lemma {:induction false} BroadcastsFill<T>(ops: seq<Op<T>>, msgs: seq<T>, id: nat)
    requires id in Run(ops) && Run(ops)[id].live
    ensures id in Run(ops + Broadcasts(msgs))
    ensures var sub := Run(ops)[id];
            Run(ops + Broadcasts(msgs))[id] == sub.(queue := sub.queue + msgs[..Fitting(|sub.queue|, |msgs|)])
  {
    hide Fitting, Offer, Run;
    var sub := Run(ops)[id];
    if msgs == [] {
      assert ops + Broadcasts(msgs) == ops;
      assert sub.queue + msgs[..0] == sub.queue;
    } else {
      var n := |msgs| - 1;
      var before, all := ops + Broadcasts(msgs[..n]), ops + Broadcasts(msgs);
      BroadcastsFill(ops, msgs[..n], id);
      assert all == before + [Broadcast(msgs[n])];
      RunSnoc(before, Broadcast(msgs[n]));
      OfferFits(sub.queue, msgs[..n], msgs[n]);
      assert msgs[..n] + [msgs[n]] == msgs;
    }
  }

  ghost predicate Live<T>(ops: seq<Op<T>>, id: nat, k: nat)
    requires k <= |ops|
  {
    id in Run(ops[..k]) && Run(ops[..k])[id].live
  }

  /** A subscriber is live from when it first subscribes until it unsubscribes. */
  ghost predicate JoinedAt<T>(ops: seq<Op<T>>, id: nat, s: int) {
    0 <= s < |ops| && ops[s] == Subscribe(id) && forall j | 0 <= j < s :: ops[j] != Subscribe(id)
  }

  lemma {:induction false} KnownExactly<T>(ops: seq<Op<T>>, id: nat)
    ensures id in Run(ops) <==> Subscribe(id) in ops
    ensures id in Run(ops) && Run(ops)[id].live <==>
            exists s :: JoinedAt(ops, id, s) && forall u | s < u < |ops| :: ops[u] != Unsubscribe(id)
  {
    if ops != [] {
      var n := |ops| - 1;
      var before := ops[..n];
      KnownExactly(before, id);
      assert ops == before + [ops[n]];
      assert forall j | 0 <= j < n :: before[j] == ops[j];
      hide Run;
      RunSnoc(before, ops[n]);
      assert forall s | 0 <= s < n :: JoinedAt(before, id, s) <==> JoinedAt(ops, id, s);
      if Subscribe(id) !in before && ops[n] == Subscribe(id) {
        assert JoinedAt(ops, id, n);
      }
    }
  }

  /** What waits for a subscriber is what it gets by reading on, in order. */
  lemma {:induction false} ReadingDrains<T>(ops: seq<Op<T>>, id: nat, n: nat)
    requires id in Run(ops) && n <= |Run(ops)[id].queue|
    ensures var sub, more := Run(ops)[id], ops + seq(n, i => Receive(id));
            id in Run(more) && Run(more)[id] == sub.(queue := sub.queue[n..], received := sub.received + sub.queue[..n])
  {
    hide Run;
    var sub := Run(ops)[id];
    var more := ops + seq(n, i => Receive(id));
    if n == 0 {
      assert more == ops;
      assert sub.queue[0..] == sub.queue && sub.received + sub.queue[..0] == sub.received;
    } else {
      var fewer := ops + seq(n - 1, i => Receive(id));
      ReadingDrains(ops, id, n - 1);
      assert more == fewer + [Receive(id)];
      RunSnoc(fewer, Receive(id));
      assert sub.queue[..n] == sub.queue[..n - 1] + [sub.queue[n - 1]];
    }
  }

  /** A broadcast made while `id` is subscribed is missing exactly when 16 messages were waiting. */
  lemma {:induction false} MissingOnlyWhenFull<T>(ops: seq<Op<T>>, id: nat, n: nat, k: nat)
    requires k < n <= |ops| && ops[k].Broadcast? && Live(ops, id, k)
    ensures k !in Accepted(ops, id, n) <==> |Run(ops[..k])[id].queue| == 16
  {
    Delivery(ops, id, k);
    if n == k + 1 {
      Delivery(ops, id, k);
      assert k !in Accepted(ops, id, k);
    } else {
      MissingOnlyWhenFull(ops, id, n - 1, k);
    }
  }

  /** Any two subscribers that both got two messages got them in the same order. */
  lemma SubscribersAgreeOnOrder<T>(ops: seq<Op<T>>, a: nat, b: nat, i: nat, j: nat, k: nat, l: nat)
    requires i < |Accepted(ops, a, |ops|)| && j < |Accepted(ops, a, |ops|)|
    requires k < |Accepted(ops, b, |ops|)| && l < |Accepted(ops, b, |ops|)|
    requires Accepted(ops, a, |ops|)[i] == Accepted(ops, b, |ops|)[k]
    requires Accepted(ops, a, |ops|)[j] == Accepted(ops, b, |ops|)[l]
    ensures i < j <==> k < l
  {
    Delivery(ops, a, |ops|);
    Delivery(ops, b, |ops|);
  }

  /** The messages broadcast, in order. */
  function MessagesOf<T>(ops: seq<Op<T>>): seq<T> {
    if ops == [] then []
    else
      var last := ops[|ops| - 1];
      MessagesOf(ops[..|ops| - 1]) + if last.Broadcast? then [last.msg] else []
  }

  lemma NoMessages<T>()
    ensures MessagesOf<T>([]) == []
  {
  }

  lemma MessagesSnoc<T>(ops: seq<Op<T>>, op: Op<T>)
    ensures MessagesOf(ops + [op]) == MessagesOf(ops) + if op.Broadcast? then [op.msg] else []
  {
    assert (ops + [op])[..|ops|] == ops;
  }

  lemma KeepsAll<T>(subs: Subscribers<T>, op: Op<T>, id: nat)
    requires id in subs && subs[id].live && |subs[id].queue| < 16 && op != Unsubscribe(id)
    ensures id in Apply(subs, op) && Apply(subs, op)[id].live
    ensures var sub, next := subs[id], Apply(subs, op)[id];
            next.received + next.queue == sub.received + sub.queue + if op.Broadcast? then [op.msg] else []
  {
    var sub, next := subs[id], Apply(subs, op)[id];
    if op.Receive? && op.id == id && sub.queue != [] {
      assert sub.queue == [sub.queue[0]] + sub.queue[1..];
    }
  }

  /** A subscriber whose queue never fills up while it is subscribed has got, or has waiting, every message broadcast
      since it joined, in order. */
  lemma {:induction false} NothingIsLost<T>(ops: seq<Op<T>>, joined: nat, id: nat)
    requires joined <= |ops| && id in Run(ops[..joined]) && Run(ops[..joined])[id] == Subscriber(true, [], [])
    requires forall k | joined <= k < |ops| ::
               ops[k] != Unsubscribe(id) && (id in Run(ops[..k]) ==> |Run(ops[..k])[id].queue| < 16)
    ensures id in Run(ops) && Run(ops)[id].live
    ensures Run(ops)[id].received + Run(ops)[id].queue == MessagesOf(ops[joined..])
  {
    hide Run, Apply, MessagesOf;
    var n := |ops| - 1;
    if joined == |ops| {
      assert ops[..joined] == ops && ops[joined..] == [];
      assert MessagesOf<T>([]) == [] by { NoMessages<T>(); }
    } else {
      var before := ops[..n];
      assert forall k | 0 <= k <= n :: before[..k] == ops[..k];
      NothingIsLost(before, joined, id);
      assert ops == before + [ops[n]] && ops[joined..] == before[joined..] + [ops[n]];
      RunSnoc(before, ops[n]);
      MessagesSnoc(before[joined..], ops[n]);
      assert |Run(ops[..n])[id].queue| < 16;
      KeepsAll(Run(before), ops[n], id);
    }
  }

  // ---- isolation ----

  /** The operation is a broadcast or one of the subscriber's own. */
  predicate Concerns<T>(op: Op<T>, id: nat) {
    op.Broadcast? || op.id == id
  }

  /** The run with every other subscriber's operations left out. */
  function Alone<T>(ops: seq<Op<T>>, id: nat): seq<Op<T>> {
    if ops == [] then []
    else
      var last := ops[|ops| - 1];
      Alone(ops[..|ops| - 1], id) + if Concerns(last, id) then [last] else []
  }

  ghost predicate SameFor<T>(a: Subscribers<T>, b: Subscribers<T>, id: nat) {
    (id in a <==> id in b) && (id in a ==> a[id] == b[id])
  }

  /** No subscriber affects another: what one has read and has waiting is the same as if the others had
      never subscribed, unsubscribed or read anything. */
  lemma {:induction false} Isolation<T>(ops: seq<Op<T>>, id: nat)
    ensures SameFor(Run(ops), Run(Alone(ops, id)), id)
  {
    if ops != [] {
      var before, last := ops[..|ops| - 1], ops[|ops| - 1];
      Isolation(before, id);
      if Concerns(last, id) {
        assert Alone(ops, id) == Alone(before, id) + [last];
        assert Alone(ops, id)[..|Alone(ops, id)| - 1] == Alone(before, id);
      } else {
        assert Alone(ops, id) == Alone(before, id);
      }
    }
  }
}
