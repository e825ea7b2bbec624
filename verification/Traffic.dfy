/** WAN byte accounting: per-address counters, totals and rates (code/refresh.go). */
module Traffic {
  import opened Common

  /** Go's `uint64` addition wraps around. */
  const WORD: nat := 0x1_0000_0000_0000_0000

  function Add64(a: nat, b: nat): nat {
    (a + b) % WORD
  }

  datatype Element = Element(ip: string, bytes: nat)

  /** Bytes of all elements, without wrap-around. */
  function Bytes(els: seq<Element>): nat {
    if els == [] then 0 else Bytes(els[..|els| - 1]) + els[|els| - 1].bytes
  }

  /** Bytes of the elements of one address, without wrap-around. */
  function BytesOf(els: seq<Element>, ip: string): nat {
    if els == [] then 0
    else
      var last := els[|els| - 1];
      BytesOf(els[..|els| - 1], ip) + if last.ip == ip then last.bytes else 0
  }

  /** The bytes of elements, in all and of one address, are a sum over the elements. */
  lemma {:induction false} BytesAreSums(a: seq<Element>, b: seq<Element>, el: Element, ip: string)
    ensures Bytes([]) == 0 && Bytes([el]) == el.bytes && Bytes(a + b) == Bytes(a) + Bytes(b)
    ensures BytesOf([], ip) == 0 && BytesOf([el], ip) == (if el.ip == ip then el.bytes else 0)
    ensures BytesOf(a + b, ip) == BytesOf(a, ip) + BytesOf(b, ip)
  {
    assert [el][..0] == [];
    if b == [] {
      assert a + b == a;
    } else {
      assert (a + b)[..|a + b| - 1] == a + b[..|b| - 1];
      BytesAreSums(a, b[..|b| - 1], el, ip);
    }
  }

  /** The counters an accounting loop leaves, by address. */
  function CountersOf(els: seq<Element>): map<string, nat> {
    map ip | ip in (set e | e in els :: e.ip) :: BytesOf(els, ip) % WORD
  }

  lemma AddWraps(a: nat, b: nat)
    ensures Add64(a % WORD, b) == (a + b) % WORD
  {
  }

  /** The counters and the total one accounting loop computes. */
  method Account(els: seq<Element>) returns (byIP: map<string, nat>, total: nat)
    ensures total == Bytes(els) % WORD
    ensures forall ip :: Get(byIP, ip) == BytesOf(els, ip) % WORD
    ensures byIP.Keys == set e | e in els :: e.ip
  {
    byIP, total := map[], 0;
    for i := 0 to |els|
      invariant total == Bytes(els[..i]) % WORD
      invariant forall ip :: Get(byIP, ip) == BytesOf(els[..i], ip) % WORD
      invariant byIP.Keys == set e | e in els[..i] :: e.ip
    {
      var el := els[i];
      assert els[..i + 1] == els[..i] + [el];
      AddWraps(Bytes(els[..i]), el.bytes);
      AddWraps(BytesOf(els[..i], el.ip), el.bytes);
      byIP := byIP[el.ip := Add64(Get(byIP, el.ip), el.bytes)];
      total := Add64(total, el.bytes);
    }
    assert els[..|els|] == els;
  }

  // ---- conservation ----

  /** Sum of the counters kept for a set of addresses. */
  ghost function SumOver(f: string -> nat, ips: set<string>): nat {
    if ips == {} then 0 else var ip :| ip in ips; f(ip) + SumOver(f, ips - {ip})
  }

  lemma {:induction false} SumOverTake(f: string -> nat, ips: set<string>, ip: string)
    requires ip in ips
    ensures SumOver(f, ips) == f(ip) + SumOver(f, ips - {ip})
    decreases |ips|
  {
    var first :| first in ips && SumOver(f, ips) == f(first) + SumOver(f, ips - {first});
    if first != ip {
      SumOverTake(f, ips - {first}, ip);
      SumOverTake(f, ips - {ip}, first);
      assert ips - {first} - {ip} == ips - {ip} - {first};
    }
  }

  lemma {:induction false} SumOverAdd(f: string -> nat, g: string -> nat, ips: set<string>, ip: string, b: nat)
    requires ip in ips
    requires forall x :: g(x) == f(x) + if x == ip then b else 0
    ensures SumOver(g, ips) == SumOver(f, ips) + b
  {
    SumOverTake(f, ips, ip);
    SumOverTake(g, ips, ip);
    SumOverSame(f, g, ips - {ip});
  }

  lemma {:induction false} SumOverSame(f: string -> nat, g: string -> nat, ips: set<string>)
    requires forall x | x in ips :: g(x) == f(x)
    ensures SumOver(g, ips) == SumOver(f, ips)
    decreases |ips|
  {
    if ips != {} {
      var x :| x in ips;
      SumOverTake(f, ips, x);
      SumOverTake(g, ips, x);
      SumOverSame(f, g, ips - {x});
    }
  }

  lemma {:induction false} SumOverZero(f: string -> nat, ips: set<string>)
    requires forall x | x in ips :: f(x) == 0
    ensures SumOver(f, ips) == 0
    decreases |ips|
  {
    if ips != {} {
      var x :| x in ips;
      SumOverTake(f, ips, x);
      SumOverZero(f, ips - {x});
    }
  }

  /** The per-address bytes of any element list add up to its total, over any addresses that cover it. */
  lemma {:induction false} BytesAreConserved(els: seq<Element>, ips: set<string>)
    requires forall e | e in els :: e.ip in ips
    ensures SumOver(ip => BytesOf(els, ip), ips) == Bytes(els)
  {
    if els == [] {
      SumOverZero(ip => BytesOf(els, ip), ips);
    } else {
      var before, last := els[..|els| - 1], els[|els| - 1];
      BytesAreConserved(before, ips);
      SumOverAdd(ip => BytesOf(before, ip), ip => BytesOf(els, ip), ips, last.ip, last.bytes);
    }
  }

  /** Counters that wrapped fall short of the true ones by whole multiples of 2^64. */
  lemma {:induction false} SumOverWraps(f: string -> nat, g: string -> nat, ips: set<string>) returns (k: nat)
    requires forall x | x in ips :: g(x) == f(x) % WORD
    ensures SumOver(f, ips) == SumOver(g, ips) + Words(k)
    decreases |ips|
  {
    if ips == {} {
      k := 0;
    } else {
      var x :| x in ips;
      SumOverTake(f, ips, x);
      SumOverTake(g, ips, x);
      k := SumOverWraps(f, g, ips - {x});
      WordsSplit(f(x));
      k := k + f(x) / WORD;
    }
  }

  function Words(k: nat): nat {
    k * 0x1_0000_0000_0000_0000
  }

  lemma WordsSplit(v: nat)
    ensures v == v % WORD + Words(v / WORD)
  {
  }

  lemma WordsVanish(v: nat, k: nat)
    ensures (v + Words(k)) % WORD == v % WORD
  {
  }

  /** A per-address map and a total as `Account` leaves them. */
  ghost predicate Accounted(els: seq<Element>, byIP: map<string, nat>, total: nat) {
    && total == Bytes(els) % WORD
    && (forall ip :: Get(byIP, ip) == BytesOf(els, ip) % WORD)
    && byIP.Keys == set e | e in els :: e.ip
  }

  lemma {:induction false} NoBytesElsewhere(els: seq<Element>, ip: string)
    requires forall e | e in els :: e.ip != ip
    ensures BytesOf(els, ip) == 0
  {
    if els != [] {
      NoBytesElsewhere(els[..|els| - 1], ip);
    }
  }

  /** There is one such map for a list of elements. */
  lemma AccountedIsCounters(els: seq<Element>, byIP: map<string, nat>, total: nat)
    requires Accounted(els, byIP, total)
    ensures byIP == CountersOf(els)
  {
    hide BytesOf, Bytes;
    assert forall ip | ip in byIP :: byIP[ip] == Get(byIP, ip);
  }

  lemma CountersAreAccounted(els: seq<Element>)
    ensures Accounted(els, CountersOf(els), Bytes(els) % WORD)
  {
    forall ip ensures Get(CountersOf(els), ip) == BytesOf(els, ip) % WORD {
      if ip !in CountersOf(els) {
        NoBytesElsewhere(els, ip);
      }
    }
  }

  /** The counters add up to the total, both taken modulo 2^64; exactly, when nothing wrapped. */
  lemma CountersSumToTotal(els: seq<Element>, byIP: map<string, nat>, total: nat)
    requires Accounted(els, byIP, total)
    ensures SumOver(ip => Get(byIP, ip), byIP.Keys) % WORD == total
    ensures Bytes(els) < WORD ==> SumOver(ip => Get(byIP, ip), byIP.Keys) == total == Bytes(els)
  {
    hide BytesOf, Bytes, SumOver;
    BytesAreConserved(els, byIP.Keys);
    var k := SumOverWraps(ip => BytesOf(els, ip), ip => Get(byIP, ip), byIP.Keys);
    WordsVanish(SumOver(ip => Get(byIP, ip), byIP.Keys), k);
    if Bytes(els) < WORD {
      forall ip ensures Get(byIP, ip) == BytesOf(els, ip) {
        BytesOfAtMost(els, ip);
      }
      SumOverSame(ip => BytesOf(els, ip), ip => Get(byIP, ip), byIP.Keys);
    }
  }

  lemma {:induction false} BytesOfAtMost(els: seq<Element>, ip: string)
    ensures BytesOf(els, ip) <= Bytes(els)
  {
    if els != [] {
      BytesOfAtMost(els[..|els| - 1], ip);
    }
  }

  /** Bytes credited to devices, each with its address (empty for none). */
  type Credits = seq<(string, nat)>

  function SumCredits(credits: Credits): nat {
    if credits == [] then 0 else SumCredits(credits[..|credits| - 1]) + credits[|credits| - 1].1
  }

  /** So are credits. */
  lemma {:induction false} CreditsAreSums(a: Credits, b: Credits, c: (string, nat))
    ensures SumCredits([]) == 0 && SumCredits([c]) == c.1 && SumCredits(a + b) == SumCredits(a) + SumCredits(b)
  {
    assert [c][..0] == [];
    if b == [] {
      assert a + b == a;
    } else {
      assert (a + b)[..|a + b| - 1] == a + b[..|b| - 1];
      CreditsAreSums(a, b[..|b| - 1], c);
    }
  }

  /** No device is credited more than its address's counter, and no address serves two devices. */
  ghost predicate FairCredits(credits: Credits, byIP: map<string, nat>) {
    && (forall i | 0 <= i < |credits| :: credits[i].1 <= if credits[i].0 == "" then 0 else Get(byIP, credits[i].0))
    && forall i, j | 0 <= i < j < |credits| && credits[i].0 != "" :: credits[i].0 != credits[j].0
  }

  lemma {:induction false} CreditsWithinPool(credits: Credits, byIP: map<string, nat>, pool: set<string>)
    requires FairCredits(credits, byIP)
    requires forall i | 0 <= i < |credits| && credits[i].0 != "" && credits[i].0 in byIP :: credits[i].0 in pool
    ensures SumCredits(credits) <= SumOver(ip => Get(byIP, ip), pool)
  {
    if credits != [] {
      var n := |credits| - 1;
      var before, ip := credits[..n], credits[n].0;
      assert forall i | 0 <= i < n :: before[i] == credits[i];
      if ip in pool && ip != "" {
        CreditsWithinPool(before, byIP, pool - {ip});
        SumOverTake(ip => Get(byIP, ip), pool, ip);
      } else {
        CreditsWithinPool(before, byIP, pool);
      }
    }
  }

  /** Devices with distinct addresses are never credited more than the WAN total, if nothing wrapped. */
  lemma CreditsWithinTotal(els: seq<Element>, byIP: map<string, nat>, total: nat, credits: Credits)
    requires Accounted(els, byIP, total) && Bytes(els) < WORD && FairCredits(credits, byIP)
    ensures SumCredits(credits) <= total
  {
    CountersSumToTotal(els, byIP, total);
    CreditsWithinPool(credits, byIP, byIP.Keys);
  }

  // ---- rates ----

  /** When the totals were read, and what they were. */
  datatype Sample = Sample(at: nat, rx: nat, tx: nat)

  datatype Rates = Rates(rx: real, tx: real)

  const NO_RATES := Rates(0.0, 0.0)

  function Elapsed(a: Sample, b: Sample): real {
    (b.at - a.at) as real / SECOND as real
  }

  /** Rates are computed only over positive time and when neither counter went back. */
  predicate Comparable(a: Sample, b: Sample) {
    Elapsed(a, b) > 0.0 && b.rx >= a.rx && b.tx >= a.tx
  }

  function RatesBetween(prev: Option<Sample>, cur: Sample): Rates {
    if prev.Some? && Comparable(prev.value, cur) then
      var dt := Elapsed(prev.value, cur);
      Rates((cur.rx - prev.value.rx) as real * 8.0 / dt, (cur.tx - prev.value.tx) as real * 8.0 / dt)
    else NO_RATES
  }

  /** What rates come to over the time between two readings. */
  function Over(r: Rates, a: Sample, b: Sample): Rates {
    var seconds := (b.at - a.at) as real / 1_000_000_000.0;
    Rates(r.rx * seconds, r.tx * seconds)
  }

  /** Bits the rates account for, over the readings after the first. */
  function BitsReported(samples: seq<Sample>): Rates {
    if |samples| <= 1 then NO_RATES
    else
      var n := |samples| - 1;
      var before := BitsReported(samples[..n]);
      var bits := Over(RatesBetween(Some(samples[n - 1]), samples[n]), samples[n - 1], samples[n]);
      Rates(before.rx + bits.rx, before.tx + bits.tx)
  }

  /** Bits that actually passed from sample to sample; a reset or a repeated instant contributes none. */
  function BitsPassed(samples: seq<Sample>): (int, int) {
    if |samples| <= 1 then (0, 0)
    else
      var n := |samples| - 1;
      var (rx, tx) := BitsPassed(samples[..n]);
      var a, b := samples[n - 1], samples[n];
      if b.at > a.at && b.rx >= a.rx && b.tx >= a.tx then (rx + 8 * (b.rx - a.rx), tx + 8 * (b.tx - a.tx))
      else (rx, tx)
  }

  lemma RateTimesTime(b: int, dt: real)
    requires dt > 0.0
    ensures b as real * 8.0 / dt * dt == (8 * b) as real
  {
  }

  /** Rates over the time since the previous reading: rate times elapsed seconds is eight times the bytes counted in
      each direction, if time has passed and neither counter went back; in every other case both rates are 0. */
  lemma RatesBetweenExactly(prev: Option<Sample>, cur: Sample)
    ensures var r := RatesBetween(prev, cur);
            match prev
            case None => r == Rates(0.0, 0.0)
            case Some(a) =>
              var seconds := (cur.at - a.at) as real / 1_000_000_000.0;
              if cur.at > a.at && cur.rx >= a.rx && cur.tx >= a.tx then
                && r.rx * seconds == (8 * (cur.rx - a.rx)) as real
                && r.tx * seconds == (8 * (cur.tx - a.tx)) as real
              else r == Rates(0.0, 0.0)
  {
    if prev.Some? && Comparable(prev.value, cur) {
      RateTimesTime(cur.rx - prev.value.rx, Elapsed(prev.value, cur));
      RateTimesTime(cur.tx - prev.value.tx, Elapsed(prev.value, cur));
    }
  }

  lemma BitsBetween(a: Sample, b: Sample)
    ensures Over(RatesBetween(Some(a), b), a, b) ==
            if b.at > a.at && b.rx >= a.rx && b.tx >= a.tx
            then Rates((8 * (b.rx - a.rx)) as real, (8 * (b.tx - a.tx)) as real) else Rates(0.0, 0.0)
  {
    RatesBetweenExactly(Some(a), b);
    hide RatesBetween;
  }

  /** Rate times time adds up to exactly the bits passed, whatever resets the run contains. */
  lemma {:induction false} RatesAreExact(samples: seq<Sample>)
    ensures BitsReported(samples) == Rates(BitsPassed(samples).0 as real, BitsPassed(samples).1 as real)
  {
    hide RatesBetween, Over;
    if |samples| > 1 {
      var n := |samples| - 1;
      RatesAreExact(samples[..n]);
      BitsBetween(samples[n - 1], samples[n]);
    }
  }

  /** With no reset and time always passing, that telescopes to the last total minus the first. */
  lemma {:induction false} RatesTelescope(samples: seq<Sample>)
    requires |samples| > 0
    requires forall i | 0 < i < |samples| ::
               var a, b := samples[i - 1], samples[i]; b.at > a.at && b.rx >= a.rx && b.tx >= a.tx
    ensures var first, last := samples[0], samples[|samples| - 1];
            BitsReported(samples) == Rates((8 * (last.rx - first.rx)) as real, (8 * (last.tx - first.tx)) as real)
  {
    RatesAreExact(samples);
    BitsTelescope(samples);
  }

  lemma {:induction false} BitsTelescope(samples: seq<Sample>)
    requires |samples| > 0
    requires forall i | 0 < i < |samples| ::
               var a, b := samples[i - 1], samples[i]; b.at > a.at && b.rx >= a.rx && b.tx >= a.tx
    ensures var first, last := samples[0], samples[|samples| - 1];
            BitsPassed(samples) == (8 * (last.rx - first.rx), 8 * (last.tx - first.tx))
  {
    if |samples| > 1 {
      var n := |samples| - 1;
      assert forall i | 0 <= i < n :: samples[..n][i] == samples[i];
      BitsTelescope(samples[..n]);
    }
  }
}
