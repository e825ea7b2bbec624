/** Small vocabulary shared by every part of the model. */
module Common {

  datatype Option<+T> = None | Some(value: T)

  function Max(a: nat, b: nat): nat {
    if a < b then b else a
  }

  /** Reading a Go map: an absent key reads as zero. */
  function Get(m: map<string, nat>, k: string): nat {
    if k in m then m[k] else 0
  }

  // ---- Go clock readings, in nanoseconds ----

  const SECOND: nat := 1_000_000_000

  /** `time.Time.Unix`: whole seconds, rounded down. */
  function Unix(t: nat): nat {
    t / SECOND
  }

  lemma UnixIsWholeSeconds(t: nat)
    ensures Unix(t) * 1_000_000_000 <= t < (Unix(t) + 1) * 1_000_000_000
  {
  }

  // ---- maps filled by assignments in a loop ----

  /** The map left by assigning the pairs one after the other. */
  function LastWins<K, V>(pairs: seq<(K, V)>): map<K, V> {
    if pairs == [] then map[]
    else
      var last := pairs[|pairs| - 1];
      LastWins(pairs[..|pairs| - 1])[last.0 := last.1]
  }

  lemma LastWinsSnoc<K, V>(pairs: seq<(K, V)>, p: (K, V))
    ensures LastWins(pairs + [p]) == LastWins(pairs)[p.0 := p.1]
  {
    assert (pairs + [p])[..|pairs|] == pairs;
  }

  /** `pairs[i]` is the last assignment to its key. */
  ghost predicate IsLastFor<K, V>(pairs: seq<(K, V)>, i: int) {
    && 0 <= i < |pairs|
    && forall j | i < j < |pairs| :: pairs[j].0 != pairs[i].0
  }

  /** A key is present exactly when some pair assigns it, and its value is that of the last such pair. */
  lemma {:induction false} LastWinsLookup<K, V>(pairs: seq<(K, V)>, k: K)
    ensures k in LastWins(pairs) <==> exists i :: 0 <= i < |pairs| && pairs[i].0 == k
    ensures k in LastWins(pairs) ==>
              exists i :: IsLastFor(pairs, i) && pairs[i].0 == k && LastWins(pairs)[k] == pairs[i].1
  {
    if pairs != [] {
      var n := |pairs| - 1;
      var before := pairs[..n];
      LastWinsLookup(before, k);
      if pairs[n].0 == k {
        assert IsLastFor(pairs, n);
      } else if k in LastWins(before) {
        var i :| IsLastFor(before, i) && before[i].0 == k && LastWins(before)[k] == before[i].1;
        assert pairs[i].0 == k;
        forall j | i < j < |pairs| ensures pairs[j].0 != pairs[i].0 {
          if j < n {
            assert before[j].0 != before[i].0;
          }
        }
        assert IsLastFor(pairs, i);
      } else {
        assert forall i | 0 <= i < n :: pairs[i] == before[i];
      }
    }
  }
}
