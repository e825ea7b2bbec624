/** Release versions: parsing, ordering, choosing the newest, and the hourly cache (code/version.go). */
module Version {
  import opened Common
  import Text

  // ---- parsing ----

  /** The largest Go `int` on a 64-bit router. */
  const MAX_INT: nat := 0x7fff_ffff_ffff_ffff

  datatype Triple = Triple(major: nat, minor: nat, patch: nat)

  predicate IsDigit(c: char) {
    '0' <= c <= '9'
  }

  /** The pattern `\d+`. */
  predicate Digits(s: string) {
    s != [] && forall i | 0 <= i < |s| :: IsDigit(s[i])
  }

  function DecimalValue(s: string): nat
    requires forall i | 0 <= i < |s| :: IsDigit(s[i])
  {
    if s == [] then 0
    else assert IsDigit(s[|s| - 1]); DecimalValue(s[..|s| - 1]) * 10 + (s[|s| - 1] as int - '0' as int)
  }

  /** `strconv.Atoi` with its range error ignored, as the caller does: too large a number saturates. */
  function Atoi(s: string): nat
    requires Digits(s)
  {
    var v := DecimalValue(s);
    if v > MAX_INT then MAX_INT else v
  }

  /** Length of the longest prefix made of digits. */
  function DigitRun(s: string): (n: nat)
    ensures n <= |s|
    ensures forall i | 0 <= i < n :: IsDigit(s[i])
    ensures n < |s| ==> !IsDigit(s[n])
  {
    if s == [] || !IsDigit(s[0]) then 0 else 1 + DigitRun(s[1..])
  }

  /** A non-empty run of digits followed by a dot: the run and what comes after the dot. */
  function DottedNumber(s: string): (r: Option<(string, string)>)
    ensures r.Some? ==> Digits(r.value.0)
  {
    var n := DigitRun(s);
    if 0 < n < |s| && s[n] == '.' then Some((s[..n], s[n + 1..])) else None
  }

  function ParseCore(s: string): Option<Triple> {
    match DottedNumber(s)
    case None => None
    case Some((major, rest)) =>
      match DottedNumber(rest)
      case None => None
      case Some((minor, patch)) =>
        if Digits(patch)
        then Some(Triple(Atoi(major), Atoi(minor), Atoi(patch)))
        else None
  }

  /** `parseSemver`, as a scanner. */
  function ParseSemver(s: string): Option<Triple> {
    var t := Text.Trim(Text.GoSpace, s);
    ParseCore(if t != [] && t[0] == 'v' then t[1..] else t)
  }

  /** What the regular expression `^v?(\d+)\.(\d+)\.(\d+)$` says of a text and its three groups. */
  ghost predicate Matches(t: string, major: string, minor: string, patch: string) {
    && Digits(major) && Digits(minor) && Digits(patch)
    && var core := major + "." + minor + "." + patch;
    (t == core || t == "v" + core)
  }

  lemma {:induction false} DigitRunOf(d: string, rest: string)
    requires forall i | 0 <= i < |d| :: IsDigit(d[i])
    requires rest != [] ==> !IsDigit(rest[0])
    ensures DigitRun(d + rest) == |d|
  {
    if d == [] {
      assert d + rest == rest;
    } else {
      DigitRunOf(d[1..], rest);
      assert (d + rest)[1..] == d[1..] + rest;
    }
  }

  lemma DottedNumberOf(d: string, rest: string)
    requires Digits(d)
    ensures DottedNumber(d + "." + rest) == Some((d, rest))
  {
    DigitRunOf(d, "." + rest);
    var s := d + ("." + rest);
    assert s == d + "." + rest;
    assert s[..|d|] == d && s[|d|] == '.' && s[|d| + 1..] == rest;
  }

  /** Every text the regular expression matches is parsed to its three groups. */
  lemma ParseComplete(s: string, major: string, minor: string, patch: string)
    requires Matches(Text.Trim(Text.GoSpace, s), major, minor, patch)
    ensures ParseSemver(s) == Some(Triple(Atoi(major), Atoi(minor), Atoi(patch)))
  {
    var t := Text.Trim(Text.GoSpace, s);
    var core := major + "." + (minor + "." + patch);
    assert core == major + "." + minor + "." + patch;
    assert core[0] == major[0];
    assert ("v" + core)[1..] == core;
    DottedNumberOf(major, minor + "." + patch);
    DottedNumberOf(minor, patch);
  }

  lemma DottedNumberInverse(s: string)
    requires DottedNumber(s).Some?
    ensures s == DottedNumber(s).value.0 + "." + DottedNumber(s).value.1
  {
    var n := DigitRun(s);
    assert s == s[..n] + [s[n]] + s[n + 1..];
  }

  lemma ParseCoreSound(core: string) returns (major: string, minor: string, patch: string)
    requires ParseCore(core).Some?
    ensures Digits(major) && Digits(minor) && Digits(patch)
    ensures core == major + "." + minor + "." + patch
  {
    hide DottedNumber;
    var (first, rest) := DottedNumber(core).value;
    var (second, third) := DottedNumber(rest).value;
    major, minor, patch := first, second, third;
    DottedNumberInverse(core);
    DottedNumberInverse(rest);
    assert major + "." + (minor + "." + patch) == major + "." + minor + "." + patch;
  }

  /** Whatever is parsed matches the regular expression; so a text that does not match is rejected. */
  lemma ParseSound(s: string) returns (major: string, minor: string, patch: string)
    requires ParseSemver(s).Some?
    ensures Matches(Text.Trim(Text.GoSpace, s), major, minor, patch)
  {
    hide ParseCore, Text.Trim;
    var t := Text.Trim(Text.GoSpace, s);
    var core := if t != [] && t[0] == 'v' then t[1..] else t;
    major, minor, patch := ParseCoreSound(core);
    WithoutVee(t);
    hide Digits;
  }

  lemma WithoutVee(t: string)
    ensures t != [] && t[0] == 'v' ==> t == "v" + t[1..]
  {
  }

  // ---- printing, and the round trip ----

  function Print(n: nat): string {
    var digit := [(n % 10 + '0' as int) as char];
    if n < 10 then digit else Print(n / 10) + digit
  }

  lemma {:induction false} PrintReadsBack(n: nat)
    ensures Digits(Print(n)) && DecimalValue(Print(n)) == n
  {
    var s := Print(n);
    if n < 10 {
      assert s[..|s| - 1] == [];
    } else {
      PrintReadsBack(n / 10);
      assert s[..|s| - 1] == Print(n / 10);
    }
  }

  function PrintTriple(v: Triple): string {
    Print(v.major) + "." + Print(v.minor) + "." + Print(v.patch)
  }

  lemma {:induction false} LeadingZero(s: string)
    requires Digits(s)
    ensures Digits("0" + s) && DecimalValue("0" + s) == DecimalValue(s)
  {
    var n := |s| - 1;
    var before := s[..n];
    assert IsDigit(s[n]);
    assert ("0" + s)[..|s|] == "0" + before;
    assert forall i | 0 <= i < n :: before[i] == s[i];
    if n == 0 {
      assert "0" + before == "0" && "0"[..0] == [];
      assert DecimalValue("0") == 0;
    } else {
      LeadingZero(before);
    }
  }

  lemma PrintSnoc(v: nat, c: char)
    requires IsDigit(c) && v > 0
    ensures Print(v * 10 + (c as int - '0' as int)) == Print(v) + [c]
  {
    var w := v * 10 + (c as int - '0' as int);
    assert w / 10 == v && w % 10 == c as int - '0' as int;
  }

  /** Reading digits is the inverse of printing: leading zeros do not count, and without them the digits are those of
      the number read. */
  lemma {:induction false} DigitsReadExactly(s: string)
    requires Digits(s)
    ensures s[0] != '0' || |s| == 1 ==> Print(DecimalValue(s)) == s
    ensures s[0] != '0' ==> DecimalValue(s) > 0
    ensures DecimalValue("0" + s) == DecimalValue(s)
  {
    var n := |s| - 1;
    var before := s[..n];
    LeadingZero(s);
    assert IsDigit(s[n]);
    if n == 0 {
      assert before == [] && DecimalValue(s) == s[0] as int - '0' as int;
    } else if s[0] != '0' {
      assert forall i | 0 <= i < n :: before[i] == s[i];
      DigitsReadExactly(before);
      PrintSnoc(DecimalValue(before), s[n]);
      assert s == before + [s[n]];
    }
  }

  /** The 64-bit limit of Go's `int`. */
  function Clamp(n: nat): (r: nat)
    ensures r <= n && r <= 9_223_372_036_854_775_807 && (r == n || r == 9_223_372_036_854_775_807)
  {
    if n <= 9_223_372_036_854_775_807 then n else 9_223_372_036_854_775_807
  }

  /** Printing a version and reading it back gives the version, under an optional `v` and any margins; numbers that do
      not fit an `int` come back as the largest that does. */
  lemma RoundTrip(v: Triple, before: string, vee: bool, after: string)
    requires Text.Blank(Text.GoSpace, before) && Text.Blank(Text.GoSpace, after)
    ensures ParseSemver(before + ((if vee then "v" else "") + PrintTriple(v)) + after) ==
            Some(Triple(Clamp(v.major), Clamp(v.minor), Clamp(v.patch)))
  {
    PrintReadsBack(v.major);
    PrintReadsBack(v.minor);
    PrintReadsBack(v.patch);
    var core := (if vee then "v" else "") + PrintTriple(v);
    assert core[|core| - 1] == Print(v.patch)[|Print(v.patch)| - 1];
    assert core[0] == if vee then 'v' else Print(v.major)[0];
    assert IsDigit(Print(v.major)[0]) && IsDigit(Print(v.patch)[|Print(v.patch)| - 1]);
    Text.TrimCore(Text.GoSpace, before, core, after);
    ParseComplete(before + core + after, Print(v.major), Print(v.minor), Print(v.patch));
  }

  // ---- the order ----

  function Component(v: Triple, i: nat): nat
    requires i < 3
  {
    if i == 0 then v.major else if i == 1 then v.minor else v.patch
  }

  /** The comparison loop of `semverLess`, from component `i` on. */
  predicate LessFrom(a: Triple, b: Triple, i: nat)
    requires i <= 3
    decreases 3 - i
  {
    if i == 3 then false
    else if Component(a, i) != Component(b, i) then Component(a, i) < Component(b, i)
    else LessFrom(a, b, i + 1)
  }

  predicate SemverLess(a: string, b: string) {
    var va, vb := ParseSemver(a), ParseSemver(b);
    va.Some? && vb.Some? && LessFrom(va.value, vb.value, 0)
  }

  predicate Equivalent(a: string, b: string) {
    !SemverLess(a, b) && !SemverLess(b, a)
  }

  /** On parseable strings the order is that of the triples, most significant component first. */
  lemma LessIsLexicographic(a: string, b: string)
    ensures SemverLess(a, b) <==>
            && ParseSemver(a).Some? && ParseSemver(b).Some?
            && var x, y := ParseSemver(a).value, ParseSemver(b).value;
            || x.major < y.major
            || (x.major == y.major && x.minor < y.minor)
            || (x.major == y.major && x.minor == y.minor && x.patch < y.patch)
  {
    if ParseSemver(a).Some? && ParseSemver(b).Some? {
      var x, y := ParseSemver(a).value, ParseSemver(b).value;
      assert LessFrom(x, y, 2) == (x.patch < y.patch);
      assert LessFrom(x, y, 1) == (x.minor < y.minor || (x.minor == y.minor && x.patch < y.patch));
    }
  }

  /** `semverLess` is a strict order on all strings. */
  lemma LessIsStrict(a: string, b: string, c: string)
    ensures !SemverLess(a, a)
    ensures SemverLess(a, b) ==> !SemverLess(b, a)
    ensures SemverLess(a, b) && SemverLess(b, c) ==> SemverLess(a, c)
  {
    LessIsLexicographic(a, a);
    LessIsLexicographic(a, b);
    LessIsLexicographic(b, a);
    LessIsLexicographic(b, c);
    LessIsLexicographic(a, c);
  }

  /** Being neither older nor newer carries over through `b` exactly when `b` parses: a string that
      does not parse is tied with everything, so it ties an older version with a newer one. */
  lemma LessIsWeakExactlyWhenParseable(b: string)
    ensures ParseSemver(b).Some? <==>
            forall a, c | Equivalent(a, b) && Equivalent(b, c) :: Equivalent(a, c)
  {
    hide ParseSemver;
    if ParseSemver(b).Some? {
      forall a, c | Equivalent(a, b) && Equivalent(b, c) ensures Equivalent(a, c) {
        LessIsLexicographic(a, b);
        LessIsLexicographic(b, a);
        LessIsLexicographic(b, c);
        LessIsLexicographic(c, b);
        LessIsLexicographic(a, c);
        LessIsLexicographic(c, a);
      }
    } else {
      var one, two := Triple(1, 0, 0), Triple(2, 0, 0);
      RoundTrip(one, "", false, "");
      RoundTrip(two, "", false, "");
      var a, c := "" + ("" + PrintTriple(one)) + "", "" + ("" + PrintTriple(two)) + "";
      LessIsLexicographic(a, c);
      assert Equivalent(a, b) && Equivalent(b, c) && !Equivalent(a, c);
    }
  }

  // ---- the newest tag ----

  /** `best` is the first of the newest parseable tags, or empty when no tag parses. */
  ghost predicate FirstNewest(tags: seq<string>, best: string) {
    if best == "" then forall i | 0 <= i < |tags| :: ParseSemver(tags[i]).None?
    else exists i :: FirstNewestAt(tags, best, i)
  }

  ghost predicate FirstNewestAt(tags: seq<string>, best: string, i: int) {
    && 0 <= i < |tags| && tags[i] == best && ParseSemver(best).Some?
    && (forall j | 0 <= j < |tags| :: !SemverLess(best, tags[j]))
    && (forall j | 0 <= j < i && ParseSemver(tags[j]).Some? :: SemverLess(tags[j], best))
  }

  /** One turn of the selection loop. */
  function Better(best: string, tag: string): string {
    if ParseSemver(tag).Some? && (best == "" || SemverLess(best, tag)) then tag else best
  }

  function BestOf(tags: seq<string>): string {
    if tags == [] then "" else Better(BestOf(tags[..|tags| - 1]), tags[|tags| - 1])
  }

  lemma EmptyDoesNotParse()
    ensures ParseSemver("").None?
  {
  }

  lemma {:induction false} BestIsFirstNewest(tags: seq<string>)
    ensures FirstNewest(tags, BestOf(tags))
  {
    hide ParseSemver;
    if tags != [] {
      var n := |tags| - 1;
      var before, tag := tags[..n], tags[n];
      BestIsFirstNewest(before);
      var prior, best := BestOf(before), BestOf(tags);
      EmptyDoesNotParse();
      if best == prior {
        if best == "" {
          assert forall i | 0 <= i < n :: tags[i] == before[i];
        } else {
          var i :| FirstNewestAt(before, prior, i);
          assert forall j | 0 <= j < n :: tags[j] == before[j];
          LessIsLexicographic(best, tag);
          assert FirstNewestAt(tags, best, i);
        }
      } else {
        forall j | 0 <= j < |tags|
          ensures !SemverLess(tag, tags[j])
          ensures j < n && ParseSemver(tags[j]).Some? ==> SemverLess(tags[j], tag)
        {
          LessIsLexicographic(tag, tags[j]);
          LessIsLexicographic(tags[j], tag);
          if j < n && ParseSemver(tags[j]).Some? {
            assert tags[j] == before[j];
            LessIsLexicographic(prior, before[j]);
            LessIsLexicographic(prior, tag);
          }
        }
        assert FirstNewestAt(tags, best, n);
      }
    }
  }

  /** There is only one first newest tag. */
  lemma FirstNewestIsUnique(tags: seq<string>, a: string, b: string)
    requires FirstNewest(tags, a) && FirstNewest(tags, b)
    ensures a == b
  {
    if a != "" && b != "" {
      var i :| FirstNewestAt(tags, a, i);
      var j :| FirstNewestAt(tags, b, j);
      assert !SemverLess(a, tags[j]) && !SemverLess(b, tags[i]);
    }
  }

  method SelectNewest(tags: seq<string>) returns (best: string)
    ensures FirstNewest(tags, best)
    ensures best == BestOf(tags)
  {
    best := "";
    for i := 0 to |tags|
      invariant best == BestOf(tags[..i])
    {
      assert tags[..i + 1][..i] == tags[..i];
      if ParseSemver(tags[i]).Some? {
        if best == "" || SemverLess(best, tags[i]) {
          best := tags[i];
        }
      }
    }
    assert tags[..|tags|] == tags;
    BestIsFirstNewest(tags);
  }

  /** `UpdateAvailable` as `refreshState` computes it. */
  predicate UpdateAvailable(version: string, latest: string) {
    latest != "" && version != "" && SemverLess(version, latest)
  }

  /** An update is announced exactly when some offered tag is strictly newer than the installed version. */
  lemma UpdateIsExact(version: string, tags: seq<string>)
    ensures UpdateAvailable(version, BestOf(tags)) <==>
            OffersNewer(tags, version)
  {
    hide ParseSemver;
    var best := BestOf(tags);
    BestIsFirstNewest(tags);
    EmptyDoesNotParse();
    if UpdateAvailable(version, best) {
      var i :| FirstNewestAt(tags, best, i);
      assert SemverLess(version, tags[i]);
    }
    if i :| 0 <= i < |tags| && SemverLess(version, tags[i]) {
      assert ParseSemver(tags[i]).Some?;
      var k :| FirstNewestAt(tags, best, k);
      LessIsLexicographic(version, tags[i]);
      LessIsLexicographic(best, tags[i]);
      LessIsLexicographic(version, best);
    }
  }

  // ---- the cache ----

  const HOUR: nat := 3600 * SECOND

  /** `versionCheckAt` (never, at first) and `versionCheckResult`. */
  datatype Cache = Cache(at: Option<nat>, result: string)

  const EMPTY_CACHE := Cache(None, "")

  /** One call: the version asked about, when, what the registry would answer, and when that arrives. */
  datatype Call = Call(current: string, asked: nat, answer: Option<seq<string>>, done: nat)

  predicate IsFresh(cache: Cache, now: nat) {
    cache.at.Some? && now - cache.at.value < HOUR
  }

  function AfterCall(cache: Cache, call: Call): Cache {
    if ParseSemver(call.current).None? || IsFresh(cache, call.asked) || call.answer.None? then cache
    else Cache(Some(call.done), BestOf(call.answer.value))
  }

  function Answer(cache: Cache, call: Call): string {
    if ParseSemver(call.current).None? then "" else AfterCall(cache, call).result
  }

  class VersionCheck {
    var versionCheckAt: Option<nat>
    var versionCheckResult: string

    function View(): Cache
      reads this
    {
      Cache(versionCheckAt, versionCheckResult)
    }

    constructor ()
      ensures View() == EMPTY_CACHE
    {
      versionCheckAt, versionCheckResult := None, "";
    }

    /** `latestAvailableVersion`, with the registry's answer and the two clock readings as arguments. */
    method LatestAvailableVersion(current: string, asked: nat, answer: Option<seq<string>>, done: nat)
      returns (latest: string)
      modifies this
      ensures var call := Call(current, asked, answer, done);
              View() == AfterCall(old(View()), call) && latest == Answer(old(View()), call)
    {
      if ParseSemver(current).None? {
        return "";
      }
      if versionCheckAt.Some? && asked - versionCheckAt.value < HOUR {
        return versionCheckResult;
      }
      if answer.None? {
        return versionCheckResult;
      }
      var best := SelectNewest(answer.value);
      versionCheckAt := Some(done);
      versionCheckResult := best;
      return best;
    }
  }

  /** The cache after a run of calls. */
  function CacheAfter(calls: seq<Call>): Cache {
    if calls == [] then EMPTY_CACHE
    else AfterCall(CacheAfter(calls[..|calls| - 1]), calls[|calls| - 1])
  }

  /** The answer the `i`-th call of a run gets. */
  function AnswerAt(calls: seq<Call>, i: nat): string
    requires i < |calls|
  {
    Answer(CacheAfter(calls[..i]), calls[i])
  }

  /** The `i`-th call asked the registry and was answered. */
  predicate WasFetched(calls: seq<Call>, i: int) {
    && 0 <= i < |calls|
    && ParseSemver(calls[i].current).Some?
    && !IsFresh(CacheAfter(calls[..i]), calls[i].asked)
    && calls[i].answer.Some?
  }

  /** The mutex makes calls take turns on a clock that does not go back. */
  ghost predicate InTurn(calls: seq<Call>) {
    && (forall i | 0 <= i < |calls| :: calls[i].asked <= calls[i].done)
    && (forall i, j | 0 <= i < j < |calls| :: calls[i].done <= calls[j].asked)
  }

  /** The most recent successful fetch among the first `n` calls, or -1. */
  function LatestFetch(calls: seq<Call>, n: nat): (k: int)
    requires n <= |calls|
    ensures -1 <= k < n && (k >= 0 ==> calls[k].answer.Some?)
  {
    if n == 0 then -1 else if WasFetched(calls, n - 1) then n - 1 else LatestFetch(calls, n - 1)
  }

  lemma {:induction false} LatestFetchIsLatest(calls: seq<Call>, n: nat)
    requires n <= |calls|
    ensures var k := LatestFetch(calls, n);
            (k >= 0 ==> WasFetched(calls, k)) && forall j | k < j < n :: !WasFetched(calls, j)
  {
    hide ParseSemver, BestOf;
    if n > 0 {
      LatestFetchIsLatest(calls, n - 1);
    }
  }

  /** The newest tag the most recent successful fetch offered, or nothing before the first. */
  function LatestOffer(calls: seq<Call>, n: nat): string
    requires n <= |calls|
  {
    var k := LatestFetch(calls, n);
    if k < 0 then "" else BestOf(calls[k].answer.value)
  }

  /** The cache holds what the most recent successful fetch offered, and when it was answered. */
  lemma {:induction false} CacheHoldsLatestFetch(calls: seq<Call>, n: nat)
    requires n <= |calls|
    ensures CacheAfter(calls[..n]).result == LatestOffer(calls, n)
    ensures var k := LatestFetch(calls, n);
            CacheAfter(calls[..n]).at == if k < 0 then None else Some(calls[k].done)
  {
    hide ParseSemver, BestOf;
    if n > 0 {
      CacheHoldsLatestFetch(calls, n - 1);
      assert calls[..n][..n - 1] == calls[..n - 1];
    }
  }

  /** Any two successful fetches of a run are at least an hour apart. */
  lemma {:induction false} FetchesAnHourApart(calls: seq<Call>, i: nat, j: nat)
    requires InTurn(calls) && i < j && WasFetched(calls, i) && WasFetched(calls, j)
    ensures calls[j].asked - calls[i].done >= 3600 * 1_000_000_000
  {
    hide ParseSemver, BestOf;
    CacheHoldsLatestFetch(calls, j);
    LatestFetchIsLatest(calls, j);
    var k := LatestFetch(calls, j);
    if i < k {
      FetchesAnHourApart(calls, i, k);
    }
  }

  /** A call about a parseable version answers with the offer of the most recent successful fetch, its
      own included; one older than an hour is used only when this call's own fetch failed. A call about any other
      version answers nothing and fetches nothing. */
  lemma AnswerIsLatestOffer(calls: seq<Call>, i: nat)
    requires i < |calls|
    ensures ParseSemver(calls[i].current).Some? ==> AnswerAt(calls, i) == LatestOffer(calls, i + 1)
    ensures ParseSemver(calls[i].current).None? ==>
              && AnswerAt(calls, i) == "" && LatestFetch(calls, i + 1) == LatestFetch(calls, i)
              && CacheAfter(calls[..i + 1]) == CacheAfter(calls[..i])
    ensures var k := LatestFetch(calls, i + 1);
            0 <= k < i && calls[i].asked - calls[k].done >= 3600 * 1_000_000_000 ==>
              ParseSemver(calls[i].current).None? || calls[i].answer == None
  {
    hide ParseSemver, BestOf;
    CacheHoldsLatestFetch(calls, i + 1);
    CacheHoldsLatestFetch(calls, i);
    assert calls[..i + 1][..i] == calls[..i];
  }

  ghost predicate OffersNewer(tags: seq<string>, version: string) {
    exists i :: 0 <= i < |tags| && SemverLess(version, tags[i])
  }

  /** So over any run, an update is announced exactly when the most recent successful fetch offered a
      tag strictly newer than the installed version. */
  lemma UpdateFollowsLatestFetch(calls: seq<Call>, i: nat)
    requires i < |calls|
    ensures var version, k := calls[i].current, LatestFetch(calls, i + 1);
            UpdateAvailable(version, AnswerAt(calls, i)) <==>
            k >= 0 && OffersNewer(calls[k].answer.value, version)
  {
    hide ParseSemver, BestOf;
    var version, k := calls[i].current, LatestFetch(calls, i + 1);
    if ParseSemver(version).Some? {
      AnswerIsLatestOffer(calls, i);
    }
    if k >= 0 {
      UpdateIsExact(version, calls[k].answer.value);
    }
  }
}
