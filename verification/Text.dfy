/** Strings: trimming, byte order, and hardware addresses (code/spr.go). */
module Text {

  /** `unicode.IsSpace`, the characters `strings.TrimSpace` removes. */
  predicate GoSpace(c: char) {
    || '\t' <= c <= '\r' || c == ' ' || c == '\U{0085}' || c == '\U{00A0}'
    || c == '\U{1680}' || '\U{2000}' <= c <= '\U{200A}' || c == '\U{2028}' || c == '\U{2029}'
    || c == '\U{202F}' || c == '\U{205F}' || c == '\U{3000}'
  }

  /** `str.isspace`, the characters Python's `str.strip` removes. */
  predicate PySpace(c: char) {
    GoSpace(c) || '\U{001C}' <= c <= '\U{001F}'
  }

  function Trim(space: char -> bool, s: string): string {
    if s == [] then []
    else if space(s[0]) then Trim(space, s[1..])
    else if space(s[|s| - 1]) then Trim(space, s[..|s| - 1])
    else s
  }

  /** No white space at either end. */
  ghost predicate Tight(space: char -> bool, s: string) {
    s != [] ==> !space(s[0]) && !space(s[|s| - 1])
  }

  ghost predicate Blank(space: char -> bool, s: string) {
    forall i | 0 <= i < |s| :: space(s[i])
  }

  lemma {:induction false} TrimIsTight(space: char -> bool, s: string)
    ensures Tight(space, Trim(space, s))
    decreases |s|
  {
    if s == [] {
    } else if space(s[0]) {
      TrimIsTight(space, s[1..]);
    } else if space(s[|s| - 1]) {
      TrimIsTight(space, s[..|s| - 1]);
    }
  }

  /** Trimming removes exactly the blank margins around a tight core. */
  lemma {:induction false} TrimCore(space: char -> bool, before: string, core: string, after: string)
    requires Blank(space, before) && Blank(space, after) && Tight(space, core)
    ensures Trim(space, before + core + after) == core
    decreases |before| + |after|
  {
    var s := before + core + after;
    if before != [] {
      assert s[0] == before[0];
      assert s[1..] == before[1..] + core + after;
      TrimCore(space, before[1..], core, after);
    } else if core == [] {
      assert s == after;
      if after != [] {
        assert s[1..] == [] + core + after[1..];
        TrimCore(space, [], core, after[1..]);
      }
    } else if after != [] {
      assert s[0] == core[0];
      assert s[|s| - 1] == after[|after| - 1];
      assert s[..|s| - 1] == [] + core + after[..|after| - 1];
      TrimCore(space, [], core, after[..|after| - 1]);
    } else {
      assert s == core;
    }
  }

  /** Trimming only removes blank margins. */
  lemma {:induction false} TrimParts(space: char -> bool, s: string) returns (before: string, after: string)
    ensures Blank(space, before) && Blank(space, after)
    ensures s == before + Trim(space, s) + after
    decreases |s|
  {
    before, after := "", "";
    if s == [] {
    } else if space(s[0]) {
      var b, a := TrimParts(space, s[1..]);
      before, after := [s[0]] + b, a;
    } else if space(s[|s| - 1]) {
      var b, a := TrimParts(space, s[..|s| - 1]);
      before, after := b, a + [s[|s| - 1]];
    }
  }

  // ---- the order of Go strings ----

  predicate Leq(a: string, b: string) {
    a == [] || (b != [] && (a[0] < b[0] || (a[0] == b[0] && Leq(a[1..], b[1..]))))
  }

  /** It is the lexicographic order: a prefix comes first, and otherwise the first difference decides. */
  lemma {:induction false} LeqIsLexicographic(a: string, b: string)
    ensures Leq(a, b) <==>
            a <= b || exists k :: 0 <= k < |a| && k < |b| && a[..k] == b[..k] && a[k] < b[k]
  {
    if a != [] && b != [] && a[0] == b[0] {
      LeqIsLexicographic(a[1..], b[1..]);
      if a[1..] <= b[1..] {
        assert a == [a[0]] + a[1..] && b == [b[0]] + b[1..];
      } else if k :| 0 <= k < |a| - 1 && k < |b| - 1 && a[1..][..k] == b[1..][..k] && a[1..][k] < b[1..][k] {
        assert a[..k + 1] == [a[0]] + a[1..][..k] && b[..k + 1] == [b[0]] + b[1..][..k];
        assert a[k + 1] < b[k + 1];
      }
      if k :| 0 < k < |a| && k < |b| && a[..k] == b[..k] && a[k] < b[k] {
        assert a[1..][..k - 1] == a[..k][1..] && b[1..][..k - 1] == b[..k][1..];
        assert a[1..][k - 1] < b[1..][k - 1];
      }
    } else if a != [] && b != [] && a[0] < b[0] {
      assert a[..0] == b[..0];
    } else {
      forall k | 0 <= k < |a| && k < |b| && a[..k] == b[..k] ensures !(a[k] < b[k]) {
        if k > 0 {
          SamePrefix(a, b, k);
        }
      }
    }
  }

  lemma SamePrefix(a: string, b: string, k: nat)
    requires 0 < k <= |a| && k <= |b| && a[..k] == b[..k]
    ensures a[0] == b[0]
  {
    assert a[0] == a[..k][0] == b[..k][0];
  }

  lemma {:induction false} LeqTotal(a: string, b: string)
    ensures Leq(a, b) || Leq(b, a)
  {
    if a != [] && b != [] && a[0] == b[0] {
      LeqTotal(a[1..], b[1..]);
    }
  }

  lemma {:induction false} LeqAntisymmetric(a: string, b: string)
    requires Leq(a, b) && Leq(b, a)
    ensures a == b
  {
    if a != [] && b != [] {
      LeqAntisymmetric(a[1..], b[1..]);
      assert a == [a[0]] + a[1..] == [b[0]] + b[1..] == b;
    }
  }

  lemma {:induction false} LeqTransitive(a: string, b: string, c: string)
    requires Leq(a, b) && Leq(b, c)
    ensures Leq(a, c)
  {
    if a != [] && a[0] == b[0] == c[0] {
      LeqTransitive(a[1..], b[1..], c[1..]);
    }
  }

  // ---- hardware addresses ----

  function LowerChar(c: char): char {
    if 'A' <= c <= 'Z' then (c as int + 32) as char else c
  }

  function MacChar(c: char): char {
    LowerChar(if c == '-' then ':' else c)
  }

  /** `normalizeMAC`; lower-casing is spelled out for ASCII, all a hardware address can contain. */
  function NormalizeMac(mac: string): string {
    var t := Trim(GoSpace, mac);
    seq(|t|, i requires 0 <= i < |t| => MacChar(t[i]))
  }

  predicate HexDigit(c: char) {
    '0' <= c <= '9' || 'a' <= c <= 'f'
  }

  /** The pattern `^([0-9a-f]{2}:){5}[0-9a-f]{2}$`. */
  predicate MacShape(s: string) {
    && |s| == 17
    && forall i | 0 <= i < 17 :: if i % 3 == 2 then s[i] == ':' else HexDigit(s[i])
  }

  predicate IsMac(s: string) {
    MacShape(NormalizeMac(s))
  }

  lemma NormalizeFixesShape(s: string)
    requires MacShape(s)
    ensures NormalizeMac(s) == s
  {
    assert HexDigit(s[0]) && HexDigit(s[16]);
    assert Trim(GoSpace, s) == s;
    forall i | 0 <= i < |s| ensures MacChar(s[i]) == s[i] {
      assert if i % 3 == 2 then s[i] == ':' else HexDigit(s[i]);
    }
  }

  /** Two characters mean the same in an address: they are equal, separators, or one letter in both cases. */
  ghost predicate SameInMac(c: char, d: char) {
    || c == d || (c in "-:" && d in "-:")
    || ('A' <= c <= 'Z' && d as int == c as int + 32) || ('A' <= d <= 'Z' && c as int == d as int + 32)
  }

  /** Without its margins, the text means the same as its key, which is in lower case with colons. */
  lemma NormalizeMeans(mac: string)
    ensures var t, key := Trim(GoSpace, mac), NormalizeMac(mac);
            |key| == |t| && forall i | 0 <= i < |t| ::
              SameInMac(t[i], key[i]) && key[i] != '-' && !('A' <= key[i] <= 'Z')
  {
  }

  /** Two spellings share a key exactly when they mean the same between their margins. */
  lemma SpellingsShareKeyExactly(a: string, b: string)
    ensures NormalizeMac(a) == NormalizeMac(b) <==>
            var s, t := Trim(GoSpace, a), Trim(GoSpace, b);
            |s| == |t| && forall i | 0 <= i < |s| :: SameInMac(s[i], t[i])
  {
    var s, t := Trim(GoSpace, a), Trim(GoSpace, b);
    var m, n := NormalizeMac(a), NormalizeMac(b);
    if |s| == |t| {
      assert forall i | 0 <= i < |s| :: m[i] == n[i] <==> SameInMac(s[i], t[i]);
    }
  }

  /** A text is an address exactly when it is six pairs of hexadecimal digits, in either case, between colons or
      hyphens, with any margins. */
  lemma IsMacExactly(mac: string)
    ensures IsMac(mac) <==>
            var t := Trim(GoSpace, mac);
            |t| == 17 && forall i | 0 <= i < 17 ::
              t[i] in if i % 3 == 2 then ":-" else "0123456789abcdefABCDEF"
  {
    var t, key := Trim(GoSpace, mac), NormalizeMac(mac);
    if |t| == 17 {
      forall i | 0 <= i < 17
        ensures (if i % 3 == 2 then key[i] == ':' else HexDigit(key[i])) <==>
                t[i] in if i % 3 == 2 then ":-" else "0123456789abcdefABCDEF"
      {
        MacCharIs(t[i]);
      }
    }
  }

  lemma MacCharIs(c: char)
    ensures MacChar(c) == ':' <==> c in ":-"
    ensures HexDigit(MacChar(c)) <==> c in "0123456789abcdefABCDEF"
  {
  }

  /** The ASCII margins are the tabulators, the line breaks and the space. */
  lemma AsciiSpaces(c: char)
    requires c as int < 128
    ensures GoSpace(c) <==> c as int == 32 || 9 <= c as int <= 13
    ensures PySpace(c) <==> c as int == 32 || 9 <= c as int <= 13 || 28 <= c as int <= 31
  {
  }

  /** Normalising twice changes nothing, so a key made from a key is that key. */
  lemma NormalizeIdempotent(s: string)
    ensures NormalizeMac(NormalizeMac(s)) == NormalizeMac(s)
  {
    var t := Trim(GoSpace, s);
    var n := NormalizeMac(s);
    TrimIsTight(GoSpace, s);
    if t != [] {
      assert n[0] == MacChar(t[0]) && n[|n| - 1] == MacChar(t[|t| - 1]);
    }
    assert Trim(GoSpace, n) == n;
    assert forall i | 0 <= i < |n| :: MacChar(n[i]) == n[i];
  }
}
