/** The few pieces of Python's `str` that the core relies on:
    `strip()`, `lower()`, `replace()` and the decimal text of an integer. */
module Strings {

  /** Python's `str.isspace()` for one character. */
  predicate IsSpace(c: char) {
    var n := c as int;
    (9 <= n <= 13) || (28 <= n <= 32) || n == 0x85 || n == 0xA0 || n == 0x1680
    || (0x2000 <= n <= 0x200A) || n == 0x2028 || n == 0x2029 || n == 0x202F
    || n == 0x205F || n == 0x3000
  }

  function TrimLeft(s: string): (r: string)
    ensures |r| <= |s| && r == s[|s| - |r|..]
    ensures r == [] || !IsSpace(r[0])
  {
    if s != [] && IsSpace(s[0]) then TrimLeft(s[1..]) else s
  }

  function TrimRight(s: string): (r: string)
    ensures |r| <= |s| && r == s[..|r|]
    ensures r == [] || !IsSpace(r[|r| - 1])
  {
    if s != [] && IsSpace(s[|s| - 1]) then TrimRight(s[..|s| - 1]) else s
  }

  /** What `TrimLeft` drops is white space. */
  lemma {:induction false} TrimLeftDropsSpace(s: string)
    ensures forall i :: 0 <= i < |s| - |TrimLeft(s)| ==> IsSpace(s[i])
    decreases |s|
  {
    if s != [] && IsSpace(s[0]) {
      TrimLeftDropsSpace(s[1..]);
    }
  }

  /** What `TrimRight` drops is white space. */
  lemma {:induction false} TrimRightDropsSpace(s: string)
    ensures forall i :: |TrimRight(s)| <= i < |s| ==> IsSpace(s[i])
    decreases |s|
  {
    if s != [] && IsSpace(s[|s| - 1]) {
      TrimRightDropsSpace(s[..|s| - 1]);
    }
  }

  /** `s.strip()`: no white space is left at either end (and, as
      `StripPiece` shows, only white space is cut off). */
  function Strip(s: string): (r: string)
    ensures |r| <= |s|
    ensures r == [] || (!IsSpace(r[0]) && !IsSpace(r[|r| - 1]))
  {
    var l := TrimLeft(s);
    var r := TrimRight(l);
    assert r != [] ==> r[0] == l[0];
    r
  }

  /** `strip()` returns a contiguous piece of `s`, and everything it cuts
      off at either end is white space. */
  lemma StripPiece(s: string)
    ensures exists a, b :: 0 <= a <= b <= |s| && Strip(s) == s[a..b] && IsSpaceOutside(s, a, b)
  {
    var l := TrimLeft(s);
    var r := TrimRight(l);
    TrimLeftDropsSpace(s);
    TrimRightDropsSpace(l);
    var a := |s| - |l|;
    assert r == s[a..a + |r|];
    assert IsSpaceOutside(s, a, a + |r|) by {
      forall i | a + |r| <= i < |s|
        ensures IsSpace(s[i])
      {
        assert s[i] == l[i - a];
      }
    }
  }

  /** Every character of `s` before position `a` or from position `b` on is
      white space. */
  predicate IsSpaceOutside(s: string, a: nat, b: nat)
    requires a <= b <= |s|
  {
    forall i :: 0 <= i < |s| && (i < a || b <= i) ==> IsSpace(s[i])
  }

  /** A string with no white space at its ends is left alone by `strip()`. */
  lemma StripUnchanged(s: string)
    requires s == [] || (!IsSpace(s[0]) && !IsSpace(s[|s| - 1]))
    ensures Strip(s) == s
  {
  }

  predicate IsUpper(c: char) {
    'A' <= c <= 'Z'
  }

  /** `d` is `c` lower-cased: an upper-case letter moves 32 code points up
      to its lower-case letter, and every other character stays. */
  predicate IsLowerOf(c: char, d: char) {
    && (IsUpper(c) ==> d as int == c as int + 32)
    && (!IsUpper(c) ==> d == c)
  }

  function LowerChar(c: char): char {
    if IsUpper(c) then (c as int + 32) as char else c
  }

  /** `s.lower()`, for the ASCII letters. */
  function Lower(s: string): (r: string)
    ensures |r| == |s|
    ensures forall i :: 0 <= i < |s| ==> !IsUpper(r[i])
  {
    seq(|s|, i requires 0 <= i < |s| => LowerChar(s[i]))
  }

  /** `lower()` maps each character to its lower-case form. */
  lemma LowerChars(s: string)
    ensures forall i :: 0 <= i < |s| ==> IsLowerOf(s[i], Lower(s)[i])
  {
  }

  /** Lower-casing a string without upper-case letters changes nothing. */
  lemma LowerUnchanged(s: string)
    requires forall i :: 0 <= i < |s| ==> !IsUpper(s[i])
    ensures Lower(s) == s
  {
  }

  /** `s.replace(pat, rep)`: every occurrence of `pat`, found left to right
      and without overlap, is replaced by `rep`. */
  function ReplaceAll(s: string, pat: string, rep: string): string
    requires |pat| > 0
    decreases |s|
  {
    if |s| < |pat| then s
    else if s[..|pat|] == pat then rep + ReplaceAll(s[|pat|..], pat, rep)
    else [s[0]] + ReplaceAll(s[1..], pat, rep)
  }

  /** When `pat` holds a character that `s` does not, `s` holds no
      occurrence of `pat` and `replace` returns it unchanged. */
  lemma {:induction false} ReplaceAllAbsent(s: string, pat: string, rep: string, c: char)
    requires |pat| > 0 && c in pat && c !in s
    ensures ReplaceAll(s, pat, rep) == s
    decreases |s|
  {
    if |s| >= |pat| {
      assert c !in s[..|pat|];
      assert s == [s[0]] + s[1..];
      ReplaceAllAbsent(s[1..], pat, rep, c);
    }
  }

  /** Replacing a single character by text that does not hold it removes
      every occurrence of that character. */
  lemma {:induction false} ReplaceCharRemoves(s: string, c: char, rep: string)
    requires c !in rep
    ensures c !in ReplaceAll(s, [c], rep)
    decreases |s|
  {
    if |s| >= 1 {
      if s[..1] == [c] {
        ReplaceCharRemoves(s[1..], c, rep);
      } else {
        assert s[0] != c;
        ReplaceCharRemoves(s[1..], c, rep);
      }
    }
  }

  /** Replacing one character by another is a character-wise map. */
  lemma {:induction false} ReplaceChar(s: string, a: char, b: char)
    ensures ReplaceAll(s, [a], [b]) == seq(|s|, i requires 0 <= i < |s| => if s[i] == a then b else s[i])
    decreases |s|
  {
    if |s| >= 1 {
      ReplaceChar(s[1..], a, b);
      var t := seq(|s| - 1, i requires 0 <= i < |s| - 1 => if s[1..][i] == a then b else s[1..][i]);
      if s[..1] == [a] {
        assert s[0] == a;
        assert [b] + t == seq(|s|, i requires 0 <= i < |s| => if s[i] == a then b else s[i]);
      } else {
        assert s[0] != a;
        assert [s[0]] + t == seq(|s|, i requires 0 <= i < |s| => if s[i] == a then b else s[i]);
      }
    }
  }

  /** `s` begins with `q`. */
  predicate StartsWith(s: string, q: string) {
    |q| <= |s| && s[..|q|] == q
  }

  /** `a` and `b` agree wherever both have a character: one is a prefix of
      the other. */
  predicate Agree(a: string, b: string) {
    forall i :: 0 <= i < |a| && i < |b| ==> a[i] == b[i]
  }

  /** `q` occurs nowhere in `s` (Python's `q not in s`). */
  predicate NoOccurrence(s: string, q: string)
    decreases |s|
  {
    s == [] || (!StartsWith(s, q) && NoOccurrence(s[1..], q))
  }

  /** An occurrence of `q` cannot straddle the end or the start of `rep`:
      no suffix of `rep` runs into `q`, and no proper suffix of `q` runs
      into `rep`. */
  predicate NoStraddle(rep: string, q: string) {
    && (forall j :: 0 <= j < |rep| ==> !Agree(rep[j..], q))
    && (forall j :: 1 <= j < |q| ==> !Agree(q[j..], rep))
  }

  /** Text shorter than `q` cannot hold it. */
  lemma {:induction false} ShortNoOccurrence(s: string, q: string)
    requires |s| < |q|
    ensures NoOccurrence(s, q)
    decreases |s|
  {
    if s != [] {
      ShortNoOccurrence(s[1..], q);
    }
  }

  /** `a + b` holds no `q` when `b` holds none and none starts inside `a`. */
  lemma {:induction false} NoOccurrenceAfter(a: string, b: string, q: string)
    requires NoOccurrence(b, q)
    requires forall j :: 0 <= j < |a| ==> !Agree(a[j..], q)
    ensures NoOccurrence(a + b, q)
    decreases |a|
  {
    if a != [] {
      assert !Agree(a[0..], q);
      assert a[0..] == a;
      assert !StartsWith(a + b, q) by {
        if |q| <= |a + b| {
          var i :| 0 <= i < |a| && i < |q| && a[i] != q[i];
          assert (a + b)[..|q|][i] == a[i];
        }
      }
      forall j | 0 <= j < |a[1..]|
        ensures !Agree(a[1..][j..], q)
      {
        assert a[1..][j..] == a[j + 1..];
      }
      NoOccurrenceAfter(a[1..], b, q);
      assert (a + b)[1..] == a[1..] + b;
    } else {
      assert a + b == b;
    }
  }

  /** `replace` leaves text without an occurrence of the pattern alone. */
  lemma {:induction false} ReplaceAllNoOccurrence(s: string, pat: string, rep: string)
    requires |pat| > 0 && NoOccurrence(s, pat)
    ensures ReplaceAll(s, pat, rep) == s
    decreases |s|
  {
    if |s| >= |pat| {
      ReplaceAllNoOccurrence(s[1..], pat, rep);
      assert s == [s[0]] + s[1..];
    }
  }

  /** `w` runs into the first occurrence of the pattern in `t`: `t` begins
      with part of `w`, then the pattern, and the rest of `w` runs into
      `rep`. */
  predicate RunsIntoMatch(t: string, pat: string, rep: string, w: string) {
    exists k :: 0 <= k < |w| && k <= |t| && StartsWith(t[k..], pat) && t[..k] == w[..k] && Agree(w[k..], rep)
  }

  /** Beginning with `q` one character at a time. */
  lemma ConsStartsWith(c: char, t: string, q: string)
    requires |q| > 0
    ensures StartsWith([c] + t, q) <==> c == q[0] && StartsWith(t, q[1..])
  {
    assert q == [q[0]] + q[1..];
    if |q| <= |t| + 1 {
      assert ([c] + t)[..|q|] == [c] + t[..|q| - 1];
    }
  }

  lemma RunsIntoMatchCons(c: char, t: string, pat: string, rep: string, w: string)
    requires w != [] && c == w[0] && RunsIntoMatch(t, pat, rep, w[1..])
    ensures RunsIntoMatch([c] + t, pat, rep, w)
  {
    var k :| 0 <= k < |w[1..]| && k <= |t| && StartsWith(t[k..], pat) && t[..k] == w[1..][..k] && Agree(w[1..][k..], rep);
    assert ([c] + t)[k + 1..] == t[k..];
    assert w[1..][k..] == w[k + 1..];
    assert ([c] + t)[..k + 1] == [c] + t[..k];
    assert w[..k + 1] == [w[0]] + w[1..][..k];
  }

  /** When `t` begins with the pattern, a prefix of the replaced text runs
      into `rep`. */
  lemma MatchPrefix(t: string, pat: string, rep: string, w: string)
    requires |pat| > 0 && |pat| <= |t| && t[..|pat|] == pat && w != []
    ensures StartsWith(ReplaceAll(t, pat, rep), w) ==> RunsIntoMatch(t, pat, rep, w)
  {
    var r := ReplaceAll(t, pat, rep);
    assert r == rep + ReplaceAll(t[|pat|..], pat, rep);
    if StartsWith(r, w) {
      forall i | 0 <= i < |w| && i < |rep|
        ensures w[i] == rep[i]
      {
        assert r[..|w|][i] == r[i];
      }
      assert t[0..] == t && w[0..] == w && t[..0] == w[..0];
    }
  }

  /** What the replaced text begins with: either `t` itself begins with it,
      or it runs into the first occurrence of the pattern. */
  lemma {:induction false} ReplacedPrefix(t: string, pat: string, rep: string, w: string)
    requires |pat| > 0
    ensures StartsWith(ReplaceAll(t, pat, rep), w) ==> StartsWith(t, w) || RunsIntoMatch(t, pat, rep, w)
    decreases |t|
  {
    if |t| >= |pat| && w != [] {
      if t[..|pat|] == pat {
        MatchPrefix(t, pat, rep, w);
      } else {
        var tail := ReplaceAll(t[1..], pat, rep);
        assert ReplaceAll(t, pat, rep) == [t[0]] + tail;
        assert t == [t[0]] + t[1..];
        ConsStartsWith(t[0], tail, w);
        ConsStartsWith(t[0], t[1..], w);
        ReplacedPrefix(t[1..], pat, rep, w[1..]);
        if w[0] == t[0] && RunsIntoMatch(t[1..], pat, rep, w[1..]) {
          RunsIntoMatchCons(t[0], t[1..], pat, rep, w);
        }
      }
    }
  }

  /** The tail of a text that cannot straddle `rep` never runs into it. */
  lemma TailRunsIntoNothing(t: string, pat: string, rep: string, q: string)
    requires |q| > 0 && NoStraddle(rep, q)
    ensures !RunsIntoMatch(t, pat, rep, q[1..])
  {
    forall k | 0 <= k < |q| - 1
      ensures !Agree(q[1..][k..], rep)
    {
      assert q[1..][k..] == q[k + 1..];
    }
  }

  /** After `replace(pat, rep)` the pattern no longer occurs, when no
      occurrence can straddle the replacement text. */
  lemma {:induction false} ReplaceAllRemoves(s: string, pat: string, rep: string)
    requires |pat| > 0 && NoStraddle(rep, pat)
    ensures NoOccurrence(ReplaceAll(s, pat, rep), pat)
    decreases |s|
  {
    if |s| < |pat| {
      ShortNoOccurrence(s, pat);
    } else if s[..|pat|] == pat {
      ReplaceAllRemoves(s[|pat|..], pat, rep);
      NoOccurrenceAfter(rep, ReplaceAll(s[|pat|..], pat, rep), pat);
    } else {
      var t := ReplaceAll(s[1..], pat, rep);
      assert ReplaceAll(s, pat, rep) == [s[0]] + t;
      assert s == [s[0]] + s[1..];
      ReplaceAllRemoves(s[1..], pat, rep);
      ReplacedPrefix(s[1..], pat, rep, pat[1..]);
      TailRunsIntoNothing(s[1..], pat, rep, pat);
      ConsStartsWith(s[0], t, pat);
      ConsStartsWith(s[0], s[1..], pat);
      assert ([s[0]] + t)[1..] == t;
    }
  }

  /** `replace(pat, rep)` brings in no occurrence of another text `q` that
      cannot straddle `rep`. */
  lemma {:induction false} ReplaceAllKeepsAbsent(s: string, pat: string, rep: string, q: string)
    requires |pat| > 0 && |q| > 0 && NoStraddle(rep, q) && NoOccurrence(s, q)
    ensures NoOccurrence(ReplaceAll(s, pat, rep), q)
    decreases |s|
  {
    if |s| < |pat| {
    } else if s[..|pat|] == pat {
      NoOccurrenceSuffix(s, q, |pat|);
      ReplaceAllKeepsAbsent(s[|pat|..], pat, rep, q);
      NoOccurrenceAfter(rep, ReplaceAll(s[|pat|..], pat, rep), q);
    } else {
      var t := ReplaceAll(s[1..], pat, rep);
      assert ReplaceAll(s, pat, rep) == [s[0]] + t;
      assert s == [s[0]] + s[1..];
      ReplaceAllKeepsAbsent(s[1..], pat, rep, q);
      ReplacedPrefix(s[1..], pat, rep, q[1..]);
      TailRunsIntoNothing(s[1..], pat, rep, q);
      ConsStartsWith(s[0], t, q);
      ConsStartsWith(s[0], s[1..], q);
      assert ([s[0]] + t)[1..] == t;
    }
  }

  /** A text without `q` has no suffix with it. */
  lemma {:induction false} NoOccurrenceSuffix(s: string, q: string, n: nat)
    requires n <= |s| && NoOccurrence(s, q)
    ensures NoOccurrence(s[n..], q)
    decreases n
  {
    if n > 0 {
      NoOccurrenceSuffix(s[1..], q, n - 1);
      assert s[1..][n - 1..] == s[n..];
    }
  }

  /** Every character of the replaced text comes from `s` or from `rep`. */
  lemma {:induction false} ReplaceAllChars(s: string, pat: string, rep: string)
    requires |pat| > 0
    ensures forall c :: c in ReplaceAll(s, pat, rep) ==> c in s || c in rep
    decreases |s|
  {
    if |s| >= |pat| {
      if s[..|pat|] == pat {
        ReplaceAllChars(s[|pat|..], pat, rep);
        assert forall c :: c in s[|pat|..] ==> c in s;
      } else {
        ReplaceAllChars(s[1..], pat, rep);
        assert forall c :: c in s[1..] ==> c in s;
      }
    }
  }

  /** The replaced text is empty exactly when `s` is; it begins with the
      first character of `s` or of `rep`, and ends with the last of one of
      them. */
  lemma {:induction false} ReplaceAllEnds(s: string, pat: string, rep: string)
    requires |pat| > 0 && |rep| > 0
    ensures var r := ReplaceAll(s, pat, rep);
      && (r == [] <==> s == [])
      && (s != [] ==> (r[0] == s[0] || r[0] == rep[0]) && (r[|r| - 1] == s[|s| - 1] || r[|r| - 1] == rep[|rep| - 1]))
    decreases |s|
  {
    if |s| >= |pat| {
      if s[..|pat|] == pat {
        ReplaceAllEnds(s[|pat|..], pat, rep);
      } else {
        ReplaceAllEnds(s[1..], pat, rep);
      }
    }
  }

  /** A one-character text occurs exactly where its character does. */
  lemma {:induction false} NoOccurrenceChar(s: string, c: char)
    ensures NoOccurrence(s, [c]) <==> c !in s
    decreases |s|
  {
    if s != [] {
      NoOccurrenceChar(s[1..], c);
      assert s == [s[0]] + s[1..];
    }
  }

  /** Neither end of `s` is white space. */
  predicate Trimmed(s: string) {
    s == [] || (!IsSpace(s[0]) && !IsSpace(s[|s| - 1]))
  }

  predicate NoUpper(s: string) {
    forall i :: 0 <= i < |s| ==> !IsUpper(s[i])
  }

  /** Replacing by text without white space at its ends or upper case keeps
      text trimmed and lower-case. */
  lemma ReplaceAllKeepsFolded(s: string, pat: string, rep: string)
    requires |pat| > 0 && |rep| > 0 && Trimmed(s) && NoUpper(s) && Trimmed(rep) && NoUpper(rep)
    ensures Trimmed(ReplaceAll(s, pat, rep)) && NoUpper(ReplaceAll(s, pat, rep))
  {
    var r := ReplaceAll(s, pat, rep);
    ReplaceAllEnds(s, pat, rep);
    ReplaceAllChars(s, pat, rep);
    forall i | 0 <= i < |r|
      ensures !IsUpper(r[i])
    {
      assert r[i] in r;
    }
  }

  /** An ASCII decimal digit, as `re`'s `\d` matches in ASCII text. */
  predicate IsDigit(c: char) {
    '0' <= c <= '9'
  }

  predicate AllDigits(s: string) {
    forall i :: 0 <= i < |s| ==> IsDigit(s[i])
  }

  function DigitValue(c: char): nat
    requires IsDigit(c)
  {
    c as int - '0' as int
  }

  /** The number a run of decimal digits denotes (`int(s)`). */
  function DigitsValue(s: string): nat
    requires AllDigits(s)
  {
    if s == [] then 0 else DigitsValue(s[..|s| - 1]) * 10 + DigitValue(s[|s| - 1])
  }

  function DigitChar(d: nat): char
    requires d < 10
  {
    ('0' as int + d) as char
  }

  /** `str(n)` for a natural number: its decimal digits, most significant first. */
  function NatToString(n: nat): (r: string)
    ensures |r| > 0
    ensures forall i :: 0 <= i < |r| ==> '0' <= r[i] <= '9'
  {
    if n < 10 then [DigitChar(n)] else NatToString(n / 10) + [DigitChar(n % 10)]
  }

  /** `str(i)` for an integer. */
  function IntToString(i: int): (r: string)
    ensures |r| > 0
  {
    if i < 0 then "-" + NatToString(-i) else NatToString(i)
  }

  /** Reading back the decimal text of a number gives the number. */
  lemma {:induction false} NatToStringRoundTrip(n: nat)
    ensures AllDigits(NatToString(n)) && DigitsValue(NatToString(n)) == n
  {
    if n >= 10 {
      NatToStringRoundTrip(n / 10);
      var r := NatToString(n);
      assert r[..|r| - 1] == NatToString(n / 10);
    }
  }

  /** Different numbers have different decimal texts. */
  lemma NatToStringInjective(a: nat, b: nat)
    requires NatToString(a) == NatToString(b)
    ensures a == b
  {
    NatToStringRoundTrip(a);
    NatToStringRoundTrip(b);
  }

  /** Different integers have different decimal texts. */
  lemma IntToStringInjective(a: int, b: int)
    requires IntToString(a) == IntToString(b)
    ensures a == b
  {
    // Only the text of a negative number starts with '-'.
    assert (a < 0) == (IntToString(a)[0] == '-');
    assert (b < 0) == (IntToString(b)[0] == '-');
    if a < 0 {
      assert NatToString(-a) == IntToString(a)[1..];
      NatToStringInjective(-a, -b);
    } else {
      NatToStringInjective(a, b);
    }
  }
}
