/** The few pieces of Python's `str` behaviour the scripts rely on:
    `isspace`, `strip`, `split`, `in`, `lower`, `str(int)` and `int(str)`. */
module Text {
  import opened Wrappers

  /** Python's `str.isspace()` for a single character (the same set of
      characters that `\s` matches in a `str` regular expression). */
  predicate IsSpace(c: char) {
    var n := c as int;
    || (9 <= n <= 13) || (28 <= n <= 32) || n == 0x85 || n == 0xA0
    || n == 0x1680 || (0x2000 <= n <= 0x200A) || n == 0x2028 || n == 0x2029
    || n == 0x202F || n == 0x205F || n == 0x3000
  }

  predicate AllSpace(s: string) {
    forall i :: 0 <= i < |s| ==> IsSpace(s[i])
  }

  /** Neither end of `s` is whitespace. */
  predicate Trimmed(s: string) {
    |s| == 0 || (!IsSpace(s[0]) && !IsSpace(s[|s| - 1]))
  }

  /** Python's `s.strip()`: leading and trailing whitespace removed. */
  function Strip(s: string): (r: string)
    ensures Trimmed(r) && |r| <= |s|
    decreases |s|
  {
    if |s| > 0 && IsSpace(s[0]) then Strip(s[1..])
    else if |s| > 0 && IsSpace(s[|s| - 1]) then Strip(s[..|s| - 1])
    else s
  }

  /** `Strip(s)` is the infix of `s` between a whitespace prefix and a
      whitespace suffix. */
  lemma {:induction false} StripShape(s: string)
    ensures exists a :: StrippedAt(s, a)
    decreases |s|
  {
    if |s| > 0 && IsSpace(s[0]) {
      StripShape(s[1..]);
      var a :| StrippedAt(s[1..], a);
      StrippedAtFront(s, a);
    } else if |s| > 0 && IsSpace(s[|s| - 1]) {
      StripShape(s[..|s| - 1]);
      var a :| StrippedAt(s[..|s| - 1], a);
      StrippedAtBack(s, a);
    } else {
      assert StrippedAt(s, 0);
    }
  }

  lemma StrippedAtFront(s: string, a: int)
    requires |s| > 0 && IsSpace(s[0]) && StrippedAt(s[1..], a)
    ensures StrippedAt(s, a + 1)
  {
    var n := |Strip(s)|;
    assert Strip(s) == Strip(s[1..]);
    assert s[1..][a..a + n] == s[a + 1..a + 1 + n];
    assert s[1..][a + n..] == s[a + 1 + n..];
    assert s[..a + 1] == [s[0]] + s[1..][..a];
  }

  lemma StrippedAtBack(s: string, a: int)
    requires |s| > 0 && !IsSpace(s[0]) && IsSpace(s[|s| - 1]) && StrippedAt(s[..|s| - 1], a)
    ensures StrippedAt(s, a)
  {
    var n := |Strip(s)|;
    assert Strip(s) == Strip(s[..|s| - 1]);
    assert s[..|s| - 1][a..a + n] == s[a..a + n];
    assert s[..|s| - 1][..a] == s[..a];
    assert s[a + n..] == s[..|s| - 1][a + n..] + [s[|s| - 1]];
  }

  /** `Strip(s)` sits at index `a` of `s`, with only whitespace around it. */
  predicate StrippedAt(s: string, a: int) {
    && 0 <= a && a + |Strip(s)| <= |s|
    && Strip(s) == s[a..a + |Strip(s)|]
    && AllSpace(s[..a]) && AllSpace(s[a + |Strip(s)|..])
  }

  /** `Strip` recovers the trimmed core of any whitespace-padded string. */
  lemma {:induction false} StripPadded(w1: string, t: string, w2: string)
    requires AllSpace(w1) && AllSpace(w2) && Trimmed(t)
    ensures Strip(w1 + t + w2) == t
    decreases |w1| + |w2|
  {
    var s := w1 + t + w2;
    if |w1| > 0 {
      assert s[1..] == w1[1..] + t + w2;
      StripPadded(w1[1..], t, w2);
    } else if |t| == 0 && |w2| > 0 {
      assert s == w2 && s[1..] == w1 + t + w2[1..];
      StripPadded(w1, t, w2[1..]);
    } else if |w2| > 0 {
      assert s[0] == t[0];
      assert s[..|s| - 1] == w1 + t + w2[..|w2| - 1];
      StripPadded(w1, t, w2[..|w2| - 1]);
    } else {
      assert s == t;
    }
  }

  /** A string with no whitespace at either end is its own strip. */
  lemma StripTrimmed(s: string)
    requires Trimmed(s)
    ensures Strip(s) == s
  {
    StripPadded("", s, "");
    assert "" + s + "" == s;
  }

  /** Stripping twice is stripping once. */
  lemma StripIdempotent(s: string)
    ensures Strip(Strip(s)) == Strip(s)
  {
    StripPadded("", Strip(s), "");
    assert "" + Strip(s) + "" == Strip(s);
  }

  /** The part of `s` a regular-expression `$` anchor (without MULTILINE)
      can end at: `$` matches at the very end or just before one final
      newline. */
  function DropFinalNewline(s: string): string {
    if |s| > 0 && s[|s| - 1] == '\n' then s[..|s| - 1] else s
  }

  /** Index of the first occurrence of `c` in `s`. */
  function IndexOf(s: string, c: char): (i: nat)
    requires c in s
    ensures i < |s| && s[i] == c && c !in s[..i]
  {
    if s[0] == c then 0 else 1 + IndexOf(s[1..], c)
  }

  /** `sep.join(parts)` for a one-character separator. */
  function Join(parts: seq<string>, sep: char): string {
    if |parts| == 0 then ""
    else if |parts| == 1 then parts[0]
    else parts[0] + [sep] + Join(parts[1..], sep)
  }

  /** Python's `s.split(sep)` for a one-character separator: always at least
      one part, no part contains `sep`, and joining the parts gives `s` back. */
  function Split(s: string, sep: char): (parts: seq<string>)
    ensures |parts| >= 1
    ensures forall k :: 0 <= k < |parts| ==> sep !in parts[k]
    ensures Join(parts, sep) == s
    decreases |s|
  {
    if sep !in s then [s]
    else
      var i := IndexOf(s, sep);
      var rest := Split(s[i + 1..], sep);
      var parts := [s[..i]] + rest;
      assert parts[1..] == rest;
      assert s == s[..i] + [sep] + s[i + 1..];
      parts
  }

  /** Splitting a join of separator-free parts gives the parts back. */
  lemma {:induction false} SplitJoin(parts: seq<string>, sep: char)
    requires |parts| >= 1
    requires forall k :: 0 <= k < |parts| ==> sep !in parts[k]
    ensures Split(Join(parts, sep), sep) == parts
  {
    if |parts| > 1 {
      var s := Join(parts, sep);
      assert s == parts[0] + [sep] + Join(parts[1..], sep);
      assert s[|parts[0]|] == sep;
      assert s[..|parts[0]|] == parts[0];
      assert sep in s;
      assert IndexOf(s, sep) == |parts[0]|;
      assert s[|parts[0]| + 1..] == Join(parts[1..], sep);
      SplitJoin(parts[1..], sep);
    }
  }

  /** `t` occurs in `s` starting at index `i`. */
  predicate InfixAt(s: string, t: string, i: int) {
    0 <= i && i + |t| <= |s| && s[i..i + |t|] == t
  }

  /** Python's `t in s` for two strings (specified by `ContainsIff`). */
  function Contains(s: string, t: string): bool
    decreases |s|
  {
    if |t| > |s| then false
    else if s[..|t|] == t then true
    else Contains(s[1..], t)
  }

  /** `t in s` holds exactly when `t` occurs at some index of `s`. */
  lemma {:induction false} ContainsIff(s: string, t: string)
    ensures Contains(s, t) <==> exists i :: InfixAt(s, t, i)
    decreases |s|
  {
    if |t| > |s| {
    } else if s[..|t|] == t {
      assert InfixAt(s, t, 0);
    } else {
      ContainsIff(s[1..], t);
      if Contains(s, t) {
        var i :| InfixAt(s[1..], t, i);
        assert s[1..][i..i + |t|] == s[i + 1..i + 1 + |t|];
        assert InfixAt(s, t, i + 1);
      }
      if i :| InfixAt(s, t, i) {
        assert i != 0;
        assert s[1..][i - 1..i - 1 + |t|] == s[i..i + |t|];
        assert InfixAt(s[1..], t, i - 1);
      }
    }
  }

  /** The middle part of a concatenation occurs in it, after the first part. */
  lemma InfixOfConcat(a: string, b: string, c: string)
    ensures InfixAt(a + b + c, b, |a|) && Contains(a + b + c, b)
  {
    var s := a + b + c;
    assert s[|a|..|a| + |b|] == b;
    assert InfixAt(s, b, |a|);
    ContainsIff(s, b);
  }

  /** Python's `c.lower()` restricted to ASCII letters. */
  function LowerChar(c: char): char {
    if 'A' <= c <= 'Z' then (c as int + 32) as char else c
  }

  function ToLower(s: string): (r: string)
    ensures |r| == |s|
  {
    seq(|s|, i requires 0 <= i < |s| => LowerChar(s[i]))
  }

  predicate IsDigit(c: char) {
    '0' <= c <= '9'
  }

  predicate AllDigits(s: string) {
    forall i :: 0 <= i < |s| ==> IsDigit(s[i])
  }

  function DigitChar(d: nat): (c: char)
    requires d < 10
    ensures IsDigit(c)
  {
    ('0' as int + d) as char
  }

  function DigitValue(c: char): (d: nat)
    requires IsDigit(c)
    ensures d < 10 && DigitChar(d) == c
  {
    c as int - '0' as int
  }

  /** Value of a string of decimal digits. */
  function DigitsValue(s: string): nat
    requires AllDigits(s)
  {
    if |s| == 0 then 0 else DigitsValue(s[..|s| - 1]) * 10 + DigitValue(s[|s| - 1])
  }

  /** Python's `str(n)` for a natural number. */
  function NatToString(n: nat): (s: string)
    ensures |s| >= 1
  {
    if n < 10 then [DigitChar(n)] else NatToString(n / 10) + [DigitChar(n % 10)]
  }

  /** `str(n)` is a string of decimal digits whose value is `n`. */
  lemma {:induction false} NatToStringDigits(n: nat)
    ensures AllDigits(NatToString(n))
    ensures DigitsValue(NatToString(n)) == n
  {
    if n >= 10 {
      NatToStringDigits(n / 10);
      var s := NatToString(n);
      assert s[..|s| - 1] == NatToString(n / 10);
    }
  }

  /** Python's `str(i)` for any integer. */
  function IntToString(i: int): string {
    if i < 0 then "-" + NatToString(-i) else NatToString(i)
  }

  /** Python's `int(s)` restricted to ASCII: surrounding whitespace, an
      optional sign and at least one ASCII digit. `None` for every other
      string, including the underscore-separated and non-ASCII digit strings
      Python would accept. */
  function ParseInt(s: string): (r: Option<int>)
    ensures r.Some? ==> |Strip(s)| >= 1
  {
    var t := Strip(s);
    if |t| >= 2 && (t[0] == '-' || t[0] == '+') && AllDigits(t[1..]) then
      Some(if t[0] == '-' then -(DigitsValue(t[1..]) as int) else DigitsValue(t[1..]))
    else if |t| >= 1 && AllDigits(t) then Some(DigitsValue(t))
    else None
  }

  /** `int(str(i)) == i`. */
  lemma ParseIntRoundTrip(i: int)
    ensures ParseInt(IntToString(i)) == Some(i)
  {
    var n: nat := if i < 0 then -i else i;
    NatToStringDigits(n);
    var d := NatToString(n);
    var s := IntToString(i);
    assert IsDigit(d[0]) && IsDigit(d[|d| - 1]);
    if i < 0 {
      assert s == "-" + d && s[1..] == d;
    } else {
      assert s == d;
    }
    StripTrimmed(s);
  }
}
