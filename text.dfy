/**
 * The pieces of Python's string library that the router code uses, restricted to
 * what it needs: str.split on one character, str.strip, str.replace with the empty
 * string, str.lower on ASCII text, str.startswith/endswith, substring search and
 * int() on non-empty ASCII digit strings.
 */
module Text {

  import opened Errors

  predicate IsDigit(c: char) { '0' <= c <= '9' }

  predicate IsHexDigit(c: char) { IsDigit(c) || 'a' <= c <= 'f' || 'A' <= c <= 'F' }

  predicate AllDigits(s: string) { forall i :: 0 <= i < |s| ==> IsDigit(s[i]) }

  predicate StartsWith(s: string, prefix: string) {
    |prefix| <= |s| && s[..|prefix|] == prefix
  }

  predicate EndsWith(s: string, suffix: string) {
    |suffix| <= |s| && s[|s| - |suffix|..] == suffix
  }

  /** `pattern in s` */
  ghost predicate Contains(s: string, pattern: string) {
    exists i :: 0 <= i <= |s| && StartsWith(s[i..], pattern)
  }

  // ---------------------------------------------------------------------------
  // str.split(sep) and its inverse sep.join(parts)

  /** Python's s.split(sep) for a one-character separator: never empty, and a
      separator at either end or two in a row give empty pieces. */
  function Split(s: string, sep: char): (parts: seq<string>)
    ensures |parts| >= 1
    ensures forall p :: p in parts ==> sep !in p
    decreases |s|
  {
    if |s| == 0 then [""]
    else
      var rest := Split(s[1..], sep);
      if s[0] == sep then [""] + rest
      else
        var parts := [[s[0]] + rest[0]] + rest[1..];
        assert sep !in parts[0];
        parts
  }

  function Join(parts: seq<string>, sep: char): string
    requires |parts| >= 1
  {
    if |parts| == 1 then parts[0] else parts[0] + [sep] + Join(parts[1..], sep)
  }

  /** Joining the pieces with the separator gives back the string: no
      character is lost or added by Split. */
  lemma {:induction false} JoinSplit(s: string, sep: char)
    ensures Join(Split(s, sep), sep) == s
    decreases |s|
  {
    if |s| > 0 {
      JoinSplit(s[1..], sep);
      var rest := Split(s[1..], sep);
      if s[0] == sep {
        assert ([""] + rest)[1..] == rest;
      } else {
        var parts := [[s[0]] + rest[0]] + rest[1..];
        assert parts[1..] == rest[1..];
        if |rest| > 1 {
          assert Join(rest, sep) == rest[0] + [sep] + Join(rest[1..], sep);
        }
      }
    }
  }

  lemma {:induction false} SplitNoSeparator(s: string, sep: char)
    requires sep !in s
    ensures Split(s, sep) == [s]
    decreases |s|
  {
    if |s| > 0 {
      SplitNoSeparator(s[1..], sep);
      assert [s[0]] + s[1..] == s;
    }
  }

  lemma {:induction false} SplitAfterPiece(a: string, sep: char, t: string)
    requires sep !in a
    ensures Split(a + [sep] + t, sep) == [a] + Split(t, sep)
    decreases |a|
  {
    var s := a + [sep] + t;
    if |a| == 0 {
      assert s[1..] == t;
    } else {
      assert s[1..] == a[1..] + [sep] + t;
      SplitAfterPiece(a[1..], sep, t);
      assert [a[0]] + a[1..] == a;
    }
  }

  /** Splitting what was joined gives back the pieces, when no piece holds the
      separator: the other half of the round trip stated by Split's contract. */
  lemma {:induction false} SplitJoin(parts: seq<string>, sep: char)
    requires |parts| >= 1
    requires forall p :: p in parts ==> sep !in p
    ensures Split(Join(parts, sep), sep) == parts
    decreases |parts|
  {
    if |parts| == 1 {
      SplitNoSeparator(parts[0], sep);
    } else {
      assert parts[0] in parts;
      assert forall p :: p in parts[1..] ==> p in parts;
      SplitJoin(parts[1..], sep);
      SplitAfterPiece(parts[0], sep, Join(parts[1..], sep));
      assert [parts[0]] + parts[1..] == parts;
    }
  }

  /** "a<sep>b" splits into exactly [a, b]. */
  lemma {:induction false} SplitTwo(a: string, sep: char, b: string)
    requires sep !in a && sep !in b
    ensures Split(a + [sep] + b, sep) == [a, b]
  {
    assert Join([a, b], sep) == a + [sep] + b;
    SplitJoin([a, b], sep);
  }

  // ---------------------------------------------------------------------------
  // str.strip() with no argument

  /** Python's str.isspace() on one character. */
  predicate IsSpace(c: char) {
    var n := c as int;
    (0x09 <= n <= 0x0D) || (0x1C <= n <= 0x20) || n == 0x85 || n == 0xA0 || n == 0x1680
    || (0x2000 <= n <= 0x200A) || n == 0x2028 || n == 0x2029 || n == 0x202F
    || n == 0x205F || n == 0x3000
  }

  /** s.strip(): s with its leading and trailing whitespace removed. */
  function Strip(s: string): (r: string)
    ensures |r| <= |s|
    ensures |r| > 0 ==> !IsSpace(r[0]) && !IsSpace(r[|r| - 1])
    decreases |s|
  {
    if |s| > 0 && IsSpace(s[0]) then Strip(s[1..])
    else if |s| > 0 && IsSpace(s[|s| - 1]) then Strip(s[..|s| - 1])
    else s
  }

  /** How many characters strip removes from the front of s. */
  function StripStart(s: string): (i: nat)
    ensures i + |Strip(s)| <= |s|
    decreases |s|
  {
    if |s| > 0 && IsSpace(s[0]) then 1 + StripStart(s[1..])
    else if |s| > 0 && IsSpace(s[|s| - 1]) then StripStart(s[..|s| - 1])
    else 0
  }

  /** What strip keeps is one stretch of s: its k-th character is the
      character StripStart(s) + k of s ... */
  lemma {:induction false} StripIsStretch(s: string, k: nat)
    requires k < |Strip(s)|
    ensures Strip(s)[k] == s[StripStart(s) + k]
    decreases |s|
  {
    if |s| > 0 && IsSpace(s[0]) {
      StripIsStretch(s[1..], k);
    } else if |s| > 0 && IsSpace(s[|s| - 1]) {
      StripIsStretch(s[..|s| - 1], k);
    }
  }

  /** ... and everything before that stretch is whitespace ... */
  lemma {:induction false} StripDropsLeadingSpace(s: string, k: nat)
    requires k < StripStart(s)
    ensures IsSpace(s[k])
    decreases |s|
  {
    if |s| > 0 && IsSpace(s[0]) {
      if k > 0 {
        StripDropsLeadingSpace(s[1..], k - 1);
      }
    } else if |s| > 0 && IsSpace(s[|s| - 1]) {
      StripDropsLeadingSpace(s[..|s| - 1], k);
    }
  }

  /** ... and so is everything after it. */
  lemma {:induction false} StripDropsTrailingSpace(s: string, k: nat)
    requires StripStart(s) + |Strip(s)| <= k < |s|
    ensures IsSpace(s[k])
    decreases |s|
  {
    if |s| > 0 && IsSpace(s[0]) {
      StripDropsTrailingSpace(s[1..], k - 1);
    } else if |s| > 0 && IsSpace(s[|s| - 1]) {
      if k < |s| - 1 {
        StripDropsTrailingSpace(s[..|s| - 1], k);
      }
    }
  }

  // ---------------------------------------------------------------------------
  // str.replace(pattern, '')

  /** s.replace(pattern, ''): occurrences are found left to right and do not
      overlap; text that forms a new occurrence after a removal is kept. */
  function RemoveAll(s: string, pattern: string): (r: string)
    requires |pattern| > 0
    ensures |r| <= |s|
    decreases |s|
  {
    if |s| < |pattern| then s
    else if s[..|pattern|] == pattern then RemoveAll(s[|pattern|..], pattern)
    else [s[0]] + RemoveAll(s[1..], pattern)
  }

  /** No occurrence of `pattern` starts among the first n characters of s. */
  predicate NoOccurrenceBefore(s: string, n: nat, pattern: string)
    requires n <= |s|
  {
    forall i :: 0 <= i < n ==> !StartsWith(s[i..], pattern)
  }

  /** Text in which the pattern's first character never occurs is unchanged. */
  lemma {:induction false} RemoveAllUnchanged(s: string, pattern: string)
    requires |pattern| > 0
    requires forall i :: 0 <= i < |s| ==> s[i] != pattern[0]
    ensures RemoveAll(s, pattern) == s
    decreases |s|
  {
    if |s| >= |pattern| {
      assert s[..|pattern|][0] != pattern[0];
      RemoveAllUnchanged(s[1..], pattern);
      assert [s[0]] + s[1..] == s;
    }
  }

  /** Where no occurrence starts, the first character is kept. */
  lemma {:induction false} RemoveAllKeepsFirst(s: string, pattern: string)
    requires |pattern| > 0 && |s| > 0 && !StartsWith(s, pattern)
    ensures RemoveAll(s, pattern) == [s[0]] + RemoveAll(s[1..], pattern)
  {
  }

  /** An occurrence at the front is dropped. */
  lemma {:induction false} RemoveAllDropsFirst(pattern: string, b: string)
    requires |pattern| > 0
    ensures RemoveAll(pattern + b, pattern) == RemoveAll(b, pattern)
  {
    var s := pattern + b;
    assert s[..|pattern|] == pattern;
    assert s[|pattern|..] == b;
  }

  /** No occurrence starting in the first n characters means none starts in
      the first n - 1 characters after the first one. */
  lemma {:induction false} NoOccurrenceInTail(s: string, n: nat, pattern: string)
    requires 0 < n <= |s| && NoOccurrenceBefore(s, n, pattern)
    ensures !StartsWith(s, pattern)
    ensures NoOccurrenceBefore(s[1..], n - 1, pattern)
  {
    assert s[0..] == s;
    forall i | 0 <= i < n - 1
      ensures !StartsWith(s[1..][i..], pattern)
    {
      assert s[1..][i..] == s[i + 1..];
    }
  }

  /** Characters where no occurrence starts are kept as they are. */
  lemma {:induction false} RemoveAllKeepsPrefix(s: string, n: nat, pattern: string)
    requires |pattern| > 0 && n <= |s| && NoOccurrenceBefore(s, n, pattern)
    ensures RemoveAll(s, pattern) == s[..n] + RemoveAll(s[n..], pattern)
    decreases n
  {
    if n == 0 {
      assert s[..0] + s[0..] == s;
    } else {
      var t := s[1..];
      NoOccurrenceInTail(s, n, pattern);
      RemoveAllKeepsFirst(s, pattern);
      RemoveAllKeepsPrefix(t, n - 1, pattern);
      assert t[..n - 1] == s[1..n] && t[n - 1..] == s[n..];
      assert [s[0]] + s[1..n] == s[..n];
    }
  }

  /** Text before the first occurrence is kept as it is, the occurrence is
      dropped, and the removal goes on after it. */
  lemma {:induction false} RemoveAllOccurrence(a: string, pattern: string, b: string)
    requires |pattern| > 0 && NoOccurrenceBefore(a + pattern + b, |a|, pattern)
    ensures RemoveAll(a + pattern + b, pattern) == a + RemoveAll(b, pattern)
  {
    var s := a + pattern + b;
    RemoveAllKeepsPrefix(s, |a|, pattern);
    assert s[..|a|] == a && s[|a|..] == pattern + b;
    RemoveAllDropsFirst(pattern, b);
  }

  // ---------------------------------------------------------------------------
  // str.lower() on ASCII text

  predicate IsUpper(c: char) { 'A' <= c <= 'Z' }

  function LowerChar(c: char): char {
    if IsUpper(c) then (c as int + 32) as char else c
  }

  /** s.lower(): no capital is left, every other character is kept, and each
      capital becomes the same letter in lower case. */
  function Lower(s: string): (r: string)
    ensures |r| == |s|
    ensures forall i :: 0 <= i < |r| ==> !IsUpper(r[i])
    ensures forall i :: 0 <= i < |s| && !IsUpper(s[i]) ==> r[i] == s[i]
    ensures forall i :: 0 <= i < |s| && IsUpper(s[i]) ==>
      'a' <= r[i] <= 'z' && r[i] as int - 'a' as int == s[i] as int - 'A' as int
  {
    seq(|s|, i requires 0 <= i < |s| => LowerChar(s[i]))
  }

  /** Lower-casing twice is lower-casing once. */
  lemma {:induction false} LowerIdempotent(s: string)
    ensures Lower(Lower(s)) == Lower(s)
  {
    var t := Lower(s);
    assert forall i :: 0 <= i < |t| ==> Lower(t)[i] == t[i];
  }

  // ---------------------------------------------------------------------------
  // int() on decimal digit strings, and its inverse str() on naturals

  function DigitValue(c: char): nat
    requires IsDigit(c)
  {
    c as int - '0' as int
  }

  function DigitChar(d: nat): char
    requires d < 10
  {
    ('0' as int + d) as char
  }

  /** The value of a string of decimal digits; leading zeros are allowed. */
  function Decimal(s: string): nat
    requires AllDigits(s)
    decreases |s|
  {
    if |s| == 0 then 0 else 10 * Decimal(s[..|s| - 1]) + DigitValue(s[|s| - 1])
  }

  /** A two-digit string reads as tens and units. */
  lemma {:induction false} TwoDigits(a: char, b: char)
    requires IsDigit(a) && IsDigit(b)
    ensures AllDigits([a, b]) && Decimal([a, b]) == 10 * DigitValue(a) + DigitValue(b)
  {
    var s := [a, b];
    assert AllDigits(s);
    assert s[..1] == [a] && [a][..0] == [];
    assert Decimal([a]) == 10 * Decimal([]) + DigitValue(a);
    assert Decimal(s) == 10 * Decimal([a]) + DigitValue(b);
  }

  /** str(n): the shortest decimal spelling of n, which Decimal reads back. */
  function ToDecimal(n: nat): (s: string)
    ensures |s| >= 1 && AllDigits(s) && Decimal(s) == n
    ensures |s| > 1 ==> s[0] != '0'
    decreases n
  {
    if n < 10 then [DigitChar(n)]
    else
      var s := ToDecimal(n / 10) + [DigitChar(n % 10)];
      assert s[..|s| - 1] == ToDecimal(n / 10);
      s
  }

  /** int(s), for the inputs this model admits: a non-empty run of ASCII digits.
      Anything else (the empty string included) is refused. */
  function ParseNat(s: string): (r: Result<nat>)
    ensures r.Ok? <==> |s| > 0 && AllDigits(s)
    ensures r.Err? ==> r.error == InvalidLiteral(s)
  {
    if |s| > 0 && AllDigits(s) then Ok(Decimal(s)) else Err(InvalidLiteral(s))
  }
}
