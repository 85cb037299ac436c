/**
 * The rules of router.py that are plain functions of strings: the MAC address
 * pattern, the week-day table and the day-token decision in time_limit, the
 * session-key pattern and the gateway URL built by the constructor.
 */
module RouterRules {

  import opened Errors
  import opened Text
  import Utils

  // ---------------------------------------------------------------------------
  // Router.mac_pattern: ^([0-9A-Fa-f]{2}[:-]){5}([0-9A-Fa-f]{2})$

  predicate IsMacSeparator(c: char) { c == ':' || c == '-' }

  /** The pattern read left to right: `groups` more groups of two hex digits and
      a separator, then two hex digits and the end of the string. */
  predicate MatchGroups(s: string, groups: nat)
    decreases groups
  {
    if groups == 0 then |s| == 2 && IsHexDigit(s[0]) && IsHexDigit(s[1])
    else
      |s| >= 3 && IsHexDigit(s[0]) && IsHexDigit(s[1]) && IsMacSeparator(s[2])
      && MatchGroups(s[3..], groups - 1)
  }

  /** Router.mac_pattern.search(s) */
  predicate MatchesMac(s: string) {
    MatchGroups(s, 5)
  }

  /** Positions 2, 5, 8, 11 and 14 hold a separator, every other position of a
      `groups`-group string a hex digit. */
  ghost predicate GroupShape(s: string, groups: nat) {
    |s| == 3 * groups + 2
    && forall i :: 0 <= i < |s| ==> if i % 3 == 2 then IsMacSeparator(s[i]) else IsHexDigit(s[i])
  }

  lemma {:induction false} MatchGroupsShape(s: string, groups: nat)
    ensures MatchGroups(s, groups) <==> GroupShape(s, groups)
    decreases groups
  {
    if groups > 0 && |s| >= 3 {
      MatchGroupsShape(s[3..], groups - 1);
      if GroupShape(s, groups) {
        forall i | 0 <= i < |s[3..]|
          ensures if i % 3 == 2 then IsMacSeparator(s[3..][i]) else IsHexDigit(s[3..][i])
        {
          assert s[3..][i] == s[i + 3] && (i + 3) % 3 == i % 3;
        }
      }
      if MatchGroups(s, groups) {
        forall i | 0 <= i < |s|
          ensures if i % 3 == 2 then IsMacSeparator(s[i]) else IsHexDigit(s[i])
        {
          if i >= 3 {
            assert s[i] == s[3..][i - 3] && (i - 3) % 3 == i % 3;
          }
        }
      }
    }
  }

  /** mac_pattern accepts exactly the 17-character strings made of six pairs of
      hex digits, in either case, joined by ':' or '-' (mixed separators too). */
  lemma {:induction false} MacPatternShape(s: string)
    ensures MatchesMac(s) <==>
      |s| == 17 && forall i :: 0 <= i < 17 ==> if i % 3 == 2 then IsMacSeparator(s[i]) else IsHexDigit(s[i])
  {
    MatchGroupsShape(s, 5);
  }

  /** Upper-case digits joined by colons. */
  lemma {:induction false} MacPatternAcceptsColons()
    ensures MatchesMac("AA:BB:CC:DD:EE:FF")
  {
    Accepts("AA:BB:CC:DD:EE:FF");
  }

  /** Lower-case digits joined by dashes. */
  lemma {:induction false} MacPatternAcceptsDashes()
    ensures MatchesMac("aa-bb-cc-dd-ee-ff")
  {
    Accepts("aa-bb-cc-dd-ee-ff");
  }

  /** Each separator is chosen on its own, so mixed separators are accepted. */
  lemma {:induction false} MacPatternAcceptsMixed()
    ensures MatchesMac("00:1a-2B:3c-4D:5e")
  {
    Accepts("00:1a-2B:3c-4D:5e");
  }

  lemma {:induction false} Accepts(s: string)
    requires |s| == 17
    requires IsHexDigit(s[0]) && IsHexDigit(s[1]) && IsMacSeparator(s[2])
    requires IsHexDigit(s[3]) && IsHexDigit(s[4]) && IsMacSeparator(s[5])
    requires IsHexDigit(s[6]) && IsHexDigit(s[7]) && IsMacSeparator(s[8])
    requires IsHexDigit(s[9]) && IsHexDigit(s[10]) && IsMacSeparator(s[11])
    requires IsHexDigit(s[12]) && IsHexDigit(s[13]) && IsMacSeparator(s[14])
    requires IsHexDigit(s[15]) && IsHexDigit(s[16])
    ensures MatchesMac(s)
  {
    assert MatchGroups(s[15..], 0);
    assert s[12..][3..] == s[15..];
    assert MatchGroups(s[12..], 1);
    assert s[9..][3..] == s[12..];
    assert MatchGroups(s[9..], 2);
    assert s[6..][3..] == s[9..];
    assert MatchGroups(s[6..], 3);
    assert s[3..][3..] == s[6..];
    assert MatchGroups(s[3..], 4);
  }

  lemma {:induction false} MacPatternRefuses()
    ensures !MatchesMac("AABBCCDDEEFF")
    ensures !MatchesMac("AA:BB:CC:DD:EE:F")
    ensures !MatchesMac("AA:BB:CC:DD:EE:FG")
  {
    MacPatternShape("AABBCCDDEEFF");
    MacPatternShape("AA:BB:CC:DD:EE:F");
    MacPatternShape("AA:BB:CC:DD:EE:FG");
    assert "AA:BB:CC:DD:EE:FG"[16] == 'G';
  }

  /** A MAC as station() stores it: matching the pattern, no upper-case letter. */
  predicate IsLowerMac(s: string) {
    MatchesMac(s) && forall i :: 0 <= i < |s| ==> !IsUpper(s[i])
  }

  /** Lower-casing a matching string keeps it matching and leaves no capital. */
  lemma {:induction false} LowerMac(s: string)
    requires MatchesMac(s)
    ensures IsLowerMac(Lower(s))
    ensures Lower(Lower(s)) == Lower(s)
  {
    var t := Lower(s);
    MacPatternShape(s);
    MacPatternShape(t);
    assert forall i :: 0 <= i < |s| ==> t[i] == LowerChar(s[i]);
  }

  // ---------------------------------------------------------------------------
  // Router.week_days

  const DayNames: seq<string> := ["Mon", "Tue", "Wed", "Thu", "Fri", "Sat", "Sun"]

  const WeekDays: map<string, nat> := map[
    "Mon" := 1, "Tue" := 2, "Wed" := 4, "Thu" := 8, "Fri" := 16, "Sat" := 32, "Sun" := 64,
    "Everyday" := 127]

  function Pow2(n: nat): nat
  {
    if n == 0 then 1 else 2 * Pow2(n - 1)
  }

  /** The sum of the bits of days 0 .. n-1. */
  function DaysUpTo(n: nat): nat
    requires n <= 7
  {
    if n == 0 then 0 else DaysUpTo(n - 1) + WeekDays[DayNames[n - 1]]
  }

  /** The table holds eight tokens: the seven days and Everyday. */
  lemma {:induction false} WeekDaysKeys()
    ensures WeekDays.Keys == (set i | 0 <= i < 7 :: DayNames[i]) + {"Everyday"}
  {
    var names := set i | 0 <= i < 7 :: DayNames[i];
    assert DayNames[0] in names && DayNames[1] in names && DayNames[2] in names;
    assert DayNames[3] in names && DayNames[4] in names && DayNames[5] in names;
    assert DayNames[6] in names;
  }

  /** Day i of the week (Monday first) is bit i, and Everyday is the sum of
      all seven. */
  lemma {:induction false} WeekDaysBits()
    ensures forall i :: 0 <= i < 7 ==> WeekDays[DayNames[i]] == Pow2(i)
    ensures WeekDays["Everyday"] == DaysUpTo(7) == Pow2(7) - 1
  {
    assert Pow2(0) == 1 && Pow2(1) == 2 && Pow2(2) == 4 && Pow2(3) == 8;
    assert Pow2(4) == 16 && Pow2(5) == 32 && Pow2(6) == 64 && Pow2(7) == 128;
    assert DaysUpTo(7) == 127;
  }

  // ---------------------------------------------------------------------------
  // The day-token decision of time_limit

  /** What time_limit does with its `days` argument once the times converted:
      send a request with a day mask, print that a day is not in the table and
      send nothing, or silently send nothing. */
  datatype DayPlan = SendMask(mask: nat) | Diagnostic | NoRequest

  /** days.split('-') and the branches that follow, with the table lookups done
      in Router.week_days. A single token is looked up without a membership
      test, so an unknown one raises KeyError. */
  function EncodeDays(days: string): (r: Result<DayPlan>)
    ensures r.Err? ==> |Split(days, '-')| == 1 && r.error == KeyError(days)
    ensures r.Ok? && r.value.SendMask? ==> r.value.mask in WeekDays.Values && 1 <= r.value.mask <= 127
  {
    var parts := Split(days, '-');
    JoinSplit(days, '-');
    if |parts| >= 3 then Ok(NoRequest)
    else if |parts| == 1 then
      if parts[0] in WeekDays then Ok(SendMask(WeekDays[parts[0]])) else Err(KeyError(parts[0]))
    else if parts[0] in WeekDays && parts[1] in WeekDays then
      if parts[0] == parts[1] then Ok(SendMask(WeekDays["Everyday"]))
      else Ok(SendMask(WeekDays[parts[1]]))
    else Ok(Diagnostic)
  }

  /** The same decision as router.py:183-196 spells it: the bare name week_days
      is not bound inside the method (the table is a class attribute), so every
      branch that consults the table raises NameError. */
  function EncodeDaysAsWritten(days: string): Result<DayPlan>
  {
    var parts := Split(days, '-');
    if |parts| >= 3 then Ok(NoRequest) else Err(NameError("week_days"))
  }

  /** As written, no day specification ever leads to a request. */
  lemma {:induction false} AsWrittenNeverSends(days: string)
    ensures !(EncodeDaysAsWritten(days).Ok? && EncodeDaysAsWritten(days).value.SendMask?)
    ensures EncodeDaysAsWritten("Mon") == Err(NameError("week_days"))
    ensures EncodeDays("Mon") == Ok(SendMask(1))
  {
    SingleDay("Mon");
  }

  /** One known token gives its table value. */
  lemma {:induction false} SingleDay(day: string)
    requires day in WeekDays
    ensures EncodeDays(day) == Ok(SendMask(WeekDays[day]))
  {
    assert '-' !in day;
    SplitNoSeparator(day, '-');
  }

  /** One unknown token without a dash is a KeyError. */
  lemma {:induction false} UnknownSingleDay(day: string)
    requires day !in WeekDays && '-' !in day
    ensures EncodeDays(day) == Err(KeyError(day))
  {
    SplitNoSeparator(day, '-');
  }

  /** "D-D" for a known D is every day of the week, whatever D is. */
  lemma {:induction false} SameDayTwice(day: string)
    requires day in WeekDays
    ensures EncodeDays(day + "-" + day) == Ok(SendMask(127))
  {
    assert '-' !in day;
    SplitTwo(day, '-', day);
  }

  /** "A-B" for two distinct known tokens gives B's value alone: no range of
      days is formed. */
  lemma {:induction false} DistinctDays(first: string, second: string)
    requires first in WeekDays && second in WeekDays && first != second
    ensures EncodeDays(first + "-" + second) == Ok(SendMask(WeekDays[second]))
  {
    assert '-' !in first && '-' !in second;
    SplitTwo(first, '-', second);
  }

  /** For example "Mon-Fri" asks for Friday only (16), not Monday to Friday (31). */
  lemma {:induction false} MondayToFriday()
    ensures EncodeDays("Mon-Fri") == Ok(SendMask(16))
  {
    DistinctDays("Mon", "Fri");
    assert "Mon" + "-" + "Fri" == "Mon-Fri";
  }

  /** "A-B" with an unknown token prints the diagnostic and sends nothing. */
  lemma {:induction false} UnknownInPair(first: string, second: string)
    requires '-' !in first && '-' !in second
    requires first !in WeekDays || second !in WeekDays
    ensures EncodeDays(first + "-" + second) == Ok(Diagnostic)
  {
    SplitTwo(first, '-', second);
  }

  /** Three or more parts send nothing and print nothing. */
  lemma {:induction false} ThreeOrMoreParts(a: string, b: string, rest: string)
    requires '-' !in a && '-' !in b
    ensures EncodeDays(a + "-" + b + "-" + rest) == Ok(NoRequest)
  {
    var t := a + "-" + b + "-" + rest;
    assert t == a + ['-'] + (b + ['-'] + rest);
    SplitAfterPiece(a, '-', b + ['-'] + rest);
    SplitAfterPiece(b, '-', rest);
  }

  // ---------------------------------------------------------------------------
  // get_session_key: re.search('\d{5,13}', body).group()

  /** The greedy quantifier {5,13} at position i: as many digits as follow, but
      no more than `most`. */
  function GreedyDigits(s: string, i: nat, most: nat): (n: nat)
    requires i <= |s|
    ensures n <= most && i + n <= |s|
    decreases most
  {
    if most == 0 || i == |s| || !IsDigit(s[i]) then 0 else 1 + GreedyDigits(s, i + 1, most - 1)
  }

  /** n digits start at position p of s. */
  ghost predicate DigitsAt(s: string, p: nat, n: nat) {
    p + n <= |s| && forall j :: p <= j < p + n ==> IsDigit(s[j])
  }

  /** The greedy quantifier takes digits only, and stops short of `most` only
      at the end of the text or at a non-digit. */
  lemma {:induction false} GreedyDigitsRun(s: string, i: nat, most: nat)
    requires i <= |s|
    ensures DigitsAt(s, i, GreedyDigits(s, i, most))
    ensures GreedyDigits(s, i, most) < most ==>
      i + GreedyDigits(s, i, most) == |s| || !IsDigit(s[i + GreedyDigits(s, i, most)])
    decreases most
  {
    if !(most == 0 || i == |s| || !IsDigit(s[i])) {
      GreedyDigitsRun(s, i + 1, most - 1);
    }
  }

  /** The pattern matches at p iff at least five digits start there. */
  lemma {:induction false} MatchAt(s: string, p: nat)
    requires p <= |s|
    ensures GreedyDigits(s, p, 13) >= 5 <==> DigitsAt(s, p, 5)
  {
    var n := GreedyDigits(s, p, 13);
    GreedyDigitsRun(s, p, 13);
    if n < 5 && DigitsAt(s, p, 5) {
      assert false;
    }
  }

  /** The search loop of re.search: the leftmost position from i on where the
      pattern matches. */
  function SearchKey(s: string, i: nat): (r: Option<nat>)
    requires i <= |s|
    ensures r.Some? ==> i <= r.value <= |s| && GreedyDigits(s, r.value, 13) >= 5
    ensures forall q :: i <= q <= |s| && (r.Some? ==> q < r.value) ==> GreedyDigits(s, q, 13) < 5
    decreases |s| - i
  {
    if GreedyDigits(s, i, 13) >= 5 then Some(i)
    else if i == |s| then None
    else SearchKey(s, i + 1)
  }

  /** The session key on a page: the leftmost run of five or more digits, cut
      to its first thirteen. A page without one raises (AttributeError on None). */
  function FindSessionKey(body: string): Result<string>
  {
    match SearchKey(body, 0)
    case None => Err(NoSessionKey)
    case Some(p) => Ok(body[p..p + GreedyDigits(body, p, 13)])
  }

  /** The shape of every key the router hands out: 5 to 13 decimal digits. */
  predicate IsSessionKey(k: string) {
    5 <= |k| <= 13 && AllDigits(k)
  }

  /** k is the key at position p of body: 5 to 13 digits, no match starts
      earlier, and a key shorter than 13 digits is not followed by a digit. */
  ghost predicate KeyAt(body: string, p: nat, k: string) {
    && p + |k| <= |body| && body[p..p + |k|] == k
    && IsSessionKey(k)
    && (forall q :: 0 <= q < p ==> !DigitsAt(body, q, 5))
    && (|k| < 13 ==> p + |k| == |body| || !IsDigit(body[p + |k|]))
  }

  /** No key is found iff no five digits stand together anywhere on the page. */
  lemma {:induction false} SessionKeyMissing(body: string)
    ensures FindSessionKey(body).Err? <==> forall q :: 0 <= q <= |body| ==> !DigitsAt(body, q, 5)
    ensures FindSessionKey(body).Err? ==> FindSessionKey(body).error == NoSessionKey
  {
    var r := SearchKey(body, 0);
    if r.None? {
      forall q | 0 <= q <= |body| ensures !DigitsAt(body, q, 5) {
        MatchAt(body, q);
      }
    } else {
      MatchAt(body, r.value);
    }
  }

  /** A key that is found is the leftmost run of five or more digits, cut to
      its first thirteen. */
  lemma {:induction false} SessionKeyFound(body: string)
    requires FindSessionKey(body).Ok?
    ensures exists p :: KeyAt(body, p, FindSessionKey(body).value)
  {
    var p := SearchKey(body, 0).value;
    assert GreedyDigits(body, p, 13) >= 5;
    assert forall q :: 0 <= q < p ==> GreedyDigits(body, q, 13) < 5;
    KeyFoundAt(body, p);
    assert KeyAt(body, p, FindSessionKey(body).value);
  }

  /** The run the search stops at is a key in the sense of KeyAt. */
  lemma {:induction false} KeyFoundAt(body: string, p: nat)
    requires p <= |body| && GreedyDigits(body, p, 13) >= 5
    requires forall q :: 0 <= q < p ==> GreedyDigits(body, q, 13) < 5
    ensures p + GreedyDigits(body, p, 13) <= |body|
    ensures KeyAt(body, p, body[p..p + GreedyDigits(body, p, 13)])
  {
    var n := GreedyDigits(body, p, 13);
    GreedyDigitsRun(body, p, 13);
    NoEarlierMatch(body, p);
    MatchAt(body, p);
    DigitRun(body, p, n);
    KeyAtHere(body, p, n);
  }

  /** The facts KeyAt collects, one by one. */
  lemma {:induction false} KeyAtHere(body: string, p: nat, n: nat)
    requires p + n <= |body| && 5 <= n <= 13 && AllDigits(body[p..p + n])
    requires forall q :: 0 <= q < p ==> !DigitsAt(body, q, 5)
    requires n < 13 ==> p + n == |body| || !IsDigit(body[p + n])
    ensures KeyAt(body, p, body[p..p + n])
  {
  }

  /** No match starts before the position the search returns. */
  lemma {:induction false} NoEarlierMatch(body: string, p: nat)
    requires p <= |body| && forall q :: 0 <= q < p ==> GreedyDigits(body, q, 13) < 5
    ensures forall q :: 0 <= q < p ==> !DigitsAt(body, q, 5)
  {
    forall q | 0 <= q < p ensures !DigitsAt(body, q, 5) {
      MatchAt(body, q);
    }
  }

  /** The digits the greedy quantifier takes form a digit string. */
  lemma {:induction false} DigitRun(body: string, p: nat, n: nat)
    requires p <= |body| && n == GreedyDigits(body, p, 13)
    ensures AllDigits(body[p..p + n])
  {
    var k := body[p..p + n];
    forall i | 0 <= i < |k| ensures IsDigit(k[i]) {
      assert k[i] == body[p + i];
    }
  }

  /** At most one key fits the description: the description determines the key. */
  lemma {:induction false} KeyAtUnique(body: string, p1: nat, k1: string, p2: nat, k2: string)
    requires KeyAt(body, p1, k1) && KeyAt(body, p2, k2)
    ensures p1 == p2 && k1 == k2
  {
    assert DigitsAt(body, p1, 5) by {
      forall j | p1 <= j < p1 + 5 ensures IsDigit(body[j]) { assert body[j] == k1[j - p1]; }
    }
    assert DigitsAt(body, p2, 5) by {
      forall j | p2 <= j < p2 + 5 ensures IsDigit(body[j]) { assert body[j] == k2[j - p2]; }
    }
    assert p1 == p2;
    if |k1| < |k2| {
      DigitInside(body, p2, k2, |k1|);
    } else if |k2| < |k1| {
      DigitInside(body, p1, k1, |k2|);
    }
  }

  lemma {:induction false} DigitInside(body: string, p: nat, k: string, n: nat)
    requires p + |k| <= |body| && body[p..p + |k|] == k && AllDigits(k) && n < |k|
    ensures p + n < |body| && IsDigit(body[p + n])
  {
    assert body[p + n] == k[n];
  }

  lemma {:induction false} SessionKeyExample()
    ensures FindSessionKey("k=123456;") == Ok("123456")
  {
    var s := "k=123456;";
    assert GreedyDigits(s, 8, 7) == 0;
    assert GreedyDigits(s, 2, 13) == 6;
    assert SearchKey(s, 2) == Some(2);
    assert SearchKey(s, 0) == Some(2);
    assert s[2..8] == "123456";
  }

  // ---------------------------------------------------------------------------
  // The gateway URL built by Router.__init__

  /** What lies between "http://" and the final "/" of a gateway URL. */
  function HostOf(url: string): string
    requires |url| >= 8
  {
    url[7..|url| - 1]
  }

  /** "http://" + gateway + "/" when validate_gateway accepts the gateway,
      ValueError otherwise. */
  function GatewayUrl(gateway: string): (r: Result<string>)
    ensures r.Ok? <==> Utils.ValidateGateway(gateway)
    ensures r.Err? ==> r.error == InvalidGateway
    ensures r.Ok? ==>
      && StartsWith(r.value, "http://") && EndsWith(r.value, "/") && |r.value| >= 8
      && HostOf(r.value) == gateway
  {
    if Utils.ValidateGateway(gateway) then
      var url := "http://" + gateway + "/";
      assert url[..7] == "http://" && url[|url| - 1..] == "/" && url[7..|url| - 1] == gateway;
      Ok(url)
    else Err(InvalidGateway)
  }

  /** The URL a router keeps (and __repr__ returns) is not itself a gateway the
      constructor would accept. */
  lemma {:induction false} GatewayUrlNotAGateway(gateway: string)
    requires GatewayUrl(gateway).Ok?
    ensures !Utils.ValidateGateway(GatewayUrl(gateway).value)
  {
    var url := GatewayUrl(gateway).value;
    assert StartsWith(url[0..], "http://") by { assert url[0..] == url; }
  }

  /** The constructor's default gateway is accepted. */
  lemma {:induction false} DefaultGateway()
    ensures GatewayUrl("192.168.1.1") == Ok("http://" + "192.168.1.1" + "/")
  {
    assert !EndsWith("192.168.1.1", "/") by { assert "192.168.1.1"[10..] == "1"; }
    Utils.PlainGateway("192.168.1.1");
  }

  /** A gateway written with its scheme, or with a trailing '/', is refused. */
  lemma {:induction false} GatewaySchemeOrSlashRefused()
    ensures GatewayUrl("http://192.168.1.1").Err?
    ensures GatewayUrl("192.168.1.1/").Err?
  {
    assert StartsWith("http://192.168.1.1"[0..], "http://");
    assert EndsWith("192.168.1.1/", "/");
  }
}
