/** utils.py: the gateway check and the "H[:M]" to minutes-since-midnight conversion. */
module Utils {

  import opened Errors
  import opened Text

  // ---------------------------------------------------------------------------
  // validate_gateway

  /** The regular expression "https?://" matches at the start of g. */
  predicate SchemeAt(g: string) {
    StartsWith(g, "http://") || StartsWith(g, "https://")
  }

  /** re.search("https?://", g): try every start position, leftmost first. */
  function SearchScheme(g: string): bool
    decreases |g|
  {
    if SchemeAt(g) then true
    else if |g| == 0 then false
    else SearchScheme(g[1..])
  }

  lemma {:induction false} SearchSchemeIsContains(g: string)
    ensures SearchScheme(g) <==> Contains(g, "http://") || Contains(g, "https://")
    decreases |g|
  {
    if SchemeAt(g) {
      assert g[0..] == g;
    } else if |g| == 0 {
      assert forall i :: 0 <= i <= |g| ==> g[i..] == g;
    } else {
      SearchSchemeIsContains(g[1..]);
      if Contains(g[1..], "http://") {
        var i :| 0 <= i <= |g[1..]| && StartsWith(g[1..][i..], "http://");
        assert g[1..][i..] == g[i + 1..];
      }
      if Contains(g[1..], "https://") {
        var i :| 0 <= i <= |g[1..]| && StartsWith(g[1..][i..], "https://");
        assert g[1..][i..] == g[i + 1..];
      }
      if Contains(g, "http://") {
        var i :| 0 <= i <= |g| && StartsWith(g[i..], "http://");
        assert i != 0 by { assert g[0..] == g; }
        assert g[1..][i - 1..] == g[i..];
      }
      if Contains(g, "https://") {
        var i :| 0 <= i <= |g| && StartsWith(g[i..], "https://");
        assert i != 0 by { assert g[0..] == g; }
        assert g[1..][i - 1..] == g[i..];
      }
    }
  }

  /** A gateway is accepted iff it names no http:// or https:// scheme anywhere
      and does not end with a slash. */
  function ValidateGateway(gateway: string): (valid: bool)
    ensures valid <==>
      && !Contains(gateway, "http://")
      && !Contains(gateway, "https://")
      && !EndsWith(gateway, "/")
  {
    SearchSchemeIsContains(gateway);
    !SearchScheme(gateway) && !EndsWith(gateway, "/")
  }

  /** A gateway with no letter 'h' cannot name a scheme. */
  lemma {:induction false} PlainGateway(gateway: string)
    requires 'h' !in gateway && !EndsWith(gateway, "/")
    ensures ValidateGateway(gateway)
  {
    forall i | 0 <= i <= |gateway|
      ensures !StartsWith(gateway[i..], "http://") && !StartsWith(gateway[i..], "https://")
    {
      if i < |gateway| {
        assert gateway[i..][0] == gateway[i];
      }
    }
  }

  // ---------------------------------------------------------------------------
  // convert_time

  /** [int(i) for i in pieces] evaluates the pieces left to right and raises on
      the first one int() refuses: its index, from position i on, or |pieces|
      when int() accepts them all. */
  function FirstRefused(pieces: seq<string>, i: nat): (k: nat)
    requires i <= |pieces|
    ensures i <= k <= |pieces|
    ensures forall j :: i <= j < k ==> ParseNat(pieces[j]).Ok?
    ensures k < |pieces| ==> ParseNat(pieces[k]).Err?
    decreases |pieces| - i
  {
    if i == |pieces| then i
    else if ParseNat(pieces[i]).Err? then i
    else FirstRefused(pieces, i + 1)
  }

  /** One of the two conversions in convert_time: split on ':', parse every
      piece, supply minute 0 when there is a single piece, and compute
      hour * 60 + minute. Pieces after the second are parsed and then ignored. */
  function Minutes(time: string): Result<nat>
  {
    var pieces := Split(time, ':');
    var bad := FirstRefused(pieces, 0);
    if bad < |pieces| then Err(InvalidLiteral(pieces[bad]))
    else if |pieces| == 1 then Ok(ParseNat(pieces[0]).value * 60 + 0)
    else Ok(ParseNat(pieces[0]).value * 60 + ParseNat(pieces[1]).value)
  }

  /** convert_time(start_time="1", end_time="23:59"): the start is converted
      first, so its error is the one raised when both are malformed. */
  function ConvertTime(startTime: string := "1", endTime: string := "23:59"): Result<(nat, nat)>
  {
    match Minutes(startTime)
    case Err(e) => Err(e)
    case Ok(s) =>
      match Minutes(endTime)
      case Err(e) => Err(e)
      case Ok(t) => Ok((s, t))
  }

  /** The conversion fails exactly when some piece is not a non-empty run of
      digits, and then names the leftmost such piece. */
  lemma {:induction false} MinutesFails(time: string)
    ensures Minutes(time).Err? <==> exists p :: p in Split(time, ':') && ParseNat(p).Err?
    ensures Minutes(time).Err? ==>
      exists k :: 0 <= k < |Split(time, ':')| && Minutes(time).error == InvalidLiteral(Split(time, ':')[k])
        && !(|Split(time, ':')[k]| > 0 && AllDigits(Split(time, ':')[k]))
        && forall j :: 0 <= j < k ==> |Split(time, ':')[j]| > 0 && AllDigits(Split(time, ':')[j])
  {
    var pieces := Split(time, ':');
    var bad := FirstRefused(pieces, 0);
    if bad == |pieces| {
      forall p | p in pieces ensures ParseNat(p).Ok? {
        var j :| 0 <= j < |pieces| && pieces[j] == p;
      }
    } else {
      assert pieces[bad] in pieces;
    }
  }

  /** "H:M" gives H * 60 + M, for any digit strings: no range check on either. */
  lemma {:induction false} HourAndMinute(h: string, m: string)
    requires |h| > 0 && AllDigits(h) && |m| > 0 && AllDigits(m)
    ensures Minutes(h + ":" + m) == Ok(Decimal(h) * 60 + Decimal(m))
  {
    assert ':' !in h && ':' !in m;
    SplitTwo(h, ':', m);
    assert FirstRefused([h, m], 0) == 2;
  }

  /** A bare hour "H" is read as minute 0. */
  lemma {:induction false} HourOnly(h: string)
    requires |h| > 0 && AllDigits(h)
    ensures Minutes(h) == Ok(Decimal(h) * 60)
  {
    assert ':' !in h;
    SplitNoSeparator(h, ':');
    assert FirstRefused([h], 0) == 1;
  }

  /** Every pair of naturals, written as "H:M", converts to H * 60 + M: hours
      above 24 and minutes of 60 or more pass through unchecked. */
  lemma {:induction false} NoRangeCheck(hour: nat, minute: nat)
    ensures Minutes(ToDecimal(hour) + ":" + ToDecimal(minute)) == Ok(hour * 60 + minute)
  {
    HourAndMinute(ToDecimal(hour), ToDecimal(minute));
  }

  /** Pieces that int() accepts, put in front, only shift the index of the
      first refused piece. */
  lemma {:induction false} FirstRefusedShift(front: seq<string>, pieces: seq<string>, i: nat)
    requires i <= |pieces|
    requires forall j :: 0 <= j < |front| ==> ParseNat(front[j]).Ok?
    ensures FirstRefused(front + pieces, |front| + i) == |front| + FirstRefused(pieces, i)
    decreases |pieces| - i
  {
    if i < |pieces| {
      assert (front + pieces)[|front| + i] == pieces[i];
      if ParseNat(pieces[i]).Ok? {
        FirstRefusedShift(front, pieces, i + 1);
      }
    }
  }

  lemma {:induction false} FirstRefusedAfterFront(front: seq<string>, pieces: seq<string>, i: nat)
    requires i <= |front|
    requires forall j :: 0 <= j < |front| ==> ParseNat(front[j]).Ok?
    ensures FirstRefused(front + pieces, i) == |front| + FirstRefused(pieces, 0)
    decreases |front| - i
  {
    if i == |front| {
      FirstRefusedShift(front, pieces, 0);
    } else {
      assert (front + pieces)[i] == front[i];
      FirstRefusedAfterFront(front, pieces, i + 1);
    }
  }

  /** Pieces after the second must all be integers, and do not change the
      result: the first one int() refuses is the error, otherwise H * 60 + M. */
  lemma {:induction false} ExtraPiecesIgnored(h: string, m: string, rest: string)
    requires |h| > 0 && AllDigits(h) && |m| > 0 && AllDigits(m)
    ensures var ps := Split(rest, ':');
      Minutes(h + ":" + m + ":" + rest)
        == if FirstRefused(ps, 0) == |ps| then Ok(Decimal(h) * 60 + Decimal(m))
           else Err(InvalidLiteral(ps[FirstRefused(ps, 0)]))
  {
    assert ':' !in h && ':' !in m;
    var ps := Split(rest, ':');
    SplitAfterPiece(m, ':', rest);
    assert h + ":" + m + ":" + rest == h + [':'] + (m + [':'] + rest);
    SplitAfterPiece(h, ':', m + [':'] + rest);
    var pieces := Split(h + ":" + m + ":" + rest, ':');
    assert pieces == [h, m] + ps;
    FirstRefusedAfterFront([h, m], ps, 0);
    var k := FirstRefused(ps, 0);
    if k < |ps| {
      assert pieces[2 + k] == ps[k];
    }
  }

  /** "1:2:3:4" is 1 * 60 + 2: the third and fourth pieces only have to be
      integers. */
  lemma {:induction false} ExtraPiecesExample()
    ensures Minutes("1:2:3:4") == Ok(62)
  {
    assert Decimal("1") == 1 && Decimal("2") == 2;
    assert "1:2:3:4" == "1" + ":" + "2" + ":" + "3:4";
    ExtraPiecesIgnored("1", "2", "3:4");
    SplitAfterPiece("3", ':', "4");
    assert "3:4" == "3" + [':'] + "4";
    SplitNoSeparator("4", ':');
    assert Split("3:4", ':') == ["3", "4"];
    assert FirstRefused(["3", "4"], 0) == 2;
  }

  /** An empty piece, as the minute of "13:", is refused by int(). */
  lemma {:induction false} EmptyMinuteRefused(h: string)
    requires |h| > 0 && AllDigits(h)
    ensures Minutes(h + ":") == Err(InvalidLiteral(""))
  {
    assert ':' !in h;
    SplitTwo(h, ':', "");
    assert h + ":" + "" == h + ":";
    assert FirstRefused([h, ""], 0) == 1;
  }

  /** The start of the result depends on the start time only, the end on the
      end time only. */
  lemma {:induction false} ConvertedIndependently(s1: string, e1: string, s2: string, e2: string)
    requires ConvertTime(s1, e1).Ok? && ConvertTime(s2, e2).Ok?
    ensures s1 == s2 ==> ConvertTime(s1, e1).value.0 == ConvertTime(s2, e2).value.0
    ensures e1 == e2 ==> ConvertTime(s1, e1).value.1 == ConvertTime(s2, e2).value.1
    ensures ConvertTime(s1, e2) == Ok((ConvertTime(s1, e1).value.0, ConvertTime(s2, e2).value.1))
  {
  }

  /** "HH:MM" written with two digits each converts to HH * 60 + MM. */
  lemma {:induction false} TwoDigitTime(h1: char, h2: char, m1: char, m2: char)
    requires IsDigit(h1) && IsDigit(h2) && IsDigit(m1) && IsDigit(m2)
    ensures Minutes([h1, h2, ':', m1, m2])
      == Ok((10 * DigitValue(h1) + DigitValue(h2)) * 60 + 10 * DigitValue(m1) + DigitValue(m2))
  {
    TwoDigits(h1, h2);
    TwoDigits(m1, m2);
    assert [h1, h2] + ":" + [m1, m2] == [h1, h2, ':', m1, m2];
    HourAndMinute([h1, h2], [m1, m2]);
  }

  /** The docstring's example: 13:00 to 18:08 is (780, 1088). */
  lemma {:induction false} DocstringExample()
    ensures ConvertTime("13:00", "18:08") == Ok((780, 1088))
  {
    TwoDigitTime('1', '3', '0', '0');
    TwoDigitTime('1', '8', '0', '8');
  }

  /** The defaults "1" and "23:59" give (60, 1439). */
  lemma {:induction false} DefaultTimes()
    ensures ConvertTime() == Ok((60, 1439))
  {
    assert Decimal("1") == 1;
    HourOnly("1");
    TwoDigitTime('2', '3', '5', '9');
  }
}
