/**
 * router.py's Router object: the fields it updates in place (dev_info,
 * active_dev, sessionKey) and the methods that update them. The pages the
 * router serves are parameters: a page's table cells as their texts, the
 * session-key page as its body.
 */
module PtclRouter {

  import opened Errors
  import opened Text
  import opened RouterRules
  import Utils

  // ---------------------------------------------------------------------------
  // dhcp

  /** td.index(cell): the first position holding a cell equal to `cell`. */
  function FirstIndex(cells: seq<string>, cell: string): (k: nat)
    requires cell in cells
    ensures k < |cells| && cells[k] == cell
    ensures forall j :: 0 <= j < k ==> cells[j] != cell
    decreases |cells|
  {
    if cells[0] == cell then 0 else 1 + FirstIndex(cells[1..], cell)
  }

  /** td[k - 1]: the cell before position k, where position -1 is the last cell. */
  function CellBefore(cells: seq<string>, k: nat): string
    requires k < |cells|
  {
    if k == 0 then cells[|cells| - 1] else cells[k - 1]
  }

  /** The hostname dhcp files the MAC cell at position j under. */
  function HostnameFor(cells: seq<string>, j: nat): string
    requires j < |cells|
  {
    CellBefore(cells, FirstIndex(cells, cells[j]))
  }

  /** The [MAC, local IP, expiry] row dhcp stores for the MAC cell at position j. */
  function RowFor(cells: seq<string>, j: nat): seq<string>
    requires j < |cells| && FirstIndex(cells, cells[j]) + 2 < |cells|
  {
    var k := FirstIndex(cells, cells[j]);
    [cells[j], cells[k + 1], cells[k + 2]]
  }

  /** dev_info after some iterations of dhcp's loop, and whether the loop is
      still running (false once a row has raised IndexError). */
  datatype Scan = Scan(info: map<string, seq<string>>, ok: bool)

  /** One iteration of dhcp's loop, on the cell at position j. */
  function DhcpCell(info: map<string, seq<string>>, cells: seq<string>, j: nat): Scan
    requires j < |cells|
  {
    if !MatchesMac(cells[j]) then Scan(info, true)
    else if FirstIndex(cells, cells[j]) + 2 < |cells| then
      Scan(info[HostnameFor(cells, j) := RowFor(cells, j)], true)
    else Scan(info, false)
  }

  /** The first n iterations of dhcp's loop, starting from dev_info = info. */
  function DhcpScan(info: map<string, seq<string>>, cells: seq<string>, n: nat): Scan
    requires n <= |cells|
  {
    if n == 0 then Scan(info, true)
    else
      var prev := DhcpScan(info, cells, n - 1);
      if !prev.ok then prev else DhcpCell(prev.info, cells, n - 1)
  }

  /** Once a row has raised, later cells change nothing. */
  lemma {:induction false} DhcpStopsAtFailure(info: map<string, seq<string>>, cells: seq<string>, n: nat, m: nat)
    requires n <= m <= |cells| && !DhcpScan(info, cells, n).ok
    ensures DhcpScan(info, cells, m) == DhcpScan(info, cells, n)
    decreases m - n
  {
    if m > n {
      DhcpStopsAtFailure(info, cells, n, m - 1);
    }
  }

  /** dhcp completes iff every MAC cell has two cells after its first
      occurrence; otherwise it raises IndexError. */
  lemma {:induction false} DhcpCompletes(info: map<string, seq<string>>, cells: seq<string>, n: nat)
    requires n <= |cells|
    ensures DhcpScan(info, cells, n).ok <==>
      forall j :: 0 <= j < n && MatchesMac(cells[j]) ==> FirstIndex(cells, cells[j]) + 2 < |cells|
    decreases n
  {
    if n > 0 {
      DhcpCompletes(info, cells, n - 1);
    }
  }

  /** In particular dhcp completes when no MAC sits in the last two cells. */
  lemma {:induction false} DhcpCompletesWithoutTrailingMac(info: map<string, seq<string>>, cells: seq<string>)
    requires forall j :: 0 <= j < |cells| && |cells| - 2 <= j ==> !MatchesMac(cells[j])
    ensures DhcpScan(info, cells, |cells|).ok
  {
    DhcpCompletes(info, cells, |cells|);
  }

  /** A row as dhcp stores it: three cells, the first a MAC address. */
  predicate IsDeviceRow(row: seq<string>) {
    |row| == 3 && MatchesMac(row[0])
  }

  /** dev_info as dhcp fills it: hostname to [MAC, local IP, expiry]. */
  predicate IsDeviceTable(info: map<string, seq<string>>) {
    forall h :: h in info ==> IsDeviceRow(info[h])
  }

  /** Every row dhcp stores is a device row, whether or not it completes. */
  lemma {:induction false} DhcpRows(info: map<string, seq<string>>, cells: seq<string>, n: nat)
    requires n <= |cells|
    requires IsDeviceTable(info)
    ensures IsDeviceTable(DhcpScan(info, cells, n).info)
    decreases n
  {
    if n > 0 {
      DhcpRows(info, cells, n - 1);
    }
  }

  /** A hostname that no MAC cell is filed under keeps its entry (or its
      absence): keys from earlier calls persist. */
  lemma {:induction false} DhcpKeepsOthers(info: map<string, seq<string>>, cells: seq<string>, n: nat, h: string)
    requires n <= |cells|
    requires forall j :: 0 <= j < n && MatchesMac(cells[j]) ==> HostnameFor(cells, j) != h
    ensures h in DhcpScan(info, cells, n).info <==> h in info
    ensures h in info ==> DhcpScan(info, cells, n).info[h] == info[h]
    decreases n
  {
    if n > 0 {
      DhcpKeepsOthers(info, cells, n - 1, h);
    }
  }

  /** dhcp never removes a hostname: the keys only grow from one iteration to
      the next. */
  lemma {:induction false} DhcpKeysGrow(info: map<string, seq<string>>, cells: seq<string>, m: nat, n: nat)
    requires m <= n <= |cells|
    ensures DhcpScan(info, cells, m).info.Keys <= DhcpScan(info, cells, n).info.Keys
    decreases n - m
  {
    if m < n {
      DhcpKeysGrow(info, cells, m, n - 1);
    }
  }

  /** After a complete run, the hostname of every MAC cell is a key. */
  lemma {:induction false} DhcpKeyAdded(info: map<string, seq<string>>, cells: seq<string>, n: nat, j: nat)
    requires j < n <= |cells| && DhcpScan(info, cells, n).ok && MatchesMac(cells[j])
    ensures HostnameFor(cells, j) in DhcpScan(info, cells, n).info
  {
    if !DhcpScan(info, cells, j + 1).ok {
      DhcpStopsAtFailure(info, cells, j + 1, n);
    }
    var prev := DhcpScan(info, cells, j);
    assert prev.ok && DhcpScan(info, cells, j + 1) == DhcpCell(prev.info, cells, j);
    DhcpKeysGrow(info, cells, j + 1, n);
  }

  /** Every key that was not there before is the hostname of some MAC cell. */
  lemma {:induction false} DhcpKeyOrigin(info: map<string, seq<string>>, cells: seq<string>, n: nat, h: string)
    requires n <= |cells| && h in DhcpScan(info, cells, n).info && h !in info
    ensures exists j :: 0 <= j < n && MatchesMac(cells[j]) && HostnameFor(cells, j) == h
    decreases n
  {
    var prev := DhcpScan(info, cells, n - 1);
    if h in prev.info {
      DhcpKeyOrigin(info, cells, n - 1, h);
    } else {
      assert MatchesMac(cells[n - 1]) && HostnameFor(cells, n - 1) == h;
    }
  }

  /** After a complete run, a hostname maps to the row of the LAST MAC cell
      filed under it: a later row with the same hostname overwrites. */
  lemma {:induction false} DhcpLastRowWins(info: map<string, seq<string>>, cells: seq<string>, n: nat, j: nat)
    requires j < n <= |cells| && DhcpScan(info, cells, n).ok && MatchesMac(cells[j])
    requires forall i :: j < i < n && MatchesMac(cells[i]) ==> HostnameFor(cells, i) != HostnameFor(cells, j)
    ensures FirstIndex(cells, cells[j]) + 2 < |cells|
    ensures HostnameFor(cells, j) in DhcpScan(info, cells, n).info
    ensures DhcpScan(info, cells, n).info[HostnameFor(cells, j)] == RowFor(cells, j)
    decreases n
  {
    DhcpCompletes(info, cells, n);
    if j < n - 1 {
      DhcpCompletes(info, cells, n - 1);
      DhcpLastRowWins(info, cells, n - 1, j);
    }
  }

  /** A MAC in the first cell is filed under the LAST cell of the table,
      because td[-1] wraps around. */
  lemma {:induction false} DhcpMacInFirstCell(mac: string, ip: string, expiry: string)
    requires MatchesMac(mac) && !MatchesMac(ip) && !MatchesMac(expiry)
    ensures DhcpScan(map[], [mac, ip, expiry], 3) == Scan(map[expiry := [mac, ip, expiry]], true)
  {
    var cells := [mac, ip, expiry];
    assert FirstIndex(cells, mac) == 0;
    assert DhcpScan(map[], cells, 1) == Scan(map[expiry := [mac, ip, expiry]], true);
  }

  /** A MAC that appears twice is looked up with td.index, so its second
      occurrence re-files the neighbours of the first one. */
  lemma {:induction false} DhcpRepeatedMac(mac: string, h1: string, a: string, b: string, h2: string, c: string, d: string)
    requires MatchesMac(mac)
    requires !MatchesMac(h1) && !MatchesMac(a) && !MatchesMac(b)
    requires !MatchesMac(h2) && !MatchesMac(c) && !MatchesMac(d)
    ensures DhcpScan(map[], [h1, mac, a, b, h2, mac, c, d], 8) == Scan(map[h1 := [mac, a, b]], true)
  {
    var cells := [h1, mac, a, b, h2, mac, c, d];
    assert cells[0] != mac;
    assert FirstIndex(cells, mac) == 1 by {
      assert cells[1..][0] == mac;
    }
    var row := map[h1 := [mac, a, b]];
    assert DhcpScan(map[], cells, 1) == Scan(map[], true);
    assert HostnameFor(cells, 1) == h1 && RowFor(cells, 1) == [mac, a, b];
    assert DhcpScan(map[], cells, 2) == Scan(row, true);
    assert DhcpScan(map[], cells, 3) == Scan(row, true);
    assert DhcpScan(map[], cells, 4) == Scan(row, true);
    assert DhcpScan(map[], cells, 5) == Scan(row, true);
    assert cells[5] == mac;
    assert HostnameFor(cells, 5) == h1 && RowFor(cells, 5) == [mac, a, b];
    assert DhcpScan(map[], cells, 6) == Scan(row, true);
    assert DhcpScan(map[], cells, 7) == Scan(row, true);
  }

  // ---------------------------------------------------------------------------
  // station

  /** active_dev as station fills it: lower-case MAC addresses. */
  predicate IsStationList(macs: seq<string>) {
    forall x :: x in macs ==> IsLowerMac(x)
  }

  /** i.text.replace('&nbsp', '').strip() */
  function Clean(text: string): string {
    Strip(RemoveAll(text, "&nbsp"))
  }

  /** What station appends for one cell: its cleaned text, lower-cased, when
      that text is a MAC address. */
  function StationEntry(cell: string): seq<string> {
    var text := Clean(cell);
    if MatchesMac(text) then [Lower(text)] else []
  }

  /** The entries a pass over the cells appends, in document order, when each
      cell contributes entry(cell). */
  function Collect(cells: seq<string>, entry: string -> seq<string>): seq<string>
    decreases |cells|
  {
    if |cells| == 0 then [] else Collect(cells[..|cells| - 1], entry) + entry(cells[|cells| - 1])
  }

  /** One more cell appends its own entries after those of the cells before it. */
  lemma {:induction false} CollectStep(cells: seq<string>, j: nat, entry: string -> seq<string>)
    requires j < |cells|
    ensures Collect(cells[..j + 1], entry) == Collect(cells[..j], entry) + entry(cells[j])
  {
    assert cells[..j + 1][..j] == cells[..j];
  }

  /** Collecting over two stretches gives their entries one after the other. */
  lemma {:induction false} CollectAppend(a: seq<string>, b: seq<string>, entry: string -> seq<string>)
    ensures Collect(a + b, entry) == Collect(a, entry) + Collect(b, entry)
    decreases |b|
  {
    if |b| > 0 {
      var ab := a + b;
      assert ab[..|ab| - 1] == a + b[..|b| - 1];
      assert ab[|ab| - 1] == b[|b| - 1];
      CollectAppend(a, b[..|b| - 1], entry);
    } else {
      assert a + b == a;
    }
  }

  /** x is collected iff some cell contributes it. */
  lemma {:induction false} CollectMembers(cells: seq<string>, entry: string -> seq<string>, x: string)
    ensures x in Collect(cells, entry) <==> exists j :: 0 <= j < |cells| && x in entry(cells[j])
    decreases |cells|
  {
    if |cells| > 0 {
      var front := cells[..|cells| - 1];
      CollectMembers(front, entry, x);
      if exists j :: 0 <= j < |cells| && x in entry(cells[j]) {
        var j :| 0 <= j < |cells| && x in entry(cells[j]);
        if j < |cells| - 1 {
          assert front[j] == cells[j];
        }
      }
      if exists j :: 0 <= j < |front| && x in entry(front[j]) {
        var j :| 0 <= j < |front| && x in entry(front[j]);
        assert front[j] == cells[j];
      }
    }
  }

  /** What station appends for the cells of a page, in document order. */
  function StationMacs(cells: seq<string>): seq<string> {
    Collect(cells, StationEntry)
  }

  /** One iteration of station's loop keeps its invariant. */
  lemma {:induction false} StationStep(start: seq<string>, macs: seq<string>, cells: seq<string>, j: nat)
    requires j < |cells| && IsStationList(macs) && macs == start + StationMacs(cells[..j])
    ensures IsStationList(macs + StationEntry(cells[j]))
    ensures macs + StationEntry(cells[j]) == start + StationMacs(cells[..j + 1])
  {
    CollectStep(cells, j, StationEntry);
    var text := Clean(cells[j]);
    if MatchesMac(text) {
      LowerMac(text);
    }
  }

  /** Every entry station appends is a lower-case MAC address. */
  lemma {:induction false} StationMacsAreLowerMacs(cells: seq<string>)
    ensures forall x :: x in StationMacs(cells) ==> IsLowerMac(x)
  {
    forall x | x in StationMacs(cells) ensures IsLowerMac(x) {
      CollectMembers(cells, StationEntry, x);
      var j :| 0 <= j < |cells| && x in StationEntry(cells[j]);
      LowerMac(Clean(cells[j]));
    }
  }

  /** The cells of two consecutive stretches of a page give their entries one
      after the other: document order, nothing removed as a duplicate. */
  lemma {:induction false} StationMacsAppend(a: seq<string>, b: seq<string>)
    ensures StationMacs(a + b) == StationMacs(a) + StationMacs(b)
  {
    CollectAppend(a, b, StationEntry);
  }

  /** An entry is appended iff some cell's cleaned text matches the pattern,
      and the entry is that text lower-cased. */
  lemma {:induction false} StationMacsMembers(cells: seq<string>, x: string)
    ensures x in StationMacs(cells) <==>
      exists j :: 0 <= j < |cells| && MatchesMac(Clean(cells[j])) && x == Lower(Clean(cells[j]))
  {
    CollectMembers(cells, StationEntry, x);
  }

  // ---------------------------------------------------------------------------
  // get_session_key and time_limit

  /** The key get_session_key returns: the cached one when there is one,
      otherwise the one on the page. */
  function SessionKeyFor(cached: Option<string>, page: string): Result<string>
  {
    if cached.Some? then Ok(cached.value) else FindSessionKey(page)
  }

  /** The request time_limit sends to todmngr.tod. */
  datatype TodRequest = TodRequest(
    username: string, mac: string, days: nat, startTime: nat, endTime: nat, sessionKey: string)

  /** time_limit returns 'Successful' whenever it does not raise: either after
      sending a request, or without one (with or without the diagnostic). */
  datatype TimeLimitOutcome = Sent(request: TodRequest) | NotSent(diagnostic: bool)

  /** What time_limit decides before it asks for the session key: the times are
      converted first, then the day tokens are read. */
  function TimeLimitPlan(days: string, start: string, end: string): Result<(DayPlan, nat, nat)>
  {
    match Utils.ConvertTime(start, end)
    case Err(e) => Err(e)
    case Ok(times) =>
      match EncodeDays(days)
      case Err(e) => Err(e)
      case Ok(plan) => Ok((plan, times.0, times.1))
  }

  /** time_limit's defaults ask for every day from 1:00 to 24:00. */
  lemma {:induction false} TimeLimitDefaults()
    ensures TimeLimitPlan("Everyday", "1", "24") == Ok((SendMask(127), 60, 1440))
  {
    Utils.DefaultTimes();
    assert Utils.Minutes("24") == Ok(1440) by {
      assert Decimal("24") == 24;
      Utils.HourOnly("24");
    }
    SingleDay("Everyday");
  }

  // ---------------------------------------------------------------------------
  // The Router object

  /** "http://" + gateway + "/" for a gateway validate_gateway accepts. */
  predicate IsGatewayUrl(url: string) {
    |url| >= 8 && StartsWith(url, "http://") && EndsWith(url, "/") && Utils.ValidateGateway(HostOf(url))
  }


  class Router {
    var gateway: string
    var username: string
    var password: string
    var devInfo: map<string, seq<string>>
    var activeDev: seq<string>
    var sessionKey: Option<string>

    /** The invariant every method keeps: the gateway URL wraps a valid gateway,
        dev_info holds device rows, active_dev lower-case MACs, and a cached
        session key has the shape of one. */
    ghost predicate Valid()
      reads this
    {
      && IsGatewayUrl(gateway)
      && IsDeviceTable(devInfo)
      && IsStationList(activeDev)
      && (sessionKey.Some? ==> IsSessionKey(sessionKey.value))
    }

    constructor (gateway: string, username: string, password: string)
      requires Utils.ValidateGateway(gateway)
      ensures Valid()
      ensures Ok(this.gateway) == GatewayUrl(gateway)
      ensures this.username == username && this.password == password
      ensures devInfo == map[] && activeDev == [] && sessionKey == None
    {
      this.gateway := GatewayUrl(gateway).value;
      this.username := username;
      this.password := password;
      devInfo := map[];
      activeDev := [];
      sessionKey := None;
    }

    /** Router(gateway, username, password): raises ValueError unless
        validate_gateway accepts the gateway. */
    static method Create(gateway: string := "192.168.1.1", username: string := "admin", password: string := "ptcl")
      returns (r: Result<Router>)
      ensures r.Ok? <==> Utils.ValidateGateway(gateway)
      ensures r.Err? ==> r.error == InvalidGateway
      ensures r.Ok? ==>
        && fresh(r.value) && r.value.Valid()
        && r.value.gateway == "http://" + gateway + "/"
        && r.value.username == username && r.value.password == password
        && r.value.devInfo == map[] && r.value.activeDev == [] && r.value.sessionKey == None
    {
      if Utils.ValidateGateway(gateway) {
        var router := new Router(gateway, username, password);
        r := Ok(router);
      } else {
        r := Err(InvalidGateway);
      }
    }

    /** get_session_key, given the body of wlmacflt.cmd: the first call that
        finds a key caches it, and every later call returns the cached key
        whatever the page says. */
    method GetSessionKey(page: string) returns (r: Result<string>)
      requires Valid()
      modifies this`sessionKey
      ensures Valid()
      ensures r == SessionKeyFor(old(sessionKey), page)
      ensures sessionKey == if r.Ok? then Some(r.value) else old(sessionKey)
      ensures old(sessionKey).Some? ==> r == Ok(old(sessionKey).value) && sessionKey == old(sessionKey)
    {
      if sessionKey.None? {
        var found := FindSessionKey(page);
        if found.Err? {
          return Err(found.error);
        }
        SessionKeyFound(page);
        sessionKey := Some(found.value);
      }
      r := Ok(sessionKey.value);
    }

    /** dhcp, given the texts of the td cells of dhcpinfo.html in document
        order. A row that raises IndexError leaves the updates of the rows
        before it in place. */
    method Dhcp(cells: seq<string>) returns (r: Result<map<string, seq<string>>>)
      requires Valid()
      modifies this`devInfo
      ensures Valid()
      ensures devInfo == DhcpScan(old(devInfo), cells, |cells|).info
      ensures r == if DhcpScan(old(devInfo), cells, |cells|).ok then Ok(devInfo) else Err(IndexError)
    {
      for j := 0 to |cells|
        invariant Valid()
        invariant DhcpScan(old(devInfo), cells, j) == Scan(devInfo, true)
      {
        var cell := cells[j];
        if MatchesMac(cell) {
          var k := FirstIndex(cells, cell);
          var hostname := CellBefore(cells, k);
          if k + 2 >= |cells| {
            DhcpStopsAtFailure(old(devInfo), cells, j + 1, |cells|);
            return Err(IndexError);
          }
          devInfo := devInfo[hostname := [cell, cells[k + 1], cells[k + 2]]];
        }
      }
      r := Ok(devInfo);
    }

    /** station, given the texts of the td cells of wlstationlist.cmd in
        document order: appends the matching cells, cleaned and lower-cased. */
    method Station(cells: seq<string>) returns (r: seq<string>)
      requires Valid()
      modifies this`activeDev
      ensures Valid()
      ensures activeDev == old(activeDev) + StationMacs(cells)
      ensures r == activeDev
    {
      for j := 0 to |cells|
        invariant Valid()
        invariant activeDev == old(activeDev) + StationMacs(cells[..j])
      {
        StationStep(old(activeDev), activeDev, cells, j);
        activeDev := activeDev + StationEntry(cells[j]);
      }
      assert cells[..|cells|] == cells;
      r := activeDev;
    }

    /** time_limit, given the body of wlmacflt.cmd for the session key. The
        session key is asked for only when a request is sent. */
    method TimeLimit(keyPage: string, username: string := "User_1", mac: string := "",
                     days: string := "Everyday", start: string := "1", end: string := "24")
      returns (r: Result<TimeLimitOutcome>)
      requires Valid()
      modifies this`sessionKey
      ensures Valid()
      ensures var plan := TimeLimitPlan(days, start, end);
        && (plan.Err? ==> r == Err(plan.error) && sessionKey == old(sessionKey))
        && (plan.Ok? && !plan.value.0.SendMask? ==>
              r == Ok(NotSent(plan.value.0.Diagnostic?)) && sessionKey == old(sessionKey))
        && (plan.Ok? && plan.value.0.SendMask? ==>
              var key := SessionKeyFor(old(sessionKey), keyPage);
              && sessionKey == (if key.Ok? then Some(key.value) else old(sessionKey))
              && r == if key.Err? then Err(key.error)
                      else Ok(Sent(TodRequest(username, mac, plan.value.0.mask, plan.value.1, plan.value.2, key.value))))
    {
      var times := Utils.ConvertTime(start, end);
      if times.Err? {
        return Err(times.error);
      }
      var plan := EncodeDays(days);
      if plan.Err? {
        return Err(plan.error);
      }
      match plan.value
      case NoRequest =>
        r := Ok(NotSent(false));
      case Diagnostic =>
        r := Ok(NotSent(true));
      case SendMask(mask) =>
        var key := GetSessionKey(keyPage);
        if key.Err? {
          return Err(key.error);
        }
        r := Ok(Sent(TodRequest(username, mac, mask, times.value.0, times.value.1, key.value)));
    }
  }
}
