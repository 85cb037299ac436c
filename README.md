# PTCL router client: a verified model

This project models the logic of a small Python client for the web interface of
a PTCL home router. The model covers two files.

- `utils.py` checks the gateway address a user supplies. It also converts "H" or
  "H:M" times into minutes since midnight.
- `router.py` holds the `Router` object. That object keeps the gateway URL, a
  table of DHCP leases keyed by hostname, a list of active Wi-Fi stations and a
  cached session key. It fills these from the router's pages and builds the
  time-of-day restriction request.

The pages themselves are parameters of the model:
- a page's `<td>` cells are given as their texts, in document order;
- the session-key page is given as its body.

The project has five modules.

- `Errors` (errors.dfy) lists the exceptions the code can raise, as values of a
  `Result`.
- `Text` (text.dfy) models the Python string operations the code relies on:
  - `str.split` on one character, and its inverse `Join`;
  - `str.strip` over the characters for which `str.isspace` holds;
  - `str.replace(pattern, '')`;
  - `str.lower` on ASCII text;
  - `int()` on ASCII digit strings, and its inverse `ToDecimal`.
- `Utils` (utils.dfy) models `validate_gateway` and `convert_time`.
- `RouterRules` (router_rules.dfy) models the parts of `router.py` that are plain
  functions of strings:
  - `mac_pattern`;
  - the `week_days` table and the day-token decision of `time_limit`;
  - the session-key search `\d{5,13}`;
  - the gateway URL built by `__init__`.
- `PtclRouter` (router.dfy) models the `Router` class. Its fields are updated in
  place by `Dhcp`, `Station`, `GetSessionKey` and `TimeLimit`. Each method is
  proved against a specification function over its old state and its input:
  `DhcpScan`, `StationMacs`, `SessionKeyFor` and `TimeLimitPlan`. The properties
  of those functions are proved as lemmas beside them. Every method also keeps
  the object invariant `Router.Valid`.

## Model

| member | source | states |
|---|---|---|
| Text.Split | utils.py:28-29 | `str.split(':')` always yields at least one piece, and no piece contains the separator |
| Text.JoinSplit | utils.py:28-29 | joining the pieces of a split with the separator gives back the original string |
| Text.SplitJoin | utils.py:28-29 | splitting a join of separator-free pieces gives back exactly those pieces |
| Text.SplitNoSeparator | utils.py:28-29 | a string without the separator splits into itself alone |
| Text.SplitAfterPiece | router.py:183 | splitting `a + sep + t` yields `a` followed by the pieces of `t` |
| Text.SplitTwo | router.py:183 | "a-b" with separator-free `a` and `b` splits into exactly `[a, b]` |
| Text.Strip | router.py:143 | the stripped text is no longer than the input and neither begins nor ends with whitespace |
| Text.StripIsStretch | router.py:143 | the stripped text is one contiguous stretch of the input: its k-th character is character `StripStart(s) + k` of the input |
| Text.StripDropsLeadingSpace | router.py:143 | every character dropped before that stretch is whitespace |
| Text.StripDropsTrailingSpace | router.py:143 | every character dropped after that stretch is whitespace |
| Text.RemoveAll | router.py:143 | removing "&nbsp" never lengthens the text |
| Text.RemoveAllUnchanged | router.py:143 | text without '&' is unchanged |
| Text.RemoveAllKeepsPrefix | router.py:143 | characters at which no occurrence starts are kept as they are, ahead of whatever the rest of the text becomes |
| Text.RemoveAllOccurrence | router.py:143 | when no occurrence starts before it, the text in front of an occurrence is kept as it is, the occurrence is dropped, and removal goes on after it |
| Text.Lower | router.py:146 | lower-casing keeps the length, leaves no capital, keeps every other character in place, and turns each capital into the same letter in lower case |
| Text.LowerIdempotent | router.py:146 | lower-casing twice is lower-casing once |
| Text.ToDecimal | utils.py:28-29 | the decimal rendering of n is a non-empty digit string without a leading zero that `int()` reads back as n |
| Text.TwoDigits | utils.py:28 | a two-digit piece reads as tens and units |
| Text.ParseNat | utils.py:28-29 | `int()` succeeds iff the piece is a non-empty digit string; otherwise the error names the piece |
| Utils.SearchSchemeIsContains | utils.py:4 | the left-to-right scan for `https?://` succeeds iff "http://" or "https://" occurs somewhere in the string |
| Utils.ValidateGateway | utils.py:3-6 | a gateway is accepted iff it contains neither "http://" nor "https://" and does not end with '/' |
| Utils.PlainGateway | utils.py:3-6 | a gateway without 'h' that does not end with '/' is accepted |
| Utils.FirstRefused | utils.py:28-29 | the list comprehension stops at the first piece `int()` refuses, and every piece before it parses |
| Utils.MinutesFails | utils.py:28-29 | converting a time raises iff some piece is not an integer literal, and the error names the leftmost such piece |
| Utils.HourAndMinute | utils.py:28-37 | "H:M" converts to H*60 + M |
| Utils.HourOnly | utils.py:30-33 | a time without ':' gets 00 minutes appended, so "H" converts to H*60 |
| Utils.NoRangeCheck | utils.py:34-37 | any hour and minute convert as hour*60 + minute, because the range check is commented out |
| Utils.FirstRefusedShift | utils.py:28-29 | pieces int() accepts, put in front of a list, only shift the index of the first refused piece |
| Utils.ExtraPiecesIgnored | utils.py:28-37 | "H:M:" followed by any number of further pieces: the first of them that is not an integer literal raises, and if all are integers the result is H*60 + M |
| Utils.ExtraPiecesExample | utils.py:28-37 | "1:2:3:4" converts to 62 |
| Utils.EmptyMinuteRefused | utils.py:28-29 | "H:" raises on the empty minute piece |
| Utils.ConvertedIndependently | utils.py:28-38 | the start and end times are converted independently of each other |
| Utils.TwoDigitTime | utils.py:28-37 | a time written "HH:MM" converts to HH*60 + MM |
| Utils.DocstringExample | utils.py:23-38 | ("13:00", "18:08") converts to (780, 1088) |
| Utils.DefaultTimes | utils.py:9 | the default arguments ("1", "23:59") convert to (60, 1439) |
| RouterRules.MatchGroupsShape | router.py:36 | the group-by-group reading of the pattern agrees with a position-by-position description |
| RouterRules.MacPatternShape | router.py:36 | a string matches `mac_pattern` iff it has 17 characters, a ':' or '-' at positions 2, 5, 8, 11 and 14, and hex digits elsewhere |
| RouterRules.MacPatternAcceptsColons | router.py:36 | upper-case digits joined by colons are accepted |
| RouterRules.MacPatternAcceptsDashes | router.py:36 | lower-case digits joined by dashes are accepted |
| RouterRules.MacPatternAcceptsMixed | router.py:36 | each separator is matched on its own, so mixed separators are accepted |
| RouterRules.MacPatternRefuses | router.py:36 | a MAC without separators, one digit short, or with a non-hex digit is refused |
| RouterRules.LowerMac | router.py:145-146 | lower-casing a matching address gives a lower-case address that still matches, and lower-casing it again changes nothing |
| RouterRules.WeekDaysKeys | router.py:38-47 | the table's keys are the seven day names and "Everyday" |
| RouterRules.WeekDaysBits | router.py:38-47 | day i (Monday first) maps to 2^i; "Everyday" is the sum of all seven days, 127 |
| RouterRules.AsWrittenNeverSends | router.py:185-196 | as written, no `days` argument leads to a request: one or two tokens raise NameError |
| RouterRules.SingleDay | router.py:186-187 | a single known day sends that day's mask |
| RouterRules.UnknownSingleDay | router.py:186-187 | a single unknown token raises KeyError naming it |
| RouterRules.SameDayTwice | router.py:189-191 | "D-D" for a known day sends the "Everyday" mask 127 |
| RouterRules.DistinctDays | router.py:193-194 | "D1-D2" for two distinct known days sends only D2's mask, not a range |
| RouterRules.MondayToFriday | router.py:186-194 | the docstring's "Mon-Fri" sends 16, Friday alone |
| RouterRules.UnknownInPair | router.py:186-196 | a pair with an unknown token prints the diagnostic and sends nothing |
| RouterRules.ThreeOrMoreParts | router.py:185 | three or more tokens send nothing, silently |
| RouterRules.EncodeDays | router.py:183-196 | only a single unknown token raises, as KeyError naming the whole argument; every mask that is sent is a value of the table, between 1 and 127 |
| RouterRules.GreedyDigits | router.py:96 | the repetition in `\d{5,13}` takes at most 13 characters and stays inside the text |
| RouterRules.GreedyDigitsRun | router.py:96 | the greedy repetition takes digits only, and stops short of 13 only at a non-digit or at the end of the text |
| RouterRules.MatchAt | router.py:96 | the pattern matches at a position iff five digits start there |
| RouterRules.SearchKey | router.py:96 | the search returns the leftmost position where the pattern matches, and it matches nowhere before it |
| RouterRules.SessionKeyMissing | router.py:96 | no key is found (and `.group()` fails on None) iff no five digits stand together on the page |
| RouterRules.NoEarlierMatch | router.py:96 | where the search found no match, no five digits start |
| RouterRules.KeyFoundAt | router.py:96 | the run the search stops at is 5 to 13 digits; no match starts before it; it is cut at 13 digits or ends where the digits end |
| RouterRules.SessionKeyFound | router.py:96 | a key that is found is 5 to 13 digits taken from the leftmost run of five digits; it is cut at 13 digits, or ends where the run ends |
| RouterRules.KeyAtUnique | router.py:96 | that description determines the key and its position uniquely |
| RouterRules.SessionKeyExample | router.py:96 | the page "k=123456;" yields the key "123456" |
| RouterRules.GatewayUrl | router.py:50-55 | the URL is built iff the gateway is valid; it is "http://" + gateway + "/"; otherwise the ValueError with its fixed message is raised |
| RouterRules.GatewayUrlNotAGateway | router.py:50-52 | the stored URL would itself be refused as a gateway |
| RouterRules.DefaultGateway | router.py:50-52 | the default gateway "192.168.1.1" gives the URL "http://192.168.1.1/" |
| RouterRules.GatewaySchemeOrSlashRefused | router.py:50-55 | a gateway written with "http://" or with a trailing '/' is refused |
| PtclRouter.FirstIndex | router.py:130-131 | `td.index` returns the first position holding an equal cell |
| PtclRouter.DhcpStopsAtFailure | router.py:130-131 | once a row has raised IndexError, later cells change nothing |
| PtclRouter.DhcpCompletes | router.py:116-131 | dhcp completes iff every MAC cell has two cells after its first occurrence |
| PtclRouter.DhcpCompletesWithoutTrailingMac | router.py:116-131 | dhcp completes when neither of the last two cells is a MAC |
| PtclRouter.DhcpRows | router.py:131 | every stored row is [MAC, cell, cell], whether or not the loop completes |
| PtclRouter.DhcpKeepsOthers | router.py:131-133 | a hostname that no MAC cell is filed under keeps its earlier entry, or its absence |
| PtclRouter.DhcpKeysGrow | router.py:131 | dhcp never removes a hostname: the keys only grow from one iteration to the next |
| PtclRouter.DhcpKeyAdded | router.py:116-131 | after a complete run, the hostname of every MAC cell is a key |
| PtclRouter.DhcpKeyOrigin | router.py:116-131 | every new key is the hostname of some MAC cell |
| PtclRouter.DhcpLastRowWins | router.py:131 | a hostname maps to the row of the last MAC cell filed under it |
| PtclRouter.DhcpMacInFirstCell | router.py:130 | a MAC in the first cell is filed under the last cell, because `td[-1]` wraps around |
| PtclRouter.DhcpRepeatedMac | router.py:130-131 | a repeated MAC re-files the neighbours of its first occurrence |
| PtclRouter.CollectStep | router.py:142-146 | one more cell appends its entries after those of the cells before it |
| PtclRouter.CollectAppend | router.py:142-146 | a pass over two stretches of cells appends their entries one after the other |
| PtclRouter.CollectMembers | router.py:142-146 | an entry is collected iff some cell contributes it |
| PtclRouter.StationStep | router.py:142-146 | one iteration appends the cleaned, lower-cased text exactly when it matches the pattern, and keeps `active_dev` a list of lower-case MACs |
| PtclRouter.StationMacsAreLowerMacs | router.py:143-146 | every address station appends is a lower-case MAC |
| PtclRouter.StationMacsAppend | router.py:142-146 | station keeps document order and does not remove duplicates |
| PtclRouter.StationMacsMembers | router.py:143-146 | an address is appended iff some cell's cleaned text matches the pattern, and the address is that text lower-cased |
| PtclRouter.TimeLimitDefaults | router.py:152-187 | the defaults ask for every day (127) from minute 60 to minute 1440 |
| PtclRouter.Router.constructor | router.py:50-63 | a valid gateway gives a router with the URL "http://" + gateway + "/", the credentials, empty tables and no session key |
| PtclRouter.Router.Create | router.py:50-63 | `Router(...)` with the defaults; it fails with ValueError iff `validate_gateway` refuses the gateway |
| PtclRouter.Router.GetSessionKey | router.py:88-98 | the first key found is cached; later calls return the cached key whatever the page says; a page without a key raises and leaves the cache empty |
| PtclRouter.Router.Dhcp | router.py:113-133 | `dev_info` becomes the loop's result from its old value; the table is returned iff no row raised; a raising row keeps the updates made before it |
| PtclRouter.Router.Station | router.py:140-148 | `active_dev` becomes its old value followed by the cleaned, lower-cased MAC cells in document order, and is returned |
| PtclRouter.Router.TimeLimit | router.py:152-198 | uses the corrected lookup in `self.week_days` (RouterRules.EncodeDays, see "## Findings"; as written, the source raises NameError and never sends); errors from the times come first, then errors from the days; no session key is asked for unless a request is sent; a sent request carries the user name, MAC, mask, minutes and session key |

## Left out

- HTTP is not modelled: `scrape_page`, the `requests` session and its
  authentication, status codes and `sys.exit` on 401. The pages arrive as
  parameters, and a sent request is returned as a value.
- `reboot`, `block`, `unblock`, `web_filter` and `__repr__` of `router.py` are
  not part of this model. The same holds for `configure.py` and `ptcl.py`, the
  command-line front ends.
- Cells are compared by their text. `bs4` compares `td.index` by markup, so two
  cells with equal text but different markup are one cell here.
- RouterRules.MatchesMac: `$` also matches before one trailing newline, so
  "AA:BB:CC:DD:EE:FF\n" matches in Python. The model refuses it.
- RouterRules.GreedyDigits: `\d` in Python 3 also matches non-ASCII decimal
  digits. Only '0'–'9' count here.
- Text.ParseNat: `int()` also accepts a sign, surrounding whitespace, '_'
  separators and non-ASCII digits. Only non-empty ASCII digit strings are
  accepted here.
- PtclRouter.Router.Dhcp: `dev_info` is a Python dict, whose iteration order
  (each hostname where it was first inserted; an overwrite keeps the old
  place) decides the order in which the command-line front end prints the
  table. The model keeps `devInfo` as a `map`, so that order is not modelled.
- PtclRouter.Router.TimeLimit: in the distinct-days branch the source sends the mask
  as `str(...)`, and elsewhere as an int. The request carries the number in
  both cases, because the URL encoding is the same.
- PtclRouter.Router.GetSessionKey: the source fetches the page even when a key
  is cached. Only the body's effect on the result is modelled.
- The `convert_time` docstring gives 1080 for "18:08"; the code computes 1088.
  `Utils.DocstringExample` states what the code computes.

## Findings

| source | as written | input that shows it | evidently intended | confidence | as-written member | corrected member |
|---|---|---|---|---|---|---|
| router.py:187-194 | `time_limit` uses the bare name `week_days`. The table is a class attribute, so the name is unbound inside the method, and every one- or two-token `days` raises NameError. | `time_limit(days="Mon")` | look the tokens up in `self.week_days`: "Mon" sends mask 1 | not executed | RouterRules.AsWrittenNeverSends | RouterRules.EncodeDays |
