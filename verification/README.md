# Ticket-closing automation for ServiceNow classroom incidents: a Dafny model

The repository drives a browser through a ServiceNow incident list. On each
pass over the list it does the following:

- It reads every row's text and extracts the second timestamp (the expected
  start) and the room (`GH …`).
- It picks the first row whose start hour and room fall in one of the
  operator's configured shifts, and that carries a ticket link.
- It opens that ticket, fills in the form, and goes back to the list.
- It stops when no row matches.

Finding the list inside the page means polling the page's frames for up to a
minute. A separate helper parses a ticket's description into the known AV
resources it requests.

The model covers these pure decisions as functions over immutable data:

| module | file | what it models |
|---|---|---|
| `Text` | `text.dfy` | `trim`, ASCII lower-casing, substring search, `split('\|')`, collapsing whitespace runs |
| `DescriptionParser` | `description_parser.dfy` | `parseIncidentDescription`, `extractResources`, `normalizeResource` |
| `Timestamps` | `timestamp.dfy` | `parseExpectedStart`, `toDate`, the hour `getHours` reports, and a formatter (the scanner's inverse) |
| `Rooms` | `room.dfy` | `parseRoom`: the leftmost match of `GH\s?[A-Z0-9& ]+` under `/i`, trimmed |
| `ShiftMatching` | `shift_match.dfy` | `findMatchingShift` |
| `Config` | `config.dfy` | the operator name, the two shifts and the logging caps |
| `ConfigFacts` | `config_facts.dfy` | facts about that configuration |
| `RowScan` | `row_scan.dfy` | `extractTicketLink` and `logIncidentRows`, in the runner's version (all rows) and the test's version (capped) |
| `FrameResolver` | `frame_resolver.dfy` | `resolveIncidentFrame`: the name pass, URL pass and embedded-element fallback of each round, the deadline, and the differences between the two copies |
| `Runner` | `runner.dfy` | `resolveHeadlessSetting`, `buildTicketUrl`, and the outer `while (true)` loop of both the runner and the test |

Some values come from the outside world and become parameters:

- **Page content:** rows, anchors, frames and the URL the page lands on.
- **Environment:** the command-line arguments and the environment variables.
- **Time:** the time each polling round takes.
- **Relative URLs:** how `new URL(link, base)` resolves a relative link.

The room pattern `GH\s?[A-Z0-9& ]+` has no word boundary. A match can
therefore begin inside a word: "Knight GH 1110" yields the room
"ght GH 1110". The model keeps this behaviour (`Rooms.KnightExample`).

## Model

| member | source | states |
|---|---|---|
| Text.Trim | utils/descriptionParser.js:2 | the result is the slice left after removing whitespace at both ends: everything removed is whitespace and the result neither starts nor ends with whitespace |
| Text.TrimIdempotent | utils/descriptionParser.js:13 | trimming twice is trimming once |
| Text.JoinSplit | utils/descriptionParser.js:15-16 | splitting on a separator loses nothing: joining the parts with it gives back the text |
| Text.SplitJoin | utils/descriptionParser.js:15-16 | parts free of the separator, joined and split again, come back unchanged |
| Text.Split | utils/descriptionParser.js:16 | at least one part, and no part contains the separator |
| Text.FirstWhere | tests/run-close-tickets.js:153 | find returns the first element passing the test, none before it passing; none exactly when no element passes |
| Text.FirstWhereAppend | tests/run-close-tickets.js:239-245 | elements after the first passing one are never consulted; when none in a prefix passes, the index comes from the rest, shifted |
| Text.CollapseSpaces | tests/run-close-tickets.js:119 | empty only for empty input; it starts with a space exactly when the text starts with whitespace, and otherwise with the text's first character; the only whitespace left is the plain space, and never two in a row |
| Text.CollapseKeepsText | tests/run-close-tickets.js:119 | collapsing changes whitespace only: the other characters all survive, in order |
| Text.CollapseRun | tests/run-close-tickets.js:119 | a whitespace run of any length becomes exactly one space |
| Text.CollapseAppend | tests/run-close-tickets.js:119 | cut anywhere outside a whitespace run, the two sides collapse independently; with CollapseRun this ties each space of the result to one whitespace run of the text |
| Text.NonSpaceTrim | tests/run-close-tickets.js:119 | trimming removes whitespace only |
| Text.TrimCollapse | tests/run-close-tickets.js:119 | the trimmed, collapsed text keeps every other character in order and has single plain spaces only |
| Text.CollapseIdempotent | tests/run-close-tickets.js:119 | collapsing whitespace runs twice is collapsing once |
| DescriptionParser.BlockBounds | utils/descriptionParser.js:11-12 | no block exactly when "[Resources]" occurs nowhere in any letter case; otherwise the block starts at a non-whitespace (or the end) and ends at the end of the text or at a "[ReservationID]", with none inside the block |
| DescriptionParser.BlockAfterLeftmostMarker | utils/descriptionParser.js:11 | the block starts where the whitespace after the leftmost "[Resources]", in any letter case, ends |
| DescriptionParser.ExtractResources | utils/descriptionParser.js:10-19 | no entries without a marker; every entry is non-empty, trimmed and free of '\|' |
| DescriptionParser.ResourcesOfBlock | utils/descriptionParser.js:10-19 | for any text made of marker-free text, "[Resources]" in any case, whitespace, a body and "[ReservationID]" in any case followed by anything, the entries are the trimmed, non-empty '\|'-parts of the trimmed body |
| DescriptionParser.ResourcesToEnd | utils/descriptionParser.js:10-19 | the same when no "[ReservationID]" follows: the block runs to the end of the text |
| DescriptionParser.NonEmptyEntries | utils/descriptionParser.js:17-18 | no more entries than parts, each non-empty and trimmed |
| DescriptionParser.EntriesAreTrimmedParts | utils/descriptionParser.js:17-18 | a string is an entry exactly when it is a trimmed part and not empty |
| DescriptionParser.SeparatorNeverSurvives | utils/descriptionParser.js:15-18 | trimming and filtering split parts never brings the separator back |
| DescriptionParser.ResourcesOfLeadingBlock | utils/descriptionParser.js:10-19 | for "[Resources] body [ReservationID]…" the entries are exactly the trimmed, non-empty '\|'-parts of the body |
| DescriptionParser.TextAfterReservationIgnored | utils/descriptionParser.js:11 | text after the first "[ReservationID]" that follows the marker never changes the entries |
| DescriptionParser.NoMarkerNoResources | utils/descriptionParser.js:11-12 | a description without the marker, in any case, yields no resources |
| DescriptionParser.FirstPrefixIndex | utils/descriptionParser.js:29-33 | the first prefix in list order that the entry starts with, none earlier fitting; None exactly when none fits |
| DescriptionParser.NormalizeResource | utils/descriptionParser.js:21-36 | the result is a known prefix the entry starts with, the first such in list order; null exactly when the entry starts with none |
| DescriptionParser.KnownPrefixesPrefixFree | utils/descriptionParser.js:22-27 | no known prefix is a prefix of another, so the order they are tried in never changes the result |
| DescriptionParser.NormalizeClips | utils/descriptionParser.js:29-33 | a known prefix followed by anything normalises to that prefix |
| DescriptionParser.NormalizeIdempotent | utils/descriptionParser.js:21-36 | a normalised resource normalises to itself |
| DescriptionParser.NormalizeAll | utils/descriptionParser.js:3 | at most as many results as entries, each one a known prefix |
| DescriptionParser.NormalizeAllAppend | utils/descriptionParser.js:3 | mapping and filtering keep order and duplicates: normalising a concatenation concatenates the results |
| DescriptionParser.NormalizeAllIdempotent | utils/descriptionParser.js:3 | the resource list is a fixpoint of normalisation |
| DescriptionParser.ParseIncidentDescription | utils/descriptionParser.js:1-8 | raw is the trimmed description (a missing one reads as ""); the resources are the entries extracted from raw, each normalised, unknown ones dropped, in order; every resource is a known prefix |
| DescriptionParser.EmptyDescription | utils/descriptionParser.js:1-8 | a null or empty description parses to raw "" and no resources |
| DescriptionParser.WorkedExample | utils/descriptionParser.js:1-36 | a description with two recognised entries carrying trailing text, and one unknown entry, yields the two prefixes in order |
| Timestamps.FirstStamp | tests/run-close-tickets.js:201 | the leftmost position at or after the start where the timestamp pattern matches; none when it matches nowhere |
| Timestamps.StampsFrom | tests/run-close-tickets.js:201 | the global matches are matches, in increasing order and never overlapping |
| Timestamps.StampsFromResumes | tests/run-close-tickets.js:201 | the global matches are complete: none exactly when the first search fails, the first search's result first, and each later match the leftmost one after the previous match ends |
| Timestamps.ParseExpectedStart | tests/run-close-tickets.js:200-206 | a date exactly when the row holds at least two timestamps |
| Timestamps.ParseExpectedStartFields | tests/run-close-tickets.js:200-229 | the date is built from the fields of the second match |
| Timestamps.SecondStampWins | tests/run-close-tickets.js:200-206 | for a text with no digits before the first timestamp or between the two, the expected start is read from the second; the first and anything after the second play no part |
| Timestamps.ToDateFindsStamp | tests/run-close-tickets.js:208-230 | toDate yields a date exactly when the pattern matches somewhere, and then the fields of the leftmost match |
| Timestamps.FormatStampMatches | tests/run-close-tickets.js:209-211 | formatted text matches the pattern and carries the given fields |
| Timestamps.ToDateFormatRoundTrip | tests/run-close-tickets.js:208-230 | reading a formatted timestamp back gives its year, month minus one, day, 24-hour hour, minute and second |
| Timestamps.To24Hour | tests/run-close-tickets.js:216-221 | the hour is unchanged modulo 12; a reading 01-12 lands in 0-23 and in the afternoon exactly when it is PM; a reading above 12 gains 12 when PM |
| Timestamps.To24HourRoundTrip | tests/run-close-tickets.js:216-221 | on readings 01-12 the AM/PM conversion is a bijection onto hours 0-23; 12 AM is 0 and 12 PM is 12 |
| Timestamps.To12HourRoundTrip | tests/run-close-tickets.js:216-221 | every hour 0-23 is reached from its 12-hour reading |
| Timestamps.To24HourInjective | tests/run-close-tickets.js:216-221 | two readings 01-12 that give the same hour are the same reading |
| Timestamps.HourOfDay | tests/run-close-tickets.js:222-229 | getHours lies in 0-23 and equals the given hour when every field is in range |
| Timestamps.ThirteenPmRollsOver | tests/run-close-tickets.js:209-229 | "13:00:00 PM" passes the pattern, toDate builds hour 25 of the given day, and the Date reports it as hour 1 one day later |
| Timestamps.MinutesCarry | tests/run-close-tickets.js:222-229 | 75 minutes past 10 AM reports hour 11 |
| Rooms.RunEnd | tests/run-close-tickets.js:233 | the maximal run of room characters: all inside are room characters, the one after is not |
| Rooms.RoomMatchEnd | tests/run-close-tickets.js:233 | a match starts at a position exactly when GH is there followed by a room character, or by a whitespace and then a room character; it ends where the run of room characters ends |
| Rooms.FirstRoomMatch | tests/run-close-tickets.js:233 | the leftmost match; no match starts earlier |
| Rooms.ParseRoom | tests/run-close-tickets.js:232-235 | null exactly when no match starts anywhere; otherwise at least two characters, starting with GH in either case |
| Rooms.ParseRoomIsLeftmost | tests/run-close-tickets.js:232-235 | the room is the trimmed text of the leftmost match: a match ends where the room's slice ends and none starts earlier |
| Rooms.ParseRoomIsSlice | tests/run-close-tickets.js:232-235 | the room is a contiguous slice of the row text |
| Rooms.ParseRoomIdempotent | tests/run-close-tickets.js:232-235 | a well-formed room longer than "GH" parses to itself |
| Rooms.RoomInContext | tests/run-close-tickets.js:232-235 | a room after a g-free prefix, followed by spaces and a non-room character, is returned without the spaces |
| Rooms.RoomExample | tests/run-close-tickets.js:232-235 | "Room: GH 1420&30 (Lecture)" yields "GH 1420&30" |
| Rooms.KnightExample | tests/run-close-tickets.js:233 | the pattern has no word boundary, so "Knight GH 1110" yields "ght GH 1110" |
| Rooms.BareGh | tests/run-close-tickets.js:233-234 | "GH ." yields "GH": the optional whitespace backtracks and the trailing space is trimmed |
| ShiftMatching.AnyLabelMatches | tests/run-close-tickets.js:243 | true exactly when some label is non-empty and occurs in the room, ignoring case |
| ShiftMatching.FirstQualifying | tests/run-close-tickets.js:239-245 | the first shift in configured order that Qualifies (its hours hold the hour and one of its labels matches); None exactly when no shift qualifies |
| ShiftMatching.FindMatchingShift | tests/run-close-tickets.js:237-246 | null when shifts is not an array; otherwise the first qualifying shift, null exactly when none qualifies |
| ShiftMatching.EndHourExcluded | tests/run-close-tickets.js:240-242 | WithinHours is half-open: a start at the end hour does not match |
| ShiftMatching.EmptyLabelsNeverMatch | tests/run-close-tickets.js:243 | LabelMatches needs a truthy label: a shift whose labels are all empty never qualifies |
| ShiftMatching.FirstQualifyingAppend | tests/run-close-tickets.js:239-245 | shifts after the first qualifying one are never consulted; with none qualifying in a prefix, the answer comes from the rest |
| ShiftMatching.LabelMatchIgnoresCase | tests/run-close-tickets.js:243 | lower-casing the room or the label does not change LabelMatches |
| ShiftMatching.LabelLengths | tests/run-close-tickets.js:243 | a label longer than the room never matches; one of equal length matches only when equal ignoring case |
| ConfigFacts.ShiftsWellFormed | config.js:3-36 | both shifts have numeric hours with start before end inside 0-23, and a room list |
| ConfigFacts.WindowsDisjoint | config.js:3-36 | no hour lies in both shifts' windows |
| ConfigFacts.After11RoomsAreMorningRooms | config.js:8-34 | every "after 11" label is also a "Morning GH" label |
| ConfigFacts.UpperFloorsMorningOnly | config.js:8-34 | the fourth- and fifth-floor rooms belong to the morning shift only |
| ConfigFacts.ShiftDecidedByHour | config.js:3-36 | the hour alone picks the candidate shift: morning 7-10, "after 11" 11-14, none otherwise |
| ConfigFacts.LabelAtStart | tests/run-close-tickets.js:243 | a non-empty label at the start of the room matches |
| ConfigFacts.MorningExample | config.js:4-22 | 08:15 in "GH 1110 Annex" is a "Morning GH" event |
| ConfigFacts.After11Example | config.js:23-35 | 11:00 in "GH 1110" is an "after 11" event |
| ConfigFacts.NoonExample | config.js:23-35 | 12:00 in "GH 4101" matches no shift |
| ConfigFacts.ConfiguredLimits | config.js:37-40 | the test inspects at most ten rows; the operator name is non-empty and already trimmed |
| RowScan.SysIdOf | tests/run-close-tickets.js:118 | never empty; the attribute when it is present and non-empty, "unknown" otherwise |
| RowScan.PreviewShape | tests/run-close-tickets.js:119 | the preview keeps every non-whitespace character of the row text in order, holds single plain spaces only, and neither starts nor ends with whitespace |
| RowScan.ShiftForSpec | tests/run-close-tickets.js:120-122 | no shift unless a start and a room both parse and shifts is an array; otherwise the first qualifying shift, none exactly when none qualifies |
| RowScan.FirstFormLink | tests/run-close-tickets.js:249-250 | the first anchor with class formlink; none before it |
| RowScan.ExtractTicketLink | tests/run-close-tickets.js:248-258 | with a formlink anchor, the href of the first one (none before it); with anchors but no formlink, the first anchor's href; null when the row has no anchors; a link is always some anchor's href |
| RowScan.ExtractTicketLinkAppend | tests/run-close-tickets.js:248-258 | anchors after the first formlink never change the link; without any formlink, anchors after the first change nothing; a formlink added after plain anchors takes over |
| RowScan.MatchOf | tests/run-close-tickets.js:117-137 | a row matches exactly when a start and a room parse, a shift matches them, and the link is non-empty; the record carries that shift, the row's sysId and its extracted link |
| RowScan.MatchOfKeepsParse | tests/run-close-tickets.js:120-135 | the record carries the expected start and the room parsed from the row's preview |
| RowScan.InspectRow | tests/run-close-tickets.js:117-137 | the loop body yields a record exactly when a shift matches the row and its link is non-empty; the record carries that shift, the extracted link and the sysId |
| RowScan.LogIncidentRows | tests/run-close-tickets.js:105-141 | the result is the first row's match in list order, by the reference definition |
| RowScan.FirstMatchIsFirst | tests/run-close-tickets.js:116-138 | no match exactly when no row matches; otherwise the match of a row with no matching row before it |
| RowScan.LaterRowsIgnored | tests/run-close-tickets.js:116-138 | once a row has matched, later rows never change the result; rows without a match are passed over as if absent |
| RowScan.FirstSomeSpec | tests/run-close-tickets.js:125-137 | the first present outcome exists exactly when some outcome is present, and none before it is |
| RowScan.EffectiveTestCap | tests/close-tickets.spec.js:17 | a missing or zero cap means 10; any other value is used as is |
| RowScan.ScanLimit | tests/close-tickets.spec.js:20 | the smaller of the row count and the cap; no rows for a negative cap |
| RowScan.ForTest | tests/close-tickets.spec.js:40 | the test's record exists exactly when the runner's does, with the same sysId, shift and link |
| RowScan.LogIncidentRowsCapped | tests/close-tickets.spec.js:10-45 | the test's result is the first match among the first min(rowCount, cap) rows, keeping sysId, shift and link |
| RowScan.CappedAgreesWithRunner | tests/close-tickets.spec.js:20 | when the first match lies within the capped rows, the test and the runner pick the same row |
| FrameResolver.FindFrame | tests/run-close-tickets.js:153-161 | the first frame passing the test; none exactly when none does |
| FrameResolver.PollOnce | tests/run-close-tickets.js:151-188 | a round finds nothing exactly when no frame passes either test and there is no embedded frame; the name pass wins, then the URL pass, then the embedded frame; the result is always one of these |
| FrameResolver.StartTime | tests/run-close-tickets.js:146-151 | round k starts at least 500·k ms after the call |
| FrameResolver.Poll | tests/run-close-tickets.js:151-197 | polling from round k finds the first round before the deadline that sees a frame, or reports that none does |
| FrameResolver.Resolve | tests/run-close-tickets.js:143-198 | a found frame comes from the earliest round that sees one, and that round started before the deadline; it throws exactly when every round before the deadline sees nothing |
| FrameResolver.StartTimeMonotone | tests/run-close-tickets.js:151 | rounds start in order: later rounds never start earlier |
| FrameResolver.ZeroOverheadRounds | tests/run-close-tickets.js:144-151 | with no time spent besides the waits, it throws exactly when all of the first 120 rounds see nothing |
| FrameResolver.FirstRoundWins | tests/run-close-tickets.js:151-165 | a frame visible at once is returned from round 0 |
| FrameResolver.NamePassWins | tests/run-close-tickets.js:153-165 | the first frame passing the name test is taken, whatever the URLs or the embedded element |
| FrameResolver.CustomMatcherOnePass | tests/run-close-tickets.js:147-179 | with a caller predicate, the result is the first frame it accepts, else the embedded frame |
| FrameResolver.RunnerNamesWider | tests/close-tickets.spec.js:57-59 | NameTest: every frame the test's name pass accepts, the runner's accepts too |
| FrameResolver.RunnerUrlsNarrower | tests/close-tickets.spec.js:68-72 | UrlTest: every frame the runner's URL pass accepts, the test's accepts too |
| FrameResolver.MainFrameFoundByBoth | tests/run-close-tickets.js:153-157 | a frame named gsft_main makes either copy find a frame of the page |
| FrameResolver.NavigationFrameExample | tests/run-close-tickets.js:157 | with gsft_nav listed before gsft_main, the runner takes gsft_nav and the test takes gsft_main |
| FrameResolver.FormMatcherExample | tests/run-close-tickets.js:271-274 | the ticket-form predicate takes an unnamed frame showing incident.do, which the default tests skip |
| FrameResolver.UnnamedFrameNeedsEmbedding | tests/run-close-tickets.js:170 | without a predicate, unnamed frames are never taken; only the embedded frame can be returned |
| Runner.EnvVerdict | tests/run-close-tickets.js:28-32 | true exactly for 1/true/yes and false exactly for 0/false/no, in any letter case |
| Runner.ResolveHeadlessSetting | tests/run-close-tickets.js:24-34 | --headed wins, then --headless, then a recognised HEADLESS value, then whether CI is exactly "true" |
| Runner.FlagsDominate | tests/run-close-tickets.js:25-27 | with either flag given, the environment is irrelevant |
| Runner.HeadlessIgnoresCase | tests/run-close-tickets.js:29 | the letter case of HEADLESS never matters |
| Runner.RecognisedEnvIgnoresCi | tests/run-close-tickets.js:28-33 | a recognised HEADLESS value makes CI irrelevant |
| Runner.DefaultFollowsCi | tests/run-close-tickets.js:33 | by default headless only when CI is exactly "true" (not "TRUE", not unset) |
| Runner.HeadlessExamples | tests/run-close-tickets.js:24-34 | "Yes" is recognised, "off" falls through to CI, and --headed beats HEADLESS=1 and CI=true |
| Runner.BuildTicketUrl | tests/run-close-tickets.js:260-264 | no URL exactly for a missing or empty link; an http or https link, in any case, is kept as is; any other is resolved against the base |
| Runner.SchemeIgnoresCase | tests/run-close-tickets.js:262 | HasHttpScheme ignores letter case |
| Runner.AbsoluteLinkUnchanged | tests/run-close-tickets.js:262 | links starting http://, https:// or HTTPS:// are opened unchanged |
| Runner.BuildTicketUrlIdempotent | tests/run-close-tickets.js:260-264 | when resolution yields absolute URLs, building a URL from a built URL changes nothing |
| Runner.LinkOfMatch | tests/run-close-tickets.js:71 | a link exactly when there is a match, and it is the match's link |
| Runner.ScanDecidesBreak | tests/run-close-tickets.js:70-74 | the no-match break fires exactly when no row of the list matches |
| Runner.LoopStep | tests/run-close-tickets.js:69-88 | stops for want of a match exactly when the link is missing or empty, and for a missing URL exactly when the built URL is empty; with a non-empty built URL the runner always opens it, and so does the test when the page lands on incident.do; the test's failed expectation records the URL it visited and the URL it landed on |
| Runner.RunLoop | tests/close-tickets.spec.js:251-262 | the opened URLs are those of the leading passes that opened, in order; the loop ends at the first pass that stops, or when the passes run out |
| Runner.RunLoopStopsAtFirstStop | tests/run-close-tickets.js:69-88 | the loop ends early exactly when some pass stops it |
| Runner.NoMissingUrl | tests/run-close-tickets.js:76-80 | when resolution never yields an empty string, the missing-URL break never fires |
| Runner.RunnerOpensEveryLinkedMatch | tests/run-close-tickets.js:69-88 | when every pass finds a linked match, the runner opens every one of them at the URL built from its link |

## Left out

- Browser automation is not modelled: launching Chrome, `page.goto`, `waitForLoadState`, `waitFor`, and reading attributes and `innerText`. The page is an input: rows, anchors, frames, the embedded frame, the landed URL.
- Login is not modelled: the race between the login form and the ServiceNow URL, and filling the credentials. These are I/O with no decision beyond "log in if the form appears".
- The check for NETID and NETID_PW is not modelled. The runner throws and the test skips, before anything modelled happens.
- `mainTicketFormCompletion` and `finalizeParentTicket` are not modelled: filling the assignment fields, reading the description, saving. They are browser I/O. Their predicate for finding the frame is modelled (`FrameResolver.FormMatcher`), and so is the parser they feed (`DescriptionParser`).
- `createChildTickets` (utils/childTicketHelper.js) is not part of this model.
- The scripts that close aged tickets, the test of the assigned field, and playwright.config.js are not part of this model.
- Console logging, `waitForEnter`, and the "Available frames" dump before the throw are output only.
- `Runner.BuildTicketUrl`: `new URL(link, base).href` is a parameter `resolveRelative`. WHATWG URL parsing (normalisation, percent-encoding, `..` segments) is not modelled, and neither is the exception it throws on an invalid URL.
- `FrameResolver.Resolve`: `Date.now()` is not read. Each round's duration is the 500 ms wait plus a parameter `extraMs`. A round that blocks forever, and a `page.$` or `contentFrame` that throws, are not modelled.
- `Runner.RunLoop`: the loop runs over a finite sequence of passes. Whether the real `while (true)` terminates depends on the list shrinking as tickets are closed, which is outside the program.
- `Timestamps.HourOfDay`: the Date's local time zone is taken to have a constant offset. Daylight-saving transitions, where the local hour can skip or repeat, are not modelled.
- `Text.Trim`, `Text.CollapseSpaces` and the `\s` of the patterns cover ASCII whitespace only. The Unicode spaces JavaScript also strips (such as U+00A0 and U+2028) are not modelled.
- `ShiftMatching.LabelMatches`: `toLowerCase` is ASCII only here, where JavaScript's is Unicode. The `/i` flag without `/u` folds only ASCII letters to ASCII, so the patterns themselves are modelled exactly.
- `ShiftMatching.Shift`: a shift's hours are integers or absent. Non-integer numbers, and room labels that are not strings, are not modelled.
- `RowScan.EffectiveTestCap`: the cap is an integer or absent. Non-numeric configured values are not modelled.
- The row text is always a string. `getAttribute('sys_id')` returning an empty string is treated like null, as `||` does.
- The test's expectation that the URL holds "incident.do" is a single check of the landed URL. Playwright's retry of that assertion until a timeout is not modelled.
- `Config.MaxRows` (`logging.maxRows`, 25) is part of the configuration, but none of the modelled code reads it: the runner scans every row.
