/** logIncidentRows: scan the incident list rows in order and keep the
    first row whose expected start and room match a shift and that yields
    a ticket link. The runner scans every row; the test variant scans at
    most maxRowsInTest of them and keeps fewer fields. */
module RowScan {
  import opened Text
  import opened Timestamps
  import opened Rooms
  import opened ShiftMatching

  /** An anchor element of a row: whether it has class formlink, and its
      href attribute (null when absent). */
  datatype Anchor = Anchor(isFormLink: bool, href: Option<string>)

  /** One tr.list_row: its sys_id attribute, its innerText and its anchors
      in document order. */
  datatype Row = Row(sysIdAttribute: Option<string>, innerText: string, anchors: seq<Anchor>)

  /** The runner's record of the chosen row. */
  datatype TicketMatch = TicketMatch(sysId: string, shift: Shift, link: string, expectedStart: DateTime, room: string)

  /** The test variant's record of the chosen row. */
  datatype TestMatch = TestMatch(sysId: string, shift: Shift, link: string)

  const UnknownSysId: string := "unknown"

  /** getAttribute('sys_id') || 'unknown' */
  function SysIdOf(row: Row): (id: string)
    ensures id != []
    ensures row.sysIdAttribute.Some? && row.sysIdAttribute.value != [] ==> id == row.sysIdAttribute.value
    ensures row.sysIdAttribute.None? || row.sysIdAttribute.value == [] ==> id == UnknownSysId
  {
    if row.sysIdAttribute.Some? && row.sysIdAttribute.value != [] then row.sysIdAttribute.value
    else UnknownSysId
  }

  /** innerText.replace(/\s+/g, ' ').trim() */
  function Preview(row: Row): string {
    Trim(CollapseSpaces(row.innerText))
  }

  /** The a.formlink selector as a test on anchors. */
  const IsFormLink: Anchor -> bool := (a: Anchor) => a.isFormLink

  /** The preview is the row text with its whitespace runs collapsed to
      single spaces and its ends trimmed: every other character is kept in
      order, the only whitespace left is the plain space, never two in a
      row, and none at either end. */
  lemma PreviewShape(row: Row)
    ensures NonSpace(Preview(row)) == NonSpace(row.innerText)
    ensures Collapsed(Preview(row))
    ensures Preview(row) == [] || (!IsSpace(Preview(row)[0]) && !IsSpace(Preview(row)[|Preview(row)| - 1]))
  {
    TrimCollapse(row.innerText);
  }

  /** Index of the first anchor with class formlink. */
  function FirstFormLink(anchors: seq<Anchor>): (r: Option<nat>)
    ensures r.Some? ==> r.value < |anchors| && anchors[r.value].isFormLink
    ensures r.Some? ==> forall j :: 0 <= j < r.value ==> !anchors[j].isFormLink
    ensures r.None? <==> forall j :: 0 <= j < |anchors| ==> !anchors[j].isFormLink
  {
    FirstWhere(anchors, IsFormLink)
  }

  /** extractTicketLink: the href of the first a.formlink when there is
      one (even when that href is absent), else the href of the first
      anchor, else null. */
  function ExtractTicketLink(row: Row): (link: Option<string>)
    ensures link.Some? ==> exists k :: 0 <= k < |row.anchors| && row.anchors[k].href == link
    ensures row.anchors == [] ==> link.None?
    ensures (exists k :: 0 <= k < |row.anchors| && row.anchors[k].isFormLink) ==>
              exists k :: 0 <= k < |row.anchors| && row.anchors[k].isFormLink && link == row.anchors[k].href
                          && forall j :: 0 <= j < k ==> !row.anchors[j].isFormLink
    ensures row.anchors != [] && (forall k :: 0 <= k < |row.anchors| ==> !row.anchors[k].isFormLink) ==>
              link == row.anchors[0].href
  {
    match FirstFormLink(row.anchors)
    case Some(k) => row.anchors[k].href
    case None => if row.anchors == [] then None else row.anchors[0].href
  }

  /** Anchors after the first formlink never change the link; when no
      anchor is a formlink, anchors added after the first change nothing
      either; and a formlink added after plain anchors takes over. */
  lemma ExtractTicketLinkAppend(row: Row, more: seq<Anchor>)
    ensures FirstFormLink(row.anchors).Some? ==>
              ExtractTicketLink(row.(anchors := row.anchors + more)) == ExtractTicketLink(row)
    ensures row.anchors != [] && FirstFormLink(row.anchors + more).None? ==>
              ExtractTicketLink(row.(anchors := row.anchors + more)) == ExtractTicketLink(row)
    ensures FirstFormLink(row.anchors).None? && FirstFormLink(more).Some? ==>
              ExtractTicketLink(row.(anchors := row.anchors + more)) == more[FirstFormLink(more).value].href
  {
    var all := row.anchors + more;
    FirstWhereAppend(row.anchors, more, IsFormLink);
    if row.anchors != [] {
      assert all[0] == row.anchors[0];
    }
    if FirstFormLink(row.anchors).None? && FirstFormLink(more).Some? {
      assert all[|row.anchors| + FirstFormLink(more).value] == more[FirstFormLink(more).value];
    }
  }

  /** A link is used only when it is truthy: present and non-empty. */
  predicate Truthy(link: Option<string>) {
    link.Some? && link.value != []
  }

  /** parseExpectedStart of the row's preview. */
  function StartOf(row: Row): Option<DateTime> {
    ParseExpectedStart(Preview(row))
  }

  /** parseRoom of the row's preview. */
  function RoomOf(row: Row): Option<string> {
    ParseRoom(Preview(row))
  }

  /** The shift for a parsed start and room, when both parsed. */
  function ShiftFor(start: Option<DateTime>, room: Option<string>, shifts: Option<seq<Shift>>): Option<Shift>
  {
    if start.Some? && room.Some? then FindMatchingShift(start.value, room.value, shifts)
    else None
  }

  /** The shift a row belongs to: both a start and a room must parse. */
  function RowShift(row: Row, shifts: Option<seq<Shift>>): Option<Shift> {
    ShiftFor(StartOf(row), RoomOf(row), shifts)
  }

  /** What a row contributes when it is the first qualifying one. */
  function MatchOf(row: Row, shifts: Option<seq<Shift>>): (m: Option<TicketMatch>)
    ensures m.Some? <==> RowShift(row, shifts).Some? && Truthy(ExtractTicketLink(row))
    ensures m.Some? ==> m.value.link != [] && m.value.sysId != []
    ensures m.Some? ==> Some(m.value.shift) == RowShift(row, shifts)
    ensures m.Some? ==> Some(m.value.link) == ExtractTicketLink(row) && m.value.sysId == SysIdOf(row)
  {
    match RowShift(row, shifts)
    case None => None
    case Some(s) =>
      var link := ExtractTicketLink(row);
      if Truthy(link) then Some(TicketMatch(SysIdOf(row), s, link.value, StartOf(row).value, RoomOf(row).value))
      else None
  }

  /** A row belongs to the first configured shift that qualifies for its
      expected start's hour and its room, and to none when either failed to
      parse, when shifts is not an array or when no shift qualifies. */
  lemma ShiftForSpec(start: Option<DateTime>, room: Option<string>, shifts: Option<seq<Shift>>)
    ensures start.None? || room.None? || shifts.None? ==> ShiftFor(start, room, shifts).None?
    ensures ShiftFor(start, room, shifts).Some? ==> start.Some? && room.Some? && shifts.Some?
    ensures ShiftFor(start, room, shifts).Some? ==>
              exists k :: 0 <= k < |shifts.value| && ShiftFor(start, room, shifts).value == shifts.value[k]
                          && Qualifies(HourOfDay(start.value), room.value, shifts.value[k])
                          && forall j :: 0 <= j < k ==> !Qualifies(HourOfDay(start.value), room.value, shifts.value[j])
    ensures start.Some? && room.Some? && shifts.Some?
            && (forall j :: 0 <= j < |shifts.value| ==> !Qualifies(HourOfDay(start.value), room.value, shifts.value[j]))
            ==> ShiftFor(start, room, shifts).None?
  {
  }

  /** The record keeps the expected start and the room parsed from the
      row's preview. */
  lemma MatchOfKeepsParse(row: Row, shifts: Option<seq<Shift>>)
    ensures MatchOf(row, shifts).Some? ==>
              Some(MatchOf(row, shifts).value.expectedStart) == StartOf(row)
              && Some(MatchOf(row, shifts).value.room) == RoomOf(row)
  {
    var m := MatchOf(row, shifts);
    if m.Some? {
      var s := RowShift(row, shifts).value;
      assert m == Some(TicketMatch(SysIdOf(row), s, ExtractTicketLink(row).value, StartOf(row).value, RoomOf(row).value));
    }
  }

  /** The work the loop body does for one row: read its sys_id and
      preview, parse the expected start and the room, look up the shift,
      and take the ticket link when a shift matched. */
  method InspectRow(row: Row, shifts: Option<seq<Shift>>) returns (rowMatch: Option<TicketMatch>)
    ensures rowMatch.Some? <==> RowShift(row, shifts).Some? && Truthy(ExtractTicketLink(row))
    ensures rowMatch.Some? ==> Some(rowMatch.value.shift) == RowShift(row, shifts)
    ensures rowMatch.Some? ==> Some(rowMatch.value.link) == ExtractTicketLink(row) && rowMatch.value.sysId == SysIdOf(row)
    ensures rowMatch == MatchOf(row, shifts)
  {
    MatchOfKeepsParse(row, shifts);
    var sysId := SysIdOf(row);
    var preview := Preview(row);
    var expectedStart := ParseExpectedStart(preview);
    var room := ParseRoom(preview);
    var matchingShift := None;
    if expectedStart.Some? && room.Some? {
      matchingShift := FindMatchingShift(expectedStart.value, room.value, shifts);
    }
    assert expectedStart == StartOf(row) && room == RoomOf(row);
    assert matchingShift == RowShift(row, shifts);
    rowMatch := None;
    if matchingShift.Some? {
      var link := ExtractTicketLink(row);
      if Truthy(link) {
        rowMatch := Some(TicketMatch(sysId, matchingShift.value, link.value, expectedStart.value, room.value));
      }
    }
  }

  /** The outcome of each element under f, in order. */
  function Outcomes<X, M>(xs: seq<X>, f: X -> Option<M>): (os: seq<Option<M>>)
    ensures |os| == |xs|
    ensures forall j :: 0 <= j < |xs| ==> os[j] == f(xs[j])
  {
    seq(|xs|, j requires 0 <= j < |xs| => f(xs[j]))
  }

  /** The per-row rule as a function value, for the scans below. */
  function RowRule(shifts: Option<seq<Shift>>): Row -> Option<TicketMatch> {
    row => MatchOf(row, shifts)
  }

  /** The first present outcome. */
  function FirstSome<T>(os: seq<Option<T>>): Option<T> {
    if os == [] then None
    else if os[0].Some? then os[0]
    else FirstSome(os[1..])
  }

  /** Reference definition: the first row's match in scan order. */
  function FirstMatch(rows: seq<Row>, shifts: Option<seq<Shift>>): Option<TicketMatch> {
    if rows == [] then None
    else if MatchOf(rows[0], shifts).Some? then MatchOf(rows[0], shifts)
    else FirstMatch(rows[1..], shifts)
  }

  /** The rows the runner scans: all of them. A first qualifying row is
      kept; later qualifying rows never replace it, and a matching row
      without a link is passed over. */
  method LogIncidentRows(rows: seq<Row>, shifts: Option<seq<Shift>>) returns (firstMatch: Option<TicketMatch>)
    ensures firstMatch == FirstMatch(rows, shifts)
  {
    hide MatchOf;
    firstMatch := None;
    var i := 0;
    while i < |rows|
      invariant 0 <= i <= |rows|
      invariant FirstMatch(rows, shifts) == if firstMatch.Some? then firstMatch else FirstMatch(rows[i..], shifts)
    {
      var rowMatch := InspectRow(rows[i], shifts);
      FirstMatchStep(rows, i, shifts);
      if firstMatch.None? && rowMatch.Some? {
        firstMatch := rowMatch;
      }
      i := i + 1;
    }
  }

  /** One step of the scan: the row at i decides, or the rows after it do. */
  lemma FirstMatchStep(rows: seq<Row>, i: nat, shifts: Option<seq<Shift>>)
    requires i < |rows|
    ensures FirstMatch(rows[i..], shifts)
            == if MatchOf(rows[i], shifts).Some? then MatchOf(rows[i], shifts) else FirstMatch(rows[i + 1..], shifts)
  {
    hide MatchOf;
    assert rows[i..][0] == rows[i] && rows[i..][1..] == rows[i + 1..];
  }

  /** config.logging?.maxRowsInTest || 10: a missing or zero cap means 10. */
  function EffectiveTestCap(maxRowsInTest: Option<int>): (cap: int)
    ensures maxRowsInTest.None? || maxRowsInTest == Some(0) ==> cap == 10
    ensures maxRowsInTest.Some? && maxRowsInTest.value != 0 ==> cap == maxRowsInTest.value
  {
    match maxRowsInTest
    case Some(n) => if n == 0 then 10 else n
    case None => 10
  }

  /** Math.min(rowCount, maxRows), where a negative cap lets no row in. */
  function ScanLimit(rowCount: nat, cap: int): (n: nat)
    ensures n <= rowCount
    ensures cap >= 0 ==> n == if rowCount < cap then rowCount else cap
    ensures cap < 0 ==> n == 0
  {
    if cap < 0 then 0 else if rowCount < cap then rowCount else cap
  }

  /** The fields the test variant keeps. */
  function ForTest(m: Option<TicketMatch>): (t: Option<TestMatch>)
    ensures t.Some? <==> m.Some?
    ensures t.Some? ==> t.value.sysId == m.value.sysId && t.value.shift == m.value.shift && t.value.link == m.value.link
  {
    match m
    case None => None
    case Some(x) => Some(TestMatch(x.sysId, x.shift, x.link))
  }

  /** The test variant's scan: only the first min(rowCount, cap) rows, and
      only sysId, shift and link are kept. */
  method LogIncidentRowsCapped(rows: seq<Row>, shifts: Option<seq<Shift>>, maxRowsInTest: Option<int>)
    returns (firstMatch: Option<TestMatch>)
    ensures firstMatch == ForTest(FirstMatch(rows[..ScanLimit(|rows|, EffectiveTestCap(maxRowsInTest))], shifts))
  {
    hide MatchOf;
    var maxRows := EffectiveTestCap(maxRowsInTest);
    var limit := ScanLimit(|rows|, maxRows);
    ghost var scanned := rows[..limit];
    ghost var found: Option<TicketMatch> := None;
    firstMatch := None;
    var i := 0;
    while i < limit
      invariant 0 <= i <= limit
      invariant firstMatch == ForTest(found)
      invariant firstMatch.None? <==> found.None?
      invariant FirstMatch(scanned, shifts) == if found.Some? then found else FirstMatch(scanned[i..], shifts)
    {
      var rowMatch := InspectRow(rows[i], shifts);
      FirstMatchStep(scanned, i, shifts);
      assert scanned[i] == rows[i];
      if firstMatch.None? && rowMatch.Some? {
        firstMatch := ForTest(rowMatch);
        found := rowMatch;
      }
      i := i + 1;
    }
  }

  // ---------------------------------------------------------------------------
  // Properties

  /** The first present outcome is present exactly when some outcome is,
      and no outcome before it is present. */
  lemma {:induction false} FirstSomeSpec<T>(os: seq<Option<T>>)
    ensures FirstSome(os).None? <==> forall j :: 0 <= j < |os| ==> os[j].None?
    ensures FirstSome(os).Some? ==>
              exists i :: 0 <= i < |os| && os[i] == FirstSome(os) && forall j :: 0 <= j < i ==> os[j].None?
  {
    if os != [] && os[0].None? {
      var tail := os[1..];
      FirstSomeSpec(tail);
      assert forall j :: 0 < j < |os| ==> os[j] == tail[j - 1];
      if FirstSome(tail).Some? {
        var i :| 0 <= i < |tail| && tail[i] == FirstSome(tail) && forall j :: 0 <= j < i ==> tail[j].None?;
        assert os[i + 1] == FirstSome(os);
      }
    }
  }

  /** Outcomes after the first present one are never consulted. */
  lemma {:induction false} FirstSomeAppend<T>(a: seq<Option<T>>, b: seq<Option<T>>)
    ensures FirstSome(a).Some? ==> FirstSome(a + b) == FirstSome(a)
    ensures FirstSome(a).None? ==> FirstSome(a + b) == FirstSome(b)
  {
    if a == [] {
      assert a + b == b;
    } else {
      assert (a + b)[0] == a[0];
      assert (a + b)[1..] == a[1..] + b;
      FirstSomeAppend(a[1..], b);
    }
  }

  lemma OutcomesAppend<X, M>(a: seq<X>, b: seq<X>, f: X -> Option<M>)
    ensures Outcomes(a + b, f) == Outcomes(a, f) + Outcomes(b, f)
  {
  }

  /** One more outcome scanned: the match found so far stays, and
      otherwise the new outcome is taken. */
  lemma ScanStep<M>(os: seq<Option<M>>, i: nat)
    requires i < |os|
    ensures FirstSome(os[..i + 1]) == if FirstSome(os[..i]).Some? then FirstSome(os[..i]) else os[i]
  {
    assert os[..i + 1] == os[..i] + [os[i]];
    FirstSomeAppend(os[..i], [os[i]]);
  }

  /** The recursive reference definition is the first present outcome of
      the per-row rule. */
  lemma {:induction false} FirstMatchByOutcomes(rows: seq<Row>, shifts: Option<seq<Shift>>)
    ensures FirstMatch(rows, shifts) == FirstSome(Outcomes(rows, RowRule(shifts)))
  {
    hide MatchOf;
    if rows != [] {
      var os := Outcomes(rows, RowRule(shifts));
      assert os[0] == MatchOf(rows[0], shifts);
      assert os[1..] == Outcomes(rows[1..], RowRule(shifts));
      FirstMatchByOutcomes(rows[1..], shifts);
    }
  }

  /** The reference definition picks the first row that matches and links:
      none when no row does. */
  lemma FirstMatchIsFirst(rows: seq<Row>, shifts: Option<seq<Shift>>)
    ensures FirstMatch(rows, shifts).None? <==> forall j :: 0 <= j < |rows| ==> MatchOf(rows[j], shifts).None?
    ensures FirstMatch(rows, shifts).Some? ==>
              exists i :: 0 <= i < |rows| && FirstMatch(rows, shifts) == MatchOf(rows[i], shifts)
                          && forall j :: 0 <= j < i ==> MatchOf(rows[j], shifts).None?
  {
    var os := Outcomes(rows, RowRule(shifts));
    FirstMatchByOutcomes(rows, shifts);
    FirstSomeSpec(os);
  }

  /** Rows after the first match never change the outcome; when the
      leading rows hold no match, the outcome is that of the rest. */
  lemma LaterRowsIgnored(rows: seq<Row>, more: seq<Row>, shifts: Option<seq<Shift>>)
    ensures FirstMatch(rows, shifts).Some? ==> FirstMatch(rows + more, shifts) == FirstMatch(rows, shifts)
    ensures FirstMatch(rows, shifts).None? ==> FirstMatch(rows + more, shifts) == FirstMatch(more, shifts)
  {
    FirstMatchByOutcomes(more, shifts);
    FirstMatchByOutcomes(rows, shifts);
    FirstMatchByOutcomes(rows + more, shifts);
    OutcomesAppend(rows, more, RowRule(shifts));
    FirstSomeAppend(Outcomes(rows, RowRule(shifts)), Outcomes(more, RowRule(shifts)));
  }

  /** A rule's first present outcome among the first n elements is its
      first present outcome overall. */
  lemma FirstSomeOfPrefix<X, M>(xs: seq<X>, f: X -> Option<M>, n: nat)
    requires n <= |xs| && FirstSome(Outcomes(xs[..n], f)).Some?
    ensures FirstSome(Outcomes(xs, f)) == FirstSome(Outcomes(xs[..n], f))
  {
    assert xs == xs[..n] + xs[n..];
    OutcomesAppend(xs[..n], xs[n..], f);
    FirstSomeAppend(Outcomes(xs[..n], f), Outcomes(xs[n..], f));
  }

  /** Whenever the runner's first match lies within the rows the test
      variant scans, both pick the same row. */
  lemma CappedAgreesWithRunner(rows: seq<Row>, shifts: Option<seq<Shift>>, n: nat)
    requires n <= |rows|
    ensures FirstMatch(rows[..n], shifts).Some? ==> FirstMatch(rows, shifts) == FirstMatch(rows[..n], shifts)
  {
    FirstMatchByOutcomes(rows, shifts);
    FirstMatchByOutcomes(rows[..n], shifts);
    if FirstMatch(rows[..n], shifts).Some? {
      FirstSomeOfPrefix(rows, RowRule(shifts), n);
    }
  }
}
