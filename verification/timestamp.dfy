/** Expected-start timestamps in list-row text: the scanner for
    MM/DD/YYYY HH:MM:SS AM|PM, the 12-hour to 24-hour conversion and the
    hour a JavaScript Date built from those fields reports. */
module Timestamps {
  import opened Text

  /** Every match of the timestamp pattern is exactly this long. */
  const StampLength: nat := 22

  /** The arguments handed to the Date constructor:
      new Date(year, monthIndex, day, hour, minute, second). */
  datatype DateTime = DateTime(year: int, monthIndex: int, day: int, hour: int, minute: int, second: int)

  /** \d{2}/\d{2}/\d{4} \d{2}:\d{2}:\d{2} (?:AM|PM) matches at position i
      (\d is ASCII only; the meridiem is case-sensitive). */
  predicate StampAt(t: string, i: nat) {
    i + StampLength <= |t|
    && IsDigit(t[i]) && IsDigit(t[i + 1]) && t[i + 2] == '/'
    && IsDigit(t[i + 3]) && IsDigit(t[i + 4]) && t[i + 5] == '/'
    && IsDigit(t[i + 6]) && IsDigit(t[i + 7]) && IsDigit(t[i + 8]) && IsDigit(t[i + 9])
    && t[i + 10] == ' '
    && IsDigit(t[i + 11]) && IsDigit(t[i + 12]) && t[i + 13] == ':'
    && IsDigit(t[i + 14]) && IsDigit(t[i + 15]) && t[i + 16] == ':'
    && IsDigit(t[i + 17]) && IsDigit(t[i + 18]) && t[i + 19] == ' '
    && (t[i + 20] == 'A' || t[i + 20] == 'P') && t[i + 21] == 'M'
  }

  /** The leftmost match at or after from. */
  function FirstStamp(t: string, from: nat): (r: Option<nat>)
    decreases |t| - from
    ensures r.Some? ==> from <= r.value && StampAt(t, r.value)
    ensures r.Some? ==> forall j :: from <= j < r.value ==> !StampAt(t, j)
    ensures r.None? ==> forall j :: from <= j ==> !StampAt(t, j)
  {
    if from + StampLength > |t| then None
    else if StampAt(t, from) then Some(from)
    else FirstStamp(t, from + 1)
  }

  /** Start positions of the global (/g) matches from position from on:
      leftmost first, each search resuming where the previous match ended. */
  function StampsFrom(t: string, from: nat): (ps: seq<nat>)
    decreases |t| - from
    ensures forall k :: 0 <= k < |ps| ==> from <= ps[k] && StampAt(t, ps[k])
    ensures forall k, l :: 0 <= k && l == k + 1 && l < |ps| ==> ps[k] + StampLength <= ps[l]
  {
    match FirstStamp(t, from)
    case None => []
    case Some(i) => [i] + StampsFrom(t, i + StampLength)
  }

  /** Prepending i to a chain of f-steps keeps it a chain when f leads
      from i to the old head. */
  lemma ChainCons(i: nat, rest: seq<nat>, f: nat -> Option<nat>)
    requires rest != [] ==> Some(rest[0]) == f(i)
    requires forall k, l :: 0 <= k && l == k + 1 && l < |rest| ==> Some(rest[l]) == f(rest[k])
    ensures forall k, l :: 0 <= k && l == k + 1 && l < |[i] + rest| ==> Some(([i] + rest)[l]) == f(([i] + rest)[k])
  {
    var ps := [i] + rest;
    forall k, l | 0 <= k && l == k + 1 && l < |ps|
      ensures Some(ps[l]) == f(ps[k])
    {
      if k > 0 {
        assert ps[k] == rest[k - 1] && ps[l] == rest[l - 1];
      }
    }
  }

  /** The search that resumes after a match at j. */
  function ResumeAfter(t: string): nat -> Option<nat> {
    (j: nat) => FirstStamp(t, j + StampLength)
  }

  /** The global matches are exactly the repeated leftmost searches: none
      when the first search fails, the first search's result first, and
      each later match the leftmost one after the previous match ends. */
  lemma {:induction false} StampsFromResumes(t: string, from: nat)
    decreases |t| - from
    ensures StampsFrom(t, from) == [] <==> FirstStamp(t, from).None?
    ensures StampsFrom(t, from) != [] ==> Some(StampsFrom(t, from)[0]) == FirstStamp(t, from)
    ensures forall k, l :: 0 <= k && l == k + 1 && l < |StampsFrom(t, from)| ==>
              Some(StampsFrom(t, from)[l]) == ResumeAfter(t)(StampsFrom(t, from)[k])
  {
    match FirstStamp(t, from)
    case None =>
    case Some(i) =>
      StampsFromResumes(t, i + StampLength);
      ChainCons(i, StampsFrom(t, i + StampLength), ResumeAfter(t));
  }

  function AllStamps(t: string): seq<nat> {
    StampsFrom(t, 0)
  }

  function DigitValue(c: char): int {
    c as int - '0' as int
  }

  function TwoDigits(t: string, i: nat): int
    requires i + 2 <= |t|
  {
    10 * DigitValue(t[i]) + DigitValue(t[i + 1])
  }

  function FourDigits(t: string, i: nat): int
    requires i + 4 <= |t|
  {
    100 * TwoDigits(t, i) + TwoDigits(t, i + 2)
  }

  /** The 12-hour clock reading converted as toDate does: 12 AM is hour 0,
      12 PM stays 12, other PM hours gain 12, AM hours are unchanged. */
  function To24Hour(hour: int, pm: bool): (r: int)
    ensures r % 12 == hour % 12
    ensures 1 <= hour <= 12 ==> 0 <= r < 24 && (r >= 12 <==> pm)
    ensures 12 < hour ==> r == if pm then hour + 12 else hour
  {
    if hour == 12 then (if pm then 12 else 0)
    else if pm then hour + 12
    else hour
  }

  /** The 12-hour reading of a 24-hour clock hour. */
  function To12Hour(hour: int): (r: (int, bool))
    requires 0 <= hour < 24
    ensures 1 <= r.0 <= 12
    ensures r.1 <==> hour >= 12
  {
    if hour == 0 then (12, false)
    else if hour < 12 then (hour, false)
    else if hour == 12 then (12, true)
    else (hour - 12, true)
  }

  /** The Date arguments toDate builds from the match at position i. */
  function FieldsAt(t: string, i: nat): DateTime
    requires StampAt(t, i)
  {
    DateTime(FourDigits(t, i + 6), TwoDigits(t, i) - 1, TwoDigits(t, i + 3),
             To24Hour(TwoDigits(t, i + 11), t[i + 20] == 'P'),
             TwoDigits(t, i + 14), TwoDigits(t, i + 17))
  }

  /** toDate: the fields of the first match in the string, or null. */
  function ToDate(s: string): Option<DateTime> {
    match FirstStamp(s, 0)
    case None => None
    case Some(i) => Some(FieldsAt(s, i))
  }

  /** toDate finds a date exactly when the pattern matches somewhere, and
      then reads the fields of the leftmost match. */
  lemma ToDateFindsStamp(s: string)
    ensures ToDate(s).Some? <==> exists i: nat :: StampAt(s, i)
    ensures ToDate(s).Some? ==> exists i: nat :: StampAt(s, i) && ToDate(s).value == FieldsAt(s, i)
                                                  && forall j: nat :: j < i ==> !StampAt(s, j)
  {
  }

  lemma StampSliceParses(t: string, p: nat)
    requires StampAt(t, p)
    ensures ToDate(t[p..p + StampLength]) == Some(FieldsAt(t, p))
  {
    var s := t[p..p + StampLength];
    assert StampAt(s, 0);
    assert FirstStamp(s, 0) == Some(0);
    assert FieldsAt(s, 0) == FieldsAt(t, p);
  }

  /** parseExpectedStart: the second global match, or null when there are
      fewer than two. */
  function ParseExpectedStart(rowText: string): (d: Option<DateTime>)
    ensures d.Some? <==> |AllStamps(rowText)| >= 2
  {
    var ms := AllStamps(rowText);
    if |ms| >= 2 then
      StampSliceParses(rowText, ms[1]);
      ToDate(rowText[ms[1]..ms[1] + StampLength])
    else None
  }

  /** The expected start carries the fields of the second match. */
  lemma ParseExpectedStartFields(rowText: string)
    requires |AllStamps(rowText)| >= 2
    ensures ParseExpectedStart(rowText) == Some(FieldsAt(rowText, AllStamps(rowText)[1]))
  {
    StampSliceParses(rowText, AllStamps(rowText)[1]);
  }

  /** Date.prototype.getHours for a Date built from these arguments, in a
      time zone with a constant offset: minutes and seconds beyond their
      ranges carry into the hour, and the hour wraps at 24. */
  function HourOfDay(d: DateTime): (h: int)
    ensures 0 <= h < 24
    ensures 0 <= d.hour < 24 && 0 <= d.minute < 60 && 0 <= d.second < 60 ==> h == d.hour
  {
    ((d.hour * 3600 + d.minute * 60 + d.second) / 3600) % 24
  }

  /** Whole days the time fields carry into the date when the Date
      normalises them. */
  function DaysCarried(d: DateTime): int {
    (d.hour * 3600 + d.minute * 60 + d.second) / 86400
  }

  // ---------------------------------------------------------------------------
  // Properties

  /** For clock readings 01-12 the conversion is a bijection onto 0-23. */
  lemma To24HourRoundTrip(hour: int, pm: bool)
    requires 1 <= hour <= 12
    ensures 0 <= To24Hour(hour, pm) < 24
    ensures To12Hour(To24Hour(hour, pm)) == (hour, pm)
  {
  }

  lemma To12HourRoundTrip(hour: int)
    requires 0 <= hour < 24
    ensures To24Hour(To12Hour(hour).0, To12Hour(hour).1) == hour
  {
  }

  lemma To24HourInjective(h1: int, p1: bool, h2: int, p2: bool)
    requires 1 <= h1 <= 12 && 1 <= h2 <= 12
    requires To24Hour(h1, p1) == To24Hour(h2, p2)
    ensures h1 == h2 && p1 == p2
  {
    To24HourRoundTrip(h1, p1);
    To24HourRoundTrip(h2, p2);
  }

  /** The pattern admits readings such as 13:00:00 PM, toDate turns them
      into hour 25, and the Date rolls that over to 1 AM of the following
      day. */
  lemma ThirteenPmRollsOver(month: int, day: int, year: int)
    requires 0 <= month < 100 && 0 <= day < 100 && 0 <= year < 10000
    ensures StampAt(FormatStamp(month, day, year, 13, 0, 0, true), 0)
    ensures ToDate(FormatStamp(month, day, year, 13, 0, 0, true)) == Some(DateTime(year, month - 1, day, 25, 0, 0))
    ensures HourOfDay(DateTime(year, month - 1, day, 25, 0, 0)) == 1
    ensures DaysCarried(DateTime(year, month - 1, day, 25, 0, 0)) == 1
  {
    FormatStampMatches(month, day, year, 13, 0, 0, true);
    ToDateFormatRoundTrip(month, day, year, 13, 0, 0, true);
  }

  /** Minutes past 59 carry into the hour. */
  lemma MinutesCarry(year: int, monthIndex: int, day: int)
    ensures HourOfDay(DateTime(year, monthIndex, day, To24Hour(10, false), 75, 0)) == 11
  {
  }

  // ---------------------------------------------------------------------------
  // Formatting, the inverse of the scanner

  function DigitChar(n: int): (c: char)
    requires 0 <= n < 10
    ensures IsDigit(c) && DigitValue(c) == n
  {
    ('0' as int + n) as char
  }

  function Pad2(n: int): (s: string)
    requires 0 <= n < 100
    ensures |s| == 2 && IsDigit(s[0]) && IsDigit(s[1]) && TwoDigits(s, 0) == n
  {
    [DigitChar(n / 10), DigitChar(n % 10)]
  }

  function Pad4(n: int): (s: string)
    requires 0 <= n < 10000
    ensures |s| == 4 && FourDigits(s, 0) == n
    ensures forall k :: 0 <= k < 4 ==> IsDigit(s[k])
  {
    var s := Pad2(n / 100) + Pad2(n % 100);
    assert TwoDigits(s, 2) == TwoDigits(Pad2(n % 100), 0);
    s
  }

  /** MM/DD/YYYY */
  function FormatDate(month: int, day: int, year: int): (s: string)
    requires 0 <= month < 100 && 0 <= day < 100 && 0 <= year < 10000
    ensures |s| == 10 && s[2] == '/' && s[5] == '/'
    ensures forall k :: 0 <= k < 10 && k != 2 && k != 5 ==> IsDigit(s[k])
    ensures TwoDigits(s, 0) == month && TwoDigits(s, 3) == day && FourDigits(s, 6) == year
  {
    var mo, dd, yy := Pad2(month), Pad2(day), Pad4(year);
    var s := mo + "/" + dd + "/" + yy;
    assert s[0] == mo[0] && s[1] == mo[1] && s[3] == dd[0] && s[4] == dd[1];
    assert s[6] == yy[0] && s[7] == yy[1] && s[8] == yy[2] && s[9] == yy[3];
    s
  }

  /** HH:MM:SS AM or HH:MM:SS PM */
  function FormatTime(hour12: int, minute: int, second: int, pm: bool): (s: string)
    requires 0 <= hour12 < 100 && 0 <= minute < 100 && 0 <= second < 100
    ensures |s| == 11 && s[2] == ':' && s[5] == ':' && s[8] == ' ' && s[10] == 'M'
    ensures forall k :: 0 <= k < 8 && k != 2 && k != 5 ==> IsDigit(s[k])
    ensures TwoDigits(s, 0) == hour12 && TwoDigits(s, 3) == minute && TwoDigits(s, 6) == second
    ensures s[9] == (if pm then 'P' else 'A')
  {
    var hh, mi, ss := Pad2(hour12), Pad2(minute), Pad2(second);
    var s := hh + ":" + mi + ":" + ss + " " + (if pm then "PM" else "AM");
    assert s[0] == hh[0] && s[1] == hh[1] && s[3] == mi[0] && s[4] == mi[1];
    assert s[6] == ss[0] && s[7] == ss[1];
    s
  }

  /** Text in the format the list shows, e.g. 10/10/2026 08:15:00 AM. */
  function FormatStamp(month: int, day: int, year: int, hour12: int, minute: int, second: int, pm: bool): (s: string)
    requires 0 <= month < 100 && 0 <= day < 100 && 0 <= year < 10000
    requires 0 <= hour12 < 100 && 0 <= minute < 100 && 0 <= second < 100
    ensures |s| == StampLength
  {
    FormatDate(month, day, year) + " " + FormatTime(hour12, minute, second, pm)
  }

  /** Digits read at offset i of a + [c] + b, inside either part. */
  lemma DigitsAcross(a: string, c: char, b: string)
    ensures forall i :: 0 <= i && i + 2 <= |a| ==> TwoDigits(a + [c] + b, i) == TwoDigits(a, i)
    ensures forall i :: 0 <= i && i + 2 <= |b| ==> TwoDigits(a + [c] + b, |a| + 1 + i) == TwoDigits(b, i)
  {
  }

  lemma FormatStampMatches(month: int, day: int, year: int, hour12: int, minute: int, second: int, pm: bool)
    requires 0 <= month < 100 && 0 <= day < 100 && 0 <= year < 10000
    requires 0 <= hour12 < 100 && 0 <= minute < 100 && 0 <= second < 100
    ensures StampAt(FormatStamp(month, day, year, hour12, minute, second, pm), 0)
    ensures FieldsAt(FormatStamp(month, day, year, hour12, minute, second, pm), 0)
         == DateTime(year, month - 1, day, To24Hour(hour12, pm), minute, second)
  {
    var d, tm := FormatDate(month, day, year), FormatTime(hour12, minute, second, pm);
    var s := d + " " + tm;
    assert forall k :: 0 <= k < 10 ==> s[k] == d[k];
    assert forall k :: 0 <= k < 11 ==> s[11 + k] == tm[k];
    DigitsAcross(d, ' ', tm);
    assert TwoDigits(s, 6) == TwoDigits(d, 6) && TwoDigits(s, 8) == TwoDigits(d, 8);
  }

  /** toDate reads back exactly the fields a formatted timestamp carries. */
  lemma ToDateFormatRoundTrip(month: int, day: int, year: int, hour12: int, minute: int, second: int, pm: bool)
    requires 0 <= month < 100 && 0 <= day < 100 && 0 <= year < 10000
    requires 0 <= hour12 < 100 && 0 <= minute < 100 && 0 <= second < 100
    ensures ToDate(FormatStamp(month, day, year, hour12, minute, second, pm))
         == Some(DateTime(year, month - 1, day, To24Hour(hour12, pm), minute, second))
  {
    FormatStampMatches(month, day, year, hour12, minute, second, pm);
  }

  // ---------------------------------------------------------------------------
  // Which occurrence is used

  /** A position whose character is not a digit starts no match. */
  lemma {:induction false} SkipNonDigits(t: string, from: nat, p: nat)
    requires from <= p
    requires forall j :: from <= j < p && j < |t| ==> !IsDigit(t[j])
    ensures FirstStamp(t, from) == FirstStamp(t, p)
    decreases p - from
  {
    if from < p {
      SkipNonDigits(t, from + 1, p);
    }
  }

  /** A timestamp embedded in a longer text is found where it sits. */
  lemma StampEmbedded(a: string, s: string, b: string)
    requires |s| == StampLength && StampAt(s, 0)
    ensures StampAt(a + s + b, |a|)
    ensures (a + s + b)[|a|..|a| + StampLength] == s
  {
    var t := a + s + b;
    assert forall k :: 0 <= k < StampLength ==> t[|a| + k] == s[k];
  }

  /** Searching t = a + m + s + b from the end of a, past the digit-free
      m, finds the timestamp s that follows. */
  lemma StampAfterNonDigits(t: string, a: string, m: string, s: string, b: string)
    requires t == a + m + s + b
    requires forall j :: 0 <= j < |m| ==> !IsDigit(m[j])
    requires |s| == StampLength && StampAt(s, 0)
    ensures FirstStamp(t, |a|) == Some(|a| + |m|)
    ensures t[|a| + |m|..|a| + |m| + StampLength] == s
  {
    assert t == (a + m) + s + b;
    StampEmbedded(a + m, s, b);
    forall j | |a| <= j < |a| + |m|
      ensures !IsDigit(t[j])
    {
      assert t[j] == m[j - |a|];
    }
    SkipNonDigits(t, |a|, |a| + |m|);
  }

  /** The second global match is the one found after the first. */
  lemma SecondOfAll(t: string, p1: nat, p2: nat)
    requires FirstStamp(t, 0) == Some(p1) && FirstStamp(t, p1 + StampLength) == Some(p2)
    ensures |AllStamps(t)| >= 2 && AllStamps(t)[1] == p2
  {
    assert StampsFrom(t, p1 + StampLength) == [p2] + StampsFrom(t, p2 + StampLength);
  }

  /** The expected start is read from the match found after the first. */
  lemma SecondStampAt(t: string, p1: nat, p2: nat)
    requires FirstStamp(t, 0) == Some(p1) && FirstStamp(t, p1 + StampLength) == Some(p2)
    ensures ParseExpectedStart(t) == ToDate(t[p2..p2 + StampLength])
  {
    hide ToDate, FirstStamp;
    SecondOfAll(t, p1, p2);
  }

  /** With no digit before the first timestamp x and none between it and
      the second timestamp y, the expected start is read from y; x and
      everything after y play no part. */
  lemma SecondStampWins(pre: string, x: string, mid: string, y: string, post: string)
    requires |x| == StampLength && StampAt(x, 0)
    requires |y| == StampLength && StampAt(y, 0)
    requires forall j :: 0 <= j < |pre| ==> !IsDigit(pre[j])
    requires forall j :: 0 <= j < |mid| ==> !IsDigit(mid[j])
    ensures ParseExpectedStart(pre + x + mid + y + post) == ToDate(y)
  {
    var t := pre + x + mid + y + post;
    var p1, p2 := |pre|, |pre| + StampLength + |mid|;
    Regroup(pre, x, mid, y, post);
    FirstOfTwo(t, pre, x, mid + y + post);
    SecondOfTwo(t, pre, x, mid, y, post);
    SecondStampAt(t, p1, p2);
  }

  /** Where the first match of such a text sits. */
  lemma FirstOfTwo(t: string, pre: string, x: string, rest: string)
    requires t == pre + x + rest
    requires |x| == StampLength && StampAt(x, 0)
    requires forall j :: 0 <= j < |pre| ==> !IsDigit(pre[j])
    ensures FirstStamp(t, 0) == Some(|pre|)
  {
    assert t == [] + pre + x + rest;
    StampAfterNonDigits(t, [], pre, x, rest);
  }

  /** Where the match after the first one sits. */
  lemma SecondOfTwo(t: string, pre: string, x: string, mid: string, y: string, post: string)
    requires t == pre + x + mid + y + post
    requires |x| == StampLength
    requires |y| == StampLength && StampAt(y, 0)
    requires forall j :: 0 <= j < |mid| ==> !IsDigit(mid[j])
    ensures FirstStamp(t, |pre| + StampLength) == Some(|pre| + StampLength + |mid|)
    ensures t[|pre| + StampLength + |mid|..|pre| + StampLength + |mid| + StampLength] == y
  {
    assert |pre + x| == |pre| + StampLength;
    StampAfterNonDigits(t, pre + x, mid, y, post);
  }

  lemma Regroup<T>(a: seq<T>, b: seq<T>, c: seq<T>, d: seq<T>, e: seq<T>)
    ensures a + b + c + d + e == a + b + (c + d + e)
  {
  }
}
