/** findMatchingShift: the first configured shift whose half-open hour
    window holds the start hour and one of whose room labels occurs in
    the room, ignoring letter case. */
module ShiftMatching {
  import opened Text
  import opened Timestamps

  /** A configured shift. An hour is None when the configured value is not
      a number, and rooms is None when it is not an array. */
  datatype Shift = Shift(name: string, startHour: Option<int>, endHour: Option<int>, rooms: Option<seq<string>>)

  /** hour >= startHour && hour < endHour, after both were checked to be
      numbers. */
  predicate WithinHours(hour: int, s: Shift) {
    s.startHour.Some? && s.endHour.Some? && s.startHour.value <= hour < s.endHour.value
  }

  /** An empty label is falsy and never matches; otherwise a
      case-insensitive substring test. */
  predicate LabelMatches(room: string, lbl: string) {
    lbl != [] && Includes(Lower(room), Lower(lbl))
  }

  /** rooms.some(candidate => ...) */
  function AnyLabelMatches(room: string, labels: seq<string>): (b: bool)
    ensures b <==> exists k :: 0 <= k < |labels| && LabelMatches(room, labels[k])
  {
    if labels == [] then false
    else LabelMatches(room, labels[0]) || AnyLabelMatches(room, labels[1..])
  }

  predicate RoomMatches(room: string, s: Shift) {
    s.rooms.Some? && AnyLabelMatches(room, s.rooms.value)
  }

  predicate Qualifies(hour: int, room: string, s: Shift) {
    WithinHours(hour, s) && RoomMatches(room, s)
  }

  /** Qualifies as a test on shifts. */
  function QualifiesFor(hour: int, room: string): Shift -> bool {
    s => Qualifies(hour, room, s)
  }

  /** Index of the first qualifying shift in configured order. */
  function FirstQualifying(hour: int, room: string, shifts: seq<Shift>): (r: Option<nat>)
    ensures r.Some? ==> r.value < |shifts| && Qualifies(hour, room, shifts[r.value])
    ensures r.Some? ==> forall j :: 0 <= j < r.value ==> !Qualifies(hour, room, shifts[j])
    ensures r.None? <==> forall j :: 0 <= j < |shifts| ==> !Qualifies(hour, room, shifts[j])
  {
    FirstWhere(shifts, QualifiesFor(hour, room))
  }

  /** findMatchingShift(dateObj, room, shifts); shifts is None when the
      configured value is not an array. */
  function FindMatchingShift(d: DateTime, room: string, shifts: Option<seq<Shift>>): (r: Option<Shift>)
    ensures shifts.None? ==> r.None?
    ensures r.None? <==> shifts.None? || forall j :: 0 <= j < |shifts.value| ==> !Qualifies(HourOfDay(d), room, shifts.value[j])
    ensures r.Some? ==> exists k :: 0 <= k < |shifts.value| && r.value == shifts.value[k]
                          && Qualifies(HourOfDay(d), room, shifts.value[k])
                          && forall j :: 0 <= j < k ==> !Qualifies(HourOfDay(d), room, shifts.value[j])
  {
    match shifts
    case None => None
    case Some(ss) =>
      match FirstQualifying(HourOfDay(d), room, ss)
      case None => None
      case Some(k) => Some(ss[k])
  }

  // ---------------------------------------------------------------------------
  // Properties

  /** The end hour is excluded from the window. */
  lemma EndHourExcluded(d: DateTime, room: string, s: Shift)
    requires s.endHour == Some(HourOfDay(d))
    ensures FindMatchingShift(d, room, Some([s])).None?
  {
    assert !WithinHours(HourOfDay(d), s);
  }

  /** A shift whose labels are all empty never matches. */
  lemma EmptyLabelsNeverMatch(hour: int, room: string, s: Shift)
    requires s.rooms.Some? && forall k :: 0 <= k < |s.rooms.value| ==> s.rooms.value[k] == []
    ensures !Qualifies(hour, room, s)
  {
  }

  /** First match wins: shifts after a qualifying one are never consulted,
      and when none in a qualifies the answer comes from b. */
  lemma FirstQualifyingAppend(hour: int, room: string, a: seq<Shift>, b: seq<Shift>)
    ensures FirstQualifying(hour, room, a).Some? ==>
              FirstQualifying(hour, room, a + b) == FirstQualifying(hour, room, a)
    ensures FirstQualifying(hour, room, a).None? ==>
              FirstQualifying(hour, room, a + b)
              == (match FirstQualifying(hour, room, b) case None => None case Some(i) => Some(|a| + i))
  {
    hide Qualifies;
    FirstWhereAppend(a, b, QualifiesFor(hour, room));
  }

  /** The letter case of the room and of the labels is irrelevant. */
  lemma LabelMatchIgnoresCase(room: string, lbl: string)
    ensures LabelMatches(Lower(room), lbl) == LabelMatches(room, lbl)
    ensures LabelMatches(room, Lower(lbl)) == LabelMatches(room, lbl)
  {
    LowerIdempotent(room);
    LowerIdempotent(lbl);
  }

  /** A label longer than the room never occurs in it; one of the same
      length occurs only when the two agree ignoring case. */
  lemma LabelLengths(room: string, lbl: string)
    requires lbl != []
    ensures |lbl| > |room| ==> !LabelMatches(room, lbl)
    ensures |lbl| == |room| ==> (LabelMatches(room, lbl) <==> Lower(room) == Lower(lbl))
  {
    if |lbl| == |room| && Lower(room) == Lower(lbl) {
      assert OccursAt(Lower(room), Lower(lbl), 0);
    }
  }
}
