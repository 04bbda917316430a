/** What the configured shifts guarantee, and worked examples of the
    matcher run against them. */
module ConfigFacts {
  import opened Text
  import opened Timestamps
  import opened ShiftMatching
  import opened Config
  import opened RowScan

  /** Both shifts have numeric hours with startHour < endHour inside 0-23. */
  lemma ShiftsWellFormed()
    ensures forall k :: 0 <= k < |Shifts| ==>
              Shifts[k].startHour.Some? && Shifts[k].endHour.Some?
              && 0 <= Shifts[k].startHour.value < Shifts[k].endHour.value <= 23
              && Shifts[k].rooms.Some?
  {
  }

  /** The two windows [7, 11) and [11, 15) share no hour. */
  lemma WindowsDisjoint(hour: int)
    ensures !(WithinHours(hour, MorningGH) && WithinHours(hour, After11))
  {
  }

  /** Every "after 11" label is also a "Morning GH" label. */
  lemma After11RoomsAreMorningRooms()
    ensures forall k :: 0 <= k < |After11Rooms| ==> After11Rooms[k] in MorningRooms
  {
    assert After11Rooms == MorningRooms[..6];
  }

  /** The fourth- and fifth-floor rooms belong to "Morning GH" only. */
  lemma UpperFloorsMorningOnly()
    ensures forall k :: 0 <= k < |After11Rooms| ==> After11Rooms[k][3] == '1'
    ensures forall k :: 6 <= k < |MorningRooms| ==>
              (MorningRooms[k][3] == '4' || MorningRooms[k][3] == '5') && MorningRooms[k] !in After11Rooms
  {
    forall k | 6 <= k < |MorningRooms|
      ensures MorningRooms[k] !in After11Rooms
    {
      assert forall j :: 0 <= j < |After11Rooms| ==> After11Rooms[j][3] != MorningRooms[k][3];
    }
  }

  /** With this configuration the hour alone decides which shift can
      match: "Morning GH" from 7 to 10, "after 11" from 11 to 14, none
      otherwise. */
  lemma ShiftDecidedByHour(d: DateTime, room: string)
    ensures var r := FindMatchingShift(d, room, Some(Shifts));
      && (7 <= HourOfDay(d) < 11 ==> r == (if RoomMatches(room, MorningGH) then Some(MorningGH) else None))
      && (11 <= HourOfDay(d) < 15 ==> r == (if RoomMatches(room, After11) then Some(After11) else None))
      && (HourOfDay(d) < 7 || HourOfDay(d) >= 15 ==> r.None?)
  {
    var h := HourOfDay(d);
    assert Shifts[0] == MorningGH && Shifts[1] == After11;
    assert Shifts[1..] == [After11];
  }

  /** The configured limits: the test variant inspects at most ten rows,
      and the operator name is non-empty and already trimmed, so the
      assignment step fills it in unchanged. */
  lemma ConfiguredLimits(rowCount: nat)
    ensures EffectiveTestCap(MaxRowsInTest) == 10
    ensures ScanLimit(rowCount, EffectiveTestCap(MaxRowsInTest)) == (if rowCount < 10 then rowCount else 10)
    ensures OperatorName != [] && Trim(OperatorName) == OperatorName
  {
    assert OperatorName[0] == 'A' && OperatorName[|OperatorName| - 1] == 'h';
    TrimOfTrimmed(OperatorName);
  }

  /** The label occurs at the very start of the room. */
  lemma LabelAtStart(room: string, lbl: string)
    requires lbl != [] && |lbl| <= |room| && room[..|lbl|] == lbl
    ensures LabelMatches(room, lbl)
  {
    LowerSlice(room, 0, |lbl|);
    assert OccursAt(Lower(room), Lower(lbl), 0);
  }

  /** 08:15 in "GH 1110 Annex" is a "Morning GH" event. */
  lemma MorningExample()
    ensures FindMatchingShift(DateTime(2026, 9, 10, 8, 15, 0), "GH 1110 Annex", Some(Shifts)) == Some(MorningGH)
  {
    var room := "GH 1110 Annex";
    LabelAtStart(room, MorningRooms[0]);
    assert RoomMatches(room, MorningGH);
    ShiftDecidedByHour(DateTime(2026, 9, 10, 8, 15, 0), room);
  }

  /** 11:00 in "GH 1110" is an "after 11" event: the morning window has
      closed. */
  lemma After11Example()
    ensures FindMatchingShift(DateTime(2026, 9, 10, 11, 0, 0), "GH 1110", Some(Shifts)) == Some(After11)
  {
    var room := "GH 1110";
    LabelAtStart(room, After11Rooms[0]);
    assert RoomMatches(room, After11);
    ShiftDecidedByHour(DateTime(2026, 9, 10, 11, 0, 0), room);
  }

  /** 12:00 in "GH 4101" matches nothing: the room is a morning-only room. */
  lemma NoonExample()
    ensures FindMatchingShift(DateTime(2026, 9, 10, 12, 0, 0), "GH 4101", Some(Shifts)).None?
  {
    var room := "GH 4101";
    forall k | 0 <= k < |After11Rooms|
      ensures !LabelMatches(room, After11Rooms[k])
    {
      var lbl := After11Rooms[k];
      LabelLengths(room, lbl);
      if |lbl| == |room| {
        assert Lower(room)[3] == '4' && Lower(lbl)[3] == '1';
      }
    }
    assert !RoomMatches(room, After11);
    ShiftDecidedByHour(DateTime(2026, 9, 10, 12, 0, 0), room);
  }
}
