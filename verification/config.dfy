/** The operator's configuration: the name entered on tickets, the two
    shifts and the logging limits. */
module Config {
  import opened Text
  import opened ShiftMatching

  const OperatorName: string := "Atticus Deutsch"

  const MorningRooms: seq<string> := [
    "GH 1110", "GH 1120", "GH 1130", "GH 1420", "GH 1430", "GH 1420&30",
    "GH 4101", "GH 4301", "GH 4302", "GH 5101", "GH 5201", "GH 5301"
  ]

  const After11Rooms: seq<string> := [
    "GH 1110", "GH 1120", "GH 1130", "GH 1420", "GH 1430", "GH 1420&30"
  ]

  const MorningGH: Shift := Shift("Morning GH", Some(7), Some(11), Some(MorningRooms))

  const After11: Shift := Shift("after 11", Some(11), Some(15), Some(After11Rooms))

  const Shifts: seq<Shift> := [MorningGH, After11]

  /** logging.maxRows */
  const MaxRows: int := 25

  /** logging.maxRowsInTest */
  const MaxRowsInTest: Option<int> := Some(10)
}
