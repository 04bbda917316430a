/** The room scanner: the leftmost case-insensitive match of
    GH\s?[A-Z0-9& ]+ in the row text, trimmed. */
module Rooms {
  import opened Text

  /** [A-Z0-9& ] under the /i flag: letters of either case, digits,
      ampersand and the plain space. */
  predicate RoomChar(c: char) {
    IsUpper(c) || IsLower(c) || IsDigit(c) || c == '&' || c == ' '
  }

  /** Case-insensitive "GH" at position i. */
  predicate GhAt(t: string, i: nat) {
    i + 2 <= |t| && LowerChar(t[i]) == 'g' && LowerChar(t[i + 1]) == 'h'
  }

  /** End of the maximal run of room characters starting at i. */
  function RunEnd(t: string, i: nat): (e: nat)
    requires i <= |t|
    decreases |t| - i
    ensures i <= e <= |t|
    ensures forall k :: i <= k < e ==> RoomChar(t[k])
    ensures e == |t| || !RoomChar(t[e])
  {
    if i < |t| && RoomChar(t[i]) then RunEnd(t, i + 1) else i
  }

  /** Where a match starting at i ends, or None when none starts there.
      \s? is greedy: a whitespace after GH is taken when a room character
      follows it; otherwise the engine backtracks and the run must start
      right after GH. */
  function RoomMatchEnd(t: string, i: nat): (e: Option<nat>)
    ensures e.Some? ==> GhAt(t, i) && i + 3 <= e.value <= |t|
    ensures e.Some? ==> forall k :: i + 3 <= k < e.value ==> RoomChar(t[k])
    ensures e.Some? ==> e.value == |t| || !RoomChar(t[e.value])
    ensures e.None? <==> !GhAt(t, i) || i + 2 >= |t|
                         || (!RoomChar(t[i + 2]) && !(IsSpace(t[i + 2]) && i + 3 < |t| && RoomChar(t[i + 3])))
  {
    if !GhAt(t, i) || i + 2 >= |t| then None
    else if IsSpace(t[i + 2]) && i + 3 < |t| && RoomChar(t[i + 3]) then Some(RunEnd(t, i + 3))
    else if RoomChar(t[i + 2]) then Some(RunEnd(t, i + 2))
    else None
  }

  /** The leftmost match at or after from, as (start, end). */
  function FirstRoomMatch(t: string, from: nat): (r: Option<(nat, nat)>)
    decreases |t| - from
    ensures r.Some? ==> from <= r.value.0 && RoomMatchEnd(t, r.value.0) == Some(r.value.1)
    ensures r.Some? ==> forall j :: from <= j < r.value.0 ==> RoomMatchEnd(t, j).None?
    ensures r.None? ==> forall j :: from <= j ==> RoomMatchEnd(t, j).None?
  {
    if from >= |t| then None
    else
      match RoomMatchEnd(t, from)
      case Some(e) => Some((from, e))
      case None => FirstRoomMatch(t, from + 1)
  }

  /** parseRoom: the trimmed leftmost match, or null. */
  function ParseRoom(rowText: string): (room: Option<string>)
    ensures room.None? <==> forall j :: 0 <= j ==> RoomMatchEnd(rowText, j).None?
    ensures room.Some? ==> |room.value| >= 2 && GhAt(room.value, 0)
  {
    match FirstRoomMatch(rowText, 0)
    case None => None
    case Some((s, e)) =>
      var m := rowText[s..e];
      assert m[0] == rowText[s] && m[1] == rowText[s + 1];
      Some(TrimMatch(m))
  }

  /** The trimmed match text; its leading GH survives trimming. */
  function TrimMatch(m: string): (r: string)
    requires GhAt(m, 0)
    ensures |r| >= 2 && GhAt(r, 0)
    ensures |r| <= |m| && r == m[..|r|]
  {
    TrimKeepsGh(m);
    Trim(m)
  }

  /** Trimming a match keeps its leading GH. */
  lemma TrimKeepsGh(m: string)
    requires GhAt(m, 0)
    ensures |Trim(m)| >= 2 && GhAt(Trim(m), 0)
    ensures TrimOffset(m) == 0
  {
    assert !IsSpace(m[0]) && !IsSpace(m[1]);
    assert TrimStart(m) == m;
    var r := TrimEnd(m);
    assert |r| >= 2;
    assert r[0] == m[0] && r[1] == m[1];
  }

  lemma {:induction false} RunToEnd(t: string, i: nat)
    requires i <= |t|
    requires forall k :: i <= k < |t| ==> RoomChar(t[k])
    ensures RunEnd(t, i) == |t|
    decreases |t| - i
  {
    if i < |t| {
      RunToEnd(t, i + 1);
    }
  }

  // ---------------------------------------------------------------------------
  // Properties

  /** The room is the trimmed text of the leftmost match. */
  lemma ParseRoomIsLeftmost(rowText: string)
    ensures ParseRoom(rowText).Some? ==>
              exists s: nat, e: nat :: s <= e <= |rowText| && RoomMatchEnd(rowText, s) == Some(e)
                && (forall j :: 0 <= j < s ==> RoomMatchEnd(rowText, j).None?)
                && ParseRoom(rowText).value == Trim(rowText[s..e])
  {
    match FirstRoomMatch(rowText, 0)
    case None =>
    case Some((s, e)) =>
      assert ParseRoom(rowText) == Some(Trim(rowText[s..e]));
  }

  /** The trimmed room is the match with its trailing spaces removed: it
      starts where the match starts and is a slice of the row text. */
  lemma ParseRoomIsSlice(rowText: string)
    requires ParseRoom(rowText).Some?
    ensures exists s: nat, e: nat :: s <= e <= |rowText| && ParseRoom(rowText).value == rowText[s..e]
  {
    var (s, e) := FirstRoomMatch(rowText, 0).value;
    var r := TrimMatch(rowText[s..e]);
    assert r == rowText[s..s + |r|];
  }

  /** A room of more than the two letters GH is a fixpoint of the scanner. */
  lemma ParseRoomIdempotent(room: string)
    requires |room| > 2 && GhAt(room, 0)
    requires forall k :: 3 <= k < |room| ==> RoomChar(room[k])
    requires RoomChar(room[2]) || (IsSpace(room[2]) && |room| > 3 && RoomChar(room[3]))
    requires !IsSpace(room[|room| - 1])
    ensures ParseRoom(room) == Some(room)
  {
    RunToEnd(room, 3);
    if RoomChar(room[2]) {
      assert RunEnd(room, 2) == RunEnd(room, 3);
    }
    assert RoomMatchEnd(room, 0) == Some(|room|);
    assert room[0..|room|] == room;
    TrimOfTrimmed(room);
  }

  /** Positions holding no letter g start no match. */
  lemma {:induction false} SkipNoG(t: string, from: nat, p: nat)
    requires from <= p
    requires forall j :: from <= j < p && j < |t| ==> LowerChar(t[j]) != 'g'
    ensures FirstRoomMatch(t, from) == FirstRoomMatch(t, p)
    decreases p - from
  {
    if from < p && from < |t| {
      SkipNoG(t, from + 1, p);
    }
  }

  /** A room label embedded in text with no g before it, and followed by
      plain spaces and then end of text or a character outside the room
      class, is what the scanner returns, without those spaces. */
  lemma RoomInContext(pre: string, room: string, pad: string, post: string)
    requires forall j :: 0 <= j < |pre| ==> LowerChar(pre[j]) != 'g'
    requires |room| > 2 && GhAt(room, 0)
    requires forall k :: 3 <= k < |room| ==> RoomChar(room[k])
    requires RoomChar(room[2]) || (IsSpace(room[2]) && |room| > 3 && RoomChar(room[3]))
    requires !IsSpace(room[|room| - 1])
    requires forall k :: 0 <= k < |pad| ==> pad[k] == ' '
    requires post == [] || !RoomChar(post[0])
    ensures ParseRoom(pre + room + pad + post) == Some(room)
  {
    var m := room + pad;
    assert pre + room + pad + post == pre + m + post;
    PaddedRoomShape(room, pad);
    MatchInContext(pre, m, post);
    TrimTrailing(room, pad);
  }

  lemma PaddedRoomShape(room: string, pad: string)
    requires |room| > 2 && GhAt(room, 0)
    requires forall k :: 3 <= k < |room| ==> RoomChar(room[k])
    requires RoomChar(room[2]) || (IsSpace(room[2]) && |room| > 3 && RoomChar(room[3]))
    requires forall k :: 0 <= k < |pad| ==> pad[k] == ' '
    ensures var m := room + pad;
      |m| > 2 && GhAt(m, 0)
      && (forall k :: 3 <= k < |m| ==> RoomChar(m[k]))
      && (RoomChar(m[2]) || (IsSpace(m[2]) && |m| > 3 && RoomChar(m[3])))
  {
    var m := room + pad;
    assert m[0] == room[0] && m[1] == room[1] && m[2] == room[2];
    if !RoomChar(room[2]) { assert m[3] == room[3]; }
    forall k | 3 <= k < |m|
      ensures RoomChar(m[k])
    {
      if k < |room| { assert m[k] == room[k]; } else { assert m[k] == pad[k - |room|]; }
    }
  }

  /** The scanner's match for a match text m placed after a g-free prefix. */
  lemma MatchInContext(pre: string, m: string, post: string)
    requires forall j :: 0 <= j < |pre| ==> LowerChar(pre[j]) != 'g'
    requires |m| > 2 && GhAt(m, 0)
    requires forall k :: 3 <= k < |m| ==> RoomChar(m[k])
    requires RoomChar(m[2]) || (IsSpace(m[2]) && |m| > 3 && RoomChar(m[3]))
    requires post == [] || !RoomChar(post[0])
    ensures ParseRoom(pre + m + post) == Some(Trim(m))
  {
    var t := pre + m + post;
    var p, q := |pre|, |pre| + |m|;
    EmbeddedShape(pre, m, post);
    SkipNoG(t, 0, p);
    MatchAt(t, p, q);
    assert t[p..q] == m;
  }

  /** The facts about m and its neighbours, read off the whole text. */
  lemma EmbeddedShape(pre: string, m: string, post: string)
    requires forall j :: 0 <= j < |pre| ==> LowerChar(pre[j]) != 'g'
    requires |m| > 2 && GhAt(m, 0)
    requires forall k :: 3 <= k < |m| ==> RoomChar(m[k])
    requires RoomChar(m[2]) || (IsSpace(m[2]) && |m| > 3 && RoomChar(m[3]))
    requires post == [] || !RoomChar(post[0])
    ensures var t, p, q := pre + m + post, |pre|, |pre| + |m|;
      && (forall j :: 0 <= j < p && j < |t| ==> LowerChar(t[j]) != 'g')
      && GhAt(t, p)
      && (forall k :: p + 3 <= k < q ==> RoomChar(t[k]))
      && (q == |t| || !RoomChar(t[q]))
      && (RoomChar(t[p + 2]) || (IsSpace(t[p + 2]) && p + 3 < q && RoomChar(t[p + 3])))
  {
    var t := pre + m + post;
    var p, q := |pre|, |pre| + |m|;
    forall j | 0 <= j < p && j < |t|
      ensures LowerChar(t[j]) != 'g'
    {
      assert t[j] == pre[j];
    }
    assert t[p] == m[0] && t[p + 1] == m[1] && t[p + 2] == m[2];
    forall k | p + 3 <= k < q
      ensures RoomChar(t[k])
    {
      assert t[k] == m[k - p];
    }
    if q < |t| { assert t[q] == post[0]; }
    if !RoomChar(m[2]) { assert t[p + 3] == m[3]; }
  }

  /** A GH at p followed by room characters up to q, and by no room
      character at q, is a match from p to q. */
  lemma MatchAt(t: string, p: nat, q: nat)
    requires p + 3 <= q <= |t| && GhAt(t, p)
    requires forall k :: p + 3 <= k < q ==> RoomChar(t[k])
    requires q == |t| || !RoomChar(t[q])
    requires RoomChar(t[p + 2]) || (IsSpace(t[p + 2]) && p + 3 < q && RoomChar(t[p + 3]))
    ensures RoomMatchEnd(t, p) == Some(q)
  {
    RunStops(t, p + 3, q);
    if RoomChar(t[p + 2]) {
      RunStops(t, p + 2, q);
    }
  }

  lemma {:induction false} RunStops(t: string, i: nat, q: nat)
    requires i <= q <= |t|
    requires forall k :: i <= k < q ==> RoomChar(t[k])
    requires q == |t| || !RoomChar(t[q])
    ensures RunEnd(t, i) == q
    decreases q - i
  {
    if i < q {
      RunStops(t, i + 1, q);
    }
  }

  /** A worked example: the room in a typical list row. */
  lemma RoomExample()
    ensures ParseRoom("Room: GH 1420&30 (Lecture)") == Some("GH 1420&30")
  {
    var pre, room, post := "Room: ", "GH 1420&30", "(Lecture)";
    assert pre + room + " " + post == "Room: GH 1420&30 (Lecture)";
    assert forall j :: 0 <= j < |pre| ==> LowerChar(pre[j]) != 'g';
    assert RoomChar(room[2]) && !IsSpace(room[|room| - 1]);
    assert forall k :: 3 <= k < |room| ==> RoomChar(room[k]);
    RoomInContext(pre, room, " ", post);
  }

  /** The match may begin inside a word: the gh of "Knight" starts it, so
      the room read is "ght GH 1110" rather than "GH 1110". */
  lemma KnightExample()
    ensures ParseRoom("Knight GH 1110") == Some("ght GH 1110")
  {
    var pre, room := "Kni", "ght GH 1110";
    assert pre + room + [] + [] == "Knight GH 1110";
    assert forall j :: 0 <= j < |pre| ==> LowerChar(pre[j]) != 'g';
    assert RoomChar(room[2]) && !IsSpace(room[|room| - 1]);
    assert forall k :: 3 <= k < |room| ==> RoomChar(room[k]);
    RoomInContext(pre, room, [], []);
  }

  /** GH followed by a space and no room character yields the bare "GH". */
  lemma BareGh()
    ensures ParseRoom("GH .") == Some("GH")
  {
    var t := "GH .";
    assert RunEnd(t, 2) == 3;
    assert RoomMatchEnd(t, 0) == Some(3);
    assert t[0..3] == "GH ";
    TrimAround([], "GH", " ");
    assert [] + "GH" + " " == "GH ";
  }
}
