/** The incident-description parser: finds the "[Resources]" block of a
    ticket description, splits it on '|' and keeps, for every entry that
    starts with one of four known resource prefixes, exactly that prefix. */
module DescriptionParser {
  import opened Text

  /** The block markers, matched case-insensitively: each key is the
      lower-cased marker and is compared with the lower-cased text. */
  const ResourcesMarker: string := "[Resources]"
  const ReservationMarker: string := "[ReservationID]"
  const ResourcesKey: string := "[resources]"
  const ReservationKey: string := "[reservationid]"

  /** The recognised resource kinds, in the order they are tried. */
  const KnownPrefixes: seq<string> := [
    "KSM-KGH-VIDEO-Recording (POST TO CANVAS)",
    "KSM-KGH-VIDEO-Recording (PRIVATE LINK)",
    "KSM-KGH-AV-Staff Assistance",
    "KSM-KGH-AV-Web Conference"
  ]

  datatype ParsedDescription = ParsedDescription(raw: string, resources: seq<string>)

  /** No listed prefix is a prefix of another one. */
  ghost predicate PrefixFree(ps: seq<string>) {
    forall i, j :: 0 <= i < |ps| && 0 <= j < |ps| && i != j ==> !IsPrefix(ps[i], ps[j])
  }

  // ---------------------------------------------------------------------------
  // Locating the block

  /** The whitespace run starting at i ends at the returned index. */
  function SkipSpaces(t: string, i: nat): (j: nat)
    requires i <= |t|
    decreases |t| - i
    ensures i <= j <= |t|
    ensures forall k :: i <= k < j ==> IsSpace(t[k])
    ensures j == |t| || !IsSpace(t[j])
  {
    if i < |t| && IsSpace(t[i]) then SkipSpaces(t, i + 1) else i
  }

  /** Bounds of the capture group of
      /\[Resources\]\s*([\s\S]*?)(?=\[ReservationID\]|$)/i: it starts after
      the leftmost marker and its whitespace and stops before the first
      "[ReservationID]" from there on, or at the end of the text. */
  function BlockBounds(text: string): (r: Option<(nat, nat)>)
    ensures r.None? <==> forall i :: !OccursAt(Lower(text), ResourcesKey, i)
    ensures r.Some? ==> r.value.0 <= r.value.1 <= |text|
    ensures r.Some? ==> r.value.1 == |text| || OccursAt(Lower(text), ReservationKey, r.value.1)
    ensures r.Some? ==> forall j :: r.value.0 <= j < r.value.1 ==> !OccursAt(Lower(text), ReservationKey, j)
    ensures r.Some? ==> r.value.0 == |text| || !IsSpace(text[r.value.0])
  {
    var marker := FindFrom(Lower(text), ResourcesKey, 0);
    if marker.None? then None
    else
      var s := SkipSpaces(text, marker.value + |ResourcesKey|);
      var stop := FindFrom(Lower(text), ReservationKey, s);
      Some((s, if stop.Some? then stop.value else |text|))
  }

  /** The block starts after the leftmost marker and the whitespace that
      follows it. */
  lemma BlockAfterLeftmostMarker(text: string)
    ensures BlockBounds(text).Some? ==>
              exists m: nat :: m + |ResourcesKey| <= |text| && OccursAt(Lower(text), ResourcesKey, m)
                && (forall j :: 0 <= j < m ==> !OccursAt(Lower(text), ResourcesKey, j))
                && BlockBounds(text).value.0 == SkipSpaces(text, m + |ResourcesKey|)
  {
    var found := FindFrom(Lower(text), ResourcesKey, 0);
    if found.Some? {
      var m := found.value;
      assert BlockBounds(text).value.0 == SkipSpaces(text, m + |ResourcesKey|);
    }
  }

  /** A resource entry: non-empty and already trimmed. */
  predicate IsEntry(e: string) {
    e != [] && !IsSpace(e[0]) && !IsSpace(e[|e| - 1])
  }

  /** extractResources: the trimmed, non-empty '|'-separated entries of the
      block, in order; no entry contains the separator. */
  function ExtractResources(text: string): (entries: seq<string>)
    ensures BlockBounds(text).None? ==> entries == []
    ensures forall k :: 0 <= k < |entries| ==> IsEntry(entries[k]) && '|' !in entries[k]
  {
    match BlockBounds(text)
    case None => []
    case Some((s, e)) =>
      var block := Trim(text[s..e]);
      if block == [] then []
      else
        SeparatorNeverSurvives(Split(block, '|'));
        NonEmptyEntries(Split(block, '|'))
  }

  /** .map(entry => entry.trim()).filter(entry => entry.length > 0) */
  function NonEmptyEntries(parts: seq<string>): (entries: seq<string>)
    ensures |entries| <= |parts|
    ensures forall k :: 0 <= k < |entries| ==> IsEntry(entries[k])
  {
    if parts == [] then []
    else
      var e := Trim(parts[0]);
      var rest := NonEmptyEntries(parts[1..]);
      if e == [] then rest else EntriesCons(e, rest); [e] + rest
  }

  /** Each part, trimmed. */
  function TrimmedParts(parts: seq<string>): (ts: seq<string>)
    ensures |ts| == |parts|
  {
    if parts == [] then [] else [Trim(parts[0])] + TrimmedParts(parts[1..])
  }

  /** The entries are exactly the trimmed parts that are not empty. */
  lemma {:induction false} EntriesAreTrimmedParts(parts: seq<string>)
    ensures forall x :: x in NonEmptyEntries(parts) <==> x in TrimmedParts(parts) && x != []
  {
    if parts != [] {
      EntriesAreTrimmedParts(parts[1..]);
      var t := Trim(parts[0]);
      assert TrimmedParts(parts) == [t] + TrimmedParts(parts[1..]);
      if t != [] {
        assert NonEmptyEntries(parts) == [t] + NonEmptyEntries(parts[1..]);
      } else {
        assert NonEmptyEntries(parts) == NonEmptyEntries(parts[1..]);
      }
    }
  }

  lemma EntriesCons(e: string, rest: seq<string>)
    requires IsEntry(e) && forall k :: 0 <= k < |rest| ==> IsEntry(rest[k])
    ensures forall k :: 0 <= k < |[e] + rest| ==> IsEntry(([e] + rest)[k])
  {
  }

  /** Trimming a part cannot introduce the separator. */
  lemma TrimKeepsOut(part: string, c: char)
    requires c !in part
    ensures c !in Trim(part)
  {
    var e := Trim(part);
    var a := TrimOffset(part);
    forall k | 0 <= k < |e|
      ensures e[k] != c
    {
      assert e[k] == part[a + k];
      assert part[a + k] in part;
    }
  }

  lemma {:induction false} SeparatorNeverSurvives(parts: seq<string>)
    requires forall k :: 0 <= k < |parts| ==> '|' !in parts[k]
    ensures forall k :: 0 <= k < |NonEmptyEntries(parts)| ==> '|' !in NonEmptyEntries(parts)[k]
  {
    if parts != [] {
      var rest := NonEmptyEntries(parts[1..]);
      SeparatorNeverSurvives(parts[1..]);
      var t := Trim(parts[0]);
      if t != [] {
        TrimKeepsOut(parts[0], '|');
        assert NonEmptyEntries(parts) == [t] + rest;
        forall k | 0 <= k < |[t] + rest|
          ensures '|' !in ([t] + rest)[k]
        {
          if k > 0 {
            assert ([t] + rest)[k] == rest[k - 1];
          }
        }
      } else {
        assert NonEmptyEntries(parts) == rest;
      }
    }
  }

  // ---------------------------------------------------------------------------
  // Normalising one entry

  /** Index of the first prefix in ps, in list order, that s starts with. */
  function FirstPrefixIndex(ps: seq<string>, s: string): (r: Option<nat>)
    ensures r.Some? ==> r.value < |ps| && IsPrefix(ps[r.value], s)
    ensures r.Some? ==> forall j :: 0 <= j < r.value ==> !IsPrefix(ps[j], s)
    ensures r.None? <==> forall j :: 0 <= j < |ps| ==> !IsPrefix(ps[j], s)
  {
    FirstWhere(ps, (p: string) => IsPrefix(p, s))
  }

  /** normalizeResource: the first known prefix the entry starts with
      (case-sensitively), with the rest of the entry discarded; None when no
      prefix fits. */
  function NormalizeResource(resource: string): (r: Option<string>)
    ensures r.Some? ==> r.value in KnownPrefixes && IsPrefix(r.value, resource)
    ensures r.None? <==> forall p :: p in KnownPrefixes ==> !IsPrefix(p, resource)
    ensures r.Some? ==> exists i :: 0 <= i < |KnownPrefixes| && r.value == KnownPrefixes[i]
                          && forall j :: 0 <= j < i ==> !IsPrefix(KnownPrefixes[j], resource)
  {
    match FirstPrefixIndex(KnownPrefixes, resource)
    case None => None
    case Some(i) => Some(KnownPrefixes[i])
  }

  /** .map(normalizeResource).filter(Boolean) */
  function NormalizeAll(entries: seq<string>): (rs: seq<string>)
    ensures |rs| <= |entries|
    ensures forall k :: 0 <= k < |rs| ==> rs[k] in KnownPrefixes
  {
    if entries == [] then []
    else
      match NormalizeResource(entries[0])
      case None => NormalizeAll(entries[1..])
      case Some(p) => [p] + NormalizeAll(entries[1..])
  }

  /** parseIncidentDescription: null, undefined and "" all read as "". */
  function ParseIncidentDescription(description: Option<string>): (d: ParsedDescription)
    ensures d.raw == Trim(description.GetOr(""))
    ensures forall k :: 0 <= k < |d.resources| ==> d.resources[k] in KnownPrefixes
    ensures |d.resources| <= |ExtractResources(d.raw)|
    ensures d.resources == NormalizeAll(ExtractResources(d.raw))
  {
    var normalized := Trim(description.GetOr(""));
    ParsedDescription(normalized, NormalizeAll(ExtractResources(normalized)))
  }

  // ---------------------------------------------------------------------------
  // Properties

  lemma KnownPrefixesPrefixFree()
    ensures PrefixFree(KnownPrefixes)
  {
    var p0, p1, p2, p3 := KnownPrefixes[0], KnownPrefixes[1], KnownPrefixes[2], KnownPrefixes[3];
    assert p0[25] == 'P' && p1[25] == 'P' && p0[26] == 'O' && p1[26] == 'R';
    assert p2[11] == 'S' && p3[11] == 'W';
    assert p0[8] == 'V' && p2[8] == 'A' && p3[8] == 'A' && p1[8] == 'V';
  }

  /** Two prefixes of one string: the shorter is a prefix of the longer. */
  lemma SharedPrefixes(p: string, q: string, s: string)
    requires IsPrefix(q, s)
    ensures IsPrefix(p, s) ==> IsPrefix(p, q) || IsPrefix(q, p)
  {
    if IsPrefix(p, s) {
      if |p| <= |q| {
        assert q[..|p|] == s[..|p|];
      } else {
        assert p[..|q|] == s[..|q|];
      }
    }
  }

  /** Prefix matching clips: a known prefix followed by anything normalises
      to that prefix. */
  lemma NormalizeClips(i: nat, suffix: string)
    requires i < |KnownPrefixes|
    ensures NormalizeResource(KnownPrefixes[i] + suffix) == Some(KnownPrefixes[i])
  {
    KnownPrefixesPrefixFree();
    var s := KnownPrefixes[i] + suffix;
    assert IsPrefix(KnownPrefixes[i], s);
    forall j | 0 <= j < |KnownPrefixes| && j != i
      ensures !IsPrefix(KnownPrefixes[j], s)
    {
      SharedPrefixes(KnownPrefixes[j], KnownPrefixes[i], s);
    }
    var r := FirstPrefixIndex(KnownPrefixes, s);
    assert r == Some(i);
  }

  /** normalizeResource is idempotent: its result normalises to itself. */
  lemma NormalizeIdempotent(resource: string)
    requires NormalizeResource(resource).Some?
    ensures NormalizeResource(NormalizeResource(resource).value) == NormalizeResource(resource)
  {
    var p := NormalizeResource(resource).value;
    var i :| 0 <= i < |KnownPrefixes| && KnownPrefixes[i] == p;
    NormalizeClips(i, []);
    assert KnownPrefixes[i] + [] == p;
  }

  /** Order and duplicates are kept: normalising a concatenation is the
      concatenation of the normalised parts. */
  lemma {:induction false} NormalizeAllAppend(a: seq<string>, b: seq<string>)
    ensures NormalizeAll(a + b) == NormalizeAll(a) + NormalizeAll(b)
  {
    if a != [] {
      assert (a + b)[0] == a[0];
      assert (a + b)[1..] == a[1..] + b;
      NormalizeAllAppend(a[1..], b);
    } else {
      assert a + b == b;
    }
  }

  /** Normalising the already-normalised list changes nothing. */
  lemma {:induction false} NormalizeAllIdempotent(entries: seq<string>)
    ensures NormalizeAll(NormalizeAll(entries)) == NormalizeAll(entries)
  {
    if entries != [] {
      NormalizeAllIdempotent(entries[1..]);
      match NormalizeResource(entries[0])
      case None =>
      case Some(p) =>
        NormalizeIdempotent(entries[0]);
        var rest := NormalizeAll(entries[1..]);
        assert ([p] + rest)[0] == p && ([p] + rest)[1..] == rest;
    }
  }

  /** Without a "[Resources]" marker (in any letter case) nothing is found. */
  lemma NoMarkerNoResources(description: Option<string>)
    requires forall i :: !OccursAt(Lower(Trim(description.GetOr(""))), ResourcesKey, i)
    ensures ParseIncidentDescription(description).resources == []
  {
    assert BlockBounds(Trim(description.GetOr(""))).None?;
  }

  /** A missing or empty description parses to an empty record. */
  lemma EmptyDescription(description: Option<string>)
    requires description.None? || description == Some("")
    ensures ParseIncidentDescription(description) == ParsedDescription("", [])
  {
    var raw := description.GetOr("");
    assert raw == [] && Trim(raw) == [];
    assert |Lower(Trim(raw))| == 0;
    NoMarkerNoResources(description);
  }

  lemma {:induction false} SkipSpacesStops(u: string, b: string, i: nat, p: nat)
    requires i <= p < |u| && !IsSpace(u[p])
    ensures SkipSpaces(u + b, i) == SkipSpaces(u, i) <= p
    decreases p - i
  {
    assert (u + b)[i] == u[i];
    if IsSpace(u[i]) {
      SkipSpacesStops(u, b, i + 1, p);
    }
  }

  lemma FindLowerExtend(a: string, b: string, key: string, from: nat)
    requires FindFrom(Lower(a), key, from).Some?
    ensures FindFrom(Lower(a + b), key, from) == FindFrom(Lower(a), key, from)
  {
    LowerAppend(a, b);
    FindFromExtend(Lower(a), Lower(b), key, from);
  }

  lemma MarkerKeys()
    ensures Lower(ResourcesMarker) == ResourcesKey
    ensures Lower(ReservationMarker) == ReservationKey
  {
  }

  /** Text after the first "[ReservationID]" (in any letter case) that
      follows the marker never contributes a resource. */
  lemma TextAfterReservationIgnored(a: string, rid: string, b: string)
    requires FindFrom(Lower(a), ResourcesKey, 0).Some?
    requires Lower(rid) == ReservationKey
    ensures ExtractResources(a + rid + b) == ExtractResources(a + rid)
  {
    var s, e := BoundsIgnoreTail(a, rid, b);
    assert (a + rid + b)[s..e] == (a + rid)[s..e];
    SameBlockSameResources(a + rid + b, a + rid);
  }

  /** BlockBounds once both searches are known. */
  lemma BoundsFromSearches(text: string, m: nat, e: nat)
    requires FindFrom(Lower(text), ResourcesKey, 0) == Some(m)
    requires FindFrom(Lower(text), ReservationKey, SkipSpaces(text, m + |ResourcesKey|)) == Some(e)
    ensures BlockBounds(text) == Some((SkipSpaces(text, m + |ResourcesKey|), e))
  {
  }

  lemma PairOf(r: Option<(nat, nat)>, a: nat, b: nat)
    requires r.Some? && r.value.0 == a && r.value.1 == b
    ensures r == Some((a, b))
  {
  }

  /** BlockBounds when the second search finds nothing. */
  lemma BlockEndsAtEnd(text: string, m: nat, s: nat)
    requires FindFrom(Lower(text), ResourcesKey, 0) == Some(m)
    requires s == SkipSpaces(text, m + |ResourcesKey|)
    requires FindFrom(Lower(text), ReservationKey, s).None?
    ensures BlockBounds(text).Some?
    ensures BlockBounds(text).value.0 == s
    ensures BlockBounds(text).value.1 == |text|
  {
  }

  /** The reservation marker at the end of u = a + rid. */
  lemma ReservationAtEnd(a: string, rid: string)
    requires Lower(rid) == ReservationKey
    ensures (a + rid)[|a|] == '['
    ensures OccursAt(Lower(a + rid), ReservationKey, |a|)
  {
    var u := a + rid;
    LowerAppend(a, rid);
    assert Lower(u)[|a|..|a| + |ReservationKey|] == Lower(rid);
    assert Lower(u)[|a|] == Lower(rid)[0] == '[';
  }

  lemma BoundsIgnoreTail(a: string, rid: string, b: string) returns (s: nat, e: nat)
    requires FindFrom(Lower(a), ResourcesKey, 0).Some?
    requires Lower(rid) == ReservationKey
    ensures s <= e <= |a + rid|
    ensures BlockBounds(a + rid + b) == BlockBounds(a + rid) == Some((s, e))
  {
    var u := a + rid;
    var t := u + b;
    var m := FindFrom(Lower(a), ResourcesKey, 0).value;
    FindLowerExtend(a, rid, ResourcesKey, 0);
    FindLowerExtend(u, b, ResourcesKey, 0);
    ReservationAtEnd(a, rid);
    SkipSpacesStops(u, b, m + |ResourcesKey|, |a|);
    s := SkipSpaces(u, m + |ResourcesKey|);
    var found := FindFrom(Lower(u), ReservationKey, s);
    assert found.Some?;
    e := found.value;
    FindLowerExtend(u, b, ReservationKey, s);
    BoundsFromSearches(u, m, e);
    BoundsFromSearches(t, m, e);
  }


  /** Resources depend only on the block the bounds select. */
  lemma SameBlockSameResources(t: string, u: string)
    requires BlockBounds(t) == BlockBounds(u)
    requires BlockBounds(t).Some? ==>
               t[BlockBounds(t).value.0..BlockBounds(t).value.1]
               == u[BlockBounds(t).value.0..BlockBounds(t).value.1]
    ensures ExtractResources(t) == ExtractResources(u)
  {
  }

  /** The whitespace run from i is exactly the n characters from i when the
      character after them is not whitespace. */
  lemma {:induction false} SkipSpacesOver(t: string, i: nat, n: nat)
    requires i + n <= |t|
    requires forall k :: i <= k < i + n ==> IsSpace(t[k])
    requires i + n == |t| || !IsSpace(t[i + n])
    ensures SkipSpaces(t, i) == i + n
    decreases n
  {
    if n > 0 {
      SkipSpacesOver(t, i + 1, n - 1);
    }
  }

  /** Neither key repeats its opening '[' further on, so an occurrence
      cannot straddle a boundary into a following one. */
  lemma KeysOpenOnce()
    ensures forall j :: 0 < j < |ResourcesKey| ==> ResourcesKey[j] != ResourcesKey[0]
    ensures forall j :: 0 < j < |ReservationKey| ==> ReservationKey[j] != ReservationKey[0]
  {
  }

  /** Only letters change under lower-casing, so a marker whose lower-cased
      form opens with '[' opens with '[' itself. */
  lemma MarkerOpens(marker: string, key: string)
    requires key != [] && key[0] == '['
    requires Lower(marker) == key
    ensures marker[0] == '['
  {
    assert LowerChar(marker[0]) == '[';
  }

  /** With no marker in pre, the leftmost marker of pre + marker + tail is
      the one right after pre. */
  lemma MarkerAfterClean(pre: string, marker: string, tail: string)
    requires Lower(marker) == ResourcesKey
    requires forall i :: !OccursAt(Lower(pre), ResourcesKey, i)
    ensures FindFrom(Lower(pre + marker + tail), ResourcesKey, 0) == Some(|pre|)
  {
    var y := marker + tail;
    assert pre + marker + tail == [] + pre + y;
    LowerAppend([], pre);
    LowerAppend([] + pre, y);
    LowerAppend(marker, tail);
    assert Lower(y)[..|ResourcesKey|] == ResourcesKey;
    KeysOpenOnce();
    FindAfterClean(Lower([]), Lower(pre), Lower(y), ResourcesKey);
  }

  /** Searching from the start of a body free of "[reservationid]" finds
      the reservation marker that opens y right after the body. */
  lemma ReservationAfterBody(p: string, body: string, y: string, s: nat, e: nat)
    requires IsPrefix(ReservationKey, Lower(y))
    requires forall i :: !OccursAt(Lower(body), ReservationKey, i)
    requires s == |p| && e == s + |body|
    ensures FindFrom(Lower(p + body + y), ReservationKey, s) == Some(e)
  {
    LowerAppend3(p, body, y);
    ReservationInLowered(Lower(p), Lower(body), Lower(y), s, e);
    SameSearch(Lower(p + body + y), Lower(p) + Lower(body) + Lower(y), ReservationKey, s);
  }

  /** ReservationAfterBody on the lower-cased pieces. */
  lemma ReservationInLowered(lp: string, lb: string, ly: string, s: nat, e: nat)
    requires IsPrefix(ReservationKey, ly)
    requires forall i :: !OccursAt(lb, ReservationKey, i)
    requires s == |lp| && e == s + |lb|
    ensures FindFrom(lp + lb + ly, ReservationKey, s) == Some(e)
  {
    KeysOpenOnce();
    FindAfterClean(lp, lb, ly, ReservationKey);
  }

  lemma LowerAppend3(a: string, b: string, c: string)
    ensures Lower(a + b + c) == Lower(a) + Lower(b) + Lower(c)
  {
    LowerAppend(a, b);
    LowerAppend(a + b, c);
  }

  lemma SameSearch(h1: string, h2: string, needle: string, from: nat)
    requires h1 == h2
    ensures FindFrom(h1, needle, from) == FindFrom(h2, needle, from)
  {
  }

  /** The same with the reservation marker rid and the text after it. */
  lemma ReservationAfterClean(p: string, body: string, rid: string, rest: string, s: nat, e: nat)
    requires Lower(rid) == ReservationKey
    requires forall i :: !OccursAt(Lower(body), ReservationKey, i)
    requires s == |p| && e == s + |body|
    ensures FindFrom(Lower(p + body + rid + rest), ReservationKey, s) == Some(e)
  {
    assert IsPrefix(ReservationKey, Lower(rid + rest)) by {
      LowerAppend(rid, rest);
      assert (Lower(rid) + Lower(rest))[..|ReservationKey|] == Lower(rid);
    }
    ReservationAfterBody(p, body, rid + rest, s, e);
    assert p + body + rid + rest == p + body + (rid + rest);
  }

  /** Searching from the start of a body free of "[reservationid]" that
      runs to the end of the text finds nothing. */
  lemma ReservationNowhere(p: string, body: string, s: nat)
    requires forall i :: !OccursAt(Lower(body), ReservationKey, i)
    requires s == |p|
    ensures FindFrom(Lower(p + body), ReservationKey, s).None?
  {
    LowerAppend(p, body);
    FindInClean(Lower(p), Lower(body), ReservationKey);
  }

  /** A blank block has no entries. */
  lemma NoEntriesOfEmpty()
    ensures NonEmptyEntries(Split([], '|')) == []
  {
    assert Split([], '|') == [[]];
  }

  /** The leftmost marker of pre + marker + ws + r is the one after pre. */
  lemma BlockMarker(pre: string, marker: string, ws: string, r: string)
    requires Lower(marker) == ResourcesKey
    requires forall i :: !OccursAt(Lower(pre), ResourcesKey, i)
    ensures FindFrom(Lower(pre + marker + ws + r), ResourcesKey, 0) == Some(|pre|)
  {
    MarkerAfterClean(pre, marker, ws + r);
    assert pre + marker + ws + r == pre + marker + (ws + r);
  }

  /** After the marker, the whitespace run ws is skipped and the block
      starts where r begins. */
  lemma BlockSkip(pre: string, marker: string, ws: string, r: string, s: nat)
    requires Lower(marker) == ResourcesKey
    requires forall k :: 0 <= k < |ws| ==> IsSpace(ws[k])
    requires r == [] || !IsSpace(r[0])
    requires s == |pre| + |marker| + |ws|
    ensures |pre| + |ResourcesKey| <= |pre + marker + ws + r|
    ensures SkipSpaces(pre + marker + ws + r, |pre| + |ResourcesKey|) == s
  {
    assert |marker| == |ResourcesKey|;
    SkipRun(pre + marker, ws, r);
  }

  /** Skipping from the end of h over a whitespace run ws stops where r,
      which does not open with whitespace, begins. */
  lemma SkipRun(h: string, ws: string, r: string)
    requires forall k :: 0 <= k < |ws| ==> IsSpace(ws[k])
    requires r == [] || !IsSpace(r[0])
    ensures SkipSpaces(h + ws + r, |h|) == |h| + |ws|
  {
    var t := h + ws + r;
    forall k | |h| <= k < |h| + |ws|
      ensures IsSpace(t[k])
    {
      assert t[k] == ws[k - |h|];
    }
    if r != [] {
      assert t[|h| + |ws|] == r[0];
    }
    SkipSpacesOver(t, |h|, |ws|);
  }

  /** extractResources on a description made of free text without the
      marker, the marker in any letter case, whitespace, a body and the
      reservation marker in any letter case: the block is exactly the body,
      whatever follows the reservation marker. */
  lemma ResourcesOfBlock(pre: string, marker: string, ws: string, body: string, rid: string, rest: string)
    requires Lower(marker) == ResourcesKey && Lower(rid) == ReservationKey
    requires forall i :: !OccursAt(Lower(pre), ResourcesKey, i)
    requires forall k :: 0 <= k < |ws| ==> IsSpace(ws[k])
    requires body == [] || !IsSpace(body[0])
    requires forall i :: !OccursAt(Lower(body), ReservationKey, i)
    ensures ExtractResources(pre + marker + ws + body + rid + rest) == NonEmptyEntries(Split(Trim(body), '|'))
  {
    var s := |pre| + |marker| + |ws|;
    var e := s + |body|;
    MarkerFacts(pre, marker, ws, body, rid, rest, s);
    ReservationAfterClean(pre + marker + ws, body, rid, rest, s, e);
    SliceAt(pre + marker + ws, body, rid, rest, s, e);
    ResourcesOfSearches(pre + marker + ws + body + rid + rest, |pre|, s, body, e);
  }

  /** The marker search and the whitespace skip in ResourcesOfBlock. */
  lemma MarkerFacts(pre: string, marker: string, ws: string, body: string, rid: string, rest: string, s: nat)
    requires Lower(marker) == ResourcesKey && Lower(rid) == ReservationKey
    requires forall i :: !OccursAt(Lower(pre), ResourcesKey, i)
    requires forall k :: 0 <= k < |ws| ==> IsSpace(ws[k])
    requires body == [] || !IsSpace(body[0])
    requires s == |pre| + |marker| + |ws|
    ensures FindFrom(Lower(pre + marker + ws + body + rid + rest), ResourcesKey, 0) == Some(|pre|)
    ensures SkipSpaces(pre + marker + ws + body + rid + rest, |pre| + |ResourcesKey|) == s
  {
    assert pre + marker + ws + body + rid + rest == pre + marker + ws + (body + (rid + rest));
    assert FindFrom(Lower(pre + marker + ws + (body + (rid + rest))), ResourcesKey, 0) == Some(|pre|) by {
      BlockMarker(pre, marker, ws, body + (rid + rest));
    }
    assert SkipSpaces(pre + marker + ws + (body + (rid + rest)), |pre| + |ResourcesKey|) == s by {
      OpensWithoutSpace(body, rid, rest);
      BlockSkip(pre, marker, ws, body + (rid + rest), s);
    }
  }

  lemma SliceAt(h: string, body: string, rid: string, rest: string, s: nat, e: nat)
    requires s == |h| && e == s + |body|
    ensures e <= |h + body + rid + rest|
    ensures (h + body + rid + rest)[s..e] == body
  {
    assert h + body + rid + rest == h + body + (rid + rest);
    SliceMiddle(h, body, rid + rest);
  }

  /** ExtractResources once the marker search, the whitespace skip and the
      reservation search are known to select body. */
  lemma ResourcesOfSearches(text: string, m: nat, s: nat, body: string, e: nat)
    requires e == s + |body| <= |text|
    requires FindFrom(Lower(text), ResourcesKey, 0) == Some(m)
    requires SkipSpaces(text, m + |ResourcesKey|) == s
    requires FindFrom(Lower(text), ReservationKey, s) == Some(e)
    requires text[s..e] == body
    ensures ExtractResources(text) == NonEmptyEntries(Split(Trim(body), '|'))
  {
    BoundsFromSearches(text, m, e);
    ResourcesOfBounds(text, s, e);
    if Trim(body) == [] {
      NoEntriesOfEmpty();
    }
  }

  lemma SliceMiddle(a: string, b: string, c: string)
    ensures (a + b + c)[|a|..|a| + |b|] == b
  {
  }

  lemma OpensWithoutSpace(body: string, rid: string, rest: string)
    requires Lower(rid) == ReservationKey
    requires body == [] || !IsSpace(body[0])
    ensures body + (rid + rest) != [] && !IsSpace((body + (rid + rest))[0])
  {
    MarkerOpens(rid, ReservationKey);
    assert (body + (rid + rest))[0] == if body == [] then rid[0] else body[0];
  }

  /** The same without a reservation marker: the block runs to the end of
      the text. */
  lemma ResourcesToEnd(pre: string, marker: string, ws: string, body: string)
    requires Lower(marker) == ResourcesKey
    requires forall i :: !OccursAt(Lower(pre), ResourcesKey, i)
    requires forall k :: 0 <= k < |ws| ==> IsSpace(ws[k])
    requires body == [] || !IsSpace(body[0])
    requires forall i :: !OccursAt(Lower(body), ReservationKey, i)
    ensures ExtractResources(pre + marker + ws + body) == NonEmptyEntries(Split(Trim(body), '|'))
  {
    var s := |pre| + |marker| + |ws|;
    BlockMarker(pre, marker, ws, body);
    BlockSkip(pre, marker, ws, body, s);
    ReservationNowhere(pre + marker + ws, body, s);
    SliceTail(pre + marker + ws, body, s);
    ResourcesOfSearchesToEnd(pre + marker + ws + body, |pre|, s, body);
  }

  lemma SliceTail(h: string, body: string, s: nat)
    requires s == |h|
    ensures s <= |h + body| && (h + body)[s..|h + body|] == body
  {
  }

  /** ExtractResources once the marker search and the whitespace skip are
      known and no reservation marker follows: the block is the rest. */
  lemma ResourcesOfSearchesToEnd(text: string, m: nat, s: nat, body: string)
    requires s <= |text|
    requires FindFrom(Lower(text), ResourcesKey, 0) == Some(m)
    requires SkipSpaces(text, m + |ResourcesKey|) == s
    requires FindFrom(Lower(text), ReservationKey, s).None?
    requires text[s..|text|] == body
    ensures ExtractResources(text) == NonEmptyEntries(Split(Trim(body), '|'))
  {
    BlockEndsAtEnd(text, m, s);
    ResourcesOfBoundParts(text, s, |text|);
    if Trim(body) == [] {
      NoEntriesOfEmpty();
    }
  }

  /** The three entries of the worked example. */
  const ExampleEntry1: string := KnownPrefixes[0] + " extra"
  const ExampleEntry2: string := KnownPrefixes[2] + " foo"
  const ExampleEntry3: string := "bogus-entry"
  const ExampleBody: string := ExampleEntry1 + " | " + ExampleEntry2 + " | " + ExampleEntry3

  /** The worked example, the description
      "[Resources] KSM-KGH-VIDEO-Recording (POST TO CANVAS) extra | KSM-KGH-AV-Staff Assistance foo | bogus-entry [ReservationID] 123",
      written as the concatenation of its pieces. */
  const ExampleDescription: string :=
    "[Resources] " + ExampleBody + " " + ReservationMarker + " 123"

  /** The block of a text that starts with the marker, one space, and a
      body free of '[' followed by whitespace and the reservation marker. */
  lemma LeadingBlock(body: string, pad: string, rid: string)
    requires body != [] && !IsSpace(body[0])
    requires '[' !in body
    requires forall i :: 0 <= i < |pad| ==> IsSpace(pad[i])
    requires Lower(rid) == ReservationKey
    ensures BlockBounds("[Resources] " + body + pad + rid)
         == Some((12, 12 + |body| + |pad|))
  {
    var a := "[Resources] " + body + pad;
    var u := a + rid;
    MarkerKeys();
    assert u[..11] == ResourcesMarker;
    LowerSlice(u, 0, 11);
    assert OccursAt(Lower(u), ResourcesKey, 0);
    assert FindFrom(Lower(u), ResourcesKey, 0) == Some(0);
    assert u[11] == ' ' && u[12] == body[0];
    assert SkipSpaces(u, 11) == 12;
    forall j | 12 <= j < |a| && j < |Lower(u)|
      ensures Lower(u)[j] != ReservationKey[0]
    {
      if j < 12 + |body| {
        assert u[j] == body[j - 12];
        assert body[j - 12] in body;
      } else {
        assert u[j] == pad[j - 12 - |body|];
      }
    }
    FindFromSkip(Lower(u), ReservationKey, 12, |a|);
    LowerAppend(a, rid);
    assert Lower(u)[|a|..|a| + |ReservationKey|] == ReservationKey;
  }

  /** ExtractResources once the block bounds are known. */
  lemma ResourcesOfBounds(text: string, s: nat, e: nat)
    requires BlockBounds(text) == Some((s, e))
    ensures ExtractResources(text)
         == if Trim(text[s..e]) == [] then [] else NonEmptyEntries(Split(Trim(text[s..e]), '|'))
  {
  }

  /** The same, from the two bounds separately. */
  lemma ResourcesOfBoundParts(text: string, s: nat, e: nat)
    requires BlockBounds(text).Some? && BlockBounds(text).value.0 == s && BlockBounds(text).value.1 == e
    ensures ExtractResources(text)
         == if Trim(text[s..e]) == [] then [] else NonEmptyEntries(Split(Trim(text[s..e]), '|'))
  {
    PairOf(BlockBounds(text), s, e);
    ResourcesOfBounds(text, s, e);
  }

  lemma PaddedBlockTrims(body: string, rid: string)
    requires body != [] && !IsSpace(body[0]) && !IsSpace(body[|body| - 1])
    ensures Trim(("[Resources] " + body + " " + rid)[12..12 + |body| + 1]) == body
  {
    assert ("[Resources] " + body + " " + rid)[12..12 + |body| + 1] == body + " ";
    TrimPadded(body);
  }

  /** A description made of the marker, a trimmed body free of '[', one
      space and the reservation marker yields the body's entries. */
  lemma ResourcesOfLeadingBlock(body: string, rid: string)
    requires body != [] && !IsSpace(body[0]) && !IsSpace(body[|body| - 1])
    requires '[' !in body
    requires Lower(rid) == ReservationKey
    ensures ExtractResources("[Resources] " + body + " " + rid)
         == NonEmptyEntries(Split(body, '|'))
  {
    assert IsSpace(" "[0]);
    hide *;
    var u := "[Resources] " + body + " " + rid;
    LeadingBlock(body, " ", rid);
    PaddedBlockTrims(body, rid);
    ResourcesOfBounds(u, 12, 12 + |body| + 1);
  }

  lemma ExampleTrimmed()
    ensures Trim(ExampleDescription) == ExampleDescription
  {
    var t := ExampleDescription;
    assert t[0] == '[';
    assert t[|t| - 1] == '3';
    TrimOfTrimmed(t);
  }

  lemma ExampleBodyShape()
    ensures ExampleBody != [] && !IsSpace(ExampleBody[0]) && !IsSpace(ExampleBody[|ExampleBody| - 1])
    ensures '[' !in ExampleBody
  {
    var k0 := KnownPrefixes[0];
    assert k0[0] == 'K';
    assert ExampleEntry1[0] == 'K';
    var left := ExampleEntry1 + " | " + ExampleEntry2 + " | ";
    assert ExampleBody == left + ExampleEntry3;
    assert left[0] == 'K';
    assert ExampleBody[|ExampleBody| - 1] == ExampleEntry3[10] == 'y';
    assert '[' !in KnownPrefixes[0] && '[' !in KnownPrefixes[2];
  }

  lemma ExampleMarkerFound()
    ensures FindFrom(Lower("[Resources] " + ExampleBody + " "), ResourcesKey, 0).Some?
  {
    var a := "[Resources] " + ExampleBody + " ";
    MarkerKeys();
    LowerSlice(a, 0, 11);
    assert a[..11] == ResourcesMarker;
    assert OccursAt(Lower(a), ResourcesKey, 0);
  }

  lemma ExampleIgnoresTail()
    ensures ExtractResources(ExampleDescription)
         == ExtractResources("[Resources] " + ExampleBody + " " + ReservationMarker)
  {
    var a := "[Resources] " + ExampleBody + " ";
    assert a + ReservationMarker + " 123" == ExampleDescription;
    MarkerKeys();
    ExampleMarkerFound();
    TextAfterReservationIgnored(a, ReservationMarker, " 123");
  }

  lemma FirstPrefixShape()
    ensures '|' !in KnownPrefixes[0] && !IsSpace(KnownPrefixes[0][0])
  {
  }

  lemma ThirdPrefixShape()
    ensures '|' !in KnownPrefixes[2] && !IsSpace(KnownPrefixes[2][0])
  {
  }

  lemma ExampleEntriesShape()
    ensures '|' !in ExampleEntry1 && '|' !in ExampleEntry2 && '|' !in ExampleEntry3
    ensures !IsSpace(ExampleEntry1[0]) && !IsSpace(ExampleEntry1[|ExampleEntry1| - 1])
    ensures !IsSpace(ExampleEntry2[0]) && !IsSpace(ExampleEntry2[|ExampleEntry2| - 1])
    ensures !IsSpace(ExampleEntry3[0]) && !IsSpace(ExampleEntry3[|ExampleEntry3| - 1])
  {
    FirstPrefixShape();
    ThirdPrefixShape();
    assert ExampleEntry1[0] == KnownPrefixes[0][0];
    assert ExampleEntry2[0] == KnownPrefixes[2][0];
  }

  lemma ExampleResources()
    ensures ExtractResources(ExampleDescription) == [ExampleEntry1] + [ExampleEntry2] + [ExampleEntry3]
  {
    ExampleIgnoresTail();
    ExampleBodyShape();
    MarkerKeys();
    ResourcesOfLeadingBlock(ExampleBody, ReservationMarker);
    ExampleEntriesShape();
    EntriesOfThree(ExampleEntry1, ExampleEntry2, ExampleEntry3);
  }

  /** Two recognised entries, clipped to their prefixes, and one
      unrecognised entry dropped. */
  lemma WorkedExample()
    ensures ParseIncidentDescription(Some(ExampleDescription))
         == ParsedDescription(ExampleDescription, [KnownPrefixes[0], KnownPrefixes[2]])
  {
    ExampleTrimmed();
    ParseOfTrimmed(ExampleDescription);
    ExampleResources();
    ExampleEntries();
    TwoAsPieces(KnownPrefixes[0], KnownPrefixes[2]);
  }

  lemma ParseOfTrimmed(t: string)
    requires Trim(t) == t
    ensures ParseIncidentDescription(Some(t)) == ParsedDescription(t, NormalizeAll(ExtractResources(t)))
  {
  }

  lemma TwoAsPieces<T>(a: T, b: T)
    ensures [a] + [b] == [a, b]
  {
  }

  lemma SplitThree(x1: string, x2: string, x3: string)
    requires '|' !in x1 && '|' !in x2 && '|' !in x3
    ensures Split(x1 + "|" + x2 + "|" + x3, '|') == [x1, x2, x3]
  {
    assert Join([x3], '|') == x3;
    assert [x2, x3][1..] == [x3];
    assert Join([x2, x3], '|') == x2 + "|" + x3;
    assert [x1, x2, x3][1..] == [x2, x3];
    assert Join([x1, x2, x3], '|') == x1 + "|" + x2 + "|" + x3;
    SplitJoin([x1, x2, x3], '|');
  }

  lemma ThreeAsPieces<T>(a: T, b: T, c: T)
    ensures [a, b, c] == [a] + [b] + [c]
  {
  }

  lemma NonEmptyEntriesKeep(p: string, rest: seq<string>)
    requires Trim(p) != []
    ensures NonEmptyEntries([p] + rest) == [Trim(p)] + NonEmptyEntries(rest)
  {
    assert ([p] + rest)[0] == p;
    assert ([p] + rest)[1..] == rest;
  }

  lemma NormalizeAllCons(e: string, rest: seq<string>)
    ensures NormalizeAll([e] + rest)
         == (match NormalizeResource(e) case None => [] case Some(p) => [p]) + NormalizeAll(rest)
  {
    assert ([e] + rest)[0] == e;
    assert ([e] + rest)[1..] == rest;
  }

  lemma TrimPadded(x: string)
    requires x != [] && !IsSpace(x[0]) && !IsSpace(x[|x| - 1])
    ensures Trim(x + " ") == x && Trim(" " + x + " ") == x && Trim(" " + x) == x
  {
    TrimAround([], x, " ");
    assert [] + x + " " == x + " ";
    TrimAround(" ", x, " ");
    TrimAround(" ", x, []);
    assert " " + x + [] == " " + x;
  }

  lemma EntriesOfOne(p: string, x: string)
    requires Trim(p) == x != []
    ensures NonEmptyEntries([p]) == [x]
  {
    NonEmptyEntriesKeep(p, []);
    assert [p] + [] == [p];
  }

  /** Dropping empty parts distributes over concatenation. */
  lemma {:induction false} NonEmptyEntriesAppend(a: seq<string>, b: seq<string>)
    ensures NonEmptyEntries(a + b) == NonEmptyEntries(a) + NonEmptyEntries(b)
  {
    if a == [] {
      assert a + b == b;
    } else {
      assert (a + b)[0] == a[0];
      assert (a + b)[1..] == a[1..] + b;
      NonEmptyEntriesAppend(a[1..], b);
    }
  }

  /** Three pieces that trim to non-empty entries survive as those entries. */
  lemma EntriesOfPieces(p1: string, p2: string, p3: string, x1: string, x2: string, x3: string)
    requires Trim(p1) == x1 != [] && Trim(p2) == x2 != [] && Trim(p3) == x3 != []
    ensures NonEmptyEntries([p1] + [p2] + [p3]) == [x1] + [x2] + [x3]
  {
    EntriesOfOne(p1, x1);
    EntriesOfOne(p2, x2);
    EntriesOfOne(p3, x3);
    NonEmptyEntriesAppend([p1] + [p2], [p3]);
    NonEmptyEntriesAppend([p1], [p2]);
  }

  lemma EntriesOfThree(x1: string, x2: string, x3: string)
    requires '|' !in x1 && '|' !in x2 && '|' !in x3
    requires x1 != [] && !IsSpace(x1[0]) && !IsSpace(x1[|x1| - 1])
    requires x2 != [] && !IsSpace(x2[0]) && !IsSpace(x2[|x2| - 1])
    requires x3 != [] && !IsSpace(x3[0]) && !IsSpace(x3[|x3| - 1])
    ensures NonEmptyEntries(Split(x1 + " | " + x2 + " | " + x3, '|')) == [x1] + [x2] + [x3]
  {
    var p1, p2, p3 := x1 + " ", " " + x2 + " ", " " + x3;
    assert x1 + " | " + x2 + " | " + x3 == p1 + "|" + p2 + "|" + p3;
    assert '|' !in p1 && '|' !in p2 && '|' !in p3;
    SplitThree(p1, p2, p3);
    ThreeAsPieces(p1, p2, p3);
    TrimPadded(x1);
    TrimPadded(x2);
    TrimPadded(x3);
    EntriesOfPieces(p1, p2, p3, x1, x2, x3);
  }

  lemma NormalizeOne(e: string)
    ensures NormalizeAll([e]) == match NormalizeResource(e) case None => [] case Some(p) => [p]
  {
    NormalizeAllCons(e, []);
    assert [e] + [] == [e];
  }

  lemma ExampleEntries()
    ensures NormalizeAll([ExampleEntry1] + [ExampleEntry2] + [ExampleEntry3])
         == [KnownPrefixes[0]] + [KnownPrefixes[2]]
  {
    var e1, e2, e3 := ExampleEntry1, ExampleEntry2, ExampleEntry3;
    NormalizeClips(0, " extra");
    NormalizeClips(2, " foo");
    assert NormalizeResource(e3) == None;
    NormalizeOne(e1);
    NormalizeOne(e2);
    NormalizeOne(e3);
    NormalizeAllAppend([e1] + [e2], [e3]);
    NormalizeAllAppend([e1], [e2]);
  }
}
