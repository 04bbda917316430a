/** Character and string helpers shared by every parser of the model.
    Whitespace is the ASCII part of the set that String.prototype.trim and
    the regular-expression class \s agree on; case folding is ASCII only. */
module Text {

  /** A value that may be absent (JavaScript null / undefined). */
  datatype Option<+T> = None | Some(value: T) {

    /** The value, or a default when absent. */
    function GetOr(default: T): T {
      match this
      case Some(v) => v
      case None => default
    }
  }

  predicate IsSpace(c: char) {
    c == ' ' || c == '\t' || c == '\n' || c == '\r' || c == '\U{000B}' || c == '\U{000C}'
  }

  predicate IsDigit(c: char) {
    '0' <= c <= '9'
  }

  predicate IsUpper(c: char) {
    'A' <= c <= 'Z'
  }

  predicate IsLower(c: char) {
    'a' <= c <= 'z'
  }

  function LowerChar(c: char): char {
    if IsUpper(c) then (c as int + 32) as char else c
  }

  /** ASCII lower-casing, character by character. */
  function Lower(s: string): (r: string)
    ensures |r| == |s|
    ensures forall i :: 0 <= i < |s| ==> r[i] == LowerChar(s[i])
  {
    seq(|s|, i requires 0 <= i < |s| => LowerChar(s[i]))
  }

  lemma LowerAppend(a: string, b: string)
    ensures Lower(a + b) == Lower(a) + Lower(b)
  {
    assert forall i :: 0 <= i < |a + b| ==> Lower(a + b)[i] == (Lower(a) + Lower(b))[i];
  }

  lemma LowerIdempotent(s: string)
    ensures Lower(Lower(s)) == Lower(s)
  {
    assert forall i :: 0 <= i < |s| ==> LowerChar(LowerChar(s[i])) == LowerChar(s[i]);
  }

  lemma LowerSlice(s: string, i: nat, j: nat)
    requires i <= j <= |s|
    ensures Lower(s[i..j]) == Lower(s)[i..j]
  {
    assert forall k :: 0 <= k < j - i ==> Lower(s[i..j])[k] == Lower(s)[i..j][k];
  }

  // ---------------------------------------------------------------------------
  // Trimming

  function TrimStart(s: string): (r: string)
    ensures |r| <= |s| && r == s[|s| - |r|..]
    ensures r == [] || !IsSpace(r[0])
    ensures forall i :: 0 <= i < |s| - |r| ==> IsSpace(s[i])
  {
    if s != [] && IsSpace(s[0]) then TrimStart(s[1..]) else s
  }

  function TrimEnd(s: string): (r: string)
    ensures |r| <= |s| && r == s[..|r|]
    ensures r == [] || !IsSpace(r[|r| - 1])
    ensures forall i :: |r| <= i < |s| ==> IsSpace(s[i])
  {
    if s != [] && IsSpace(s[|s| - 1]) then TrimEnd(s[..|s| - 1]) else s
  }

  /** Number of leading whitespace characters. */
  function TrimOffset(s: string): nat {
    |s| - |TrimStart(s)|
  }

  /** String.prototype.trim: the slice s[a..b] left after removing leading
      and trailing whitespace. */
  function Trim(s: string): (r: string)
    ensures r == [] || (!IsSpace(r[0]) && !IsSpace(r[|r| - 1]))
    ensures TrimOffset(s) + |r| <= |s| && r == s[TrimOffset(s)..TrimOffset(s) + |r|]
    ensures forall i :: 0 <= i < TrimOffset(s) ==> IsSpace(s[i])
    ensures forall i :: TrimOffset(s) + |r| <= i < |s| ==> IsSpace(s[i])
  {
    var t := TrimStart(s);
    var r := TrimEnd(t);
    var a := |s| - |t|;
    assert r == s[a..a + |r|];
    r
  }

  lemma TrimOfTrimmed(s: string)
    requires s == [] || (!IsSpace(s[0]) && !IsSpace(s[|s| - 1]))
    ensures Trim(s) == s
  {
  }

  lemma {:induction false} TrimStartSpaces(pre: string, y: string)
    requires forall i :: 0 <= i < |pre| ==> IsSpace(pre[i])
    ensures TrimStart(pre + y) == TrimStart(y)
  {
    if pre != [] {
      assert (pre + y)[0] == pre[0];
      assert (pre + y)[1..] == pre[1..] + y;
      TrimStartSpaces(pre[1..], y);
    } else {
      assert pre + y == y;
    }
  }

  lemma {:induction false} TrimEndSpaces(y: string, post: string)
    requires forall i :: 0 <= i < |post| ==> IsSpace(post[i])
    ensures TrimEnd(y + post) == TrimEnd(y)
  {
    if post != [] {
      var last := |post| - 1;
      assert (y + post)[|y + post| - 1] == post[last];
      assert (y + post)[..|y + post| - 1] == y + post[..last];
      TrimEndSpaces(y, post[..last]);
    } else {
      assert y + post == y;
    }
  }

  /** Trimming removes exactly the whitespace padding around a core that
      neither starts nor ends with whitespace. */
  lemma TrimAround(pre: string, x: string, post: string)
    requires forall i :: 0 <= i < |pre| ==> IsSpace(pre[i])
    requires forall i :: 0 <= i < |post| ==> IsSpace(post[i])
    requires x == [] || (!IsSpace(x[0]) && !IsSpace(x[|x| - 1]))
    ensures Trim(pre + x + post) == x
  {
    var s := pre + x + post;
    if x == [] {
      AllSpacesTrimStart(pre, post);
      assert s == pre + post;
    } else {
      PaddedTrimStart(pre, x, post);
      TrimEndSpaces(x, post);
      assert TrimEnd(x) == x;
    }
  }

  lemma AllSpacesTrimStart(pre: string, post: string)
    requires forall i :: 0 <= i < |pre| ==> IsSpace(pre[i])
    requires forall i :: 0 <= i < |post| ==> IsSpace(post[i])
    ensures TrimStart(pre + post) == []
  {
    TrimStartSpaces(pre, post);
    assert post == post + [];
    TrimStartSpaces(post, []);
  }

  lemma PaddedTrimStart(pre: string, x: string, post: string)
    requires forall i :: 0 <= i < |pre| ==> IsSpace(pre[i])
    requires x != [] && !IsSpace(x[0])
    ensures TrimStart(pre + x + post) == x + post
  {
    assert pre + x + post == pre + (x + post);
    TrimStartSpaces(pre, x + post);
    assert (x + post)[0] == x[0];
  }

  lemma TrimTrailing(x: string, post: string)
    requires forall i :: 0 <= i < |post| ==> IsSpace(post[i])
    requires x == [] || (!IsSpace(x[0]) && !IsSpace(x[|x| - 1]))
    ensures Trim(x + post) == x
  {
    TrimAround([], x, post);
    assert [] + x + post == x + post;
  }

  lemma TrimIdempotent(s: string)
    ensures Trim(Trim(s)) == Trim(s)
  {
    TrimOfTrimmed(Trim(s));
  }

  // ---------------------------------------------------------------------------
  // Substring search

  predicate OccursAt(hay: string, needle: string, i: nat) {
    i + |needle| <= |hay| && hay[i..i + |needle|] == needle
  }

  /** The leftmost occurrence of needle in hay at or after from. */
  function FindFrom(hay: string, needle: string, from: nat): (r: Option<nat>)
    decreases |hay| - from
    ensures r.Some? ==> from <= r.value && OccursAt(hay, needle, r.value)
    ensures r.Some? ==> forall j :: from <= j < r.value ==> !OccursAt(hay, needle, j)
    ensures r.None? ==> forall j :: from <= j ==> !OccursAt(hay, needle, j)
  {
    if from + |needle| > |hay| then None
    else if hay[from..from + |needle|] == needle then Some(from)
    else FindFrom(hay, needle, from + 1)
  }

  /** String.prototype.includes. */
  function Includes(hay: string, needle: string): (b: bool)
    ensures b <==> exists i: nat :: OccursAt(hay, needle, i)
  {
    FindFrom(hay, needle, 0).Some?
  }

  /** Positions whose character differs from the needle's first one can be
      skipped. */
  lemma {:induction false} FindFromSkip(hay: string, needle: string, from: nat, p: nat)
    requires needle != [] && from <= p
    requires forall j :: from <= j < p && j < |hay| ==> hay[j] != needle[0]
    ensures FindFrom(hay, needle, from) == FindFrom(hay, needle, p)
    decreases p - from
  {
    if from < p {
      if from + |needle| <= |hay| {
        assert hay[from..from + |needle|][0] == hay[from];
      }
      FindFromSkip(hay, needle, from + 1, p);
    }
  }

  /** An occurrence with none before it from from on is what the search
      finds. */
  lemma FindFromLeftmost(hay: string, needle: string, from: nat, p: nat)
    requires from <= p && OccursAt(hay, needle, p)
    requires forall j :: from <= j < p ==> !OccursAt(hay, needle, j)
    ensures FindFrom(hay, needle, from) == Some(p)
  {
  }

  /** A needle whose first character does not recur in it cannot start
      inside x and run on into a y that starts with that character. */
  lemma NoStraddle(a: string, x: string, y: string, needle: string)
    requires needle != [] && forall j :: 0 < j < |needle| ==> needle[j] != needle[0]
    requires forall i :: !OccursAt(x, needle, i)
    requires y != [] && y[0] == needle[0]
    ensures forall p :: |a| <= p < |a| + |x| ==> !OccursAt(a + x + y, needle, p)
  {
    var t := a + x + y;
    forall p | |a| <= p < |a| + |x|
      ensures !OccursAt(t, needle, p)
    {
      if OccursAt(t, needle, p) {
        var i := p - |a|;
        if i + |needle| <= |x| {
          assert t[p..p + |needle|] == x[i..i + |needle|];
          assert OccursAt(x, needle, i);
        } else {
          ConcatAt(a, x, y);
          assert false;
        }
      }
    }
  }

  lemma ConcatAt(a: string, x: string, y: string)
    requires y != []
    ensures (a + x + y)[|a| + |x|] == y[0]
  {
  }

  /** Searching a + x + y from the start of x, where x holds no occurrence
      and y starts with the needle, finds the needle at the start of y. */
  lemma FindAfterClean(a: string, x: string, y: string, needle: string)
    requires needle != [] && forall j :: 0 < j < |needle| ==> needle[j] != needle[0]
    requires forall i :: !OccursAt(x, needle, i)
    requires IsPrefix(needle, y)
    ensures FindFrom(a + x + y, needle, |a|) == Some(|a| + |x|)
  {
    hide *;
    OccursAfter(a + x, y, needle);
    PrefixHead(needle, y);
    NoStraddle(a, x, y, needle);
    FindFromLeftmost(a + x + y, needle, |a|, |a| + |x|);
  }

  lemma PrefixHead(p: string, s: string)
    requires p != [] && IsPrefix(p, s)
    ensures s != [] && s[0] == p[0]
  {
    assert s[..|p|][0] == s[0];
  }

  lemma OccursAfter(b: string, y: string, needle: string)
    requires IsPrefix(needle, y)
    ensures OccursAt(b + y, needle, |b|)
  {
    assert (b + y)[|b|..|b| + |needle|] == y[..|needle|];
  }

  /** Searching a + x from the start of x, where x holds no occurrence,
      finds nothing. */
  lemma FindInClean(a: string, x: string, needle: string)
    requires forall i :: !OccursAt(x, needle, i)
    ensures FindFrom(a + x, needle, |a|).None?
  {
    var t := a + x;
    forall p | |a| <= p
      ensures !OccursAt(t, needle, p)
    {
      if OccursAt(t, needle, p) {
        assert t[p..p + |needle|] == x[p - |a|..p - |a| + |needle|];
        assert OccursAt(x, needle, p - |a|);
      }
    }
  }

  /** A leftmost occurrence inside a stays leftmost when text is appended. */
  lemma {:induction false} FindFromExtend(a: string, b: string, needle: string, from: nat)
    requires FindFrom(a, needle, from).Some?
    ensures FindFrom(a + b, needle, from) == FindFrom(a, needle, from)
    decreases |a| - from
  {
    assert from + |needle| <= |a|;
    assert (a + b)[from..from + |needle|] == a[from..from + |needle|];
    if a[from..from + |needle|] != needle {
      FindFromExtend(a, b, needle, from + 1);
    }
  }

  // ---------------------------------------------------------------------------
  // Splitting

  function IndexOf(s: string, c: char): (r: Option<nat>)
    ensures r.Some? ==> r.value < |s| && s[r.value] == c && c !in s[..r.value]
    ensures r.None? ==> c !in s
  {
    if s == [] then None
    else if s[0] == c then Some(0)
    else
      match IndexOf(s[1..], c)
      case None => None
      case Some(i) =>
        assert s[..i + 1] == [s[0]] + s[1..][..i];
        Some(i + 1)
  }

  /** String.prototype.split with a one-character separator. */
  function Split(s: string, sep: char): (parts: seq<string>)
    decreases |s|
    ensures |parts| >= 1
    ensures forall k :: 0 <= k < |parts| ==> sep !in parts[k]
  {
    match IndexOf(s, sep)
    case None => [s]
    case Some(i) => [s[..i]] + Split(s[i + 1..], sep)
  }

  /** Array.prototype.join, the inverse of Split. */
  function Join(parts: seq<string>, sep: char): string
    requires |parts| >= 1
  {
    if |parts| == 1 then parts[0] else parts[0] + [sep] + Join(parts[1..], sep)
  }

  lemma {:induction false} JoinSplit(s: string, sep: char)
    ensures Join(Split(s, sep), sep) == s
    decreases |s|
  {
    match IndexOf(s, sep)
    case None =>
    case Some(i) =>
      var rest := Split(s[i + 1..], sep);
      assert Split(s, sep) == [s[..i]] + rest;
      assert Join(Split(s, sep), sep) == s[..i] + [sep] + Join(rest, sep);
      JoinSplit(s[i + 1..], sep);
      assert s == s[..i] + [sep] + s[i + 1..];
  }

  lemma {:induction false} SplitJoin(parts: seq<string>, sep: char)
    requires |parts| >= 1
    requires forall k :: 0 <= k < |parts| ==> sep !in parts[k]
    ensures Split(Join(parts, sep), sep) == parts
  {
    if |parts| > 1 {
      SplitJoin(parts[1..], sep);
      var s := Join(parts, sep);
      assert s == parts[0] + [sep] + Join(parts[1..], sep);
      assert s[|parts[0]|] == sep;
      assert s[..|parts[0]|] == parts[0];
      assert IndexOf(s, sep) == Some(|parts[0]|);
      assert s[|parts[0]| + 1..] == Join(parts[1..], sep);
    }
  }

  // ---------------------------------------------------------------------------
  // Whitespace collapsing

  /** s.replace(/\s+/g, ' '): every maximal whitespace run becomes one space. */
  function CollapseSpaces(s: string): (r: string)
    decreases |s|
    ensures r == [] <==> s == []
    ensures r != [] ==> (r[0] == ' ' <==> IsSpace(s[0]))
    ensures r != [] && !IsSpace(s[0]) ==> r[0] == s[0]
    ensures forall i :: 0 <= i < |r| && IsSpace(r[i]) ==> r[i] == ' '
    ensures forall i, j :: 0 <= i && j == i + 1 && j < |r| ==> !(r[i] == ' ' && r[j] == ' ')
  {
    if s == [] then []
    else if IsSpace(s[0]) then
      var rest := TrimStart(s);
      assert |rest| < |s|;
      [' '] + CollapseSpaces(rest)
    else
      [s[0]] + CollapseSpaces(s[1..])
  }

  lemma {:induction false} CollapseFixpoint(s: string)
    requires forall i :: 0 <= i < |s| && IsSpace(s[i]) ==> s[i] == ' '
    requires forall i, j :: 0 <= i && j == i + 1 && j < |s| ==> !(s[i] == ' ' && s[j] == ' ')
    ensures CollapseSpaces(s) == s
    decreases |s|
  {
    if s != [] {
      if IsSpace(s[0]) {
        assert TrimStart(s) == s[1..] by {
          assert s[1..] == [] || !IsSpace(s[1..][0]);
          assert TrimStart(s) == TrimStart(s[1..]);
        }
      }
      CollapseFixpoint(s[1..]);
    }
  }

  /** Collapsing whitespace twice is the same as collapsing it once. */
  lemma CollapseIdempotent(s: string)
    ensures CollapseSpaces(CollapseSpaces(s)) == CollapseSpaces(s)
  {
    CollapseFixpoint(CollapseSpaces(s));
  }

  /** The shape collapsing leaves: no whitespace but the plain space, and
      never two spaces in a row. */
  ghost predicate Collapsed(s: string) {
    && (forall i :: 0 <= i < |s| && IsSpace(s[i]) ==> s[i] == ' ')
    && (forall i, j :: 0 <= i && j == i + 1 && j < |s| ==> !(s[i] == ' ' && s[j] == ' '))
  }

  lemma CollapsedSlice(c: string, a: nat, b: nat)
    requires Collapsed(c) && a <= b <= |c|
    ensures Collapsed(c[a..b])
  {
    var p := c[a..b];
    forall i, j | 0 <= i && j == i + 1 && j < |p|
      ensures !(p[i] == ' ' && p[j] == ' ')
    {
      assert p[i] == c[a + i] && p[j] == c[a + j];
    }
    forall i | 0 <= i < |p| && IsSpace(p[i])
      ensures p[i] == ' '
    {
      assert p[i] == c[a + i];
    }
  }

  /** Collapsing then trimming keeps every non-whitespace character in
      order and leaves collapsed text. */
  lemma TrimCollapse(s: string)
    ensures Collapsed(Trim(CollapseSpaces(s)))
    ensures NonSpace(Trim(CollapseSpaces(s))) == NonSpace(s)
  {
    var c := CollapseSpaces(s);
    CollapseKeepsText(s);
    NonSpaceTrim(c);
    CollapsedSlice(c, TrimOffset(c), TrimOffset(c) + |Trim(c)|);
  }

  /** The characters of s that are not whitespace, in order. */
  function NonSpace(s: string): (r: string)
    ensures |r| <= |s|
    ensures forall i :: 0 <= i < |r| ==> !IsSpace(r[i])
  {
    if s == [] then []
    else if IsSpace(s[0]) then NonSpace(s[1..])
    else [s[0]] + NonSpace(s[1..])
  }

  lemma {:induction false} NonSpaceAppend(a: string, b: string)
    ensures NonSpace(a + b) == NonSpace(a) + NonSpace(b)
  {
    if a == [] {
      assert a + b == b;
    } else {
      assert (a + b)[0] == a[0];
      assert (a + b)[1..] == a[1..] + b;
      NonSpaceAppend(a[1..], b);
    }
  }

  lemma {:induction false} NonSpaceOfSpaces(ws: string)
    requires forall i :: 0 <= i < |ws| ==> IsSpace(ws[i])
    ensures NonSpace(ws) == []
  {
    if ws != [] {
      NonSpaceOfSpaces(ws[1..]);
    }
  }

  /** Whitespace padding around r contributes nothing. */
  lemma NonSpacePadded(pre: string, r: string, post: string)
    requires forall i :: 0 <= i < |pre| ==> IsSpace(pre[i])
    requires forall i :: 0 <= i < |post| ==> IsSpace(post[i])
    ensures NonSpace(pre + r + post) == NonSpace(r)
  {
    NonSpaceOfSpaces(pre);
    NonSpaceOfSpaces(post);
    NonSpaceAppend(pre + r, post);
    NonSpaceAppend(pre, r);
  }

  /** Trimming removes whitespace only. */
  lemma NonSpaceTrim(s: string)
    ensures NonSpace(Trim(s)) == NonSpace(s)
  {
    var o := TrimOffset(s);
    var e := o + |Trim(s)|;
    TrimSplits(s, o, e);
    NonSpacePadded(s[..o], Trim(s), s[e..]);
  }

  /** The trimmed text with the whitespace cut from either side. */
  lemma TrimSplits(s: string, o: nat, e: nat)
    requires o == TrimOffset(s) && e == o + |Trim(s)|
    ensures e <= |s| && s == s[..o] + Trim(s) + s[e..]
    ensures forall i :: 0 <= i < |s[..o]| ==> IsSpace(s[..o][i])
    ensures forall i :: 0 <= i < |s[e..]| ==> IsSpace(s[e..][i])
  {
    SlicesAround(s, Trim(s), o, e);
    SpacesAfterTrim(s, o, e);
  }

  lemma SlicesAround(s: string, r: string, o: nat, e: nat)
    requires o <= e <= |s| && r == s[o..e]
    ensures s == s[..o] + r + s[e..]
  {
  }

  lemma SpacesAfterTrim(s: string, o: nat, e: nat)
    requires o == TrimOffset(s) && e == o + |Trim(s)|
    ensures e <= |s|
    ensures forall i :: 0 <= i < |s[e..]| ==> IsSpace(s[e..][i])
  {
    forall i | 0 <= i < |s[e..]|
      ensures IsSpace(s[e..][i])
    {
      assert s[e..][i] == s[e + i];
    }
  }

  /** Collapsing changes whitespace only: every other character survives,
      in order. */
  lemma {:induction false} CollapseKeepsText(s: string)
    decreases |s|
    ensures NonSpace(CollapseSpaces(s)) == NonSpace(s)
  {
    if s != [] {
      if IsSpace(s[0]) {
        CollapseKeepsText(TrimStart(s));
        SpaceHeadKeepsText(s);
      } else {
        CollapseKeepsText(s[1..]);
        TextHeadKeepsText(s);
      }
    }
  }

  lemma SpaceHeadKeepsText(s: string)
    requires s != [] && IsSpace(s[0])
    requires NonSpace(CollapseSpaces(TrimStart(s))) == NonSpace(TrimStart(s))
    ensures NonSpace(CollapseSpaces(s)) == NonSpace(s)
  {
    NonSpaceSkipsLeading(s);
    NonSpaceCollapsedHead(s);
  }

  /** Leading whitespace contributes nothing. */
  lemma NonSpaceSkipsLeading(s: string)
    ensures NonSpace(s) == NonSpace(TrimStart(s))
  {
    var rest := TrimStart(s);
    var w := s[..|s| - |rest|];
    NonSpaceOfSpaces(w);
    assert s == w + rest;
    NonSpaceAppend(w, rest);
  }

  lemma NonSpaceCollapsedHead(s: string)
    requires s != [] && IsSpace(s[0])
    ensures NonSpace(CollapseSpaces(s)) == NonSpace(CollapseSpaces(TrimStart(s)))
  {
    CollapseSpaceHead(s);
    NonSpaceOfSpaces([' ']);
    NonSpaceAppend([' '], CollapseSpaces(TrimStart(s)));
  }

  lemma CollapseSpaceHead(s: string)
    requires s != [] && IsSpace(s[0])
    ensures CollapseSpaces(s) == [' '] + CollapseSpaces(TrimStart(s))
  {
  }

  lemma TextHeadKeepsText(s: string)
    requires s != [] && !IsSpace(s[0])
    requires NonSpace(CollapseSpaces(s[1..])) == NonSpace(s[1..])
    ensures NonSpace(CollapseSpaces(s)) == NonSpace(s)
  {
    NonSpaceAppend([s[0]], CollapseSpaces(s[1..]));
  }

  /** A whitespace run of any length becomes one space. */
  lemma CollapseRun(ws: string)
    requires ws != [] && forall i :: 0 <= i < |ws| ==> IsSpace(ws[i])
    ensures CollapseSpaces(ws) == " "
  {
    AllSpacesTrimStart(ws, []);
    assert ws + [] == ws;
  }

  /** Leading whitespace ends inside a when a has a non-whitespace at k. */
  lemma {:induction false} TrimStartBefore(a: string, b: string, k: nat)
    requires k < |a| && !IsSpace(a[k])
    ensures TrimStart(a + b) == TrimStart(a) + b
    decreases k
  {
    assert (a + b)[0] == a[0];
    if IsSpace(a[0]) {
      assert (a + b)[1..] == a[1..] + b;
      TrimStartBefore(a[1..], b, k - 1);
    }
  }

  /** Collapsing works run by run: cut anywhere that is not inside a
      whitespace run, the two sides collapse independently. */
  lemma {:induction false} CollapseAppend(a: string, b: string)
    requires a == [] || b == [] || !IsSpace(a[|a| - 1]) || !IsSpace(b[0])
    ensures CollapseSpaces(a + b) == CollapseSpaces(a) + CollapseSpaces(b)
    decreases |a|, 1
  {
    if a == [] {
      assert a + b == b;
    } else if b == [] {
      assert a + b == a;
    } else if !IsSpace(a[0]) {
      CollapseAppendText(a, b);
    } else if TrimStart(a) != [] {
      CollapseAppendRun(a, b);
    } else {
      CollapseAppendSpaces(a, b);
    }
  }

  lemma {:induction false} CollapseAppendText(a: string, b: string)
    requires a != [] && b != [] && (!IsSpace(a[|a| - 1]) || !IsSpace(b[0]))
    requires !IsSpace(a[0])
    ensures CollapseSpaces(a + b) == CollapseSpaces(a) + CollapseSpaces(b)
    decreases |a|, 0
  {
    var a' := a[1..];
    assert (a + b)[0] == a[0] && (a + b)[1..] == a' + b;
    assert a' == [] || a'[|a'| - 1] == a[|a| - 1];
    CollapseAppend(a', b);
    ConsAssoc(a[0], CollapseSpaces(a'), CollapseSpaces(b));
  }

  lemma {:induction false} CollapseAppendRun(a: string, b: string)
    requires a != [] && b != [] && (!IsSpace(a[|a| - 1]) || !IsSpace(b[0]))
    requires IsSpace(a[0]) && TrimStart(a) != []
    ensures CollapseSpaces(a + b) == CollapseSpaces(a) + CollapseSpaces(b)
    decreases |a|, 0
  {
    var t := TrimStart(a);
    assert a[|a| - |t|] == t[0];
    TrimStartBefore(a, b, |a| - |t|);
    assert t[|t| - 1] == a[|a| - 1];
    CollapseAppend(t, b);
    assert (a + b)[0] == a[0];
    CollapseOfRun(a + b);
    CollapseOfRun(a);
    ConsAssoc(' ', CollapseSpaces(t), CollapseSpaces(b));
  }

  lemma ConsAssoc(c: char, y: string, z: string)
    ensures [c] + (y + z) == ([c] + y) + z
  {
  }

  lemma CollapseOfRun(s: string)
    requires s != [] && IsSpace(s[0])
    ensures CollapseSpaces(s) == [' '] + CollapseSpaces(TrimStart(s))
  {
  }

  lemma CollapseAppendSpaces(a: string, b: string)
    requires a != [] && b != [] && (!IsSpace(a[|a| - 1]) || !IsSpace(b[0]))
    requires IsSpace(a[0]) && TrimStart(a) == []
    ensures CollapseSpaces(a + b) == CollapseSpaces(a) + CollapseSpaces(b)
  {
    assert !IsSpace(b[0]) by {
      assert IsSpace(a[|a| - 1]);
    }
    assert CollapseSpaces(a) == [' '] by {
      CollapseSpaceHead(a);
    }
    assert CollapseSpaces(a + b) == [' '] + CollapseSpaces(b) by {
      assert (a + b)[0] == a[0];
      CollapseSpaceHead(a + b);
      TrimStartSpaces(a, b);
    }
  }



  // ---------------------------------------------------------------------------
  // Prefixes and first matches

  /** s starts with p. */
  predicate IsPrefix(p: string, s: string) {
    |p| <= |s| && s[..|p|] == p
  }

  /** Array.prototype.find, as the index of the first element passing p. */
  function FirstWhere<T>(xs: seq<T>, p: T -> bool): (r: Option<nat>)
    ensures r.Some? ==> r.value < |xs| && p(xs[r.value])
    ensures r.Some? ==> forall j :: 0 <= j < r.value ==> !p(xs[j])
    ensures r.None? <==> forall j :: 0 <= j < |xs| ==> !p(xs[j])
  {
    if xs == [] then None
    else if p(xs[0]) then Some(0)
    else
      match FirstWhere(xs[1..], p)
      case None => None
      case Some(i) => Some(i + 1)
  }
  /** Two tests that agree on every element find the same one. */
  lemma {:induction false} FirstWhereSame<T>(xs: seq<T>, p: T -> bool, q: T -> bool)
    requires forall x :: p(x) == q(x)
    ensures FirstWhere(xs, p) == FirstWhere(xs, q)
  {
    if xs != [] {
      FirstWhereSame(xs[1..], p, q);
    }
  }
  /** Elements after the first passing one are never consulted; when none
      in a passes, the index comes from b, shifted past a. */
  lemma {:induction false} FirstWhereAppend<T>(a: seq<T>, b: seq<T>, p: T -> bool)
    ensures FirstWhere(a, p).Some? ==> FirstWhere(a + b, p) == FirstWhere(a, p)
    ensures FirstWhere(a, p).None? ==>
              FirstWhere(a + b, p) == (match FirstWhere(b, p) case None => None case Some(i) => Some(|a| + i))
  {
    if a == [] {
      assert a + b == b;
    } else {
      assert (a + b)[0] == a[0];
      assert (a + b)[1..] == a[1..] + b;
      FirstWhereAppend(a[1..], b, p);
    }
  }
}
