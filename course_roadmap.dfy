/** The free-text roadmap of frontend/src/CourseRoadmap.jsx: the plan text is
    split into steps with `outline.split(/\d\.\s/)`, the steps whose trimmed
    text is empty are dropped, and step `i` is drawn with icon `i % 3` of
    `[BookOpen, Code, Laptop]`. */
module CourseRoadmap {
  import opened Wrappers
  import opened Chars

  datatype Icon = BookOpen | Code | Laptop

  const ICONS: seq<Icon> := [BookOpen, Code, Laptop]

  /** One roadmap card: its icon and the step text it shows. */
  datatype Card = Card(icon: Icon, text: string)

  // ---------------------------------------------------------------------
  // outline.split(/\d\.\s/)
  // ---------------------------------------------------------------------

  /** The pattern `\d\.\s` matches the three characters of `s` starting at `q`. */
  predicate DelimiterAt(s: string, q: nat)
  {
    q + 3 <= |s| && IsDigit(s[q]) && s[q + 1] == '.' && IsSpace(s[q + 2])
  }

  predicate HasDelimiter(s: string)
  {
    exists q :: 0 <= q < |s| && DelimiterAt(s, q)
  }

  /** The pieces of `s` from `start` on, scanning for a match from `q`, as
      `String.prototype.split` does: the first match at or after `q` ends the
      current piece, and the next piece starts right after that match. */
  function SplitFrom(s: string, start: nat, q: nat): seq<string>
    requires start <= q <= |s|
    decreases |s| - q
  {
    if q + 3 > |s| then [s[start..]]
    else if DelimiterAt(s, q) then [s[start..q]] + SplitFrom(s, q + 3, q + 3)
    else SplitFrom(s, start, q + 1)
  }

  /** `s.split(/\d\.\s/)`: one more piece than matches, none of them holding
      a match, and the matches put back between the pieces give `s`. */
  function Split(s: string): (r: seq<string>)
    ensures |r| == |Delimiters(s)| + 1
    ensures Rejoin(r, Delimiters(s)) == s
    ensures forall p :: p in r ==> !HasDelimiter(p)
  {
    SplitRejoins(s, 0, 0);
    PiecesHaveNoDelimiter(s, 0, 0);
    SplitFrom(s, 0, 0)
  }

  /** The matched delimiters that `SplitFrom` removes, in order. */
  ghost function DelimitersFrom(s: string, start: nat, q: nat): seq<string>
    requires start <= q <= |s|
    decreases |s| - q
  {
    if q + 3 > |s| then []
    else if DelimiterAt(s, q) then [s[q..q + 3]] + DelimitersFrom(s, q + 3, q + 3)
    else DelimitersFrom(s, start, q + 1)
  }

  ghost function Delimiters(s: string): seq<string>
  {
    DelimitersFrom(s, 0, 0)
  }

  /** Pieces with the delimiters put back between them. */
  ghost function Rejoin(pieces: seq<string>, delimiters: seq<string>): string
    requires |pieces| == |delimiters| + 1
    decreases |delimiters|
  {
    if delimiters == [] then pieces[0]
    else pieces[0] + delimiters[0] + Rejoin(pieces[1..], delimiters[1..])
  }

  /** There is one more piece than delimiter, and every delimiter is a
      match of the pattern. */
  lemma {:induction false} SplitCounts(s: string, start: nat, q: nat)
    requires start <= q <= |s|
    ensures |SplitFrom(s, start, q)| == |DelimitersFrom(s, start, q)| + 1
    ensures forall d :: d in DelimitersFrom(s, start, q) ==> |d| == 3 && DelimiterAt(d, 0)
    decreases |s| - q
  {
    if q + 3 > |s| {
    } else if DelimiterAt(s, q) {
      SplitCounts(s, q + 3, q + 3);
      var ds := DelimitersFrom(s, q + 3, q + 3);
      assert DelimitersFrom(s, start, q) == [s[q..q + 3]] + ds;
    } else {
      SplitCounts(s, start, q + 1);
    }
  }

  /** Splitting loses nothing: putting the delimiters back between the
      pieces gives the text again. */
  lemma {:induction false} SplitRejoins(s: string, start: nat, q: nat)
    requires start <= q <= |s|
    ensures |SplitFrom(s, start, q)| == |DelimitersFrom(s, start, q)| + 1
    ensures Rejoin(SplitFrom(s, start, q), DelimitersFrom(s, start, q)) == s[start..]
    decreases |s| - q
  {
    SplitCounts(s, start, q);
    if q + 3 > |s| {
    } else if DelimiterAt(s, q) {
      SplitRejoins(s, q + 3, q + 3);
      var rest := SplitFrom(s, q + 3, q + 3);
      var ds := DelimitersFrom(s, q + 3, q + 3);
      var pieces := SplitFrom(s, start, q);
      var delims := DelimitersFrom(s, start, q);
      assert pieces == [s[start..q]] + rest;
      assert delims == [s[q..q + 3]] + ds;
      assert pieces[1..] == rest && delims[1..] == ds;
      assert Rejoin(pieces, delims) == s[start..q] + s[q..q + 3] + s[q + 3..];
      assert s[start..] == s[start..q] + s[q..q + 3] + s[q + 3..];
    } else {
      SplitRejoins(s, start, q + 1);
    }
  }

  /** No piece contains a match of the pattern: every match was consumed. */
  lemma {:induction false} PiecesHaveNoDelimiter(s: string, start: nat, q: nat)
    requires start <= q <= |s|
    requires forall k :: start <= k < q ==> !DelimiterAt(s, k)
    ensures forall p :: p in SplitFrom(s, start, q) ==> !HasDelimiter(p)
    decreases |s| - q
  {
    if q + 3 > |s| {
      NoDelimiterInSlice(s, start, |s|);
      assert s[start..|s|] == s[start..];
      assert SplitFrom(s, start, q) == [s[start..]];
    } else if DelimiterAt(s, q) {
      NoDelimiterInSlice(s, start, q);
      PiecesHaveNoDelimiter(s, q + 3, q + 3);
      assert SplitFrom(s, start, q) == [s[start..q]] + SplitFrom(s, q + 3, q + 3);
    } else {
      PiecesHaveNoDelimiter(s, start, q + 1);
    }
  }

  /** A slice holds no match when no match of `s` starts in it and ends
      inside it. */
  lemma NoDelimiterInSlice(s: string, start: nat, end: nat)
    requires start <= end <= |s|
    requires forall k :: start <= k && k + 3 <= end ==> !DelimiterAt(s, k)
    ensures !HasDelimiter(s[start..end])
  {
    var p := s[start..end];
    forall k | 0 <= k < |p|
      ensures !DelimiterAt(p, k)
    {
      if DelimiterAt(p, k) {
        assert DelimiterAt(s, start + k);
      }
    }
  }

  // ---------------------------------------------------------------------
  // .filter(step => step.trim())
  // ---------------------------------------------------------------------

  function TrimStart(s: string): (r: string)
    ensures r == [] || !IsSpace(r[0])
    ensures forall i :: 0 <= i < |s| - |r| ==> IsSpace(s[i])
    ensures |r| <= |s| && r == s[|s| - |r|..]
  {
    if s != [] && IsSpace(s[0]) then TrimStart(s[1..]) else s
  }

  function TrimEnd(s: string): (r: string)
    ensures r == [] || !IsSpace(r[|r| - 1])
    ensures |r| <= |s| && r == s[..|r|]
    ensures forall i :: |r| <= i < |s| ==> IsSpace(s[i])
  {
    if s != [] && IsSpace(s[|s| - 1]) then TrimEnd(s[..|s| - 1]) else s
  }

  /** `String.prototype.trim`: the piece with its leading and trailing
      whitespace removed. The result is a slice of `s` with only whitespace
      before and after it, and it neither starts nor ends with whitespace. */
  function Trim(s: string): (r: string)
    ensures exists i :: BlankAround(s, r, i)
    ensures NoOuterSpace(r)
    ensures |r| <= |s|
    ensures Blank(s) ==> r == []
  {
    var t := TrimStart(s);
    BetweenBlanks(s, t, TrimEnd(t), |s| - |t|);
    TrimmedEnds(t, TrimEnd(t));
    TrimEnd(t)
  }

  /** Trimming the end of a string that does not start with whitespace
      leaves neither end with whitespace. */
  lemma TrimmedEnds(t: string, r: string)
    requires t == [] || !IsSpace(t[0])
    requires r == TrimEnd(t)
    ensures NoOuterSpace(r)
  {
    assert r == [] || r[0] == t[0];
  }

  /** Neither the first nor the last character of `r` is whitespace. */
  predicate NoOuterSpace(r: string)
  {
    r == [] || (!IsSpace(r[0]) && !IsSpace(r[|r| - 1]))
  }

  /** `r` is the slice of `s` that starts at `i`, and everything of `s`
      before and after that slice is whitespace. */
  predicate BlankAround(s: string, r: string, i: int)
  {
    0 <= i && i + |r| <= |s| && r == s[i..i + |r|] && Blank(s[..i]) && Blank(s[i + |r|..])
  }

  /** `r`, a prefix of the suffix `t` of `s` that starts at `i`, is a slice
      of `s` with blanks on either side when everything of `s` before `i`
      and everything of `t` after `r` is whitespace. */
  lemma BetweenBlanks(s: string, t: string, r: string, i: nat)
    requires i <= |s| && t == s[i..]
    requires |r| <= |t| && r == t[..|r|]
    requires forall k :: 0 <= k < i ==> IsSpace(s[k])
    requires forall k :: |r| <= k < |t| ==> IsSpace(t[k])
    ensures BlankAround(s, r, i)
  {
    assert s[i + |r|..] == t[|r|..];
  }

  /** Every character is whitespace. */
  predicate Blank(s: string)
  {
    forall i :: 0 <= i < |s| ==> IsSpace(s[i])
  }

  /** A piece trims to the empty (falsy) string exactly when it is blank. */
  lemma TrimEmptyIffBlank(s: string)
    ensures Trim(s) == [] <==> Blank(s)
  {
    var t := TrimStart(s);
    if t != [] {
      assert !IsSpace(t[0]);
      assert TrimEnd(t) != [] by {
        if TrimEnd(t) == [] {
          TrimEndEmpty(t);
        }
      }
      assert s[|s| - |t|] == t[0];
    }
  }

  lemma {:induction false} TrimEndEmpty(s: string)
    requires TrimEnd(s) == []
    ensures Blank(s)
  {
    if s != [] {
      assert IsSpace(s[|s| - 1]);
      TrimEndEmpty(s[..|s| - 1]);
      assert forall i :: 0 <= i < |s| - 1 ==> s[..|s| - 1][i] == s[i];
    }
  }

  /** The pieces whose trimmed text is non-empty, in order, untrimmed. */
  function KeepNonBlank(pieces: seq<string>): (r: seq<string>)
    ensures |r| <= |pieces|
  {
    if pieces == [] then []
    else (if Trim(pieces[0]) != [] then [pieces[0]] else []) + KeepNonBlank(pieces[1..])
  }

  /** Filtering keeps exactly the non-blank pieces, never adds one, and
      never makes the list longer. */
  lemma {:induction false} KeepNonBlankMembers(pieces: seq<string>)
    ensures |KeepNonBlank(pieces)| <= |pieces|
    ensures forall p :: p in KeepNonBlank(pieces) <==> p in pieces && !Blank(p)
  {
    if pieces != [] {
      var head, tail := pieces[0], pieces[1..];
      assert pieces == [head] + tail;
      KeepNonBlankMembers(tail);
      TrimEmptyIffBlank(head);
      var kept := if Trim(head) != [] then [head] else [];
      assert KeepNonBlank(pieces) == kept + KeepNonBlank(tail);
      forall p
        ensures p in KeepNonBlank(pieces) <==> p in pieces && !Blank(p)
      {
        assert p in KeepNonBlank(pieces) <==> p in kept || p in KeepNonBlank(tail);
        assert p in pieces <==> p == head || p in tail;
      }
    }
  }

  /** The filter works piece by piece: it keeps the order and the repeats of
      the pieces it keeps. */
  lemma {:induction false} KeepNonBlankAppend(a: seq<string>, b: seq<string>)
    ensures KeepNonBlank(a + b) == KeepNonBlank(a) + KeepNonBlank(b)
  {
    if a == [] {
      assert a + b == b;
    } else {
      ConsAppend(a, b);
      KeepNonBlankAppend(a[1..], b);
      var kept := if Trim(a[0]) != [] then [a[0]] else [];
      var restA, restB := KeepNonBlank(a[1..]), KeepNonBlank(b);
      calc {
        KeepNonBlank(a + b);
        kept + KeepNonBlank(a[1..] + b);
        kept + (restA + restB);
        { AppendAssociates(kept, restA, restB); }
        (kept + restA) + restB;
        KeepNonBlank(a) + restB;
      }
    }
  }

  /** The head and the tail of a non-empty `a` followed by `b`. */
  lemma ConsAppend<T>(a: seq<T>, b: seq<T>)
    requires a != []
    ensures (a + b)[0] == a[0] && (a + b)[1..] == a[1..] + b
  {
  }

  lemma AppendAssociates<T>(x: seq<T>, y: seq<T>, z: seq<T>)
    ensures x + (y + z) == (x + y) + z
  {
  }

  /** The steps of an outline. */
  function Steps(outline: string): seq<string>
  {
    KeepNonBlank(Split(outline))
  }

  /** What `CourseRoadmap` renders: nothing for a missing or empty outline,
      otherwise one card per step, with the icons taken in turn. */
  function Roadmap(outline: Option<string>): (r: Option<seq<Card>>)
    ensures r.None? <==> outline.None? || outline.value == ""
    ensures r.Some? ==> |r.value| == |Steps(outline.value)|
    ensures r.Some? ==> forall i :: 0 <= i < |r.value| ==>
      r.value[i].icon == ICONS[i % 3] && r.value[i].text == Steps(outline.value)[i]
  {
    if outline.None? || outline.value == "" then None
    else
      var steps := Steps(outline.value);
      Some(seq(|steps|, i requires 0 <= i < |steps| => Card(ICONS[i % |ICONS|], steps[i])))
  }

  /** Every step is a piece of the split that is not blank and holds no
      delimiter, and there are at most as many steps as pieces. */
  lemma StepsArePieces(s: string)
    ensures |Steps(s)| <= |Delimiters(s)| + 1
    ensures forall p :: p in Steps(s) ==> p in Split(s) && !Blank(p) && !HasDelimiter(p)
  {
    SplitCounts(s, 0, 0);
    PiecesHaveNoDelimiter(s, 0, 0);
    KeepNonBlankMembers(Split(s));
  }

  /** The rendered cards: none when the outline is missing or empty;
      otherwise at most one more than the number of delimiters, each showing
      a non-blank piece of the outline that contains no delimiter, with icon
      `i mod 3`. */
  lemma RoadmapCards(outline: Option<string>)
    ensures Roadmap(outline).None? <==> outline.None? || outline.value == ""
    ensures Roadmap(outline).Some? ==>
      var cards := Roadmap(outline).value;
      && |cards| <= |Delimiters(outline.value)| + 1
      && forall i :: 0 <= i < |cards| ==>
        && cards[i].icon == ICONS[i % 3]
        && cards[i].text in Split(outline.value)
        && !Blank(cards[i].text)
        && !HasDelimiter(cards[i].text)
  {
    if outline.Some? && outline.value != "" {
      var s := outline.value;
      var steps := Steps(s);
      StepsArePieces(s);
      var cards := Roadmap(outline).value;
      forall i | 0 <= i < |cards|
        ensures cards[i].text in steps
      {
        assert cards[i].text == steps[i];
      }
    }
  }
}
