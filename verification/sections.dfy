/** The third stage of the analysis parser: the three lists, each cut out of the
    cleaned text by a regular expression of the form
      /Header:?\s*([\s\S]*?)(?=Next header|$)/i
    then split into lines, trimmed, and filtered. */
module Sections {
  import opened Outcomes
  import opened Text

  const StrengthsHeader: string := "Key Strengths"
  const ImprovementsHeader: string := "Areas for Improvement"
  const RecommendationsHeader: string := "Specific Recommendations"

  /** Where the section body starts once its header was found at `h`: after
      the header, an optional colon and a whitespace run. The lazy capture
      always succeeds (at the latest at the end of the text), so the optional
      colon and the whitespace run are never given back. */
  function BodyStart(s: string, h: nat, header: string): (c: nat)
    requires h + |header| <= |s|
    ensures h + |header| <= c <= |s|
  {
    var q := h + |header|;
    SkipSpace(s, if q < |s| && s[q] == ':' then q + 1 else q)
  }

  /** Capture group 1 of `/header:?\s*([\s\S]*?)(?=stop|$)/i` (with
      `stop == None` for the last section, whose pattern ends in `$`), or
      `None` when the header occurs nowhere. The lazy group ends at the first
      place at or after its start where `stop` occurs (case-insensitively), or
      at the end of the text. */
  function Capture(s: string, header: string, stop: Option<string>): (r: Option<string>)
    requires stop.Some? ==> stop.value != []
  {
    match FindCi(s, header, 0)
    case None => None
    case Some(h) =>
      var c := BodyStart(s, h, header);
      Some(s[c..CaptureEnd(s, c, stop)])
  }

  /** `c` is where `header:?\s*` ends when the header matched at `h`: past the
      header, past one colon if one follows, and past the whole whitespace run
      after that. */
  ghost predicate IsBodyStart(s: string, h: nat, header: string, c: nat) {
    var q := h + |header|;
    var w := if q < |s| && s[q] == ':' then q + 1 else q;
    q <= |s| && w <= c <= |s| && (forall i :: w <= i < c ==> IsSpace(s[i])) && (c == |s| || !IsSpace(s[c]))
  }

  /** The end of `header:?\s*` is unique: the whitespace run is taken whole. */
  lemma {:induction false} BodyStartUnique(s: string, h: nat, header: string, c1: nat, c2: nat)
    requires IsBodyStart(s, h, header, c1) && IsBodyStart(s, h, header, c2)
    ensures c1 == c2
  {
  }

  /** The capture is absent exactly when the header occurs nowhere; otherwise
      it runs from the end of `header:?\s*` at the header's leftmost
      occurrence to where the lazy group ends, is a piece of the text, a
      suffix of it for the last section, and the stop header occurs nowhere
      inside it. */
  lemma {:induction false} CaptureSpec(s: string, header: string, stop: Option<string>)
    requires stop.Some? ==> stop.value != []
    ensures Capture(s, header, stop).None? <==> !ContainsCi(s, header)
    ensures Capture(s, header, stop).Some? ==>
              exists h: nat, c: nat ::
                MatchesCiAt(s, h, header) && (forall i :: 0 <= i < h ==> !MatchesCiAt(s, i, header))
                && IsBodyStart(s, h, header, c) && Capture(s, header, stop).value == s[c..CaptureEnd(s, c, stop)]
    ensures Capture(s, header, stop).Some? ==> IsSubstring(Capture(s, header, stop).value, s)
    ensures Capture(s, header, stop).Some? && stop.None? ==>
              |Capture(s, header, stop).value| <= |s| && s[|s| - |Capture(s, header, stop).value|..] == Capture(s, header, stop).value
    ensures Capture(s, header, stop).Some? && stop.Some? ==> !ContainsCi(Capture(s, header, stop).value, stop.value)
  {
    FindCiLeftmost(s, header, 0);
    FindCiMatches(s, header, 0);
    match FindCi(s, header, 0)
    case None =>
    case Some(h) =>
      var c := BodyStart(s, h, header);
      var k := CaptureEnd(s, c, stop);
      assert IsBodyStart(s, h, header, c);
      assert s[c..k] <= s[c..];
      if stop.Some? {
        CaptureEndIsFirstStop(s, c, stop);
        NoStopInsideCapture(s, c, k, stop.value);
      }
  }

  /** Where the lazy group that starts at `c` ends: the first place at or
      after `c` where `stop` occurs, or the end of the text. */
  function CaptureEnd(s: string, c: nat, stop: Option<string>): (k: nat)
    requires c <= |s|
    ensures c <= k <= |s|
  {
    match stop
    case None => |s|
    case Some(t) => (match FindCi(s, t, c) case Some(k) => k case None => |s|)
  }

  /** The lazy group ends at the first occurrence of the stop word at or
      after `c`: it occurs where the group ends, unless that is the end of
      the text, and nowhere inside the group. */
  lemma {:induction false} CaptureEndIsFirstStop(s: string, c: nat, stop: Option<string>)
    requires c <= |s|
    ensures CaptureEnd(s, c, stop) < |s| ==> stop.Some? && MatchesCiAt(s, CaptureEnd(s, c, stop), stop.value)
    ensures stop.Some? ==> forall i :: c <= i < CaptureEnd(s, c, stop) ==> !MatchesCiAt(s, i, stop.value)
  {
    if stop.Some? {
      FindCiMatches(s, stop.value, c);
      FindCiLeftmost(s, stop.value, c);
    }
  }

  lemma {:induction false} CaptureEndShift(P: string, R: string, c: nat, stop: Option<string>)
    requires c <= |R|
    ensures CaptureEnd(P + R, |P| + c, stop) == |P| + CaptureEnd(R, c, stop)
  {
    if stop.Some? {
      match FindCi(R, stop.value, c)
      case Some(j) => FindCiShift(P, R, stop.value, c, j);
      case None => FindCiShiftNone(P, R, stop.value, c);
    }
  }

  lemma {:induction false} NoStopInsideCapture(s: string, c: nat, k: nat, t: string)
    requires c <= k <= |s| && t != []
    requires forall i :: c <= i < k ==> !MatchesCiAt(s, i, t)
    ensures !ContainsCi(s[c..k], t)
  {
    forall p: nat | p <= k - c ensures !MatchesCiAt(s[c..k], p, t) {
      if p + |t| <= k - c {
        assert !MatchesCiAt(s, c + p, t);
        var j :| 0 <= j < |t| && Lower(s[c + p + j]) != Lower(t[j]);
        assert s[c..k][p + j] == s[c + p + j];
      }
    }
  }

  /** `.map(line => line.trim())`. */
  function TrimAll(lines: seq<string>): (r: seq<string>)
    ensures |r| == |lines|
    ensures forall i :: 0 <= i < |r| ==> r[i] == Trim(lines[i])
  {
    if lines == [] then [] else [Trim(lines[0])] + TrimAll(lines[1..])
  }

  /** The filter `line && !line.includes(echo)`, where `echo` is the header of
      the next section (no echo check for the last section). */
  predicate Kept(x: string, echo: Option<string>) {
    x != [] && (echo.None? || !Contains(x, echo.value))
  }

  /** `items` is `lines` filtered by `Kept`: a subsequence holding only kept
      lines, and every kept line as often as `lines` holds it. No other
      sequence has these three properties. */
  ghost predicate FilteredLines(items: seq<string>, lines: seq<string>, echo: Option<string>) {
    IsSubsequence(items, lines)
    && (forall i :: 0 <= i < |items| ==> Kept(items[i], echo))
    && forall x :: Kept(x, echo) ==> multiset(items)[x] == multiset(lines)[x]
  }

  /** Filtering the first line away, or keeping it in front. */
  lemma {:induction false} FilteredTail(items: seq<string>, lines: seq<string>, echo: Option<string>)
    requires lines != [] && FilteredLines(items, lines, echo)
    ensures Kept(lines[0], echo) ==>
              items != [] && items[0] == lines[0] && FilteredLines(items[1..], lines[1..], echo)
    ensures !Kept(lines[0], echo) ==> FilteredLines(items, lines[1..], echo)
  {
    var x := lines[0];
    var rest := lines[1..];
    assert lines == [x] + rest;
    SubsequenceCounts(items, rest);
    if Kept(x, echo) {
      assert multiset(items)[x] > multiset(rest)[x];
      var tail := items[1..];
      assert items == [items[0]] + tail;
      forall i | 0 <= i < |tail| ensures Kept(tail[i], echo) {
        assert tail[i] == items[i + 1];
      }
    } else {
      assert items != [] ==> Kept(items[0], echo);
    }
  }

  /** The three properties of `FilteredLines` determine the list. */
  lemma {:induction false} FilteredLinesUnique(a: seq<string>, b: seq<string>, lines: seq<string>, echo: Option<string>)
    requires FilteredLines(a, lines, echo) && FilteredLines(b, lines, echo)
    ensures a == b
    decreases |lines|
  {
    if lines != [] {
      FilteredTail(a, lines, echo);
      FilteredTail(b, lines, echo);
      if Kept(lines[0], echo) {
        FilteredLinesUnique(a[1..], b[1..], lines[1..], echo);
        assert a == [a[0]] + a[1..] && b == [b[0]] + b[1..];
      } else {
        FilteredLinesUnique(a, b, lines[1..], echo);
      }
    }
  }

  /** `.filter(line => line && !line.includes(echo))`. */
  function KeepLines(lines: seq<string>, echo: Option<string>): (r: seq<string>)
    ensures |r| <= |lines|
    ensures forall x :: x in r <==> x in lines && x != [] && (echo.None? || !Contains(x, echo.value))
  {
    if lines == [] then []
    else
      var rest := KeepLines(lines[1..], echo);
      if Kept(lines[0], echo) then [lines[0]] + rest else rest
  }

  /** The filter keeps the kept lines in order and as often as they occur,
      and nothing else. */
  lemma {:induction false} KeepLinesFilters(lines: seq<string>, echo: Option<string>)
    ensures FilteredLines(KeepLines(lines, echo), lines, echo)
    decreases |lines|
  {
    if lines != [] {
      KeepLinesFilters(lines[1..], echo);
      KeepLinesStep(lines, echo);
      assert lines == [lines[0]] + lines[1..];
      FilteredCons(lines[0], KeepLines(lines[1..], echo), lines[1..], echo);
    }
  }

  /** One more line in front: kept in front of the filtered rest, or dropped. */
  lemma {:induction false} FilteredCons(x: string, items: seq<string>, tail: seq<string>, echo: Option<string>)
    requires FilteredLines(items, tail, echo)
    ensures Kept(x, echo) ==> FilteredLines([x] + items, [x] + tail, echo)
    ensures !Kept(x, echo) ==> FilteredLines(items, [x] + tail, echo)
  {
    var lines := [x] + tail;
    assert lines[1..] == tail;
    if Kept(x, echo) {
      SubsequenceKeepsHead(items, lines, 1);
      var r := [x] + items;
      forall i | 0 <= i < |r| ensures Kept(r[i], echo) {
        if i > 0 {
          assert r[i] == items[i - 1];
        }
      }
    } else {
      SubsequenceOfSuffix(items, lines, 1);
    }
  }

  /** What the section `header`, ended by `stop`, contributes to the list of
      text `s`: nothing without the header; otherwise the trimmed lines of its
      capture, filtered with `stop` as the echo, in order. */
  ghost predicate IsSectionList(items: seq<string>, s: string, header: string, stop: Option<string>)
    requires stop.Some? ==> stop.value != []
  {
    match Capture(s, header, stop)
    case None => items == []
    case Some(c) => FilteredLines(items, TrimAll(Split(c)), stop)
  }

  /** `capture?.split('\n').map(trim).filter(...) || []`: the list a section
      contributes, empty when its header is missing. */
  function Items(capture: Option<string>, echo: Option<string>): (r: seq<string>)
    ensures capture.None? ==> r == []
    ensures capture.Some? ==> FilteredLines(r, TrimAll(Split(capture.value)), echo)
    ensures forall i :: 0 <= i < |r| ==> r[i] != [] && IsTrimmed(r[i]) && '\n' !in r[i]
    ensures echo.Some? ==> forall i :: 0 <= i < |r| ==> !Contains(r[i], echo.value)
    ensures capture.Some? ==> forall i :: 0 <= i < |r| ==> IsSubstring(r[i], capture.value)
  {
    match capture
    case None => []
    case Some(text) =>
      var lines := Split(text);
      var trimmed := TrimAll(lines);
      var r := KeepLines(trimmed, echo);
      KeepLinesFilters(trimmed, echo);
      forall i | 0 <= i < |r|
        ensures r[i] != [] && IsTrimmed(r[i]) && '\n' !in r[i] && IsSubstring(r[i], text)
        ensures echo.Some? ==> !Contains(r[i], echo.value)
      {
        assert r[i] in r;
        LineOfText(text, r[i]);
      }
      r
  }

  /** What every trimmed line of a text is: trimmed, free of line feeds, and a
      piece of the text. */
  lemma {:induction false} LineOfText(text: string, x: string)
    requires x in TrimAll(Split(text))
    ensures IsTrimmed(x) && '\n' !in x && IsSubstring(x, text)
  {
    var lines := Split(text);
    var trimmed := TrimAll(lines);
    var j :| 0 <= j < |trimmed| && trimmed[j] == x;
    LineIsSubstring(lines, j);
    TrimIsSubstring(lines[j]);
    SubstringTransitive(x, lines[j], text);
    SubstringKeepsAbsence(x, lines[j], '\n');
  }

  /** Each line of a split is a piece of the text. */
  lemma {:induction false} LineIsSubstring(lines: seq<string>, j: nat)
    requires j < |lines|
    ensures IsSubstring(lines[j], Join(lines))
    decreases j
  {
    if j == 0 {
      if |lines| > 1 {
        assert lines[0] <= Join(lines)[0..];
      } else {
        assert lines[0] <= Join(lines)[0..];
      }
    } else {
      LineIsSubstring(lines[1..], j - 1);
      assert lines[1..][j - 1] == lines[j];
      var rest := Join(lines[1..]);
      var whole := Join(lines);
      assert whole == lines[0] + "\n" + rest;
      assert IsSubstring(rest, whole) by {
        assert rest <= whole[|lines[0]| + 1..];
      }
      SubstringTransitive(lines[j], rest, whole);
    }
  }

  lemma {:induction false} SubstringKeepsAbsence(a: string, b: string, c: char)
    requires IsSubstring(a, b) && c !in b
    ensures c !in a
  {
    var i :| 0 <= i <= |b| && a <= b[i..];
    forall k | 0 <= k < |a| ensures a[k] != c {
      assert a[k] == b[i + k];
    }
  }

  /** The strengths list of a cleaned text. */
  function Strengths(s: string): (r: seq<string>)
    ensures forall i :: 0 <= i < |r| ==> r[i] != [] && IsTrimmed(r[i]) && '\n' !in r[i] && IsSubstring(r[i], s)
    ensures !ContainsCi(s, StrengthsHeader) ==> r == []
    ensures forall i :: 0 <= i < |r| ==> !ContainsCi(r[i], ImprovementsHeader)
    ensures IsSectionList(r, s, StrengthsHeader, Some(ImprovementsHeader))
  {
    var cap := Capture(s, StrengthsHeader, Some(ImprovementsHeader));
    CaptureSpec(s, StrengthsHeader, Some(ImprovementsHeader));
    var r := Items(cap, Some(ImprovementsHeader));
    assert forall i :: 0 <= i < |r| ==> !ContainsCi(r[i], ImprovementsHeader) by {
      forall i | 0 <= i < |r| ensures !ContainsCi(r[i], ImprovementsHeader) {
        AbsenceInSubstring(r[i], cap.value, ImprovementsHeader);
      }
    }
    assert forall i :: 0 <= i < |r| ==> IsSubstring(r[i], s) by {
      forall i | 0 <= i < |r| ensures IsSubstring(r[i], s) {
        SubstringTransitive(r[i], cap.value, s);
      }
    }
    r
  }

  /** The improvements list of a cleaned text. */
  function Improvements(s: string): (r: seq<string>)
    ensures forall i :: 0 <= i < |r| ==> r[i] != [] && IsTrimmed(r[i]) && '\n' !in r[i] && IsSubstring(r[i], s)
    ensures !ContainsCi(s, ImprovementsHeader) ==> r == []
    ensures forall i :: 0 <= i < |r| ==> !ContainsCi(r[i], RecommendationsHeader)
    ensures IsSectionList(r, s, ImprovementsHeader, Some(RecommendationsHeader))
  {
    var cap := Capture(s, ImprovementsHeader, Some(RecommendationsHeader));
    CaptureSpec(s, ImprovementsHeader, Some(RecommendationsHeader));
    var r := Items(cap, Some(RecommendationsHeader));
    assert forall i :: 0 <= i < |r| ==> !ContainsCi(r[i], RecommendationsHeader) by {
      forall i | 0 <= i < |r| ensures !ContainsCi(r[i], RecommendationsHeader) {
        AbsenceInSubstring(r[i], cap.value, RecommendationsHeader);
      }
    }
    assert forall i :: 0 <= i < |r| ==> IsSubstring(r[i], s) by {
      forall i | 0 <= i < |r| ensures IsSubstring(r[i], s) {
        SubstringTransitive(r[i], cap.value, s);
      }
    }
    r
  }

  /** The recommendations list of a cleaned text: every non-blank line after
      the first header, to the end of the text. */
  function Recommendations(s: string): (r: seq<string>)
    ensures forall i :: 0 <= i < |r| ==> r[i] != [] && IsTrimmed(r[i]) && '\n' !in r[i] && IsSubstring(r[i], s)
    ensures !ContainsCi(s, RecommendationsHeader) ==> r == []
    ensures IsSectionList(r, s, RecommendationsHeader, None)
  {
    var cap := Capture(s, RecommendationsHeader, None);
    CaptureSpec(s, RecommendationsHeader, None);
    var r := Items(cap, None);
    forall i | 0 <= i < |r| ensures IsSubstring(r[i], s) {
      SubstringTransitive(r[i], cap.value, s);
    }
    r
  }

  /** A piece of a text that never mentions `t` does not mention it either. */
  lemma {:induction false} AbsenceInSubstring(a: string, b: string, t: string)
    requires IsSubstring(a, b) && !ContainsCi(b, t)
    ensures !ContainsCi(a, t)
  {
    var i :| 0 <= i <= |b| && a <= b[i..];
    forall p: nat | p <= |a| ensures !MatchesCiAt(a, p, t) {
      if p + |t| <= |a| {
        assert !MatchesCiAt(b, i + p, t);
        var j :| 0 <= j < |t| && Lower(b[i + p + j]) != Lower(t[j]);
        assert a[p + j] == b[i + p + j];
      }
    }
  }

  // ---------------------------------------------------------------------------
  // Sections of a reply laid out one item per line

  /** Trimmed lines are left as they are by `.map(line => line.trim())`. */
  lemma {:induction false} TrimAllTrimmed(lines: seq<string>)
    requires forall i :: 0 <= i < |lines| ==> IsTrimmed(lines[i])
    ensures TrimAll(lines) == lines
    decreases |lines|
  {
    if lines != [] {
      TrimOfTrimmed(lines[0]);
      forall i | 0 <= i < |lines[1..]| ensures IsTrimmed(lines[1..][i]) {
        assert lines[1..][i] == lines[i + 1];
      }
      TrimAllTrimmed(lines[1..]);
      assert TrimAll(lines) == [Trim(lines[0])] + TrimAll(lines[1..]);
      assert [lines[0]] + lines[1..] == lines;
    }
  }

  /** The filter keeps every non-empty line that does not mention the echo,
      and drops a trailing empty line. */
  lemma {:induction false} KeepLinesKeeps(lines: seq<string>, echo: Option<string>)
    requires forall i :: 0 <= i < |lines| ==> lines[i] != [] && (echo.None? || !Contains(lines[i], echo.value))
    ensures KeepLines(lines, echo) == lines
    ensures KeepLines(lines + [[]], echo) == lines
    decreases |lines|
  {
    if lines == [] {
      var blank: seq<string> := [[]];
      KeepLinesStep(blank, echo);
      assert blank[1..] == [];
    } else {
      KeepLinesKeeps(lines[1..], echo);
      var longer := lines + [[]];
      assert longer[0] == lines[0] && longer[1..] == lines[1..] + [[]];
      assert Kept(lines[0], echo);
      KeepLinesStep(lines, echo);
      KeepLinesStep(longer, echo);
      assert [lines[0]] + lines[1..] == lines;
    }
  }

  /** One step of the filter. */
  lemma {:induction false} KeepLinesStep(lines: seq<string>, echo: Option<string>)
    requires lines != []
    ensures Kept(lines[0], echo) ==> KeepLines(lines, echo) == [lines[0]] + KeepLines(lines[1..], echo)
    ensures !Kept(lines[0], echo) ==> KeepLines(lines, echo) == KeepLines(lines[1..], echo)
  {
  }

  /** The lines of a section body that are items: each a content line. */
  predicate IsItemLine(x: string) {
    x != [] && IsTrimmed(x) && forall k :: 0 <= k < |x| ==> x[k] != '\n'
  }

  /** Items laid out one per line, each followed by a line feed, come back
      from the split, trim and filter unchanged. */
  lemma {:induction false} ItemsOfLines(items: seq<string>, trailing: bool, echo: Option<string>)
    requires forall i :: 0 <= i < |items| ==> IsItemLine(items[i])
    requires echo.Some? ==> forall i :: 0 <= i < |items| ==> !ContainsCi(items[i], echo.value)
    requires items == [] ==> !trailing
    ensures Items(Some(Join(items) + (if trailing then "\n" else "")), echo) == items
  {
    if items == [] {
      EmptyBodyHasNoItems(echo);
    } else {
      NonEmptyItemsOfLines(items, trailing, echo);
      ItemsUnfold(Join(items) + (if trailing then "\n" else ""), echo);
    }
  }

  lemma {:induction false} NonEmptyItemsOfLines(items: seq<string>, trailing: bool, echo: Option<string>)
    requires forall i :: 0 <= i < |items| ==> IsItemLine(items[i])
    requires echo.Some? ==> forall i :: 0 <= i < |items| ==> !ContainsCi(items[i], echo.value)
    requires items != []
    ensures KeepLines(TrimAll(Split(Join(items) + (if trailing then "\n" else ""))), echo) == items
  {
    LinesOfItems(items, trailing);
    NoEchoInItems(items, echo);
    KeepLinesKeeps(items, echo);
    if trailing {
      var lines := items + [[]];
      forall i | 0 <= i < |lines| ensures IsTrimmed(lines[i]) {
        if i < |items| {
          assert lines[i] == items[i];
        }
      }
      TrimAllTrimmed(lines);
    } else {
      TrimAllTrimmed(items);
    }
  }

  lemma {:induction false} ItemsUnfold(text: string, echo: Option<string>)
    ensures Items(Some(text), echo) == KeepLines(TrimAll(Split(text)), echo)
  {
  }

  lemma {:induction false} NoEchoInItems(items: seq<string>, echo: Option<string>)
    requires echo.Some? ==> forall i :: 0 <= i < |items| ==> !ContainsCi(items[i], echo.value)
    ensures forall i :: 0 <= i < |items| ==> echo.None? || !Contains(items[i], echo.value)
  {
    forall i | 0 <= i < |items| ensures echo.None? || !Contains(items[i], echo.value) {
      if echo.Some? {
        CiAbsenceIsAbsence(items[i], echo.value);
      }
    }
  }

  lemma {:induction false} EmptyBodyHasNoItems(echo: Option<string>)
    ensures Items(Some([]), echo) == []
  {
    assert Split([]) == [[]];
    assert TrimAll([[]]) == [[]];
  }

  lemma {:induction false} LinesOfItems(items: seq<string>, trailing: bool)
    requires forall i :: 0 <= i < |items| ==> IsItemLine(items[i])
    requires items != []
    ensures Split(Join(items) + (if trailing then "\n" else "")) == (if trailing then items + [[]] else items)
    ensures forall i :: 0 <= i < |items| ==> IsTrimmed(items[i])
  {
    var lines := if trailing then items + [[]] else items;
    if trailing {
      JoinAppend(items, [[]]);
    }
    assert Join(lines) == Join(items) + (if trailing then "\n" else "");
    SplitJoin(lines);
  }

  /** A header line followed by its item lines. */
  lemma {:induction false} HeaderThenItems(H: string, S: seq<string>)
    ensures S == [] ==> Join([H + ":"] + S) == H + ":"
    ensures S != [] ==> Join([H + ":"] + S) == H + ":" + "\n" + Join(S)
  {
    if S != [] {
      assert ([H + ":"] + S)[1..] == S;
    }
  }

  /** A text that starts with the header matches the header at its start. */
  lemma {:induction false} HeaderFoundAtStart(H: string, T: string)
    ensures FindCi(H + T, H, 0) == Some(0)
  {
    assert MatchesAt(H + T, 0, H);
    MatchesAtIsMatchesCiAt(H + T, 0, H);
  }

  /** A section with a body, followed by the next section's header: the
      capture is the body with its closing line feed. */
  lemma {:induction false} BodyBeforeStop(H: string, X: string, rest: string, stop: string)
    requires stop != [] && '\n' !in stop
    requires FindCi(rest, stop, 0) == Some(0)
    requires X != [] && !IsSpace(X[0]) && !ContainsCi(X, stop)
    ensures Capture(H + ":" + "\n" + X + "\n" + rest, H, Some(stop)) == Some(X + "\n")
  {
    var U := H + ":" + "\n";
    var V := X + "\n" + rest;
    ConcatAssoc(U, X, "\n", rest);
    BodyStartAfterHeader(H, V);
    StopAfterBody(U, X, rest, stop);
    assert |U| == |H| + 2;
    CaptureFound(U + V, H, Some(stop), 0, |U|, |U| + |X| + 1);
    assert (U + V)[|U|..|U| + |X| + 1] == X + "\n";
  }

  lemma {:induction false} ConcatAssoc(a: string, b: string, c: string, d: string)
    ensures a + b + c + d == a + (b + c + d)
  {
  }

  /** The body of a section starts right after the header's line when the
      next line starts with a visible character. */
  lemma {:induction false} BodyStartAfterHeader(H: string, V: string)
    requires V != [] && !IsSpace(V[0])
    ensures FindCi(H + ":" + "\n" + V, H, 0) == Some(0)
    ensures BodyStart(H + ":" + "\n" + V, 0, H) == |H| + 2
  {
    var U := H + ":" + "\n";
    var R := U + V;
    HeaderFoundAtStart(H, ":" + "\n" + V);
    assert H + (":" + "\n" + V) == R;
    assert R[|U|] == V[0];
    assert SkipSpace(R, |U|) == |U|;
    assert R[|H|] == ':' && R[|H| + 1] == '\n';
  }

  /** The next header is found right after the body's last line feed. */
  lemma {:induction false} StopAfterBody(U: string, X: string, rest: string, stop: string)
    requires stop != [] && '\n' !in stop
    requires FindCi(rest, stop, 0) == Some(0) && !ContainsCi(X, stop)
    ensures FindCi(U + (X + "\n" + rest), stop, |U|) == Some(|U| + |X| + 1)
  {
    FindCiSkipsLine(X, rest, stop, 0, 0);
    FindCiShift(U, X + "\n" + rest, stop, 0, |X| + 1);
  }

  /** A section without a body, followed by the next section's header: the
      capture is empty. */
  lemma {:induction false} EmptyBeforeStop(H: string, rest: string, stop: string)
    requires stop != [] && rest != [] && !IsSpace(rest[0]) && FindCi(rest, stop, 0) == Some(0)
    ensures Capture(H + ":" + "\n" + rest, H, Some(stop)) == Some([])
  {
    var U := H + ":" + "\n";
    BodyStartAfterHeader(H, rest);
    FindCiShift(U, rest, stop, 0, 0);
    assert |U| == |H| + 2;
    assert CaptureEnd(U + rest, |U|, Some(stop)) == |U|;
    CaptureFound(U + rest, H, Some(stop), 0, |U|, |U|);
    assert (U + rest)[|U|..|U|] == [];
  }

  /** The last section, with a body: the capture runs to the end of the text. */
  lemma {:induction false} BodyAtEnd(H: string, X: string)
    requires X != [] && !IsSpace(X[0])
    ensures Capture(H + ":" + "\n" + X, H, None) == Some(X)
  {
    var U := H + ":" + "\n";
    var R := U + X;
    BodyStartAfterHeader(H, X);
    assert |U| == |H| + 2;
    CaptureFound(R, H, None, 0, |U|, |R|);
    assert R[|U|..|R|] == X;
  }

  /** The last section, without a body. */
  lemma {:induction false} EmptyAtEnd(H: string)
    ensures Capture(H + ":", H, None) == Some([])
  {
    HeaderFoundAtStart(H, ":");
    assert BodyStart(H + ":", 0, H) == |H| + 1;
    CaptureFound(H + ":", H, None, 0, |H| + 1, |H| + 1);
    assert (H + ":")[|H| + 1..|H| + 1] == [];
  }

  /** The body of a section that the next section's header follows: its item
      lines, each with its line feed. */
  lemma {:induction false} MiddleSectionBody(H: string, S: seq<string>, rest: string, stop: string)
    requires stop != [] && '\n' !in stop
    requires rest != [] && !IsSpace(rest[0]) && FindCi(rest, stop, 0) == Some(0)
    requires forall i :: 0 <= i < |S| ==> IsItemLine(S[i]) && !ContainsCi(S[i], stop)
    ensures Capture(Join([H + ":"] + S) + "\n" + rest, H, Some(stop))
              == Some(Join(S) + (if S == [] then "" else "\n"))
  {
    HeaderThenItems(H, S);
    if S == [] {
      assert Join([H + ":"] + S) + "\n" + rest == H + ":" + "\n" + rest;
      EmptyBeforeStop(H, rest, stop);
      assert Join(S) + "" == [];
    } else {
      JoinNoCi(S, stop);
      JoinStartsWith(S);
      BodyBeforeStop(H, Join(S), rest, stop);
    }
  }

  /** The body of the last section: its item lines, to the end of the text. */
  lemma {:induction false} LastSectionBody(H: string, S: seq<string>)
    requires forall i :: 0 <= i < |S| ==> IsItemLine(S[i])
    ensures Capture(Join([H + ":"] + S), H, None) == Some(Join(S))
  {
    HeaderThenItems(H, S);
    if S == [] {
      EmptyAtEnd(H);
    } else {
      JoinStartsWith(S);
      BodyAtEnd(H, Join(S));
    }
  }

  /** Where the header is first found, the capture is the text from the body
      start `b` to the end `e` of the lazy group. */
  lemma {:induction false} CaptureFound(s: string, header: string, stop: Option<string>, h: nat, b: nat, e: nat)
    requires stop.Some? ==> stop.value != []
    requires FindCi(s, header, 0) == Some(h)
    requires h + |header| <= |s| && b == BodyStart(s, h, header) && e == CaptureEnd(s, b, stop)
    ensures b <= e <= |s|
    ensures Capture(s, header, stop) == Some(s[b..e])
  {
  }

  /** The same, for a capture already known by its text `v`. */
  lemma {:induction false} CaptureIs(s: string, header: string, stop: Option<string>, h: nat, b: nat, e: nat, v: string)
    requires stop.Some? ==> stop.value != []
    requires FindCi(s, header, 0) == Some(h)
    requires h + |header| <= |s| && b == BodyStart(s, h, header) && e == CaptureEnd(s, b, stop)
    requires b <= e <= |s| && s[b..e] == v
    ensures Capture(s, header, stop) == Some(v)
  {
    CaptureFound(s, header, stop, h, b, e);
  }

  /** A capture whose header is first found where the text `R` after `P`
      starts is the capture of `R`. */
  lemma {:induction false} CaptureAfter(P: string, R: string, H: string, stop: Option<string>)
    requires stop.Some? ==> stop.value != []
    requires FindCi(P + R, H, 0) == Some(|P|) && FindCi(R, H, 0) == Some(0)
    ensures Capture(P + R, H, stop) == Capture(R, H, stop)
  {
    var c := BodyStart(R, 0, H);
    var k := CaptureEnd(R, c, stop);
    calc {
      Capture(P + R, H, stop);
      { CaptureShift(P, R, H, stop, c, k);
        CaptureFound(P + R, H, stop, |P|, |P| + c, |P| + k); }
      Some((P + R)[|P| + c..|P| + k]);
      { CaptureShift(P, R, H, stop, c, k); }
      Some(R[c..k]);
      { CaptureFound(R, H, stop, 0, c, k); }
      Capture(R, H, stop);
    }
  }

  /** Body start, lazy-group end and captured text, moved behind `P`. */
  lemma {:induction false} CaptureShift(P: string, R: string, H: string, stop: Option<string>, c: nat, k: nat)
    requires |H| <= |R| && c == BodyStart(R, 0, H) && k == CaptureEnd(R, c, stop)
    ensures BodyStart(P + R, |P|, H) == |P| + c
    ensures CaptureEnd(P + R, |P| + c, stop) == |P| + k
    ensures (P + R)[|P| + c..|P| + k] == R[c..k]
  {
    BodyStartShift(P, R, H);
    CaptureEndShift(P, R, c, stop);
    SliceOfSecond(P, R, c, k);
  }

  lemma {:induction false} BodyStartShift(P: string, R: string, H: string)
    requires |H| <= |R|
    ensures BodyStart(P + R, |P|, H) == |P| + BodyStart(R, 0, H)
  {
    var s := P + R;
    assert s[|P|..] == R;
    var q := |H|;
    var start := if q < |R| && R[q] == ':' then q + 1 else q;
    assert (if |P| + q < |s| && s[|P| + q] == ':' then |P| + q + 1 else |P| + q) == |P| + start;
    SkipSpaceShift(s, |P|, start);
  }

  /** The first case-insensitive occurrence of the header in a text made of
      lines, none of which mentions it, then the header's own section. */
  lemma {:induction false} HeaderAfterLines(lines: seq<string>, H: string, T: string)
    requires H != [] && '\n' !in H
    requires |lines| >= 1 && forall i :: 0 <= i < |lines| ==> !ContainsCi(lines[i], H)
    ensures FindCi(Join(lines) + "\n" + (H + T), H, 0) == Some(|Join(lines)| + 1)
  {
    JoinNoCi(lines, H);
    HeaderAfterText(Join(lines), H, T);
  }

  lemma {:induction false} HeaderAfterText(J: string, H: string, T: string)
    requires H != [] && '\n' !in H && !ContainsCi(J, H)
    ensures FindCi(J + "\n" + (H + T), H, 0) == Some(|J| + 1)
  {
    HeaderFoundAtStart(H, T);
    FindCiSkipsLine(J, H + T, H, 0, 0);
  }

  // ---------------------------------------------------------------------------
  // Case-insensitive headers

  /** The header where the text starts, spelt in any mix of cases. */
  lemma {:induction false} CaseVariantAtStart(h: string, header: string, T: string)
    requires |h| == |header| && forall k :: 0 <= k < |h| ==> Lower(h[k]) == Lower(header[k])
    ensures FindCi(h + T, header, 0) == Some(0)
  {
    forall k | 0 <= k < |header| ensures Lower((h + T)[0 + k]) == Lower(header[k]) {
      assert (h + T)[k] == h[k];
    }
  }

  /** Where the body starts does not depend on how the header is spelt. */
  lemma {:induction false} BodyStartAfterVariant(h: string, header: string, T: string)
    requires |h| == |header|
    ensures BodyStart(h + T, 0, header) == |h| + SkipSpace(T, if T != [] && T[0] == ':' then 1 else 0)
  {
    var s := h + T;
    assert s[|h|..] == T;
    var start := if T != [] && T[0] == ':' then 1 else 0;
    assert (if |h| < |s| && s[|h|] == ':' then |h| + 1 else |h|) == start + |h|;
    SkipSpaceShift(s, |h|, start);
  }

  /** The capture of a section whose header ends where `T` begins: it
      depends on `T` alone. */
  function CaptureOfRest(T: string, stop: Option<string>): string
    requires stop.Some? ==> stop.value != []
  {
    var b := SkipSpace(T, if T != [] && T[0] == ':' then 1 else 0);
    T[b..CaptureEnd(T, b, stop)]
  }

  lemma {:induction false} CaptureAtStart(h: string, header: string, T: string, stop: Option<string>)
    requires |h| == |header| && forall k :: 0 <= k < |h| ==> Lower(h[k]) == Lower(header[k])
    requires stop.Some? ==> stop.value != []
    ensures Capture(h + T, header, stop) == Some(CaptureOfRest(T, stop))
  {
    var b := SkipSpace(T, if T != [] && T[0] == ':' then 1 else 0);
    var e := CaptureEnd(T, b, stop);
    CaseVariantAtStart(h, header, T);
    AtStartParts(h, header, T, stop, b, e);
  }

  /** The capture of a section whose header, in any spelling, opens the
      text, from its body start `b` and lazy-group end `e` in the rest. */
  lemma {:induction false} AtStartParts(h: string, header: string, T: string, stop: Option<string>, b: nat, e: nat)
    requires |h| == |header| && FindCi(h + T, header, 0) == Some(0)
    requires stop.Some? ==> stop.value != []
    requires b == SkipSpace(T, if T != [] && T[0] == ':' then 1 else 0) && b <= |T|
    requires e == CaptureEnd(T, b, stop)
    ensures Capture(h + T, header, stop) == Some(T[b..e])
  {
    BodyStartAfterVariant(h, header, T);
    CaptureEndShift(h, T, b, stop);
    SliceOfSecond(h, T, b, e);
    CaptureIs(h + T, header, stop, 0, |h| + b, |h| + e, T[b..e]);
  }

  /** The header matches in any mix of cases: a section captured under a
      differently spelt header is the section captured under the header
      itself. */
  lemma {:induction false} CaptureIgnoresHeaderCase(h: string, header: string, T: string, stop: Option<string>)
    requires |h| == |header| && forall k :: 0 <= k < |h| ==> Lower(h[k]) == Lower(header[k])
    requires stop.Some? ==> stop.value != []
    ensures Capture(h + T, header, stop) == Capture(header + T, header, stop)
  {
    CaptureAtStart(h, header, T, stop);
    CaptureAtStart(header, header, T, stop);
  }

  /** For instance, "key strengths" opens the strengths section. */
  lemma {:induction false} LowerCaseStrengthsHeader(T: string)
    ensures Capture("key strengths" + T, StrengthsHeader, Some(ImprovementsHeader))
            == Capture(StrengthsHeader + T, StrengthsHeader, Some(ImprovementsHeader))
  {
    CaptureIgnoresHeaderCase("key strengths", StrengthsHeader, T, Some(ImprovementsHeader));
  }
}
