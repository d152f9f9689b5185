/** The reply format the analysis prompt asks the language model for, and what
    the analysis parser makes of a reply in that format:

      Overall Score: X
      Key Strengths:
      - point
      Areas for Improvement:
      - point
      Specific Recommendations:
      - point

    A reply written this way parses back to the analysis it was written
    from; cleaning such a reply and parsing the result again does not. */
module ResponseFormat {
  import opened Outcomes
  import opened Text
  import opened Cleaning
  import opened Score
  import opened Sections
  import opened AnalysisParser

  /** The score line the prompt asks for. */
  function ScoreLine(score: string): string {
    "Overall Score: " + score
  }

  /** A section: its header line, then one line per item. */
  function Section(header: string, items: seq<string>): seq<string> {
    [header + ":"] + items
  }

  /** The lines of an analysis, in the order the prompt lists them. */
  function Lines(a: Analysis): seq<string> {
    [ScoreLine(a.score)]
      + Section(StrengthsHeader, a.strengths)
      + Section(ImprovementsHeader, a.improvements)
      + Section(RecommendationsHeader, a.recommendations)
  }

  /** Every item behind the dash bullet the prompt asks for. */
  function Dashed(items: seq<string>): (r: seq<string>)
    ensures |r| == |items|
    ensures forall i :: 0 <= i < |r| ==> r[i] == "- " + items[i]
  {
    if items == [] then [] else ["- " + items[0]] + Dashed(items[1..])
  }

  function DashAll(a: Analysis): Analysis {
    Analysis(a.score, Dashed(a.strengths), Dashed(a.improvements), Dashed(a.recommendations))
  }

  /** The reply a model following the prompt writes for `a`. */
  function Render(a: Analysis): string {
    Join(Lines(DashAll(a)))
  }

  /** An item the reply can carry: one visible, trimmed line without
      asterisks that mentions none of the three headers. */
  predicate IsItem(x: string) {
    IsContentLine(x) && IsTrimmed(x) && '*' !in x
    && !ContainsCi(x, StrengthsHeader) && !ContainsCi(x, ImprovementsHeader)
    && !ContainsCi(x, RecommendationsHeader)
  }

  predicate AllItems(items: seq<string>) {
    forall i :: 0 <= i < |items| ==> IsItem(items[i])
  }

  /** An analysis the prompted format can express. */
  predicate WellFormed(a: Analysis) {
    IsNumeral(a.score) && AllItems(a.strengths) && AllItems(a.improvements)
    && AllItems(a.recommendations)
  }

  /** A bullet class that removes the dash and leaves the first letters of the
      score and header lines alone; both handlers' classes are such. */
  predicate DashBullets(bullets: set<char>) {
    '-' in bullets && 'O' !in bullets && 'K' !in bullets && 'A' !in bullets && 'S' !in bullets
  }

  lemma {:induction false} HandlerBulletsAreDashBullets()
    ensures DashBullets(UserControllerBullets) && DashBullets(AnalyzerBullets)
  {
  }

  /** What every line of a cleaned prompted reply is. */
  predicate IsCleanLine(x: string) {
    IsContentLine(x) && IsTrimmed(x) && '*' !in x
  }

  lemma {:induction false} NumeralChars(n: string)
    requires IsNumeral(n)
    ensures forall i :: 0 <= i < |n| ==> IsDigit(n[i]) || n[i] == '.'
  {
    if !(n != [] && AllDigits(n)) {
      var d :| 0 < d < |n| - 1 && n[d] == '.' && AllDigits(n[..d]) && AllDigits(n[d + 1..]);
      forall i | 0 <= i < |n| ensures IsDigit(n[i]) || n[i] == '.' {
        if i < d {
          assert n[i] == n[..d][i];
        } else if i > d {
          assert n[i] == n[d + 1..][i - d - 1];
        }
      }
    }
  }

  lemma {:induction false} ScoreLineIsClean(score: string)
    requires IsNumeral(score)
    ensures IsCleanLine(ScoreLine(score))
  {
    NumeralChars(score);
    var s := ScoreLine(score);
    forall k | 0 <= k < |s| ensures !IsLineBreak(s[k]) && s[k] != '*' {
      if k >= 15 {
        assert s[k] == score[k - 15];
      }
    }
    assert s[|s| - 1] == score[|score| - 1];
  }

  /** A header holds no character a number is made of. */
  predicate HasNoNumeralChar(header: string) {
    forall k :: 0 <= k < |header| ==> !IsDigit(header[k]) && header[k] != '.'
  }

  lemma {:induction false} HeadersHaveNoNumeralChar()
    ensures HasNoNumeralChar(StrengthsHeader)
    ensures HasNoNumeralChar(ImprovementsHeader)
    ensures HasNoNumeralChar(RecommendationsHeader)
  {
  }

  /** An occurrence of a header cannot reach into the number of the score line. */
  lemma {:induction false} NoMentionOverScore(score: string, header: string, p: nat)
    requires forall i :: 0 <= i < |score| ==> IsDigit(score[i]) || score[i] == '.'
    requires header != [] && HasNoNumeralChar(header)
    requires p + |header| > 15
    ensures !MatchesCiAt(ScoreLine(score), p, header)
  {
    var s := ScoreLine(score);
    if p + |header| <= |s| {
      var k := if p <= 15 then 15 - p else 0;
      assert s[p + k] == score[p + k - 15];
      assert !IsDigit(header[k]) && header[k] != '.';
      assert Lower(s[p + k]) != Lower(header[k]);
    }
  }

  /** The score line mentions no header: the caption is too short to hold one
      and the number holds only digits and points. */
  lemma {:induction false} ScoreLineMentionsNoHeader(score: string, header: string)
    requires IsNumeral(score)
    requires header in {StrengthsHeader, ImprovementsHeader, RecommendationsHeader}
    ensures !ContainsCi(ScoreLine(score), header)
  {
    NumeralChars(score);
    HeadersHaveNoNumeralChar();
    var s := ScoreLine(score);
    forall p: nat | p <= |s| ensures !MatchesCiAt(s, p, header) {
      if p + |header| <= 15 {
        assert header == StrengthsHeader && p <= 2;
        assert s[p] in "Ove";
        assert Lower(s[p]) != Lower(header[0]);
      } else {
        NoMentionOverScore(score, header, p);
      }
    }
  }

  /** A dashed item is an item. */
  lemma {:induction false} DashedItem(x: string)
    requires IsItem(x)
    ensures IsItem("- " + x)
  {
    var d := "- " + x;
    forall k | 0 <= k < |d| ensures !IsLineBreak(d[k]) && d[k] != '*' {
      if k >= 2 {
        assert d[k] == x[k - 2];
      }
    }
    assert d[|d| - 1] == x[|x| - 1];
    DashedNoHeader(x, StrengthsHeader);
    DashedNoHeader(x, ImprovementsHeader);
    DashedNoHeader(x, RecommendationsHeader);
  }

  /** The dash and the space in front of a line start none of the headers. */
  lemma {:induction false} DashedNoHeader(x: string, header: string)
    requires header in {StrengthsHeader, ImprovementsHeader, RecommendationsHeader}
    requires !ContainsCi(x, header)
    ensures !ContainsCi("- " + x, header)
  {
    var d := "- " + x;
    forall p: nat | p <= |d| ensures !MatchesCiAt(d, p, header) {
      if p < 2 {
        assert Lower(d[p]) != Lower(header[0]);
      } else {
        MatchesCiShift("- ", x, p - 2, header);
      }
    }
  }

  lemma {:induction false} DashedItems(items: seq<string>)
    requires AllItems(items)
    ensures AllItems(Dashed(items))
  {
    forall i | 0 <= i < |items| ensures IsItem(Dashed(items)[i]) {
      DashedItem(items[i]);
    }
  }

  lemma {:induction false} DashAllWellFormed(a: Analysis)
    requires WellFormed(a)
    ensures WellFormed(DashAll(a))
  {
    DashedItems(a.strengths);
    DashedItems(a.improvements);
    DashedItems(a.recommendations);
  }

  // ---------------------------------------------------------------------------
  // Cleaning a prompted reply

  predicate AllClean(xs: seq<string>) {
    forall i :: 0 <= i < |xs| ==> IsCleanLine(xs[i])
  }

  lemma {:induction false} AllCleanAppend(xs: seq<string>, ys: seq<string>)
    requires AllClean(xs) && AllClean(ys)
    ensures AllClean(xs + ys)
  {
    forall i | 0 <= i < |xs + ys| ensures IsCleanLine((xs + ys)[i]) {
      if i >= |xs| {
        assert (xs + ys)[i] == ys[i - |xs|];
      } else {
        assert (xs + ys)[i] == xs[i];
      }
    }
  }

  /** A header line is a clean line. */
  lemma {:induction false} HeaderLineIsClean(header: string)
    requires header in {StrengthsHeader, ImprovementsHeader, RecommendationsHeader}
    ensures IsCleanLine(header + ":")
  {
    var h := header + ":";
    forall k | 0 <= k < |h| ensures !IsLineBreak(h[k]) && h[k] != '*' {
      if k < |header| {
        assert h[k] == header[k];
      }
    }
  }

  /** The lines of a section of items are clean lines. */
  lemma {:induction false} SectionIsClean(header: string, items: seq<string>)
    requires header in {StrengthsHeader, ImprovementsHeader, RecommendationsHeader}
    requires AllItems(items)
    ensures AllClean(Section(header, items))
  {
    HeaderLineIsClean(header);
    assert AllClean([header + ":"]);
    assert AllClean(items);
    AllCleanAppend([header + ":"], items);
  }

  /** Every line of a well-formed analysis is a clean line. */
  lemma {:induction false} LinesAreClean(a: Analysis)
    requires WellFormed(a)
    ensures forall i :: 0 <= i < |Lines(a)| ==> IsCleanLine(Lines(a)[i])
  {
    ScoreLineIsClean(a.score);
    var s0 := [ScoreLine(a.score)];
    var l1 := Section(StrengthsHeader, a.strengths);
    var l2 := Section(ImprovementsHeader, a.improvements);
    var l3 := Section(RecommendationsHeader, a.recommendations);
    assert AllClean(s0);
    SectionIsClean(StrengthsHeader, a.strengths);
    SectionIsClean(ImprovementsHeader, a.improvements);
    SectionIsClean(RecommendationsHeader, a.recommendations);
    AllCleanAppend(s0, l1);
    AllCleanAppend(s0 + l1, l2);
    AllCleanAppend(s0 + l1 + l2, l3);
    assert Lines(a) == s0 + l1 + l2 + l3;
  }

  /** Lines that the bullet pass maps one by one onto other lines. */
  predicate StripPairwise(raws: seq<string>, cleans: seq<string>, bullets: set<char>) {
    |raws| == |cleans| && forall i :: 0 <= i < |raws| ==> StripsTo(raws[i], cleans[i], bullets)
  }

  lemma {:induction false} StripPairwiseAppend(r1: seq<string>, c1: seq<string>, r2: seq<string>, c2: seq<string>, bullets: set<char>)
    requires StripPairwise(r1, c1, bullets) && StripPairwise(r2, c2, bullets)
    ensures StripPairwise(r1 + r2, c1 + c2, bullets)
  {
    forall i | 0 <= i < |r1 + r2| ensures StripsTo((r1 + r2)[i], (c1 + c2)[i], bullets) {
      if i >= |r1| {
        assert (r1 + r2)[i] == r2[i - |r1|] && (c1 + c2)[i] == c2[i - |c1|];
      }
    }
  }

  lemma {:induction false} SectionStrips(header: string, items: seq<string>, bullets: set<char>)
    requires DashBullets(bullets) && header in {StrengthsHeader, ImprovementsHeader, RecommendationsHeader}
    requires AllItems(items)
    ensures StripPairwise(Section(header, Dashed(items)), Section(header, items), bullets)
  {
    var raws := Section(header, Dashed(items));
    var cleans := Section(header, items);
    forall i | 0 <= i < |raws| ensures StripsTo(raws[i], cleans[i], bullets) {
      if i == 0 {
        assert raws[0] == cleans[0] == header + ":";
        HeaderLineIsClean(header);
        assert cleans[0][0] == header[0];
      } else {
        assert raws[i] == "- " + items[i - 1] && cleans[i] == items[i - 1];
      }
    }
  }

  /** The bullet pass turns the prompted reply into the analysis's lines. */
  lemma {:induction false} StripRender(a: Analysis, bullets: set<char>)
    requires WellFormed(a) && DashBullets(bullets)
    ensures StripPairwise(Lines(DashAll(a)), Lines(a), bullets)
  {
    ScoreLineIsClean(a.score);
    assert StripPairwise([ScoreLine(a.score)], [ScoreLine(a.score)], bullets);
    SectionStrips(StrengthsHeader, a.strengths, bullets);
    SectionStrips(ImprovementsHeader, a.improvements, bullets);
    SectionStrips(RecommendationsHeader, a.recommendations, bullets);
    var s0 := [ScoreLine(a.score)];
    var r1 := Section(StrengthsHeader, Dashed(a.strengths));
    var c1 := Section(StrengthsHeader, a.strengths);
    var r2 := Section(ImprovementsHeader, Dashed(a.improvements));
    var c2 := Section(ImprovementsHeader, a.improvements);
    StripPairwiseAppend(s0, s0, r1, c1, bullets);
    StripPairwiseAppend(s0 + r1, s0 + c1, r2, c2, bullets);
    StripPairwiseAppend(s0 + r1 + r2, s0 + c1 + c2,
      Section(RecommendationsHeader, Dashed(a.recommendations)),
      Section(RecommendationsHeader, a.recommendations), bullets);
  }

  /** Cleaning a prompted reply leaves exactly the analysis's lines: no
      asterisks to remove, one dash bullet per item, no blank line, nothing to
      trim. */
  lemma {:induction false} NormaliseRender(a: Analysis, bullets: set<char>)
    requires WellFormed(a) && DashBullets(bullets)
    ensures Normalise(Render(a), bullets) == Join(Lines(a))
  {
    RenderHasNoAsterisk(a);
    RenderStrips(a, bullets);
    CleanLinesStay(a);
  }

  /** The asterisk pass leaves a prompted reply as it is. */
  lemma {:induction false} RenderHasNoAsterisk(a: Analysis)
    requires WellFormed(a)
    ensures RemoveAsterisks(Render(a)) == Join(Lines(DashAll(a)))
  {
    var raws := Lines(DashAll(a));
    DashAllWellFormed(a);
    LinesAreClean(DashAll(a));
    JoinNoAsterisk(raws);
    RemoveAsterisksIdentity(Join(raws));
  }

  /** The bullet pass removes the item dashes of a prompted reply. */
  lemma {:induction false} RenderStrips(a: Analysis, bullets: set<char>)
    requires WellFormed(a) && DashBullets(bullets)
    ensures StripBullets(Join(Lines(DashAll(a))), bullets) == Join(Lines(a))
  {
    StripRender(a, bullets);
    StripJoin(Lines(DashAll(a)), Lines(a), bullets);
  }

  /** The blank-line pass and the trim leave the analysis's lines as they are. */
  lemma {:induction false} CleanLinesStay(a: Analysis)
    requires WellFormed(a)
    ensures Trim(CollapseBlankLines(Join(Lines(a)))) == Join(Lines(a))
  {
    var cleans := Lines(a);
    LinesAreClean(a);
    CollapseJoin(cleans);
    JoinStartsWith(cleans);
    JoinEndsWith(cleans);
    TrimOfTrimmed(Join(cleans));
  }

  // ---------------------------------------------------------------------------
  // Parsing the cleaned reply

  /** The text of a section: its header, then a colon and its items. */
  lemma {:induction false} SectionText(header: string, items: seq<string>)
    ensures Join(Section(header, items)) == header + (":" + (if items == [] then "" else "\n" + Join(items)))
  {
    HeaderThenItems(header, items);
  }

  /** A text that starts with a section starts with its header. */
  lemma {:induction false} SectionLeads(header: string, items: seq<string>, after: seq<string>)
    requires header != []
    ensures Join(Section(header, items) + after) != []
    ensures Join(Section(header, items) + after)[0] == header[0]
    ensures FindCi(Join(Section(header, items) + after), header, 0) == Some(0)
  {
    var sec := Section(header, items);
    var tail := ":" + (if items == [] then "" else "\n" + Join(items));
    SectionText(header, items);
    if after == [] {
      assert sec + after == sec;
      HeaderFoundAtStart(header, tail);
    } else {
      JoinAppend(sec, after);
      assert Join(sec + after) == header + (tail + "\n" + Join(after));
      HeaderFoundAtStart(header, tail + "\n" + Join(after));
    }
  }

  /** The text of a section and what follows starts with the header. */
  lemma {:induction false} SectionTextStarts(header: string, items: seq<string>, after: seq<string>)
    ensures var R := Join(Section(header, items) + after);
            |header| <= |R| && R == header + R[|header|..]
  {
    var sec := Section(header, items);
    var tail := ":" + (if items == [] then "" else "\n" + Join(items));
    SectionText(header, items);
    var R := Join(sec + after);
    if after == [] {
      assert sec + after == sec;
      assert R == header + tail;
    } else {
      JoinAppend(sec, after);
      assert R == header + (tail + "\n" + Join(after));
    }
    assert R[..|header|] == header;
  }

  /** A section after lines that do not mention its header: the text splits
      into those lines and the section, and the first mention of the header
      starts the section. */
  lemma {:induction false} SectionFound(before: seq<string>, header: string, items: seq<string>, after: seq<string>)
    requires |before| >= 1 && header != [] && '\n' !in header
    requires forall i :: 0 <= i < |before| ==> !ContainsCi(before[i], header)
    ensures var R := Join(Section(header, items) + after);
            var P := Join(before) + "\n";
            Join(before + Section(header, items) + after) == P + R
            && FindCi(P + R, header, 0) == Some(|P|) && FindCi(R, header, 0) == Some(0)
  {
    var sec := Section(header, items);
    var R := Join(sec + after);
    var P := Join(before) + "\n";
    assert Join(before + sec + after) == P + R by {
      assert before + sec + after == before + (sec + after);
      JoinAppend(before, sec + after);
    }
    assert FindCi(R, header, 0) == Some(0) by {
      SectionLeads(header, items, after);
    }
    assert FindCi(P + R, header, 0) == Some(|P|) by {
      SectionTextStarts(header, items, after);
      var T := R[|header|..];
      JoinNoCi(before, header);
      HeaderAfterText(Join(before), header, T);
    }
  }

  /** The list a section holds when the text starts with it and the next
      section (if any) follows right after it. */
  lemma {:induction false} SectionCaptured(header: string, items: seq<string>, after: seq<string>, stop: Option<string>)
    requires forall i :: 0 <= i < |items| ==> IsItemLine(items[i])
    requires stop.None? <==> after == []
    requires stop.Some? ==> stop.value != [] && '\n' !in stop.value
    requires stop.Some? ==> Join(after) != [] && !IsSpace(Join(after)[0])
    requires stop.Some? ==> FindCi(Join(after), stop.value, 0) == Some(0)
    requires stop.Some? ==> forall i :: 0 <= i < |items| ==> !ContainsCi(items[i], stop.value)
    ensures Items(Capture(Join(Section(header, items) + after), header, stop), stop) == items
  {
    var sec := Section(header, items);
    if stop.Some? {
      JoinAppend(sec, after);
      MiddleSectionBody(header, items, Join(after), stop.value);
      assert (if items == [] then "" else "\n") == (if items != [] then "\n" else "");
      ItemsOfLines(items, items != [], stop);
    } else {
      assert sec + after == sec;
      LastSectionBody(header, items);
      assert Join(items) + "" == Join(items);
      ItemsOfLines(items, false, stop);
    }
  }

  /** The list a section contributes, when the lines before it do not mention
      its header and the next section (if any) follows right after it. */
  lemma {:induction false} SectionItems(before: seq<string>, header: string, items: seq<string>,
                                        after: seq<string>, stop: Option<string>)
    requires |before| >= 1 && header != [] && '\n' !in header
    requires forall i :: 0 <= i < |before| ==> !ContainsCi(before[i], header)
    requires forall i :: 0 <= i < |items| ==> IsItemLine(items[i])
    requires stop.None? <==> after == []
    requires stop.Some? ==> stop.value != [] && '\n' !in stop.value
    requires stop.Some? ==> Join(after) != [] && !IsSpace(Join(after)[0])
    requires stop.Some? ==> FindCi(Join(after), stop.value, 0) == Some(0)
    requires stop.Some? ==> forall i :: 0 <= i < |items| ==> !ContainsCi(items[i], stop.value)
    ensures Items(Capture(Join(before + Section(header, items) + after), header, stop), stop) == items
  {
    var R := Join(Section(header, items) + after);
    var P := Join(before) + "\n";
    SectionFound(before, header, items, after);
    CaptureAfter(P, R, header, stop);
    SectionCaptured(header, items, after, stop);
  }

  lemma {:induction false} ItemsAreItemLines(items: seq<string>)
    requires AllItems(items)
    ensures forall i :: 0 <= i < |items| ==> IsItemLine(items[i])
  {
    forall i | 0 <= i < |items| ensures IsItemLine(items[i]) {
      NoLineFeedInContent(items[i]);
      assert forall k :: 0 <= k < |items[i]| ==> items[i][k] != '\n';
    }
  }

  /** The score of the lines of a well-formed analysis is its score. */
  lemma {:induction false} ScoreOfLines(a: Analysis)
    requires WellFormed(a)
    ensures ExtractScore(Join(Lines(a))) == a.score
  {
    var s0 := [ScoreLine(a.score)];
    var l1 := Section(StrengthsHeader, a.strengths);
    var l23 := Section(ImprovementsHeader, a.improvements) + Section(RecommendationsHeader, a.recommendations);
    assert Lines(a) == s0 + (l1 + l23);
    JoinAppend(s0, l1 + l23);
    var rest := Join(l1 + l23);
    SectionLeads(StrengthsHeader, a.strengths, l23);
    assert "Overall Score: " + a.score + ("\n" + rest) == Join(Lines(a));
    PromptedScore(a.score, "\n" + rest);
  }

  /** The strengths of the lines of a well-formed analysis are its strengths. */
  lemma {:induction false} StrengthsOfLines(a: Analysis)
    requires WellFormed(a)
    ensures Strengths(Join(Lines(a))) == a.strengths
  {
    var s0 := [ScoreLine(a.score)];
    var l2 := Section(ImprovementsHeader, a.improvements);
    var l3 := Section(RecommendationsHeader, a.recommendations);
    assert s0 + Section(StrengthsHeader, a.strengths) + (l2 + l3) == Lines(a);
    assert forall i :: 0 <= i < |s0| ==> !ContainsCi(s0[i], StrengthsHeader) by {
      ScoreLineMentionsNoHeader(a.score, StrengthsHeader);
    }
    assert Join(l2 + l3) != [] && !IsSpace(Join(l2 + l3)[0])
           && FindCi(Join(l2 + l3), ImprovementsHeader, 0) == Some(0) by {
      SectionLeads(ImprovementsHeader, a.improvements, l3);
    }
    ItemsAreItemLines(a.strengths);
    SectionItems(s0, StrengthsHeader, a.strengths, l2 + l3, Some(ImprovementsHeader));
  }

  /** The improvements of the lines of a well-formed analysis are its improvements. */
  lemma {:induction false} ImprovementsOfLines(a: Analysis)
    requires WellFormed(a)
    ensures Improvements(Join(Lines(a))) == a.improvements
  {
    var before := [ScoreLine(a.score)] + Section(StrengthsHeader, a.strengths);
    var l3 := Section(RecommendationsHeader, a.recommendations);
    ItemsAreItemLines(a.improvements);
    ScoreLineMentionsNoHeader(a.score, ImprovementsHeader);
    SectionLeads(RecommendationsHeader, a.recommendations, []);
    assert l3 + [] == l3;
    forall i | 0 <= i < |before| ensures !ContainsCi(before[i], ImprovementsHeader) {
      if i >= 2 {
        assert before[i] == a.strengths[i - 2];
      }
    }
    SectionItems(before, ImprovementsHeader, a.improvements, l3, Some(RecommendationsHeader));
  }

  /** The recommendations of the lines of a well-formed analysis are its
      recommendations. */
  lemma {:induction false} RecommendationsOfLines(a: Analysis)
    requires WellFormed(a)
    ensures Recommendations(Join(Lines(a))) == a.recommendations
  {
    var before := [ScoreLine(a.score)] + Section(StrengthsHeader, a.strengths)
                  + Section(ImprovementsHeader, a.improvements);
    ItemsAreItemLines(a.recommendations);
    ScoreLineMentionsNoHeader(a.score, RecommendationsHeader);
    forall i | 0 <= i < |before| ensures !ContainsCi(before[i], RecommendationsHeader) {
      if 2 <= i < 2 + |a.strengths| {
        assert before[i] == a.strengths[i - 2];
      } else if i > 2 + |a.strengths| {
        assert before[i] == a.improvements[i - 3 - |a.strengths|];
      }
    }
    assert before + Section(RecommendationsHeader, a.recommendations) + [] == Lines(a);
    SectionItems(before, RecommendationsHeader, a.recommendations, [], None);
  }

  /** A reply in the prompted format parses back to the analysis it was
      written from, with either handler's bullet class. */
  lemma {:induction false} ParseRender(a: Analysis, bullets: set<char>)
    requires WellFormed(a) && DashBullets(bullets)
    ensures Parse(Render(a), bullets) == a
  {
    NormaliseRender(a, bullets);
    ScoreOfLines(a);
    StrengthsOfLines(a);
    ImprovementsOfLines(a);
    RecommendationsOfLines(a);
  }

  /** Cleaning a prompted reply and parsing the cleaned text again is not
      parsing the reply: a reply whose items themselves begin with "- " loses
      those dashes to the second cleaning. */
  lemma {:induction false} ParseOfCleanedDiffers(a: Analysis, bullets: set<char>)
    requires WellFormed(a) && DashBullets(bullets) && a.strengths != []
    ensures Parse(Render(DashAll(a)), bullets) == DashAll(a)
    ensures Parse(Normalise(Render(DashAll(a)), bullets), bullets) == a
    ensures Parse(Normalise(Render(DashAll(a)), bullets), bullets) != Parse(Render(DashAll(a)), bullets)
  {
    DashAllWellFormed(a);
    ParseRender(DashAll(a), bullets);
    NormaliseRender(DashAll(a), bullets);
    ParseRender(a, bullets);
    assert DashAll(a).strengths[0] == "- " + a.strengths[0] != a.strengths[0];
  }

  /** A three-point analysis in the prompted format. */
  const Example: Analysis :=
    Analysis("8", ["Good communication"], ["Needs more detail"], ["Quantify achievements"])

  /** A visible line in which no header's first letter starts an occurrence
      of that header is an item. */
  lemma {:induction false} LineWithoutHeadersIsItem(x: string)
    requires IsCleanLine(x)
    requires forall p :: 0 <= p && p + |StrengthsHeader| <= |x| ==> Lower(x[p]) != 'k'
    requires forall p :: 0 <= p && p + |ImprovementsHeader| <= |x| ==> Lower(x[p]) != 'a'
    requires forall p :: 0 <= p && p + |RecommendationsHeader| <= |x| ==> Lower(x[p]) != 's'
    ensures IsItem(x)
  {
    NoCiByLeadChar(x, StrengthsHeader);
    NoCiByLeadChar(x, ImprovementsHeader);
    NoCiByLeadChar(x, RecommendationsHeader);
  }

  lemma {:induction false} ExampleWellFormed()
    ensures WellFormed(Example)
  {
    assert AllDigits("8");
    StrengthIsItem();
    ImprovementIsItem();
    RecommendationIsItem();
  }

  lemma {:induction false} StrengthIsItem()
    ensures IsItem("Good communication")
  {
    LineWithoutHeadersIsItem("Good communication");
  }

  lemma {:induction false} ImprovementIsItem()
    ensures IsItem("Needs more detail")
  {
    LineWithoutHeadersIsItem("Needs more detail");
  }

  lemma {:induction false} RecommendationIsItem()
    ensures IsItem("Quantify achievements")
  {
    LineWithoutHeadersIsItem("Quantify achievements");
  }

  /** The example reply, the seven lines
        Overall Score: 8 / Key Strengths: / - Good communication /
        Areas for Improvement: / - Needs more detail /
        Specific Recommendations: / - Quantify achievements
      joined by line feeds, parses to the example with either handler's
      bullet class. */
  lemma {:induction false} ExampleRoundTrip(bullets: set<char>)
    requires bullets == UserControllerBullets || bullets == AnalyzerBullets
    ensures Parse(Render(Example), bullets) == Example
  {
    ExampleWellFormed();
    ParseRender(Example, bullets);
  }
}
