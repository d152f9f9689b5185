/** The analysis parser both resume handlers apply to the language model's
    reply: clean the text, take the score, cut out the three lists. The two
    handlers differ only in the bullet characters their cleaning removes. */
module AnalysisParser {
  import opened Outcomes
  import opened Text
  import opened Cleaning
  import opened Score
  import opened Sections

  /** The structured analysis a handler sends back. */
  datatype Analysis = Analysis(
    score: string,
    strengths: seq<string>,
    improvements: seq<string>,
    recommendations: seq<string>)

  /** The bullet class `[-•]` of the user controller. */
  const UserControllerBullets: set<char> := {'-', '•'}

  /** The bullet class `[-â€¢]` of the stand-alone analyzer: the bullet
      character as it looks when its UTF-8 bytes are read as Windows-1252. */
  const AnalyzerBullets: set<char> := {'-', 'â', '€', '¢'}

  /** What every list of a parsed analysis looks like. */
  ghost predicate WellFormedList(items: seq<string>, clean: string) {
    forall i :: 0 <= i < |items| ==>
      items[i] != [] && IsTrimmed(items[i]) && '\n' !in items[i] && '*' !in items[i]
      && IsSubstring(items[i], clean)
  }

  /** Clean `text` and build the analysis from it. */
  function Parse(text: string, bullets: set<char>): (r: Analysis)
    ensures r.score == NotSpecified
            || (IsNumeral(r.score) && IsSubstring(r.score, Normalise(text, bullets)))
    ensures r.score == ExtractScore(Normalise(text, bullets))
    ensures WellFormedList(r.strengths, Normalise(text, bullets))
    ensures WellFormedList(r.improvements, Normalise(text, bullets))
    ensures WellFormedList(r.recommendations, Normalise(text, bullets))
    ensures forall i :: 0 <= i < |r.strengths| ==> !ContainsCi(r.strengths[i], ImprovementsHeader)
    ensures forall i :: 0 <= i < |r.improvements| ==> !ContainsCi(r.improvements[i], RecommendationsHeader)
    ensures !ContainsCi(Normalise(text, bullets), StrengthsHeader) ==> r.strengths == []
    ensures !ContainsCi(Normalise(text, bullets), ImprovementsHeader) ==> r.improvements == []
    ensures !ContainsCi(Normalise(text, bullets), RecommendationsHeader) ==> r.recommendations == []
    ensures IsSectionList(r.strengths, Normalise(text, bullets), StrengthsHeader, Some(ImprovementsHeader))
    ensures IsSectionList(r.improvements, Normalise(text, bullets), ImprovementsHeader, Some(RecommendationsHeader))
    ensures IsSectionList(r.recommendations, Normalise(text, bullets), RecommendationsHeader, None)
  {
    var clean := Normalise(text, bullets);
    NormaliseShape(text, bullets);
    var r := Analysis(ExtractScore(clean), Strengths(clean), Improvements(clean), Recommendations(clean));
    NoAsteriskInPieces(r.strengths, clean);
    NoAsteriskInPieces(r.improvements, clean);
    NoAsteriskInPieces(r.recommendations, clean);
    r
  }

  lemma {:induction false} NoAsteriskInPieces(items: seq<string>, clean: string)
    requires '*' !in clean
    requires forall i :: 0 <= i < |items| ==> IsSubstring(items[i], clean)
    ensures forall i :: 0 <= i < |items| ==> '*' !in items[i]
  {
    forall i | 0 <= i < |items| ensures '*' !in items[i] {
      SubstringKeepsAbsence(items[i], clean, '*');
    }
  }

  /** The two handlers' parsers agree on every reply that holds none of the
      characters their bullet classes disagree on. */
  lemma {:induction false} ParsersAgree(text: string)
    requires forall k :: 0 <= k < |text| ==>
               text[k] != '•' && text[k] != 'â' && text[k] != '€' && text[k] != '¢'
    ensures Parse(text, UserControllerBullets) == Parse(text, AnalyzerBullets)
  {
    NormaliseAgrees(text, UserControllerBullets, AnalyzerBullets);
  }
}
