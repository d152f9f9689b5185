/** The second stage of the analysis parser: the score, taken from the first of
    four regular expressions that matches the cleaned text, in a fixed order,
    with the placeholder "Not specified" when none does. */
module Score {
  import opened Outcomes
  import opened Text

  /** The score reported when no pattern matches. */
  const NotSpecified: string := "Not specified"

  /** The four score patterns, in the order they are tried:
        OverallScore  /Overall Score:?\s*(\d+(?:\.\d+)?)/i
        ScoreLabel    /Score:?\s*(\d+(?:\.\d+)?)/i
        SlashTen      /(\d+(?:\.\d+)?)\s*\/\s*10/i
        OutOfTen      /(\d+(?:\.\d+)?)\s*out of 10/i */
  datatype Rule = OverallScore | ScoreLabel | SlashTen | OutOfTen

  const Rules: seq<Rule> := [OverallScore, ScoreLabel, SlashTen, OutOfTen]

  /** What `(\d+(?:\.\d+)?)` can capture: digits, optionally a point and more digits. */
  predicate IsNumeral(n: string) {
    (n != [] && AllDigits(n))
    || exists d :: 0 < d < |n| - 1 && n[d] == '.' && AllDigits(n[..d]) && AllDigits(n[d + 1..])
  }

  /** The end of `\d+(?:\.\d+)?` matched greedily at `p`: the digit run, then a
      point and a second digit run when a digit follows the point. */
  function NumberEnd(s: string, p: nat): (e: nat)
    requires p < |s| && IsDigit(s[p])
    ensures p < e <= |s| && IsNumeral(s[p..e])
  {
    var d := SkipDigits(s, p);
    if d + 1 < |s| && s[d] == '.' && IsDigit(s[d + 1]) then
      var e := SkipDigits(s, d + 1);
      assert s[p..e][d - p] == '.';
      assert s[p..e][..d - p] == s[p..d];
      assert s[p..e][d - p + 1..] == s[d + 1..e];
      e
    else d
  }

  /** `caption:?\s*(\d+(?:\.\d+)?)` tried at `p`. After the caption, the optional
      colon and the whitespace run are taken whole: giving any of them back
      leaves a colon or a space where a digit is needed. */
  function LabelledNumber(s: string, p: nat, caption: string): (r: Option<string>)
    requires p <= |s|
    ensures r.Some? ==> IsNumeral(r.value) && IsSubstring(r.value, s)
  {
    if !MatchesCiAt(s, p, caption) then None
    else
      var q := p + |caption|;
      var d := SkipSpace(s, if q < |s| && s[q] == ':' then q + 1 else q);
      if d < |s| && IsDigit(s[d]) then
        var e := NumberEnd(s, d);
        assert s[d..e] <= s[d..];
        Some(s[d..e])
      else None
  }

  /** `(\d+(?:\.\d+)?)` followed by `tail`, tried at `p`. A shorter number would
      leave a digit, or the point, where the tail must start, so only the
      greedy number can succeed. */
  function NumberBefore(s: string, p: nat, tail: (string, nat) -> bool): (r: Option<string>)
    requires p <= |s|
    ensures r.Some? ==> IsNumeral(r.value) && IsSubstring(r.value, s)
  {
    if p < |s| && IsDigit(s[p]) then
      var e := NumberEnd(s, p);
      if tail(s, SkipSpace(s, e)) then
        assert s[p..e] <= s[p..];
        Some(s[p..e])
      else None
    else None
  }

  /** The tail `\/\s*10` (after the number's `\s*`). */
  predicate SlashTenTail(s: string, a: nat) {
    a < |s| && s[a] == '/' && MatchesAt(s, SkipSpace(s, a + 1), "10")
  }

  /** The tail `out of 10` (after the number's `\s*`), case-insensitive. */
  predicate OutOfTenTail(s: string, a: nat) {
    MatchesCiAt(s, a, "out of 10")
  }

  /** The capture of `rule` when its match starts at index `p`. */
  function RuleAt(rule: Rule, s: string, p: nat): (r: Option<string>)
    requires p <= |s|
    ensures r.Some? ==> IsNumeral(r.value) && IsSubstring(r.value, s)
  {
    match rule
    case OverallScore => LabelledNumber(s, p, "Overall Score")
    case ScoreLabel => LabelledNumber(s, p, "Score")
    case SlashTen => NumberBefore(s, p, SlashTenTail)
    case OutOfTen => NumberBefore(s, p, OutOfTenTail)
  }

  /** Whether `rule` matches at each index `0..|s|`. */
  function Hits(rule: Rule, s: string): (h: seq<bool>)
    ensures |h| == |s| + 1
    ensures forall i :: 0 <= i <= |s| ==> h[i] == RuleAt(rule, s, i).Some?
  {
    seq(|s| + 1, i requires 0 <= i <= |s| => RuleAt(rule, s, i).Some?)
  }

  /** The first index at or after `from` where `h` holds. */
  function First(h: seq<bool>, from: nat): (r: Option<nat>)
    requires from <= |h|
    ensures r.Some? ==> from <= r.value < |h| && h[r.value]
    ensures r.Some? ==> forall i :: from <= i < r.value ==> !h[i]
    ensures r.None? ==> forall i :: from <= i < |h| ==> !h[i]
    decreases |h| - from
  {
    if from == |h| then None
    else if h[from] then Some(from)
    else First(h, from + 1)
  }

  /** The leftmost index at or after `from` where `rule` matches (`String.match`). */
  function Leftmost(rule: Rule, s: string, from: nat): (r: Option<nat>)
    requires from <= |s|
    ensures r.Some? ==> from <= r.value <= |s| && RuleAt(rule, s, r.value).Some?
    ensures r.Some? ==> forall i :: from <= i < r.value ==> RuleAt(rule, s, i).None?
    ensures r.None? ==> forall i :: from <= i <= |s| ==> RuleAt(rule, s, i).None?
  {
    First(Hits(rule, s), from)
  }

  /** `rule` matches nowhere in `s`. */
  predicate NoMatch(rule: Rule, s: string) {
    forall i :: 0 <= i <= |s| ==> RuleAt(rule, s, i).None?
  }

  /** What `s.match(rule)` captures: the capture at the leftmost match, or
      nothing when the rule matches nowhere. */
  function LeftmostCapture(rule: Rule, s: string): (r: Option<string>)
    ensures r.None? <==> NoMatch(rule, s)
    ensures r.Some? ==> exists i :: 0 <= i <= |s| && RuleAt(rule, s, i) == r
                                    && forall j :: 0 <= j < i ==> RuleAt(rule, s, j).None?
  {
    match Leftmost(rule, s, 0)
    case Some(i) => RuleAt(rule, s, i)
    case None => None
  }

  lemma {:induction false} PlaceholderIsNoNumeral()
    ensures !IsNumeral(NotSpecified)
  {
    assert !IsDigit(NotSpecified[0]);
    assert NotSpecified[..1] == "N";
  }

  /** The loop over `scorePatterns`: the first rule that matches anywhere gives
      the score, its leftmost capture; none matching leaves the placeholder. */
  function ScoreBy(rules: seq<Rule>, s: string): (r: string)
    ensures r == NotSpecified || (IsNumeral(r) && IsSubstring(r, s))
    ensures r == NotSpecified <==> forall k :: 0 <= k < |rules| ==> NoMatch(rules[k], s)
  {
    if rules == [] then NotSpecified
    else
      match Leftmost(rules[0], s, 0)
      case Some(i) =>
        PlaceholderIsNoNumeral();
        RuleAt(rules[0], s, i).value
      case None =>
        var r := ScoreBy(rules[1..], s);
        assert forall k :: 1 <= k < |rules| ==> rules[k] == rules[1..][k - 1];
        r
  }

  /** The loop stops at the first rule that matches anywhere and reports that
      rule's leftmost capture, whatever the later rules would find. */
  lemma {:induction false} ScoreByFirstMatch(rules: seq<Rule>, s: string, k: nat)
    requires k < |rules| && LeftmostCapture(rules[k], s).Some?
    requires forall j :: 0 <= j < k ==> NoMatch(rules[j], s)
    ensures ScoreBy(rules, s) == LeftmostCapture(rules[k], s).value
    decreases k
  {
    if k > 0 {
      assert NoMatch(rules[0], s);
      assert Leftmost(rules[0], s, 0).None?;
      assert rules[1..][k - 1] == rules[k];
      forall j | 0 <= j < k - 1 ensures NoMatch(rules[1..][j], s) {
        assert rules[1..][j] == rules[j + 1];
      }
      ScoreByFirstMatch(rules[1..], s, k - 1);
    }
  }

  /** The four patterns in their order: the first that matches decides. */
  lemma {:induction false} RulesInOrder(s: string)
    ensures !NoMatch(OverallScore, s) ==> ScoreBy(Rules, s) == LeftmostCapture(OverallScore, s).value
    ensures NoMatch(OverallScore, s) && !NoMatch(ScoreLabel, s) ==> ScoreBy(Rules, s) == LeftmostCapture(ScoreLabel, s).value
    ensures NoMatch(OverallScore, s) && NoMatch(ScoreLabel, s) && !NoMatch(SlashTen, s)
            ==> ScoreBy(Rules, s) == LeftmostCapture(SlashTen, s).value
    ensures NoMatch(OverallScore, s) && NoMatch(ScoreLabel, s) && NoMatch(SlashTen, s) && !NoMatch(OutOfTen, s)
            ==> ScoreBy(Rules, s) == LeftmostCapture(OutOfTen, s).value
  {
    var later := [ScoreLabel, SlashTen, OutOfTen];
    assert Rules == [OverallScore] + later;
    if !NoMatch(OverallScore, s) {
      RuleTaken(Rules, s);
    } else {
      RuleSkipped(Rules, s);
      assert later == [ScoreLabel] + [SlashTen, OutOfTen];
      if !NoMatch(ScoreLabel, s) {
        RuleTaken(later, s);
      } else {
        RuleSkipped(later, s);
        assert [SlashTen, OutOfTen][1..] == [OutOfTen];
        if !NoMatch(SlashTen, s) {
          RuleTaken([SlashTen, OutOfTen], s);
        } else {
          RuleSkipped([SlashTen, OutOfTen], s);
          if !NoMatch(OutOfTen, s) {
            RuleTaken([OutOfTen], s);
          }
        }
      }
    }
  }

  /** The loop reports the first rule's capture when that rule matches. */
  lemma {:induction false} RuleTaken(rules: seq<Rule>, s: string)
    requires rules != [] && !NoMatch(rules[0], s)
    ensures ScoreBy(rules, s) == LeftmostCapture(rules[0], s).value
  {
    ScoreByFirstMatch(rules, s, 0);
  }

  /** The loop moves past a rule that matches nowhere. */
  lemma {:induction false} RuleSkipped(rules: seq<Rule>, s: string)
    requires rules != [] && NoMatch(rules[0], s)
    ensures ScoreBy(rules, s) == ScoreBy(rules[1..], s)
  {
    assert Leftmost(rules[0], s, 0).None?;
  }

  /** The score of a cleaned analysis text. */
  function ExtractScore(s: string): (r: string)
    ensures r == NotSpecified || (IsNumeral(r) && IsSubstring(r, s))
    ensures r == NotSpecified <==>
              NoMatch(OverallScore, s) && NoMatch(ScoreLabel, s) && NoMatch(SlashTen, s) && NoMatch(OutOfTen, s)
    ensures !NoMatch(OverallScore, s) ==> r == LeftmostCapture(OverallScore, s).value
    ensures NoMatch(OverallScore, s) && !NoMatch(ScoreLabel, s) ==> r == LeftmostCapture(ScoreLabel, s).value
    ensures NoMatch(OverallScore, s) && NoMatch(ScoreLabel, s) && !NoMatch(SlashTen, s)
            ==> r == LeftmostCapture(SlashTen, s).value
    ensures NoMatch(OverallScore, s) && NoMatch(ScoreLabel, s) && NoMatch(SlashTen, s) && !NoMatch(OutOfTen, s)
            ==> r == LeftmostCapture(OutOfTen, s).value
  {
    var r := ScoreBy(Rules, s);
    RulesInOrder(s);
    assert Rules[0] == OverallScore && Rules[1] == ScoreLabel && Rules[2] == SlashTen && Rules[3] == OutOfTen;
    r
  }

  /** When the first pattern matches anywhere, its leftmost capture is the
      score, whatever the other patterns would find. */
  lemma {:induction false} OverallScoreWins(s: string, i: nat)
    requires i <= |s| && RuleAt(OverallScore, s, i).Some?
    requires forall j :: 0 <= j < i ==> RuleAt(OverallScore, s, j).None?
    ensures ExtractScore(s) == RuleAt(OverallScore, s, i).value
  {
    assert Leftmost(OverallScore, s, 0) == Some(i);
  }

  /** A text with no digit has no score. */
  lemma {:induction false} NoDigitNoScore(s: string)
    requires forall i :: 0 <= i < |s| ==> !IsDigit(s[i])
    ensures ExtractScore(s) == NotSpecified
  {
  }

  /** The greedy number scan stops exactly at the end of a numeral that is
      followed by neither a digit nor a point. */
  lemma {:induction false} NumberEndOfNumeral(s: string, p: nat, x: string)
    requires IsNumeral(x) && p + |x| <= |s| && s[p..p + |x|] == x
    requires p + |x| == |s| || (!IsDigit(s[p + |x|]) && s[p + |x|] != '.')
    ensures IsDigit(s[p]) && NumberEnd(s, p) == p + |x|
  {
    if AllDigits(x) && x != [] {
      WholeNumberEnd(s, p, x);
    } else {
      var d :| 0 < d < |x| - 1 && x[d] == '.' && AllDigits(x[..d]) && AllDigits(x[d + 1..]);
      DecimalNumberEnd(s, p, x, d);
    }
  }

  /** The digits of `x` sit in `s` from `p + a` to `p + b`. */
  lemma {:induction false} DigitsInPlace(s: string, p: nat, x: string, a: nat, b: nat)
    requires p + |x| <= |s| && s[p..p + |x|] == x && a <= b <= |x|
    requires AllDigits(x[a..b])
    ensures forall i :: p + a <= i < p + b ==> IsDigit(s[i])
  {
    forall i | p + a <= i < p + b ensures IsDigit(s[i]) {
      assert s[i] == s[p..p + |x|][i - p];
      assert x[i - p] == x[a..b][i - p - a];
    }
  }

  lemma {:induction false} WholeNumberEnd(s: string, p: nat, x: string)
    requires x != [] && AllDigits(x) && p + |x| <= |s| && s[p..p + |x|] == x
    requires p + |x| == |s| || (!IsDigit(s[p + |x|]) && s[p + |x|] != '.')
    ensures IsDigit(s[p]) && NumberEnd(s, p) == p + |x|
  {
    assert x[0..|x|] == x;
    DigitsInPlace(s, p, x, 0, |x|);
    SkipDigitsRun(s, p, p + |x|);
  }

  lemma {:induction false} DecimalNumberEnd(s: string, p: nat, x: string, d: nat)
    requires 0 < d < |x| - 1 && x[d] == '.' && AllDigits(x[..d]) && AllDigits(x[d + 1..])
    requires p + |x| <= |s| && s[p..p + |x|] == x
    requires p + |x| == |s| || !IsDigit(s[p + |x|])
    ensures IsDigit(s[p]) && NumberEnd(s, p) == p + |x|
  {
    assert x[0..d] == x[..d];
    assert x[d + 1..|x|] == x[d + 1..];
    DigitsInPlace(s, p, x, 0, d);
    DigitsInPlace(s, p, x, d + 1, |x|);
    assert s[p + d] == s[p..p + |x|][d];
    SkipDigitsRun(s, p, p + d);
    SkipDigitsRun(s, p + d + 1, p + |x|);
  }

  lemma {:induction false} SkipDigitsRun(s: string, p: nat, e: nat)
    requires p <= e <= |s|
    requires forall i :: p <= i < e ==> IsDigit(s[i])
    requires e == |s| || !IsDigit(s[e])
    ensures SkipDigits(s, p) == e
    decreases e - p
  {
    if p < e {
      SkipDigitsRun(s, p + 1, e);
    }
  }

  /** A reply in the prompted form "Overall Score: X..." scores X. */
  lemma {:induction false} PromptedScore(x: string, tail: string)
    requires IsNumeral(x)
    requires tail == [] || (!IsDigit(tail[0]) && tail[0] != '.')
    ensures ExtractScore("Overall Score: " + x + tail) == x
  {
    var s := "Overall Score: " + x + tail;
    assert s[..15] == "Overall Score: ";
    assert MatchesCiAt(s, 0, "Overall Score");
    assert s[13] == ':' && s[14] == ' ';
    assert s[15..15 + |x|] == x;
    NumberEndOfNumeral(s, 15, x);
    assert SkipSpace(s, 14) == 15 by {
      assert !IsSpace(s[15]);
      assert SkipSpace(s, 15) == 15;
    }
    assert RuleAt(OverallScore, s, 0) == Some(x);
    OverallScoreWins(s, 0);
  }

  /** The analyzer's prompted opening "Overall Score: X/10" scores X: the first
      pattern matches before the slash pattern is ever tried. */
  lemma {:induction false} OutOfTenPromptScore(x: string, rest: string)
    requires IsNumeral(x)
    ensures ExtractScore("Overall Score: " + x + "/10" + rest) == x
  {
    assert "Overall Score: " + x + "/10" + rest == "Overall Score: " + x + ("/10" + rest);
    PromptedScore(x, "/10" + rest);
  }
}
