// The first stage of the analysis parser: the chain
//     analysisText.replace(/\*/g, '')
//                 .replace(/^\s*[-•]\s*/gm, '')
//                 .replace(/\n\s*\n/g, '\n')
//                 .trim()
// of server/controllers/userController.js (and its copy in
// resumeAnalyzerController.js, which differs only in the bullet class).
module Cleaning {
  import opened Outcomes
  import opened Text

  // `.replace(/\*/g, '')`: every asterisk removed, every other character kept in order.
  // With no asterisk left, a subsequence that is shorter than the input by
  // its number of asterisks is the input with exactly the asterisks deleted.
  function RemoveAsterisks(s: string): (r: string)
    ensures '*' !in r
    ensures forall c :: c in r <==> c in s && c != '*'
    ensures IsSubsequence(r, s)
    ensures |r| + multiset(s)['*'] == |s|
  {
    if s == [] then []
    else
      var rest := RemoveAsterisks(s[1..]);
      assert s == [s[0]] + s[1..];
      if s[0] == '*' then
        SubsequenceOfSuffix(rest, s, 1);
        rest
      else
        SubsequenceKeepsHead(rest, s, 1);
        [s[0]] + rest
  }

  /** A subsequence without asterisks is at most as long as the input less its
      asterisks. */
  lemma {:induction false} StarFreeLength(r: string, s: string)
    ensures IsSubsequence(r, s) && '*' !in r ==> |r| + multiset(s)['*'] <= |s|
    decreases |s|
  {
    if s != [] {
      assert s == [s[0]] + s[1..];
      StarFreeLength(r, s[1..]);
      if r != [] {
        assert r == [r[0]] + r[1..];
        StarFreeLength(r[1..], s[1..]);
      }
    }
  }

  /** The contract of `RemoveAsterisks` has one solution: any asterisk-free
      subsequence of `s` as long as `s` less its asterisks is the result. */
  lemma {:induction false} RemoveAsterisksUnique(r: string, s: string)
    requires IsSubsequence(r, s) && '*' !in r && |r| + multiset(s)['*'] == |s|
    ensures r == RemoveAsterisks(s)
    decreases |s|
  {
    if s != [] {
      assert s == [s[0]] + s[1..];
      StarFreeLength(r, s[1..]);
      if s[0] == '*' {
        assert r == [] || r[0] != s[0];
        RemoveAsterisksUnique(r, s[1..]);
      } else {
        assert r == [r[0]] + r[1..];
        RemoveAsterisksUnique(r[1..], s[1..]);
      }
    }
  }

  lemma {:induction false} RemoveAsterisksIdentity(s: string)
    requires '*' !in s
    ensures RemoveAsterisks(s) == s
    decreases |s|
  {
    if s != [] {
      RemoveAsterisksIdentity(s[1..]);
      assert [s[0]] + s[1..] == s;
    }
  }

  // The bullet-line replacement `/^\s*[B]\s*/gm → ''` for a bullet class `B`,
  // applied to the suffix `t` of the text; `atStart` says whether `t` begins a
  // line of the whole text (so `^` can match at its first character).
  //
  // At a line start the match needs the whole whitespace run that follows and
  // then a bullet: a shorter run would leave a whitespace character where the
  // bullet must be, so greedy `\s*` never backtracks. The trailing `\s*` takes
  // the longest run, which may cross line breaks. The search resumes where the
  // match ended, and `^` there depends on the character before it.
  function StripBulletsFrom(t: string, bullets: set<char>, atStart: bool): string
    decreases |t|
  {
    if t == [] then []
    else
      var q := SkipSpace(t, 0);
      if atStart && q < |t| && t[q] in bullets then
        var e := SkipSpace(t, q + 1);
        StripBulletsFrom(t[e..], bullets, IsLineBreak(t[e - 1]))
      else
        [t[0]] + StripBulletsFrom(t[1..], bullets, IsLineBreak(t[0]))
  }

  // `.replace(/^\s*[B]\s*/gm, '')` on the whole text.
  function StripBullets(s: string, bullets: set<char>): (r: string)
    ensures IsSubsequence(r, s)
    ensures forall c :: c in r ==> c in s
  {
    StripKeepsChars(s, bullets, true);
    StripDeletes(s, bullets, true);
    StripBulletsFrom(s, bullets, true)
  }

  /** What the bullet pass deletes is whitespace and bullets only, and a text
      in which the pattern matches nowhere comes back as it is. */
  lemma {:induction false} StripBulletsDeletes(s: string, bullets: set<char>)
    ensures forall c :: multiset(StripBullets(s, bullets))[c] < multiset(s)[c] ==> IsSpace(c) || c in bullets
    ensures NoBulletLine(s, bullets, true) ==> StripBullets(s, bullets) == s
  {
    StripDeletesOnlyBullets(s, bullets, true);
    StripNoBulletLine(s, bullets, true);
  }

  /** `p` is where `^` can match in `t`: its start when `t` begins a line, or
      just after a line break. */
  predicate LineStartAt(t: string, p: nat, atStart: bool)
    requires p <= |t|
  {
    if p == 0 then atStart else IsLineBreak(t[p - 1])
  }

  /** `^\s*[B]` matches nowhere in `t`: no line start is followed by a run of
      whitespace and then a bullet. */
  predicate NoBulletLine(t: string, bullets: set<char>, atStart: bool) {
    forall p, q :: 0 <= p <= q < |t| && LineStartAt(t, p, atStart) && AllSpace(t[p..q]) ==> t[q] !in bullets
  }

  /** Every character the bullet pass deletes is whitespace or a bullet: any
      other character comes out as often as it goes in. */
  lemma {:induction false} StripDeletesOnlyBullets(t: string, bullets: set<char>, atStart: bool)
    ensures forall c :: multiset(StripBulletsFrom(t, bullets, atStart))[c] < multiset(t)[c] ==>
              IsSpace(c) || c in bullets
    decreases |t|
  {
    if t != [] {
      var q := SkipSpace(t, 0);
      var bullet := atStart && q < |t| && t[q] in bullets;
      var e := if bullet then SkipSpace(t, q + 1) else 1;
      var next := if bullet then IsLineBreak(t[e - 1]) else IsLineBreak(t[0]);
      StripStep(t, bullets, atStart, bullet, e, next);
      StripDeletesOnlyBullets(t[e..], bullets, next);
      if bullet {
        BulletRun(t, bullets, q, e);
        DroppedCounts(t, e, [], StripBulletsFrom(t[e..], bullets, next), bullets);
      } else {
        assert t[..e] == [t[0]];
        DroppedCounts(t, e, [t[0]], StripBulletsFrom(t[e..], bullets, next), bullets);
      }
    }
  }

  /** One step of the count argument: dropping a run of whitespace and
      bullets, or copying the run, deletes nothing else. */
  lemma {:induction false} DroppedCounts(t: string, e: nat, head: string, rest: string, bullets: set<char>)
    requires e <= |t|
    requires head == t[..e] || (head == [] && forall k :: 0 <= k < |t[..e]| ==> IsSpace(t[..e][k]) || t[..e][k] in bullets)
    requires forall c :: multiset(rest)[c] < multiset(t[e..])[c] ==> IsSpace(c) || c in bullets
    ensures forall c :: multiset(head + rest)[c] < multiset(t)[c] ==> IsSpace(c) || c in bullets
  {
    assert t == t[..e] + t[e..];
    assert multiset(t) == multiset(t[..e]) + multiset(t[e..]);
    assert multiset(head + rest) == multiset(head) + multiset(rest);
    forall c | !IsSpace(c) && c !in bullets ensures multiset(t[..e])[c] <= multiset(head)[c] {
      if head != t[..e] {
        assert c !in t[..e];
      }
    }
  }

  /** A line-start match `\s*[B]\s*` spans whitespace and one bullet. */
  lemma {:induction false} BulletRun(t: string, bullets: set<char>, q: nat, e: nat)
    requires q == SkipSpace(t, 0) && q < |t| && t[q] in bullets && e == SkipSpace(t, q + 1)
    ensures forall k :: 0 <= k < |t[..e]| ==> IsSpace(t[..e][k]) || t[..e][k] in bullets
  {
    forall k | 0 <= k < |t[..e]| ensures IsSpace(t[..e][k]) || t[..e][k] in bullets {
      assert t[..e][k] == t[k];
      if k < q {
        assert IsSpace(t[k]);
      } else if q < k {
        assert IsSpace(t[k]);
      }
    }
  }

  /** A text in which `^\s*[B]` matches nowhere is left as it is. */
  lemma {:induction false} StripNoBulletLine(t: string, bullets: set<char>, atStart: bool)
    ensures NoBulletLine(t, bullets, atStart) ==> StripBulletsFrom(t, bullets, atStart) == t
    decreases |t|
  {
    if t != [] && NoBulletLine(t, bullets, atStart) {
      var q := SkipSpace(t, 0);
      if atStart && q < |t| {
        assert LineStartAt(t, 0, atStart) && AllSpace(t[0..q]);
      }
      var next := IsLineBreak(t[0]);
      StripStep(t, bullets, atStart, false, 1, next);
      forall p, q' | 0 <= p <= q' < |t[1..]| && LineStartAt(t[1..], p, next) && AllSpace(t[1..][p..q'])
        ensures t[1..][q'] !in bullets
      {
        assert t[1..][p..q'] == t[p + 1..q' + 1];
        assert LineStartAt(t, p + 1, atStart);
      }
      StripNoBulletLine(t[1..], bullets, next);
      assert [t[0]] + t[1..] == t;
    }
  }

  /** The bullet-line pass only deletes characters, keeping the order of the
      rest. */
  lemma {:induction false} StripDeletes(t: string, bullets: set<char>, atStart: bool)
    ensures IsSubsequence(StripBulletsFrom(t, bullets, atStart), t)
    decreases |t|
  {
    if t != [] {
      var q := SkipSpace(t, 0);
      var bullet := atStart && q < |t| && t[q] in bullets;
      var e := if bullet then SkipSpace(t, q + 1) else 1;
      var next := if bullet then IsLineBreak(t[e - 1]) else IsLineBreak(t[0]);
      StripStep(t, bullets, atStart, bullet, e, next);
      StripDeletes(t[e..], bullets, next);
      if bullet {
        SubsequenceOfSuffix(StripBulletsFrom(t[e..], bullets, next), t, e);
      } else {
        SubsequenceKeepsHead(StripBulletsFrom(t[e..], bullets, next), t, 1);
      }
    }
  }

  /** The bullet-line pass only deletes characters. */
  lemma {:induction false} StripKeepsChars(t: string, bullets: set<char>, atStart: bool)
    ensures forall c :: c in StripBulletsFrom(t, bullets, atStart) ==> c in t
    decreases |t|
  {
    if t != [] {
      var q := SkipSpace(t, 0);
      var bullet := atStart && q < |t| && t[q] in bullets;
      var e := if bullet then SkipSpace(t, q + 1) else 1;
      var next := if bullet then IsLineBreak(t[e - 1]) else IsLineBreak(t[0]);
      StripStep(t, bullets, atStart, bullet, e, next);
      StripKeepsChars(t[e..], bullets, next);
      var r := StripBulletsFrom(t[e..], bullets, next);
      forall c | c in (if bullet then [] else [t[0]]) + r ensures c in t {
        if c !in (if bullet then [] else [t[0]]) {
          var k :| 0 <= k < |t[e..]| && t[e..][k] == c;
          assert t[e + k] == c;
        }
      }
    }
  }

  /** The largest index `j` in [lo, hi) with `t[j] == '\n'`, if there is one. */
  function LastLineFeed(t: string, lo: nat, hi: nat): (r: Option<nat>)
    requires lo <= hi <= |t|
    ensures r.Some? ==> lo <= r.value < hi && t[r.value] == '\n'
    ensures r.Some? ==> forall k :: r.value < k < hi ==> t[k] != '\n'
    ensures r.None? ==> forall k :: lo <= k < hi ==> t[k] != '\n'
    decreases hi
  {
    if hi == lo then None
    else if t[hi - 1] == '\n' then Some(hi - 1)
    else LastLineFeed(t, lo, hi - 1)
  }

  // `.replace(/\n\s*\n/g, '\n')`. A match starts at a line feed; its `\s*`
  // first takes the whole whitespace run after it and then gives back
  // characters until a line feed follows, so the match ends at the LAST line
  // feed of that run. The run's text from the first to the last line feed
  // becomes a single line feed.
  function CollapseBlankLines(t: string): string
    decreases |t|
  {
    if t == [] then []
    else if t[0] == '\n' then
      var e := SkipSpace(t, 1);
      match LastLineFeed(t, 1, e)
      case Some(j) => "\n" + CollapseBlankLines(t[j + 1..])
      case None => "\n" + CollapseBlankLines(t[1..])
    else [t[0]] + CollapseBlankLines(t[1..])
  }

  /** The collapsing pass only deletes characters, keeping the order of the
      rest. */
  lemma {:induction false} CollapseKeepsChars(t: string)
    ensures IsSubsequence(CollapseBlankLines(t), t)
    ensures forall c :: c in CollapseBlankLines(t) ==> c in t
    decreases |t|
  {
    if t != [] {
      var n := if t[0] != '\n' then 1
               else match LastLineFeed(t, 1, SkipSpace(t, 1)) case Some(j) => j + 1 case None => 1;
      assert 1 <= n <= |t|;
      assert CollapseBlankLines(t) == [t[0]] + CollapseBlankLines(t[n..]);
      CollapseKeepsChars(t[n..]);
      SubsequenceKeepsHead(CollapseBlankLines(t[n..]), t, n);
      forall c | c in CollapseBlankLines(t[n..]) ensures c in t {
        var k :| 0 <= k < |t[n..]| && t[n..][k] == c;
        assert t[n + k] == c;
      }
    }
  }

  /** Every character the collapsing pass deletes is whitespace: any other
      character comes out as often as it goes in. */
  lemma {:induction false} CollapseDeletesOnlySpace(t: string)
    ensures forall c :: multiset(CollapseBlankLines(t))[c] < multiset(t)[c] ==> IsSpace(c)
    decreases |t|
  {
    if t != [] {
      var n := CollapseStep(t);
      var r := CollapseBlankLines(t[n..]);
      CollapseDeletesOnlySpace(t[n..]);
      assert t[1..][n - 1..] == t[n..];
      DroppedCounts(t[1..], n - 1, [], r, {});
      assert [] + r == r;
      DroppedCounts(t, 1, [t[0]], r, {});
    }
  }

  /** One step of the collapsing pass: the first character is kept and the
      whitespace up to `n` dropped. */
  lemma {:induction false} CollapseStep(t: string) returns (n: nat)
    requires t != []
    ensures 1 <= n <= |t|
    ensures CollapseBlankLines(t) == [t[0]] + CollapseBlankLines(t[n..])
    ensures AllSpace(t[1..][..n - 1])
  {
    var e := SkipSpace(t, 1);
    n := if t[0] != '\n' then 1
         else match LastLineFeed(t, 1, e) case Some(j) => j + 1 case None => 1;
    assert n == 1 || n <= e;
    var gap := t[1..][..n - 1];
    forall k | 0 <= k < |gap| ensures IsSpace(gap[k]) {
      assert gap[k] == t[k + 1];
    }
  }

  /** No two line feeds of `s` are separated by whitespace alone. */
  predicate NoBlankLine(s: string) {
    forall i, j :: 0 <= i < j < |s| && s[i] == '\n' && s[j] == '\n' ==> !AllSpace(s[i + 1..j])
  }

  /** Every line feed of `s` has a non-whitespace character before it. */
  predicate NoLeadingLineFeed(s: string) {
    forall j :: 0 <= j < |s| && s[j] == '\n' ==> !AllSpace(s[..j])
  }

  /** The cleaned text the parser works on. */
  function Normalise(s: string, bullets: set<char>): (r: string)
    ensures IsSubsequence(r, s)
    ensures '*' !in r && IsTrimmed(r)
  {
    var a := RemoveAsterisks(s);
    var b := StripBullets(a, bullets);
    var c := CollapseBlankLines(b);
    var r := Trim(c);
    CollapseKeepsChars(b);
    CleanedPiece(s, a, b, c, r, TrimmedFront(c));
    r
  }

  /** A slice of the last stage of a chain of deletions, the first of which
      removed every asterisk, is an asterisk-free subsequence of the input. */
  lemma {:induction false} CleanedPiece(s: string, a: string, b: string, c: string, r: string, lo: nat)
    requires lo + |r| <= |c| && r == c[lo..lo + |r|]
    requires IsSubsequence(a, s) && '*' !in a && IsSubsequence(b, a) && IsSubsequence(c, b)
    ensures IsSubsequence(r, s) && '*' !in r
  {
    SliceIsSubsequence(c, lo, lo + |r|);
    SubsequenceTransitive(r, c, b);
    SubsequenceTransitive(r, b, a);
    SubsequenceTransitive(r, a, s);
    SubsequenceMembers(r, a);
  }

  // ---------------------------------------------------------------------------
  // What normalisation guarantees

  /** When the whitespace run at the front of `u` holds no line feed, neither
      does the whitespace run at the front of its collapsed form. */
  lemma {:induction false} CollapseKeepsLead(u: string)
    requires forall k :: 0 <= k < SkipSpace(u, 0) ==> u[k] != '\n'
    ensures NoLeadingLineFeed(CollapseBlankLines(u))
    decreases |u|
  {
    if u != [] {
      var r := CollapseBlankLines(u);
      assert u[0] != '\n';
      var r' := CollapseBlankLines(u[1..]);
      assert r == [u[0]] + r';
      if IsSpace(u[0]) {
        assert SkipSpace(u, 0) == SkipSpace(u, 1);
        assert forall k :: 0 <= k < SkipSpace(u[1..], 0) ==> u[1..][k] != '\n' by {
          SkipSpaceShift(u, 1, 0);
        }
        CollapseKeepsLead(u[1..]);
        forall j | 0 <= j < |r| && r[j] == '\n'
          ensures !AllSpace(r[..j])
        {
          assert j > 0;
          assert r'[j - 1] == '\n';
          assert !AllSpace(r'[..j - 1]);
          var m :| 0 <= m < j - 1 && !IsSpace(r'[..j - 1][m]);
          assert r[..j][m + 1] == r'[..j - 1][m];
        }
      } else {
        forall j | 0 <= j < |r| && r[j] == '\n'
          ensures !AllSpace(r[..j])
        {
          assert j > 0;
          assert r[..j][0] == u[0];
        }
      }
    }
  }

  /** After collapsing, no blank line (a line holding only whitespace) remains. */
  lemma {:induction false} CollapseLeavesNoBlankLine(t: string)
    ensures NoBlankLine(CollapseBlankLines(t))
    decreases |t|
  {
    if t != [] {
      if t[0] == '\n' {
        var e := SkipSpace(t, 1);
        match LastLineFeed(t, 1, e)
        case Some(j) => {
          SkipSpaceShift(t, j + 1, 0);
          SkipSpaceMiddle(t, 1, j + 1);
          CollapseLeavesNoBlankLine(t[j + 1..]);
          CollapseAfterLineFeed(t[j + 1..]);
        }
        case None => {
          SkipSpaceShift(t, 1, 0);
          CollapseLeavesNoBlankLine(t[1..]);
          CollapseAfterLineFeed(t[1..]);
        }
      } else {
        CollapseLeavesNoBlankLine(t[1..]);
        PrefixOther(t[0], CollapseBlankLines(t[1..]));
      }
    }
  }

  /** The text a line feed is followed by, once collapsed, can follow that line feed. */
  lemma {:induction false} CollapseAfterLineFeed(rest: string)
    requires forall k :: 0 <= k < SkipSpace(rest, 0) ==> rest[k] != '\n'
    requires NoBlankLine(CollapseBlankLines(rest))
    ensures NoBlankLine("\n" + CollapseBlankLines(rest))
  {
    CollapseKeepsLead(rest);
    PrefixLineFeed(CollapseBlankLines(rest));
  }

  /** Skipping whitespace from inside a whitespace run ends where the run ends. */
  lemma {:induction false} SkipSpaceMiddle(t: string, p: nat, m: nat)
    requires p <= |t| && p <= m <= SkipSpace(t, p)
    ensures SkipSpace(t, m) == SkipSpace(t, p)
    decreases m - p
  {
    if m > p {
      SkipSpaceMiddle(t, p + 1, m);
    }
  }

  lemma {:induction false} PrefixLineFeed(r': string)
    requires NoBlankLine(r') && NoLeadingLineFeed(r')
    ensures NoBlankLine("\n" + r')
  {
    var r := "\n" + r';
    forall i, j | 0 <= i < j < |r| && r[i] == '\n' && r[j] == '\n'
      ensures !AllSpace(r[i + 1..j])
    {
      assert r'[j - 1] == '\n';
      if i == 0 {
        assert r[1..j] == r'[..j - 1];
      } else {
        assert r'[i - 1] == '\n';
        assert r[i + 1..j] == r'[i..j - 1];
      }
    }
  }

  lemma {:induction false} PrefixOther(c: char, r': string)
    requires c != '\n' && NoBlankLine(r')
    ensures NoBlankLine([c] + r')
  {
    var r := [c] + r';
    forall i, j | 0 <= i < j < |r| && r[i] == '\n' && r[j] == '\n'
      ensures !AllSpace(r[i + 1..j])
    {
      assert r'[i - 1] == '\n' && r'[j - 1] == '\n';
      assert r[i + 1..j] == r'[i..j - 1];
    }
  }

  /** A piece of a text without blank lines has none either. */
  lemma {:induction false} NoBlankLineSlice(s: string, a: nat, b: nat, u: string)
    requires a <= b <= |s| && NoBlankLine(s) && u == s[a..b]
    ensures NoBlankLine(u)
  {
    forall i, j | 0 <= i < j < |u| && u[i] == '\n' && u[j] == '\n'
      ensures !AllSpace(u[i + 1..j])
    {
      assert s[a + i] == '\n' && s[a + j] == '\n';
      assert !AllSpace(s[a + i + 1..a + j]);
      var m :| a + i + 1 <= m < a + j && !IsSpace(s[m]);
      assert u[i + 1..j][m - a - i - 1] == s[m];
    }
  }

  lemma {:induction false} TrimKeepsNoBlankLine(c: string)
    requires NoBlankLine(c)
    ensures NoBlankLine(Trim(c))
  {
    var r := Trim(c);
    var i := TrimmedFront(c);
    NoBlankLineSlice(c, i, i + |r|, r);
  }

  /** The three promises of the normaliser: no asterisk, no blank line, and no
      leading or trailing whitespace. */
  lemma {:induction false} NormaliseShape(s: string, bullets: set<char>)
    ensures '*' !in Normalise(s, bullets)
    ensures NoBlankLine(Normalise(s, bullets))
    ensures IsTrimmed(Normalise(s, bullets))
  {
    var b := StripBullets(RemoveAsterisks(s), bullets);
    var c := CollapseBlankLines(b);
    CollapseLeavesNoBlankLine(b);
    TrimKeepsNoBlankLine(c);
  }

  // ---------------------------------------------------------------------------
  // The two bullet classes

  /** The bullet-line pass depends on the bullet class only through the
      characters of the text. */
  lemma {:induction false} StripBulletsAgree(t: string, b1: set<char>, b2: set<char>, atStart: bool)
    requires forall k :: 0 <= k < |t| ==> (t[k] in b1 <==> t[k] in b2)
    ensures StripBulletsFrom(t, b1, atStart) == StripBulletsFrom(t, b2, atStart)
    decreases |t|
  {
    if t != [] {
      var q := SkipSpace(t, 0);
      var bullet := atStart && q < |t| && t[q] in b1;
      assert bullet == (atStart && q < |t| && t[q] in b2);
      var e := if bullet then SkipSpace(t, q + 1) else 1;
      var next := if bullet then IsLineBreak(t[e - 1]) else IsLineBreak(t[0]);
      StripStep(t, b1, atStart, bullet, e, next);
      StripStep(t, b2, atStart, bullet, e, next);
      AgreeOnSuffix(t, b1, b2, e);
      StripBulletsAgree(t[e..], b1, b2, next);
    }
  }

  /** One step of the bullet-line pass, named: a bullet run up to `e` is
      dropped, otherwise the first character is kept. */
  lemma {:induction false} StripStep(t: string, b: set<char>, atStart: bool, bullet: bool, e: nat, next: bool)
    requires t != []
    requires bullet == (atStart && SkipSpace(t, 0) < |t| && t[SkipSpace(t, 0)] in b)
    requires e == (if bullet then SkipSpace(t, SkipSpace(t, 0) + 1) else 1)
    requires next == (if bullet then IsLineBreak(t[e - 1]) else IsLineBreak(t[0]))
    ensures 0 < e <= |t|
    ensures StripBulletsFrom(t, b, atStart)
            == (if bullet then [] else [t[0]]) + StripBulletsFrom(t[e..], b, next)
  {
    var q := SkipSpace(t, 0);
    if bullet {
      assert q < |t| && e == SkipSpace(t, q + 1);
      assert StripBulletsFrom(t, b, atStart) == StripBulletsFrom(t[e..], b, next);
      assert [] + StripBulletsFrom(t[e..], b, next) == StripBulletsFrom(t[e..], b, next);
    } else {
      assert StripBulletsFrom(t, b, atStart) == [t[0]] + StripBulletsFrom(t[1..], b, next);
    }
  }

  /** Inside a line the pass copies the next character. */
  lemma {:induction false} StripInsideLine(t: string, b: set<char>)
    requires t != []
    ensures StripBulletsFrom(t, b, false) == [t[0]] + StripBulletsFrom(t[1..], b, IsLineBreak(t[0]))
  {
  }

  lemma {:induction false} AgreeOnSuffix(t: string, b1: set<char>, b2: set<char>, e: nat)
    requires e <= |t|
    requires forall k :: 0 <= k < |t| ==> (t[k] in b1 <==> t[k] in b2)
    ensures forall k :: 0 <= k < |t[e..]| ==> (t[e..][k] in b1 <==> t[e..][k] in b2)
  {
    forall k | 0 <= k < |t[e..]| ensures t[e..][k] in b1 <==> t[e..][k] in b2 {
      assert t[e..][k] == t[e + k];
    }
  }

  /** Two bullet classes give the same cleaned text on any input whose
      characters they classify alike. */
  lemma {:induction false} NormaliseAgrees(s: string, b1: set<char>, b2: set<char>)
    requires forall k :: 0 <= k < |s| ==> (s[k] in b1 <==> s[k] in b2)
    ensures Normalise(s, b1) == Normalise(s, b2)
  {
    var t := RemoveAsterisks(s);
    forall k | 0 <= k < |t|
      ensures t[k] in b1 <==> t[k] in b2
    {
      assert t[k] in t;
    }
    StripBulletsAgree(t, b1, b2, true);
  }

  // ---------------------------------------------------------------------------
  // Cleaning a text line by line

  /** A line of cleaned text as the parser expects it: not empty, not starting
      with whitespace, holding no line break. */
  predicate IsContentLine(x: string) {
    x != [] && !IsSpace(x[0]) && forall k :: 0 <= k < |x| ==> !IsLineBreak(x[k])
  }

  /** `raw` is a line the bullet pass turns into `clean`: either `clean` itself,
      when it does not start with a bullet, or `clean` behind the dash bullet "- ". */
  predicate StripsTo(raw: string, clean: string, bullets: set<char>) {
    IsContentLine(clean) && ((raw == clean && clean[0] !in bullets) || raw == "- " + clean)
  }

  /** Inside a line, the bullet pass copies up to and including the line feed
      and then stands at the start of the next line. */
  lemma {:induction false} StripCopiesToLineFeed(x: string, rest: string, bullets: set<char>)
    requires forall k :: 0 <= k < |x| ==> !IsLineBreak(x[k])
    ensures StripBulletsFrom(x + "\n" + rest, bullets, false) == x + "\n" + StripBulletsFrom(rest, bullets, true)
  {
    var t := x + "\n" + rest;
    assert t[..|x| + 1] == x + "\n";
    assert t[|x| + 1..] == rest;
    forall k | 0 <= k < |x| ensures !IsLineBreak(t[k]) {
      assert t[k] == x[k];
    }
    StripCopiesUpTo(t, |x|, bullets);
  }

  /** The same, for the line feed at index `n` of `t`. */
  lemma {:induction false} StripCopiesUpTo(t: string, n: nat, bullets: set<char>)
    requires n < |t| && t[n] == '\n'
    requires forall k :: 0 <= k < n ==> !IsLineBreak(t[k])
    ensures StripBulletsFrom(t, bullets, false) == t[..n + 1] + StripBulletsFrom(t[n + 1..], bullets, true)
    decreases n
  {
    StripInsideLine(t, bullets);
    if n == 0 {
      assert t[..1] == [t[0]];
    } else {
      var u := t[1..];
      forall k | 0 <= k < n - 1 ensures !IsLineBreak(u[k]) {
        assert u[k] == t[k + 1];
      }
      StripCopiesUpTo(u, n - 1, bullets);
      ConsSlices(t, n, StripBulletsFrom(t[n + 1..], bullets, true));
    }
  }

  /** The first character put back in front of a prefix of the rest. */
  lemma {:induction false} ConsSlices(t: string, n: nat, tail: string)
    requires 0 < n < |t|
    ensures t[1..][n..] == t[n + 1..]
    ensures [t[0]] + (t[1..][..n] + tail) == t[..n + 1] + tail
  {
    assert t[1..][..n] == t[1..n + 1];
    assert [t[0]] + t[1..n + 1] == t[..n + 1];
  }

  /** One line followed by more text: the line is cleaned on its own. */
  lemma {:induction false} StripLine(raw: string, clean: string, rest: string, bullets: set<char>)
    requires '-' in bullets && StripsTo(raw, clean, bullets)
    ensures StripBulletsFrom(raw + "\n" + rest, bullets, true) == clean + "\n" + StripBulletsFrom(rest, bullets, true)
  {
    var t := raw + "\n" + rest;
    if raw == "- " + clean {
      assert t[2] == clean[0];
      assert SkipSpace(t, 0) == 0;
      assert SkipSpace(t, 2) == 2;
      assert SkipSpace(t, 1) == 2;
      assert t[2..] == clean + "\n" + rest;
      StripCopiesToLineFeed(clean, rest, bullets);
    } else {
      assert SkipSpace(t, 0) == 0;
      assert t[1..] == clean[1..] + "\n" + rest;
      StripCopiesToLineFeed(clean[1..], rest, bullets);
      assert [clean[0]] + clean[1..] == clean;
    }
  }

  /** The last line of a text: cleaned on its own. */
  lemma {:induction false} StripLastLine(raw: string, clean: string, bullets: set<char>)
    requires '-' in bullets && StripsTo(raw, clean, bullets)
    ensures StripBulletsFrom(raw, bullets, true) == clean
  {
    if raw == "- " + clean {
      StripOneBullet(clean, bullets);
    } else {
      assert SkipSpace(raw, 0) == 0;
      StripCopiesLine(raw[1..], bullets);
      assert [raw[0]] + raw[1..] == raw;
    }
  }

  /** The bullet pass cleans joined lines one by one. */
  lemma {:induction false} StripJoin(raws: seq<string>, cleans: seq<string>, bullets: set<char>)
    requires '-' in bullets && |raws| == |cleans| >= 1
    requires forall i :: 0 <= i < |raws| ==> StripsTo(raws[i], cleans[i], bullets)
    ensures StripBullets(Join(raws), bullets) == Join(cleans)
    decreases |raws|
  {
    if |raws| == 1 {
      StripLastLine(raws[0], cleans[0], bullets);
    } else {
      StripJoin(raws[1..], cleans[1..], bullets);
      StripLine(raws[0], cleans[0], Join(raws[1..]), bullets);
    }
  }

  /** A line feed followed by a line that starts with a visible character is
      not a blank line: the collapsing pass keeps it. */
  lemma {:induction false} CollapseLine(x: string, rest: string)
    requires '\n' !in x && rest != [] && !IsSpace(rest[0])
    ensures CollapseBlankLines(x + "\n" + rest) == x + "\n" + CollapseBlankLines(rest)
  {
    var t := x + "\n" + rest;
    forall i | 0 <= i < |x| ensures t[i] != '\n' {
      assert t[i] == x[i] && x[i] in x;
    }
    calc {
      CollapseBlankLines(t);
      { CollapsePrefix(t, |x|); }
      t[..|x|] + CollapseBlankLines(t[|x|..]);
      { assert t[..|x|] == x; assert t[|x|..] == "\n" + rest; }
      x + CollapseBlankLines("\n" + rest);
      { CollapseLineFeed(rest); }
      x + ("\n" + CollapseBlankLines(rest));
      { Assoc(x, "\n", CollapseBlankLines(rest)); }
      x + "\n" + CollapseBlankLines(rest);
    }
  }

  /** A stretch without line feeds at the front is copied. */
  lemma {:induction false} CollapsePrefix(t: string, k: nat)
    requires k <= |t|
    requires forall i :: 0 <= i < k ==> t[i] != '\n'
    ensures CollapseBlankLines(t) == t[..k] + CollapseBlankLines(t[k..])
    decreases k
  {
    if k == 0 {
      assert t[..0] + CollapseBlankLines(t[0..]) == CollapseBlankLines(t);
    } else {
      var u := t[1..];
      assert CollapseBlankLines(t) == [t[0]] + CollapseBlankLines(u);
      CollapsePrefix(u, k - 1);
      assert u[k - 1..] == t[k..];
      assert [t[0]] + u[..k - 1] == t[..k];
    }
  }

  lemma {:induction false} CollapseLineFeed(rest: string)
    requires rest != [] && !IsSpace(rest[0])
    ensures CollapseBlankLines("\n" + rest) == "\n" + CollapseBlankLines(rest)
  {
    var t := "\n" + rest;
    assert t[1] == rest[0];
    assert SkipSpace(t, 1) == 1;
    assert LastLineFeed(t, 1, 1).None?;
    assert t[1..] == rest;
  }

  /** Joined content lines hold no blank line: the collapsing pass keeps them. */
  lemma {:induction false} CollapseJoin(lines: seq<string>)
    requires |lines| >= 1
    requires forall i :: 0 <= i < |lines| ==> IsContentLine(lines[i])
    ensures CollapseBlankLines(Join(lines)) == Join(lines)
    decreases |lines|
  {
    NoLineFeedInContent(lines[0]);
    if |lines| == 1 {
      CollapseCopiesLine(lines[0]);
    } else {
      CollapseJoin(lines[1..]);
      JoinStartsWith(lines[1..]);
      CollapseLine(lines[0], Join(lines[1..]));
      CollapseCopiesLine(lines[0]);
    }
  }

  lemma {:induction false} NoLineFeedInContent(x: string)
    requires IsContentLine(x)
    ensures '\n' !in x
  {
    forall k | 0 <= k < |x| ensures x[k] != '\n' {
      assert !IsLineBreak(x[k]);
    }
  }

  /** Lines without asterisks stay without asterisks once joined. */
  lemma {:induction false} JoinNoAsterisk(lines: seq<string>)
    requires forall i :: 0 <= i < |lines| ==> '*' !in lines[i]
    ensures '*' !in Join(lines)
    decreases |lines|
  {
    if |lines| > 1 {
      JoinNoAsterisk(lines[1..]);
    }
  }

  // ---------------------------------------------------------------------------
  // The regular-expression chain is not idempotent

  /** Inside a line (no line break), the bullet pass copies the text. */
  lemma {:induction false} StripCopiesLine(t: string, bullets: set<char>)
    requires forall k :: 0 <= k < |t| ==> !IsLineBreak(t[k])
    ensures StripBulletsFrom(t, bullets, false) == t
    decreases |t|
  {
    if t != [] {
      StripCopiesLine(t[1..], bullets);
      assert [t[0]] + t[1..] == t;
    }
  }

  /** Text without a line feed is left alone by the collapsing pass. */
  lemma {:induction false} CollapseCopiesLine(t: string)
    requires '\n' !in t
    ensures CollapseBlankLines(t) == t
    decreases |t|
  {
    if t != [] {
      CollapseCopiesLine(t[1..]);
      assert [t[0]] + t[1..] == t;
    }
  }

  /** One pass removes only the first of two leading bullets. */
  lemma {:induction false} StripOneBullet(x: string, bullets: set<char>)
    requires '-' in bullets
    requires forall k :: 0 <= k < |x| ==> !IsLineBreak(x[k])
    requires x != [] && !IsSpace(x[0])
    ensures StripBullets("- " + x, bullets) == x
  {
    var t := "- " + x;
    assert SkipSpace(t, 0) == 0;
    assert SkipSpace(t, 2) == 2;
    assert SkipSpace(t, 1) == 2;
    assert t[2..] == x;
    StripCopiesLine(x, bullets);
  }

  /** A single trimmed line behind one bullet comes out of the chain as the
      bare line. */
  lemma {:induction false} NormaliseBulletLine(x: string, bullets: set<char>)
    requires '-' in bullets && '*' !in x && '\n' !in x
    requires forall k :: 0 <= k < |x| ==> !IsLineBreak(x[k])
    requires x != [] && IsTrimmed(x)
    ensures Normalise("- " + x, bullets) == x
  {
    assert '*' !in "- " + x;
    RemoveAsterisksIdentity("- " + x);
    StripOneBullet(x, bullets);
    CollapseCopiesLine(x);
    TrimOfTrimmed(x);
  }

  /** A bullet, a space and a one-line text is again such a text. */
  lemma {:induction false} BulletLineIsLine(x: string)
    requires '*' !in x && '\n' !in x && '\r' !in x
    requires x != [] && IsTrimmed(x)
    ensures var y := "- " + x;
            '*' !in y && '\n' !in y && IsTrimmed(y) && y != []
            && forall k :: 0 <= k < |y| ==> !IsLineBreak(y[k])
  {
    var y := "- " + x;
    forall k | 0 <= k < |y| ensures !IsLineBreak(y[k]) && y[k] != '*' {
      if k >= 2 {
        assert y[k] == x[k - 2];
        assert x[k - 2] in x;
      }
    }
  }

  /** A one-line reply whose text itself starts with a bullet keeps that bullet
      after one cleaning and loses it on the next, so cleaning twice differs
      from cleaning once. */
  lemma {:induction false} NormaliseNotIdempotent(x: string, bullets: set<char>)
    requires '-' in bullets && '*' !in x && '\n' !in x && '\r' !in x
    requires x != [] && IsTrimmed(x)
    ensures Normalise("- - " + x, bullets) == "- " + x
    ensures Normalise("- " + x, bullets) == x
    ensures Normalise(Normalise("- - " + x, bullets), bullets) != Normalise("- - " + x, bullets)
  {
    BulletLineIsLine(x);
    var y := "- " + x;
    assert "- - " + x == "- " + y;
    NormaliseBulletLine(y, bullets);
    assert forall k :: 0 <= k < |x| ==> !IsLineBreak(x[k]) by {
      forall k | 0 <= k < |x| ensures !IsLineBreak(x[k]) { assert x[k] in x; }
    }
    NormaliseBulletLine(x, bullets);
    assert |y| != |x|;
  }
}
