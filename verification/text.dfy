/** String primitives the server code takes from JavaScript: the `\s` and `\d`
    character classes, case-insensitive matching, `trim`, `split('\n')`,
    `includes`, and the decimal rendering of numbers. */
module Text {
  import opened Outcomes

  /** The regular-expression class `\s` (and the characters `trim` removes),
      approximated by the six ASCII whitespace characters. */
  predicate IsSpace(c: char) {
    c == ' ' || c == '\t' || c == '\n' || c == '\r' || c == '\U{000B}' || c == '\U{000C}'
  }

  /** The regular-expression class `\d`: ASCII digits only. */
  predicate IsDigit(c: char) {
    '0' <= c <= '9'
  }

  /** The line terminators after which `^` matches in multiline mode (ASCII approximation). */
  predicate IsLineBreak(c: char) {
    c == '\n' || c == '\r'
  }

  /** ASCII case folding. Every pattern the server matches with the `i` flag is
      ASCII, and a non-ASCII character never folds onto an ASCII one in a
      non-unicode regular expression, so this folding is exact for those patterns. */
  function Lower(c: char): (r: char)
    ensures IsSpace(r) <==> IsSpace(c)
    ensures r == '\n' <==> c == '\n'
  {
    if 'A' <= c <= 'Z' then (c as int + 32) as char else c
  }

  predicate AllSpace(s: string) {
    forall i :: 0 <= i < |s| ==> IsSpace(s[i])
  }

  predicate AllDigits(s: string) {
    forall i :: 0 <= i < |s| ==> IsDigit(s[i])
  }

  /** `r` occurs somewhere inside `s`. */
  ghost predicate IsSubstring(r: string, s: string) {
    exists i :: 0 <= i <= |s| && r <= s[i..]
  }

  lemma {:induction false} SubstringTransitive(a: string, b: string, c: string)
    requires IsSubstring(a, b) && IsSubstring(b, c)
    ensures IsSubstring(a, c)
  {
    var i :| 0 <= i <= |b| && a <= b[i..];
    var j :| 0 <= j <= |c| && b <= c[j..];
    assert a <= c[j + i..];
  }

  /** Index of the first non-whitespace character at or after `p` (the end of a greedy `\s*`). */
  function SkipSpace(s: string, p: nat): (q: nat)
    requires p <= |s|
    ensures p <= q <= |s|
    ensures forall i :: p <= i < q ==> IsSpace(s[i])
    ensures q == |s| || !IsSpace(s[q])
    decreases |s| - p
  {
    if p < |s| && IsSpace(s[p]) then SkipSpace(s, p + 1) else p
  }

  /** Index of the first non-digit character at or after `p` (the end of a greedy `\d*`). */
  function SkipDigits(s: string, p: nat): (q: nat)
    requires p <= |s|
    ensures p <= q <= |s|
    ensures forall i :: p <= i < q ==> IsDigit(s[i])
    ensures q == |s| || !IsDigit(s[q])
    decreases |s| - p
  {
    if p < |s| && IsDigit(s[p]) then SkipDigits(s, p + 1) else p
  }

  /** `pat` occurs at index `p` of `s`, case-sensitively. */
  predicate MatchesAt(s: string, p: nat, pat: string) {
    p + |pat| <= |s| && forall k :: 0 <= k < |pat| ==> s[p + k] == pat[k]
  }

  /** `pat` occurs at index `p` of `s` when both are ASCII case-folded (the `i` flag). */
  predicate MatchesCiAt(s: string, p: nat, pat: string) {
    p + |pat| <= |s| && forall k :: 0 <= k < |pat| ==> Lower(s[p + k]) == Lower(pat[k])
  }

  /** JavaScript `s.includes(pat)`: a case-sensitive occurrence anywhere. */
  predicate Contains(s: string, pat: string) {
    exists p: nat :: p <= |s| && MatchesAt(s, p, pat)
  }

  /** A case-insensitive occurrence anywhere. */
  predicate ContainsCi(s: string, pat: string) {
    exists p: nat :: p <= |s| && MatchesCiAt(s, p, pat)
  }

  lemma {:induction false} MatchesAtIsMatchesCiAt(s: string, p: nat, pat: string)
    requires MatchesAt(s, p, pat)
    ensures MatchesCiAt(s, p, pat)
  {
  }

  lemma {:induction false} ContainsIsContainsCi(s: string, pat: string)
    requires Contains(s, pat)
    ensures ContainsCi(s, pat)
  {
    var p: nat :| p <= |s| && MatchesAt(s, p, pat);
    MatchesAtIsMatchesCiAt(s, p, pat);
  }

  lemma {:induction false} CiAbsenceIsAbsence(s: string, pat: string)
    requires !ContainsCi(s, pat)
    ensures !Contains(s, pat)
  {
    forall p: nat | p <= |s| ensures !MatchesAt(s, p, pat) {
      assert !MatchesCiAt(s, p, pat);
    }
  }

  /** The leftmost case-insensitive occurrence of `pat` at or after `from`
      (what an unanchored `/pat/i` search finds). */
  function FindCi(s: string, pat: string, from: nat): (r: Option<nat>)
    requires from <= |s|
    ensures r.Some? ==> from <= r.value && r.value + |pat| <= |s|
    decreases |s| - from
  {
    if MatchesCiAt(s, from, pat) then Some(from)
    else if from == |s| then None
    else FindCi(s, pat, from + 1)
  }

  /** What `FindCi` finds is an occurrence. */
  lemma {:induction false} FindCiMatches(s: string, pat: string, from: nat)
    requires from <= |s|
    ensures FindCi(s, pat, from).Some? ==> MatchesCiAt(s, FindCi(s, pat, from).value, pat)
    decreases |s| - from
  {
    if !MatchesCiAt(s, from, pat) && from < |s| {
      FindCiMatches(s, pat, from + 1);
    }
  }

  /** What `FindCi` finds is the leftmost occurrence; when it finds nothing
      there is none. */
  lemma {:induction false} FindCiLeftmost(s: string, pat: string, from: nat)
    requires from <= |s|
    ensures FindCi(s, pat, from).Some? ==>
              forall i :: from <= i < FindCi(s, pat, from).value ==> !MatchesCiAt(s, i, pat)
    ensures FindCi(s, pat, from).None? ==> forall i :: from <= i <= |s| ==> !MatchesCiAt(s, i, pat)
    decreases |s| - from
  {
    if !MatchesCiAt(s, from, pat) && from < |s| {
      FindCiLeftmost(s, pat, from + 1);
    }
  }

  /** A string is trimmed when it neither starts nor ends with whitespace. */
  predicate IsTrimmed(s: string) {
    s == [] || (!IsSpace(s[0]) && !IsSpace(s[|s| - 1]))
  }

  function TrimStart(s: string): (r: string)
    ensures |r| <= |s| && r == s[|s| - |r|..]
    ensures AllSpace(s[..|s| - |r|])
    ensures r == [] || !IsSpace(r[0])
  {
    if |s| > 0 && IsSpace(s[0]) then
      var r := TrimStart(s[1..]);
      assert s[..|s| - |r|] == [s[0]] + s[1..][..|s[1..]| - |r|];
      r
    else s
  }

  function TrimEnd(s: string): (r: string)
    ensures |r| <= |s| && r == s[..|r|]
    ensures AllSpace(s[|r|..])
    ensures r == [] || !IsSpace(r[|r| - 1])
  {
    if |s| > 0 && IsSpace(s[|s| - 1]) then
      var r := TrimEnd(s[..|s| - 1]);
      assert s[|r|..] == s[..|s| - 1][|r|..] + [s[|s| - 1]];
      r
    else s
  }

  /** JavaScript `s.trim()`: `s` without its leading and trailing whitespace. */
  function Trim(s: string): (r: string)
    ensures IsTrimmed(r)
    ensures |r| <= |s| - TrimmedFront(s)
    ensures r == s[TrimmedFront(s)..TrimmedFront(s) + |r|]
  {
    var a := TrimStart(s);
    var r := TrimEnd(a);
    TrimParts(s, a, r, TrimmedFront(s));
    r
  }

  /** What `trim` removes is whitespace. */
  lemma {:induction false} TrimDropsSpace(s: string)
    ensures AllSpace(s[..TrimmedFront(s)]) && AllSpace(s[TrimmedFront(s) + |Trim(s)|..])
  {
    var a := TrimStart(s);
    var r := TrimEnd(a);
    var n := TrimmedFront(s);
    var m := |Trim(s)|;
    assert n == |s| - |a| && m == |r|;
    assert AllSpace(s[..n]) by {
      assert AllSpace(s[..|s| - |a|]);
    }
    assert AllSpace(s[n + m..]) by {
      TrimTail(s, a, r, n);
    }
  }

  /** Trimming the end of what trimming the front left: the pieces fit. */
  lemma {:induction false} TrimParts(s: string, a: string, r: string, n: nat)
    requires |a| <= |s| && a == s[|s| - |a|..] && (a == [] || !IsSpace(a[0])) && n == |s| - |a|
    requires |r| <= |a| && r == a[..|r|] && (r == [] || !IsSpace(r[|r| - 1]))
    ensures IsTrimmed(r)
    ensures n + |r| <= |s| && r == s[n..n + |r|]
  {
    assert s[n..n + |r|] == a[..|r|];
    if r != [] {
      assert r[0] == a[0];
    }
  }

  /** What trimming the end left of `a` is followed in `s` by whitespace. */
  lemma {:induction false} TrimTail(s: string, a: string, r: string, n: nat)
    requires |a| <= |s| && a == s[|s| - |a|..] && n == |s| - |a|
    requires |r| <= |a| && AllSpace(a[|r|..])
    ensures AllSpace(s[n + |r|..])
  {
    assert s[n + |r|..] == a[|r|..];
  }

  /** How many whitespace characters `trim` removes from the front of `s`. */
  function TrimmedFront(s: string): (n: nat)
    ensures n <= |s|
  {
    |s| - |TrimStart(s)|
  }

  lemma {:induction false} TrimOfTrimmed(s: string)
    requires IsTrimmed(s)
    ensures Trim(s) == s
  {
  }

  lemma {:induction false} TrimIsSubstring(s: string)
    ensures IsSubstring(Trim(s), s)
  {
    var r := Trim(s);
    assert r <= s[TrimmedFront(s)..];
  }

  /** Lines joined with line feeds (JavaScript `lines.join('\n')`). */
  function Join(lines: seq<string>): string {
    if |lines| == 0 then []
    else if |lines| == 1 then lines[0]
    else lines[0] + "\n" + Join(lines[1..])
  }

  /** `a` is `b` with some entries deleted: the entries of `a` occur in `b`, in
      the same order and as often. */
  predicate IsSubsequence<T(==)>(a: seq<T>, b: seq<T>)
    decreases |b|
  {
    if b == [] then a == []
    else (a != [] && a[0] == b[0] && IsSubsequence(a[1..], b[1..])) || IsSubsequence(a, b[1..])
  }

  /** Deleting a prefix of `b` as well keeps `a` a subsequence. */
  lemma {:induction false} SubsequenceOfSuffix<T>(a: seq<T>, b: seq<T>, n: nat)
    requires n <= |b| && IsSubsequence(a, b[n..])
    ensures IsSubsequence(a, b)
    decreases n
  {
    if n > 0 {
      assert b[1..][n - 1..] == b[n..];
      SubsequenceOfSuffix(a, b[1..], n - 1);
    }
  }

  /** Keeping the first entry of `b` and deleting the next `n - 1`. */
  lemma {:induction false} SubsequenceKeepsHead<T>(a: seq<T>, b: seq<T>, n: nat)
    requires 1 <= n <= |b| && IsSubsequence(a, b[n..])
    ensures IsSubsequence([b[0]] + a, b)
  {
    assert b[1..][n - 1..] == b[n..];
    SubsequenceOfSuffix(a, b[1..], n - 1);
    assert ([b[0]] + a)[1..] == a;
  }

  lemma {:induction false} EmptySubsequence<T>(b: seq<T>)
    ensures IsSubsequence([], b)
    decreases |b|
  {
    if b != [] {
      EmptySubsequence(b[1..]);
    }
  }

  /** Deleting from what was already deleted from. */
  lemma {:induction false} SubsequenceTransitive<T>(a: seq<T>, b: seq<T>, c: seq<T>)
    requires IsSubsequence(a, b) && IsSubsequence(b, c)
    ensures IsSubsequence(a, c)
    decreases |c|
  {
    if b == [] {
      EmptySubsequence(c);
    } else if IsSubsequence(b, c[1..]) {
      SubsequenceTransitive(a, b, c[1..]);
    } else {
      assert b[0] == c[0] && IsSubsequence(b[1..], c[1..]);
      if IsSubsequence(a, b[1..]) {
        SubsequenceTransitive(a, b[1..], c[1..]);
      } else {
        assert a != [] && a[0] == b[0] && IsSubsequence(a[1..], b[1..]);
        SubsequenceTransitive(a[1..], b[1..], c[1..]);
      }
    }
  }

  /** Every entry of a subsequence is an entry of what it was taken from. */
  lemma {:induction false} SubsequenceMembers<T>(a: seq<T>, b: seq<T>)
    requires IsSubsequence(a, b)
    ensures forall x :: x in a ==> x in b
    decreases |b|
  {
    if b != [] {
      if IsSubsequence(a, b[1..]) {
        SubsequenceMembers(a, b[1..]);
      } else {
        SubsequenceMembers(a[1..], b[1..]);
        assert a == [a[0]] + a[1..];
      }
    }
  }

  /** A subsequence holds each entry at most as often. */
  lemma {:induction false} SubsequenceCounts<T>(a: seq<T>, b: seq<T>)
    ensures IsSubsequence(a, b) ==> multiset(a) <= multiset(b)
    decreases |b|
  {
    if b != [] {
      SubsequenceCounts(a, b[1..]);
      assert b == [b[0]] + b[1..];
      if a != [] {
        SubsequenceCounts(a[1..], b[1..]);
        assert a == [a[0]] + a[1..];
      }
    }
  }

  /** A prefix is a subsequence. */
  lemma {:induction false} PrefixIsSubsequence<T>(b: seq<T>, k: nat)
    requires k <= |b|
    ensures IsSubsequence(b[..k], b)
    decreases k
  {
    if k == 0 {
      EmptySubsequence(b);
    } else {
      assert b[1..][..k - 1] == b[..k][1..];
      PrefixIsSubsequence(b[1..], k - 1);
    }
  }

  /** A slice is a subsequence. */
  lemma {:induction false} SliceIsSubsequence<T>(b: seq<T>, i: nat, j: nat)
    requires i <= j <= |b|
    ensures IsSubsequence(b[i..j], b)
  {
    assert b[i..][..j - i] == b[i..j];
    PrefixIsSubsequence(b[i..], j - i);
    SubsequenceOfSuffix(b[i..j], b, i);
  }

  /** JavaScript `s.split('\n')`: the pieces between line feeds, in order. */
  function Split(s: string): (r: seq<string>)
    ensures |r| >= 1
    ensures forall i :: 0 <= i < |r| ==> '\n' !in r[i]
    ensures Join(r) == s
  {
    if s == [] then [[]]
    else
      var rest := Split(s[1..]);
      if s[0] == '\n' then
        assert s == "\n" + s[1..];
        [[]] + rest
      else
        assert s == [s[0]] + s[1..];
        [[s[0]] + rest[0]] + rest[1..]
  }

  lemma {:induction false} SplitOfLine(s: string)
    requires '\n' !in s
    ensures Split(s) == [s]
    decreases |s|
  {
    if s != [] {
      SplitOfLine(s[1..]);
      assert [s[0]] + s[1..] == s;
    }
  }

  /** Splitting after a first line that holds no line feed. */
  lemma {:induction false} SplitAfterLine(x: string, y: string)
    requires '\n' !in x
    ensures Split(x + "\n" + y) == [x] + Split(y)
    decreases |x|
  {
    var t := x + "\n" + y;
    SplitStep(t);
    if x == [] {
      assert t[0] == '\n';
      assert t[1..] == y;
    } else {
      assert t[0] == x[0];
      assert t[1..] == x[1..] + "\n" + y;
      SplitAfterLine(x[1..], y);
      var rest := Split(t[1..]);
      assert rest[0] == x[1..] && rest[1..] == Split(y);
      assert [x[0]] + x[1..] == x;
    }
  }

  /** One step of `Split`, named. */
  lemma {:induction false} SplitStep(s: string)
    requires s != []
    ensures s[0] == '\n' ==> Split(s) == [[]] + Split(s[1..])
    ensures s[0] != '\n' ==> Split(s) == [[s[0]] + Split(s[1..])[0]] + Split(s[1..])[1..]
  {
  }

  /** Split inverts Join on lines that hold no line feed. */
  lemma {:induction false} SplitJoin(lines: seq<string>)
    requires |lines| >= 1
    requires forall i :: 0 <= i < |lines| ==> '\n' !in lines[i]
    ensures Split(Join(lines)) == lines
    decreases |lines|
  {
    if |lines| == 1 {
      SplitOfLine(lines[0]);
    } else {
      SplitAfterLine(lines[0], Join(lines[1..]));
      SplitJoin(lines[1..]);
    }
  }

  /** Lines joined one after another: the line feed between the two groups
      is the only one added. */
  lemma {:induction false} JoinAppend(a: seq<string>, b: seq<string>)
    requires |a| >= 1 && |b| >= 1
    ensures Join(a + b) == Join(a) + "\n" + Join(b)
    decreases |a|
  {
    if |a| == 1 {
      assert (a + b)[1..] == b;
    } else {
      JoinAppend(a[1..], b);
      assert (a + b)[1..] == a[1..] + b;
    }
  }

  /** Joined lines start with the first character of the first line. */
  lemma {:induction false} JoinStartsWith(lines: seq<string>)
    requires |lines| >= 1 && lines[0] != []
    ensures Join(lines) != [] && Join(lines)[0] == lines[0][0]
  {
  }

  /** Joined lines end with the last character of the last line. */
  lemma {:induction false} JoinEndsWith(lines: seq<string>)
    requires |lines| >= 1 && lines[|lines| - 1] != []
    ensures Join(lines) != [] && Join(lines)[|Join(lines)| - 1] == lines[|lines| - 1][|lines[|lines| - 1]| - 1]
    decreases |lines|
  {
    if |lines| > 1 {
      JoinEndsWith(lines[1..]);
    }
  }

  /** A slice of the second part of a concatenation. */
  lemma {:induction false} SliceOfSecond(u: string, v: string, a: nat, b: nat)
    requires a <= b <= |v|
    ensures (u + v)[|u| + a..|u| + b] == v[a..b]
  {
  }

  /** A slice of a suffix is a slice of the whole. */
  lemma {:induction false} Assoc(a: string, b: string, c: string)
    ensures a + b + c == a + (b + c)
  {
  }

  lemma {:induction false} SliceOfSuffix(s: string, p: nat, a: nat, b: nat)
    requires a <= b && p + b <= |s|
    ensures s[p..][a..b] == s[p + a..p + b]
  {
  }

  lemma {:induction false} SkipSpaceShift(u: string, d: nat, p: nat)
    requires d <= |u| && p <= |u| - d
    ensures SkipSpace(u[d..], p) + d == SkipSpace(u, p + d)
    decreases |u| - d - p
  {
    if p < |u| - d && IsSpace(u[d..][p]) {
      SkipSpaceShift(u, d, p + 1);
    }
  }

  // ---------------------------------------------------------------------------
  // Case-insensitive occurrences across concatenations

  /** Matching inside the second part of a concatenation is matching in that part. */
  lemma {:induction false} MatchesCiShift(u: string, v: string, i: nat, pat: string)
    requires i <= |v|
    ensures MatchesCiAt(u + v, |u| + i, pat) == MatchesCiAt(v, i, pat)
  {
    if i + |pat| <= |v| {
      forall k | 0 <= k < |pat|
        ensures Lower((u + v)[|u| + i + k]) == Lower(pat[k]) <==> Lower(v[i + k]) == Lower(pat[k])
      {
        assert (u + v)[|u| + i + k] == v[i + k];
      }
    }
  }

  /** A search that starts inside the second part of a concatenation finds what
      the search of that part finds, moved right by the first part's length. */
  lemma {:induction false} FindCiShift(u: string, v: string, pat: string, i: nat, j: nat)
    requires i <= |v| && FindCi(v, pat, i) == Some(j)
    ensures FindCi(u + v, pat, |u| + i) == Some(|u| + j)
    decreases |v| - i
  {
    MatchesCiShift(u, v, i, pat);
    if !MatchesCiAt(v, i, pat) {
      FindCiShift(u, v, pat, i + 1, j);
    }
  }

  /** ... and finds nothing when that part holds no occurrence. */
  lemma {:induction false} FindCiShiftNone(u: string, v: string, pat: string, i: nat)
    requires i <= |v| && FindCi(v, pat, i) == None
    ensures FindCi(u + v, pat, |u| + i) == None
    decreases |v| - i
  {
    MatchesCiShift(u, v, i, pat);
    if i < |v| {
      FindCiShiftNone(u, v, pat, i + 1);
    }
  }

  /** A line that does not mention `pat` cannot hold an occurrence of it, and no
      occurrence of a pattern without line feeds runs over the line's end. */
  lemma {:induction false} NoMatchInFirstLine(x: string, y: string, pat: string, i: nat)
    requires '\n' !in pat && !ContainsCi(x, pat) && i <= |x|
    ensures !MatchesCiAt(x + "\n" + y, i, pat)
  {
    var s := x + "\n" + y;
    if i + |pat| <= |s| {
      if i + |pat| <= |x| {
        assert !MatchesCiAt(x, i, pat);
        var k :| 0 <= k < |pat| && Lower(x[i + k]) != Lower(pat[k]);
        assert s[i + k] == x[i + k];
      } else {
        var k := |x| - i;
        assert s[i + k] == '\n';
        assert pat[k] in pat;
      }
    }
  }

  /** The first occurrence after a line that does not mention `pat` is the first
      occurrence in the text that follows the line. */
  lemma {:induction false} FindCiSkipsLine(x: string, y: string, pat: string, from: nat, j: nat)
    requires '\n' !in pat && !ContainsCi(x, pat) && from <= |x| + 1
    requires FindCi(y, pat, 0) == Some(j)
    ensures FindCi(x + "\n" + y, pat, from) == Some(|x| + 1 + j)
    decreases |x| + 1 - from
  {
    if from == |x| + 1 {
      FindCiShift(x + "\n", y, pat, 0, j);
    } else {
      NoMatchInFirstLine(x, y, pat, from);
      FindCiSkipsLine(x, y, pat, from + 1, j);
    }
  }

  /** Two lines that do not mention `pat` do not mention it once joined. */
  lemma {:induction false} NoCiAcrossLineFeed(x: string, y: string, pat: string)
    requires '\n' !in pat && !ContainsCi(x, pat) && !ContainsCi(y, pat)
    ensures !ContainsCi(x + "\n" + y, pat)
  {
    var s := x + "\n" + y;
    forall p: nat | p <= |s| ensures !MatchesCiAt(s, p, pat) {
      if p <= |x| {
        NoMatchInFirstLine(x, y, pat, p);
      } else {
        MatchesCiShift(x + "\n", y, p - |x| - 1, pat);
      }
    }
  }

  /** Lines that do not mention `pat` do not mention it once joined. */
  lemma {:induction false} JoinNoCi(lines: seq<string>, pat: string)
    requires pat != [] && '\n' !in pat
    requires forall i :: 0 <= i < |lines| ==> !ContainsCi(lines[i], pat)
    ensures !ContainsCi(Join(lines), pat)
    decreases |lines|
  {
    if |lines| > 1 {
      JoinNoCi(lines[1..], pat);
      NoCiAcrossLineFeed(lines[0], Join(lines[1..]), pat);
    }
  }

  /** No occurrence of `pat` can start where nothing matches its first character. */
  lemma {:induction false} NoCiByLeadChar(x: string, pat: string)
    requires pat != []
    requires forall p :: 0 <= p && p + |pat| <= |x| ==> Lower(x[p]) != Lower(pat[0])
    ensures !ContainsCi(x, pat)
  {
    forall p: nat | p <= |x| ensures !MatchesCiAt(x, p, pat) {
      if p + |pat| <= |x| {
        assert Lower(x[p + 0]) != Lower(pat[0]);
      }
    }
  }

  // ---------------------------------------------------------------------------
  // Decimal rendering (JavaScript `String(n)` for integers)

  function DigitChar(d: nat): (c: char)
    requires d < 10
    ensures IsDigit(c)
  {
    "0123456789"[d]
  }

  function DigitValue(c: char): nat
    requires IsDigit(c)
  {
    c as int - '0' as int
  }

  /** The decimal numeral of `n`, without leading zeros. */
  function NatString(n: nat): (r: string)
    ensures |r| >= 1 && AllDigits(r)
    ensures n < 10 <==> |r| == 1
    ensures r[0] == '0' ==> n == 0
    decreases n
  {
    if n < 10 then [DigitChar(n)] else NatString(n / 10) + [DigitChar(n % 10)]
  }

  /** The number a string of digits denotes. */
  function NatValue(s: string): nat
    requires AllDigits(s)
  {
    if s == [] then 0 else 10 * NatValue(s[..|s| - 1]) + DigitValue(s[|s| - 1])
  }

  lemma {:induction false} NatStringRoundTrip(n: nat)
    ensures NatValue(NatString(n)) == n
    decreases n
  {
    if n >= 10 {
      NatStringRoundTrip(n / 10);
      var r := NatString(n);
      assert r[..|r| - 1] == NatString(n / 10);
    }
  }

  /** JavaScript `String(i)` for an integer `i`. */
  function IntString(i: int): (r: string)
    ensures |r| >= 1
    ensures i >= 0 ==> AllDigits(r) && NatValue(r) == i
    ensures i < 0 ==> r[0] == '-' && AllDigits(r[1..]) && NatValue(r[1..]) == -i
    ensures i >= 0 && r[0] == '0' ==> i == 0
    ensures i < 0 ==> |r| >= 2 && r[1] != '0'
  {
    NatStringRoundTrip(if i < 0 then -i else i);
    if i < 0 then "-" + NatString(-i) else NatString(i)
  }

  lemma {:induction false} DigitsAreNoLineFeed(s: string)
    requires AllDigits(s)
    ensures '\n' !in s
  {
    forall k | 0 <= k < |s| ensures s[k] != '\n' {
      assert IsDigit(s[k]);
    }
  }

  /** A rendered integer is one line. */
  lemma {:induction false} IntStringIsOneLine(i: int)
    ensures '\n' !in IntString(i)
  {
    var n := if i < 0 then -i else i;
    DigitsAreNoLineFeed(NatString(n));
    assert i < 0 ==> IntString(i) == "-" + NatString(n);
  }

  /** JavaScript `s.padStart(2, '0')`. */
  function PadStart2(s: string): (r: string)
    ensures |r| == if |s| >= 2 then |s| else 2
    ensures s == r[|r| - |s|..]
    ensures forall i :: 0 <= i < |r| - |s| ==> r[i] == '0'
  {
    if |s| >= 2 then s else seq(2 - |s|, _ => '0') + s
  }
}
