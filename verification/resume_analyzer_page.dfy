/** The logic of the resume-analysis page: the role list it offers, the checks
    before it sends a request to `/api/analyze`, and what it makes of the
    answer. */
module ResumeAnalyzerPage {
  import opened Outcomes
  import opened Quota
  import opened Http
  import opened AnalysisParser
  import opened ClientQuota
  import UserController
  import opened ResumeAnalyzerController

  /** The roles the page starts with. */
  const DefaultRoles: seq<string> := [
    "Software Engineer",
    "Data Scientist",
    "Product Manager",
    "UX Designer",
    "Marketing Manager",
    "Business Analyst"
  ]

  /** The index where `x` first occurs in `xs`. */
  function FirstIndex(xs: seq<string>, x: string): (i: nat)
    requires x in xs
    ensures i < |xs| && xs[i] == x && x !in xs[..i]
  {
    if xs[0] == x then 0
    else
      var i := 1 + FirstIndex(xs[1..], x);
      assert xs[..i] == [xs[0]] + xs[1..][..i - 1];
      i
  }

  /** `[...new Set(xs)]`: every entry once, in the order of first occurrence
      (`DistinctKeepsFirstOrder`). */
  function Distinct(xs: seq<string>): (r: seq<string>)
    ensures NoDuplicates(r)
    ensures forall x :: x in r <==> x in xs
    decreases |xs|
  {
    if xs == [] then []
    else
      var init := xs[..|xs| - 1];
      var last := xs[|xs| - 1];
      assert xs == init + [last];
      var d := Distinct(init);
      if last in d then d else d + [last]
  }

  /** The entries of `Distinct(xs)` come in the order in which they first
      occur in `xs`. With the contract of `Distinct` this determines the
      result. */
  lemma {:induction false} DistinctKeepsFirstOrder(xs: seq<string>)
    ensures var r := Distinct(xs);
            forall i, j :: 0 <= i < j < |r| ==> FirstIndex(xs, r[i]) < FirstIndex(xs, r[j])
    decreases |xs|
  {
    if xs != [] {
      var init := xs[..|xs| - 1];
      var last := xs[|xs| - 1];
      assert xs == init + [last];
      DistinctKeepsFirstOrder(init);
      DistinctSnoc(init, last);
      SnocKeepsFirstOrder(init, last, Distinct(init));
    }
  }

  /** Appending an entry moves no first occurrence of the earlier ones. */
  lemma {:induction false} FirstIndexOfPrefix(init: seq<string>, last: string, x: string)
    requires x in init
    ensures FirstIndex(init + [last], x) == FirstIndex(init, x)
    decreases |init|
  {
    if init[0] != x {
      assert (init + [last])[1..] == init[1..] + [last];
      FirstIndexOfPrefix(init[1..], last, x);
    }
  }

  /** A new entry first occurs where it is appended. */
  lemma {:induction false} FirstIndexOfNew(init: seq<string>, last: string)
    requires last !in init
    ensures FirstIndex(init + [last], last) == |init|
    decreases |init|
  {
    if init != [] {
      assert (init + [last])[1..] == init[1..] + [last];
      assert init[0] != last;
      FirstIndexOfNew(init[1..], last);
    }
  }

  /** One step of the set spread keeps the first-occurrence order. */
  lemma {:induction false} SnocKeepsFirstOrder(init: seq<string>, last: string, d: seq<string>)
    requires NoDuplicates(d) && forall x :: x in d <==> x in init
    requires forall i, j :: 0 <= i < j < |d| ==> FirstIndex(init, d[i]) < FirstIndex(init, d[j])
    ensures var r := if last in d then d else d + [last];
            forall i, j :: 0 <= i < j < |r| ==> FirstIndex(init + [last], r[i]) < FirstIndex(init + [last], r[j])
  {
    var xs := init + [last];
    forall i | 0 <= i < |d| ensures FirstIndex(xs, d[i]) == FirstIndex(init, d[i]) {
      assert d[i] in init;
      FirstIndexOfPrefix(init, last, d[i]);
    }
    if last !in d {
      FirstIndexOfNew(init, last);
      var r := d + [last];
      forall i, j | 0 <= i < j < |r| ensures FirstIndex(xs, r[i]) < FirstIndex(xs, r[j]) {
        assert r[i] == d[i];
        if j < |d| {
          assert r[j] == d[j];
        } else {
          assert r[j] == last;
        }
      }
    }
  }

  /** The body of `GET /api/roles` as the page sees it. */
  datatype RolesData = RoleArray(items: seq<string>) | NotAnArray

  /** `Array.isArray(res.data) ? res.data : []`. */
  function ApiRoles(data: RolesData): seq<string> {
    match data
    case RoleArray(items) => items
    case NotAnArray => []
  }

  /** The merged role list, built as the set is: one insertion at a time,
      skipping what is already in. */
  method MergeRoles(defaults: seq<string>, data: RolesData) returns (roles: seq<string>)
    ensures roles == Distinct(defaults + ApiRoles(data))
  {
    var all := defaults + ApiRoles(data);
    var seen: set<string> := {};
    roles := [];
    var i := 0;
    while i < |all|
      invariant 0 <= i <= |all|
      invariant roles == Distinct(all[..i])
      invariant forall x :: x in seen <==> x in roles
    {
      MergeStep(all, i, roles, seen);
      if all[i] !in seen {
        roles := roles + [all[i]];
        seen := seen + {all[i]};
      }
      i := i + 1;
    }
    assert all[..|all|] == all;
  }

  /** One turn of the merge loop keeps the list equal to the distinct
      entries seen so far and the set equal to its members. */
  lemma {:induction false} MergeStep(all: seq<string>, i: nat, roles: seq<string>, seen: set<string>)
    requires i < |all| && roles == Distinct(all[..i])
    requires forall x :: x in seen <==> x in roles
    ensures all[i] in seen ==> roles == Distinct(all[..i + 1])
    ensures all[i] !in seen ==> roles + [all[i]] == Distinct(all[..i + 1])
    ensures all[i] !in seen ==> forall x :: x in seen + {all[i]} <==> x in roles + [all[i]]
  {
    assert all[..i + 1] == all[..i] + [all[i]];
    DistinctSnoc(all[..i], all[i]);
  }

  /** One more entry: added at the end unless it is already in. */
  lemma {:induction false} DistinctSnoc(xs: seq<string>, x: string)
    ensures Distinct(xs + [x]) == if x in Distinct(xs) then Distinct(xs) else Distinct(xs) + [x]
  {
    var ys := xs + [x];
    assert ys[..|ys| - 1] == xs;
    assert ys[|ys| - 1] == x;
  }

  lemma {:induction false} DistinctOfDistinct(xs: seq<string>)
    requires NoDuplicates(xs)
    ensures Distinct(xs) == xs
    decreases |xs|
  {
    if xs != [] {
      var init := xs[..|xs| - 1];
      var last := xs[|xs| - 1];
      assert NoDuplicates(init);
      DistinctOfDistinct(init);
      assert last !in init;
      assert xs == init + [last];
      DistinctSnoc(init, last);
    }
  }

  /** Merging keeps a duplicate-free first list in front, in its order, and
      adds after it exactly the entries of the second list that it lacks. */
  lemma {:induction false} MergeKeepsDefaults(a: seq<string>, b: seq<string>)
    requires NoDuplicates(a)
    ensures |a| <= |Distinct(a + b)| && Distinct(a + b)[..|a|] == a
    ensures forall x :: x in Distinct(a + b)[|a|..] <==> x in b && x !in a
  {
    MergeKeepsPrefix(a, b);
    var d := Distinct(a + b);
    forall x | x in d[|a|..] ensures x !in a && x in b {
      var k :| |a| <= k < |d| && d[k] == x;
      forall j | 0 <= j < |a| ensures a[j] != x {
        assert a[j] == d[j];
      }
      assert x in a + b;
    }
    forall x | x in b && x !in a ensures x in d[|a|..] {
      assert x in a + b;
      var k :| 0 <= k < |d| && d[k] == x;
      assert d[|a|..][k - |a|] == x;
    }
  }

  /** The prefix half of the above, by induction on the second list. */
  lemma {:induction false} MergeKeepsPrefix(a: seq<string>, b: seq<string>)
    requires NoDuplicates(a)
    ensures |a| <= |Distinct(a + b)| && Distinct(a + b)[..|a|] == a
    decreases |b|
  {
    if b == [] {
      assert a + b == a;
      DistinctOfDistinct(a);
    } else {
      var b' := b[..|b| - 1];
      var x := b[|b| - 1];
      assert a + b == (a + b') + [x];
      MergeKeepsPrefix(a, b');
      DistinctSnoc(a + b', x);
    }
  }

  /** Merging a list whose entries the first list already holds changes
      nothing. */
  lemma {:induction false} MergeAbsorbs(a: seq<string>, b: seq<string>)
    requires NoDuplicates(a)
    requires forall x :: x in b ==> x in a
    ensures Distinct(a + b) == a
    decreases |b|
  {
    if b == [] {
      assert a + b == a;
      DistinctOfDistinct(a);
    } else {
      var b' := b[..|b| - 1];
      assert a + b == (a + b') + [b[|b| - 1]];
      assert (a + b)[..|a + b| - 1] == a + b';
      assert b[|b| - 1] in b;
      MergeAbsorbs(a, b');
    }
  }

  /** A role list that is not an array leaves exactly the defaults. */
  lemma NotAnArrayGivesDefaults()
    ensures Distinct(DefaultRoles + ApiRoles(NotAnArray)) == DefaultRoles
  {
    assert DefaultRoles + [] == DefaultRoles;
    DistinctOfDistinct(DefaultRoles);
  }

  /** The server's list holds nothing the defaults lack, so the merged list
      is the defaults. */
  lemma {:induction false} ServerRolesAddNothing()
    ensures Distinct(DefaultRoles + ApiRoles(RoleArray(GetRoles().body.items))) == DefaultRoles
  {
    MergeAbsorbs(DefaultRoles, AvailableRoles);
  }

  const FetchRolesError: string := "Failed to fetch roles"

  /** The role list and error line the page shows once `GET /api/roles`
      settles: the merged list, or the defaults and a message when the
      request failed. */
  datatype RolesView = RolesView(roles: seq<string>, error: string)

  function OnRolesFetched(answer: Option<RolesData>): (v: RolesView)
    ensures |DefaultRoles| <= |v.roles| && v.roles[..|DefaultRoles|] == DefaultRoles
    ensures NoDuplicates(v.roles)
    ensures v.error != [] <==> answer.None?
    ensures answer.Some? ==> forall x :: x in v.roles <==> x in DefaultRoles || x in ApiRoles(answer.value)
  {
    match answer
    case None => RolesView(DefaultRoles, FetchRolesError)
    case Some(data) =>
      MergeKeepsDefaults(DefaultRoles, ApiRoles(data));
      RolesView(Distinct(DefaultRoles + ApiRoles(data)), [])
  }

  /** What pressing "Analyze" does: a message and no request, or a request. */
  datatype Submit = Blocked(error: string) | Send(request: UserController.Request)

  const PickRoleError: string := "Please select a role"
  const PickFileError: string := "Please upload a PDF file"

  /** The checks of `handleAnalyze`: role first, then file. */
  function HandleAnalyze(role: string, hasFile: bool): (r: Submit)
    ensures role == [] ==> r == Blocked(PickRoleError)
    ensures role != [] && !hasFile ==> r == Blocked(PickFileError)
    ensures r.Send? <==> role != [] && hasFile
    ensures r.Send? ==> r.request == UserController.Request(true, role)
  {
    if role == [] then Blocked(PickRoleError)
    else if !hasFile then Blocked(PickFileError)
    else Send(UserController.Request(true, role))
  }

  /** A request the page sends never fails the analyzer's field checks. */
  lemma SentRequestsPassValidation(role: string, hasFile: bool, pdf: Effect<string>, ai: Effect<string>)
    requires HandleAnalyze(role, hasFile).Send?
    ensures AnalyzeResume(HandleAnalyze(role, hasFile).request, pdf, ai).status in {200, 500}
  {
  }

  const AnalyzeFailed: string := "Failed to analyze resume"

  /** What the page shows after the request. */
  datatype View = ShowAnalysis(analysis: Analysis) | ShowError(message: string)

  /** `message || "Failed to analyze resume"`. */
  function MessageOr(b: Body): string {
    if MessageOf(b) != [] then MessageOf(b) else AnalyzeFailed
  }

  /** The answer handling: a 2xx answer with an analysis opens it; a 2xx
      answer without one, an error status (axios throws) or no answer at all
      shows the body's `message`, or the fixed text when there is none. */
  function AfterAnalyze(answer: Option<Reply>): (v: View)
    ensures v.ShowAnalysis? <==> answer.Some? && 200 <= answer.value.status < 300 && CarriesAnalysis(answer.value.body)
    ensures answer.None? ==> v == ShowError(AnalyzeFailed)
    ensures v.ShowError? ==> v.message != []
  {
    match answer
    case None => ShowError(AnalyzeFailed)
    case Some(Reply(status, body)) =>
      if 200 <= status < 300 && CarriesAnalysis(body) then ShowAnalysis(body.analysis)
      else ShowError(MessageOr(body))
  }

  /** Against the analyzer the page calls, a success always opens the parsed
      analysis and every failure shows the same fixed text: the analyzer's
      errors travel in an `error` field the page does not read. */
  lemma AnalyzerAnswers(req: UserController.Request, pdf: Effect<string>, ai: Effect<string>)
    ensures var r := AnalyzeResume(req, pdf, ai);
            AfterAnalyze(Some(r))
            == if r.status == 200 then ShowAnalysis(Parse(ai.value, AnalyzerBullets)) else ShowError(AnalyzeFailed)
  {
    NoReplyHasMessage(req, pdf, ai);
  }

  /** The page disables "Analyze" for an exhausted account although the
      analyzer it calls keeps no quota and would serve the request. */
  lemma ButtonGateIsClientOnly(u: Account, role: string, resume: string, reply: string)
    requires Exhausted(u) && role != []
    ensures Disabled(false, Some(u))
    ensures AnalyzeResume(UserController.Request(true, role), Done(resume), Done(reply)).status == 200
  {
  }
}
