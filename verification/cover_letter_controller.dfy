/** The cover-letter handler (`POST /api/cover-letter/generate`): validate the
    form, find the user, apply the quota, have the language model write the
    body, wrap it in the fixed letter template and charge the use. */
module CoverLetterController {
  import opened Outcomes
  import opened Text
  import opened Quota
  import opened Http
  import UserController

  /** The form fields the handler reads, "" standing for every falsy value,
      and whether a file came with it. `address` is sent by the page and
      never read. */
  datatype Form = Form(hasFile: bool, jobId: string, jobTitle: string, companyName: string,
                       name: string, email: string, phone: string, linkedin: string,
                       github: string, address: string)

  const UploadMessage: string := "Please upload a resume"
  const JobIdMessage: string := "Please provide a job ID"
  const JobTitleMessage: string := "Please provide a job title"
  const CompanyMessage: string := "Please provide a company name"
  const NoUserMessage: string := "User not found"
  const GeneratedMessage: string := "Cover letter generated successfully"

  const NamePlaceholder: string := "[Your Name]"
  const EmailPlaceholder: string := "[your.email@email.com]"
  const PhonePlaceholder: string := "[Your Phone Number]"
  const LinkedInPlaceholder: string := "[LinkedIn URL]"
  const GitHubPlaceholder: string := "[GitHub URL]"

  /** The first check the form fails, in the handler's order: file, job ID,
      job title, company name. */
  function FormError(f: Form): (r: Option<string>)
    ensures r.None? <==> f.hasFile && f.jobId != [] && f.jobTitle != [] && f.companyName != []
    ensures !f.hasFile ==> r == Some(UploadMessage)
    ensures r == Some(JobIdMessage) <==> f.hasFile && f.jobId == []
    ensures r == Some(JobTitleMessage) <==> f.hasFile && f.jobId != [] && f.jobTitle == []
    ensures r == Some(CompanyMessage) <==>
              f.hasFile && f.jobId != [] && f.jobTitle != [] && f.companyName == []
  {
    if !f.hasFile then Some(UploadMessage)
    else if f.jobId == [] then Some(JobIdMessage)
    else if f.jobTitle == [] then Some(JobTitleMessage)
    else if f.companyName == [] then Some(CompanyMessage)
    else None
  }

  /** `value || placeholder`. */
  function OrPlaceholder(value: string, placeholder: string): (r: string)
    requires placeholder != []
    ensures r != []
    ensures r == value || (value == [] && r == placeholder)
  {
    if value == [] then placeholder else value
  }

  /** The calendar day the handler runs on, as `Date` reports it: the day of
      the month, the zero-based month and the full year. */
  datatype Today = Today(day: nat, month0: nat, year: int)

  predicate IsCalendarDay(t: Today) {
    1 <= t.day <= 31 && t.month0 <= 11
  }

  /** `String(n).padStart(2, '0')`. */
  function Pad2(n: nat): (r: string)
    ensures |r| >= 2 && AllDigits(r)
    ensures n < 100 ==> |r| == 2
  {
    PadStart2(NatString(n))
  }

  /** The date line `DD/MM/YYYY`: day and one-based month padded to two digits. */
  function DateString(t: Today): (r: string)
    ensures '\n' !in r
    ensures IsCalendarDay(t) ==> |r| == 6 + |IntString(t.year)| && r[2] == '/' && r[5] == '/'
  {
    var a := Pad2(t.day);
    var b := Pad2(t.month0 + 1);
    var y := IntString(t.year);
    DigitsAreNoLineFeed(a);
    DigitsAreNoLineFeed(b);
    IntStringIsOneLine(t.year);
    DateShape(a, b, y);
    a + "/" + b + "/" + y
  }

  lemma DateShape(a: string, b: string, y: string)
    ensures |a| == 2 && |b| == 2 ==>
              |a + "/" + b + "/" + y| == 6 + |y|
              && (a + "/" + b + "/" + y)[2] == '/' && (a + "/" + b + "/" + y)[5] == '/'
  {
  }

  /** Reads a `DD/MM/YYYY` date line back (a non-negative year). */
  function ReadDate(s: string): Option<Today> {
    if |s| >= 7 && s[2] == '/' && s[5] == '/' && AllDigits(s[..2]) && AllDigits(s[3..5])
       && AllDigits(s[6..]) && NatValue(s[3..5]) >= 1
    then Some(Today(NatValue(s[..2]), NatValue(s[3..5]) - 1, NatValue(s[6..])))
    else None
  }

  lemma {:induction false} LeadingZero(s: string)
    requires AllDigits(s)
    ensures NatValue("0" + s) == NatValue(s)
    decreases |s|
  {
    if s != [] {
      assert ("0" + s)[..|"0" + s| - 1] == "0" + s[..|s| - 1];
      LeadingZero(s[..|s| - 1]);
    } else {
      assert NatValue("0") == 10 * NatValue([]) + DigitValue('0');
    }
  }

  lemma Pad2Value(n: nat)
    requires n < 100
    ensures NatValue(Pad2(n)) == n
  {
    NatStringRoundTrip(n);
    if n < 10 {
      assert Pad2(n) == "0" + NatString(n);
      LeadingZero(NatString(n));
    }
  }

  /** The three fields of a date line. */
  lemma {:induction false} DateFields(a: string, b: string, y: string)
    requires |a| == 2 && |b| == 2
    ensures (a + "/" + b + "/" + y)[..2] == a
    ensures (a + "/" + b + "/" + y)[3..5] == b
    ensures (a + "/" + b + "/" + y)[6..] == y
  {
  }

  /** Every calendar day with a non-negative year reads back from its date line. */
  lemma {:induction false} DateRoundTrip(t: Today)
    requires IsCalendarDay(t) && t.year >= 0
    ensures ReadDate(DateString(t)) == Some(t)
  {
    var a, b, y := Pad2(t.day), Pad2(t.month0 + 1), IntString(t.year);
    Pad2Value(t.day);
    Pad2Value(t.month0 + 1);
    ReadFields(a, b, y);
    assert DateString(t) == a + "/" + b + "/" + y;
  }

  /** A line of two digits, a slash, two digits, a slash and digits reads
      back as its three numbers, the month made zero-based. */
  lemma {:induction false} ReadFields(a: string, b: string, y: string)
    requires |a| == 2 && |b| == 2 && y != []
    requires AllDigits(a) && AllDigits(b) && AllDigits(y) && NatValue(b) >= 1
    ensures ReadDate(a + "/" + b + "/" + y) == Some(Today(NatValue(a), NatValue(b) - 1, NatValue(y)))
  {
    DateFields(a, b, y);
  }

  /** The lines above the body. */
  function HeadLines(name: string, email: string, phone: string, linkedin: string,
                     github: string, date: string): seq<string> {
    [name, email + " | " + phone, "LinkedIn: " + linkedin, "GitHub: " + github, date,
     "", "Dear Hiring Manager,", ""]
  }

  /** The lines below the body. */
  function TailLines(name: string): seq<string> {
    ["", "Sincerely,", name]
  }

  /** The letter around the trimmed body, as lines joined by line feeds: the
      name; email and phone joined by " | "; the LinkedIn and GitHub lines; the
      date; a blank line; the greeting; a blank line; the body; a blank line;
      "Sincerely," and the name. */
  function Letter(name: string, email: string, phone: string, linkedin: string, github: string,
                  date: string, body: string): (r: string)
    ensures name + "\n" + email + " | " + phone + "\n" <= r
    ensures |name| <= |r| && r[|r| - |name|..] == name
    ensures |r| >= |name| + 13 && r[|r| - |name| - 13..] == "\n\nSincerely,\n" + name
  {
    var head := HeadLines(name, email, phone, linkedin, github, date);
    var tail := TailLines(name);
    JoinAppend(head + [body], tail);
    TailText(name);
    HeadText(head + [body] + tail);
    ClosingEnds(Join(head + [body]), name);
    Join(head + [body] + tail)
  }

  /** Text followed by a line feed and the closing ends with the closing. */
  lemma {:induction false} ClosingEnds(front: string, name: string)
    ensures var r := front + "\n" + ("\nSincerely,\n" + name);
            |r| >= |name| + 13 && r[|r| - |name| - 13..] == "\n\nSincerely,\n" + name
            && r[|r| - |name|..] == name
  {
    var c := "\n\nSincerely,\n" + name;
    assert front + "\n" + ("\nSincerely,\n" + name) == front + c;
    assert (front + c)[|front|..] == c;
    assert c[13..] == name;
  }

  /** The closing lines as text. */
  lemma {:induction false} TailText(name: string)
    ensures Join(TailLines(name)) == "\nSincerely,\n" + name
  {
    var tail := TailLines(name);
    var rest := tail[1..];
    assert rest == ["Sincerely,", name] && rest[1..] == [name];
    assert Join(rest[1..]) == name;
    assert Join(rest) == "Sincerely," + "\n" + name;
    assert Join(tail) == "" + "\n" + Join(rest);
    assert "" + "\n" + ("Sincerely," + "\n" + name) == "\nSincerely,\n" + name;
  }

  /** Lines whose first two are given start with those two and a line feed
      after each. */
  lemma {:induction false} HeadText(lines: seq<string>)
    requires |lines| >= 3
    ensures lines[0] + "\n" + lines[1] + "\n" <= Join(lines)
  {
    assert Join(lines) == lines[0] + "\n" + Join(lines[1..]);
    assert Join(lines[1..]) == lines[1] + "\n" + Join(lines[2..]) by {
      assert lines[1..][0] == lines[1] && lines[1..][1..] == lines[2..];
    }
  }

  /** Splitting at a line feed splits both sides. */
  lemma {:induction false} SplitAround(p: string, q: string)
    ensures Split(p + "\n" + q) == Split(p) + Split(q)
  {
    SplitOfJoined(Split(p), Split(q));
  }

  /** Two runs of lines joined by one more line feed split back into both. */
  lemma {:induction false} SplitOfJoined(a: seq<string>, b: seq<string>)
    requires |a| >= 1 && |b| >= 1
    requires forall i :: 0 <= i < |a| ==> '\n' !in a[i]
    requires forall i :: 0 <= i < |b| ==> '\n' !in b[i]
    ensures Split(Join(a) + "\n" + Join(b)) == a + b
  {
    var ls := a + b;
    JoinAppend(a, b);
    forall i | 0 <= i < |ls| ensures '\n' !in ls[i] {
      if i >= |a| {
        assert ls[i] == b[i - |a|];
      } else {
        assert ls[i] == a[i];
      }
    }
    SplitJoin(ls);
  }

  /** A letter read line by line: the five header lines, the date, the
      salutation, the lines of the body, the closing and the name again. */
  lemma {:induction false} LetterLines(name: string, email: string, phone: string, linkedin: string,
                                       github: string, date: string, body: string)
    requires '\n' !in name && '\n' !in email && '\n' !in phone && '\n' !in linkedin
    requires '\n' !in github && '\n' !in date
    ensures Split(Letter(name, email, phone, linkedin, github, date, body))
            == HeadLines(name, email, phone, linkedin, github, date) + Split(body) + TailLines(name)
  {
    var head := HeadLines(name, email, phone, linkedin, github, date);
    var tail := TailLines(name);
    JoinAppend(head + [body], tail);
    JoinAppend(head, [body]);
    assert forall i :: 0 <= i < |head| ==> '\n' !in head[i];
    assert forall i :: 0 <= i < |tail| ==> '\n' !in tail[i];
    SplitJoin(head);
    SplitJoin(tail);
    SplitAround(Join(head), body);
    SplitAround(Join(head) + "\n" + body, Join(tail));
  }

  /** The letter the handler builds for a form, a day and a model reply. */
  function LetterFor(f: Form, t: Today, reply: string): string {
    Letter(OrPlaceholder(f.name, NamePlaceholder), OrPlaceholder(f.email, EmailPlaceholder),
           OrPlaceholder(f.phone, PhonePlaceholder), OrPlaceholder(f.linkedin, LinkedInPlaceholder),
           OrPlaceholder(f.github, GitHubPlaceholder), DateString(t), Trim(reply))
  }

  /** The handler. `user` is what the lookup finds; `pdf`, `ai` and `save` are
      the outcomes of the PDF extractor, of the language-model call and of
      storing the charged record; `today` is the server's date. */
  function GenerateCoverLetter(f: Form, user: Option<Account>, pdf: Effect<string>, ai: Effect<string>,
                               save: Effect<()>, today: Today): (out: Outcome)
    ensures FormError(f).Some? ==> out == Outcome(Reply(400, Failure(FormError(f).value)), user)
    ensures out.reply.status == 404 <==> FormError(f).None? && user.None?
    ensures FormError(f).None? && user.Some? ==>
              (out.reply == Reply(400, Failure(LimitMessage)) <==> Exhausted(user.value))
    ensures out.reply.status in {200, 400, 404, 500}
    ensures out.stored != user ==> out.reply.status == 200
    ensures out.reply.status == 200 <==>
              FormError(f).None? && user.Some? && !Exhausted(user.value) && pdf.Done? && ai.Done?
              && (user.value.unlimitedAnalysis || save.Done?)
    ensures out.reply.status == 200 ==>
              out.stored == Some(Charge(user.value))
              && out.reply.body == Generated(GeneratedMessage, LetterFor(f, today, ai.value),
                                             RemainingOf(Charge(user.value)), user.value.unlimitedAnalysis)
  {
    match FormError(f)
    case Some(m) => Outcome(Reply(400, Failure(m)), user)
    case None =>
      match user
      case None => Outcome(Reply(404, Failure(NoUserMessage)), None)
      case Some(u) =>
        if Exhausted(u) then Outcome(Reply(400, Failure(LimitMessage)), user)
        else if pdf.Threw? then Outcome(Reply(500, Failure(pdf.message)), user)
        else if ai.Threw? then Outcome(Reply(500, Failure(ai.message)), user)
        else
          var letter := LetterFor(f, today, ai.value);
          var charged := Charge(u);
          if !u.unlimitedAnalysis && save.Threw? then Outcome(Reply(500, Failure(save.message)), user)
          else
            Outcome(Reply(200, Generated(GeneratedMessage, letter, RemainingOf(charged), u.unlimitedAnalysis)),
                    Some(charged))
  }

  /** The address field changes nothing. */
  lemma AddressIgnored(f: Form, other: string, user: Option<Account>, pdf: Effect<string>,
                       ai: Effect<string>, save: Effect<()>, today: Today)
    ensures GenerateCoverLetter(f.(address := other), user, pdf, ai, save, today)
            == GenerateCoverLetter(f, user, pdf, ai, save, today)
  {
  }

  /** A form with no contact details yields a letter headed by the
      placeholders, with the trimmed model reply as its body. */
  lemma {:induction false} PlaceholderLetter(f: Form, t: Today, reply: string)
    requires f.name == [] && f.email == [] && f.phone == [] && f.linkedin == [] && f.github == []
    ensures Split(LetterFor(f, t, reply))
            == HeadLines(NamePlaceholder, EmailPlaceholder, PhonePlaceholder, LinkedInPlaceholder,
                         GitHubPlaceholder, DateString(t))
               + Split(Trim(reply)) + TailLines(NamePlaceholder)
  {
    PlaceholdersAreLines();
    LetterLines(NamePlaceholder, EmailPlaceholder, PhonePlaceholder, LinkedInPlaceholder,
                GitHubPlaceholder, DateString(t), Trim(reply));
  }

  lemma PlaceholdersAreLines()
    ensures '\n' !in NamePlaceholder && '\n' !in EmailPlaceholder && '\n' !in PhonePlaceholder
    ensures '\n' !in LinkedInPlaceholder && '\n' !in GitHubPlaceholder
  {
  }

  /** Both gated handlers apply the same quota: given the same record, a
      complete cover-letter form is turned away exactly when a complete
      analysis request is, and with the same reply. */
  lemma SameGate(f: Form, role: string, user: Account, pdf: Effect<string>, ai: Effect<string>,
                 save: Effect<()>, today: Today)
    requires FormError(f).None? && role != []
    ensures var limited := Reply(400, Failure(LimitMessage));
            (GenerateCoverLetter(f, Some(user), pdf, ai, save, today).reply == limited
             <==> UserController.AnalyzeResume(UserController.Request(true, role), Some(user), pdf, ai, save).reply == limited)
    ensures GenerateCoverLetter(f, Some(user), pdf, ai, save, today).reply == Reply(400, Failure(LimitMessage))
            <==> Exhausted(user)
  {
  }
}
