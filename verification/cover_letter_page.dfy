/** The logic of the cover-letter page: the checks before it sends the form to
    `/api/cover-letter/generate`, the form it sends, and what it makes of the
    answer. */
module CoverLetterPage {
  import opened Outcomes
  import opened Text
  import opened Quota
  import opened Http
  import opened ClientQuota
  import opened CoverLetterController

  /** The page's inputs, "" standing for an empty field, and whether a file
      is chosen. */
  datatype Fields = Fields(hasFile: bool, jobId: string, jobTitle: string, companyName: string,
                           name: string, address: string, email: string, phone: string,
                           linkedin: string, github: string)

  const EnterJobId: string := "Please enter a job ID"
  const EnterJobTitle: string := "Please enter a job title"
  const EnterCompany: string := "Please enter a company name"
  const PickFile: string := "Please upload a PDF file"

  /** The checks of `handleGenerateCoverLetter`: job ID, job title, company
      name, then the file; the first that fails is shown. */
  function ClientError(p: Fields): (r: Option<string>)
    ensures r.None? <==> p.hasFile && p.jobId != [] && p.jobTitle != [] && p.companyName != []
    ensures p.jobId == [] ==> r == Some(EnterJobId)
    ensures r == Some(EnterJobTitle) <==> p.jobId != [] && p.jobTitle == []
    ensures r == Some(EnterCompany) <==> p.jobId != [] && p.jobTitle != [] && p.companyName == []
    ensures r == Some(PickFile) <==> p.jobId != [] && p.jobTitle != [] && p.companyName != [] && !p.hasFile
  {
    if p.jobId == [] then Some(EnterJobId)
    else if p.jobTitle == [] then Some(EnterJobTitle)
    else if p.companyName == [] then Some(EnterCompany)
    else if !p.hasFile then Some(PickFile)
    else None
  }

  /** The multipart form the page sends: the file and all nine text fields. */
  function FormOf(p: Fields): (f: Form)
    ensures f.hasFile == p.hasFile && f.address == p.address
    ensures f.jobId == p.jobId && f.jobTitle == p.jobTitle && f.companyName == p.companyName
    ensures f.name == p.name && f.email == p.email && f.phone == p.phone
    ensures f.linkedin == p.linkedin && f.github == p.github
  {
    Form(p.hasFile, p.jobId, p.jobTitle, p.companyName, p.name, p.email, p.phone,
         p.linkedin, p.github, p.address)
  }

  /** The page lets a form through exactly when the handler's field checks
      would: a sent form is never answered with a field error. */
  lemma ChecksAgree(p: Fields)
    ensures ClientError(p).None? <==> FormError(FormOf(p)).None?
  {
  }

  /** The two check orders differ: with neither a job ID nor a file, the page
      asks for the job ID while the handler would ask for the file. */
  lemma ChecksInOtherOrder(p: Fields)
    requires !p.hasFile && p.jobId == []
    ensures ClientError(p) == Some(EnterJobId)
    ensures FormError(FormOf(p)) == Some(UploadMessage)
  {
  }

  /** The address the page collects and sends has no effect on the answer. */
  lemma AddressHasNoEffect(p: Fields, other: string, user: Option<Account>, pdf: Effect<string>,
                           ai: Effect<string>, save: Effect<()>, today: Today)
    ensures GenerateCoverLetter(FormOf(p.(address := other)), user, pdf, ai, save, today)
            == GenerateCoverLetter(FormOf(p), user, pdf, ai, save, today)
  {
    assert FormOf(p.(address := other)) == FormOf(p).(address := other);
    AddressIgnored(FormOf(p), other, user, pdf, ai, save, today);
  }

  const GenerateFailed: string := "Failed to generate cover letter"

  /** `${remainingAnalyses}` in a template string. */
  function RemainingText(r: Remaining): string {
    match r
    case Unlimited => "unlimited"
    case Left(n) => IntString(n)
  }

  /** The success toast. */
  function SuccessToast(unlimited: bool, remaining: Remaining): string {
    "Cover letter generated successfully! "
    + if unlimited then "Unlimited access active."
      else "You have " + RemainingText(remaining) + " analyses remaining."
  }

  /** What the page shows after the request: the letter and a toast, or an
      error line. */
  datatype View = ShowLetter(letter: string, toast: string) | ShowError(message: string)

  /** The answer handling: a 2xx answer with `success` opens the letter; a
      2xx answer without it shows its `message` as it is, even when there is
      none; an error status (axios throws) or no answer at all shows the
      body's `message`, or the fixed text when there is none. */
  function AfterGenerate(answer: Option<Reply>): (v: View)
    ensures v.ShowLetter? <==> answer.Some? && 200 <= answer.value.status < 300 && answer.value.body.Generated?
    ensures answer.None? ==> v == ShowError(GenerateFailed)
    ensures answer.Some? && !(200 <= answer.value.status < 300) ==> v.ShowError? && v.message != []
  {
    match answer
    case None => ShowError(GenerateFailed)
    case Some(Reply(status, body)) =>
      if 200 <= status < 300 then
        if body.Generated? then ShowLetter(body.coverLetter, SuccessToast(body.unlimited, body.remaining))
        else ShowError(MessageOf(body))
      else ShowError(if MessageOf(body) != [] then MessageOf(body) else GenerateFailed)
  }

  /** Against the handler the page calls, a success opens the letter the
      handler built and every failure shows the handler's message, or the
      fixed text for an error thrown with an empty message. */
  lemma HandlerAnswers(p: Fields, user: Option<Account>, pdf: Effect<string>, ai: Effect<string>,
                       save: Effect<()>, today: Today)
    ensures var out := GenerateCoverLetter(FormOf(p), user, pdf, ai, save, today);
            var m := MessageOf(out.reply.body);
            AfterGenerate(Some(out.reply))
            == if out.reply.status == 200
               then ShowLetter(LetterFor(FormOf(p), today, ai.value),
                               SuccessToast(user.value.unlimitedAnalysis, RemainingOf(Charge(user.value))))
               else ShowError(if m != [] then m else GenerateFailed)
  {
  }

  /** After a success on a limited account the toast and the credits figure
      for the stored record name the same number of uses left: one fewer
      than before the request. */
  lemma {:induction false} ToastMatchesCredits(p: Fields, u: Account, pdf: Effect<string>, ai: Effect<string>,
                                               save: Effect<()>, today: Today)
    requires !u.unlimitedAnalysis
    requires GenerateCoverLetter(FormOf(p), Some(u), pdf, ai, save, today).reply.status == 200
    ensures var out := GenerateCoverLetter(FormOf(p), Some(u), pdf, ai, save, today);
            var left := Left(FreeUses - u.analysisCount - 1);
            out.stored == Some(Charge(u))
            && AfterGenerate(Some(out.reply)).toast == SuccessToast(false, left)
            && CreditsText(out.stored) == RemainingText(left) + "/3"
  {
    var out := GenerateCoverLetter(FormOf(p), Some(u), pdf, ai, save, today);
    var left := Left(FreeUses - u.analysisCount - 1);
    assert out.stored == Some(Charge(u)) && out.reply.body.Generated?
           && out.reply.body.remaining == left && !out.reply.body.unlimited;
    assert AfterGenerate(Some(out.reply)).toast == SuccessToast(false, left);
    assert CreditsText(out.stored) == RemainingText(left) + "/3" by {
      assert !UnlimitedOf(out.stored) && CountOf(out.stored) == u.analysisCount + 1;
    }
  }
}
