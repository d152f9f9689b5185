/** The stand-alone analyzer (`GET /api/roles`, `POST /api/analyze`), the
    route the analysis page calls. It keeps no user state: no lookup, no
    quota, no charge. */
module ResumeAnalyzerController {
  import opened Outcomes
  import opened Quota
  import opened Http
  import opened AnalysisParser
  import UserController

  /** The fixed role list. */
  const AvailableRoles: seq<string> := [
    "Software Engineer",
    "Data Scientist",
    "Product Manager",
    "UX Designer",
    "Marketing Manager",
    "Business Analyst"
  ]

  /** No two entries of `xs` are equal. */
  predicate NoDuplicates(xs: seq<string>) {
    forall i, j :: 0 <= i < j < |xs| ==> xs[i] != xs[j]
  }

  /** `GET /api/roles`: the role list, as a bare array. */
  function GetRoles(): (r: Reply)
    ensures r.status == 200 && r.body.Strings?
    ensures |r.body.items| == 6 && NoDuplicates(r.body.items)
    ensures r.body.items == ["Software Engineer", "Data Scientist", "Product Manager", "UX Designer",
                             "Marketing Manager", "Business Analyst"]
  {
    Reply(200, Strings(AvailableRoles))
  }

  const NoFileError: string := "No file uploaded"
  const NoRoleError: string := "Role is required"
  const FailedError: string := "Error analyzing resume"

  /** `POST /api/analyze`. `pdf` and `ai` are the outcomes of the PDF
      extractor and of the language-model call; whatever they throw, the
      client sees the same fixed error. */
  function AnalyzeResume(req: UserController.Request, pdf: Effect<string>, ai: Effect<string>): (r: Reply)
    ensures !req.hasFile ==> r == Reply(400, ErrorOnly(NoFileError))
    ensures req.hasFile && req.role == [] ==> r == Reply(400, ErrorOnly(NoRoleError))
    ensures r.status == 200 <==> UserController.Complete(req) && pdf.Done? && ai.Done?
    ensures r.status == 200 ==> r.body == AnalysisOnly(Parse(ai.value, AnalyzerBullets))
    ensures r.status != 200 ==> r.body.ErrorOnly? && r.status in {400, 500}
    ensures UserController.Complete(req) && r.status != 200 ==> r == Reply(500, ErrorOnly(FailedError))
  {
    if !req.hasFile then Reply(400, ErrorOnly(NoFileError))
    else if req.role == [] then Reply(400, ErrorOnly(NoRoleError))
    else if pdf.Threw? || ai.Threw? then Reply(500, ErrorOnly(FailedError))
    else Reply(200, AnalysisOnly(Parse(ai.value, AnalyzerBullets)))
  }

  /** No reply of this handler carries a `message` field. */
  lemma NoReplyHasMessage(req: UserController.Request, pdf: Effect<string>, ai: Effect<string>)
    ensures MessageOf(AnalyzeResume(req, pdf, ai).body) == []
    ensures !SucceededBody(AnalyzeResume(req, pdf, ai).body)
  {
  }

  /** Whenever the gated handler succeeds, the analyzer succeeds on the same
      request and model reply; both report the same analysis unless the reply
      holds one of the characters their bullet classes disagree on. */
  lemma HandlersAgree(req: UserController.Request, user: Account, pdf: Effect<string>,
                      ai: Effect<string>, save: Effect<()>)
    requires UserController.Succeeds(req, Some(user), pdf, ai, save)
    requires forall k :: 0 <= k < |ai.value| ==>
               ai.value[k] != '•' && ai.value[k] != 'â' && ai.value[k] != '€' && ai.value[k] != '¢'
    ensures AnalyzeResume(req, pdf, ai).status == 200
    ensures AnalyzeResume(req, pdf, ai).body.analysis
            == UserController.AnalyzeResume(req, Some(user), pdf, ai, save).reply.body.analysis
  {
    ParsersAgree(ai.value);
  }

  /** The two handlers reject an incomplete request in the same order (file,
      then role) but with different bodies: `{error}` here, `{success,
      message}` there. */
  lemma SameValidationOrder(req: UserController.Request, user: Option<Account>, pdf: Effect<string>,
                            ai: Effect<string>, save: Effect<()>)
    requires !UserController.Complete(req)
    ensures AnalyzeResume(req, pdf, ai).status == 400
    ensures UserController.AnalyzeResume(req, user, pdf, ai, save).reply.status == 400
    ensures AnalyzeResume(req, pdf, ai).body.error == NoFileError
            <==> UserController.AnalyzeResume(req, user, pdf, ai, save).reply.body.message
                 == UserController.UploadMessage
  {
  }
}
