/** The gated resume-analysis handler (`POST /api/users/analyze-resume`):
    validate the request, find the user, apply the quota, have the language
    model analyse the resume, parse its reply, charge the use and answer. */
module UserController {
  import opened Outcomes
  import opened Quota
  import opened Http
  import opened AnalysisParser

  /** What the handler reads from the request: whether a file came with it,
      and the `role` field, with "" standing for every falsy value (absent,
      null, empty). */
  datatype Request = Request(hasFile: bool, role: string)

  const UploadMessage: string := "Please upload a resume"
  const RoleMessage: string := "Please select a role"
  const NoUserMessage: string := "User not found"
  const AnalysedMessage: string := "Resume analyzed successfully"

  /** The request passes the two field checks. */
  predicate Complete(req: Request) {
    req.hasFile && req.role != []
  }

  /** The conditions of a success: a complete request from a known user the
      quota admits, and no foreign call throwing (the save only runs for a
      limited account). */
  predicate Succeeds(req: Request, user: Option<Account>, pdf: Effect<string>,
                     ai: Effect<string>, save: Effect<()>) {
    Complete(req) && user.Some? && !Exhausted(user.value) && pdf.Done? && ai.Done?
    && (user.value.unlimitedAnalysis || save.Done?)
  }

  /** The handler. `user` is what the lookup finds; `pdf`, `ai` and `save` are
      the outcomes of the PDF extractor, of the language-model call (the text
      of its reply) and of storing the charged record. Every thrown error
      becomes a 500 carrying its message. */
  function AnalyzeResume(req: Request, user: Option<Account>, pdf: Effect<string>,
                         ai: Effect<string>, save: Effect<()>): (out: Outcome)
    ensures !req.hasFile ==> out == Outcome(Reply(400, Failure(UploadMessage)), user)
    ensures req.hasFile && req.role == [] ==> out == Outcome(Reply(400, Failure(RoleMessage)), user)
    ensures out.reply.status == 404 <==> Complete(req) && user.None?
    ensures Complete(req) && user.Some? ==>
              (out.reply == Reply(400, Failure(LimitMessage)) <==> Exhausted(user.value))
    ensures out.reply.status in {200, 400, 404, 500}
    ensures out.stored != user ==> out.reply.status == 200
    ensures out.reply.status == 200 <==> Succeeds(req, user, pdf, ai, save)
    ensures out.reply.status == 200 ==>
              out.stored == Some(Charge(user.value))
              && out.reply.body == Analysed(AnalysedMessage, Parse(ai.value, UserControllerBullets),
                                            RemainingOf(Charge(user.value)), user.value.unlimitedAnalysis)
  {
    if !req.hasFile then Outcome(Reply(400, Failure(UploadMessage)), user)
    else if req.role == [] then Outcome(Reply(400, Failure(RoleMessage)), user)
    else
      match user
      case None => Outcome(Reply(404, Failure(NoUserMessage)), None)
      case Some(u) =>
        if Exhausted(u) then Outcome(Reply(400, Failure(LimitMessage)), user)
        else if pdf.Threw? then Outcome(Reply(500, Failure(pdf.message)), user)
        else if ai.Threw? then Outcome(Reply(500, Failure(ai.message)), user)
        else
          var analysis := Parse(ai.value, UserControllerBullets);
          var charged := Charge(u);
          if !u.unlimitedAnalysis && save.Threw? then Outcome(Reply(500, Failure(save.message)), user)
          else
            Outcome(Reply(200, Analysed(AnalysedMessage, analysis, RemainingOf(charged), u.unlimitedAnalysis)),
                    Some(charged))
  }

  /** The count a success reports left is the count the store now holds taken
      from three: one less than the account had left before the request. */
  lemma ReportedRemainingIsStored(req: Request, user: Option<Account>, pdf: Effect<string>,
                                  ai: Effect<string>, save: Effect<()>)
    requires Succeeds(req, user, pdf, ai, save)
    ensures var out := AnalyzeResume(req, user, pdf, ai, save);
            out.stored.Some? && out.reply.body.Analysed?
            && (out.reply.body.remaining.Left? <==> !out.stored.value.unlimitedAnalysis)
            && (out.reply.body.remaining.Left? ==>
                  out.reply.body.remaining.n == FreeUses - out.stored.value.analysisCount
                  && out.reply.body.remaining.n == FreeUses - user.value.analysisCount - 1)
  {
  }

  /** Every request that does not succeed leaves the user record as it was. */
  lemma FailureKeepsRecord(req: Request, user: Option<Account>, pdf: Effect<string>,
                           ai: Effect<string>, save: Effect<()>)
    requires AnalyzeResume(req, user, pdf, ai, save).reply.status != 200
    ensures AnalyzeResume(req, user, pdf, ai, save).stored == user
  {
  }

  /** A new limited account, used with a complete request that never fails:
      three analyses report 2, 1 and 0 left, and the fourth is turned away
      without touching the record. */
  lemma {:induction false} ThreeAnalysesThenLimit(role: string, resume: string, reply: string)
    requires role != []
    ensures var req := Request(true, role);
            var a := Parse(reply, UserControllerBullets);
            var o1 := AnalyzeResume(req, Some(Account(0, false)), Done(resume), Done(reply), Done(()));
            var o2 := AnalyzeResume(req, o1.stored, Done(resume), Done(reply), Done(()));
            var o3 := AnalyzeResume(req, o2.stored, Done(resume), Done(reply), Done(()));
            var o4 := AnalyzeResume(req, o3.stored, Done(resume), Done(reply), Done(()));
            o1.reply == Reply(200, Analysed(AnalysedMessage, a, Left(2), false))
            && o2.reply == Reply(200, Analysed(AnalysedMessage, a, Left(1), false))
            && o3.reply == Reply(200, Analysed(AnalysedMessage, a, Left(0), false))
            && o4 == Outcome(Reply(400, Failure(LimitMessage)), Some(Account(3, false)))
  {
    var req := Request(true, role);
    var o1 := AnalyzeResume(req, Some(Account(0, false)), Done(resume), Done(reply), Done(()));
    assert o1.stored == Some(Account(1, false));
    var o2 := AnalyzeResume(req, o1.stored, Done(resume), Done(reply), Done(()));
    assert o2.stored == Some(Account(2, false));
    var o3 := AnalyzeResume(req, o2.stored, Done(resume), Done(reply), Done(()));
    assert o3.stored == Some(Account(3, false));
  }
}
