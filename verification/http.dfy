/** The replies the handlers send: `res.status(code).json(body)`, with the
    body shapes that occur, and what a handler leaves in the user store. */
module Http {
  import opened Outcomes
  import opened Quota
  import opened AnalysisParser

  datatype Body =
    /** `{ success: false, message }` */
    | Failure(message: string)
    /** `{ success: true, message, analysis, remainingAnalyses, unlimitedAnalysis }` */
    | Analysed(message: string, analysis: Analysis, remaining: Remaining, unlimited: bool)
    /** `{ success: true, message, coverLetter, remainingAnalyses, unlimitedAnalysis }` */
    | Generated(message: string, coverLetter: string, remaining: Remaining, unlimited: bool)
    /** `{ error }` */
    | ErrorOnly(error: string)
    /** `{ analysis }` */
    | AnalysisOnly(analysis: Analysis)
    /** a bare JSON array of strings */
    | Strings(items: seq<string>)

  /** A status code and a body; `res.json(...)` without a status is 200. */
  datatype Reply = Reply(status: int, body: Body)

  /** The reply of a gated handler and the user record it leaves stored
      (`None` when there is no such user). */
  datatype Outcome = Outcome(reply: Reply, stored: Option<Account>)

  /** What `response.data.message` holds, when the body has one. */
  function MessageOf(b: Body): (r: string)
    ensures b.ErrorOnly? || b.AnalysisOnly? || b.Strings? ==> r == []
  {
    match b
    case Failure(m) => m
    case Analysed(m, _, _, _) => m
    case Generated(m, _, _, _) => m
    case _ => []
  }

  /** `res.data.success`: present and true only on the gated handlers'
      success bodies. */
  predicate SucceededBody(b: Body) {
    b.Analysed? || b.Generated?
  }

  /** Whether `res.data.analysis` is present (an analysis object is truthy). */
  predicate CarriesAnalysis(b: Body) {
    b.Analysed? || b.AnalysisOnly?
  }
}
