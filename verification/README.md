# Resume analysis and cover letters of the job portal, in Dafny

This project models the two AI-backed features of the job portal: the resume
analysis and the cover-letter generator. It covers the three server handlers
and the two client pages that call them, as pure functions over immutable
records and `seq<char>` strings.

- **Quota** (`quota.dfy`). The free-use quota both gated handlers keep on the
  user record (`analysisCount`, `unlimitedAnalysis`):
  - the gate `!unlimitedAnalysis && analysisCount >= 3`;
  - the charge after a success;
  - the `remainingAnalyses` figure.
- **Analysis parser** (`cleaning.dfy`, `score.dfy`, `sections.dfy`,
  `analysis_parser.dfy`). It runs in three stages over the language model's reply:
  - Normalisation:
    - remove asterisks;
    - remove line-leading bullets with `/^\s*[B]\s*/gm`;
    - collapse blank-line runs with `/\n\s*\n/g`;
    - `trim`.
  - The score: the first of four regular expressions that matches, tried in a
    fixed order, or "Not specified".
  - Three lists. Each is cut out by a lazy case-insensitive capture, then
    split into lines, trimmed and filtered.

  The regular expressions are written out by hand as scanners. The comments
  next to each scanner explain why greedy `\s*` never needs to backtrack in
  these patterns. The two copies of the parser differ only in their bullet
  class, so the parser takes the bullet set as a parameter.
- **Handlers** (`user_controller.dfy`, `resume_analyzer_controller.dfy`,
  `cover_letter_controller.dfy`). Each handler is a function from a request
  and the outcomes of the foreign calls to a reply and the stored user record:
  - `POST /api/users/analyze-resume`: validation, lookup, gate, parse, charge;
  - `GET /api/roles` and `POST /api/analyze`: no user state at all;
  - `POST /api/cover-letter/generate`: validation, gate, contact placeholders,
    the `DD/MM/YYYY` date, the letter template, charge.
- **Client pages** (`resume_analyzer_page.dfy`, `cover_letter_page.dfy`,
  `client_quota.dfy`):
  - the role-list merge `[...new Set([...defaults, ...apiRoles])]`;
  - the checks each page runs before it sends a request;
  - the form the page sends;
  - how the page reads the answer;
  - the disabled-button predicate;
  - the credits display.
- **Prompted reply format** (`response_format.dfy`). This is the reply format
  the analysis prompt asks for. A reply written in that format parses back to
  the analysis it was written from, with either handler's bullet class.

Normalisation is not idempotent:
- one pass turns the one-line reply `- - x` into `- x`, and a second pass turns
  that into `x`;
- cleaning a prompted reply whose items themselves start with "- " and parsing
  the result again changes every item.

The model follows the code. `Cleaning.NormaliseNotIdempotent` and
`ResponseFormat.ParseOfCleanedDiffers` state these two facts.

The analyzer's bullet class `[-â€¢]` is the bullet character's UTF-8 bytes read
as Windows-1252, and it is modelled as written:
- it removes leading `-`, `â`, `€` and `¢`, but not `•`;
- `AnalysisParser.ParsersAgree` shows that it agrees with the other handler's
  `[-•]` on every reply holding none of those four characters.

The stand-alone analyzer answers errors with `{error}`, and the analysis page
reads only `message`. So every failure of that route shows the page's fixed
text (`ResumeAnalyzerPage.AnalyzerAnswers`).

## Model

| member | source | states |
|---|---|---|
| Quota.RemainingAfterAdmission | server/controllers/userController.js:219-231 | an admitted limited account with a non-negative count has between 0 and 2 uses left once charged |
| Quota.Exhausted | server/controllers/userController.js:135 | the gate holds exactly when the account is limited and the remaining count it would report is at most 0 |
| Quota.Charge | server/controllers/userController.js:219-223 | a success adds one use to a limited account, so its remaining count drops by one, and leaves an unlimited account as it is |
| Quota.RemainingOf | server/controllers/userController.js:229 | the remaining figure is 'unlimited' exactly for unlimited accounts, and otherwise the count and the figure add up to 3 |
| Quota.ThirdUseExhausts | server/controllers/userController.js:134-141 | the third use of a limited account leaves 0 and the record is then turned away by the gate |
| Quota.UnlimitedIsFree | server/controllers/userController.js:219-230 | an unlimited account is never turned away, never charged and reports 'unlimited' |
| Quota.ServeCount | server/controllers/userController.js:134-141 | over any number of requests, a limited account that used c uses serves min(n, 3 - c) of them and its count rises by exactly that many; an unlimited account serves all and keeps its count; an over-used account serves none |
| Quota.ServeAll | server/controllers/userController.js:219-223 | the request-by-request loop against the stored record serves exactly what the recursive definition serves, at most 3 - c requests for a limited account |
| UserController.AnalyzeResume | server/controllers/userController.js:117-235 | a missing file gives 400 "Please upload a resume" before the role check; a missing role gives 400 "Please select a role"; 404 exactly for a complete request with no user; 400 with the limit message exactly when the gate holds; 200 exactly when the gate passes and the PDF, model and save calls do not throw; only a 200 changes the stored record, which becomes the charged one; the 200 body carries the parsed analysis and the remaining count of the charged record |
| UserController.ReportedRemainingIsStored | server/controllers/userController.js:219-231 | after a success the reported remaining count is 3 minus the stored count, one less than before the request; it is 'unlimited' exactly for unlimited accounts |
| UserController.FailureKeepsRecord | server/controllers/userController.js:233-235 | every non-200 reply, including a thrown error, leaves the user record as it was |
| UserController.ThreeAnalysesThenLimit | server/controllers/userController.js:134-141 | a new limited account reports 2, 1 and 0 uses left over three analyses, and the fourth is turned away with the record at 3 |
| ResumeAnalyzerController.GetRoles | server/controllers/resumeAnalyzerController.js:5-17 | the roles reply is 200 with the bare array "Software Engineer", "Data Scientist", "Product Manager", "UX Designer", "Marketing Manager", "Business Analyst", in that order |
| ResumeAnalyzerController.AnalyzeResume | server/controllers/resumeAnalyzerController.js:23-105 | a missing file gives 400 "No file uploaded" before the role check; a missing role gives 400 "Role is required"; 200 exactly for a complete request whose PDF and model calls succeed, with body `{analysis}` parsed under the `[-â€¢]` class; every thrown error gives 500 "Error analyzing resume"; no user state is read or written |
| ResumeAnalyzerController.NoReplyHasMessage | server/controllers/resumeAnalyzerController.js:100-105 | no reply of the analyzer carries a `message` or a `success` field |
| ResumeAnalyzerController.HandlersAgree | server/controllers/resumeAnalyzerController.js:60-97 | whenever the gated handler succeeds, the analyzer succeeds on the same request and reply; they report the same analysis when the reply holds none of the characters their bullet classes disagree on |
| ResumeAnalyzerController.SameValidationOrder | server/controllers/resumeAnalyzerController.js:23-28 | both resume handlers reject an incomplete request with 400, and the missing-file message comes first in both |
| AnalysisParser.Parse | server/controllers/userController.js:176-217 | the score is what the four score patterns give on the cleaned text, taken in their order of priority, and is "Not specified" or a numeral found in that text; each list is the trimmed lines of its section's capture in the cleaned text, in order, with exactly the empty lines and those holding the next header removed, and is empty when its header is missing; every list item is non-empty, trimmed, one line, free of asterisks and a piece of the cleaned text |
| AnalysisParser.ParsersAgree | server/controllers/resumeAnalyzerController.js:62 | the parsers with bullet classes `[-•]` and `[-â€¢]` agree on every reply holding none of '•', 'â', '€', '¢' |
| Cleaning.RemoveAsterisks | server/controllers/userController.js:177 | the result holds no asterisk and is the input with characters deleted, the rest kept in order, and shorter by exactly its number of asterisks: the input with exactly its asterisks removed |
| Cleaning.RemoveAsterisksUnique | server/controllers/userController.js:177 | any asterisk-free text that is the input with characters deleted and is shorter by exactly the number of asterisks is the result: the contract of the asterisk removal determines it |
| Cleaning.RemoveAsterisksIdentity | server/controllers/userController.js:177 | a text without asterisks is left unchanged |
| Cleaning.StripBullets | server/controllers/userController.js:178 | the bullet pass only deletes characters: the rest of the input is kept in order and as often as it occurs |
| Cleaning.StripBulletsDeletes | server/controllers/userController.js:178 | the bullet pass deletes only whitespace and bullets, so every other character is kept as often as it occurs; a text in which no line starts with whitespace followed by a bullet comes back unchanged |
| Cleaning.StripDeletesOnlyBullets | server/controllers/userController.js:178 | from every position and line-start state, every character the bullet pass deletes is whitespace or a bullet |
| Cleaning.StripNoBulletLine | server/controllers/userController.js:178 | where `^\s*[B]` matches nowhere, the bullet pass returns its input unchanged |
| Cleaning.StripDeletes | server/controllers/userController.js:178 | from every position and line-start state, the bullet pass yields its input with characters deleted, the rest in order |
| Cleaning.StripOneBullet | server/controllers/userController.js:178 | a line "- x" loses exactly its dash and space |
| Cleaning.StripLine | server/controllers/userController.js:178 | a bullet line followed by more text is cleaned on its own and the pass restarts at the next line |
| Cleaning.StripCopiesLine | server/controllers/userController.js:178 | inside a line the bullet pass copies the text |
| Cleaning.StripBulletsAgree | server/controllers/userController.js:178 | two bullet classes give the same result on any text whose characters they classify alike |
| Cleaning.NormaliseAgrees | server/controllers/resumeAnalyzerController.js:60-64 | the whole cleaning chain depends on the bullet class only through the characters of the text |
| Cleaning.CollapseKeepsChars | server/controllers/userController.js:179 | the blank-line pass only deletes characters: the rest of the input is kept in order and as often as it occurs |
| Cleaning.CollapseDeletesOnlySpace | server/controllers/userController.js:179 | every character the blank-line pass deletes is whitespace |
| Cleaning.CollapseLeavesNoBlankLine | server/controllers/userController.js:179 | after the blank-line pass no two line feeds are separated by whitespace alone |
| Cleaning.CollapseLine | server/controllers/userController.js:179 | a line feed followed by a visible character is kept and the pass continues after it |
| Cleaning.CollapseJoin | server/controllers/userController.js:179 | joined content lines come out of the blank-line pass unchanged |
| Cleaning.TrimKeepsNoBlankLine | server/controllers/userController.js:180 | trimming a text without blank lines leaves none |
| Cleaning.NormaliseShape | server/controllers/userController.js:176-180 | the cleaned text holds no asterisk, no blank line and no leading or trailing whitespace |
| Cleaning.Normalise | server/controllers/userController.js:176-180 | the cleaned text is the reply with characters deleted, the rest in order; it holds no asterisk and starts and ends with a non-space |
| Cleaning.NormaliseBulletLine | server/controllers/userController.js:176-180 | a one-line reply "- x" is cleaned to x |
| Cleaning.NormaliseNotIdempotent | server/controllers/userController.js:176-180 | cleaning "- - x" gives "- x", and cleaning that again gives x: cleaning is not idempotent |
| Text.Trim | server/controllers/userController.js:205 | the trimmed text starts and ends with a non-space and is the middle piece of the input |
| Text.TrimDropsSpace | server/controllers/userController.js:180 | what trimming removes at both ends is whitespace |
| Text.TrimOfTrimmed | server/controllers/userController.js:205 | a trimmed text is left unchanged |
| Text.Split | server/controllers/userController.js:204 | the pieces hold no line feed and join back to the text |
| Text.SplitJoin | server/controllers/userController.js:204 | splitting lines joined by line feeds gives the lines back |
| Text.FindCiLeftmost | server/controllers/userController.js:203 | the case-insensitive search finds the leftmost occurrence at or after its start |
| Text.IntString | server/controllers/coverLetter.js:67 | the rendered integer reads back as its value: digits for a non-negative one, a minus sign and digits otherwise, with no leading zero except for 0 itself |
| Text.NatStringRoundTrip | server/controllers/coverLetter.js:67 | the decimal numeral of n reads back as n |
| Text.PadStart2 | server/controllers/coverLetter.js:67 | the result has at least two characters, ends with the input, and is padded in front with '0' only |
| Score.NumberEnd | server/controllers/userController.js:184 | the greedy `\d+(?:\.\d+)?` scan from a digit ends after a numeral |
| Score.NumberEndOfNumeral | server/controllers/userController.js:184 | the scan stops exactly at the end of a numeral that is followed by neither a digit nor a point |
| Score.Leftmost | server/controllers/userController.js:192 | `match` finds the leftmost index where a pattern matches, and none before it |
| Score.LeftmostCapture | server/controllers/userController.js:192 | `match` gives nothing exactly when the pattern matches nowhere, and otherwise the capture at a match with no match before it |
| Score.ScoreBy | server/controllers/userController.js:190-197 | the loop over the patterns gives "Not specified" exactly when no pattern matches anywhere, and otherwise a numeral found in the text |
| Score.ScoreByFirstMatch | server/controllers/userController.js:190-197 | when a pattern is the first in the list to match anywhere, the loop reports its leftmost capture, whatever the later patterns would find |
| Score.RulesInOrder | server/controllers/userController.js:183-197 | over the four patterns, the first that matches anywhere decides the score by its leftmost capture |
| Score.ExtractScore | server/controllers/userController.js:183-197 | the score is "Not specified" exactly when none of the four patterns matches; otherwise it is the leftmost capture of the first pattern that matches anywhere, in the order "Overall Score", "Score:", "/10", "out of 10", and a numeral occurring in the text |
| Score.OverallScoreWins | server/controllers/userController.js:191-196 | when the "Overall Score" pattern matches, its leftmost capture is the score, whatever the other patterns would find |
| Score.NoDigitNoScore | server/controllers/userController.js:183-197 | a text with no digit scores "Not specified" |
| Score.PromptedScore | server/controllers/userController.js:165 | a reply starting "Overall Score: X", with X followed by neither a digit nor a point, scores X |
| Score.OutOfTenPromptScore | server/controllers/resumeAnalyzerController.js:43 | a reply starting "Overall Score: X/10" scores X, through the first pattern |
| Sections.CaptureSpec | server/controllers/userController.js:203 | the capture is absent exactly when the header occurs nowhere, case-insensitively; otherwise it starts where `header:?\s*` ends at the header's leftmost occurrence (past one optional colon and the whole whitespace run) and ends where the lazy group ends; it is a piece of the text, a suffix of it for the last section, and the stop header does not occur in it |
| Sections.BodyStartUnique | server/controllers/userController.js:203 | the end of `header:?\s*` is unique, because the whitespace run is taken whole |
| Sections.CaptureEndIsFirstStop | server/controllers/userController.js:203 | the lazy group ends at the first occurrence of the stop header at or after its start: the stop header occurs where the group ends, unless that is the end of the text, and nowhere inside the group |
| Sections.TrimAll | server/controllers/userController.js:205 | each line is trimmed, and the count is kept |
| Sections.KeepLines | server/controllers/userController.js:206 | the filter keeps exactly the non-empty lines that do not contain the echoed header, case-sensitively, and never lengthens the list |
| Sections.KeepLinesFilters | server/controllers/userController.js:206 | the filter result is the lines in their order with exactly the rejected ones removed: a subsequence holding only kept lines, each kept line as often as in the input |
| Sections.FilteredLinesUnique | server/controllers/userController.js:206 | two lists that both are subsequences of the lines, hold only kept lines and hold each kept line as often as the lines do are equal: these properties determine the filter result |
| Sections.Items | server/controllers/userController.js:202-206 | a missing capture gives []; otherwise the items are the trimmed lines of the capture, in order, with exactly the empty lines and those containing the echoed header removed; every item is non-empty, trimmed, one line and a piece of the capture |
| Sections.Strengths | server/controllers/userController.js:202-206 | the strengths are the trimmed lines of the "Key Strengths" capture, in order, with exactly the empty ones and those mentioning "Areas for Improvement" removed; the list is empty without a "Key Strengths" header; every strength is a non-empty trimmed line of the text |
| Sections.Improvements | server/controllers/userController.js:207-211 | the improvements are the trimmed lines of the "Areas for Improvement" capture, in order, with exactly the empty ones and those mentioning "Specific Recommendations" removed; the list is empty without an "Areas for Improvement" header; every improvement is a non-empty trimmed line of the text |
| Sections.Recommendations | server/controllers/userController.js:212-216 | the recommendations are the trimmed lines of the "Specific Recommendations" capture up to the end of the text, in order, with exactly the empty ones removed; the list is empty without a "Specific Recommendations" header; every recommendation is a non-empty trimmed line of the text |
| Sections.ItemsOfLines | server/controllers/userController.js:204-206 | item lines joined by line feeds come back from split, trim and filter unchanged |
| Sections.MiddleSectionBody | server/controllers/userController.js:203 | a section followed by the next header captures exactly its item lines |
| Sections.LastSectionBody | server/controllers/userController.js:213 | the last section captures its item lines up to the end of the text |
| Sections.CaptureIgnoresHeaderCase | server/controllers/resumeAnalyzerController.js:83 | a header spelt in any mix of cases captures the same body |
| Sections.LowerCaseStrengthsHeader | server/controllers/resumeAnalyzerController.js:83 | "key strengths" opens the strengths section |
| ResponseFormat.NormaliseRender | server/controllers/userController.js:176-180 | cleaning a reply in the prompted format leaves exactly the analysis's lines without their dashes |
| ResponseFormat.ScoreOfLines | server/controllers/userController.js:183-197 | the score of a well-formed analysis's lines is its score |
| ResponseFormat.StrengthsOfLines | server/controllers/userController.js:202-206 | the strengths of a well-formed analysis's lines are its strengths |
| ResponseFormat.ImprovementsOfLines | server/controllers/userController.js:207-211 | the improvements of a well-formed analysis's lines are its improvements |
| ResponseFormat.RecommendationsOfLines | server/controllers/userController.js:212-216 | the recommendations of a well-formed analysis's lines are its recommendations |
| ResponseFormat.ParseRender | server/controllers/userController.js:176-217 | a reply in the prompted format parses back to the analysis it was written from |
| ResponseFormat.ParseOfCleanedDiffers | server/controllers/userController.js:176-217 | parsing the cleaned text of a prompted reply whose items start with "- " gives a different analysis from parsing the reply itself |
| ResponseFormat.HandlerBulletsAreDashBullets | server/controllers/resumeAnalyzerController.js:62 | both handlers' bullet classes remove the dash and leave the first letters of the score and header lines alone |
| ResponseFormat.ExampleRoundTrip | server/controllers/userController.js:200-217 | the reply "Overall Score: 8", "Key Strengths:", "- Good communication", "Areas for Improvement:", "- Needs more detail", "Specific Recommendations:", "- Quantify achievements" parses to score "8" with one item in each list, under either bullet class |
| CoverLetterController.FormError | server/controllers/coverLetter.js:16-34 | the first failing check decides the message, in the order file, job ID, job title, company name; no message exactly when all four are present |
| CoverLetterController.OrPlaceholder | server/controllers/coverLetter.js:60-64 | a field is kept when present and replaced by its placeholder when empty, so it is never empty |
| CoverLetterController.Pad2 | server/controllers/coverLetter.js:67 | a day or month below 100 becomes exactly two digits |
| CoverLetterController.DateString | server/controllers/coverLetter.js:66-67 | the date is one line; for a calendar day it has the slashes at positions 2 and 5 |
| CoverLetterController.DateRoundTrip | server/controllers/coverLetter.js:66-67 | the date line of every calendar day with a non-negative year reads back as that day, its one-based month and its year |
| CoverLetterController.Letter | server/controllers/coverLetter.js:80 | the letter starts with the name line and the "email \| phone" line, and ends with a blank line, "Sincerely," and the name |
| CoverLetterController.LetterLines | server/controllers/coverLetter.js:80 | read line by line, the letter is: name; "email \| phone"; LinkedIn; GitHub; date; a blank line; the salutation; a blank line; the body's lines; a blank line; "Sincerely,"; the name |
| CoverLetterController.GenerateCoverLetter | server/controllers/coverLetter.js:16-100 | a failed field check gives 400 with its message and leaves the record; 404 exactly for a valid form with no user; 400 with the limit message exactly when the gate holds; 200 exactly when the gate passes and the PDF, model and save calls do not throw; only a 200 changes the stored record, which becomes the charged one; the 200 body carries the letter built from the trimmed reply and the remaining count of the charged record |
| CoverLetterController.AddressIgnored | server/controllers/coverLetter.js:59-64 | the address field changes nothing in the answer or the record |
| CoverLetterController.PlaceholderLetter | server/controllers/coverLetter.js:60-80 | a form without contact details yields a letter headed by the five placeholders |
| CoverLetterController.SameGate | server/controllers/coverLetter.js:43-50 | the cover-letter gate turns a record away exactly when the analysis gate does, with the same reply |
| ClientQuota.Disabled | client/src/pages/ResumeAnalyzer.jsx:278-282 | the button is disabled exactly while a request is in flight or when the server gate would turn the loaded user away; a record not yet loaded never disables it |
| ClientQuota.CreditsText | client/src/pages/ResumeAnalyzer.jsx:203-205 | the figure is "Unlimited" for unlimited accounts and otherwise the remaining count the server reports, over 3; before the record is loaded it shows 3 over 3 |
| ClientQuota.CreditsSentence | client/src/pages/ResumeAnalyzer.jsx:210-214 | the sentence names unlimited analyses for unlimited accounts and otherwise the same remaining count as the figure; 3 before the record is loaded |
| ClientQuota.CreditsReadBack | client/src/pages/CoverLetter.jsx:224-226 | for a limited count between 0 and 3 the figure is one digit followed by "/3", and the digit reads back as the uses left |
| ResumeAnalyzerPage.Distinct | client/src/pages/ResumeAnalyzer.jsx:62 | the set spread holds no duplicates and exactly the entries of its input |
| ResumeAnalyzerPage.DistinctKeepsFirstOrder | client/src/pages/ResumeAnalyzer.jsx:62 | the entries of the set spread come in the order of their first occurrence in the input |
| ResumeAnalyzerPage.MergeRoles | client/src/pages/ResumeAnalyzer.jsx:62 | inserting the entries one at a time and skipping those already seen gives the distinct list |
| ResumeAnalyzerPage.MergeKeepsDefaults | client/src/pages/ResumeAnalyzer.jsx:54-62 | the merged list is the defaults in their order, followed by exactly the API roles the defaults lack |
| ResumeAnalyzerPage.MergeAbsorbs | client/src/pages/ResumeAnalyzer.jsx:62 | merging roles the defaults already hold changes nothing |
| ResumeAnalyzerPage.NotAnArrayGivesDefaults | client/src/pages/ResumeAnalyzer.jsx:53 | a role reply that is not an array leaves exactly the defaults |
| ResumeAnalyzerPage.ServerRolesAddNothing | client/src/pages/ResumeAnalyzer.jsx:49-64 | the roles the server sends add nothing to the defaults |
| ResumeAnalyzerPage.OnRolesFetched | client/src/pages/ResumeAnalyzer.jsx:49-68 | the role list starts with the defaults, holds no duplicates, and holds exactly the defaults and the API roles; the error line is set exactly when the request failed |
| ResumeAnalyzerPage.HandleAnalyze | client/src/pages/ResumeAnalyzer.jsx:95-110 | the role is checked before the file; a request with the chosen role and the file is sent exactly when both are present |
| ResumeAnalyzerPage.SentRequestsPassValidation | client/src/pages/ResumeAnalyzer.jsx:95-110 | a request the page sends never fails the analyzer's field checks |
| ResumeAnalyzerPage.AfterAnalyze | client/src/pages/ResumeAnalyzer.jsx:124-134 | the analysis opens exactly for a 2xx answer that carries one; every other outcome shows a non-empty error, the fixed text when no answer arrived |
| ResumeAnalyzerPage.AnalyzerAnswers | client/src/pages/ResumeAnalyzer.jsx:124-134 | against the analyzer, a success opens the parsed analysis and every failure shows "Failed to analyze resume" |
| ResumeAnalyzerPage.ButtonGateIsClientOnly | client/src/pages/ResumeAnalyzer.jsx:278-282 | for an exhausted account the button is disabled, although the analyzer it calls would serve the request |
| CoverLetterPage.ClientError | client/src/pages/CoverLetter.jsx:77-93 | the checks run in the order job ID, job title, company name, file, and the first failure decides the message; no message exactly when all four are present |
| CoverLetterPage.FormOf | client/src/pages/CoverLetter.jsx:98-108 | the form carries the file and all nine text fields, the address included |
| CoverLetterPage.ChecksAgree | client/src/pages/CoverLetter.jsx:77-108 | the page lets a form through exactly when the handler's field checks would |
| CoverLetterPage.ChecksInOtherOrder | client/src/pages/CoverLetter.jsx:78-93 | with neither a job ID nor a file, the page asks for the job ID while the handler asks for the file |
| CoverLetterPage.AddressHasNoEffect | client/src/pages/CoverLetter.jsx:104 | the address the page sends has no effect on the answer |
| CoverLetterPage.AfterGenerate | client/src/pages/CoverLetter.jsx:135-152 | the letter opens exactly for a 2xx answer with `success`; an error status shows a non-empty message; no answer shows the fixed text |
| CoverLetterPage.HandlerAnswers | client/src/pages/CoverLetter.jsx:135-152 | against the handler, a success opens the letter the handler built with its toast, and every failure shows the handler's message, or the fixed text when that message is empty |
| CoverLetterPage.ToastMatchesCredits | client/src/pages/CoverLetter.jsx:138-144 | after a success on a limited account, the toast and the credits figure name the same number of uses left, one fewer than before |

## Left out

- PDF extraction (`pdfParse`) and the language-model calls are foreign libraries. Each becomes an `Effect` parameter: the returned text, or a thrown error with its message.
- The prompt texts are plain string interpolation and are not modelled.
- Mongoose persistence is not modelled. The lookup result is an `Option<Account>` parameter. Each handler returns the record it leaves stored. A failed `save` is an `Effect` that turns the success into a 500.
- Concurrency is not modelled, in particular the read-then-write race between two requests of the same user. The model handles one request at a time.
- `new Date()` is a clock. The day, the zero-based month and the year are a `Today` parameter.
- `console` logging and timing are not modelled.
- Authentication is not modelled. `clerkMiddleware` (server/server.js:38) sets `req.auth` on every request, and a signed-out request carries a null `userId`. The field checks then run as usual, and the lookup finds no user: that is the model's `user == None`, answered with 404 "User not found".
- A field value of "" stands for every falsy value (absent, null, empty string) that `!field` and `field || placeholder` treat alike.
- Text.IsSpace: JavaScript `\s` and `trim` also accept Unicode spaces; the model uses the ASCII set space, tab, line feed, carriage return, vertical tab and form feed. `^` in multiline mode is matched after '\n' and '\r' only.
- Quota.Account: `analysisCount` is an unbounded integer. The handlers only compare it with 3, add one and subtract it from 3, so no JavaScript number limit is reached.
- The client's JSX rendering, styling, drag-and-drop, the file chooser, the clipboard, the modal and the toasts' styling are pure UI and are not modelled. The page logic that decides what is shown is modelled.
- `axios` is the network. An answer is a `Reply`; an error status without a body and a request that never completes are both `None`.
- The other handlers of the user controller (`getUserData`, `getUserJobApplications`, `updateUserResume`, `applyForJob`) are thin database and blob-store operations and are not part of this model. So are the server wiring and the route tables.
