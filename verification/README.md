# sensai server actions, modelled in Dafny

This project models the deterministic core of the sensai career-coaching
server actions:

- **Quiz grading** (`saveQuizResult`): questions are paired with answers by
  index and graded. The wrong answers are filtered out. An improvement tip is
  asked for only when some answer is wrong, and a failed tip call is
  swallowed. One assessment is appended.
- **Listing assessments** (`getAssessments`): the caller's rows, oldest
  first.
- **Reply clean-up**: the expression `text.replace(/```(?:json)?\n?|```/g, "").trim()`
  is applied to every model reply before `JSON.parse`. It is defined once
  (`FenceText.CleanText`) and used by quiz generation, insight generation and
  the weekly refresh.
- **The read-through insight cache** (`getIndustryInsights`) and **the
  onboarding transaction** (`updateUser`). Both find or create the insight
  row of an industry, due again in 604800000 ms. The transaction then
  rewrites four profile fields, all or nothing.
- **The weekly refresh job** (`generateIndustryInsights`): a loop over the
  stored industries. It overwrites each row whose generation succeeds and
  skips each one that fails.

The store is a class, `Db.Store`. It holds users keyed by the identity
provider's id, insight rows keyed by industry, and the assessment table as a
sequence. Handlers that write take it with `modifies`; handlers that only read
take it without.

Each external call becomes a parameter. The signed-in identity is an
`Option<string>`. A completion call is its outcome, `Reply(content)` or
`CallFailed`. `JSON.parse`, together with reading the expected fields, is a
partial function `string -> Option<T>`. A failing store write is a
parameter: a flag in `saveQuizResult` (`writeFails`) and `updateUser`
(`txFault`), the store's error text in `getIndustryInsights` (`writeFault:
Option<string>`, passed on as the thrown error), and a per-industry predicate
in the refresh job (`writeFails: string -> bool`). The clock is an integer
`now` in milliseconds.

## Model

| member | source | states |
|---|---|---|
| `FenceText.TrimStartSuffix` | actions/interview.js:64 | trimming the start keeps a suffix of the text and removes only whitespace, stopping at the first non-whitespace character |
| `FenceText.TrimEndPrefix` | actions/interview.js:64 | trimming the end keeps a prefix of the text and removes only whitespace, stopping at the last non-whitespace character |
| `FenceText.TrimSpec` | actions/interview.js:64 | the result of `trim()` has no whitespace at either end; trimmed text is unchanged; the result is empty exactly when the input is all whitespace |
| `FenceText.TrimKeepsNoFence` | actions/interview.js:64 | trimming a text with no "```" leaves none |
| `FenceText.CleanTextSpec` | actions/interview.js:63-64 | the cleaned reply contains no "```" and has no whitespace at either end |
| `FenceText.KeptTickNotFollowedByFence` | actions/interview.js:64 | a backtick kept by the scan is never followed in the output by two more backticks |
| `FenceText.StripFencesNoFence` | actions/interview.js:64 | after the replacement no "```" is left, even where deletions bring backticks together |
| `FenceText.StripFencesIdentity` | actions/interview.js:64 | a text with no "```" goes through the replacement unchanged |
| `FenceText.StripFencesTickFreePrefix` | actions/interview.js:64 | a backtick-free prefix is copied as it is and does not change how the rest is scanned |
| `FenceText.CleanTextTickFree` | actions/interview.js:63-64 | a reply with no backtick is only trimmed |
| `FenceText.CleanTextIdempotent` | actions/dashboard.js:49-50 | cleaning an already cleaned text changes nothing |
| `FenceText.StripFencesDropsClosingFence` | actions/interview.js:64 | a "```" appended at the end of any text is deleted and leaves the scan of the text before it unchanged |
| `FenceText.StripJsonFence` | actions/dashboard.js:49-50 | for every payload, the wrapped form "```json", line feed, payload, "```" is cleaned exactly as the bare payload is |
| `FenceText.UnwrapJsonFence` | actions/dashboard.js:49-50 | a payload with no "```" of its own, wrapped as "```json", line feed, payload, "```", comes out as the payload, trimmed |
| `Replies.DecodeFencedReply` | actions/dashboard.js:47-52 | any payload, backticks included, wrapped in a json code fence parses to the same result as the bare payload |
| `Grading.GradeFrom` | actions/interview.js:86-92 | entry i grades question i against the answer at position offset + i; the length is the number of questions |
| `Grading.Grade` | actions/interview.js:86-92 | one entry per question, in order, with answer = the correct answer and userAnswer = the answer at the same index; the answer past the end of the array is `undefined`; isCorrect is `===` on these values: within the answers, the answer equals the correct answer; past the end, the question has no correct answer either |
| `Grading.WrongAnswersSpec` | actions/interview.js:95 | every kept entry is a wrong entry of the input |
| `Grading.WrongPositionsSpec` | actions/interview.js:95 | the positions of the wrong entries: strictly increasing, each one wrong, and every wrong position listed |
| `Grading.WrongAnswersAppend` | actions/interview.js:95 | filtering a concatenation is concatenating the filtered parts |
| `Grading.WrongAnswersInOrder` | actions/interview.js:95 | the filter returns exactly the wrong entries, in their original order |
| `Grading.NoWrongAnswersIffAllCorrect` | actions/interview.js:95-99 | the wrong list is empty exactly when every entry is correct, the only case where no tip is requested |
| `Grading.TipFromReply` | actions/interview.js:118-137 | a failed tip call gives no tip; a reply whose content trims to non-empty text gives exactly that trimmed text; a tip is never empty |
| `AssessmentListing.OwnedBy` | actions/interview.js:171-174 | exactly the rows of the given user, each as often as it is stored |
| `AssessmentListing.InsertByCreatedAtSpec` | actions/interview.js:175-177 | inserting into a list sorted by createdAt keeps it sorted and adds exactly one row |
| `AssessmentListing.SortByCreatedAtSpec` | actions/interview.js:175-177 | the result is sorted by createdAt ascending and is a permutation of the input |
| `Dashboard.GenerateAIInsights` | actions/dashboard.js:11-57 | success means the call succeeded and the cleaned reply parsed to exactly this payload; every failure, of the call or of the parse, is "Failed to generate AI insights" |
| `Dashboard.GetIndustryInsights` | actions/dashboard.js:61-93 | a missing identity, an unknown user or an unset industry each fail with their own error and leave the table alone; a stored row is returned unchanged, however stale, and nothing is generated; on a miss, exactly one row is created for the user's industry with nextUpdate = now + 604800000; if generation or the create fails, nothing is created |
| `UserActions.UpdateUser` | actions/user.js:8-68 | "Unauthorized" or "User not found" with no change; an existing insight row is reused unchanged; otherwise exactly one row is created, due in a week; the result is the user with industry, experience, bio and skills from the form and every other field, user and row unchanged; any failure in the transaction changes nothing and is "Failed to update profile" |
| `UserActions.GetUserOnboardingStatus` | actions/user.js:70-91 | "Unauthorized" without an identity; otherwise isOnboarded holds exactly when the user exists and has a non-empty industry |
| `Interview.GenerateQuiz` | actions/interview.js:11-72 | identity checks first; success means the call succeeded and the cleaned reply parsed to exactly these questions; every generation failure is "Failed to generate quiz questions" |
| `Interview.SaveQuizResult` | actions/interview.js:76-156 | identity checks first, no change; only the save can fail, so the tip call never blocks saving; exactly one row is appended for this user, with the score as given, the graded results, category "Technical"; the tip is null when every answer is right, otherwise what the tip call yields (null if it failed), and a tip is non-empty and trimmed |
| `Interview.GetAssessments` | actions/interview.js:160-185 | identity checks first; the result holds every row of the caller and no other row, sorted by createdAt ascending |
| `InsightRefresh.Skipped` | lib/inngest/function.js:17-18 | the skipped industries are exactly the listed ones whose try block fails |
| `InsightRefresh.RefreshIndustry` | lib/inngest/function.js:18-77 | the row is overwritten with the parsed payload, lastUpdated = now and nextUpdate = now + 604800000 only if generation, parsing and the update all succeed; otherwise the store is unchanged |
| `InsightRefresh.GenerateIndustryInsights` | lib/inngest/function.js:7-80 | every listed industry is attempted in order, and a failure does not stop the loop; no row is created or removed; a successful industry gets the new payload and timestamps; every other row keeps its previous values |

## Left out

- Authentication: the identity provider is not part of this model. The caller's identity is a parameter, and a missing or empty id means not signed in.
- The completion endpoint: prompts, model name, temperature and system messages are not modelled. Each call is represented by its outcome.
- `JSON.parse` and the payload schema are a parameter (`parse`). Nothing checks the schema, and neither does the code: it does not check ten questions of four options, five salary ranges, or the enum values.
- GenerateQuiz: when a parsed reply has no `questions` field, the source returns `undefined` as a success. In the model, `parseQuiz` either yields a question list or fails.
- Store reads never fail in the model. So the "Failed to fetch assessments" and "Failed to check onboarding status" paths, which only a failing read reaches, are not modelled.
- UpdateUser: the 10-second transaction timeout and any failing read or write inside the transaction are one flag, `txFault`. Prisma's transaction machinery is not modelled.
- `revalidatePath("/")` after a profile update is not modelled. It only invalidates a rendering cache.
- The scheduler: the cron trigger and Inngest's step retries and logging are not modelled. The "Fetch industries" step is represented by its result, `listing`. The error log is the `skipped` list the job returns; other console logging is left out.
- The clock: one `now` per handler call stands for every clock read in that call. The creation time of a new insight row (`lastUpdated`) is taken to be `now`. That is the store's column default; prisma/schema.prisma is not part of this model.
- Concurrency: two first-time creations racing for the same industry are not modelled. The code does nothing about this race, and the unique key on industry is left to the store.
- Trim: `trim()` here removes a fixed set of characters: space, tab, line feed, carriage return, vertical tab, form feed, U+00A0, U+FEFF, U+2028 and U+2029. JavaScript's full Unicode whitespace class is wider.
- Answer values: a correct answer or a given answer is `undefined`, `null` or a string (`JsValue`). Numbers, booleans, arrays and objects in those fields, which JSON would allow, are not modelled.
- Numbers: JavaScript numbers are `real` (score, growth rate, salaries) or `int` (experience, timestamps). Floating-point rounding is not modelled.
- The `...insights` spread copies whatever keys the parsed JSON has into the row. The model's payload has only the seven insight fields, so a stray key, such as one named `industry`, cannot overwrite another column.
- SortByCreatedAt: rows with equal createdAt keep their stored order. The store itself promises no order among ties, so this is one admissible order.

## Notes on the code's behaviour

- The clean-up deletes every "```" (with an optional "json" and line feed after it) anywhere in the text, inside the payload too, not only a wrapper at the start and end of the reply.
- No handler checks the shape of a parsed payload: nothing requires ten questions of four options each, or at least five skills and trends in an insight payload. The model accepts whatever the parse yields.
- When creating an insight row fails on the read path of `getIndustryInsights`, the store's own error is thrown unchanged rather than a handler-specific message; `StoreWriteFailed` carries that error's text.
