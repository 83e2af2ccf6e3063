/**
 * The rows the handlers read and write, the errors they raise, and the
 * constants they share.  Timestamps are milliseconds since the epoch.
 */
module Records {
  import opened Wrappers

  /** `7 * 24 * 60 * 60 * 1000`, the refresh window written after every generation. */
  const WEEK_MS: int := 7 * 24 * 60 * 60 * 1000

  /** A profile, keyed in the store by the identity provider's user id. */
  datatype User = User(
    id: nat,
    clerkUserId: string,
    industry: Option<string>,
    experience: int,
    bio: string,
    skills: seq<string>)

  /** `!!user.industry`: the industry is present and not the empty string. */
  predicate HasIndustry(u: User) {
    u.industry.Some? && u.industry.value != ""
  }

  datatype SalaryRange = SalaryRange(role: string, min: real, max: real, median: real, location: string)

  datatype DemandLevel = High | Medium | Low

  datatype MarketOutlook = Positive | Neutral | Negative

  /** The fields a generated insight payload spreads into the insight row. */
  datatype Insights = Insights(
    salaryRanges: seq<SalaryRange>,
    growthRate: real,
    demandLevel: DemandLevel,
    topSkills: seq<string>,
    marketOutlook: MarketOutlook,
    keyTrends: seq<string>,
    recommendedSkills: seq<string>)

  /** One cached insight row; `industry` is its unique key. */
  datatype IndustryInsight = IndustryInsight(
    industry: string,
    insights: Insights,
    lastUpdated: int,
    nextUpdate: int)

  /** A new row for `industry`, stamped at `now` and due one week later. */
  function NewInsight(industry: string, payload: Insights, now: int): IndustryInsight {
    IndustryInsight(industry, payload, now, now + WEEK_MS)
  }

  /**
   * A value in an answer field as JavaScript sees it: a missing key or array
   * entry (`undefined`), `null`, or a string.  Equality of these values is
   * `===`: strings by content, and `null` is not `undefined`.
   */
  datatype JsValue = Undefined | Null | Str(text: string)

  /** A quiz question as the quiz generator returns it and the client sends it back. */
  datatype Question = Question(
    question: string,
    options: seq<string>,
    correctAnswer: JsValue,
    explanation: string)

  /** One graded entry: the correct answer and the answer given at the same index. */
  datatype QuestionResult = QuestionResult(
    question: string,
    answer: JsValue,
    userAnswer: JsValue,
    isCorrect: bool,
    explanation: string)

  /** One saved quiz attempt. */
  datatype Assessment = Assessment(
    userId: nat,
    quizScore: real,
    questions: seq<QuestionResult>,
    category: string,
    improvementTip: Option<string>,
    createdAt: int)

  /** The form data `updateUser` receives. */
  datatype ProfileData = ProfileData(
    industry: string,
    experience: int,
    bio: string,
    skills: seq<string>)

  /** The errors the handlers throw. */
  datatype Error =
    | Unauthorized
    | UserNotFound
    | IndustryNotSet
    | QuizGenerationFailed
    | InsightGenerationFailed
    | SaveQuizFailed
    | ProfileUpdateFailed
    | StoreWriteFailed(detail: string)   // the store's own error, passed on as it is

  /** The message each thrown error carries. */
  function Message(e: Error): string {
    match e
    case Unauthorized => "Unauthorized"
    case UserNotFound => "User not found"
    case IndustryNotSet => "User industry not set. Please complete onboarding first."
    case QuizGenerationFailed => "Failed to generate quiz questions"
    case InsightGenerationFailed => "Failed to generate AI insights"
    case SaveQuizFailed => "Failed to save quiz result"
    case ProfileUpdateFailed => "Failed to update profile"
    case StoreWriteFailed(detail) => detail
  }
}
