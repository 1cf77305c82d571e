/** The exam data model of shared/schema.ts: tagged single/multiple questions,
    tagged user answers and per-question results, with the constraints the zod
    schemas impose written as validity predicates. */
module Schema {
  import opened Optional

  /** Display text: a plain string, or the `{en, ar}` pair that uploaded and
      converted exams carry. It is opaque to everything modelled here. */
  datatype Text = Plain(s: string) | Bilingual(en: string, ar: string)

  /** The `type` discriminator. */
  datatype Tag = Single | Multiple

  /** `minSelections`/`maxSelections`: absent, a number, or the NaN that
      `parseInt` yields for text without digits. */
  datatype Limit = NoLimit | Limit(n: int) | NaNLimit

  datatype Question =
    | SingleQuestion(id: int, question: Text, options: seq<Text>, correctAnswer: int,
                     explanation: Text, domain: Text)
    | MultipleQuestion(id: int, question: Text, options: seq<Text>, correctAnswers: seq<int>,
                       minSelections: Limit, maxSelections: Limit,
                       explanation: Text, domain: Text)
  {
    function TagOf(): Tag {
      if SingleQuestion? then Single else Multiple
    }
  }

  datatype UserAnswer =
    | SingleAnswer(questionId: int, selectedAnswer: Option<int>, isMarked: bool)
    | MultipleAnswer(questionId: int, selectedAnswers: seq<int>, isMarked: bool)
  {
    function TagOf(): Tag {
      if SingleAnswer? then Single else Multiple
    }
  }

  datatype Exam = Exam(id: string, title: Text, description: Text, duration: int,
                       questions: seq<Question>)

  datatype DomainResult = DomainResult(domain: Text, correct: nat, total: nat, percentage: int)

  datatype QuestionResult =
    | SingleResult(questionId: int, question: Text, options: seq<Text>,
                   userAnswer: Option<int>, correctAnswer: int, isCorrect: bool,
                   explanation: Text, domain: Text)
    | MultipleResult(questionId: int, question: Text, options: seq<Text>,
                     userAnswers: seq<int>, correctAnswers: seq<int>, isCorrect: bool,
                     explanation: Text, domain: Text)

  /** `percentage` is `None` where JavaScript computes NaN (an exam without
      questions). */
  datatype ExamResult = ExamResult(examTitle: Text, totalQuestions: nat, correctAnswers: nat,
                                   percentage: Option<int>, passed: bool,
                                   domainResults: seq<DomainResult>,
                                   questionResults: seq<QuestionResult>)

  /** The `/api/exams` list entry. */
  datatype ExamListItem = ExamListItem(id: string, title: Text, description: Text,
                                       questionCount: nat, duration: int)

  // ---- Validity (the zod constraints) ----

  /** `z.number().min(0).max(3)`: a position among the four options. */
  predicate OptionIndex(i: int) {
    0 <= i <= 3
  }

  predicate ValidMin(l: Limit) {
    match l
    case NoLimit => true
    case Limit(n) => n >= 2
    case NaNLimit => false
  }

  predicate ValidMax(l: Limit) {
    match l
    case NoLimit => true
    case Limit(n) => 2 <= n <= 4
    case NaNLimit => false
  }

  /** The `z.string()` fields: zod rejects the `{en, ar}` object form. */
  predicate StringText(t: Text) {
    t.Plain?
  }

  predicate StringFields(q: Question) {
    && StringText(q.question) && StringText(q.explanation) && StringText(q.domain)
    && forall i :: 0 <= i < |q.options| ==> StringText(q.options[i])
  }

  /** The numeric and length constraints, whatever the text fields hold. */
  predicate WellFormed(q: Question) {
    && |q.options| == 4
    && match q
       case SingleQuestion(_, _, _, c, _, _) => OptionIndex(c)
       case MultipleQuestion(_, _, _, cs, mn, mx, _, _) =>
         && |cs| >= 2
         && (forall i :: 0 <= i < |cs| ==> OptionIndex(cs[i]))
         && ValidMin(mn) && ValidMax(mx)
  }

  /** What the question schemas accept: well formed, with every text field a
      string. */
  predicate ValidQuestion(q: Question) {
    WellFormed(q) && StringFields(q)
  }

  predicate ValidAnswer(a: UserAnswer) {
    match a
    case SingleAnswer(_, sel, _) => sel.None? || OptionIndex(sel.value)
    case MultipleAnswer(_, sels, _) => forall i :: 0 <= i < |sels| ==> OptionIndex(sels[i])
  }

  predicate ValidExam(e: Exam) {
    forall i :: 0 <= i < |e.questions| ==> ValidQuestion(e.questions[i])
  }

  /** An answer has the variant of the question it belongs to. */
  predicate Matches(q: Question, a: UserAnswer) {
    q.TagOf() == a.TagOf()
  }

  // ---- Loose records, as read from JSON ----

  /** A question as stored in an exam file: the tag and both answer keys may
      be missing (files written before the tag existed). */
  datatype RawQuestion = RawQuestion(tag: Option<Tag>, id: int, question: Text, options: seq<Text>,
                                     correctAnswer: Option<int>, correctAnswers: Option<seq<int>>,
                                     minSelections: Limit, maxSelections: Limit,
                                     explanation: Text, domain: Text)

  /** The typed view of a tagged record (what TypeScript's `as Question`
      assumes): the record must carry the answer key of its variant. */
  function ShapeQuestion(r: RawQuestion): (q: Option<Question>)
    ensures q.Some? <==> (r.tag == Some(Single) && r.correctAnswer.Some?)
                         || (r.tag == Some(Multiple) && r.correctAnswers.Some?)
    ensures q.Some? ==> q.value.id == r.id && q.value.options == r.options
                        && q.value.domain == r.domain && Some(q.value.TagOf()) == r.tag
  {
    match r.tag
    case None => None
    case Some(Single) =>
      if r.correctAnswer.None? then None
      else Some(SingleQuestion(r.id, r.question, r.options, r.correctAnswer.value,
                               r.explanation, r.domain))
    case Some(Multiple) =>
      if r.correctAnswers.None? then None
      else Some(MultipleQuestion(r.id, r.question, r.options, r.correctAnswers.value,
                                 r.minSelections, r.maxSelections, r.explanation, r.domain))
  }

  /** `questionSchema.parse`: the discriminated union looks the variant up by
      its tag, so an untagged record is rejected even though the single
      variant declares a default tag. */
  function ParseQuestion(r: RawQuestion): (q: Option<Question>)
    ensures q.Some? ==> ValidQuestion(q.value) && Some(q.value.TagOf()) == r.tag
    ensures q.Some? <==> ShapeQuestion(r).Some? && ValidQuestion(ShapeQuestion(r).value)
    ensures r.tag.None? ==> q.None?
    ensures r.domain.Bilingual? || r.question.Bilingual? ==> q.None?
  {
    match ShapeQuestion(r)
    case Some(v) => if ValidQuestion(v) then Some(v) else None
    case None => None
  }

  /** The JSON record of a typed question, as `JSON.stringify` writes it. */
  function ToRaw(q: Question): (r: RawQuestion)
    ensures r.tag == Some(q.TagOf()) && r.id == q.id && r.options == q.options
  {
    match q
    case SingleQuestion(id, text, opts, c, expl, dom) =>
      RawQuestion(Some(Single), id, text, opts, Some(c), None, NoLimit, NoLimit, expl, dom)
    case MultipleQuestion(id, text, opts, cs, mn, mx, expl, dom) =>
      RawQuestion(Some(Multiple), id, text, opts, None, Some(cs), mn, mx, expl, dom)
  }

  /** Writing a question out and parsing it back gives the question exactly
      when it is valid, and fails otherwise. */
  lemma ParseRoundTrip(q: Question)
    ensures ValidQuestion(q) ==> ParseQuestion(ToRaw(q)) == Some(q)
    ensures !ValidQuestion(q) ==> ParseQuestion(ToRaw(q)).None?
  {
  }

  /** `singleAnswerQuestionSchema.parse` on its own: a missing tag defaults
      to "single". */
  function ParseSingleQuestion(r: RawQuestion): (q: Option<Question>)
    ensures q.Some? ==> q.value.SingleQuestion? && ValidQuestion(q.value)
    ensures (r.tag != Some(Multiple) && r.correctAnswer.Some? && |r.options| == 4
             && OptionIndex(r.correctAnswer.value)
             && StringText(r.question) && StringText(r.explanation) && StringText(r.domain)
             && (forall i :: 0 <= i < |r.options| ==> StringText(r.options[i]))) <==> q.Some?
    ensures r.tag == Some(Multiple) ==> q.None?
  {
    if r.tag == Some(Multiple) then None
    else ParseQuestion(r.(tag := Some(Single)))
  }

  /** An answer as stored in a session snapshot: either written by the current
      code (tagged), or a pre-tag record whose fields may be missing. */
  datatype SavedAnswer =
    | Tagged(answer: UserAnswer)
    | Legacy(questionId: int, selectedAnswer: Option<int>, selectedAnswers: Option<seq<int>>,
             isMarked: Option<bool>)

  /** `answer.isMarked || false`. */
  function MarkedOrFalse(m: Option<bool>): bool {
    m == Some(true)
  }
}
