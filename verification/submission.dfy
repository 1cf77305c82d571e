/** The scoring done when an exam is submitted (`handleSubmitExam` in
    client/src/pages/ExamInterface.tsx): the record posted to the results
    store. It pairs answers with questions by id, groups domains by their
    English text and keeps unrounded percentages. */
module Submission {
  import opened Optional
  import opened Sequences
  import opened Schema
  import Grouping
  import ResultsPage

  /** The text a title or domain is saved under: a plain text itself, a
      bilingual one its English half. */
  function EnglishText(t: Schema.Text): (s: string)
    ensures t.Plain? ==> s == t.s
    ensures t.Bilingual? ==> s == t.en
  {
    match t
    case Plain(s) => s
    case Bilingual(en, _) => en
  }

  /** `answers.find(a => a.questionId === id)`, as a position. */
  function FindIndex(answers: seq<UserAnswer>, id: int): (r: Option<nat>)
    ensures r.Some? ==> r.value < |answers| && answers[r.value].questionId == id
    ensures r.Some? ==> forall j :: 0 <= j < r.value ==> answers[j].questionId != id
    ensures r.None? ==> forall j :: 0 <= j < |answers| ==> answers[j].questionId != id
  {
    if answers == [] then None
    else if answers[0].questionId == id then Some(0)
    else match FindIndex(answers[1..], id)
      case None => None
      case Some(j) => Some(j + 1)
  }

  function FindAnswer(answers: seq<UserAnswer>, id: int): Option<UserAnswer> {
    match FindIndex(answers, id)
    case None => None
    case Some(j) => Some(answers[j])
  }

  /** The verdict of the submission path. A single question scores when the
      answer found for it is a single answer selecting the key. A multiple
      question scores when the answer found is a multiple answer with as many
      selections as keys, every selection being a key. A missing answer, or
      one of the other variant, never scores. */
  function SubmitCorrect(q: Question, found: Option<UserAnswer>): (ok: bool)
    ensures ok ==> found.Some? && Matches(q, found.value)
    ensures q.SingleQuestion? ==>
              (ok <==> found.Some? && found.value.SingleAnswer? && found.value.selectedAnswer == Some(q.correctAnswer))
    ensures q.MultipleQuestion? ==>
              (ok <==> found.Some? && found.value.MultipleAnswer?
                       && |found.value.selectedAnswers| == |q.correctAnswers|
                       && forall x :: x in found.value.selectedAnswers ==> x in q.correctAnswers)
  {
    match found
    case None => false
    case Some(a) =>
      match (q, a)
      case (SingleQuestion(_, _, _, c, _, _), SingleAnswer(_, sel, _)) => sel == Some(c)
      case (MultipleQuestion(_, _, _, cs, _, _, _, _), MultipleAnswer(_, sels, _)) =>
        |sels| == |cs| && forall x :: x in sels ==> x in cs
      case _ => false
  }

  function SubmitFlags(questions: seq<Question>, answers: seq<UserAnswer>): (f: seq<bool>)
    ensures |f| == |questions|
    ensures forall i :: 0 <= i < |questions| ==>
              f[i] == SubmitCorrect(questions[i], FindAnswer(answers, questions[i].id))
  {
    seq(|questions|, i requires 0 <= i < |questions| =>
          SubmitCorrect(questions[i], FindAnswer(answers, questions[i].id)))
  }

  /** The domain texts of the questions, the keys the domain entries are
      grouped by. */
  function EnglishTexts(questions: seq<Question>): (d: seq<string>)
    ensures |d| == |questions|
    ensures forall i :: 0 <= i < |questions| ==> d[i] == EnglishText(questions[i].domain)
  {
    seq(|questions|, i requires 0 <= i < |questions| => EnglishText(questions[i].domain))
  }

  /** A domain entry of the posted record; `percentage` is the exact ratio,
      not rounded. */
  datatype DomainScore = DomainScore(domain: string, correct: nat, total: nat, percentage: real)

  /** The posted record. `percentage` is `None` where JavaScript computes NaN
      (an exam without questions). The record schema itself is not part of
      this model. */
  datatype Submitted = Submitted(testerName: string, examId: string, examTitle: string,
                                 score: nat, percentage: Option<real>, totalQuestions: nat,
                                 timestamp: int, domainResults: seq<DomainScore>)

  /** `sessionStorage.getItem(...) || "Anonymous"`: a missing or empty name
      becomes "Anonymous". */
  function TesterName(stored: Option<string>): (name: string)
    ensures name != []
    ensures stored.Some? && stored.value != [] ==> name == stored.value
  {
    if stored.Some? && stored.value != [] then stored.value else "Anonymous"
  }

  /** `p` per cent of `total` is `correct`. */
  predicate PercentOf(p: real, correct: nat, total: nat) {
    p * (total as real) == 100.0 * (correct as real)
  }

  /** `correct / total * 100`, on exact reals. */
  function Percent(correct: nat, total: nat): (p: real)
    requires total > 0
    ensures PercentOf(p, correct, total)
    ensures correct <= total ==> 0.0 <= p <= 100.0
  {
    var c, t := correct as real, total as real;
    var p := c / t * 100.0;
    assert p * t == 100.0 * c by {
      assert c / t * t == c;
    }
    p
  }

  function DomainScores(keys: seq<string>, flags: seq<bool>): (r: seq<DomainScore>)
    requires |keys| == |flags|
    ensures var stats := Grouping.Tally(keys, flags);
            && |r| == |stats|
            && forall k :: 0 <= k < |r| ==>
                 && r[k].domain == stats[k].key
                 && r[k].correct == stats[k].correct
                 && r[k].total == stats[k].total > 0
                 && PercentOf(r[k].percentage, r[k].correct, r[k].total)
  {
    var stats := Grouping.Tally(keys, flags);
    Grouping.TallyPositive(keys, flags);
    seq(|stats|, i requires 0 <= i < |stats| =>
          DomainScore(stats[i].key, stats[i].correct, stats[i].total,
                      Percent(stats[i].correct, stats[i].total)))
  }

  function SumScores(ds: seq<DomainScore>): nat {
    if ds == [] then 0 else SumScores(ds[..|ds| - 1]) + ds[|ds| - 1].correct
  }

  /** The record `handleSubmitExam` posts. The score is the sum of the
      domain entries' correct counts. The clock reading is a parameter. */
  function Submit(exam: Exam, answers: seq<UserAnswer>, storedName: Option<string>, now: int): (r: Submitted)
    ensures r.examId == exam.id && r.totalQuestions == |exam.questions| && r.timestamp == now
    ensures r.examTitle == EnglishText(exam.title)
    ensures r.testerName == TesterName(storedName)
    ensures r.score == CountTrue(SubmitFlags(exam.questions, answers))
    ensures |exam.questions| == 0 ==> r.percentage.None?
    ensures |exam.questions| > 0 ==> r.percentage.Some? && PercentOf(r.percentage.value, r.score, |exam.questions|)
    ensures r.domainResults == DomainScores(EnglishTexts(exam.questions), SubmitFlags(exam.questions, answers))
  {
    var flags := SubmitFlags(exam.questions, answers);
    var keys := EnglishTexts(exam.questions);
    var domains := DomainScores(keys, flags);
    var score := SumScores(domains);
    SumScoresAgree(keys, flags);
    Grouping.TallySums(keys, flags);
    var percentage := if |exam.questions| == 0 then None else Some(Percent(score, |exam.questions|));
    Submitted(TesterName(storedName), exam.id, EnglishText(exam.title), score, percentage,
              |exam.questions|, now, domains)
  }

  lemma SumScoresAgree(keys: seq<string>, flags: seq<bool>)
    requires |keys| == |flags|
    ensures SumScores(DomainScores(keys, flags)) == Grouping.SumCorrect(Grouping.Tally(keys, flags))
  {
    SumScoresOn(DomainScores(keys, flags), Grouping.Tally(keys, flags));
  }

  lemma {:induction false} SumScoresOn(ds: seq<DomainScore>, stats: seq<Grouping.Stat<string>>)
    requires |ds| == |stats|
    requires forall k :: 0 <= k < |ds| ==> ds[k].correct == stats[k].correct
    ensures SumScores(ds) == Grouping.SumCorrect(stats)
  {
    if ds != [] {
      SumScoresOn(ds[..|ds| - 1], stats[..|stats| - 1]);
    }
  }

  /** Each posted domain entry counts the questions whose domain has its
      English text and the correct ones among them; no text has two entries. */
  lemma SubmitDomains(exam: Exam, answers: seq<UserAnswer>, storedName: Option<string>, now: int)
    ensures var ds := Submit(exam, answers, storedName, now).domainResults;
            var keys, flags := EnglishTexts(exam.questions), SubmitFlags(exam.questions, answers);
            && (forall i, j :: 0 <= i < j < |ds| ==> ds[i].domain != ds[j].domain)
            && (forall k :: 0 <= k < |ds| ==>
                  ds[k].total == Grouping.CountKey(keys, ds[k].domain)
                  && ds[k].correct == Grouping.CountKeyOk(keys, flags, ds[k].domain))
  {
    var keys, flags := EnglishTexts(exam.questions), SubmitFlags(exam.questions, answers);
    Grouping.TallyKeys(keys, flags);
    Grouping.TallyCounts(keys, flags);
    var stats := Grouping.Tally(keys, flags);
    var ds := DomainScores(keys, flags);
    forall k | 0 <= k < |ds|
      ensures ds[k].total == Grouping.CountKey(keys, ds[k].domain)
      ensures ds[k].correct == Grouping.CountKeyOk(keys, flags, ds[k].domain)
    {
      assert ds[k].domain == stats[k].key;
    }
  }

  // ---- Agreement with the results page ----

  /** The answers a session builds: one per question, at its position, with
      its id and its variant, ids unique, and no repetition in any selection
      list or answer key. */
  predicate Aligned(questions: seq<Question>, answers: seq<UserAnswer>) {
    && |answers| == |questions|
    && (forall i :: 0 <= i < |questions| ==> answers[i].questionId == questions[i].id)
    && (forall i, j :: 0 <= i < j < |questions| ==> questions[i].id != questions[j].id)
    && (forall i :: 0 <= i < |questions| ==> Matches(questions[i], answers[i]))
    && (forall i :: 0 <= i < |questions| && questions[i].MultipleQuestion? ==>
          Distinct(questions[i].correctAnswers) && Distinct(answers[i].selectedAnswers))
  }

  lemma FindAligned(questions: seq<Question>, answers: seq<UserAnswer>, i: nat)
    requires Aligned(questions, answers) && i < |questions|
    ensures FindAnswer(answers, questions[i].id) == Some(answers[i])
  {
    var r := FindIndex(answers, questions[i].id);
    assert r.Some?;
  }

  /** For the answers a session builds, the posted score is the score the
      results page shows: finding by id finds the answer at the question's
      position, and for lists without repetitions "same length, every
      selection a key" is the same as "equal after sorting". */
  lemma SubmitAgreesWithResultsPage(exam: Exam, answers: seq<UserAnswer>, storedName: Option<string>, now: int)
    requires Aligned(exam.questions, answers)
    ensures Submit(exam, answers, storedName, now).score
            == ResultsPage.Score(exam.title, exam.questions, answers).correctAnswers
  {
    var qs := exam.questions;
    forall i | 0 <= i < |qs|
      ensures SubmitFlags(qs, answers)[i] == ResultsPage.Flags(qs, answers)[i]
    {
      FindAligned(qs, answers, i);
      if qs[i].MultipleQuestion? {
        var sels, cs := answers[i].selectedAnswers, qs[i].correctAnswers;
        ResultsPage.MultipleCorrectIff(qs[i], answers[i]);
        if |sels| == |cs| && forall x :: x in sels ==> x in cs {
          SameValues(sels, cs);
        }
        if multiset(sels) == multiset(cs) {
          assert |sels| == |multiset(sels)| == |multiset(cs)| == |cs|;
          assert forall x :: x in sels ==> x in multiset(sels);
        }
      }
    }
    assert SubmitFlags(qs, answers) == ResultsPage.Flags(qs, answers);
  }

  /** With a repeated selection the two paths disagree: keys {0, 1} and the
      selections [0, 0] score on submission but not on the results page. */
  lemma RepeatedSelectionDisagrees()
    ensures var q := MultipleQuestion(1, Plain("q"), [], [0, 1], NoLimit, NoLimit, Plain(""), Plain("d"));
            var a := MultipleAnswer(1, [0, 0], false);
            SubmitCorrect(q, Some(a)) && !ResultsPage.IsCorrect(q, a)
  {
    var q := MultipleQuestion(1, Plain("q"), [], [0, 1], NoLimit, NoLimit, Plain(""), Plain("d"));
    var a := MultipleAnswer(1, [0, 0], false);
    ResultsPage.MultipleCorrectIff(q, a);
    assert multiset([0, 0])[1] == 0;
  }
}
