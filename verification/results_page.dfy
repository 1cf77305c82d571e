/** The two computations of client/src/pages/ResultsPage.tsx: repairing the
    stored `{questions, answers}` pair (the `resultsData` memo) and scoring it
    (the `results` memo). */
module ResultsPage {
  import opened Optional
  import opened Sequences
  import opened Schema
  import Grouping
  import ExamStore

  // ---- The `resultsData` memo ----

  /** A saved answer as the results page repairs it. A tagged answer is kept.
      An untagged one becomes "multiple" when its positional question is
      tagged "multiple" or has a `correctAnswers` key, keeping its
      `selectedAnswers` (or none); otherwise it becomes "single" with
      `selectedAnswer ?? null`. `isMarked` defaults to false. */
  function NormalizeAnswer(a: SavedAnswer, q: RawQuestion): (r: UserAnswer)
    ensures a.Tagged? ==> r == a.answer
    ensures a.Legacy? ==> r.questionId == a.questionId && r.isMarked == MarkedOrFalse(a.isMarked)
    ensures a.Legacy? ==>
              (r.MultipleAnswer? <==> q.tag == Some(Multiple) || q.correctAnswers.Some?)
    ensures a.Legacy? && r.MultipleAnswer? ==> r.selectedAnswers == a.selectedAnswers.GetOr([])
    ensures a.Legacy? && r.SingleAnswer? ==> r.selectedAnswer == a.selectedAnswer
  {
    match a
    case Tagged(u) => u
    case Legacy(id, sel, sels, marked) =>
      if q.tag == Some(Multiple) || q.correctAnswers.Some? then
        MultipleAnswer(id, sels.GetOr([]), MarkedOrFalse(marked))
      else
        SingleAnswer(id, sel, MarkedOrFalse(marked))
  }

  datatype ResultsData = ResultsData(questions: seq<RawQuestion>, answers: seq<UserAnswer>)

  /** An untagged answer past the last question reads the `type` of an
      undefined question; the exception is caught and the page has no data. */
  predicate HasOrphanLegacy(questions: seq<RawQuestion>, answers: seq<SavedAnswer>) {
    exists i :: |questions| <= i < |answers| && answers[i].Legacy?
  }

  /** The `resultsData` memo: answers are repaired against the questions as
      stored, then the questions get the same repair as in the exam store. */
  function NormalizeResultsData(questions: seq<RawQuestion>, answers: seq<SavedAnswer>): (r: Option<ResultsData>)
    ensures r.None? <==> HasOrphanLegacy(questions, answers)
    ensures r.Some? ==> |r.value.answers| == |answers| && |r.value.questions| == |questions|
    ensures r.Some? ==> forall i :: 0 <= i < |answers| && answers[i].Tagged? ==>
                          r.value.answers[i] == answers[i].answer
    ensures r.Some? ==> forall i :: 0 <= i < |answers| && answers[i].Legacy? ==>
                          i < |questions| && r.value.answers[i] == NormalizeAnswer(answers[i], questions[i])
    ensures r.Some? ==> forall i :: 0 <= i < |questions| ==>
                          r.value.questions[i] == ExamStore.NormalizeQuestion(questions[i])
  {
    if HasOrphanLegacy(questions, answers) then None
    else
      var norm := seq(|answers|, i requires 0 <= i < |answers| =>
                        if answers[i].Tagged? then answers[i].answer
                        else NormalizeAnswer(answers[i], questions[i]));
      Some(ResultsData(ExamStore.NormalizeQuestions(questions), norm))
  }

  /** Repairing data that has already been repaired changes nothing: every
      answer now carries its tag, and every question too. */
  lemma NormalizeResultsDataIdempotent(questions: seq<RawQuestion>, answers: seq<SavedAnswer>)
    requires NormalizeResultsData(questions, answers).Some?
    ensures var d := NormalizeResultsData(questions, answers).value;
            NormalizeResultsData(d.questions, seq(|d.answers|, i requires 0 <= i < |d.answers| => Tagged(d.answers[i])))
            == Some(d)
  {
    var d := NormalizeResultsData(questions, answers).value;
    var again := seq(|d.answers|, i requires 0 <= i < |d.answers| => Tagged(d.answers[i]));
    assert !HasOrphanLegacy(d.questions, again);
    ExamStore.NormalizeQuestionsIdempotent(questions);
    var r := NormalizeResultsData(d.questions, again);
    assert r.value.answers == d.answers;
    assert r.value.questions == d.questions;
  }

  // ---- The `results` memo ----

  /** Whether the answer scores: a single answer iff it selects the key (so
      an empty selection never scores); a multiple answer iff its sorted
      selections equal the sorted keys; a pair whose tags differ never scores. */
  function IsCorrect(q: Question, a: UserAnswer): (r: bool)
    ensures !Matches(q, a) ==> !r
    ensures r && q.MultipleQuestion? ==> multiset(a.selectedAnswers) == multiset(q.correctAnswers)
  {
    match (q, a)
    case (SingleQuestion(_, _, _, c, _, _), SingleAnswer(_, sel, _)) => sel == Some(c)
    case (MultipleQuestion(_, _, _, cs, _, _, _, _), MultipleAnswer(_, sels, _)) => Sort(sels) == Sort(cs)
    case _ => false
  }

  /** Single answers: correct exactly when the selection is the key. */
  lemma SingleCorrectIff(q: Question, a: UserAnswer)
    requires q.SingleQuestion? && a.SingleAnswer?
    ensures IsCorrect(q, a) <==> a.selectedAnswer.Some? && a.selectedAnswer.value == q.correctAnswer
  {
  }

  /** Multiple answers are all-or-nothing and order-blind: correct exactly when
      the selections and the keys hold the same values, repetitions included.
      This holds for any total order the sort uses, so JavaScript's string
      comparison gives the same verdicts. */
  lemma MultipleCorrectIff(q: Question, a: UserAnswer)
    requires q.MultipleQuestion? && a.MultipleAnswer?
    ensures IsCorrect(q, a) <==> multiset(a.selectedAnswers) == multiset(q.correctAnswers)
  {
    SortedEqualIffSameMultiset(a.selectedAnswers, q.correctAnswers);
  }

  /** Keys {0, 2}: only a selection of exactly 0 and 2, in either order, scores. */
  lemma AllOrNothingExamples()
    ensures var q := MultipleQuestion(1, Plain("q"), [], [0, 2], NoLimit, NoLimit, Plain(""), Plain("d"));
            && IsCorrect(q, MultipleAnswer(1, [0, 2], false))
            && IsCorrect(q, MultipleAnswer(1, [2, 0], false))
            && !IsCorrect(q, MultipleAnswer(1, [0], false))
            && !IsCorrect(q, MultipleAnswer(1, [0, 1, 2], false))
            && !IsCorrect(q, MultipleAnswer(1, [], false))
            && !IsCorrect(q, MultipleAnswer(1, [1, 3], false))
  {
    var q := MultipleQuestion(1, Plain("q"), [], [0, 2], NoLimit, NoLimit, Plain(""), Plain("d"));
    MultipleCorrectIff(q, MultipleAnswer(1, [2, 0], false));
    assert multiset([2, 0]) == multiset([0, 2]);
    MultipleCorrectIff(q, MultipleAnswer(1, [0], false));
    assert multiset([0]) != multiset([0, 2]) by { assert multiset([0])[2] == 0; }
    MultipleCorrectIff(q, MultipleAnswer(1, [0, 1, 2], false));
    assert multiset([0, 1, 2])[1] == 1;
    MultipleCorrectIff(q, MultipleAnswer(1, [], false));
    MultipleCorrectIff(q, MultipleAnswer(1, [1, 3], false));
    assert multiset([1, 3])[1] == 1;
  }

  /** `p` is `100 * correct / total` rounded to the nearest integer, halves
      upwards. */
  predicate RoundsTo(p: int, correct: nat, total: nat) {
    2 * total * p <= 200 * correct + total < 2 * total * p + 2 * total
  }

  lemma DivBounds(x: nat, d: nat)
    requires d > 0
    ensures d * (x / d) <= x < d * (x / d) + d
  {
  }

  lemma MulMono(a: int, b: int, c: nat)
    requires a <= b
    ensures c * a <= c * b
  {
  }

  /** `Math.round(correct / total * 100)` on exact arithmetic: the nearest
      integer to the percentage, halves rounded up. */
  function RoundPercent(correct: nat, total: nat): (p: int)
    requires total > 0
    ensures RoundsTo(p, correct, total)
    ensures correct <= total ==> 0 <= p <= 100
  {
    var x, d := 200 * correct + total, 2 * total;
    DivBounds(x, d);
    var p := x / d;
    assert correct <= total ==> p <= 100 by {
      if correct <= total && p > 100 {
        MulMono(101, p, d);
      }
    }
    p
  }

  /** The passing mark: 61 per cent after rounding. */
  const PassMark: int := 61

  /** A rounded percentage reaches the passing mark exactly when the exact
      one reaches 60.5. */
  lemma RoundPassIff(correct: nat, total: nat)
    requires total > 0
    ensures RoundPercent(correct, total) >= PassMark <==> 200 * correct >= 121 * total
  {
    var p := RoundPercent(correct, total);
    if p >= 61 {
      MulMono(61, p, 2 * total);
    } else {
      MulMono(p, 60, 2 * total);
    }
  }

  /** Two domains at 2/3 and 1/2 round to 67 and 50; the exam's 3/5 is 60
      and fails. 121 of 200 is 60.5 per cent, which rounds up and passes. */
  lemma RoundingExamples()
    ensures RoundPercent(2, 3) == 67 && RoundPercent(1, 2) == 50 && RoundPercent(3, 5) == 60
    ensures RoundPercent(3, 5) < PassMark
    ensures RoundPercent(121, 200) == 61 && RoundPercent(120, 200) == 60
  {
  }

  function Flags(questions: seq<Question>, answers: seq<UserAnswer>): (f: seq<bool>)
    requires |answers| >= |questions|
    ensures |f| == |questions|
    ensures forall i :: 0 <= i < |questions| ==> f[i] == IsCorrect(questions[i], answers[i])
  {
    seq(|questions|, i requires 0 <= i < |questions| => IsCorrect(questions[i], answers[i]))
  }

  function Domains(questions: seq<Question>): (d: seq<Schema.Text>)
    ensures |d| == |questions|
    ensures forall i :: 0 <= i < |questions| ==> d[i] == questions[i].domain
  {
    seq(|questions|, i requires 0 <= i < |questions| => questions[i].domain)
  }

  /** One entry per domain, from the tally of the domains and verdicts. */
  function DomainResults(keys: seq<Schema.Text>, flags: seq<bool>): (r: seq<DomainResult>)
    requires |keys| == |flags|
    ensures var stats := Grouping.Tally(keys, flags);
            && |r| == |stats|
            && forall k :: 0 <= k < |r| ==>
                 && r[k].domain == stats[k].key
                 && r[k].correct == stats[k].correct
                 && r[k].total == stats[k].total > 0
                 && r[k].percentage == RoundPercent(r[k].correct, r[k].total)
  {
    var stats := Grouping.Tally(keys, flags);
    Grouping.TallyPositive(keys, flags);
    seq(|stats|, i requires 0 <= i < |stats| =>
          DomainResult(stats[i].key, stats[i].correct, stats[i].total,
                       RoundPercent(stats[i].correct, stats[i].total)))
  }

  /** The result entry of one question; only pairs with equal tags get one. */
  function ResultOf(q: Question, a: UserAnswer, ok: bool): (r: Option<QuestionResult>)
    ensures r.Some? <==> Matches(q, a)
    ensures r.Some? ==> r.value.questionId == q.id && r.value.isCorrect == ok
                        && r.value.SingleResult? == q.SingleQuestion?
  {
    match (q, a)
    case (SingleQuestion(id, text, opts, c, expl, dom), SingleAnswer(_, sel, _)) =>
      Some(SingleResult(id, text, opts, sel, c, ok, expl, dom))
    case (MultipleQuestion(id, text, opts, cs, _, _, expl, dom), MultipleAnswer(_, sels, _)) =>
      Some(MultipleResult(id, text, opts, sels, cs, ok, expl, dom))
    case _ => None
  }

  function QuestionResults(questions: seq<Question>, answers: seq<UserAnswer>): (r: seq<QuestionResult>)
    requires |answers| >= |questions|
    ensures |r| <= |questions|
  {
    if questions == [] then []
    else
      var n := |questions| - 1;
      var prefix := QuestionResults(questions[..n], answers);
      match ResultOf(questions[n], answers[n], IsCorrect(questions[n], answers[n]))
      case Some(x) => prefix + [x]
      case None => prefix
  }

  /** The positions whose answer has its question's variant, in increasing
      order: the questions the page lists. */
  function MatchingPositions(questions: seq<Question>, answers: seq<UserAnswer>): (p: seq<nat>)
    requires |answers| >= |questions|
    ensures forall k :: 0 <= k < |p| ==> p[k] < |questions| && Matches(questions[p[k]], answers[p[k]])
    ensures forall k, l :: 0 <= k < l < |p| ==> p[k] < p[l]
    ensures forall i :: 0 <= i < |questions| && Matches(questions[i], answers[i]) ==> i in p
  {
    if questions == [] then []
    else
      var n := |questions| - 1;
      var pre := questions[..n];
      var prefix := MatchingPositions(pre, answers);
      assert forall i :: 0 <= i < n ==> questions[i] == pre[i];
      if Matches(questions[n], answers[n]) then prefix + [n] else prefix
  }

  /** The page lists, in order, exactly the questions whose answer has the
      same variant, each with the entry ResultOf makes of it; a question
      whose answer has the other variant is left out and shifts nothing. */
  lemma {:induction false} QuestionResultsOfMatching(questions: seq<Question>, answers: seq<UserAnswer>)
    requires |answers| >= |questions|
    ensures var r := QuestionResults(questions, answers);
            var p := MatchingPositions(questions, answers);
            && |r| == |p|
            && forall k :: 0 <= k < |r| ==>
                 Some(r[k]) == ResultOf(questions[p[k]], answers[p[k]],
                                        IsCorrect(questions[p[k]], answers[p[k]]))
  {
    if questions != [] {
      var n := |questions| - 1;
      var pre := questions[..n];
      QuestionResultsOfMatching(pre, answers);
      var r := QuestionResults(questions, answers);
      var p := MatchingPositions(questions, answers);
      var rp := QuestionResults(pre, answers);
      var pp := MatchingPositions(pre, answers);
      forall k | 0 <= k < |rp|
        ensures Some(rp[k]) == ResultOf(questions[pp[k]], answers[pp[k]],
                                        IsCorrect(questions[pp[k]], answers[pp[k]]))
      {
        assert questions[pp[k]] == pre[pp[k]];
      }
    }
  }

  /** When every answer has its question's variant, each question gets one
      result entry, in question order, carrying its id and its verdict. */
  lemma {:induction false} QuestionResultsAligned(questions: seq<Question>, answers: seq<UserAnswer>)
    requires |answers| >= |questions|
    requires forall i :: 0 <= i < |questions| ==> Matches(questions[i], answers[i])
    ensures var r := QuestionResults(questions, answers);
            && |r| == |questions|
            && forall i :: 0 <= i < |r| ==>
                 r[i].questionId == questions[i].id
                 && r[i].isCorrect == IsCorrect(questions[i], answers[i])
                 && r[i].SingleResult? == questions[i].SingleQuestion?
  {
    if questions != [] {
      var n := |questions| - 1;
      var pre := questions[..n];
      assert forall i :: 0 <= i < |pre| ==> pre[i] == questions[i];
      QuestionResultsAligned(pre, answers);
      var x := ResultOf(questions[n], answers[n], IsCorrect(questions[n], answers[n]));
      assert x.Some?;
      var p := QuestionResults(pre, answers);
      var r := QuestionResults(questions, answers);
      assert r == p + [x.value];
      forall i | 0 <= i < |r|
        ensures r[i].questionId == questions[i].id
        ensures r[i].isCorrect == IsCorrect(questions[i], answers[i])
        ensures r[i].SingleResult? == questions[i].SingleQuestion?
      {
        if i < n {
          assert r[i] == p[i];
        } else {
          assert r[i] == x.value;
        }
      }
    }
  }

  // ---- Domain grouping ----

  /** The key a domain has in the page's `Map`: a plain domain is a string and
      is compared by value; a bilingual domain is an object parsed separately
      for each question, so it is compared by identity and equals no other.
      The object key keeps the question's position as its identity. */
  datatype MapKey = StringKey(s: string) | ObjectKey(position: nat, text: Schema.Text)

  /** The domain a key stands for. */
  function KeyText(k: MapKey): Schema.Text {
    match k
    case StringKey(s) => Plain(s)
    case ObjectKey(_, t) => t
  }

  function MapKeysAsWritten(questions: seq<Question>): (keys: seq<MapKey>)
    ensures |keys| == |questions|
    ensures forall i :: 0 <= i < |questions| ==> KeyText(keys[i]) == questions[i].domain
    ensures forall i, j :: 0 <= i < |questions| && 0 <= j < |questions| && i != j ==>
              (keys[i] == keys[j] <==> questions[i].domain.Plain? && questions[i].domain == questions[j].domain)
  {
    seq(|questions|, i requires 0 <= i < |questions| =>
          if questions[i].domain.Plain? then StringKey(questions[i].domain.s)
          else ObjectKey(i, questions[i].domain))
  }

  /** The page's domain entries: one per `Map` key, labelled with its domain. */
  function PageDomainResults(questions: seq<Question>, flags: seq<bool>): (r: seq<DomainResult>)
    requires |flags| == |questions|
    ensures var stats := Grouping.Tally(MapKeysAsWritten(questions), flags);
            && |r| == |stats|
            && forall k :: 0 <= k < |r| ==>
                 && r[k].domain == KeyText(stats[k].key)
                 && r[k].correct == stats[k].correct
                 && r[k].total == stats[k].total > 0
                 && r[k].percentage == RoundPercent(r[k].correct, r[k].total)
  {
    var stats := Grouping.Tally(MapKeysAsWritten(questions), flags);
    Grouping.TallyPositive(MapKeysAsWritten(questions), flags);
    seq(|stats|, i requires 0 <= i < |stats| =>
          DomainResult(KeyText(stats[i].key), stats[i].correct, stats[i].total,
                       RoundPercent(stats[i].correct, stats[i].total)))
  }

  /** The `results` memo. It reads `answers[i]` for every question `i`, so
      the answers must be at least as many as the questions. Domains are
      grouped as the page's `Map` groups them. */
  function Score(examTitle: Schema.Text, questions: seq<Question>, answers: seq<UserAnswer>): (r: ExamResult)
    requires |answers| >= |questions|
    ensures r.totalQuestions == |questions| && r.correctAnswers <= |questions|
    ensures |questions| == 0 ==> r.percentage.None? && !r.passed
    ensures |questions| > 0 ==> r.percentage.Some? && RoundsTo(r.percentage.value, r.correctAnswers, |questions|)
    ensures r.passed <==> r.percentage.Some? && r.percentage.value >= PassMark
    ensures r.correctAnswers == CountTrue(Flags(questions, answers))
    ensures r.questionResults == QuestionResults(questions, answers)
    ensures r.domainResults == PageDomainResults(questions, Flags(questions, answers))
  {
    var flags := Flags(questions, answers);
    var correct := CountTrue(flags);
    var percentage := if |questions| == 0 then None else Some(RoundPercent(correct, |questions|));
    ExamResult(examTitle, |questions|, correct, percentage,
               percentage.Some? && percentage.value >= PassMark,
               PageDomainResults(questions, flags), QuestionResults(questions, answers))
  }

  /** The same results with domains grouped by value, so that questions
      sharing a bilingual domain share an entry. */
  function ScoreCorrected(examTitle: Schema.Text, questions: seq<Question>, answers: seq<UserAnswer>): (r: ExamResult)
    requires |answers| >= |questions|
    ensures r.domainResults == DomainResults(Domains(questions), Flags(questions, answers))
    ensures r.(domainResults := []) == Score(examTitle, questions, answers).(domainResults := [])
  {
    Score(examTitle, questions, answers).(domainResults := DomainResults(Domains(questions), Flags(questions, answers)))
  }

  /** Passing means at least 60.5 per cent correct before rounding; an exam
      without questions is never passed. */
  lemma PassedIff(examTitle: Schema.Text, questions: seq<Question>, answers: seq<UserAnswer>)
    requires |answers| >= |questions|
    ensures var r := Score(examTitle, questions, answers);
            r.passed <==> |questions| > 0 && 200 * r.correctAnswers >= 121 * |questions|
  {
    var r := Score(examTitle, questions, answers);
    if |questions| > 0 {
      RoundPassIff(r.correctAnswers, |questions|);
    }
  }

  /** Grouped by value, every domain that occurs gets exactly one entry. */
  lemma ScoreDomainsCover(examTitle: Schema.Text, questions: seq<Question>, answers: seq<UserAnswer>)
    requires |answers| >= |questions|
    ensures var ds := ScoreCorrected(examTitle, questions, answers).domainResults;
            && (forall i, j :: 0 <= i < j < |ds| ==> ds[i].domain != ds[j].domain)
            && (forall i :: 0 <= i < |questions| ==>
                  exists k :: 0 <= k < |ds| && ds[k].domain == questions[i].domain)
  {
    var keys, flags := Domains(questions), Flags(questions, answers);
    Grouping.TallyKeys(keys, flags);
    var stats := Grouping.Tally(keys, flags);
    var ds := ScoreCorrected(examTitle, questions, answers).domainResults;
    forall i | 0 <= i < |questions|
      ensures exists k :: 0 <= k < |ds| && ds[k].domain == questions[i].domain
    {
      assert keys[i] in keys;
      var k :| 0 <= k < |stats| && stats[k].key == keys[i];
      assert ds[k].domain == questions[i].domain;
    }
  }

  lemma DomainResultsCounts(keys: seq<Schema.Text>, flags: seq<bool>)
    requires |keys| == |flags|
    ensures var ds := DomainResults(keys, flags);
            forall k :: 0 <= k < |ds| ==>
              ds[k].total == Grouping.CountKey(keys, ds[k].domain)
              && ds[k].correct == Grouping.CountKeyOk(keys, flags, ds[k].domain)
  {
    Grouping.TallyCounts(keys, flags);
    var stats := Grouping.Tally(keys, flags);
    var ds := DomainResults(keys, flags);
    forall k | 0 <= k < |ds|
      ensures ds[k].total == Grouping.CountKey(keys, ds[k].domain)
      ensures ds[k].correct == Grouping.CountKeyOk(keys, flags, ds[k].domain)
    {
      assert ds[k].domain == stats[k].key;
      assert stats[k].total == Grouping.CountKey(keys, stats[k].key);
    }
  }

  lemma DomainResultsOrder(keys: seq<Schema.Text>, flags: seq<bool>)
    requires |keys| == |flags|
    ensures var ds := DomainResults(keys, flags);
            && (forall k :: 0 <= k < |ds| ==> ds[k].domain in keys)
            && (forall i, j :: 0 <= i < j < |ds| ==>
                  Grouping.FirstIndex(keys, ds[i].domain) < Grouping.FirstIndex(keys, ds[j].domain))
  {
    Grouping.TallyOrder(keys, flags);
    var stats := Grouping.Tally(keys, flags);
    var ds := DomainResults(keys, flags);
    assert forall k :: 0 <= k < |ds| ==> ds[k].domain == stats[k].key;
  }

  /** Grouped by value, each domain entry counts the questions of its domain
      and the correct ones among them, and its percentage is their rounded
      ratio. */
  lemma ScoreDomainsCounts(examTitle: Schema.Text, questions: seq<Question>, answers: seq<UserAnswer>)
    requires |answers| >= |questions|
    ensures var ds := ScoreCorrected(examTitle, questions, answers).domainResults;
            var keys, flags := Domains(questions), Flags(questions, answers);
            forall k :: 0 <= k < |ds| ==>
              && ds[k].total == Grouping.CountKey(keys, ds[k].domain) > 0
              && ds[k].correct == Grouping.CountKeyOk(keys, flags, ds[k].domain)
              && ds[k].percentage == RoundPercent(ds[k].correct, ds[k].total)
  {
    DomainResultsCounts(Domains(questions), Flags(questions, answers));
  }

  /** Grouped by value, domain entries appear in the order their domains
      first occur. */
  lemma ScoreDomainsOrder(examTitle: Schema.Text, questions: seq<Question>, answers: seq<UserAnswer>)
    requires |answers| >= |questions|
    ensures var ds := ScoreCorrected(examTitle, questions, answers).domainResults;
            var keys := Domains(questions);
            && (forall k :: 0 <= k < |ds| ==> ds[k].domain in keys)
            && (forall i, j :: 0 <= i < j < |ds| ==>
                  Grouping.FirstIndex(keys, ds[i].domain) < Grouping.FirstIndex(keys, ds[j].domain))
  {
    DomainResultsOrder(Domains(questions), Flags(questions, answers));
  }

  /** Either way of grouping, domain totals add up to the number of
      questions and domain corrects to the exam's correct count. */
  lemma ScoreDomainsSums(examTitle: Schema.Text, questions: seq<Question>, answers: seq<UserAnswer>)
    requires |answers| >= |questions|
    ensures var r := Score(examTitle, questions, answers);
            SumTotals(r.domainResults) == |questions| && SumCorrects(r.domainResults) == r.correctAnswers
    ensures var r := ScoreCorrected(examTitle, questions, answers);
            SumTotals(r.domainResults) == |questions| && SumCorrects(r.domainResults) == r.correctAnswers
  {
    var keys, mkeys, flags := Domains(questions), MapKeysAsWritten(questions), Flags(questions, answers);
    Grouping.TallySums(keys, flags);
    SumsAgree(keys, flags);
    Grouping.TallySums(mkeys, flags);
    SumsAgreeOn(PageDomainResults(questions, flags), Grouping.Tally(mkeys, flags));
  }

  /** When no domain is bilingual the page's grouping is grouping by value. */
  lemma PlainDomainsAgree(examTitle: Schema.Text, questions: seq<Question>, answers: seq<UserAnswer>)
    requires |answers| >= |questions|
    requires forall i :: 0 <= i < |questions| ==> questions[i].domain.Plain?
    ensures Score(examTitle, questions, answers) == ScoreCorrected(examTitle, questions, answers)
  {
    var keys, mkeys, flags := Domains(questions), MapKeysAsWritten(questions), Flags(questions, answers);
    assert Grouping.SamePattern(mkeys, keys);
    Grouping.TallyAligned(mkeys, keys, flags);
    var ps, cs := PageDomainResults(questions, flags), DomainResults(keys, flags);
    var mstats, stats := Grouping.Tally(mkeys, flags), Grouping.Tally(keys, flags);
    forall k | 0 <= k < |ps|
      ensures ps[k] == cs[k]
    {
      var i :| 0 <= i < |mkeys| && i < |keys| && mstats[k].key == mkeys[i] && stats[k].key == keys[i];
      assert ps[k].domain == KeyText(mkeys[i]) == keys[i] == cs[k].domain;
    }
  }

  function SumTotals(ds: seq<DomainResult>): nat {
    if ds == [] then 0 else SumTotals(ds[..|ds| - 1]) + ds[|ds| - 1].total
  }

  function SumCorrects(ds: seq<DomainResult>): nat {
    if ds == [] then 0 else SumCorrects(ds[..|ds| - 1]) + ds[|ds| - 1].correct
  }

  lemma {:induction false} SumsAgree(keys: seq<Schema.Text>, flags: seq<bool>)
    requires |keys| == |flags|
    ensures SumTotals(DomainResults(keys, flags)) == Grouping.SumTotal(Grouping.Tally(keys, flags))
    ensures SumCorrects(DomainResults(keys, flags)) == Grouping.SumCorrect(Grouping.Tally(keys, flags))
  {
    SumsAgreeOn(DomainResults(keys, flags), Grouping.Tally(keys, flags));
  }

  lemma {:induction false} SumsAgreeOn<K>(ds: seq<DomainResult>, stats: seq<Grouping.Stat<K>>)
    requires |ds| == |stats|
    requires forall k :: 0 <= k < |ds| ==> ds[k].total == stats[k].total && ds[k].correct == stats[k].correct
    ensures SumTotals(ds) == Grouping.SumTotal(stats) && SumCorrects(ds) == Grouping.SumCorrect(stats)
  {
    if ds != [] {
      SumsAgreeOn(ds[..|ds| - 1], stats[..|stats| - 1]);
    }
  }

  /** As written, an exam whose domains are all bilingual gets one domain
      entry per question, however many questions share a domain. */
  lemma BilingualDomainsNeverMerge(examTitle: Schema.Text, questions: seq<Question>, answers: seq<UserAnswer>)
    requires |answers| >= |questions|
    requires forall i :: 0 <= i < |questions| ==> questions[i].domain.Bilingual?
    ensures |Score(examTitle, questions, answers).domainResults| == |questions|
  {
    var keys := MapKeysAsWritten(questions);
    assert Distinct(keys) by {
      forall i, j | 0 <= i < j < |keys|
        ensures keys[i] != keys[j]
      {
        assert questions[i].domain.Bilingual?;
      }
    }
    Grouping.TallyDistinctKeys(keys, Flags(questions, answers));
  }

  /** Two questions of the same bilingual domain: the page as written lists
      the domain twice, while grouping by value lists it once. */
  lemma SharedBilingualDomainSplits()
    ensures var d := Bilingual("People", "People-ar");
            var qs := [SingleQuestion(1, Plain("a"), [], 0, Plain(""), d),
                       SingleQuestion(2, Plain("b"), [], 0, Plain(""), d)];
            var answers := [SingleAnswer(1, Some(0), false), SingleAnswer(2, None, false)];
            && |Score(Plain("t"), qs, answers).domainResults| == 2
            && |ScoreCorrected(Plain("t"), qs, answers).domainResults| == 1
  {
    var d := Bilingual("People", "People-ar");
    var qs := [SingleQuestion(1, Plain("a"), [], 0, Plain(""), d),
               SingleQuestion(2, Plain("b"), [], 0, Plain(""), d)];
    var answers := [SingleAnswer(1, Some(0), false), SingleAnswer(2, None, false)];
    BilingualDomainsNeverMerge(Plain("t"), qs, answers);
    var keys, flags := Domains(qs), Flags(qs, answers);
    assert keys == [d, d];
    assert keys[..1] == [d];
    assert flags[..1] == [true];
    assert Grouping.Tally(keys[..1], flags[..1]) == [Grouping.Stat(d, 1, 1)];
  }
}
