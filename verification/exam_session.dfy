/** The exam-taking session of client/src/pages/ExamInterface.tsx: the state
    the page keeps (answers, clock, position, pause), its restoration from and
    persistence to session storage, the one-second timer and the handlers the
    buttons call. Every handler is a function from the old state to the new. */
module ExamSession {
  import opened Optional
  import opened Sequences
  import opened Schema

  datatype Session = Session(answers: seq<UserAnswer>, timeRemaining: int,
                             currentQuestionIndex: int, isPaused: bool)

  /** The snapshot kept under `examProgress-<id>`. */
  datatype Snapshot = Snapshot(answers: seq<SavedAnswer>, timeRemaining: int,
                               currentQuestionIndex: int, isPaused: bool)

  /** What session storage holds for the exam: nothing, text that does not
      parse as a snapshot, or a snapshot. */
  datatype Stored = Absent | Corrupt | Present(snapshot: Snapshot)

  // ---- Answer status ----

  /** Whether an answer counts as answered: a single answer with a selection,
      a multiple answer with at least one. */
  predicate Answered(a: UserAnswer) {
    match a
    case SingleAnswer(_, sel, _) => sel.Some?
    case MultipleAnswer(_, sels, _) => |sels| > 0
  }

  function AnsweredFlags(answers: seq<UserAnswer>): (f: seq<bool>)
    ensures |f| == |answers|
    ensures forall i :: 0 <= i < |answers| ==> f[i] == Answered(answers[i])
  {
    seq(|answers|, i requires 0 <= i < |answers| => Answered(answers[i]))
  }

  function MarkedFlags(answers: seq<UserAnswer>): (f: seq<bool>)
    ensures |f| == |answers|
    ensures forall i :: 0 <= i < |answers| ==> f[i] == answers[i].isMarked
  {
    seq(|answers|, i requires 0 <= i < |answers| => answers[i].isMarked)
  }

  /** The "answered n / N" counter: it reaches N exactly when every
      question is answered, and is 0 exactly when none is. */
  function AnsweredCount(answers: seq<UserAnswer>): (n: nat)
    ensures n <= |answers|
    ensures n == |answers| <==> forall i :: 0 <= i < |answers| ==> Answered(answers[i])
    ensures n == 0 <==> forall i :: 0 <= i < |answers| ==> !Answered(answers[i])
  {
    CountTrueExtremes(AnsweredFlags(answers));
    CountTrue(AnsweredFlags(answers))
  }

  /** The "n marked for review" counter: 0 exactly when nothing is marked. */
  function MarkedCount(answers: seq<UserAnswer>): (n: nat)
    ensures n <= |answers|
    ensures n == |answers| <==> forall i :: 0 <= i < |answers| ==> answers[i].isMarked
    ensures n == 0 <==> forall i :: 0 <= i < |answers| ==> !answers[i].isMarked
  {
    CountTrueExtremes(MarkedFlags(answers));
    CountTrue(MarkedFlags(answers))
  }

  /** Replacing one answer moves each counter by at most one, exactly as that
      answer's own status changes. */
  lemma CountsAfterUpdate(answers: seq<UserAnswer>, i: nat, a: UserAnswer)
    requires i < |answers|
    ensures AnsweredCount(answers[i := a]) == AnsweredCount(answers)
              - (if Answered(answers[i]) then 1 else 0) + (if Answered(a) then 1 else 0)
    ensures MarkedCount(answers[i := a]) == MarkedCount(answers)
              - (if answers[i].isMarked then 1 else 0) + (if a.isMarked then 1 else 0)
  {
    assert AnsweredFlags(answers[i := a]) == AnsweredFlags(answers)[i := Answered(a)];
    CountTrueUpdate(AnsweredFlags(answers), i, Answered(a));
    assert MarkedFlags(answers[i := a]) == MarkedFlags(answers)[i := a.isMarked];
    CountTrueUpdate(MarkedFlags(answers), i, a.isMarked);
  }

  // ---- Starting and restoring ----

  /** The empty answer for a question: the variant of the question, nothing
      selected, not marked. */
  function FreshAnswer(q: Question): (a: UserAnswer)
    ensures a.questionId == q.id && Matches(q, a) && !Answered(a) && !a.isMarked
  {
    if q.MultipleQuestion? then MultipleAnswer(q.id, [], false)
    else SingleAnswer(q.id, None, false)
  }

  function FreshAnswers(questions: seq<Question>): (r: seq<UserAnswer>)
    ensures |r| == |questions|
    ensures forall i :: 0 <= i < |r| ==> r[i] == FreshAnswer(questions[i])
  {
    seq(|questions|, i requires 0 <= i < |questions| => FreshAnswer(questions[i]))
  }

  /** A fresh start: one empty answer per question, the full duration in
      seconds on the clock, at the first question, running. */
  function Fresh(exam: Exam): (s: Session)
    ensures |s.answers| == |exam.questions|
    ensures forall i :: 0 <= i < |s.answers| ==>
              s.answers[i].questionId == exam.questions[i].id && Matches(exam.questions[i], s.answers[i])
    ensures AnsweredCount(s.answers) == 0 && MarkedCount(s.answers) == 0
    ensures s.timeRemaining == exam.duration * 60 && s.currentQuestionIndex == 0 && !s.isPaused
  {
    var answers := FreshAnswers(exam.questions);
    NoneTrue(AnsweredFlags(answers));
    NoneTrue(MarkedFlags(answers));
    Session(answers, exam.duration * 60, 0, false)
  }

  lemma {:induction false} NoneTrue(s: seq<bool>)
    requires forall i :: 0 <= i < |s| ==> !s[i]
    ensures CountTrue(s) == 0
  {
    if s != [] {
      NoneTrue(s[..|s| - 1]);
    }
  }

  /** A restored answer. A tagged one is kept. An untagged one takes the
      variant of the question at its position: for a multiple question it
      restarts with nothing selected, for a single question it keeps
      `selectedAnswer ?? null`; `isMarked` defaults to false. */
  function RestoreAnswer(a: SavedAnswer, q: Question): (r: UserAnswer)
    ensures a.Tagged? ==> r == a.answer
    ensures a.Legacy? ==> r.questionId == a.questionId && r.isMarked == MarkedOrFalse(a.isMarked)
                          && Matches(q, r)
    ensures a.Legacy? && q.MultipleQuestion? ==> r.selectedAnswers == []
    ensures a.Legacy? && q.SingleQuestion? ==> r.selectedAnswer == a.selectedAnswer
  {
    match a
    case Tagged(u) => u
    case Legacy(id, sel, _, marked) =>
      if q.MultipleQuestion? then MultipleAnswer(id, [], MarkedOrFalse(marked))
      else SingleAnswer(id, sel, MarkedOrFalse(marked))
  }

  /** Looking up the question of an untagged answer past the last question
      throws, and the page falls back to a fresh start. */
  predicate HasOrphanLegacy(questions: seq<Question>, answers: seq<SavedAnswer>) {
    exists i :: |questions| <= i < |answers| && answers[i].Legacy?
  }

  /** The initialisation effect. */
  function Restore(exam: Exam, stored: Stored): (s: Session)
    ensures stored.Absent? || stored.Corrupt? ==> s == Fresh(exam)
    ensures stored.Present? && HasOrphanLegacy(exam.questions, stored.snapshot.answers) ==> s == Fresh(exam)
    ensures stored.Present? && !HasOrphanLegacy(exam.questions, stored.snapshot.answers) ==>
              var snap := stored.snapshot;
              && s.timeRemaining == snap.timeRemaining
              && s.currentQuestionIndex == snap.currentQuestionIndex
              && s.isPaused == snap.isPaused
              && |s.answers| == |snap.answers|
              && (forall i :: 0 <= i < |snap.answers| && snap.answers[i].Tagged? ==>
                    s.answers[i] == snap.answers[i].answer)
              && (forall i :: 0 <= i < |snap.answers| && snap.answers[i].Legacy? ==>
                    i < |exam.questions| && s.answers[i] == RestoreAnswer(snap.answers[i], exam.questions[i]))
  {
    match stored
    case Present(snap) =>
      if HasOrphanLegacy(exam.questions, snap.answers) then Fresh(exam)
      else
        var answers := seq(|snap.answers|, i requires 0 <= i < |snap.answers| =>
                             if snap.answers[i].Tagged? then snap.answers[i].answer
                             else RestoreAnswer(snap.answers[i], exam.questions[i]));
        Session(answers, snap.timeRemaining, snap.currentQuestionIndex, snap.isPaused)
    case _ => Fresh(exam)
  }

  /** The auto-save effect: the whole state, answers written with their tags. */
  function Persist(s: Session): (stored: Stored)
    ensures stored.Present?
    ensures |stored.snapshot.answers| == |s.answers|
    ensures forall i :: 0 <= i < |s.answers| ==> stored.snapshot.answers[i].Tagged?
  {
    Present(Snapshot(seq(|s.answers|, i requires 0 <= i < |s.answers| => Tagged(s.answers[i])),
                     s.timeRemaining, s.currentQuestionIndex, s.isPaused))
  }

  /** Reloading the page restores exactly the state that was saved, whatever
      the exam's questions. */
  lemma RestorePersist(exam: Exam, s: Session)
    ensures Restore(exam, Persist(s)) == s
  {
    var stored := Persist(s);
    assert !HasOrphanLegacy(exam.questions, stored.snapshot.answers);
    assert Restore(exam, stored).answers == s.answers;
  }

  // ---- The timer ----

  /** One second of the interval: nothing happens while paused or once the
      clock is out; the last second sets the clock to zero and submits. The
      second component says whether this tick submitted the exam. */
  function Tick(s: Session): (r: (Session, bool))
    ensures r.0 == s.(timeRemaining := r.0.timeRemaining)
    ensures r.1 <==> !s.isPaused && s.timeRemaining == 1
    ensures s.isPaused || s.timeRemaining <= 0 ==> r.0 == s
    ensures !s.isPaused && s.timeRemaining > 0 ==> r.0.timeRemaining == s.timeRemaining - 1
  {
    if s.isPaused || s.timeRemaining <= 0 then (s, false)
    else if s.timeRemaining <= 1 then (s.(timeRemaining := 0), true)
    else (s.(timeRemaining := s.timeRemaining - 1), false)
  }

  /** `n` seconds of the timer; the flag says whether any of them submitted. */
  function Run(s: Session, n: nat): (Session, bool)
    decreases n
  {
    if n == 0 then (s, false)
    else
      var next := Run(Tick(s).0, n - 1);
      (next.0, Tick(s).1 || next.1)
  }

  /** A running clock showing `T` seconds submits the exam on exactly its
      `T`-th tick, and shows `T - n` seconds after `n < T` ticks. */
  lemma {:induction false} Countdown(s: Session, n: nat)
    requires !s.isPaused && s.timeRemaining > 0
    ensures n < s.timeRemaining ==> Run(s, n).0 == s.(timeRemaining := s.timeRemaining - n) && !Run(s, n).1
    ensures n == s.timeRemaining ==> Run(s, n).0 == s.(timeRemaining := 0) && Run(s, n).1
    decreases n
  {
    if n > 0 {
      var t := Tick(s).0;
      if s.timeRemaining > 1 {
        Countdown(t, n - 1);
      } else {
        ZeroStays(t, n - 1);
      }
    }
  }

  lemma {:induction false} ZeroStays(s: Session, n: nat)
    requires s.timeRemaining <= 0
    ensures Run(s, n) == (s, false)
    decreases n
  {
    if n > 0 {
      ZeroStays(s, n - 1);
    }
  }

  /** A paused clock never moves and never submits. */
  lemma {:induction false} PausedStays(s: Session, n: nat)
    requires s.isPaused
    ensures Run(s, n) == (s, false)
    decreases n
  {
    if n > 0 {
      PausedStays(s, n - 1);
    }
  }

  // ---- The handlers ----

  /** The handlers read the current answer; with no answer at the current
      position the page throws, so they are modelled only there. */
  predicate AtAnswer(s: Session) {
    0 <= s.currentQuestionIndex < |s.answers|
  }

  /** Clicking option `k` of a single question selects it; on a multiple
      question it does nothing. */
  function Select(s: Session, k: int): (r: Session)
    requires AtAnswer(s)
    ensures var i := s.currentQuestionIndex;
            && r == s.(answers := r.answers)
            && |r.answers| == |s.answers|
            && (forall j :: 0 <= j < |s.answers| && j != i ==> r.answers[j] == s.answers[j])
            && (s.answers[i].SingleAnswer? ==>
                  r.answers[i] == s.answers[i].(selectedAnswer := Some(k)) && Answered(r.answers[i]))
            && (s.answers[i].MultipleAnswer? ==> r == s)
  {
    var i := s.currentQuestionIndex;
    if s.answers[i].SingleAnswer? then
      s.(answers := s.answers[i := s.answers[i].(selectedAnswer := Some(k))])
    else s
  }

  /** The new selection list of a multiple answer after option `k` is
      clicked: its first occurrence removed if present, otherwise appended,
      then sorted. */
  function ToggleList(sels: seq<int>, k: int): (r: seq<int>)
    ensures SortedAsc(r)
    ensures multiset(r) == if k in sels then multiset(sels) - multiset{k} else multiset(sels) + multiset{k}
  {
    Sort(if k in sels then RemoveFirst(sels, k) else sels + [k])
  }

  /** On a list without repetitions a toggle flips the membership of `k`,
      leaves every other option as it was, and keeps the list sorted and
      free of repetitions. */
  lemma ToggleFlips(sels: seq<int>, k: int)
    requires Distinct(sels)
    ensures k in ToggleList(sels, k) <==> k !in sels
    ensures forall j :: j != k ==> (j in ToggleList(sels, k) <==> j in sels)
    ensures Distinct(ToggleList(sels, k))
  {
    var r := ToggleList(sels, k);
    forall x
      ensures multiset(r)[x] == if x == k then (if k in sels then 0 else 1) else (if x in sels then 1 else 0)
    {
      DistinctMultisetIsSet(sels, x);
    }
    forall j
      ensures j in r <==> multiset(r)[j] > 0
    {
      assert j in r <==> j in multiset(r);
    }
    MultiplicityDistinct(r);
  }

  /** Clicking the same option twice restores the selections, for any list
      the page can build: sorted and without repetitions. */
  lemma ToggleTwice(sels: seq<int>, k: int)
    requires SortedAsc(sels) && Distinct(sels)
    ensures ToggleList(ToggleList(sels, k), k) == sels
  {
    ToggleBackMultiset(sels, k);
    SortedUnique(ToggleList(ToggleList(sels, k), k), sels);
  }

  lemma ToggleBackMultiset(sels: seq<int>, k: int)
    requires Distinct(sels)
    ensures multiset(ToggleList(ToggleList(sels, k), k)) == multiset(sels)
  {
    ToggleFlips(sels, k);
    var r := ToggleList(sels, k);
    if k in sels {
      DistinctMultisetIsSet(sels, k);
      assert multiset(ToggleList(r, k)) == multiset(r) + multiset{k};
    } else {
      assert multiset(ToggleList(r, k)) == multiset(r) - multiset{k};
    }
  }

  /** Clicking option `k` of a multiple question toggles it; on a single
      question it does nothing. */
  function Toggle(s: Session, k: int): (r: Session)
    requires AtAnswer(s)
    ensures var i := s.currentQuestionIndex;
            && r == s.(answers := r.answers)
            && |r.answers| == |s.answers|
            && (forall j :: 0 <= j < |s.answers| && j != i ==> r.answers[j] == s.answers[j])
            && (s.answers[i].MultipleAnswer? ==>
                  r.answers[i] == s.answers[i].(selectedAnswers := ToggleList(s.answers[i].selectedAnswers, k)))
            && (s.answers[i].SingleAnswer? ==> r == s)
  {
    var i := s.currentQuestionIndex;
    if s.answers[i].MultipleAnswer? then
      s.(answers := s.answers[i := s.answers[i].(selectedAnswers := ToggleList(s.answers[i].selectedAnswers, k))])
    else s
  }

  /** Starting from no selections, any sequence of clicks leaves a sorted list
      without repetitions, holding exactly the options clicked an odd number
      of times. */
  lemma {:induction false} ClicksGiveOddOptions(clicks: seq<int>)
    ensures SortedAsc(Clicks([], clicks)) && Distinct(Clicks([], clicks))
    ensures OddOptions(Clicks([], clicks), clicks)
  {
    if clicks != [] {
      var n := |clicks| - 1;
      var c := clicks[n];
      ClicksGiveOddOptions(clicks[..n]);
      var p := Clicks([], clicks[..n]);
      ToggleFlips(p, c);
      ClickStep(p, clicks, ToggleList(p, c));
    }
  }

  /** The options clicked an odd number of times are exactly those in `r`. */
  ghost predicate OddOptions(r: seq<int>, clicks: seq<int>) {
    forall k {:trigger k in r} :: k in r <==> Occurrences(clicks, k) % 2 == 1
  }

  lemma ClickStep(p: seq<int>, clicks: seq<int>, r: seq<int>)
    requires clicks != []
    requires OddOptions(p, clicks[..|clicks| - 1])
    requires clicks[|clicks| - 1] in r <==> clicks[|clicks| - 1] !in p
    requires forall j :: j != clicks[|clicks| - 1] ==> (j in r <==> j in p)
    ensures OddOptions(r, clicks)
  {
    var n := |clicks| - 1;
    forall k {:trigger k in r}
      ensures k in r <==> Occurrences(clicks, k) % 2 == 1
    {
      assert Occurrences(clicks, k) == Occurrences(clicks[..n], k) + (if clicks[n] == k then 1 else 0);
    }
  }

  function Clicks(sels: seq<int>, clicks: seq<int>): seq<int> {
    if clicks == [] then sels
    else ToggleList(Clicks(sels, clicks[..|clicks| - 1]), clicks[|clicks| - 1])
  }

  function Occurrences(s: seq<int>, k: int): nat {
    if s == [] then 0
    else Occurrences(s[..|s| - 1], k) + (if s[|s| - 1] == k then 1 else 0)
  }

  /** The mark-for-review checkbox. */
  function Mark(s: Session, checked: bool): (r: Session)
    requires AtAnswer(s)
    ensures var i := s.currentQuestionIndex;
            && r == s.(answers := r.answers)
            && |r.answers| == |s.answers|
            && (forall j :: 0 <= j < |s.answers| && j != i ==> r.answers[j] == s.answers[j])
            && r.answers[i] == s.answers[i].(isMarked := checked)
  {
    var i := s.currentQuestionIndex;
    s.(answers := s.answers[i := s.answers[i].(isMarked := checked)])
  }

  /** Marking changes the marked counter by the change of that one flag and
      never the answered counter. */
  lemma MarkCounts(s: Session, checked: bool)
    requires AtAnswer(s)
    ensures AnsweredCount(Mark(s, checked).answers) == AnsweredCount(s.answers)
    ensures MarkedCount(Mark(s, checked).answers) == MarkedCount(s.answers)
              - (if s.answers[s.currentQuestionIndex].isMarked then 1 else 0) + (if checked then 1 else 0)
  {
    var i := s.currentQuestionIndex;
    var a := s.answers[i].(isMarked := checked);
    CountsAfterUpdate(s.answers, i, a);
    assert Answered(a) == Answered(s.answers[i]);
  }

  /** Selecting on a single question never lowers the answered counter and
      raises it by one exactly when the question was unanswered. */
  lemma SelectCounts(s: Session, k: int)
    requires AtAnswer(s) && s.answers[s.currentQuestionIndex].SingleAnswer?
    ensures AnsweredCount(Select(s, k).answers) == AnsweredCount(s.answers)
              + (if Answered(s.answers[s.currentQuestionIndex]) then 0 else 1)
    ensures MarkedCount(Select(s, k).answers) == MarkedCount(s.answers)
  {
    var i := s.currentQuestionIndex;
    CountsAfterUpdate(s.answers, i, s.answers[i].(selectedAnswer := Some(k)));
  }

  /** The Previous button: back one question, not before the first. */
  function Previous(s: Session): (r: Session)
    ensures r == s.(currentQuestionIndex := r.currentQuestionIndex)
    ensures s.currentQuestionIndex > 0 ==> r.currentQuestionIndex == s.currentQuestionIndex - 1
    ensures s.currentQuestionIndex <= 0 ==> r == s
  {
    if s.currentQuestionIndex > 0 then s.(currentQuestionIndex := s.currentQuestionIndex - 1) else s
  }

  /** The Next button: forward one question, not past the last of `count`. */
  function Next(s: Session, count: nat): (r: Session)
    ensures r == s.(currentQuestionIndex := r.currentQuestionIndex)
    ensures s.currentQuestionIndex < count - 1 ==> r.currentQuestionIndex == s.currentQuestionIndex + 1
    ensures s.currentQuestionIndex >= count - 1 ==> r == s
  {
    if s.currentQuestionIndex < count - 1 then s.(currentQuestionIndex := s.currentQuestionIndex + 1) else s
  }

  /** Navigation keeps a position inside the exam inside it. */
  lemma NavigationStaysInside(s: Session, count: nat)
    requires 0 <= s.currentQuestionIndex < count
    ensures 0 <= Previous(s).currentQuestionIndex < count
    ensures 0 <= Next(s, count).currentQuestionIndex < count
  {
  }

  /** Next then Previous returns to the same question unless already at the
      last one; Previous then Next likewise unless at the first. */
  lemma NextPreviousInverse(s: Session, count: nat)
    requires 0 <= s.currentQuestionIndex < count
    ensures s.currentQuestionIndex < count - 1 ==> Previous(Next(s, count)) == s
    ensures s.currentQuestionIndex > 0 ==> Next(Previous(s), count) == s
  {
  }

  /** The pause buttons flip the pause; the pause modal's Resume clears it. */
  function TogglePause(s: Session): (r: Session)
    ensures r.isPaused != s.isPaused
    ensures r.(isPaused := s.isPaused) == s
  {
    s.(isPaused := !s.isPaused)
  }

  function Resume(s: Session): (r: Session)
    ensures !r.isPaused
    ensures r.(isPaused := s.isPaused) == s
  {
    s.(isPaused := false)
  }

  /** Pausing stops the clock: after a pause, any number of ticks leaves the
      state as it was, and resuming from a pause toggled on restores the
      running state. */
  lemma PauseFreezes(s: Session, n: nat)
    requires !s.isPaused
    ensures Run(TogglePause(s), n) == (TogglePause(s), false)
    ensures Resume(TogglePause(s)) == s
  {
    PausedStays(TogglePause(s), n);
  }
}
