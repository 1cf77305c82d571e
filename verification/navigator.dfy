/** The question grid of client/src/components/QuestionNavigator.tsx: one
    numbered cell per question, coloured by a fixed precedence, with small
    status icons; clicking a cell jumps to its question and closes the grid. */
module Navigator {
  import opened Optional
  import opened Schema
  import ExamSession

  /** The cell colours, in precedence order. */
  datatype Status = Current | MarkedCell | AnsweredCell | Unanswered

  datatype Cell = Cell(number: nat, status: Status, warningIcon: bool, checkIcon: bool)

  /** The cell of question `i`: current beats marked, marked beats answered.
      The warning icon shows on a marked cell that is not current; the check
      icon on an answered cell that is neither current nor marked. */
  function CellAt(i: nat, a: UserAnswer, currentIndex: int): (c: Cell)
    ensures c.number == i + 1
    ensures c.status == Current <==> i == currentIndex
    ensures c.status == MarkedCell <==> i != currentIndex && a.isMarked
    ensures c.status == AnsweredCell <==> i != currentIndex && !a.isMarked && ExamSession.Answered(a)
    ensures c.warningIcon <==> c.status == MarkedCell
    ensures c.checkIcon <==> c.status == AnsweredCell
  {
    var isCurrent := i == currentIndex;
    var answered := ExamSession.Answered(a);
    Cell(i + 1,
         if isCurrent then Current else if a.isMarked then MarkedCell
         else if answered then AnsweredCell else Unanswered,
         a.isMarked && !isCurrent,
         answered && !isCurrent && !a.isMarked)
  }

  /** The rendered grid, or nothing while closed. It reads the answer at each
      question's position, so there must be at least as many answers. */
  function Grid(isOpen: bool, questions: seq<Question>, answers: seq<UserAnswer>, currentIndex: int): (r: Option<seq<Cell>>)
    requires |answers| >= |questions|
    ensures r.None? <==> !isOpen
    ensures r.Some? ==> |r.value| == |questions|
    ensures r.Some? ==> forall i :: 0 <= i < |questions| ==> r.value[i] == CellAt(i, answers[i], currentIndex)
  {
    if !isOpen then None
    else Some(seq(|questions|, i requires 0 <= i < |questions| => CellAt(i, answers[i], currentIndex)))
  }

  /** At most one cell is current, and exactly one when the current index is
      a question of the exam; each cell carries at most one icon. */
  lemma GridCurrentUnique(questions: seq<Question>, answers: seq<UserAnswer>, currentIndex: int)
    requires |answers| >= |questions|
    ensures var cells := Grid(true, questions, answers, currentIndex).value;
            && (forall i, j :: 0 <= i < j < |cells| ==> !(cells[i].status == Current && cells[j].status == Current))
            && (0 <= currentIndex < |cells| <==> exists i :: 0 <= i < |cells| && cells[i].status == Current)
            && (forall i :: 0 <= i < |cells| ==> !(cells[i].warningIcon && cells[i].checkIcon))
  {
    var cells := Grid(true, questions, answers, currentIndex).value;
    if 0 <= currentIndex < |cells| {
      assert cells[currentIndex].status == Current;
    }
  }

  /** Away from the current cell, the check icons count exactly the answered
      questions that are not marked, and the warning icons the marked ones. */
  lemma GridIconsMatchCounts(questions: seq<Question>, answers: seq<UserAnswer>)
    requires |answers| == |questions|
    ensures var cells := Grid(true, questions, answers, -1).value;
            && (forall i :: 0 <= i < |cells| ==> (cells[i].warningIcon <==> answers[i].isMarked))
            && (forall i :: 0 <= i < |cells| ==>
                  (cells[i].checkIcon || cells[i].warningIcon <==> ExamSession.Answered(answers[i]) || answers[i].isMarked))
  {
  }

  /** Clicking cell `index` moves to that question and closes the grid; the
      second component is the grid's new open flag. */
  function SelectCell(s: ExamSession.Session, index: nat): (r: (ExamSession.Session, bool))
    ensures r.0 == s.(currentQuestionIndex := index)
    ensures !r.1
  {
    (s.(currentQuestionIndex := index), false)
  }

  /** Reopening the grid after clicking cell `i` shows cell `i` as the
      current one and changes no answer. */
  lemma SelectThenReopen(s: ExamSession.Session, questions: seq<Question>, index: nat)
    requires |s.answers| >= |questions| && index < |questions|
    ensures var t := SelectCell(s, index).0;
            && t.answers == s.answers
            && Grid(true, questions, t.answers, t.currentQuestionIndex).value[index].status == Current
  {
  }
}
