/** The exam-definition store of server/storage.ts, over an abstract directory
    listing: each entry is a file name and the parsed JSON of its content, or
    nothing when reading or parsing the file fails. */
module ExamStore {
  import opened Optional
  import opened Text
  import opened Schema

  datatype RawExam = RawExam(id: string, title: Schema.Text, description: Schema.Text,
                             duration: int, questions: seq<RawQuestion>)

  datatype ExamFile = ExamFile(name: string, content: Option<RawExam>)

  predicate IsJson(name: string) {
    EndsWith(name, ".json")
  }

  /** Repairing a question written before the `type` tag existed: a tagged
      question is kept as it is; an untagged one becomes "multiple" exactly
      when it has a `correctAnswers` key, and keeps all its other fields. */
  function NormalizeQuestion(q: RawQuestion): (r: RawQuestion)
    ensures r.tag.Some?
    ensures q.tag.Some? ==> r == q
    ensures q.tag.None? ==> (r.tag == Some(Multiple) <==> q.correctAnswers.Some?)
    ensures r.(tag := q.tag) == q
  {
    if q.tag.Some? then q
    else if q.correctAnswers.Some? then q.(tag := Some(Multiple))
    else q.(tag := Some(Single))
  }

  function NormalizeQuestions(qs: seq<RawQuestion>): (r: seq<RawQuestion>)
    ensures |r| == |qs|
    ensures forall i :: 0 <= i < |qs| ==> r[i] == NormalizeQuestion(qs[i])
  {
    seq(|qs|, i requires 0 <= i < |qs| => NormalizeQuestion(qs[i]))
  }

  /** Normalising an already normalised list changes nothing. */
  lemma NormalizeQuestionsIdempotent(qs: seq<RawQuestion>)
    ensures NormalizeQuestions(NormalizeQuestions(qs)) == NormalizeQuestions(qs)
  {
  }

  /** A repaired legacy record is accepted by the question schema exactly
      when it has four string options, string texts, and the answer key of
      the variant it was given, fitting that variant's constraints. */
  lemma NormalizedLegacyParses(q: RawQuestion)
    requires q.tag.None?
    ensures ParseQuestion(NormalizeQuestion(q)).Some? <==>
              && |q.options| == 4
              && StringText(q.question) && StringText(q.explanation) && StringText(q.domain)
              && (forall i :: 0 <= i < |q.options| ==> StringText(q.options[i]))
              && (q.correctAnswers.None? ==> q.correctAnswer.Some? && OptionIndex(q.correctAnswer.value))
              && (q.correctAnswers.Some? ==>
                    && |q.correctAnswers.value| >= 2
                    && (forall i :: 0 <= i < |q.correctAnswers.value| ==> OptionIndex(q.correctAnswers.value[i]))
                    && ValidMin(q.minSelections) && ValidMax(q.maxSelections))
    ensures ParseQuestion(NormalizeQuestion(q)).Some? ==>
              (ParseQuestion(NormalizeQuestion(q)).value.MultipleQuestion? <==> q.correctAnswers.Some?)
  {
  }

  /** `getAllExams`: every readable `.json` file, in directory order, projected
      to its list entry; unreadable files are skipped, and a directory that
      cannot be read gives the empty list. */
  function ListExams(dir: Option<seq<ExamFile>>): (r: seq<ExamListItem>)
    ensures dir.None? ==> r == []
    ensures dir.Some? ==> |r| <= |dir.value|
  {
    match dir
    case None => []
    case Some(files) => ListFiles(files)
  }

  function ListItem(e: RawExam): ExamListItem {
    ExamListItem(e.id, e.title, e.description, |e.questions|, e.duration)
  }

  function ListFiles(files: seq<ExamFile>): (r: seq<ExamListItem>)
    ensures |r| <= |files|
  {
    if files == [] then []
    else if IsJson(files[0].name) && files[0].content.Some? then
      [ListItem(files[0].content.value)] + ListFiles(files[1..])
    else ListFiles(files[1..])
  }

  /** Every list entry comes from a readable `.json` file: it copies the
      file's id, title, description and duration, and counts its questions. */
  lemma {:induction false} ListedOnlyIfReadable(files: seq<ExamFile>, x: ExamListItem)
    requires x in ListFiles(files)
    ensures exists j :: 0 <= j < |files| && IsJson(files[j].name) && files[j].content.Some?
                        && var e := files[j].content.value;
                           x == ExamListItem(e.id, e.title, e.description, |e.questions|, e.duration)
  {
    if IsJson(files[0].name) && files[0].content.Some? && x == ListItem(files[0].content.value) {
      assert IsJson(files[0].name);
    } else {
      ListedOnlyIfReadable(files[1..], x);
      var j :| 0 <= j < |files[1..]| && IsJson(files[1..][j].name) && files[1..][j].content.Some?
               && var e := files[1..][j].content.value;
                  x == ExamListItem(e.id, e.title, e.description, |e.questions|, e.duration);
      assert files[1..][j] == files[j + 1];
    }
  }

  /** Every readable `.json` exam in the directory has a list entry. */
  lemma {:induction false} ListedIfReadable(files: seq<ExamFile>, j: nat)
    requires j < |files| && IsJson(files[j].name) && files[j].content.Some?
    ensures ListItem(files[j].content.value) in ListFiles(files)
  {
    if j > 0 {
      ListedIfReadable(files[1..], j - 1);
    }
  }

  /** `getExam` as written: the scan stops at the first `.json` file that
      cannot be read or parsed and answers null, because a single `try`
      surrounds the whole loop; otherwise the first file whose `id` matches
      is returned with its questions normalised. */
  function GetExamAsWritten(dir: Option<seq<ExamFile>>, id: string): (r: Option<RawExam>)
    ensures r.Some? ==> r.value.id == id
  {
    match dir
    case None => None
    case Some(files) => ScanAsWritten(files, id)
  }

  function Normalized(e: RawExam): (r: RawExam)
    ensures r.id == e.id && |r.questions| == |e.questions|
    ensures forall i :: 0 <= i < |r.questions| ==> r.questions[i].tag.Some?
  {
    e.(questions := NormalizeQuestions(e.questions))
  }

  function ScanAsWritten(files: seq<ExamFile>, id: string): (r: Option<RawExam>)
    ensures r.Some? ==> r.value.id == id
  {
    if files == [] then None
    else if !IsJson(files[0].name) then ScanAsWritten(files[1..], id)
    else match files[0].content
      case None => None
      case Some(e) => if e.id == id then Some(Normalized(e)) else ScanAsWritten(files[1..], id)
  }

  /** A directory in which the exam listing shows exam "b" while `getExam("b")`
      answers null: an unparsable file sorts before the exam's own file. */
  lemma GetExamMissesListedExam()
    ensures var e := RawExam("b", Plain("B"), Plain(""), 230, []);
            var dir := Some([ExamFile("a.json", None), ExamFile("b.json", Some(e))]);
            ListItem(e) in ListExams(dir) && GetExamAsWritten(dir, "b").None?
  {
    var e := RawExam("b", Plain("B"), Plain(""), 230, []);
    var files := [ExamFile("a.json", None), ExamFile("b.json", Some(e))];
    assert IsJson(files[0].name) && IsJson(files[1].name);
    ListedIfReadable(files, 1);
  }

  /** `getExam` with the unreadable file skipped, as `getAllExams` does. */
  function GetExam(dir: Option<seq<ExamFile>>, id: string): (r: Option<RawExam>)
    ensures r.Some? ==> r.value.id == id
    ensures r.Some? ==> forall i :: 0 <= i < |r.value.questions| ==> r.value.questions[i].tag.Some?
  {
    match dir
    case None => None
    case Some(files) => Scan(files, id)
  }

  function Scan(files: seq<ExamFile>, id: string): (r: Option<RawExam>)
    ensures r.Some? ==> r.value.id == id
    ensures r.Some? ==> forall i :: 0 <= i < |r.value.questions| ==> r.value.questions[i].tag.Some?
  {
    if files == [] then None
    else if IsJson(files[0].name) && files[0].content.Some? && files[0].content.value.id == id then
      Some(Normalized(files[0].content.value))
    else Scan(files[1..], id)
  }

  /** A `.json` file that was read and parsed. */
  predicate Readable(f: ExamFile) {
    IsJson(f.name) && f.content.Some?
  }

  /** A `.json` file whose read or parse fails. */
  predicate Broken(f: ExamFile) {
    IsJson(f.name) && f.content.None?
  }

  predicate HoldsExam(f: ExamFile, id: string) {
    Readable(f) && f.content.value.id == id
  }

  /** File `j` is the first in directory order that holds exam `id`. */
  predicate FirstWithId(files: seq<ExamFile>, id: string, j: int) {
    && 0 <= j < |files| && HoldsExam(files[j], id)
    && forall i :: 0 <= i < j ==> !HoldsExam(files[i], id)
  }

  /** With unreadable files skipped, the lookup answers the first file in
      directory order that holds the exam, normalised. */
  lemma {:induction false} ScanFindsFirst(files: seq<ExamFile>, id: string, j: int)
    requires FirstWithId(files, id, j)
    ensures Scan(files, id) == Some(Normalized(files[j].content.value))
  {
    if j > 0 {
      assert !HoldsExam(files[0], id);
      ScanFindsFirst(files[1..], id, j - 1);
    }
  }

  /** ... and answers null exactly when no readable file holds it. */
  lemma {:induction false} ScanNoneIff(files: seq<ExamFile>, id: string)
    ensures Scan(files, id).None? <==> forall i :: 0 <= i < |files| ==> !HoldsExam(files[i], id)
  {
    if files != [] {
      ScanNoneIff(files[1..], id);
      if !HoldsExam(files[0], id) {
        forall i | 0 <= i < |files[1..]|
          ensures files[1..][i] == files[i + 1]
        {
        }
      }
    }
  }

  /** As written, the lookup finds the first file that holds the exam only
      when no broken `.json` file comes before it. */
  lemma {:induction false} ScanAsWrittenFinds(files: seq<ExamFile>, id: string, j: int)
    requires FirstWithId(files, id, j)
    requires forall i :: 0 <= i < j ==> !Broken(files[i])
    ensures ScanAsWritten(files, id) == Some(Normalized(files[j].content.value))
  {
    if j > 0 {
      assert !HoldsExam(files[0], id) && !Broken(files[0]);
      ScanAsWrittenFinds(files[1..], id, j - 1);
    }
  }

  /** As written, the lookup answers null exactly when a broken `.json` file
      comes before every file that holds the exam (or none holds it). */
  lemma {:induction false} ScanAsWrittenNoneIff(files: seq<ExamFile>, id: string)
    ensures ScanAsWritten(files, id).None? <==>
              forall j :: 0 <= j < |files| && HoldsExam(files[j], id) ==>
                exists i :: 0 <= i < j && Broken(files[i])
  {
    if files != [] {
      ScanAsWrittenNoneIff(files[1..], id);
      if Broken(files[0]) {
        assert ScanAsWritten(files, id).None?;
        forall j | 0 < j < |files| && HoldsExam(files[j], id)
          ensures exists i :: 0 <= i < j && Broken(files[i])
        {
          assert Broken(files[0]);
        }
      } else if HoldsExam(files[0], id) {
        assert ScanAsWritten(files, id).Some?;
      } else {
        assert ScanAsWritten(files, id) == ScanAsWritten(files[1..], id);
        ShiftBroken(files, id);
      }
    }
  }

  /** The condition above, moved one file along when the first file is
      neither broken nor the exam. */
  lemma ShiftBroken(files: seq<ExamFile>, id: string)
    requires files != [] && !Broken(files[0]) && !HoldsExam(files[0], id)
    ensures (forall j :: 0 <= j < |files| && HoldsExam(files[j], id) ==>
               exists i :: 0 <= i < j && Broken(files[i]))
            <==>
            (forall j :: 0 <= j < |files[1..]| && HoldsExam(files[1..][j], id) ==>
               exists i :: 0 <= i < j && Broken(files[1..][i]))
  {
    var tail := files[1..];
    if forall j :: 0 <= j < |files| && HoldsExam(files[j], id) ==> exists i :: 0 <= i < j && Broken(files[i]) {
      forall j | 0 <= j < |tail| && HoldsExam(tail[j], id)
        ensures exists i :: 0 <= i < j && Broken(tail[i])
      {
        assert tail[j] == files[j + 1];
        var i :| 0 <= i < j + 1 && Broken(files[i]);
        assert i != 0;
        assert tail[i - 1] == files[i];
      }
    }
    if forall j :: 0 <= j < |tail| && HoldsExam(tail[j], id) ==> exists i :: 0 <= i < j && Broken(tail[i]) {
      forall j | 0 <= j < |files| && HoldsExam(files[j], id)
        ensures exists i :: 0 <= i < j && Broken(files[i])
      {
        assert j != 0;
        assert tail[j - 1] == files[j];
        var i :| 0 <= i < j - 1 && Broken(tail[i]);
        assert tail[i] == files[i + 1];
      }
    }
  }

  /** With unreadable files skipped, every exam the listing shows can be
      fetched by its id: the fetched exam is the first readable `.json` file
      with that id, at or before the listed one, with its questions
      normalised. */
  lemma ListedExamIsFound(files: seq<ExamFile>, j: nat)
    requires j < |files| && IsJson(files[j].name) && files[j].content.Some?
    ensures Scan(files, files[j].content.value.id).Some?
    ensures exists k :: 0 <= k <= j && FirstWithId(files, files[j].content.value.id, k)
                        && Scan(files, files[j].content.value.id) == Some(Normalized(files[k].content.value))
  {
    var id := files[j].content.value.id;
    FirstHolder(files, id, j);
    var k :| 0 <= k <= j && FirstWithId(files, id, k);
    ScanFindsFirst(files, id, k);
  }

  /** A file that holds the exam has a first such file at or before it. */
  lemma {:induction false} FirstHolder(files: seq<ExamFile>, id: string, j: int)
    requires 0 <= j < |files| && HoldsExam(files[j], id)
    ensures exists k :: 0 <= k <= j && FirstWithId(files, id, k)
    decreases j
  {
    if exists i :: 0 <= i < j && HoldsExam(files[i], id) {
      var i :| 0 <= i < j && HoldsExam(files[i], id);
      FirstHolder(files, id, i);
    } else {
      assert FirstWithId(files, id, j);
    }
  }

  /** When no `.json` file is unreadable the two scans agree. */
  lemma {:induction false} ScansAgreeWithoutBrokenFiles(files: seq<ExamFile>, id: string)
    requires forall i :: 0 <= i < |files| && IsJson(files[i].name) ==> files[i].content.Some?
    ensures ScanAsWritten(files, id) == Scan(files, id)
  {
    if files != [] {
      ScansAgreeWithoutBrokenFiles(files[1..], id);
    }
  }
}
