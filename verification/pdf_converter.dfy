/** The deterministic rules of scripts/convertPdfToExam.ts: the keyword
    classifier that picks a question's domain, the rules applied to each
    block the text extractor found, and the assembly of exam questions. The
    extractor itself (regular expressions over PDF text) is not part of this
    model; its blocks are the input. */
module PdfConverter {
  import opened Optional
  import opened Text
  import opened Schema

  // ---- Domain classification ----

  const PeopleKeywords: seq<string> := [
    "team", "stakeholder", "leadership", "conflict", "communication",
    "motivation", "engagement", "relationship", "collaboration", "culture",
    "emotional intelligence", "coaching", "mentoring", "trust", "influence",
    "negotiation", "servant leader", "team member", "sponsor", "customer"]

  const BusinessKeywords: seq<string> := [
    "business", "strategy", "benefit", "value", "roi", "compliance",
    "regulatory", "governance", "portfolio", "program", "strategic",
    "business case", "organizational", "change management", "transformation"]

  const ProcessKeywords: seq<string> := [
    "schedule", "budget", "scope", "quality", "risk", "procurement",
    "integration", "planning", "execution", "monitoring", "controlling",
    "deliverable", "milestone", "baseline", "change control", "wbs",
    "critical path", "earned value", "variance", "requirements"]

  const PeopleDomain: Schema.Text := Bilingual("People", "الأفراد")
  const BusinessDomain: Schema.Text := Bilingual("Business Environment", "بيئة الأعمال")
  const ProcessDomain: Schema.Text := Bilingual("Process", "العمليات")

  /** The number of keywords that occur in `text`. */
  function Score(text: string, keywords: seq<string>): (n: nat)
    ensures n <= |keywords|
  {
    if keywords == [] then 0
    else
      var init := keywords[..|keywords| - 1];
      Score(text, init) + (if Includes(text, keywords[|keywords| - 1]) then 1 else 0)
  }

  function Matched(text: string, keywords: seq<string>, n: nat): set<nat>
    requires n <= |keywords|
  {
    set i: nat | i < n && Includes(text, keywords[i])
  }

  lemma MatchedStep(text: string, keywords: seq<string>, n: nat)
    requires n < |keywords|
    ensures Matched(text, keywords, n + 1)
            == Matched(text, keywords, n) + (if Includes(text, keywords[n]) then {n} else {})
  {
  }

  lemma MatchedPrefix(text: string, keywords: seq<string>, n: nat)
    requires n <= |keywords|
    ensures Matched(text, keywords[..n], n) == Matched(text, keywords, n)
  {
  }

  /** A score is the number of positions in the list whose keyword occurs;
      a keyword listed twice would count twice. */
  lemma {:induction false} ScoreCountsMatches(text: string, keywords: seq<string>)
    ensures Score(text, keywords) == |Matched(text, keywords, |keywords|)|
  {
    if keywords != [] {
      var n := |keywords| - 1;
      ScoreCountsMatches(text, keywords[..n]);
      MatchedPrefix(text, keywords, n);
      MatchedStep(text, keywords, n);
      assert n !in Matched(text, keywords, n);
    }
  }

  /** `classifyDomain`: People or Business only with a score strictly above
      both others; every tie, all-zero included, gives Process. */
  function ClassifyDomain(questionText: string): (d: Schema.Text)
    ensures d == PeopleDomain || d == BusinessDomain || d == ProcessDomain
  {
    var text := ToLower(questionText);
    var p := Score(text, PeopleKeywords);
    var b := Score(text, BusinessKeywords);
    var r := Score(text, ProcessKeywords);
    if p > b && p > r then PeopleDomain
    else if b > p && b > r then BusinessDomain
    else ProcessDomain
  }

  /** Which domain wins, in terms of the three scores. */
  lemma ClassifyDomainIff(questionText: string)
    ensures var text := ToLower(questionText);
            var p := Score(text, PeopleKeywords);
            var b := Score(text, BusinessKeywords);
            var r := Score(text, ProcessKeywords);
            var d := ClassifyDomain(questionText);
            && (d == PeopleDomain <==> p > b && p > r)
            && (d == BusinessDomain <==> b > p && b > r)
            && (d == ProcessDomain <==> !(p > b && p > r) && !(b > p && b > r))
  {
  }

  lemma {:induction false} NoMatchScoresZero(text: string, keywords: seq<string>)
    requires forall i :: 0 <= i < |keywords| ==> !Includes(text, keywords[i])
    ensures Score(text, keywords) == 0
  {
    if keywords != [] {
      NoMatchScoresZero(text, keywords[..|keywords| - 1]);
    }
  }

  /** A text without any keyword, the empty text among them, is Process. */
  lemma NoKeywordIsProcess(questionText: string)
    requires var text := ToLower(questionText);
             && (forall i :: 0 <= i < |PeopleKeywords| ==> !Includes(text, PeopleKeywords[i]))
             && (forall i :: 0 <= i < |BusinessKeywords| ==> !Includes(text, BusinessKeywords[i]))
    ensures ClassifyDomain(questionText) == ProcessDomain
  {
    var text := ToLower(questionText);
    NoMatchScoresZero(text, PeopleKeywords);
    NoMatchScoresZero(text, BusinessKeywords);
  }

  /** The empty text has no keyword, so it is Process. */
  lemma EmptyTextIsProcess()
    ensures ClassifyDomain("") == ProcessDomain
  {
    forall w: string | w != []
      ensures !Includes("", w)
    {
    }
    NoKeywordIsProcess("");
  }

  // ---- Rules applied to each extracted block ----

  /** A question block as the extractor leaves it. */
  datatype Block = Block(questionNumber: int, questionText: string, options: seq<string>,
                         correctAnswers: seq<nat>, explanation: string, isMultipleAnswer: bool)

  /** `correctAnswers.filter(idx => idx < 4)`. */
  function KeepValid(xs: seq<nat>): (r: seq<nat>)
    ensures |r| <= |xs|
    ensures forall i :: 0 <= i < |r| ==> r[i] < 4
  {
    if xs == [] then []
    else KeepValid(xs[..|xs| - 1]) + (if xs[|xs| - 1] < 4 then [xs[|xs| - 1]] else [])
  }

  /** The filter keeps every valid index as often as it occurs and drops the
      others. */
  lemma {:induction false} KeepValidCounts(xs: seq<nat>)
    ensures forall x :: multiset(KeepValid(xs))[x] == if x < 4 then multiset(xs)[x] else 0
  {
    if xs != [] {
      var init := xs[..|xs| - 1];
      KeepValidCounts(init);
      assert xs == init + [xs[|xs| - 1]];
    }
  }

  /** The answers after the last-resort rule: a single-answer block without
      any answer gets option A. */
  function WithFallback(b: Block): (xs: seq<nat>)
    ensures xs == [] <==> b.correctAnswers == [] && b.isMultipleAnswer
    ensures b.correctAnswers != [] ==> xs == b.correctAnswers
  {
    if |b.correctAnswers| == 0 && !b.isMultipleAnswer then [0] else b.correctAnswers
  }

  function CapOptions(options: seq<string>): (r: seq<string>)
    ensures |r| == if |options| < 4 then |options| else 4
    ensures r == options[..|r|]
  {
    if |options| <= 4 then options else options[..4]
  }

  /** The rules of lines 211-239 as written: fallback, the skip of a
      multiple-answer block with fewer than two answers, the option cap, the
      filter to the first four options and the skip when none is left. */
  function RefineAsWritten(b: Block): (r: Option<Block>)
    ensures r.Some? ==> r.value == b.(options := CapOptions(b.options),
                                      correctAnswers := r.value.correctAnswers,
                                      isMultipleAnswer := r.value.isMultipleAnswer)
    ensures r.Some? ==> r.value.correctAnswers != []
    ensures r.Some? ==> (r.value.isMultipleAnswer <==> b.isMultipleAnswer || |r.value.correctAnswers| > 1)
  {
    var answers := WithFallback(b);
    if b.isMultipleAnswer && |answers| < 2 then None
    else
      var valid := KeepValid(answers);
      if |valid| == 0 then None
      else Some(b.(options := CapOptions(b.options), correctAnswers := valid,
                   isMultipleAnswer := b.isMultipleAnswer || |valid| > 1))
  }

  /** When a block is skipped, and which answers a kept block carries. */
  lemma RefineAsWrittenIff(b: Block)
    ensures RefineAsWritten(b).None? <==>
              (b.isMultipleAnswer && |b.correctAnswers| < 2) || KeepValid(WithFallback(b)) == []
    ensures RefineAsWritten(b).Some? ==> RefineAsWritten(b).value.correctAnswers == KeepValid(WithFallback(b))
  {
  }

  /** The same rules with the two-answer check made after the filter, so
      that a multiple-answer block keeps two real answers or is skipped. */
  function Refine(b: Block): (r: Option<Block>)
    ensures r.Some? ==> r.value == b.(options := CapOptions(b.options),
                                      correctAnswers := r.value.correctAnswers,
                                      isMultipleAnswer := r.value.isMultipleAnswer)
    ensures r.Some? ==> r.value.correctAnswers != []
    ensures r.Some? ==> (r.value.isMultipleAnswer <==> b.isMultipleAnswer || |r.value.correctAnswers| > 1)
    ensures r.Some? && r.value.isMultipleAnswer ==> |r.value.correctAnswers| >= 2
  {
    var valid := KeepValid(WithFallback(b));
    if b.isMultipleAnswer && |valid| < 2 then None
    else if |valid| == 0 then None
    else Some(b.(options := CapOptions(b.options), correctAnswers := valid,
                 isMultipleAnswer := b.isMultipleAnswer || |valid| > 1))
  }

  /** The two versions differ only on multiple-answer blocks that have two
      or more answers of which fewer than two are among the first four
      options. */
  lemma RefineAgreesElsewhere(b: Block)
    requires !(b.isMultipleAnswer && |b.correctAnswers| >= 2 && |KeepValid(b.correctAnswers)| < 2)
    ensures Refine(b) == RefineAsWritten(b)
  {
  }

  // ---- Assembly ----

  /** The Arabic placeholder of lines 245-248. */
  function Localized(text: string): Schema.Text {
    Bilingual(text, "[AR] " + text)
  }

  function LocalizedAll(texts: seq<string>): (r: seq<Schema.Text>)
    ensures |r| == |texts|
  {
    seq(|texts|, i requires 0 <= i < |texts| => Localized(texts[i]))
  }

  /** Lines 326-350: a multiple-answer question takes its answers, or
      `[0, 1]` when it has fewer than two, with at least two and at most
      every option to select; a single one takes its first answer, or 0. */
  function AssembleOne(q: Block, id: int): (r: Question)
    ensures r.id == id && (r.MultipleQuestion? <==> q.isMultipleAnswer)
    ensures r.options == LocalizedAll(q.options)
    ensures r.question == Localized(q.questionText) && r.explanation == Localized(q.explanation)
    ensures r.domain == ClassifyDomain(q.questionText)
    ensures r.MultipleQuestion? ==>
              && (|q.correctAnswers| >= 2 ==> r.correctAnswers == q.correctAnswers)
              && (|q.correctAnswers| < 2 ==> r.correctAnswers == [0, 1])
              && r.minSelections == Limit(2) && r.maxSelections == Limit(|q.options|)
    ensures r.SingleQuestion? ==>
              && (q.correctAnswers != [] ==> r.correctAnswer == q.correctAnswers[0])
              && (q.correctAnswers == [] ==> r.correctAnswer == 0)
  {
    var question := Localized(q.questionText);
    var options := LocalizedAll(q.options);
    var explanation := Localized(q.explanation);
    var domain := ClassifyDomain(q.questionText);
    if q.isMultipleAnswer then
      MultipleQuestion(id, question, options,
                       if |q.correctAnswers| >= 2 then q.correctAnswers else [0, 1],
                       Limit(2), Limit(|q.options|), explanation, domain)
    else
      SingleQuestion(id, question, options,
                     if q.correctAnswers == [] then 0 else q.correctAnswers[0],
                     explanation, domain)
  }

  /** The questions numbered 1 to n in order. */
  function Assemble(qs: seq<Block>): (r: seq<Question>)
    ensures |r| == |qs|
    ensures forall i :: 0 <= i < |r| ==> r[i].id == i + 1
  {
    seq(|qs|, i requires 0 <= i < |qs| => AssembleOne(qs[i], i + 1))
  }

  /** The blocks that survive a set of rules, in order. */
  function Survivors(blocks: seq<Block>, refine: Block -> Option<Block>): (r: seq<Block>)
    ensures |r| <= |blocks|
  {
    if blocks == [] then []
    else
      var last := refine(blocks[|blocks| - 1]);
      Survivors(blocks[..|blocks| - 1], refine) + (if last.Some? then [last.value] else [])
  }

  /** A survivor is exactly what the rules make of some block. */
  lemma {:induction false} SurvivorsIff(blocks: seq<Block>, refine: Block -> Option<Block>, x: Block)
    ensures x in Survivors(blocks, refine) <==>
              exists i :: 0 <= i < |blocks| && refine(blocks[i]) == Some(x)
  {
    if blocks != [] {
      var init := blocks[..|blocks| - 1];
      SurvivorsIff(init, refine, x);
      if exists i :: 0 <= i < |init| && refine(init[i]) == Some(x) {
        var i :| 0 <= i < |init| && refine(init[i]) == Some(x);
        assert blocks[i] == init[i];
      }
      if exists i :: 0 <= i < |blocks| && refine(blocks[i]) == Some(x) {
        var i :| 0 <= i < |blocks| && refine(blocks[i]) == Some(x);
        if i < |init| {
          assert init[i] == blocks[i];
        }
      }
    }
  }

  /** `convertToExam` over the extracted blocks, with the rules as written. */
  function Convert(blocks: seq<Block>): (r: seq<Question>)
    ensures |r| <= |blocks|
    ensures forall i :: 0 <= i < |r| ==> r[i].id == i + 1
  {
    Assemble(Survivors(blocks, RefineAsWritten))
  }

  /** The same conversion with the two-answer check made after the filter. */
  function ConvertCorrected(blocks: seq<Block>): (r: seq<Question>)
    ensures |r| <= |blocks|
    ensures forall i :: 0 <= i < |r| ==> r[i].id == i + 1
  {
    Assemble(Survivors(blocks, Refine))
  }

  /** An assembled question carries exactly the answers its block kept: the
      `[0, 1]` fallback is never reached after `Refine`. */
  lemma AssembledAnswersAreReal(b: Block, id: int)
    requires Refine(b).Some?
    ensures var q := AssembleOne(Refine(b).value, id);
            && (q.MultipleQuestion? ==> q.correctAnswers == KeepValid(WithFallback(b)))
            && (q.SingleQuestion? ==> q.correctAnswer == KeepValid(WithFallback(b))[0])
  {
  }

  /** A kept block assembles into a well-formed question exactly when the
      block had at least four options, since the schema demands exactly four
      and the cap keeps at most four; its texts are `{en, ar}` pairs, which
      the string-typed schema rejects. */
  lemma AssembledValidIff(b: Block, id: int)
    requires Refine(b).Some?
    ensures WellFormed(AssembleOne(Refine(b).value, id)) <==> |b.options| >= 4
    ensures !ValidQuestion(AssembleOne(Refine(b).value, id))
  {
    var k := Refine(b).value;
    var q := AssembleOne(k, id);
    assert |k.options| == |q.options|;
    if |b.options| >= 4 {
      assert |k.options| == 4;
      if q.MultipleQuestion? {
        assert q.correctAnswers == k.correctAnswers;
        forall i | 0 <= i < |q.correctAnswers|
          ensures OptionIndex(q.correctAnswers[i])
        {
          assert q.correctAnswers[i] == k.correctAnswers[i];
        }
      }
    }
  }

  /** As written, a block of five options flagged multiple-answer with
      answers C and E (each an option the extractor found, so a block it can
      produce) passes the two-answer check, keeps only C after the filter to
      the first four options, and is converted into a question with answers
      A and B; the corrected conversion skips it. */
  lemma InventedAnswersAsWritten()
    ensures var b := Block(1, "Q", ["a", "b", "c", "d", "e"], [2, 4], "E", true);
            && (forall i :: 0 <= i < |b.correctAnswers| ==> b.correctAnswers[i] < |b.options|)
            && RefineAsWritten(b).Some?
            && RefineAsWritten(b).value.correctAnswers == [2]
            && Convert([b])[0].correctAnswers == [0, 1]
            && ConvertCorrected([b]) == []
  {
    var b := Block(1, "Q", ["a", "b", "c", "d", "e"], [2, 4], "E", true);
    assert KeepValid([2]) == [2];
    assert [2, 4][..1] == [2];
    assert KeepValid([2, 4]) == [2];
    assert [b][..0] == [];
    assert Survivors([b], RefineAsWritten) == [RefineAsWritten(b).value];
    assert Survivors([b], Refine) == [];
  }

  /** Every question of the corrected conversion carries the answers its
      block kept: a multiple-answer one at least two indices among the first
      four options, never an invented `[0, 1]`. */
  lemma ConvertedAnswersAreReal(blocks: seq<Block>, n: int)
    requires 0 <= n < |ConvertCorrected(blocks)|
    ensures var q := ConvertCorrected(blocks)[n];
            exists k :: 0 <= k < |blocks| && Refine(blocks[k]).Some?
                        && (q.MultipleQuestion? ==> q.correctAnswers == KeepValid(WithFallback(blocks[k]))
                                                    && |q.correctAnswers| >= 2)
                        && (q.SingleQuestion? ==> q.correctAnswer == KeepValid(WithFallback(blocks[k]))[0])
  {
    var s := Survivors(blocks, Refine);
    assert ConvertCorrected(blocks)[n] == AssembleOne(s[n], n + 1);
    SurvivorsIff(blocks, Refine, s[n]);
    var k :| 0 <= k < |blocks| && Refine(blocks[k]) == Some(s[n]);
    AssembledAnswersAreReal(blocks[k], n + 1);
  }
}
