/** The zod schemas of shared/admin-schema.ts as parsers over a JSON object:
    the administrator login and the CSV question record, with their
    defaults, optional keys and the paths of the keys that fail. */
module AdminSchema {
  import opened Optional

  /** A JSON value as these schemas tell values apart. */
  datatype Value = Str(s: string) | Num(n: real) | Other

  /** A JSON object; a key that is absent is `undefined`. */
  type Object = map<string, Value>

  /** What `safeParse` gives: the parsed value, or the set of paths that
      failed (zod reports every failing key, not just the first). */
  datatype Parsed<T> = Ok(value: T) | Issues(paths: set<string>)

  /** One key's outcome. */
  datatype Check<T> = Good(value: T) | Bad

  /** A string's `length` in JavaScript: UTF-16 code units, two for a
      character outside the Basic Multilingual Plane. */
  function Utf16Length(s: string): (n: nat)
    ensures |s| <= n <= 2 * |s|
  {
    if s == [] then 0
    else Utf16Length(s[..|s| - 1]) + (if s[|s| - 1] as int > 0xFFFF then 2 else 1)
  }

  /** Text made of Basic Multilingual Plane characters is as long as it has
      characters. */
  lemma {:induction false} Utf16LengthBmp(s: string)
    requires forall i :: 0 <= i < |s| ==> s[i] as int <= 0xFFFF
    ensures Utf16Length(s) == |s|
  {
    if s != [] {
      Utf16LengthBmp(s[..|s| - 1]);
    }
  }

  // ---- adminLoginSchema ----

  datatype Login = Login(username: string, password: string)

  predicate ValidLogin(l: Login) {
    Utf16Length(l.username) >= 3 && Utf16Length(l.password) >= 6
  }

  /** A string of at least `min` code units under `key`. */
  function MinText(obj: Object, key: string, min: nat): (c: Check<string>)
    ensures c.Good? <==> key in obj && obj[key].Str? && Utf16Length(obj[key].s) >= min
    ensures c.Good? ==> obj[key] == Str(c.value)
  {
    if key in obj && obj[key].Str? && Utf16Length(obj[key].s) >= min then Good(obj[key].s) else Bad
  }

  function IssueIf<T>(c: Check<T>, key: string): set<string> {
    if c.Bad? then {key} else {}
  }

  /** `adminLoginSchema.safeParse`: a username of at least 3 and a password
      of at least 6 code units; other keys are dropped. */
  function ParseLogin(obj: Object): (r: Parsed<Login>)
    ensures r.Ok? ==> ValidLogin(r.value) && "username" in obj && "password" in obj
                      && obj["username"] == Str(r.value.username) && obj["password"] == Str(r.value.password)
    ensures r.Issues? ==> r.paths != {} && r.paths <= {"username", "password"}
  {
    var user := MinText(obj, "username", 3);
    var pass := MinText(obj, "password", 6);
    if user.Good? && pass.Good? then Ok(Login(user.value, pass.value))
    else Issues(IssueIf(user, "username") + IssueIf(pass, "password"))
  }

  function LoginObject(l: Login): Object {
    map["username" := Str(l.username), "password" := Str(l.password)]
  }

  /** A login reads back from its object exactly when it is valid. */
  lemma LoginRoundTrip(l: Login)
    ensures ParseLogin(LoginObject(l)) == Ok(l) <==> ValidLogin(l)
    ensures !ValidLogin(l) ==> ParseLogin(LoginObject(l)).Issues?
  {
  }

  /** Each key is reported exactly when it fails its rule. */
  lemma LoginIssues(obj: Object)
    requires ParseLogin(obj).Issues?
    ensures "username" in ParseLogin(obj).paths <==> MinText(obj, "username", 3).Bad?
    ensures "password" in ParseLogin(obj).paths <==> MinText(obj, "password", 6).Bad?
  {
  }

  /** Lengths are code units: two characters outside the Basic
      Multilingual Plane already make a long enough username. */
  lemma AstralUsername()
    ensures MinText(map["username" := Str("\U{1F600}\U{1F600}")], "username", 3).Good?
  {
    var s := "\U{1F600}\U{1F600}";
    assert s[..1] == "\U{1F600}";
    assert s[..1][..0] == [];
  }

  // ---- csvQuestionSchema ----

  /** `z.string().or(z.number())`. */
  datatype TextOrNumber = AsText(s: string) | AsNumber(n: real)

  datatype QType = SingleType | MultipleType

  datatype CsvQuestion = CsvQuestion(
    id: TextOrNumber, qtype: QType, question: string,
    optionA: string, optionB: string, optionC: string, optionD: Option<string>,
    correctAnswer: Option<string>, correctAnswers: Option<string>,
    minSelections: Option<TextOrNumber>, maxSelections: Option<TextOrNumber>,
    explanation: Option<string>, domain: string)

  /** A required string. */
  function RequiredText(obj: Object, key: string): (c: Check<string>)
    ensures c.Good? <==> key in obj && obj[key].Str?
    ensures c.Good? ==> obj[key] == Str(c.value)
  {
    if key in obj && obj[key].Str? then Good(obj[key].s) else Bad
  }

  /** An optional string: absent is fine, anything but a string is not. */
  function OptionalText(obj: Object, key: string): (c: Check<Option<string>>)
    ensures c == Good(None) <==> key !in obj
    ensures c.Good? && c.value.Some? <==> key in obj && obj[key].Str?
    ensures c.Good? && c.value.Some? ==> obj[key] == Str(c.value.value)
  {
    if key !in obj then Good(None)
    else if obj[key].Str? then Good(Some(obj[key].s))
    else Bad
  }

  /** A string with a default for the absent key. */
  function DefaultText(obj: Object, key: string, default: string): (c: Check<string>)
    ensures key !in obj ==> c == Good(default)
    ensures key in obj ==> (c.Good? <==> obj[key].Str?)
    ensures key in obj && c.Good? ==> obj[key] == Str(c.value)
  {
    if key !in obj then Good(default)
    else if obj[key].Str? then Good(obj[key].s)
    else Bad
  }

  function AsTextOrNumber(v: Value): Option<TextOrNumber> {
    match v
    case Str(s) => Some(AsText(s))
    case Num(n) => Some(AsNumber(n))
    case Other => None
  }

  function RequiredId(obj: Object, key: string): (c: Check<TextOrNumber>)
    ensures c.Good? <==> key in obj && !obj[key].Other?
  {
    if key in obj && AsTextOrNumber(obj[key]).Some? then Good(AsTextOrNumber(obj[key]).value) else Bad
  }

  function OptionalId(obj: Object, key: string): (c: Check<Option<TextOrNumber>>)
    ensures c == Good(None) <==> key !in obj
    ensures c.Bad? <==> key in obj && obj[key].Other?
  {
    if key !in obj then Good(None)
    else if AsTextOrNumber(obj[key]).Some? then Good(AsTextOrNumber(obj[key]))
    else Bad
  }

  /** `z.enum(["single", "multiple"]).default("single")`: the exact
      lower-case words only. */
  function TypeField(obj: Object): (c: Check<QType>)
    ensures "type" !in obj ==> c == Good(SingleType)
    ensures "type" in obj ==> (c.Good? <==> obj["type"] == Str("single") || obj["type"] == Str("multiple"))
  {
    if "type" !in obj then Good(SingleType)
    else if obj["type"] == Str("single") then Good(SingleType)
    else if obj["type"] == Str("multiple") then Good(MultipleType)
    else Bad
  }

  /** The outcome of every key of the CSV question schema. */
  datatype CsvChecks = CsvChecks(
    id: Check<TextOrNumber>, qtype: Check<QType>, question: Check<string>,
    optionA: Check<string>, optionB: Check<string>, optionC: Check<string>,
    optionD: Check<Option<string>>, correctAnswer: Check<Option<string>>,
    correctAnswers: Check<Option<string>>, minSelections: Check<Option<TextOrNumber>>,
    maxSelections: Check<Option<TextOrNumber>>, explanation: Check<Option<string>>,
    domain: Check<string>)
  {
    predicate AllGood() {
      id.Good? && qtype.Good? && question.Good? && optionA.Good? && optionB.Good? && optionC.Good?
      && optionD.Good? && correctAnswer.Good? && correctAnswers.Good? && minSelections.Good?
      && maxSelections.Good? && explanation.Good? && domain.Good?
    }

    function Paths(): set<string> {
      IssueIf(id, "id") + IssueIf(qtype, "type") + IssueIf(question, "question")
      + IssueIf(optionA, "optionA") + IssueIf(optionB, "optionB") + IssueIf(optionC, "optionC")
      + IssueIf(optionD, "optionD") + IssueIf(correctAnswer, "correctAnswer")
      + IssueIf(correctAnswers, "correctAnswers") + IssueIf(minSelections, "minSelections")
      + IssueIf(maxSelections, "maxSelections") + IssueIf(explanation, "explanation")
      + IssueIf(domain, "domain")
    }
  }

  function CheckCsv(obj: Object): CsvChecks {
    CsvChecks(RequiredId(obj, "id"), TypeField(obj), RequiredText(obj, "question"),
              RequiredText(obj, "optionA"), RequiredText(obj, "optionB"), RequiredText(obj, "optionC"),
              OptionalText(obj, "optionD"), OptionalText(obj, "correctAnswer"),
              OptionalText(obj, "correctAnswers"), OptionalId(obj, "minSelections"),
              OptionalId(obj, "maxSelections"), OptionalText(obj, "explanation"),
              DefaultText(obj, "domain", "General"))
  }

  /** `csvQuestionSchema.safeParse`. */
  function ParseCsvQuestion(obj: Object): (r: Parsed<CsvQuestion>)
    ensures r.Ok? <==> CheckCsv(obj).AllGood()
    ensures r.Issues? ==> r.paths != {}
    ensures r.Ok? ==> r.value.question == obj["question"].s && r.value.optionA == obj["optionA"].s
  {
    var c := CheckCsv(obj);
    if c.AllGood() then
      Ok(CsvQuestion(c.id.value, c.qtype.value, c.question.value,
                     c.optionA.value, c.optionB.value, c.optionC.value, c.optionD.value,
                     c.correctAnswer.value, c.correctAnswers.value, c.minSelections.value,
                     c.maxSelections.value, c.explanation.value, c.domain.value))
    else Issues(c.Paths())
  }

  function IdValue(v: TextOrNumber): Value {
    match v
    case AsText(s) => Str(s)
    case AsNumber(n) => Num(n)
  }

  /** The keys every record is written with. */
  function RequiredObject(q: CsvQuestion): Object {
    map["id" := IdValue(q.id),
        "type" := Str(if q.qtype == SingleType then "single" else "multiple"),
        "question" := Str(q.question), "optionA" := Str(q.optionA),
        "optionB" := Str(q.optionB), "optionC" := Str(q.optionC),
        "domain" := Str(q.domain)]
  }

  /** The record's optional keys, only those present, added one by one
      from the last. */
  function OptionalObject(q: CsvQuestion): Object {
    var o1 := WithText(map[], "explanation", q.explanation);
    var o2 := WithId(o1, "maxSelections", q.maxSelections);
    var o3 := WithId(o2, "minSelections", q.minSelections);
    var o4 := WithText(o3, "correctAnswers", q.correctAnswers);
    var o5 := WithText(o4, "correctAnswer", q.correctAnswer);
    WithText(o5, "optionD", q.optionD)
  }

  function WithText(obj: Object, key: string, v: Option<string>): (r: Object)
    ensures forall k :: k != key ==> (k in r <==> k in obj)
    ensures forall k :: k != key && k in obj ==> r[k] == obj[k]
    ensures key in r <==> v.Some? || key in obj
  {
    if v.Some? then obj[key := Str(v.value)] else obj
  }

  function WithId(obj: Object, key: string, v: Option<TextOrNumber>): (r: Object)
    ensures forall k :: k != key ==> (k in r <==> k in obj)
    ensures forall k :: k != key && k in obj ==> r[k] == obj[k]
    ensures key in r <==> v.Some? || key in obj
  {
    if v.Some? then obj[key := IdValue(v.value)] else obj
  }

  /** The object a record is written as: optional keys only when present. */
  function CsvObject(q: CsvQuestion): Object {
    OptionalObject(q) + RequiredObject(q)
  }

  /** The optional identifier keys sit in the optional part as written. */
  lemma OptionalIdKey(q: CsvQuestion, k: string, v: Option<TextOrNumber>)
    requires (k == "minSelections" && v == q.minSelections) || (k == "maxSelections" && v == q.maxSelections)
    ensures k in OptionalObject(q) <==> v.Some?
    ensures v.Some? ==> k in OptionalObject(q) && OptionalObject(q)[k] == IdValue(v.value)
  {
    var o1 := WithText(map[], "explanation", q.explanation);
    var o2 := WithId(o1, "maxSelections", q.maxSelections);
    var o3 := WithId(o2, "minSelections", q.minSelections);
    var o4 := WithText(o3, "correctAnswers", q.correctAnswers);
    var o5 := WithText(o4, "correctAnswer", q.correctAnswer);
    assert k != "optionD" && k != "correctAnswer" && k != "correctAnswers";
    assert OptionalObject(q) == WithText(o5, "optionD", q.optionD);
    assert k in o3 <==> v.Some?;
    if v.Some? {
      assert o3[k] == IdValue(v.value);
    }
  }

  lemma OptionalKeys(q: CsvQuestion)
    ensures OptionalObject(q).Keys <= {"optionD", "correctAnswer", "correctAnswers", "minSelections", "maxSelections", "explanation"}
  {
  }

  lemma RequiredLookup(q: CsvQuestion, k: string)
    requires k in RequiredObject(q)
    ensures k in CsvObject(q) && CsvObject(q)[k] == RequiredObject(q)[k]
  {
  }

  lemma OptionalLookup(q: CsvQuestion, k: string)
    requires k !in RequiredObject(q)
    ensures k in CsvObject(q) <==> k in OptionalObject(q)
    ensures k in CsvObject(q) ==> CsvObject(q)[k] == OptionalObject(q)[k]
  {
  }

  /** The keys of the written object that come before the optional ones. */
  lemma CsvObjectRequired(q: CsvQuestion)
    ensures var obj := CsvObject(q);
            && RequiredId(obj, "id") == Good(q.id)
            && TypeField(obj) == Good(q.qtype)
            && RequiredText(obj, "question") == Good(q.question)
            && RequiredText(obj, "optionA") == Good(q.optionA)
            && RequiredText(obj, "optionB") == Good(q.optionB)
            && RequiredText(obj, "optionC") == Good(q.optionC)
            && DefaultText(obj, "domain", "General") == Good(q.domain)
  {
    RequiredIdKey(q);
    RequiredTypeKey(q);
    RequiredTextKey(q, "question", q.question);
    RequiredTextKey(q, "optionA", q.optionA);
    RequiredTextKey(q, "optionB", q.optionB);
    RequiredTextKey(q, "optionC", q.optionC);
    RequiredTextKey(q, "domain", q.domain);
  }

  lemma IdValueRead(v: TextOrNumber)
    ensures AsTextOrNumber(IdValue(v)) == Some(v)
  {
  }

  lemma RequiredIdKey(q: CsvQuestion)
    ensures RequiredId(CsvObject(q), "id") == Good(q.id)
  {
    var r := RequiredObject(q);
    assert "id" in r && r["id"] == IdValue(q.id);
    RequiredLookup(q, "id");
    IdValueRead(q.id);
  }

  lemma RequiredTypeKey(q: CsvQuestion)
    ensures TypeField(CsvObject(q)) == Good(q.qtype)
  {
    var r := RequiredObject(q);
    assert "type" in r && r["type"] == Str(if q.qtype == SingleType then "single" else "multiple");
    RequiredLookup(q, "type");
  }

  lemma RequiredTextKey(q: CsvQuestion, k: string, v: string)
    requires k in RequiredObject(q) && RequiredObject(q)[k] == Str(v)
    ensures RequiredText(CsvObject(q), k) == Good(v)
    ensures DefaultText(CsvObject(q), k, "General") == Good(v)
  {
    RequiredLookup(q, k);
  }

  lemma CsvObjectOptional(q: CsvQuestion)
    ensures var obj := CsvObject(q);
            && OptionalText(obj, "optionD") == Good(q.optionD)
            && OptionalText(obj, "correctAnswer") == Good(q.correctAnswer)
            && OptionalText(obj, "correctAnswers") == Good(q.correctAnswers)
            && OptionalId(obj, "minSelections") == Good(q.minSelections)
            && OptionalId(obj, "maxSelections") == Good(q.maxSelections)
            && OptionalText(obj, "explanation") == Good(q.explanation)
  {
    OptionalOptionD(q);
    OptionalCorrectAnswer(q);
    OptionalCorrectAnswers(q);
    OptionalMinSelections(q);
    OptionalMaxSelections(q);
    OptionalExplanation(q);
  }

  lemma OptionalOptionD(q: CsvQuestion)
    ensures OptionalText(CsvObject(q), "optionD") == Good(q.optionD)
  {
    assert "optionD" !in RequiredObject(q);
    OptionalLookup(q, "optionD");
  }

  lemma OptionalCorrectAnswer(q: CsvQuestion)
    ensures OptionalText(CsvObject(q), "correctAnswer") == Good(q.correctAnswer)
  {
    assert "correctAnswer" !in RequiredObject(q);
    OptionalLookup(q, "correctAnswer");
  }

  lemma OptionalCorrectAnswers(q: CsvQuestion)
    ensures OptionalText(CsvObject(q), "correctAnswers") == Good(q.correctAnswers)
  {
    assert "correctAnswers" !in RequiredObject(q);
    OptionalLookup(q, "correctAnswers");
  }

  lemma OptionalMinSelections(q: CsvQuestion)
    ensures OptionalId(CsvObject(q), "minSelections") == Good(q.minSelections)
  {
    assert "minSelections" !in RequiredObject(q);
    OptionalLookup(q, "minSelections");
    OptionalIdKey(q, "minSelections", q.minSelections);
  }

  lemma OptionalMaxSelections(q: CsvQuestion)
    ensures OptionalId(CsvObject(q), "maxSelections") == Good(q.maxSelections)
  {
    assert "maxSelections" !in RequiredObject(q);
    OptionalLookup(q, "maxSelections");
    OptionalIdKey(q, "maxSelections", q.maxSelections);
  }

  lemma OptionalExplanation(q: CsvQuestion)
    ensures OptionalText(CsvObject(q), "explanation") == Good(q.explanation)
  {
    assert "explanation" !in RequiredObject(q);
    OptionalLookup(q, "explanation");
  }

  /** Writing a record as an object and parsing it gives it back. */
  lemma CsvQuestionRoundTrip(q: CsvQuestion)
    ensures ParseCsvQuestion(CsvObject(q)) == Ok(q)
  {
    CsvObjectRequired(q);
    CsvObjectOptional(q);
  }

  /** The defaults: without a `type` key the record is single-answer, and
      without a `domain` key its domain is "General". */
  lemma CsvDefaults(obj: Object)
    requires ParseCsvQuestion(obj).Ok?
    ensures "type" !in obj ==> ParseCsvQuestion(obj).value.qtype == SingleType
    ensures "domain" !in obj ==> ParseCsvQuestion(obj).value.domain == "General"
  {
  }

  /** A record lacking any required key, or holding a type word other than
      the two, fails with that key among the paths; an absent optional key
      never fails. */
  lemma CsvRequiredKeys(obj: Object)
    ensures (forall k :: k in ["id", "question", "optionA", "optionB", "optionC"] && k !in obj ==>
               ParseCsvQuestion(obj).Issues? && k in ParseCsvQuestion(obj).paths)
    ensures "type" in obj && obj["type"] != Str("single") && obj["type"] != Str("multiple") ==>
              ParseCsvQuestion(obj).Issues? && "type" in ParseCsvQuestion(obj).paths
  {
  }
}
