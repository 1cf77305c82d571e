/** Turning parsed CSV rows into exam questions (server/csv-parser.ts):
    answer letters, `parseInt` of the selection limits, the defaults for
    missing cells, and the skip rules of `csvToExam`. */
module CsvImport {
  import opened Optional
  import opened Text
  import opened Schema

  /** A parsed row: lower-cased header to cell text. */
  type Row = map<string, string>

  /** `row.key`. A header the file lacks reads as `undefined`; every use below
      tests it for truth or passes it through `||`, where it behaves like the
      empty string. */
  function Field(row: Row, key: string): string {
    if key in row then row[key] else ""
  }

  /** JavaScript's `s || fallback` on strings: only the empty string is false. */
  function Or(s: string, fallback: string): string {
    if s == "" then fallback else s
  }

  /** `toBilingual`: the Arabic side defaults to the English text marked
      "[AR] ". */
  function ToBilingual(text: string, ar: string): (t: Schema.Text)
    ensures t.Bilingual? && t.en == text
    ensures ar != "" ==> t.ar == ar
    ensures ar == "" ==> t.ar == "[AR] " + text
  {
    Bilingual(text, Or(ar, "[AR] " + text))
  }

  // ---- Answer letters ----

  /** The letter of option `i`. */
  function Letter(i: int): char
    requires OptionIndex(i)
  {
    ('A' as int + i) as char
  }

  /** `parseCorrectAnswer`: the letter A-D, in either case and with white
      space around it, as an option index; anything else is null. */
  function ParseCorrectAnswer(answer: string): (r: Option<int>)
    ensures r.Some? ==> OptionIndex(r.value)
  {
    if answer == "" then None
    else
      var n := Trim(ToUpper(answer));
      if n == "A" then Some(0)
      else if n == "B" then Some(1)
      else if n == "C" then Some(2)
      else if n == "D" then Some(3)
      else None
  }

  /** The answer cell reads as index `i` exactly when, upper-cased and
      trimmed, it is the letter of `i`. */
  lemma ParseCorrectAnswerIff(answer: string, i: int)
    requires OptionIndex(i)
    ensures ParseCorrectAnswer(answer) == Some(i) <==> Trim(ToUpper(answer)) == [Letter(i)]
  {
  }

  /** Each letter, upper or lower case and padded, reads as its index. */
  lemma LetterRoundTrip(i: int)
    requires OptionIndex(i)
    ensures ParseCorrectAnswer([Letter(i)]) == Some(i)
    ensures ParseCorrectAnswer([' ', LowerChar(Letter(i)), ' ']) == Some(i)
  {
    var padded := [' ', LowerChar(Letter(i)), ' '];
    assert ToUpper([Letter(i)]) == [Letter(i)];
    assert ToUpper(padded) == [' ', Letter(i), ' '];
    assert TrimStart([' ', Letter(i), ' ']) == [Letter(i), ' '];
    assert TrimEnd([Letter(i), ' ']) == [Letter(i)];
  }

  /** The separators of `split(/[\s,;|]+/)`. */
  predicate IsSeparator(c: char) {
    IsSpace(c) || c == ',' || c == ';' || c == '|'
  }

  /** Length of the run of non-separators at the front of `s`. */
  function WordLength(s: string): (k: nat)
    ensures k <= |s|
    ensures forall i :: 0 <= i < k ==> !IsSeparator(s[i])
    ensures k < |s| ==> IsSeparator(s[k])
  {
    if s == [] || IsSeparator(s[0]) then 0 else 1 + WordLength(s[1..])
  }

  /** `s.split(/[\s,;|]+/).filter((x) => x)`: the maximal runs of
      non-separators, in order. */
  function Tokens(s: string): (r: seq<string>)
    ensures forall i :: 0 <= i < |r| ==> r[i] != []
    ensures forall i, j :: 0 <= i < |r| && 0 <= j < |r[i]| ==> !IsSeparator(r[i][j])
    ensures |r| <= |s|
    decreases |s|
  {
    if s == [] then []
    else if IsSeparator(s[0]) then Tokens(s[1..])
    else
      var k := WordLength(s);
      assert forall j :: 0 <= j < k ==> s[..k][j] == s[j];
      [s[..k]] + Tokens(s[k..])
  }

  /** The letter tokens as indices, in order; other tokens are dropped. */
  function Indices(tokens: seq<string>): (r: seq<int>)
    ensures |r| <= |tokens|
    ensures forall i :: 0 <= i < |r| ==> OptionIndex(r[i])
  {
    if tokens == [] then []
    else
      LetterToken(tokens[0]) + Indices(tokens[1..])
  }

  /** The index of a letter token, or nothing for any other token. */
  function LetterToken(t: string): (r: seq<int>)
    ensures |r| <= 1
    ensures forall i :: 0 <= i < |r| ==> OptionIndex(r[i])
  {
    if t == "A" then [0] else if t == "B" then [1]
    else if t == "C" then [2] else if t == "D" then [3] else []
  }

  /** `parseAnswerList`. */
  function ParseAnswerList(answers: string): (r: seq<int>)
    ensures forall i :: 0 <= i < |r| ==> OptionIndex(r[i])
  {
    if answers == "" then [] else Indices(Tokens(Trim(ToUpper(answers))))
  }

  /** The way an answer list is written in a file: letters separated by ", ". */
  function AnswerListText(xs: seq<int>): string
    requires forall i :: 0 <= i < |xs| ==> OptionIndex(xs[i])
  {
    if xs == [] then ""
    else if |xs| == 1 then [Letter(xs[0])]
    else [Letter(xs[0]), ',', ' '] + AnswerListText(xs[1..])
  }

  lemma {:induction false} AnswerListTextShape(xs: seq<int>)
    requires forall i :: 0 <= i < |xs| ==> OptionIndex(xs[i])
    ensures |AnswerListText(xs)| >= 1 <==> xs != []
    ensures xs != [] ==> AnswerListText(xs)[0] == Letter(xs[0])
    ensures xs != [] ==> AnswerListText(xs)[|AnswerListText(xs)| - 1] == Letter(xs[|xs| - 1])
    ensures forall i :: 0 <= i < |AnswerListText(xs)| ==> 'A' <= AnswerListText(xs)[i] <= 'D' || AnswerListText(xs)[i] in ", "
  {
    if |xs| > 1 {
      AnswerListTextShape(xs[1..]);
      var rest := AnswerListText(xs[1..]);
      var s := [Letter(xs[0]), ',', ' '] + rest;
      forall i | 0 <= i < |s|
        ensures 'A' <= s[i] <= 'D' || s[i] in ", "
      {
        if i >= 3 {
          assert s[i] == rest[i - 3];
        }
      }
    }
  }

  lemma TokensSkip(c: char, rest: string)
    requires IsSeparator(c)
    ensures Tokens([c] + rest) == Tokens(rest)
  {
    assert ([c] + rest)[1..] == rest;
  }

  lemma TokensLetter(c: char, rest: string)
    requires !IsSeparator(c)
    requires rest == [] || IsSeparator(rest[0])
    ensures Tokens([c] + rest) == [[c]] + Tokens(rest)
  {
    var s := [c] + rest;
    assert WordLength(s) == 1;
    assert s[..1] == [c] && s[1..] == rest;
  }

  /** A separator ends the word in front of it. */
  lemma {:induction false} WordLengthStopsAt(x: string, c: char, y: string)
    requires IsSeparator(c)
    ensures WordLength(x + [c] + y) == WordLength(x)
    decreases |x|
  {
    var s := x + [c] + y;
    if x == [] {
      assert s[0] == c;
    } else if !IsSeparator(x[0]) {
      assert s[1..] == x[1..] + [c] + y;
      WordLengthStopsAt(x[1..], c, y);
    }
  }

  /** `split` on a separator: the tokens on either side of it, concatenated.
      Together with TokensOfWord this pins Tokens down for every text. */
  lemma {:induction false} TokensAroundSeparator(x: string, c: char, y: string)
    requires IsSeparator(c)
    ensures Tokens(x + [c] + y) == Tokens(x) + Tokens(y)
    decreases |x|
  {
    var s := x + [c] + y;
    if x == [] {
      assert s == [c] + y;
      TokensSkip(c, y);
    } else if IsSeparator(x[0]) {
      assert s[1..] == x[1..] + [c] + y;
      TokensAroundSeparator(x[1..], c, y);
    } else {
      WordLengthStopsAt(x, c, y);
      var k := WordLength(x);
      assert s[..k] == x[..k];
      assert s[k..] == x[k..] + [c] + y;
      TokensAroundSeparator(x[k..], c, y);
    }
  }

  lemma {:induction false} WordLengthOfWord(w: string)
    requires forall i :: 0 <= i < |w| ==> !IsSeparator(w[i])
    ensures WordLength(w) == |w|
  {
    if w != [] {
      WordLengthOfWord(w[1..]);
    }
  }

  /** Text without separators is one token. */
  lemma TokensOfWord(w: string)
    requires w != []
    requires forall i :: 0 <= i < |w| ==> !IsSeparator(w[i])
    ensures Tokens(w) == [w]
  {
    WordLengthOfWord(w);
    assert w[..|w|] == w;
  }

  /** The letter filter works token by token ... */
  lemma {:induction false} IndicesAppend(a: seq<string>, b: seq<string>)
    ensures Indices(a + b) == Indices(a) + Indices(b)
  {
    if a == [] {
      assert a + b == b;
    } else {
      assert (a + b)[0] == a[0] && (a + b)[1..] == a[1..] + b;
      IndicesAppend(a[1..], b);
    }
  }

  /** ... keeping exactly the four letters, each as its index. */
  lemma IndicesOne(t: string)
    ensures Indices([t]) == if t == "A" then [0] else if t == "B" then [1]
                            else if t == "C" then [2] else if t == "D" then [3] else []
  {
    assert [t][1..] == [];
  }

  /** The letters of a text: a separator splits them into the letters before
      it followed by the letters after it, so order and repeats are kept. */
  lemma LettersAroundSeparator(x: string, c: char, y: string)
    requires IsSeparator(c)
    ensures Indices(Tokens(x + [c] + y)) == Indices(Tokens(x)) + Indices(Tokens(y))
  {
    TokensAroundSeparator(x, c, y);
    IndicesAppend(Tokens(x), Tokens(y));
  }

  /** A word between separators contributes its index when it is one of the
      four letters, and nothing otherwise. */
  lemma LettersOfWord(w: string)
    requires w != []
    requires forall i :: 0 <= i < |w| ==> !IsSeparator(w[i])
    ensures Indices(Tokens(w)) == if w == "A" then [0] else if w == "B" then [1]
                                  else if w == "C" then [2] else if w == "D" then [3] else []
  {
    TokensOfWord(w);
    IndicesOne(w);
  }

  lemma {:induction false} TokensOfAnswerList(xs: seq<int>)
    requires forall i :: 0 <= i < |xs| ==> OptionIndex(xs[i])
    ensures Tokens(AnswerListText(xs)) == seq(|xs|, i requires 0 <= i < |xs| => [Letter(xs[i])])
  {
    if |xs| == 1 {
      TokensLetter(Letter(xs[0]), []);
      assert AnswerListText(xs) == [Letter(xs[0])] + [];
    } else if |xs| > 1 {
      var tail := xs[1..];
      assert forall i :: 0 <= i < |tail| ==> OptionIndex(tail[i]);
      var rest := AnswerListText(tail);
      assert AnswerListText(xs) == [Letter(xs[0])] + ([','] + ([' '] + rest));
      TokensLetter(Letter(xs[0]), [','] + ([' '] + rest));
      TokensSkip(',', [' '] + rest);
      TokensSkip(' ', rest);
      TokensOfAnswerList(tail);
      LetterTokensCons(xs);
    }
  }

  lemma LetterTokensCons(xs: seq<int>)
    requires |xs| >= 1
    requires forall i :: 0 <= i < |xs| ==> OptionIndex(xs[i])
    ensures seq(|xs|, i requires 0 <= i < |xs| => [Letter(xs[i])])
            == [[Letter(xs[0])]] + seq(|xs| - 1, i requires 0 <= i < |xs| - 1 => [Letter(xs[1..][i])])
  {
  }

  lemma {:induction false} IndicesOfLetters(xs: seq<int>)
    requires forall i :: 0 <= i < |xs| ==> OptionIndex(xs[i])
    ensures Indices(seq(|xs|, i requires 0 <= i < |xs| => [Letter(xs[i])])) == xs
  {
    if xs != [] {
      var ts := seq(|xs|, i requires 0 <= i < |xs| => [Letter(xs[i])]);
      var tail := xs[1..];
      assert forall i :: 0 <= i < |tail| ==> OptionIndex(tail[i]);
      IndicesOfLetters(tail);
      LetterTokensCons(xs);
      assert ts[1..] == seq(|xs| - 1, i requires 0 <= i < |xs| - 1 => [Letter(tail[i])]);
      IndicesCons(ts);
      LetterIndex(xs[0]);
      assert xs == [xs[0]] + tail;
    }
  }

  lemma IndicesCons(ts: seq<string>)
    requires ts != []
    ensures Indices(ts) == Indices([ts[0]]) + Indices(ts[1..])
  {
    assert [ts[0]][1..] == [];
  }

  lemma LetterIndex(i: int)
    requires OptionIndex(i)
    ensures Indices([[Letter(i)]]) == [i]
  {
    assert [[Letter(i)]][1..] == [];
  }

  lemma UpperStable(s: string)
    requires forall i :: 0 <= i < |s| ==> 'A' <= s[i] <= 'D' || s[i] in ", "
    ensures ToUpper(s) == s
  {
  }

  /** The written form is already upper case and has no white space at
      either end, so reading it normalises nothing away. */
  lemma AnswerListTextNormal(xs: seq<int>)
    requires forall i :: 0 <= i < |xs| ==> OptionIndex(xs[i])
    requires xs != []
    ensures Trim(ToUpper(AnswerListText(xs))) == AnswerListText(xs)
  {
    var s := AnswerListText(xs);
    AnswerListTextShape(xs);
    UpperStable(s);
    LetterNotSpace(xs[0]);
    LetterNotSpace(xs[|xs| - 1]);
    TrimNoSpaceEnds(s);
  }

  lemma LetterNotSpace(i: int)
    requires OptionIndex(i)
    ensures !IsSpace(Letter(i))
  {
  }

  lemma ParseNormalAnswers(s: string)
    requires s != [] && Trim(ToUpper(s)) == s
    ensures ParseAnswerList(s) == Indices(Tokens(s))
  {
  }

  /** An answer list written as letters reads back as the same indices, in
      the same order and with repetitions kept. */
  lemma AnswerListRoundTrip(xs: seq<int>)
    requires forall i :: 0 <= i < |xs| ==> OptionIndex(xs[i])
    ensures ParseAnswerList(AnswerListText(xs)) == xs
  {
    if xs != [] {
      var s := AnswerListText(xs);
      AnswerListTextNormal(xs);
      AnswerListTextShape(xs);
      ParseNormalAnswers(s);
      TokensOfAnswerList(xs);
      IndicesOfLetters(xs);
    }
  }

  // ---- parseInt ----

  predicate IsDecimalDigit(c: char) {
    '0' <= c <= '9'
  }

  predicate IsDigitIn(c: char, radix: nat) {
    if radix == 16 then IsDecimalDigit(c) || 'a' <= c <= 'f' || 'A' <= c <= 'F'
    else IsDecimalDigit(c)
  }

  function DigitValue(c: char): nat {
    if IsDecimalDigit(c) then c as int - '0' as int
    else if 'a' <= c <= 'f' then c as int - 'a' as int + 10
    else if 'A' <= c <= 'F' then c as int - 'A' as int + 10
    else 0
  }

  /** Length of the run of digits at the front of `s`. */
  function DigitRun(s: string, radix: nat): (k: nat)
    ensures k <= |s|
    ensures forall i :: 0 <= i < k ==> IsDigitIn(s[i], radix)
    ensures k < |s| ==> !IsDigitIn(s[k], radix)
  {
    if s == [] || !IsDigitIn(s[0], radix) then 0 else 1 + DigitRun(s[1..], radix)
  }

  /** The number a run of digits spells. */
  function ValueOf(digits: string, radix: nat): nat {
    if digits == [] then 0
    else ValueOf(digits[..|digits| - 1], radix) * radix + DigitValue(digits[|digits| - 1])
  }

  /** The digits at the front of `u` as a number, in base 16 after a `0x` or
      `0X` prefix; nothing when there are none. */
  function Magnitude(u: string): (v: Option<nat>)
    ensures v.None? <==> DigitRun(if HasHexPrefix(u) then u[2..] else u, if HasHexPrefix(u) then 16 else 10) == 0
  {
    var radix := if HasHexPrefix(u) then 16 else 10;
    var digits := if HasHexPrefix(u) then u[2..] else u;
    var k := DigitRun(digits, radix);
    if k == 0 then None else Some(ValueOf(digits[..k], radix))
  }

  predicate HasHexPrefix(u: string) {
    |u| >= 2 && u[0] == '0' && (u[1] == 'x' || u[1] == 'X')
  }

  /** `parseInt(s)` without a radix: leading white space is skipped, then an
      optional sign; the magnitude that follows is the value, and NaN when
      there is no digit. */
  function ParseInt(s: string): (l: Limit)
    ensures !l.NoLimit?
  {
    var t := TrimStart(s);
    var negative := t != [] && t[0] == '-';
    var u := if t != [] && (t[0] == '-' || t[0] == '+') then t[1..] else t;
    match Magnitude(u)
    case None => NaNLimit
    case Some(v) => Limit(if negative then -(v as int) else v as int)
  }

  lemma {:induction false} ValueOfNumeral(n: nat)
    ensures ValueOf(NatToString(n), 10) == n
  {
    if n >= 10 {
      var p := NatToString(n / 10);
      ValueOfNumeral(n / 10);
      assert NatToString(n)[..|NatToString(n)| - 1] == p;
    }
  }

  lemma {:induction false} DigitRunOf(d: string, rest: string, radix: nat)
    requires forall i :: 0 <= i < |d| ==> IsDigitIn(d[i], radix)
    requires rest == [] || !IsDigitIn(rest[0], radix)
    ensures DigitRun(d + rest, radix) == |d|
  {
    if d != [] {
      assert (d + rest)[1..] == d[1..] + rest;
      DigitRunOf(d[1..], rest, radix);
    }
  }

  lemma MagnitudeOfNumeral(n: nat, rest: string)
    requires rest == [] || (!IsDecimalDigit(rest[0]) && rest[0] != 'x' && rest[0] != 'X')
    ensures Magnitude(NatToString(n) + rest) == Some(n)
  {
    var d := NatToString(n);
    var s := d + rest;
    assert !HasHexPrefix(s) by {
      if |d| >= 2 {
        assert s[1] == d[1];
      } else if rest != [] {
        assert s[1] == rest[0];
      }
    }
    assert forall i :: 0 <= i < |d| ==> IsDigitIn(d[i], 10);
    DigitRunOf(d, rest, 10);
    DecimalMagnitude(s, |d|);
    assert s[..|d|] == d;
    ValueOfNumeral(n);
  }

  /** Without a hex prefix the magnitude is the decimal value of the digit
      run. */
  lemma DecimalMagnitude(s: string, k: nat)
    requires !HasHexPrefix(s) && DigitRun(s, 10) == k && k > 0
    ensures Magnitude(s) == Some(ValueOf(s[..k], 10))
  {
  }

  /** Text that starts with a digit is read without sign, and with a minus
      sign in front as the negated magnitude. */
  lemma ParseIntOfDigits(s: string, v: nat)
    requires s != [] && IsDecimalDigit(s[0]) && Magnitude(s) == Some(v)
    ensures ParseInt(s) == Limit(v)
    ensures ParseInt("-" + s) == Limit(-(v as int))
  {
    assert TrimStart(s) == s;
    var m := "-" + s;
    assert TrimStart(m) == m;
    assert m[1..] == s;
  }

  /** A numeral followed by text that is neither a digit nor an `x` reads as
      its number; so does the numeral with a minus sign in front. */
  lemma ParseIntNumeral(n: nat, rest: string)
    requires rest == [] || (!IsDecimalDigit(rest[0]) && rest[0] != 'x' && rest[0] != 'X')
    ensures ParseInt(NatToString(n) + rest) == Limit(n)
    ensures ParseInt("-" + NatToString(n)) == Limit(-(n as int))
  {
    var d := NatToString(n);
    MagnitudeOfNumeral(n, rest);
    MagnitudeOfNumeral(n, []);
    assert d + [] == d;
    assert (d + rest)[0] == d[0];
    ParseIntOfDigits(d + rest, n);
    ParseIntOfDigits(d, n);
  }

  // ---- Questions ----

  /** `(row.type || "single").toLowerCase()`: only "single" selects the
      single-answer branch; every other text selects the multiple one. */
  function TypeOf(row: Row): string {
    ToLower(Or(Field(row, "type"), "single"))
  }

  /** A text cell: the `_en`/`_ar` pair when the English cell is filled,
      otherwise the plain cell or the fallback, with the default Arabic
      side. */
  function LocalText(row: Row, key: string, fallback: string): Schema.Text {
    if Field(row, key + "_en") != "" then ToBilingual(Field(row, key + "_en"), Field(row, key + "_ar"))
    else ToBilingual(Or(Field(row, key), fallback), "")
  }

  /** The four option cells with their "Option A".."Option D" fallbacks. */
  function Options(row: Row): (r: seq<Schema.Text>)
    ensures |r| == 4
  {
    [LocalText(row, "optiona", "Option A"), LocalText(row, "optionb", "Option B"),
     LocalText(row, "optionc", "Option C"), LocalText(row, "optiond", "Option D")]
  }

  /** `csvToQuestion`. A single question whose answer letter does not parse
      falls back to option A; a multiple question needs two parsed answers,
      and its limits default to 2 and 4 before `parseInt`. */
  function CsvToQuestion(row: Row, questionId: int): (r: Option<Question>)
    ensures r.Some? ==> r.value.id == questionId
  {
    var question := LocalText(row, "question", "");
    var options := Options(row);
    var explanation := LocalText(row, "explanation", "See explanation");
    var domain := LocalText(row, "domain", "General");
    if TypeOf(row) == "single" then
      Some(SingleQuestion(questionId, question, options,
                          ParseCorrectAnswer(Field(row, "correctanswer")).GetOr(0),
                          explanation, domain))
    else
      var correctAnswers := ParseAnswerList(Field(row, "correctanswers"));
      if |correctAnswers| < 2 then None
      else
        Some(MultipleQuestion(questionId, question, options, correctAnswers,
                              ParseInt(Or(Field(row, "minselections"), "2")),
                              ParseInt(Or(Field(row, "maxselections"), "4")),
                              explanation, domain))
  }

  /** What `csvToQuestion` promises: the null case exactly when a multiple
      row has fewer than two answer letters; four options; the variant
      chosen by the type cell; a well-formed single question whatever its
      answer cell holds; and a multiple question that is well formed exactly
      when its parsed limits are. Every text is an `{en, ar}` pair, so the
      string-typed question schema would reject each converted question. */
  lemma CsvToQuestionFacts(row: Row, questionId: int)
    ensures var r := CsvToQuestion(row, questionId);
            && (r.None? <==> TypeOf(row) != "single" && |ParseAnswerList(Field(row, "correctanswers"))| < 2)
            && (r.Some? ==> |r.value.options| == 4 && (r.value.SingleQuestion? <==> TypeOf(row) == "single"))
            && (r.Some? && r.value.SingleQuestion? ==>
                  WellFormed(r.value)
                  && r.value.correctAnswer == ParseCorrectAnswer(Field(row, "correctanswer")).GetOr(0))
            && (r.Some? && r.value.MultipleQuestion? ==>
                  && r.value.correctAnswers == ParseAnswerList(Field(row, "correctanswers"))
                  && (WellFormed(r.value) <==> ValidMin(r.value.minSelections) && ValidMax(r.value.maxSelections)))
            && (r.Some? ==> !ValidQuestion(r.value))
            && (r.Some? ==> r.value.question == LocalText(row, "question", "")
                            && r.value.domain == LocalText(row, "domain", "General")
                            && r.value.explanation == LocalText(row, "explanation", "See explanation"))
  {
  }

  /** `!row.question && !row.question_en`: rows without question text are
      skipped before conversion. */
  predicate HasQuestionText(row: Row) {
    Field(row, "question") != "" || Field(row, "question_en") != ""
  }

  /** Each row's conversion: nothing for a row without question text,
      otherwise `csvToQuestion` with the 1-based row position as id. */
  function Conversions(rows: seq<Row>): (cs: seq<Option<Question>>)
    ensures |cs| == |rows|
    ensures forall i :: 0 <= i < |cs| ==> cs[i].Some? ==> cs[i].value.id == i + 1
  {
    seq(|rows|, i requires 0 <= i < |rows| =>
      if HasQuestionText(rows[i]) then CsvToQuestion(rows[i], i + 1) else None)
  }

  /** The questions among the first `n` conversions, in row order. */
  function Kept(cs: seq<Option<Question>>, n: nat): (qs: seq<Question>)
    requires n <= |cs|
    requires forall i :: 0 <= i < |cs| ==> cs[i].Some? ==> cs[i].value.id == i + 1
    ensures |qs| <= n
    ensures forall k :: 0 <= k < |qs| ==> 1 <= qs[k].id <= n && cs[qs[k].id - 1] == Some(qs[k])
    ensures forall k, l :: 0 <= k < l < |qs| ==> qs[k].id < qs[l].id
  {
    if n == 0 then []
    else
      var before := Kept(cs, n - 1);
      if cs[n - 1].Some? then
        var qs := before + [cs[n - 1].value];
        assert qs[|before|].id == n;
        qs
      else before
  }

  /** Keeping more rows only appends. */
  lemma {:induction false} KeptPrefix(cs: seq<Option<Question>>, m: nat, n: nat)
    requires m <= n <= |cs|
    requires forall i :: 0 <= i < |cs| ==> cs[i].Some? ==> cs[i].value.id == i + 1
    ensures |Kept(cs, m)| <= |Kept(cs, n)| && Kept(cs, n)[..|Kept(cs, m)|] == Kept(cs, m)
    decreases n
  {
    if m < n {
      KeptPrefix(cs, m, n - 1);
      var a := Kept(cs, m);
      var b := Kept(cs, n - 1);
      if cs[n - 1].Some? {
        assert Kept(cs, n) == b + [cs[n - 1].value];
        assert (b + [cs[n - 1].value])[..|a|] == b[..|a|];
      }
    }
  }

  /** A conversion that succeeded sits right after the ones kept before it. */
  lemma KeptAt(cs: seq<Option<Question>>, i: nat, n: nat)
    requires i < n <= |cs| && cs[i].Some?
    requires forall j :: 0 <= j < |cs| ==> cs[j].Some? ==> cs[j].value.id == j + 1
    ensures |Kept(cs, i)| < |Kept(cs, n)| && Kept(cs, n)[|Kept(cs, i)|] == cs[i].value
  {
    KeptPrefix(cs, i + 1, n);
    assert Kept(cs, i + 1) == Kept(cs, i) + [cs[i].value];
    assert Kept(cs, i + 1)[|Kept(cs, i)|] == cs[i].value;
  }

  /** When every conversion succeeds, all of them are kept and the ids are
      exactly 1..n. */
  lemma {:induction false} KeptAll(cs: seq<Option<Question>>, n: nat)
    requires n <= |cs|
    requires forall i :: 0 <= i < |cs| ==> cs[i].Some? ==> cs[i].value.id == i + 1
    requires forall i :: 0 <= i < n ==> cs[i].Some?
    ensures |Kept(cs, n)| == n
    ensures forall k :: 0 <= k < n ==> Kept(cs, n)[k].id == k + 1
  {
    if n > 0 {
      KeptAll(cs, n - 1);
    }
  }

  /** `csvToExam`: 230 minutes, the title and description with default
      Arabic sides, and "Exam with N questions" when no description is
      given. The questions are the successful conversions, in row order,
      identified by their row positions. */
  function CsvToExam(rows: seq<Row>, examId: string, title: string, description: string): (e: Exam)
    ensures e.id == examId && e.duration == 230
    ensures e.title == ToBilingual(title, "")
    ensures description != "" ==> e.description == ToBilingual(description, "")
    ensures description == "" ==>
              e.description == ToBilingual("Exam with " + NatToString(|e.questions|) + " questions", "")
  {
    var questions := Kept(Conversions(rows), |rows|);
    Exam(examId, ToBilingual(title, ""),
         ToBilingual(Or(description, "Exam with " + NatToString(|questions|) + " questions"), ""),
         230, questions)
  }

  /** Each question of an imported exam is the conversion of the row its id
      names, and that row has question text. */
  lemma ImportedQuestionFromRow(rows: seq<Row>, examId: string, title: string, description: string, k: nat)
    requires k < |CsvToExam(rows, examId, title, description).questions|
    ensures var q := CsvToExam(rows, examId, title, description).questions[k];
            && 1 <= q.id <= |rows| && HasQuestionText(rows[q.id - 1])
            && CsvToQuestion(rows[q.id - 1], q.id) == Some(q)
  {
    var cs := Conversions(rows);
    var q := Kept(cs, |rows|)[k];
    assert cs[q.id - 1] == Some(q);
  }

  /** Ids rise strictly with the position in the exam; they skip the rows
      that were dropped. */
  lemma ImportedIdsRise(rows: seq<Row>, examId: string, title: string, description: string, k: nat, l: nat)
    requires k < l < |CsvToExam(rows, examId, title, description).questions|
    ensures CsvToExam(rows, examId, title, description).questions[k].id
            < CsvToExam(rows, examId, title, description).questions[l].id
  {
  }

  /** A row with question text that converts is imported. */
  lemma ConvertedRowImported(rows: seq<Row>, examId: string, title: string, description: string, i: nat)
    requires i < |rows| && HasQuestionText(rows[i]) && CsvToQuestion(rows[i], i + 1).Some?
    ensures CsvToQuestion(rows[i], i + 1).value in CsvToExam(rows, examId, title, description).questions
  {
    var cs := Conversions(rows);
    assert cs[i] == CsvToQuestion(rows[i], i + 1);
    KeptAt(cs, i, |rows|);
    var qs := CsvToExam(rows, examId, title, description).questions;
    assert qs[|Kept(cs, i)|] == cs[i].value;
  }

  /** When every row carries question text and is a single-answer row, no
      row is lost and the ids are exactly 1..n. */
  lemma AllSingleRowsKept(rows: seq<Row>, examId: string, title: string, description: string)
    requires forall i :: 0 <= i < |rows| ==> HasQuestionText(rows[i]) && TypeOf(rows[i]) == "single"
    ensures |CsvToExam(rows, examId, title, description).questions| == |rows|
    ensures forall k :: 0 <= k < |rows| ==> CsvToExam(rows, examId, title, description).questions[k].id == k + 1
  {
    var cs := Conversions(rows);
    forall i | 0 <= i < |rows|
      ensures cs[i].Some?
    {
      CsvToQuestionFacts(rows[i], i + 1);
    }
    KeptAll(cs, |rows|);
  }

  /** Every imported question has four options, and its answer indices are
      options of it. */
  lemma ImportedQuestionShape(rows: seq<Row>, examId: string, title: string, description: string, k: nat)
    requires k < |CsvToExam(rows, examId, title, description).questions|
    ensures var q := CsvToExam(rows, examId, title, description).questions[k];
            && |q.options| == 4
            && (q.SingleQuestion? ==> OptionIndex(q.correctAnswer))
            && (q.MultipleQuestion? ==> |q.correctAnswers| >= 2 && forall j :: 0 <= j < |q.correctAnswers| ==> OptionIndex(q.correctAnswers[j]))
  {
    ImportedQuestionFromRow(rows, examId, title, description, k);
    var q := CsvToExam(rows, examId, title, description).questions[k];
    CsvToQuestionFacts(rows[q.id - 1], q.id);
  }
}
