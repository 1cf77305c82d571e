/** String helpers with JavaScript's meaning: `trim`, ASCII case mapping,
    `endsWith`, `includes` and decimal rendering of a count. */
module Text {

  /** The characters JavaScript's `trim` and the regular-expression class `\s`
      treat as white space (WhiteSpace and LineTerminator of ECMAScript). */
  predicate IsSpace(c: char) {
    c == ' ' || c == '\t' || c == '\n' || c == '\r' || c == '\U{B}' || c == '\U{C}'
    || c == '\U{A0}' || c == '\U{1680}' || ('\U{2000}' <= c <= '\U{200A}')
    || c == '\U{2028}' || c == '\U{2029}' || c == '\U{202F}' || c == '\U{205F}'
    || c == '\U{3000}' || c == '\U{FEFF}'
  }

  function TrimStart(s: string): string {
    if s == [] || !IsSpace(s[0]) then s else TrimStart(s[1..])
  }

  function TrimEnd(s: string): string {
    if s == [] || !IsSpace(s[|s| - 1]) then s else TrimEnd(s[..|s| - 1])
  }

  /** JavaScript's `String.prototype.trim`. Its facts are stated by the
      lemmas below rather than as postconditions, so that a proof mentioning
      many trimmed strings does not have to carry them all. */
  function Trim(s: string): string {
    TrimEnd(TrimStart(s))
  }

  /** `TrimStart` drops exactly the white space in front. */
  lemma {:induction false} TrimStartFacts(s: string)
    ensures |TrimStart(s)| <= |s| && TrimStart(s) == s[|s| - |TrimStart(s)|..]
    ensures TrimStart(s) == [] || !IsSpace(TrimStart(s)[0])
    ensures forall i :: 0 <= i < |s| - |TrimStart(s)| ==> IsSpace(s[i])
  {
    if s != [] && IsSpace(s[0]) {
      var r := s[1..];
      TrimStartFacts(r);
      var t := TrimStart(r);
      assert TrimStart(s) == t;
      assert r[|r| - |t|..] == s[|s| - |t|..];
      forall i | 0 <= i < |s| - |t|
        ensures IsSpace(s[i])
      {
        if i > 0 {
          assert s[i] == r[i - 1];
        }
      }
    }
  }

  /** `TrimEnd` drops exactly the white space at the back. */
  lemma {:induction false} TrimEndFacts(s: string)
    ensures |TrimEnd(s)| <= |s| && TrimEnd(s) == s[..|TrimEnd(s)|]
    ensures TrimEnd(s) == [] || !IsSpace(TrimEnd(s)[|TrimEnd(s)| - 1])
    ensures forall i :: |TrimEnd(s)| <= i < |s| ==> IsSpace(s[i])
  {
    if s != [] && IsSpace(s[|s| - 1]) {
      var r := s[..|s| - 1];
      TrimEndFacts(r);
      var t := TrimEnd(r);
      assert TrimEnd(s) == t;
      assert r[..|t|] == s[..|t|];
      forall i | |t| <= i < |s|
        ensures IsSpace(s[i])
      {
        if i < |s| - 1 {
          assert s[i] == r[i];
        }
      }
    }
  }

  /** The trim is a window of `s`. */
  lemma TrimWindow(s: string)
    ensures exists a, b :: 0 <= a <= b <= |s| && Trim(s) == s[a..b]
  {
    var t := TrimStart(s);
    TrimStartFacts(s);
    TrimEndFacts(t);
    var a := |s| - |t|;
    assert Trim(s) == s[a..a + |TrimEnd(t)|];
  }

  /** The trim neither starts nor ends with white space. */
  lemma TrimEnds(s: string)
    ensures Trim(s) == [] || (!IsSpace(Trim(s)[0]) && !IsSpace(Trim(s)[|Trim(s)| - 1]))
  {
    var t := TrimStart(s);
    TrimStartFacts(s);
    TrimEndFacts(t);
    if Trim(s) != [] {
      assert Trim(s)[0] == t[0];
    }
  }

  /** A string without white space at either end is its own trim. */
  lemma TrimIdempotent(s: string)
    ensures Trim(Trim(s)) == Trim(s)
  {
    TrimEnds(s);
    var t := Trim(s);
    if t != [] {
      assert TrimStart(t) == t;
      assert TrimEnd(t) == t;
    }
  }

  /** A string that neither starts nor ends with white space is its own
      trim. */
  lemma TrimNoSpaceEnds(s: string)
    requires s != [] && !IsSpace(s[0]) && !IsSpace(s[|s| - 1])
    ensures Trim(s) == s
  {
    assert TrimStart(s) == s;
  }

  /** Trimming keeps only characters of `s`. */
  lemma TrimKeeps(s: string, c: char)
    ensures c !in s ==> c !in Trim(s)
  {
    TrimWindow(s);
  }

  function UpperChar(c: char): char {
    if 'a' <= c <= 'z' then (c as int - 32) as char else c
  }

  function LowerChar(c: char): char {
    if 'A' <= c <= 'Z' then (c as int + 32) as char else c
  }

  /** `toUpperCase`, restricted to the ASCII letters. */
  function ToUpper(s: string): (r: string)
    ensures |r| == |s|
    ensures forall i :: 0 <= i < |s| ==> r[i] == UpperChar(s[i])
  {
    seq(|s|, i requires 0 <= i < |s| => UpperChar(s[i]))
  }

  /** `toLowerCase`, restricted to the ASCII letters. */
  function ToLower(s: string): (r: string)
    ensures |r| == |s|
    ensures forall i :: 0 <= i < |s| ==> r[i] == LowerChar(s[i])
  {
    seq(|s|, i requires 0 <= i < |s| => LowerChar(s[i]))
  }

  predicate EndsWith(s: string, suffix: string) {
    |suffix| <= |s| && s[|s| - |suffix|..] == suffix
  }

  /** `word` is spelled by the window of `text` starting at `i`. */
  predicate OccursAt(text: string, word: string, i: int) {
    0 <= i && i + |word| <= |text| && text[i..i + |word|] == word
  }

  /** `text.includes(word)`, scanning the windows from `from` onwards. */
  function IncludesFrom(text: string, word: string, from: nat): (b: bool)
    ensures b <==> exists i :: from <= i && OccursAt(text, word, i)
    decreases |text| - from
  {
    if from + |word| > |text| then false
    else if text[from..from + |word|] == word then assert OccursAt(text, word, from); true
    else IncludesFrom(text, word, from + 1)
  }

  /** `text.includes(word)`: some window of `text` spells `word`. */
  function Includes(text: string, word: string): (b: bool)
    ensures b <==> exists i :: OccursAt(text, word, i)
  {
    IncludesFrom(text, word, 0)
  }

  function DigitChar(d: nat): char
    requires d < 10
  {
    ('0' as int + d) as char
  }

  /** Decimal rendering of a count, as a template literal prints it. */
  function NatToString(n: nat): (r: string)
    ensures |r| >= 1
    ensures forall i :: 0 <= i < |r| ==> '0' <= r[i] <= '9'
  {
    if n < 10 then [DigitChar(n)] else NatToString(n / 10) + [DigitChar(n % 10)]
  }
}
