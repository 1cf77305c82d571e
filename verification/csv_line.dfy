/** The text-level reading of an uploaded CSV file in server/csv-parser.ts:
    splitting the text into lines on `\r?\n`, and one line into fields with
    double quotes protecting commas. */
module CsvLine {
  import opened Text

  // ---- Lines ----

  /** Position of the first `c` in `s`, or `|s|` when there is none. */
  function FirstOf(s: string, c: char): (k: nat)
    ensures k <= |s|
    ensures k < |s| ==> s[k] == c
    ensures forall i :: 0 <= i < k ==> s[i] != c
  {
    if s == [] || s[0] == c then 0 else 1 + FirstOf(s[1..], c)
  }

  /** `s.split(sep)` for a one-character separator: the pieces between the
      separators, so one more piece than there are separators. */
  function Split(s: string, sep: char): (r: seq<string>)
    ensures |r| >= 1
    ensures forall i :: 0 <= i < |r| ==> sep !in r[i]
    decreases |s|
  {
    var k := FirstOf(s, sep);
    assert sep !in s[..k];
    if k == |s| then [s] else [s[..k]] + Split(s[k + 1..], sep)
  }

  /** `parts.join(sep)` for a one-character separator. */
  function Join(parts: seq<string>, sep: char): string
    requires |parts| >= 1
  {
    if |parts| == 1 then parts[0] else parts[0] + [sep] + Join(parts[1..], sep)
  }

  lemma JoinCons(x: string, ps: seq<string>, sep: char)
    requires |ps| >= 1
    ensures Join([x] + ps, sep) == x + [sep] + Join(ps, sep)
  {
    assert ([x] + ps)[1..] == ps;
  }

  /** Joining the pieces again gives the text back. */
  lemma {:induction false} SplitJoin(s: string, sep: char)
    ensures Join(Split(s, sep), sep) == s
    decreases |s|
  {
    var k := FirstOf(s, sep);
    SplitStep(s, sep);
    if k < |s| {
      var rest := s[k + 1..];
      SplitJoin(rest, sep);
      JoinCons(s[..k], Split(rest, sep), sep);
      assert s == s[..k] + [sep] + rest by {
        assert s[k] == sep;
      }
    }
  }

  /** One step of `Split`: the piece before the first separator, then the
      pieces of the rest. */
  lemma SplitStep(s: string, sep: char)
    ensures FirstOf(s, sep) == |s| ==> Split(s, sep) == [s]
    ensures FirstOf(s, sep) < |s| ==>
              Split(s, sep) == [s[..FirstOf(s, sep)]] + Split(s[FirstOf(s, sep) + 1..], sep)
  {
  }

  lemma FirstOfPrefix(p: string, rest: string, sep: char)
    requires sep !in p
    ensures FirstOf(p + [sep] + rest, sep) == |p|
  {
    var s := p + [sep] + rest;
    assert s[|p|] == sep;
    assert forall i :: 0 <= i < |p| ==> s[i] == p[i];
  }

  /** Splitting a join of separator-free pieces gives the pieces back. */
  lemma {:induction false} JoinSplit(parts: seq<string>, sep: char)
    requires |parts| >= 1
    requires forall i :: 0 <= i < |parts| ==> sep !in parts[i]
    ensures Split(Join(parts, sep), sep) == parts
  {
    if |parts| == 1 {
      assert FirstOf(parts[0], sep) == |parts[0]|;
    } else {
      var tail := parts[1..];
      assert forall i :: 0 <= i < |tail| ==> tail[i] == parts[i + 1];
      JoinSplit(tail, sep);
      SplitAfterPiece(parts[0], Join(tail, sep), sep);
      assert parts == [parts[0]] + tail;
    }
  }

  /** A separator-free piece, a separator and a rest split into the piece
      followed by the pieces of the rest. */
  lemma SplitAfterPiece(p: string, rest: string, sep: char)
    requires sep !in p
    ensures Split(p + [sep] + rest, sep) == [p] + Split(rest, sep)
  {
    var s := p + [sep] + rest;
    FirstOfPrefix(p, rest, sep);
    SplitStep(s, sep);
    PiecesAround(p, rest, sep);
  }

  lemma PiecesAround(p: string, rest: string, sep: char)
    ensures (p + [sep] + rest)[..|p|] == p && (p + [sep] + rest)[|p| + 1..] == rest
  {
  }

  /** A piece followed by `\r\n` loses its `\r`; the last piece keeps it. */
  function DropCR(line: string): (r: string)
    ensures r == line || (line == r + ['\r'])
    ensures line != [] && line[|line| - 1] == '\r' ==> line == r + ['\r']
  {
    if line != [] && line[|line| - 1] == '\r' then line[..|line| - 1] else line
  }

  /** `text.split(/\r?\n/)`. The expression matches at each `\n`, taking one
      `\r` in front of it when there is one. */
  function SplitLines(text: string): (r: seq<string>)
    ensures |r| == |Split(text, '\n')|
    ensures forall i :: 0 <= i < |r| ==> '\n' !in r[i]
  {
    LinesOf(Split(text, '\n'))
  }

  /** The lines between the `\n`s: every piece but the last loses one
      trailing `\r`. */
  function LinesOf(pieces: seq<string>): (r: seq<string>)
    requires forall i :: 0 <= i < |pieces| ==> '\n' !in pieces[i]
    ensures |r| == |pieces|
    ensures forall i :: 0 <= i < |r| ==> '\n' !in r[i]
  {
    seq(|pieces|, i requires 0 <= i < |pieces| =>
      if i < |pieces| - 1 then DropCR(pieces[i]) else pieces[i])
  }

  /** The same lines, each followed by `\r` except the last one: what a file
      written with Windows line endings holds before the `\n`s. */
  function WithCR(lines: seq<string>): (r: seq<string>)
    requires |lines| >= 1
    ensures |r| == |lines|
  {
    seq(|lines|, i requires 0 <= i < |lines| => if i < |lines| - 1 then lines[i] + ['\r'] else lines[i])
  }

  /** The lines of joined newline-free pieces: each piece but the last loses
      a trailing `\r`. */
  lemma SplitLinesOfJoin(pieces: seq<string>)
    requires |pieces| >= 1
    requires forall i :: 0 <= i < |pieces| ==> '\n' !in pieces[i]
    ensures SplitLines(Join(pieces, '\n')) == LinesOf(pieces)
  {
    JoinSplit(pieces, '\n');
  }

  lemma DropCRKeeps(line: string)
    requires '\r' !in line
    ensures DropCR(line) == line && DropCR(line + ['\r']) == line
  {
    assert line == [] || line[|line| - 1] in line;
    assert (line + ['\r'])[..|line|] == line;
  }

  lemma UnixLines(lines: seq<string>)
    requires |lines| >= 1
    requires forall i :: 0 <= i < |lines| ==> '\n' !in lines[i] && '\r' !in lines[i]
    ensures SplitLines(Join(lines, '\n')) == lines
  {
    SplitLinesOfJoin(lines);
    forall i | 0 <= i < |lines| - 1
      ensures DropCR(lines[i]) == lines[i]
    {
      DropCRKeeps(lines[i]);
    }
  }

  lemma WindowsLines(lines: seq<string>)
    requires |lines| >= 1
    requires forall i :: 0 <= i < |lines| ==> '\n' !in lines[i] && '\r' !in lines[i]
    ensures SplitLines(Join(WithCR(lines), '\n')) == lines
  {
    var crs := WithCR(lines);
    forall i | 0 <= i < |crs|
      ensures '\n' !in crs[i]
    {
      if i < |crs| - 1 {
        assert crs[i] == lines[i] + ['\r'];
      }
    }
    SplitLinesOfJoin(crs);
    forall i | 0 <= i < |lines| - 1
      ensures DropCR(crs[i]) == lines[i]
    {
      DropCRKeeps(lines[i]);
    }
  }

  /** Unix and Windows line endings give the same lines. */
  lemma LineEndings(lines: seq<string>)
    requires |lines| >= 1
    requires forall i :: 0 <= i < |lines| ==> '\n' !in lines[i] && '\r' !in lines[i]
    ensures SplitLines(Join(lines, '\n')) == lines
    ensures SplitLines(Join(WithCR(lines), '\n')) == lines
  {
    UnixLines(lines);
    WindowsLines(lines);
  }

  /** `lines.filter((line) => line.trim())`: the lines that hold more than
      white space, in order. */
  function NonBlank(lines: seq<string>): (r: seq<string>)
    ensures |r| <= |lines|
    ensures forall i :: 0 <= i < |r| ==> Trim(r[i]) != [] && r[i] in lines
    ensures forall i :: 0 <= i < |lines| && Trim(lines[i]) != [] ==> lines[i] in r
  {
    if lines == [] then []
    else
      var rest := NonBlank(lines[1..]);
      assert forall i :: 1 <= i < |lines| ==> lines[i] == lines[1..][i - 1];
      if Trim(lines[0]) != [] then [lines[0]] + rest else rest
  }

  /** Keeping the non-blank lines changes nothing when no line is blank. */
  lemma {:induction false} NonBlankKeepsAll(lines: seq<string>)
    requires forall i :: 0 <= i < |lines| ==> Trim(lines[i]) != []
    ensures NonBlank(lines) == lines
  {
    if lines != [] {
      NonBlankKeepsAll(lines[1..]);
      assert lines == [lines[0]] + lines[1..];
    }
  }

  /** The filter works line by line: it keeps the kept lines of each part,
      in order, repeats included. */
  lemma {:induction false} NonBlankAppend(a: seq<string>, b: seq<string>)
    ensures NonBlank(a + b) == NonBlank(a) + NonBlank(b)
  {
    if a == [] {
      assert a + b == b;
    } else {
      assert (a + b)[0] == a[0] && (a + b)[1..] == a[1..] + b;
      NonBlankAppend(a[1..], b);
    }
  }

  /** A single line is kept exactly when it is not blank. */
  lemma NonBlankOne(line: string)
    ensures NonBlank([line]) == if Trim(line) != [] then [line] else []
  {
    assert [line][1..] == [];
  }

  /** Only blank lines: nothing is kept. */
  lemma {:induction false} NonBlankOfBlank(lines: seq<string>)
    requires forall i :: 0 <= i < |lines| ==> Trim(lines[i]) == []
    ensures NonBlank(lines) == []
  {
    if lines != [] {
      NonBlankOfBlank(lines[1..]);
    }
  }

  /** The first kept line, which the parser reads the header from, is the
      first line that is not blank. */
  lemma {:induction false} NonBlankHead(lines: seq<string>, j: int)
    requires 0 <= j < |lines| && Trim(lines[j]) != []
    requires forall i :: 0 <= i < j ==> Trim(lines[i]) == []
    ensures NonBlank(lines) != [] && NonBlank(lines)[0] == lines[j]
    decreases j
  {
    if j > 0 {
      var rest := lines[1..];
      assert Trim(lines[0]) == [];
      assert forall i :: 0 <= i < j - 1 ==> rest[i] == lines[i + 1];
      assert rest[j - 1] == lines[j];
      NonBlankHead(rest, j - 1);
    }
  }

  // ---- Fields ----

  /** The state of the field loop of `parseCSVLine`: the closed fields, the
      field being collected and whether a quote is open. Fields are kept
      untrimmed here; trimming each one when it is closed, as the loop does,
      gives the same list as trimming them all at the end, as `ParseLine`
      does. */
  datatype Scan = Scan(fields: seq<string>, current: string, inQuotes: bool)

  const Start := Scan([], [], false)

  /** One character: a quote flips the mode and is dropped, a comma outside
      quotes closes the field, anything else is collected. */
  function Step(st: Scan, c: char): Scan {
    if c == '"' then st.(inQuotes := !st.inQuotes)
    else if c == ',' && !st.inQuotes then st.(fields := st.fields + [st.current], current := [])
    else st.(current := st.current + [c])
  }

  function ScanAll(st: Scan, s: string): Scan
    decreases |s|
  {
    if s == [] then st else ScanAll(Step(st, s[0]), s[1..])
  }

  /** `parseCSVLine`: the fields closed by commas, then the last one, each
      trimmed. */
  function ParseLine(line: string): (r: seq<string>)
    ensures |r| >= 1
    ensures forall i :: 0 <= i < |r| ==> '"' !in r[i] && Trim(r[i]) == r[i]
  {
    var st := ScanAll(Start, line);
    ScanKeepsClean(Start, line);
    var raw := st.fields + [st.current];
    TrimAllClean(raw);
    TrimAll(raw)
  }

  function TrimAll(raw: seq<string>): (r: seq<string>)
    ensures |r| == |raw|
    ensures forall i :: 0 <= i < |r| ==> r[i] == Trim(raw[i])
  {
    seq(|raw|, i requires 0 <= i < |raw| => Trim(raw[i]))
  }

  /** Trimmed fields are their own trim, and trimming adds no quote. */
  lemma TrimAllClean(raw: seq<string>)
    requires forall i :: 0 <= i < |raw| ==> '"' !in raw[i]
    ensures forall i :: 0 <= i < |raw| ==> '"' !in TrimAll(raw)[i] && Trim(TrimAll(raw)[i]) == TrimAll(raw)[i]
  {
    forall i | 0 <= i < |raw|
      ensures '"' !in Trim(raw[i]) && Trim(Trim(raw[i])) == Trim(raw[i])
    {
      TrimIdempotent(raw[i]);
      TrimKeeps(raw[i], '"');
    }
  }

  // ---- Reference definitions of the counts ----

  /** The number of double quotes in `s`. */
  function Quotes(s: string): nat {
    if s == [] then 0 else Quotes(s[..|s| - 1]) + (if s[|s| - 1] == '"' then 1 else 0)
  }

  /** The number of commas with an even number of quotes in front of them. */
  function UnquotedCommas(s: string): nat {
    if s == [] then 0
    else
      var p := s[..|s| - 1];
      UnquotedCommas(p) + (if s[|s| - 1] == ',' && Quotes(p) % 2 == 0 then 1 else 0)
  }

  /** Only commas outside quotes separate fields. */
  lemma ParseLineCount(line: string)
    ensures |ParseLine(line)| == UnquotedCommas(line) + 1
  {
    ScanCounts(line);
  }

  // ---- Lemmas about the scan ----

  lemma {:induction false} ScanAppend(st: Scan, a: string, b: string)
    ensures ScanAll(st, a + b) == ScanAll(ScanAll(st, a), b)
    decreases |a|
  {
    if a != [] {
      assert (a + b)[0] == a[0] && (a + b)[1..] == a[1..] + b;
      ScanAppend(Step(st, a[0]), a[1..], b);
    } else {
      assert a + b == b;
    }
  }

  /** The scan is a left fold, so the last character is its last step. */
  lemma ScanSnoc(st: Scan, s: string, c: char)
    ensures ScanAll(st, s + [c]) == Step(ScanAll(st, s), c)
  {
    ScanAppend(st, s, [c]);
  }

  /** Field count and quote mode after a prefix, in terms of the reference
      counts. */
  lemma {:induction false} ScanCounts(s: string)
    ensures |ScanAll(Start, s).fields| == UnquotedCommas(s)
    ensures ScanAll(Start, s).inQuotes <==> Quotes(s) % 2 == 1
    decreases |s|
  {
    if s != [] {
      var p := s[..|s| - 1];
      assert s == p + [s[|s| - 1]];
      ScanSnoc(Start, p, s[|s| - 1]);
      ScanCounts(p);
    }
  }

  /** No field collected ever holds a quote. */
  ghost predicate Clean(st: Scan) {
    && '"' !in st.current
    && forall i :: 0 <= i < |st.fields| ==> '"' !in st.fields[i]
  }

  lemma {:induction false} ScanKeepsClean(st: Scan, s: string)
    requires Clean(st)
    ensures Clean(ScanAll(st, s))
    decreases |s|
  {
    if s != [] {
      ScanKeepsClean(Step(st, s[0]), s[1..]);
    }
  }

  // ---- Writing a line back ----

  function Quote(f: string): string {
    ['"'] + f + ['"']
  }

  /** The line that writes each field inside double quotes, comma-separated. */
  function QuotedLine(fields: seq<string>): (line: string)
    requires |fields| >= 1
    ensures |line| >= 2 && line[0] == '"'
  {
    if |fields| == 1 then Quote(fields[0]) else Quote(fields[0]) + [','] + QuotedLine(fields[1..])
  }

  /** A quoted line is never dropped as blank. */
  lemma QuotedLineNotBlank(fields: seq<string>)
    requires |fields| >= 1
    ensures Trim(QuotedLine(fields)) != []
  {
    var line := QuotedLine(fields);
    assert TrimStart(line) == line;
    TrimEndFacts(line);
  }

  /** A field that parses back to itself: no quote in it, nothing to trim. */
  predicate Writable(f: string) {
    '"' !in f && Trim(f) == f
  }

  lemma {:induction false} ScanInsideQuotes(st: Scan, f: string)
    requires st.inQuotes && '"' !in f
    ensures ScanAll(st, f) == st.(current := st.current + f)
    decreases |f|
  {
    if f == [] {
      assert st.current + f == st.current;
    } else {
      assert f[0] in f;
      ScanInsideQuotes(Step(st, f[0]), f[1..]);
      assert st.current + [f[0]] + f[1..] == st.current + f;
    }
  }

  lemma ScanQuoted(done: seq<string>, f: string)
    requires '"' !in f
    ensures ScanAll(Scan(done, [], false), Quote(f)) == Scan(done, f, false)
  {
    var st := Scan(done, [], false);
    ScanAppend(st, ['"'] + f, ['"']);
    ScanAppend(st, ['"'], f);
    ScanInsideQuotes(Scan(done, [], true), f);
    assert [] + f == f;
  }

  lemma {:induction false} ScanQuotedLine(done: seq<string>, fields: seq<string>)
    requires |fields| >= 1
    requires forall i :: 0 <= i < |fields| ==> '"' !in fields[i]
    ensures ScanAll(Scan(done, [], false), QuotedLine(fields))
            == Scan(done + fields[..|fields| - 1], fields[|fields| - 1], false)
    decreases |fields|
  {
    var st := Scan(done, [], false);
    ScanQuoted(done, fields[0]);
    if |fields| > 1 {
      var rest := fields[1..];
      var head := Quote(fields[0]) + [','];
      ScanAppend(st, head, QuotedLine(rest));
      ScanAppend(st, Quote(fields[0]), [',']);
      assert ScanAll(st, head) == Scan(done + [fields[0]], [], false);
      ScanQuotedLine(done + [fields[0]], rest);
      assert done + [fields[0]] + rest[..|rest| - 1] == done + fields[..|fields| - 1];
    }
  }

  /** The scan of a quoted line ends outside quotes, with every field but
      the last closed. */
  lemma ScanOfQuotedLine(fields: seq<string>)
    requires |fields| >= 1
    requires forall i :: 0 <= i < |fields| ==> '"' !in fields[i]
    ensures ScanAll(Start, QuotedLine(fields)) == Scan(fields[..|fields| - 1], fields[|fields| - 1], false)
  {
    ScanQuotedLine([], fields);
    assert [] + fields[..|fields| - 1] == fields[..|fields| - 1];
  }

  /** `ParseLine` trims what the scan collected. */
  lemma ParseLineOfScan(line: string, fields: seq<string>)
    requires |fields| >= 1
    requires ScanAll(Start, line) == Scan(fields[..|fields| - 1], fields[|fields| - 1], false)
    ensures ParseLine(line) == TrimAll(fields)
  {
    var n := |fields| - 1;
    assert fields[..n] + [fields[n]] == fields;
  }

  /** Writing fields inside quotes and parsing the line gives them back, even
      when they contain commas. */
  lemma QuotedLineRoundTrip(fields: seq<string>)
    requires |fields| >= 1
    requires forall i :: 0 <= i < |fields| ==> Writable(fields[i])
    ensures ParseLine(QuotedLine(fields)) == fields
  {
    ScanOfQuotedLine(fields);
    ParseLineOfScan(QuotedLine(fields), fields);
    TrimAllWritable(fields);
  }

  lemma TrimAllWritable(fields: seq<string>)
    requires forall i :: 0 <= i < |fields| ==> Writable(fields[i])
    ensures TrimAll(fields) == fields
  {
    var t := TrimAll(fields);
    forall i | 0 <= i < |t|
      ensures t[i] == fields[i]
    {
    }
  }
}
