/** The test-record store of server/results-storage.ts, over an abstract
    directory listing: each entry is a file name and the parsed record, or
    nothing when reading or parsing that file fails. */
module ResultsStore {
  import opened Optional
  import opened Text
  import Submission

  /** A stored record: the posted payload with the identifier the store
      attached. */
  datatype TestRecord = TestRecord(id: string, data: Submission.Submitted)

  datatype ResultFile = ResultFile(name: string, content: Option<TestRecord>)

  function Time(r: TestRecord): int {
    r.data.timestamp
  }

  /** `saveResult`: the payload gains the fresh identifier and nothing
      else; the identifier source is a parameter. */
  function SaveResult(record: Submission.Submitted, freshId: string): (r: TestRecord)
    ensures r.id == freshId && r.data == record
  {
    TestRecord(freshId, record)
  }

  /** Saving two payloads under their identifiers keeps them apart exactly
      when the payloads or the identifiers differ. */
  lemma SaveResultInjective(a: Submission.Submitted, b: Submission.Submitted, ida: string, idb: string)
    ensures SaveResult(a, ida) == SaveResult(b, idb) <==> a == b && ida == idb
  {
  }

  predicate IsJson(name: string) {
    EndsWith(name, ".json")
  }

  predicate Readable(f: ResultFile) {
    IsJson(f.name) && f.content.Some?
  }

  /** The records of the readable `.json` files, in directory order. */
  function ReadAll(files: seq<ResultFile>): (rs: seq<TestRecord>)
    ensures |rs| <= |files|
  {
    if files == [] then []
    else
      var f := files[|files| - 1];
      ReadAll(files[..|files| - 1]) + (if Readable(f) then [f.content.value] else [])
  }

  /** A record is read exactly when some readable `.json` file holds it. */
  lemma {:induction false} ReadAllMember(files: seq<ResultFile>, r: TestRecord)
    ensures r in ReadAll(files) <==> exists i :: 0 <= i < |files| && Readable(files[i]) && files[i].content.value == r
  {
    if files != [] {
      var init := files[..|files| - 1];
      ReadAllMember(init, r);
      if r in ReadAll(init) {
        var i :| 0 <= i < |init| && Readable(init[i]) && init[i].content.value == r;
        assert files[i] == init[i];
      }
      if exists i :: 0 <= i < |files| && Readable(files[i]) && files[i].content.value == r {
        var i :| 0 <= i < |files| && Readable(files[i]) && files[i].content.value == r;
        if i < |init| {
          assert init[i] == files[i];
        }
      }
    }
  }

  function ReadableIndices(files: seq<ResultFile>, n: nat): set<nat>
    requires n <= |files|
  {
    set i: nat | i < n && Readable(files[i])
  }

  lemma ReadableIndicesStep(files: seq<ResultFile>, n: nat)
    requires n < |files|
    ensures ReadableIndices(files, n + 1)
            == ReadableIndices(files, n) + (if Readable(files[n]) then {n} else {})
  {
  }

  lemma ReadableIndicesPrefix(files: seq<ResultFile>, n: nat)
    requires n <= |files|
    ensures ReadableIndices(files[..n], n) == ReadableIndices(files, n)
  {
  }

  /** The number of records read is the number of readable `.json` files. */
  lemma {:induction false} ReadAllCount(files: seq<ResultFile>)
    ensures |ReadAll(files)| == |ReadableIndices(files, |files|)|
  {
    if files != [] {
      var n := |files| - 1;
      var init := files[..n];
      ReadAllCount(init);
      ReadableIndicesPrefix(files, n);
      ReadableIndicesStep(files, n);
      assert n !in ReadableIndices(files, n);
    }
  }

  // ---- Newest first ----

  predicate NewestFirst(s: seq<TestRecord>) {
    forall i, j :: 0 <= i < j < |s| ==> Time(s[i]) >= Time(s[j])
  }

  /** Places `x` after every record at least as new, so records with equal
      timestamps keep their earlier order. */
  function InsertByTime(x: TestRecord, s: seq<TestRecord>): (r: seq<TestRecord>)
    ensures |r| == |s| + 1
  {
    if s == [] then [x]
    else if Time(s[0]) >= Time(x) then [s[0]] + InsertByTime(x, s[1..])
    else [x] + s
  }

  lemma {:induction false} InsertByTimeMultiset(x: TestRecord, s: seq<TestRecord>)
    ensures multiset(InsertByTime(x, s)) == multiset(s) + multiset{x}
  {
    if s != [] && Time(s[0]) >= Time(x) {
      InsertByTimeMultiset(x, s[1..]);
      assert s == [s[0]] + s[1..];
    }
  }

  /** Every record of the insertion is `x` or one of `s`. */
  lemma InsertByTimeFrom(x: TestRecord, s: seq<TestRecord>, k: nat)
    requires k < |InsertByTime(x, s)|
    ensures InsertByTime(x, s)[k] == x || InsertByTime(x, s)[k] in s
  {
    InsertByTimeMultiset(x, s);
    assert InsertByTime(x, s)[k] in multiset(InsertByTime(x, s));
  }

  lemma {:induction false} InsertByTimeSorted(x: TestRecord, s: seq<TestRecord>)
    requires NewestFirst(s)
    ensures NewestFirst(InsertByTime(x, s))
  {
    if s != [] && Time(s[0]) >= Time(x) {
      var rest := InsertByTime(x, s[1..]);
      InsertByTimeSorted(x, s[1..]);
      forall k | 0 <= k < |rest|
        ensures Time(s[0]) >= Time(rest[k])
      {
        InsertByTimeFrom(x, s[1..], k);
      }
      var r := [s[0]] + rest;
      forall i, j | 0 <= i < j < |r|
        ensures Time(r[i]) >= Time(r[j])
      {
        if i > 0 {
          assert r[i] == rest[i - 1] && r[j] == rest[j - 1];
        }
      }
    }
  }

  /** `records.sort((a, b) => b.timestamp - a.timestamp)`, as the stable
      insertion order of the records: newest first, and the read records,
      each as often as it was read. */
  function SortByTime(s: seq<TestRecord>): (r: seq<TestRecord>)
    ensures |r| == |s|
    ensures NewestFirst(r)
    ensures multiset(r) == multiset(s)
  {
    if s == [] then []
    else
      var rest := SortByTime(s[..|s| - 1]);
      SortStep(s, rest);
      InsertByTime(s[|s| - 1], rest)
  }

  /** Inserting the last record into the sorted others sorts the whole. */
  lemma SortStep(s: seq<TestRecord>, rest: seq<TestRecord>)
    requires s != [] && NewestFirst(rest) && multiset(rest) == multiset(s[..|s| - 1])
    ensures NewestFirst(InsertByTime(s[|s| - 1], rest))
    ensures multiset(InsertByTime(s[|s| - 1], rest)) == multiset(s)
  {
    InsertByTimeSorted(s[|s| - 1], rest);
    InsertByTimeMultiset(s[|s| - 1], rest);
    assert s == s[..|s| - 1] + [s[|s| - 1]];
  }

  // ---- Page slicing ----

  /** How `Array.prototype.slice` reads an index: a negative one counts
      from the end, and either kind is clamped to the array. */
  function SliceIndex(i: int, len: nat): (k: nat)
    ensures k <= len
    ensures 0 <= i <= len ==> k == i
    ensures i > len ==> k == len
  {
    if i < 0 then (if len + i < 0 then 0 else len + i)
    else if i > len then len
    else i
  }

  /** `s.slice(start, end)`. */
  function Slice<T>(s: seq<T>, start: int, end: int): (r: seq<T>)
    ensures |r| <= |s|
    ensures |r| == if SliceIndex(start, |s|) < SliceIndex(end, |s|)
                   then SliceIndex(end, |s|) - SliceIndex(start, |s|) else 0
    ensures forall i :: 0 <= i < |r| ==> r[i] == s[SliceIndex(start, |s|) + i]
  {
    var a, b := SliceIndex(start, |s|), SliceIndex(end, |s|);
    if a < b then s[a..b] else []
  }

  function Min(a: int, b: int): int {
    if a <= b then a else b
  }

  /** Page `page` of size `pageSize`: `slice((page - 1) * pageSize,
      (page - 1) * pageSize + pageSize)`. */
  function Page<T>(s: seq<T>, page: int, pageSize: int): (r: seq<T>)
    ensures |r| <= |s|
    ensures forall i :: 0 <= i < |r| ==> r[i] in s
  {
    var start := (page - 1) * pageSize;
    Slice(s, start, start + pageSize)
  }

  lemma MulNonneg(a: int, b: int)
    requires a >= 0 && b >= 0
    ensures a * b >= 0
  {
  }

  /** From page 1 on, a page is the window of the list between
      `(page - 1) * pageSize` and `page * pageSize`, cut off at the end of
      the list, so it holds at most `pageSize` records. */
  lemma PageWindow<T>(s: seq<T>, page: int, pageSize: int)
    requires page >= 1 && pageSize >= 0
    ensures var start := Min((page - 1) * pageSize, |s|);
            var end := Min(page * pageSize, |s|);
            start <= end && Page(s, page, pageSize) == s[start..end]
    ensures |Page(s, page, pageSize)| <= pageSize
  {
    MulNonneg(page - 1, pageSize);
    assert page * pageSize == (page - 1) * pageSize + pageSize;
  }

  lemma DivNonneg(i: nat, k: nat)
    requires k >= 1
    ensures i / k >= 0
  {
  }

  lemma DivBounds(i: nat, k: nat)
    requires k >= 1
    ensures (i / k) * k <= i < (i / k) * k + k
    ensures i % k == i - (i / k) * k
  {
  }

  /** Every record is on exactly one page: record `i` is entry `i % k` of
      page `i / k + 1`. */
  lemma PagePosition<T>(s: seq<T>, pageSize: nat, i: nat)
    requires pageSize >= 1 && i < |s|
    ensures var p := Page(s, i / pageSize + 1, pageSize);
            i % pageSize < |p| && p[i % pageSize] == s[i]
  {
    var page := i / pageSize + 1;
    DivBounds(i, pageSize);
    PageWindow(s, page, pageSize);
    assert (page - 1) * pageSize == (i / pageSize) * pageSize;
  }

  /** A page that starts at or after the end of the list is empty. */
  lemma PagePastEnd<T>(s: seq<T>, page: int, pageSize: int)
    requires page >= 1 && pageSize >= 0 && (page - 1) * pageSize >= |s|
    ensures Page(s, page, pageSize) == []
  {
    PageWindow(s, page, pageSize);
  }

  // ---- getResults ----

  /** `getResults`: the page of the records newest first, and the number of
      records read; a directory that cannot be read gives no records and a
      total of 0. */
  function GetResults(dir: Option<seq<ResultFile>>, page: int, pageSize: int): (r: (seq<TestRecord>, nat))
    ensures dir.None? ==> r == ([], 0)
  {
    match dir
    case None => ([], 0)
    case Some(files) =>
      var records := SortByTime(ReadAll(files));
      (Page(records, page, pageSize), |records|)
  }

  /** The total counts every readable record, whatever the page asked for;
      the page holds read records only, newest first and at most
      `pageSize` of them. */
  lemma GetResultsFacts(files: seq<ResultFile>, page: int, pageSize: int)
    requires page >= 1 && pageSize >= 0
    ensures var r := GetResults(Some(files), page, pageSize);
            && r.1 == |ReadAll(files)|
            && |r.0| <= pageSize
            && NewestFirst(r.0)
            && (forall x :: x in r.0 ==> x in ReadAll(files))
  {
    var sorted := SortByTime(ReadAll(files));
    GetResultsPage(files, page, pageSize);
    PageOfNewestFirst(sorted, page, pageSize);
    forall x | x in sorted
      ensures x in ReadAll(files)
    {
      assert x in multiset(sorted);
    }
  }

  /** A page of a newest-first list is newest first, holds only elements
      of the list, and at most `pageSize` of them. */
  lemma PageOfNewestFirst(s: seq<TestRecord>, page: int, pageSize: int)
    requires page >= 1 && pageSize >= 0 && NewestFirst(s)
    ensures var p := Page(s, page, pageSize);
            |p| <= pageSize && NewestFirst(p) && forall x :: x in p ==> x in s
  {
    PageWindow(s, page, pageSize);
    var start := Min((page - 1) * pageSize, |s|);
    var end := Min(page * pageSize, |s|);
    WindowFacts(s, start, end);
  }

  /** A window of a newest-first list is newest first and holds only
      elements of the list. */
  lemma WindowFacts(s: seq<TestRecord>, a: nat, b: nat)
    requires a <= b <= |s| && NewestFirst(s)
    ensures NewestFirst(s[a..b])
    ensures forall x :: x in s[a..b] ==> x in s
  {
    var w := s[a..b];
    forall i, j | 0 <= i < j < |w|
      ensures Time(w[i]) >= Time(w[j])
    {
      assert w[i] == s[a + i] && w[j] == s[a + j];
    }
  }

  lemma GetResultsPage(files: seq<ResultFile>, page: int, pageSize: int)
    ensures GetResults(Some(files), page, pageSize).0 == Page(SortByTime(ReadAll(files)), page, pageSize)
  {
  }

  /** A record of the list is on the page its position divides into. */
  lemma OnPage<T>(s: seq<T>, pageSize: nat, i: nat)
    requires pageSize >= 1 && i < |s|
    ensures s[i] in Page(s, i / pageSize + 1, pageSize)
  {
    PagePosition(s, pageSize, i);
    var p := Page(s, i / pageSize + 1, pageSize);
    assert p[i % pageSize] == s[i];
  }

  /** Paging through the results shows every readable record: record `x`
      of the files appears on some page at or after page 1. */
  lemma EveryRecordListed(files: seq<ResultFile>, pageSize: nat, x: TestRecord)
    requires pageSize >= 1 && x in ReadAll(files)
    ensures exists page :: page >= 1 && x in GetResults(Some(files), page, pageSize).0
  {
    var sorted := SortByTime(ReadAll(files));
    assert x in multiset(sorted);
    var i :| 0 <= i < |sorted| && sorted[i] == x;
    OnPage(sorted, pageSize, i);
    var page := i / pageSize + 1;
    DivNonneg(i, pageSize);
    var onPage := Page(sorted, page, pageSize);
    assert x in onPage;
    GetResultsPage(files, page, pageSize);
    assert GetResults(Some(files), page, pageSize).0 == onPage;
  }
}
