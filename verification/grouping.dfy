/** Per-domain tallies of scored questions. Both scoring paths keep one entry
    per domain in the order the domains are first met: the results page in a
    JavaScript `Map` (client/src/pages/ResultsPage.tsx), the submission path in
    an array searched with `find` (client/src/pages/ExamInterface.tsx). */
module Grouping {
  import opened Optional
  import opened Sequences

  datatype Stat<K> = Stat(key: K, correct: nat, total: nat)

  /** Position of the entry for `key`, if there is one. */
  function IndexOf<K(==)>(stats: seq<Stat<K>>, key: K): (r: Option<nat>)
    ensures r.Some? ==> r.value < |stats| && stats[r.value].key == key
    ensures r.Some? ==> forall i :: 0 <= i < r.value ==> stats[i].key != key
    ensures r.None? ==> forall i :: 0 <= i < |stats| ==> stats[i].key != key
  {
    if stats == [] then None
    else if stats[0].key == key then Some(0)
    else match IndexOf(stats[1..], key)
      case None => None
      case Some(j) => Some(j + 1)
  }

  function Bump<K>(s: Stat<K>, ok: bool): Stat<K> {
    Stat(s.key, s.correct + (if ok then 1 else 0), s.total + 1)
  }

  /** Record one scored question: the entry for its key is bumped in place,
      or a fresh entry is appended after all existing ones. */
  function Add<K(==)>(stats: seq<Stat<K>>, key: K, ok: bool): seq<Stat<K>> {
    match IndexOf(stats, key)
    case Some(j) => stats[j := Bump(stats[j], ok)]
    case None => stats + [Stat(key, if ok then 1 else 0, 1)]
  }

  /** Fold the questions, in order, into per-key tallies. */
  function Tally<K(==)>(keys: seq<K>, flags: seq<bool>): seq<Stat<K>>
    requires |keys| == |flags|
  {
    if keys == [] then []
    else Add(Tally(keys[..|keys| - 1], flags[..|flags| - 1]), keys[|keys| - 1], flags[|flags| - 1])
  }

  // ---- Independent descriptions of a tally ----

  /** How many questions carry `key`. */
  function CountKey<K(==)>(keys: seq<K>, key: K): nat {
    if keys == [] then 0
    else CountKey(keys[..|keys| - 1], key) + (if keys[|keys| - 1] == key then 1 else 0)
  }

  /** How many questions carry `key` and were answered correctly. */
  function CountKeyOk<K(==)>(keys: seq<K>, flags: seq<bool>, key: K): nat
    requires |keys| == |flags|
  {
    if keys == [] then 0
    else CountKeyOk(keys[..|keys| - 1], flags[..|flags| - 1], key)
         + (if keys[|keys| - 1] == key && flags[|flags| - 1] then 1 else 0)
  }

  /** Position of the first question carrying `key`. */
  function FirstIndex<K(==)>(keys: seq<K>, key: K): (r: nat)
    requires key in keys
    ensures r < |keys| && keys[r] == key
    ensures forall i :: 0 <= i < r ==> keys[i] != key
  {
    if keys[0] == key then 0 else 1 + FirstIndex(keys[1..], key)
  }

  function SumTotal<K>(stats: seq<Stat<K>>): nat {
    if stats == [] then 0 else SumTotal(stats[..|stats| - 1]) + stats[|stats| - 1].total
  }

  function SumCorrect<K>(stats: seq<Stat<K>>): nat {
    if stats == [] then 0 else SumCorrect(stats[..|stats| - 1]) + stats[|stats| - 1].correct
  }

  /** Every key that occurs has an entry. */
  predicate Covers<K(==)>(stats: seq<Stat<K>>, keys: seq<K>) {
    forall k :: k in keys ==> exists i :: 0 <= i < |stats| && stats[i].key == k
  }

  /** Each entry's total counts the questions of its key. */
  predicate TotalsCount<K(==)>(stats: seq<Stat<K>>, keys: seq<K>) {
    forall i :: 0 <= i < |stats| ==> stats[i].total == CountKey(keys, stats[i].key)
  }

  /** Each entry's correct count counts the correct questions of its key. */
  predicate CorrectsCount<K(==)>(stats: seq<Stat<K>>, keys: seq<K>, flags: seq<bool>)
    requires |keys| == |flags|
  {
    forall i :: 0 <= i < |stats| ==> stats[i].correct == CountKeyOk(keys, flags, stats[i].key)
  }

  /** Entries follow the order in which their keys first occur. */
  predicate FirstOccurrenceOrder<K(==)>(stats: seq<Stat<K>>, keys: seq<K>) {
    && (forall i :: 0 <= i < |stats| ==> stats[i].key in keys)
    && (forall i, j :: 0 <= i < j < |stats| ==> FirstIndex(keys, stats[i].key) < FirstIndex(keys, stats[j].key))
  }

  predicate KeysDistinct<K(==)>(stats: seq<Stat<K>>) {
    forall i, j :: 0 <= i < j < |stats| ==> stats[i].key != stats[j].key
  }

  // ---- Lemmas ----

  lemma {:induction false} SumUpdate<K>(stats: seq<Stat<K>>, j: nat, s: Stat<K>)
    requires j < |stats|
    ensures SumTotal(stats[j := s]) == SumTotal(stats) - stats[j].total + s.total
    ensures SumCorrect(stats[j := s]) == SumCorrect(stats) - stats[j].correct + s.correct
  {
    var u := stats[j := s];
    if j < |stats| - 1 {
      assert u[..|u| - 1] == stats[..|stats| - 1][j := s];
      SumUpdate(stats[..|stats| - 1], j, s);
    } else {
      assert u[..|u| - 1] == stats[..|stats| - 1];
    }
  }

  lemma SumAppend<K>(stats: seq<Stat<K>>, s: Stat<K>)
    ensures SumTotal(stats + [s]) == SumTotal(stats) + s.total
    ensures SumCorrect(stats + [s]) == SumCorrect(stats) + s.correct
  {
    assert (stats + [s])[..|stats|] == stats;
  }

  lemma {:induction false} FirstIndexPrefix<K>(keys: seq<K>, x: K, key: K)
    requires key in keys
    ensures key in keys + [x] && FirstIndex(keys + [x], key) == FirstIndex(keys, key)
  {
    if keys[0] != key {
      assert (keys + [x])[1..] == keys[1..] + [x];
      FirstIndexPrefix(keys[1..], x, key);
    }
  }

  lemma FirstIndexLast<K>(keys: seq<K>, x: K)
    requires x !in keys
    ensures x in keys + [x] && FirstIndex(keys + [x], x) == |keys|
  {
  }

  lemma {:induction false} CountAbsent<K>(keys: seq<K>, flags: seq<bool>, key: K)
    requires |keys| == |flags|
    requires key !in keys
    ensures CountKey(keys, key) == 0 && CountKeyOk(keys, flags, key) == 0
  {
    if keys != [] {
      CountAbsent(keys[..|keys| - 1], flags[..|flags| - 1], key);
    }
  }

  /** The tally has exactly one entry per key that occurs. */
  lemma TallyKeys<K>(keys: seq<K>, flags: seq<bool>)
    requires |keys| == |flags|
    ensures var r := Tally(keys, flags);
      && KeysDistinct(r)
      && (forall i :: 0 <= i < |r| ==> r[i].key in keys)
      && Covers(r, keys)
  {
    TallyDistinct(keys, flags);
    TallyKeysOccur(keys, flags);
    TallyCovers(keys, flags);
  }

  lemma {:induction false} TallyDistinct<K>(keys: seq<K>, flags: seq<bool>)
    requires |keys| == |flags|
    ensures KeysDistinct(Tally(keys, flags))
  {
    if keys != [] {
      var ks, fs := keys[..|keys| - 1], flags[..|flags| - 1];
      var x, b := keys[|keys| - 1], flags[|flags| - 1];
      TallyDistinct(ks, fs);
      var p := Tally(ks, fs);
      match IndexOf(p, x)
      case Some(j) =>
        assert Tally(keys, flags) == p[j := Bump(p[j], b)];
      case None =>
        assert Tally(keys, flags) == p + [Stat(x, if b then 1 else 0, 1)];
    }
  }

  lemma {:induction false} TallyKeysOccur<K>(keys: seq<K>, flags: seq<bool>)
    requires |keys| == |flags|
    ensures forall i :: 0 <= i < |Tally(keys, flags)| ==> Tally(keys, flags)[i].key in keys
  {
    if keys != [] {
      var ks, fs := keys[..|keys| - 1], flags[..|flags| - 1];
      var x, b := keys[|keys| - 1], flags[|flags| - 1];
      assert keys == ks + [x];
      TallyKeysOccur(ks, fs);
      var p := Tally(ks, fs);
      match IndexOf(p, x)
      case Some(j) =>
        assert Tally(keys, flags) == p[j := Bump(p[j], b)];
      case None =>
        assert Tally(keys, flags) == p + [Stat(x, if b then 1 else 0, 1)];
    }
  }

  lemma {:induction false} TallyCovers<K>(keys: seq<K>, flags: seq<bool>)
    requires |keys| == |flags|
    ensures Covers(Tally(keys, flags), keys)
  {
    if keys != [] {
      var ks, fs := keys[..|keys| - 1], flags[..|flags| - 1];
      var x, b := keys[|keys| - 1], flags[|flags| - 1];
      TallyCovers(ks, fs);
      var p := Tally(ks, fs);
      var r := Tally(keys, flags);
      var at: nat;
      match IndexOf(p, x) {
        case Some(j) =>
          assert r == p[j := Bump(p[j], b)];
          at := j;
        case None =>
          assert r == p + [Stat(x, if b then 1 else 0, 1)];
          at := |p|;
      }
      assert |p| <= |r| && at < |r| && r[at].key == x;
      assert forall i :: 0 <= i < |p| ==> r[i].key == p[i].key;
      forall k | k in keys
        ensures exists i :: 0 <= i < |r| && r[i].key == k
      {
        if k == x {
          assert r[at].key == k;
        } else {
          assert keys == ks + [x];
          assert k in ks;
          var i :| 0 <= i < |p| && p[i].key == k;
          assert r[i].key == k;
        }
      }
      assert Covers(r, keys);
    }
  }

  /** Each entry counts the questions of its key and the correct ones among them. */
  lemma {:induction false} TallyCounts<K>(keys: seq<K>, flags: seq<bool>)
    requires |keys| == |flags|
    ensures TotalsCount(Tally(keys, flags), keys)
    ensures CorrectsCount(Tally(keys, flags), keys, flags)
  {
    if keys != [] {
      var ks, fs := keys[..|keys| - 1], flags[..|flags| - 1];
      var x, b := keys[|keys| - 1], flags[|flags| - 1];
      TallyCounts(ks, fs);
      TallyKeys(ks, fs);
      var p := Tally(ks, fs);
      var r := Tally(keys, flags);
      match IndexOf(p, x)
      case Some(j) =>
        assert r == p[j := Bump(p[j], b)];
      case None =>
        assert r == p + [Stat(x, if b then 1 else 0, 1)];
        assert x !in ks;
        CountAbsent(ks, fs, x);
    }
  }

  /** One more question keeps the existing entries' keys in place and adds
      at most one entry, for a key not met before. */
  lemma TallyStep<K>(keys: seq<K>, flags: seq<bool>)
    requires |keys| == |flags| && keys != []
    ensures var p := Tally(keys[..|keys| - 1], flags[..|flags| - 1]);
            var r := Tally(keys, flags);
            && |p| <= |r| <= |p| + 1
            && (forall i :: 0 <= i < |p| ==> r[i].key == p[i].key)
            && (|r| == |p| + 1 ==> r[|p|].key == keys[|keys| - 1] && keys[|keys| - 1] !in keys[..|keys| - 1])
  {
    var ks, fs := keys[..|keys| - 1], flags[..|flags| - 1];
    var x, b := keys[|keys| - 1], flags[|flags| - 1];
    var p := Tally(ks, fs);
    var r := Tally(keys, flags);
    match IndexOf(p, x)
    case Some(j) =>
      assert r == p[j := Bump(p[j], b)];
    case None =>
      assert r == p + [Stat(x, if b then 1 else 0, 1)];
      TallyKeys(ks, fs);
  }

  /** Entries appear in the order their keys first occur among the questions. */
  lemma {:induction false} TallyOrder<K>(keys: seq<K>, flags: seq<bool>)
    requires |keys| == |flags|
    ensures FirstOccurrenceOrder(Tally(keys, flags), keys)
  {
    TallyKeys(keys, flags);
    if keys != [] {
      var ks, fs := keys[..|keys| - 1], flags[..|flags| - 1];
      var x := keys[|keys| - 1];
      assert keys == ks + [x];
      TallyOrder(ks, fs);
      TallyStep(keys, flags);
      var p := Tally(ks, fs);
      var r := Tally(keys, flags);
      forall i, j | 0 <= i < j < |r|
        ensures FirstIndex(keys, r[i].key) < FirstIndex(keys, r[j].key)
      {
        FirstIndexPrefix(ks, x, p[i].key);
        if j < |p| {
          FirstIndexPrefix(ks, x, p[j].key);
        } else {
          FirstIndexLast(ks, x);
        }
      }
    }
  }

  /** Entry totals add up to the number of questions and entry corrects to the
      number of correct answers. */
  lemma {:induction false} TallySums<K>(keys: seq<K>, flags: seq<bool>)
    requires |keys| == |flags|
    ensures SumTotal(Tally(keys, flags)) == |keys|
    ensures SumCorrect(Tally(keys, flags)) == CountTrue(flags)
  {
    if keys != [] {
      var ks, fs := keys[..|keys| - 1], flags[..|flags| - 1];
      var x, b := keys[|keys| - 1], flags[|flags| - 1];
      TallySums(ks, fs);
      var p := Tally(ks, fs);
      match IndexOf(p, x)
      case Some(j) =>
        SumUpdate(p, j, Bump(p[j], b));
      case None =>
        SumAppend(p, Stat(x, if b then 1 else 0, 1));
    }
  }

  /** Every entry counts at least one question. */
  lemma {:induction false} TallyPositive<K>(keys: seq<K>, flags: seq<bool>)
    requires |keys| == |flags|
    ensures forall i :: 0 <= i < |Tally(keys, flags)| ==> Tally(keys, flags)[i].total > 0
  {
    if keys != [] {
      var ks, fs := keys[..|keys| - 1], flags[..|flags| - 1];
      var x, b := keys[|keys| - 1], flags[|flags| - 1];
      TallyPositive(ks, fs);
      var p := Tally(ks, fs);
      match IndexOf(p, x)
      case Some(j) =>
        assert Tally(keys, flags) == p[j := Bump(p[j], b)];
      case None =>
        assert Tally(keys, flags) == p + [Stat(x, if b then 1 else 0, 1)];
    }
  }

  /** Keys that never repeat give one entry per question. */
  lemma {:induction false} TallyDistinctKeys<K>(keys: seq<K>, flags: seq<bool>)
    requires |keys| == |flags|
    requires Distinct(keys)
    ensures |Tally(keys, flags)| == |keys|
  {
    if keys != [] {
      var ks, fs := keys[..|keys| - 1], flags[..|flags| - 1];
      var x, b := keys[|keys| - 1], flags[|flags| - 1];
      TallyDistinctKeys(ks, fs);
      TallyKeysOccur(ks, fs);
      var p := Tally(ks, fs);
      assert x !in ks;
      assert IndexOf(p, x).None?;
    }
  }

  // ---- Tallies under a renaming of keys ----

  /** Two key sequences that agree on which positions carry equal keys. */
  predicate SamePattern<K(==), L(==)>(a: seq<K>, b: seq<L>) {
    && |a| == |b|
    && forall i, j :: 0 <= i < |a| && 0 <= j < |a| ==> (a[i] == a[j] <==> b[i] == b[j])
  }

  /** Two tallies entry by entry alike: equal counts, and keys found at one
      common position of the two key sequences. */
  predicate Aligned<K(==), L(==)>(p: seq<Stat<K>>, q: seq<Stat<L>>, a: seq<K>, b: seq<L>) {
    && |p| == |q|
    && forall m :: 0 <= m < |p| ==>
         && p[m].correct == q[m].correct && p[m].total == q[m].total
         && exists i :: 0 <= i < |a| && i < |b| && p[m].key == a[i] && q[m].key == b[i]
  }

  /** Aligned tallies find the entry of a new key at the same position. */
  lemma IndexOfAligned<K, L>(p: seq<Stat<K>>, q: seq<Stat<L>>, a: seq<K>, b: seq<L>, n: nat)
    requires SamePattern(a, b) && n < |a|
    requires Aligned(p, q, a[..n], b[..n])
    ensures IndexOf(p, a[n]) == IndexOf(q, b[n])
  {
    forall m | 0 <= m < |p|
      ensures p[m].key == a[n] <==> q[m].key == b[n]
    {
      var i :| 0 <= i < n && p[m].key == a[..n][i] && q[m].key == b[..n][i];
      assert a[..n][i] == a[i] && b[..n][i] == b[i];
    }
  }

  /** Tallying two key sequences with the same pattern gives aligned
      tallies: the same entries, in the same order, with the same counts. */
  lemma {:induction false} TallyAligned<K, L>(a: seq<K>, b: seq<L>, flags: seq<bool>)
    requires SamePattern(a, b) && |a| == |flags|
    ensures Aligned(Tally(a, flags), Tally(b, flags), a, b)
  {
    if a != [] {
      var n := |a| - 1;
      var a', b', fs := a[..n], b[..n], flags[..n];
      assert SamePattern(a', b') by {
        forall i, j | 0 <= i < n && 0 <= j < n
          ensures a'[i] == a'[j] <==> b'[i] == b'[j]
        {
          assert a'[i] == a[i] && a'[j] == a[j] && b'[i] == b[i] && b'[j] == b[j];
        }
      }
      TallyAligned(a', b', fs);
      var p, q := Tally(a', fs), Tally(b', fs);
      IndexOfAligned(p, q, a, b, n);
      var p2, q2 := Tally(a, flags), Tally(b, flags);
      forall m | 0 <= m < |p|
        ensures exists i :: 0 <= i < |a| && i < |b| && p[m].key == a[i] && q[m].key == b[i]
      {
        var i :| 0 <= i < |a'| && i < |b'| && p[m].key == a'[i] && q[m].key == b'[i];
        assert a'[i] == a[i] && b'[i] == b[i];
      }
      match IndexOf(p, a[n])
      case Some(j) =>
        assert p2 == p[j := Bump(p[j], flags[n])];
        assert q2 == q[j := Bump(q[j], flags[n])];
      case None =>
        assert p2 == p + [Stat(a[n], if flags[n] then 1 else 0, 1)];
        assert q2 == q + [Stat(b[n], if flags[n] then 1 else 0, 1)];
        assert p2[|p|].key == a[n] && q2[|p|].key == b[n];
    }
  }
}
