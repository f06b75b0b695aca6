/** Frequency tables over a column of values, in the manner of pandas'
    `value_counts()` (one entry per distinct value, most frequent first),
    `head(n)` on that table, `idxmax()`/`max()` on it, and `unique()`. */
module Counting {

  import opened Optional

  /** One row of a frequency table: a value and how many times it occurs. */
  datatype Entry<T> = Entry(key: T, count: nat)

  function Min(a: nat, b: nat): nat {
    if a <= b then a else b
  }

  predicate Distinct<T(==,!new)>(s: seq<T>) {
    forall i, j :: 0 <= i < j < |s| ==> s[i] != s[j]
  }

  /** The set of values occurring in a column. */
  function Values<T(==,!new)>(xs: seq<T>): set<T> {
    set x | x in xs
  }

  function Keys<T>(es: seq<Entry<T>>): (ks: seq<T>)
    ensures |ks| == |es|
    ensures forall i :: 0 <= i < |es| ==> ks[i] == es[i].key
  {
    seq(|es|, i requires 0 <= i < |es| => es[i].key)
  }

  /** Counts never increase along the table. */
  predicate NonIncreasing<T>(es: seq<Entry<T>>) {
    forall i, j :: 0 <= i < j < |es| ==> es[i].count >= es[j].count
  }

  /** Every entry carries the number of occurrences of its value in `xs`. */
  predicate CountsOf<T(==,!new)>(es: seq<Entry<T>>, xs: seq<T>) {
    forall i :: 0 <= i < |es| ==> es[i].count == multiset(xs)[es[i].key]
  }

  /** `unique()`: the distinct values of a column, each listed once. */
  function Dedup<T(==,!new)>(xs: seq<T>): (r: seq<T>)
    ensures forall x :: x in r <==> x in xs
    ensures Distinct(r)
  {
    if |xs| == 0 then []
    else
      var init := xs[..|xs| - 1];
      var last := xs[|xs| - 1];
      assert xs == init + [last];
      var d := Dedup(init);
      if last in d then d else d + [last]
  }

  /** A column without repetitions has as many distinct values as rows. */
  lemma {:induction false} DistinctCard<T(!new)>(s: seq<T>)
    requires Distinct(s)
    ensures |Values(s)| == |s|
  {
    if |s| > 0 {
      var init := s[..|s| - 1];
      var last := s[|s| - 1];
      assert s == init + [last];
      DistinctCard(init);
      assert Values(s) == Values(init) + {last};
      assert last !in Values(init);
    }
  }

  /** Pairs every distinct value with its number of occurrences, in order of
      first appearance. */
  function Tally<T(==,!new)>(xs: seq<T>): (r: seq<Entry<T>>)
    ensures |r| == |Values(xs)|
    ensures CountsOf(r, xs)
    ensures forall x :: x in Keys(r) <==> x in xs
    ensures Distinct(Keys(r))
  {
    var d := Dedup(xs);
    DistinctCard(d);
    assert Values(d) == Values(xs);
    var r := seq(|d|, i requires 0 <= i < |d| => Entry(d[i], multiset(xs)[d[i]]));
    assert Keys(r) == d;
    r
  }

  /** Puts `e` in front of the first entry that does not outnumber it, so an
      entry already in `t` stays ahead of `e` only when it is strictly more
      frequent. */
  function InsertByCount<T(!new)>(e: Entry<T>, t: seq<Entry<T>>): (r: seq<Entry<T>>)
    requires NonIncreasing(t)
    ensures NonIncreasing(r)
    ensures multiset(r) == multiset(t) + multiset{e}
    ensures forall x :: x in r <==> x == e || x in t
  {
    if |t| == 0 || e.count >= t[0].count then [e] + t
    else
      var r' := InsertByCount(e, t[1..]);
      forall j | 0 <= j < |r'| ensures r'[j].count <= t[0].count {
        assert r'[j] in r';
      }
      ConsKeepsOrder(t[0], r');
      assert t == [t[0]] + t[1..];
      [t[0]] + r'
  }

  lemma ConsKeepsOrder<T>(h: Entry<T>, t: seq<Entry<T>>)
    requires NonIncreasing(t)
    requires forall j :: 0 <= j < |t| ==> t[j].count <= h.count
    ensures NonIncreasing([h] + t)
  {
  }

  /** Insertion sort by descending count; stable for equal counts. */
  function SortByCount<T(!new)>(s: seq<Entry<T>>): (r: seq<Entry<T>>)
    ensures NonIncreasing(r)
    ensures multiset(r) == multiset(s)
    ensures |r| == |s|
    ensures forall x :: x in r <==> x in s
  {
    if |s| == 0 then []
    else
      assert s == [s[0]] + s[1..];
      InsertByCount(s[0], SortByCount(s[1..]))
  }

  /** A key new to a table with distinct keys keeps them distinct in front. */
  lemma ConsKeepsDistinctKeys<T(!new)>(h: Entry<T>, t: seq<Entry<T>>)
    requires Distinct(Keys(t))
    requires forall j :: 0 <= j < |t| ==> t[j].key != h.key
    ensures Distinct(Keys([h] + t))
  {
    var ks := Keys([h] + t);
    forall i, j | 0 <= i < j < |ks| ensures ks[i] != ks[j] {
      assert ks[j] == Keys(t)[j - 1];
      if i > 0 {
        assert ks[i] == Keys(t)[i - 1];
      }
    }
  }

  lemma {:induction false} InsertKeepsDistinctKeys<T(!new)>(e: Entry<T>, t: seq<Entry<T>>)
    requires NonIncreasing(t)
    requires Distinct(Keys(t))
    requires e.key !in Keys(t)
    ensures Distinct(Keys(InsertByCount(e, t)))
  {
    if |t| == 0 || e.count >= t[0].count {
      forall j | 0 <= j < |t| ensures t[j].key != e.key {
        assert Keys(t)[j] == t[j].key;
      }
      ConsKeepsDistinctKeys(e, t);
    } else {
      var t' := t[1..];
      assert Keys(t') == Keys(t)[1..];
      InsertKeepsDistinctKeys(e, t');
      var r' := InsertByCount(e, t');
      forall i | 0 <= i < |r'| ensures r'[i].key != t[0].key {
        assert r'[i] in r';
        if r'[i] != e {
          var j :| 0 <= j < |t'| && t'[j] == r'[i];
          assert Keys(t)[j + 1] == r'[i].key;
        }
      }
      ConsKeepsDistinctKeys(t[0], r');
    }
  }

  lemma {:induction false} SortKeepsDistinctKeys<T(!new)>(s: seq<Entry<T>>)
    requires Distinct(Keys(s))
    ensures Distinct(Keys(SortByCount(s)))
  {
    if |s| > 0 {
      assert Keys(s[1..]) == Keys(s)[1..];
      SortKeepsDistinctKeys(s[1..]);
      var t := SortByCount(s[1..]);
      forall j | 0 <= j < |t| ensures Keys(t)[j] != s[0].key {
        assert t[j] in s[1..];
        var k :| 0 <= k < |s[1..]| && s[1..][k] == t[j];
        assert Keys(s)[k + 1] == Keys(t)[j];
      }
      InsertKeepsDistinctKeys(s[0], t);
    }
  }

  /** A permutation of a table keeps the counts that table carries. */
  lemma SortKeepsCounts<T(!new)>(s: seq<Entry<T>>, xs: seq<T>)
    requires CountsOf(s, xs)
    ensures CountsOf(SortByCount(s), xs)
  {
    var r := SortByCount(s);
    forall i | 0 <= i < |r| ensures r[i].count == multiset(xs)[r[i].key] {
      assert r[i] in s;
    }
  }

  /** A permutation of a table keeps its set of keys. */
  lemma SortKeepsKeys<T(!new)>(s: seq<Entry<T>>)
    ensures forall x :: x in Keys(SortByCount(s)) <==> x in Keys(s)
  {
    var r := SortByCount(s);
    forall x ensures x in Keys(r) <==> x in Keys(s) {
      if x in Keys(r) {
        var i :| 0 <= i < |r| && Keys(r)[i] == x;
        assert r[i] in s;
        var j :| 0 <= j < |s| && s[j] == r[i];
        assert Keys(s)[j] == x;
      }
      if x in Keys(s) {
        var j :| 0 <= j < |s| && Keys(s)[j] == x;
        assert s[j] in r;
        var i :| 0 <= i < |r| && r[i] == s[j];
        assert Keys(r)[i] == x;
      }
    }
  }

  /** `value_counts()`: one entry per distinct value with its number of
      occurrences, most frequent first. The order among equal counts is left
      open. */
  function ValueCounts<T(==,!new)>(xs: seq<T>): (r: seq<Entry<T>>)
    ensures |r| == |Values(xs)|
    ensures NonIncreasing(r)
    ensures CountsOf(r, xs)
    ensures Distinct(Keys(r))
    ensures forall x :: x in Keys(r) <==> x in xs
  {
    var t := Tally(xs);
    SortKeepsDistinctKeys(t);
    SortKeepsCounts(t, xs);
    SortKeepsKeys(t);
    SortByCount(t)
  }

  /** `value_counts().head(n)`: the `n` most frequent values with their counts
      (all of them when there are fewer). Every value left out is at most as
      frequent as every value kept. */
  function TopN<T(==,!new)>(xs: seq<T>, n: nat): (r: seq<Entry<T>>)
    ensures |r| == Min(n, |Values(xs)|)
    ensures NonIncreasing(r)
    ensures CountsOf(r, xs)
    ensures Distinct(Keys(r))
    ensures forall i :: 0 <= i < |r| ==> r[i].key in xs
    ensures forall x, i :: x in xs && x !in Keys(r) && 0 <= i < |r| ==> multiset(xs)[x] <= r[i].count
  {
    var vc := ValueCounts(xs);
    var r := vc[..Min(n, |vc|)];
    PrefixOfRanking(xs, vc, |r|);
    r
  }

  /** A prefix of a complete, non-increasing frequency table of `xs` holds
      only values of `xs`, and outranks every value it leaves out. */
  lemma PrefixOfRanking<T(!new)>(xs: seq<T>, vc: seq<Entry<T>>, m: nat)
    requires m <= |vc|
    requires NonIncreasing(vc) && CountsOf(vc, xs)
    requires forall x :: x in Keys(vc) <==> x in xs
    ensures forall i :: 0 <= i < m ==> vc[i].key in xs
    ensures forall x, i :: x in xs && x !in Keys(vc[..m]) && 0 <= i < m ==> multiset(xs)[x] <= vc[i].count
  {
    var r := vc[..m];
    assert Keys(r) == Keys(vc)[..m];
    forall i | 0 <= i < m ensures vc[i].key in xs {
      assert Keys(vc)[i] == vc[i].key;
    }
    forall x, i | x in xs && x !in Keys(r) && 0 <= i < m
      ensures multiset(xs)[x] <= vc[i].count
    {
      var k :| 0 <= k < |vc| && Keys(vc)[k] == x;
      assert forall j :: 0 <= j < m ==> Keys(r)[j] == Keys(vc)[j];
      assert vc[k].count == multiset(xs)[x];
    }
  }

  /** `idxmax()` and `max()` of `value_counts()`: a value of greatest
      frequency with that frequency; `None` on an empty column, where pandas
      raises. */
  function MostFrequent<T(==,!new)>(xs: seq<T>): (r: Option<Entry<T>>)
    ensures r.None? <==> |xs| == 0
    ensures r.Some? ==> r.value.key in xs && r.value.count == multiset(xs)[r.value.key]
    ensures r.Some? ==> forall x :: x in xs ==> multiset(xs)[x] <= r.value.count
  {
    var vc := ValueCounts(xs);
    if |xs| == 0 then None
    else
      assert xs[0] in Keys(vc);
      assert Keys(vc)[0] == vc[0].key;
      forall x | x in xs ensures multiset(xs)[x] <= vc[0].count {
        var k :| 0 <= k < |vc| && Keys(vc)[k] == x;
      }
      Some(vc[0])
  }

  /** The most frequent value heads the top-n table. */
  lemma MostFrequentHeadsTopN<T(!new)>(xs: seq<T>, n: nat)
    requires |xs| > 0 && n > 0
    ensures MostFrequent(xs).Some? && |TopN(xs, n)| > 0
    ensures MostFrequent(xs).value.count == TopN(xs, n)[0].count
  {
    var r := TopN(xs, n);
    assert xs[0] in Values(xs);
    assert |r| > 0;
    var m := MostFrequent(xs).value;
    assert r[0].key in xs;
    if m.key in Keys(r) {
      var i :| 0 <= i < |r| && Keys(r)[i] == m.key;
      assert r[0].count >= r[i].count;
    } else {
      assert multiset(xs)[m.key] <= r[0].count;
    }
  }

  /** `head(n)`: the first `n` rows in stored order, all of them when fewer. */
  function Head<T>(rows: seq<T>, n: nat): (r: seq<T>)
    ensures |r| == Min(n, |rows|)
    ensures r <= rows
  {
    rows[..Min(n, |rows|)]
  }
}
