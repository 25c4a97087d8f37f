/** The frequency table of `Huffman.get_character_frequency`: the characters
    of the input with their occurrence counts, in the order in which
    `dict(Counter(contents))` lists them (first occurrence), then stably
    sorted ascending by count, as `sorted(..., key=itemgetter(1))` does. */
module Frequency {

  /** One `(character, frequency)` tuple of the queue. */
  datatype Entry = Entry(ch: char, count: nat)

  /** Position of the first occurrence of `c` in `s`. */
  function FirstIndex(s: string, c: char): (i: nat)
    requires c in s
    ensures i < |s| && s[i] == c
    ensures forall j :: 0 <= j < i ==> s[j] != c
  {
    if s[0] == c then 0 else 1 + FirstIndex(s[1..], c)
  }

  predicate NoDup(d: string) {
    forall i, j :: 0 <= i < j < |d| ==> d[i] != d[j]
  }

  /** The distinct characters of `s` in order of first occurrence: the key order
      of the dictionary `Counter` builds while scanning `s`. */
  function Distinct(s: string): (d: string)
    ensures forall c :: c in d <==> c in s
    ensures NoDup(d)
  {
    if s == [] then []
    else
      var p := Distinct(s[..|s| - 1]);
      var x := s[|s| - 1];
      if x in p then p else p + [x]
  }

  lemma FirstIndexExtend(p: string, x: char, c: char)
    requires c in p + [x]
    ensures FirstIndex(p + [x], c) == if c in p then FirstIndex(p, c) else |p|
  {
    var s := p + [x];
    var i := FirstIndex(s, c);
    if c in p {
      var k := FirstIndex(p, c);
      assert s[k] == c;
    } else {
      assert forall j :: 0 <= j < |p| ==> s[j] != c;
    }
  }

  /** `Distinct` lists the characters in the order of their first occurrence. */
  lemma {:induction false} DistinctOrdered(s: string)
    ensures forall i, j :: 0 <= i < j < |Distinct(s)| ==>
              FirstIndex(s, Distinct(s)[i]) < FirstIndex(s, Distinct(s)[j])
  {
    if s != [] {
      var p, x := s[..|s| - 1], s[|s| - 1];
      assert s == p + [x];
      DistinctOrdered(p);
      var d, dp := Distinct(s), Distinct(p);
      forall i, j | 0 <= i < j < |d| ensures FirstIndex(s, d[i]) < FirstIndex(s, d[j]) {
        FirstIndexExtend(p, x, d[i]);
        FirstIndexExtend(p, x, d[j]);
        assert d[i] == dp[i];
        if j < |dp| {
          assert d[j] == dp[j];
        } else {
          assert FirstIndex(p, d[i]) < |p|;
        }
      }
    }
  }

  /** The pairs `(c, count of c in s)` for the characters `c` of `d`, in order. */
  function Tally(d: string, s: string): (q: seq<Entry>)
    ensures |q| == |d|
    ensures forall i :: 0 <= i < |d| ==> q[i] == Entry(d[i], multiset(s)[d[i]])
  {
    if d == [] then [] else [Entry(d[0], multiset(s)[d[0]])] + Tally(d[1..], s)
  }

  function SumCounts(q: seq<Entry>): nat {
    if q == [] then 0 else q[0].count + SumCounts(q[1..])
  }

  predicate CountLeq(x: Entry, y: Entry) {
    x.count <= y.count
  }

  /** R holds of every pair of entries of `q` in the order they appear. */
  predicate Pairwise(q: seq<Entry>, R: (Entry, Entry) -> bool) {
    forall i, j :: 0 <= i < j < |q| ==> R(q[i], q[j])
  }

  predicate SortedByCount(q: seq<Entry>) {
    forall i, j :: 0 <= i < j < |q| ==> q[i].count <= q[j].count
  }

  /** No character occurs in two entries of `q`. */
  predicate UniqueChars(q: seq<Entry>) {
    forall i, j :: 0 <= i < j < |q| ==> q[i].ch != q[j].ch
  }

  /** The characters that have an entry in `q`. */
  function Chars(q: seq<Entry>): set<char> {
    set i | 0 <= i < |q| :: q[i].ch
  }

  /** One step of the stable sort: `e` goes in front of the first entry whose
      count is at least its own, so that it precedes the equal-count entries,
      which come after it in the input. */
  function InsertByCount(e: Entry, t: seq<Entry>): (r: seq<Entry>)
    ensures multiset(r) == multiset(t) + multiset{e}
    ensures SumCounts(r) == SumCounts(t) + e.count
  {
    if t == [] || e.count <= t[0].count then [e] + t
    else
      assert t == [t[0]] + t[1..];
      [t[0]] + InsertByCount(e, t[1..])
  }

  /** A stable sort ascending by count (insertion sort). A sequence has exactly
      one stable sort by a key, so this is the order `sorted` returns. */
  function SortByCount(q: seq<Entry>): (r: seq<Entry>)
    ensures multiset(r) == multiset(q)
    ensures SumCounts(r) == SumCounts(q)
  {
    if q == [] then []
    else
      assert q == [q[0]] + q[1..];
      InsertByCount(q[0], SortByCount(q[1..]))
  }

  /** The queue `get_character_frequency(contents)` returns and stores: one
      entry per distinct character, the counts adding up to the length of
      `contents`. `FrequencyCounts` and `FrequencySortedStable` state the rest. */
  function CharacterFrequency(contents: string): (q: seq<Entry>)
    ensures |q| == |Distinct(contents)|
    ensures SumCounts(q) == |contents|
  {
    var t := Tally(Distinct(contents), contents);
    TallySum(Distinct(contents), contents);
    assert |multiset(SortByCount(t))| == |multiset(t)|;
    SortByCount(t)
  }

  /** The sorted insert keeps any pairwise relation R that holds of `t`, that
      holds from `e` to the entries at least as heavy as `e`, and that holds
      towards `e` from the entries lighter than `e`. */
  lemma {:induction false} InsertKeeps(e: Entry, t: seq<Entry>, R: (Entry, Entry) -> bool)
    requires SortedByCount(t) && Pairwise(t, R)
    requires forall y :: y in t && e.count <= y.count ==> R(e, y)
    requires forall y :: y in t && y.count < e.count ==> R(y, e)
    ensures Pairwise(InsertByCount(e, t), R)
  {
    if t == [] || e.count <= t[0].count {
      forall y | y in t ensures R(e, y) {
        var k :| 0 <= k < |t| && t[k] == y;
        assert t[0].count <= t[k].count;
      }
      ConsPairwise(e, t, R);
    } else {
      InsertKeeps(e, t[1..], R);
      HeadRelates(e, t, R);
      ConsPairwise(t[0], InsertByCount(e, t[1..]), R);
    }
  }

  /** Putting `x` in front keeps a pairwise relation when `x` relates to all. */
  lemma ConsPairwise(x: Entry, q: seq<Entry>, R: (Entry, Entry) -> bool)
    requires Pairwise(q, R)
    requires forall y :: y in q ==> R(x, y)
    ensures Pairwise([x] + q, R)
  {
    var r := [x] + q;
    forall i, j | 0 <= i < j < |r| ensures R(r[i], r[j]) {
      assert r[j] == q[j - 1];
      if i > 0 {
        assert r[i] == q[i - 1];
      } else {
        assert q[j - 1] in q;
      }
    }
  }

  /** When `e` goes behind the head of `t`, the head relates to everything
      after it. */
  lemma HeadRelates(e: Entry, t: seq<Entry>, R: (Entry, Entry) -> bool)
    requires t != [] && t[0].count < e.count
    requires Pairwise(t, R)
    requires forall y :: y in t && y.count < e.count ==> R(y, e)
    ensures forall y :: y in InsertByCount(e, t[1..]) ==> R(t[0], y)
  {
    var r' := InsertByCount(e, t[1..]);
    forall y | y in r' ensures R(t[0], y) {
      assert y in multiset(r');
      if y != e {
        assert y in t[1..];
        var k :| 0 <= k < |t[1..]| && t[1..][k] == y;
        assert t[k + 1] == y;
      }
    }
  }

  lemma {:induction false} SortSorted(q: seq<Entry>)
    ensures SortedByCount(SortByCount(q))
  {
    if q != [] {
      SortSorted(q[1..]);
      InsertKeeps(q[0], SortByCount(q[1..]), CountLeq);
    }
  }

  /** The sort keeps a pairwise relation R when R holds of each input pair
      that keeps its order (count not decreasing) and, reversed, of each pair
      the sort swaps (count strictly decreasing). */
  lemma {:induction false} SortKeeps(q: seq<Entry>, R: (Entry, Entry) -> bool)
    requires forall i, j :: 0 <= i < j < |q| ==>
               (q[i].count <= q[j].count ==> R(q[i], q[j])) &&
               (q[j].count < q[i].count ==> R(q[j], q[i]))
    ensures Pairwise(SortByCount(q), R)
  {
    if q != [] {
      var t := SortByCount(q[1..]);
      SortKeeps(q[1..], R);
      SortSorted(q[1..]);
      forall y | y in t
        ensures (q[0].count <= y.count ==> R(q[0], y)) && (y.count < q[0].count ==> R(y, q[0]))
      {
        assert y in multiset(q[1..]);
        var k :| 0 <= k < |q[1..]| && q[1..][k] == y;
        assert q[k + 1] == y;
      }
      InsertKeeps(q[0], t, R);
    }
  }

  lemma {:induction false} TallyEmpty(d: string)
    ensures SumCounts(Tally(d, [])) == 0
  {
    if d != [] {
      TallyEmpty(d[1..]);
    }
  }

  lemma {:induction false} TallyStep(d: string, p: string, x: char)
    requires NoDup(d)
    ensures SumCounts(Tally(d, p + [x])) == SumCounts(Tally(d, p)) + (if x in d then 1 else 0)
  {
    if d != [] {
      assert NoDup(d[1..]) by {
        forall i, j | 0 <= i < j < |d[1..]| ensures d[1..][i] != d[1..][j] {
          assert d[1..][i] == d[i + 1] && d[1..][j] == d[j + 1];
        }
      }
      TallyStep(d[1..], p, x);
      assert multiset(p + [x]) == multiset(p) + multiset{x};
      assert x in d <==> x == d[0] || x in d[1..];
      assert x == d[0] ==> x !in d[1..];
    }
  }

  /** The counts of a tally over the distinct characters add up to `|s|`. */
  lemma {:induction false} TallySum(d: string, s: string)
    requires NoDup(d)
    requires forall c :: c in s ==> c in d
    ensures SumCounts(Tally(d, s)) == |s|
    decreases |s|
  {
    if s == [] {
      TallyEmpty(d);
    } else {
      var p, x := s[..|s| - 1], s[|s| - 1];
      assert s == p + [x];
      TallySum(d, p);
      TallyStep(d, p, x);
    }
  }

  /** The distinct characters of `text`. */
  function Alphabet(text: string): set<char> {
    set c | c in text
  }

  /** Each distinct character of `contents` has exactly one entry, paired with
      its exact number of occurrences, and the counts add up to `|contents|`. */
  lemma FrequencyCounts(contents: string)
    ensures Chars(CharacterFrequency(contents)) == Alphabet(contents)
    ensures UniqueChars(CharacterFrequency(contents))
    ensures var q := CharacterFrequency(contents);
      forall i :: 0 <= i < |q| ==> q[i].count == multiset(contents)[q[i].ch] >= 1
    ensures SumCounts(CharacterFrequency(contents)) == |contents|
  {
    var d := Distinct(contents);
    var t := Tally(d, contents);
    FrequencyChars(contents);
    FrequencyExact(contents);
    SortKeeps(t, (x: Entry, y: Entry) => x.ch != y.ch);
    TallySum(d, contents);
  }

  lemma FrequencyChars(contents: string)
    ensures Chars(CharacterFrequency(contents)) == Alphabet(contents)
  {
    var d := Distinct(contents);
    var t := Tally(d, contents);
    var q := CharacterFrequency(contents);
    SameElements(q, t);
    forall c | c in contents ensures c in Chars(q) {
      var i :| 0 <= i < |d| && d[i] == c;
      assert t[i] in q;
    }
    forall c | c in Chars(q) ensures c in contents {
      var i :| 0 <= i < |q| && q[i].ch == c;
      assert q[i] in t;
    }
  }

  lemma FrequencyExact(contents: string)
    ensures var q := CharacterFrequency(contents);
      forall i :: 0 <= i < |q| ==> q[i].count == multiset(contents)[q[i].ch] >= 1
  {
    var d := Distinct(contents);
    var t := Tally(d, contents);
    var q := CharacterFrequency(contents);
    SameElements(q, t);
    forall i | 0 <= i < |q| ensures q[i].count == multiset(contents)[q[i].ch] >= 1 {
      assert q[i] in t;
      var k :| 0 <= k < |t| && t[k] == q[i];
      assert d[k] in contents;
    }
  }

  lemma SameElements(a: seq<Entry>, b: seq<Entry>)
    requires multiset(a) == multiset(b)
    ensures forall e :: e in a <==> e in b
  {
    forall e ensures e in a <==> e in b {
      assert e in a <==> e in multiset(a);
      assert e in b <==> e in multiset(b);
    }
  }

  /** The queue is sorted non-decreasing by count, and entries with equal counts
      keep the order in which their characters first occur in `contents`. */
  lemma FrequencySortedStable(contents: string)
    ensures var q := CharacterFrequency(contents);
      && SortedByCount(q)
      && (forall i :: 0 <= i < |q| ==> q[i].ch in contents)
      && (forall i, j :: 0 <= i < j < |q| && q[i].count == q[j].count ==>
            FirstIndex(contents, q[i].ch) < FirstIndex(contents, q[j].ch))
  {
    var d := Distinct(contents);
    var t := Tally(d, contents);
    var q := CharacterFrequency(contents);
    SortSorted(t);
    DistinctOrdered(contents);
    SameElements(q, t);
    forall i | 0 <= i < |q| ensures q[i].ch in contents {
      assert q[i] in t;
    }
    var TieOrdered := (x: Entry, y: Entry) =>
      x.count == y.count && x.ch in contents && y.ch in contents ==>
        FirstIndex(contents, x.ch) < FirstIndex(contents, y.ch);
    SortKeeps(t, TieOrdered);
    assert Pairwise(q, TieOrdered);
  }

  /** In a list with distinct characters an entry occurs at most once. */
  lemma {:induction false} UniqueOnce(q: seq<Entry>, x: Entry)
    requires UniqueChars(q)
    ensures multiset(q)[x] <= 1
  {
    if q != [] {
      var t := q[1..];
      assert q == [q[0]] + t;
      assert UniqueChars(t) by {
        forall i, j | 0 <= i < j < |t| ensures t[i].ch != t[j].ch {
          assert t[i] == q[i + 1] && t[j] == q[j + 1];
        }
      }
      UniqueOnce(t, x);
      if x == q[0] {
        forall k | 0 <= k < |t| ensures t[k] != x {
          assert t[k] == q[k + 1];
        }
        assert x !in t;
      }
    }
  }

  /** Two positions holding the same entry make it occur twice. */
  lemma TwiceAt(q: seq<Entry>, i: nat, j: nat)
    requires i < j < |q|
    ensures q[i] == q[j] ==> multiset(q)[q[i]] >= 2
  {
    assert q == q[..j] + q[j..];
    assert q[..j][i] == q[i] && q[j..][0] == q[j];
    assert q[i] in multiset(q[..j]) && q[j] in multiset(q[j..]);
  }

  /** Entries taken from a list with distinct characters, none more often
      than there, have distinct characters. */
  lemma SubBagUnique(a: seq<Entry>, b: seq<Entry>)
    requires multiset(a) <= multiset(b) && UniqueChars(b)
    ensures UniqueChars(a)
  {
    forall i, j | 0 <= i < j < |a| ensures a[i].ch != a[j].ch {
      TwiceAt(a, i, j);
      UniqueOnce(b, a[i]);
      assert a[i] != a[j];
      assert a[i] in multiset(b) && a[j] in multiset(b);
      var p :| 0 <= p < |b| && b[p] == a[i];
      var k :| 0 <= k < |b| && b[k] == a[j];
      assert p != k;
      if p < k {
        assert b[p].ch != b[k].ch;
      } else {
        assert b[k].ch != b[p].ch;
      }
    }
  }

  /** Distinct characters in `a + b`: distinct in `a`, and no character of
      `a` in `b`. */
  lemma UniqueSplit(a: seq<Entry>, b: seq<Entry>)
    requires UniqueChars(a + b)
    ensures UniqueChars(a)
    ensures Chars(a) !! Chars(b)
  {
    forall i, j | 0 <= i < j < |a| ensures a[i].ch != a[j].ch {
      assert (a + b)[i] == a[i] && (a + b)[j] == a[j];
    }
    forall c | c in Chars(a) ensures c !in Chars(b) {
      var i :| 0 <= i < |a| && a[i].ch == c;
      forall k | 0 <= k < |b| ensures b[k].ch != c {
        assert (a + b)[i] == a[i] && (a + b)[|a| + k] == b[k];
      }
    }
  }

  /** Lists with the same entries have the same characters. */
  lemma SameBagChars(a: seq<Entry>, b: seq<Entry>)
    requires multiset(a) == multiset(b)
    ensures Chars(a) == Chars(b)
  {
    forall c | c in Chars(a) ensures c in Chars(b) {
      var i :| 0 <= i < |a| && a[i].ch == c;
      assert a[i] in multiset(b);
      var p :| 0 <= p < |b| && b[p] == a[i];
    }
    forall c | c in Chars(b) ensures c in Chars(a) {
      var p :| 0 <= p < |b| && b[p].ch == c;
      assert b[p] in multiset(a);
      var i :| 0 <= i < |a| && a[i] == b[p];
    }
  }

  /** With distinct characters there are as many characters as entries. */
  lemma {:induction false} UniqueCard(q: seq<Entry>)
    requires UniqueChars(q)
    ensures |Chars(q)| == |q|
  {
    if q != [] {
      var t := q[1..];
      assert UniqueChars(t) by {
        forall i, j | 0 <= i < j < |t| ensures t[i].ch != t[j].ch {
          assert t[i] == q[i + 1] && t[j] == q[j + 1];
        }
      }
      UniqueCard(t);
      assert Chars(q) == {q[0].ch} + Chars(t) by {
        forall c | c in Chars(q) ensures c in {q[0].ch} + Chars(t) {
          var i :| 0 <= i < |q| && q[i].ch == c;
          if i > 0 {
            assert t[i - 1] == q[i];
          }
        }
        forall c | c in Chars(t) ensures c in Chars(q) {
          var i :| 0 <= i < |t| && t[i].ch == c;
          assert q[i + 1] == t[i];
        }
      }
      assert q[0].ch !in Chars(t) by {
        forall k | 0 <= k < |t| ensures t[k].ch != q[0].ch {
          assert t[k] == q[k + 1];
        }
      }
    }
  }

  lemma CharsAppend(a: seq<Entry>, b: seq<Entry>)
    ensures Chars(a + b) == Chars(a) + Chars(b)
  {
    forall c | c in Chars(a + b) ensures c in Chars(a) + Chars(b) {
      var i :| 0 <= i < |a + b| && (a + b)[i].ch == c;
      if i >= |a| {
        assert b[i - |a|] == (a + b)[i];
      }
    }
    forall c | c in Chars(a) ensures c in Chars(a + b) {
      var i :| 0 <= i < |a| && a[i].ch == c;
      assert (a + b)[i] == a[i];
    }
    forall c | c in Chars(b) ensures c in Chars(a + b) {
      var i :| 0 <= i < |b| && b[i].ch == c;
      assert (a + b)[|a| + i] == b[i];
    }
  }

  /** The total count does not depend on the order of the entries. */
  lemma {:induction false} SumCountsPerm(a: seq<Entry>, b: seq<Entry>)
    requires multiset(a) == multiset(b)
    ensures SumCounts(a) == SumCounts(b)
    decreases |a|
  {
    if a == [] {
      assert |b| == |multiset(b)| == |multiset(a)| == 0;
    } else {
      assert a[0] in multiset(b);
      var p :| 0 <= p < |b| && b[p] == a[0];
      var rest := b[..p] + b[p + 1..];
      assert b == b[..p] + [b[p]] + b[p + 1..];
      RemoveBag(b[..p], [b[p]], b[p + 1..]);
      RemoveSum(b[..p], [b[p]], b[p + 1..]);
      assert a == [a[0]] + a[1..];
      assert multiset(a[1..]) == multiset(a) - multiset{a[0]};
      SumCountsPerm(a[1..], rest);
    }
  }

  /** Taking out the middle entry takes out one copy and its count. */
  lemma RemoveBag(x: seq<Entry>, y: seq<Entry>, z: seq<Entry>)
    requires |y| == 1
    ensures multiset(x + z) == multiset(x + y + z) - multiset{y[0]}
  {
    assert multiset(x + y + z) == multiset(x) + multiset(y) + multiset(z);
    assert multiset(y) == multiset{y[0]};
  }

  lemma RemoveSum(x: seq<Entry>, y: seq<Entry>, z: seq<Entry>)
    requires |y| == 1
    ensures SumCounts(x + y + z) == y[0].count + SumCounts(x + z)
  {
    SumCountsAppend(x + y, z);
    SumCountsAppend(x, y);
    SumCountsAppend(x, z);
    assert y[1..] == [];
  }

  lemma {:induction false} SumCountsAppend(a: seq<Entry>, b: seq<Entry>)
    ensures SumCounts(a + b) == SumCounts(a) + SumCounts(b)
  {
    if a == [] {
      assert a + b == b;
    } else {
      assert (a + b)[1..] == a[1..] + b;
      SumCountsAppend(a[1..], b);
    }
  }

  /** Entries that, with the entries `gone`, are exactly those of a list with
      distinct characters: distinct themselves, and all of its characters and
      its total exactly when nothing is gone. */
  lemma PartOfUnique(part: seq<Entry>, gone: seq<Entry>, whole: seq<Entry>)
    requires multiset(part + gone) == multiset(whole) && UniqueChars(whole)
    ensures UniqueChars(part)
    ensures Chars(part) <= Chars(whole)
    ensures gone == [] <==> Chars(part) == Chars(whole)
    ensures gone == [] ==> SumCounts(part) == SumCounts(whole)
  {
    SubBagUnique(part + gone, whole);
    UniqueSplit(part, gone);
    SameBagChars(part + gone, whole);
    CharsAppend(part, gone);
    if gone == [] {
      assert part + gone == part;
      SumCountsPerm(part, whole);
    } else {
      assert gone[0].ch in Chars(gone);
    }
  }
}
