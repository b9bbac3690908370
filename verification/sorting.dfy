/** Python's `sorted(xs, key=d.get, reverse=True)`: a stable sort by
    descending key, so elements with equal keys keep their input order. */
module Sorting {
  import opened Common
  import opened Dicts

  /** The sort key of x. Every caller sorts keys that the key map holds,
      so the default 0 is never read; in Python 3 a missing key would give
      None and make the sort raise. */
  function KeyOf<T(==)>(key: map<T, int>, x: T): int {
    MapGet(key, x, 0)
  }

  predicate NonIncreasing<T(==)>(s: seq<T>, key: map<T, int>) {
    forall i, j :: 0 <= i < j < |s| ==> KeyOf(key, s[j]) <= KeyOf(key, s[i])
  }

  /** Insert x into a descending sequence after every element whose key is
      at least x's: that is what keeps equal keys in input order. */
  function InsertDesc<T(==)>(x: T, s: seq<T>, key: map<T, int>): (r: seq<T>)
    ensures |r| == |s| + 1
  {
    if s == [] then [x]
    else if KeyOf(key, s[0]) >= KeyOf(key, x) then [s[0]] + InsertDesc(x, s[1..], key)
    else [x] + s
  }

  function SortDesc<T(==)>(s: seq<T>, key: map<T, int>): (r: seq<T>)
    ensures |r| == |s|
  {
    if s == [] then [] else InsertDesc(s[|s| - 1], SortDesc(s[..|s| - 1], key), key)
  }

  /** How many leading elements of s InsertDesc steps over. */
  function InsertPos<T(==)>(x: T, s: seq<T>, key: map<T, int>): (p: nat)
    ensures p <= |s|
  {
    if s != [] && KeyOf(key, s[0]) >= KeyOf(key, x) then 1 + InsertPos(x, s[1..], key) else 0
  }

  lemma {:induction false} InsertDescSplit<T>(x: T, s: seq<T>, key: map<T, int>)
    ensures var p := InsertPos(x, s, key); InsertDesc(x, s, key) == s[..p] + [x] + s[p..]
  {
    if s != [] && KeyOf(key, s[0]) >= KeyOf(key, x) {
      var rest := s[1..];
      InsertDescSplit(x, rest, key);
      var q := InsertPos(x, rest, key);
      assert s[..q + 1] == [s[0]] + rest[..q];
      assert s[q + 1..] == rest[q..];
    }
  }

  lemma {:induction false} InsertDescCount<T>(x: T, s: seq<T>, key: map<T, int>)
    ensures multiset(InsertDesc(x, s, key)) == multiset(s) + multiset{x}
  {
    var p := InsertPos(x, s, key);
    InsertDescSplit(x, s, key);
    MultisetInsert(InsertDesc(x, s, key), s, s[..p], x, s[p..]);
  }

  lemma InsertDescMember<T>(x: T, s: seq<T>, key: map<T, int>, y: T)
    ensures y in InsertDesc(x, s, key) <==> y == x || y in s
  {
    InsertDescCount(x, s, key);
    assert y in InsertDesc(x, s, key) <==> y in multiset(InsertDesc(x, s, key));
    assert y in s <==> y in multiset(s);
  }

  lemma {:induction false} InsertDescOrdered<T>(x: T, s: seq<T>, key: map<T, int>)
    requires NonIncreasing(s, key)
    ensures NonIncreasing(InsertDesc(x, s, key), key)
  {
    if s != [] && KeyOf(key, s[0]) >= KeyOf(key, x) {
      InsertDescOrdered(x, s[1..], key);
      var t := InsertDesc(x, s[1..], key);
      forall j | 0 <= j < |t| ensures KeyOf(key, t[j]) <= KeyOf(key, s[0]) {
        InsertDescMember(x, s[1..], key, t[j]);
      }
    }
  }

  lemma {:induction false} InsertDescDistinct<T>(x: T, s: seq<T>, key: map<T, int>)
    requires Distinct(s) && x !in s
    ensures Distinct(InsertDesc(x, s, key))
  {
    if s != [] && KeyOf(key, s[0]) >= KeyOf(key, x) {
      InsertDescDistinct(x, s[1..], key);
      var t := InsertDesc(x, s[1..], key);
      forall j | 0 <= j < |t| ensures t[j] != s[0] {
        InsertDescMember(x, s[1..], key, t[j]);
      }
    }
  }

  /** The sort is a permutation of its input, in non-increasing key order,
      and it keeps a repeat-free input repeat-free. */
  lemma SortDescProps<T>(s: seq<T>, key: map<T, int>)
    ensures |SortDesc(s, key)| == |s|
    ensures multiset(SortDesc(s, key)) == multiset(s)
    ensures NonIncreasing(SortDesc(s, key), key)
    ensures Distinct(s) ==> Distinct(SortDesc(s, key))
  {
    SortDescCount(s, key);
    SortDescOrdered(s, key);
    if Distinct(s) {
      SortDescDistinct(s, key);
    }
  }

  lemma {:induction false} SortDescCount<T>(s: seq<T>, key: map<T, int>)
    ensures multiset(SortDesc(s, key)) == multiset(s)
  {
    if s != [] {
      var init := s[..|s| - 1];
      var x := s[|s| - 1];
      SortDescCount(init, key);
      InsertDescCount(x, SortDesc(init, key), key);
      assert s == init + [x];
    }
  }

  lemma {:induction false} SortDescOrdered<T>(s: seq<T>, key: map<T, int>)
    ensures NonIncreasing(SortDesc(s, key), key)
  {
    if s != [] {
      var init := s[..|s| - 1];
      SortDescOrdered(init, key);
      InsertDescOrdered(s[|s| - 1], SortDesc(init, key), key);
    }
  }

  lemma {:induction false} SortDescDistinct<T>(s: seq<T>, key: map<T, int>)
    requires Distinct(s)
    ensures Distinct(SortDesc(s, key))
  {
    if s != [] {
      var init := s[..|s| - 1];
      var x := s[|s| - 1];
      var sorted := SortDesc(init, key);
      assert Distinct(init);
      SortDescDistinct(init, key);
      SortDescCount(init, key);
      assert x !in init;
      assert x !in multiset(sorted);
      InsertDescDistinct(x, sorted, key);
    }
  }

  /** Sorting a sequence keeps exactly its elements. */
  lemma SortDescMembers<T>(s: seq<T>, key: map<T, int>, x: T)
    ensures x in SortDesc(s, key) <==> x in s
  {
    SortDescProps(s, key);
    assert x in SortDesc(s, key) <==> x in multiset(SortDesc(s, key));
    assert x in s <==> x in multiset(s);
  }

  /** In a non-increasing sequence nothing after a prefix outranks the prefix. */
  lemma PrefixTop<T>(s: seq<T>, n: nat, key: map<T, int>)
    requires NonIncreasing(s, key) && n <= |s|
    ensures forall w, v :: w in s && w !in s[..n] && v in s[..n] ==> KeyOf(key, w) <= KeyOf(key, v)
  {
    forall w, v | w in s && w !in s[..n] && v in s[..n] ensures KeyOf(key, w) <= KeyOf(key, v) {
      var j :| 0 <= j < |s| && s[j] == w;
      var k :| 0 <= k < n && s[..n][k] == v;
    }
  }

  /** The first n of a descending sort: min(n, |s|) distinct elements of s,
      non-increasing, none outranked by an element left out. */
  lemma TopN<T>(s: seq<T>, key: map<T, int>, n: nat)
    requires Distinct(s)
    ensures var r := SortDesc(s, key)[..if n <= |s| then n else |s|];
      && Distinct(r)
      && (forall w :: w in r ==> w in s)
      && NonIncreasing(r, key)
      && (forall w, v :: w in s && w !in r && v in r ==> KeyOf(key, w) <= KeyOf(key, v))
  {
    var sorted := SortDesc(s, key);
    SortDescProps(s, key);
    var m := if n <= |s| then n else |s|;
    forall w | w in sorted[..m] ensures w in s {
      SortDescMembers(s, key, w);
    }
    forall w | w in s ensures w in sorted {
      SortDescMembers(s, key, w);
    }
    PrefixTop(sorted, m, key);
  }
}
