/** Saving trigram tables (pro_tune.py). JSON object keys must be strings,
    so each trigram key, a pair of words, is written as the two words joined
    by the control character U+0001, and read back by splitting on it. */
module Tune {
  import opened Common
  import opened Dicts

  const Sep: char := 1 as char

  /** The state dictionary: its trigram table and every other entry, `rest`,
      which neither direction touches. */
  datatype State<V, R> = State(trigrams: ODict<(string, string), V>, rest: R)
  datatype Saved<V, R> = Saved(trigrams: ODict<string, V>, rest: R)

  /** `f"{a}{_SEP}{b}"` */
  function JoinKey(a: string, b: string): string { a + [Sep] + b }

  /** `s.split(_SEP)`: the pieces between separators, empty ones included. */
  function SplitSep(s: string): (r: seq<string>)
    ensures r != []
  {
    SplitFrom(s, "")
  }

  function SplitFrom(s: string, cur: string): (r: seq<string>)
    ensures r != []
  {
    if s == [] then [cur]
    else if s[0] == Sep then [cur] + SplitFrom(s[1..], "")
    else SplitFrom(s[1..], cur + [s[0]])
  }

  /** The serialised table: every pair key joined, in table order; should two
      pairs join to the same string, the later one's value is kept. */
  function SaveTrigrams<V>(tc: ODict<(string, string), V>, n: nat): ODict<string, V>
    requires Valid(tc) && n <= |tc.keys|
  {
    if n == 0 then Empty()
    else
      var k := tc.keys[n - 1];
      Put(SaveTrigrams(tc, n - 1), JoinKey(k.0, k.1), tc.vals[k])
  }

  lemma {:induction false} SaveTrigramsValid<V>(tc: ODict<(string, string), V>, n: nat)
    requires Valid(tc) && n <= |tc.keys|
    ensures Valid(SaveTrigrams(tc, n))
  {
    if n > 0 {
      SaveTrigramsValid(tc, n - 1);
      var k := tc.keys[n - 1];
      PutValid(SaveTrigrams(tc, n - 1), JoinKey(k.0, k.1), tc.vals[k]);
    }
  }

  /** _serialize_state: a new dictionary; the input is left as it was. */
  function Serialize<V, R>(s: State<V, R>): (r: Saved<V, R>)
    requires Valid(s.trigrams)
    ensures Valid(r.trigrams) && r.rest == s.rest
  {
    SaveTrigramsValid(s.trigrams, |s.trigrams.keys|);
    Saved(SaveTrigrams(s.trigrams, |s.trigrams.keys|), s.rest)
  }

  /** The table read back from the first n saved keys: only keys that split
      into exactly two pieces are kept. */
  function LoadTrigrams<V>(tc: ODict<string, V>, n: nat): ODict<(string, string), V>
    requires Valid(tc) && n <= |tc.keys|
  {
    if n == 0 then Empty()
    else
      var k := tc.keys[n - 1];
      var parts := SplitSep(k);
      var prev := LoadTrigrams(tc, n - 1);
      if |parts| == 2 then Put(prev, (parts[0], parts[1]), tc.vals[k]) else prev
  }

  lemma {:induction false} LoadTrigramsValid<V>(tc: ODict<string, V>, n: nat)
    requires Valid(tc) && n <= |tc.keys|
    ensures Valid(LoadTrigrams(tc, n))
  {
    if n > 0 {
      LoadTrigramsValid(tc, n - 1);
      var k := tc.keys[n - 1];
      var parts := SplitSep(k);
      if |parts| == 2 {
        PutValid(LoadTrigrams(tc, n - 1), (parts[0], parts[1]), tc.vals[k]);
      }
    }
  }

  /** _deserialize_state */
  method Deserialize<V, R>(s: Saved<V, R>) returns (r: State<V, R>)
    requires Valid(s.trigrams)
    ensures Valid(r.trigrams)
    ensures r == State(LoadTrigrams(s.trigrams, |s.trigrams.keys|), s.rest)
    ensures forall k :: k in s.trigrams.vals && |SplitSep(k)| == 2 ==>
      (SplitSep(k)[0], SplitSep(k)[1]) in r.trigrams.vals
      && r.trigrams.vals[(SplitSep(k)[0], SplitSep(k)[1])] == s.trigrams.vals[k]
    ensures forall p :: p in r.trigrams.vals ==> JoinKey(p.0, p.1) in s.trigrams.vals
  {
    var tc: ODict<(string, string), V> := Empty();
    for i := 0 to |s.trigrams.keys|
      invariant Valid(tc) && tc == LoadTrigrams(s.trigrams, i)
    {
      var k := s.trigrams.keys[i];
      var parts := SplitSep(k);
      if |parts| == 2 {
        PutValid(tc, (parts[0], parts[1]), s.trigrams.vals[k]);
        tc := Put(tc, (parts[0], parts[1]), s.trigrams.vals[k]);
      }
    }
    r := State(tc, s.rest);
    LoadTrigramsProps(s.trigrams, |s.trigrams.keys|);
  }

  // ------------------------------------------------------------ splitting

  predicate SepFree(s: string) { Sep !in s }

  /** Joining the pieces with the separator gives back the string. */
  function JoinSep(parts: seq<string>): string
    requires parts != []
  {
    if |parts| == 1 then parts[0] else parts[0] + [Sep] + JoinSep(parts[1..])
  }

  lemma {:induction false} SplitFromProps(s: string, cur: string)
    requires SepFree(cur)
    ensures forall p :: p in SplitFrom(s, cur) ==> SepFree(p)
    ensures JoinSep(SplitFrom(s, cur)) == cur + s
    decreases |s|
  {
    if s != [] {
      if s[0] == Sep {
        SplitFromProps(s[1..], "");
        assert s == [Sep] + s[1..];
      } else {
        SplitFromProps(s[1..], cur + [s[0]]);
        assert cur + [s[0]] + s[1..] == cur + s;
      }
    }
  }

  lemma {:induction false} SplitFromPlain(a: string, rest: string, cur: string)
    requires SepFree(a)
    ensures SplitFrom(a + rest, cur) == SplitFrom(rest, cur + a)
    decreases |a|
  {
    if a == [] {
      assert a + rest == rest;
      assert cur + a == cur;
    } else {
      assert (a + rest)[0] == a[0];
      assert (a + rest)[1..] == a[1..] + rest;
      SplitFromPlain(a[1..], rest, cur + [a[0]]);
      assert cur + [a[0]] + a[1..] == cur + a;
    }
  }

  /** Splitting a joined key gives its two words back, when neither word
      holds the separator. */
  lemma SplitJoinKey(a: string, b: string)
    requires SepFree(a) && SepFree(b)
    ensures SplitSep(JoinKey(a, b)) == [a, b]
  {
    var tail := [Sep] + b;
    assert JoinKey(a, b) == a + tail;
    assert tail[1..] == b;
    assert b + [] == b;
    calc {
      SplitFrom(a + tail, "");
      { SplitFromPlain(a, tail, ""); assert "" + a == a; }
      SplitFrom(tail, a);
      [a] + SplitFrom(b, "");
      { SplitFromPlain(b, [], ""); assert "" + b == b; }
      [a] + SplitFrom([], b);
    }
  }

  /** Distinct separator-free pairs join to distinct keys. */
  lemma JoinKeyInjective(p: (string, string), q: (string, string))
    requires SepFree(p.0) && SepFree(p.1) && SepFree(q.0) && SepFree(q.1)
    requires JoinKey(p.0, p.1) == JoinKey(q.0, q.1)
    ensures p == q
  {
    SplitJoinKey(p.0, p.1);
    SplitJoinKey(q.0, q.1);
  }

  /** A string that splits into exactly two pieces is those pieces joined. */
  lemma SplitTwo(s: string)
    requires |SplitSep(s)| == 2
    ensures JoinKey(SplitSep(s)[0], SplitSep(s)[1]) == s
    ensures SepFree(SplitSep(s)[0]) && SepFree(SplitSep(s)[1])
  {
    SplitFromProps(s, "");
    var parts := SplitSep(s);
    assert parts[1..] == [parts[1]];
  }

  // ----------------------------------------------------------- properties

  lemma {:induction false} LoadTrigramsProps<V>(tc: ODict<string, V>, n: nat)
    requires Valid(tc) && n <= |tc.keys|
    ensures forall k :: k in tc.keys[..n] && |SplitSep(k)| == 2 ==>
      (SplitSep(k)[0], SplitSep(k)[1]) in LoadTrigrams(tc, n).vals
      && LoadTrigrams(tc, n).vals[(SplitSep(k)[0], SplitSep(k)[1])] == tc.vals[k]
    ensures forall p :: p in LoadTrigrams(tc, n).vals ==> JoinKey(p.0, p.1) in tc.keys[..n]
  {
    if n > 0 {
      LoadTrigramsProps(tc, n - 1);
      var k := tc.keys[n - 1];
      assert tc.keys[..n] == tc.keys[..n - 1] + [k];
      forall k' | k' in tc.keys[..n] && |SplitSep(k')| == 2
        ensures (SplitSep(k')[0], SplitSep(k')[1]) in LoadTrigrams(tc, n).vals
          && LoadTrigrams(tc, n).vals[(SplitSep(k')[0], SplitSep(k')[1])] == tc.vals[k']
      {
        if k' != k && |SplitSep(k)| == 2 {
          SplitTwo(k);
          SplitTwo(k');
          assert (SplitSep(k')[0], SplitSep(k')[1]) != (SplitSep(k)[0], SplitSep(k)[1]);
        }
      }
      forall p | p in LoadTrigrams(tc, n).vals ensures JoinKey(p.0, p.1) in tc.keys[..n] {
        if |SplitSep(k)| == 2 && p == (SplitSep(k)[0], SplitSep(k)[1]) {
          SplitTwo(k);
        }
      }
    }
  }

  /** No word of any trigram key holds the separator. */
  predicate KeysSepFree<V>(tc: ODict<(string, string), V>) {
    forall k :: k in tc.keys ==> SepFree(k.0) && SepFree(k.1)
  }

  /** The first n keys of `saved` are the first n trigrams of tc joined, in
      order, each carrying its trigram's value. */
  ghost predicate SavedPrefix<V>(tc: ODict<(string, string), V>, saved: ODict<string, V>, n: nat)
    requires Valid(tc) && n <= |tc.keys|
  {
    |saved.keys| == n
    && forall i :: 0 <= i < n ==>
      saved.keys[i] == JoinKey(tc.keys[i].0, tc.keys[i].1)
      && saved.keys[i] in saved.vals && saved.vals[saved.keys[i]] == tc.vals[tc.keys[i]]
  }

  /** Saving keeps one key per trigram, in table order, each with its
      trigram's value, when no word holds the separator. */
  lemma {:induction false} SaveTrigramsProps<V>(tc: ODict<(string, string), V>, n: nat)
    requires Valid(tc) && n <= |tc.keys| && KeysSepFree(tc)
    ensures SavedPrefix(tc, SaveTrigrams(tc, n), n)
  {
    if n > 0 {
      var before := SaveTrigrams(tc, n - 1);
      SaveTrigramsProps(tc, n - 1);
      SaveTrigramsValid(tc, n - 1);
      SaveStep(tc, n, before);
    }
  }

  lemma SaveStep<V>(tc: ODict<(string, string), V>, n: nat, before: ODict<string, V>)
    requires Valid(tc) && 0 < n <= |tc.keys| && KeysSepFree(tc) && Valid(before)
    requires SavedPrefix(tc, before, n - 1)
    ensures var k := tc.keys[n - 1]; SavedPrefix(tc, Put(before, JoinKey(k.0, k.1), tc.vals[k]), n)
  {
    var k := tc.keys[n - 1];
    var key := JoinKey(k.0, k.1);
    SavedKeyFresh(tc, n, before);
    var after := Put(before, key, tc.vals[k]);
    assert after.keys == before.keys + [key];
    forall i | 0 <= i < n - 1 ensures after.vals[after.keys[i]] == tc.vals[tc.keys[i]] {
      assert before.keys[i] != key;
    }
  }

  /** The key of the n-th trigram is not among the keys saved before it. */
  lemma SavedKeyFresh<V>(tc: ODict<(string, string), V>, n: nat, before: ODict<string, V>)
    requires Valid(tc) && 0 < n <= |tc.keys| && KeysSepFree(tc) && Valid(before)
    requires SavedPrefix(tc, before, n - 1)
    ensures JoinKey(tc.keys[n - 1].0, tc.keys[n - 1].1) !in before.vals
  {
    var k := tc.keys[n - 1];
    var key := JoinKey(k.0, k.1);
    if key in before.vals {
      assert key in before.keys;
      var i :| 0 <= i < n - 1 && before.keys[i] == key;
      JoinKeyInjective(k, tc.keys[i]);
      assert false;
    }
  }

  /** Each of the saved keys splits into its trigram's two words and
      carries that trigram's value. */
  ghost predicate SplitsBack<V>(tc: ODict<(string, string), V>, saved: ODict<string, V>)
    requires Valid(tc)
  {
    |saved.keys| == |tc.keys|
    && forall i :: 0 <= i < |tc.keys| ==>
      SplitSep(saved.keys[i]) == [tc.keys[i].0, tc.keys[i].1]
      && saved.keys[i] in saved.vals && saved.vals[saved.keys[i]] == tc.vals[tc.keys[i]]
  }

  lemma SavedSplitsBack<V>(tc: ODict<(string, string), V>, saved: ODict<string, V>)
    requires Valid(tc) && KeysSepFree(tc) && SavedPrefix(tc, saved, |tc.keys|)
    ensures SplitsBack(tc, saved)
  {
    forall i | 0 <= i < |tc.keys| ensures SplitSep(saved.keys[i]) == [tc.keys[i].0, tc.keys[i].1] {
      SplitJoinKey(tc.keys[i].0, tc.keys[i].1);
    }
  }

  /** Loading one more saved key puts that key's trigram back. */
  lemma LoadSavedStep<V>(tc: ODict<(string, string), V>, saved: ODict<string, V>, m: nat)
    requires Valid(tc) && Valid(saved) && SplitsBack(tc, saved) && 0 < m <= |tc.keys|
    ensures LoadTrigrams(saved, m)
      == Put(LoadTrigrams(saved, m - 1), tc.keys[m - 1], tc.vals[tc.keys[m - 1]])
  {
  }

  /** d holds the first m trigrams of tc, in order, with their values. */
  ghost predicate LoadedPrefix<V>(tc: ODict<(string, string), V>, d: ODict<(string, string), V>, m: nat)
    requires Valid(tc) && m <= |tc.keys|
  {
    Valid(d) && d.keys == tc.keys[..m] && forall k :: k in d.vals ==> k in tc.vals && d.vals[k] == tc.vals[k]
  }

  /** The first m trigrams of tc put back one by one, in order. */
  function Rebuild<V>(tc: ODict<(string, string), V>, m: nat): ODict<(string, string), V>
    requires Valid(tc) && m <= |tc.keys|
  {
    if m == 0 then Empty() else Put(Rebuild(tc, m - 1), tc.keys[m - 1], tc.vals[tc.keys[m - 1]])
  }

  /** Loading the first m saved keys rebuilds the first m trigrams. */
  lemma {:induction false} LoadSaved<V>(tc: ODict<(string, string), V>, saved: ODict<string, V>, m: nat)
    requires Valid(tc) && Valid(saved) && SplitsBack(tc, saved) && m <= |tc.keys|
    ensures LoadTrigrams(saved, m) == Rebuild(tc, m)
  {
    if m > 0 {
      LoadSaved(tc, saved, m - 1);
      LoadSavedStep(tc, saved, m);
    }
  }

  /** Rebuilding the first m trigrams gives them back, in order. */
  lemma {:induction false} RebuildPrefix<V>(tc: ODict<(string, string), V>, m: nat)
    requires Valid(tc) && m <= |tc.keys|
    ensures LoadedPrefix(tc, Rebuild(tc, m), m)
  {
    if m > 0 {
      RebuildPrefix(tc, m - 1);
      LoadedStep(tc, m, Rebuild(tc, m - 1));
    }
  }

  lemma LoadedStep<V>(tc: ODict<(string, string), V>, m: nat, prev: ODict<(string, string), V>)
    requires Valid(tc) && 0 < m <= |tc.keys| && LoadedPrefix(tc, prev, m - 1)
    ensures LoadedPrefix(tc, Put(prev, tc.keys[m - 1], tc.vals[tc.keys[m - 1]]), m)
  {
    var k := tc.keys[m - 1];
    PutValid(prev, k, tc.vals[k]);
    LoadedKeyFresh(tc, m, prev);
    assert tc.keys[..m] == tc.keys[..m - 1] + [k];
  }

  /** The m-th trigram is not yet among the first m - 1 loaded back. */
  lemma LoadedKeyFresh<V, W>(tc: ODict<(string, string), V>, m: nat, prev: ODict<(string, string), W>)
    requires Valid(tc) && 0 < m <= |tc.keys| && Valid(prev) && prev.keys == tc.keys[..m - 1]
    ensures tc.keys[m - 1] !in prev.vals
  {
    forall i | 0 <= i < m - 1 ensures prev.keys[i] != tc.keys[m - 1] {
      assert prev.keys[i] == tc.keys[i];
    }
  }

  /** deserialize(serialize(s)) == s when no trigram word holds U+0001. */
  lemma RoundTrip<V, R>(s: State<V, R>)
    requires Valid(s.trigrams) && KeysSepFree(s.trigrams)
    ensures var saved := Serialize(s);
      State(LoadTrigrams(saved.trigrams, |saved.trigrams.keys|), saved.rest) == s
  {
    var tc := s.trigrams;
    var n := |tc.keys|;
    var saved := Serialize(s).trigrams;
    SaveTrigramsProps(tc, n);
    SavedSplitsBack(tc, saved);
    LoadSaved(tc, saved, n);
    RebuildPrefix(tc, n);
    LoadedAll(tc, Rebuild(tc, n));
  }

  /** A table holding all of tc's trigrams, in order, with their values, is tc. */
  lemma LoadedAll<V>(tc: ODict<(string, string), V>, d: ODict<(string, string), V>)
    requires Valid(tc) && LoadedPrefix(tc, d, |tc.keys|)
    ensures d == tc
  {
    assert tc.keys[..|tc.keys|] == tc.keys;
    assert d.vals.Keys == tc.vals.Keys;
  }
}
