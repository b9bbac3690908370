/** Word and bigram counting over a token stream (pro_sequence.py). The
    engine's state dictionary is the class NGramState; a count table that
    the Python state does not hold yet is an empty table here. */
module Sequence {
  import opened Common
  import opened Dicts

  /** The sentence-start marker that every token stream is prefixed with. */
  const Start: string := "<s>"

  type Bigrams = map<string, map<string, int>>

  /** `bc.get(a, {}).get(b, 0)` */
  function BigramCount(bc: Bigrams, a: string, b: string): int {
    MapGet(MapGet(bc, a, map[]), b, 0)
  }

  /** One `wc[w] = wc.get(w, 0) + 1`. */
  function BumpWord(wc: ODict<string, int>, w: string): (r: ODict<string, int>)
    requires Valid(wc)
    ensures Valid(r)
  {
    PutValid(wc, w, Get(wc, w, 0) + 1);
    Put(wc, w, Get(wc, w, 0) + 1)
  }

  /** One `bc.setdefault(a, {})` followed by `bc[a][b] = bc[a].get(b, 0) + 1`. */
  function BumpPair(bc: Bigrams, a: string, b: string): Bigrams {
    var inner := MapGet(bc, a, map[]);
    bc[a := inner[b := MapGet(inner, b, 0) + 1]]
  }

  /** The word-count table after counting every word of ws, left to right. */
  function CountWords(wc: ODict<string, int>, ws: seq<string>): (r: ODict<string, int>)
    requires Valid(wc)
    ensures Valid(r)
  {
    if ws == [] then wc else BumpWord(CountWords(wc, ws[..|ws| - 1]), ws[|ws| - 1])
  }

  /** The word before position i of ws, where the word before the first is `start`. */
  function Prev(start: string, ws: seq<string>, i: nat): string
    requires i <= |ws|
  {
    if i == 0 then start else ws[i - 1]
  }

  /** The consecutive pairs of `[start] + ws`. */
  function Pairs(start: string, ws: seq<string>): (r: seq<(string, string)>)
    ensures |r| == |ws|
  {
    seq(|ws|, i requires 0 <= i < |ws| => (Prev(start, ws, i), ws[i]))
  }

  /** The bigram table after counting every consecutive pair of `[start] + ws`. */
  function CountPairs(bc: Bigrams, start: string, ws: seq<string>): Bigrams {
    if ws == [] then bc
    else BumpPair(CountPairs(bc, start, ws[..|ws| - 1]), Prev(start, ws, |ws| - 1), ws[|ws| - 1])
  }

  class NGramState {
    var wordCounts: ODict<string, int>
    var bigramCounts: Bigrams

    ghost predicate Valid() reads this { Dicts.Valid(wordCounts) }

    constructor ()
      ensures Valid() && wordCounts == Empty() && bigramCounts == map[]
    {
      wordCounts := Empty();
      bigramCounts := map[];
    }

    /** analyze_sequences: count the start marker once, every word, and every
        consecutive pair of the start-prefixed stream. */
    method AnalyzeSequences(words: seq<string>)
      requires Valid()
      modifies this
      ensures Valid()
      ensures wordCounts == CountWords(old(wordCounts), [Start] + words)
      ensures bigramCounts == CountPairs(old(bigramCounts), Start, words)
    {
      CountWordsCons(wordCounts, Start, words);
      ghost var wc0 := BumpWord(wordCounts, Start);
      ghost var bc0 := bigramCounts;
      var wc := BumpWord(wordCounts, Start);
      var bc := bigramCounts;
      var prev := Start;
      for i := 0 to |words|
        invariant Dicts.Valid(wc) && Dicts.Valid(wc0)
        invariant wc == CountWords(wc0, words[..i])
        invariant bc == CountPairs(bc0, Start, words[..i])
        invariant prev == Prev(Start, words, i)
      {
        CountWordsStep(wc0, words, i);
        CountPairsStep(bc0, Start, words, i);
        wc := BumpWord(wc, words[i]);
        bc := BumpPair(bc, prev, words[i]);
        prev := words[i];
      }
      assert words[..|words|] == words;
      wordCounts := wc;
      bigramCounts := bc;
    }
  }

  lemma CountWordsStep(wc: ODict<string, int>, ws: seq<string>, i: nat)
    requires Valid(wc) && i < |ws|
    ensures CountWords(wc, ws[..i + 1]) == BumpWord(CountWords(wc, ws[..i]), ws[i])
  {
    assert ws[..i + 1][..i] == ws[..i];
  }

  lemma CountPairsStep(bc: Bigrams, start: string, ws: seq<string>, i: nat)
    requires i < |ws|
    ensures CountPairs(bc, start, ws[..i + 1]) == BumpPair(CountPairs(bc, start, ws[..i]), Prev(start, ws, i), ws[i])
  {
    assert ws[..i + 1][..i] == ws[..i];
  }

  lemma {:induction false} CountWordsCons(wc: ODict<string, int>, x: string, ws: seq<string>)
    requires Valid(wc)
    ensures CountWords(wc, [x] + ws) == CountWords(BumpWord(wc, x), ws)
  {
    if ws == [] {
      assert ([x] + ws)[..0] == [];
    } else {
      var init := ws[..|ws| - 1];
      CountWordsCons(wc, x, init);
      assert ([x] + ws)[..|[x] + ws| - 1] == [x] + init;
    }
  }

  // ------------------------------------------------------------ properties

  /** Each word's count grows by its number of occurrences. */
  lemma {:induction false} CountWordsDelta(wc: ODict<string, int>, ws: seq<string>, w: string)
    requires Valid(wc)
    ensures Get(CountWords(wc, ws), w, 0) == Get(wc, w, 0) + Count(ws, w)
  {
    if ws != [] {
      CountWordsDelta(wc, ws[..|ws| - 1], w);
      assert ws == ws[..|ws| - 1] + [ws[|ws| - 1]];
    }
  }

  /** Counting never forgets a key, and new words are appended in order of
      first occurrence. */
  lemma {:induction false} CountWordsKeys(wc: ODict<string, int>, ws: seq<string>)
    requires Valid(wc)
    ensures wc.keys <= CountWords(wc, ws).keys
    ensures forall w :: w in CountWords(wc, ws).vals <==> w in wc.vals || w in ws
  {
    if ws != [] {
      CountWordsKeys(wc, ws[..|ws| - 1]);
      var before := CountWords(wc, ws[..|ws| - 1]);
      forall w ensures w in ws <==> w in ws[..|ws| - 1] || w == ws[|ws| - 1] {
        assert ws == ws[..|ws| - 1] + [ws[|ws| - 1]];
      }
    }
  }

  /** Each pair of the start-prefixed stream raises its bigram count by the
      number of times it occurs, and there are exactly |ws| pairs in all. */
  lemma {:induction false} CountPairsDelta(bc: Bigrams, start: string, ws: seq<string>, a: string, b: string)
    ensures BigramCount(CountPairs(bc, start, ws), a, b)
      == BigramCount(bc, a, b) + Count(Pairs(start, ws), (a, b))
  {
    if ws != [] {
      var init := ws[..|ws| - 1];
      var p := (Prev(start, ws, |ws| - 1), ws[|ws| - 1]);
      assert Pairs(start, ws) == Pairs(start, init) + [p];
      CountPairsDelta(bc, start, init, a, b);
      CountSnoc(Pairs(start, init), p, (a, b));
      BumpPairCount(CountPairs(bc, start, init), p.0, p.1, a, b);
    }
  }

  lemma BumpPairCount(bc: Bigrams, x: string, y: string, a: string, b: string)
    ensures BigramCount(BumpPair(bc, x, y), a, b) == BigramCount(bc, a, b) + (if (x, y) == (a, b) then 1 else 0)
  {
  }

  /** analyze_sequences adds exactly one to the start marker's count, plus
      any occurrences of the marker among the words themselves. */
  lemma StartCounted(wc: ODict<string, int>, words: seq<string>)
    requires Valid(wc)
    ensures Get(CountWords(wc, [Start] + words), Start, 0) == Get(wc, Start, 0) + 1 + Count(words, Start)
  {
    CountWordsDelta(wc, [Start] + words, Start);
    assert multiset([Start] + words) == multiset{Start} + multiset(words);
  }

  /** No count ever decreases, word or bigram. */
  lemma Monotone(wc: ODict<string, int>, bc: Bigrams, words: seq<string>, w: string, a: string, b: string)
    requires Valid(wc)
    ensures Get(wc, w, 0) <= Get(CountWords(wc, [Start] + words), w, 0)
    ensures BigramCount(bc, a, b) <= BigramCount(CountPairs(bc, Start, words), a, b)
  {
    CountWordsDelta(wc, [Start] + words, w);
    CountPairsDelta(bc, Start, words, a, b);
  }
}
