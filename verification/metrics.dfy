/** Tokenising and the resonance score (pro_metrics.py). */
module Metrics {
  import opened Common
  import opened Text
  import opened Sequence

  /** `\w` on ASCII: letters, digits and the underscore. */
  predicate IsWordChar(c: char) { IsAlpha(c) || IsDigit(c) || c == '_' }

  /** tokenize: `re.findall(r"\b\w+\b", text.lower())`, i.e. the maximal runs
      of word characters of the lower-cased text. */
  function Tokenize(text: string): (r: seq<string>)
    ensures forall k :: 0 <= k < |r| ==> r[k] != []
    ensures forall k, i :: 0 <= k < |r| && 0 <= i < |r[k]| ==> IsWordChar(r[k][i]) && !IsUpper(r[k][i])
    ensures Concat(r) == Filter(LowerStr(text), IsWordChar)
  {
    var r := Runs(LowerStr(text), IsWordChar);
    RunsProps(LowerStr(text), IsWordChar);
    assert forall k, i :: 0 <= k < |r| && 0 <= i < |r[k]| ==> r[k][i] in Concat(r) by {
      forall k, i | 0 <= k < |r| && 0 <= i < |r[k]| ensures r[k][i] in Concat(r) {
        ConcatMember(r, k, i);
      }
    }
    assert forall c :: c in Filter(LowerStr(text), IsWordChar) ==> c in LowerStr(text) by {
      forall c | c in Filter(LowerStr(text), IsWordChar) ensures c in LowerStr(text) {
        FilterSubset(LowerStr(text), IsWordChar, c);
      }
    }
    r
  }

  lemma {:induction false} ConcatMember(ws: seq<string>, k: nat, i: nat)
    requires k < |ws| && i < |ws[k]|
    ensures ws[k][i] in Concat(ws)
  {
    if k > 0 {
      ConcatMember(ws[1..], k - 1, i);
    }
  }

  lemma {:induction false} FilterSubset(s: string, p: char -> bool, c: char)
    ensures c in Filter(s, p) ==> c in s
  {
    if s != [] {
      FilterSubset(s[1..], p, c);
    }
  }

  /** Lower-casing the text first changes nothing. */
  lemma TokenizeLowerInvariant(text: string)
    ensures Tokenize(LowerStr(text)) == Tokenize(text)
  {
    LowerStrIdempotent(text);
  }

  /** The sum of the bigram counts along a sequence of pairs; a pair that was
      never seen counts 0. */
  function PathSum(bc: Bigrams, ps: seq<(string, string)>): int {
    if ps == [] then 0 else PathSum(bc, ps[..|ps| - 1]) + BigramCount(bc, ps[|ps| - 1].0, ps[|ps| - 1].1)
  }

  /** resonance: the average bigram count along the start-prefixed word path. */
  method Resonance(words: seq<string>, bc: Bigrams) returns (r: real)
    ensures words == [] ==> r == 0.0
    ensures words != [] ==> r == PathSum(bc, Pairs(Start, words)) as real / |words| as real
  {
    if words == [] {
      return 0.0;
    }
    var total := 0;
    var prev := Start;
    for i := 0 to |words|
      invariant total == PathSum(bc, Pairs(Start, words)[..i])
      invariant prev == Prev(Start, words, i)
    {
      assert Pairs(Start, words)[..i + 1][..i] == Pairs(Start, words)[..i];
      total := total + BigramCount(bc, prev, words[i]);
      prev := words[i];
    }
    assert Pairs(Start, words)[..|words|] == Pairs(Start, words);
    r := total as real / |words| as real;
  }

  predicate NonNegative(bc: Bigrams) {
    forall a, b :: a in bc && b in bc[a] ==> bc[a][b] >= 0
  }

  lemma {:induction false} PathSumBounds(bc: Bigrams, ps: seq<(string, string)>, lo: int)
    requires forall k :: 0 <= k < |ps| ==> BigramCount(bc, ps[k].0, ps[k].1) >= lo
    ensures PathSum(bc, ps) >= lo * |ps|
  {
    if ps != [] {
      PathSumBounds(bc, ps[..|ps| - 1], lo);
    }
  }

  /** With non-negative counts the path sum, hence the resonance, is non-negative. */
  lemma PathSumNonNegative(bc: Bigrams, words: seq<string>)
    requires NonNegative(bc)
    ensures PathSum(bc, Pairs(Start, words)) >= 0
  {
    PathSumBounds(bc, Pairs(Start, words), 0);
  }

  /** A sentence just counted into an empty table has every one of its
      bigrams at least once, so its resonance is at least 1. */
  lemma LearnedPathSum(words: seq<string>)
    ensures PathSum(CountPairs(map[], Start, words), Pairs(Start, words)) >= |words|
  {
    var ps := Pairs(Start, words);
    var t := CountPairs(map[], Start, words);
    forall k | 0 <= k < |ps| ensures BigramCount(t, ps[k].0, ps[k].1) >= 1 {
      CountPairsDelta(map[], Start, words, ps[k].0, ps[k].1);
      assert ps[k] in multiset(ps);
    }
    PathSumBounds(t, ps, 1);
  }
}
