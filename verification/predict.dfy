/** The word co-occurrence graph and its normalised vectors (pro_predict.py).
    The module-level `_GRAPH` and `_VECTORS` are the fields of a Predictor
    object; each neighbour table is a Counter, i.e. an insertion-ordered
    dictionary of counts. */
module Predict {
  import opened Common
  import opened Dicts
  import opened Text

  type Counter = ODict<string, int>
  type Graph = map<string, Counter>
  type Vectors = map<string, map<string, real>>

  predicate GraphValid(g: Graph) {
    forall w :: w in g ==> Valid(g[w])
  }

  /** `graph.get(a, {}).get(b, 0)` */
  function Weight(g: Graph, a: string, b: string): int {
    if a in g then Get(g[a], b, 0) else 0
  }

  /** `_GRAPH.setdefault(a, Counter())[b] += 1` */
  function Bump(g: Graph, a: string, b: string): Graph {
    var inner := if a in g then g[a] else Empty();
    g[a := Put(inner, b, Get(inner, b, 0) + 1)]
  }

  /** Both increments made for one position pair. */
  function PairStep(g: Graph, p: (string, string)): Graph {
    Bump(Bump(g, p.0, p.1), p.1, p.0)
  }

  /** Sum of the counts of a Counter, in key order. */
  function Total(c: Counter, n: nat): int
    requires Valid(c) && n <= |c.keys|
  {
    if n == 0 then 0 else Total(c, n - 1) + c.vals[c.keys[n - 1]]
  }

  /** The divisor of a vector: the total count, or 1 when that is zero
      (`sum(...) or 1`). */
  function Divisor(c: Counter): (r: int)
    requires Valid(c)
    ensures r != 0
  {
    var total := Total(c, |c.keys|);
    if total == 0 then 1 else total
  }

  /** One normalised vector: each count over the divisor. */
  function BuildVector(c: Counter): (r: map<string, real>)
    requires Valid(c)
    ensures r.Keys == c.vals.Keys
    ensures forall n :: n in c.vals ==> r[n] == c.vals[n] as real / Divisor(c) as real
  {
    var t := Divisor(c);
    map n | n in c.vals :: c.vals[n] as real / t as real
  }

  /** _build_embeddings: one vector per word of the graph. */
  function BuildEmbeddings(g: Graph): (r: Vectors)
    requires GraphValid(g)
    ensures r.Keys == g.Keys
  {
    map w | w in g :: BuildVector(g[w])
  }

  class Predictor {
    var graph: Graph
    var vectors: Vectors

    ghost predicate Valid() reads this { GraphValid(graph) }

    constructor ()
      ensures Valid() && graph == map[] && vectors == map[]
    {
      graph := map[];
      vectors := map[];
    }

    /** _ensure_vectors: load the graph built from the dataset files, given
        here as `loaded`, unless vectors already exist. */
    method EnsureVectors(loaded: Graph)
      requires Valid() && GraphValid(loaded)
      modifies this
      ensures Valid()
      ensures old(vectors) != map[] ==> graph == old(graph) && vectors == old(vectors)
      ensures old(vectors) == map[] ==> graph == loaded && vectors == BuildEmbeddings(loaded)
    {
      if vectors != map[] {
        return;
      }
      graph := loaded;
      vectors := BuildEmbeddings(graph);
    }

    /** update: count every position pair i < j of the lower-cased words
        whose words are both non-empty, in both directions, then rebuild the
        vectors. */
    method Update(wordList: seq<string>, loaded: Graph)
      requires Valid() && GraphValid(loaded)
      modifies this
      ensures Valid()
      ensures var g0 := if old(vectors) == map[] then loaded else old(graph);
        && graph == AllFold(g0, LowerAll(wordList), |wordList|)
        && (forall a, b :: Weight(graph, a, b) == Weight(g0, a, b) + AllMass(LowerAll(wordList), |wordList|, a, b))
        && (Symmetric(g0) ==> Symmetric(graph))
      ensures vectors == BuildEmbeddings(graph)
    {
      EnsureVectors(loaded);
      var words := LowerAll(wordList);
      var g := graph;
      ghost var g0 := graph;
      for i := 0 to |words|
        invariant GraphValid(g)
        invariant g == AllFold(g0, words, i)
        invariant forall a, b :: Weight(g, a, b) == Weight(g0, a, b) + AllMass(words, i, a, b)
      {
        RowFoldValid(g, words, i, |words|);
        forall a, b ensures Weight(RowFold(g, words, i, |words|), a, b) == Weight(g, a, b) + RowMass(words, i, |words|, a, b) {
          RowFoldWeight(g, words, i, |words|, a, b);
        }
        g := CountRow(g, words, i);
      }
      forall a, b ensures AllMass(words, |words|, a, b) == AllMass(words, |words|, b, a) {
        AllMassSymmetric(words, |words|, a, b);
      }
      graph := g;
      vectors := BuildEmbeddings(graph);
    }
  }

  /** The inner loop of update: pair position i with every later position. */
  method CountRow(g: Graph, words: seq<string>, i: nat) returns (r: Graph)
    requires i < |words|
    ensures r == RowFold(g, words, i, |words|)
  {
    r := g;
    for j := i + 1 to |words|
      invariant r == RowFold(g, words, i, j)
    {
      var word := words[i];
      var other := words[j];
      if word == [] || other == [] {
        continue;
      }
      r := PairStep(r, (word, other));
    }
  }

  /** A pair step taken only for two non-empty words. */
  function StepIf(g: Graph, a: string, b: string): Graph {
    if a != [] && b != [] then PairStep(g, (a, b)) else g
  }

  /** The graph after row i of the inner loop has reached position j. */
  function RowFold(g: Graph, words: seq<string>, i: nat, j: nat): Graph
    requires i < |words| && j <= |words|
  {
    if j <= i + 1 then g else StepIf(RowFold(g, words, i, j - 1), words[i], words[j - 1])
  }

  /** The graph after the first i rows of the outer loop of update. */
  function AllFold(g: Graph, words: seq<string>, i: nat): Graph
    requires i <= |words|
  {
    if i == 0 then g else RowFold(AllFold(g, words, i - 1), words, i - 1, |words|)
  }

  lemma BumpValid(g: Graph, a: string, b: string)
    requires GraphValid(g)
    ensures GraphValid(Bump(g, a, b))
  {
    var inner := if a in g then g[a] else Empty();
    PutValid(inner, b, Get(inner, b, 0) + 1);
  }

  lemma {:induction false} RowFoldValid(g: Graph, words: seq<string>, i: nat, j: nat)
    requires i < |words| && j <= |words| && GraphValid(g)
    ensures GraphValid(RowFold(g, words, i, j))
  {
    if j > i + 1 {
      RowFoldValid(g, words, i, j - 1);
      var h := RowFold(g, words, i, j - 1);
      if words[i] != [] && words[j - 1] != [] {
        BumpValid(h, words[i], words[j - 1]);
        BumpValid(Bump(h, words[i], words[j - 1]), words[j - 1], words[i]);
      }
    }
  }

  // ----------------------------------------------------------- properties

  /** How much one increment of both directions of pair p adds to the
      weight of (a, b): a pair of equal words adds two to its own self-count. */
  function Hits(p: (string, string), a: string, b: string): nat {
    (if p == (a, b) then 1 else 0) + (if p == (b, a) then 1 else 0)
  }

  /** What StepIf adds to the weight of (a, b). */
  function StepMass(x: string, y: string, a: string, b: string): nat {
    if x != [] && y != [] then Hits((x, y), a, b) else 0
  }

  /** What row i of update adds to the weight of (a, b) up to position j. */
  function RowMass(words: seq<string>, i: nat, j: nat, a: string, b: string): nat
    requires i < |words| && j <= |words|
  {
    if j <= i + 1 then 0 else RowMass(words, i, j - 1, a, b) + StepMass(words[i], words[j - 1], a, b)
  }

  /** What the first i rows of update add to the weight of (a, b). */
  function AllMass(words: seq<string>, i: nat, a: string, b: string): nat
    requires i <= |words|
  {
    if i == 0 then 0 else AllMass(words, i - 1, a, b) + RowMass(words, i - 1, |words|, a, b)
  }

  lemma PairStepWeight(g: Graph, p: (string, string), a: string, b: string)
    ensures Weight(PairStep(g, p), a, b) == Weight(g, a, b) + Hits(p, a, b)
  {
  }

  lemma StepIfWeight(g: Graph, x: string, y: string, a: string, b: string)
    ensures Weight(StepIf(g, x, y), a, b) == Weight(g, a, b) + StepMass(x, y, a, b)
  {
    if x != [] && y != [] {
      PairStepWeight(g, (x, y), a, b);
    }
  }

  /** One row adds, to every weight, the mass of that row's pairs. */
  lemma {:induction false} RowFoldWeight(g: Graph, words: seq<string>, i: nat, j: nat, a: string, b: string)
    requires i < |words| && j <= |words|
    ensures Weight(RowFold(g, words, i, j), a, b) == Weight(g, a, b) + RowMass(words, i, j, a, b)
  {
    if j > i + 1 {
      RowFoldWeight(g, words, i, j - 1, a, b);
      StepIfWeight(RowFold(g, words, i, j - 1), words[i], words[j - 1], a, b);
    }
  }

  lemma {:induction false} RowMassSymmetric(words: seq<string>, i: nat, j: nat, a: string, b: string)
    requires i < |words| && j <= |words|
    ensures RowMass(words, i, j, a, b) == RowMass(words, i, j, b, a)
  {
    if j > i + 1 {
      RowMassSymmetric(words, i, j - 1, a, b);
    }
  }

  lemma {:induction false} AllMassSymmetric(words: seq<string>, i: nat, a: string, b: string)
    requires i <= |words|
    ensures AllMass(words, i, a, b) == AllMass(words, i, b, a)
  {
    if i > 0 {
      AllMassSymmetric(words, i - 1, a, b);
      RowMassSymmetric(words, i - 1, |words|, a, b);
    }
  }

  ghost predicate Symmetric(g: Graph) {
    forall a, b :: Weight(g, a, b) == Weight(g, b, a)
  }

  /** A pair of positions holding the same word adds two to its self-count. */
  lemma SelfPairAddsTwo(g: Graph, w: string)
    ensures Weight(PairStep(g, (w, w)), w, w) == Weight(g, w, w) + 2
  {
    PairStepWeight(g, (w, w), w, w);
  }

  /** Only pairs of non-empty words are counted: the empty word gains no weight. */
  lemma {:induction false} RowMassEmptyWord(words: seq<string>, i: nat, j: nat, b: string)
    requires i < |words| && j <= |words|
    ensures RowMass(words, i, j, [], b) == 0 && RowMass(words, i, j, b, []) == 0
  {
    if j > i + 1 {
      RowMassEmptyWord(words, i, j - 1, b);
    }
  }

  lemma {:induction false} AllMassEmptyWord(words: seq<string>, i: nat, b: string)
    requires i <= |words|
    ensures AllMass(words, i, [], b) == 0 && AllMass(words, i, b, []) == 0
  {
    if i > 0 {
      AllMassEmptyWord(words, i - 1, b);
      RowMassEmptyWord(words, i - 1, |words|, b);
    }
  }

  /** The sum of a vector's entries, in its counter's key order. */
  function VectorSum(v: map<string, real>, keys: seq<string>): real
    requires forall k :: k in keys ==> k in v
  {
    if keys == [] then 0.0 else VectorSum(v, keys[..|keys| - 1]) + v[keys[|keys| - 1]]
  }

  lemma DivAdd(x: real, y: real, t: real)
    requires t != 0.0
    ensures x / t + y / t == (x + y) / t
  {
  }

  lemma DivSelf(x: real)
    requires x != 0.0
    ensures x / x == 1.0
  {
  }

  lemma {:induction false} VectorSumScaled(c: Counter, v: map<string, real>, n: nat, t: int)
    requires Valid(c) && n <= |c.keys| && t != 0
    requires forall k :: k in c.vals ==> k in v && v[k] == c.vals[k] as real / t as real
    ensures forall k :: k in c.keys[..n] ==> k in v
    ensures VectorSum(v, c.keys[..n]) == Total(c, n) as real / t as real
  {
    if n > 0 {
      VectorSumScaled(c, v, n - 1, t);
      assert c.keys[..n][..n - 1] == c.keys[..n - 1];
      DivAdd(Total(c, n - 1) as real, c.vals[c.keys[n - 1]] as real, t as real);
    }
  }

  /** Each vector entry is count / total, and the entries of a vector whose
      counts do not sum to zero add up to exactly 1. */
  lemma VectorSumsToOne(c: Counter)
    requires Valid(c) && Total(c, |c.keys|) != 0
    ensures forall k :: k in c.keys ==> k in BuildVector(c)
    ensures VectorSum(BuildVector(c), c.keys) == 1.0
  {
    var t := Divisor(c);
    var v := BuildVector(c);
    VectorSumScaled(c, v, |c.keys|, t);
    assert c.keys[..|c.keys|] == c.keys;
    var tr := t as real;
    assert VectorSum(v, c.keys) == tr / tr;
    DivSelf(tr);
  }

  /** An empty neighbour table yields an empty vector. */
  lemma EmptyVector()
    ensures BuildVector(Empty()) == map[]
  {
  }
}
