/** SemanticCollider of semantic_collider.py: texts are encoded into
    vectors, stored in an amplitude memory under consecutive step numbers,
    compared pairwise, and the closest pair is joined into a phrase; every
    distance is also queued as a gradient on a resonance node. The
    morphological encoder is a parameter. The memory holds each vector as
    its complex cast (`ToComplex`), where the source stores the float
    array itself; the entries and their order are the same, only the
    element type differs. */
module Collider {
  import opened Common
  import opened Dicts
  import opened Text
  import AM = AmplitudeMemory
  import P2PResonance

  /** `encode(text, dim=self.dim)` */
  type Encoder = string -> AM.Vec

  /** `a @ b` over vectors of one length. */
  function Dot(a: AM.Vec, b: AM.Vec): real {
    if a == [] || b == [] then 0.0 else a[0] * b[0] + Dot(a[1..], b[1..])
  }

  /** _distance: 1.0 when either vector is empty, else 1 - a @ b. */
  function Distance(a: AM.Vec, b: AM.Vec): real {
    if |a| == 0 || |b| == 0 then 1.0 else 1.0 - Dot(a, b)
  }

  /** `[encode(t) for t in texts]` */
  function Encoded(encode: Encoder, texts: seq<string>): (r: seq<AM.Vec>)
    ensures |r| == |texts|
  {
    seq(|texts|, k requires 0 <= k < |texts| => encode(texts[k]))
  }

  /** The pairs (i, j) with i < j that start with i = row, in order. */
  function Row(row: nat, n: nat): (r: seq<(nat, nat)>)
    ensures |r| == if row < n then n - row - 1 else 0
  {
    if row < n then seq(n - row - 1, k requires 0 <= k < n - row - 1 => (row, row + 1 + k)) else []
  }

  /** `itertools.combinations(range(n), 2)` cut after the first `rows` rows. */
  function PairsUpTo(rows: nat, n: nat): seq<(nat, nat)> {
    if rows == 0 then [] else PairsUpTo(rows - 1, n) + Row(rows - 1, n)
  }

  /** `itertools.combinations(range(n), 2)` */
  function Pairs(n: nat): (r: seq<(nat, nat)>)
    ensures forall k :: 0 <= k < |r| ==> r[k].0 < r[k].1 < n
  {
    PairsUpToBound(n, n);
    PairsUpTo(n, n)
  }

  /** The distance of every pair, in pair order. */
  function Dists(vecs: seq<AM.Vec>, ps: seq<(nat, nat)>): (r: seq<real>)
    requires forall k :: 0 <= k < |ps| ==> ps[k].0 < |vecs| && ps[k].1 < |vecs|
    ensures |r| == |ps|
  {
    seq(|ps|, k requires 0 <= k < |ps| => Distance(vecs[ps[k].0], vecs[ps[k].1]))
  }

  /** The position of the first strictly smallest value: what a scan
      keeping the best so far under `<` ends with. */
  function FirstMin(ds: seq<real>): (r: Option<nat>)
    ensures r.Some? ==> r.value < |ds|
  {
    if ds == [] then None
    else
      var b := FirstMin(ds[..|ds| - 1]);
      if b.None? || ds[|ds| - 1] < ds[b.value] then Some(|ds| - 1) else b
  }

  /** The gradient key `f"d_{i}_{j}"`. */
  function PairKey(i: nat, j: nat): string {
    "d_" + NatToString(i) + "_" + NatToString(j)
  }

  /** The single-entry gradient dictionary `{key: -dist}`. */
  function Single(key: string, dist: real): (r: P2PResonance.Grads)
    ensures Dicts.Valid(r)
  {
    ODict([key], map[key := -dist])
  }

  /** The gradient queued for every pair, in pair order. */
  function PairGrads(vecs: seq<AM.Vec>, ps: seq<(nat, nat)>): (r: seq<map<string, real>>)
    requires forall k :: 0 <= k < |ps| ==> ps[k].0 < |vecs| && ps[k].1 < |vecs|
    ensures |r| == |ps|
  {
    seq(|ps|, k requires 0 <= k < |ps| => map[PairKey(ps[k].0, ps[k].1) := -Distance(vecs[ps[k].0], vecs[ps[k].1])])
  }

  /** What collide answers: "" for no texts, the closest pair joined by a
      space, and the only text when there is no pair. */
  function Phrase(texts: seq<string>, vecs: seq<AM.Vec>): string
    requires |vecs| == |texts|
  {
    if texts == [] then ""
    else
      var ps := Pairs(|texts|);
      match FirstMin(Dists(vecs, ps))
      case None => texts[0]
      case Some(b) => texts[ps[b].0] + " " + texts[ps[b].1]
  }

  /** The memory m after vecs were stored under steps start, start+1, ... */
  function StoredAll(m: map<int, AM.Amps>, start: int, vecs: seq<AM.Vec>): map<int, AM.Amps> {
    if vecs == [] then m else StoredAll(m, start, vecs[..|vecs| - 1])[start + |vecs| - 1 := AM.ToComplex(vecs[|vecs| - 1])]
  }

  /** The candidate vector scores encodes for word. */
  function Candidate(encode: Encoder, context: seq<string>, word: string): AM.Vec {
    encode(Join(" ", context + [word]))
  }

  /** -distance between the context and the context extended by word. */
  function WordScore(encode: Encoder, context: seq<string>, word: string): real {
    -Distance(encode(Join(" ", context)), Candidate(encode, context, word))
  }

  class SemanticCollider {
    const dim: int
    const encode: Encoder
    const memory: AM.QuantumMemory
    const resonance: P2PResonance.Node
    var step: int

    ghost predicate Valid()
      reads this, resonance
    {
      resonance.Valid()
    }

    constructor (dim: int, encode: Encoder)
      ensures Valid() && fresh(memory) && fresh(resonance)
      ensures this.dim == dim && this.encode == encode && step == 0
      ensures memory.amplitudes == map[] && resonance.queued == [] && resonance.applied == []
    {
      this.dim := dim;
      this.encode := encode;
      memory := new AM.QuantumMemory();
      resonance := new P2PResonance.Node();
      step := 0;
    }

    /** collide: store every vector, queue one gradient per pair and answer
        with the closest pair. */
    method Collide(texts: seq<string>) returns (phrase: string)
      requires Valid()
      modifies this, memory, resonance
      ensures Valid() && phrase == Phrase(texts, Encoded(encode, texts))
      ensures step == old(step) + |texts|
      ensures memory.amplitudes == StoredAll(old(memory.amplitudes), old(step), Encoded(encode, texts))
      ensures resonance.queued == old(resonance.queued) + PairGrads(Encoded(encode, texts), Pairs(|texts|))
      ensures resonance.applied == old(resonance.applied) + PairGrads(Encoded(encode, texts), Pairs(|texts|))
    {
      if texts == [] {
        assert Pairs(0) == [];
        return "";
      }
      var vecs := Encoded(encode, texts);
      StoreAll(vecs);
      var best := ScanPairs(texts, vecs);
      FirstMinProps(Dists(vecs, Pairs(|texts|)));
      if best.None? {
        return texts[0];
      }
      phrase := best.value.0 + " " + best.value.1;
    }

    /** The store loop of collide. */
    method StoreAll(vecs: seq<AM.Vec>)
      modifies this, memory
      ensures step == old(step) + |vecs|
      ensures memory.amplitudes == StoredAll(old(memory.amplitudes), old(step), vecs)
    {
      for i := 0 to |vecs|
        invariant step == old(step) + i
        invariant memory.amplitudes == StoredAll(old(memory.amplitudes), old(step), vecs[..i])
      {
        assert vecs[..i + 1][..i] == vecs[..i];
        memory.Store(step, AM.ToComplex(vecs[i]));
        step := step + 1;
      }
      assert vecs[..|vecs|] == vecs;
    }

    /** The pair loop of collide: queue every distance and keep the first
        pair of strictly smallest distance. */
    method ScanPairs(texts: seq<string>, vecs: seq<AM.Vec>) returns (best: Option<(string, string)>)
      requires |vecs| == |texts| && Valid()
      modifies resonance
      ensures Valid()
      ensures best == BestPair(texts, Pairs(|texts|), FirstMin(Dists(vecs, Pairs(|texts|))))
      ensures resonance.queued == old(resonance.queued) + PairGrads(vecs, Pairs(|texts|))
              && resonance.applied == old(resonance.applied) + PairGrads(vecs, Pairs(|texts|))
    {
      var ps := Pairs(|texts|);
      ghost var b: Option<nat> := None;
      best := None;
      var bestDist := 0.0;
      for k := 0 to |ps|
        invariant Valid() && ScanState(texts, vecs, k, best, bestDist, b)
        invariant resonance.queued == old(resonance.queued) + PairGrads(vecs, ps)[..k]
        invariant resonance.applied == old(resonance.applied) + PairGrads(vecs, ps)[..k]
      {
        best, bestDist, b := ScanStep(texts, vecs, k, best, bestDist, b, old(resonance.queued), old(resonance.applied));
      }
      assert Dists(vecs, ps)[..|ps|] == Dists(vecs, ps) && PairGrads(vecs, ps)[..|ps|] == PairGrads(vecs, ps);
    }

    /** One pass of the pair loop, with the loop's invariant. */
    method ScanStep(texts: seq<string>, vecs: seq<AM.Vec>, k: nat, best: Option<(string, string)>, bestDist: real, ghost b: Option<nat>,
                    ghost q0: seq<map<string, real>>, ghost a0: seq<map<string, real>>)
        returns (best': Option<(string, string)>, bestDist': real, ghost b': Option<nat>)
      requires |vecs| == |texts| && k < |Pairs(|texts|)| && Valid()
      requires ScanState(texts, vecs, k, best, bestDist, b)
      requires resonance.queued == q0 + PairGrads(vecs, Pairs(|texts|))[..k]
      requires resonance.applied == a0 + PairGrads(vecs, Pairs(|texts|))[..k]
      modifies resonance
      ensures Valid() && ScanState(texts, vecs, k + 1, best', bestDist', b')
      ensures resonance.queued == q0 + PairGrads(vecs, Pairs(|texts|))[..k + 1]
      ensures resonance.applied == a0 + PairGrads(vecs, Pairs(|texts|))[..k + 1]
    {
      var (i, j) := Pairs(|texts|)[k];
      var dist := Distance(vecs[i], vecs[j]);
      QueueGrad(PairKey(i, j), dist);
      SnocSlice(PairGrads(vecs, Pairs(|texts|)), k);
      ScanAdvance(texts, vecs, k, best, bestDist, b);
      if best.None? || dist < bestDist {
        best', bestDist', b' := Some((texts[i], texts[j])), dist, Some(k);
      } else {
        best', bestDist', b' := best, bestDist, b;
      }
    }

    /** `self.resonance.queue_update({key: -dist})` */
    method QueueGrad(key: string, dist: real)
      requires Valid()
      modifies resonance
      ensures Valid()
      ensures resonance.queued == old(resonance.queued) + [map[key := -dist]]
      ensures resonance.applied == old(resonance.applied) + [map[key := -dist]]
    {
      resonance.QueueUpdate(Single(key, dist));
    }

    /** scores: one score per vocabulary word, -distance between the
        context and the context extended by the word; every candidate is
        stored, and its score is queued as a gradient under the word and
        added to the resonance parameters. */
    method Scores(context: seq<string>, vocab: seq<string>) returns (scores: ODict<string, real>)
      requires Valid()
      modifies this, memory, resonance
      ensures Valid() && Dicts.Valid(scores)
      ensures scores.keys == Dedup(vocab)
      ensures scores.vals == ScoreMap(encode, context, vocab)
      ensures step == old(step) + |vocab|
      ensures memory.amplitudes == StoredAll(old(memory.amplitudes), old(step), Candidates(encode, context, vocab))
      ensures resonance.queued == old(resonance.queued) + WordGrads(encode, context, vocab)
      ensures resonance.applied == old(resonance.applied) + WordGrads(encode, context, vocab)
    {
      var ctxVec := encode(Join(" ", context));
      scores := Empty();
      ghost var cands := Candidates(encode, context, vocab);
      ghost var gs := WordGrads(encode, context, vocab);
      for i := 0 to |vocab|
        invariant Valid() && ScoresUpTo(scores, encode, context, vocab[..i])
        invariant step == old(step) + i
        invariant memory.amplitudes == StoredAll(old(memory.amplitudes), old(step), cands[..i])
        invariant resonance.queued == old(resonance.queued) + gs[..i]
        invariant resonance.applied == old(resonance.applied) + gs[..i]
      {
        scores := ScoreStep(ctxVec, context, vocab, i, scores, old(memory.amplitudes), old(step), old(resonance.queued), old(resonance.applied));
      }
      assert vocab[..|vocab|] == vocab && cands[..|vocab|] == cands && gs[..|vocab|] == gs;
      assert ScoresUpTo(scores, encode, context, vocab);
    }

    /** One pass of the scores loop, with the loop's invariant. */
    method ScoreStep(ctxVec: AM.Vec, context: seq<string>, vocab: seq<string>, i: nat, scores: ODict<string, real>,
                     ghost m0: map<int, AM.Amps>, ghost step0: int, ghost q0: seq<map<string, real>>, ghost a0: seq<map<string, real>>)
        returns (scores': ODict<string, real>)
      requires i < |vocab| && Valid() && ctxVec == encode(Join(" ", context))
      requires ScoresUpTo(scores, encode, context, vocab[..i]) && step == step0 + i
      requires memory.amplitudes == StoredAll(m0, step0, Candidates(encode, context, vocab)[..i])
      requires resonance.queued == q0 + WordGrads(encode, context, vocab)[..i]
      requires resonance.applied == a0 + WordGrads(encode, context, vocab)[..i]
      modifies this, memory, resonance
      ensures Valid() && ScoresUpTo(scores', encode, context, vocab[..i + 1]) && step == step0 + i + 1
      ensures memory.amplitudes == StoredAll(m0, step0, Candidates(encode, context, vocab)[..i + 1])
      ensures resonance.queued == q0 + WordGrads(encode, context, vocab)[..i + 1]
      ensures resonance.applied == a0 + WordGrads(encode, context, vocab)[..i + 1]
    {
      var word := vocab[i];
      var dist := ScoreWord(ctxVec, context, word);
      assert Candidates(encode, context, vocab)[i] == Candidate(encode, context, word);
      StoredAllSnoc(m0, step0, Candidates(encode, context, vocab), i);
      SnocSlice(WordGrads(encode, context, vocab), i);
      var score := -dist;
      PutScore(scores, encode, context, vocab, i, score);
      scores' := Put(scores, word, score);
    }

    /** One pass of the scores loop: encode the extended context, store the
        candidate under the next step and queue its score. */
    method ScoreWord(ctxVec: AM.Vec, context: seq<string>, word: string) returns (dist: real)
      requires Valid() && ctxVec == encode(Join(" ", context))
      modifies this, memory, resonance
      ensures Valid() && -dist == WordScore(encode, context, word)
      ensures step == old(step) + 1
      ensures memory.amplitudes == old(memory.amplitudes)[old(step) := AM.ToComplex(Candidate(encode, context, word))]
      ensures resonance.queued == old(resonance.queued) + [map[word := WordScore(encode, context, word)]]
      ensures resonance.applied == old(resonance.applied) + [map[word := WordScore(encode, context, word)]]
    {
      var candVec := encode(Join(" ", context + [word]));
      dist := Distance(ctxVec, candVec);
      memory.Store(step, AM.ToComplex(candVec));
      step := step + 1;
      QueueGrad(word, dist);
    }
  }

  /** scores holds the words of ws, each once in first-seen order, with
      their scores. */
  predicate ScoresUpTo(scores: ODict<string, real>, encode: Encoder, context: seq<string>, ws: seq<string>) {
    Dicts.Valid(scores) && scores.keys == Dedup(ws) && scores.vals == ScoreMap(encode, context, ws)
  }

  /** The scores dictionary after scoring the words of ws in order. */
  function ScoreMap(encode: Encoder, context: seq<string>, ws: seq<string>): map<string, real> {
    if ws == [] then map[]
    else ScoreMap(encode, context, ws[..|ws| - 1])[ws[|ws| - 1] := WordScore(encode, context, ws[|ws| - 1])]
  }

  /** The candidate vectors of scores, one per word. */
  function Candidates(encode: Encoder, context: seq<string>, vocab: seq<string>): (r: seq<AM.Vec>)
    ensures |r| == |vocab|
  {
    seq(|vocab|, k requires 0 <= k < |vocab| => Candidate(encode, context, vocab[k]))
  }

  /** The gradients scores queues, one `{word: -dist}` per word. */
  function WordGrads(encode: Encoder, context: seq<string>, vocab: seq<string>): (r: seq<map<string, real>>)
    ensures |r| == |vocab|
  {
    seq(|vocab|, k requires 0 <= k < |vocab| => map[vocab[k] := WordScore(encode, context, vocab[k])])
  }

  // ------------------------------------------------------------ properties

  /** The pairs of the first `rows` rows are increasing, within range and
      start below rows. */
  lemma {:induction false} PairsUpToBound(rows: nat, n: nat)
    ensures forall k :: 0 <= k < |PairsUpTo(rows, n)| ==> PairsUpTo(rows, n)[k].0 < PairsUpTo(rows, n)[k].1 < n
    ensures forall k :: 0 <= k < |PairsUpTo(rows, n)| ==> PairsUpTo(rows, n)[k].0 < rows
  {
    if rows > 0 {
      PairsUpToBound(rows - 1, n);
    }
  }

  /** The first `rows` rows hold rows * (2n - rows - 1) / 2 pairs. */
  lemma {:induction false} PairsUpToSize(rows: nat, n: nat)
    requires rows <= n
    ensures 2 * |PairsUpTo(rows, n)| == rows * (2 * n - rows - 1)
  {
    if rows > 0 {
      PairsUpToSize(rows - 1, n);
      assert |PairsUpTo(rows, n)| == |PairsUpTo(rows - 1, n)| + (n - rows);
      assert (rows - 1) * (2 * n - rows) + 2 * (n - rows) == rows * (2 * n - rows - 1);
    }
  }

  /** Every pair i < j < n with i below rows is among the first rows rows. */
  lemma {:induction false} PairsUpToHas(rows: nat, n: nat, i: nat, j: nat)
    requires i < rows && i < j < n
    ensures (i, j) in PairsUpTo(rows, n)
  {
    if i == rows - 1 {
      assert Row(i, n)[j - i - 1] == (i, j);
    } else {
      PairsUpToHas(rows - 1, n, i, j);
    }
  }

  /** The first rows rows come in strictly increasing lexicographic order. */
  lemma {:induction false} PairsUpToSorted(rows: nat, n: nat)
    ensures forall k, l :: 0 <= k < l < |PairsUpTo(rows, n)| ==> LexLess(PairsUpTo(rows, n)[k], PairsUpTo(rows, n)[l])
  {
    if rows > 0 {
      PairsUpToSorted(rows - 1, n);
      PairsUpToBound(rows - 1, n);
      var before, row := PairsUpTo(rows - 1, n), Row(rows - 1, n);
      var all := before + row;
      forall k, l | 0 <= k < l < |all|
        ensures LexLess(all[k], all[l])
      {
        if l >= |before| && k < |before| {
          assert all[k] == before[k] && all[l] == row[l - |before|];
        }
      }
    }
  }

  /** Lexicographic order on index pairs. */
  predicate LexLess(p: (nat, nat), q: (nat, nat)) {
    p.0 < q.0 || (p.0 == q.0 && p.1 < q.1)
  }

  /** combinations yields every pair i < j < n once, in lexicographic
      order, n(n-1)/2 in all. */
  lemma PairsProps(n: nat)
    ensures forall i: nat, j: nat :: (i, j) in Pairs(n) <==> i < j < n
    ensures forall k, l :: 0 <= k < l < |Pairs(n)| ==> LexLess(Pairs(n)[k], Pairs(n)[l])
    ensures 2 * |Pairs(n)| == n * (n - 1)
  {
    PairsUpToSorted(n, n);
    PairsUpToSize(n, n);
    forall i: nat, j: nat | i < j < n
      ensures (i, j) in Pairs(n)
    {
      PairsUpToHas(n, n, i, j);
    }
  }

  /** Storing one more vector stores it under the next step. */
  lemma StoredAllSnoc(m: map<int, AM.Amps>, start: int, vecs: seq<AM.Vec>, i: nat)
    requires i < |vecs|
    ensures StoredAll(m, start, vecs[..i + 1]) == StoredAll(m, start, vecs[..i])[start + i := AM.ToComplex(vecs[i])]
  {
    assert vecs[..i + 1][..i] == vecs[..i];
  }

  /** Scoring one more word adds or overwrites its score. */
  lemma ScoreMapSnoc(encode: Encoder, context: seq<string>, ws: seq<string>, i: nat)
    requires i < |ws|
    ensures ScoreMap(encode, context, ws[..i + 1]) == ScoreMap(encode, context, ws[..i])[ws[i] := WordScore(encode, context, ws[i])]
    ensures ws[i] in ScoreMap(encode, context, ws[..i]) <==> ws[i] in ws[..i]
  {
    assert ws[..i + 1][..i] == ws[..i];
    ScoreMapAt(encode, context, ws[..i], ws[i]);
  }

  /** Every word of ws, and nothing else, is scored with its own score. */
  lemma {:induction false} ScoreMapAt(encode: Encoder, context: seq<string>, ws: seq<string>, w: string)
    ensures w in ScoreMap(encode, context, ws) <==> w in ws
    ensures w in ws ==> ScoreMap(encode, context, ws)[w] == WordScore(encode, context, w)
  {
    if ws != [] {
      ScoreMapAt(encode, context, ws[..|ws| - 1], w);
      assert ws == ws[..|ws| - 1] + [ws[|ws| - 1]];
    }
  }

  /** `scores[word] = -dist` extends the scores of a prefix of the
      vocabulary by the next word. */
  lemma PutScore(scores: ODict<string, real>, encode: Encoder, context: seq<string>, vocab: seq<string>, i: nat, v: real)
    requires i < |vocab| && v == WordScore(encode, context, vocab[i])
    requires ScoresUpTo(scores, encode, context, vocab[..i])
    ensures ScoresUpTo(Put(scores, vocab[i], v), encode, context, vocab[..i + 1])
  {
    PutValid(scores, vocab[i], v);
    ScoreMapSnoc(encode, context, vocab, i);
    DedupSnoc(vocab, i);
  }

  /** One more element extends the de-duplication when it is new. */
  lemma DedupSnoc<T(!new)>(s: seq<T>, i: nat)
    requires i < |s|
    ensures Dedup(s[..i + 1]) == if s[i] in s[..i] then Dedup(s[..i]) else Dedup(s[..i]) + [s[i]]
  {
    assert s[..i + 1][..i] == s[..i];
  }

  /** A prefix one longer is the prefix and the next element. */
  lemma SnocSlice<T>(s: seq<T>, k: nat)
    requires k < |s|
    ensures s[..k + 1] == s[..k] + [s[k]]
  {
  }

  /** One more value moves the first strict minimum to it exactly when it
      is strictly smaller. */
  lemma FirstMinSnoc(ds: seq<real>, k: nat)
    requires k < |ds|
    ensures FirstMin(ds[..k + 1]) ==
      (if FirstMin(ds[..k]).None? || ds[k] < ds[FirstMin(ds[..k]).value] then Some(k) else FirstMin(ds[..k]))
  {
    assert ds[..k + 1][..k] == ds[..k];
    var b := FirstMin(ds[..k]);
    if b.Some? {
      assert ds[..k][b.value] == ds[b.value];
    }
  }

  /** The first strict minimum is at most every value and below every value
      before it; there is one exactly when there are values. */
  lemma {:induction false} FirstMinProps(ds: seq<real>)
    ensures FirstMin(ds).Some? <==> ds != []
    ensures FirstMin(ds).Some? ==> forall k :: 0 <= k < |ds| ==> ds[FirstMin(ds).value] <= ds[k]
    ensures FirstMin(ds).Some? ==> forall k :: 0 <= k < FirstMin(ds).value ==> ds[FirstMin(ds).value] < ds[k]
  {
    if ds != [] {
      var init := ds[..|ds| - 1];
      FirstMinProps(init);
      assert forall k :: 0 <= k < |init| ==> ds[k] == init[k];
    }
  }

  /** Positions i < j whose distance is the smallest of all pairs and
      strictly smaller than that of every pair before them. */
  predicate ClosestPair(texts: seq<string>, vecs: seq<AM.Vec>, i: int, j: int)
    requires |vecs| == |texts|
  {
    0 <= i < j < |texts|
    && (forall i', j' :: 0 <= i' < j' < |texts| ==> Distance(vecs[i], vecs[j]) <= Distance(vecs[i'], vecs[j']))
    && (forall i', j' :: 0 <= i' < j' < |texts| && LexLess((i', j'), (i, j)) ==> Distance(vecs[i], vecs[j]) < Distance(vecs[i'], vecs[j']))
  }

  /** collide with two or more texts answers "a b" for texts a, b at
      positions i < j whose distance is the smallest of all pairs and
      strictly smaller than that of every pair before it; with one text it
      answers that text; with none it answers "". */
  lemma PhraseChoice(texts: seq<string>, vecs: seq<AM.Vec>)
    requires |vecs| == |texts|
    ensures texts == [] ==> Phrase(texts, vecs) == ""
    ensures |texts| == 1 ==> Phrase(texts, vecs) == texts[0]
    ensures |texts| >= 2 ==> exists i, j :: ClosestPair(texts, vecs, i, j) && Phrase(texts, vecs) == texts[i] + " " + texts[j]
  {
    var n := |texts|;
    var ps := Pairs(n);
    PairsProps(n);
    var ds := Dists(vecs, ps);
    FirstMinProps(ds);
    if n >= 2 {
      assert (0, 1) in ps;
      var b := FirstMin(ds).value;
      FirstMinClosest(texts, vecs, b);
    }
  }

  /** The texts of the pair at position b, if any. */
  function BestPair(texts: seq<string>, ps: seq<(nat, nat)>, b: Option<nat>): Option<(string, string)>
    requires forall k :: 0 <= k < |ps| ==> ps[k].0 < |texts| && ps[k].1 < |texts|
  {
    if b.Some? && b.value < |ps| then Some((texts[ps[b.value].0], texts[ps[b.value].1])) else None
  }

  /** After k pairs the scan holds the first strict minimum b of their
      distances, its texts and its distance. */
  ghost predicate ScanState(texts: seq<string>, vecs: seq<AM.Vec>, k: nat, best: Option<(string, string)>, bestDist: real, b: Option<nat>)
    requires |vecs| == |texts|
  {
    var ps := Pairs(|texts|);
    k <= |ps| && b == FirstMin(Dists(vecs, ps)[..k]) && best == BestPair(texts, ps, b)
    && (b.Some? ==> b.value < k && bestDist == Dists(vecs, ps)[b.value])
  }

  /** The scan state after one more pair: that pair becomes the best
      exactly when there was none or it is strictly closer. */
  lemma ScanAdvance(texts: seq<string>, vecs: seq<AM.Vec>, k: nat, best: Option<(string, string)>, bestDist: real, b: Option<nat>)
    requires |vecs| == |texts| && k < |Pairs(|texts|)| && ScanState(texts, vecs, k, best, bestDist, b)
    ensures var ps := Pairs(|texts|);
            var d := Distance(vecs[ps[k].0], vecs[ps[k].1]);
            if best.None? || d < bestDist then ScanState(texts, vecs, k + 1, Some((texts[ps[k].0], texts[ps[k].1])), d, Some(k))
            else ScanState(texts, vecs, k + 1, best, bestDist, b)
  {
    FirstMinSnoc(Dists(vecs, Pairs(|texts|)), k);
  }

  /** The pair at the first strict minimum of the distances is a closest
      pair. */
  lemma FirstMinClosest(texts: seq<string>, vecs: seq<AM.Vec>, b: nat)
    requires |vecs| == |texts| && FirstMin(Dists(vecs, Pairs(|texts|))) == Some(b)
    ensures ClosestPair(texts, vecs, Pairs(|texts|)[b].0, Pairs(|texts|)[b].1)
  {
    var n := |texts|;
    var ps := Pairs(n);
    var ds := Dists(vecs, ps);
    FirstMinProps(ds);
    var (i, j) := ps[b];
    forall i', j' | 0 <= i' < j' < n
      ensures Distance(vecs[i], vecs[j]) <= Distance(vecs[i'], vecs[j'])
      ensures LexLess((i', j'), (i, j)) ==> Distance(vecs[i], vecs[j]) < Distance(vecs[i'], vecs[j'])
    {
      var k := PairIndex(n, i', j');
      assert ds[k] == Distance(vecs[i'], vecs[j']);
      if LexLess((i', j'), (i, j)) && k >= b {
        PairsOrder(n, b, k);
      }
    }
  }

  /** Where pair (i, j) sits among the combinations. */
  lemma PairIndex(n: nat, i: nat, j: nat) returns (k: nat)
    requires i < j < n
    ensures k < |Pairs(n)| && Pairs(n)[k] == (i, j)
  {
    PairsProps(n);
    k :| 0 <= k < |Pairs(n)| && Pairs(n)[k] == (i, j);
  }

  /** A later combination is never lexicographically smaller. */
  lemma PairsOrder(n: nat, b: nat, k: nat)
    requires b <= k < |Pairs(n)|
    ensures !LexLess(Pairs(n)[k], Pairs(n)[b])
  {
    PairsProps(n);
  }

  /** After storing vecs from step start, each of those steps holds its
      vector and every other step keeps its entry. */
  lemma {:induction false} StoredAllAt(m: map<int, AM.Amps>, start: int, vecs: seq<AM.Vec>, k: int)
    ensures start <= k < start + |vecs| ==> AM.Get(StoredAll(m, start, vecs), k) == Some(AM.ToComplex(vecs[k - start]))
    ensures !(start <= k < start + |vecs|) ==> AM.Get(StoredAll(m, start, vecs), k) == AM.Get(m, k)
  {
    if vecs != [] {
      StoredAllAt(m, start, vecs[..|vecs| - 1], k);
    }
  }

  /** The distance does not depend on the order of the two vectors. */
  lemma DistanceSymmetric(a: AM.Vec, b: AM.Vec)
    ensures Distance(a, b) == Distance(b, a)
  {
    DotSymmetric(a, b);
  }

  lemma {:induction false} DotSymmetric(a: AM.Vec, b: AM.Vec)
    ensures Dot(a, b) == Dot(b, a)
  {
    if a != [] && b != [] {
      DotSymmetric(a[1..], b[1..]);
    }
  }
}
