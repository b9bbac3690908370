/** The in-memory part of memory/storage.py: a MemoryStore without
    de-duplication whose `load` rebuilds the embedding matrix from the
    morph codes saved on the nodes. The JSON file is given to `load` as
    its decoded value; `save`, the database helpers and the text encoder
    are outside the model. */
module MemoryStorage {
  import opened Common
  import opened Dicts
  import opened Dialogue

  /** add_utterance: a dict embedding goes on a new node with no index;
      otherwise the vector is stacked first, so a width mismatch leaves the
      dialogues untouched, and then a node pointing at the new row is
      appended. */
  function StorageAdd(g: Graph, m: Matrix, d: string, speaker: string, text: string,
                      arg: EmbeddingArg, encoded: seq<real>): Outcome
  {
    if arg.DictArg? then
      Outcome(g[d := Dialog(g, d) + [Node(speaker, text, None, Some(arg.emb), None)]], m, Ok(None))
    else
      var vec := if arg.VectorArg? then arg.vec else encoded;
      match Stack(m, vec)
      case Err(e) => Outcome(g, m, Err(e))
      case Ok(m2) =>
        var idx := |m2.rows| - 1;
        Outcome(g[d := Dialog(g, d) + [Node(speaker, text, Some(idx), None, Some(vec))]], m2, Ok(Some(m2.rows[idx])))
  }

  // ---------------------------------------------------------------- load

  /** The morph codes carried by the first i nodes, in order. */
  function CodedPrefix(nodes: seq<Node>, i: nat): (r: seq<seq<real>>)
    requires i <= |nodes|
    ensures |r| <= i
  {
    if i == 0 then []
    else CodedPrefix(nodes, i - 1) + (if nodes[i - 1].morphCodes.Some? then [nodes[i - 1].morphCodes.value] else [])
  }

  /** The morph codes carried by the nodes, in order. */
  function Coded(nodes: seq<Node>): (r: seq<seq<real>>)
    ensures |r| <= |nodes|
  {
    CodedPrefix(nodes, |nodes|)
  }

  /** Node i of a dialogue after loading, when `start` vectors were read
      before the dialogue: a node with morph codes is given the next row. */
  function RestoreAt(nodes: seq<Node>, start: nat, i: nat): Node
    requires i < |nodes|
  {
    if nodes[i].morphCodes.Some? then nodes[i].(index := Some(start + |CodedPrefix(nodes, i)|)) else nodes[i]
  }

  /** A dialogue after loading. */
  function Restore(nodes: seq<Node>, start: nat): (r: seq<Node>)
    ensures |r| == |nodes|
  {
    seq(|nodes|, i requires 0 <= i < |nodes| => RestoreAt(nodes, start, i))
  }

  /** The vectors read from the first j dialogues of the file. */
  function CodedUpTo(raw: ODict<string, seq<Node>>, j: nat): seq<seq<real>>
    requires Valid(raw) && j <= |raw.keys|
  {
    if j == 0 then [] else CodedUpTo(raw, j - 1) + Coded(raw.vals[raw.keys[j - 1]])
  }

  /** The graph rebuilt from the first j dialogues of the file. */
  function RestoredUpTo(raw: ODict<string, seq<Node>>, j: nat): (g: Graph)
    requires Valid(raw) && j <= |raw.keys|
  {
    if j == 0 then map[]
    else
      var d := raw.keys[j - 1];
      RestoredUpTo(raw, j - 1)[d := Restore(raw.vals[d], |CodedUpTo(raw, j - 1)|)]
  }

  /** `anp.array(vecs)`: a matrix when all rows have one width, and a
      ValueError for ragged rows. */
  function ToMatrix(vecs: seq<seq<real>>, dim: nat): (r: Result<Matrix>)
    ensures r.Ok? ==> WellShaped(r.value) && r.value.rows == vecs
    ensures r.Err? <==> exists i :: 0 <= i < |vecs| && |vecs[i]| != |vecs[0]|
  {
    if vecs == [] then Ok(EmptyMatrix(dim))
    else if forall i :: 0 <= i < |vecs| ==> |vecs[i]| == |vecs[0]| then Ok(Matrix(|vecs[0]|, vecs))
    else Err(ValueError)
  }

  class MemoryStore {
    const dim: nat
    var graph: Graph
    var embeddings: Matrix

    ghost predicate Valid()
      reads this
    {
      Indexed(graph, embeddings)
    }

    constructor (dim: nat)
      ensures Valid() && this.dim == dim
      ensures graph == map[] && embeddings == EmptyMatrix(dim)
    {
      this.dim := dim;
      graph := map[];
      embeddings := EmptyMatrix(dim);
    }

    /** add_utterance, with `encoded` standing for `encode_morph(text, dim)`. */
    method AddUtterance(d: string, speaker: string, text: string, arg: EmbeddingArg, encoded: seq<real>)
      returns (r: Result<Option<seq<real>>>)
      modifies this
      ensures Outcome(graph, embeddings, r) == StorageAdd(old(graph), old(embeddings), d, speaker, text, arg, encoded)
      ensures old(Valid()) ==> Valid()
    {
      if old(Valid()) {
        StorageAddKeepsIndexed(graph, embeddings, d, speaker, text, arg, encoded);
      }
      if arg.DictArg? {
        graph := graph[d := MapGet(graph, d, []) + [Node(speaker, text, None, Some(arg.emb), None)]];
        return Ok(None);
      }
      var vec := if arg.VectorArg? then arg.vec else encoded;
      var stacked := Stack(embeddings, vec);
      if stacked.Err? {
        return Err(stacked.error);
      }
      embeddings := stacked.value;
      var idx := |embeddings.rows| - 1;
      graph := graph[d := MapGet(graph, d, []) + [Node(speaker, text, Some(idx), None, Some(vec))]];
      r := Ok(Some(embeddings.rows[idx]));
    }

    /** get_dialogue: a copy of the node list, [] for an unknown id. */
    function GetDialogue(d: string): seq<Node>
      reads this
    {
      Dialog(graph, d)
    }

    /** embeddings_for: the rows of the dialogue's indexed nodes, filtered by
        speaker when one is given; an index past the last row, which only a
        loaded file can cause, raises IndexError. */
    function EmbeddingsFor(d: string, speaker: Option<string>): (r: Result<seq<seq<real>>>)
      reads this
      ensures Valid() ==> r.Ok?
    {
      var idxs := SelectIndices(Dialog(graph, d), speaker);
      InRangeWhenIndexed(graph, embeddings, d, speaker);
      if forall k :: 0 <= k < |idxs| ==> idxs[k] < |embeddings.rows| then Ok(RowsAt(embeddings, idxs))
      else Err(IndexError)
    }

    /** load: rebuild every dialogue in file order, numbering the nodes that
        carry morph codes 0, 1, 2, ... and stacking their codes as the new
        matrix. Ragged codes raise ValueError after the graph is replaced. */
    method Load(raw: ODict<string, seq<Node>>) returns (r: Result<()>)
      requires Dicts.Valid(raw)
      modifies this
      ensures graph == RestoredUpTo(raw, |raw.keys|)
      ensures match ToMatrix(CodedUpTo(raw, |raw.keys|), dim)
        case Ok(m) => embeddings == m && r == Ok(())
        case Err(e) => embeddings == old(embeddings) && r == Err(e)
    {
      graph := map[];
      var vecs: seq<seq<real>> := [];
      for j := 0 to |raw.keys|
        invariant graph == RestoredUpTo(raw, j)
        invariant vecs == CodedUpTo(raw, j)
        invariant embeddings == old(embeddings)
      {
        var did := raw.keys[j];
        var restored;
        restored, vecs := RestoreDialogue(raw.vals[did], vecs);
        graph := graph[did := restored];
      }
      var m := ToMatrix(vecs, dim);
      if m.Err? {
        return Err(m.error);
      }
      embeddings := m.value;
      r := Ok(());
    }
  }

  /** The inner loop of load over one dialogue: restored nodes, and the
      vector list extended by their morph codes. */
  method RestoreDialogue(nodes: seq<Node>, vecs: seq<seq<real>>) returns (restored: seq<Node>, vecs': seq<seq<real>>)
    ensures restored == Restore(nodes, |vecs|)
    ensures vecs' == vecs + Coded(nodes)
  {
    restored := [];
    vecs' := vecs;
    for i := 0 to |nodes|
      invariant |restored| == i
      invariant forall k :: 0 <= k < i ==> restored[k] == RestoreAt(nodes, |vecs|, k)
      invariant vecs' == vecs + CodedPrefix(nodes, i)
    {
      var mn := nodes[i];
      if mn.morphCodes.Some? {
        mn := mn.(index := Some(|vecs'|));
        vecs' := vecs' + [mn.morphCodes.value];
      }
      restored := restored + [mn];
    }
  }

  lemma InRangeWhenIndexed(g: Graph, m: Matrix, d: string, speaker: Option<string>)
    ensures Indexed(g, m) ==>
      forall k :: 0 <= k < |SelectIndices(Dialog(g, d), speaker)| ==> SelectIndices(Dialog(g, d), speaker)[k] < |m.rows|
  {
    if Indexed(g, m) {
      IndicesInRange(g, m, d, speaker);
    }
  }

  /** A GraphRetriever over this store. */
  class GraphRetriever {
    const store: MemoryStore

    constructor (store: MemoryStore)
      ensures this.store == store
    {
      this.store := store;
    }

    method LastMessage(d: string, speaker: string) returns (r: Option<string>)
      ensures r == LastBy(store.GetDialogue(d), speaker)
    {
      r := Dialogue.LastMessage(store.GetDialogue(d), speaker);
    }

    function AllMessages(d: string): seq<string>
      reads store
    {
      Texts(store.GetDialogue(d))
    }
  }

  // ------------------------------------------------------------ properties

  /** A dict embedding is kept on a new last node with no index; the
      matrix is untouched and the call returns None. */
  lemma StorageAddDict(g: Graph, m: Matrix, d: string, speaker: string, text: string, e: map<string, real>, encoded: seq<real>)
    ensures var out := StorageAdd(g, m, d, speaker, text, DictArg(e), encoded);
      out.emb == m && out.result == Ok(None)
      && Dialog(out.graph, d) == Dialog(g, d) + [Node(speaker, text, None, Some(e), None)]
  {
  }

  /** A vector becomes one new row with the node's index the previous row
      count and its morph codes the vector, which is returned; a width
      mismatch changes nothing at all. */
  lemma StorageAddVector(g: Graph, m: Matrix, d: string, speaker: string, text: string, arg: EmbeddingArg, encoded: seq<real>)
    requires !arg.DictArg?
    ensures var vec := if arg.VectorArg? then arg.vec else encoded;
      var out := StorageAdd(g, m, d, speaker, text, arg, encoded);
      if m.rows != [] && |vec| != m.width then
        out == Outcome(g, m, Err(ValueError))
      else
        out.emb.rows == m.rows + [vec] && out.result == Ok(Some(vec))
        && Dialog(out.graph, d) == Dialog(g, d) + [Node(speaker, text, Some(|m.rows|), None, Some(vec))]
  {
  }

  /** There is no de-duplication: the same utterance added twice is stored
      twice, as two new last nodes. */
  lemma {:induction false} StorageAddTwice(g: Graph, m: Matrix, d: string, speaker: string, text: string, arg: EmbeddingArg, encoded: seq<real>)
    requires arg.DictArg? || m.rows == [] || |if arg.VectorArg? then arg.vec else encoded| == m.width
    ensures var out1 := StorageAdd(g, m, d, speaker, text, arg, encoded);
      var out2 := StorageAdd(out1.graph, out1.emb, d, speaker, text, arg, encoded);
      |Dialog(out2.graph, d)| == |Dialog(g, d)| + 2
      && Dialog(out2.graph, d)[..|Dialog(g, d)|] == Dialog(g, d)
      && Said2(Dialog(out2.graph, d), |Dialog(g, d)|, speaker, text)
  {
    var out1 := StorageAdd(g, m, d, speaker, text, arg, encoded);
    var out2 := StorageAdd(out1.graph, out1.emb, d, speaker, text, arg, encoded);
    if arg.DictArg? {
      var n := Node(speaker, text, None, Some(arg.emb), None);
      StorageAddDict(g, m, d, speaker, text, arg.emb, encoded);
      StorageAddDict(out1.graph, out1.emb, d, speaker, text, arg.emb, encoded);
      TwoMore(Dialog(g, d), n, n, Dialog(out2.graph, d));
    } else {
      var vec := if arg.VectorArg? then arg.vec else encoded;
      StorageAddVector(g, m, d, speaker, text, arg, encoded);
      assert out1.emb.rows != [] && |vec| == out1.emb.width;
      StorageAddVector(out1.graph, out1.emb, d, speaker, text, arg, encoded);
      TwoMore(Dialog(g, d), Node(speaker, text, Some(|m.rows|), None, Some(vec)),
        Node(speaker, text, Some(|m.rows| + 1), None, Some(vec)), Dialog(out2.graph, d));
    }
  }

  lemma TwoMore(nodes: seq<Node>, n1: Node, n2: Node, after: seq<Node>)
    requires after == nodes + [n1] + [n2]
    ensures |after| == |nodes| + 2 && after[..|nodes|] == nodes
    ensures Said2(after, |nodes|, n1.speaker, n1.text) <==> n1.speaker == n2.speaker && n1.text == n2.text
  {
    assert after[..|nodes|] == nodes;
  }

  /** Nodes i and i + 1 both carry this speaker and text. */
  predicate Said2(nodes: seq<Node>, i: nat, speaker: string, text: string) {
    i + 1 < |nodes|
    && nodes[i].speaker == speaker && nodes[i].text == text
    && nodes[i + 1].speaker == speaker && nodes[i + 1].text == text
  }

  /** Every other dialogue is left as it was. */
  lemma StorageAddOthers(g: Graph, m: Matrix, d: string, speaker: string, text: string, arg: EmbeddingArg, encoded: seq<real>, other: string)
    requires other != d
    ensures var out := StorageAdd(g, m, d, speaker, text, arg, encoded);
      (other in out.graph <==> other in g) && Dialog(out.graph, other) == Dialog(g, other)
  {
  }

  /** add_utterance keeps the store invariant. */
  lemma StorageAddKeepsIndexed(g: Graph, m: Matrix, d: string, speaker: string, text: string, arg: EmbeddingArg, encoded: seq<real>)
    requires Indexed(g, m)
    ensures var out := StorageAdd(g, m, d, speaker, text, arg, encoded);
      Indexed(out.graph, out.emb)
  {
    var out := StorageAdd(g, m, d, speaker, text, arg, encoded);
    if arg.DictArg? {
      var n := Node(speaker, text, None, Some(arg.emb), None);
      AppendUnindexed(g, m, d, n);
      assert out.graph == g[d := Dialog(g, d) + [n]] && out.emb == m;
    } else {
      var vec := if arg.VectorArg? then arg.vec else encoded;
      match Stack(m, vec)
      case Err(_) =>
        assert out.graph == g && out.emb == m;
      case Ok(m2) =>
        var n := Node(speaker, text, Some(|m.rows|), None, Some(vec));
        AppendIndexed(g, m, d, n, vec);
        assert out.graph == g[d := Dialog(g, d) + [n]] && out.emb == m2;
    }
  }

  // ------------------------------------------------------ load numbering

  /** The row number of each of the first i nodes that carries morph
      codes, in order (-1 for such a node without an index). */
  function NumberingPrefix(nodes: seq<Node>, i: nat): (r: seq<int>)
    requires i <= |nodes|
    ensures |r| == |CodedPrefix(nodes, i)|
  {
    if i == 0 then []
    else
      var n := nodes[i - 1];
      NumberingPrefix(nodes, i - 1) + (if n.morphCodes.Some? then [if n.index.Some? then n.index.value else -1] else [])
  }

  function Numbering(nodes: seq<Node>): (r: seq<int>)
    ensures |r| == |Coded(nodes)|
  {
    NumberingPrefix(nodes, |nodes|)
  }

  /** The dialogues named by ks, one after the other. */
  function InFileOrder(g: Graph, ks: seq<string>): seq<Node> {
    if ks == [] then [] else InFileOrder(g, ks[..|ks| - 1]) + Dialog(g, ks[|ks| - 1])
  }

  lemma {:induction false} PrefixLeft(a: seq<Node>, b: seq<Node>, k: nat)
    requires k <= |a|
    ensures CodedPrefix(a + b, k) == CodedPrefix(a, k)
    ensures NumberingPrefix(a + b, k) == NumberingPrefix(a, k)
  {
    if k > 0 {
      PrefixLeft(a, b, k - 1);
      assert (a + b)[k - 1] == a[k - 1];
    }
  }

  lemma {:induction false} PrefixRight(a: seq<Node>, b: seq<Node>, k: nat)
    requires k <= |b|
    ensures CodedPrefix(a + b, |a| + k) == Coded(a) + CodedPrefix(b, k)
    ensures NumberingPrefix(a + b, |a| + k) == Numbering(a) + NumberingPrefix(b, k)
  {
    if k == 0 {
      PrefixLeft(a, b, |a|);
    } else {
      PrefixRight(a, b, k - 1);
      var n := b[k - 1];
      assert (a + b)[|a| + k - 1] == n;
      AppendAssoc(Coded(a), CodedPrefix(b, k - 1), if n.morphCodes.Some? then [n.morphCodes.value] else []);
      AppendAssoc(Numbering(a), NumberingPrefix(b, k - 1),
        if n.morphCodes.Some? then [if n.index.Some? then n.index.value else -1] else []);
    }
  }

  lemma CodedAppend(a: seq<Node>, b: seq<Node>)
    ensures Coded(a + b) == Coded(a) + Coded(b)
    ensures Numbering(a + b) == Numbering(a) + Numbering(b)
  {
    PrefixRight(a, b, |b|);
  }

  lemma RestoreAtLeft(a: seq<Node>, b: seq<Node>, start: nat, k: nat)
    requires k < |a|
    ensures RestoreAt(a + b, start, k) == RestoreAt(a, start, k)
  {
    PrefixLeft(a, b, k);
  }

  lemma RestoreAtRight(a: seq<Node>, b: seq<Node>, start: nat, k: nat)
    requires k < |b|
    ensures RestoreAt(a + b, start, |a| + k) == RestoreAt(b, start + |Coded(a)|, k)
  {
    PrefixRight(a, b, k);
    assert (a + b)[|a| + k] == b[k];
  }

  /** Restoring two stretches one after the other is restoring them together. */
  lemma RestoreAppend(a: seq<Node>, b: seq<Node>, start: nat)
    ensures Restore(a + b, start) == Restore(a, start) + Restore(b, start + |Coded(a)|)
  {
    var lhs := Restore(a + b, start);
    var rhs := Restore(a, start) + Restore(b, start + |Coded(a)|);
    forall k | 0 <= k < |lhs| ensures lhs[k] == rhs[k] {
      if k < |a| {
        RestoreAtLeft(a, b, start, k);
      } else {
        RestoreAtRight(a, b, start, k - |a|);
      }
    }
  }

  /** Restoring numbers the first i nodes that carry morph codes start,
      start + 1, ... in order, and keeps their codes. */
  lemma {:induction false} RestorePrefix(nodes: seq<Node>, start: nat, i: nat)
    requires i <= |nodes|
    ensures NumberingPrefix(Restore(nodes, start), i) == seq(|CodedPrefix(nodes, i)|, j => start + j)
    ensures CodedPrefix(Restore(nodes, start), i) == CodedPrefix(nodes, i)
  {
    if i > 0 {
      RestorePrefix(nodes, start, i - 1);
    }
  }

  /** Restoring numbers the nodes that carry morph codes start, start + 1,
      ... in order, and keeps their codes. */
  lemma RestoreNumbering(nodes: seq<Node>, start: nat)
    ensures Numbering(Restore(nodes, start)) == seq(|Coded(nodes)|, i => start + i)
    ensures Coded(Restore(nodes, start)) == Coded(nodes)
  {
    RestorePrefix(nodes, start, |nodes|);
  }

  /** The rebuilt graph holds exactly the dialogues of the file. */
  lemma {:induction false} RestoredKeys(raw: ODict<string, seq<Node>>, j: nat)
    requires Valid(raw) && j <= |raw.keys|
    ensures forall d :: d in RestoredUpTo(raw, j) <==> d in raw.keys[..j]
  {
    if j > 0 {
      RestoredKeys(raw, j - 1);
      assert raw.keys[..j] == raw.keys[..j - 1] + [raw.keys[j - 1]];
    }
  }

  /** Dialogue i of the rebuilt graph is dialogue i of the file, restored
      after the vectors of the dialogues before it. */
  lemma {:induction false} RestoredAt(raw: ODict<string, seq<Node>>, j: nat, i: nat)
    requires Valid(raw) && i < j <= |raw.keys|
    ensures raw.keys[i] in RestoredUpTo(raw, j)
    ensures RestoredUpTo(raw, j)[raw.keys[i]] == Restore(raw.vals[raw.keys[i]], |CodedUpTo(raw, i)|)
  {
    if i < j - 1 {
      RestoredAt(raw, j - 1, i);
    }
  }

  /** The vectors of the first j dialogues are the codes of those
      dialogues taken in file order. */
  lemma {:induction false} CodedInFileOrder(raw: ODict<string, seq<Node>>, j: nat)
    requires Valid(raw) && j <= |raw.keys|
    ensures CodedUpTo(raw, j) == Coded(InFileOrder(raw.vals, raw.keys[..j]))
  {
    if j > 0 {
      CodedInFileOrder(raw, j - 1);
      var ks := raw.keys[..j];
      assert ks[..j - 1] == raw.keys[..j - 1];
      CodedAppend(InFileOrder(raw.vals, raw.keys[..j - 1]), raw.vals[raw.keys[j - 1]]);
    }
  }

  lemma InFileOrderStep(g: Graph, ks: seq<string>, j: nat)
    requires 0 < j <= |ks|
    ensures InFileOrder(g, ks[..j]) == InFileOrder(g, ks[..j - 1]) + Dialog(g, ks[j - 1])
  {
    assert ks[..j][..j - 1] == ks[..j - 1];
  }

  lemma StitchRestore(a: seq<Node>, b: seq<Node>, x: seq<Node>, y: seq<Node>)
    requires x == Restore(a, 0) && y == Restore(b, |Coded(a)|)
    ensures x + y == Restore(a + b, 0)
  {
    RestoreAppend(a, b, 0);
  }

  /** Dialogue j - 1 of the rebuilt graph is that of the file, restored
      after the codes of the dialogues before it. */
  lemma DialogRestored(raw: ODict<string, seq<Node>>, j: nat)
    requires Valid(raw) && 0 < j <= |raw.keys|
    ensures var d := raw.keys[j - 1];
      Dialog(RestoredUpTo(raw, |raw.keys|), d)
        == Restore(Dialog(raw.vals, d), |Coded(InFileOrder(raw.vals, raw.keys[..j - 1]))|)
  {
    CodedInFileOrder(raw, j - 1);
    RestoredAt(raw, |raw.keys|, j - 1);
    assert raw.keys[j - 1] in raw.vals;
  }

  /** Loading a file restores its dialogues, taken in file order, as one
      stretch numbered from 0. */
  lemma {:induction false} LoadInFileOrder(raw: ODict<string, seq<Node>>, j: nat)
    requires Valid(raw) && j <= |raw.keys|
    ensures InFileOrder(RestoredUpTo(raw, |raw.keys|), raw.keys[..j])
      == Restore(InFileOrder(raw.vals, raw.keys[..j]), 0)
  {
    if j > 0 {
      LoadInFileOrder(raw, j - 1);
      var g := RestoredUpTo(raw, |raw.keys|);
      var d := raw.keys[j - 1];
      InFileOrderStep(g, raw.keys, j);
      InFileOrderStep(raw.vals, raw.keys, j);
      DialogRestored(raw, j);
      StitchRestore(InFileOrder(raw.vals, raw.keys[..j - 1]), Dialog(raw.vals, d),
        InFileOrder(g, raw.keys[..j - 1]), Dialog(g, d));
    }
  }

  /** After load, the k nodes that carry morph codes are numbered 0 .. k-1
      in file order, and row i of the rebuilt matrix holds the codes of
      the i-th of them. */
  lemma LoadNumbering(raw: ODict<string, seq<Node>>)
    requires Valid(raw)
    ensures var flat := InFileOrder(RestoredUpTo(raw, |raw.keys|), raw.keys);
      Numbering(flat) == seq(|CodedUpTo(raw, |raw.keys|)|, i => i)
      && Coded(flat) == CodedUpTo(raw, |raw.keys|)
  {
    var n := |raw.keys|;
    LoadInFileOrder(raw, n);
    CodedInFileOrder(raw, n);
    assert raw.keys[..n] == raw.keys;
    RestoreNumbering(InFileOrder(raw.vals, raw.keys), 0);
  }
}
