/** The differentiable graph store of memory/memory_graph.py: every
    utterance is encoded, its vector becomes a new row of the embedding
    matrix, and its node records that row's number. The text encoder is
    outside the model: add_utterance is given the vector it would produce.
    Nodes are Dialogue.Node values with an index and nothing else. */
module MemoryGraph {
  import opened Common
  import opened Dicts
  import opened Dialogue

  /** Every node has an index, below the row count. */
  predicate AllIndexed(g: Graph, m: Matrix) {
    forall d, k :: d in g && 0 <= k < |g[d]| ==> g[d][k].index.Some? && g[d][k].index.value < |m.rows|
  }

  /** Every row is the row of some node. */
  predicate Covered(g: Graph, m: Matrix) {
    forall r :: 0 <= r < |m.rows| ==> exists d, k :: d in g && 0 <= k < |g[d]| && g[d][k].index == Some(r)
  }

  /** Within a dialogue, indices grow in insertion order. */
  predicate Increasing(g: Graph) {
    forall d, k1, k2 :: d in g && 0 <= k1 < k2 < |g[d]| && g[d][k1].index.Some? && g[d][k2].index.Some? ==>
      g[d][k1].index.value < g[d][k2].index.value
  }

  /** The store invariant: the nodes of all dialogues and the rows of the
      matrix correspond one to one, and each dialogue's rows come in the
      order its utterances were added. */
  predicate GraphInvariant(g: Graph, m: Matrix) {
    WellShaped(m) && AllIndexed(g, m) && IndicesDistinct(g) && Covered(g, m) && Increasing(g)
  }

  /** add_utterance: stack the vector as a new row, then append a node that
      records the row number, and return that row. A width mismatch raises
      before the graph is touched. */
  function GraphAdd(g: Graph, m: Matrix, d: string, speaker: string, text: string, encoded: seq<real>): Outcome {
    match Stack(m, encoded)
    case Err(e) => Outcome(g, m, Err(e))
    case Ok(m2) =>
      var idx := |m2.rows| - 1;
      Outcome(g[d := Dialog(g, d) + [Node(speaker, text, Some(idx), None, None)]], m2, Ok(Some(m2.rows[idx])))
  }

  class MemoryGraphStore {
    const dim: nat
    var graph: Graph
    var embeddings: Matrix

    ghost predicate Valid()
      reads this
    {
      GraphInvariant(graph, embeddings)
    }

    constructor (dim: nat)
      ensures Valid() && this.dim == dim
      ensures graph == map[] && embeddings == EmptyMatrix(dim)
    {
      this.dim := dim;
      graph := map[];
      embeddings := EmptyMatrix(dim);
    }

    /** add_utterance, with `encoded` standing for `encode_morph(text, dim)`. */
    method AddUtterance(d: string, speaker: string, text: string, encoded: seq<real>)
      returns (r: Result<Option<seq<real>>>)
      requires Valid()
      modifies this
      ensures Valid()
      ensures Outcome(graph, embeddings, r) == GraphAdd(old(graph), old(embeddings), d, speaker, text, encoded)
    {
      GraphAddKeeps(graph, embeddings, d, speaker, text, encoded);
      var stacked := Stack(embeddings, encoded);
      if stacked.Err? {
        return Err(stacked.error);
      }
      embeddings := stacked.value;
      var idx := |embeddings.rows| - 1;
      graph := graph[d := MapGet(graph, d, []) + [Node(speaker, text, Some(idx), None, None)]];
      r := Ok(Some(embeddings.rows[idx]));
    }

    /** get_dialogue: a copy of the node list, [] for an unknown id. */
    function GetDialogue(d: string): seq<Node>
      reads this
    {
      Dialog(graph, d)
    }

    /** embeddings_for: the rows of the dialogue's nodes, filtered by speaker
        when one is given. */
    function EmbeddingsFor(d: string, speaker: Option<string>): seq<seq<real>>
      reads this
      requires Valid()
    {
      SelectedInRange(graph, embeddings, d, speaker);
      RowsAt(embeddings, SelectIndices(Dialog(graph, d), speaker))
    }
  }

  /** A GraphRetriever over this store. */
  class GraphRetriever {
    const store: MemoryGraphStore

    constructor (store: MemoryGraphStore)
      ensures this.store == store
    {
      this.store := store;
    }

    method LastMessage(d: string, speaker: string) returns (r: Option<string>)
      ensures r == LastBy(store.GetDialogue(d), speaker)
    {
      r := Dialogue.LastMessage(store.GetDialogue(d), speaker);
    }

    function AllMessages(d: string): seq<string>
      reads store
    {
      Texts(store.GetDialogue(d))
    }
  }

  // ------------------------------------------------------------ properties

  lemma SelectedInRange(g: Graph, m: Matrix, d: string, speaker: Option<string>)
    requires GraphInvariant(g, m)
    ensures forall k :: 0 <= k < |SelectIndices(Dialog(g, d), speaker)| ==>
      SelectIndices(Dialog(g, d), speaker)[k] < |m.rows|
  {
    var nodes := Dialog(g, d);
    SelectIndicesNodes(nodes, speaker);
    forall k | 0 <= k < |SelectIndices(nodes, speaker)|
      ensures SelectIndices(nodes, speaker)[k] < |m.rows|
    {
      var j :| 0 <= j < |nodes| && nodes[j] == SelectNodes(nodes, speaker)[k];
    }
  }

  /** With every node indexed and no speaker given, the selection is the
      whole dialogue's indices, in order. */
  lemma {:induction false} SelectAll(nodes: seq<Node>)
    requires forall k :: 0 <= k < |nodes| ==> nodes[k].index.Some?
    ensures SelectIndices(nodes, None) == seq(|nodes|, k requires 0 <= k < |nodes| => nodes[k].index.value)
  {
    if nodes != [] {
      SelectAll(nodes[..|nodes| - 1]);
    }
  }

  /** embeddings_for without a speaker selects every node of the dialogue,
      in dialogue order, and each node's row exists. */
  lemma EmbeddingsForAll(g: Graph, m: Matrix, d: string)
    requires GraphInvariant(g, m)
    ensures var nodes := Dialog(g, d);
      (forall k :: 0 <= k < |nodes| ==> nodes[k].index.Some? && nodes[k].index.value < |m.rows|)
      && SelectIndices(nodes, None) == seq(|nodes|, k requires 0 <= k < |nodes| => nodes[k].index.value)
  {
    SelectAll(Dialog(g, d));
  }

  /** One call appends one row holding the vector and one node whose index
      is the previous row count, and returns the vector; a width mismatch
      changes nothing. Repeated utterances are stored again. */
  lemma GraphAddAppends(g: Graph, m: Matrix, d: string, speaker: string, text: string, encoded: seq<real>)
    ensures var out := GraphAdd(g, m, d, speaker, text, encoded);
      if m.rows != [] && |encoded| != m.width then
        out == Outcome(g, m, Err(ValueError))
      else
        out.emb.rows == m.rows + [encoded] && out.result == Ok(Some(encoded))
        && Dialog(out.graph, d) == Dialog(g, d) + [Node(speaker, text, Some(|m.rows|), None, None)]
  {
  }

  /** Every other dialogue is left as it was. */
  lemma GraphAddOthers(g: Graph, m: Matrix, d: string, speaker: string, text: string, encoded: seq<real>, other: string)
    requires other != d
    ensures var out := GraphAdd(g, m, d, speaker, text, encoded);
      (other in out.graph <==> other in g) && Dialog(out.graph, other) == Dialog(g, other)
  {
  }

  /** add_utterance keeps the one-to-one correspondence of nodes and rows. */
  lemma GraphAddKeeps(g: Graph, m: Matrix, d: string, speaker: string, text: string, encoded: seq<real>)
    requires GraphInvariant(g, m)
    ensures var out := GraphAdd(g, m, d, speaker, text, encoded);
      GraphInvariant(out.graph, out.emb)
  {
    var out := GraphAdd(g, m, d, speaker, text, encoded);
    match Stack(m, encoded)
    case Err(_) =>
    case Ok(m2) =>
      var n := Node(speaker, text, Some(|m.rows|), None, None);
      var g2: Graph := g[d := Dialog(g, d) + [n]];
      assert out.graph == g2 && out.emb == m2;
      AppendIndexedOld(g, m, d, n);
      AppendAllIndexed(g, m, d, n, m2);
      AppendDistinct(g, m, d, n);
      AppendCovered(g, m, d, n, m2);
      AppendIncreasing(g, m, d, n);
  }

  lemma AppendAllIndexed(g: Graph, m: Matrix, d: string, n: Node, m2: Matrix)
    requires AllIndexed(g, m) && n.index == Some(|m.rows|) && |m2.rows| == |m.rows| + 1
    requires var g2: Graph := g[d := Dialog(g, d) + [n]];
      forall d1: string, k1: int :: d1 in g2 && 0 <= k1 < |g2[d1]| && !(d1 == d && k1 == |Dialog(g, d)|) ==>
        d1 in g && k1 < |g[d1]| && g2[d1][k1] == g[d1][k1]
    ensures AllIndexed(g[d := Dialog(g, d) + [n]], m2)
  {
  }

  lemma AppendDistinct(g: Graph, m: Matrix, d: string, n: Node)
    requires AllIndexed(g, m) && IndicesDistinct(g) && n.index == Some(|m.rows|)
    requires var g2: Graph := g[d := Dialog(g, d) + [n]];
      forall d1: string, k1: int :: d1 in g2 && 0 <= k1 < |g2[d1]| && !(d1 == d && k1 == |Dialog(g, d)|) ==>
        d1 in g && k1 < |g[d1]| && g2[d1][k1] == g[d1][k1]
    ensures IndicesDistinct(g[d := Dialog(g, d) + [n]])
  {
  }

  lemma AppendCovered(g: Graph, m: Matrix, d: string, n: Node, m2: Matrix)
    requires Covered(g, m) && n.index == Some(|m.rows|) && |m2.rows| == |m.rows| + 1
    ensures Covered(g[d := Dialog(g, d) + [n]], m2)
  {
    var g2: Graph := g[d := Dialog(g, d) + [n]];
    forall r | 0 <= r < |m2.rows|
      ensures exists d1, k1 :: d1 in g2 && 0 <= k1 < |g2[d1]| && g2[d1][k1].index == Some(r)
    {
      if r == |m.rows| {
        assert g2[d][|Dialog(g, d)|] == n;
      } else {
        var d1, k1 :| d1 in g && 0 <= k1 < |g[d1]| && g[d1][k1].index == Some(r);
        if d1 == d {
          assert g2[d1][k1] == g[d1][k1];
        }
        assert g2[d1][k1].index == Some(r);
      }
    }
  }

  lemma AppendIncreasing(g: Graph, m: Matrix, d: string, n: Node)
    requires AllIndexed(g, m) && Increasing(g) && n.index == Some(|m.rows|)
    requires var g2: Graph := g[d := Dialog(g, d) + [n]];
      forall d1: string, k1: int :: d1 in g2 && 0 <= k1 < |g2[d1]| && !(d1 == d && k1 == |Dialog(g, d)|) ==>
        d1 in g && k1 < |g[d1]| && g2[d1][k1] == g[d1][k1]
    ensures Increasing(g[d := Dialog(g, d) + [n]])
  {
  }
}
