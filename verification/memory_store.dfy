/** The unified graph memory of memory/store.py: dialogues of utterance
    nodes, de-duplicated by (speaker, text), with vector-backed nodes
    pointing at rows of one embedding matrix. The text encoder is outside
    the model: add_utterance is given the vector it would produce. */
module MemoryStoreModel {
  import opened Common
  import opened Dicts
  import opened Dialogue

  /** The dialogue already holds an utterance with this speaker and text. */
  predicate Said(nodes: seq<Node>, speaker: string, text: string) {
    exists k :: 0 <= k < |nodes| && nodes[k].speaker == speaker && nodes[k].text == text
  }

  /** add_utterance: `setdefault` the dialogue, return None on a repeated
      (speaker, text), store a dict embedding on the node, and otherwise
      append the vector as a new matrix row that the node points at. */
  function AddOutcome(g: Graph, m: Matrix, d: string, speaker: string, text: string,
                      arg: EmbeddingArg, encoded: seq<real>): Outcome
  {
    var dialogue := Dialog(g, d);
    var g1 := g[d := dialogue];
    if Said(dialogue, speaker, text) then Outcome(g1, m, Ok(None))
    else if arg.DictArg? then
      Outcome(g1[d := dialogue + [Node(speaker, text, None, Some(arg.emb), None)]], m, Ok(None))
    else
      var vec := if arg.VectorArg? then arg.vec else encoded;
      match Stack(m, vec)
      case Err(e) => Outcome(g1, m, Err(e))
      case Ok(m2) =>
        var idx := |m2.rows| - 1;
        Outcome(g1[d := dialogue + [Node(speaker, text, Some(idx), None, Some(vec))]], m2, Ok(Some(m2.rows[idx])))
  }

  class MemoryStore {
    const dim: nat
    var graph: Graph
    var embeddings: Matrix

    ghost predicate Valid()
      reads this
    {
      Indexed(graph, embeddings)
    }

    constructor (dim: nat)
      ensures Valid() && this.dim == dim
      ensures graph == map[] && embeddings == EmptyMatrix(dim)
    {
      this.dim := dim;
      graph := map[];
      embeddings := EmptyMatrix(dim);
    }

    /** add_utterance, with `encoded` standing for `encode_morph(text, dim)`. */
    method AddUtterance(d: string, speaker: string, text: string, arg: EmbeddingArg, encoded: seq<real>)
      returns (r: Result<Option<seq<real>>>)
      requires Valid()
      modifies this
      ensures Valid()
      ensures Outcome(graph, embeddings, r) == AddOutcome(old(graph), old(embeddings), d, speaker, text, arg, encoded)
    {
      AddKeepsIndexed(graph, embeddings, d, speaker, text, arg, encoded);
      ghost var out := AddOutcome(graph, embeddings, d, speaker, text, arg, encoded);
      var dialogue := MapGet(graph, d, []);
      graph := graph[d := dialogue];
      var seen := HasSaid(dialogue, speaker, text);
      if seen {
        assert out == Outcome(graph, embeddings, Ok(None));
        return Ok(None);
      }
      if arg.DictArg? {
        graph := graph[d := dialogue + [Node(speaker, text, None, Some(arg.emb), None)]];
        assert out == Outcome(graph, embeddings, Ok(None));
        return Ok(None);
      }
      var vec := if arg.VectorArg? then arg.vec else encoded;
      var stacked := Stack(embeddings, vec);
      if stacked.Err? {
        assert out == Outcome(graph, embeddings, Err(stacked.error));
        return Err(stacked.error);
      }
      embeddings := stacked.value;
      var idx := |embeddings.rows| - 1;
      graph := graph[d := dialogue + [Node(speaker, text, Some(idx), None, Some(vec))]];
      r := Ok(Some(embeddings.rows[idx]));
      assert out == Outcome(graph, embeddings, r);
    }

    /** get_dialogue: a copy of the node list, [] for an unknown id. */
    function GetDialogue(d: string): seq<Node>
      reads this
    {
      Dialog(graph, d)
    }

    /** embeddings_for: the rows of the dialogue's indexed nodes, filtered by
        speaker when one is given. */
    function EmbeddingsFor(d: string, speaker: Option<string>): seq<seq<real>>
      reads this
      requires Valid()
    {
      IndicesInRange(graph, embeddings, d, speaker);
      RowsAt(embeddings, SelectIndices(Dialog(graph, d), speaker))
    }
  }

  /** The duplicate scan of add_utterance over one dialogue's nodes. */
  method HasSaid(nodes: seq<Node>, speaker: string, text: string) returns (b: bool)
    ensures b <==> Said(nodes, speaker, text)
  {
    for i := 0 to |nodes|
      invariant forall j :: 0 <= j < i ==> !(nodes[j].speaker == speaker && nodes[j].text == text)
    {
      if nodes[i].speaker == speaker && nodes[i].text == text {
        return true;
      }
    }
    return false;
  }

  /** GraphRetriever over a MemoryStore. */
  class GraphRetriever {
    const store: MemoryStore

    constructor (store: MemoryStore)
      ensures this.store == store
    {
      this.store := store;
    }

    method LastMessage(d: string, speaker: string) returns (r: Option<string>)
      ensures r == LastBy(store.GetDialogue(d), speaker)
    {
      r := Dialogue.LastMessage(store.GetDialogue(d), speaker);
    }

    function AllMessages(d: string): seq<string>
      reads store
    {
      Texts(store.GetDialogue(d))
    }
  }

  // ------------------------------------------------------------ properties

  /** A repeated (speaker, text) returns None and changes nothing. */
  lemma AddDuplicate(g: Graph, m: Matrix, d: string, speaker: string, text: string, arg: EmbeddingArg, encoded: seq<real>)
    requires Said(Dialog(g, d), speaker, text)
    ensures AddOutcome(g, m, d, speaker, text, arg, encoded) == Outcome(g, m, Ok(None))
  {
    assert d in g;
    assert g[d := g[d]] == g;
  }

  /** A dict embedding is kept on a new last node with no index; the matrix
      is untouched and the call returns None. */
  lemma AddDict(g: Graph, m: Matrix, d: string, speaker: string, text: string, e: map<string, real>, encoded: seq<real>)
    requires !Said(Dialog(g, d), speaker, text)
    ensures var out := AddOutcome(g, m, d, speaker, text, DictArg(e), encoded);
      out.emb == m && out.result == Ok(None)
      && Dialog(out.graph, d) == Dialog(g, d) + [Node(speaker, text, None, Some(e), None)]
  {
  }

  /** A vector is appended as one new row; the new last node's index is the
      previous row count and the call returns that row. A width mismatch
      leaves the matrix and the node list as they were. */
  lemma AddVector(g: Graph, m: Matrix, d: string, speaker: string, text: string, arg: EmbeddingArg, encoded: seq<real>)
    requires !Said(Dialog(g, d), speaker, text) && !arg.DictArg?
    ensures var vec := if arg.VectorArg? then arg.vec else encoded;
      var out := AddOutcome(g, m, d, speaker, text, arg, encoded);
      if m.rows != [] && |vec| != m.width then
        out.result == Err(ValueError) && out.emb == m && Dialog(out.graph, d) == Dialog(g, d)
      else
        out.emb.rows == m.rows + [vec] && out.result == Ok(Some(vec))
        && Dialog(out.graph, d) == Dialog(g, d) + [Node(speaker, text, Some(|m.rows|), None, Some(vec))]
  {
  }

  /** Every other dialogue is left as it was. */
  lemma AddOthers(g: Graph, m: Matrix, d: string, speaker: string, text: string, arg: EmbeddingArg, encoded: seq<real>, other: string)
    requires other != d
    ensures var out := AddOutcome(g, m, d, speaker, text, arg, encoded);
      (other in out.graph <==> other in g) && Dialog(out.graph, other) == Dialog(g, other)
  {
  }

  /** add_utterance keeps the store invariant: node indices stay distinct
      and below the row count, and each points at its own vector. */
  lemma AddKeepsIndexed(g: Graph, m: Matrix, d: string, speaker: string, text: string, arg: EmbeddingArg, encoded: seq<real>)
    requires Indexed(g, m)
    ensures var out := AddOutcome(g, m, d, speaker, text, arg, encoded);
      Indexed(out.graph, out.emb)
  {
    var out := AddOutcome(g, m, d, speaker, text, arg, encoded);
    var dialogue := Dialog(g, d);
    var g1 := g[d := dialogue];
    SetDefaultIndexed(g, m, d);
    if Said(dialogue, speaker, text) {
      assert out.graph == g1 && out.emb == m;
    } else if arg.DictArg? {
      var n := Node(speaker, text, None, Some(arg.emb), None);
      AppendUnindexed(g1, m, d, n);
      assert out.graph == g1[d := Dialog(g1, d) + [n]] && out.emb == m;
    } else {
      var vec := if arg.VectorArg? then arg.vec else encoded;
      match Stack(m, vec)
      case Err(_) =>
        assert out.graph == g1 && out.emb == m;
      case Ok(m2) =>
        var n := Node(speaker, text, Some(|m.rows|), None, Some(vec));
        AppendIndexed(g1, m, d, n, vec);
        assert out.graph == g1[d := Dialog(g1, d) + [n]] && out.emb == m2;
    }
  }
}
