/** What the in-memory dialogue stores (memory/store.py, memory/storage.py,
    memory/memory_graph.py, memory/memory_lattice.py) have in common: the
    utterance node, the embedding matrix that vector-backed nodes point
    into, and the retriever queries over one dialogue's node list. */
module Dialogue {
  import opened Common
  import opened Dicts

  /** MemoryNode of store.py and storage.py. The node of memory_graph.py is
      the case with an index and nothing else, and the node of
      memory_lattice.py the case with an embedding map and nothing else. */
  datatype Node = Node(
    speaker: string,
    text: string,
    index: Option<nat>,
    embedding: Option<map<string, real>>,
    morphCodes: Option<seq<real>>)

  /** A two-dimensional numpy array: its column count and its rows. */
  datatype Matrix = Matrix(width: nat, rows: seq<seq<real>>)

  /** Every row has the matrix's width. */
  predicate WellShaped(m: Matrix) {
    forall r :: 0 <= r < |m.rows| ==> |m.rows[r]| == m.width
  }

  /** `anp.zeros((0, dim))` */
  function EmptyMatrix(dim: nat): (m: Matrix)
    ensures WellShaped(m) && m.rows == []
  {
    Matrix(dim, [])
  }

  /** `m.size`: the number of entries, rows times columns. */
  function Size(m: Matrix): nat {
    |m.rows| * m.width
  }

  /** `anp.vstack([m, vec])`, which needs vec to have m's width. */
  function VStack(m: Matrix, vec: seq<real>): Result<Matrix> {
    if |vec| == m.width then Ok(Matrix(m.width, m.rows + [vec])) else Err(ValueError)
  }

  /** The row-append step of add_utterance as written: stack when the
      matrix has entries, otherwise start over from `vec.reshape(1, -1)`.
      A matrix whose rows are all empty has no entries, so it is replaced. */
  function StackAsWritten(m: Matrix, vec: seq<real>): Result<Matrix> {
    if Size(m) != 0 then VStack(m, vec) else Ok(Matrix(|vec|, [vec]))
  }

  /** The row-append step as intended: start over only when there are no
      rows yet. */
  function Stack(m: Matrix, vec: seq<real>): (r: Result<Matrix>)
    ensures r.Ok? ==> r.value.rows == m.rows + [vec]
    ensures r.Err? <==> m.rows != [] && |vec| != m.width
    ensures WellShaped(m) && r.Ok? ==> WellShaped(r.value)
  {
    if m.rows != [] then VStack(m, vec) else Ok(Matrix(|vec|, [vec]))
  }

  /** As written, a store built with dim 0 gives its first two vectors the
      same index: the second append replaces the one-row matrix instead of
      growing it, so `shape[0] - 1` is 0 both times. */
  lemma StackAsWrittenReusesIndex()
    ensures var first := StackAsWritten(EmptyMatrix(0), []);
      first.Ok? && |first.value.rows| - 1 == 0
      && StackAsWritten(first.value, []).Ok?
      && |StackAsWritten(first.value, []).value.rows| - 1 == 0
  {
  }

  /** As intended, each append gives the new row the previous row count as
      its index, so no two appends share an index. */
  lemma StackIndexFresh(m: Matrix, vec: seq<real>)
    requires Stack(m, vec).Ok?
    ensures |Stack(m, vec).value.rows| - 1 == |m.rows|
    ensures Stack(m, vec).value.rows[|m.rows|] == vec
  {
  }

  /** The two agree whenever the matrix has a non-zero width or no rows. */
  lemma StackAgrees(m: Matrix, vec: seq<real>)
    requires m.width != 0 || m.rows == []
    ensures StackAsWritten(m, vec) == Stack(m, vec)
  {
  }

  // ------------------------------------------------------------ node lists

  /** The nodes whose index is set, and whose speaker matches when one is given. */
  predicate Selected(n: Node, speaker: Option<string>) {
    n.index.Some? && (speaker.None? || n.speaker == speaker.value)
  }

  /** The indices that embeddings_for collects, in dialogue order. */
  function SelectIndices(nodes: seq<Node>, speaker: Option<string>): (r: seq<nat>)
    ensures |r| <= |nodes|
  {
    if nodes == [] then []
    else
      var before := SelectIndices(nodes[..|nodes| - 1], speaker);
      var n := nodes[|nodes| - 1];
      if Selected(n, speaker) then before + [n.index.value] else before
  }

  /** The selected nodes themselves, in dialogue order. */
  function SelectNodes(nodes: seq<Node>, speaker: Option<string>): (r: seq<Node>)
    ensures forall k :: 0 <= k < |r| ==> Selected(r[k], speaker) && r[k] in nodes
  {
    if nodes == [] then []
    else
      var before := SelectNodes(nodes[..|nodes| - 1], speaker);
      var n := nodes[|nodes| - 1];
      if Selected(n, speaker) then before + [n] else before
  }

  /** The collected indices are those of the selected nodes. */
  lemma {:induction false} SelectIndicesNodes(nodes: seq<Node>, speaker: Option<string>)
    ensures |SelectIndices(nodes, speaker)| == |SelectNodes(nodes, speaker)|
    ensures forall k :: 0 <= k < |SelectIndices(nodes, speaker)| ==>
      SelectIndices(nodes, speaker)[k] == SelectNodes(nodes, speaker)[k].index.value
  {
    if nodes != [] {
      SelectIndicesNodes(nodes[..|nodes| - 1], speaker);
    }
  }

  /** `all_messages`: the texts, in insertion order. */
  function Texts(nodes: seq<Node>): (r: seq<string>)
    ensures |r| == |nodes|
    ensures forall k :: 0 <= k < |nodes| ==> r[k] == nodes[k].text
  {
    seq(|nodes|, k requires 0 <= k < |nodes| => nodes[k].text)
  }

  /** The text of the latest node by the speaker, if any. */
  function LastBy(nodes: seq<Node>, speaker: string): (r: Option<string>)
  {
    if nodes == [] then None
    else if nodes[|nodes| - 1].speaker == speaker then Some(nodes[|nodes| - 1].text)
    else LastBy(nodes[..|nodes| - 1], speaker)
  }

  /** LastBy finds a node by the speaker with no later one by the speaker,
      and finds nothing exactly when the speaker never spoke. */
  lemma {:induction false} LastByMeaning(nodes: seq<Node>, speaker: string)
    ensures LastBy(nodes, speaker).None? <==> forall k :: 0 <= k < |nodes| ==> nodes[k].speaker != speaker
    ensures LastBy(nodes, speaker).Some? ==> exists k :: (0 <= k < |nodes|
      && nodes[k].speaker == speaker && nodes[k].text == LastBy(nodes, speaker).value
      && forall j :: k < j < |nodes| ==> nodes[j].speaker != speaker)
  {
    if nodes != [] && nodes[|nodes| - 1].speaker != speaker {
      var init := nodes[..|nodes| - 1];
      LastByMeaning(init, speaker);
      if LastBy(init, speaker).Some? {
        var k :| 0 <= k < |init| && init[k].speaker == speaker && init[k].text == LastBy(init, speaker).value
          && forall j :: k < j < |init| ==> init[j].speaker != speaker;
        assert nodes[k] == init[k];
      }
    }
  }

  /** GraphRetriever.last_message: walk the dialogue backwards and return
      the first text by the speaker. */
  method LastMessage(nodes: seq<Node>, speaker: string) returns (r: Option<string>)
    ensures r == LastBy(nodes, speaker)
  {
    var i := |nodes|;
    assert nodes[..i] == nodes;
    while i > 0
      invariant 0 <= i <= |nodes|
      invariant LastBy(nodes, speaker) == LastBy(nodes[..i], speaker)
    {
      assert nodes[..i][..i - 1] == nodes[..i - 1];
      if nodes[i - 1].speaker == speaker {
        return Some(nodes[i - 1].text);
      }
      i := i - 1;
    }
    return None;
  }

  /** `self.embeddings[idxs]`: the rows at the given indices, in order. */
  function RowsAt(m: Matrix, idxs: seq<nat>): (r: seq<seq<real>>)
    requires forall k :: 0 <= k < |idxs| ==> idxs[k] < |m.rows|
    ensures |r| == |idxs|
  {
    seq(|idxs|, k requires 0 <= k < |idxs| => m.rows[idxs[k]])
  }

  // ------------------------------------------------- vector-backed stores

  /** What add_utterance receives as `embedding`: a dict, a vector, or None. */
  datatype EmbeddingArg = DictArg(emb: map<string, real>) | VectorArg(vec: seq<real>) | NoArg

  type Graph = map<string, seq<Node>>

  /** `graph.get(dialogue_id, [])` */
  function Dialog(g: Graph, d: string): seq<Node> {
    MapGet(g, d, [])
  }

  /** Every indexed node points at an existing row that holds its morph codes. */
  predicate PointsInto(g: Graph, m: Matrix) {
    forall d, k :: d in g && 0 <= k < |g[d]| && g[d][k].index.Some? ==>
      g[d][k].index.value < |m.rows| && g[d][k].morphCodes == Some(m.rows[g[d][k].index.value])
  }

  /** No two indexed nodes share a row. */
  predicate IndicesDistinct(g: Graph) {
    forall d1, k1, d2, k2 ::
      (d1 in g && d2 in g && 0 <= k1 < |g[d1]| && 0 <= k2 < |g[d2]|
       && g[d1][k1].index.Some? && g[d1][k1].index == g[d2][k2].index) ==> d1 == d2 && k1 == k2
  }

  /** The store invariant shared by the vector-backed stores. */
  predicate Indexed(g: Graph, m: Matrix) {
    WellShaped(m) && PointsInto(g, m) && IndicesDistinct(g)
  }

  /** The store after add_utterance, and what it returns. */
  datatype Outcome = Outcome(graph: Graph, emb: Matrix, result: Result<Option<seq<real>>>)

  lemma IndicesInRange(g: Graph, m: Matrix, d: string, speaker: Option<string>)
    requires Indexed(g, m)
    ensures forall k :: 0 <= k < |SelectIndices(Dialog(g, d), speaker)| ==>
      SelectIndices(Dialog(g, d), speaker)[k] < |m.rows|
  {
    var nodes := Dialog(g, d);
    SelectIndicesNodes(nodes, speaker);
    forall k | 0 <= k < |SelectIndices(nodes, speaker)|
      ensures SelectIndices(nodes, speaker)[k] < |m.rows|
    {
      var n := SelectNodes(nodes, speaker)[k];
      var j :| 0 <= j < |nodes| && nodes[j] == n;
    }
  }

  /** embeddings_for picks, in dialogue order, the rows holding the morph
      codes of the selected nodes. */
  lemma EmbeddingsForMeaning(g: Graph, m: Matrix, d: string, speaker: Option<string>)
    requires Indexed(g, m)
    ensures var idxs := SelectIndices(Dialog(g, d), speaker);
      var sel := SelectNodes(Dialog(g, d), speaker);
      |idxs| == |sel|
      && (forall k :: 0 <= k < |idxs| ==> idxs[k] < |m.rows|)
      && (forall k :: 0 <= k < |sel| ==> sel[k].morphCodes == Some(m.rows[idxs[k]]))
  {
    var nodes := Dialog(g, d);
    IndicesInRange(g, m, d, speaker);
    SelectIndicesNodes(nodes, speaker);
    var sel := SelectNodes(nodes, speaker);
    forall k | 0 <= k < |sel| ensures sel[k].morphCodes == Some(m.rows[sel[k].index.value]) {
      var j :| 0 <= j < |nodes| && nodes[j] == sel[k];
    }
  }

  /** `graph.setdefault(d, [])` keeps the invariant and the dialogue. */
  lemma SetDefaultIndexed(g: Graph, m: Matrix, d: string)
    requires Indexed(g, m)
    ensures Indexed(g[d := Dialog(g, d)], m) && Dialog(g[d := Dialog(g, d)], d) == Dialog(g, d)
  {
    if d in g {
      assert g[d := Dialog(g, d)] == g;
    }
  }

  /** Appending a node that has no index keeps the invariant. */
  lemma AppendUnindexed(g: Graph, m: Matrix, d: string, n: Node)
    requires Indexed(g, m) && n.index.None?
    ensures Indexed(g[d := Dialog(g, d) + [n]], m)
  {
    var g2: Graph := g[d := Dialog(g, d) + [n]];
    forall d1: string, k1: int | d1 in g2 && 0 <= k1 < |g2[d1]|
      ensures g2[d1][k1].index.Some? ==> d1 in g && k1 < |g[d1]| && g2[d1][k1] == g[d1][k1]
    {
      if d1 == d && k1 < |Dialog(g, d)| { assert g2[d1][k1] == Dialog(g, d)[k1]; }
    }
  }

  /** Appending a node that points at a freshly appended row keeps the invariant. */
  lemma AppendIndexed(g: Graph, m: Matrix, d: string, n: Node, vec: seq<real>)
    requires Indexed(g, m) && (m.rows == [] || |vec| == m.width)
    requires n.index == Some(|m.rows|) && n.morphCodes == Some(vec)
    ensures Indexed(g[d := Dialog(g, d) + [n]], Matrix(if m.rows == [] then |vec| else m.width, m.rows + [vec]))
  {
    var g2: Graph := g[d := Dialog(g, d) + [n]];
    var m2 := Matrix(if m.rows == [] then |vec| else m.width, m.rows + [vec]);
    AppendIndexedOld(g, m, d, n);
    AppendIndexedPoints(g, m, d, n, vec);
    AppendIndexedDistinct(g, m, d, n);
  }

  /** After an append, every node but the new last one is an old node. */
  lemma AppendIndexedOld(g: Graph, m: Matrix, d: string, n: Node)
    ensures var g2: Graph := g[d := Dialog(g, d) + [n]];
      forall d1: string, k1: int :: d1 in g2 && 0 <= k1 < |g2[d1]| && !(d1 == d && k1 == |Dialog(g, d)|) ==>
        d1 in g && k1 < |g[d1]| && g2[d1][k1] == g[d1][k1]
  {
    var g2: Graph := g[d := Dialog(g, d) + [n]];
    forall d1: string, k1: int | d1 in g2 && 0 <= k1 < |g2[d1]| && !(d1 == d && k1 == |Dialog(g, d)|)
      ensures d1 in g && k1 < |g[d1]| && g2[d1][k1] == g[d1][k1]
    {
      if d1 == d { assert g2[d1][k1] == Dialog(g, d)[k1]; }
    }
  }

  lemma AppendIndexedPoints(g: Graph, m: Matrix, d: string, n: Node, vec: seq<real>)
    requires PointsInto(g, m)
    requires n.index == Some(|m.rows|) && n.morphCodes == Some(vec)
    requires var g2: Graph := g[d := Dialog(g, d) + [n]];
      forall d1: string, k1: int :: d1 in g2 && 0 <= k1 < |g2[d1]| && !(d1 == d && k1 == |Dialog(g, d)|) ==>
        d1 in g && k1 < |g[d1]| && g2[d1][k1] == g[d1][k1]
    ensures PointsInto(g[d := Dialog(g, d) + [n]], Matrix(if m.rows == [] then |vec| else m.width, m.rows + [vec]))
  {
    var g2: Graph := g[d := Dialog(g, d) + [n]];
    var m2 := Matrix(if m.rows == [] then |vec| else m.width, m.rows + [vec]);
    forall d1: string, k1: int | d1 in g2 && 0 <= k1 < |g2[d1]| && g2[d1][k1].index.Some?
      ensures g2[d1][k1].index.value < |m2.rows| && g2[d1][k1].morphCodes == Some(m2.rows[g2[d1][k1].index.value])
    {
      if !(d1 == d && k1 == |Dialog(g, d)|) {
        assert g2[d1][k1] == g[d1][k1];
        assert m2.rows[g[d1][k1].index.value] == m.rows[g[d1][k1].index.value];
      }
    }
  }

  lemma AppendIndexedDistinct(g: Graph, m: Matrix, d: string, n: Node)
    requires PointsInto(g, m) && IndicesDistinct(g) && n.index == Some(|m.rows|)
    requires var g2: Graph := g[d := Dialog(g, d) + [n]];
      forall d1: string, k1: int :: d1 in g2 && 0 <= k1 < |g2[d1]| && !(d1 == d && k1 == |Dialog(g, d)|) ==>
        d1 in g && k1 < |g[d1]| && g2[d1][k1] == g[d1][k1]
    ensures IndicesDistinct(g[d := Dialog(g, d) + [n]])
  {
  }
}
