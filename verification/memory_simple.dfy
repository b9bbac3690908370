/** The minimal MemoryStore of d/memory_simple.py: an embedding matrix
    beside the list of contents that its rows belong to. The distance
    computation is floating point and outside the model: most_similar is
    given the order that `np.argsort` puts the rows in. */
module SimpleMemory {
  import opened Common
  import opened PySlice
  import opened Dialogue

  /** `[contents[i] for i in idxs if i < len(contents)]` */
  function Picked(idxs: seq<nat>, contents: seq<string>): (r: seq<string>)
    ensures |r| <= |idxs|
    ensures forall k :: 0 <= k < |r| ==> r[k] in contents
  {
    if idxs == [] then []
    else
      var i := idxs[|idxs| - 1];
      Picked(idxs[..|idxs| - 1], contents) + (if i < |contents| then [contents[i]] else [])
  }

  /** The state after add_utterance, and whether it raised. */
  datatype Added = Added(emb: Matrix, contents: seq<string>, result: Result<()>)

  /** add_utterance: without an embedding nothing happens; the first
      embedding becomes a one-row matrix, later ones are stacked, and the
      content is recorded beside its row. */
  function SimpleAdd(m: Matrix, contents: seq<string>, content: string, embedding: Option<seq<real>>): Added {
    match embedding
    case None => Added(m, contents, Ok(()))
    case Some(e) =>
      if m.rows == [] then Added(Matrix(|e|, [e]), contents + [content], Ok(()))
      else match VStack(m, e)
        case Err(err) => Added(m, contents, Err(err))
        case Ok(m2) => Added(m2, contents + [content], Ok(()))
  }

  class MemoryStore {
    const dim: nat
    var embeddings: Matrix
    var contents: seq<string>

    /** One content per row. */
    ghost predicate Valid()
      reads this
    {
      WellShaped(embeddings) && |embeddings.rows| == |contents|
    }

    constructor (dim: nat)
      ensures Valid() && this.dim == dim
      ensures embeddings == EmptyMatrix(dim) && contents == []
    {
      this.dim := dim;
      embeddings := EmptyMatrix(dim);
      contents := [];
    }

    /** add_utterance; the dialogue id and the role are accepted and ignored. */
    method AddUtterance(dialogId: string, role: string, content: string, embedding: Option<seq<real>>)
      returns (r: Result<()>)
      requires Valid()
      modifies this
      ensures Valid()
      ensures Added(embeddings, contents, r) == SimpleAdd(old(embeddings), old(contents), content, embedding)
    {
      SimpleAddKeeps(embeddings, contents, content, embedding);
      if embedding.Some? {
        var e := embedding.value;
        if |embeddings.rows| == 0 {
          embeddings := Matrix(|e|, [e]);
        } else {
          var stacked := VStack(embeddings, e);
          if stacked.Err? {
            return Err(stacked.error);
          }
          embeddings := stacked.value;
        }
        contents := contents + [content];
      }
      r := Ok(());
    }

    /** most_similar, with `order` standing for `np.argsort(distances)`:
        nothing for an empty store, otherwise the contents of the first
        top_k rows of that order. */
    function MostSimilar(order: seq<nat>, topK: int): seq<string>
      reads this
    {
      MostSimilarOf(embeddings, contents, order, topK)
    }
  }

  /** most_similar over a store's matrix and contents. */
  function MostSimilarOf(m: Matrix, contents: seq<string>, order: seq<nat>, topK: int): seq<string> {
    if |m.rows| == 0 then [] else Picked(To(order, topK), contents)
  }

  // ------------------------------------------------------------ properties

  /** Without an embedding, add_utterance changes nothing. */
  lemma SimpleAddNone(m: Matrix, contents: seq<string>, content: string)
    ensures SimpleAdd(m, contents, content, None) == Added(m, contents, Ok(()))
  {
  }

  /** With one, it appends one row and one content, or raises on a width
      mismatch and changes nothing. */
  lemma SimpleAddSome(m: Matrix, contents: seq<string>, content: string, e: seq<real>)
    ensures var out := SimpleAdd(m, contents, content, Some(e));
      if m.rows != [] && |e| != m.width then out == Added(m, contents, Err(ValueError))
      else out.emb.rows == m.rows + [e] && out.contents == contents + [content] && out.result == Ok(())
  {
  }

  /** add_utterance keeps one content per row. */
  lemma SimpleAddKeeps(m: Matrix, contents: seq<string>, content: string, embedding: Option<seq<real>>)
    requires WellShaped(m) && |m.rows| == |contents|
    ensures var out := SimpleAdd(m, contents, content, embedding);
      WellShaped(out.emb) && |out.emb.rows| == |out.contents|
  {
  }

  /** When every index names a content, each is picked, in order. */
  lemma {:induction false} PickedAll(idxs: seq<nat>, contents: seq<string>)
    requires forall k :: 0 <= k < |idxs| ==> idxs[k] < |contents|
    ensures Picked(idxs, contents) == seq(|idxs|, k requires 0 <= k < |idxs| => contents[idxs[k]])
  {
    if idxs != [] {
      PickedAll(idxs[..|idxs| - 1], contents);
    }
  }

  /** most_similar on a store whose argsort order lists row numbers returns
      exactly min(top_k, n) contents for a non-negative top_k (all but the
      last -top_k for a negative one), the contents of those rows in that
      order; an empty store returns nothing. */
  lemma MostSimilarSize(m: Matrix, contents: seq<string>, order: seq<nat>, topK: int)
    requires |m.rows| == |contents| && |order| == |contents|
    requires forall k :: 0 <= k < |order| ==> order[k] < |contents|
    ensures var r := MostSimilarOf(m, contents, order, topK);
      var n := |contents|;
      (n == 0 ==> r == [])
      && (0 <= topK ==> |r| == (if topK <= n then topK else n))
      && (topK < 0 ==> |r| == (if -topK <= n then n + topK else 0))
      && forall k :: 0 <= k < |r| ==> r[k] == contents[order[k]]
  {
    FirstK(order, topK);
    var top := To(order, topK);
    assert forall k :: 0 <= k < |top| ==> top[k] == order[k];
    PickedAll(top, contents);
  }
}
