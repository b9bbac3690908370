/** The list memory of pro_memory.py: every message is appended to a
    module-level list as a (content, tag) pair, and the recent-message,
    related-concept and statistics queries read that list. The SQLite side
    and the embeddings are not part of this model. */
module ProMemory {
  import opened Common
  import opened Text
  import opened PySlice

  type Message = (string, string)

  /** The contents of the messages, in order. */
  function Contents(msgs: seq<Message>): (r: seq<string>)
    ensures |r| == |msgs|
    ensures forall k :: 0 <= k < |msgs| ==> r[k] == msgs[k].0
  {
    seq(|msgs|, k requires 0 <= k < |msgs| => msgs[k].0)
  }

  /** Some word, lower-cased, is a substring of the lower-cased content. */
  predicate Mentions(content: string, words: seq<string>) {
    exists k :: 0 <= k < |words| && Contains(LowerStr(words[k]), LowerStr(content))
  }

  /** The contents of the messages that mention a word, in message order. */
  function Matching(msgs: seq<Message>, words: seq<string>): (r: seq<string>)
    ensures |r| <= |msgs|
  {
    if msgs == [] then []
    else
      var before := Matching(msgs[..|msgs| - 1], words);
      var content := msgs[|msgs| - 1].0;
      if Mentions(content, words) then before + [content] else before
  }

  /** fetch_related_concepts */
  function RelatedConcepts(msgs: seq<Message>, words: seq<string>): (r: seq<string>)
    ensures |r| <= 10
  {
    if words == [] then [] else
      PySlice.FirstK(Matching(msgs, words), 10);
      To(Matching(msgs, words), 10)
  }

  /** The contents of `msgs[-limit:]`. */
  function Recent(msgs: seq<Message>, limit: int): (r: seq<string>)
    ensures |r| <= |msgs|
  {
    Contents(From(msgs, -limit))
  }

  class MessageList {
    var messages: seq<Message>

    constructor ()
      ensures messages == []
    {
      messages := [];
    }

    /** _add_to_graph: the message type and the embedding are ignored. */
    method AddToGraph(content: string, msgType: string, tag: string)
      modifies this
      ensures messages == old(messages) + [(content, tag)]
    {
      messages := messages + [(content, tag)];
    }

    /** The list part of add_message. */
    method AddMessage(content: string, tag: string)
      modifies this
      ensures messages == old(messages) + [(content, tag)]
    {
      AddToGraph(content, "message", tag);
    }

    /** fetch_recent */
    function FetchRecent(limit: int): seq<string>
      reads this
    {
      Recent(messages, limit)
    }

    /** fetch_related_concepts: each message goes in at most once, at the
        first word found in it; the first ten are kept. */
    method FetchRelatedConcepts(words: seq<string>) returns (results: seq<string>)
      ensures results == RelatedConcepts(messages, words)
    {
      results := [];
      if words == [] {
        return;
      }
      for i := 0 to |messages|
        invariant results == Matching(messages[..i], words)
      {
        assert messages[..i + 1][..i] == messages[..i];
        var content := messages[i].0;
        var found := MentionsAny(content, words);
        if found {
          results := results + [content];
        }
      }
      assert messages[..|messages|] == messages;
      results := To(results, 10);
    }

    /** get_memory_stats: (total_messages, recent_count). */
    function GetMemoryStats(): (stats: (nat, nat))
      reads this
      ensures stats.0 == |messages|
      ensures stats.1 <= stats.0 && stats.1 <= 10
      ensures stats.0 <= 10 ==> stats.1 == stats.0
      ensures stats.0 > 10 ==> stats.1 == 10
    {
      (|messages|, Min(10, |messages|))
    }
  }

  /** The inner loop of fetch_related_concepts, up to its `break`. */
  method MentionsAny(content: string, words: seq<string>) returns (found: bool)
    ensures found == Mentions(content, words)
  {
    var lowered := LowerStr(content);
    for k := 0 to |words|
      invariant forall j :: 0 <= j < k ==> !Contains(LowerStr(words[j]), lowered)
    {
      if Contains(LowerStr(words[k]), lowered) {
        return true;
      }
    }
    return false;
  }

  /** is_unique: the simplified check accepts everything. */
  function IsUnique(content: string): (r: bool)
    ensures r
  {
    true
  }

  // ------------------------------------------------------------ properties

  /** fetch_recent(limit) gives the contents of the last `limit` messages in
      order; a limit of 0 gives all of them (Python's `[-0:]`), and a
      negative limit drops that many from the front instead. */
  lemma RecentProps(msgs: seq<Message>, limit: int)
    ensures limit == 0 ==> Recent(msgs, limit) == Contents(msgs)
    ensures 0 < limit ==> |Recent(msgs, limit)| == Min(limit, |msgs|)
    ensures limit < 0 ==> |Recent(msgs, limit)| == |msgs| - Min(-limit, |msgs|)
    ensures forall k :: 0 <= k < |Recent(msgs, limit)| ==>
      Recent(msgs, limit)[k] == msgs[|msgs| - |Recent(msgs, limit)| + k].0
  {
    SuffixSlice(msgs, limit);
    var tail := From(msgs, -limit);
    var r := Recent(msgs, limit);
    assert r == Contents(tail) && |r| == |tail|;
    assert tail == msgs[|msgs| - |tail|..];
    forall k | 0 <= k < |r|
      ensures r[k] == msgs[|msgs| - |r| + k].0
    {
      assert tail[k] == msgs[|msgs| - |tail| + k];
    }
    if limit == 0 {
      assert tail == msgs;
    }
  }

  /** Every message that mentions a word appears in the matches exactly as
      often as it was stored, and no other content appears. */
  lemma {:induction false} MatchingCount(msgs: seq<Message>, words: seq<string>, x: string)
    ensures Count(Matching(msgs, words), x) == if Mentions(x, words) then Count(Contents(msgs), x) else 0
  {
    if msgs != [] {
      var init := msgs[..|msgs| - 1];
      var content := msgs[|msgs| - 1].0;
      MatchingCount(init, words, x);
      assert Contents(msgs) == Contents(init) + [content];
      CountSnoc(Contents(init), content, x);
      if Mentions(content, words) {
        CountSnoc(Matching(init, words), content, x);
      }
    }
  }

  /** The related concepts are the first matches, in message order: at most
      ten, each mentioning one of the words; no words, no concepts. */
  lemma RelatedConceptsProps(msgs: seq<Message>, words: seq<string>)
    ensures words == [] ==> RelatedConcepts(msgs, words) == []
    ensures words != [] ==>
      RelatedConcepts(msgs, words) == Matching(msgs, words)[..Min(10, |Matching(msgs, words)|)]
    ensures forall x :: x in RelatedConcepts(msgs, words) ==> Mentions(x, words) && x in Contents(msgs)
  {
    forall x | x in RelatedConcepts(msgs, words)
      ensures Mentions(x, words) && x in Contents(msgs)
    {
      var m := Matching(msgs, words);
      assert x in m;
      assert x in multiset(m);
      MatchingCount(msgs, words, x);
      assert x in multiset(Contents(msgs));
    }
  }
}
