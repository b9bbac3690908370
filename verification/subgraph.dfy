/** select_context_subgraph of router/subgraph.py: a fresh hypergraph
    holding the nodes whose "content" mentions one of the context words
    (case-insensitively, as a substring), each followed by a copy of every
    hyperedge of the original graph that holds it. */
module Subgraph {
  import opened Common
  import opened Dicts
  import opened Text
  import opened Hypergraph

  /** The node's "content" entry lower-cased, "" when it has none. */
  function Content(n: HNode): string {
    LowerStr(MapGet(n.data, "content", ""))
  }

  /** `any(k in content for k in keywords)` for the keywords made by
      lower-casing words. */
  function AnyIn(words: seq<string>, content: string): bool {
    if words == [] then false
    else AnyIn(words[..|words| - 1], content) || Contains(LowerStr(words[|words| - 1]), content)
  }

  /** The node's content mentions one of the context words. */
  predicate Matches(n: HNode, context: seq<string>) {
    AnyIn(context, Content(n))
  }

  /** The hyperedges of es that hold id, in order. */
  function EdgesWith(es: seq<set<string>>, id: string): (r: seq<set<string>>)
    ensures |r| <= |es|
  {
    if es == [] then []
    else EdgesWith(es[..|es| - 1], id) + (if id in es[|es| - 1] then [es[|es| - 1]] else [])
  }

  /** The ids among the first i keys whose node matches, in key order. */
  function Chosen(keys: seq<string>, vals: map<string, HNode>, context: seq<string>, i: nat): seq<string>
    requires i <= |keys|
  {
    if i == 0 then []
    else
      var k := keys[i - 1];
      Chosen(keys, vals, context, i - 1) + (if k in vals && Matches(vals[k], context) then [k] else [])
  }

  /** The hyperedges the subgraph collects from the first i keys. */
  function ChosenEdges(keys: seq<string>, vals: map<string, HNode>, es: seq<set<string>>, context: seq<string>, i: nat): seq<set<string>>
    requires i <= |keys|
  {
    if i == 0 then []
    else
      var k := keys[i - 1];
      ChosenEdges(keys, vals, es, context, i - 1) + (if k in vals && Matches(vals[k], context) then EdgesWith(es, k) else [])
  }

  /** The inner loop of select_context_subgraph: append to sub a copy of
      every hyperedge of es that holds id. */
  method CopyEdgesWith(sub: HyperGraph, es: seq<set<string>>, id: string)
    modifies sub
    ensures sub.edges == old(sub.edges) + EdgesWith(es, id)
    ensures sub.nodes == old(sub.nodes) && sub.order == old(sub.order)
  {
    for j := 0 to |es|
      invariant sub.edges == old(sub.edges) + EdgesWith(es[..j], id)
      invariant sub.nodes == old(sub.nodes) && sub.order == old(sub.order)
    {
      assert es[..j + 1][..j] == es[..j];
      if id in es[j] {
        sub.edges := sub.edges + [es[j]];
      }
    }
    assert es[..|es|] == es;
  }

  /** select_context_subgraph: the nodes are the matching nodes of graph in
      its insertion order, with their data, and the hyperedges are, node by
      node, copies of graph's hyperedges that hold that node. */
  method SelectContextSubgraph(graph: HyperGraph, context: seq<string>) returns (sub: HyperGraph)
    requires graph.Valid()
    ensures fresh(sub) && sub.Valid()
    ensures sub.nodes.keys == Chosen(graph.nodes.keys, graph.nodes.vals, context, |graph.nodes.keys|)
    ensures sub.order == sub.nodes.keys
    ensures forall x :: x in sub.nodes.vals ==> x in graph.nodes.vals && sub.nodes.vals[x] == graph.nodes.vals[x]
    ensures sub.edges == ChosenEdges(graph.nodes.keys, graph.nodes.vals, graph.edges, context, |graph.nodes.keys|)
  {
    sub := new HyperGraph();
    var keys, vals, es := graph.nodes.keys, graph.nodes.vals, graph.edges;
    for i := 0 to |keys|
      invariant sub.Valid()
      invariant sub.nodes.keys == Chosen(keys, vals, context, i) && sub.order == sub.nodes.keys
      invariant forall x :: x in sub.nodes.vals ==> x in vals && sub.nodes.vals[x] == vals[x]
      invariant sub.edges == ChosenEdges(keys, vals, es, context, i)
    {
      var k := keys[i];
      var node := vals[k];
      ChosenStep(keys, vals, es, context, i);
      if Matches(node, context) {
        assert k !in sub.nodes.vals by {
          ChosenMembers(keys, vals, context, i, k);
          assert k !in keys[..i];
        }
        ghost var before := sub.edges;
        sub.AddNode(k, Some(node.data), None);
        assert NewEdge(k, None) == [];
        assert sub.edges == before;
        CopyEdgesWith(sub, es, k);
        assert sub.edges == before + EdgesWith(es, k);
        assert sub.nodes.keys == Chosen(keys, vals, context, i) + [k];
      }
    }
  }

  /** One key further: the key is chosen, with its hyperedges, exactly
      when its node matches. */
  lemma ChosenStep(keys: seq<string>, vals: map<string, HNode>, es: seq<set<string>>, context: seq<string>, i: nat)
    requires i < |keys| && keys[i] in vals
    ensures Matches(vals[keys[i]], context) ==>
      Chosen(keys, vals, context, i + 1) == Chosen(keys, vals, context, i) + [keys[i]]
      && ChosenEdges(keys, vals, es, context, i + 1) == ChosenEdges(keys, vals, es, context, i) + EdgesWith(es, keys[i])
    ensures !Matches(vals[keys[i]], context) ==>
      Chosen(keys, vals, context, i + 1) == Chosen(keys, vals, context, i)
      && ChosenEdges(keys, vals, es, context, i + 1) == ChosenEdges(keys, vals, es, context, i)
  {
  }

  // ------------------------------------------------------------ properties

  /** A node matches exactly when some context word, lower-cased, occurs
      in its lower-cased content. */
  lemma {:induction false} AnyInExists(words: seq<string>, content: string)
    ensures AnyIn(words, content) <==> exists w :: w in words && IsSubstring(LowerStr(w), content)
  {
    if words != [] {
      var init := words[..|words| - 1];
      AnyInExists(init, content);
      assert words == init + [words[|words| - 1]];
    }
  }

  /** An edge is kept for id exactly when it is one of es holding id. */
  lemma {:induction false} EdgesWithMembers(es: seq<set<string>>, id: string, e: set<string>)
    ensures e in EdgesWith(es, id) <==> e in es && id in e
  {
    if es != [] {
      EdgesWithMembers(es[..|es| - 1], id, e);
      assert es == es[..|es| - 1] + [es[|es| - 1]];
    }
  }

  /** A node is in the subgraph exactly when it is in the graph and its
      content mentions a context word. */
  lemma {:induction false} ChosenMembers(keys: seq<string>, vals: map<string, HNode>, context: seq<string>, i: nat, x: string)
    requires i <= |keys|
    ensures x in Chosen(keys, vals, context, i) <==> x in keys[..i] && x in vals && Matches(vals[x], context)
  {
    if i > 0 {
      ChosenMembers(keys, vals, context, i - 1, x);
      assert keys[..i] == keys[..i - 1] + [keys[i - 1]];
    }
  }

  /** Every copied hyperedge is a hyperedge of the graph holding a chosen
      node, and every hyperedge holding a chosen node is copied. */
  lemma {:induction false} ChosenEdgesMembers(keys: seq<string>, vals: map<string, HNode>, es: seq<set<string>>, context: seq<string>, i: nat, e: set<string>)
    requires i <= |keys|
    ensures e in ChosenEdges(keys, vals, es, context, i) <==>
      e in es && exists x :: x in e && x in Chosen(keys, vals, context, i)
  {
    if i > 0 {
      var k := keys[i - 1];
      ChosenEdgesMembers(keys, vals, es, context, i - 1, e);
      EdgesWithMembers(es, k, e);
      if e in ChosenEdges(keys, vals, es, context, i) && e !in ChosenEdges(keys, vals, es, context, i - 1) {
        assert k in e && k in Chosen(keys, vals, context, i);
      }
      if e in es && exists x :: x in e && x in Chosen(keys, vals, context, i) {
        var x :| x in e && x in Chosen(keys, vals, context, i);
        if x !in Chosen(keys, vals, context, i - 1) {
          assert x == k;
        }
      }
    }
  }

  /** No context words, no nodes and no hyperedges. */
  lemma {:induction false} NoContextEmpty(keys: seq<string>, vals: map<string, HNode>, es: seq<set<string>>, i: nat)
    requires i <= |keys|
    ensures Chosen(keys, vals, [], i) == [] && ChosenEdges(keys, vals, es, [], i) == []
  {
    if i > 0 {
      NoContextEmpty(keys, vals, es, i - 1);
    }
  }
}
