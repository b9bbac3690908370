/** The graph store of memory/memory_lattice.py: dialogues of nodes that
    each carry an embedding map, kept in a dictionary whose insertion order
    decides the order of `all_nodes`. Saving to and loading from a file are
    outside the model. Nodes are Dialogue.Node values with an embedding map
    and nothing else. */
module MemoryLattice {
  import opened Common
  import opened Dicts
  import opened Dialogue

  /** The dialogues named by ks, one after the other. */
  function Flatten(ks: seq<string>, vals: map<string, seq<Node>>): seq<Node> {
    if ks == [] then [] else Flatten(ks[..|ks| - 1], vals) + MapGet(vals, ks[|ks| - 1], [])
  }

  /** The lengths of the dialogues named by ks. */
  function Lengths(ks: seq<string>, vals: map<string, seq<Node>>): (r: seq<int>)
    ensures |r| == |ks|
  {
    if ks == [] then [] else Lengths(ks[..|ks| - 1], vals) + [|MapGet(vals, ks[|ks| - 1], [])|]
  }

  class MemoryGraphStore {
    var graph: ODict<string, seq<Node>>

    ghost predicate Valid()
      reads this
    {
      Dicts.Valid(graph)
    }

    constructor ()
      ensures Valid() && graph.keys == []
    {
      graph := Empty();
    }

    /** add_utterance: `setdefault` the dialogue and append a node holding
        the speaker, the text and the embedding map. */
    method AddUtterance(d: string, speaker: string, text: string, embedding: map<string, real>)
      requires Valid()
      modifies this
      ensures Valid()
      ensures Get(graph, d, []) == Get(old(graph), d, []) + [Node(speaker, text, None, Some(embedding), None)]
      ensures forall other :: other != d ==>
        ((other in graph.vals <==> other in old(graph).vals) && Get(graph, other, []) == Get(old(graph), other, []))
      ensures d in old(graph).vals ==> graph.keys == old(graph).keys
      ensures d !in old(graph).vals ==> graph.keys == old(graph).keys + [d]
    {
      PutValid(graph, d, Get(graph, d, []) + [Node(speaker, text, None, Some(embedding), None)]);
      graph := Put(graph, d, Get(graph, d, []) + [Node(speaker, text, None, Some(embedding), None)]);
    }

    /** get_dialogue: a copy of the node list, [] for an unknown id. */
    function GetDialogue(d: string): seq<Node>
      reads this
    {
      Get(graph, d, [])
    }

    /** all_nodes: the nodes of every dialogue, dialogue by dialogue in
        insertion order. */
    function AllNodes(): seq<Node>
      reads this
    {
      Flatten(graph.keys, graph.vals)
    }
  }

  // ------------------------------------------------------------ properties

  /** all_nodes holds as many nodes as the dialogues together. */
  lemma {:induction false} FlattenLength(ks: seq<string>, vals: map<string, seq<Node>>)
    ensures |Flatten(ks, vals)| == SumInt(Lengths(ks, vals))
  {
    if ks != [] {
      var init := ks[..|ks| - 1];
      FlattenLength(init, vals);
      assert Lengths(ks, vals)[..|ks| - 1] == Lengths(init, vals);
    }
  }

  /** A node is in all_nodes exactly when it is in one of the dialogues. */
  lemma {:induction false} FlattenMembers(ks: seq<string>, vals: map<string, seq<Node>>, n: Node)
    ensures n in Flatten(ks, vals) <==> exists i :: 0 <= i < |ks| && n in MapGet(vals, ks[i], [])
  {
    if ks != [] {
      var init := ks[..|ks| - 1];
      FlattenMembers(init, vals, n);
      if n in MapGet(vals, ks[|ks| - 1], []) {
        assert n in Flatten(ks, vals);
      } else if exists i :: 0 <= i < |ks| && n in MapGet(vals, ks[i], []) {
        var i :| 0 <= i < |ks| && n in MapGet(vals, ks[i], []);
        assert init[i] == ks[i];
      }
    }
  }

  /** Changing a dialogue that ks does not name leaves the flattening alone. */
  lemma {:induction false} FlattenOther(ks: seq<string>, vals: map<string, seq<Node>>, d: string, v: seq<Node>)
    requires d !in ks
    ensures Flatten(ks, vals[d := v]) == Flatten(ks, vals)
  {
    if ks != [] {
      FlattenOther(ks[..|ks| - 1], vals, d, v);
    }
  }

  /** Flattening distributes over a split of the key list. */
  lemma {:induction false} FlattenSplit(ks: seq<string>, vals: map<string, seq<Node>>, j: nat)
    requires j <= |ks|
    ensures Flatten(ks, vals) == Flatten(ks[..j], vals) + Flatten(ks[j..], vals)
  {
    if j == |ks| {
      assert ks[..j] == ks && ks[j..] == [];
    } else {
      var init := ks[..|ks| - 1];
      FlattenSplit(init, vals, j);
      assert ks[..j] == init[..j];
      var post := ks[j..];
      assert post[..|post| - 1] == init[j..] && post[|post| - 1] == ks[|ks| - 1];
    }
  }

  /** Appending one node to the dialogue at position i of ks puts that node
      right after the dialogue's old nodes in the flattening: the nodes of
      the dialogues up to and including it come first, unchanged, and those
      of the later dialogues follow, unchanged. */
  lemma FlattenGrow(ks: seq<string>, vals: map<string, seq<Node>>, i: nat, n: Node)
    requires Distinct(ks) && i < |ks|
    ensures var vals2 := vals[ks[i] := MapGet(vals, ks[i], []) + [n]];
      Flatten(ks, vals) == Flatten(ks[..i + 1], vals) + Flatten(ks[i + 1..], vals)
      && Flatten(ks, vals2) == Flatten(ks[..i + 1], vals) + [n] + Flatten(ks[i + 1..], vals)
  {
    var d := ks[i];
    var v := MapGet(vals, d, []) + [n];
    var pre, post := ks[..i + 1], ks[i + 1..];
    FlattenSplit(ks, vals, i + 1);
    FlattenSplit(ks, vals[d := v], i + 1);
    assert d !in post;
    FlattenOther(post, vals, d, v);
    assert pre[..|pre| - 1] == ks[..i] && pre[|pre| - 1] == d;
    assert d !in ks[..i];
    FlattenOther(ks[..i], vals, d, v);
  }

  /** add_utterance adds exactly one node to all_nodes, the new one: for an
      existing dialogue right after that dialogue's old nodes, with every
      other node kept in place; for a new dialogue last. */
  lemma AddToAllNodes(g: ODict<string, seq<Node>>, d: string, n: Node)
    requires Dicts.Valid(g)
    ensures var g2 := Put(g, d, Get(g, d, []) + [n]);
      multiset(Flatten(g2.keys, g2.vals)) == multiset(Flatten(g.keys, g.vals)) + multiset{n}
      && (d !in g.vals ==> Flatten(g2.keys, g2.vals) == Flatten(g.keys, g.vals) + [n])
      && (forall i :: 0 <= i < |g.keys| && g.keys[i] == d ==>
            Flatten(g2.keys, g2.vals) == Flatten(g.keys[..i + 1], g.vals) + [n] + Flatten(g.keys[i + 1..], g.vals))
  {
    if d in g.vals {
      AddToOldDialogue(g, d, n);
    } else {
      AddNewDialogue(g, d, n);
      assert d !in g.keys;
    }
  }

  /** For an existing dialogue at position i, all_nodes gains the new node
      right after the dialogue's old nodes and keeps every other node in
      place. */
  lemma AddToOldDialogue(g: ODict<string, seq<Node>>, d: string, n: Node)
    requires Dicts.Valid(g) && d in g.vals
    ensures var g2 := Put(g, d, Get(g, d, []) + [n]);
      multiset(Flatten(g2.keys, g2.vals)) == multiset(Flatten(g.keys, g.vals)) + multiset{n}
      && forall i :: 0 <= i < |g.keys| && g.keys[i] == d ==>
           Flatten(g.keys, g.vals) == Flatten(g.keys[..i + 1], g.vals) + Flatten(g.keys[i + 1..], g.vals)
           && Flatten(g2.keys, g2.vals) == Flatten(g.keys[..i + 1], g.vals) + [n] + Flatten(g.keys[i + 1..], g.vals)
  {
    var g2 := Put(g, d, Get(g, d, []) + [n]);
    var v := MapGet(g.vals, d, []) + [n];
    assert g2.keys == g.keys && g2.vals == g.vals[d := v];
    forall i | 0 <= i < |g.keys| && g.keys[i] == d
      ensures Flatten(g.keys, g.vals) == Flatten(g.keys[..i + 1], g.vals) + Flatten(g.keys[i + 1..], g.vals)
      ensures Flatten(g.keys, g.vals[d := v]) == Flatten(g.keys[..i + 1], g.vals) + [n] + Flatten(g.keys[i + 1..], g.vals)
    {
      FlattenGrow(g.keys, g.vals, i, n);
    }
    assert d in g.keys;
    var j :| 0 <= j < |g.keys| && g.keys[j] == d;
    FlattenGrow(g.keys, g.vals, j, n);
    MultisetInsert(Flatten(g.keys, g.vals[d := v]), Flatten(g.keys, g.vals),
      Flatten(g.keys[..j + 1], g.vals), n, Flatten(g.keys[j + 1..], g.vals));
  }


  lemma AddNewDialogue(g: ODict<string, seq<Node>>, d: string, n: Node)
    requires Dicts.Valid(g) && d !in g.vals
    ensures var g2 := Put(g, d, Get(g, d, []) + [n]);
      Flatten(g2.keys, g2.vals) == Flatten(g.keys, g.vals) + [n]
  {
    var g2 := Put(g, d, Get(g, d, []) + [n]);
    assert d !in g.keys;
    assert Get(g, d, []) + [n] == [n];
    assert g2.keys == g.keys + [d] && g2.vals == g.vals[d := [n]];
    FlattenOther(g.keys, g.vals, d, [n]);
    assert g2.keys[..|g2.keys| - 1] == g.keys;
  }
}
