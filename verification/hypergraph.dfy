/** The minimal hypergraph of resonance/hypergraph.py: nodes by id, a list
    of hyperedges (sets of ids) and the order in which ids were added. Node
    data is a dictionary whose values are taken in their `str` form, the
    only form that is ever read back (router/subgraph.py). */
module Hypergraph {
  import opened Common
  import opened Dicts
  import opened PySlice

  datatype HNode = HNode(id: string, data: map<string, string>)

  /** The hyperedge that add_node records: the ids in `connect` together
      with the new node's own id, and nothing when `connect` is empty. */
  function NewEdge(id: string, connect: Option<seq<string>>): (r: seq<set<string>>)
    ensures |r| <= 1
    ensures |r| == 1 <==> connect.Some? && connect.value != []
    ensures |r| == 1 ==> r[0] == (set x | x in connect.value) + {id}
  {
    match connect
    case None => []
    case Some(c) => if c == [] then [] else [(set x | x in c) + {id}]
  }

  /** The union of the hyperedges of es that hold id. */
  function Touching(es: seq<set<string>>, id: string): set<string> {
    if es == [] then {}
    else Touching(es[..|es| - 1], id) + (if id in es[|es| - 1] then es[|es| - 1] else {})
  }

  /** What neighbors returns, as a set: every id that shares a hyperedge
      with id, without id itself. */
  function NeighborSet(es: seq<set<string>>, id: string): set<string> {
    Touching(es, id) - {id}
  }

  class HyperGraph {
    var nodes: ODict<string, HNode>
    var edges: seq<set<string>>
    var order: seq<string>

    /** The node dictionary is well formed, every node is stored under its
        own id, and an id has been added exactly when it is a node. */
    ghost predicate Valid()
      reads this`nodes, this`order
    {
      Dicts.Valid(nodes)
      && (forall x :: x in nodes.vals ==> nodes.vals[x].id == x)
      && (forall x :: x in order <==> x in nodes.vals)
    }

    constructor ()
      ensures Valid()
      ensures nodes.keys == [] && edges == [] && order == []
    {
      nodes := Empty();
      edges := [];
      order := [];
    }

    /** add_node: store a node (a missing data dictionary becomes {}),
        record the id as the latest, and add a hyperedge when `connect`
        names any ids. Adding an id again replaces its node in place. */
    method AddNode(id: string, data: Option<map<string, string>>, connect: Option<seq<string>>)
      requires Valid()
      modifies this
      ensures Valid()
      ensures nodes == Put(old(nodes), id, HNode(id, data.GetOr(map[])))
      ensures order == old(order) + [id]
      ensures edges == old(edges) + NewEdge(id, connect)
    {
      nodes := Put(nodes, id, HNode(id, data.GetOr(map[])));
      order := order + [id];
      if connect.Some? && connect.value != [] {
        var edge := (set x | x in connect.value) + {id};
        edges := edges + [edge];
      }
    }

    /** get_node: the node stored under id, or None. */
    function GetNode(id: string): (r: Option<HNode>)
      reads this
      ensures r.Some? <==> id in nodes.vals
      ensures r.Some? ==> r.value == nodes.vals[id]
    {
      if id in nodes.vals then Some(nodes.vals[id]) else None
    }

    /** neighbors, as the set of ids the returned list holds. */
    method Neighbors(id: string) returns (r: set<string>)
      ensures r == NeighborSet(edges, id)
    {
      var result: set<string> := {};
      for i := 0 to |edges|
        invariant result == Touching(edges[..i], id)
      {
        assert edges[..i + 1][..i] == edges[..i];
        if id in edges[i] {
          result := result + edges[i];
        }
      }
      assert edges[..|edges|] == edges;
      r := result - {id};
    }

    /** trail: `_order[-limit:]`, the last `limit` ids added; a limit of 0
        gives them all and a negative one drops the first -limit. */
    function Trail(limit: int): (r: seq<string>)
      reads this
      ensures limit == 0 ==> r == order
      ensures 0 < limit ==> r == order[|order| - Min(limit, |order|)..]
      ensures limit < 0 ==> r == order[Min(-limit, |order|)..]
    {
      From(order, -limit)
    }
  }

  // ------------------------------------------------------------ properties

  /** An id is in Touching exactly when some hyperedge holds both. */
  lemma {:induction false} TouchingMembers(es: seq<set<string>>, id: string, x: string)
    ensures x in Touching(es, id) <==> exists i :: 0 <= i < |es| && id in es[i] && x in es[i]
  {
    if es != [] {
      var init := es[..|es| - 1];
      TouchingMembers(init, id, x);
      if x in Touching(init, id) {
        var i :| 0 <= i < |init| && id in init[i] && x in init[i];
        assert es[i] == init[i];
      }
      if exists i :: 0 <= i < |es| && id in es[i] && x in es[i] {
        var i :| 0 <= i < |es| && id in es[i] && x in es[i];
        if i < |init| {
          assert init[i] == es[i];
        }
      }
    }
  }

  /** Neighbourhood is symmetric, and no id is its own neighbour. */
  lemma NeighborsSymmetric(es: seq<set<string>>, x: string, y: string)
    ensures x in NeighborSet(es, y) <==> y in NeighborSet(es, x)
    ensures x !in NeighborSet(es, x)
  {
    TouchingMembers(es, y, x);
    TouchingMembers(es, x, y);
  }

  /** After add_node with a non-empty `connect`, every id it names other
      than the new one is a neighbour of the new node, and the neighbours
      of any id only grow. */
  lemma NeighborsAfterConnect(es: seq<set<string>>, id: string, connect: seq<string>, x: string, y: string)
    requires connect != []
    ensures x in connect && x != id ==> x in NeighborSet(es + NewEdge(id, Some(connect)), id)
    ensures y in NeighborSet(es, x) ==> y in NeighborSet(es + NewEdge(id, Some(connect)), x)
  {
    var es2 := es + NewEdge(id, Some(connect));
    assert es2[|es|] == (set z | z in connect) + {id};
    TouchingMembers(es2, id, x);
    TouchingMembers(es, x, y);
    TouchingMembers(es2, x, y);
    if y in NeighborSet(es, x) {
      var i :| 0 <= i < |es| && x in es[i] && y in es[i];
      assert es2[i] == es[i];
    }
  }
}
