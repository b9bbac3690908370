/** The gradient bookkeeping of resonance/p2p_resonance.py: a node keeps
    its parameters and the gradients queued since the last exchange. The
    stream server, the JSON messages and the SHA-256 parameter hash are
    outside the model; what a peer sends is given as a dictionary. */
module P2PResonance {
  import opened Common
  import opened Dicts

  type Grads = ODict<string, real>

  /** `for k, v in grads.items(): d[k] = d.get(k, 0.0) + v`, over the
      first i entries of grads. */
  function AddAll(d: map<string, real>, g: Grads, i: nat): map<string, real>
    requires i <= |g.keys|
  {
    if i == 0 then d
    else
      var k := g.keys[i - 1];
      var before := AddAll(d, g, i - 1);
      before[k := MapGet(before, k, 0.0) + MapGet(g.vals, k, 0.0)]
  }

  /** Key k's value in a parameter dictionary, 0.0 when absent. */
  function At(d: map<string, real>, k: string): real {
    MapGet(d, k, 0.0)
  }

  /** The sum of key k over a list of gradient dictionaries. */
  function Total(hs: seq<map<string, real>>, k: string): real {
    if hs == [] then 0.0 else Total(hs[..|hs| - 1], k) + At(hs[|hs| - 1], k)
  }

  class Node {
    var params: map<string, real>
    var pending: map<string, real>
    /** Every gradient dictionary applied to params, in order. */
    ghost var applied: seq<map<string, real>>
    /** Every gradient dictionary queued since the last pop. */
    ghost var queued: seq<map<string, real>>

    /** Each parameter is the sum of the gradients applied to it, and each
        pending entry the sum of those queued since the last pop. */
    ghost predicate Valid()
      reads this
    {
      (forall k :: At(params, k) == Total(applied, k))
      && (forall k :: At(pending, k) == Total(queued, k))
    }

    constructor ()
      ensures Valid()
      ensures params == map[] && pending == map[] && applied == [] && queued == []
    {
      params := map[];
      pending := map[];
      applied := [];
      queued := [];
    }

    /** queue_update: add every gradient to the parameters and to the
        pending dictionary. */
    method QueueUpdate(grads: Grads)
      requires Dicts.Valid(grads) && Valid()
      modifies this
      ensures Valid()
      ensures params == AddAll(old(params), grads, |grads.keys|)
      ensures pending == AddAll(old(pending), grads, |grads.keys|)
      ensures applied == old(applied) + [grads.vals] && queued == old(queued) + [grads.vals]
    {
      var keys, p, q := grads.keys, params, pending;
      for i := 0 to |keys|
        invariant p == AddAll(params, grads, i) && q == AddAll(pending, grads, i)
      {
        var k := keys[i];
        p := p[k := MapGet(p, k, 0.0) + grads.vals[k]];
        q := q[k := MapGet(q, k, 0.0) + grads.vals[k]];
      }
      params, pending := p, q;
      applied := applied + [grads.vals];
      queued := queued + [grads.vals];
      AddAllTotal(old(params), old(applied), grads);
      AddAllTotal(old(pending), old(queued), grads);
    }

    /** apply_gradients: add every gradient to the parameters only. */
    method ApplyGradients(grads: Grads)
      requires Dicts.Valid(grads) && Valid()
      modifies this
      ensures Valid()
      ensures params == AddAll(old(params), grads, |grads.keys|)
      ensures pending == old(pending) && queued == old(queued) && applied == old(applied) + [grads.vals]
    {
      var keys, p := grads.keys, params;
      for i := 0 to |keys|
        invariant p == AddAll(params, grads, i)
      {
        var k := keys[i];
        p := p[k := MapGet(p, k, 0.0) + grads.vals[k]];
      }
      params := p;
      applied := applied + [grads.vals];
      AddAllTotal(old(params), old(applied), grads);
    }

    /** pop_pending: hand over the pending gradients and start afresh. */
    method PopPending() returns (pend: map<string, real>)
      requires Valid()
      modifies this
      ensures Valid()
      ensures pend == old(pending) && pending == map[] && queued == []
      ensures params == old(params) && applied == old(applied)
      ensures forall k :: At(pend, k) == Total(old(queued), k)
    {
      pend := pending;
      pending := map[];
      queued := [];
    }

    /** The state change of serving a peer (`_handle`): apply its update,
        then reply with the pending gradients. */
    method Handle(update: Grads) returns (reply: map<string, real>)
      requires Dicts.Valid(update) && Valid()
      modifies this
      ensures Valid()
      ensures params == AddAll(old(params), update, |update.keys|)
      ensures reply == old(pending) && pending == map[]
    {
      ApplyGradients(update);
      reply := PopPending();
    }

    /** The state change of `exchange`: send the pending gradients, then
        apply the update the peer answers with and return it. */
    method Exchange(answer: Grads) returns (sent: map<string, real>, received: map<string, real>)
      requires Dicts.Valid(answer) && Valid()
      modifies this
      ensures Valid()
      ensures sent == old(pending) && pending == map[]
      ensures params == AddAll(old(params), answer, |answer.keys|) && received == answer.vals
    {
      sent := PopPending();
      ApplyGradients(answer);
      received := answer.vals;
    }
  }

  // ------------------------------------------------------------ properties

  /** After adding the first i gradients, key k holds its old value plus
      its gradient when k is among them, and the keys are the old ones
      and theirs. */
  lemma {:induction false} AddAllAt(d: map<string, real>, g: Grads, i: nat, k: string)
    requires Dicts.Valid(g) && i <= |g.keys|
    ensures At(AddAll(d, g, i), k) == At(d, k) + (if k in g.keys[..i] then g.vals[k] else 0.0)
    ensures k in AddAll(d, g, i) <==> k in d || k in g.keys[..i]
  {
    if i > 0 {
      AddAllAt(d, g, i - 1, k);
      assert g.keys[..i] == g.keys[..i - 1] + [g.keys[i - 1]];
      if k == g.keys[i - 1] {
        assert k !in g.keys[..i - 1];
      }
    }
  }

  /** Adding a gradient dictionary adds it to the running totals. */
  lemma AddAllTotal(d: map<string, real>, hs: seq<map<string, real>>, g: Grads)
    requires Dicts.Valid(g)
    requires forall k :: At(d, k) == Total(hs, k)
    ensures forall k :: At(AddAll(d, g, |g.keys|), k) == Total(hs + [g.vals], k)
  {
    forall k
      ensures At(AddAll(d, g, |g.keys|), k) == Total(hs + [g.vals], k)
    {
      AddAllAt(d, g, |g.keys|, k);
      assert g.keys[..|g.keys|] == g.keys;
      assert (hs + [g.vals])[..|hs|] == hs;
    }
  }
}
