/** The forecast tree of pro_forecast.py. The vocabulary is an input, and
    the word scorer (`transformer_logits` over that vocabulary and the
    softmax over it) is a parameter: it maps the tokens so far to one
    (word, probability) pair per vocabulary word, in vocabulary order. The training step of the attention model is left
    abstract: backpropagation yields the steps it would take, in order. */
module Forecast {
  import opened Common
  import opened Text

  datatype ForecastNode = ForecastNode(text: string, prob: real, novelty: real, children: seq<ForecastNode>)

  type Scorer = seq<string> -> seq<(string, real)>

  // ------------------------------------------------------------- ordering

  /** Probabilities never increase along s. */
  predicate Descending(s: seq<(string, real)>) {
    forall i, j :: 0 <= i < j < |s| ==> s[i].1 >= s[j].1
  }

  /** Insert x into a descending list after every pair whose probability
      is at least x's, so that equal probabilities keep their order. */
  function Insert(x: (string, real), s: seq<(string, real)>): seq<(string, real)> {
    if s == [] then [x]
    else if s[0].1 >= x.1 then [s[0]] + Insert(x, s[1..])
    else [x] + s
  }

  /** `sorted(items, key=lambda x: x[1], reverse=True)`, a stable sort. */
  function SortDesc(s: seq<(string, real)>): seq<(string, real)> {
    if s == [] then [] else Insert(s[|s| - 1], SortDesc(s[..|s| - 1]))
  }

  /** `[:3]` of the sorted pairs: the three most probable words. */
  function Top3(s: seq<(string, real)>): seq<(string, real)> {
    var sorted := SortDesc(s);
    sorted[..Min(3, |sorted|)]
  }

  // ----------------------------------------------------------------- tree

  /** `_expand`: the node for tokens, then, while steps remain, one child
      per top-3 word, each with its probability multiplied in and novelty
      one minus the word's probability. */
  function Expand(score: Scorer, tokens: seq<string>, remaining: nat, prob: real): (node: ForecastNode)
    ensures node.text == Join(" ", tokens) && node.prob == prob && node.novelty == 1.0 - prob
    decreases remaining, 0
  {
    if remaining == 0 then ForecastNode(Join(" ", tokens), prob, 1.0 - prob, [])
    else
      var ordered := Top3(score(tokens));
      ForecastNode(Join(" ", tokens), prob, 1.0 - prob,
        seq(|ordered|, i requires 0 <= i < |ordered| => Child(score, tokens, remaining - 1, prob, ordered[i])))
  }

  /** The child for the word wp.0 of probability wp.1: expanded with the
      word appended and the probability multiplied in, then given novelty
      1 - wp.1. */
  function Child(score: Scorer, tokens: seq<string>, remaining: nat, prob: real, wp: (string, real)): (c: ForecastNode)
    ensures c.novelty == 1.0 - wp.1
    decreases remaining, 1
  {
    Expand(score, tokens + [wp.0], remaining, prob * wp.1).(novelty := 1.0 - wp.1)
  }

  /** simulate_paths: the tree grown from the seeds. Any depth other than
      0 scores the seeds first, and the softmax of an empty vocabulary takes
      the maximum of no values, a ValueError. A negative depth never reaches
      the base case of `_expand`, so Python gives up with a RecursionError. */
  function SimulatePaths(score: Scorer, vocab: seq<string>, seeds: seq<string>, depth: int): (r: Result<ForecastNode>)
    ensures r.Ok? <==> depth == 0 || (depth > 0 && vocab != [])
    ensures r.Ok? ==> r.value.text == Join(" ", seeds) && r.value.prob == 1.0 && r.value.novelty == 0.0
    ensures r.Err? ==> r.error == (if vocab == [] then ValueError else RecursionError)
  {
    if depth != 0 && vocab == [] then Err(ValueError)
    else if depth < 0 then Err(RecursionError)
    else Ok(Expand(score, seeds, depth, 1.0))
  }

  /** The words a tree branches on, level by level: at each node the
      (word, probability) pair of every child, and the same for each
      child's subtree. */
  datatype Trace = Trace(words: seq<(string, real)>, subs: seq<Trace>)

  /** The shape every node of a forecast tree has, with tr naming the
      words: its text joins its tokens, it has at most three children and
      none once h levels are used up, the children's probabilities do not
      increase, and child i extends the tokens by word i, multiplies the
      probability by that word's p, has novelty 1 - p and has the same
      shape one level down. */
  ghost predicate Grown(t: ForecastNode, tr: Trace, tokens: seq<string>, prob: real, h: nat)
    decreases t
  {
    t.text == Join(" ", tokens) && t.prob == prob
    && |t.children| == |tr.words| == |tr.subs| <= 3
    && (h == 0 ==> t.children == [])
    && Descending(tr.words)
    && forall i :: 0 <= i < |t.children| ==>
         h > 0 && t.children[i].novelty == 1.0 - tr.words[i].1
         && Grown(t.children[i], tr.subs[i], tokens + [tr.words[i].0], prob * tr.words[i].1, h - 1)
  }

  /** The words `_expand` branches on. */
  ghost function TraceOf(score: Scorer, tokens: seq<string>, remaining: nat): Trace
    decreases remaining
  {
    if remaining == 0 then Trace([], [])
    else
      var ordered := Top3(score(tokens));
      Trace(ordered, seq(|ordered|, i requires 0 <= i < |ordered| => TraceOf(score, tokens + [ordered[i].0], remaining - 1)))
  }

  /** The tree is at most h levels deep. */
  predicate HeightAtMost(t: ForecastNode, h: nat)
    decreases t
  {
    t.children == [] || (h > 0 && forall i :: 0 <= i < |t.children| ==> HeightAtMost(t.children[i], h - 1))
  }

  // ------------------------------------------------------- backpropagation

  /** One call of `model.train_step([context], [target], lr=lr)`. */
  datatype TrainStep = TrainStep(context: seq<string>, target: string, lr: real)

  /** The step a node triggers: one when its text has more than one token
      and its novelty is positive, scaled by the novelty. */
  function StepFor(t: ForecastNode): (r: seq<TrainStep>)
    ensures |r| <= 1
  {
    var tokens := SplitWs(t.text);
    if |tokens| > 1 && t.novelty > 0.0 then [TrainStep(tokens[..|tokens| - 1], tokens[|tokens| - 1], 0.1 * t.novelty)]
    else []
  }

  /** backpropagate_forecast: the node's own step, then each child's
      subtree in order. */
  function Backprop(t: ForecastNode): seq<TrainStep>
    decreases t, 1
  {
    StepFor(t) + BackpropAll(t.children)
  }

  function BackpropAll(cs: seq<ForecastNode>): seq<TrainStep>
    decreases cs, 0
  {
    if cs == [] then [] else Backprop(cs[0]) + BackpropAll(cs[1..])
  }

  /** The nodes of the subtree in pre-order: the node, then each child's
      subtree. */
  function Preorder(t: ForecastNode): (r: seq<ForecastNode>)
    ensures r != [] && r[0] == t
    decreases t, 1
  {
    [t] + PreorderAll(t.children)
  }

  function PreorderAll(cs: seq<ForecastNode>): seq<ForecastNode>
    decreases cs, 0
  {
    if cs == [] then [] else Preorder(cs[0]) + PreorderAll(cs[1..])
  }

  /** The steps of a list of nodes, node by node. */
  function StepsOf(ns: seq<ForecastNode>): seq<TrainStep> {
    if ns == [] then [] else StepFor(ns[0]) + StepsOf(ns[1..])
  }

  // ------------------------------------------------------------ properties

  /** Inserting keeps every pair and adds x. */
  lemma {:induction false} InsertPerm(x: (string, real), s: seq<(string, real)>)
    ensures multiset(Insert(x, s)) == multiset(s) + multiset{x}
  {
    if s != [] && s[0].1 >= x.1 {
      InsertPerm(x, s[1..]);
      assert s == [s[0]] + s[1..];
    }
  }

  /** Inserting into a descending list keeps it descending. */
  lemma {:induction false} InsertSorted(x: (string, real), s: seq<(string, real)>)
    requires Descending(s)
    ensures Descending(Insert(x, s))
  {
    if s != [] && s[0].1 >= x.1 {
      var rest := Insert(x, s[1..]);
      InsertSorted(x, s[1..]);
      InsertPerm(x, s[1..]);
      assert Insert(x, s) == [s[0]] + rest;
      forall k | 0 <= k < |rest|
        ensures s[0].1 >= rest[k].1
      {
        assert rest[k] in multiset(rest);
        if rest[k] != x {
          assert rest[k] in multiset(s[1..]);
        }
      }
    }
  }

  /** The sort is a permutation, its result is descending, and it is
      stable: the pairs of any one probability keep their input order. */
  lemma {:induction false} SortDescProps(s: seq<(string, real)>)
    ensures multiset(SortDesc(s)) == multiset(s) && Descending(SortDesc(s))
    ensures forall p :: WithProb(SortDesc(s), p) == WithProb(s, p)
  {
    SortDescOrdered(s);
    forall p ensures WithProb(SortDesc(s), p) == WithProb(s, p) {
      SortDescStable(s, p);
    }
  }

  lemma {:induction false} SortDescOrdered(s: seq<(string, real)>)
    ensures multiset(SortDesc(s)) == multiset(s) && Descending(SortDesc(s))
  {
    if s != [] {
      SortDescOrdered(s[..|s| - 1]);
      InsertPerm(s[|s| - 1], SortDesc(s[..|s| - 1]));
      InsertSorted(s[|s| - 1], SortDesc(s[..|s| - 1]));
      assert s == s[..|s| - 1] + [s[|s| - 1]];
    }
  }

  /** The pairs of s whose probability is p, in order. */
  function WithProb(s: seq<(string, real)>, p: real): seq<(string, real)> {
    if s == [] then [] else (if s[0].1 == p then [s[0]] else []) + WithProb(s[1..], p)
  }

  lemma {:induction false} WithProbAppend(a: seq<(string, real)>, b: seq<(string, real)>, p: real)
    ensures WithProb(a + b, p) == WithProb(a, p) + WithProb(b, p)
  {
    if a == [] {
      assert a + b == b;
    } else {
      var h := if a[0].1 == p then [a[0]] else [];
      assert WithProb(a + b, p) == h + WithProb(a[1..] + b, p) by {
        assert (a + b)[0] == a[0] && (a + b)[1..] == a[1..] + b;
      }
      WithProbAppend(a[1..], b, p);
      AppendAssoc(h, WithProb(a[1..], p), WithProb(b, p));
    }
  }

  lemma {:induction false} WithProbNone(s: seq<(string, real)>, p: real)
    requires forall i :: 0 <= i < |s| ==> s[i].1 < p
    ensures WithProb(s, p) == []
  {
    if s != [] {
      WithProbNone(s[1..], p);
    }
  }

  /** Inserting x into a descending list puts it after every pair of its
      own probability and moves no other pair of any one probability. */
  lemma {:induction false} InsertStable(x: (string, real), s: seq<(string, real)>, p: real)
    requires Descending(s)
    ensures WithProb(Insert(x, s), p) == WithProb(s, p) + (if x.1 == p then [x] else [])
  {
    if s == [] {
    } else if s[0].1 >= x.1 {
      var h := if s[0].1 == p then [s[0]] else [];
      var t := if x.1 == p then [x] else [];
      var r := Insert(x, s[1..]);
      assert Insert(x, s) == [s[0]] + r;
      assert WithProb(Insert(x, s), p) == h + WithProb(r, p) by {
        assert ([s[0]] + r)[0] == s[0] && ([s[0]] + r)[1..] == r;
      }
      assert WithProb(r, p) == WithProb(s[1..], p) + t by {
        InsertStable(x, s[1..], p);
      }
      AppendAssoc(h, WithProb(s[1..], p), t);
    } else {
      WithProbNone(s, x.1);
      assert Insert(x, s) == [x] + s;
    }
  }

  /** The sort keeps the pairs of each probability in their input order. */
  lemma {:induction false} SortDescStable(s: seq<(string, real)>, p: real)
    ensures WithProb(SortDesc(s), p) == WithProb(s, p)
  {
    if s != [] {
      var init, x := s[..|s| - 1], s[|s| - 1];
      var tail := if x.1 == p then [x] else [];
      assert WithProb(SortDesc(init), p) == WithProb(init, p) by {
        SortDescStable(init, p);
      }
      assert WithProb(SortDesc(s), p) == WithProb(SortDesc(init), p) + tail by {
        SortDescOrdered(init);
        InsertStable(x, SortDesc(init), p);
      }
      assert WithProb(s, p) == WithProb(init, p) + tail by {
        assert s == init + [x];
        WithProbAppend(init, [x], p);
        assert WithProb([x], p) == tail;
      }
    }
  }

  /** The top three are min(3, n) of the pairs, in descending order. */
  lemma Top3Props(s: seq<(string, real)>)
    ensures |Top3(s)| == Min(3, |s|) && Descending(Top3(s))
    ensures multiset(Top3(s)) <= multiset(s)
  {
    var sorted := SortDesc(s);
    SortDescProps(s);
    assert |sorted| == |s| by {
      assert |multiset(sorted)| == |multiset(s)|;
    }
    var n := Min(3, |s|);
    assert sorted == sorted[..n] + sorted[n..];
    assert multiset(sorted) == multiset(sorted[..n]) + multiset(sorted[n..]);
  }

  /** None of the pairs left out of the top three is more probable than
      any pair taken. */
  lemma Top3Best(s: seq<(string, real)>, y: (string, real), i: nat)
    requires y in multiset(s) - multiset(Top3(s)) && i < |Top3(s)|
    ensures Top3(s)[i].1 >= y.1
  {
    var sorted := SortDesc(s);
    SortDescProps(s);
    var n := |Top3(s)|;
    var top, low := sorted[..n], sorted[n..];
    assert sorted == top + low;
    assert multiset(sorted) == multiset(top) + multiset(low);
    assert y in multiset(low);
    var j :| 0 <= j < |low| && low[j] == y;
    assert top[i] == sorted[i] && low[j] == sorted[n + j];
  }

  /** Every tree `_expand` grows has the forecast shape, branching on
      the top three words at each node. */
  lemma {:induction false} ExpandGrown(score: Scorer, tokens: seq<string>, remaining: nat, prob: real)
    ensures Grown(Expand(score, tokens, remaining, prob), TraceOf(score, tokens, remaining), tokens, prob, remaining)
    decreases remaining, 0
  {
    var t := Expand(score, tokens, remaining, prob);
    var tr := TraceOf(score, tokens, remaining);
    if remaining > 0 {
      var ordered := Top3(score(tokens));
      assert Descending(ordered) && |ordered| <= 3 by {
        Top3Props(score(tokens));
      }
      assert |t.children| == |ordered| && tr.words == ordered && |tr.subs| == |ordered|;
      forall i | 0 <= i < |t.children|
        ensures t.children[i].novelty == 1.0 - ordered[i].1
        ensures Grown(t.children[i], tr.subs[i], tokens + [ordered[i].0], prob * ordered[i].1, remaining - 1)
      {
        assert tr.subs[i] == TraceOf(score, tokens + [ordered[i].0], remaining - 1);
        assert t.children[i] == Child(score, tokens, remaining - 1, prob, ordered[i]);
        ChildGrown(score, tokens, remaining - 1, prob, ordered[i]);
      }
    }
  }

  lemma {:induction false} ChildGrown(score: Scorer, tokens: seq<string>, remaining: nat, prob: real, wp: (string, real))
    ensures Grown(Child(score, tokens, remaining, prob, wp), TraceOf(score, tokens + [wp.0], remaining), tokens + [wp.0], prob * wp.1, remaining)
    decreases remaining, 1
  {
    ExpandGrown(score, tokens + [wp.0], remaining, prob * wp.1);
    GrownNovelty(Expand(score, tokens + [wp.0], remaining, prob * wp.1), TraceOf(score, tokens + [wp.0], remaining), tokens + [wp.0], prob * wp.1, remaining, 1.0 - wp.1);
  }

  /** The shape does not depend on the root's own novelty, which the
      parent sets. */
  lemma GrownNovelty(t: ForecastNode, tr: Trace, tokens: seq<string>, prob: real, h: nat, x: real)
    requires Grown(t, tr, tokens, prob, h)
    ensures Grown(t.(novelty := x), tr, tokens, prob, h)
  {
    assert t.(novelty := x).children == t.children;
  }

  /** A forecast tree is no deeper than the levels it was grown with. */
  lemma {:induction false} GrownHeight(t: ForecastNode, tr: Trace, tokens: seq<string>, prob: real, h: nat)
    requires Grown(t, tr, tokens, prob, h)
    ensures HeightAtMost(t, h)
    decreases t
  {
    forall i | 0 <= i < |t.children|
      ensures HeightAtMost(t.children[i], h - 1)
    {
      GrownHeight(t.children[i], tr.subs[i], tokens + [tr.words[i].0], prob * tr.words[i].1, h - 1);
    }
  }

  /** simulate_paths with a depth of at least 0 over a vocabulary (any
      vocabulary for depth 0) grows a forecast tree from the seeds with
      probability 1.0 whose height is at most depth. */
  lemma SimulatePathsTree(score: Scorer, vocab: seq<string>, seeds: seq<string>, depth: nat)
    requires depth == 0 || vocab != []
    ensures SimulatePaths(score, vocab, seeds, depth).Ok?
    ensures Grown(SimulatePaths(score, vocab, seeds, depth).value, TraceOf(score, seeds, depth), seeds, 1.0, depth)
    ensures HeightAtMost(SimulatePaths(score, vocab, seeds, depth).value, depth)
  {
    ExpandGrown(score, seeds, depth, 1.0);
    GrownHeight(Expand(score, seeds, depth, 1.0), TraceOf(score, seeds, depth), seeds, 1.0, depth);
  }

  lemma {:induction false} StepsOfAppend(a: seq<ForecastNode>, b: seq<ForecastNode>)
    ensures StepsOf(a + b) == StepsOf(a) + StepsOf(b)
  {
    if a != [] {
      assert (a + b)[0] == a[0] && (a + b)[1..] == a[1..] + b;
      StepsOfAppend(a[1..], b);
      calc {
        StepsOf(a + b);
        StepFor(a[0]) + StepsOf(a[1..] + b);
        StepFor(a[0]) + (StepsOf(a[1..]) + StepsOf(b));
        (StepFor(a[0]) + StepsOf(a[1..])) + StepsOf(b);
      }
    } else {
      assert a + b == b;
    }
  }

  /** backpropagate_forecast visits every node of the subtree in pre-order
      and trains exactly the nodes StepFor selects. */
  lemma {:induction false} BackpropPreorder(t: ForecastNode)
    ensures Backprop(t) == StepsOf(Preorder(t))
    decreases t, 1
  {
    BackpropAllPreorder(t.children);
    StepsOfAppend([t], PreorderAll(t.children));
  }

  lemma {:induction false} BackpropAllPreorder(cs: seq<ForecastNode>)
    ensures BackpropAll(cs) == StepsOf(PreorderAll(cs))
    decreases cs, 0
  {
    if cs != [] {
      BackpropPreorder(cs[0]);
      BackpropAllPreorder(cs[1..]);
      StepsOfAppend(Preorder(cs[0]), PreorderAll(cs[1..]));
    }
  }

  lemma {:induction false} RunsFromWord(w: string, rest: string, p: char -> bool, cur: string)
    requires forall i :: 0 <= i < |w| ==> p(w[i])
    ensures RunsFrom(w + rest, p, cur) == RunsFrom(rest, p, cur + w)
    decreases |w|
  {
    if w == [] {
      assert w + rest == rest && cur + w == cur;
    } else {
      assert (w + rest)[0] == w[0] && p(w[0]);
      assert (w + rest)[1..] == w[1..] + rest;
      RunsFromWord(w[1..], rest, p, cur + [w[0]]);
      assert cur + [w[0]] + w[1..] == cur + w;
    }
  }

  lemma {:induction false} RunsFromJoin(ws: seq<string>, p: char -> bool)
    requires !p(' ')
    requires forall k :: 0 <= k < |ws| ==> ws[k] != [] && forall i :: 0 <= i < |ws[k]| ==> p(ws[k][i])
    ensures RunsFrom(Join(" ", ws), p, "") == ws
  {
    if |ws| == 1 {
      RunsFromWord(ws[0], "", p, "");
      assert ws[0] + "" == ws[0] && "" + ws[0] == ws[0];
    } else if |ws| > 1 {
      var rest := Join(" ", ws[1..]);
      assert Join(" ", ws) == ws[0] + (" " + rest);
      RunsFromWord(ws[0], " " + rest, p, "");
      assert "" + ws[0] == ws[0];
      assert (" " + rest)[0] == ' ' && (" " + rest)[1..] == rest;
      assert RunsFrom(" " + rest, p, ws[0]) == [ws[0]] + RunsFrom(rest, p, "");
      RunsFromJoin(ws[1..], p);
      assert ws == [ws[0]] + ws[1..];
    }
  }

  /** A token in the model's sense: non-empty and free of whitespace. */
  predicate IsWord(w: string) {
    w != [] && forall i :: 0 <= i < |w| ==> !IsSpace(w[i])
  }

  /** `" ".join(tokens).split()` gives the tokens back when each is a word. */
  lemma SplitJoin(ws: seq<string>)
    requires forall k :: 0 <= k < |ws| ==> IsWord(ws[k])
    ensures SplitWs(Join(" ", ws)) == ws
  {
    RunsFromJoin(ws, c => !IsSpace(c));
  }

  /** A node grown from tokens plus a word trains on the tokens as context
      and the word as target, at rate 0.1 times its novelty, when there
      were tokens before the word and the novelty is positive; otherwise it
      trains nothing. */
  lemma NodeStep(t: ForecastNode, tokens: seq<string>, w: string)
    requires forall k :: 0 <= k < |tokens| ==> IsWord(tokens[k])
    requires IsWord(w) && t.text == Join(" ", tokens + [w])
    ensures tokens != [] && t.novelty > 0.0 ==> StepFor(t) == [TrainStep(tokens, w, 0.1 * t.novelty)]
    ensures tokens == [] || t.novelty <= 0.0 ==> StepFor(t) == []
  {
    var ws := tokens + [w];
    assert forall k :: 0 <= k < |ws| ==> IsWord(ws[k]);
    SplitJoin(ws);
    StepForSplit(t, tokens, w);
  }

  lemma StepForSplit(t: ForecastNode, tokens: seq<string>, w: string)
    requires SplitWs(t.text) == tokens + [w]
    ensures tokens != [] && t.novelty > 0.0 ==> StepFor(t) == [TrainStep(tokens, w, 0.1 * t.novelty)]
    ensures tokens == [] || t.novelty <= 0.0 ==> StepFor(t) == []
  {
    var ws := tokens + [w];
    assert ws[..|ws| - 1] == tokens && ws[|ws| - 1] == w;
  }
}
