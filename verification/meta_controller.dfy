/** MetaController of meta_controller.py: an epsilon-greedy bandit over
    candidate architectures. Each arm keeps a value estimate and a pull
    count; an update credits the negative perplexity to the arm selected
    last, keeping the estimate the running mean of its rewards. Appending
    the choice to the JSON state file is outside the model. */
module MetaControl {
  import opened Common
  import opened Dicts

  /** An architecture description such as {"layers": 2}. */
  type Arch = map<string, int>

  /** The three architectures used when none are given. */
  function DefaultArchitectures(): (r: seq<Arch>)
    ensures |r| == 3 && forall i :: 0 <= i < 3 ==> r[i] == map["layers" := i + 1]
  {
    [map["layers" := 1], map["layers" := 2], map["layers" := 3]]
  }

  /** `max(values)` */
  function MaxValue(s: seq<real>): real
    requires s != []
  {
    if |s| == 1 then s[0]
    else
      var m := MaxValue(s[..|s| - 1]);
      if s[|s| - 1] > m then s[|s| - 1] else m
  }

  /** `-float(metrics.get("perplexity", 0.0))` */
  function Reward(metrics: map<string, real>): real {
    -MapGet(metrics, "perplexity", 0.0)
  }

  /** The running-mean step of update: value v of an arm pulled n times
      moves towards reward x by 1 / (n + 1). */
  function MeanStep(v: real, n: nat, x: real): real {
    v + 1.0 / (n + 1) as real * (x - v)
  }

  class MetaController {
    var architectures: seq<Arch>
    var epsilon: real
    var values: seq<real>
    var counts: seq<int>
    var lastIndex: Option<nat>
    /** The rewards credited to each arm so far, oldest first. */
    ghost var rewards: seq<seq<real>>

    /** One value, count and reward history per arm; every count is the
        number of rewards credited to the arm and every value their mean;
        the recorded selection is an arm. */
    ghost predicate Valid()
      reads this
    {
      |values| == |architectures| && |counts| == |architectures| && |rewards| == |architectures|
      && (forall i :: 0 <= i < |architectures| ==> counts[i] == |rewards[i]| && values[i] == Mean(rewards[i]))
      && (lastIndex.Some? ==> lastIndex.value < |architectures|)
    }

    /** __init__: the default architectures when none are given (an empty
        list is kept), zero values and counts, nothing selected. */
    constructor (architectures: Option<seq<Arch>>, epsilon: real)
      ensures Valid()
      ensures this.architectures == (if architectures.Some? then architectures.value else DefaultArchitectures())
      ensures this.epsilon == epsilon && lastIndex == None
      ensures forall i :: 0 <= i < |this.architectures| ==> values[i] == 0.0 && counts[i] == 0 && rewards[i] == []
    {
      var archs := if architectures.Some? then architectures.value else DefaultArchitectures();
      this.architectures := archs;
      this.epsilon := epsilon;
      values := seq(|archs|, _ => 0.0);
      counts := seq(|archs|, _ => 0);
      rewards := seq(|archs|, _ => []);
      lastIndex := None;
    }

    /** select: {} with no architectures; otherwise an arm is chosen and
        recorded, any arm when the draw falls below epsilon and an arm of
        maximal value when it does not. The random choices are left open. */
    method Select(draw: real) returns (arch: Arch)
      requires Valid()
      modifies this
      ensures Valid()
      ensures architectures == old(architectures) && values == old(values) && counts == old(counts) && rewards == old(rewards)
      ensures old(architectures) == [] ==> arch == map[] && lastIndex == old(lastIndex)
      ensures old(architectures) != [] ==> lastIndex.Some? && arch == architectures[lastIndex.value]
      ensures old(architectures) != [] && !(draw < epsilon) ==>
                forall j :: 0 <= j < |values| ==> values[j] <= values[lastIndex.value]
    {
      if architectures == [] {
        return map[];
      }
      var idx: nat;
      if draw < epsilon {
        idx :| idx < |architectures|;
      } else {
        MaxValueProps(values);
        var maxVal := MaxValue(values);
        idx :| idx < |values| && values[idx] == maxVal;
      }
      lastIndex := Some(idx);
      arch := architectures[idx];
    }

    /** update: nothing before a selection; otherwise the selected arm's
        count grows by one and its value takes the running-mean step
        towards the reward, which keeps it the mean of the arm's rewards. The
        selection stays recorded. */
    method Update(metrics: map<string, real>)
      requires Valid()
      modifies this
      ensures Valid()
      ensures architectures == old(architectures) && lastIndex == old(lastIndex)
      ensures old(lastIndex) == None ==> values == old(values) && counts == old(counts) && rewards == old(rewards)
      ensures old(lastIndex).Some? ==>
                var i := old(lastIndex).value;
                counts == old(counts)[i := old(counts)[i] + 1]
                && rewards == old(rewards)[i := old(rewards)[i] + [Reward(metrics)]]
                && values == old(values)[i := MeanStep(old(values)[i], old(counts)[i], Reward(metrics))]
    {
      if lastIndex == None {
        return;
      }
      var reward := Reward(metrics);
      var idx := lastIndex.value;
      counts := counts[idx := counts[idx] + 1];
      var lr := 1.0 / counts[idx] as real;
      RunningMean(rewards[idx], reward);
      values := values[idx := values[idx] + lr * (reward - values[idx])];
      assert values[idx] == MeanStep(old(values)[idx], old(counts)[idx], reward);
      rewards := rewards[idx := rewards[idx] + [reward]];
    }
  }

  // ------------------------------------------------------------ properties

  /** max(values) is at least every value and is one of them. */
  lemma {:induction false} MaxValueProps(s: seq<real>)
    requires s != []
    ensures forall k :: 0 <= k < |s| ==> s[k] <= MaxValue(s)
    ensures exists k :: 0 <= k < |s| && s[k] == MaxValue(s)
  {
    if |s| > 1 {
      var init := s[..|s| - 1];
      MaxValueProps(init);
      assert forall k :: 0 <= k < |init| ==> s[k] == init[k];
      var j :| 0 <= j < |init| && init[j] == MaxValue(init);
      if s[|s| - 1] > MaxValue(init) {
        assert s[|s| - 1] == MaxValue(s);
      } else {
        assert s[j] == MaxValue(s);
      }
    } else {
      assert s[0] == MaxValue(s);
    }
  }

  /** The incremental update `v + (x - v) / (n + 1)` turns the mean of n
      rewards into the mean of those and x. */
  lemma RunningMean(r: seq<real>, x: real)
    ensures MeanStep(Mean(r), |r|, x) == Mean(r + [x])
  {
    var n := |r| as real;
    var v := Mean(r);
    var r' := r + [x];
    assert r'[..|r|] == r;
    assert SumReal(r') == SumReal(r) + x;
    if r != [] {
      assert v * n == SumReal(r);
    }
    var d := 1.0 / (n + 1.0) * (x - v);
    assert d * (n + 1.0) == x - v;
    var w := v + d;
    assert w * (n + 1.0) == v * n + x;
    assert w == (SumReal(r) + x) / (n + 1.0);
    assert |r'| as real == n + 1.0 && (|r| + 1) as real == n + 1.0;
    assert MeanStep(v, |r|, x) == w;
    assert Mean(r') == SumReal(r') / (n + 1.0);
    assert Mean(r') == w;
  }
}
