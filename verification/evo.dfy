/** MiniModel of pro_evo.py: a model variant with its own layer mutator,
    started with a 0.9 mutation, scored by the average of its recent
    metrics and able to hand its mutations to another mutator. */
module ProEvo {
  import opened Common
  import opened AutoAdapt

  /** `len(turn) / (len(turn) + 1)` */
  function Metric(turn: string): real {
    |turn| as real / (|turn| + 1) as real
  }

  /** The metrics train records for a dialogue part, turn by turn. */
  function Metrics(part: seq<string>): seq<real> {
    if part == [] then [] else Metrics(part[..|part| - 1]) + [Metric(part[|part| - 1])]
  }

  /** Every value lies in [0, 1). */
  predicate UnitRange(s: seq<real>) {
    forall k :: 0 <= k < |s| ==> 0.0 <= s[k] < 1.0
  }

  class MiniModel {
    const layer: string
    const mutator: LayerMutator
    const monitor: MetricMonitor

    /** The monitor is a ten-value window over the metrics recorded, each
        of them in [0, 1). */
    ghost predicate Valid()
      reads this, monitor
    {
      monitor.Valid() && monitor.window == 10 && UnitRange(monitor.recorded)
    }

    /** __init__: a fresh mutator holding only the 0.9 start mutation of
        layer. */
    constructor (layer: string, useLora: bool)
      ensures Valid() && fresh(mutator) && fresh(monitor)
      ensures this.layer == layer && mutator.useLora == useLora
      ensures mutator.mutations == map[layer := 0.9] && mutator.loraLayers == map[]
      ensures monitor.recorded == []
    {
      this.layer := layer;
      var m := new LayerMutator(useLora);
      m.Mutate(layer, 0.9);
      mutator := m;
      monitor := new MetricMonitor(10);
    }

    /** train: one metric per turn, in order. */
    method Train(part: seq<string>)
      requires Valid()
      modifies monitor
      ensures Valid() && monitor.recorded == old(monitor.recorded) + Metrics(part)
    {
      for i := 0 to |part|
        invariant Valid() && monitor.recorded == old(monitor.recorded) + Metrics(part[..i])
      {
        assert part[..i + 1][..i] == part[..i];
        MetricRange(part[i]);
        monitor.Record(Metric(part[i]));
      }
      assert part[..|part|] == part;
    }

    /** score: the average of the last ten metrics, 0.0 with none; it
        always lies in [0, 1). */
    method Score() returns (s: real)
      requires Valid()
      ensures s == Mean(monitor.values) && 0.0 <= s < 1.0
      ensures monitor.values == Window(monitor.recorded, 10)
    {
      s := monitor.Average();
      if monitor.values != [] {
        var r := monitor.recorded;
        assert forall k :: 0 <= k < |monitor.values| ==> monitor.values[k] == r[|r| - |monitor.values| + k];
        MeanBounds(monitor.values, 0.0, 1.0);
      }
    }

    /** distill: target's mutations are updated with this model's, which
        win on shared layers; target's other layers are unchanged. */
    method Distill(target: LayerMutator)
      modifies target
      ensures target.mutations == old(target.mutations) + old(mutator.mutations)
      ensures forall l :: l in old(mutator.mutations) ==> target.mutations[l] == old(mutator.mutations)[l]
      ensures forall l :: l !in old(mutator.mutations) ==> Factor(target.mutations, l) == Factor(old(target.mutations), l)
      ensures target.loraLayers == old(target.loraLayers)
    {
      target.mutations := target.mutations + mutator.mutations;
    }
  }

  // ------------------------------------------------------------ properties

  /** Every metric lies in [0, 1): 0 for an empty turn and approaching 1
      for long ones. */
  lemma MetricRange(turn: string)
    ensures 0.0 <= Metric(turn) < 1.0
    ensures turn == [] <==> Metric(turn) == 0.0
  {
    var n := |turn| as real;
    assert Metric(turn) * (n + 1.0) == n;
  }

  /** One metric per turn, each in [0, 1). */
  lemma {:induction false} MetricsProps(part: seq<string>)
    ensures |Metrics(part)| == |part| && UnitRange(Metrics(part))
    ensures forall k :: 0 <= k < |part| ==> Metrics(part)[k] == Metric(part[k])
  {
    if part != [] {
      MetricsProps(part[..|part| - 1]);
      MetricRange(part[|part| - 1]);
    }
  }
}
