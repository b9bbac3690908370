/** The adaptation bookkeeping of autoadapt/__init__.py: LayerMutator keeps
    a multiplicative factor per layer and, when LoRA is enabled, a registry
    of adapter layers; MetricMonitor keeps a sliding window of metrics.
    Saving and loading to directories is outside the model. */
module AutoAdapt {
  import opened Common
  import opened Dicts

  /** A LoRA adapter layer (a plain record). */
  datatype LoRALayer = LoRALayer(name: string, rank: int, alpha: real, matrixA: seq<seq<real>>, matrixB: seq<seq<real>>)

  /** A layer's factor: 1.0 until it is first mutated. */
  function Factor(m: map<string, real>, layer: string): real {
    MapGet(m, layer, 1.0)
  }

  /** start multiplied, in order, by each factor ops applies to layer. */
  function FactorAfter(start: real, ops: seq<(string, real)>, layer: string): real {
    if ops == [] then start
    else if ops[|ops| - 1].0 == layer then FactorAfter(start, ops[..|ops| - 1], layer) * ops[|ops| - 1].1
    else FactorAfter(start, ops[..|ops| - 1], layer)
  }

  /** One mutate: `mutations[layer] = mutations.get(layer, 1.0) * factor`. */
  function Mutated(m: map<string, real>, layer: string, factor: real): map<string, real> {
    m[layer := Factor(m, layer) * factor]
  }

  /** The mutations after calling mutate once per pair of ops, in order. */
  function MutateAll(m: map<string, real>, ops: seq<(string, real)>): map<string, real> {
    if ops == [] then m
    else Mutated(MutateAll(m, ops[..|ops| - 1]), ops[|ops| - 1].0, ops[|ops| - 1].1)
  }

  class LayerMutator {
    var mutations: map<string, real>
    const useLora: bool
    var loraLayers: map<string, LoRALayer>

    constructor (useLora: bool)
      ensures mutations == map[] && this.useLora == useLora && loraLayers == map[]
    {
      mutations := map[];
      this.useLora := useLora;
      loraLayers := map[];
    }

    /** mutate: the layer's factor is multiplied by factor, starting from
        1.0; the other layers and the adapters are unchanged. */
    method Mutate(layer: string, factor: real)
      modifies this
      ensures mutations == Mutated(old(mutations), layer, factor)
      ensures mutations.Keys == old(mutations).Keys + {layer}
      ensures Factor(mutations, layer) == Factor(old(mutations), layer) * factor
      ensures layer !in old(mutations) ==> mutations[layer] == factor
      ensures forall l :: l != layer ==> Factor(mutations, l) == Factor(old(mutations), l)
      ensures loraLayers == old(loraLayers)
    {
      mutations := Mutated(mutations, layer, factor);
    }

    /** add_lora_layer: registered under its name only when LoRA is on. */
    method AddLoraLayer(layer: LoRALayer)
      modifies this
      ensures useLora ==> loraLayers == old(loraLayers)[layer.name := layer]
      ensures !useLora ==> loraLayers == old(loraLayers)
      ensures mutations == old(mutations)
    {
      if useLora {
        loraLayers := loraLayers[layer.name := layer];
      }
    }
  }

  /** The last min(n, window) of the recorded values. */
  function Window(recorded: seq<real>, window: int): (r: seq<real>)
    ensures |r| == Min(|recorded|, Max(window, 0))
    ensures r == recorded[|recorded| - |r|..]
  {
    recorded[|recorded| - Min(|recorded|, Max(window, 0))..]
  }

  class MetricMonitor {
    const window: int
    var values: seq<real>
    /** Every value ever recorded, oldest first. */
    ghost var recorded: seq<real>

    /** The window holds the most recent values, as many as fit. */
    ghost predicate Valid()
      reads this
    {
      values == Window(recorded, window)
    }

    constructor (window: int)
      ensures Valid() && this.window == window && values == [] && recorded == []
    {
      this.window := window;
      values := [];
      recorded := [];
    }

    /** record: append, then drop the oldest value once the window
        overflows. */
    method Record(value: real)
      requires Valid()
      modifies this
      ensures Valid() && recorded == old(recorded) + [value]
      ensures |values| <= Max(window, 0)
    {
      values := values + [value];
      if |values| > window {
        values := values[1..];
      }
      recorded := recorded + [value];
    }

    /** average: the mean of the window, 0.0 when it is empty. */
    method Average() returns (avg: real)
      ensures avg == Mean(values)
      ensures values == [] ==> avg == 0.0
    {
      if values != [] {
        var total := 0.0;
        for i := 0 to |values|
          invariant total == SumReal(values[..i])
        {
          assert values[..i + 1][..i] == values[..i];
          total := total + values[i];
        }
        assert values[..|values|] == values;
        avg := total / |values| as real;
      } else {
        avg := 0.0;
      }
    }
  }

  // ------------------------------------------------------------ properties

  /** After a series of mutate calls every layer's factor is its starting
      factor (1.0 when it had none) multiplied by each factor applied to
      it, in order. */
  lemma {:induction false} MutateAllFactor(m: map<string, real>, ops: seq<(string, real)>, layer: string)
    ensures Factor(MutateAll(m, ops), layer) == FactorAfter(Factor(m, layer), ops, layer)
  {
    if ops != [] {
      var init, last := ops[..|ops| - 1], ops[|ops| - 1];
      assert ops == init + [last];
      MutateAllFactor(m, init, layer);
      MutateSnoc(m, init, last.0, last.1, layer);
    }
  }

  /** One more mutate changes only its own layer's factor. */
  lemma MutateSnoc(m: map<string, real>, init: seq<(string, real)>, l: string, f: real, layer: string)
    ensures l == layer ==> Factor(MutateAll(m, init + [(l, f)]), layer) == Factor(MutateAll(m, init), layer) * f
    ensures l != layer ==> Factor(MutateAll(m, init + [(l, f)]), layer) == Factor(MutateAll(m, init), layer)
  {
    assert (init + [(l, f)])[..|init|] == init;
  }

  /** A layer that none of a series of mutations names keeps its factor. */
  lemma {:induction false} FactorAfterOthers(start: real, ops: seq<(string, real)>, layer: string)
    requires forall k :: 0 <= k < |ops| ==> ops[k].0 != layer
    ensures FactorAfter(start, ops, layer) == start
  {
    if ops != [] {
      FactorAfterOthers(start, ops[..|ops| - 1], layer);
    }
  }

  /** The window keeps its content when a value is recorded: the new
      window is the old one with the value appended and, once full, its
      oldest value dropped. */
  lemma WindowStep(recorded: seq<real>, window: int, value: real)
    ensures var w := Window(recorded, window) + [value];
      Window(recorded + [value], window) == if |w| > window then w[1..] else w
  {
    var w := Window(recorded, window) + [value];
    var r := recorded + [value];
    assert r[|r| - 1] == value && r[..|r| - 1] == recorded;
    if |w| > window {
      assert w[1..] == r[|r| - |w[1..]|..];
    } else {
      assert w == r[|r| - |w|..];
    }
  }

  /** The mean of values that all lie in [lo, hi) lies in [lo, hi). */
  lemma MeanBounds(s: seq<real>, lo: real, hi: real)
    requires s != [] && forall k :: 0 <= k < |s| ==> lo <= s[k] < hi
    ensures lo <= Mean(s) < hi
  {
    SumBounds(s, lo, hi);
    var n := |s| as real;
    var mean := SumReal(s) / n;
    assert mean * n == SumReal(s);
    if mean < lo {
      assert mean * n < lo * n;
    }
    if mean >= hi {
      assert mean * n >= hi * n;
    }
  }

  lemma {:induction false} SumBounds(s: seq<real>, lo: real, hi: real)
    requires forall k :: 0 <= k < |s| ==> lo <= s[k] < hi
    ensures lo * |s| as real <= SumReal(s)
    ensures s != [] ==> SumReal(s) < hi * |s| as real
  {
    if s != [] {
      var init := s[..|s| - 1];
      SumBounds(init, lo, hi);
      assert lo * |s| as real == lo * |init| as real + lo;
      assert hi * |s| as real == hi * |init| as real + hi;
    }
  }
}
