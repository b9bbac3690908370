/** Trainer.train_step of trainer.py: every step records the metric and
    advances the step counter; every eval_interval-th step evaluates the
    layer, boosting it by 1.1 when the average metric is below 0.5. The
    checkpoint written after a boost and the time-folding gradient echo,
    which builds a throw-away transformer and memory, are outside the
    model. */
module AdaptTrainer {
  import opened Common
  import opened AutoAdapt

  /** `self.step % self.eval_interval == 0` for a non-zero interval. */
  predicate Evaluates(step: int, interval: int)
    requires interval != 0
  {
    step % interval == 0
  }

  class Trainer {
    const evalInterval: int
    const monitor: MetricMonitor
    const mutator: LayerMutator
    var step: int
    const checkpointDir: string
    const timeFoldSteps: int

    /** The monitor is a ten-value window over every metric recorded. */
    ghost predicate Valid()
      reads this, monitor
    {
      monitor.Valid() && monitor.window == 10
    }

    constructor (evalInterval: int, checkpointDir: string, timeFoldSteps: int)
      ensures Valid() && fresh(monitor) && fresh(mutator)
      ensures this.evalInterval == evalInterval && step == 0
      ensures monitor.recorded == [] && mutator.mutations == map[] && !mutator.useLora
    {
      this.evalInterval := evalInterval;
      mutator := new LayerMutator(false);
      var m := new MetricMonitor(10);
      assert m.Valid() && m.window == 10 && m.recorded == [];
      monitor := m;
      step := 0;
      this.checkpointDir := checkpointDir;
      this.timeFoldSteps := timeFoldSteps;
    }

    /** train_step: record, count the step, and evaluate on every
        eval_interval-th step. An interval of 0 makes the modulo raise
        ZeroDivisionError after the metric was recorded and the step
        counted. */
    method TrainStep(layer: string, metric: real) returns (err: Option<PyError>)
      requires Valid()
      modifies this, monitor, mutator
      ensures Valid() && monitor.recorded == old(monitor.recorded) + [metric]
      ensures |monitor.values| <= 10
      ensures step == old(step) + 1
      ensures evalInterval == 0 ==> err == Some(ZeroDivisionError) && mutator.mutations == old(mutator.mutations)
      ensures evalInterval != 0 ==> err == None
      ensures evalInterval != 0 && Evaluates(step, evalInterval) && Mean(monitor.values) < 0.5 ==>
                mutator.mutations == Mutated(old(mutator.mutations), layer, 1.1)
      ensures evalInterval != 0 && !(Evaluates(step, evalInterval) && Mean(monitor.values) < 0.5) ==>
                mutator.mutations == old(mutator.mutations)
      ensures mutator.loraLayers == old(mutator.loraLayers)
    {
      monitor.Record(metric);
      step := step + 1;
      if evalInterval == 0 {
        return Some(ZeroDivisionError);
      }
      if step % evalInterval == 0 {
        Evaluate(layer);
      }
      err := None;
    }

    /** _evaluate: boost the layer by 1.1 when the average is below 0.5. */
    method Evaluate(layer: string)
      modifies mutator
      ensures mutator.mutations == if Mean(monitor.values) < 0.5 then Mutated(old(mutator.mutations), layer, 1.1) else old(mutator.mutations)
      ensures mutator.loraLayers == old(mutator.loraLayers)
    {
      var avg := monitor.Average();
      if avg < 0.5 {
        mutator.Mutate(layer, 1.1);
      }
    }
  }

  // ------------------------------------------------------------ properties

  /** How many of the steps 1 .. n evaluate. */
  function Evaluations(n: nat, interval: int): nat
    requires interval != 0
  {
    if n == 0 then 0 else Evaluations(n - 1, interval) + (if Evaluates(n, interval) then 1 else 0)
  }

  /** n == q * k + r with 0 <= r < k pins down n / k and n % k. */
  lemma DivModUnique(n: int, k: int, q: int, r: int)
    requires k > 0 && 0 <= r < k && n == q * k + r
    ensures n / k == q && n % k == r
  {
    var q', r' := n / k, n % k;
    if q' < q {
      MulAtLeast(q - q', k);
    } else if q' > q {
      MulAtLeast(q' - q, k);
    }
  }

  lemma {:induction false} MulAtLeast(d: int, k: int)
    requires d >= 1 && k > 0
    ensures d * k >= k
  {
    if d > 1 {
      MulAtLeast(d - 1, k);
      assert d * k == (d - 1) * k + k;
    }
  }

  /** One more step adds one evaluation exactly when it is a multiple of
      the interval. */
  lemma DivStep(n: nat, k: int)
    requires n > 0 && k > 0
    ensures n / k == (n - 1) / k + (if n % k == 0 then 1 else 0)
  {
    var q, r := (n - 1) / k, (n - 1) % k;
    if r + 1 == k {
      DivModUnique(n, k, q + 1, 0);
    } else {
      DivModUnique(n, k, q, r + 1);
    }
  }

  /** Starting from step 0, n training steps evaluate n / eval_interval
      times. */
  lemma {:induction false} EvaluationsCount(n: nat, interval: int)
    requires interval > 0
    ensures Evaluations(n, interval) == n / interval
  {
    if n > 0 {
      EvaluationsCount(n - 1, interval);
      DivStep(n, interval);
    }
  }
}
