/** TimeFoldTransformer.forward of transformers/time_fold.py: the step
    function is applied `steps` times, every prediction is cached and its
    complex cast stored in the amplitude memory under its step number.
    Vectors are sequences of reals; the step function is a parameter. */
module TimeFold {
  import opened Common
  import opened AmplitudeMemory

  /** f applied n times to x. */
  function Iterate(f: Vec -> Vec, x: Vec, n: nat): Vec {
    if n == 0 then x else f(Iterate(f, x, n - 1))
  }

  /** The first n predictions: f applied once, twice, ... n times. */
  function Predictions(f: Vec -> Vec, x: Vec, n: nat): seq<Vec> {
    if n == 0 then [] else Predictions(f, x, n - 1) + [Iterate(f, x, n)]
  }

  /** The memory m after the first n predictions were stored under steps
      0 .. n-1. */
  function Stored(m: map<int, Amps>, f: Vec -> Vec, x: Vec, n: nat): map<int, Amps> {
    if n == 0 then m else Stored(m, f, x, n - 1)[n - 1 := ToComplex(Iterate(f, x, n))]
  }

  class TimeFoldTransformer {
    const stepFn: Vec -> Vec
    const steps: int
    const memory: QuantumMemory
    var cache: seq<Vec>

    /** `memory or QuantumMemory()`: the given memory, or a fresh empty one. */
    constructor (stepFn: Vec -> Vec, steps: int, memory: Option<QuantumMemory>)
      ensures this.stepFn == stepFn && this.steps == steps && cache == []
      ensures memory.Some? ==> this.memory == memory.value
      ensures memory.None? ==> fresh(this.memory) && this.memory.amplitudes == map[]
    {
      this.stepFn := stepFn;
      this.steps := steps;
      if memory.Some? {
        this.memory := memory.value;
      } else {
        this.memory := new QuantumMemory();
      }
      cache := [];
    }

    /** forward: the cache is reset to the predictions of this call, the
        memory gains them under their step numbers, and the last one is
        returned, or x itself when steps <= 0. */
    method Forward(x: Vec) returns (out: Vec)
      modifies this, memory
      ensures cache == Predictions(stepFn, x, Max(steps, 0))
      ensures memory.amplitudes == Stored(old(memory.amplitudes), stepFn, x, Max(steps, 0))
      ensures out == Iterate(stepFn, x, Max(steps, 0))
    {
      cache := [];
      out := x;
      var i := 0;
      while i < steps
        invariant 0 <= i <= Max(steps, 0)
        invariant out == Iterate(stepFn, x, i) && cache == Predictions(stepFn, x, i)
        invariant memory.amplitudes == Stored(old(memory.amplitudes), stepFn, x, i)
      {
        out := stepFn(out);
        cache := cache + [out];
        memory.Store(i, ToComplex(out));
        i := i + 1;
      }
    }
  }

  // ------------------------------------------------------------ properties

  /** The cache holds exactly n entries, entry i being f applied i + 1
      times. */
  lemma {:induction false} PredictionsAt(f: Vec -> Vec, x: Vec, n: nat)
    ensures |Predictions(f, x, n)| == n
    ensures forall i :: 0 <= i < n ==> Predictions(f, x, n)[i] == Iterate(f, x, i + 1)
  {
    if n > 0 {
      PredictionsAt(f, x, n - 1);
    }
  }

  /** After forward, step k of the memory holds prediction k for each
      k < n, and every other step is as it was. */
  lemma {:induction false} StoredAt(m: map<int, Amps>, f: Vec -> Vec, x: Vec, n: nat, k: int)
    ensures 0 <= k < n ==> Get(Stored(m, f, x, n), k) == Some(ToComplex(Iterate(f, x, k + 1)))
    ensures !(0 <= k < n) ==> Get(Stored(m, f, x, n), k) == Get(m, k)
  {
    if n > 0 {
      StoredAt(m, f, x, n - 1, k);
    }
  }
}
