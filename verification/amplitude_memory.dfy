/** The amplitude store of quantum_memory.py: complex amplitude vectors kept
    by time step. numpy's complex arrays are sequences of Complex values. */
module AmplitudeMemory {
  import opened Common

  datatype Complex = Complex(re: real, im: real)

  type Amps = seq<Complex>

  type Vec = seq<real>

  /** A real vector as complex amplitudes with zero imaginary parts
      (`v.astype(np.complex128)`). */
  function ToComplex(v: Vec): (r: Amps)
    ensures |r| == |v|
    ensures forall k :: 0 <= k < |v| ==> r[k] == Complex(v[k], 0.0)
  {
    seq(|v|, k requires 0 <= k < |v| => Complex(v[k], 0.0))
  }

  /** `dict.get(step)`: the entry for step, or None. */
  function Get(m: map<int, Amps>, step: int): (r: Option<Amps>)
    ensures r.Some? <==> step in m
    ensures r.Some? ==> r.value == m[step]
  {
    if step in m then Some(m[step]) else None
  }

  class QuantumMemory {
    var amplitudes: map<int, Amps>

    constructor ()
      ensures amplitudes == map[]
    {
      amplitudes := map[];
    }

    /** store: the entry for step becomes amps; every other step keeps its
        entry. */
    method Store(step: int, amps: Amps)
      modifies this
      ensures amplitudes == old(amplitudes)[step := amps]
      ensures Get(amplitudes, step) == Some(amps)
      ensures forall t :: t != step ==> Get(amplitudes, t) == Get(old(amplitudes), t)
      ensures amplitudes.Keys == old(amplitudes).Keys + {step}
    {
      amplitudes := amplitudes[step := amps];
    }

    /** retrieve: the stored amplitudes of step, None when none were
        stored. */
    method Retrieve(step: int) returns (r: Option<Amps>)
      ensures r.Some? <==> step in amplitudes
      ensures r.Some? ==> r.value == amplitudes[step]
    {
      r := Get(amplitudes, step);
    }

    /** clear: no step has amplitudes afterwards. */
    method Clear()
      modifies this
      ensures amplitudes == map[]
      ensures forall t :: Get(amplitudes, t) == None
    {
      amplitudes := map[];
    }
  }

  /** A store followed by a retrieve of the same step returns what was
      stored, whatever the memory held before; a retrieve of another step
      is not affected. */
  method StoreThenRetrieve(mem: QuantumMemory, step: int, other: int, amps: Amps) returns (got: Option<Amps>, otherGot: Option<Amps>)
    modifies mem
    ensures got == Some(amps)
    ensures other != step ==> otherGot == Get(old(mem.amplitudes), other)
  {
    mem.Store(step, amps);
    got := mem.Retrieve(step);
    otherGot := mem.Retrieve(other);
  }
}
