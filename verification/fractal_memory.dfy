/** The token-aware amplitude store of d/quantum_memory.py: a token is
    turned into a fractal embedding, exp(i * seed / 2^k) for k = 1 .. depth,
    where the seed is the sum of the token's character codes. The complex
    exponential is a parameter of the model. */
module FractalMemory {
  import opened Common
  import opened AmplitudeMemory

  /** θ ↦ exp(iθ). */
  type Cis = real -> Complex

  /** `sum(ord(c) for c in token)` */
  function Seed(token: string): nat {
    if token == [] then 0 else token[0] as nat + Seed(token[1..])
  }

  /** 2^k */
  function Pow2(k: nat): (r: nat)
    ensures r > 0
  {
    if k == 0 then 1 else 2 * Pow2(k - 1)
  }

  /** fractal_encode: one amplitude per level 1 .. depth. */
  function FractalEncode(cis: Cis, token: string, depth: int): (r: Amps)
    ensures |r| == Max(depth, 0)
  {
    var seed := Seed(token);
    seq(Max(depth, 0), k requires 0 <= k < Max(depth, 0) => cis(seed as real / Pow2(k + 1) as real))
  }

  /** What `store` is given: an amplitude array, or a raw token. */
  datatype Data = Array(amps: Amps) | Token(token: string)

  /** The amplitudes stored for data: an array as given, a token encoded at
      the default depth 4. */
  function AmpsOf(cis: Cis, data: Data): (r: Amps)
    ensures data.Array? ==> r == data.amps
    ensures data.Token? ==> r == FractalEncode(cis, data.token, 4) && |r| == 4
  {
    match data
    case Array(a) => a
    case Token(t) => FractalEncode(cis, t, 4)
  }

  class QuantumMemory {
    var amplitudes: map<int, Amps>

    constructor ()
      ensures amplitudes == map[]
    {
      amplitudes := map[];
    }

    /** store: an array is kept as given, a token is encoded first; every
        other step keeps its entry. */
    method Store(step: int, data: Data, cis: Cis)
      modifies this
      ensures amplitudes == old(amplitudes)[step := AmpsOf(cis, data)]
      ensures forall t :: t != step ==> Get(amplitudes, t) == Get(old(amplitudes), t)
    {
      var amps;
      if data.Array? {
        amps := data.amps;
      } else {
        amps := FractalEncode(cis, data.token, 4);
      }
      amplitudes := amplitudes[step := amps];
    }

    /** retrieve: the stored amplitudes of step, None when none were
        stored. */
    method Retrieve(step: int) returns (r: Option<Amps>)
      ensures r.Some? <==> step in amplitudes
      ensures r.Some? ==> r.value == amplitudes[step]
    {
      r := Get(amplitudes, step);
    }

    /** clear: no step has amplitudes afterwards. */
    method Clear()
      modifies this
      ensures amplitudes == map[]
      ensures forall t :: Get(amplitudes, t) == None
    {
      amplitudes := map[];
    }
  }

  // ------------------------------------------------------------ properties

  /** Removing the character at j takes its code off the seed. */
  lemma {:induction false} SeedRemove(b: string, j: nat)
    requires j < |b|
    ensures Seed(b) == Seed(b[..j] + b[j + 1..]) + b[j] as nat
  {
    if j == 0 {
      assert b[..0] + b[1..] == b[1..];
    } else {
      var tail := b[1..];
      SeedRemove(tail, j - 1);
      var shorter := b[..j] + b[j + 1..];
      assert shorter[0] == b[0] && shorter[1..] == tail[..j - 1] + tail[j..];
    }
  }

  /** The seed depends only on which characters occur how often, not on
      their order. */
  lemma {:induction false} SeedPermutation(a: string, b: string)
    requires multiset(a) == multiset(b)
    ensures Seed(a) == Seed(b)
    decreases |a|
  {
    if a == [] {
      assert |multiset(b)| == 0;
    } else {
      var c := a[0];
      assert multiset(a[1..]) == multiset(a) - multiset{c} by {
        assert a == [c] + a[1..];
      }
      assert c in b by {
        assert c in multiset(b);
      }
      var j :| 0 <= j < |b| && b[j] == c;
      var rest := b[..j] + b[j + 1..];
      assert multiset(rest) == multiset(b) - multiset{c} by {
        assert b == b[..j] + [c] + b[j + 1..];
      }
      SeedPermutation(a[1..], rest);
      SeedRemove(b, j);
    }
  }

  /** Tokens that are permutations of each other encode identically, at
      every depth. */
  lemma EncodePermutation(cis: Cis, a: string, b: string, depth: int)
    requires multiset(a) == multiset(b)
    ensures FractalEncode(cis, a, depth) == FractalEncode(cis, b, depth)
  {
    SeedPermutation(a, b);
  }
}
