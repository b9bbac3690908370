/** The 4-bit weight codec of quantum/quant4.py. A weight array is its
    values in row-major order with its shape; values are real numbers (the
    float32 conversion and its rounding are outside the model), while the
    rounding to codes, the clipping, the nibble packing and the signed
    recovery are modelled exactly. */
module Quant4 {
  import opened Common

  /** A uint8 array element. */
  type Byte = x: int | 0 <= x < 256

  function Abs(x: real): real { if x < 0.0 then -x else x }

  /** `np.prod(shape)`: the number of elements. For the empty shape numpy
      gives the float 1.0, which Decompress must reject as a slice bound. */
  function Prod(shape: seq<nat>): nat {
    if shape == [] then 1 else Prod(shape[..|shape| - 1]) * shape[|shape| - 1]
  }

  /** `np.max(np.abs(weights))` of a non-empty array. */
  function MaxAbs(w: seq<real>): (r: real)
    requires w != []
    ensures forall i :: 0 <= i < |w| ==> Abs(w[i]) <= r
    ensures exists i :: 0 <= i < |w| && r == Abs(w[i])
  {
    if |w| == 1 then Abs(w[0])
    else
      var m := MaxAbs(w[..|w| - 1]);
      assert forall i :: 0 <= i < |w| - 1 ==> w[..|w| - 1][i] == w[i];
      if Abs(w[|w| - 1]) > m then Abs(w[|w| - 1]) else m
  }

  /** `np.round`: to the nearest integer, halves to the even one. */
  function Round(x: real): (r: int)
    ensures -0.5 <= x - r as real <= 0.5
    ensures (x - r as real == 0.5 || x - r as real == -0.5) ==> r % 2 == 0
  {
    var f := x.Floor;
    var d := x - f as real;
    if d < 0.5 then f
    else if d > 0.5 then f + 1
    else if f % 2 == 0 then f else f + 1
  }

  /** `np.clip(_, -8, 7)` */
  function Clip(n: int): (r: int)
    ensures -8 <= r <= 7
    ensures -8 <= n <= 7 ==> r == n
  {
    if n < -8 then -8 else if n > 7 then 7 else n
  }

  /** The scale: the largest magnitude over 7, with 1.0 standing in for an
      all-zero array. */
  function Scale(w: seq<real>): real
    requires w != []
  {
    var m := MaxAbs(w);
    (if m == 0.0 then 1.0 else m) / 7.0
  }

  /** The signed 4-bit code of one weight. */
  function Code(x: real, scale: real): (c: int)
    requires scale != 0.0
    ensures -8 <= c <= 7
  {
    Clip(Round(x / scale))
  }

  /** How far a weight's code, times the scale, lies from the weight. */
  function CodeError(x: real, scale: real): real
    requires scale != 0.0
  {
    Abs(Dequant(Code(x, scale), scale) - x)
  }

  /** The code of each weight. */
  function Codes(w: seq<real>, scale: real): (q: seq<int>)
    requires scale != 0.0
    ensures |q| == |w|
    ensures forall i :: 0 <= i < |q| ==> q[i] == Code(w[i], scale)
  {
    seq(|w|, i requires 0 <= i < |w| => Code(w[i], scale))
  }

  /** `q & 0xF` on an int8: the low four bits of the two's complement. */
  function Nibble(c: int): nat { c % 16 }

  /** An odd number of codes gets a trailing zero. */
  function Padded(q: seq<int>): (p: seq<int>)
    ensures |p| % 2 == 0 && |p| == |q| + |q| % 2 && p[..|q|] == q
    ensures |q| % 2 == 1 ==> p[|q|] == 0
  {
    if |q| % 2 == 1 then q + [0] else q
  }

  /** `((q[0::2] & 0xF) << 4) | (q[1::2] & 0xF)` cast to uint8: each byte
      holds an even-position code in its high nibble and the next code in
      its low nibble. */
  function Pack(q: seq<int>): (packed: seq<Byte>)
    ensures |packed| == (|q| + 1) / 2
  {
    var p := Padded(q);
    seq(|p| / 2, j requires 0 <= j < |p| / 2 => (Nibble(p[2 * j]) * 16 + Nibble(p[2 * j + 1])) % 256)
  }

  /** `((n + 8) % 16) - 8`: a nibble read back as a signed code. */
  function Signed(n: int): int { (n + 8) % 16 - 8 }

  /** The codes of a packed array: high nibble, then low nibble, of each
      byte. */
  function Unpack(packed: seq<Byte>): (q: seq<int>)
    ensures |q| == 2 * |packed|
  {
    seq(2 * |packed|, i requires 0 <= i < 2 * |packed| =>
      if i % 2 == 0 then Signed(packed[i / 2] / 16 % 16) else Signed(packed[i / 2] % 16))
  }

  datatype Compressed = Compressed(packed: seq<Byte>, scale: real, shape: seq<nat>)

  /** compress_weights: an empty array has no maximum and raises. */
  function Compress(w: seq<real>, shape: seq<nat>): (r: Result<Compressed>)
    requires |w| == Prod(shape)
    ensures r.Err? <==> w == []
    ensures r.Ok? ==> (r.value.shape == shape && r.value.scale > 0.0
      && |r.value.packed| == (|w| + 1) / 2)
  {
    if w == [] then Err(ValueError)
    else
      var scale := Scale(w);
      Ok(Compressed(Pack(Codes(w, scale)), scale, shape))
  }

  /** A code back on the weight scale. */
  function Dequant(c: int, scale: real): real { c as real * scale }

  /** decompress_weights: the first prod(shape) codes times the scale. The
      empty shape of a 0-d array makes `np.prod` a float, which cannot bound
      a slice; too few codes for the shape make the reshape raise. */
  function Decompress(packed: seq<Byte>, scale: real, shape: seq<nat>): (r: Result<seq<real>>)
    ensures shape == [] ==> r == Err(TypeError)
    ensures r.Err? <==> shape == [] || 2 * |packed| < Prod(shape)
    ensures r.Ok? ==> |r.value| == Prod(shape)
  {
    var q := Unpack(packed);
    var n := Prod(shape);
    if shape == [] then Err(TypeError)
    else if |q| < n then Err(ValueError)
    else Ok(seq(n, i requires 0 <= i < n => Dequant(q[i], scale)))
  }

  // ------------------------------------------------------------ properties

  /** A code in [-8, 7] survives being stored as a nibble. */
  lemma SignedNibble(c: int)
    requires -8 <= c <= 7
    ensures Signed(Nibble(c)) == c
  {
    if c < 0 {
      assert Nibble(c) == c + 16;
    }
  }

  /** The high and low nibbles of a packed byte are the two stored. */
  lemma ByteNibbles(hi: int, lo: int)
    requires 0 <= hi < 16 && 0 <= lo < 16
    ensures (hi * 16 + lo) % 256 / 16 % 16 == hi && (hi * 16 + lo) % 256 % 16 == lo
  {
    assert (hi * 16 + lo) % 256 == hi * 16 + lo;
  }

  /** Unpacking recovers every packed code in order; the padding code of
      an odd count comes back as 0. */
  lemma UnpackPack(q: seq<int>)
    requires forall i :: 0 <= i < |q| ==> -8 <= q[i] <= 7
    ensures |Unpack(Pack(q))| == |q| + |q| % 2
    ensures Unpack(Pack(q))[..|q|] == q
    ensures |q| % 2 == 1 ==> Unpack(Pack(q))[|q|] == 0
  {
    var p := Padded(q);
    var u := Unpack(Pack(q));
    assert forall i :: 0 <= i < |p| ==> -8 <= p[i] <= 7 by {
      forall i | 0 <= i < |p|
        ensures -8 <= p[i] <= 7
      {
        if i < |q| {
          assert p[i] == p[..|q|][i];
        }
      }
    }
    forall i | 0 <= i < |p|
      ensures u[i] == p[i]
    {
      var j := i / 2;
      assert i == 2 * j || i == 2 * j + 1;
      var hi, lo := Nibble(p[2 * j]), Nibble(p[2 * j + 1]);
      assert Pack(q)[j] == (hi * 16 + lo) % 256;
      ByteNibbles(hi, lo);
      SignedNibble(p[2 * j]);
      SignedNibble(p[2 * j + 1]);
    }
    assert u == p;
  }

  /** Multiplying by a positive number keeps the sign. */
  lemma MulSign(a: real, c: real)
    requires 0.0 < c
    ensures 0.0 < a ==> 0.0 < a * c
    ensures a < 0.0 ==> a * c < 0.0
    ensures a == 0.0 ==> a * c == 0.0
  {
  }

  /** Dividing by the scale maps [-7 scale, 7 scale] into [-7, 7]. */
  lemma QuotientBound(x: real, scale: real)
    requires 0.0 < scale && -7.0 * scale <= x <= 7.0 * scale
    ensures -7.0 <= x / scale <= 7.0
  {
  }

  /** A rounding error of at most half, scaled, is at most half a scale. */
  lemma ScaledError(r: real, x: real, scale: real)
    requires 0.0 < scale && -0.5 <= r - x / scale <= 0.5
    ensures -scale / 2.0 <= r * scale - x <= scale / 2.0
  {
    var y := x / scale;
    var e := r - y;
    assert y * scale == x;
    assert r * scale - x == e * scale;
    MulSign(e - 0.5, scale);
    assert (e - 0.5) * scale == e * scale - 0.5 * scale;
    MulSign(e + 0.5, scale);
    assert (e + 0.5) * scale == e * scale + 0.5 * scale;
    assert e * scale <= 0.5 * scale;
    assert -0.5 * scale <= e * scale;
  }

  /** A weight of magnitude at most seven scales rounds to a code that
      needs no clipping and lies within half a scale of it. */
  lemma CodeExact(x: real, scale: real)
    requires 0.0 < scale && Abs(x) <= 7.0 * scale
    ensures -7 <= Code(x, scale) <= 7
    ensures CodeError(x, scale) <= scale / 2.0
  {
    var y := x / scale;
    QuotientBound(x, scale);
    var r := Round(y);
    assert -7.5 <= r as real <= 7.5;
    ScaledError(r as real, x, scale);
  }

  /** The scale is positive and no weight exceeds seven scales. */
  lemma ScaleBound(w: seq<real>)
    requires w != []
    ensures Scale(w) > 0.0
    ensures forall i :: 0 <= i < |w| ==> Abs(w[i]) <= 7.0 * Scale(w)
  {
  }

  /** Seven scales are the largest magnitude, or 1.0 for an all-zero
      array. */
  lemma ScaleOfMax(w: seq<real>)
    requires w != []
    ensures MaxAbs(w) != 0.0 ==> 7.0 * Scale(w) == MaxAbs(w)
    ensures MaxAbs(w) == 0.0 ==> 7.0 * Scale(w) == 1.0
  {
  }

  /** Each weight's code, times the scale, is within half a scale of it. */
  lemma WeightError(w: seq<real>, i: nat)
    requires i < |w|
    ensures CodeError(w[i], Scale(w)) <= Scale(w) / 2.0
  {
    var scale := Scale(w);
    ScaleBound(w);
    assert 0.0 < scale && Abs(w[i]) <= 7.0 * scale;
    CodeExact(w[i], scale);
  }

  /** Each decompressed value is its unpacked code times the scale. */
  lemma DecompressAt(packed: seq<Byte>, scale: real, shape: seq<nat>, i: nat)
    requires shape != [] && Prod(shape) <= 2 * |packed| && i < Prod(shape)
    ensures Decompress(packed, scale, shape).value[i] == Dequant(Unpack(packed)[i], scale)
  {
  }

  /** The round trip of the codec: decompressing what compress_weights
      returns gives back the shape, and every weight to within half the
      scale (np.allclose with atol=scale holds). A 0-d array, whose shape
      is empty, compresses but does not decompress. */
  lemma RoundTrip(w: seq<real>, shape: seq<nat>)
    requires |w| == Prod(shape) && w != [] && shape != []
    ensures var c := Compress(w, shape).value;
      var d := Decompress(c.packed, c.scale, c.shape);
      d.Ok? && |d.value| == |w|
      && forall i :: 0 <= i < |w| ==> Abs(d.value[i] - w[i]) <= c.scale / 2.0
  {
    var scale := Scale(w);
    ScaleBound(w);
    var q := Codes(w, scale);
    var packed := Pack(q);
    assert Compress(w, shape).value == Compressed(packed, scale, shape);
    var d := Decompress(packed, scale, shape);
    forall i | 0 <= i < |w|
      ensures Abs(d.value[i] - w[i]) <= scale / 2.0
    {
      DecodedAt(q, scale, shape, i);
      WeightError(w, i);
    }
  }

  /** Decompressing packed codes gives each code times the scale. */
  lemma DecodedAt(q: seq<int>, scale: real, shape: seq<nat>, i: nat)
    requires forall k :: 0 <= k < |q| ==> -8 <= q[k] <= 7
    requires |q| == Prod(shape) && i < |q| && shape != []
    ensures Decompress(Pack(q), scale, shape).value[i] == Dequant(q[i], scale)
  {
    UnpackPackAt(q, i);
    DecompressAt(Pack(q), scale, shape, i);
  }

  /** One code through Pack and Unpack. */
  lemma UnpackPackAt(q: seq<int>, i: nat)
    requires forall k :: 0 <= k < |q| ==> -8 <= q[k] <= 7
    requires i < |q|
    ensures Unpack(Pack(q))[i] == q[i]
  {
    UnpackPack(q);
    assert Unpack(Pack(q))[i] == Unpack(Pack(q))[..|q|][i];
  }

  /** An all-zero array compresses to all-zero bytes with scale 1/7. */
  lemma ZeroWeights(w: seq<real>, shape: seq<nat>)
    requires |w| == Prod(shape) && w != []
    requires forall i :: 0 <= i < |w| ==> w[i] == 0.0
    ensures var c := Compress(w, shape).value;
      c.scale == 1.0 / 7.0 && forall j :: 0 <= j < |c.packed| ==> c.packed[j] == 0
  {
    var m := MaxAbs(w);
    var q := Codes(w, Scale(w));
    forall i | 0 <= i < |q|
      ensures q[i] == 0
    {
      assert Round(0.0) == 0;
    }
    var p := Padded(q);
    assert forall i :: 0 <= i < |p| ==> p[i] == 0 by {
      forall i | 0 <= i < |p|
        ensures p[i] == 0
      {
        if i < |q| {
          assert p[i] == p[..|q|][i];
        }
      }
    }
  }
}
