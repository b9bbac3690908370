/** Values and sequence helpers shared by every module of the model.
    Python raises exceptions; the model returns them as values instead. */
module Common {

  datatype Option<T> = None | Some(value: T) {
    function GetOr(default: T): T {
      match this
      case Some(v) => v
      case None => default
    }
  }

  /** The Python exception classes the modelled code can raise. */
  datatype PyError =
    | ValueError       // numpy shape mismatch, int() of a non-number, empty max/softmax
    | IndexError       // random.choice on an empty list, index out of range
    | ZeroDivisionError
    | RecursionError   // recursion that never reaches its base case
    | SyntaxError      // eval of a malformed expression
    | DecodeError      // base64 input with bad length or characters
    | TypeError        // a float used as a slice index

  datatype Result<T> = Ok(value: T) | Err(error: PyError)

  /** No element occurs twice. */
  predicate Distinct<T(==)>(s: seq<T>) {
    forall i, j :: 0 <= i < j < |s| ==> s[i] != s[j]
  }

  function Min(a: int, b: int): int { if a <= b then a else b }
  function Max(a: int, b: int): int { if a >= b then a else b }

  /** Number of occurrences of x in s. */
  function Count<T(==)>(s: seq<T>, x: T): nat {
    multiset(s)[x]
  }

  lemma CountSnoc<T>(s: seq<T>, y: T, x: T)
    ensures Count(s + [y], x) == Count(s, x) + (if y == x then 1 else 0)
  {
    assert multiset(s + [y]) == multiset(s) + multiset{y};
  }

  /** The first occurrence of every element, in order. */
  function Dedup<T(==,!new)>(s: seq<T>): (r: seq<T>)
    ensures forall x :: x in r <==> x in s
  {
    if s == [] then []
    else
      var d := Dedup(s[..|s| - 1]);
      if s[|s| - 1] in s[..|s| - 1] then d else d + [s[|s| - 1]]
  }

  /** Python `s[::-1]`. */
  function Reversed<T>(s: seq<T>): (r: seq<T>)
    ensures |r| == |s|
    ensures forall i :: 0 <= i < |s| ==> r[i] == s[|s| - 1 - i]
  {
    if s == [] then [] else Reversed(s[1..]) + [s[0]]
  }

  lemma ReversedCons<T>(x: T, s: seq<T>)
    ensures Reversed([x] + s) == Reversed(s) + [x]
  {
    assert ([x] + s)[1..] == s;
  }

  /** Inserting one element anywhere adds exactly that element to the
      multiset. */
  lemma MultisetInsert<T>(r: seq<T>, s: seq<T>, a: seq<T>, x: T, b: seq<T>)
    requires r == a + [x] + b && s == a + b
    ensures multiset(r) == multiset(s) + multiset{x}
  {
  }

  lemma AppendAssoc<T>(a: seq<T>, b: seq<T>, c: seq<T>)
    ensures (a + b) + c == a + (b + c)
  {
  }

  /** Sum of a sequence of reals. */
  function SumReal(s: seq<real>): real {
    if s == [] then 0.0 else SumReal(s[..|s| - 1]) + s[|s| - 1]
  }

  /** `sum(values) / len(values)`, and 0.0 for no values. */
  function Mean(s: seq<real>): real {
    if s == [] then 0.0 else SumReal(s) / |s| as real
  }

  /** Sum of a sequence of integers. */
  function SumInt(s: seq<int>): int {
    if s == [] then 0 else SumInt(s[..|s| - 1]) + s[|s| - 1]
  }

  /** n zeros. */
  function Zeros(n: nat): (r: seq<int>)
    ensures |r| == n
    ensures forall i :: 0 <= i < n ==> r[i] == 0
  {
    if n == 0 then [] else Zeros(n - 1) + [0]
  }

  lemma {:induction false} SumIntZeros(n: nat)
    ensures SumInt(Zeros(n)) == 0
  {
    if n > 0 {
      SumIntZeros(n - 1);
      assert (Zeros(n - 1) + [0])[..n - 1] == Zeros(n - 1);
    }
  }

  /** Changing one entry changes the sum by the difference. */
  lemma {:induction false} SumIntUpdate(s: seq<int>, i: nat, v: int)
    requires i < |s|
    ensures SumInt(s[i := v]) == SumInt(s) - s[i] + v
  {
    var n := |s|;
    if i == n - 1 {
      assert s[i := v][..n - 1] == s[..n - 1];
    } else {
      assert s[i := v][..n - 1] == s[..n - 1][i := v];
      SumIntUpdate(s[..n - 1], i, v);
    }
  }
}
