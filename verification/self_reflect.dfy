/** The self-reflection cycle of self_reflect/trainer.py: WeaknessDetector
    flags conversations that contain "??" or have fewer than three words,
    MetaOptimizer turns the number of weaknesses into one additive delta
    per parameter, and SelfFineTuner.run chains the two. Blending the
    weights of linked model layers afterwards is outside the model. */
module SelfReflect {
  import opened Common
  import opened Text
  import opened Dicts

  const Unclear := "unclear response"
  const Short := "short reply"

  /** `"??" in conv` */
  predicate IsUnclear(conv: string) {
    Contains("??", conv)
  }

  /** `len(conv.split()) < 3` */
  predicate IsShort(conv: string) {
    |SplitWs(conv)| < 3
  }

  /** What one pass of the detector loop appends for conv. */
  function WeaknessesOf(conv: string): seq<string> {
    (if IsUnclear(conv) then [Unclear] else []) + (if IsShort(conv) then [Short] else [])
  }

  /** The weaknesses detect reports for a list of conversations. */
  function Weaknesses(convs: seq<string>): seq<string> {
    if convs == [] then [] else Weaknesses(convs[..|convs| - 1]) + WeaknessesOf(convs[|convs| - 1])
  }

  /** How many of the conversations satisfy p. */
  function NumWith(convs: seq<string>, p: string -> bool): nat {
    if convs == [] then 0 else NumWith(convs[..|convs| - 1], p) + (if p(convs[|convs| - 1]) then 1 else 0)
  }

  /** The deltas optimize suggests: nothing without weaknesses, otherwise
      0.1 per weakness for every parameter, in the parameters' order. */
  function Deltas(weaknesses: seq<string>, params: ODict<string, real>): (r: ODict<string, real>)
    requires Dicts.Valid(params)
    ensures weaknesses == [] ==> r.vals == map[]
    ensures weaknesses != [] ==> r.vals.Keys == params.vals.Keys
    ensures forall k :: k in r.vals ==> r.vals[k] == 0.1 * |weaknesses| as real
  {
    if weaknesses == [] then Empty()
    else ODict(params.keys, map k | k in params.keys :: 0.1 * |weaknesses| as real)
  }

  /** WeaknessDetector.detect */
  method Detect(conversations: seq<string>) returns (weaknesses: seq<string>)
    ensures weaknesses == Weaknesses(conversations)
  {
    weaknesses := [];
    for i := 0 to |conversations|
      invariant weaknesses == Weaknesses(conversations[..i])
    {
      var conv := conversations[i];
      assert conversations[..i + 1][..i] == conversations[..i];
      var before := weaknesses;
      if Contains("??", conv) {
        weaknesses := weaknesses + [Unclear];
      }
      if |SplitWs(conv)| < 3 {
        weaknesses := weaknesses + [Short];
      }
      assert weaknesses == before + WeaknessesOf(conv);
    }
    assert conversations[..|conversations|] == conversations;
  }

  /** MetaOptimizer.optimize */
  method Optimize(weaknesses: seq<string>, params: ODict<string, real>) returns (deltas: ODict<string, real>)
    requires Dicts.Valid(params)
    ensures deltas == Deltas(weaknesses, params) && Dicts.Valid(deltas)
  {
    deltas := Empty();
    if weaknesses == [] {
      return;
    }
    var strength := 0.1 * |weaknesses| as real;
    for i := 0 to |params.keys|
      invariant deltas.keys == params.keys[..i]
      invariant deltas.vals == map k | k in params.keys[..i] :: strength
    {
      var name := params.keys[i];
      assert params.keys[..i + 1] == params.keys[..i] + [name];
      assert name !in params.keys[..i];
      deltas := Put(deltas, name, strength);
    }
    assert params.keys[..|params.keys|] == params.keys;
  }

  /** SelfFineTuner.run, without the layer blending. */
  method Run(conversations: seq<string>, params: ODict<string, real>) returns (deltas: ODict<string, real>)
    requires Dicts.Valid(params)
    ensures deltas == Deltas(Weaknesses(conversations), params) && Dicts.Valid(deltas)
  {
    var weaknesses := Detect(conversations);
    deltas := Optimize(weaknesses, params);
  }

  // ------------------------------------------------------------ properties

  /** One conversation yields "unclear response" exactly when it contains
      "??" and "short reply" exactly when it has fewer than three words,
      the former first. */
  lemma WeaknessesOfProps(conv: string)
    ensures |WeaknessesOf(conv)| <= 2
    ensures Unclear in WeaknessesOf(conv) <==> IsSubstring("??", conv)
    ensures Short in WeaknessesOf(conv) <==> |SplitWs(conv)| < 3
    ensures IsUnclear(conv) && IsShort(conv) ==> WeaknessesOf(conv) == [Unclear, Short]
  {
    assert Unclear != Short;
  }

  /** Detection works conversation by conversation: the report for two
      lists is the two reports in order. */
  lemma {:induction false} WeaknessesAppend(a: seq<string>, b: seq<string>)
    ensures Weaknesses(a + b) == Weaknesses(a) + Weaknesses(b)
  {
    if b == [] {
      assert a + b == a;
    } else {
      var init := b[..|b| - 1];
      assert (a + b)[..|a + b| - 1] == a + init;
      WeaknessesAppend(a, init);
    }
  }

  /** At most two entries per conversation, each one of the two labels. */
  lemma {:induction false} WeaknessesLabels(convs: seq<string>)
    ensures |Weaknesses(convs)| <= 2 * |convs|
    ensures forall w :: w in Weaknesses(convs) ==> w == Unclear || w == Short
  {
    if convs != [] {
      WeaknessesLabels(convs[..|convs| - 1]);
    }
  }

  /** "unclear response" is reported once per conversation containing "??"
      and "short reply" once per conversation of fewer than three words. */
  lemma {:induction false} WeaknessesCount(convs: seq<string>)
    ensures Count(Weaknesses(convs), Unclear) == NumWith(convs, IsUnclear)
    ensures Count(Weaknesses(convs), Short) == NumWith(convs, IsShort)
  {
    if convs != [] {
      var init, last := convs[..|convs| - 1], convs[|convs| - 1];
      WeaknessesCount(init);
      var w := Weaknesses(init);
      assert multiset(w + WeaknessesOf(last)) == multiset(w) + multiset(WeaknessesOf(last));
      assert Unclear != Short;
    }
  }
}
