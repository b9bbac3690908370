/** The second-person to first-person swapper of pro_identity.py. */
module Identity {
  import opened Dicts

  const PronounMap: map<string, string> := map[
    "you" := "I",
    "your" := "my",
    "yours" := "mine",
    "yourself" := "myself",
    "yourselves" := "ourselves"]

  /** swap_pronouns */
  function SwapPronouns(tokens: seq<string>): (r: seq<string>)
    ensures |r| == |tokens|
  {
    Translate(PronounMap, tokens)
  }

  /** Mapped tokens take their table entry, and any other token, including a
      capitalised "You", is kept. */
  lemma SwapPronounsMeaning(tokens: seq<string>)
    ensures forall i :: 0 <= i < |tokens| && tokens[i] in PronounMap ==> SwapPronouns(tokens)[i] == PronounMap[tokens[i]]
    ensures forall i :: 0 <= i < |tokens| && tokens[i] !in PronounMap ==> SwapPronouns(tokens)[i] == tokens[i]
    ensures forall i :: 0 <= i < |tokens| && tokens[i] == "you" ==> SwapPronouns(tokens)[i] == "I"
    ensures forall i :: 0 <= i < |tokens| && tokens[i] == "yourself" ==> SwapPronouns(tokens)[i] == "myself"
    ensures "You" !in PronounMap
  {
  }

  /** No entry of the table is itself a key, so swapping is idempotent. */
  lemma SwapIdempotent(tokens: seq<string>)
    ensures SwapPronouns(SwapPronouns(tokens)) == SwapPronouns(tokens)
  {
    assert forall k :: k in PronounMap ==> PronounMap[k] !in PronounMap;
    var once := SwapPronouns(tokens);
    forall i | 0 <= i < |tokens| ensures SwapPronouns(once)[i] == once[i] {
      assert once[i] == MapGet(PronounMap, tokens[i], tokens[i]);
    }
  }
}
