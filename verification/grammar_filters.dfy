/** The reply filters of grammar_filters.py: the blank-text guard of
    `passes_filters`, with each regular-expression rule given as a search
    predicate, and the pronoun swapper `swap_pronouns`. */
module GrammarFilters {
  import opened Dicts
  import opened Text

  /** The swap table, keyed by exact (case-sensitive) spelling. */
  const PronounTable: map<string, string> := map[
    "I" := "you", "i" := "you",
    "you" := "I", "You" := "I",
    "my" := "your", "My" := "Your",
    "your" := "my", "Your" := "My",
    "me" := "you", "Me" := "You",
    "myself" := "yourself", "yourself" := "myself",
    "mine" := "yours", "yours" := "mine"]

  /** swap_pronouns */
  function SwapPronouns(words: seq<string>): (r: seq<string>)
    ensures |r| == |words|
  {
    Translate(PronounTable, words)
  }

  /** Every listed spelling becomes its table entry, and every other word is
      kept as it is. */
  lemma SwapPronounsMeaning(words: seq<string>)
    ensures forall i :: 0 <= i < |words| && words[i] in PronounTable ==> SwapPronouns(words)[i] == PronounTable[words[i]]
    ensures forall i :: 0 <= i < |words| && words[i] !in PronounTable ==> SwapPronouns(words)[i] == words[i]
  {
  }

  /** Swapping twice restores the words exactly when none of them is one of
      the four spellings whose image maps on to a different spelling:
      "i" and "me" come back as "I", "You" and "Me" as "you" and "I". */
  lemma SwapTwice(words: seq<string>)
    ensures SwapPronouns(SwapPronouns(words)) == words
      <==> forall i :: 0 <= i < |words| ==> words[i] !in {"i", "You", "me", "Me"}
  {
    var twice := SwapPronouns(SwapPronouns(words));
    forall i | 0 <= i < |words|
      ensures twice[i] == words[i] <==> words[i] !in {"i", "You", "me", "Me"}
    {
      var w := words[i];
      assert SwapPronouns(words)[i] == MapGet(PronounTable, w, w);
    }
    if twice != words {
      var i :| 0 <= i < |words| && twice[i] != words[i];
    }
  }

  /** The three swaps the table is named for. */
  lemma SwapExamples()
    ensures SwapPronouns(["I", "like", "my", "cat"]) == ["you", "like", "your", "cat"]
    ensures SwapPronouns(["you", "said"]) == ["I", "said"]
  {
  }

  /** passes_filters: blank text is rejected first; otherwise the text
      passes when none of the rules finds a match. */
  function PassesFilters(text: string, rules: seq<string -> bool>): (ok: bool)
    ensures AllSpace(text) ==> !ok
  {
    StripBlank(text);
    if text == [] || |Strip(text)| == 0 then false
    else forall i :: 0 <= i < |rules| ==> !rules[i](text)
  }

  /** Text with a non-blank character passes exactly when no rule matches. */
  lemma PassesFiltersNonBlank(text: string, rules: seq<string -> bool>)
    requires !AllSpace(text)
    ensures PassesFilters(text, rules) <==> forall i :: 0 <= i < |rules| ==> !rules[i](text)
  {
    StripBlank(text);
  }
}
