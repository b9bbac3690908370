/** Greedy affix stripping (morphology.py): `split(word)` peels known
    prefixes off the front, longest first, then known suffixes off the back,
    never leaving fewer than two characters of root. */
module Morphology {
  import opened Common
  import opened Text
  import opened Sorting
  import opened PySlice

  const Prefixes: seq<string> := ["без", "под", "над", "про", "пред", "раз", "по", "на"]

  const Suffixes: seq<string> := [
    "ение", "ость", "ировать", "ить", "ать", "овать", "ка", "ник", "ский",
    "ый", "ой", "а", "я", "ы", "и"]

  /** `len` as a sort key over a list of affixes. */
  function Lengths(affixes: seq<string>): map<string, int> {
    map a | a in affixes :: |a|
  }

  /** `sorted(affixes, key=len, reverse=True)`: longest first, ties in list order. */
  function ByLength(affixes: seq<string>): seq<string> {
    SortDesc(affixes, Lengths(affixes))
  }

  /** `root.startswith(pref) and len(root) > len(pref) + 1` */
  predicate PrefixFits(root: string, pref: string) {
    |pref| <= |root| && root[..|pref|] == pref && |root| > |pref| + 1
  }

  /** `root.endswith(suff) and len(root) > len(suff) + 1` */
  predicate SuffixFits(root: string, suff: string) {
    |suff| <= |root| && root[|root| - |suff|..] == suff && |root| > |suff| + 1
  }

  /** The first affix of the list that fits at the front of root. */
  function FirstPrefix(root: string, affixes: seq<string>): (r: Option<string>)
    ensures r.Some? ==> r.value in affixes && PrefixFits(root, r.value)
  {
    if affixes == [] then None
    else if PrefixFits(root, affixes[0]) then Some(affixes[0])
    else FirstPrefix(root, affixes[1..])
  }

  /** The search comes back empty exactly when no affix of the list fits. */
  lemma {:induction false} FirstPrefixNone(root: string, affixes: seq<string>)
    ensures FirstPrefix(root, affixes).None? <==> forall a :: a in affixes ==> !PrefixFits(root, a)
  {
    if affixes != [] && !PrefixFits(root, affixes[0]) {
      FirstPrefixNone(root, affixes[1..]);
      assert forall a :: a in affixes ==> a == affixes[0] || a in affixes[1..];
    }
  }

  /** The first affix of the list that fits at the back of root. */
  function FirstSuffix(root: string, affixes: seq<string>): (r: Option<string>)
    ensures r.Some? ==> r.value in affixes && SuffixFits(root, r.value)
  {
    if affixes == [] then None
    else if SuffixFits(root, affixes[0]) then Some(affixes[0])
    else FirstSuffix(root, affixes[1..])
  }

  /** The search comes back empty exactly when no affix of the list fits. */
  lemma {:induction false} FirstSuffixNone(root: string, affixes: seq<string>)
    ensures FirstSuffix(root, affixes).None? <==> forall a :: a in affixes ==> !SuffixFits(root, a)
  {
    if affixes != [] && !SuffixFits(root, affixes[0]) {
      FirstSuffixNone(root, affixes[1..]);
      assert forall a :: a in affixes ==> a == affixes[0] || a in affixes[1..];
    }
  }

  /** No affix is the empty string, so every strip shortens the root. */
  predicate NonEmpty(affixes: seq<string>) {
    forall a :: a in affixes ==> a != []
  }

  lemma AffixesNonEmpty()
    ensures NonEmpty(ByLength(Prefixes)) && NonEmpty(ByLength(Suffixes))
  {
    forall a | a in ByLength(Prefixes) ensures a != [] {
      SortDescMembers(Prefixes, Lengths(Prefixes), a);
    }
    forall a | a in ByLength(Suffixes) ensures a != [] {
      SortDescMembers(Suffixes, Lengths(Suffixes), a);
    }
  }

  /** The root left by the prefix loop over the given affix order, and the
      prefixes it stripped in order. */
  function StripPrefixes(root: string, affixes: seq<string>): (string, seq<string>)
    requires NonEmpty(affixes)
    decreases |root|
  {
    match FirstPrefix(root, affixes)
    case None => (root, [])
    case Some(p) =>
      var rest := StripPrefixes(From(root, |p|), affixes);
      (rest.0, [p] + rest.1)
  }

  /** The root left by the suffix loop over the given affix order, and the
      suffixes it stripped, outermost first. */
  function StripSuffixes(root: string, affixes: seq<string>): (string, seq<string>)
    requires NonEmpty(affixes)
    decreases |root|
  {
    match FirstSuffix(root, affixes)
    case None => (root, [])
    case Some(s) =>
      var rest := StripSuffixes(To(root, -|s|), affixes);
      (rest.0, [s] + rest.1)
  }

  /** `split(word)`: the root, the prefixes and the suffixes in textual order. */
  function SplitWord(word: string): (string, seq<string>, seq<string>) {
    AffixesNonEmpty();
    var (afterPrefixes, prefixes) := StripPrefixes(word, ByLength(Prefixes));
    var (root, suffixes) := StripSuffixes(afterPrefixes, ByLength(Suffixes));
    (root, prefixes, Reversed(suffixes))
  }

  // ------------------------------------------------------------ the loops

  /** The inner `for pref in sorted(...)` loop with its `break`. */
  method FindPrefix(root: string, affixes: seq<string>) returns (found: Option<string>)
    ensures found == FirstPrefix(root, affixes)
  {
    found := None;
    var i := 0;
    while i < |affixes|
      invariant 0 <= i <= |affixes|
      invariant FirstPrefix(root, affixes) == FirstPrefix(root, affixes[i..])
    {
      assert affixes[i..][1..] == affixes[i + 1..];
      if PrefixFits(root, affixes[i]) {
        found := Some(affixes[i]);
        return;
      }
      i := i + 1;
    }
  }

  /** The inner `for suff in sorted(...)` loop with its `break`. */
  method FindSuffix(root: string, affixes: seq<string>) returns (found: Option<string>)
    ensures found == FirstSuffix(root, affixes)
  {
    found := None;
    var i := 0;
    while i < |affixes|
      invariant 0 <= i <= |affixes|
      invariant FirstSuffix(root, affixes) == FirstSuffix(root, affixes[i..])
    {
      assert affixes[i..][1..] == affixes[i + 1..];
      if SuffixFits(root, affixes[i]) {
        found := Some(affixes[i]);
        return;
      }
      i := i + 1;
    }
  }

  /** The first `while changed` loop of split. */
  method PeelPrefixes(word: string, affixes: seq<string>) returns (root: string, prefixes: seq<string>)
    requires NonEmpty(affixes)
    ensures (root, prefixes) == StripPrefixes(word, affixes)
  {
    prefixes := [];
    root := word;
    var changed := true;
    assert [] + StripPrefixes(word, affixes).1 == StripPrefixes(word, affixes).1;
    while changed
      invariant StripPrefixes(word, affixes) == (StripPrefixes(root, affixes).0, prefixes + StripPrefixes(root, affixes).1)
      invariant !changed ==> FirstPrefix(root, affixes).None?
      decreases |root| + (if changed then 1 else 0)
    {
      changed := false;
      var found := FindPrefix(root, affixes);
      if found.Some? {
        var rest := StripPrefixes(From(root, |found.value|), affixes);
        assert prefixes + ([found.value] + rest.1) == (prefixes + [found.value]) + rest.1;
        prefixes := prefixes + [found.value];
        root := From(root, |found.value|);
        changed := true;
      }
    }
    assert prefixes + [] == prefixes;
  }

  /** The second `while changed` loop of split; suffixes come out outermost first. */
  method PeelSuffixes(word: string, affixes: seq<string>) returns (root: string, suffixes: seq<string>)
    requires NonEmpty(affixes)
    ensures (root, suffixes) == StripSuffixes(word, affixes)
  {
    suffixes := [];
    root := word;
    var changed := true;
    assert [] + StripSuffixes(word, affixes).1 == StripSuffixes(word, affixes).1;
    while changed
      invariant StripSuffixes(word, affixes) == (StripSuffixes(root, affixes).0, suffixes + StripSuffixes(root, affixes).1)
      invariant !changed ==> FirstSuffix(root, affixes).None?
      decreases |root| + (if changed then 1 else 0)
    {
      changed := false;
      var found := FindSuffix(root, affixes);
      if found.Some? {
        var rest := StripSuffixes(To(root, -|found.value|), affixes);
        assert suffixes + ([found.value] + rest.1) == (suffixes + [found.value]) + rest.1;
        suffixes := suffixes + [found.value];
        root := To(root, -|found.value|);
        changed := true;
      }
    }
    assert suffixes + [] == suffixes;
  }

  /** split: prefixes off the front, then suffixes off the back, both longest first. */
  method Split(word: string) returns (root: string, prefixes: seq<string>, suffixes: seq<string>)
    ensures (root, prefixes, suffixes) == SplitWord(word)
  {
    AffixesNonEmpty();
    var afterPrefixes;
    afterPrefixes, prefixes := PeelPrefixes(word, ByLength(Prefixes));
    var stripped;
    root, stripped := PeelSuffixes(afterPrefixes, ByLength(Suffixes));
    suffixes := Reversed(stripped);
  }

  // ------------------------------------------------------------ properties

  /** With the affixes in non-increasing key order, the first one that fits
      has the largest key of all that fit. */
  lemma {:induction false} FirstPrefixLargest(root: string, affixes: seq<string>, key: map<string, int>)
    requires NonIncreasing(affixes, key)
    ensures forall q :: (FirstPrefix(root, affixes).Some? && q in affixes && PrefixFits(root, q)
      ==> KeyOf(key, q) <= KeyOf(key, FirstPrefix(root, affixes).value))
  {
    if affixes != [] && !PrefixFits(root, affixes[0]) {
      FirstPrefixLargest(root, affixes[1..], key);
    }
  }

  lemma {:induction false} FirstSuffixLargest(root: string, affixes: seq<string>, key: map<string, int>)
    requires NonIncreasing(affixes, key)
    ensures forall q :: (FirstSuffix(root, affixes).Some? && q in affixes && SuffixFits(root, q)
      ==> KeyOf(key, q) <= KeyOf(key, FirstSuffix(root, affixes).value))
  {
    if affixes != [] && !SuffixFits(root, affixes[0]) {
      FirstSuffixLargest(root, affixes[1..], key);
    }
  }

  /** Each prefix step of split strips the longest known prefix that fits,
      and a step is taken exactly when some known prefix fits. */
  lemma LongestPrefixChosen(root: string)
    ensures FirstPrefix(root, ByLength(Prefixes)).None? <==> forall q :: q in Prefixes ==> !PrefixFits(root, q)
    ensures forall q :: (FirstPrefix(root, ByLength(Prefixes)).Some? && q in Prefixes && PrefixFits(root, q)
      ==> |q| <= |FirstPrefix(root, ByLength(Prefixes)).value|)
  {
    SortDescProps(Prefixes, Lengths(Prefixes));
    FirstPrefixNone(root, ByLength(Prefixes));
    FirstPrefixLargest(root, ByLength(Prefixes), Lengths(Prefixes));
    forall q ensures q in ByLength(Prefixes) <==> q in Prefixes {
      SortDescMembers(Prefixes, Lengths(Prefixes), q);
    }
  }

  /** Each suffix step of split strips the longest known suffix that fits,
      and a step is taken exactly when some known suffix fits. */
  lemma LongestSuffixChosen(root: string)
    ensures FirstSuffix(root, ByLength(Suffixes)).None? <==> forall q :: q in Suffixes ==> !SuffixFits(root, q)
    ensures forall q :: (FirstSuffix(root, ByLength(Suffixes)).Some? && q in Suffixes && SuffixFits(root, q)
      ==> |q| <= |FirstSuffix(root, ByLength(Suffixes)).value|)
  {
    SortDescProps(Suffixes, Lengths(Suffixes));
    FirstSuffixNone(root, ByLength(Suffixes));
    FirstSuffixLargest(root, ByLength(Suffixes), Lengths(Suffixes));
    forall q ensures q in ByLength(Suffixes) <==> q in Suffixes {
      SortDescMembers(Suffixes, Lengths(Suffixes), q);
    }
  }

  lemma PrefixSplit(root: string, p: string)
    requires PrefixFits(root, p)
    ensures root == p + From(root, |p|)
  {
  }

  lemma SuffixSplit(root: string, s: string)
    requires SuffixFits(root, s) && s != []
    ensures root == To(root, -|s|) + s
  {
  }

  lemma ConcatCons(w: string, ws: seq<string>)
    ensures Concat([w] + ws) == w + Concat(ws)
  {
    ConcatAppend([w], ws);
    assert Concat([w]) == w;
  }

  lemma ConcatSnoc(ws: seq<string>, w: string)
    ensures Concat(ws + [w]) == Concat(ws) + w
  {
    ConcatAppend(ws, [w]);
    assert Concat([w]) == w;
  }

  /** The prefixes put back in front of the root give the word again. */
  lemma {:induction false} StripPrefixesSpell(root: string, affixes: seq<string>)
    requires NonEmpty(affixes)
    ensures Concat(StripPrefixes(root, affixes).1) + StripPrefixes(root, affixes).0 == root
    decreases |root|
  {
    var first := FirstPrefix(root, affixes);
    if first.Some? {
      var p := first.value;
      var tail := From(root, |p|);
      StripPrefixesSpell(tail, affixes);
      var rest := StripPrefixes(tail, affixes);
      assert StripPrefixes(root, affixes) == (rest.0, [p] + rest.1);
      ConcatCons(p, rest.1);
      PrefixSplit(root, p);
      AppendAssoc(p, Concat(rest.1), rest.0);
    } else {
      assert StripPrefixes(root, affixes) == (root, []);
      assert Concat([]) + root == root;
    }
  }

  /** Every stripped prefix comes from the list; the root left over has no
      fitting prefix; and a root that lost anything keeps at least two
      characters. */
  lemma {:induction false} StripPrefixesRest(root: string, affixes: seq<string>)
    requires NonEmpty(affixes)
    ensures forall p :: p in StripPrefixes(root, affixes).1 ==> p in affixes
    ensures FirstPrefix(StripPrefixes(root, affixes).0, affixes).None?
    ensures StripPrefixes(root, affixes).1 != [] ==> |StripPrefixes(root, affixes).0| >= 2
    decreases |root|
  {
    var first := FirstPrefix(root, affixes);
    if first.Some? {
      var tail := From(root, |first.value|);
      StripPrefixesRest(tail, affixes);
      var rest := StripPrefixes(tail, affixes);
      assert StripPrefixes(root, affixes) == (rest.0, [first.value] + rest.1);
      assert |tail| >= 2;
    }
  }

  /** The suffixes, put back in textual order after the root, give the word again. */
  lemma {:induction false} StripSuffixesSpell(root: string, affixes: seq<string>)
    requires NonEmpty(affixes)
    ensures StripSuffixes(root, affixes).0 + Concat(Reversed(StripSuffixes(root, affixes).1)) == root
    decreases |root|
  {
    var first := FirstSuffix(root, affixes);
    if first.Some? {
      var s := first.value;
      var head := To(root, -|s|);
      StripSuffixesSpell(head, affixes);
      var rest := StripSuffixes(head, affixes);
      assert StripSuffixes(root, affixes) == (rest.0, [s] + rest.1);
      ReversedCons(s, rest.1);
      ConcatSnoc(Reversed(rest.1), s);
      SuffixSplit(root, s);
    }
  }

  /** Every stripped suffix comes from the list; the root left over has no
      fitting suffix; and a root that lost anything keeps at least two
      characters. */
  lemma {:induction false} StripSuffixesRest(root: string, affixes: seq<string>)
    requires NonEmpty(affixes)
    ensures forall s :: s in StripSuffixes(root, affixes).1 ==> s in affixes
    ensures FirstSuffix(StripSuffixes(root, affixes).0, affixes).None?
    ensures StripSuffixes(root, affixes).1 != [] ==> |StripSuffixes(root, affixes).0| >= 2
    decreases |root|
  {
    var first := FirstSuffix(root, affixes);
    if first.Some? {
      var head := To(root, -|first.value|);
      StripSuffixesRest(head, affixes);
      var rest := StripSuffixes(head, affixes);
      assert StripSuffixes(root, affixes) == (rest.0, [first.value] + rest.1);
      assert |head| >= 2;
    }
  }

  /** split(word): prefixes + root + suffixes spell the word. */
  lemma SplitSpells(word: string)
    ensures Concat(SplitWord(word).1) + SplitWord(word).0 + Concat(SplitWord(word).2) == word
  {
    AffixesNonEmpty();
    var (afterPrefixes, prefixes) := StripPrefixes(word, ByLength(Prefixes));
    StripPrefixesSpell(word, ByLength(Prefixes));
    StripSuffixesSpell(afterPrefixes, ByLength(Suffixes));
  }

  /** split(word): every prefix and every suffix returned is a known one. */
  lemma SplitAffixesKnown(word: string)
    ensures forall p :: p in SplitWord(word).1 ==> p in Prefixes
    ensures forall s :: s in SplitWord(word).2 ==> s in Suffixes
  {
    AffixesNonEmpty();
    var (afterPrefixes, prefixes) := StripPrefixes(word, ByLength(Prefixes));
    var (root, suffixes) := StripSuffixes(afterPrefixes, ByLength(Suffixes));
    StripPrefixesRest(word, ByLength(Prefixes));
    StripSuffixesRest(afterPrefixes, ByLength(Suffixes));
    forall p | p in prefixes ensures p in Prefixes {
      SortDescMembers(Prefixes, Lengths(Prefixes), p);
    }
    forall s | s in Reversed(suffixes) ensures s in Suffixes {
      var i :| 0 <= i < |suffixes| && Reversed(suffixes)[i] == s;
      assert suffixes[|suffixes| - 1 - i] == s;
      SortDescMembers(Suffixes, Lengths(Suffixes), s);
    }
  }

  /** split(word): the root keeps no known suffix, and it is the whole word
      or at least two characters long. */
  lemma SplitRootBare(word: string)
    ensures forall s :: s in Suffixes ==> !SuffixFits(SplitWord(word).0, s)
    ensures SplitWord(word).0 == word || |SplitWord(word).0| >= 2
  {
    AffixesNonEmpty();
    var (afterPrefixes, prefixes) := StripPrefixes(word, ByLength(Prefixes));
    var (root, suffixes) := StripSuffixes(afterPrefixes, ByLength(Suffixes));
    StripPrefixesSpell(word, ByLength(Prefixes));
    StripPrefixesRest(word, ByLength(Prefixes));
    StripSuffixesRest(afterPrefixes, ByLength(Suffixes));
    LongestSuffixChosen(root);
    if prefixes == [] {
      assert Concat(prefixes) == "";
    }
  }

  /** split(word): prefixes + root + suffixes spell the word; every affix is
      a known one; the root keeps no known suffix; and the root is the whole
      word or at least two characters long. */
  lemma SplitProps(word: string)
    ensures Concat(SplitWord(word).1) + SplitWord(word).0 + Concat(SplitWord(word).2) == word
    ensures forall p :: p in SplitWord(word).1 ==> p in Prefixes
    ensures forall s :: s in SplitWord(word).2 ==> s in Suffixes
    ensures forall s :: s in Suffixes ==> !SuffixFits(SplitWord(word).0, s)
    ensures SplitWord(word).0 == word || |SplitWord(word).0| >= 2
  {
    SplitSpells(word);
    SplitAffixesKnown(word);
    SplitRootBare(word);
  }

  /** A word that starts with no known prefix and ends with no known suffix
      (under the length guards) comes back whole, with no affixes. */
  lemma NothingToStrip(word: string)
    requires forall q :: q in Prefixes ==> !PrefixFits(word, q)
    requires forall q :: q in Suffixes ==> !SuffixFits(word, q)
    ensures SplitWord(word) == (word, [], [])
  {
    LongestPrefixChosen(word);
    LongestSuffixChosen(word);
    AffixesNonEmpty();
    assert Reversed<string>([]) == [];
  }
}
