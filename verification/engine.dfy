/** Word charging, reply assembly and dataset change detection
    (pro_engine.py). The engine reads the bigram and word-count tables that
    Sequence.NGramState holds; here they are passed in as values because
    neither operation changes them. */
module Engine {
  import opened Common
  import opened Dicts
  import opened Sorting
  import opened Text
  import opened PySlice
  import opened Sequence

  // ------------------------------------------------------- charged words

  /** `collections.Counter(words)`: counts, keyed in order of first occurrence. */
  function Tally(words: seq<string>): (r: ODict<string, int>)
    ensures Valid(r)
    ensures forall w :: w in r.keys <==> w in words
    ensures forall w :: w in r.vals ==> r.vals[w] == Count(words, w)
  {
    var r := CountWords(Empty(), words);
    CountWordsKeys(Empty(), words);
    forall w | w in r.vals ensures r.vals[w] == Count(words, w) {
      CountWordsDelta(Empty(), words, w);
    }
    r
  }

  /** The number of distinct successors of w in the bigram table. */
  function Successors(bc: Bigrams, w: string): nat {
    |MapGet(bc, w, map[])|
  }

  /** Each counted word's charge: its count times one plus its successor count. */
  function Charges(counts: ODict<string, int>, bc: Bigrams): map<string, int> {
    map w | w in counts.vals :: counts.vals[w] * (1 + Successors(bc, w))
  }

  /** The charge of every word of the input. */
  function ChargeMap(words: seq<string>, bc: Bigrams): map<string, int> {
    Charges(Tally(words), bc)
  }

  /** A word's charge is its frequency times one plus its successor count,
      and exactly the input words are charged. */
  lemma ChargeMapMeaning(words: seq<string>, bc: Bigrams, w: string)
    ensures w in ChargeMap(words, bc) <==> w in words
    ensures w in words ==> ChargeMap(words, bc)[w] == Count(words, w) * (1 + Successors(bc, w))
  {
    var t := Tally(words);
    assert w in t.keys <==> w in t.vals;
  }

  /** The five most charged words, ties in order of first occurrence. */
  function ChargedWords(words: seq<string>, bc: Bigrams): seq<string> {
    To(SortDesc(Tally(words).keys, ChargeMap(words, bc)), 5)
  }

  /** compute_charged_words */
  method ComputeChargedWords(words: seq<string>, bc: Bigrams) returns (r: seq<string>)
    ensures r == ChargedWords(words, bc)
    ensures |r| == Min(5, |Tally(words).keys|)
    ensures Distinct(r)
    ensures forall w :: w in r ==> w in words
    ensures NonIncreasing(r, ChargeMap(words, bc))
    ensures forall w, v :: w in words && w !in r && v in r ==>
      ChargeMap(words, bc)[w] <= ChargeMap(words, bc)[v]
  {
    var counts := Tally(words);
    var charges := ComputeCharges(bc, counts);
    var ordered := SortDesc(counts.keys, charges);
    r := To(ordered, 5);
    ChargedWordsProps(words, bc);
  }

  /** The loop of compute_charged_words that charges each distinct word. */
  method ComputeCharges(bc: Bigrams, counts: ODict<string, int>) returns (charges: map<string, int>)
    requires Valid(counts)
    ensures charges == Charges(counts, bc)
  {
    charges := map[];
    for i := 0 to |counts.keys|
      invariant charges == ChargesUpTo(counts, bc, i)
    {
      var w := counts.keys[i];
      charges := charges[w := counts.vals[w] * (1 + Successors(bc, w))];
    }
    ChargesComplete(bc, counts);
  }

  /** The charges the loop of compute_charged_words has filled in after
      visiting the first i counted words. */
  function ChargesUpTo(counts: ODict<string, int>, bc: Bigrams, i: nat): map<string, int>
    requires Valid(counts) && i <= |counts.keys|
  {
    if i == 0 then map[]
    else
      var w := counts.keys[i - 1];
      ChargesUpTo(counts, bc, i - 1)[w := counts.vals[w] * (1 + Successors(bc, w))]
  }

  lemma {:induction false} ChargesUpToAt(counts: ODict<string, int>, bc: Bigrams, i: nat, w: string)
    requires Valid(counts) && i <= |counts.keys|
    ensures w in ChargesUpTo(counts, bc, i) <==> w in counts.keys[..i]
    ensures w in ChargesUpTo(counts, bc, i) ==> ChargesUpTo(counts, bc, i)[w] == counts.vals[w] * (1 + Successors(bc, w))
  {
    if i > 0 {
      ChargesUpToAt(counts, bc, i - 1, w);
      assert counts.keys[..i] == counts.keys[..i - 1] + [counts.keys[i - 1]];
    }
  }

  /** After the loop every counted word has its charge. */
  lemma ChargesComplete(bc: Bigrams, counts: ODict<string, int>)
    requires Valid(counts)
    ensures ChargesUpTo(counts, bc, |counts.keys|) == Charges(counts, bc)
  {
    var c, m := ChargesUpTo(counts, bc, |counts.keys|), Charges(counts, bc);
    forall w ensures (w in c <==> w in m) && (w in c ==> c[w] == m[w]) {
      ChargesAt(bc, counts, w);
    }
  }

  lemma ChargesAt(bc: Bigrams, counts: ODict<string, int>, w: string)
    requires Valid(counts)
    ensures var c, m := ChargesUpTo(counts, bc, |counts.keys|), Charges(counts, bc);
      (w in c <==> w in m) && (w in c ==> c[w] == m[w])
  {
    var n := |counts.keys|;
    ChargesUpToAt(counts, bc, n, w);
    assert counts.keys[..n] == counts.keys;
    assert w in counts.keys <==> w in counts.vals;
  }

  /** The charged words are at most five distinct input words in
      non-increasing charge, and no word left out outranks one returned. */
  lemma ChargedWordsProps(words: seq<string>, bc: Bigrams)
    ensures |ChargedWords(words, bc)| == Min(5, |Tally(words).keys|)
    ensures Distinct(ChargedWords(words, bc))
    ensures forall w :: w in ChargedWords(words, bc) ==> w in words
    ensures NonIncreasing(ChargedWords(words, bc), ChargeMap(words, bc))
    ensures forall w, v :: w in words && w !in ChargedWords(words, bc) && v in ChargedWords(words, bc) ==>
      ChargeMap(words, bc)[w] <= ChargeMap(words, bc)[v]
  {
    var t := Tally(words);
    var cm := ChargeMap(words, bc);
    var m := Min(5, |t.keys|);
    var r := ChargedWords(words, bc);
    assert r == SortDesc(t.keys, cm)[..m];
    TopN(t.keys, cm, 5);
    forall w | w in words ensures w in t.keys && KeyOf(cm, w) == cm[w] {
      ChargeMapMeaning(words, bc, w);
    }
  }

  // ------------------------------------------------------------- respond

  const SilentReply: string := "Silence echoes within void."

  /** The words of `ordered` that may pad a reply: non-empty and not seeds. */
  function Fresh(ordered: seq<string>, charged: seq<string>): seq<string> {
    if ordered == [] then []
    else
      var w := ordered[|ordered| - 1];
      Fresh(ordered[..|ordered| - 1], charged) + (if w != [] && w !in charged then [w] else [])
  }

  /** `s * n` */
  function Repeat<T>(s: seq<T>, n: nat): (r: seq<T>)
    ensures s != [] ==> |r| >= n
  {
    if n == 0 then [] else s + Repeat(s, n - 1)
  }

  /** The vocabulary in descending count order, ties in insertion order. */
  function SortedVocab(wc: ODict<string, int>): seq<string> {
    SortDesc(wc.keys, wc.vals)
  }

  /** The words appended to 1..4 seeds: fresh vocabulary words first, then
      the seeds over again. */
  function Padding(charged: seq<string>, wc: ODict<string, int>): (r: seq<string>)
    requires 1 <= |charged| < 5
    ensures |r| == 5 - |charged|
  {
    var picks := Picks(charged, wc);
    picks + Repeat(charged, 5)[..5 - |charged| - |picks|]
  }

  /** The fresh vocabulary words that pad 1..4 seeds, at most as many as missing. */
  function Picks(charged: seq<string>, wc: ODict<string, int>): (r: seq<string>)
    requires 1 <= |charged| < 5
    ensures |r| <= 5 - |charged|
  {
    To(Fresh(SortedVocab(wc), charged), 5 - |charged|)
  }

  function Padded(charged: seq<string>, wc: ODict<string, int>): seq<string>
    requires charged != []
  {
    if |charged| < 5 then charged + Padding(charged, wc) else charged
  }

  /** Upper-case the first character of a word when it is a letter. */
  function Capitalize(w: string): (r: string)
    ensures |r| == |w|
    ensures w != [] ==> r[1..] == w[1..]
  {
    if w != [] && IsAlpha(w[0]) then [Upper(w[0])] + w[1..] else w
  }

  /** `filter(None, words)`: the non-empty words. */
  function NonEmpty(ws: seq<string>): (r: seq<string>)
    ensures forall k :: 0 <= k < |r| ==> r[k] != []
  {
    if ws == [] then [] else (if ws[0] != [] then [ws[0]] else []) + NonEmpty(ws[1..])
  }

  function RespondSpec(charged: seq<string>, wc: ODict<string, int>): string {
    if charged == [] then SilentReply
    else
      var padded := Padded(charged, wc);
      Join(" ", NonEmpty([Capitalize(padded[0])] + padded[1..Min(5, |padded|)])) + "."
  }

  /** The padding loops of respond for 1..4 seeds: scan the vocabulary in
      descending count order for fresh words until enough are found, then
      top up from the repeated seeds. */
  method PadSeeds(charged: seq<string>, wc: ODict<string, int>) returns (additions: seq<string>)
    requires Valid(wc) && 1 <= |charged| < 5
    ensures additions == Padding(charged, wc)
  {
    var missing := 5 - |charged|;
    var ordered := SortedVocab(wc);
    SortDescProps(wc.keys, wc.vals);
    additions := ScanFresh(ordered, charged, missing);
    if |additions| < missing {
      var cycle := Repeat(charged, 5)[..missing - |additions|];
      additions := AppendAll(additions, cycle);
    } else {
      assert Repeat(charged, 5)[..0] == [];
    }
  }

  /** The second loop of the padding: append the words of `cycle` in order. */
  method AppendAll(additions: seq<string>, cycle: seq<string>) returns (r: seq<string>)
    ensures r == additions + cycle
  {
    r := additions;
    for k := 0 to |cycle|
      invariant r == additions + cycle[..k]
    {
      r := r + [cycle[k]];
    }
    assert cycle[..|cycle|] == cycle;
  }

  /** The first loop of the padding: walk the words in order, keeping each
      non-empty word that is neither a seed nor already kept, and stop once
      `missing` words are kept. */
  method ScanFresh(ordered: seq<string>, charged: seq<string>, missing: nat) returns (picks: seq<string>)
    requires Distinct(ordered) && missing > 0
    ensures picks == To(Fresh(ordered, charged), missing)
  {
    picks := [];
    var i := 0;
    while i < |ordered|
      invariant 0 <= i <= |ordered|
      invariant picks == Fresh(ordered[..i], charged)
      invariant |picks| < missing
    {
      var w := ordered[i];
      FreshStep(ordered, charged, i);
      if w != [] && w !in charged && w !in picks {
        picks := picks + [w];
      }
      i := i + 1;
      if |picks| == missing {
        break;
      }
    }
    FreshTake(ordered, charged, i, missing);
  }

  /** respond */
  method Respond(charged: seq<string>, wc: ODict<string, int>) returns (r: string)
    requires Valid(wc)
    ensures r == RespondSpec(charged, wc)
    ensures charged == [] ==> r == SilentReply
    ensures r != [] && r[|r| - 1] == '.'
  {
    if charged == [] {
      return SilentReply;
    }
    var padded := charged;
    if |charged| < 5 {
      var additions := PadSeeds(charged, wc);
      padded := charged + additions;
    }
    var first := padded[0];
    if first != [] && IsAlpha(first[0]) {
      first := [Upper(first[0])] + first[1..];
    }
    var words := [first] + padded[1..Min(5, |padded|)];
    r := Join(" ", NonEmpty(words)) + ".";
  }

  lemma {:induction false} FreshMembers(s: seq<string>, charged: seq<string>, w: string)
    ensures w in Fresh(s, charged) <==> w in s && w != [] && w !in charged
  {
    if s != [] {
      FreshMembers(s[..|s| - 1], charged, w);
      assert s == s[..|s| - 1] + [s[|s| - 1]];
    }
  }

  lemma {:induction false} FreshAppend(a: seq<string>, b: seq<string>, charged: seq<string>)
    ensures Fresh(a + b, charged) == Fresh(a, charged) + Fresh(b, charged)
  {
    if b == [] {
      assert a + b == a;
    } else {
      FreshAppend(a, b[..|b| - 1], charged);
      assert (a + b)[..|a + b| - 1] == a + b[..|b| - 1];
    }
  }

  /** One step of the scan: the next word is added exactly when it is fresh,
      and it is never already among the additions. */
  lemma FreshStep(s: seq<string>, charged: seq<string>, i: nat)
    requires Distinct(s) && i < |s|
    ensures Fresh(s[..i + 1], charged)
      == Fresh(s[..i], charged) + (if s[i] != [] && s[i] !in charged then [s[i]] else [])
    ensures s[i] !in Fresh(s[..i], charged)
  {
    assert s[..i + 1][..i] == s[..i];
    FreshMembers(s[..i], charged, s[i]);
  }

  /** The scan stopped either at the end or with `missing` words found; both
      ways it holds the first `missing` fresh words. */
  lemma FreshTake(s: seq<string>, charged: seq<string>, i: nat, missing: nat)
    requires i <= |s| && |Fresh(s[..i], charged)| <= missing
    requires i == |s| || |Fresh(s[..i], charged)| == missing
    ensures Fresh(s[..i], charged) == To(Fresh(s, charged), missing)
  {
    FreshSplit(s, charged, i);
    if i == |s| {
      assert s[..i] == s;
    }
  }

  lemma FreshSplit(s: seq<string>, charged: seq<string>, i: nat)
    requires i <= |s|
    ensures Fresh(s, charged) == Fresh(s[..i], charged) + Fresh(s[i..], charged)
  {
    assert s == s[..i] + s[i..];
    FreshAppend(s[..i], s[i..], charged);
  }

  lemma {:induction false} FreshOrdered(s: seq<string>, charged: seq<string>, key: map<string, int>)
    requires NonIncreasing(s, key)
    ensures NonIncreasing(Fresh(s, charged), key)
  {
    if s != [] {
      var init := s[..|s| - 1];
      FreshOrdered(init, charged, key);
      forall x | x in Fresh(init, charged) ensures KeyOf(key, s[|s| - 1]) <= KeyOf(key, x) {
        FreshMembers(init, charged, x);
      }
    }
  }

  lemma {:induction false} FreshDistinct(s: seq<string>, charged: seq<string>)
    requires Distinct(s)
    ensures Distinct(Fresh(s, charged))
  {
    if s != [] {
      var init := s[..|s| - 1];
      FreshDistinct(init, charged);
      FreshMembers(init, charged, s[|s| - 1]);
    }
  }

  /** `s * n` starts with s and repeats with period |s|. */
  lemma {:induction false} RepeatPeriodic<T>(s: seq<T>, n: nat, j: nat)
    requires j < |Repeat(s, n)|
    ensures j < |s| ==> Repeat(s, n)[j] == s[j]
    ensures j >= |s| ==> Repeat(s, n)[j] == Repeat(s, n)[j - |s|]
    decreases n
  {
    if j >= |s| {
      var rest := Repeat(s, n - 1);
      assert Repeat(s, n)[j] == rest[j - |s|];
      RepeatPeriodic(s, n - 1, j - |s|);
      if j - |s| >= |s| {
        assert Repeat(s, n)[j - |s|] == rest[j - 2 * |s|];
      }
    }
  }

  /** One to four seeds are padded to exactly five words, seeds first. */
  lemma PaddedLength(charged: seq<string>, wc: ODict<string, int>)
    requires 1 <= |charged| < 5
    ensures |Padded(charged, wc)| == 5
    ensures Padded(charged, wc)[..|charged|] == charged
  {
  }

  /** The padding starts with fresh vocabulary words: non-empty, not seeds,
      no repeats, in descending count order; and it falls back to the seeds
      only when no other fresh vocabulary word is left. */
  lemma PicksProps(charged: seq<string>, wc: ODict<string, int>)
    requires Valid(wc) && 1 <= |charged| < 5
    ensures Padding(charged, wc)[..|Picks(charged, wc)|] == Picks(charged, wc)
    ensures Distinct(Picks(charged, wc))
    ensures NonIncreasing(Picks(charged, wc), wc.vals)
    ensures forall w :: w in Picks(charged, wc) ==> w in wc.keys && w != [] && w !in charged
    ensures |Picks(charged, wc)| < 5 - |charged| ==>
      forall w :: w in wc.keys && w != [] && w !in charged ==> w in Picks(charged, wc)
  {
    var vocab := SortedVocab(wc);
    SortDescProps(wc.keys, wc.vals);
    var candidates := Fresh(vocab, charged);
    FreshOrdered(vocab, charged, wc.vals);
    FreshDistinct(vocab, charged);
    var picks := Picks(charged, wc);
    assert picks == candidates[..|picks|];
    forall w | w in picks ensures w in wc.keys && w != [] && w !in charged {
      FreshMembers(vocab, charged, w);
      SortDescMembers(wc.keys, wc.vals, w);
    }
    if |picks| < 5 - |charged| {
      assert picks == candidates;
      forall w | w in wc.keys && w != [] && w !in charged ensures w in picks {
        SortDescMembers(wc.keys, wc.vals, w);
        FreshMembers(vocab, charged, w);
      }
    }
  }

  /** After the fresh words the seeds are repeated: first the seeds in order,
      then with period |charged|. */
  lemma PaddingCycle(charged: seq<string>, wc: ODict<string, int>)
    requires 1 <= |charged| < 5
    ensures var n := |Picks(charged, wc)|;
      forall k :: n <= k < |Padding(charged, wc)| && k - n < |charged| ==>
        Padding(charged, wc)[k] == charged[k - n]
    ensures var n := |Picks(charged, wc)|;
      forall k :: n + |charged| <= k < |Padding(charged, wc)| ==>
        Padding(charged, wc)[k] == Padding(charged, wc)[k - |charged|]
  {
    var picks := Picks(charged, wc);
    CycleAfter(picks, charged, 5 - |charged| - |picks|);
  }

  /** After a prefix p, a slice of `c * 5` repeats c from its start. */
  lemma CycleAfter<T>(p: seq<T>, c: seq<T>, m: nat)
    requires c != [] && m <= |Repeat(c, 5)|
    ensures var pad := p + Repeat(c, 5)[..m];
      forall k :: |p| <= k < |pad| && k - |p| < |c| ==> pad[k] == c[k - |p|]
    ensures var pad := p + Repeat(c, 5)[..m];
      forall k :: |p| + |c| <= k < |pad| ==> pad[k] == pad[k - |c|]
  {
    var pad := p + Repeat(c, 5)[..m];
    forall k | |p| <= k < |pad| && k - |p| < |c| ensures pad[k] == c[k - |p|] {
      RepeatPeriodic(c, 5, k - |p|);
    }
    forall k | |p| + |c| <= k < |pad| ensures pad[k] == pad[k - |c|] {
      RepeatPeriodic(c, 5, k - |p|);
    }
  }

  /** Only the first character of the first word may change, and it is
      upper-cased exactly when it is a lower-case letter. */
  lemma CapitalizeProps(w: string)
    ensures |Capitalize(w)| == |w|
    ensures w != [] ==> Capitalize(w)[1..] == w[1..]
    ensures w != [] && IsLowerLetter(w[0]) ==> IsUpper(Capitalize(w)[0])
    ensures w != [] && !IsLowerLetter(w[0]) ==> Capitalize(w) == w
  {
  }

  /** A reply to seeds drops empty words, keeps at most five, and its words
      are the capitalised first padded word and the next four. */
  lemma RespondProps(charged: seq<string>, wc: ODict<string, int>)
    requires Valid(wc) && charged != []
    ensures var words := NonEmpty([Capitalize(Padded(charged, wc)[0])] + Padded(charged, wc)[1..Min(5, |Padded(charged, wc)|)]);
      && |words| <= 5
      && RespondSpec(charged, wc) == Join(" ", words) + "."
  {
    if |charged| < 5 {
      PaddedLength(charged, wc);
    }
    var p := Padded(charged, wc);
    NonEmptyLength([Capitalize(p[0])] + p[1..Min(5, |p|)]);
  }

  lemma {:induction false} NonEmptyLength(ws: seq<string>)
    ensures |NonEmpty(ws)| <= |ws|
  {
    if ws != [] {
      NonEmptyLength(ws[1..]);
    }
  }

  // ------------------------------------------------------ dataset change

  /** The change test of scan_datasets over file-name to digest maps:
      different name sets, or a new digest that differs from the stored one. */
  function DatasetChanged(oldHashes: map<string, string>, newHashes: map<string, string>): bool {
    oldHashes.Keys != newHashes.Keys
    || exists k :: k in newHashes && (k !in oldHashes || oldHashes[k] != newHashes[k])
  }

  /** A change is detected exactly when the two maps differ; in particular
      removing a file alone is a change. */
  lemma DatasetChangedIff(oldHashes: map<string, string>, newHashes: map<string, string>)
    ensures DatasetChanged(oldHashes, newHashes) <==> oldHashes != newHashes
  {
    if !DatasetChanged(oldHashes, newHashes) {
      assert forall k :: k in oldHashes ==> k in newHashes && oldHashes[k] == newHashes[k];
    }
  }
}
