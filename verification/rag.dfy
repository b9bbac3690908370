/** The text side of pro_rag_embedding.py: the character histogram that
    feeds the embedding (`_char_vector`) and the naive subject-verb-object
    splitter (`extract_entities_relations`). The random projection that
    turns the histogram into an embedding is floating point and not part
    of this model. */
module RagEmbedding {
  import opened Common
  import opened Text

  // ------------------------------------------------------- character buckets

  /** `ord(ch) % 256` */
  function Bucket(c: char): nat {
    (c as int) % 256
  }

  /** The bucket of every character, in order. */
  function Codes(s: string): (r: seq<nat>)
    ensures |r| == |s|
  {
    seq(|s|, i requires 0 <= i < |s| => Bucket(s[i]))
  }

  /** The 256 bucket counts after counting the characters of s left to right. */
  function Buckets(s: string): (r: seq<int>)
    ensures |r| == 256
  {
    if s == [] then Zeros(256)
    else
      var before := Buckets(s[..|s| - 1]);
      var b := Bucket(s[|s| - 1]);
      before[b := before[b] + 1]
  }

  /** _char_vector: a fresh 256-entry array, one increment per character of
      the lower-cased text. */
  method CharVector(text: string) returns (vec: array<int>)
    ensures fresh(vec) && vec.Length == 256
    ensures vec[..] == Buckets(LowerStr(text))
  {
    var lowered := LowerStr(text);
    vec := new int[256](_ => 0);
    assert vec[..] == Zeros(256);
    for i := 0 to |lowered|
      invariant vec[..] == Buckets(lowered[..i])
    {
      BucketsStep(lowered, i);
      var b := Bucket(lowered[i]);
      vec[b] := vec[b] + 1;
    }
    assert lowered[..|lowered|] == lowered;
  }

  lemma BucketsStep(s: string, i: nat)
    requires i < |s|
    ensures Buckets(s[..i + 1]) == Buckets(s[..i])[Bucket(s[i]) := Buckets(s[..i])[Bucket(s[i])] + 1]
  {
    assert s[..i + 1][..i] == s[..i];
  }

  /** Each bucket holds the number of characters whose code falls in it. */
  lemma {:induction false} BucketsCount(s: string, b: nat)
    requires b < 256
    ensures Buckets(s)[b] == Count(Codes(s), b)
  {
    if s != [] {
      var init := s[..|s| - 1];
      BucketsCount(init, b);
      assert Codes(s) == Codes(init) + [Bucket(s[|s| - 1])];
      CountSnoc(Codes(init), Bucket(s[|s| - 1]), b);
    }
  }

  /** The bucket counts add up to the number of characters. */
  lemma {:induction false} BucketsSum(s: string)
    ensures SumInt(Buckets(s)) == |s|
  {
    if s == [] {
      SumIntZeros(256);
    } else {
      var before := Buckets(s[..|s| - 1]);
      BucketsSum(s[..|s| - 1]);
      SumIntUpdate(before, Bucket(s[|s| - 1]), before[Bucket(s[|s| - 1])] + 1);
    }
  }

  /** The histogram of `_char_vector` has |text| characters in all. */
  lemma CharVectorTotal(text: string)
    ensures SumInt(Buckets(LowerStr(text))) == |text|
  {
    BucketsSum(LowerStr(text));
  }

  // ------------------------------------------------- entities and relations

  /** The linking verbs, in the order they are tried. */
  const Verbs: seq<string> := ["is", "are", "has", "have"]

  datatype Relation = Relation(subject: string, verb: string, obj: string)

  /** `xs.index(x)`: the first position of x. */
  function IndexOf(xs: seq<string>, x: string): (i: nat)
    requires x in xs
    ensures i < |xs| && xs[i] == x
    ensures forall j :: 0 <= j < i ==> xs[j] != x
  {
    if xs[0] == x then 0 else 1 + IndexOf(xs[1..], x)
  }

  /** The first verb of the list that occurs among the lowered words. */
  function FirstVerb(lowered: seq<string>, verbs: seq<string>): (r: Option<string>)
    ensures r.Some? ==> r.value in verbs && r.value in lowered
    ensures r.None? ==> forall v :: v in verbs ==> v !in lowered
  {
    if verbs == [] then None
    else if verbs[0] in lowered then Some(verbs[0])
    else FirstVerb(lowered, verbs[1..])
  }

  /** Every verb tried before the one found does not occur. */
  lemma {:induction false} FirstVerbEarliest(lowered: seq<string>, verbs: seq<string>, k: nat)
    requires k < |verbs| && FirstVerb(lowered, verbs).Some?
    requires FirstVerb(lowered, verbs).value == verbs[k]
    requires forall j :: 0 <= j < k ==> verbs[j] != verbs[k]
    ensures forall j :: 0 <= j < k ==> verbs[j] !in lowered
  {
    if k > 0 && verbs[0] !in lowered {
      FirstVerbEarliest(lowered, verbs[1..], k - 1);
      forall j | 0 <= j < k ensures verbs[j] !in lowered {
        if j > 0 { assert verbs[1..][j - 1] == verbs[j]; }
      }
    }
  }

  /** `text.strip().split()` */
  function Words(text: string): seq<string> {
    SplitWs(Strip(text))
  }

  /** The relation split at position idx with the given verb, when both
      sides are non-empty. */
  function RelationAt(words: seq<string>, idx: nat, verb: string): (r: seq<Relation>)
    requires idx < |words|
    ensures |r| <= 1
  {
    var subject := Strip(Join(" ", words[..idx]));
    var obj := Strip(Join(" ", words[idx + 1..]));
    if subject != [] && obj != [] then [Relation(subject, verb, obj)] else []
  }

  /** The split at the first verb tried that occurs among the lowered
      words, or no relation. */
  function RelationsOf(words: seq<string>): (r: seq<Relation>)
    ensures |r| <= 1
    ensures forall rel :: rel in r ==> rel.verb in Verbs && rel.subject != [] && rel.obj != []
  {
    var lowered := LowerAll(words);
    match FirstVerb(lowered, Verbs)
    case None => []
    case Some(v) => RelationAt(words, IndexOf(lowered, v), v)
  }

  /** The relations returned for text. */
  function Relations(text: string): seq<Relation> {
    RelationsOf(Words(text))
  }

  /** The entity list before de-duplication. */
  function RawEntities(text: string, relations: seq<Relation>): seq<string> {
    if relations != [] then [relations[0].subject, relations[0].obj]
    else if Strip(text) != [] then [Strip(text)]
    else []
  }

  /** extract_entities_relations */
  function Extracted(text: string): (seq<string>, seq<Relation>) {
    var relations := Relations(text);
    (Dedup(RawEntities(text, relations)), relations)
  }

  /** The order-preserving de-duplication loop with its `seen` set. */
  method DedupLoop(entities: seq<string>) returns (unique: seq<string>)
    ensures unique == Dedup(entities)
  {
    var seen: set<string> := {};
    unique := [];
    for i := 0 to |entities|
      invariant unique == Dedup(entities[..i])
      invariant forall x :: x in seen <==> x in entities[..i]
    {
      assert entities[..i + 1][..i] == entities[..i];
      var ent := entities[i];
      if ent !in seen {
        seen := seen + {ent};
        unique := unique + [ent];
      }
    }
    assert entities[..|entities|] == entities;
  }

  /** The verb loop of extract_entities_relations: try the verbs in order,
      split at the first one present and stop. */
  method SplitAtVerb(words: seq<string>) returns (raw: seq<string>, relations: seq<Relation>)
    ensures relations == RelationsOf(words)
    ensures raw == if relations != [] then [relations[0].subject, relations[0].obj] else []
  {
    var lowered := LowerAll(words);
    raw := [];
    relations := [];
    for k := 0 to |Verbs|
      invariant FirstVerb(lowered, Verbs) == FirstVerb(lowered, Verbs[k..])
      invariant raw == [] && relations == []
    {
      assert Verbs[k..][1..] == Verbs[k + 1..];
      var verb := Verbs[k];
      if verb in lowered {
        var idx := IndexOf(lowered, verb);
        var subject := Strip(Join(" ", words[..idx]));
        var obj := Strip(Join(" ", words[idx + 1..]));
        if subject != [] && obj != [] {
          raw := raw + [subject, obj];
          relations := relations + [Relation(subject, verb, obj)];
        }
        return;
      }
    }
  }

  /** extract_entities_relations: the verb split, the fallback to the whole
      stripped text, then de-duplication. */
  method ExtractEntitiesRelations(text: string) returns (entities: seq<string>, relations: seq<Relation>)
    ensures (entities, relations) == Extracted(text)
  {
    var raw;
    raw, relations := SplitAtVerb(Words(text));
    if raw == [] && Strip(text) != [] {
      raw := [Strip(text)];
    }
    entities := DedupLoop(raw);
  }

  // ------------------------------------------------------------ properties

  /** The entities come out without repeats. */
  lemma {:induction false} DedupDistinct(s: seq<string>)
    ensures Distinct(Dedup(s))
  {
    if s != [] {
      DedupDistinct(s[..|s| - 1]);
    }
  }

  /** Blank text gives neither entities nor relations. */
  lemma BlankText(text: string)
    requires AllSpace(text)
    ensures Extracted(text) == ([], [])
  {
    StripBlank(text);
    assert Strip(text) == [];
    SplitWsBlank(Strip(text));
  }

  /** Without a relation, non-blank text is one entity: the stripped text. */
  lemma NoRelation(text: string)
    requires !AllSpace(text) && Relations(text) == []
    ensures Extracted(text).0 == [Strip(text)]
  {
    StripBlank(text);
    assert Dedup([Strip(text)]) == [Strip(text)] by {
      assert [Strip(text)][..0] == [];
    }
  }

  /** A relation's subject and object are the words before and after the
      first occurrence of its verb, re-joined with single spaces in their
      original casing; the verb is the lower-case list entry. */
  lemma {:induction false} RelationShape(text: string)
    requires Relations(text) != []
    ensures var rel := Relations(text)[0];
      var words := Words(text);
      exists idx :: 0 <= idx < |words|
        && LowerStr(words[idx]) == rel.verb
        && (forall j :: 0 <= j < idx ==> LowerStr(words[j]) != rel.verb)
        && rel.subject == Join(" ", words[..idx])
        && rel.obj == Join(" ", words[idx + 1..])
  {
    var words := Words(text);
    var lowered := LowerAll(words);
    var v := FirstVerb(lowered, Verbs).value;
    var idx := IndexOf(lowered, v);
    WordsShape(text);
    WordsStripped(words, idx);
    var rel := Relations(text)[0];
    assert rel == Relation(Strip(Join(" ", words[..idx])), v, Strip(Join(" ", words[idx + 1..])));
    assert LowerStr(words[idx]) == rel.verb;
    assert forall j :: 0 <= j < idx ==> LowerStr(words[j]) != rel.verb by {
      forall j | 0 <= j < idx ensures LowerStr(words[j]) != v {
        assert lowered[j] == LowerStr(words[j]);
      }
    }
  }

  /** Every word is non-empty with no whitespace at either end. */
  lemma WordsShape(text: string)
    ensures forall k :: 0 <= k < |Words(text)| ==>
      Words(text)[k] != [] && !IsSpace(Words(text)[k][0]) && !IsSpace(Words(text)[k][|Words(text)[k]| - 1])
  {
    SplitWsWords(Strip(text));
  }

  lemma WordsStripped(words: seq<string>, idx: nat)
    requires idx < |words|
    requires forall k :: 0 <= k < |words| ==> words[k] != [] && !IsSpace(words[k][0]) && !IsSpace(words[k][|words[k]| - 1])
    ensures Strip(Join(" ", words[..idx])) == Join(" ", words[..idx])
    ensures Strip(Join(" ", words[idx + 1..])) == Join(" ", words[idx + 1..])
  {
    JoinWordsStripped(words[..idx]);
    JoinWordsStripped(words[idx + 1..]);
  }

  /** The verbs are tried in list order: every verb before the relation's
      verb is absent from the lowered words. */
  lemma VerbOrder(text: string, j: nat)
    requires Relations(text) != []
    requires j < |Verbs| && Verbs[j] == Relations(text)[0].verb
    ensures forall i :: 0 <= i < j ==> Verbs[i] !in LowerAll(Words(text))
  {
    FirstVerbEarliest(LowerAll(Words(text)), Verbs, j);
  }

  /** With a relation, the entities are its subject and object, once each. */
  lemma RelationEntities(text: string)
    requires Relations(text) != []
    ensures var rel := Relations(text)[0];
      Extracted(text).0 == if rel.subject == rel.obj then [rel.subject] else [rel.subject, rel.obj]
  {
    var rel := Relations(text)[0];
    var raw := [rel.subject, rel.obj];
    assert RawEntities(text, Relations(text)) == raw;
    assert raw[..1] == [rel.subject];
    assert [rel.subject][..0] == [];
    assert Dedup([rel.subject]) == [rel.subject];
    assert Dedup(raw) == if rel.obj in [rel.subject] then [rel.subject] else [rel.subject] + [rel.obj];
  }
}
