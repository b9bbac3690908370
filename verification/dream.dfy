/** The dialogue simulation of dream_mode.py: prompts and responses come
    from a data file, or from built-in defaults when the file or a key is
    missing, and a dialogue alternates a random prompt with a random
    response. Reading and parsing the file is outside the model: the
    parsed document is given, None standing for a missing file. The random
    choices are left open. */
module DreamMode {
  import opened Common

  /** A parsed data document: lists of lines by key. */
  type Document = map<string, seq<string>>

  const DefaultPrompts: seq<string> :=
    ["describe a surreal landscape",
     "share a quirky dream snippet",
     "what would clouds say if they could speak?"]

  const DefaultResponses: seq<string> :=
    ["In dreams, the impossible folds into reality.",
     "I wandered through a maze of luminous equations.",
     "Clouds might whisper secrets about changing shapes."]

  /** _load_dialogue_data: each list from the document when it has the key,
      otherwise the default; both defaults without a document. */
  function LoadDialogueData(doc: Option<Document>): (r: (seq<string>, seq<string>))
    ensures doc.None? ==> r == (DefaultPrompts, DefaultResponses)
    ensures doc.Some? && "prompts" in doc.value ==> r.0 == doc.value["prompts"]
    ensures doc.Some? && "prompts" !in doc.value ==> r.0 == DefaultPrompts
    ensures doc.Some? && "responses" in doc.value ==> r.1 == doc.value["responses"]
    ensures doc.Some? && "responses" !in doc.value ==> r.1 == DefaultResponses
  {
    match doc
    case None => (DefaultPrompts, DefaultResponses)
    case Some(d) =>
      (if "prompts" in d then d["prompts"] else DefaultPrompts,
       if "responses" in d then d["responses"] else DefaultResponses)
  }

  /** A dialogue of `turns` turns: a prompt at every even position and a
      response at every odd one. */
  predicate Alternates(dialogue: seq<string>, prompts: seq<string>, responses: seq<string>, turns: int) {
    |dialogue| == 2 * Max(turns, 0)
    && (forall k :: 0 <= k < |dialogue| && k % 2 == 0 ==> dialogue[k] in prompts)
    && (forall k :: 0 <= k < |dialogue| && k % 2 == 1 ==> dialogue[k] in responses)
  }

  /** _simulate_dialogue: `turns` rounds of a random prompt followed by a
      random response, from the loaded data. */
  method SimulateDialogue(turns: int, doc: Option<Document>) returns (r: Result<seq<string>>)
    ensures r.Err? <==> turns > 0 && (LoadDialogueData(doc).0 == [] || LoadDialogueData(doc).1 == [])
    ensures r.Err? ==> r.error == IndexError
    ensures r.Ok? ==> Alternates(r.value, LoadDialogueData(doc).0, LoadDialogueData(doc).1, turns)
  {
    var data := LoadDialogueData(doc);
    r := Simulate(turns, data.0, data.1);
  }

  /** The loop of _simulate_dialogue; random.choice on an empty list raises
      IndexError, which happens exactly when there is a turn and a list is
      empty. */
  method Simulate(turns: int, prompts: seq<string>, responses: seq<string>) returns (r: Result<seq<string>>)
    ensures r.Err? <==> turns > 0 && (prompts == [] || responses == [])
    ensures r.Err? ==> r.error == IndexError
    ensures r.Ok? ==> Alternates(r.value, prompts, responses, turns)
  {
    var dialogue: seq<string> := [];
    var t := 0;
    while t < turns
      invariant 0 <= t <= Max(turns, 0)
      invariant Alternates(dialogue, prompts, responses, t)
    {
      if prompts == [] {
        return Err(IndexError);
      }
      assert prompts[0] in prompts;
      var p :| p in prompts;
      dialogue := dialogue + [p];
      if responses == [] {
        return Err(IndexError);
      }
      assert responses[0] in responses;
      var q :| q in responses;
      dialogue := dialogue + [q];
      t := t + 1;
    }
    if turns > 0 {
      assert prompts != [] && responses != [] by {
        assert dialogue[0] in prompts && dialogue[1] in responses;
      }
    }
    r := Ok(dialogue);
  }

  /** A data file holding one prompt and one response yields exactly that
      exchange for one turn. */
  method ExternalData() returns (r: Result<seq<string>>)
    ensures r == Ok(["hi", "bye"])
  {
    r := SimulateDialogue(1, Some(map["prompts" := ["hi"], "responses" := ["bye"]]));
    assert r.value[0] in ["hi"] && r.value[1] in ["bye"];
    assert r.value == ["hi", "bye"];
  }
}
