/** NeuralEngine: the knowledge base, the retriever over it, and the guarded
    generator. The sentence encoder and the sequence-to-sequence model are
    outside this model: the encoder's cosine similarity is a parameter
    `similarity(query, corpusText)`, and the sampler is a parameter
    `generate(prompt, attempt)` giving the decoded text of each attempt. */
module Engine {
  import opened Builtins
  import opened Sanitizer

  // ------------------------------------------------------ knowledge base

  /** The `patterns` field of a stored entry: missing, a single string, or a
      list of strings. */
  datatype PatternsField = Absent | Single(text: string) | Several(items: seq<string>)

  /** One knowledge-base entry as json.load returns it; only the two fields
      the engine reads are kept. */
  datatype Entry = Entry(patterns: PatternsField, response: Option<string>)

  /** entry.get('patterns', []), with a bare string wrapped in a list. */
  function PatternList(p: PatternsField): seq<string> {
    match p
    case Absent => []
    case Single(t) => [t]
    case Several(ts) => ts
  }

  /** " ".join(pat_list): the text the encoder embeds for an entry. */
  function CorpusText(e: Entry): (r: string)
    ensures e.patterns.Absent? ==> r == []
    ensures e.patterns.Single? ==> r == e.patterns.text
    ensures e.patterns.Several? && |e.patterns.items| >= 2 ==>
              r == Join(e.patterns.items[..|e.patterns.items| - 1], " ") + " " + e.patterns.items[|e.patterns.items| - 1]
  {
    var parts := PatternList(e.patterns);
    if |parts| >= 2 then
      JoinAppend(parts[..|parts| - 1], parts[|parts| - 1], " ");
      assert parts[..|parts| - 1] + [parts[|parts| - 1]] == parts;
      Join(parts, " ")
    else
      Join(parts, " ")
  }

  /** entry.get('response', ""): a missing response is kept, as "". */
  function ResponseOf(e: Entry): string {
    match e.response
    case None => ""
    case Some(r) => r
  }

  /** The corpus texts of the entries, one per entry, in order. */
  function CorpusTexts(es: seq<Entry>): (r: seq<string>)
    ensures |r| == |es|
    ensures forall i :: 0 <= i < |es| ==> r[i] == CorpusText(es[i])
  {
    if es == [] then [] else CorpusTexts(es[..|es| - 1]) + [CorpusText(es[|es| - 1])]
  }

  /** The responses of the entries, one per entry, in order. */
  function Responses(es: seq<Entry>): (r: seq<string>)
    ensures |r| == |es|
    ensures forall i :: 0 <= i < |es| ==> r[i] == ResponseOf(es[i])
  {
    if es == [] then [] else Responses(es[..|es| - 1]) + [ResponseOf(es[|es| - 1])]
  }

  // ----------------------------------------------------------- retrieval

  /** The cosine scores of a query against each corpus text. */
  function Scores(query: string, corpus: seq<string>, similarity: (string, string) -> real): (r: seq<real>)
    ensures |r| == |corpus|
    ensures forall i :: 0 <= i < |corpus| ==> r[i] == similarity(query, corpus[i])
  {
    seq(|corpus|, i requires 0 <= i < |corpus| => similarity(query, corpus[i]))
  }

  /** scores.argmax(): the first index of a maximal score. */
  function ArgMax(s: seq<real>): (i: nat)
    requires s != []
    ensures i < |s|
    ensures forall j :: 0 <= j < |s| ==> s[j] <= s[i]
    ensures forall j :: 0 <= j < i ==> s[j] < s[i]
  {
    if |s| == 1 then 0
    else
      var k := ArgMax(s[..|s| - 1]);
      assert forall j :: 0 <= j < |s| - 1 ==> s[..|s| - 1][j] == s[j];
      if s[|s| - 1] > s[k] then |s| - 1 else k
  }

  // ---------------------------------------------------------- generation

  /** How many times generate_response samples before it falls back. */
  const Attempts: nat := 2

  /** The reply used when no sample passes the quality gate. It is written
      in pieces only so that facts about its letters stay cheap. */
  const Fallback: string :=
    "I hear you. Could " + "you tell me more " + "about how this is " + "affecting your " + "daily life?"

  /** The prompt given to the generator: the counsellor persona, the user's
      words, the cleaned advice, and the rewriting instructions. */
  function Prompt(userInput: string, cleanAdvice: string): (r: string)
    ensures OccursAt(r, userInput, 51)
    ensures OccursAt(r, cleanAdvice, 73 + |userInput|)
  {
    "Task: You are a helpful AI counselor. \n"
    + "User says: '" + userInput + "'. \n"
    + "Reference Advice: " + cleanAdvice + "\n\n"
    + "Instructions:\n"
    + "1. Answer the user using the Advice.\n"
    + "2. REMOVE any specific locations (like '" + "Houston" + "'), office hours, or doctor names.\n"
    + "3. Expand with an example if possible."
  }

  /** The artifact clean-up applied to every sample: the two prompt labels,
      matched case-sensitively, are replaced by "", then the text is stripped. */
  function Scrub(text: string): (r: string)
    ensures r == [] || (!IsSpace(r[0]) && !IsSpace(r[|r| - 1]))
  {
    Strip(Replace(Replace(text, "Instructions:", ""), "Reference Advice:", ""))
  }

  /** _verify_quality: reject text that still mentions instructions, the
      city or an office (in any case), or that is shorter than 20 characters. */
  predicate VerifyQuality(text: string) {
    var lower := Lower(text);
    !Contains(lower, "instruction")
    && !Contains(lower, "houston") && !Contains(lower, "office")
    && |text| >= 20
  }

  /** The cleaned sample of one attempt. */
  function Candidate(prompt: string, generate: (string, nat) -> string, attempt: nat): string {
    Scrub(generate(prompt, attempt))
  }

  /** The reply of the retry loop from attempt `from` on: the first
      cleaned sample that passes the gate, or Fallback once attempts run out. */
  function FirstAccepted(prompt: string, generate: (string, nat) -> string, from: nat): (r: string)
    ensures r == Fallback || exists a :: from <= a < Attempts && r == Candidate(prompt, generate, a)
    decreases Attempts - from
  {
    if from >= Attempts then Fallback
    else if VerifyQuality(Candidate(prompt, generate, from)) then Candidate(prompt, generate, from)
    else FirstAccepted(prompt, generate, from + 1)
  }

  /** generate_response as a function of its inputs: (reply, cleaned advice). */
  function Generated(userInput: string, dbAdvice: string, generate: (string, nat) -> string): (r: (string, string))
    ensures r.1 == Clean(dbAdvice)
  {
    var cleanAdvice := Clean(dbAdvice);
    (FirstAccepted(Prompt(userInput, cleanAdvice), generate, 0), cleanAdvice)
  }

  // ------------------------------------------------------------- the class

  class NeuralEngine {
    /** db_data: the parsed knowledge base, [] when the file could not be read. */
    var dbData: seq<Entry>
    /** responses, index-aligned with the corpus. */
    var responses: seq<string>
    /** corpus_embeddings: None, or the corpus whose embeddings were taken. */
    var corpus: Option<seq<string>>

    /** The alignment that retrieve relies on. */
    ghost predicate Valid()
      reads this
    {
      corpus.Some? ==> |corpus.value| == |responses| && responses != []
    }

    /** _initialize_models, minus the model loading: `loaded` is the parsed
        file, or None when opening or parsing it raised. */
    constructor(loaded: Option<seq<Entry>>)
      ensures Valid()
      ensures dbData == (if loaded.Some? then loaded.value else [])
      ensures responses == Responses(dbData)
      ensures corpus == (if dbData == [] then None else Some(CorpusTexts(dbData)))
    {
      dbData := if loaded.Some? then loaded.value else [];
      responses := [];
      corpus := None;
      new;
      VectorizeDatabase();
    }

    /** _vectorize_database: one corpus text and one response per entry, in
        order; the embeddings are replaced only when the corpus is non-empty. */
    method VectorizeDatabase()
      modifies this
      ensures dbData == old(dbData)
      ensures responses == Responses(dbData)
      ensures corpus == (if dbData == [] then old(corpus) else Some(CorpusTexts(dbData)))
      ensures dbData != [] ==> Valid()
    {
      var entries := dbData;
      var corpusText: seq<string> := [];
      responses := [];
      for k := 0 to |entries|
        invariant dbData == entries && corpus == old(corpus)
        invariant corpusText == CorpusTexts(entries[..k])
        invariant responses == Responses(entries[..k])
      {
        assert entries[..k + 1][..k] == entries[..k];
        corpusText := corpusText + [CorpusText(entries[k])];
        responses := responses + [ResponseOf(entries[k])];
      }
      assert entries[..|entries|] == entries;
      assert |corpusText| == |entries|;
      if corpusText != [] {
        corpus := Some(corpusText);
      }
    }

    /** retrieve: (None, 0.0) without embeddings; otherwise the response at
        the first index of maximal similarity, with that similarity. */
    function Retrieve(query: string, similarity: (string, string) -> real): (r: (Option<string>, real))
      reads this
      requires Valid()
      ensures corpus.None? ==> r == (None, 0.0)
      ensures corpus.Some? ==>
        exists i :: 0 <= i < |responses|
          && r == (Some(responses[i]), similarity(query, corpus.value[i]))
          && (forall j :: 0 <= j < |responses| ==> similarity(query, corpus.value[j]) <= r.1)
          && (forall j :: 0 <= j < i ==> similarity(query, corpus.value[j]) < r.1)
    {
      match corpus
      case None => (None, 0.0)
      case Some(texts) =>
        var scores := Scores(query, texts, similarity);
        var best := ArgMax(scores);
        (Some(responses[best]), scores[best])
    }

    /** generate_response: clean the advice, then sample at most Attempts
        times, returning the first cleaned sample that passes the gate, or
        Fallback. */
    method GenerateResponse(userInput: string, dbAdvice: string, generate: (string, nat) -> string)
      returns (reply: string, cleanAdvice: string)
      ensures (reply, cleanAdvice) == Generated(userInput, dbAdvice, generate)
    {
      cleanAdvice := Clean(dbAdvice);
      var inputText := Prompt(userInput, cleanAdvice);
      for attempt := 0 to Attempts
        invariant FirstAccepted(inputText, generate, 0) == FirstAccepted(inputText, generate, attempt)
      {
        var response := generate(inputText, attempt);
        response := Scrub(response);
        if VerifyQuality(response) {
          return response, cleanAdvice;
        }
      }
      return Fallback, cleanAdvice;
    }
  }

  // -------------------------------------------------------------- lemmas

  /** The fallback reply passes the quality gate. */
  lemma FallbackPasses()
    ensures VerifyQuality(Fallback)
  {
    FallbackPairs();
    FallbackLacks("instruction", 2);
    FallbackLacks("houston", 3);
    FallbackLacks("office", 2);
    PassesWhen(Fallback);
  }

  lemma FallbackLacks(w: string, k: nat)
    requires k + 1 < |w| && NoFoldedPair(Fallback, w[k], w[k + 1])
    ensures !Contains(Lower(Fallback), w)
  {
    NotContainedByPair(Fallback, w, k);
  }

  /** w occurs at no position of s. */
  ghost predicate Avoids(s: string, w: string) {
    forall i :: !OccursAt(s, w, i)
  }

  /** The gate in terms of positions: a text passes exactly when it has at
      least 20 characters and none of the three words occurs anywhere in its
      lower-cased form. */
  lemma VerifyQualityIff(text: string)
    ensures VerifyQuality(text) <==>
              |text| >= 20 && Avoids(Lower(text), "instruction")
              && Avoids(Lower(text), "houston") && Avoids(Lower(text), "office")
  {
    var lower := Lower(text);
    WordAbsentIff(lower, "instruction");
    WordAbsentIff(lower, "houston");
    WordAbsentIff(lower, "office");
  }

  lemma WordAbsentIff(s: string, w: string)
    ensures !Contains(s, w) <==> Avoids(s, w)
  {
    ContainsIff(s, w);
  }

  /** The gate's three word checks and its length check, one by one. */
  lemma PassesWhen(text: string)
    requires !Contains(Lower(text), "instruction")
    requires !Contains(Lower(text), "houston") && !Contains(Lower(text), "office")
    requires |text| >= 20
    ensures VerifyQuality(text)
  {
  }

  /** The fallback never shows "st" or "fi", in any case. */
  lemma FallbackPairs()
    ensures NoFoldedPair(Fallback, 's', 't') && NoFoldedPair(Fallback, 'f', 'i')
  {
    FallbackPieceST1();
    FallbackPieceST2();
    FallbackPieceST3();
    FallbackPieceST4();
    FallbackPieceST5();
    FallbackPieceFI1();
    FallbackPieceFI2();
    FallbackPieceFI3();
    FallbackPieceFI4();
    FallbackPieceFI5();
    FallbackPair('s', 't');
    FallbackPair('f', 'i');
  }

  /** A pair absent from every piece and from every seam is absent from the fallback. */
  lemma FallbackPair(x: char, y: char)
    requires NoFoldedPair("I hear you. Could ", x, y) && NoFoldedPair("you tell me more ", x, y)
    requires NoFoldedPair("about how this is ", x, y) && NoFoldedPair("affecting your ", x, y)
    requires NoFoldedPair("daily life?", x, y)
    requires x != ' '
    ensures NoFoldedPair(Fallback, x, y)
  {
    var a := "I hear you. Could ";
    var b := "you tell me more ";
    var c := "about how this is ";
    var d := "affecting your ";
    var e := "daily life?";
    NoFoldedPairConcat(a, b, x, y);
    NoFoldedPairConcat(a + b, c, x, y);
    NoFoldedPairConcat(a + b + c, d, x, y);
    NoFoldedPairConcat(a + b + c + d, e, x, y);
  }

  // One lemma per literal piece and letter pair: checked one at a time,
  // each piece stays well within the solver's budget, where the whole
  // fallback text at once does not.
  lemma FallbackPieceST1()
    ensures NoFoldedPair("I hear you. Could ", 's', 't')
  {
  }

  lemma FallbackPieceST2()
    ensures NoFoldedPair("you tell me more ", 's', 't')
  {
  }

  lemma FallbackPieceST3()
    ensures NoFoldedPair("about how this is ", 's', 't')
  {
  }

  lemma FallbackPieceST4()
    ensures NoFoldedPair("affecting your ", 's', 't')
  {
  }

  lemma FallbackPieceST5()
    ensures NoFoldedPair("daily life?", 's', 't')
  {
  }

  lemma FallbackPieceFI1()
    ensures NoFoldedPair("I hear you. Could ", 'f', 'i')
  {
  }

  lemma FallbackPieceFI2()
    ensures NoFoldedPair("you tell me more ", 'f', 'i')
  {
  }

  lemma FallbackPieceFI3()
    ensures NoFoldedPair("about how this is ", 'f', 'i')
  {
  }

  lemma FallbackPieceFI4()
    ensures NoFoldedPair("affecting your ", 'f', 'i')
  {
  }

  lemma FallbackPieceFI5()
    ensures NoFoldedPair("daily life?", 'f', 'i')
  {
  }

  /** The retry loop's reply always passes the gate: either a sample passed,
      or the fallback, which passes, was used. */
  lemma {:induction false} FirstAcceptedPasses(prompt: string, generate: (string, nat) -> string, from: nat)
    ensures VerifyQuality(FirstAccepted(prompt, generate, from))
    decreases Attempts - from
  {
    if from >= Attempts {
      FallbackPasses();
    } else if !VerifyQuality(Candidate(prompt, generate, from)) {
      FirstAcceptedPasses(prompt, generate, from + 1);
    }
  }

  /** Every reply generate_response returns passes _verify_quality. */
  lemma GeneratedPasses(userInput: string, dbAdvice: string, generate: (string, nat) -> string)
    ensures VerifyQuality(Generated(userInput, dbAdvice, generate).0)
  {
    FirstAcceptedPasses(Prompt(userInput, Clean(dbAdvice)), generate, 0);
  }

  /** The reply is the first sample that passes, and the fallback exactly
      when none of the samples passes. */
  lemma GeneratedIsFirstPassing(userInput: string, dbAdvice: string, generate: (string, nat) -> string)
    ensures var p := Prompt(userInput, Clean(dbAdvice));
            var r := Generated(userInput, dbAdvice, generate).0;
            (VerifyQuality(Candidate(p, generate, 0)) ==> r == Candidate(p, generate, 0))
            && (!VerifyQuality(Candidate(p, generate, 0)) && VerifyQuality(Candidate(p, generate, 1))
                ==> r == Candidate(p, generate, 1))
            && (!VerifyQuality(Candidate(p, generate, 0)) && !VerifyQuality(Candidate(p, generate, 1))
                ==> r == Fallback)
  {
  }

  /** Only the first Attempts samples matter, and only the first when it
      passes: two samplers that agree on those give the same reply. */
  lemma GeneratedUsesAtMostTwoSamples(userInput: string, dbAdvice: string, g1: (string, nat) -> string, g2: (string, nat) -> string)
    requires var p := Prompt(userInput, Clean(dbAdvice));
             g1(p, 0) == g2(p, 0)
             && (VerifyQuality(Candidate(p, g1, 0)) || g1(p, 1) == g2(p, 1))
    ensures Generated(userInput, dbAdvice, g1) == Generated(userInput, dbAdvice, g2)
  {
  }

  /** An accepted reply cannot hold the "Instructions:" label in any case. */
  lemma AcceptedHasNoInstructions(text: string)
    requires VerifyQuality(text)
    ensures !Contains(Lower(text), "instructions:")
  {
    if Contains(Lower(text), "instructions:") {
      assert Contains("instructions:", "instruction");
      ContainsTransitive(Lower(text), "instructions:", "instruction");
    }
  }

  /** The engine's own prompt would fail the gate: it names the city. */
  lemma PromptFailsGate(userInput: string, cleanAdvice: string)
    ensures !VerifyQuality(Prompt(userInput, cleanAdvice))
  {
    var head := "Task: You are a helpful AI counselor. \n"
      + "User says: '" + userInput + "'. \n"
      + "Reference Advice: " + cleanAdvice + "\n\n"
      + "Instructions:\n"
      + "1. Answer the user using the Advice.\n"
      + "2. REMOVE any specific locations (like '";
    var last := "'), office hours, or doctor names.\n" + "3. Expand with an example if possible.";
    assert Prompt(userInput, cleanAdvice) == head + "Houston" + last;
    CityFolds();
    LowerAppend(head + "Houston", last);
    LowerAppend(head, "Houston");
    ContainsWithin(Lower(head), Lower("Houston"), Lower(last), "houston");
  }

  lemma CityFolds()
    ensures Contains(Lower("Houston"), "houston")
  {
    assert Lower("Houston") == "houston";
    assert OccursAt("houston", "houston", 0);
    ContainsIff("houston", "houston");
  }

  /** A vectorized knowledge base answers each query with one of its own
      responses. */
  lemma RetrievedIsStored(e: NeuralEngine, query: string, similarity: (string, string) -> real)
    requires e.Valid() && e.responses == Responses(e.dbData)
    ensures var r := e.Retrieve(query, similarity);
            r.0.Some? ==> exists i :: 0 <= i < |e.dbData| && r.0.value == ResponseOf(e.dbData[i])
  {
  }
}
