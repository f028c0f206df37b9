/** One turn of the chat page, without its rendering: the user's message is
    recorded, the safety screen may end the turn, and otherwise the
    knowledge base is searched and a reply is generated and recorded. */
module Chat {
  import opened Builtins
  import opened Sanitizer
  import opened Safety
  import opened Engine

  datatype Role = User | Assistant

  /** An entry of st.session_state.messages; `meta` is the "context_used"
      text shown under an assistant reply. */
  datatype Message = Message(role: Role, content: string, meta: Option<string>)

  /** The assistant's opening message. */
  const Greeting: string := "Hello. I am here to listen. How are you feeling?"

  /** The reply when the best match scores below MinScore. It is written in
      pieces only so that facts about its letters stay cheap. */
  const Clarification: string := "I'm listening. " + "Could you " + "clarify that " + "a little bit?"

  /** The context recorded when nothing was generated. */
  const NoContext: string := "None"

  const MinScore: real := 0.20

  /** How much of the previous message's tail joins the search query. */
  const QueryTail: nat := 60

  /** How much of the context is kept in the meta text. */
  const MetaLength: nat := 100

  /** How a turn ends: the safety alert is shown and nothing more happens,
      or a reply is shown with the meta text under it. */
  datatype Outcome = Alerted(alert: string) | Replied(reply: string, meta: string)

  /** The search query, given the messages once the prompt is recorded:
      with more than two messages, the last 60 characters of the message
      before the prompt, a space, and the prompt. */
  function SearchQuery(messages: seq<Message>, prompt: string): (q: string)
    ensures |messages| <= 2 ==> q == prompt
    ensures |messages| > 2 ==>
              var prev := messages[|messages| - 2].content;
              var n := if |prev| < QueryTail then |prev| else QueryTail;
              |q| == n + 1 + |prompt| && q[..n] == prev[|prev| - n..] && q[n..] == " " + prompt
  {
    if |messages| > 2 then TakeLast(messages[|messages| - 2].content, QueryTail) + " " + prompt
    else prompt
  }

  /** {"context_used": clean_context[:100] + "..."} */
  function Meta(context: string): (m: string)
    ensures |m| == (if |context| < MetaLength then |context| else MetaLength) + 3
    ensures m[..|m| - 3] <= context && m[|m| - 3..] == "..."
  {
    Take(context, MetaLength) + "..."
  }

  /** The reply and context of a turn that passed the screen: below
      MinScore the clarification and "None" without any generation,
      otherwise what generate_response returns for the retrieved advice. */
  function Answer(engine: NeuralEngine, query: string, prompt: string,
                  similarity: (string, string) -> real, generate: (string, nat) -> string): (r: (string, string))
    reads engine
    requires engine.Valid()
    ensures VerifyQuality(r.0)
    ensures r.1 == NoContext || exists i :: 0 <= i < |engine.responses| && r.1 == Clean(engine.responses[i])
  {
    var (advice, score) := engine.Retrieve(query, similarity);
    if score < MinScore then
      ClarificationPasses();
      (Clarification, NoContext)
    else
      GeneratedPasses(prompt, advice.value, generate);
      Generated(prompt, advice.value, generate)
  }

  /** One turn as a function of the messages before it: the new messages
      and the outcome. */
  function Respond(messages: seq<Message>, prompt: string, engine: NeuralEngine,
                   similarity: (string, string) -> real, generate: (string, nat) -> string): (r: (seq<Message>, Outcome))
    reads engine
    requires engine.Valid()
    ensures r.1.Alerted? <==> Scan(prompt).Some?
    ensures r.1.Alerted? ==> r.0 == messages + [Message(User, prompt, None)] && r.1.alert == Alert
    ensures r.1.Replied? ==> r.0 == messages + [Message(User, prompt, None), Message(Assistant, r.1.reply, Some(r.1.meta))]
    ensures r.1.Replied? ==>
              var a := Answer(engine, SearchQuery(messages + [Message(User, prompt, None)], prompt), prompt, similarity, generate);
              r.1.reply == a.0 && r.1.meta == Meta(a.1)
  {
    var withPrompt := messages + [Message(User, prompt, None)];
    match Scan(prompt)
    case Some(alert) => (withPrompt, Alerted(alert))
    case None =>
      var a := Answer(engine, SearchQuery(withPrompt, prompt), prompt, similarity, generate);
      (withPrompt + [Message(Assistant, a.0, Some(Meta(a.1)))], Replied(a.0, Meta(a.1)))
  }

  /** st.session_state.messages across the turns of one session. */
  class Session {
    var messages: seq<Message>

    constructor()
      ensures messages == [Message(Assistant, Greeting, None)]
    {
      messages := [Message(Assistant, Greeting, None)];
    }

    /** One turn: record the prompt, stop on an alert, otherwise search,
        answer and record the reply. */
    method Turn(engine: NeuralEngine, prompt: string,
                similarity: (string, string) -> real, generate: (string, nat) -> string)
      returns (outcome: Outcome)
      requires engine.Valid()
      modifies this
      ensures (messages, outcome) == Respond(old(messages), prompt, engine, similarity, generate)
    {
      messages := messages + [Message(User, prompt, None)];
      var alert := Scan(prompt);
      if alert.Some? {
        return Alerted(alert.value);
      }
      var searchQuery := SearchQuery(messages, prompt);
      var finalResponse, cleanContext;
      var (rawAdvice, score) := engine.Retrieve(searchQuery, similarity);
      if score < MinScore {
        finalResponse := Clarification;
        cleanContext := NoContext;
      } else {
        finalResponse, cleanContext := engine.GenerateResponse(prompt, rawAdvice.value, generate);
      }
      var meta := Meta(cleanContext);
      messages := messages + [Message(Assistant, finalResponse, Some(meta))];
      return Replied(finalResponse, meta);
    }
  }

  // -------------------------------------------------------------- lemmas

  /** A turn only appends: the earlier messages stay as they were, and the
      prompt is recorded right after them whatever the outcome. */
  lemma RespondExtends(messages: seq<Message>, prompt: string, engine: NeuralEngine,
                       similarity: (string, string) -> real, generate: (string, nat) -> string)
    requires engine.Valid()
    ensures var r := Respond(messages, prompt, engine, similarity, generate);
            |messages| < |r.0| && r.0[..|messages|] == messages
            && r.0[|messages|] == Message(User, prompt, None)
  {
    var r := Respond(messages, prompt, engine, similarity, generate);
    var user := Message(User, prompt, None);
    if r.1.Alerted? {
      assert r.0 == messages + [user];
    } else {
      assert r.0 == messages + [user, Message(Assistant, r.1.reply, Some(r.1.meta))];
    }
  }

  /** A score that clears the gate comes from a corpus, so there is advice. */
  lemma ClearedScoreHasAdvice(engine: NeuralEngine, query: string, similarity: (string, string) -> real)
    requires engine.Valid()
    requires engine.Retrieve(query, similarity).1 >= MinScore
    ensures engine.Retrieve(query, similarity).0.Some?
  {
  }

  /** Below the gate nothing is generated: the reply is the clarification
      whatever the sampler would say, and the meta text is "None...". */
  lemma LowScoreClarifies(engine: NeuralEngine, query: string, prompt: string,
                          similarity: (string, string) -> real, g1: (string, nat) -> string, g2: (string, nat) -> string)
    requires engine.Valid()
    requires engine.Retrieve(query, similarity).1 < MinScore
    ensures Answer(engine, query, prompt, similarity, g1) == Answer(engine, query, prompt, similarity, g2)
            == (Clarification, NoContext)
    ensures Meta(NoContext) == "None..."
  {
  }

  /** At or above the gate, the reply is generate_response's for the raw
      prompt and the retrieved advice, and the context is that advice cleaned. */
  lemma HighScoreUsesAdvice(engine: NeuralEngine, query: string, prompt: string,
                            similarity: (string, string) -> real, generate: (string, nat) -> string)
    requires engine.Valid()
    requires engine.Retrieve(query, similarity).1 >= MinScore
    ensures var advice := engine.Retrieve(query, similarity).0;
            advice.Some? && Answer(engine, query, prompt, similarity, generate).1 == Clean(advice.value)
            && Answer(engine, query, prompt, similarity, generate) == Generated(prompt, advice.value, generate)
  {
  }

  /** The clarification passes the quality gate too. */
  lemma ClarificationPasses()
    ensures VerifyQuality(Clarification)
  {
    ClarificationPairs();
    ClarificationLacks("instruction", 9);
    ClarificationLacks("houston", 5);
    ClarificationLacks("office", 2);
    PassesWhen(Clarification);
  }

  lemma ClarificationLacks(w: string, k: nat)
    requires k + 1 < |w| && NoFoldedPair(Clarification, w[k], w[k + 1])
    ensures !Contains(Lower(Clarification), w)
  {
    NotContainedByPair(Clarification, w, k);
  }

  /** The clarification never shows "on" or "fi", in any case. */
  lemma ClarificationPairs()
    ensures NoFoldedPair(Clarification, 'o', 'n') && NoFoldedPair(Clarification, 'f', 'i')
  {
    ClarificationPieceON1();
    ClarificationPieceON2();
    ClarificationPieceON3();
    ClarificationPieceON4();
    ClarificationPieceFI1();
    ClarificationPieceFI2();
    ClarificationPieceFI3();
    ClarificationPieceFI4();
    ClarificationPair('o', 'n');
    ClarificationPair('f', 'i');
  }

  /** A pair absent from every piece and from every seam is absent from the clarification. */
  lemma ClarificationPair(x: char, y: char)
    requires NoFoldedPair("I'm listening. ", x, y) && NoFoldedPair("Could you ", x, y)
    requires NoFoldedPair("clarify that ", x, y) && NoFoldedPair("a little bit?", x, y)
    requires x != ' '
    ensures NoFoldedPair(Clarification, x, y)
  {
    var a := "I'm listening. ";
    var b := "Could you ";
    var c := "clarify that ";
    var d := "a little bit?";
    NoFoldedPairConcat(a, b, x, y);
    NoFoldedPairConcat(a + b, c, x, y);
    NoFoldedPairConcat(a + b + c, d, x, y);
  }

  // One lemma per literal piece and letter pair, for the same reason as
  // Engine's FallbackPiece lemmas: each piece alone stays within the
  // solver's budget.
  lemma ClarificationPieceON1()
    ensures NoFoldedPair("I'm listening. ", 'o', 'n')
  {
  }

  lemma ClarificationPieceON2()
    ensures NoFoldedPair("Could you ", 'o', 'n')
  {
  }

  lemma ClarificationPieceON3()
    ensures NoFoldedPair("clarify that ", 'o', 'n')
  {
  }

  lemma ClarificationPieceON4()
    ensures NoFoldedPair("a little bit?", 'o', 'n')
  {
  }

  lemma ClarificationPieceFI1()
    ensures NoFoldedPair("I'm listening. ", 'f', 'i')
  {
  }

  lemma ClarificationPieceFI2()
    ensures NoFoldedPair("Could you ", 'f', 'i')
  {
  }

  lemma ClarificationPieceFI3()
    ensures NoFoldedPair("clarify that ", 'f', 'i')
  {
  }

  lemma ClarificationPieceFI4()
    ensures NoFoldedPair("a little bit?", 'f', 'i')
  {
  }

  /** Every reply a turn shows passes _verify_quality: the clarification
      does, and so does everything generate_response returns. */
  lemma RespondPassesGate(messages: seq<Message>, prompt: string, engine: NeuralEngine,
                          similarity: (string, string) -> real, generate: (string, nat) -> string)
    requires engine.Valid()
    ensures var r := Respond(messages, prompt, engine, similarity, generate);
            r.1.Replied? ==> VerifyQuality(r.1.reply)
  {
  }

  /** A crisis turn records the prompt but no reply, so the next turn's
      search query starts from the tail of that earlier prompt rather than
      from a reply of the assistant. */
  lemma QueryAfterCrisis(messages: seq<Message>, crisis: string, prompt: string, engine: NeuralEngine,
                         similarity: (string, string) -> real, generate: (string, nat) -> string)
    requires engine.Valid()
    requires messages != []
    requires Scan(crisis).Some?
    ensures var after := Respond(messages, crisis, engine, similarity, generate).0;
            SearchQuery(after + [Message(User, prompt, None)], prompt)
              == TakeLast(crisis, QueryTail) + " " + prompt
  {
    var after := Respond(messages, crisis, engine, similarity, generate).0;
    var ms := after + [Message(User, prompt, None)];
    assert ms[|ms| - 2] == Message(User, crisis, None);
  }

  /** After a reply, the next query starts from the tail of that reply. */
  lemma QueryAfterReply(messages: seq<Message>, earlier: string, prompt: string, engine: NeuralEngine,
                        similarity: (string, string) -> real, generate: (string, nat) -> string)
    requires engine.Valid()
    requires Scan(earlier).None?
    ensures var r := Respond(messages, earlier, engine, similarity, generate);
            r.1.Replied?
            && SearchQuery(r.0 + [Message(User, prompt, None)], prompt)
               == TakeLast(r.1.reply, QueryTail) + " " + prompt
  {
    var r := Respond(messages, earlier, engine, similarity, generate);
    var ms := r.0 + [Message(User, prompt, None)];
    assert ms[|ms| - 2] == Message(Assistant, r.1.reply, Some(r.1.meta));
  }

  /** The first turn searches with the prompt alone. */
  lemma FirstQueryIsPrompt(prompt: string)
    ensures SearchQuery([Message(Assistant, Greeting, None), Message(User, prompt, None)], prompt) == prompt
  {
  }
}
