/** The provider adapters: which chat client a model name routes to, and the
    record `[i, content, j, text.strip()]` every adapter returns. The
    providers themselves are a parameter: `backend` gives the raw reply text
    for a call. */
module Providers {
  import opened Text
  import opened Records

  /** The chat-completions clients `get_response_t` chooses between. */
  datatype Client = GptClient | GrokClient | TogetherClient

  /** A request as it reaches a provider. The Gemini model is fixed when
      the client is built and its call carries only the content. */
  datatype Call =
    | Chat(client: Client, model: string, maxTokens: int, temperature: real, content: string)
    | GeminiCall(content: string)
    | ClaudeCall(model: string, maxTokens: int, temperature: real, content: string)

  /** The raw reply text for each call. */
  type Backend = Call -> string

  const DefaultModel: string := "gpt-4o-mini"
  const DefaultMaxTokens: int := 200

  /** The client chosen by substring test: "gpt" first, then "grok". */
  function ChooseClient(model: string): Client {
    if Contains(model, "gpt") then GptClient
    else if Contains(model, "grok") then GrokClient
    else TogetherClient
  }

  /** Routing by occurrence: a name with "gpt" anywhere goes to the GPT
      client (whatever else it holds); one with "grok" and no "gpt" goes to
      Grok; every other name goes to Together. */
  lemma ChooseClientSpec(model: string)
    ensures ChooseClient(model) == GptClient <==> exists k :: InfixAt(model, "gpt", k)
    ensures ChooseClient(model) == GrokClient <==>
      (!exists k :: InfixAt(model, "gpt", k)) && exists k :: InfixAt(model, "grok", k)
    ensures ChooseClient(model) == TogetherClient <==>
      (!exists k :: InfixAt(model, "gpt", k)) && !exists k :: InfixAt(model, "grok", k)
  {
    ContainsIff(model, "gpt");
    ContainsIff(model, "grok");
  }

  /** The default model routes to GPT, and a name holding both keys goes
      to GPT as well: the "gpt" test comes first. */
  lemma ChooseClientExamples()
    ensures ChooseClient(DefaultModel) == GptClient
    ensures ChooseClient("grok-gpt") == GptClient
  {
    assert InfixAt(DefaultModel, "gpt", 0);
    assert InfixAt("grok-gpt", "gpt", 5);
    ChooseClientSpec(DefaultModel);
    ChooseClientSpec("grok-gpt");
  }

  /** `get_response_t`: the chosen client is called with the model, the
      token limit and the temperature. */
  function ResponseT(content: string, i: int, j: int, model: string, maxTokens: int,
                     temperature: real, backend: Backend): Record {
    Record(i, content, j, Strip(backend(Chat(ChooseClient(model), model, maxTokens, temperature, content))))
  }

  /** `get_response_gemini`: the fixed Gemini client is called with the
      content alone. */
  function ResponseGemini(content: string, i: int, j: int, model: string, maxTokens: int,
                          temperature: real, backend: Backend): Record {
    Record(i, content, j, Strip(backend(GeminiCall(content))))
  }

  /** `get_response_claude`. */
  function ResponseClaude(content: string, i: int, j: int, model: string, maxTokens: int,
                          temperature: real, backend: Backend): Record {
    Record(i, content, j, Strip(backend(ClaudeCall(model, maxTokens, temperature, content))))
  }

  /** The request text of the batch script's `get_response_t`. */
  function Tagged(content: string): string {
    "<statement>" + content + "</statement>"
  }

  /** The batch script's `get_response_t`: the caller passes the client,
      the request wraps the statement in tags, the token limit is fixed at
      200, and the record keeps the bare statement. */
  function TaggedResponseT(client: Client, content: string, i: int, j: int, model: string,
                           temperature: real, backend: Backend): Record {
    Record(i, content, j, Strip(backend(Chat(client, model, DefaultMaxTokens, temperature, Tagged(content)))))
  }

  /** The tags can be taken off again: different statements make
      different requests, and the request is never the bare statement. */
  lemma TaggedInjective(a: string, b: string)
    ensures Tagged(a) == Tagged(b) <==> a == b
    ensures Tagged(a) != a
  {
    if Tagged(a) == Tagged(b) {
      var n := |"<statement>"|;
      assert |a| == |b|;
      assert a == Tagged(a)[n..n + |a|];
      assert b == Tagged(b)[n..n + |b|];
    }
    assert |Tagged(a)| > |a|;
  }

  /** What an adapter returns for a reply: the question number, the content
      and the iteration unchanged, and the reply with its surrounding
      whitespace removed. */
  ghost predicate AdapterRecord(r: Record, content: string, i: int, j: int, reply: string) {
    && r.num == i && r.question == content && r.iteration == j
    && Trimmed(r.answer) && |r.answer| <= |reply|
    && forall w1, t, w2 :: reply == w1 + t + w2 && AllSpace(w1) && AllSpace(w2) && Trimmed(t) ==> r.answer == t
  }

  /** Every adapter passes `i`, `content` and `j` through and returns the
      trimmed core of its reply: a reply padded with whitespace around a
      trimmed text yields exactly that text. */
  lemma AdaptersRecord(content: string, i: int, j: int, model: string, maxTokens: int,
                       temperature: real, backend: Backend)
    ensures AdapterRecord(ResponseT(content, i, j, model, maxTokens, temperature, backend), content, i, j,
      backend(Chat(ChooseClient(model), model, maxTokens, temperature, content)))
    ensures AdapterRecord(ResponseGemini(content, i, j, model, maxTokens, temperature, backend), content, i, j,
      backend(GeminiCall(content)))
    ensures AdapterRecord(ResponseClaude(content, i, j, model, maxTokens, temperature, backend), content, i, j,
      backend(ClaudeCall(model, maxTokens, temperature, content)))
    ensures forall c :: AdapterRecord(TaggedResponseT(c, content, i, j, model, temperature, backend), content, i, j,
      backend(Chat(c, model, DefaultMaxTokens, temperature, Tagged(content))))
  {
    forall c ensures AdapterRecord(TaggedResponseT(c, content, i, j, model, temperature, backend), content, i, j,
      backend(Chat(c, model, DefaultMaxTokens, temperature, Tagged(content))))
    {
      StripAdapter(backend(Chat(c, model, DefaultMaxTokens, temperature, Tagged(content))));
    }
    StripAdapter(backend(Chat(ChooseClient(model), model, maxTokens, temperature, content)));
    StripAdapter(backend(GeminiCall(content)));
    StripAdapter(backend(ClaudeCall(model, maxTokens, temperature, content)));
  }

  lemma StripAdapter(reply: string)
    ensures forall w1, t, w2 :: reply == w1 + t + w2 && AllSpace(w1) && AllSpace(w2) && Trimmed(t) ==> Strip(reply) == t
  {
    forall w1, t, w2 | reply == w1 + t + w2 && AllSpace(w1) && AllSpace(w2) && Trimmed(t)
      ensures Strip(reply) == t
    {
      StripPadded(w1, t, w2);
    }
  }

  /** An adapter answering a request yields the record `Answered` builds
      for that request, with the stripped reply as the answer. */
  lemma AdapterAnswersTask(t: Task, model: string, maxTokens: int, temperature: real, backend: Backend)
    ensures ResponseT(t.question, t.num, t.iteration, model, maxTokens, temperature, backend) ==
      Answered(t, Strip(backend(Chat(ChooseClient(model), model, maxTokens, temperature, t.question))))
    ensures ResponseGemini(t.question, t.num, t.iteration, model, maxTokens, temperature, backend) ==
      Answered(t, Strip(backend(GeminiCall(t.question))))
  {
  }

  /** The Gemini adapter's answer does not depend on its model, token or
      temperature arguments, while the other two adapters forward them. */
  lemma GeminiIgnoresSettings(content: string, i: int, j: int, m1: string, n1: int, t1: real,
                              m2: string, n2: int, t2: real, backend: Backend)
    ensures ResponseGemini(content, i, j, m1, n1, t1, backend) == ResponseGemini(content, i, j, m2, n2, t2, backend)
    ensures (m1, n1, t1) != (m2, n2, t2) ==>
      ClaudeCall(m1, n1, t1, content) != ClaudeCall(m2, n2, t2, content) &&
      Chat(ChooseClient(m1), m1, n1, t1, content) != Chat(ChooseClient(m2), m2, n2, t2, content)
  {
  }
}
