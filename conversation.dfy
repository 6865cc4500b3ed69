/** The conversation state of the chat client: the rolling history of
    messages sent with every request, the request that asking a question
    builds, the outcome of the request, and the recording of the streamed
    reply followed by the cut to the newest ten messages. */
module Conversation {
  import opened Text
  import opened Decoder

  datatype Role = System | User | Assistant
  datatype Message = Message(role: Role, content: string)

  /** Which back end answers: the cloud provider (event stream) or the local
      one (newline-delimited JSON). */
  datatype Provider = Groq | Ollama

  function FormatOf(provider: Provider): Format
  {
    match provider
    case Groq => EventStream
    case Ollama => NdJson
  }

  /** The longest history kept after a reply is recorded. */
  const MaxHistory: nat := 10

  /** `b` ends with `a`. */
  predicate IsSuffix<T(==)>(a: seq<T>, b: seq<T>)
  {
    |a| <= |b| && b[|b| - |a|..] == a
  }

  function Min(a: nat, b: nat): nat
  {
    if a <= b then a else b
  }

  /** `if (history.length > 10) history = history.slice(-10)`: the newest
      ten messages, in their order, or all of them when there are fewer. */
  function Truncate(h: seq<Message>): (r: seq<Message>)
    ensures |r| == Min(|h|, MaxHistory)
    ensures IsSuffix(r, h)
  {
    if |h| > MaxHistory then h[|h| - MaxHistory..] else h
  }

  /** What the fetch of a chat request comes back with: no answer at all
      (connection refused, DNS failure), or a status and a body that arrives
      as a sequence of decoded chunks. */
  datatype HttpResponse = Unreachable | Response(status: int, body: seq<string>)

  /** `response.ok`. */
  predicate IsOk(status: int)
  {
    200 <= status <= 299
  }

  /** The errors a request can raise before any reply is read. */
  datatype Failure =
    | TransportFailure                    // fetch itself threw
    | NullBody                            // `body.getReader()` threw on a null body
    | InvalidApiKey                       // cloud provider answered 401
    | GroqStatus(status: int, text: string)
    | OllamaStatus(status: int)

  /** How a request ends: the reply the stream reader accumulated, or the
      error that `askGroq` / `askOllama` threw. */
  datatype Outcome = Answered(reply: string) | Failed(failure: Failure)

  /** The error a response raises, if any: none for an ok status; for the
      cloud provider a dedicated error on 401 and otherwise the status with
      the body text; for the local provider the status. */
  function RequestFailure(provider: Provider, response: HttpResponse): Option<Failure>
  {
    match response
    case Unreachable => Some(TransportFailure)
    case Response(status, body) =>
      if IsOk(status) then None
      else
        match provider
        case Groq => if status == 401 then Some(InvalidApiKey) else Some(GroqStatus(status, Concat(body)))
        case Ollama => Some(OllamaStatus(status))
  }

  /** A null-body status of the Fetch standard that is also ok: such a
      response has no body to read, so the stream reader throws on it. */
  predicate HasNullBody(status: int)
  {
    status == 204 || status == 205
  }

  /** The outcome of one question: the error of a failed request, the error
      of a stream reader handed a null body, or the reply decoded from the
      whole body in the provider's format. */
  function ExpectedOutcome(provider: Provider, response: HttpResponse, ex: Extractor): Outcome
  {
    match RequestFailure(provider, response)
    case Some(f) => Failed(f)
    case None =>
      if HasNullBody(response.status) then Failed(NullBody)
      else Answered(Reply(FormatOf(provider), response.body, ex))
  }

  /** The history after one question: the question is always appended; a
      reply is appended and the history cut to its newest ten messages only
      when the request succeeded. */
  function AfterExchange(h: seq<Message>, question: string, outcome: Outcome): seq<Message>
  {
    match outcome
    case Answered(reply) => Truncate(h + [Message(User, question), Message(Assistant, reply)])
    case Failed(_) => h + [Message(User, question)]
  }

  /** The messages one question adds before any cut. */
  function ExchangeMessages(question: string, outcome: Outcome): seq<Message>
  {
    match outcome
    case Answered(reply) => [Message(User, question), Message(Assistant, reply)]
    case Failed(_) => [Message(User, question)]
  }

  /** The chat client's module-level state: the provider and system prompt
      it was configured with, and the history array it pushes to, slices and
      empties. */
  class Session {
    const provider: Provider
    const systemPrompt: string
    var history: seq<Message>

    constructor (provider: Provider, systemPrompt: string)
      ensures this.provider == provider && this.systemPrompt == systemPrompt
      ensures history == []
    {
      this.provider := provider;
      this.systemPrompt := systemPrompt;
      history := [];
    }

    /** The message list of a request: the system prompt, never stored in
        the history, followed by the whole history. */
    function RequestMessages(): (r: seq<Message>)
      reads this
      ensures |r| == |history| + 1
      ensures r[0] == Message(System, systemPrompt) && r[1..] == history
    {
      [Message(System, systemPrompt)] + history
    }

    /** `askGroq` / `askOllama`: push the question, send the system prompt
        and the history, and turn a response that is not ok into the error
        the client throws. The question stays in the history whatever the
        response. */
    method Ask(question: string, response: HttpResponse) returns (request: seq<Message>, failure: Option<Failure>)
      modifies this
      ensures history == old(history) + [Message(User, question)]
      ensures request == [Message(System, systemPrompt)] + old(history) + [Message(User, question)]
      ensures request[|request| - 1] == Message(User, question)
      ensures failure == RequestFailure(provider, response)
    {
      history := history + [Message(User, question)];
      request := RequestMessages();
      failure := RequestFailure(provider, response);
    }

    /** The tail of both stream readers: push the reply and keep the newest
        ten messages. */
    method RecordReply(reply: string)
      modifies this
      ensures history == Truncate(old(history) + [Message(Assistant, reply)])
      ensures |history| <= MaxHistory && history[|history| - 1] == Message(Assistant, reply)
    {
      history := history + [Message(Assistant, reply)];
      if |history| > MaxHistory {
        history := history[|history| - MaxHistory..];
      }
    }

    /** `streamGroqResponse`: decode an event-stream body, then record the
        reply. */
    method StreamGroqResponse(chunks: seq<string>, ex: Extractor) returns (full: string, shown: seq<Shown>)
      modifies this
      ensures full == Reply(EventStream, chunks, ex)
      ensures shown == Display(StreamFragments(EventStream, chunks, ex))
      ensures history == Truncate(old(history) + [Message(Assistant, full)])
    {
      full, shown := DecodeEventStream(chunks, ex);
      RecordReply(full);
    }

    /** `streamOllamaResponse`: decode a newline-delimited JSON body, then
        record the reply. */
    method StreamOllamaResponse(chunks: seq<string>, ex: Extractor) returns (full: string, shown: seq<Shown>)
      modifies this
      ensures full == Reply(NdJson, chunks, ex)
      ensures shown == Display(StreamFragments(NdJson, chunks, ex))
      ensures history == Truncate(old(history) + [Message(Assistant, full)])
    {
      full, shown := DecodeNdJson(chunks, ex);
      RecordReply(full);
    }

    /** `ask`: one question, asked of the configured provider, its reply
        streamed when the request succeeded. An ok response with a null
        body makes `body.getReader()` throw before anything is written or
        pushed, so the question is left in the history alone. */
    method Exchange(question: string, response: HttpResponse, ex: Extractor)
      returns (outcome: Outcome, shown: seq<Shown>)
      modifies this
      ensures outcome == ExpectedOutcome(provider, response, ex)
      ensures history == AfterExchange(old(history), question, outcome)
      ensures outcome.Failed? ==> shown == []
      ensures outcome.Answered? ==> shown == Display(StreamFragments(FormatOf(provider), response.body, ex))
    {
      var request, failure := Ask(question, response);
      if failure.Some? {
        outcome, shown := Failed(failure.value), [];
        return;
      }
      if HasNullBody(response.status) {
        outcome, shown := Failed(NullBody), [];
        return;
      }
      var full: string;
      if provider == Groq {
        full, shown := StreamGroqResponse(response.body, ex);
      } else {
        full, shown := StreamOllamaResponse(response.body, ex);
      }
      outcome := Answered(full);
      assert old(history) + [Message(User, question)] + [Message(Assistant, full)]
          == old(history) + [Message(User, question), Message(Assistant, full)];
    }

    /** The `clear` directive. */
    method Clear()
      modifies this
      ensures history == []
    {
      history := [];
    }
  }

  // ---------------------------------------------------------------------
  // The history across many questions

  /** A question asked and how it ended. */
  datatype Turn = Turn(question: string, outcome: Outcome)

  /** The history after a run of questions, starting from `h`. */
  function AfterTurns(h: seq<Message>, turns: seq<Turn>): seq<Message>
    decreases |turns|
  {
    if turns == [] then h
    else AfterTurns(AfterExchange(h, turns[0].question, turns[0].outcome), turns[1..])
  }

  /** Every message a run of questions appends, in order, before any cut. */
  function Transcript(turns: seq<Turn>): seq<Message>
  {
    if turns == [] then []
    else ExchangeMessages(turns[0].question, turns[0].outcome) + Transcript(turns[1..])
  }

  /** The history is the tail of everything appended, and holds at least
      the newest ten messages of it. */
  predicate Retains(h: seq<Message>, all: seq<Message>)
  {
    IsSuffix(h, all) && |h| >= Min(|all|, MaxHistory)
  }

  /** Cutting a tail that is long enough is cutting the whole. */
  lemma {:induction false} TruncateSuffix(h: seq<Message>, all: seq<Message>)
    requires Retains(h, all)
    ensures Truncate(h) == Truncate(all)
  {
    if |all| > MaxHistory {
      assert h[|h| - MaxHistory..] == all[|all| - MaxHistory..];
    } else {
      assert all[0..] == all;
    }
  }

  /** One question keeps the history a long-enough tail of everything
      appended; after an answered question the history is exactly the
      newest ten messages of it. */
  lemma {:induction false} ExchangeRetains(h: seq<Message>, all: seq<Message>, question: string, outcome: Outcome)
    requires Retains(h, all)
    ensures Retains(AfterExchange(h, question, outcome), all + ExchangeMessages(question, outcome))
    ensures outcome.Answered? ==>
      AfterExchange(h, question, outcome) == Truncate(all + ExchangeMessages(question, outcome))
  {
    var added := ExchangeMessages(question, outcome);
    var all' := all + added;
    assert all'[|all'| - |h + added|..] == all[|all| - |h|..] + added;
    TruncateSuffix(h + added, all');
  }

  lemma {:induction false} RunRetains(h: seq<Message>, all: seq<Message>, turns: seq<Turn>)
    requires Retains(h, all)
    ensures Retains(AfterTurns(h, turns), all + Transcript(turns))
    decreases |turns|
  {
    if turns == [] {
      assert all + [] == all;
    } else {
      var t := turns[0];
      ExchangeRetains(h, all, t.question, t.outcome);
      FirstTurn(h, all, turns);
      RunRetains(AfterExchange(h, t.question, t.outcome), all + ExchangeMessages(t.question, t.outcome), turns[1..]);
    }
  }

  /** Peeling the first question off a run. */
  lemma {:induction false} FirstTurn(h: seq<Message>, all: seq<Message>, turns: seq<Turn>)
    requires turns != []
    ensures AfterTurns(h, turns) == AfterTurns(AfterExchange(h, turns[0].question, turns[0].outcome), turns[1..])
    ensures all + Transcript(turns) ==
      (all + ExchangeMessages(turns[0].question, turns[0].outcome)) + Transcript(turns[1..])
  {
    var added := ExchangeMessages(turns[0].question, turns[0].outcome);
    assert Transcript(turns) == added + Transcript(turns[1..]);
  }

  lemma {:induction false} AfterTurnsSnoc(h: seq<Message>, turns: seq<Turn>, t: Turn)
    ensures AfterTurns(h, turns + [t]) == AfterExchange(AfterTurns(h, turns), t.question, t.outcome)
    decreases |turns|
  {
    if turns != [] {
      assert (turns + [t])[1..] == turns[1..] + [t];
      AfterTurnsSnoc(AfterExchange(h, turns[0].question, turns[0].outcome), turns[1..], t);
    } else {
      assert [t][1..] == [];
    }
  }

  lemma {:induction false} TranscriptSnoc(turns: seq<Turn>, t: Turn)
    ensures Transcript(turns + [t]) == Transcript(turns) + ExchangeMessages(t.question, t.outcome)
  {
    if turns != [] {
      assert (turns + [t])[1..] == turns[1..] + [t];
      TranscriptSnoc(turns[1..], t);
    } else {
      assert [t][1..] == [];
    }
  }

  /** After any run of questions from an empty history whose last question
      was answered, the history is exactly the newest ten messages ever
      appended (oldest first), so it holds at most ten. */
  lemma {:induction false} NewestTenAfterAnswer(turns: seq<Turn>)
    requires turns != [] && turns[|turns| - 1].outcome.Answered?
    ensures AfterTurns([], turns) == Truncate(Transcript(turns))
    ensures |AfterTurns([], turns)| <= MaxHistory
  {
    var init, last := turns[..|turns| - 1], turns[|turns| - 1];
    assert turns == init + [last];
    RunRetains([], [], init);
    assert [] + Transcript(init) == Transcript(init);
    ExchangeRetains(AfterTurns([], init), Transcript(init), last.question, last.outcome);
    AfterTurnsSnoc([], init, last);
    TranscriptSnoc(init, last);
  }

  /** Failed questions are never cut: every one of them leaves its question
      in the history, so a run of failures can push it past ten messages
      until the next answered question. */
  lemma {:induction false} FailuresOnlyGrow(h: seq<Message>, turns: seq<Turn>)
    requires forall i :: 0 <= i < |turns| ==> turns[i].outcome.Failed?
    ensures AfterTurns(h, turns) == h + Transcript(turns)
    ensures |AfterTurns(h, turns)| == |h| + |turns|
    decreases |turns|
  {
    if turns == [] {
      assert h + [] == h;
    } else {
      var t := turns[0];
      assert t.outcome.Failed?;
      var h' := h + [Message(User, t.question)];
      assert AfterExchange(h, t.question, t.outcome) == h';
      assert AfterTurns(h, turns) == AfterTurns(h', turns[1..]);
      assert Transcript(turns) == [Message(User, t.question)] + Transcript(turns[1..]);
      FailuresOnlyGrow(h', turns[1..]);
      assert h' + Transcript(turns[1..]) == h + Transcript(turns);
    }
  }
}
