/** The interactive prompt: what one line typed at `You: ` does, and the
    start-up check of the configured provider. */
module Cli {
  import opened Text
  import opened Decoder
  import opened Conversation

  /** What a typed line asks for, decided on the trimmed line. */
  datatype Directive = Blank | Quit | ClearHistory | Question(text: string)

  /** Whether the lower-cased trimmed line is one of the directive words. */
  predicate IsWord(trimmed: string, w: string)
  {
    ToLower(trimmed) == w
  }

  /** The tests of the prompt callback, in their order, on the trimmed
      line. */
  function ParseInput(input: string): Directive
  {
    var trimmed := Trim(input);
    if trimmed == [] then Blank
    else if IsWord(trimmed, "exit") || IsWord(trimmed, "quit") then Quit
    else if IsWord(trimmed, "clear") then ClearHistory
    else Question(trimmed)
  }

  /** A line re-prompts without a request exactly when it is all white
      space (the empty line included). */
  lemma ParseBlank(input: string)
    ensures ParseInput(input) == Blank <==> AllWhiteSpace(input)
  {
    TrimEmptyIffBlank(input);
  }

  /** A line ends the program exactly when, trimmed, it spells `exit` or
      `quit` in any mix of cases. */
  lemma ParseQuit(input: string)
    ensures ParseInput(input) == Quit <==>
      !AllWhiteSpace(input) &&
      (EqualsIgnoringCase(Trim(input), "exit") || EqualsIgnoringCase(Trim(input), "quit"))
  {
    TrimEmptyIffBlank(input);
    LowerMatchesWord(Trim(input), "exit");
    LowerMatchesWord(Trim(input), "quit");
  }

  /** A line empties the history exactly when, trimmed, it spells `clear`
      in any mix of cases. */
  lemma ParseClear(input: string)
    ensures ParseInput(input) == ClearHistory <==> !AllWhiteSpace(input) && EqualsIgnoringCase(Trim(input), "clear")
  {
    TrimEmptyIffBlank(input);
    var t := Trim(input);
    LowerMatchesWord(t, "clear");
    if EqualsIgnoringCase(t, "clear") {
      assert |t| == 5;
      assert ToLower(t) != "exit" && ToLower(t) != "quit";
    }
  }

  /** Any other line is a question, sent trimmed: it is not empty, does
      not start or end with white space, and is none of the directive
      words. */
  lemma ParseQuestion(input: string)
    requires ParseInput(input).Question?
    ensures ParseInput(input).text == Trim(input) != []
    ensures !IsWhiteSpace(Trim(input)[0]) && !IsWhiteSpace(Trim(input)[|Trim(input)| - 1])
    ensures !EqualsIgnoringCase(Trim(input), "exit") && !EqualsIgnoringCase(Trim(input), "quit")
    ensures !EqualsIgnoringCase(Trim(input), "clear")
  {
    var t := Trim(input);
    assert !IsWord(t, "exit") && !IsWord(t, "quit") && !IsWord(t, "clear");
    TrimEdges(input);
    assert !EqualsIgnoringCase(t, "exit") by {
      LowerMatchesWord(t, "exit");
    }
    assert !EqualsIgnoringCase(t, "quit") by {
      LowerMatchesWord(t, "quit");
    }
    assert !EqualsIgnoringCase(t, "clear") by {
      LowerMatchesWord(t, "clear");
    }
  }

  /** What the prompt does next: ask for another line, or end the process
      with an exit code. */
  datatype Action = Reprompt | Exit(code: int)

  /** The prompt callback for one line: `response` is what the request of
      a question would come back with and `ex` the JSON field lookup of the
      provider's format. A failed request is reported and the prompt comes
      back; only `exit` and `quit` end the program. */
  method HandleInput(s: Session, input: string, response: HttpResponse, ex: Extractor)
    returns (action: Action, outcome: Option<Outcome>, shown: seq<Shown>)
    modifies s
    ensures action == (if ParseInput(input) == Quit then Exit(0) else Reprompt)
    ensures ParseInput(input).Question? <==> outcome.Some?
    ensures ParseInput(input) == Blank || ParseInput(input) == Quit ==> s.history == old(s.history)
    ensures ParseInput(input) == ClearHistory ==> s.history == []
    ensures ParseInput(input).Question? ==>
      outcome.value == ExpectedOutcome(s.provider, response, ex) &&
      s.history == AfterExchange(old(s.history), Trim(input), outcome.value)
    ensures !ParseInput(input).Question? ==> shown == []
    ensures ParseInput(input).Question? ==>
      shown == (if outcome.value.Answered? then Display(StreamFragments(FormatOf(s.provider), response.body, ex)) else [])
  {
    var d := ParseInput(input);
    outcome, shown := None, [];
    match d {
      case Blank =>
        action := Reprompt;
      case Quit =>
        action := Exit(0);
      case ClearHistory =>
        s.Clear();
        action := Reprompt;
      case Question(text) =>
        var o;
        o, shown := s.Exchange(text, response, ex);
        outcome := Some(o);
        action := Reprompt;
    }
  }

  /** The key read from `GROQ_API_KEY`; `|| ''` only turns a missing
      variable into the empty key (an empty one is already empty). */
  function GroqApiKey(env: Option<string>): string
  {
    match env
    case Some(k) => k
    case None => []
  }

  /** The value the key is compared with, left by a user who pasted no key. */
  const ApiKeyPlaceholder: string := "YOUR_API_KEY_HERE"

  /** `checkProvider`: for the cloud provider, the key must be set and not
      the placeholder, and no request is made; for the local provider, the
      probe of its tag list must come back with an ok status (a probe that
      throws fails the check), whatever the key. */
  function CheckProvider(provider: Provider, apiKey: string, probe: HttpResponse): (ok: bool)
  {
    match provider
    case Groq => !(apiKey == ApiKeyPlaceholder || apiKey == [])
    case Ollama =>
      match probe
      case Unreachable => false
      case Response(status, _) => IsOk(status)
  }

  /** With the cloud provider the program starts exactly when
      `GROQ_API_KEY` holds some text other than the placeholder, whatever
      the local server would answer. */
  lemma GroqStartsIffKeySet(env: Option<string>, probe: HttpResponse)
    ensures CheckProvider(Groq, GroqApiKey(env), probe) <==>
      env.Some? && env.value != [] && env.value != ApiKeyPlaceholder
  {
  }

  /** With the local provider the program starts exactly when the server
      answers the probe with a 2xx status, whatever the key. */
  lemma OllamaStartsIffServerUp(apiKey: string, probe: HttpResponse)
    ensures CheckProvider(Ollama, apiKey, probe) <==> probe.Response? && 200 <= probe.status < 300
  {
  }
}
