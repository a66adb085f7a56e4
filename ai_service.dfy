/** `AIService`: builds the prompt, tries the configured models one after the
    other until one yields non-empty text, strips it, and replaces any failure
    by a fixed apology. The g4f library is an oracle `Backend`. */
module AIService {
  import opened Common
  import opened Text

  /** One entry of the OpenAI-format message list. */
  datatype ChatMessage = ChatMessage(role: string, content: string)

  /** What one `g4f.ChatCompletion.create` call yields: a string, an
      exception (its text; a timeout is one), or a value that is not a string. */
  datatype Completion = Answered(text: string) | Raised(error: string) | NotText

  /** The g4f backend, as a function of the model name and the prompt. */
  type Backend = (string, seq<ChatMessage>) -> Completion

  /** "All AI models failed", carrying the last exception seen, if any. */
  datatype GenerationError = AllModelsFailed(last: Option<string>)

  /** `available_models`, in fallback order. */
  const AvailableModels: seq<string> := ["gpt-3.5-turbo", "gpt-4", "gpt-4-turbo"]

  const SystemPrompt: string :=
    "You are a helpful AI assistant in a Telegram bot. \n            Be concise, friendly, and helpful. \n            Keep responses reasonably short for mobile users."

  /** The fixed reply `generate_response` gives when generation fails. */
  const Apology: string :=
    "I apologize, but I'm having trouble processing your request right now. Please try again in a moment. If the problem persists, the administrator has been notified."

  /** The two messages `test_connection` sends. */
  const TestPrompt: seq<ChatMessage> :=
    [ChatMessage("system", "You are a test assistant."), ChatMessage("user", "Say 'Hello' if you're working.")]

  // ---------------------------------------------------------------------------
  // Prompt assembly

  /** The prompt of `generate_response`: the system message, then the history
      as given (nothing for None or an empty list), then the new message as
      a user turn. */
  function BuildPrompt(message: string, history: Option<seq<ChatMessage>>): (p: seq<ChatMessage>)
    ensures |p| == 2 + (if history.Some? then |history.value| else 0)
    ensures p[0] == ChatMessage("system", SystemPrompt)
    ensures p[|p| - 1] == ChatMessage("user", message)
    ensures history.Some? ==> p[1..|p| - 1] == history.value
  {
    [ChatMessage("system", SystemPrompt)]
    + (if history.Some? then history.value else [])
    + [ChatMessage("user", message)]
  }

  // ---------------------------------------------------------------------------
  // Model fallback

  /** `response and isinstance(response, str)`: a non-empty string. */
  predicate Usable(c: Completion) {
    c.Answered? && c.text != ""
  }

  /** The fallback policy of `_call_g4f`, from a given last exception: the
      first usable answer, or failure carrying the last exception raised. */
  function Fallback(models: seq<string>, prompt: seq<ChatMessage>, backend: Backend, last: Option<string>)
    : (r: Result<string, GenerationError>)
    ensures r.Ok? ==> r.value != "" && exists i :: 0 <= i < |models| && backend(models[i], prompt) == Answered(r.value)
    ensures r.Err? ==>
      || r.error.last == last
      || (r.error.last.Some? && exists i :: 0 <= i < |models| && backend(models[i], prompt) == Raised(r.error.last.value))
    decreases |models|
  {
    if models == [] then Err(AllModelsFailed(last))
    else
      match backend(models[0], prompt)
      case Answered(s) => if s != "" then Ok(s) else Fallback(models[1..], prompt, backend, last)
      case NotText => Fallback(models[1..], prompt, backend, last)
      case Raised(e) => Fallback(models[1..], prompt, backend, Some(e))
  }

  /** The position of the first model whose answer is usable, or the number
      of models when there is none. */
  function FirstUsable(models: seq<string>, prompt: seq<ChatMessage>, backend: Backend): (k: nat)
    ensures k <= |models|
    ensures forall j :: 0 <= j < k ==> !Usable(backend(models[j], prompt))
    ensures k < |models| ==> Usable(backend(models[k], prompt))
    decreases |models|
  {
    if models == [] then 0
    else if Usable(backend(models[0], prompt)) then 0
    else 1 + FirstUsable(models[1..], prompt, backend)
  }

  /** The exception raised by the latest model that raised, read from the
      end of the list; `last` when none did. */
  function LastRaised(models: seq<string>, prompt: seq<ChatMessage>, backend: Backend, last: Option<string>): Option<string>
    decreases |models|
  {
    if models == [] then last
    else
      match backend(models[|models| - 1], prompt)
      case Raised(e) => Some(e)
      case _ => LastRaised(models[..|models| - 1], prompt, backend, last)
  }

  lemma {:induction false} LastRaisedCons(m: string, models: seq<string>, prompt: seq<ChatMessage>, backend: Backend, last: Option<string>)
    ensures LastRaised([m] + models, prompt, backend, last)
         == LastRaised(models, prompt, backend, if backend(m, prompt).Raised? then Some(backend(m, prompt).error) else last)
    decreases |models|
  {
    if models != [] {
      var init := models[..|models| - 1];
      assert ([m] + models)[..|models|] == [m] + init;
      LastRaisedCons(m, init, prompt, backend, last);
    }
  }

  /** The fallback returns the answer of the first usable model; when no
      model is usable it fails, carrying the exception of the last model
      that raised. */
  lemma {:induction false} FallbackMeaning(models: seq<string>, prompt: seq<ChatMessage>, backend: Backend, last: Option<string>)
    ensures var k := FirstUsable(models, prompt, backend);
      Fallback(models, prompt, backend, last)
        == if k < |models| then Ok(backend(models[k], prompt).text)
           else Err(AllModelsFailed(LastRaised(models, prompt, backend, last)))
    decreases |models|
  {
    if models != [] {
      var c := backend(models[0], prompt);
      var next := if c.Raised? then Some(c.error) else last;
      FallbackMeaning(models[1..], prompt, backend, next);
      assert [models[0]] + models[1..] == models;
      LastRaisedCons(models[0], models[1..], prompt, backend, last);
    }
  }

  /** `_call_g4f`: tries the models in order, each once, stopping at the
      first usable answer; `attempts` lists the models tried. */
  method CallModels(models: seq<string>, prompt: seq<ChatMessage>, backend: Backend)
    returns (r: Result<string, GenerationError>, attempts: seq<string>)
    ensures r == Fallback(models, prompt, backend, None)
    ensures |attempts| <= |models| && attempts == models[..|attempts|]
    ensures forall j :: 0 <= j < |attempts| - 1 ==> !Usable(backend(attempts[j], prompt))
    ensures r.Ok? ==> attempts != [] && backend(attempts[|attempts| - 1], prompt) == Answered(r.value) && r.value != ""
    ensures r.Err? ==> attempts == models && forall j :: 0 <= j < |models| ==> !Usable(backend(models[j], prompt))
  {
    var last: Option<string> := None;
    attempts := [];
    var i := 0;
    while i < |models|
      invariant 0 <= i <= |models|
      invariant attempts == models[..i]
      invariant forall j :: 0 <= j < i ==> !Usable(backend(models[j], prompt))
      invariant Fallback(models, prompt, backend, None) == Fallback(models[i..], prompt, backend, last)
    {
      var model := models[i];
      attempts := attempts + [model];
      var response := backend(model, prompt);
      match response {
        case Answered(text) =>
          if text != "" {
            return Ok(text), attempts;
          }
        case NotText =>
        case Raised(e) =>
          last := Some(e);
      }
      i := i + 1;
    }
    r := Err(AllModelsFailed(last));
  }

  // ---------------------------------------------------------------------------
  // The pipeline-facing wrapper and the self-test

  /** What `generate_response` returns: the first usable answer stripped of
      surrounding whitespace, or the apology when every model failed. */
  function ResponseFor(message: string, history: Option<seq<ChatMessage>>, backend: Backend): string {
    match Fallback(AvailableModels, BuildPrompt(message, history), backend, None)
    case Ok(text) => Strip(text)
    case Err(_) => Apology
  }

  /** `generate_response`: never raises; any failure becomes the apology. */
  method GenerateResponse(message: string, history: Option<seq<ChatMessage>>, backend: Backend) returns (reply: string)
    ensures reply == ResponseFor(message, history, backend)
    ensures var p := BuildPrompt(message, history);
      && (reply == Apology || exists k :: 0 <= k < |AvailableModels| && Usable(backend(AvailableModels[k], p))
                                          && reply == Strip(backend(AvailableModels[k], p).text))
  {
    var prompt := BuildPrompt(message, history);
    var response, _ := CallModels(AvailableModels, prompt, backend);
    match response
    case Ok(text) =>
      reply := Strip(text);
    case Err(_) =>
      reply := Apology;
  }

  /** The reply is the apology exactly when no model gives a usable answer;
      otherwise it is the first usable answer, stripped. */
  lemma ResponseOutcome(message: string, history: Option<seq<ChatMessage>>, backend: Backend)
    ensures var p := BuildPrompt(message, history);
      var k := FirstUsable(AvailableModels, p, backend);
      && (k == |AvailableModels| ==> ResponseFor(message, history, backend) == Apology)
      && (k < |AvailableModels| ==> ResponseFor(message, history, backend) == Strip(backend(AvailableModels[k], p).text))
  {
    FallbackMeaning(AvailableModels, BuildPrompt(message, history), backend, None);
  }

  /** When the first model fails in any way and the second answers, the
      reply is the second model's answer, stripped. That the third model is
      then never asked is the stopping rule `CallModels` states. */
  lemma SecondModelAnswers(message: string, history: Option<seq<ChatMessage>>, backend: Backend)
    requires var p := BuildPrompt(message, history);
      !Usable(backend(AvailableModels[0], p)) && Usable(backend(AvailableModels[1], p))
    ensures ResponseFor(message, history, backend)
         == Strip(backend(AvailableModels[1], BuildPrompt(message, history)).text)
  {
    ResponseOutcome(message, history, backend);
  }

  /** `test_connection`: true exactly when a model answers and the answer,
      lower-cased, contains "hello"; false whenever the fallback fails. */
  method TestConnection(backend: Backend) returns (ok: bool)
    ensures ok == match Fallback(AvailableModels, TestPrompt, backend, None)
                  case Ok(text) => Contains(Lower(text), "hello")
                  case Err(_) => false
  {
    var response, _ := CallModels(AvailableModels, TestPrompt, backend);
    match response
    case Ok(text) =>
      ok := Contains(Lower(text), "hello");
    case Err(_) =>
      ok := false;
  }

  /** An answer that says "Hello" in any letter case passes the self-test
      when it is the first usable answer. */
  lemma TestConnectionAcceptsHello(backend: Backend, text: string, i: nat)
    requires FirstUsable(AvailableModels, TestPrompt, backend) < |AvailableModels|
    requires backend(AvailableModels[FirstUsable(AvailableModels, TestPrompt, backend)], TestPrompt) == Answered(text)
    requires i + 5 <= |text| && Lower(text[i..i + 5]) == "hello"
    ensures match Fallback(AvailableModels, TestPrompt, backend, None)
            case Ok(t) => Contains(Lower(t), "hello")
            case Err(_) => false
  {
    FallbackMeaning(AvailableModels, TestPrompt, backend, None);
    assert Lower(text)[i..i + 5] == Lower(text[i..i + 5]);
    ContainsAt(Lower(text), "hello", i);
  }
}
