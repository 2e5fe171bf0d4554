/**
 * The `create_component` endpoint: the chat request it sends and the mapping from
 * the completion's outcome to the HTTP response.
 * The chat-completion call itself is a parameter: a function from the request to
 * a completion outcome, so one request makes exactly one call.
 */
module Messages {
  import opened Wrappers
  import opened Text
  import opened JsonBlock
  import opened Extract
  import opened Prompt

  // ---------------------------------------------------------------------------
  // The chat request and its outcome

  /** The system message sent before the prompt. */
  const SystemInstruction: string :=
    "You are a senior front-end engineer. Always respond with a JSON object matching the provided schema."

  /** The model used when the `MODEL` environment variable is not set. */
  const DefaultModel: string := "gpt-4o-mini"

  /** The sampling temperature of every request. */
  const Temperature: real := 0.2

  /** The arguments of `client.chat.completions.create`. */
  datatype ChatRequest = ChatRequest(model: string, system: string, user: string, temperature: real)

  /** What the completion call produced: an exception, or the reply's choices,
      each carrying its message content (which may be `None`). */
  datatype Completion =
    | CallFailed(reason: string)
    | Completed(choices: seq<Option<string>>)

  /** The endpoint's answer: a plain-text body (status 200) or an HTTPException. */
  datatype Response =
    | PlainText(body: string)
    | HttpError(status: int, detail: string)

  /** `os.getenv("MODEL", "gpt-4o-mini")`: a set variable wins even when empty. */
  function ModelName(env: Option<string>): (name: string)
    ensures env.None? ==> name == DefaultModel
    ensures env.Some? ==> name == env.value
  {
    env.GetOr(DefaultModel)
  }

  /** The one request the handler sends, its prompt filled from `tpl`. */
  function BuildRequest(tpl: Template, message: string, schema: string, modelEnv: Option<string>): (r: ChatRequest)
    ensures r.system == SystemInstruction && r.temperature == 0.2
    ensures r.model == ModelName(modelEnv)
    ensures OccursAt(r.user, message, |tpl.head|)
    ensures OccursAt(r.user, schema, |tpl.head| + |message| + |tpl.middle|)
  {
    ChatRequest(ModelName(modelEnv), SystemInstruction, Fill(tpl, message, schema), Temperature)
  }

  /** Steps 2-3 of the handler (lines 94-99): the first choice's content,
      extracted, parsed and validated. */
  function Interpret(choices: seq<Option<string>>, loads: string -> Option<Json>): Result<ComponentResponse, ParseError> {
    if |choices| == 0 then Failure(NoChoices)
    else
      match ExtractPayload(choices[0], loads)
      case None => Failure(InvalidJson)
      case Some(j) => Validate(j)
  }

  /** A description of a parse failure, the `{exc}` part of the 500 detail. */
  function Describe(e: ParseError): string {
    match e
    case NoChoices => "list index out of range"
    case InvalidJson => "invalid JSON"
    case NotAnObject => "payload is not an object"
    case MissingField(f) => f + ": field required"
    case NotAString(f) => f + ": input should be a valid string"
  }

  const UpstreamPrefix: string := "LLM request failed: "
  const ParsePrefix: string := "Unable to parse LLM response: "

  /** Lines 91-101: the response made from the completion call's outcome. */
  function Respond(reply: Completion, loads: string -> Option<Json>): Response {
    match reply
    case CallFailed(reason) => HttpError(502, UpstreamPrefix + reason)
    case Completed(choices) =>
      match Interpret(choices, loads)
      case Success(record) => PlainText(record.html)
      case Failure(e) => HttpError(500, ParsePrefix + Describe(e))
  }

  /** The handler over any prompt template: one call, then `Respond`. */
  function CreateComponentWith(
    tpl: Template,
    message: string,
    schema: string,
    modelEnv: Option<string>,
    complete: ChatRequest -> Completion,
    loads: string -> Option<Json>
  ): Response {
    Respond(complete(BuildRequest(tpl, message, schema, modelEnv)), loads)
  }

  /** `create_component(payload)`: the handler with the source's prompt. */
  function CreateComponent(
    message: string,
    schema: string,
    modelEnv: Option<string>,
    complete: ChatRequest -> Completion,
    loads: string -> Option<Json>
  ): Response {
    CreateComponentWith(SourceTemplate, message, schema, modelEnv, complete, loads)
  }

  /** The reply content the handler parses: the first choice's, when there is one. */
  ghost predicate ParsesToRecord(reply: Completion, loads: string -> Option<Json>) {
    && reply.Completed?
    && |reply.choices| > 0
    && var parsed := loads(Candidate(reply.choices[0]));
       && parsed.Some?
       && HasStringField(parsed.value, "component_name")
       && HasStringField(parsed.value, "summary")
       && HasStringField(parsed.value, "html")
  }

  /** The status mapping of lines 91-101: an upstream failure is 502 with the
      failure's text, any failure after the call is 500, and success is exactly
      the `html` string of the parsed reply. */
  lemma HandlerOutcome(reply: Completion, loads: string -> Option<Json>)
    ensures var r := Respond(reply, loads);
            && (reply.CallFailed? ==> r == HttpError(502, UpstreamPrefix + reply.reason))
            && (reply.Completed? && !ParsesToRecord(reply, loads) ==> r.HttpError? && r.status == 500)
            && (r.PlainText? <==> ParsesToRecord(reply, loads))
            && (r.PlainText? ==> r.body == loads(Candidate(reply.choices[0])).value.members["html"].s)
            && (r.HttpError? ==> r.status == 500 || r.status == 502)
  {
    if reply.Completed? && |reply.choices| > 0 {
      var parsed := loads(Candidate(reply.choices[0]));
      if parsed.Some? {
        ValidateSpec(parsed.value);
      }
    }
  }

  /** A reply with no choices is a 500 and never a default record. */
  lemma NoUsableChoiceIs500(loads: string -> Option<Json>)
    ensures Respond(Completed([]), loads) == HttpError(500, ParsePrefix + Describe(NoChoices))
  {
  }

  /** The handler's answer is the mapping of `HandlerOutcome` applied to the one
      completion it requests, whatever the prompt template. */
  lemma CreateComponentOutcome(
    tpl: Template,
    message: string,
    schema: string,
    modelEnv: Option<string>,
    complete: ChatRequest -> Completion,
    loads: string -> Option<Json>
  )
    ensures var reply := complete(BuildRequest(tpl, message, schema, modelEnv));
            var r := CreateComponentWith(tpl, message, schema, modelEnv, complete, loads);
            && (reply.CallFailed? ==> r == HttpError(502, UpstreamPrefix + reply.reason))
            && (r.PlainText? <==> ParsesToRecord(reply, loads))
            && (r.HttpError? ==> r.status == 500 || r.status == 502)
  {
    HandlerOutcome(complete(BuildRequest(tpl, message, schema, modelEnv)), loads);
  }

  /** End to end: a reply made of prose and one ```json block holding the
      serialised record yields exactly the record's html, later text ignored. */
  lemma FencedReplyServed(
    loads: string -> Option<Json>,
    pre: string, inner: string, post: string,
    rest: seq<Option<string>>,
    record: ComponentResponse
  )
    requires '`' !in pre && '`' !in inner
    requires NoCurlyQuotes(inner)
    requires loads("{" + inner + "}") == Some(ToJson(record))
    ensures Respond(Completed([Some(FencedReply(pre, inner, post))] + rest), loads) == PlainText(record.html)
  {
    FencedCandidate(pre, inner, post);
    ValidateToJson(record, map[]);
    assert map[] + ToJson(record).members == ToJson(record).members;
  }

  /** The candidate of such a reply is its braced body, untouched. */
  lemma FencedCandidate(pre: string, inner: string, post: string)
    requires '`' !in pre && '`' !in inner
    requires NoCurlyQuotes(inner)
    ensures Candidate(Some(FencedReply(pre, inner, post))) == "{" + inner + "}"
  {
    var t := FencedReply(pre, inner, post);
    var m := Match(|pre|, |pre| + 8, |pre| + 9 + |inner|);
    FencedReplyMatch(pre, inner, post);
    var body := Group(t, m);
    assert body == "{" + inner + "}";
    CandidateIsGroup(Some(t), m);
    StraightBodyUnchanged(body);
  }

  /** Normalising a braced text without curly quotes leaves it unchanged. */
  lemma StraightBodyUnchanged(body: string)
    requires |body| >= 2 && body[0] == '{' && body[|body| - 1] == '}'
    requires NoCurlyQuotes(body)
    ensures Normalize(body) == body
  {
    StripStripped(body);
    var c := Normalize(body);
    forall k | 0 <= k < |c| ensures c[k] == body[k] {
      assert body[k] != LeftQuote && body[k] != RightQuote;
    }
  }
}
