/**
 * `_extract_json_payload` and the record check that follows it in
 * `create_component`: choose the candidate text, normalise it, hand it to
 * `json.loads`, and validate the three string fields of `LLMComponentResponse`.
 * `json.loads` is library code and is a parameter of the model: a partial
 * function from text to a JSON value.
 */
module Extract {
  import opened Wrappers
  import opened Text
  import opened JsonBlock

  /** U+201C and U+201D, the curly double quotes models emit. */
  const LeftQuote: char := '\U{201C}'
  const RightQuote: char := '\U{201D}'

  /** A JSON value as `json.loads` returns it. Numbers keep their literal text;
      an object is a Python dict, so a repeated key has already collapsed. */
  datatype Json =
    | JNull
    | JBool(b: bool)
    | JNumber(literal: string)
    | JString(s: string)
    | JArray(items: seq<Json>)
    | JObject(members: map<string, Json>)

  /** `LLMComponentResponse`: the three required string fields. */
  datatype ComponentResponse = ComponentResponse(componentName: string, summary: string, html: string)

  /** Why turning the model's reply into a ComponentResponse failed. */
  datatype ParseError =
    | NoChoices
    | InvalidJson
    | NotAnObject
    | MissingField(field: string)
    | NotAString(field: string)

  /** Neither curly quote occurs in s. */
  predicate NoCurlyQuotes(s: string) {
    LeftQuote !in s && RightQuote !in s
  }

  /** A single character as the normalisation leaves it. */
  function StraightQuote(c: char): char {
    if c == LeftQuote || c == RightQuote then '"' else c
  }

  /** `candidate.strip()` followed by the two `replace` calls (lines 117-118). */
  function Normalize(s: string): (r: string)
    ensures NoCurlyQuotes(r)
    ensures IsStripped(r)
    ensures |r| == |Strip(s)|
    ensures forall k :: 0 <= k < |r| ==> r[k] == StraightQuote(Strip(s)[k])
  {
    ReplaceChar(ReplaceChar(Strip(s), LeftQuote, '"'), RightQuote, '"')
  }

  /** Normalising a normalised candidate changes nothing. */
  lemma NormalizeIdempotent(s: string)
    ensures Normalize(Normalize(s)) == Normalize(s)
  {
    var r := Normalize(s);
    StripStripped(r);
    assert Normalize(r) == r;
  }

  /** The text handed to `json.loads` (lines 112-118): group 1 of the first fenced
      block when there is one, the whole content otherwise; `None` reads as "".
      `content or ""` and `GetOr("")` agree because the default is itself "". */
  function Candidate(content: Option<string>): (c: string)
    ensures NoCurlyQuotes(c) && IsStripped(c)
  {
    var text := content.GetOr("");
    var raw := match Search(text)
      case Some(m) => Group(text, m)
      case None => text;
    Normalize(raw)
  }

  /** Without a fenced block the whole text is the candidate, and a missing
      reply reads as the empty text. */
  lemma CandidateWithoutBlock(content: Option<string>)
    requires NoMatch(content.GetOr(""))
    ensures Candidate(content) == Normalize(content.GetOr(""))
  {
    var r := Search(content.GetOr(""));
  }

  /** A missing reply and an empty one give the empty candidate. */
  lemma MissingContentIsEmpty()
    ensures Candidate(None) == Candidate(Some("")) == ""
  {
    var r := Search("");
  }

  /** With a fenced block the candidate is group 1 of the first one: it keeps the
      group's length (the group is already stripped, and quote replacement is one
      character for one) and starts with `{` and ends with `}`. */
  lemma CandidateOfBlock(content: Option<string>, m: Match)
    requires IsFirstMatch(content.GetOr(""), m)
    ensures var g := Group(content.GetOr(""), m);
            && Candidate(content) == Normalize(g)
            && |Candidate(content)| == |g|
            && Candidate(content)[0] == '{'
            && Candidate(content)[|g| - 1] == '}'
  {
    SearchFinds(content.GetOr(""), m);
    CandidateOfFound(content, m);
  }

  /** The same, for the match the search reports. */
  lemma CandidateOfFound(content: Option<string>, m: Match)
    requires Search(content.GetOr("")) == Some(m)
    ensures var g := Group(content.GetOr(""), m);
            && Candidate(content) == Normalize(g)
            && |Candidate(content)| == |g|
            && Candidate(content)[0] == '{'
            && Candidate(content)[|g| - 1] == '}'
  {
    CandidateIsGroup(content, m);
    NormalizeBraced(Group(content.GetOr(""), m));
  }

  lemma CandidateIsGroup(content: Option<string>, m: Match)
    requires Search(content.GetOr("")) == Some(m)
    ensures Candidate(content) == Normalize(Group(content.GetOr(""), m))
  {
  }

  /** A `{...}` span has nothing to strip, so normalising it only straightens quotes. */
  lemma NormalizeBraced(g: string)
    requires |g| >= 2 && g[0] == '{' && g[|g| - 1] == '}'
    ensures |Normalize(g)| == |g|
    ensures Normalize(g)[0] == '{' && Normalize(g)[|g| - 1] == '}'
  {
    StripStripped(g);
  }

  /** `_extract_json_payload`: the candidate, parsed. */
  function ExtractPayload(content: Option<string>, loads: string -> Option<Json>): Option<Json> {
    loads(Candidate(content))
  }

  /** Only the first fenced block is ever parsed: once a text holds a block,
      appending anything (another block that would parse included) leaves the
      parsed payload as it was, a failed parse included. */
  lemma ExtractIgnoresLaterBlocks(t: string, u: string, loads: string -> Option<Json>)
    requires Search(t).Some?
    ensures ExtractPayload(Some(t + u), loads) == ExtractPayload(Some(t), loads)
  {
    CandidateIgnoresAppended(t, u);
  }

  /** The candidate of a text with a block is unchanged by appended text. */
  lemma CandidateIgnoresAppended(t: string, u: string)
    requires Search(t).Some?
    ensures Candidate(Some(t + u)) == Candidate(Some(t))
  {
    var m := Search(t).value;
    SearchIgnoresAppended(t, u);
    GroupIgnoresAppended(t, u, m);
    CandidateIsGroup(Some(t), m);
    CandidateIsGroup(Some(t + u), m);
  }

  /** `LLMComponentResponse(**payload_dict)`: the parsed value must be an object,
      and each field must be present and a string; extra keys are ignored and a
      missing field is never defaulted. Fields are examined in declaration order. */
  function Validate(j: Json): Result<ComponentResponse, ParseError> {
    if !j.JObject? then Failure(NotAnObject)
    else
      var fields := j.members;
      if "component_name" !in fields then Failure(MissingField("component_name"))
      else if !fields["component_name"].JString? then Failure(NotAString("component_name"))
      else if "summary" !in fields then Failure(MissingField("summary"))
      else if !fields["summary"].JString? then Failure(NotAString("summary"))
      else if "html" !in fields then Failure(MissingField("html"))
      else if !fields["html"].JString? then Failure(NotAString("html"))
      else Success(ComponentResponse(fields["component_name"].s, fields["summary"].s, fields["html"].s))
  }

  /** j holds the three fields as strings. */
  predicate HasStringField(j: Json, name: string) {
    j.JObject? && name in j.members && j.members[name].JString?
  }

  /** The record serialised as the model is asked to reply. */
  function ToJson(r: ComponentResponse): Json {
    JObject(map["component_name" := JString(r.componentName), "summary" := JString(r.summary), "html" := JString(r.html)])
  }

  /** Validation accepts exactly the objects carrying the three string fields, and
      then returns those strings unchanged. */
  lemma ValidateSpec(j: Json)
    ensures Validate(j).Success? <==>
              HasStringField(j, "component_name") && HasStringField(j, "summary") && HasStringField(j, "html")
    ensures Validate(j).Success? ==>
              && Validate(j).value.componentName == j.members["component_name"].s
              && Validate(j).value.summary == j.members["summary"].s
              && Validate(j).value.html == j.members["html"].s
    ensures Validate(j).Failure? ==> Validate(j).error != InvalidJson && Validate(j).error != NoChoices
  {
  }

  /** Validation inverts serialisation, whatever other keys the object carries. */
  lemma ValidateToJson(r: ComponentResponse, extra: map<string, Json>)
    ensures Validate(JObject(extra + ToJson(r).members)) == Success(r)
  {
  }

  /** An object lacking `html` is refused, whatever else it holds. */
  lemma MissingHtmlRefused(j: Json)
    requires j.JObject? && "html" !in j.members
    ensures Validate(j).Failure?
  {
  }
}
