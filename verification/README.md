# W-CEV backend core in Dafny

This project models the four pieces of pure logic in the W-CEV backend and proves properties about them. The backend turns a chat message into a single self-contained HTML component by asking a language model.

- **The fenced-JSON extractor.** `JSON_BLOCK_RE` is the pattern ```` ```(?:json)?\s*(\{.*?\})\s*``` ```` compiled with DOTALL. `_extract_json_payload` uses it to pick the JSON text out of a model reply. The model has two definitions of the pattern, proved to agree:
  - a declarative one (`JsonBlock.IsMatch`, `JsonBlock.IsFirstMatch`), saying what a match is and which one `re.search` reports;
  - a left-to-right scanner (`JsonBlock.Search`).

  On top of the pattern sit the fallback to the whole text, the strip and the curly-quote replacement (`Extract.Candidate`).
- **The `create_component` outcome mapping.** This covers the request it sends and how the completion's outcome becomes an HTTP answer (`Messages.Respond`, `Messages.CreateComponent`):
  - a failed call is a 502;
  - any failure while reading the reply is a 500;
  - success is exactly the `html` string.

  The record check of `LLMComponentResponse` is `Extract.Validate`.
- **The prompt template.** `generate_prompt` is modelled as a template with two holes (`Prompt.Fill`). The source's text is kept line by line in `Prompt.SourceTemplate`, and the rendered schema is passed in.
- **The CORS origin list.** This is the `allow_origins` list that `create_app` computes from `BACKEND_CORS_ORIGINS` (`Cors.AllowOrigins`).

Modules:

| module | file | role |
|---|---|---|
| `Wrappers` | `wrappers.dfy` | `Option` and `Result` |
| `Text` | `text.dfy` | Python's whitespace, `str.strip`, one-character `str.replace` and `str.split` / `join` |
| `JsonBlock` | `json_block.dfy` | the pattern and `re.search` |
| `Extract` | `extract.dfy` | `_extract_json_payload` and the record check |
| `Prompt` | `prompt.dfy` | `generate_prompt` |
| `Messages` | `messages.dfy` | `create_component` |
| `Cors` | `cors.dfy` | `allow_origins` |

The model makes these modelling choices:

- **Parameters for library and network code.** `json.loads` is the parameter `loads: string -> Option<Json>`. The chat-completion call is a value `Completion` (either `CallFailed` or `Completed(choices)`), or a function `complete: ChatRequest -> Completion`.
- **Whitespace is concrete.** It is the exact set CPython's `str.isspace` accepts, which is the same set `\s` matches in a `str` pattern and the set `str.strip()` removes. It is not an abstract predicate. The proofs rely on `{`, `}`, `` ` ``, the letters of `json` and the curly quotes not being whitespace, and on the newline being whitespace (the fenced-reply lemmas put one after ```` ```json ```` and one before the closing fence).
- **The group ends at the first closable `}`.** The capturing group is lazy (`.*?`): group 1 ends at the FIRST `}` that is followed by optional whitespace and a fence.
- **Validation accepts JSON strings only.** `Extract.Validate` accepts only JSON strings for the three `str` fields, as the validation library's default mode does. It ignores extra keys and never defaults a missing field.

## Model

| member | source | states |
|---|---|---|
| Text.IsSpace | Backend/app/routers/messages.py:104 | The whitespace class of `\s` and of `str.strip()`: the characters `str.isspace()` accepts, listed by code point. A definition, used by every contract below that speaks of whitespace. |
| Text.Strip | Backend/app/routers/messages.py:117 | `str.strip()`: the result has no whitespace at either end and is no longer than the input. `Text.StripTrims` shows it is the input minus leading and trailing whitespace, and `Text.StripUnique` that no other such cut exists. |
| Text.StripUnique | Backend/app/routers/messages.py:117 | Any way of cutting a text into whitespace, a core with no whitespace at either end, and whitespace gives that core as `strip()`'s result. |
| Text.StripKeepsAbsent | Backend/app/main.py:17-18 | `strip()` introduces no character. A piece without a comma stays without one. |
| Text.ReplaceChar | Backend/app/routers/messages.py:118 | The result has the input's length, holds the new character at every position where the input held the old one, and equals the input at every other position. |
| Text.Split | Backend/app/main.py:18 | `split(",")` gives one piece more than there are commas, and no piece holds a comma. |
| Text.JoinSplit | Backend/app/main.py:18 | Joining the pieces of `split(sep)` with `sep` gives back the input. |
| Text.SplitJoin | Backend/app/main.py:18 | Splitting a join of separator-free pieces gives back exactly those pieces, empty pieces included. |
| JsonBlock.IsMatch | Backend/app/routers/messages.py:104 | A definition of one way the pattern matches: a fence, optionally `json`, only whitespace up to a `{`, then anything up to a `}` that some whitespace and a fence follow. `JsonBlock.Search` and `JsonBlock.SearchFinds` prove the scanner agrees with it. |
| JsonBlock.IsFirstMatch | Backend/app/routers/messages.py:104-112 | A definition of the match `re.search` reports: the leftmost start, and from that start the earliest-closing group. `JsonBlock.FirstMatchUnique` shows at most one match qualifies. |
| JsonBlock.MatchAt | Backend/app/routers/messages.py:104 | The pattern tried at one position, `json` alternative first. `JsonBlock.MatchAtCorrect` proves it returns the earliest-closing match starting there, and nothing only when none starts there. |
| JsonBlock.SearchFrom | Backend/app/routers/messages.py:104-112 | The scan over positions from s onwards. `JsonBlock.SearchFromCorrect` proves it returns the leftmost match at or after s, and nothing only when every match starts before s. |
| JsonBlock.ClosesAtIff | Backend/app/routers/messages.py:104 | The scanner's test for the end of the group holds exactly when a `}` is followed by some whitespace run and then a fence. The whitespace run is the greedy one. |
| JsonBlock.FirstClose | Backend/app/routers/messages.py:104 | The lazy `.*?` ends the group at the first position that can close it. Every closable position from there on comes at or after it. |
| JsonBlock.OpenUnique | Backend/app/routers/messages.py:104 | Two matches from the same fence open the group at the same `{`. The `json` alternative and the empty one never compete. |
| JsonBlock.TagMustBeJson | Backend/app/routers/messages.py:104 | A fence starts a match only when it is followed by `{`, by whitespace, or by the exact lowercase `json` that is itself followed by `{` or whitespace. So `JSON`, `js`, `jsonc`, `json5` and every other tag cannot start one. |
| JsonBlock.MatchAtCorrect | Backend/app/routers/messages.py:104 | The attempt at one position finds the match starting there with the earliest-closing group, and fails only when no match starts there. |
| JsonBlock.SearchFromCorrect | Backend/app/routers/messages.py:104-112 | Scanning from position s reports the leftmost match starting at or after s. When it reports none, every match starts before s. |
| JsonBlock.Search | Backend/app/routers/messages.py:104-112 | `re.search` reports a match that starts leftmost and whose group closes at the first possible `}`. When it reports nothing, the text holds no match at all. |
| JsonBlock.FirstMatchUnique | Backend/app/routers/messages.py:104-112 | At most one match satisfies the leftmost-start, first-close rule, so the search result is determined by the text. |
| JsonBlock.SearchFinds | Backend/app/routers/messages.py:104-112 | Conversely, the match described by that rule is the one the search reports. |
| JsonBlock.Group | Backend/app/routers/messages.py:104-114 | Group 1 of a match starts with `{` and ends with `}`. |
| JsonBlock.FirstMatchIgnoresLaterText | Backend/app/routers/messages.py:104-114 | Text after the first match's closing fence can be replaced by anything without moving the first match. |
| JsonBlock.SearchIgnoresAppended | Backend/app/routers/messages.py:104-114 | Appending text to a reply that already holds a block, another block included, leaves the reported match unchanged. |
| JsonBlock.GroupIgnoresAppended | Backend/app/routers/messages.py:114 | The group of a match reads the same after text is appended. |
| JsonBlock.FencedReplyMatch | Backend/app/routers/messages.py:104-114 | Take prose without backticks, then a `json`-tagged block whose braced body holds no backtick. The block is the first match, and group 1 is the whole braced body, even when the body contains `}` of its own. |
| Extract.Normalize | Backend/app/routers/messages.py:117-118 | The normalised candidate holds no curly double quote and has no whitespace at either end. It is as long as the stripped text and equals it with each curly quote made straight. |
| Extract.NormalizeIdempotent | Backend/app/routers/messages.py:117-118 | Normalising an already normalised candidate returns it unchanged. |
| Extract.Candidate | Backend/app/routers/messages.py:112-118 | The text handed to `json.loads` holds no curly double quote and has no whitespace at either end. `Extract.CandidateOfBlock` and `Extract.CandidateWithoutBlock` fix it exactly in the two cases. |
| Extract.CandidateWithoutBlock | Backend/app/routers/messages.py:112-118 | When no fenced block matches anywhere, the candidate is the whole reply, normalised. A missing reply reads as the empty text. |
| Extract.MissingContentIsEmpty | Backend/app/routers/messages.py:112-116 | A missing reply (`None`) and an empty reply both give the empty candidate. |
| Extract.CandidateOfBlock | Backend/app/routers/messages.py:112-118 | With a first match, the candidate is its group 1, normalised. It has the group's length and still starts with `{` and ends with `}`. |
| Extract.CandidateIgnoresAppended | Backend/app/routers/messages.py:112-118 | Once a reply holds a block, appended text never changes the candidate. |
| Extract.ExtractIgnoresLaterBlocks | Backend/app/routers/messages.py:104-119 | Once a reply holds a block, appended text, later blocks included, never changes what `json.loads` is given or returns. A later fence is not consulted even when the first block's text fails to parse. |
| Extract.ExtractPayload | Backend/app/routers/messages.py:119 | `_extract_json_payload`: the candidate, parsed. `Extract.ExtractIgnoresLaterBlocks` proves that what it returns depends only on the first block, once there is one. |
| Extract.Validate | Backend/app/routers/messages.py:28-31 | The record check of line 97. `Extract.ValidateSpec` proves it accepts exactly the objects with the three fields present as strings and copies them unchanged. `Extract.ValidateToJson` proves it inverts serialisation. |
| Extract.ValidateSpec | Backend/app/routers/messages.py:28-31 | The record check of line 97 succeeds exactly when the value is an object whose three fields are all present as strings. The record then carries those strings unchanged. A failure is a wrong shape or a missing or mistyped field. |
| Extract.ValidateToJson | Backend/app/routers/messages.py:28-31 | The record check inverts serialisation of a record, whatever other keys the object carries. |
| Extract.MissingHtmlRefused | Backend/app/routers/messages.py:28-31 | An object without `html` is refused and never given a default. |
| Prompt.GeneratePrompt | Backend/app/routers/messages.py:38-68 | The source's template, filled. `Prompt.Fill` gives the exact positions of both inputs, and `Prompt.MessageBeforeSchema` and `Prompt.PromptDeterminesInputs` hold for every template, this one included. |
| Prompt.Fill | Backend/app/routers/messages.py:40-68 | The prompt is exactly as long as the template parts plus the two inputs. The message sits verbatim right after the head, and the schema sits verbatim right after the message and the middle part. |
| Prompt.MessageBeforeSchema | Backend/app/routers/messages.py:53-67 | The prompt contains the user message and the schema verbatim, the message first. |
| Prompt.PromptDeterminesInputs | Backend/app/routers/messages.py:40-68 | Given the message's length, the prompt determines both the message and the schema: nothing of either input is lost. |
| Messages.ModelName | Backend/app/routers/messages.py:76 | The model is the `MODEL` setting when it is set, even to an empty value, and `gpt-4o-mini` otherwise. |
| Messages.BuildRequest | Backend/app/routers/messages.py:73-90 | The request carries the fixed system instruction, temperature 0.2 and the chosen model. Its user text holds the message and the schema verbatim, at the template's holes. |
| Messages.Interpret | Backend/app/routers/messages.py:94-99 | The first choice's content, extracted, parsed and validated. `Messages.HandlerOutcome` proves it succeeds exactly when that content parses to an object with the three string fields, and `Messages.NoUsableChoiceIs500` covers the empty choice list. |
| Messages.Respond | Backend/app/routers/messages.py:91-101 | The response made from the call's outcome. `Messages.HandlerOutcome` proves the mapping: 502 with the failure's text, 500 for any failure after the call, otherwise exactly the `html` string. |
| Messages.CreateComponent | Backend/app/routers/messages.py:71-101 | The handler with the source's template: `Messages.CreateComponentOutcome` proves its answer follows the outcome mapping of the one completion it requests. |
| Messages.CreateComponentOutcome | Backend/app/routers/messages.py:71-101 | For any prompt template, a failed call is a 502 carrying the failure, a plain-text answer is given exactly when the reply parses to a record, and no status other than 500 or 502 occurs. |
| Messages.HandlerOutcome | Backend/app/routers/messages.py:91-101 | A failed call is a 502 whose detail carries the failure. A completed call whose reply does not parse to a record is a 500. A plain-text answer is given exactly when the first choice's candidate parses to an object with the three string fields, and its body is then that `html` string. No other status occurs. |
| Messages.NoUsableChoiceIs500 | Backend/app/routers/messages.py:94-99 | A completion with no choices is a 500 and never a default record. |
| Messages.FencedCandidate | Backend/app/routers/messages.py:112-118 | For a reply made of prose and one `json` block with straight quotes, the candidate is the braced body, character for character. |
| Messages.FencedReplyServed | Backend/app/routers/messages.py:94-119 | End to end: when the first choice is such a reply and its body parses to a serialised record, the answer is that record's `html`, byte for byte. Later choices and the text after the block do not matter. |
| Cors.NonEmpty | Backend/app/main.py:19 | The `if o.strip()` filter keeps at most as many texts as it is given, and none of them is empty. |
| Cors.NonEmptyFromSound | Backend/app/main.py:18-19 | The kept indices are in range and increasing, and each one picks a non-empty text. |
| Cors.NonEmptyFromComplete | Backend/app/main.py:18-19 | Every non-empty text is among the kept indices, so the filter skips nothing it should keep. |
| Cors.NonEmptyFollows | Backend/app/main.py:16-20 | The k-th kept text is the text at the k-th kept index. |
| Cors.StripNonBlank | Backend/app/main.py:16-20 | The comprehension keeps at most as many elements as there are pieces. Each element is non-empty, has no whitespace at either end, and is the strip of some piece. |
| Cors.AllowOrigins | Backend/app/main.py:13-20 | A setting that strips to `*` gives exactly `["*"]`, spaces around the star included. Otherwise every element is non-empty, stripped and comma-free, and there are at most one more elements than commas. |
| Cors.OriginsFollowSetting | Backend/app/main.py:15-20 | Apart from the wildcard, the origins are exactly the non-blank comma-separated pieces of the setting, stripped. They come in the order the pieces appear, none is skipped, and the pieces join back into the setting. |

## Left out

- Environment loading, the API-key check and client construction (Backend/app/routers/messages.py:11-19) are process I/O and a foreign SDK. The `MODEL` setting is the parameter `modelEnv`.
- The chat-completion call (Backend/app/routers/messages.py:77-90) is a network call. It is the parameter `complete`, and its outcome is the value `Completion`.
- `json.loads` (Backend/app/routers/messages.py:119) is library code. It is the parameter `loads`. Numbers keep their literal text instead of becoming floats.
- `response_schema` (Backend/app/routers/messages.py:34-35) renders a JSON schema through the validation library. Its text is the parameter `schema`.
- Messages.Describe: the part of a 500 detail after its fixed prefix is one fixed description per failure kind, not the exception message the libraries would produce. The same goes for the failure text after the 502 prefix, which is the parameter `reason`.
- Messages.CreateComponent: its outcome lemma is stated for `CreateComponentWith`, which takes the template as a parameter. `CreateComponent` is `CreateComponentWith` applied to `SourceTemplate`. This keeps the long template text out of the proofs.
- The temperature is the exact decimal 0.2 (`Messages.Temperature`), not the binary float Python sends.
- Lax coercions of the validation library beyond "a `str` field takes a JSON string" are not modelled. Neither are the key-order and duplicate-key rules of `json.loads`, which the `Json` map has already resolved.
- The framework around the logic is not modelled: FastAPI routing, `PlainTextResponse`, `CORSMiddleware`, `include_router` and `get_settings` (Backend/app/main.py:1-11,22-40).
- frontend/src/pages/Chat.jsx is not part of this model. It is UI code.
