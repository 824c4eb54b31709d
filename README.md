# Dynamic study consultant: the chat-intake core in Dafny

The service behind this model is a chat agent. It interviews a student one
message at a time and builds a profile of free-form facts, such as
`current_institution` or `a_levels_grade`. It decides on its own when it has
heard enough. Every request goes to `POST /chat` with a session id, and the
service:

1. loads the session row, or inserts an empty one;
2. on a first message, answers with a fixed greeting;
3. otherwise appends the user's message to the transcript (when it is not
   blank) and asks a language model to extract facts as JSON;
4. cleans the reply of Markdown code fences and parses it;
5. folds the facts into the profile with a "richer value wins" policy;
6. estimates progress as a percentage of 18 facts;
7. asks the language model for the next question;
8. marks the session complete when that question contains one of 15 wrap-up
   phrases;
9. saves the row and returns question, flag and progress.

Any exception in this sequence produces a fixed apology. Three admin endpoints
read, list and delete session rows.

The model keeps every step of this turn. The language-model calls, the JSON
parser and the storage faults are parameters. Everything else is stated and
proved.

| file | module | what it holds |
|---|---|---|
| `text.dfy` | `Text` | ASCII `strip()` and `lower()`, and substring search (`in` on strings) |
| `facts.dfy` | `Facts` | the fact merger: a specification function `Merge` and the in-place loop `MergeInto` |
| `progress.dfy` | `ProgressEstimator` | `min(100, int(k / 18 * 100))` |
| `completion.dfy` | `Completion` | the 15 wrap-up phrases and the case-insensitive check |
| `fences.dfy` | `Fences` | clean-up of the extraction reply before parsing |
| `turn.dfy` | `Turn` | one turn as a function of the loaded session and the service answers |
| `store.dfy` | `Store` | the session table as a class; the chat endpoint as a method on it |

How the outside world enters the model:

- **Language-model calls.** They are function parameters of type
  `ServiceRequest -> ServiceReply`. Each is shown the recent transcript, the
  latest message and the profile, and answers with text or with a fault.
- **`json.loads`.** It is a parameter `parse: string -> Parsed`. It is
  applied to the cleaned reply and answers "malformed", "not an object" or an
  object of string values.
- **Storage faults.** They are a parameter `StorageFault`: the read fails,
  the write fails, or neither does.
- **The database clock.** It is the parameter `now`, which becomes a new
  row's creation stamp.

The model follows the code where it departs from the intended design:

- **A first message resets completion.** A first-message request appends the
  greeting to whatever the transcript holds. It then saves the row with the
  default `is_complete=False`, so a finished session becomes unfinished
  (`Turn.FirstMessageShortCircuit`).
- **A non-object extraction result fails the turn.** When the extraction
  reply parses to JSON that is not an object, `.items()` raises outside the
  extraction's own `try`. The request answers with the apology and saves
  nothing. A row inserted by the read in the same request stays
  (`Store.FailureLeavesOnlyTheInsertedRow`).
- **User text is stored unstripped.** Blankness is decided on the stripped
  message, but the transcript stores the message unchanged.
- **The table starts empty.** It is dropped at every start-up, so the store's
  constructor yields an empty table.

## Model

| member | source | states |
|---|---|---|
| Text.Trim | main.py:243 | `strip()` gives a string with no white space at either end, no longer than its input |
| Text.TrimIsSlice | main.py:243 | the stripped text is a contiguous slice of the input, with only white space cut on either side |
| Text.TrimOfTrimmed | main.py:249 | stripping a string that has no white space at either end returns it unchanged |
| Text.TrimIdempotent | main.py:243-249 | stripping twice is stripping once |
| Text.TrimEmptyIffBlank | main.py:158 | `message.strip()` is empty exactly when every character is white space |
| Text.Lower | main.py:686 | `lower()` keeps the length |
| Text.LowerAt | main.py:686 | `lower()` maps each character on its own, at the same position |
| Text.LowerConcat | main.py:686 | lower-casing distributes over concatenation |
| Text.LowerLacks | main.py:686 | a letter absent from a text in both cases is absent from its lower-cased form |
| Text.Find | main.py:705 | the search returns the first index where the pattern occurs, and none exactly when it occurs nowhere |
| Text.Contains | main.py:705 | `pat in s` holds exactly when the pattern occurs at some index |
| Facts.MergePolicy | main.py:263-276 | no key is removed; keys not among the candidates are untouched; a sentinel never changes a key; a real value is stored stripped when the key is new or its value is shorter; an equal or shorter value keeps the old one |
| Facts.MergeStep | main.py:263-276 | one iteration of the loop on a key not yet seen is the merge of the candidates seen so far plus that key |
| Facts.MergeInto | main.py:263-276 | the in-place loop, visiting the candidates in any order, ends with the profile that `Merge` specifies |
| Facts.MergeGrows | main.py:263-276 | merging keeps every key, never lowers the key count and never shortens a stored value |
| Facts.MergeIdempotent | main.py:263-276 | merging the same candidates twice gives the profile of merging once |
| Facts.MergeIntoEmpty | main.py:263-276 | stripped, non-sentinel candidates merged into an empty profile are stored as they are |
| Facts.NonSentinelNotBlank | main.py:264-270 | a value that passes the sentinel test is non-empty once stripped |
| Facts.LongerValueWins | main.py:273-275 | "Lahore" replaces "LHR" |
| Facts.ShorterValueLoses | main.py:273-275 | "ISB" (equally long) and "X" (shorter) do not replace "LHR" |
| Facts.UnknownIgnored | main.py:264-270 | "  UNKNOWN " is a sentinel in any case and with surrounding spaces, and adds nothing |
| ProgressEstimator.Progress | main.py:278-279 | progress never exceeds 100 |
| ProgressEstimator.ProgressIsTruncatedRatio | main.py:279 | the integer formula equals truncating the exact ratio `k / 18 * 100`, capped at 100 |
| ProgressEstimator.ProgressMonotone | main.py:279 | more facts never give less progress |
| ProgressEstimator.ProgressLandmarks | main.py:279 | 0 facts give 0, 3 give 16, and 18 or more give 100 |
| Completion.AnyOccurs | main.py:705 | `any(phrase in text ...)` holds exactly when some phrase occurs in the text |
| Completion.HitsStopSignal | main.py:686-705 | a reply hits exactly when some wrap-up phrase occurs in its lower-cased form |
| Completion.LowerIdempotent | main.py:686 | lower-casing twice is lower-casing once |
| Completion.CaseInsensitive | main.py:686-705 | lower-casing the reply beforehand does not change the verdict |
| Completion.SignalInAnyCaseCompletes | main.py:686-706 | any text holding a wrap-up phrase, written in any mix of cases, hits |
| Fences.SecondSegment | main.py:245 | `split("```")[1]` on fenced text is in range: it is the text after the opening fence, up to the first fence after it or the end, and holds no fence |
| Fences.StripFences | main.py:243-249 | the cleaned reply has no white space at either end; unfenced text is only stripped; fenced text loses every fence |
| Fences.TaggedFenceRoundTrip | main.py:243-249 | a payload without back-quotes, fenced with a `json` tag, is recovered stripped |
| Fences.PlainFenceRoundTrip | main.py:243-249 | the same with an untagged fence, for a payload not starting with `json` |
| Turn.Recent | main.py:163-167 | `history[-n:]` has `min(n, len)` entries and is the end of the transcript (4 for extraction, 10 for generation at main.py:637) |
| Turn.ConversationTurn | main.py:158-162 | the turn fails exactly when a non-blank message's extraction parses to a non-object; otherwise the old transcript is kept as a prefix, followed by the unstripped user message iff it is not blank, and then the reply; no profile key is lost; progress is computed from the saved profile and is at most 100; the flag is the old flag or a wrap-up hit; the stamp is kept |
| Turn.ConversationTurnMergesAndReplies | main.py:234-279 | the saved profile is exactly `Merge` of the old profile with the extracted facts (none for a blank message, none for a failed or unparsable extraction), and the question is the stripped generated text, or the apology when generation fails |
| Turn.FinishedTurnEndsWithQuestion | main.py:143-159 | every finished turn, first message or not, keeps the stamp and ends the transcript with the question it sends back |
| Turn.FirstMessageShortCircuit | main.py:140-156 | the first-message turn consults no service, appends exactly the greeting, keeps the profile, answers progress 0, and saves the flag as false even for a completed session |
| Turn.ApologyNeverCompletes | main.py:683-706 | the apology holds no wrap-up phrase in any case |
| Turn.GenerationFaultKeepsFlag | main.py:679-706 | when generation fails, the question is the apology and the flag is unchanged |
| Turn.WrapUpReplyCompletes | main.py:679-706 | a generated reply holding a wrap-up phrase, in any case, is sent as it is and completes the session |
| Turn.FreshSessionTakesCleanFacts | main.py:158-279 | on a fresh session, clean extracted facts become the profile exactly, progress is measured on them, and the transcript opens with the user's message |
| Turn.ReplayMonotone | main.py:158-162 | over any series of ordinary requests, with any service answers, the transcript only grows at its end, keys are never lost, the key count never drops, a completed session stays complete, and the creation stamp is kept |
| Store.Loaded | main.py:82-103 | the session of a request is the stored row, or an empty, incomplete session stamped `now` |
| Store.ChatTouchesOnlyItsRow | main.py:76-128 | a request changes no row but its own; its row exists afterwards unless the read failed, and a failed read changes nothing |
| Store.FailureLeavesOnlyTheInsertedRow | main.py:728-735 | when the turn aborts (a non-object extraction result) or the write fails, the response is the apology with progress 0 and not complete, nothing is saved, and the table keeps only the row the read inserted (main.py:92-96); only a healthy store answers anything but the apology |
| Store.ResponseMatchesSavedRow | main.py:709-722 | the saved row is the turn's session; the response's flag is the saved flag; the transcript ends with the question sent back |
| Store.CompletedSessionStaysComplete | main.py:158-162 | an ordinary request never loses a stored profile key, only extends the stored transcript, and never reopens a completed session |
| Store.CreationStamp | main.py:39 | a new row is stamped with the request time; a stored row keeps its stamp |
| Store.Insert | main.py:753 | placing an entry into the listing adds exactly that entry: the result is the old listing plus one `x`, as a multiset |
| Store.InsertKeepsOrder | main.py:753 | placing an entry keeps the listing newest first |
| Store.InsertKeepsDistinct | main.py:753 | placing an entry with a new id keeps the ids distinct |
| Store.Converse | main.py:158-279 | the ordinary turn as the endpoint runs it, step by step (append, extract, merge in place, generate, flag, append), ends with exactly the result `Turn.ConversationTurn` specifies |
| Store.SessionStore.constructor | main.py:29-45 | the table starts empty |
| Store.SessionStore.Load | main.py:76-103 | a present id returns its row unchanged; an absent id inserts and returns an empty, incomplete session stamped `now` (this is also `GET /session/{id}`, main.py:743-745) |
| Store.SessionStore.Save | main.py:106-128 | an existing row gets the new transcript, profile and flag and keeps its stamp; an absent id is left absent |
| Store.SessionStore.Delete | main.py:763-770 | the row is removed if present; deleting an absent id changes nothing |
| Store.SessionStore.List | main.py:748-760 | every row appears exactly once, with its id, flag and stamp, newest first |
| Store.SessionStore.Chat | main.py:131-735 | the table and the response after the request are those of `ChatOutcome`, which the lemmas above characterise |

## Left out

- Prompt texts (main.py:168-232, 281-668) are free-form templates. The model
  keeps only what the services are shown: the transcript window, the latest
  message and the profile.
- The language-model calls are left out as foreign services. Both calls are
  parameters, and a raised exception is the `ServiceFault` answer. The
  two-second pause after a failure is left out.
- `json.loads` and `json.dumps` are left out as library code. Parsing is a
  parameter. Stored rows hold the transcript and profile values directly, so
  the JSON round trip of storage is taken as the identity.
- Candidate values that are not strings are left out: numbers, booleans and
  nested values, and with them the `if v` truthiness test and `str(v)`.
  Values are strings, and for strings the test is covered by the empty
  sentinel.
- `strip()` and `lower()` are modelled on ASCII only: the white-space
  characters of `str.isspace()` below 128, and A–Z. Unicode white space and
  case mapping are left out.
- ProgressEstimator.Progress uses the integer formula `k * 100 / 18`, not
  floating point. `ProgressIsTruncatedRatio` proves it equal to truncating
  the exact rational ratio. Float rounding of `k / 18 * 100` is not modelled.
- SQLite is left out: connections, `CURRENT_TIMESTAMP` and timestamp
  formatting. The table is a map and the stamp is the caller's `now`. The
  listing's order among equal stamps is not fixed, as `ORDER BY` leaves it
  open.
- Concurrent requests on the same session are left out. Each request runs
  alone against the table.
- Storage faults in the admin endpoints are left out. Only the chat
  endpoint catches them.
- Transport and start-up are left out: FastAPI, CORS, the request models'
  validation, `uvicorn`, logging, the API-key check and the `/health`
  endpoint.
- Turn.ReplayMonotone covers ordinary requests only. A first-message request
  resets the flag, as `Turn.FirstMessageShortCircuit` states.
