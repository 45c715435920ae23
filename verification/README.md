# anki_languages_cli: the note-creation reconciler in Dafny

`anki_languages_cli` turns a word and its translation into a flashcard in an
Anki deck, talking to the AnkiConnect add-on over HTTP. Its one piece of real
control flow is `create_notes`. An attempt runs these steps in order:

1. List the decks and create the target deck if it is missing.
2. Search the deck for a note with the same front.
3. Send the note unless the search found it.
4. If the service answers `addNotes` with a null id, the front collides with a
   note in some other deck. Append one space to the front and start over.

The retries stop once the front's trailing whitespace exceeds five bytes.

This project models that reconciler and the four request values it sends. It
proves what the code promises about them.

## Modules

| file | module | what it holds |
|---|---|---|
| `wrappers.dfy` | `Wrappers` | `Option` and `Result` |
| `json.dfy` | `Json` | the JSON value tree and serde_json's accessors |
| `text.dfy` | `Text` | `trim_end`, byte length and the trailing-whitespace count the guard uses |
| `requests.dfy` | `Requests` | the request datatype, its constructors, and its serde JSON shape with a decoder |
| `remote.dfy` | `Remote` | the service, `send_post`, and how each response's `result` is read |
| `protocol.dfy` | `Protocol` | the protocol over the exchange log, and how an attempt's last reply decides its end |
| `reconciler.dfy` | `Reconciler` | `create_notes` and its helpers |
| `properties.dfy` | `ReconcilerProperties` | the properties of the reconciler |
| `scenarios.dfy` | `Scenarios` | the repository's mockito tests, restated, plus one collision scenario in the same style |

## How the model is set up

**The service.** AnkiConnect is any function from a state and a request to a
reply and a new state. The state type is a parameter. A reply is either a
delivered JSON body or a transport failure, standing in for reqwest's error.

**Outputs.** Every helper returns the exchanges it made. `CreateNotes` returns
an explicit `Outcome` and the exchanges of each attempt. The source only logs
the outcome. Each of these contracts also ensures `Replays`: sending the
logged requests in order from the starting state gives exactly the logged
replies and ends in the returned state. So every property stated over a log
is about the requests that reach the service and the answers they get.

**Panics.** Every `unwrap` on a response shape is an explicit
`Panicked(site)` outcome, not a precondition. So are the `unwrap` of the
`createDeck` transport result and the `unwrap` of the first note.

**The guard.** It counts bytes. `TrimEnd` strips Unicode White_Space, as
Rust's `char::is_whitespace` does. `Utf8Len` gives each character its UTF-8
width.

**Retries.** Repeated collisions issue at most 7 `addNotes`. Fronts with 0
to 6 trailing spaces are sent. The guard at src/utils/anki.rs:50 appends a
space after each of the first six collisions and trips on the seventh
(`WriteBound`, `SevenWrites`).

**Request shapes.** `Requests.Encode` writes each of the four request
structs as serde does: `AddNotes` (src/models/add_notes.rs:4-35), `FindNotes`
(src/models/find_notes.rs:5-16), `CreateDeck` (src/models/create_deck.rs:4-14)
and `DeckName` (src/models/deck_name.rs:4-8). `Requests.DecodeEncode` proves
the round trip for all four. It proves the listing case itself and takes the
other three from the per-kind lemmas. The table cites each member at the
struct it handles directly.

**Failed listing.** A listing that fails in transport counts as "deck absent"
(src/utils/anki.rs:81-84), so the reconciler goes on to create the deck.

## Model

| member | source | states |
|---|---|---|
| Requests.NewAddNotes | src/models/add_notes.rs:64-84 | action "addNotes", version 6, exactly one note with model "Basic", the given deck, front and back stored unchanged, tags/audio/video/picture all absent |
| Requests.NewFindNotes | src/models/find_notes.rs:18-26 | action "findNotes", version 6, the query stored verbatim |
| Requests.NewCreateDeck | src/models/create_deck.rs:16-26 | action "createDeck", version 6, the deck name stored verbatim |
| Requests.NewDeckNames | src/models/deck_name.rs:10-17 | action "deckNamesAndIds", version 6, no parameters (so every listing request is the same value) |
| Requests.Encode | src/models/add_notes.rs:4-35 | the serialized request has exactly the members action, version and, except for the deck listing, params; params hold only `notes`, only `query` or only `deck` (the other three structs are at src/models/find_notes.rs:5-16, src/models/create_deck.rs:4-14 and src/models/deck_name.rs:4-8) |
| Requests.DecodeEncodeAddNotes | src/models/add_notes.rs:4-35 | an `addNotes` request is read back unchanged from its JSON shape |
| Requests.DecodeEncodeNote | src/models/add_notes.rs:16-35 | a note, with the renamed members deckName, modelName, Front and Back, is read back unchanged |
| Requests.DecodeEncodeMedia | src/models/add_notes.rs:37-62 | an attachment, with the renamed skipHash, is read back unchanged |
| Requests.DecodeEncodeFindNotes | src/models/find_notes.rs:5-16 | a search request is read back unchanged |
| Requests.DecodeEncodeCreateDeck | src/models/create_deck.rs:4-14 | a deck-creation request is read back unchanged |
| Requests.DecodeEncode | src/models/deck_name.rs:4-8 | every request survives the round trip through its JSON shape: the parameterless deck listing proved here, the other three kinds (src/models/add_notes.rs:4-35, src/models/find_notes.rs:5-16, src/models/create_deck.rs:4-14) through their own lemmas |
| Requests.EncodeInjective | src/utils/anki.rs:243-247 | distinct requests have distinct JSON bodies, so a body matcher tells them apart |
| Text.TrimEnd | src/utils/anki.rs:49 | the result is a prefix that does not end in whitespace, and only whitespace was removed |
| Text.TrimEndUnique | src/utils/anki.rs:49 | any prefix with those two properties is the trimmed text |
| Text.TrailingWhitespaceBytes | src/utils/anki.rs:48-50 | the count is the UTF-8 byte length of the removed suffix, and it is zero exactly when nothing is trimmed |
| Text.AppendSpace | src/utils/anki.rs:50-54 | appending a space leaves the trimmed text alone and raises the count by exactly one byte |
| Text.TrailingSpaces | src/utils/anki.rs:50-54 | a front without trailing whitespace plus `k` spaces has a count of exactly `k` |
| Remote.SendPost | src/utils/anki.rs:102-112 | the reply and the next state are exactly the service's own, delivered or failed; the `error` member is only logged |
| Remote.ReplaysAppend | src/utils/anki.rs:19-22 | the exchanges of calls made one after another, each from the state the previous one left, replay as one log |
| Remote.ReplaysUnique | src/utils/anki.rs:102-112 | the requests sent decide everything else: two replayed logs of the same requests from the same state have the same replies and end state |
| Remote.ServiceError | src/utils/anki.rs:108 | something is logged exactly when `error` is present and not null |
| Remote.ReadingsIgnoreError | src/utils/anki.rs:108-111 | replacing the `error` member changes no reading of `result` |
| Remote.ErrorMemberStillDelivered | src/utils/anki.rs:108-111 | a response whose `error` is not null is still handed back as delivered |
| Protocol.SearchQuery | src/utils/anki.rs:90 | the query is "deck:", the deck, one space and the front, nothing escaped |
| Protocol.JoinFollowsProtocol | src/utils/anki.rs:19-22 | deck handling followed by search-and-write is one whole protocol-following attempt |
| Protocol.DeckStopFollowsProtocol | src/utils/anki.rs:63-87 | a malformed listing or a failed `createDeck` ends the attempt with the matching panic |
| Protocol.VerdictNames | src/utils/anki.rs:19-100 | each end of an attempt names the exchange that caused it: created/failed/collision come from `addNotes`, already-present from a search that found the note, each panic from the reply its site cannot read; an attempt never ends unresolved or without a note |
| Reconciler.DeckExists | src/utils/anki.rs:78-87 | one listing request, answered as the service answers it in `s`; "present" exactly when the listing names the deck; "absent" when it failed in transport or lacks the deck; a malformed listing panics |
| Reconciler.CreateDeck | src/utils/anki.rs:73-76 | one `createDeck` request for the deck, answered by the service; success exactly when it was delivered; a transport failure panics |
| Reconciler.CreateDeckIfNotExist | src/utils/anki.rs:63-71 | the listing, then `createDeck` exactly when the listing failed or lacks the deck, with the service's own replies and the state passed on; a malformed listing or a failed creation panics |
| Reconciler.NoteExists | src/utils/anki.rs:89-100 | one search for the note's query, answered by the service; "found" exactly when the id array is non-empty; "not found" on an empty array or a transport failure |
| Reconciler.AlreadyExists | src/utils/anki.rs:59-61 | "collision" exactly when the first id is null, "created" exactly when it is not null; panics when there is no first id |
| Reconciler.AddSpace | src/utils/anki.rs:47-57 | Err exactly when the trailing whitespace exceeds 5 bytes; otherwise the front gains exactly one " ", the trimmed front and every other field are unchanged, and the count rises by one |
| Reconciler.SearchAndWrite | src/utils/anki.rs:20-44 | the search, then the write exactly when the search came back empty or failed, each sent once with the service's own reply; the end is read off the last reply |
| Reconciler.Attempt | src/utils/anki.rs:16-44 | one attempt follows the protocol (listing first, `createDeck` exactly when the deck is missing, then search, then the write) and replays against the service from `s`; its end is the verdict of the last reply |
| Reconciler.CreateNotes | src/utils/anki.rs:14-45 | terminates (the measure is 6 minus the trailing-whitespace count); a request without a note panics before any request; otherwise between 1 and 7 attempts (fewer when the front already ends in whitespace); all attempts together replay against the service from `s` to the returned state |
| ReconcilerProperties.AddSpaceIsRetry | src/utils/anki.rs:54-56 | a successful space-append is the request with one space more |
| ReconcilerProperties.RunIsChained | src/utils/anki.rs:14-45 | each run is a chain of attempts, replayed against the service: attempt `k` is for the front plus `k` spaces, every attempt but the last collided, and the outcome is the last attempt's verdict, or "unresolved" after a final collision with the guard tripped |
| ReconcilerProperties.AttemptAt | src/utils/anki.rs:26-28 | attempt `i` follows the protocol for the front with `i` extra spaces, and ended in a collision if it is not the last |
| ReconcilerProperties.WritesOfAttempt | src/utils/anki.rs:19-22 | an attempt writes at most once, as its last request, and what it writes is its own note |
| ReconcilerProperties.WritesOfChain | src/utils/anki.rs:24-31 | the `k`-th `addNotes` of a run carries the front plus `k` spaces; there is one per attempt, except possibly the last; an unresolved run has exactly one per attempt |
| ReconcilerProperties.ConflictWrites | src/utils/anki.rs:22-28 | an attempt that ended in a collision wrote exactly its own note |
| ReconcilerProperties.WriteBound | src/utils/anki.rs:24-31 | a run sends at most 7 `addNotes` requests, the `k`-th for the front with `k` spaces |
| ReconcilerProperties.AttemptOrder | src/utils/anki.rs:19-22 | an attempt's requests are a prefix of: listing, `createDeck` (only when the listing failed or lacks the deck), search, the note |
| ReconcilerProperties.CreateDeckOnlyWhenMissing | src/utils/anki.rs:63-71 | `createDeck` is only ever the second request, for the note's deck, and only when the listing failed or lacks the deck |
| ReconcilerProperties.ListingOnlyFirst | src/utils/anki.rs:63-65 | the deck listing opens the attempt and is never repeated within it |
| ReconcilerProperties.NoWriteWhenFound | src/utils/anki.rs:20-22 | a search that finds the note is the attempt's last request: no write, and the attempt ends "already present" |
| ReconcilerProperties.WriteWhenNotFound | src/utils/anki.rs:92-99 | a search with an empty result, or failed in transport, is followed by the note itself, as the last request |
| ReconcilerProperties.WriteEndsAttempt | src/utils/anki.rs:22-41 | an `addNotes` is always the last request of its attempt, and it is the attempt's note |
| ReconcilerProperties.FinalWrite | src/utils/anki.rs:32-40 | an `addNotes` answered with an id, or failed in transport, is the last request of the whole run: no retry follows |
| ReconcilerProperties.LastAttemptEnd | src/utils/anki.rs:14-100 | the last exchange of the last attempt accounts for the run's outcome: each end of `create_notes` from its reply, and each panic from the reply its site cannot read (a listing without an object `result` at :86, a failed `createDeck` at :75, a search without an array `result` at :99, an `addNotes` without a first id at :60); a missing note never comes from an exchange |
| ReconcilerProperties.OutcomeOfLastExchange | src/utils/anki.rs:14-100 | the last exchange of the whole run accounts for the outcome: created/unresolved/add-failed from an `addNotes`, already-present from a search that found the note, each panic from the unreadable reply at its site |
| ReconcilerProperties.ListedDeckAttempt | src/utils/anki.rs:19-40 | when the deck is listed and the search is empty, an attempt is exactly listing, search and write, each sent in the state the previous request left, ending in the state after the write, in a failure, a collision or a created note as the service's answer says |
| ReconcilerProperties.MissingDeckAttempt | src/utils/anki.rs:63-71 | when the listing lacks the deck or failed in transport, an attempt is exactly listing, `createDeck`, search and write, each sent in the state the previous request left (so creating the deck may change the store), ending in the state after the write, in a failure, a collision or a created note as the service's answer says |
| ReconcilerProperties.FoundNoteAttempt | src/utils/anki.rs:19-20 | when the deck is listed and the search finds the note, an attempt is exactly the listing and the search, ending "already present" in the state after the search |
| ReconcilerProperties.FoundNoteRun | src/utils/anki.rs:42-44 | when the listing names the deck, a note the service's search finds is never sent, whatever the listing and search did to the service's state: the run is that one attempt, ends "already present", and no `addNotes` reaches the service |
| ReconcilerProperties.MissingDeckFoundRun | src/utils/anki.rs:19-20 | when the listing lacks the deck or failed, the deck is created, and a note the search then finds is never sent: the run is the listing, `createDeck` and the search, ends "already present", and no `addNotes` reaches the service |
| ReconcilerProperties.FailedWriteRun | src/utils/anki.rs:37-40 | an `addNotes` that fails in transport ends the run after that one attempt, with no retry and the outcome "add failed", even when the service stored the note and only the reply was lost |
| ReconcilerProperties.AttemptCollides | src/utils/anki.rs:24-26 | under a service that always reports a collision, every attempt collides |
| ReconcilerProperties.CollisionsExhaustBudget | src/utils/anki.rs:26-31 | when every attempt collides, the run uses its whole retry budget and ends unresolved |
| ReconcilerProperties.SevenWrites | src/utils/anki.rs:24-31 | from a front without trailing whitespace, repeated collisions give exactly 7 `addNotes` requests, whose fronts end in 0 to 6 spaces; then the run stops unresolved |
| ReconcilerProperties.AddSpaceOfNew | src/utils/anki.rs:47-57 | the retry of a freshly built request is the request built from the spaced front, while the guard allows it |
| Scenarios.WireShapes | src/utils/anki.rs:177-234 | each constructor produces exactly the JSON body that the tests' `create_request_body` builds |
| Scenarios.MockAnswer | src/utils/anki.rs:243-247 | the mock server answers with a matching mock's response, and fails exactly when no mock's body matches |
| Scenarios.MockAnswerAt | src/utils/anki.rs:243-247 | the answer is the first matching mock's response |
| Scenarios.ServedBy | src/utils/anki.rs:243-247 | mocks built for requests answer each request with the first mock built for it |
| Scenarios.MockBodies | src/utils/anki.rs:177-223 | each mock's body is the encoding of the request the reconciler builds for it |
| Scenarios.MockReadings | src/utils/anki.rs:194-211 | the search mock reads as "not found"; the write mock's first id is the one it carries |
| Scenarios.ListingReadings | src/utils/anki.rs:215-222 | the tests' listing names "DeckTesting" and lacks "DifferentDeck" |
| Scenarios.ExistingDeckQuery | src/utils/anki.rs:198-202 | the search for "application" in "DeckTesting" is the query the test mocks |
| Scenarios.ExistingDeckNewNote | src/utils/anki.rs:137-154 | `existing_deck_new_note`: exactly a listing, a search and a write reach the mock server, in that order, and the note is created |
| Scenarios.NewDeckAttempt | src/utils/anki.rs:156-175 | the single attempt of `new_deck_new_note`, with its four exchanges |
| Scenarios.NewDeckNewNote | src/utils/anki.rs:156-175 | `new_deck_new_note`: exactly the listing, deck creation, search and write reach the mock server, in that order, and the note is created |
| Scenarios.CollisionRetry | src/utils/anki.rs:47-57 | the retry of "application" is the request for "application " |
| Scenarios.CollisionRun | src/utils/anki.rs:24-34 | a collision answered on the first write is resolved by the first retry: two attempts, the run ends "created" |
| Scenarios.CollisionThenCreated | src/utils/anki.rs:24-34 | in that run exactly two writes reach the mock server: the note, then the note with one trailing space, each after a fresh listing and search |

## Left out

- HTTP, the JSON text format, reqwest and serde's derives. A request is the
  `Request` datatype, and its JSON shape is a `Json` tree. The encoder follows
  serde's field names, renames included.
- Logging (`debug!`, `info!`, `warn!`, `error!`) and the async/tokio
  machinery. Neither changes any value.
- `src/anki.rs` (an older copy that is not compiled), `src/main.rs`,
  `src/config.rs`, `src/utils/translation.rs` and
  `src/traits/to_string_json.rs`. None of them is part of this model.
- What AnkiConnect does with a request. The service is an arbitrary function
  of its state, so the model holds for any deck/note store rather than one
  particular map of decks and set of notes.
- Numbers in JSON are unbounded integers. The ids the service returns are
  `u64` in the tests, and no step of the reconciler computes with them. Floats
  never occur.
- mockito's `.assert()` call counts. The scenarios state the exact sequence
  of requests that reach the server instead, which fixes how often each mock
  is hit.
- Which mock mockito picks when several match one request. The modelled
  server takes the first match; every scenario's mocks have pairwise
  different bodies, so no choice ever arises.
- The collision scenario is not one of the repository's tests. It uses the
  tests' mocks and helpers to exercise the retry path.
- Reconciler.AddSpace: requires the request to hold a note. The `unwrap` at
  src/utils/anki.rs:48 cannot fail where the function is called, because
  `create_notes` has already unwrapped the same first note at
  src/utils/anki.rs:16. `CreateNotes` models that earlier unwrap as the
  `Panicked(NoNote)` outcome.
