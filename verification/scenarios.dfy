/**
 * The repository's own tests of the reconciler, restated against the model:
 * a mock server that answers only request bodies it was given, the request
 * and response bodies the tests build, and the runs the tests expect.
 */
module Scenarios {
  import opened Wrappers
  import opened Json
  import opened Text
  import opened Requests
  import opened Remote
  import opened Protocol
  import opened Reconciler
  import opened ReconcilerProperties

  /** The tests' `create_request_body`: action and version 6, and `params` when given. */
  function RequestBody(action: string, params: Option<Json>): Json {
    var head := map["action" := JStr(action), "version" := JNum(6)];
    match params
    case None => JObj(head)
    case Some(p) => JObj(head["params" := p])
  }

  /** The tests' `create_response_body`: `error` and `result`, each null when absent. */
  function ResponseBody(result: Option<Json>, error: Option<Json>): Json {
    JObj(map[
      "error" := (match error case Some(e) => e case None => JNull),
      "result" := (match result case Some(v) => v case None => JNull)])
  }

  /** The `params` the tests expect an `addNotes` request to carry. */
  function NoteParams(deck: string, front: string, back: string): Json {
    JObj(map["notes" := JArr([JObj(map[
      "deckName" := JStr(deck),
      "modelName" := JStr("Basic"),
      "fields" := JObj(map["Front" := JStr(front), "Back" := JStr(back)]),
      "tags" := JNull,
      "audio" := JNull,
      "video" := JNull,
      "picture" := JNull])])])
  }

  /** Each constructor produces exactly the JSON body the tests' mocks match on. */
  lemma WireShapes(deck: string, front: string, back: string, query: string)
    ensures Encode(NewAddNotes(deck, front, back)) == RequestBody("addNotes", Some(NoteParams(deck, front, back)))
    ensures Encode(NewFindNotes(query)) == RequestBody("findNotes", Some(JObj(map["query" := JStr(query)])))
    ensures Encode(NewCreateDeck(deck)) == RequestBody("createDeck", Some(JObj(map["deck" := JStr(deck)])))
    ensures Encode(NewDeckNames()) == RequestBody("deckNamesAndIds", None)
  {
    var n := NewAddNotes(deck, front, back).notes;
    assert EncodeList(n, EncodeNote) == [EncodeNote(n[0])];
  }

  /** One mock: the request body it matches and the response body it returns. */
  datatype Mock = Mock(request: Json, response: Json)

  /**
   * A mock server: the response of the first mock whose body equals the
   * request's; an unmatched request gets a reply that is not JSON. "First
   * match" is this model's rule, not necessarily mockito's choice among
   * several matching mocks; every scenario below builds its mocks for
   * distinct requests (`BuiltFor`, `EncodeInjective`), so no two of them
   * match the same body and the rule never has to choose.
   */
  function MockAnswer(mocks: seq<Mock>, body: Json): (r: Reply)
    ensures r.Failed? <==> forall i | 0 <= i < |mocks| :: mocks[i].request != body
    ensures r.Delivered? ==> exists i | 0 <= i < |mocks| :: mocks[i].request == body && mocks[i].response == r.body
  {
    if |mocks| == 0 then Failed(NotJson)
    else if mocks[0].request == body then Delivered(mocks[0].response)
    else MockAnswer(mocks[1..], body)
  }

  /** The server answers with the first mock whose body matches, skipping the ones before it. */
  lemma {:induction false} MockAnswerAt(mocks: seq<Mock>, body: Json, k: nat)
    requires k < |mocks| && mocks[k].request == body
    requires forall i | 0 <= i < k :: mocks[i].request != body
    ensures MockAnswer(mocks, body) == Delivered(mocks[k].response)
  {
    if k > 0 {
      assert mocks[0].request != body;
      MockAnswerAt(mocks[1..], body, k - 1);
    }
  }

  function MockServer(mocks: seq<Mock>): Service<()> {
    (u: (), r: Request) => (MockAnswer(mocks, Encode(r)), u)
  }

  /** Each mock's body is the encoding of the request at the same position. */
  predicate BuiltFor(mocks: seq<Mock>, reqs: seq<Request>) {
    |reqs| == |mocks| && forall i | 0 <= i < |mocks| :: mocks[i].request == Encode(reqs[i])
  }

  /**
   * When each mock's body is the encoding of a request, the mock server
   * answers a request with the first mock built for that very request.
   */
  lemma ServedBy(mocks: seq<Mock>, reqs: seq<Request>, k: nat)
    requires BuiltFor(mocks, reqs) && k < |mocks|
    requires forall i | 0 <= i < k :: reqs[i] != reqs[k]
    ensures Answers(MockServer(mocks), (), reqs[k], Delivered(mocks[k].response), ())
  {
    var body := Encode(reqs[k]);
    forall i | 0 <= i < k ensures mocks[i].request != body {
      if mocks[i].request == body {
        EncodeInjective(reqs[i], reqs[k]);
      }
    }
    MockAnswerAt(mocks, body, k);
  }

  const Word := "application"
  const Translation := "εφαρμογή"
  const ExistingDeck := "DeckTesting"
  const NewDeck := "DifferentDeck"

  /** The tests' deck listing: "Default", "English" and the existing deck. */
  const DeckListingMock := Mock(
    RequestBody("deckNamesAndIds", None),
    ResponseBody(Some(JObj(map[
      "Default" := JArr([JNum(1496198395707)]),
      "English" := JArr([JNum(1676819787730)]),
      ExistingDeck := JArr([JNum(1690315099005)])])), None))

  function FindNotesMock(deck: string, front: string): Mock {
    Mock(RequestBody("findNotes", Some(JObj(map["query" := JStr("deck:" + deck + " " + front)]))),
         ResponseBody(Some(JArr([])), None))
  }

  function AddNotesMock(deck: string, front: string, id: Json): Mock {
    Mock(RequestBody("addNotes", Some(NoteParams(deck, front, Translation))),
         ResponseBody(Some(JArr([id])), None))
  }

  function CreateDeckMock(deck: string): Mock {
    Mock(RequestBody("createDeck", Some(JObj(map["deck" := JStr(deck)]))),
         ResponseBody(Some(JNum(1692010870564)), None))
  }

  /** Each mock's body is the encoding of the request the reconciler builds for it. */
  lemma MockBodies(deck: string, front: string, id: Json)
    ensures DeckListingMock.request == Encode(NewDeckNames())
    ensures FindNotesMock(deck, front).request == Encode(NewFindNotes(SearchQuery(deck, front)))
    ensures AddNotesMock(deck, front, id).request == Encode(NewAddNotes(deck, front, Translation))
    ensures CreateDeckMock(deck).request == Encode(NewCreateDeck(deck))
  {
    WireShapes(deck, front, Translation, SearchQuery(deck, front));
  }

  /** How the reconciler reads the mocks' responses. */
  lemma MockReadings(deck: string, front: string, id: Json)
    ensures ReportsNotFound(Delivered(FindNotesMock(deck, front).response))
    ensures FirstId(AddNotesMock(deck, front, id).response) == Some(id)
    ensures id.JNull? ==> ReportsConflict(Delivered(AddNotesMock(deck, front, id).response))
    ensures id.JNum? ==> ReportsCreated(Delivered(AddNotesMock(deck, front, id).response))
  {
    assert NoteIds(AddNotesMock(deck, front, id).response) == Some([id]);
  }

  /** The listing names the existing deck and not the new one. */
  lemma ListingReadings()
    ensures DeckListed(Delivered(DeckListingMock.response), ExistingDeck)
    ensures DeckMissing(Delivered(DeckListingMock.response), NewDeck)
  {
    var decks := DeckListing(DeckListingMock.response);
    assert decks.Some? && decks.value.Keys == {"Default", "English", ExistingDeck};
    assert NewDeck != "Default" && NewDeck != "English" && NewDeck != ExistingDeck by {
      assert NewDeck[0] == 'D' && NewDeck[1] == 'i';
    }
  }

  /**
   * An attempt on the listed deck that finds nothing and writes: the
   * listing, the search for `front` and the write the service answers with
   * `answer` as the note's id.
   */
  function ListedDeckLog(front: string, answer: Json): seq<Exchange> {
    [Exchange(NewDeckNames(), Delivered(DeckListingMock.response)),
     Exchange(NewFindNotes(SearchQuery(ExistingDeck, front)), Delivered(FindNotesMock(ExistingDeck, front).response)),
     Exchange(NewAddNotes(ExistingDeck, front, Translation), Delivered(AddNotesMock(ExistingDeck, front, answer).response))]
  }

  /** Such an attempt issues the listing, the search and the write, and only the last is a write. */
  lemma ListedDeckLogShape(front: string, answer: Json)
    ensures RequestsOf(ListedDeckLog(front, answer))
         == [NewDeckNames(), NewFindNotes(SearchQuery(ExistingDeck, front)), NewAddNotes(ExistingDeck, front, Translation)]
    ensures Writes(ListedDeckLog(front, answer)) == [NewAddNotes(ExistingDeck, front, Translation)]
  {
    var log := ListedDeckLog(front, answer);
    assert RequestsOf(log) == [log[0].request, log[1].request, log[2].request];
    assert Writes(log[1..]) == Writes(log[2..]) == [log[2].request] + Writes(log[3..]);
  }

  /**
   * The attempt for `front` in the listed deck against a server that
   * answers the listing, the search and the write with the tests' mocks.
   */
  lemma ListedDeckRun(mocks: seq<Mock>, front: string, answer: Json)
    requires answer.JNull? || answer.JNum?
    requires Answers(MockServer(mocks), (), NewDeckNames(), Delivered(DeckListingMock.response), ())
    requires Answers(MockServer(mocks), (), NewFindNotes(SearchQuery(ExistingDeck, front)),
                     Delivered(FindNotesMock(ExistingDeck, front).response), ())
    requires Answers(MockServer(mocks), (), NewAddNotes(ExistingDeck, front, Translation),
                     Delivered(AddNotesMock(ExistingDeck, front, answer).response), ())
    ensures Attempt(NewAddNotes(ExistingDeck, front, Translation), MockServer(mocks), ())
         == AttemptRun(if answer.JNull? then Conflict else Stop(Created), ListedDeckLog(front, answer), ())
  {
    var req := NewAddNotes(ExistingDeck, front, Translation);
    ListingReadings();
    MockReadings(ExistingDeck, front, answer);
    assert SearchOf(req) == NewFindNotes(SearchQuery(ExistingDeck, front));
    ListedDeckAttempt(req, MockServer(mocks), (), Delivered(DeckListingMock.response), (),
      Delivered(FindNotesMock(ExistingDeck, front).response), (),
      Delivered(AddNotesMock(ExistingDeck, front, answer).response), ());
  }

  /** The requests of a four-exchange log, in order. */
  lemma RequestsOfFour(log: seq<Exchange>)
    requires |log| == 4
    ensures RequestsOf(log) == [log[0].request, log[1].request, log[2].request, log[3].request]
  {
  }

  /**
   * A run whose first attempt collides, whose guard allows the retry, and
   * whose retry ends with a verdict: exactly those two attempts.
   */
  lemma RetriedOnce(req: Request, service: Service<()>, log1: seq<Exchange>, next: Request,
                    log2: seq<Exchange>, outcome: Outcome)
    requires HasNote(req) && Attempt(req, service, ()) == AttemptRun(Conflict, log1, ())
    requires AddSpace(req) == Ok(next) && HasNote(next)
    requires Attempt(next, service, ()) == AttemptRun(Stop(outcome), log2, ())
    ensures CreateNotes(req, service, ()) == Run(outcome, [log1, log2], ())
  {
    CreateNotesStep(req, service, ());
    SingleAttemptRun(next, service, log2, outcome);
    PairOfSingletons(log1, log2);
  }

  lemma PairOfSingletons<T>(a: T, b: T)
    ensures [a] + [b] == [a, b]
  {
  }

  /** A run whose first attempt ends with a verdict has that attempt alone. */
  lemma SingleAttemptRun(req: Request, service: Service<()>, log: seq<Exchange>, outcome: Outcome)
    requires HasNote(req) && Attempt(req, service, ()) == AttemptRun(Stop(outcome), log, ())
    ensures CreateNotes(req, service, ()) == Run(outcome, [log], ())
    ensures Flatten(CreateNotes(req, service, ()).attempts) == log
  {
    CreateNotesStep(req, service, ());
    assert Flatten([log][1..]) == [];
  }

  // ---------------------------------------------------------------------
  // existing_deck_new_note
  // ---------------------------------------------------------------------

  /** The mocks of `existing_deck_new_note`. */
  const ExistingDeckMocks := [DeckListingMock, FindNotesMock(ExistingDeck, Word),
                              AddNotesMock(ExistingDeck, Word, JNum(1692010871488))]

  /** The requests those mocks are built for, in the same order. */
  const ExistingDeckRequests := [NewDeckNames(), NewFindNotes(SearchQuery(ExistingDeck, Word)),
                                 NewAddNotes(ExistingDeck, Word, Translation)]

  /** Each mock is built for the request at its position. */
  lemma ExistingDeckBodies()
    ensures BuiltFor(ExistingDeckMocks, ExistingDeckRequests)
  {
    MockBodies(ExistingDeck, Word, JNum(1692010871488));
  }

  /** The requests are pairwise different. */
  lemma ExistingDeckRequestsDiffer()
    ensures forall i, j | 0 <= i < j < 3 :: ExistingDeckRequests[i] != ExistingDeckRequests[j]
  {
  }

  /** The server answers each request of the attempt with its own mock. */
  lemma ExistingDeckServer()
    ensures Answers(MockServer(ExistingDeckMocks), (), NewDeckNames(), Delivered(DeckListingMock.response), ())
    ensures Answers(MockServer(ExistingDeckMocks), (), NewFindNotes(SearchQuery(ExistingDeck, Word)),
                    Delivered(FindNotesMock(ExistingDeck, Word).response), ())
    ensures Answers(MockServer(ExistingDeckMocks), (), NewAddNotes(ExistingDeck, Word, Translation),
                    Delivered(AddNotesMock(ExistingDeck, Word, JNum(1692010871488)).response), ())
  {
    var mocks, reqs := ExistingDeckMocks, ExistingDeckRequests;
    ExistingDeckBodies();
    ExistingDeckRequestsDiffer();
    ServedBy(mocks, reqs, 0);
    ServedBy(mocks, reqs, 1);
    ServedBy(mocks, reqs, 2);
  }

  /** The query the tests mock for a search of "application" in "DeckTesting". */
  lemma ExistingDeckQuery()
    ensures SearchQuery(ExistingDeck, Word) == "deck:DeckTesting application"
  {
    var q := SearchQuery(ExistingDeck, Word);
    assert q == "deck:" + "DeckTesting" + " " + "application";
  }

  /**
   * `existing_deck_new_note`: the deck is listed and the search is empty, so
   * exactly one listing, one search and one write go out, and the note is
   * created.
   */
  lemma ExistingDeckNewNote()
    ensures var req := NewAddNotes(ExistingDeck, Word, Translation);
      var r := CreateNotes(req, MockServer(ExistingDeckMocks), ());
      && r.outcome == Created
      && RequestsOf(Flatten(r.attempts))
         == [NewDeckNames(), NewFindNotes("deck:DeckTesting application"), req]
      && Replays(MockServer(ExistingDeckMocks), (), Flatten(r.attempts), ())
  {
    var req := NewAddNotes(ExistingDeck, Word, Translation);
    var log := ListedDeckLog(Word, JNum(1692010871488));
    ExistingDeckServer();
    ListedDeckRun(ExistingDeckMocks, Word, JNum(1692010871488));
    SingleAttemptRun(req, MockServer(ExistingDeckMocks), log, Created);
    ListedDeckLogShape(Word, JNum(1692010871488));
    ExistingDeckQuery();
  }

  // ---------------------------------------------------------------------
  // new_deck_new_note
  // ---------------------------------------------------------------------

  /** The mocks of `new_deck_new_note`. */
  const NewDeckMocks := [DeckListingMock, CreateDeckMock(NewDeck), FindNotesMock(NewDeck, Word),
                         AddNotesMock(NewDeck, Word, JNum(1692010871488))]

  /** The requests those mocks are built for, in the same order. */
  const NewDeckRequests := [NewDeckNames(), NewCreateDeck(NewDeck), NewFindNotes(SearchQuery(NewDeck, Word)),
                            NewAddNotes(NewDeck, Word, Translation)]

  /** Each mock is built for the request at its position. */
  lemma NewDeckBodies()
    ensures BuiltFor(NewDeckMocks, NewDeckRequests)
  {
    MockBodies(NewDeck, Word, JNum(1692010871488));
  }

  /** The requests are pairwise different. */
  lemma NewDeckRequestsDiffer()
    ensures forall i, j | 0 <= i < j < 4 :: NewDeckRequests[i] != NewDeckRequests[j]
  {
  }

  /** The server answers each request of the attempt with its own mock. */
  lemma NewDeckServer()
    ensures Answers(MockServer(NewDeckMocks), (), NewDeckNames(), Delivered(DeckListingMock.response), ())
    ensures Answers(MockServer(NewDeckMocks), (), NewCreateDeck(NewDeck), Delivered(CreateDeckMock(NewDeck).response), ())
    ensures Answers(MockServer(NewDeckMocks), (), NewFindNotes(SearchQuery(NewDeck, Word)),
                    Delivered(FindNotesMock(NewDeck, Word).response), ())
    ensures Answers(MockServer(NewDeckMocks), (), NewAddNotes(NewDeck, Word, Translation),
                    Delivered(AddNotesMock(NewDeck, Word, JNum(1692010871488)).response), ())
  {
    var mocks, reqs := NewDeckMocks, NewDeckRequests;
    NewDeckBodies();
    NewDeckRequestsDiffer();
    ServedBy(mocks, reqs, 0);
    ServedBy(mocks, reqs, 1);
    ServedBy(mocks, reqs, 2);
    ServedBy(mocks, reqs, 3);
  }

  /** The exchanges of `new_deck_new_note`'s single attempt. */
  function NewDeckLog(): seq<Exchange> {
    [Exchange(NewDeckNames(), Delivered(DeckListingMock.response)),
     Exchange(NewCreateDeck(NewDeck), Delivered(CreateDeckMock(NewDeck).response)),
     Exchange(NewFindNotes(SearchQuery(NewDeck, Word)), Delivered(FindNotesMock(NewDeck, Word).response)),
     Exchange(NewAddNotes(NewDeck, Word, Translation), Delivered(AddNotesMock(NewDeck, Word, JNum(1692010871488)).response))]
  }

  /** The single attempt of `new_deck_new_note`: listing, deck creation, search, write. */
  lemma NewDeckAttempt()
    ensures Attempt(NewAddNotes(NewDeck, Word, Translation), MockServer(NewDeckMocks), ())
         == AttemptRun(Stop(Created), NewDeckLog(), ())
  {
    var req := NewAddNotes(NewDeck, Word, Translation);
    NewDeckServer();
    ListingReadings();
    MockReadings(NewDeck, Word, JNum(1692010871488));
    assert SearchOf(req) == NewFindNotes(SearchQuery(NewDeck, Word));
    MissingDeckAttempt(req, MockServer(NewDeckMocks), (), Delivered(DeckListingMock.response), (),
      Delivered(CreateDeckMock(NewDeck).response), (), Delivered(FindNotesMock(NewDeck, Word).response), (),
      Delivered(AddNotesMock(NewDeck, Word, JNum(1692010871488)).response), ());
  }

  /**
   * `new_deck_new_note`: the listing lacks the deck, so the deck is created
   * before the search and the write, and the note is created.
   */
  lemma NewDeckNewNote()
    ensures var req := NewAddNotes(NewDeck, Word, Translation);
      var r := CreateNotes(req, MockServer(NewDeckMocks), ());
      && r.outcome == Created
      && RequestsOf(Flatten(r.attempts))
         == [NewDeckNames(), NewCreateDeck(NewDeck), NewFindNotes(SearchQuery(NewDeck, Word)), req]
      && Replays(MockServer(NewDeckMocks), (), Flatten(r.attempts), ())
  {
    var req := NewAddNotes(NewDeck, Word, Translation);
    var log := NewDeckLog();
    NewDeckAttempt();
    SingleAttemptRun(req, MockServer(NewDeckMocks), log, Created);
    RequestsOfFour(log);
  }

  // ---------------------------------------------------------------------
  // A collision resolved by the first retry
  // ---------------------------------------------------------------------

  /** The front of the retry: the word with one trailing space. */
  const Spaced := Word + " "

  /**
   * A collision: the service refuses "application" (a note in another deck
   * has that front) and accepts "application ".
   */
  const CollisionMocks := [DeckListingMock, FindNotesMock(ExistingDeck, Word),
                           FindNotesMock(ExistingDeck, Spaced),
                           AddNotesMock(ExistingDeck, Word, JNull),
                           AddNotesMock(ExistingDeck, Spaced, JNum(1700000000000))]

  /** The requests those mocks are built for, in the same order. */
  const CollisionRequests := [NewDeckNames(), NewFindNotes(SearchQuery(ExistingDeck, Word)),
                              NewFindNotes(SearchQuery(ExistingDeck, Spaced)),
                              NewAddNotes(ExistingDeck, Word, Translation),
                              NewAddNotes(ExistingDeck, Spaced, Translation)]

  /** Each collision mock is built for the collision request at its position. */
  lemma CollisionBodies()
    ensures BuiltFor(CollisionMocks, CollisionRequests)
  {
    MockBodies(ExistingDeck, Word, JNull);
    MockBodies(ExistingDeck, Spaced, JNum(1700000000000));
  }

  /** The five collision requests are pairwise different. */
  lemma CollisionRequestsDiffer()
    ensures forall i, j | 0 <= i < j < 5 :: CollisionRequests[i] != CollisionRequests[j]
  {
    var reqs := CollisionRequests;
    assert |reqs[1].query| != |reqs[2].query|;
    assert |FrontOf(reqs[3])| != |FrontOf(reqs[4])|;
  }

  /** The server answers the listing and both searches with their own mocks. */
  lemma CollisionServesReads()
    ensures Answers(MockServer(CollisionMocks), (), NewDeckNames(), Delivered(DeckListingMock.response), ())
    ensures Answers(MockServer(CollisionMocks), (), NewFindNotes(SearchQuery(ExistingDeck, Word)),
                    Delivered(FindNotesMock(ExistingDeck, Word).response), ())
    ensures Answers(MockServer(CollisionMocks), (), NewFindNotes(SearchQuery(ExistingDeck, Spaced)),
                    Delivered(FindNotesMock(ExistingDeck, Spaced).response), ())
  {
    CollisionBodies();
    CollisionRequestsDiffer();
    ServedBy(CollisionMocks, CollisionRequests, 0);
    ServedBy(CollisionMocks, CollisionRequests, 1);
    ServedBy(CollisionMocks, CollisionRequests, 2);
  }

  /** The server refuses the first write and accepts the second. */
  lemma CollisionServesWrites()
    ensures Answers(MockServer(CollisionMocks), (), NewAddNotes(ExistingDeck, Word, Translation),
                    Delivered(AddNotesMock(ExistingDeck, Word, JNull).response), ())
    ensures Answers(MockServer(CollisionMocks), (), NewAddNotes(ExistingDeck, Spaced, Translation),
                    Delivered(AddNotesMock(ExistingDeck, Spaced, JNum(1700000000000)).response), ())
  {
    CollisionBodies();
    CollisionRequestsDiffer();
    ServedBy(CollisionMocks, CollisionRequests, 3);
    ServedBy(CollisionMocks, CollisionRequests, 4);
  }

  /** The first attempt of the collision: listed, not found, refused. */
  lemma CollisionFirstAttempt()
    ensures Attempt(NewAddNotes(ExistingDeck, Word, Translation), MockServer(CollisionMocks), ())
         == AttemptRun(Conflict, ListedDeckLog(Word, JNull), ())
  {
    CollisionServesReads();
    CollisionServesWrites();
    ListedDeckRun(CollisionMocks, Word, JNull);
  }

  /** The second attempt of the collision: listed, not found, accepted. */
  lemma CollisionSecondAttempt()
    ensures Attempt(NewAddNotes(ExistingDeck, Spaced, Translation), MockServer(CollisionMocks), ())
         == AttemptRun(Stop(Created), ListedDeckLog(Spaced, JNum(1700000000000)), ())
  {
    CollisionServesReads();
    CollisionServesWrites();
    ListedDeckRun(CollisionMocks, Spaced, JNum(1700000000000));
  }

  /** The retry of "application" is the request for "application ". */
  lemma CollisionRetry()
    ensures AddSpace(NewAddNotes(ExistingDeck, Word, Translation))
         == Ok(NewAddNotes(ExistingDeck, Spaced, Translation))
    ensures TrailingWhitespaceBytes(Spaced) == 1
  {
    var t := TrimEnd(Word);
    assert Word[|Word| - 1] == 'n';
    assert t == Word;
    AddSpaceOfNew(ExistingDeck, Word, Translation);
    AppendSpace(Word);
  }

  /** The whole run: the refused attempt, then the run from the spaced front. */
  lemma CollisionRun()
    ensures CreateNotes(NewAddNotes(ExistingDeck, Word, Translation), MockServer(CollisionMocks), ())
         == Run(Created, [ListedDeckLog(Word, JNull), ListedDeckLog(Spaced, JNum(1700000000000))], ())
  {
    CollisionFirstAttempt();
    CollisionRetry();
    CollisionSecondAttempt();
    RetriedOnce(NewAddNotes(ExistingDeck, Word, Translation), MockServer(CollisionMocks),
      ListedDeckLog(Word, JNull), NewAddNotes(ExistingDeck, Spaced, Translation),
      ListedDeckLog(Spaced, JNum(1700000000000)), Created);
  }

  /** The flat trace of the collision's two attempts, and the writes in it. */
  lemma CollisionTrace()
    ensures var log1 := ListedDeckLog(Word, JNull);
      var log2 := ListedDeckLog(Spaced, JNum(1700000000000));
      && Flatten([log1, log2]) == log1 + log2
      && Writes(log1 + log2) == [NewAddNotes(ExistingDeck, Word, Translation), NewAddNotes(ExistingDeck, Spaced, Translation)]
  {
    var log1 := ListedDeckLog(Word, JNull);
    var log2 := ListedDeckLog(Spaced, JNum(1700000000000));
    var attempts := [log1, log2];
    assert Flatten(attempts[1..]) == log2 by {
      assert Flatten(attempts[1..][1..]) == [];
    }
    ListedDeckLogShape(Word, JNull);
    ListedDeckLogShape(Spaced, JNum(1700000000000));
    WritesAppend(log1, log2);
  }

  /**
   * A collision in another deck, resolved by the first retry: two attempts,
   * the second searching and writing "application ", and exactly two writes,
   * the last with one trailing space on its front.
   */
  lemma CollisionThenCreated()
    ensures var req := NewAddNotes(ExistingDeck, Word, Translation);
      var r := CreateNotes(req, MockServer(CollisionMocks), ());
      && r.outcome == Created
      && |r.attempts| == 2
      && RequestsOf(r.attempts[0]) == [NewDeckNames(), NewFindNotes(SearchQuery(ExistingDeck, Word)), req]
      && RequestsOf(r.attempts[1])
         == [NewDeckNames(), NewFindNotes(SearchQuery(ExistingDeck, Spaced)), NewAddNotes(ExistingDeck, Spaced, Translation)]
      && Writes(Flatten(r.attempts)) == [req, NewAddNotes(ExistingDeck, Spaced, Translation)]
      && TrailingWhitespaceBytes(FrontOf(Writes(Flatten(r.attempts))[1])) == 1
      && Replays(MockServer(CollisionMocks), (), Flatten(r.attempts), ())
  {
    var log1 := ListedDeckLog(Word, JNull);
    var log2 := ListedDeckLog(Spaced, JNum(1700000000000));
    CollisionRun();
    var r := CreateNotes(NewAddNotes(ExistingDeck, Word, Translation), MockServer(CollisionMocks), ());
    assert r.attempts == [log1, log2];
    CollisionRetry();
    CollisionTrace();
    ListedDeckLogShape(Word, JNull);
    ListedDeckLogShape(Spaced, JNum(1700000000000));
  }
}
