/**
 * The request protocol the reconciler follows, stated over the exchanges it
 * logs rather than over its code: which request may come first, which may
 * follow which, which replies let an attempt go on, and how the final reply
 * of an attempt decides its end.
 */
module Protocol {
  import opened Json
  import opened Text
  import opened Requests
  import opened Remote

  /** Where an `unwrap` in the reconciler panics. */
  datatype PanicSite =
    | NoNote              // the request holds no note to read the deck and front from
    | DeckListingShape    // the deck listing's `result` is missing or not an object
    | CreateDeckTransport // the `createDeck` call failed in transport
    | NoteSearchShape     // the search's `result` is missing or not an array
    | AddNotesShape       // the `addNotes` `result` is missing, not an array, or empty

  /** How the procedure ended; the source only logs this, the model returns it. */
  datatype Outcome =
    | Created             // the service assigned an id to the note
    | AlreadyPresent      // the deck already holds a note with this front; nothing was written
    | Unresolved          // the front collided elsewhere and the retry guard tripped
    | AddFailed           // the `addNotes` call failed in transport
    | Panicked(site: PanicSite)

  /** How one attempt ended: with a collision that calls for a retry, or for good. */
  datatype AttemptEnd = Conflict | Stop(outcome: Outcome)

  /** A request that carries at least one note; the first one drives the procedure. */
  predicate HasNote(req: Request) {
    req.AddNotes? && |req.notes| > 0
  }

  function DeckOf(req: Request): string
    requires HasNote(req)
  {
    req.notes[0].deckName
  }

  function FrontOf(req: Request): string
    requires HasNote(req)
  {
    req.notes[0].fields.front
  }

  /** The search run for a note: `deck:<deck> <front>`, with nothing escaped. */
  function SearchQuery(deck: string, front: string): (q: string)
    ensures |q| == 6 + |deck| + |front|
    ensures q[..5] == "deck:" && q[5..5 + |deck|] == deck
    ensures q[5 + |deck|] == ' ' && q[6 + |deck|..] == front
  {
    "deck:" + deck + " " + front
  }

  /** The search an attempt for `req` issues. */
  function SearchOf(req: Request): Request
    requires HasNote(req)
  {
    NewFindNotes(SearchQuery(DeckOf(req), FrontOf(req)))
  }

  /** The same request with `k` spaces appended to the first note's front. */
  function Retry(req: Request, k: nat): (r: Request)
    requires HasNote(req)
    ensures HasNote(r) && DeckOf(r) == DeckOf(req) && FrontOf(r) == FrontOf(req) + Spaces(k)
  {
    var n := req.notes[0];
    req.(notes := req.notes[0 := n.(fields := n.fields.(front := n.fields.front + Spaces(k)))])
  }

  /** `r` is one of the four requests an attempt for `req` may issue, with its exact parameters. */
  predicate Concerns(r: Request, req: Request)
    requires HasNote(req)
  {
    match r
    case DeckNames(_, _) => r == NewDeckNames()
    case CreateDeck(_, _, _) => r == NewCreateDeck(DeckOf(req))
    case FindNotes(_, _, _) => r == SearchOf(req)
    case AddNotes(_, _, _) => r == req
  }

  /** `next` may come straight after `prev` within one attempt. */
  predicate Follows(prev: Request, next: Request) {
    || (prev.DeckNames? && (next.CreateDeck? || next.FindNotes?))
    || (prev.CreateDeck? && next.FindNotes?)
    || (prev.FindNotes? && next.AddNotes?)
  }

  /** The reply in `e` lets the attempt issue a further request. */
  predicate Continues(e: Exchange, deck: string) {
    match e.request
    case DeckNames(_, _) => DeckListed(e.reply, deck) || DeckMissing(e.reply, deck)
    case CreateDeck(_, _, _) => e.reply.Delivered?
    case FindNotes(_, _, _) => ReportsNotFound(e.reply)
    case AddNotes(_, _, _) => false
  }

  /** The deck was created in this attempt (it can only be the second request). */
  predicate CreatedDeck(log: seq<Exchange>) {
    |log| >= 2 && log[1].request.CreateDeck?
  }

  /**
   * One attempt for `req`: it lists the decks first, creates the deck exactly
   * when the listing failed or lacks it, then searches, then writes; every
   * reply but the last lets it go on, and the last does not.
   */
  predicate FollowsProtocol(log: seq<Exchange>, req: Request)
    requires HasNote(req)
  {
    && |log| > 0
    && log[0].request.DeckNames?
    && (forall i | 0 <= i < |log| :: Concerns(log[i].request, req))
    && (forall i | 0 < i < |log| :: Follows(log[i - 1].request, log[i].request))
    && (forall i | 0 <= i < |log| - 1 :: Continues(log[i], DeckOf(req)))
    && !Continues(log[|log| - 1], DeckOf(req))
    && (CreatedDeck(log) <==> DeckMissing(log[0].reply, DeckOf(req)))
  }

  /**
   * The deck part of an attempt that goes on to search: the listing names
   * the deck, or the deck was missing and its creation was delivered.
   */
  predicate DeckSettled(log: seq<Exchange>, deck: string) {
    && 1 <= |log| <= 2
    && log[0].request == NewDeckNames()
    && (|log| == 2 <==> DeckMissing(log[0].reply, deck))
    && (|log| == 1 ==> DeckListed(log[0].reply, deck))
    && (|log| == 2 ==> log[1].request == NewCreateDeck(deck) && log[1].reply.Delivered?)
  }

  /**
   * The search part of an attempt: the search for the front, then the write
   * exactly when the search came back empty.
   */
  predicate SearchSettled(log: seq<Exchange>, req: Request)
    requires HasNote(req)
  {
    && 1 <= |log| <= 2
    && log[0].request == SearchOf(req)
    && (|log| == 2 <==> ReportsNotFound(log[0].reply))
    && (|log| == 2 ==> log[1].request == req)
  }

  /** A settled deck part followed by a search part is a whole attempt. */
  lemma JoinFollowsProtocol(deckLog: seq<Exchange>, searchLog: seq<Exchange>, req: Request)
    requires HasNote(req)
    requires DeckSettled(deckLog, DeckOf(req)) && SearchSettled(searchLog, req)
    ensures FollowsProtocol(deckLog + searchLog, req)
  {
    var log := deckLog + searchLog;
    assert log[|deckLog|] == searchLog[0];
    assert log[|log| - 1] == searchLog[|searchLog| - 1];
    assert CreatedDeck(log) <==> |deckLog| == 2;
  }

  /**
   * An attempt that stops in its deck part: the listing came back malformed,
   * or the deck was missing and its creation failed in transport.
   */
  lemma DeckStopFollowsProtocol(log: seq<Exchange>, req: Request)
    requires HasNote(req)
    requires 1 <= |log| <= 2 && log[0].request == NewDeckNames()
    requires |log| == 1 ==> !DeckListed(log[0].reply, DeckOf(req)) && !DeckMissing(log[0].reply, DeckOf(req))
    requires |log| == 2 ==>
      DeckMissing(log[0].reply, DeckOf(req)) && log[1].request == NewCreateDeck(DeckOf(req)) && log[1].reply.Failed?
    ensures FollowsProtocol(log, req)
    ensures Verdict(log[|log| - 1], DeckOf(req))
         == Stop(Panicked(if |log| == 1 then DeckListingShape else CreateDeckTransport))
  {
  }

  /** How an attempt ends, read off the exchange that stopped it. */
  function Verdict(e: Exchange, deck: string): AttemptEnd
    requires !Continues(e, deck)
  {
    match e.request
    case DeckNames(_, _) => Stop(Panicked(DeckListingShape))
    case CreateDeck(_, _, _) => Stop(Panicked(CreateDeckTransport))
    case FindNotes(_, _, _) =>
      if ReportsFound(e.reply) then Stop(AlreadyPresent) else Stop(Panicked(NoteSearchShape))
    case AddNotes(_, _, _) =>
      if e.reply.Failed? then Stop(AddFailed)
      else if ReportsConflict(e.reply) then Conflict
      else if ReportsCreated(e.reply) then Stop(Created)
      else Stop(Panicked(AddNotesShape))
  }

  /** Each end names the kind of exchange that produced it. */
  lemma VerdictNames(e: Exchange, deck: string)
    requires !Continues(e, deck)
    ensures Verdict(e, deck) == Stop(Created) ==> e.request.AddNotes? && ReportsCreated(e.reply)
    ensures Verdict(e, deck) == Stop(AddFailed) ==> e.request.AddNotes? && e.reply.Failed?
    ensures Verdict(e, deck) == Conflict ==> e.request.AddNotes? && ReportsConflict(e.reply)
    ensures Verdict(e, deck) == Stop(AlreadyPresent) ==> e.request.FindNotes? && ReportsFound(e.reply)
    ensures Verdict(e, deck) != Stop(Unresolved)
    ensures Verdict(e, deck) == Stop(Panicked(DeckListingShape)) ==>
      e.request.DeckNames? && e.reply.Delivered? && DeckListing(e.reply.body).None?
    ensures Verdict(e, deck) == Stop(Panicked(CreateDeckTransport)) ==> e.request.CreateDeck? && e.reply.Failed?
    ensures Verdict(e, deck) == Stop(Panicked(NoteSearchShape)) ==>
      e.request.FindNotes? && e.reply.Delivered? && NoteIds(e.reply.body).None?
    ensures Verdict(e, deck) == Stop(Panicked(AddNotesShape)) ==>
      e.request.AddNotes? && e.reply.Delivered? && FirstId(e.reply.body).None?
    ensures Verdict(e, deck) != Stop(Panicked(NoNote))
  {
  }

  /** The `addNotes` requests among the exchanges, in order. */
  function Writes(log: seq<Exchange>): (w: seq<Request>)
    ensures |w| <= |log|
    ensures forall i | 0 <= i < |w| :: w[i].AddNotes?
  {
    if |log| == 0 then []
    else (if log[0].request.AddNotes? then [log[0].request] else []) + Writes(log[1..])
  }

  lemma {:induction false} WritesAppend(a: seq<Exchange>, b: seq<Exchange>)
    ensures Writes(a + b) == Writes(a) + Writes(b)
    decreases |a|
  {
    if |a| == 0 {
      assert a + b == b;
    } else {
      assert (a + b)[1..] == a[1..] + b;
      WritesAppend(a[1..], b);
    }
  }

  /** Every exchange of every attempt, in the order issued. */
  function Flatten(attempts: seq<seq<Exchange>>): (log: seq<Exchange>)
    ensures |attempts| > 0 ==> |log| >= |attempts[0]|
  {
    if |attempts| == 0 then [] else attempts[0] + Flatten(attempts[1..])
  }

  lemma FlattenSingle(log: seq<Exchange>)
    ensures Flatten([log]) == log
  {
    assert [log][1..] == [];
  }

  lemma FlattenPrepend(log: seq<Exchange>, rest: seq<seq<Exchange>>)
    ensures Flatten([log] + rest) == log + Flatten(rest)
  {
    assert ([log] + rest)[1..] == rest;
  }
}
