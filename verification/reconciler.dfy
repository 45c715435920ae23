/**
 * The note-creation reconciler (`create_notes` and its helpers): make sure
 * the deck exists, skip the note if the deck already holds its front, send
 * it otherwise, and when the service answers that the front collides with a
 * note in another deck, append one space to the front and start over, until
 * the trailing-whitespace guard trips.
 */
module Reconciler {
  import opened Wrappers
  import opened Json
  import opened Text
  import opened Requests
  import opened Remote
  import opened Protocol

  /** A helper's result, or the panic that ends everything; the exchanges it made; the state after. */
  datatype Step<T, S> = Step(result: Result<T, PanicSite>, log: seq<Exchange>, after: S)

  /** One attempt: how it ended, its exchanges, and the service state after it. */
  datatype AttemptRun<S> = AttemptRun(end: AttemptEnd, log: seq<Exchange>, after: S)

  /** The whole procedure: its outcome, the exchanges of each attempt, and the final service state. */
  datatype Run<S> = Run(outcome: Outcome, attempts: seq<seq<Exchange>>, after: S)

  /** `deck_exists`: lists the decks; a failed listing counts as "absent", a malformed one panics. */
  function DeckExists<S>(deck: string, service: Service<S>, s: S): (r: Step<bool, S>)
    ensures |r.log| == 1 && r.log[0].request == NewDeckNames()
    ensures r.log[0].reply == service(s, NewDeckNames()).0
    ensures r.result == Ok(true) <==> DeckListed(r.log[0].reply, deck)
    ensures r.result == Ok(false) <==> DeckMissing(r.log[0].reply, deck)
    ensures r.result.Err? ==> r.result.error == DeckListingShape
    ensures Replays(service, s, r.log, r.after)
  {
    var req := NewDeckNames();
    var p := SendPost(service, s, req);
    ReplaysOne(service, s, req);
    var log := [Exchange(req, p.reply)];
    match p.reply
    case Failed(_) => Step(Ok(false), log, p.after)
    case Delivered(body) =>
      match DeckListing(body)
      case None => Step(Err(DeckListingShape), log, p.after)
      case Some(decks) => Step(Ok(deck in decks), log, p.after)
  }

  /** `create_deck`: asks for the deck; the transport result is unwrapped, so a failure panics. */
  function CreateDeck<S>(deck: string, service: Service<S>, s: S): (r: Step<(), S>)
    ensures |r.log| == 1 && r.log[0].request == NewCreateDeck(deck)
    ensures r.log[0].reply == service(s, NewCreateDeck(deck)).0
    ensures r.result.Ok? <==> r.log[0].reply.Delivered?
    ensures r.result.Err? ==> r.result.error == CreateDeckTransport
    ensures Replays(service, s, r.log, r.after)
  {
    var req := NewCreateDeck(deck);
    var p := SendPost(service, s, req);
    ReplaysOne(service, s, req);
    var log := [Exchange(req, p.reply)];
    match p.reply
    case Failed(_) => Step(Err(CreateDeckTransport), log, p.after)
    case Delivered(_) => Step(Ok(()), log, p.after)
  }

  /** `create_deck_if_not_exist`: creates the deck unless the listing names it. */
  function CreateDeckIfNotExist<S>(deck: string, service: Service<S>, s: S): (r: Step<(), S>)
    ensures 1 <= |r.log| <= 2 && r.log[0].request == NewDeckNames()
    ensures |r.log| == 2 <==> DeckMissing(r.log[0].reply, deck)
    ensures |r.log| == 2 ==> r.log[1].request == NewCreateDeck(deck)
    ensures r.result.Ok? <==>
      DeckListed(r.log[0].reply, deck) || (|r.log| == 2 && r.log[1].reply.Delivered?)
    ensures r.result.Err? ==>
      r.result.error == (if |r.log| == 1 then DeckListingShape else CreateDeckTransport)
    ensures Replays(service, s, r.log, r.after)
  {
    var e := DeckExists(deck, service, s);
    match e.result
    case Err(site) => Step(Err(site), e.log, e.after)
    case Ok(true) => Step(Ok(()), e.log, e.after)
    case Ok(false) =>
      var c := CreateDeck(deck, service, e.after);
      ReplaysAppend(service, s, e.log, e.after, c.log, c.after);
      Step(c.result, e.log + c.log, c.after)
  }

  /** `note_exists`: searches the deck for the front; a failed search counts as "not found". */
  function NoteExists<S>(deck: string, front: string, service: Service<S>, s: S): (r: Step<bool, S>)
    ensures |r.log| == 1 && r.log[0].request == NewFindNotes(SearchQuery(deck, front))
    ensures r.result == Ok(true) <==> ReportsFound(r.log[0].reply)
    ensures r.result == Ok(false) <==> ReportsNotFound(r.log[0].reply)
    ensures r.result.Err? ==> r.result.error == NoteSearchShape
    ensures r.log[0].reply == service(s, r.log[0].request).0
    ensures Replays(service, s, r.log, r.after)
  {
    var req := NewFindNotes(SearchQuery(deck, front));
    var p := SendPost(service, s, req);
    ReplaysOne(service, s, req);
    var log := [Exchange(req, p.reply)];
    match p.reply
    case Failed(_) => Step(Ok(false), log, p.after)
    case Delivered(body) =>
      match NoteIds(body)
      case None => Step(Err(NoteSearchShape), log, p.after)
      case Some(ids) => Step(Ok(|ids| > 0), log, p.after)
  }

  /** `already_exists`: whether the first id of an `addNotes` result is null; panics if there is none. */
  function AlreadyExists(body: Json): (r: Result<bool, PanicSite>)
    ensures r == Ok(true) <==> ReportsConflict(Delivered(body))
    ensures r == Ok(false) <==> ReportsCreated(Delivered(body))
    ensures r.Err? ==> r.error == AddNotesShape
  {
    match FirstId(body)
    case None => Err(AddNotesShape)
    case Some(id) => Ok(IsNull(id))
  }

  /**
   * `add_space_to_note`: appends one space to the first note's front, unless
   * that front already ends in more than five bytes of whitespace.
   */
  function AddSpace(req: Request): (r: Result<Request, string>)
    requires HasNote(req)
    ensures r.Err? <==> TrailingWhitespaceBytes(FrontOf(req)) > 5
    ensures r.Ok? ==> HasNote(r.value) && |r.value.notes| == |req.notes|
    ensures r.Ok? ==> r.value.action == req.action && r.value.version == req.version
    ensures r.Ok? ==> FrontOf(r.value) == FrontOf(req) + " "
    ensures r.Ok? ==> r.value.notes[0].fields.back == req.notes[0].fields.back
    ensures r.Ok? ==> r.value.notes[0].(fields := req.notes[0].fields) == req.notes[0]
    ensures r.Ok? ==> forall i | 1 <= i < |req.notes| :: r.value.notes[i] == req.notes[i]
    ensures r.Ok? ==> TrimEnd(FrontOf(r.value)) == TrimEnd(FrontOf(req))
    ensures r.Ok? ==>
      TrailingWhitespaceBytes(FrontOf(r.value)) == TrailingWhitespaceBytes(FrontOf(req)) + 1
  {
    var front := FrontOf(req);
    if TrailingWhitespaceBytes(front) > 5 then Err("Too many instances")
    else
      AppendSpace(front);
      var n := req.notes[0];
      Ok(req.(notes := req.notes[0 := n.(fields := n.fields.(front := front + " "))]))
  }

  /**
   * The rest of a pass once the deck is in place: the search for the front,
   * and the write unless the search found the note or failed.
   */
  function SearchAndWrite<S>(req: Request, service: Service<S>, s: S): (a: AttemptRun<S>)
    requires HasNote(req)
    ensures SearchSettled(a.log, req)
    ensures !Continues(a.log[|a.log| - 1], DeckOf(req))
    ensures a.end == Verdict(a.log[|a.log| - 1], DeckOf(req))
    ensures Replays(service, s, a.log, a.after)
  {
    var e := NoteExists(DeckOf(req), FrontOf(req), service, s);
    if e.result.Err? then AttemptRun(Stop(Panicked(e.result.error)), e.log, e.after)
    else if e.result.value then AttemptRun(Stop(AlreadyPresent), e.log, e.after)
    else
      var p := SendPost(service, e.after, req);
      var log := e.log + [Exchange(req, p.reply)];
      ReplaysOne(service, e.after, req);
      ReplaysAppend(service, s, e.log, e.after, [Exchange(req, p.reply)], p.after);
      match p.reply
      case Failed(_) => AttemptRun(Stop(AddFailed), log, p.after)
      case Delivered(body) =>
        match AlreadyExists(body)
        case Err(site) => AttemptRun(Stop(Panicked(site)), log, p.after)
        case Ok(true) => AttemptRun(Conflict, log, p.after)
        case Ok(false) => AttemptRun(Stop(Created), log, p.after)
  }

  /** One pass of `create_notes` up to the point where it would recurse. */
  function Attempt<S>(req: Request, service: Service<S>, s: S): (a: AttemptRun<S>)
    requires HasNote(req)
    ensures FollowsProtocol(a.log, req)
    ensures a.end == Verdict(a.log[|a.log| - 1], DeckOf(req))
    ensures Replays(service, s, a.log, a.after)
  {
    var d := CreateDeckIfNotExist(DeckOf(req), service, s);
    if d.result.Err? then
      DeckStopFollowsProtocol(d.log, req);
      AttemptRun(Stop(Panicked(d.result.error)), d.log, d.after)
    else
      var t := SearchAndWrite(req, service, d.after);
      JoinFollowsProtocol(d.log, t.log, req);
      ReplaysAppend(service, s, d.log, d.after, t.log, t.after);
      assert (d.log + t.log)[|d.log + t.log| - 1] == t.log[|t.log| - 1];
      AttemptRun(t.end, d.log + t.log, t.after)
  }

  /** The most attempts a front that ends in `t` bytes of whitespace can get. */
  function RetryBudget(t: nat): nat {
    if t <= 6 then 7 - t else 1
  }

  /** The measure the recursion of `create_notes` decreases. */
  function FrontMeasure(req: Request): int {
    if HasNote(req) then 6 - TrailingWhitespaceBytes(FrontOf(req)) else 0
  }

  /**
   * `create_notes`: attempts the note, and on a collision retries with one
   * more trailing space. The attempts are bounded by the guard: at most
   * seven from a front without trailing whitespace.
   */
  function CreateNotes<S>(req: Request, service: Service<S>, s: S): (r: Run<S>)
    requires req.AddNotes?
    ensures !HasNote(req) <==> r.outcome == Panicked(NoNote)
    ensures !HasNote(req) ==> r.attempts == []
    ensures HasNote(req) ==>
      1 <= |r.attempts| <= RetryBudget(TrailingWhitespaceBytes(FrontOf(req)))
    ensures Replays(service, s, Flatten(r.attempts), r.after)
    decreases FrontMeasure(req)
  {
    if |req.notes| == 0 then Run(Panicked(NoNote), [], s)
    else
      var a := Attempt(req, service, s);
      FlattenSingle(a.log);
      if a.end.Stop? then Run(a.end.outcome, [a.log], a.after)
      else
        match AddSpace(req)
        case Err(_) => Run(Unresolved, [a.log], a.after)
        case Ok(next) =>
          var rest := CreateNotes(next, service, a.after);
          FlattenPrepend(a.log, rest.attempts);
          ReplaysAppend(service, s, a.log, a.after, Flatten(rest.attempts), rest.after);
          Run(rest.outcome, [a.log] + rest.attempts, rest.after)
  }
}
