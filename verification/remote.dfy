/**
 * The remote-procedure layer: what one POST to the flashcard service gives
 * back (`send_post`), and how the reconciler reads the `result` member of
 * each kind of response. HTTP and the JSON text format are not modelled: a
 * service is any function from its state and a request to a reply and a new
 * state.
 */
module Remote {
  import opened Wrappers
  import opened Json
  import opened Requests

  /** Why a call produced no JSON value (reqwest's error): no connection, or a body that is not JSON. */
  datatype TransportError = Unreachable | NotJson

  /** The outcome of sending a request and decoding the answer as JSON. */
  datatype Reply = Delivered(body: Json) | Failed(error: TransportError)

  /**
   * The flashcard service behind the configured base URL: given its state and
   * a request, the reply the client gets and the state afterwards.
   */
  type Service<!S> = (S, Request) -> (Reply, S)

  /** One request as issued, with the reply it got. */
  datatype Exchange = Exchange(request: Request, reply: Reply)

  /**
   * `log` is what the service answers, in order, when the log's requests are
   * sent to it starting in state `s`, and `after` is the state they leave it
   * in: every reply is the service's own, and no request is missing.
   */
  ghost predicate Replays<S>(service: Service<S>, s: S, log: seq<Exchange>, after: S)
    decreases |log|
  {
    if |log| == 0 then after == s
    else
      && log[0].reply == service(s, log[0].request).0
      && Replays(service, service(s, log[0].request).1, log[1..], after)
  }

  /** Sending one request replays as the one exchange with the service's answer. */
  lemma ReplaysOne<S>(service: Service<S>, s: S, req: Request)
    ensures Replays(service, s, [Exchange(req, service(s, req).0)], service(s, req).1)
  {
    assert [Exchange(req, service(s, req).0)][1..] == [];
  }

  /** Two logs replayed one after the other replay as one. */
  lemma {:induction false} ReplaysAppend<S>(service: Service<S>, s: S, a: seq<Exchange>, m: S, b: seq<Exchange>, t: S)
    requires Replays(service, s, a, m) && Replays(service, m, b, t)
    ensures Replays(service, s, a + b, t)
    decreases |a|
  {
    if |a| == 0 {
      assert a + b == b;
    } else {
      ReplaysAppend(service, service(s, a[0].request).1, a[1..], m, b, t);
      assert (a + b)[1..] == a[1..] + b;
    }
  }

  /**
   * The requests alone decide a replayed log: two logs of the same requests
   * sent from the same state carry the same replies and end in the same state.
   */
  lemma {:induction false} ReplaysUnique<S>(service: Service<S>, s: S, a: seq<Exchange>, sa: S, b: seq<Exchange>, sb: S)
    requires Replays(service, s, a, sa) && Replays(service, s, b, sb)
    requires |a| == |b| && forall i | 0 <= i < |a| :: a[i].request == b[i].request
    ensures a == b && sa == sb
    decreases |a|
  {
    if |a| > 0 {
      ReplaysUnique(service, service(s, a[0].request).1, a[1..], sa, b[1..], sb);
      assert a == [a[0]] + a[1..] && b == [b[0]] + b[1..];
    }
  }

  /** What `send_post` yields: the reply, the `error` member it logs, and the service state after. */
  datatype Posted<S> = Posted(reply: Reply, logged: Option<Json>, after: S)

  /** The `error` member of a response when it is present and not null. */
  function ServiceError(body: Json): (e: Option<Json>)
    ensures e.Some? <==> Get(body, "error").Some? && !IsNull(Get(body, "error").value)
  {
    match Get(body, "error")
    case Some(err) => if IsNull(err) then None else Some(err)
    case None => None
  }

  /**
   * `send_post`: one call to the service. A delivered response is handed back
   * as it came, whatever its `error` member says; that member is only logged.
   */
  function SendPost<S>(service: Service<S>, s: S, req: Request): (p: Posted<S>)
    ensures p.reply == service(s, req).0 && p.after == service(s, req).1
    ensures p.reply.Failed? ==> p.logged.None?
    ensures p.reply.Delivered? ==> p.logged == ServiceError(p.reply.body)
  {
    var (reply, s') := service(s, req);
    match reply
    case Failed(err) => Posted(Failed(err), None, s')
    case Delivered(body) => Posted(Delivered(body), ServiceError(body), s')
  }

  // ---------------------------------------------------------------------
  // Reading the `result` member of a response
  // ---------------------------------------------------------------------

  /** `response.get("result").unwrap().as_object().unwrap()`; `None` where an unwrap would panic. */
  function DeckListing(body: Json): Option<map<string, Json>> {
    match Get(body, "result")
    case Some(v) => AsObject(v)
    case None => None
  }

  /** `response.get("result").unwrap().as_array().unwrap()`; `None` where an unwrap would panic. */
  function NoteIds(body: Json): Option<seq<Json>> {
    match Get(body, "result")
    case Some(v) => AsArray(v)
    case None => None
  }

  /** The first element of the `result` array; `None` where an unwrap would panic. */
  function FirstId(body: Json): Option<Json> {
    match NoteIds(body)
    case Some(ids) => if |ids| > 0 then Some(ids[0]) else None
    case None => None
  }

  /** The deck listing failed to arrive, or arrived without the deck among its keys. */
  predicate DeckMissing(reply: Reply, deck: string) {
    || reply.Failed?
    || (DeckListing(reply.body).Some? && deck !in DeckListing(reply.body).value)
  }

  /** The deck listing arrived and names the deck. */
  predicate DeckListed(reply: Reply, deck: string) {
    reply.Delivered? && DeckListing(reply.body).Some? && deck in DeckListing(reply.body).value
  }

  /** A search reply with at least one matching note id. */
  predicate ReportsFound(reply: Reply) {
    reply.Delivered? && NoteIds(reply.body).Some? && |NoteIds(reply.body).value| > 0
  }

  /** A search that failed to arrive, or arrived with an empty id array. */
  predicate ReportsNotFound(reply: Reply) {
    reply.Failed? || (NoteIds(reply.body).Some? && |NoteIds(reply.body).value| == 0)
  }

  /** An `addNotes` reply whose first id is null: the front collides with a note elsewhere. */
  predicate ReportsConflict(reply: Reply) {
    reply.Delivered? && FirstId(reply.body).Some? && IsNull(FirstId(reply.body).value)
  }

  /** An `addNotes` reply whose first id is not null: the note was stored. */
  predicate ReportsCreated(reply: Reply) {
    reply.Delivered? && FirstId(reply.body).Some? && !IsNull(FirstId(reply.body).value)
  }

  /** A response body with its `error` member replaced. */
  function WithError(body: Json, err: Json): (b: Json)
    ensures body.JObj? ==> b.JObj? && b.members.Keys == body.members.Keys + {"error"}
    ensures body.JObj? ==> forall k | k in body.members && k != "error" :: b.members[k] == body.members[k]
  {
    if body.JObj? then JObj(body.members["error" := err]) else body
  }

  /**
   * Every reading the reconciler takes of a response looks at `result` only:
   * replacing the `error` member, null or not, changes none of them.
   */
  lemma ReadingsIgnoreError(body: Json, err: Json)
    ensures DeckListing(WithError(body, err)) == DeckListing(body)
    ensures NoteIds(WithError(body, err)) == NoteIds(body)
    ensures FirstId(WithError(body, err)) == FirstId(body)
  {
    assert Get(WithError(body, err), "result") == Get(body, "result");
  }

  /**
   * A response carrying a non-null `error` member is still delivered to the
   * caller unchanged: `send_post` does not turn it into a failure.
   */
  lemma ErrorMemberStillDelivered<S>(service: Service<S>, s: S, req: Request)
    requires service(s, req).0.Delivered?
    requires ServiceError(service(s, req).0.body).Some?
    ensures SendPost(service, s, req).reply == service(s, req).0
    ensures SendPost(service, s, req).logged == ServiceError(service(s, req).0.body)
  {
  }
}
