/**
 * What every run of the reconciler looks like, whatever the service answers:
 * each attempt follows the request protocol for the front with one more
 * space than the attempt before, only collisions lead to another attempt,
 * and the number of `addNotes` requests is bounded by the retry guard.
 */
module ReconcilerProperties {
  import opened Wrappers
  import opened Json
  import opened Text
  import opened Requests
  import opened Remote
  import opened Protocol
  import opened Reconciler

  /** The requests of a log, in order. */
  function RequestsOf(log: seq<Exchange>): (rs: seq<Request>)
    ensures |rs| == |log|
    ensures forall i | 0 <= i < |log| :: rs[i] == log[i].request
  {
    if |log| == 0 then [] else [log[0].request] + RequestsOf(log[1..])
  }

  /** How an attempt that follows the protocol ended. */
  function EndOf(log: seq<Exchange>, req: Request): AttemptEnd
    requires HasNote(req) && FollowsProtocol(log, req)
  {
    Verdict(log[|log| - 1], DeckOf(req))
  }

  /**
   * The attempts and the outcome of a reconciliation of `req`: the first
   * attempt is for `req`; if it is the only one, a collision means the guard
   * has tripped and the outcome is "unresolved", and any other end is the
   * outcome; if more follow, the first ended in a collision while the guard
   * still allowed a retry, and the rest reconcile the front with one more
   * space.
   */
  predicate Reconciles(attempts: seq<seq<Exchange>>, req: Request, outcome: Outcome)
    requires HasNote(req)
    decreases |attempts|
  {
    && |attempts| > 0
    && FollowsProtocol(attempts[0], req)
    && var e := EndOf(attempts[0], req);
       var guardTripped := TrailingWhitespaceBytes(FrontOf(req)) > 5;
       if |attempts| == 1 then
         && (e.Conflict? ==> outcome == Unresolved && guardTripped)
         && (e.Stop? ==> outcome == e.outcome)
       else
         && e.Conflict? && !guardTripped
         && Reconciles(attempts[1..], Retry(req, 1), outcome)
  }

  /** What `Reconciles` says about the first attempt and the ones after it. */
  lemma ReconcilesHead(attempts: seq<seq<Exchange>>, req: Request, outcome: Outcome)
    requires HasNote(req) && Reconciles(attempts, req, outcome)
    ensures |attempts| > 0 && FollowsProtocol(attempts[0], req)
    ensures |attempts| > 1 ==>
      EndOf(attempts[0], req).Conflict? && Reconciles(attempts[1..], Retry(req, 1), outcome)
    ensures |attempts| == 1 && outcome == Unresolved ==> EndOf(attempts[0], req).Conflict?
  {
  }

  /** The attempts after the first reconcile the front with one more space. */
  lemma ReconcilesTail(attempts: seq<seq<Exchange>>, req: Request, outcome: Outcome)
    requires HasNote(req) && Reconciles(attempts, req, outcome) && |attempts| > 1
    ensures Reconciles(attempts[1..], Retry(req, 1), outcome)
  {
  }

  /** A single attempt decides the outcome: a collision means "unresolved". */
  lemma ReconcilesSingle(attempts: seq<seq<Exchange>>, req: Request, outcome: Outcome)
    requires HasNote(req) && Reconciles(attempts, req, outcome) && |attempts| == 1
    ensures Settles(attempts[0], req, outcome)
  {
  }

  lemma LastOfTail<T>(xs: seq<T>)
    requires |xs| > 1
    ensures xs[1..][|xs| - 2] == xs[|xs| - 1]
  {
  }

  lemma FlattenCons(attempts: seq<seq<Exchange>>)
    requires |attempts| > 0
    ensures Flatten(attempts) == attempts[0] + Flatten(attempts[1..])
  {
  }

  /** An exchange of the flat trace past the first attempt is one of the rest's. */
  lemma FlattenBeyondFirst(attempts: seq<seq<Exchange>>, j: nat)
    requires |attempts| > 0 && |attempts[0]| <= j < |Flatten(attempts)|
    ensures |attempts| > 1 && j - |attempts[0]| < |Flatten(attempts[1..])|
    ensures Flatten(attempts[1..])[j - |attempts[0]|] == Flatten(attempts)[j]
    ensures Flatten(attempts[1..])[j - |attempts[0]|].request == Flatten(attempts)[j].request
    ensures Flatten(attempts[1..])[j - |attempts[0]|].reply == Flatten(attempts)[j].reply
  {
    FlattenIndex(attempts, j);
  }

  /**
   * Exchange `j` of the flat trace is exchange `p` of attempt `i`; it is the
   * trace's last exactly when it is the last of the last attempt.
   */
  lemma {:induction false} FlattenLocate(attempts: seq<seq<Exchange>>, j: nat) returns (i: nat, p: nat)
    requires j < |Flatten(attempts)|
    ensures i < |attempts| && p < |attempts[i]| && Flatten(attempts)[j] == attempts[i][p]
    ensures i == |attempts| - 1 && p == |attempts[i]| - 1 ==> j == |Flatten(attempts)| - 1
    decreases |attempts|
  {
    assert |attempts| > 0;
    FlattenIndex(attempts, j);
    if j < |attempts[0]| {
      i, p := 0, j;
    } else {
      FlattenBeyondFirst(attempts, j);
      var k, q := FlattenLocate(attempts[1..], j - |attempts[0]|);
      i, p := k + 1, q;
    }
  }

  /** Where exchange `j` of the flat trace sits: in the first attempt or in the rest. */
  lemma FlattenIndex(attempts: seq<seq<Exchange>>, j: nat)
    requires |attempts| > 0 && j < |Flatten(attempts)|
    ensures |Flatten(attempts)| == |attempts[0]| + |Flatten(attempts[1..])|
    ensures j < |attempts[0]| ==> Flatten(attempts)[j] == attempts[0][j]
    ensures j >= |attempts[0]| ==> Flatten(attempts)[j] == Flatten(attempts[1..])[j - |attempts[0]|]
    ensures |attempts| == 1 ==> Flatten(attempts) == attempts[0]
  {
    assert |attempts| == 1 ==> Flatten(attempts[1..]) == [];
  }

  /** One step of `CreateNotes`: stop on a verdict, give up when the guard trips, else recurse. */
  lemma CreateNotesStep<S>(req: Request, service: Service<S>, s: S)
    requires HasNote(req)
    ensures var a := Attempt(req, service, s);
      && (a.end.Stop? ==> CreateNotes(req, service, s) == Run(a.end.outcome, [a.log], a.after))
      && (a.end.Conflict? && AddSpace(req).Err? ==>
            CreateNotes(req, service, s) == Run(Unresolved, [a.log], a.after))
      && (a.end.Conflict? && AddSpace(req).Ok? ==>
            var rest := CreateNotes(AddSpace(req).value, service, a.after);
            CreateNotes(req, service, s) == Run(rest.outcome, [a.log] + rest.attempts, rest.after))
  {
  }

  lemma RetryRetry(req: Request, j: nat, k: nat)
    requires HasNote(req)
    ensures Retry(Retry(req, j), k) == Retry(req, j + k)
  {
    var f := FrontOf(req);
    assert Spaces(j) + Spaces(k) == Spaces(j + k);
    assert (f + Spaces(j)) + Spaces(k) == f + Spaces(j + k);
  }

  /** A successful `AddSpace` is the retry with one space. */
  lemma AddSpaceIsRetry(req: Request)
    requires HasNote(req)
    requires AddSpace(req).Ok?
    ensures AddSpace(req).value == Retry(req, 1)
  {
    assert Spaces(1) == " ";
  }

  /**
   * Every run: the attempts are chained, and the outcome is the verdict of
   * the last attempt, except that a final collision is "unresolved" and
   * happens only once the guard has tripped.
   */
  lemma {:induction false} RunIsChained<S>(req: Request, service: Service<S>, s: S)
    requires HasNote(req)
    ensures var r := CreateNotes(req, service, s); Reconciles(r.attempts, req, r.outcome)
    ensures var r := CreateNotes(req, service, s); Replays(service, s, Flatten(r.attempts), r.after)
    decreases FrontMeasure(req)
  {
    var r := CreateNotes(req, service, s);
    var a := Attempt(req, service, s);
    CreateNotesStep(req, service, s);
    if a.end.Conflict? && AddSpace(req).Ok? {
      var next := AddSpace(req).value;
      AddSpaceIsRetry(req);
      var rest := CreateNotes(next, service, a.after);
      RunIsChained(next, service, a.after);
      assert r.attempts[1..] == rest.attempts;
    }
  }

  lemma RetryZero(req: Request)
    requires HasNote(req)
    ensures Retry(req, 0) == req
  {
    assert FrontOf(req) + Spaces(0) == FrontOf(req);
  }

  /** Only the last request of an attempt can be an `addNotes`. */
  lemma WritesOfAttempt(log: seq<Exchange>, req: Request)
    requires HasNote(req) && FollowsProtocol(log, req)
    ensures Writes(log) == (if log[|log| - 1].request.AddNotes? then [req] else [])
  {
    NoWriteBeforeLast(log, req);
    WritesOfLast(log);
    assert Concerns(log[|log| - 1].request, req);
  }

  lemma NoWriteBeforeLast(log: seq<Exchange>, req: Request)
    requires HasNote(req) && FollowsProtocol(log, req)
    ensures forall i | 0 <= i < |log| - 1 :: !log[i].request.AddNotes?
  {
    forall i | 0 <= i < |log| - 1 ensures !log[i].request.AddNotes? {
      assert Follows(log[i].request, log[i + 1].request);
    }
  }

  /** A log whose only possible write is its last exchange writes at most that. */
  lemma {:induction false} WritesOfLast(log: seq<Exchange>)
    requires |log| > 0
    requires forall i | 0 <= i < |log| - 1 :: !log[i].request.AddNotes?
    ensures Writes(log) == (if log[|log| - 1].request.AddNotes? then [log[|log| - 1].request] else [])
    decreases |log|
  {
    if |log| == 1 {
      assert log == [log[0]];
      WritesSingle(log[0]);
    } else {
      var rest := log[1..];
      assert forall i | 0 <= i < |rest| - 1 :: rest[i] == log[i + 1];
      WritesOfLast(rest);
      LastOfTail(log);
      assert Writes(log) == Writes(rest);
    }
  }

  lemma WritesSingle(e: Exchange)
    ensures Writes([e]) == (if e.request.AddNotes? then [e.request] else [])
  {
    assert [e][1..] == [];
  }

  lemma {:induction false} NoWrites(log: seq<Exchange>)
    requires forall i | 0 <= i < |log| :: !log[i].request.AddNotes?
    ensures Writes(log) == []
  {
    if |log| > 0 {
      NoWrites(log[1..]);
    }
  }

  /**
   * The `addNotes` requests of a reconciliation are the note with 0, 1, 2, …
   * extra spaces, one per attempt except possibly the last.
   */
  lemma {:induction false} WritesOfChain(attempts: seq<seq<Exchange>>, req: Request, outcome: Outcome)
    requires HasNote(req) && Reconciles(attempts, req, outcome)
    ensures var w := Writes(Flatten(attempts));
      && |attempts| - 1 <= |w| <= |attempts|
      && (outcome == Unresolved ==> |w| == |attempts|)
      && forall k | 0 <= k < |w| :: w[k] == Retry(req, k)
    decreases |attempts|
  {
    ReconcilesHead(attempts, req, outcome);
    if |attempts| > 1 {
      WritesOfChain(attempts[1..], Retry(req, 1), outcome);
      WritesOfNext(attempts, req, outcome);
    } else {
      ReconcilesSingle(attempts, req, outcome);
      FlattenOnly(attempts);
      WritesOfFirst(attempts[0], req, outcome);
    }
  }

  /** A lone attempt writes its note at most once, and exactly once when it collided. */
  lemma WritesOfFirst(log: seq<Exchange>, req: Request, outcome: Outcome)
    requires HasNote(req) && Settles(log, req, outcome)
    ensures var w := Writes(log);
      && |w| <= 1
      && (outcome == Unresolved ==> |w| == 1)
      && forall k | 0 <= k < |w| :: w[k] == Retry(req, k)
  {
    WritesOfAttempt(log, req);
    RetryZero(req);
    if outcome == Unresolved {
      UnresolvedEndsInWrite(log, req);
    }
  }

  lemma FlattenOnly(attempts: seq<seq<Exchange>>)
    requires |attempts| == 1
    ensures Flatten(attempts) == attempts[0]
  {
    assert attempts == [attempts[0]];
    FlattenSingle(attempts[0]);
  }

  /** An attempt that leaves the run unresolved ended with a write. */
  lemma UnresolvedEndsInWrite(log: seq<Exchange>, req: Request)
    requires HasNote(req) && Settles(log, req, Unresolved)
    ensures log[|log| - 1].request.AddNotes?
  {
    VerdictNames(log[|log| - 1], DeckOf(req));
  }

  /** A collision followed by the writes of the retries: the note itself comes first. */
  lemma WritesOfNext(attempts: seq<seq<Exchange>>, req: Request, outcome: Outcome)
    requires HasNote(req) && |attempts| > 1
    requires FollowsProtocol(attempts[0], req) && EndOf(attempts[0], req).Conflict?
    requires var w := Writes(Flatten(attempts[1..]));
      && |attempts[1..]| - 1 <= |w| <= |attempts[1..]|
      && (outcome == Unresolved ==> |w| == |attempts[1..]|)
      && forall k | 0 <= k < |w| :: w[k] == Retry(Retry(req, 1), k)
    ensures var w := Writes(Flatten(attempts));
      && |attempts| - 1 <= |w| <= |attempts|
      && (outcome == Unresolved ==> |w| == |attempts|)
      && forall k | 0 <= k < |w| :: w[k] == Retry(req, k)
  {
    FlattenCons(attempts);
    WritesAppend(attempts[0], Flatten(attempts[1..]));
    ConflictWrites(attempts[0], req);
    ShiftWrites(Writes(Flatten(attempts[1..])), req);
  }

  /** An attempt that ended in a collision wrote exactly its own note. */
  lemma ConflictWrites(log: seq<Exchange>, req: Request)
    requires HasNote(req) && FollowsProtocol(log, req) && EndOf(log, req).Conflict?
    ensures Writes(log) == [req]
  {
    WritesOfAttempt(log, req);
  }

  /** Prepending the note itself to the writes for the front with one more space. */
  lemma ShiftWrites(wr: seq<Request>, req: Request)
    requires HasNote(req)
    requires forall k | 0 <= k < |wr| :: wr[k] == Retry(Retry(req, 1), k)
    ensures forall k | 0 <= k < |[req] + wr| :: ([req] + wr)[k] == Retry(req, k)
  {
    RetryZero(req);
    forall k | 1 <= k < |[req] + wr| ensures ([req] + wr)[k] == Retry(req, k) {
      RetryRetry(req, 1, k - 1);
    }
  }

  /**
   * Request-count bound: a run sends at most seven `addNotes` requests (fewer
   * when the front already ends in whitespace), the `k`-th of them for the
   * front with `k` extra spaces.
   */
  lemma WriteBound<S>(req: Request, service: Service<S>, s: S)
    requires HasNote(req)
    ensures var w := Writes(Flatten(CreateNotes(req, service, s).attempts));
      && |w| <= RetryBudget(TrailingWhitespaceBytes(FrontOf(req))) <= 7
      && forall k | 0 <= k < |w| :: w[k] == Retry(req, k)
  {
    var r := CreateNotes(req, service, s);
    RunIsChained(req, service, s);
    WritesOfChain(r.attempts, req, r.outcome);
  }

  // ---------------------------------------------------------------------
  // Within one attempt
  // ---------------------------------------------------------------------

  /** The longest request sequence an attempt for `req` can issue. */
  function FullAttempt(req: Request, createDeck: bool): seq<Request>
    requires HasNote(req)
  {
    [NewDeckNames()]
    + (if createDeck then [NewCreateDeck(DeckOf(req))] else [])
    + [SearchOf(req), req]
  }

  /**
   * Ordering: an attempt lists the decks, then creates the deck (only when
   * the listing failed or lacks it), then searches, then writes, stopping
   * early only where a reply does not let it go on.
   */
  lemma AttemptOrder(log: seq<Exchange>, req: Request)
    requires HasNote(req) && FollowsProtocol(log, req)
    ensures RequestsOf(log) <= FullAttempt(req, DeckMissing(log[0].reply, DeckOf(req)))
  {
    var full := FullAttempt(req, DeckMissing(log[0].reply, DeckOf(req)));
    if |log| > 1 { assert Follows(log[0].request, log[1].request); }
    if |log| > 2 { assert Follows(log[1].request, log[2].request); }
    if |log| > 3 { assert Follows(log[2].request, log[3].request); }
    assert |log| <= |full|;
    forall i | 0 <= i < |log| ensures log[i].request == full[i] {
      assert Concerns(log[i].request, req);
    }
  }

  /** `createDeck` is only ever the second request, and only when the listing failed or lacks the deck. */
  lemma CreateDeckOnlyWhenMissing(log: seq<Exchange>, req: Request, i: nat)
    requires HasNote(req) && FollowsProtocol(log, req)
    requires i < |log| && log[i].request.CreateDeck?
    ensures i == 1 && DeckMissing(log[0].reply, DeckOf(req))
    ensures log[i].request == NewCreateDeck(DeckOf(req))
  {
    assert Concerns(log[i].request, req);
    assert Follows(log[i - 1].request, log[i].request);
    ListingOnlyFirst(log, req, i - 1);
  }

  /** The deck listing opens the attempt and is never repeated within it. */
  lemma ListingOnlyFirst(log: seq<Exchange>, req: Request, k: nat)
    requires HasNote(req) && FollowsProtocol(log, req)
    requires k < |log| && log[k].request.DeckNames?
    ensures k == 0
  {
    assert k > 0 ==> Follows(log[k - 1].request, log[k].request);
  }

  /** No write when it already exists: a search that finds the note is the attempt's last request. */
  lemma NoWriteWhenFound(log: seq<Exchange>, req: Request, i: nat)
    requires HasNote(req) && FollowsProtocol(log, req)
    requires i < |log| && log[i].request.FindNotes? && ReportsFound(log[i].reply)
    ensures i == |log| - 1
    ensures Writes(log) == []
    ensures EndOf(log, req) == Stop(AlreadyPresent)
  {
    WritesOfAttempt(log, req);
  }

  /**
   * A search that fails in transport counts as "not found", as does an empty
   * result: the note itself is sent next, as the attempt's last request.
   */
  lemma WriteWhenNotFound(log: seq<Exchange>, req: Request, i: nat)
    requires HasNote(req) && FollowsProtocol(log, req)
    requires i < |log| && log[i].request.FindNotes? && ReportsNotFound(log[i].reply)
    ensures i + 1 == |log| - 1 && log[i + 1].request == req
    ensures Writes(log) == [req]
  {
    assert Continues(log[i], DeckOf(req));
    assert i + 1 < |log|;
    assert Follows(log[i].request, log[i + 1].request);
    assert i + 2 < |log| ==> Follows(log[i + 1].request, log[i + 2].request);
    assert Concerns(log[i + 1].request, req);
    WritesOfAttempt(log, req);
  }

  // ---------------------------------------------------------------------
  // Across attempts
  // ---------------------------------------------------------------------

  /** Attempt `i` of a reconciliation follows the protocol for the front with `i` extra spaces. */
  lemma AttemptAt(attempts: seq<seq<Exchange>>, req: Request, outcome: Outcome, i: nat)
    requires HasNote(req) && Reconciles(attempts, req, outcome)
    requires i < |attempts|
    ensures FollowsProtocol(attempts[i], Retry(req, i))
    ensures i < |attempts| - 1 ==> EndOf(attempts[i], Retry(req, i)) == Conflict
  {
    RetryZero(req);
    assert attempts[0..] == attempts;
    AttemptAtFrom(attempts, req, outcome, 0, i);
  }

  /** The same, walking the attempts from the `k`-th, which the run from there reconciles. */
  lemma {:induction false} AttemptAtFrom(attempts: seq<seq<Exchange>>, req: Request, outcome: Outcome, k: nat, i: nat)
    requires HasNote(req) && k <= i < |attempts|
    requires Reconciles(attempts[k..], Retry(req, k), outcome)
    ensures FollowsProtocol(attempts[i], Retry(req, i))
    ensures i < |attempts| - 1 ==> EndOf(attempts[i], Retry(req, i)) == Conflict
    decreases i - k
  {
    if k == i {
      ReconcilesHead(attempts[k..], Retry(req, k), outcome);
      assert attempts[k..][0] == attempts[i];
    } else {
      ReconcilesShift(attempts, req, outcome, k);
      AttemptAtFrom(attempts, req, outcome, k + 1, i);
    }
  }

  /** The run from attempt `k + 1` reconciles the retry with one more space. */
  lemma ReconcilesShift(attempts: seq<seq<Exchange>>, req: Request, outcome: Outcome, k: nat)
    requires HasNote(req) && k + 1 < |attempts|
    requires Reconciles(attempts[k..], Retry(req, k), outcome)
    ensures Reconciles(attempts[k + 1..], Retry(req, k + 1), outcome)
  {
    ReconcilesTail(attempts[k..], Retry(req, k), outcome);
    RetryRetry(req, k, 1);
    assert attempts[k..][1..] == attempts[k + 1..];
    ReconcilesSame(attempts[k..][1..], Retry(Retry(req, k), 1), attempts[k + 1..], Retry(req, k + 1), outcome);
  }

  lemma ReconcilesSame(a: seq<seq<Exchange>>, r: Request, b: seq<seq<Exchange>>, q: Request, outcome: Outcome)
    requires HasNote(r) && Reconciles(a, r, outcome) && a == b && r == q
    ensures Reconciles(b, q, outcome)
  {
  }

  /** An `addNotes` request is the last of its attempt, and it is the attempt's note. */
  lemma WriteEndsAttempt(log: seq<Exchange>, req: Request, j: nat)
    requires HasNote(req) && FollowsProtocol(log, req)
    requires j < |log| && log[j].request.AddNotes?
    ensures j == |log| - 1 && log[j].request == req
  {
    assert j + 1 < |log| ==> Follows(log[j].request, log[j + 1].request);
    assert Concerns(log[j].request, req);
  }

  /**
   * A write answered with an id, or failed in transport, ends the procedure:
   * no request of any attempt comes after it.
   */
  lemma {:induction false} FinalWrite(attempts: seq<seq<Exchange>>, req: Request, outcome: Outcome, j: nat)
    requires HasNote(req) && Reconciles(attempts, req, outcome)
    requires j < |Flatten(attempts)|
    requires Flatten(attempts)[j].request.AddNotes? && !ReportsConflict(Flatten(attempts)[j].reply)
    ensures j == |Flatten(attempts)| - 1
  {
    var i, p := FlattenLocate(attempts, j);
    AttemptAt(attempts, req, outcome, i);
    WriteEndsAttempt(attempts[i], Retry(req, i), p);
  }

  /**
   * The exchange `e` accounts for `outcome`: "created" and "add failed" come
   * from an `addNotes` answered with an id or failed in transport,
   * "unresolved" from one answered with a null id, "already present" from a
   * search that found the note; each panic from the reply its site cannot
   * read, and never from a missing note, which stops the run before any
   * request.
   */
  predicate Explains(e: Exchange, outcome: Outcome) {
    && (outcome == Created ==> e.request.AddNotes? && ReportsCreated(e.reply))
    && (outcome == AddFailed ==> e.request.AddNotes? && e.reply.Failed?)
    && (outcome == Unresolved ==> e.request.AddNotes? && ReportsConflict(e.reply))
    && (outcome == AlreadyPresent ==> e.request.FindNotes? && ReportsFound(e.reply))
    && (outcome == Panicked(DeckListingShape) ==>
          e.request.DeckNames? && e.reply.Delivered? && DeckListing(e.reply.body).None?)
    && (outcome == Panicked(CreateDeckTransport) ==> e.request.CreateDeck? && e.reply.Failed?)
    && (outcome == Panicked(NoteSearchShape) ==>
          e.request.FindNotes? && e.reply.Delivered? && NoteIds(e.reply.body).None?)
    && (outcome == Panicked(AddNotesShape) ==>
          e.request.AddNotes? && e.reply.Delivered? && FirstId(e.reply.body).None?)
    && outcome != Panicked(NoNote)
  }

  /**
   * `log` is an attempt for `req` whose end decides `outcome`: a collision
   * there means "unresolved", any other end is the outcome itself.
   */
  predicate Settles(log: seq<Exchange>, req: Request, outcome: Outcome)
    requires HasNote(req)
  {
    && FollowsProtocol(log, req)
    && (EndOf(log, req).Conflict? ==> outcome == Unresolved)
    && (EndOf(log, req).Stop? ==> outcome == EndOf(log, req).outcome)
  }

  lemma LastAttemptExplains(log: seq<Exchange>, req: Request, outcome: Outcome)
    requires HasNote(req) && Settles(log, req, outcome)
    ensures Explains(log[|log| - 1], outcome)
  {
    VerdictNames(log[|log| - 1], DeckOf(req));
  }

  /** The last exchange of the last attempt accounts for the outcome. */
  lemma {:induction false} LastAttemptEnd(attempts: seq<seq<Exchange>>, req: Request, outcome: Outcome)
    requires HasNote(req) && Reconciles(attempts, req, outcome)
    ensures |attempts[|attempts| - 1]| > 0
    ensures Explains(attempts[|attempts| - 1][|attempts[|attempts| - 1]| - 1], outcome)
    decreases |attempts|
  {
    if |attempts| == 1 {
      ReconcilesSingle(attempts, req, outcome);
      LastAttemptExplains(attempts[0], req, outcome);
    } else {
      ReconcilesTail(attempts, req, outcome);
      LastAttemptEnd(attempts[1..], Retry(req, 1), outcome);
      LastOfTail(attempts);
    }
  }

  /** The last exchange of the flat trace is the last exchange of the last attempt. */
  lemma {:induction false} FlattenLast(attempts: seq<seq<Exchange>>)
    requires |attempts| > 0 && |attempts[|attempts| - 1]| > 0
    ensures |Flatten(attempts)| > 0
    ensures Flatten(attempts)[|Flatten(attempts)| - 1] == attempts[|attempts| - 1][|attempts[|attempts| - 1]| - 1]
    decreases |attempts|
  {
    var rest := attempts[1..];
    assert Flatten(attempts) == attempts[0] + Flatten(rest);
    if |rest| == 0 {
      assert Flatten(rest) == [];
    } else {
      assert rest[|rest| - 1] == attempts[|attempts| - 1];
      FlattenLast(rest);
    }
  }

  /** The outcome is accounted for by the last exchange of the whole run. */
  lemma OutcomeOfLastExchange(attempts: seq<seq<Exchange>>, req: Request, outcome: Outcome)
    requires HasNote(req) && Reconciles(attempts, req, outcome)
    ensures |Flatten(attempts)| > 0
    ensures Explains(Flatten(attempts)[|Flatten(attempts)| - 1], outcome)
  {
    LastAttemptEnd(attempts, req, outcome);
    FlattenLast(attempts);
  }

  // ---------------------------------------------------------------------
  // Attempts against fixed replies
  // ---------------------------------------------------------------------

  /** The service answers `q` in state `s` with `reply` and moves to `next`. */
  ghost predicate Answers<S>(service: Service<S>, s: S, q: Request, reply: Reply, next: S) {
    service(s, q) == (reply, next)
  }

  /**
   * An attempt on a deck the listing names, whose search finds nothing and
   * whose write is answered or fails: the listing, the search and the write,
   * in that order, each sent in the state the previous one left, ending in a
   * failure, a collision or a created note as the answer says.
   */
  lemma ListedDeckAttempt<S>(req: Request, service: Service<S>, s0: S,
                             listing: Reply, s1: S, search: Reply, s2: S, write: Reply, s3: S)
    requires HasNote(req)
    requires Answers(service, s0, NewDeckNames(), listing, s1) && DeckListed(listing, DeckOf(req))
    requires Answers(service, s1, SearchOf(req), search, s2) && ReportsNotFound(search)
    requires Answers(service, s2, req, write, s3) && (write.Failed? || ReportsConflict(write) || ReportsCreated(write))
    ensures Attempt(req, service, s0) == AttemptRun(
      if write.Failed? then Stop(AddFailed) else if ReportsConflict(write) then Conflict else Stop(Created),
      [Exchange(NewDeckNames(), listing), Exchange(SearchOf(req), search), Exchange(req, write)], s3)
  {
    var d := CreateDeckIfNotExist(DeckOf(req), service, s0);
    assert d == Step(Ok(()), [Exchange(NewDeckNames(), listing)], s1);
    var t := SearchAndWrite(req, service, s1);
    assert t.log == [Exchange(SearchOf(req), search), Exchange(req, write)];
    assert t.after == s3;
  }

  /**
   * An attempt on a deck the listing lacks, or whose listing failed in
   * transport: the listing, the `createDeck` (answered), the search and the
   * write, in that order, each sent in the state the previous one left,
   * ending in a failure, a collision or a created note as the answer says.
   */
  lemma MissingDeckAttempt<S>(req: Request, service: Service<S>, s0: S,
                              listing: Reply, s1: S, create: Reply, s2: S,
                              search: Reply, s3: S, write: Reply, s4: S)
    requires HasNote(req)
    requires Answers(service, s0, NewDeckNames(), listing, s1) && DeckMissing(listing, DeckOf(req))
    requires Answers(service, s1, NewCreateDeck(DeckOf(req)), create, s2) && create.Delivered?
    requires Answers(service, s2, SearchOf(req), search, s3) && ReportsNotFound(search)
    requires Answers(service, s3, req, write, s4) && (write.Failed? || ReportsConflict(write) || ReportsCreated(write))
    ensures Attempt(req, service, s0) == AttemptRun(
      if write.Failed? then Stop(AddFailed) else if ReportsConflict(write) then Conflict else Stop(Created),
      [Exchange(NewDeckNames(), listing), Exchange(NewCreateDeck(DeckOf(req)), create),
       Exchange(SearchOf(req), search), Exchange(req, write)], s4)
  {
    var d := CreateDeckIfNotExist(DeckOf(req), service, s0);
    assert d == Step(Ok(()), [Exchange(NewDeckNames(), listing), Exchange(NewCreateDeck(DeckOf(req)), create)], s2);
    var t := SearchAndWrite(req, service, s2);
    assert t.log == [Exchange(SearchOf(req), search), Exchange(req, write)];
    assert t.after == s4;
  }

  /**
   * An attempt on a listed deck whose search finds the note: the listing and
   * the search only, ending "already present".
   */
  lemma FoundNoteAttempt<S>(req: Request, service: Service<S>, s0: S,
                            listing: Reply, s1: S, search: Reply, s2: S)
    requires HasNote(req)
    requires Answers(service, s0, NewDeckNames(), listing, s1) && DeckListed(listing, DeckOf(req))
    requires Answers(service, s1, SearchOf(req), search, s2) && ReportsFound(search)
    ensures Attempt(req, service, s0) == AttemptRun(
      Stop(AlreadyPresent), [Exchange(NewDeckNames(), listing), Exchange(SearchOf(req), search)], s2)
  {
    var d := CreateDeckIfNotExist(DeckOf(req), service, s0);
    assert d == Step(Ok(()), [Exchange(NewDeckNames(), listing)], s1);
    var t := SearchAndWrite(req, service, s1);
    assert t == AttemptRun(Stop(AlreadyPresent), [Exchange(SearchOf(req), search)], s2);
  }

  /**
   * A note the search finds is never sent: the run is that one attempt, it
   * ends "already present", and no `addNotes` reaches the service.
   */
  lemma FoundNoteRun<S>(req: Request, service: Service<S>, s0: S,
                        listing: Reply, s1: S, search: Reply, s2: S)
    requires HasNote(req)
    requires Answers(service, s0, NewDeckNames(), listing, s1) && DeckListed(listing, DeckOf(req))
    requires Answers(service, s1, SearchOf(req), search, s2) && ReportsFound(search)
    ensures CreateNotes(req, service, s0) == Run(
      AlreadyPresent, [[Exchange(NewDeckNames(), listing), Exchange(SearchOf(req), search)]], s2)
    ensures Writes(Flatten(CreateNotes(req, service, s0).attempts)) == []
  {
    var log := [Exchange(NewDeckNames(), listing), Exchange(SearchOf(req), search)];
    FoundNoteAttempt(req, service, s0, listing, s1, search, s2);
    CreateNotesStep(req, service, s0);
    FlattenSingle(log);
    assert Writes(log[1..][1..]) == [];
  }

  /**
   * The same on a deck the listing lacks or failed to report: the deck is
   * created, the search finds the note, and it is never sent.
   */
  lemma MissingDeckFoundRun<S>(req: Request, service: Service<S>, s0: S,
                               listing: Reply, s1: S, create: Reply, s2: S, search: Reply, s3: S)
    requires HasNote(req)
    requires Answers(service, s0, NewDeckNames(), listing, s1) && DeckMissing(listing, DeckOf(req))
    requires Answers(service, s1, NewCreateDeck(DeckOf(req)), create, s2) && create.Delivered?
    requires Answers(service, s2, SearchOf(req), search, s3) && ReportsFound(search)
    ensures CreateNotes(req, service, s0) == Run(
      AlreadyPresent,
      [[Exchange(NewDeckNames(), listing), Exchange(NewCreateDeck(DeckOf(req)), create), Exchange(SearchOf(req), search)]],
      s3)
    ensures Writes(Flatten(CreateNotes(req, service, s0).attempts)) == []
  {
    var log := [Exchange(NewDeckNames(), listing), Exchange(NewCreateDeck(DeckOf(req)), create), Exchange(SearchOf(req), search)];
    var d := CreateDeckIfNotExist(DeckOf(req), service, s0);
    assert d == Step(Ok(()), log[..2], s2);
    var t := SearchAndWrite(req, service, s2);
    assert t == AttemptRun(Stop(AlreadyPresent), [Exchange(SearchOf(req), search)], s3);
    assert d.log + t.log == log;
    assert Attempt(req, service, s0) == AttemptRun(Stop(AlreadyPresent), log, s3);
    CreateNotesStep(req, service, s0);
    FlattenSingle(log);
    NoWrites(log);
  }

  /**
   * A write that fails in transport ends the whole run, whatever the
   * service did with it: the one attempt, no retry, and the outcome
   * "add failed".
   */
  lemma FailedWriteRun<S>(req: Request, service: Service<S>, s0: S,
                          listing: Reply, s1: S, search: Reply, s2: S, write: Reply, s3: S)
    requires HasNote(req)
    requires Answers(service, s0, NewDeckNames(), listing, s1) && DeckListed(listing, DeckOf(req))
    requires Answers(service, s1, SearchOf(req), search, s2) && ReportsNotFound(search)
    requires Answers(service, s2, req, write, s3) && write.Failed?
    ensures CreateNotes(req, service, s0) == Run(
      AddFailed, [[Exchange(NewDeckNames(), listing), Exchange(SearchOf(req), search), Exchange(req, write)]], s3)
  {
    ListedDeckAttempt(req, service, s0, listing, s1, search, s2, write, s3);
    CreateNotesStep(req, service, s0);
  }

  // ---------------------------------------------------------------------
  // A service that always reports a collision
  // ---------------------------------------------------------------------

  /**
   * A service under which every attempt for `req` collides: the deck is
   * listed, every search comes back empty or fails, and every note sent is
   * answered with a null id.
   */
  ghost predicate AlwaysCollides<S(!new)>(service: Service<S>, deck: string) {
    && (forall st: S :: DeckListed(service(st, NewDeckNames()).0, deck))
    && (forall st: S, q: string :: ReportsNotFound(service(st, NewFindNotes(q)).0))
    && (forall st: S, w: Request :: w.AddNotes? ==> ReportsConflict(service(st, w).0))
  }

  /** Under such a service a single attempt ends in a collision. */
  lemma AttemptCollides<S(!new)>(req: Request, service: Service<S>, s: S)
    requires HasNote(req) && AlwaysCollides(service, DeckOf(req))
    ensures Attempt(req, service, s).end == Conflict
  {
    var d := CreateDeckIfNotExist(DeckOf(req), service, s);
    assert d.result.Ok?;
    var e := NoteExists(DeckOf(req), FrontOf(req), service, d.after);
    assert e.result == Ok(false);
    assert ReportsConflict(service(e.after, req).0);
  }

  /**
   * When every attempt collides, the procedure uses its whole budget and
   * ends unresolved: one attempt per trailing-whitespace count from the
   * front's own up to six bytes.
   */
  lemma {:induction false} CollisionsExhaustBudget<S(!new)>(req: Request, service: Service<S>, s: S)
    requires HasNote(req) && AlwaysCollides(service, DeckOf(req))
    ensures CreateNotes(req, service, s).outcome == Unresolved
    ensures |CreateNotes(req, service, s).attempts| == RetryBudget(TrailingWhitespaceBytes(FrontOf(req)))
    decreases FrontMeasure(req)
  {
    AttemptCollides(req, service, s);
    var a := Attempt(req, service, s);
    CollisionStep(req, service, s);
    BudgetStep(TrailingWhitespaceBytes(FrontOf(req)));
    if AddSpace(req).Ok? {
      var next := AddSpace(req).value;
      assert DeckOf(next) == DeckOf(req);
      CollisionsExhaustBudget(next, service, a.after);
    }
  }

  /** After a collision the run is the retry's run with one more attempt, or stops unresolved. */
  lemma CollisionStep<S>(req: Request, service: Service<S>, s: S)
    requires HasNote(req) && Attempt(req, service, s).end == Conflict
    ensures var r := CreateNotes(req, service, s);
      && (AddSpace(req).Err? ==> r.outcome == Unresolved && |r.attempts| == 1)
      && (AddSpace(req).Ok? ==>
            var rest := CreateNotes(AddSpace(req).value, service, Attempt(req, service, s).after);
            r.outcome == rest.outcome && |r.attempts| == 1 + |rest.attempts|)
  {
    CreateNotesStep(req, service, s);
  }

  /** One more byte of trailing whitespace costs one attempt of the budget, until the guard trips. */
  lemma BudgetStep(t: nat)
    ensures t <= 5 ==> RetryBudget(t) == RetryBudget(t + 1) + 1
    ensures t > 5 ==> RetryBudget(t) == 1
  {
  }

  /**
   * From a front without trailing whitespace, a service that always reports
   * a collision receives exactly seven `addNotes` requests, whose fronts end
   * in 0, 1, …, 6 spaces, and the procedure then stops unresolved.
   */
  lemma SevenWrites<S(!new)>(req: Request, service: Service<S>, s: S)
    requires HasNote(req) && AlwaysCollides(service, DeckOf(req))
    requires TrailingWhitespaceBytes(FrontOf(req)) == 0
    ensures var r := CreateNotes(req, service, s);
      var w := Writes(Flatten(r.attempts));
      && r.outcome == Unresolved
      && |w| == 7
      && forall k | 0 <= k < 7 ::
           w[k] == Retry(req, k)
           && FrontOf(w[k]) == FrontOf(req) + Spaces(k)
           && TrailingWhitespaceBytes(FrontOf(w[k])) == k
  {
    var r := CreateNotes(req, service, s);
    CollisionsExhaustBudget(req, service, s);
    RunIsChained(req, service, s);
    WritesOfChain(r.attempts, req, r.outcome);
    forall k | 0 <= k < 7 ensures TrailingWhitespaceBytes(FrontOf(req) + Spaces(k)) == k {
      TrailingSpaces(FrontOf(req), k);
    }
  }

  /**
   * The retry of a freshly built request is the request built from the
   * spaced front, while the guard lets it through.
   */
  lemma AddSpaceOfNew(deck: string, front: string, back: string)
    ensures TrailingWhitespaceBytes(front) <= 5 ==>
      AddSpace(NewAddNotes(deck, front, back)) == Ok(NewAddNotes(deck, front + " ", back))
    ensures TrailingWhitespaceBytes(front) > 5 ==> AddSpace(NewAddNotes(deck, front, back)).Err?
  {
    var req := NewAddNotes(deck, front, back);
    if TrailingWhitespaceBytes(front) <= 5 {
      var next := AddSpace(req).value;
      assert next.notes == [next.notes[0]];
      assert next.notes[0] == NewAddNotes(deck, front + " ", back).notes[0];
    }
  }
}
