/** The session table and the chat endpoint that drives one turn against it.
    The table starts empty (it is dropped and re-created at start-up); its
    rows are keyed by session id. */
module Store {
  import opened Text
  import opened Facts
  import opened ProgressEstimator
  import opened Completion
  import opened Turn

  /** Which storage step of a request raises, if any: reading (or inserting)
      the row, or writing it back. */
  datatype StorageFault = Healthy | LoadFails | SaveFails

  /** One entry of the session listing. */
  datatype Summary = Summary(sessionId: string, complete: bool, created: nat)

  /** The session a request works on: the stored row, or a fresh one. */
  function Loaded(rows: map<string, Session>, id: string, now: nat): (s: Session)
    ensures id in rows ==> s == rows[id]
    ensures id !in rows ==> s.history == [] && s.profile == map[] && !s.complete && s.created == now
  {
    if id in rows then rows[id] else NewSession(now)
  }

  /** The table and the response after one chat request. Reading the row
      inserts it when it is missing, and that insertion stays even when the
      rest of the request fails; the turn's session is written back only when
      the turn finishes and the write succeeds. */
  function ChatOutcome(rows: map<string, Session>, request: ChatRequest, now: nat, storage: StorageFault,
                       extract: ServiceRequest -> ServiceReply, parse: string -> Parsed,
                       generate: ServiceRequest -> ServiceReply): (map<string, Session>, ChatResponse)
  {
    var id := request.sessionId;
    if storage == LoadFails then
      (rows, Fallback(id))
    else
      var s := Loaded(rows, id, now);
      var r := HandleTurn(s, request, extract, parse, generate);
      var row := if r.Finished? && storage == Healthy then r.session else s;
      (rows[id := row], if storage == SaveFails then Fallback(id) else ResponseFor(id, r))
  }

  /** A request reads and writes only its own row: every other row is kept,
      and its own row exists afterwards unless the read failed. */
  lemma ChatTouchesOnlyItsRow(rows: map<string, Session>, request: ChatRequest, now: nat, storage: StorageFault,
                              extract: ServiceRequest -> ServiceReply, parse: string -> Parsed,
                              generate: ServiceRequest -> ServiceReply)
    ensures var after := ChatOutcome(rows, request, now, storage, extract, parse, generate).0;
      && (forall id :: id != request.sessionId ==> (id in after <==> id in rows) && (id in rows ==> after[id] == rows[id]))
      && (storage != LoadFails ==> request.sessionId in after)
      && (storage == LoadFails ==> after == rows)
  {
  }

  /** A failed turn or a failed write answers with the apology and saves
      nothing: the table keeps only the row the read inserted. Only a healthy
      store ever answers with anything but the apology. */
  lemma FailureLeavesOnlyTheInsertedRow(rows: map<string, Session>, request: ChatRequest, now: nat, storage: StorageFault,
                                        extract: ServiceRequest -> ServiceReply, parse: string -> Parsed,
                                        generate: ServiceRequest -> ServiceReply)
    ensures var (after, resp) := ChatOutcome(rows, request, now, storage, extract, parse, generate);
      resp.question != Apology ==> storage == Healthy
    ensures var (after, resp) := ChatOutcome(rows, request, now, storage, extract, parse, generate);
      var s := Loaded(rows, request.sessionId, now);
      storage != LoadFails && (storage == SaveFails || HandleTurn(s, request, extract, parse, generate).Aborted?) ==>
        resp == Fallback(request.sessionId) && after == rows[request.sessionId := s]
  {
  }

  /** The response agrees with the row it saved: the same completion flag and
      the last transcript entry is the question sent back. */
  lemma ResponseMatchesSavedRow(rows: map<string, Session>, request: ChatRequest, now: nat,
                                extract: ServiceRequest -> ServiceReply, parse: string -> Parsed,
                                generate: ServiceRequest -> ServiceReply)
    ensures var (after, resp) := ChatOutcome(rows, request, now, Healthy, extract, parse, generate);
      var r := HandleTurn(Loaded(rows, request.sessionId, now), request, extract, parse, generate);
      r.Finished? ==>
        && after[request.sessionId] == r.session
        && resp.isComplete == r.session.complete
        && |r.session.history| > 0
        && r.session.history[|r.session.history| - 1] == Message(Assistant, resp.question)
  {
    FinishedTurnEndsWithQuestion(Loaded(rows, request.sessionId, now), request, extract, parse, generate);
  }

  /** Once a session is complete, an ordinary request never reopens it, and
      the transcript it saves extends the stored one. */
  lemma CompletedSessionStaysComplete(rows: map<string, Session>, request: ChatRequest, now: nat, storage: StorageFault,
                                      extract: ServiceRequest -> ServiceReply, parse: string -> Parsed,
                                      generate: ServiceRequest -> ServiceReply)
    requires request.sessionId in rows && !request.isFirstMessage
    ensures var after := ChatOutcome(rows, request, now, storage, extract, parse, generate).0;
      && after[request.sessionId].profile.Keys >= rows[request.sessionId].profile.Keys
      && rows[request.sessionId].history <= after[request.sessionId].history
      && (rows[request.sessionId].complete ==> after[request.sessionId].complete)
  {
  }

  /** A first request for an unknown id stamps the new row with the request
      time; a known row keeps its stamp. */
  lemma CreationStamp(rows: map<string, Session>, request: ChatRequest, now: nat, storage: StorageFault,
                      extract: ServiceRequest -> ServiceReply, parse: string -> Parsed,
                      generate: ServiceRequest -> ServiceReply)
    requires storage != LoadFails
    ensures var after := ChatOutcome(rows, request, now, storage, extract, parse, generate).0;
      after[request.sessionId].created == if request.sessionId in rows then rows[request.sessionId].created else now
  {
  }

  /** Writing a row twice leaves the second value. */
  lemma RewriteRow(rows: map<string, Session>, id: string, first: Session, second: Session)
    ensures rows[id := first][id := second] == rows[id := second]
  {
    var a, b := rows[id := first][id := second], rows[id := second];
    forall k ensures (k in a <==> k in b) && (k in a ==> a[k] == b[k]) {
    }
    assert a == b;
  }

  function SummaryOf(id: string, s: Session): Summary {
    Summary(id, s.complete, s.created)
  }

  /** Listing order: newest creation stamp first. */
  predicate NewestFirst(out: seq<Summary>) {
    forall i, j :: 0 <= i < j < |out| ==> out[i].created >= out[j].created
  }

  predicate DistinctIds(out: seq<Summary>) {
    forall i, j :: 0 <= i < j < |out| ==> out[i].sessionId != out[j].sessionId
  }

  function Ids(out: seq<Summary>): set<string> {
    set e | e in out :: e.sessionId
  }

  /** `x` placed into a newest-first listing after every entry at least as new. */
  function Insert(out: seq<Summary>, x: Summary): (r: seq<Summary>)
    ensures |r| == |out| + 1
    ensures forall e :: e in r <==> e in out || e == x
    ensures multiset(r) == multiset(out) + multiset{x}
  {
    if out == [] || out[0].created < x.created then
      [x] + out
    else
      var rest := Insert(out[1..], x);
      assert out == [out[0]] + out[1..];
      assert forall e :: e in out ==> e == out[0] || e in out[1..];
      [out[0]] + rest
  }

  /** Insertion keeps a listing newest first. */
  lemma {:induction false} InsertKeepsOrder(out: seq<Summary>, x: Summary)
    requires NewestFirst(out)
    ensures NewestFirst(Insert(out, x))
  {
    if out != [] && out[0].created >= x.created {
      InsertKeepsOrder(out[1..], x);
      var rest := Insert(out[1..], x);
      assert forall e :: e in rest ==> e.created <= out[0].created;
      assert Insert(out, x) == [out[0]] + rest;
    }
  }

  /** Inserting an id that is not listed yet keeps the ids distinct. */
  lemma {:induction false} InsertKeepsDistinct(out: seq<Summary>, x: Summary)
    requires DistinctIds(out) && x.sessionId !in Ids(out)
    ensures DistinctIds(Insert(out, x))
  {
    if out != [] && out[0].created >= x.created {
      assert Ids(out[1..]) <= Ids(out);
      InsertKeepsDistinct(out[1..], x);
      var rest := Insert(out[1..], x);
      assert forall e :: e in rest ==> e.sessionId != out[0].sessionId;
      assert Insert(out, x) == [out[0]] + rest;
    }
  }

  /** An ordinary turn on the loaded session, step by step: the user's
      message, the extraction and merge, the reply and the flag. */
  method Converse(s: Session, message: string, extract: ServiceRequest -> ServiceReply,
                  parse: string -> Parsed, generate: ServiceRequest -> ServiceReply) returns (r: TurnResult)
    ensures r == ConversationTurn(s, message, extract, parse, generate)
  {
    var history := s.history;
    var candidates: map<string, string> := map[];
    if !IsBlank(message) {
      history := history + [Message(User, message)];
      var q := ServiceRequest(Recent(history, ExtractionWindow), message, s.profile);
      match ExtractedFacts(extract(q), parse)
      case None =>
        return Aborted;
      case Some(facts) =>
        candidates := facts;
    }
    var profile := MergeInto(s.profile, candidates);
    var progress := Progress(|profile|);
    var reply := GeneratedReply(generate(ServiceRequest(Recent(history, GenerationWindow), message, profile)));
    var complete := s.complete;
    if HitsStopSignal(reply) {
      complete := true;
    }
    history := history + [Message(Assistant, reply)];
    r := Finished(Session(history, profile, complete, s.created), reply, progress);
  }

  class SessionStore {
    var rows: map<string, Session>

    /** The table after start-up: empty. */
    constructor ()
      ensures rows == map[]
    {
      rows := map[];
    }

    /** The stored session for `id`; a missing one is inserted empty, stamped
        `now`, and returned. */
    method Load(id: string, now: nat) returns (s: Session)
      modifies this
      ensures s == Loaded(old(rows), id, now)
      ensures rows == old(rows)[id := s]
    {
      if id in rows {
        s := rows[id];
      } else {
        s := NewSession(now);
        rows := rows[id := s];
      }
    }

    /** Writes transcript, profile and flag over an existing row; an id with
        no row is left absent. */
    method Save(id: string, profile: map<string, string>, history: seq<Message>, complete: bool)
      modifies this
      ensures id in old(rows) ==>
        rows == old(rows)[id := old(rows)[id].(history := history, profile := profile, complete := complete)]
      ensures id !in old(rows) ==> rows == old(rows)
    {
      if id in rows {
        rows := rows[id := rows[id].(history := history, profile := profile, complete := complete)];
      }
    }

    /** Removes the row if there is one. */
    method Delete(id: string)
      modifies this
      ensures rows == old(rows) - {id}
    {
      rows := rows - {id};
    }

    /** Every session's id, flag and stamp, newest first. */
    method List() returns (out: seq<Summary>)
      ensures NewestFirst(out) && DistinctIds(out)
      ensures Ids(out) == rows.Keys && |out| == |rows|
      ensures forall e :: e in out ==> e.sessionId in rows && e == SummaryOf(e.sessionId, rows[e.sessionId])
    {
      out := [];
      var todo := rows.Keys;
      while todo != {}
        invariant todo <= rows.Keys
        invariant NewestFirst(out) && DistinctIds(out)
        invariant Ids(out) == rows.Keys - todo
        invariant |out| == |rows.Keys - todo|
        invariant forall e :: e in out ==> e.sessionId in rows && e == SummaryOf(e.sessionId, rows[e.sessionId])
        decreases todo
      {
        var id :| id in todo;
        var x := SummaryOf(id, rows[id]);
        InsertKeepsOrder(out, x);
        InsertKeepsDistinct(out, x);
        out := Insert(out, x);
        assert rows.Keys - (todo - {id}) == (rows.Keys - todo) + {id};
        todo := todo - {id};
      }
    }

    /** The chat endpoint: one turn against the stored session. */
    method Chat(request: ChatRequest, now: nat, storage: StorageFault,
                extract: ServiceRequest -> ServiceReply, parse: string -> Parsed,
                generate: ServiceRequest -> ServiceReply) returns (resp: ChatResponse)
      modifies this
      ensures (rows, resp) == ChatOutcome(old(rows), request, now, storage, extract, parse, generate)
    {
      var id := request.sessionId;
      if storage == LoadFails {
        return Fallback(id);
      }
      var s := Load(id, now);
      var r;
      if request.isFirstMessage {
        r := FirstMessageTurn(s);
      } else {
        r := Converse(s, request.message, extract, parse, generate);
      }
      FinishedTurnEndsWithQuestion(s, request, extract, parse, generate);
      if r.Finished? {
        if storage == SaveFails {
          return Fallback(id);
        }
        ghost var loaded := rows;
        Save(id, r.session.profile, r.session.history, r.session.complete);
        assert rows == loaded[id := r.session];
        RewriteRow(old(rows), id, s, r.session);
      }
      resp := ResponseFor(id, r);
    }
  }
}
