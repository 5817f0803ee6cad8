/** The REST handlers that change stored emails: reply, status, demo seed, fetch and draft. */
module Controller {
  import opened Wrappers
  import opened Emails
  import opened Repository
  import opened MailFetch
  import opened Service

  /** The HTTP outcome of a handler. */
  datatype Response = Ok | OkWith(body: string) | NotFound | ServerError

  const FetchSucceeded := "Emails fetched successfully"
  const DraftFailed := "Error generating draft reply"

  /** A stored row is the one the handlers find by its id in the full listing. */
  lemma FoundInListing(t: Table, id: int, k: int)
    requires TableValid(t) && 0 <= k < |t.rows| && t.rows[k].id == Some(id)
    ensures FindById(FindAllNewestFirst(t.rows), id) == Some(t.rows[k])
  {
    var all := FindAllNewestFirst(t.rows);
    assert t.rows[k] in multiset(all);
    var r := FindById(all, id);
    assert r.value in multiset(t.rows);
    var i :| 0 <= i < |t.rows| && t.rows[i] == r.value;
    IdDeterminesRow(t, i, k);
  }

  /** No row has the id, so neither the listing nor a direct lookup finds one. */
  lemma NotInListing(t: Table, id: int)
    requires forall i :: 0 <= i < |t.rows| ==> t.rows[i].id != Some(id)
    ensures FindById(FindAllNewestFirst(t.rows), id).None? && FindById(t.rows, id).None?
  {
    var all := FindAllNewestFirst(t.rows);
    assert forall e :: e in all ==> e in multiset(t.rows);
  }

  /** Saving a changed copy of row `k` that keeps its id, message id, body and requirements
      succeeds and replaces that row only. */
  lemma UpdateInPlace(t: Table, k: int, e: Email)
    requires TableValid(t) && 0 <= k < |t.rows|
    requires e.id == t.rows[k].id && e.messageId == t.rows[k].messageId
    requires e.body == t.rows[k].body && e.requirements == t.rows[k].requirements
    ensures SaveSpec(t, e) == (Table(t.rows[k := e], t.nextId), Success(e))
  {
    var j := IndexOfId(t.rows, e.id.value).value;
    IdDeterminesRow(t, j, k);
    assert FitsColumns(t.rows[k]);
    assert !MessageIdTaken(t.rows, e, Some(k));
  }

  // ---------------------------------------------------------------------------
  // saveReply

  function SaveReplySpec(t: Table, id: int, reply: string): (Table, Response) {
    match FindById(FindAllNewestFirst(t.rows), id)
    case None => (t, NotFound)
    case Some(e) =>
      var (t', r) := SaveSpec(t, e.(finalReply := Some(reply), approved := true));
      (t', if r.Success? then Ok else ServerError)
  }

  /** An unknown id answers not-found and changes nothing. */
  lemma SaveReplyUnknownId(t: Table, id: int, reply: string)
    requires forall i :: 0 <= i < |t.rows| ==> t.rows[i].id != Some(id)
    ensures SaveReplySpec(t, id, reply) == (t, NotFound)
  {
    NotInListing(t, id);
  }

  /** A known id sets that row's final reply and approves it; its status and every other row stay. */
  lemma SaveReplyKnownId(t: Table, id: int, reply: string, k: int)
    requires TableValid(t) && 0 <= k < |t.rows| && t.rows[k].id == Some(id)
    ensures SaveReplySpec(t, id, reply) ==
      (Table(t.rows[k := t.rows[k].(finalReply := Some(reply), approved := true)], t.nextId), Ok)
  {
    FoundInListing(t, id, k);
    UpdateInPlace(t, k, t.rows[k].(finalReply := Some(reply), approved := true));
  }

  method SaveReply(store: EmailStore, id: int, reply: string) returns (resp: Response)
    requires store.Valid()
    modifies store
    ensures store.Valid()
    ensures (store.Snapshot(), resp) == SaveReplySpec(old(store.Snapshot()), id, reply)
  {
    var found := FindById(FindAllNewestFirst(store.rows), id);
    if found.None? {
      return NotFound;
    }
    var r := store.Save(found.value.(finalReply := Some(reply), approved := true));
    resp := if r.Success? then Ok else ServerError;
  }

  // ---------------------------------------------------------------------------
  // updateStatus

  function UpdateStatusSpec(t: Table, id: int, status: string): (Table, Response) {
    match FindById(FindAllNewestFirst(t.rows), id)
    case None => (t, NotFound)
    case Some(e) =>
      var (t', r) := SaveSpec(t, e.(status := status));
      (t', if r.Success? then Ok else ServerError)
  }

  /** An unknown id answers not-found and changes nothing. */
  lemma UpdateStatusUnknownId(t: Table, id: int, status: string)
    requires forall i :: 0 <= i < |t.rows| ==> t.rows[i].id != Some(id)
    ensures UpdateStatusSpec(t, id, status) == (t, NotFound)
  {
    NotInListing(t, id);
  }

  /** A known id sets that row's status only: it does not approve it, and no other row changes. */
  lemma UpdateStatusKnownId(t: Table, id: int, status: string, k: int)
    requires TableValid(t) && 0 <= k < |t.rows| && t.rows[k].id == Some(id)
    ensures UpdateStatusSpec(t, id, status) == (Table(t.rows[k := t.rows[k].(status := status)], t.nextId), Ok)
  {
    FoundInListing(t, id, k);
    UpdateInPlace(t, k, t.rows[k].(status := status));
  }

  method UpdateStatus(store: EmailStore, id: int, status: string) returns (resp: Response)
    requires store.Valid()
    modifies store
    ensures store.Valid()
    ensures (store.Snapshot(), resp) == UpdateStatusSpec(old(store.Snapshot()), id, status)
  {
    var found := FindById(FindAllNewestFirst(store.rows), id);
    if found.None? {
      return NotFound;
    }
    var r := store.Save(found.value.(status := status));
    resp := if r.Success? then Ok else ServerError;
  }

  /** Replying, changing the status and storing a draft keep every row's labels known. */
  lemma HandlersKeepLabels(t: Table, id: int, text: string)
    requires TableValid(t) && forall i :: 0 <= i < |t.rows| ==> KnownLabels(t.rows[i])
    ensures forall i :: 0 <= i < |SaveReplySpec(t, id, text).0.rows| ==> KnownLabels(SaveReplySpec(t, id, text).0.rows[i])
    ensures forall i :: 0 <= i < |UpdateStatusSpec(t, id, text).0.rows| ==> KnownLabels(UpdateStatusSpec(t, id, text).0.rows[i])
    ensures forall i :: 0 <= i < |GenerateDraftSpec(t, id, Some(text)).0.rows| ==>
      KnownLabels(GenerateDraftSpec(t, id, Some(text)).0.rows[i])
  {
    match IndexOfId(t.rows, id)
    case None =>
      SaveReplyUnknownId(t, id, text);
      UpdateStatusUnknownId(t, id, text);
      GenerateDraftUnknownId(t, id, Some(text), None);
    case Some(k) =>
      SaveReplyKnownId(t, id, text, k);
      UpdateStatusKnownId(t, id, text, k);
      GenerateDraftKnownId(t, id, Some(text), k);
  }

  // ---------------------------------------------------------------------------
  // seed

  const SeedSender := "customer@example.com"
  const SeedSubject := "Request: cannot access dashboard - urgent"
  const SeedBody := "Hi team, I cannot access the dashboard. Error 403. Phone +1 555-123-4567. Please help asap."

  function SeedSpec(t: Table, now: Timestamp): Table {
    if |FindAllNewestFirst(t.rows)| != 0 then t
    else SaveSpec(t, CreatedEmail(Some(SeedSender), Some(SeedSubject), Some(SeedBody), now)).0
  }

  lemma SeedSubjectIsUrgent()
    ensures PriorityOf(Some(SeedSubject)) == Urgent
  {
    assert OccursAt(Lower(SeedSubject), "urgent", 35);
  }

  /** On a non-empty table the seed changes nothing; on an empty one it creates exactly one
      email, which is "Urgent" and pending. */
  lemma SeedCreatesOneUrgentEmail(t: Table, now: Timestamp)
    requires TableValid(t)
    ensures t.rows != [] ==> SeedSpec(t, now) == t
    ensures t.rows == [] ==>
      |SeedSpec(t, now).rows| == 1 && SeedSpec(t, now).rows[0].priority == Some(Urgent)
      && SeedSpec(t, now).rows[0].status == Pending
  {
    var all := FindAllNewestFirst(t.rows);
    assert |all| == |multiset(all)| == |multiset(t.rows)| == |t.rows|;
    CreateEmailAddsOne(t, Some(SeedSender), Some(SeedSubject), Some(SeedBody), now);
    SeedSubjectIsUrgent();
  }

  /** Seeding twice leaves what seeding once leaves. */
  lemma SeedIdempotent(t: Table, now1: Timestamp, now2: Timestamp)
    requires TableValid(t)
    ensures SeedSpec(SeedSpec(t, now1), now2) == SeedSpec(t, now1)
  {
    SeedCreatesOneUrgentEmail(t, now1);
    var t1 := SeedSpec(t, now1);
    CreateEmailAddsOne(t, Some(SeedSender), Some(SeedSubject), Some(SeedBody), now1);
    SeedCreatesOneUrgentEmail(t1, now2);
  }

  method Seed(store: EmailStore, now: Timestamp) returns (resp: Response)
    requires store.Valid()
    modifies store
    ensures store.Valid()
    ensures store.Snapshot() == SeedSpec(old(store.Snapshot()), now) && resp == Ok
  {
    if |GetAllEmails(store)| != 0 {
      return Ok;
    }
    var _ := CreateEmail(store, Some(SeedSender), Some(SeedSubject), Some(SeedBody), now);
    return Ok;
  }

  // ---------------------------------------------------------------------------
  // fetchEmails

  /** The text `fetchEmails` answers; `message` stands for the exception's `getMessage()`. */
  function FetchResponse(o: Outcome<FetchFailure>, message: FetchFailure -> string): (s: string)
    ensures s == FetchSucceeded <==> o.Pass?
    ensures o.Fail? ==> |s| >= 7 && s[..7] == "Error: " && s[7..] == message(o.error)
  {
    match o
    case Pass => FetchSucceeded
    case Fail(f) =>
      var s := "Error: " + message(f);
      assert s[1] == 'r' && FetchSucceeded[1] == 'm';
      s
  }

  method FetchEmails(store: EmailStore, connectError: Option<string>, inbox: seq<InboxMessage>, uuids: seq<string>,
                     strip: string -> string, message: FetchFailure -> string) returns (s: string)
    requires store.Valid() && |uuids| == |inbox|
    modifies store
    ensures store.Valid()
    ensures var (t, o) := FetchSpec(old(store.Snapshot()), connectError, inbox, uuids, strip);
      store.Snapshot() == t && s == FetchResponse(o, message)
  {
    var o := FetchAndSaveEmails(store, connectError, inbox, uuids, strip);
    s := FetchResponse(o, message);
  }

  // ---------------------------------------------------------------------------
  // generateDraft

  /** `generateDraft`, with the generation API's answer as `apiReply` (none when the call, its status
      or its response shape failed). A generated draft is stored on the row and returned. */
  function GenerateDraftSpec(t: Table, id: int, apiReply: Option<string>): (Table, Response) {
    match FindById(t.rows, id)
    case None => (t, NotFound)
    case Some(e) =>
      match apiReply
      case None => (t, OkWith(DraftFailed))
      case Some(text) =>
        var (t', r) := SaveSpec(t, e.(draftReply := Some(text)));
        (t', OkWith(if r.Success? then text else DraftFailed))
  }

  /** An unknown id answers not-found, changes nothing, and does not depend on the generator. */
  lemma GenerateDraftUnknownId(t: Table, id: int, a1: Option<string>, a2: Option<string>)
    requires forall i :: 0 <= i < |t.rows| ==> t.rows[i].id != Some(id)
    ensures GenerateDraftSpec(t, id, a1) == GenerateDraftSpec(t, id, a2) == (t, NotFound)
  {
    NotInListing(t, id);
  }

  /** For a known id: a failed generation returns the sentinel and leaves the table as it was; a
      generated text becomes that row's draft and nothing else changes. */
  lemma GenerateDraftKnownId(t: Table, id: int, apiReply: Option<string>, k: int)
    requires TableValid(t) && 0 <= k < |t.rows| && t.rows[k].id == Some(id)
    ensures apiReply.None? ==> GenerateDraftSpec(t, id, apiReply) == (t, OkWith(DraftFailed))
    ensures apiReply.Some? ==>
      (GenerateDraftSpec(t, id, apiReply) ==
       (Table(t.rows[k := t.rows[k].(draftReply := apiReply)], t.nextId), OkWith(apiReply.value)))
  {
    var j := IndexOfId(t.rows, id).value;
    IdDeterminesRow(t, j, k);
    UpdateInPlace(t, k, t.rows[k].(draftReply := apiReply));
  }

  /** Stored ids are never negative, so a negative path id matches no row: every handler
      that looks an id up answers not-found and changes nothing. */
  lemma NegativeIdNotFound(t: Table, id: int, text: string, apiReply: Option<string>)
    requires id < 0
    ensures SaveReplySpec(t, id, text) == (t, NotFound)
    ensures UpdateStatusSpec(t, id, text) == (t, NotFound)
    ensures GenerateDraftSpec(t, id, apiReply) == (t, NotFound)
  {
    SaveReplyUnknownId(t, id, text);
    UpdateStatusUnknownId(t, id, text);
    GenerateDraftUnknownId(t, id, apiReply, apiReply);
  }

  method GenerateDraft(store: EmailStore, id: int, apiReply: Option<string>) returns (resp: Response)
    requires store.Valid()
    modifies store
    ensures store.Valid()
    ensures (store.Snapshot(), resp) == GenerateDraftSpec(old(store.Snapshot()), id, apiReply)
  {
    var found := FindById(store.rows, id);
    if found.None? {
      return NotFound;
    }
    if apiReply.None? {
      return OkWith(DraftFailed);
    }
    var r := store.Save(found.value.(draftReply := Some(apiReply.value)));
    resp := OkWith(if r.Success? then apiReply.value else DraftFailed);
  }
}
