/** Mail ingestion: body extraction, Message-ID lookup, and the dedup gate that saves new mail. */
module MailFetch {
  import opened Wrappers
  import opened Emails
  import opened Repository

  /** The MIME content of a message or of one body part. */
  datatype Content =
    | Plain(text: string)
    | Html(html: string)
    | Multipart(parts: seq<Content>)
    | Other(mimeType: string)

  /** One message of the inbox, as the mail library presents it. `from` is the already formatted
      address list (null when the message has none). `readError` is the message of the exception
      thrown while reading the sender, subject, content or received date from the server, if one is. */
  datatype InboxMessage = InboxMessage(
    messageIdHeaders: Option<seq<string>>,
    from: Option<string>,
    subject: Option<string>,
    content: Content,
    receivedDate: Option<Timestamp>,
    readError: Option<string>)

  /** The reads made before the existence check all succeed, and the received date is present. */
  predicate HeadersRead(m: InboxMessage) {
    m.readError.None? && m.receivedDate.Some?
  }

  /** Why an ingestion cycle stopped. */
  datatype FetchFailure =
    | ConnectionFailed(message: string)
    | ReadFailed(message: string)
    | MissingReceivedDate
    | SaveRejected(why: SaveError)

  // ---------------------------------------------------------------------------
  // Body extraction

  predicate IsText(c: Content) {
    c.Plain? || c.Html?
  }

  /** The text of a text part: plain text verbatim, HTML through the markup stripper. */
  function PartText(c: Content, strip: string -> string): string
    requires IsText(c)
  {
    if c.Plain? then c.text else strip(c.html)
  }

  /** The scan over the parts of a multipart: the first part that is plain text or HTML wins. */
  function FirstTextPart(parts: seq<Content>, strip: string -> string): (r: string)
    ensures (forall k :: 0 <= k < |parts| ==> !IsText(parts[k])) ==> r == ""
    ensures forall k :: 0 <= k < |parts| && IsText(parts[k]) && (forall j :: 0 <= j < k ==> !IsText(parts[j])) ==>
      r == PartText(parts[k], strip)
    decreases |parts|
  {
    if parts == [] then ""
    else if IsText(parts[0]) then PartText(parts[0], strip)
    else
      var r := FirstTextPart(parts[1..], strip);
      assert forall k :: 1 <= k < |parts| ==> parts[k] == parts[1..][k - 1];
      r
  }

  /** `getTextFromMessage`: a text part gives its text, a multipart the text of its first text part
      ("" when none), any other type "". */
  function GetText(c: Content, strip: string -> string): (r: string)
    ensures IsText(c) ==> r == PartText(c, strip)
    ensures c.Other? ==> r == ""
    ensures c.Multipart? && (forall k :: 0 <= k < |c.parts| ==> !IsText(c.parts[k])) ==> r == ""
    ensures c.Multipart? ==> forall k :: 0 <= k < |c.parts| && IsText(c.parts[k]) && (forall j :: 0 <= j < k ==> !IsText(c.parts[j])) ==>
      r == PartText(c.parts[k], strip)
  {
    match c
    case Plain(t) => t
    case Html(h) => strip(h)
    case Multipart(ps) => FirstTextPart(ps, strip)
    case Other(_) => ""
  }

  /** The three single-part cases and the empty multipart. */
  lemma GetTextSinglePart(t: string, mime: string, strip: string -> string)
    ensures GetText(Plain(t), strip) == t
    ensures GetText(Html(t), strip) == strip(t)
    ensures GetText(Other(mime), strip) == ""
    ensures GetText(Multipart([]), strip) == ""
  {
  }

  /** The scan takes whichever text part comes first: an HTML part before a plain part wins. */
  lemma HtmlPartBeforePlainWins(h: string, p: string, strip: string -> string)
    ensures GetText(Multipart([Html(h), Plain(p)]), strip) == strip(h)
    ensures GetText(Multipart([Other("image/png"), Html(h)]), strip) == strip(h)
  {
  }

  /** A nested multipart is passed over, not searched: removing it from the part list changes nothing. */
  lemma {:induction false} NestedMultipartIgnored(parts: seq<Content>, k: int, strip: string -> string)
    requires 0 <= k < |parts| && parts[k].Multipart?
    ensures FirstTextPart(parts, strip) == FirstTextPart(parts[..k] + parts[k + 1..], strip)
    decreases |parts|
  {
    var rest := parts[..k] + parts[k + 1..];
    if k == 0 {
      assert rest == parts[1..];
    } else {
      assert rest[0] == parts[0];
      if !IsText(parts[0]) {
        NestedMultipartIgnored(parts[1..], k - 1, strip);
        assert rest[1..] == parts[1..][..k - 1] + parts[1..][k..];
      }
    }
  }

  /** A message whose only text sits inside a nested multipart has an empty body. */
  lemma NestedTextNotFound(p: string, strip: string -> string)
    ensures GetText(Multipart([Multipart([Plain(p)])]), strip) == ""
  {
  }

  /** `getMessageId`: the first `Message-ID` header value, or null when the header is absent. */
  function GetMessageId(m: InboxMessage): (r: Option<string>)
    ensures r.Some? <==> m.messageIdHeaders.Some? && |m.messageIdHeaders.value| > 0
    ensures r.Some? ==> r.value == m.messageIdHeaders.value[0]
  {
    if m.messageIdHeaders.Some? && |m.messageIdHeaders.value| > 0 then Some(m.messageIdHeaders.value[0])
    else None
  }

  // ---------------------------------------------------------------------------
  // The dedup gate

  /** The record built for a new message; `uuid` is the random id used when the header is absent. */
  function FetchedEmail(m: InboxMessage, uuid: string, strip: string -> string): Email {
    var messageId := GetMessageId(m);
    NoArgs().(
      messageId := Some(if messageId.Some? then messageId.value else uuid),
      sender := m.from,
      subject := m.subject,
      body := Some(GetText(m.content, strip)),
      receivedAt := m.receivedDate,
      priority := Some(PriorityOf(m.subject)),
      sentiment := Some(Neutral),
      status := Pending,
      approved := false,
      filtered := true)
  }

  /** What a row saved for message `m` holds. */
  predicate IngestedFrom(e: Email, m: InboxMessage, uuid: string, strip: string -> string) {
    && e.messageId == Some(if GetMessageId(m).Some? then GetMessageId(m).value else uuid)
    && e.sender == m.from && e.subject == m.subject && e.receivedAt == m.receivedDate
    && e.body == Some(GetText(m.content, strip))
    && e.priority == Some(PriorityOf(m.subject)) && e.sentiment == Some(Neutral)
    && e.status == Pending && !e.approved && e.filtered
    && e.phone.None? && e.altEmail.None? && e.requirements.None?
    && e.draftReply.None? && e.finalReply.None?
  }

  /** One iteration of the loop. Sender, subject, body and received date are read before the existence
      check, so a message whose read fails, or that has no date, stops the cycle even when it is a
      duplicate. The existence check uses the header
      value as read, null included; the random id is chosen only after it. */
  function IngestOne(t: Table, m: InboxMessage, uuid: string, strip: string -> string): Result<Table, FetchFailure> {
    if m.readError.Some? then Failure(ReadFailed(m.readError.value))
    else if m.receivedDate.None? then Failure(MissingReceivedDate)
    else if ExistsByMessageId(t.rows, GetMessageId(m)) then Success(t)
    else
      var (t', r) := SaveSpec(t, FetchedEmail(m, uuid, strip));
      if r.Failure? then Failure(SaveRejected(r.error)) else Success(t')
  }

  /** The loop over the inbox, message by message; `uuids[j]` is the random id drawn for message `j`.
      A failure stops the cycle and keeps the rows saved so far. */
  function Ingest(t: Table, msgs: seq<InboxMessage>, uuids: seq<string>, strip: string -> string): (Table, Outcome<FetchFailure>)
    requires |uuids| == |msgs|
    decreases |msgs|
  {
    if msgs == [] then (t, Pass)
    else match IngestOne(t, msgs[0], uuids[0], strip)
      case Failure(f) => (t, Fail(f))
      case Success(t') => Ingest(t', msgs[1..], uuids[1..], strip)
  }

  /** `fetchAndSaveEmails`: a failed connection stops the cycle before any message is read. */
  function FetchSpec(t: Table, connectError: Option<string>, msgs: seq<InboxMessage>, uuids: seq<string>,
                     strip: string -> string): (Table, Outcome<FetchFailure>)
    requires |uuids| == |msgs|
  {
    if connectError.Some? then (t, Fail(ConnectionFailed(connectError.value)))
    else Ingest(t, msgs, uuids, strip)
  }

  method FetchAndSaveEmails(store: EmailStore, connectError: Option<string>, inbox: seq<InboxMessage>,
                            uuids: seq<string>, strip: string -> string) returns (o: Outcome<FetchFailure>)
    requires store.Valid() && |uuids| == |inbox|
    modifies store
    ensures store.Valid()
    ensures (store.Snapshot(), o) == FetchSpec(old(store.Snapshot()), connectError, inbox, uuids, strip)
  {
    if connectError.Some? {
      return Fail(ConnectionFailed(connectError.value));
    }
    var i := 0;
    while i < |inbox|
      invariant 0 <= i <= |inbox|
      invariant store.Valid()
      invariant Ingest(store.Snapshot(), inbox[i..], uuids[i..], strip) == Ingest(old(store.Snapshot()), inbox, uuids, strip)
    {
      var m := inbox[i];
      assert inbox[i..][0] == m && inbox[i..][1..] == inbox[i + 1..];
      assert uuids[i..][0] == uuids[i] && uuids[i..][1..] == uuids[i + 1..];
      var messageId := GetMessageId(m);
      if m.readError.Some? {
        return Fail(ReadFailed(m.readError.value));
      }
      if m.receivedDate.None? {
        return Fail(MissingReceivedDate);
      }
      if !ExistsByMessageId(store.rows, messageId) {
        var r := store.Save(FetchedEmail(m, uuids[i], strip));
        if r.Failure? {
          return Fail(SaveRejected(r.error));
        }
      }
      i := i + 1;
    }
    return Pass;
  }

  // ---------------------------------------------------------------------------
  // Properties of one cycle

  /** One message either leaves the table as it is (it is a duplicate) or appends one row built
      from it with the next identity value. */
  lemma IngestOneEffect(t: Table, m: InboxMessage, uuid: string, strip: string -> string)
    requires TableValid(t)
    ensures IngestOne(t, m, uuid, strip).Success? ==>
      var t' := IngestOne(t, m, uuid, strip).value;
      && HeadersRead(m)
      && TableValid(t')
      && (ExistsByMessageId(t.rows, GetMessageId(m)) ==> t' == t)
      && (!ExistsByMessageId(t.rows, GetMessageId(m)) ==>
            && |t'.rows| == |t.rows| + 1 && t'.rows[..|t.rows|] == t.rows && t'.nextId == t.nextId + 1
            && t'.rows[|t.rows|].id == Some(t.nextId)
            && IngestedFrom(t'.rows[|t.rows|], m, uuid, strip))
  {
    if HeadersRead(m) && !ExistsByMessageId(t.rows, GetMessageId(m)) {
      var e := FetchedEmail(m, uuid, strip);
      assert Target(t, e).None?;
      var (t', r) := SaveSpec(t, e);
      if r.Success? {
        assert t'.rows[..|t.rows|] == t.rows;
      }
    }
  }

  /** A cycle only appends: the rows already stored are untouched, at most one row is added per
      message, and the table stays valid. */
  lemma {:induction false} IngestAppendsOnly(t: Table, msgs: seq<InboxMessage>, uuids: seq<string>, strip: string -> string)
    requires TableValid(t) && |uuids| == |msgs|
    ensures var t' := Ingest(t, msgs, uuids, strip).0;
      && TableValid(t')
      && |t.rows| <= |t'.rows| <= |t.rows| + |msgs|
      && t'.rows[..|t.rows|] == t.rows
    decreases |msgs|
  {
    if msgs != [] {
      IngestOneEffect(t, msgs[0], uuids[0], strip);
      var one := IngestOne(t, msgs[0], uuids[0], strip);
      if one.Success? {
        var t1 := one.value;
        IngestAppendsOnly(t1, msgs[1..], uuids[1..], strip);
        var t' := Ingest(t1, msgs[1..], uuids[1..], strip).0;
        assert t'.rows[..|t.rows|] == t'.rows[..|t1.rows|][..|t.rows|];
      }
    }
  }

  /** Every row a cycle adds was built from one of its messages, with the fixed defaults. */
  lemma {:induction false} IngestedRowsComeFromMessages(t: Table, msgs: seq<InboxMessage>, uuids: seq<string>, strip: string -> string)
    requires TableValid(t) && |uuids| == |msgs|
    ensures var t' := Ingest(t, msgs, uuids, strip).0;
      forall p :: |t.rows| <= p < |t'.rows| ==>
        exists j :: 0 <= j < |msgs| && IngestedFrom(t'.rows[p], msgs[j], uuids[j], strip)
    decreases |msgs|
  {
    if msgs != [] {
      IngestOneEffect(t, msgs[0], uuids[0], strip);
      var one := IngestOne(t, msgs[0], uuids[0], strip);
      if one.Success? {
        var t1 := one.value;
        IngestAppendsOnly(t1, msgs[1..], uuids[1..], strip);
        IngestedRowsComeFromMessages(t1, msgs[1..], uuids[1..], strip);
        var t' := Ingest(t1, msgs[1..], uuids[1..], strip).0;
        forall p | |t.rows| <= p < |t'.rows|
          ensures exists j :: 0 <= j < |msgs| && IngestedFrom(t'.rows[p], msgs[j], uuids[j], strip)
        {
          if p < |t1.rows| {
            assert t'.rows[p] == t'.rows[..|t1.rows|][p];
            assert IngestedFrom(t'.rows[p], msgs[0], uuids[0], strip);
          } else {
            var j :| 0 <= j < |msgs[1..]| && IngestedFrom(t'.rows[p], msgs[1..][j], uuids[1..][j], strip);
            assert msgs[1..][j] == msgs[j + 1] && uuids[1..][j] == uuids[j + 1];
          }
        }
      }
    }
  }

  /** Ingestion writes only known labels: if every stored row has them, every row has them after. */
  lemma IngestKeepsLabels(t: Table, msgs: seq<InboxMessage>, uuids: seq<string>, strip: string -> string)
    requires TableValid(t) && |uuids| == |msgs|
    requires forall i :: 0 <= i < |t.rows| ==> KnownLabels(t.rows[i])
    ensures var t' := Ingest(t, msgs, uuids, strip).0;
      forall i :: 0 <= i < |t'.rows| ==> KnownLabels(t'.rows[i])
  {
    IngestAppendsOnly(t, msgs, uuids, strip);
    IngestedRowsComeFromMessages(t, msgs, uuids, strip);
    var t' := Ingest(t, msgs, uuids, strip).0;
    forall i | 0 <= i < |t'.rows| ensures KnownLabels(t'.rows[i]) {
      if i < |t.rows| {
        assert t'.rows[i] == t'.rows[..|t.rows|][i];
      } else {
        var j :| 0 <= j < |msgs| && IngestedFrom(t'.rows[i], msgs[j], uuids[j], strip);
      }
    }
  }

  /** A message id stored before a cycle is still stored after it. */
  lemma StoredStaysStored(t: Table, msgs: seq<InboxMessage>, uuids: seq<string>, strip: string -> string, k: Option<string>)
    requires TableValid(t) && |uuids| == |msgs|
    requires ExistsByMessageId(t.rows, k)
    ensures ExistsByMessageId(Ingest(t, msgs, uuids, strip).0.rows, k)
  {
    IngestAppendsOnly(t, msgs, uuids, strip);
    var t' := Ingest(t, msgs, uuids, strip).0;
    var i :| 0 <= i < |t.rows| && t.rows[i].messageId == k;
    assert t'.rows[i] == t'.rows[..|t.rows|][i];
  }

  /** After a cycle that completed, every message was read, is dated, and has its id stored. */
  lemma {:induction false} CompletedCycleStoresEveryId(t: Table, msgs: seq<InboxMessage>, uuids: seq<string>, strip: string -> string)
    requires TableValid(t) && |uuids| == |msgs|
    requires Ingest(t, msgs, uuids, strip).1 == Pass
    requires forall j :: 0 <= j < |msgs| ==> GetMessageId(msgs[j]).Some?
    ensures forall j :: 0 <= j < |msgs| ==>
      HeadersRead(msgs[j]) && ExistsByMessageId(Ingest(t, msgs, uuids, strip).0.rows, GetMessageId(msgs[j]))
    decreases |msgs|
  {
    if msgs != [] {
      IngestOneEffect(t, msgs[0], uuids[0], strip);
      var t1 := IngestOne(t, msgs[0], uuids[0], strip).value;
      assert Ingest(t, msgs, uuids, strip) == Ingest(t1, msgs[1..], uuids[1..], strip);
      assert forall j :: 1 <= j < |msgs| ==> msgs[1..][j - 1] == msgs[j];
      CompletedCycleStoresEveryId(t1, msgs[1..], uuids[1..], strip);
      StoredStaysStored(t1, msgs[1..], uuids[1..], strip, GetMessageId(msgs[0]));
    }
  }

  /** A cycle over messages that are all readable, dated and already stored changes nothing. */
  lemma {:induction false} StoredMessagesAreSkipped(t: Table, msgs: seq<InboxMessage>, uuids: seq<string>, strip: string -> string)
    requires |uuids| == |msgs|
    requires forall j :: 0 <= j < |msgs| ==> HeadersRead(msgs[j]) && ExistsByMessageId(t.rows, GetMessageId(msgs[j]))
    ensures Ingest(t, msgs, uuids, strip) == (t, Pass)
    decreases |msgs|
  {
    if msgs != [] {
      assert forall j :: 1 <= j < |msgs| ==> msgs[1..][j - 1] == msgs[j];
      StoredMessagesAreSkipped(t, msgs[1..], uuids[1..], strip);
    }
  }

  /** Dedup idempotence: re-running a cycle over the same messages, all of which carry a Message-ID,
      adds nothing and ends the same way, whatever random ids are drawn the second time. A cycle that
      stopped early stops again at the same message for the same reason. */
  lemma {:induction false} IngestIdempotent(t: Table, msgs: seq<InboxMessage>, uuids: seq<string>, uuids2: seq<string>,
                                             strip: string -> string)
    requires TableValid(t) && |uuids| == |msgs| && |uuids2| == |msgs|
    requires forall j :: 0 <= j < |msgs| ==> GetMessageId(msgs[j]).Some?
    ensures var (u, o) := Ingest(t, msgs, uuids, strip);
      Ingest(u, msgs, uuids2, strip) == (u, o)
    decreases |msgs|
  {
    if msgs != [] {
      var m := msgs[0];
      var u := Ingest(t, msgs, uuids, strip).0;
      assert FetchedEmail(m, uuids[0], strip) == FetchedEmail(m, uuids2[0], strip);
      IngestOneEffect(t, m, uuids[0], strip);
      match IngestOne(t, m, uuids[0], strip)
      case Failure(f) =>
        assert IngestOne(u, m, uuids2[0], strip) == Failure(f);
      case Success(t1) =>
        forall j | 0 <= j < |msgs[1..]| ensures GetMessageId(msgs[1..][j]).Some? {
          assert msgs[1..][j] == msgs[j + 1];
        }
        IngestIdempotent(t1, msgs[1..], uuids[1..], uuids2[1..], strip);
        if t1 != t {
          assert t1.rows[|t.rows|].messageId == GetMessageId(m);
        }
        StoredStaysStored(t1, msgs[1..], uuids[1..], strip, GetMessageId(m));
        assert IngestOne(u, m, uuids2[0], strip) == Success(u);
    }
  }

  /** Of several messages that share a Message-ID `k` not yet stored, the first is the one saved:
      the save happens before the next existence check. (A random id drawn earlier in the cycle
      must not be `k`.) The unique row with `k` afterwards carries the first message's fields. */
  lemma {:induction false} FirstOccurrenceSaved(t: Table, msgs: seq<InboxMessage>, uuids: seq<string>,
                                                 strip: string -> string, k: string, i: int)
    requires TableValid(t) && |uuids| == |msgs|
    requires Ingest(t, msgs, uuids, strip).1 == Pass
    requires !ExistsByMessageId(t.rows, Some(k))
    requires 0 <= i < |msgs| && GetMessageId(msgs[i]) == Some(k)
    requires forall j :: 0 <= j < i ==> GetMessageId(msgs[j]) != Some(k) && uuids[j] != k
    ensures var t' := Ingest(t, msgs, uuids, strip).0;
      exists p :: |t.rows| <= p < |t'.rows| && t'.rows[p].messageId == Some(k)
                  && IngestedFrom(t'.rows[p], msgs[i], uuids[i], strip)
                  && forall q :: 0 <= q < |t'.rows| && t'.rows[q].messageId == Some(k) ==> q == p
    decreases |msgs|
  {
    IngestOneEffect(t, msgs[0], uuids[0], strip);
    var t1 := IngestOne(t, msgs[0], uuids[0], strip).value;
    var t' := Ingest(t, msgs, uuids, strip).0;
    IngestAppendsOnly(t1, msgs[1..], uuids[1..], strip);
    if i == 0 {
      var p := |t.rows|;
      assert t'.rows[p] == t'.rows[..|t1.rows|][p];
      assert t'.rows[p].messageId == Some(k);
    } else {
      assert !ExistsByMessageId(t1.rows, Some(k)) by {
        if t1 != t {
          assert t1.rows == t.rows + [t1.rows[|t.rows|]];
        }
      }
      forall j | 0 <= j < i - 1 ensures GetMessageId(msgs[1..][j]) != Some(k) && uuids[1..][j] != k {
        assert msgs[1..][j] == msgs[j + 1];
      }
      assert msgs[1..][i - 1] == msgs[i] && uuids[1..][i - 1] == uuids[i];
      FirstOccurrenceSaved(t1, msgs[1..], uuids[1..], strip, k, i - 1);
    }
  }

  /** A message without a Message-ID is checked against the rows whose message id is null. It is
      skipped whenever such a row exists (rows created directly have one); otherwise it is saved
      under its random id, provided the save succeeds. */
  lemma HeaderlessMessage(t: Table, m: InboxMessage, uuid: string, strip: string -> string)
    requires TableValid(t) && HeadersRead(m) && GetMessageId(m).None?
    ensures (exists i :: 0 <= i < |t.rows| && t.rows[i].messageId.None?) ==> IngestOne(t, m, uuid, strip) == Success(t)
    ensures (forall i :: 0 <= i < |t.rows| ==> t.rows[i].messageId.Some?) ==>
      var r := IngestOne(t, m, uuid, strip);
      && (r.Success? <==> FitsColumns(FetchedEmail(m, uuid, strip)) && !ExistsByMessageId(t.rows, Some(uuid)))
      && (r.Success? ==> r.value.rows == t.rows + [r.value.rows[|t.rows|]]
                         && r.value.rows[|t.rows|].messageId == Some(uuid))
  {
    IngestOneEffect(t, m, uuid, strip);
    if forall i :: 0 <= i < |t.rows| ==> t.rows[i].messageId.Some? {
      var e := FetchedEmail(m, uuid, strip);
      assert !ExistsByMessageId(t.rows, None);
      assert Target(t, e).None?;
      assert MessageIdTaken(t.rows, e, None) <==> ExistsByMessageId(t.rows, Some(uuid));
    }
  }

  /** The random ids drawn for a cycle are distinct, not stored, and not any message's header id. */
  predicate FreshIds(t: Table, msgs: seq<InboxMessage>, uuids: seq<string>)
    requires |uuids| == |msgs|
  {
    && (forall a, b :: 0 <= a < b < |uuids| ==> uuids[a] != uuids[b])
    && (forall a :: 0 <= a < |uuids| ==> !ExistsByMessageId(t.rows, Some(uuids[a])))
    && (forall a, j :: 0 <= a < |uuids| && 0 <= j < |msgs| ==> GetMessageId(msgs[j]) != Some(uuids[a]))
  }

  /** With fresh random ids, the unique constraint on message ids never rejects a save of the gate:
      a cycle can stop only on a connection failure, a missing date or an over-long body. */
  lemma {:induction false} FreshIdsNeverCollide(t: Table, msgs: seq<InboxMessage>, uuids: seq<string>, strip: string -> string)
    requires TableValid(t) && |uuids| == |msgs| && FreshIds(t, msgs, uuids)
    ensures Ingest(t, msgs, uuids, strip).1 != Fail(SaveRejected(DuplicateMessageId))
    decreases |msgs|
  {
    if msgs != [] {
      var m := msgs[0];
      IngestOneEffect(t, m, uuids[0], strip);
      if HeadersRead(m) && !ExistsByMessageId(t.rows, GetMessageId(m)) {
        var e := FetchedEmail(m, uuids[0], strip);
        assert Target(t, e).None?;
        assert !MessageIdTaken(t.rows, e, None) by {
          if GetMessageId(m).None? {
            assert !ExistsByMessageId(t.rows, Some(uuids[0]));
          }
        }
      }
      var one := IngestOne(t, m, uuids[0], strip);
      if one.Success? {
        var t1 := one.value;
        assert FreshIds(t1, msgs[1..], uuids[1..]) by {
          forall a | 0 <= a < |uuids[1..]| ensures !ExistsByMessageId(t1.rows, Some(uuids[1..][a])) {
            assert uuids[1..][a] == uuids[a + 1];
            assert !ExistsByMessageId(t.rows, Some(uuids[a + 1]));
            assert GetMessageId(m) != Some(uuids[a + 1]);
            if t1 != t {
              assert t1.rows == t.rows + [t1.rows[|t.rows|]];
            }
          }
          forall a, j | 0 <= a < |uuids[1..]| && 0 <= j < |msgs[1..]|
            ensures GetMessageId(msgs[1..][j]) != Some(uuids[1..][a])
          {
            assert msgs[1..][j] == msgs[j + 1] && uuids[1..][a] == uuids[a + 1];
          }
        }
        FreshIdsNeverCollide(t1, msgs[1..], uuids[1..], strip);
      }
    }
  }
}
