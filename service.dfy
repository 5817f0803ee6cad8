/** The email service: direct creation, listings and the analytics snapshot. */
module Service {
  import opened Wrappers
  import opened Emails
  import opened Ordering
  import opened Repository

  /** The record `createEmail` builds: no message id, received now, fixed defaults. */
  function CreatedEmail(sender: Option<string>, subject: Option<string>, body: Option<string>, now: Timestamp): Email {
    NoArgs().(
      sender := sender,
      subject := subject,
      body := body,
      receivedAt := Some(now),
      sentiment := Some(Neutral),
      priority := Some(PriorityOf(subject)),
      status := Pending,
      filtered := true,
      approved := false)
  }

  /** `createEmail` saves exactly one new row at the end, with the next id, the derived priority and
      the fixed defaults, and leaves every other row alone; only an over-long body makes it fail,
      and then nothing changes. */
  lemma CreateEmailAddsOne(t: Table, sender: Option<string>, subject: Option<string>, body: Option<string>, now: Timestamp)
    requires TableValid(t)
    ensures var (t', r) := SaveSpec(t, CreatedEmail(sender, subject, body, now));
      && (r.Success? <==> FitsLength(body, BodyLength))
      && (r.Failure? ==> t' == t)
      && (r.Success? ==>
            && t'.rows == t.rows + [r.value] && t'.nextId == t.nextId + 1
            && r.value.id == Some(t.nextId) && r.value.messageId.None?
            && r.value.sender == sender && r.value.subject == subject && r.value.body == body
            && r.value.receivedAt == Some(now)
            && r.value.priority == Some(PriorityOf(subject)) && r.value.sentiment == Some(Neutral)
            && r.value.status == Pending && r.value.filtered && !r.value.approved)
  {
    var e := CreatedEmail(sender, subject, body, now);
    assert Target(t, e).None?;
    assert !MessageIdTaken(t.rows, e, None);
  }

  method CreateEmail(store: EmailStore, sender: Option<string>, subject: Option<string>, body: Option<string>,
                     now: Timestamp) returns (r: Result<Email, SaveError>)
    requires store.Valid()
    modifies store
    ensures store.Valid()
    ensures (store.Snapshot(), r) == SaveSpec(old(store.Snapshot()), CreatedEmail(sender, subject, body, now))
  {
    r := store.Save(CreatedEmail(sender, subject, body, now));
  }

  /** `getFilteredEmails`: exactly the filtered rows, Urgent first, then newest first. */
  function GetFilteredEmails(store: EmailStore): (r: seq<Email>)
    reads store
    ensures forall e :: multiset(r)[e] == if e.filtered then multiset(store.rows)[e] else 0
    ensures SortedAllPairs(PriorityDescReceivedAtDesc, r)
  {
    var r := FindFilteredByPriorityThenNewest(store.rows);
    SortedIsSortedAllPairs(PriorityDescReceivedAtDesc, r);
    r
  }

  /** `getAllEmails`: every row, newest first. */
  function GetAllEmails(store: EmailStore): (r: seq<Email>)
    reads store
    ensures multiset(r) == multiset(store.rows) && |r| == |store.rows|
    ensures SortedAllPairs(ReceivedAtDesc, r)
  {
    var r := FindAllNewestFirst(store.rows);
    SortedIsSortedAllPairs(ReceivedAtDesc, r);
    assert |r| == |multiset(r)| == |multiset(store.rows)| == |store.rows|;
    r
  }

  const DaySeconds := 24 * 60 * 60

  /** `analytics`: the three counters, keyed by label. */
  function Analytics(rows: seq<Email>, now: Timestamp): (m: map<string, nat>)
    ensures m.Keys == {"total24h", "resolved", "pending"}
    ensures m["resolved"] == multiset(Statuses(rows))[Resolved]
    ensures m["pending"] == multiset(Statuses(rows))[Pending]
    ensures m["resolved"] + m["pending"] <= |rows|
    ensures m["total24h"] == CountByReceivedAtAfter(rows, now - DaySeconds) <= |rows|
  {
    StatusCountsDisjoint(rows, Resolved, Pending);
    map["total24h" := CountByReceivedAtAfter(rows, now - DaySeconds),
        "resolved" := CountByStatus(rows, Resolved),
        "pending" := CountByStatus(rows, Pending)]
  }

  /** The 24-hour window is open at its start: a row received exactly 24 hours ago is not counted,
      one received a second later is. */
  lemma Total24hWindowIsOpen(rows: seq<Email>, e: Email, now: Timestamp)
    ensures e.receivedAt == Some(now - DaySeconds) ==>
      Analytics(rows + [e], now)["total24h"] == Analytics(rows, now)["total24h"]
    ensures e.receivedAt == Some(now - DaySeconds + 1) ==>
      Analytics(rows + [e], now)["total24h"] == Analytics(rows, now)["total24h"] + 1
  {
    CountAfterAppend(rows, e, now - DaySeconds);
  }
}
