/** The `emails` table: the derived queries of the repository, and the store with its `save`. */
module Repository {
  import opened Wrappers
  import opened Emails
  import opened Ordering

  /** The persisted state: the rows in insertion order and the next identity value. */
  datatype Table = Table(rows: seq<Email>, nextId: nat)

  /** Every stored row has an id below `nextId`, ids grow along the rows (so they are distinct). */
  predicate IdsAssigned(t: Table) {
    && (forall i :: 0 <= i < |t.rows| ==> t.rows[i].id.Some? && t.rows[i].id.value < t.nextId)
    && (forall i, j :: 0 <= i < j < |t.rows| && t.rows[i].id.Some? && t.rows[j].id.Some? ==>
          t.rows[i].id.value < t.rows[j].id.value)
  }

  /** The unique constraint on `message_id`, which does not apply to NULL. */
  predicate UniqueMessageIds(rows: seq<Email>) {
    forall i, j :: 0 <= i < j < |rows| && rows[i].messageId.Some? ==> rows[i].messageId != rows[j].messageId
  }

  /** What the database guarantees of the table. */
  predicate TableValid(t: Table) {
    && IdsAssigned(t)
    && UniqueMessageIds(t.rows)
    && (forall i :: 0 <= i < |t.rows| ==> FitsColumns(t.rows[i]))
  }

  /** In a valid table, a row is determined by its id. */
  lemma IdDeterminesRow(t: Table, i: int, j: int)
    requires TableValid(t)
    requires 0 <= i < |t.rows| && 0 <= j < |t.rows| && t.rows[i].id == t.rows[j].id
    ensures i == j
  {
  }

  // ---------------------------------------------------------------------------
  // Derived queries (read-only)

  /** `existsByMessageId(k)`; a NULL key matches the rows whose `message_id` IS NULL. */
  function ExistsByMessageId(rows: seq<Email>, k: Option<string>): (b: bool)
    ensures b <==> exists i :: 0 <= i < |rows| && rows[i].messageId == k
    decreases |rows|
  {
    if rows == [] then false
    else if rows[0].messageId == k then true
    else
      var b := ExistsByMessageId(rows[1..], k);
      assert b ==> exists i :: 0 <= i < |rows| && rows[i].messageId == k by {
        if b {
          var i :| 0 <= i < |rows[1..]| && rows[1..][i].messageId == k;
          assert rows[i + 1].messageId == k;
        }
      }
      b
  }

  /** A single-result query matched more than one row. */
  datatype QueryError = NonUniqueResult

  /** Two different rows hold the message id `k`. */
  predicate SharedMessageId(rows: seq<Email>, k: Option<string>) {
    exists i, j :: 0 <= i < j < |rows| && rows[i].messageId == k && rows[j].messageId == k
  }

  /** `findByMessageId(k)`: a single-result query. It finds nothing, or the one row with that
      message id, and fails when two or more rows match (possible only for a NULL key). */
  function FindByMessageId(rows: seq<Email>, k: Option<string>): (r: Result<Option<Email>, QueryError>)
    ensures r.Failure? <==> SharedMessageId(rows, k)
    ensures r.Success? ==> (r.value.Some? <==> ExistsByMessageId(rows, k))
    ensures r.Success? && r.value.Some? ==> r.value.value in rows && r.value.value.messageId == k
    decreases |rows|
  {
    if rows == [] then Success(None)
    else
      var r := FindByMessageId(rows[1..], k);
      assert SharedMessageId(rows[1..], k) ==> SharedMessageId(rows, k) by {
        if SharedMessageId(rows[1..], k) {
          var i, j :| 0 <= i < j < |rows[1..]| && rows[1..][i].messageId == k && rows[1..][j].messageId == k;
          assert rows[i + 1].messageId == k && rows[j + 1].messageId == k;
        }
      }
      assert ExistsByMessageId(rows, k) && rows[0].messageId != k ==> ExistsByMessageId(rows[1..], k) by {
        if ExistsByMessageId(rows, k) && rows[0].messageId != k {
          var i :| 0 <= i < |rows| && rows[i].messageId == k;
          assert rows[1..][i - 1].messageId == k;
        }
      }
      if rows[0].messageId == k then
        if r.Success? && r.value.None? then
          Success(Some(rows[0]))
        else
          assert SharedMessageId(rows, k) by {
            if r.Success? {
              var j :| 0 <= j < |rows[1..]| && rows[1..][j].messageId == k;
              assert rows[j + 1].messageId == k;
            }
          }
          Failure(NonUniqueResult)
      else
        assert SharedMessageId(rows, k) ==> SharedMessageId(rows[1..], k) by {
          if SharedMessageId(rows, k) {
            var i, j :| 0 <= i < j < |rows| && rows[i].messageId == k && rows[j].messageId == k;
            assert rows[1..][i - 1].messageId == k && rows[1..][j - 1].messageId == k;
          }
        }
        r
  }

  /** In a valid table a non-null message id is held by at most one row, so the lookup never fails;
      a NULL key fails as soon as two rows have no message id. */
  lemma FindByMessageIdFailsOnlyForNull(t: Table, k: Option<string>)
    requires TableValid(t)
    ensures FindByMessageId(t.rows, k).Failure? ==> k.None?
    ensures (exists i, j :: 0 <= i < j < |t.rows| && t.rows[i].messageId.None? && t.rows[j].messageId.None?) ==>
      FindByMessageId(t.rows, None).Failure?
  {
  }

  /** The position of the row with this id, if any. */
  function IndexOfId(rows: seq<Email>, id: int): (r: Option<nat>)
    ensures r.Some? ==> r.value < |rows| && rows[r.value].id == Some(id)
    ensures r.None? ==> forall i :: 0 <= i < |rows| ==> rows[i].id != Some(id)
    decreases |rows|
  {
    if rows == [] then None
    else if rows[0].id == Some(id) then Some(0)
    else match IndexOfId(rows[1..], id)
      case None => None
      case Some(k) => Some(k + 1)
  }

  /** `findById(id)`, also the first element with that id of any list of rows. */
  function FindById(rows: seq<Email>, id: int): (r: Option<Email>)
    ensures r.Some? <==> exists i :: 0 <= i < |rows| && rows[i].id == Some(id)
    ensures r.Some? ==> r.value in rows && r.value.id == Some(id)
  {
    match IndexOfId(rows, id)
    case None => None
    case Some(k) => Some(rows[k])
  }

  /** `countByStatus(s)`: the number of rows whose status is exactly `s`. */
  function CountByStatus(rows: seq<Email>, s: string): (n: nat)
    ensures n <= |rows|
    ensures n == multiset(Statuses(rows))[s]
    decreases |rows|
  {
    if rows == [] then 0
    else
      assert Statuses(rows) == [rows[0].status] + Statuses(rows[1..]);
      (if rows[0].status == s then 1 else 0) + CountByStatus(rows[1..], s)
  }

  function Statuses(rows: seq<Email>): (r: seq<string>)
    ensures |r| == |rows|
  {
    seq(|rows|, i requires 0 <= i < |rows| => rows[i].status)
  }

  /** Rows of two different statuses are counted apart, so together they are at most the table. */
  lemma {:induction false} StatusCountsDisjoint(rows: seq<Email>, s1: string, s2: string)
    requires s1 != s2
    ensures CountByStatus(rows, s1) + CountByStatus(rows, s2) <= |rows|
    decreases |rows|
  {
    if rows != [] {
      StatusCountsDisjoint(rows[1..], s1, s2);
    }
  }

  /** The row was received strictly after `since`; a NULL date never is. */
  predicate ReceivedAfter(e: Email, since: Timestamp) {
    e.receivedAt.Some? && e.receivedAt.value > since
  }

  /** The positions of the rows received strictly after `since`. */
  ghost function AfterIndices(rows: seq<Email>, since: Timestamp): set<int> {
    set i | 0 <= i < |rows| && ReceivedAfter(rows[i], since)
  }

  /** Dropping the last row drops at most its own position. */
  lemma AfterIndicesOfInit(rows: seq<Email>, since: Timestamp)
    requires rows != []
    ensures var init := rows[..|rows| - 1];
      && |rows| - 1 !in AfterIndices(init, since)
      && AfterIndices(rows, since) ==
         AfterIndices(init, since) + (if ReceivedAfter(rows[|rows| - 1], since) then {|rows| - 1} else {})
  {
    var init := rows[..|rows| - 1];
    assert forall i :: 0 <= i < |init| ==> init[i] == rows[i];
  }

  /** `countByReceivedAtAfter(since)`: the number of rows received strictly after `since`. */
  function CountByReceivedAtAfter(rows: seq<Email>, since: Timestamp): (n: nat)
    ensures n == |AfterIndices(rows, since)|
    ensures n <= |rows|
    ensures n == |rows| ==> forall i :: 0 <= i < |rows| ==> ReceivedAfter(rows[i], since)
    decreases |rows|
  {
    if rows == [] then
      assert AfterIndices(rows, since) == {};
      0
    else
      var init, last := rows[..|rows| - 1], rows[|rows| - 1];
      var m := CountByReceivedAtAfter(init, since);
      AfterIndicesOfInit(rows, since);
      assert forall i :: 0 <= i < |init| ==> init[i] == rows[i];
      m + (if ReceivedAfter(last, since) then 1 else 0)
  }

  /** A later cutoff never counts more rows. */
  lemma {:induction false} CountAfterAntitone(rows: seq<Email>, t1: Timestamp, t2: Timestamp)
    requires t1 <= t2
    ensures CountByReceivedAtAfter(rows, t2) <= CountByReceivedAtAfter(rows, t1)
    decreases |rows|
  {
    if rows != [] {
      CountAfterAntitone(rows[..|rows| - 1], t1, t2);
    }
  }

  /** Appending a row adds one to the count exactly when that row is strictly after the cutoff. */
  lemma CountAfterAppend(rows: seq<Email>, e: Email, since: Timestamp)
    ensures CountByReceivedAtAfter(rows + [e], since) ==
            CountByReceivedAtAfter(rows, since) + (if ReceivedAfter(e, since) then 1 else 0)
  {
    assert (rows + [e])[..|rows|] == rows;
  }

  /** The rows whose `filtered` flag is set, in store order. */
  function FilteredRows(rows: seq<Email>): (r: seq<Email>)
    ensures forall e :: e in r ==> e.filtered
    ensures forall e :: multiset(r)[e] == if e.filtered then multiset(rows)[e] else 0
    decreases |rows|
  {
    if rows == [] then []
    else
      assert rows == [rows[0]] + rows[1..];
      (if rows[0].filtered then [rows[0]] else []) + FilteredRows(rows[1..])
  }

  /** `findByFilteredTrueOrderByPriorityDescReceivedAtDesc()`. */
  function FindFilteredByPriorityThenNewest(rows: seq<Email>): (r: seq<Email>)
    ensures forall e :: e in r ==> e.filtered
    ensures forall e :: multiset(r)[e] == if e.filtered then multiset(rows)[e] else 0
    ensures Sorted(PriorityDescReceivedAtDesc, r)
  {
    SortBy(PriorityDescReceivedAtDesc, FilteredRows(rows))
  }

  /** `findAllByOrderByReceivedAtDesc()`. */
  function FindAllNewestFirst(rows: seq<Email>): (r: seq<Email>)
    ensures multiset(r) == multiset(rows)
    ensures Sorted(ReceivedAtDesc, r)
  {
    SortBy(ReceivedAtDesc, rows)
  }

  /** In the filtered list every "Urgent" row comes before every "Not urgent" row, and within one
      priority newer rows come first. */
  lemma FilteredListUrgentFirst(rows: seq<Email>, i: int, j: int)
    requires 0 <= i < j < |FindFilteredByPriorityThenNewest(rows)|
    ensures var r := FindFilteredByPriorityThenNewest(rows);
      && !(r[i].priority == Some(NotUrgent) && r[j].priority == Some(Urgent))
      && (r[i].priority == r[j].priority ==> NewerOrSame(r[i], r[j]))
  {
    var r := FindFilteredByPriorityThenNewest(rows);
    SortedIsSortedAllPairs(PriorityDescReceivedAtDesc, r);
    var a, b := r[i], r[j];
    assert Precedes(PriorityDescReceivedAtDesc, a, b);
    if a.priority == Some(NotUrgent) && b.priority == Some(Urgent) {
      NotUrgentBelowUrgent();
      assert false;
    }
    if a.priority == b.priority && a.priority.Some? {
      LexLessIrreflexive(a.priority.value);
    }
  }

  /** The full list is newest first, over every pair. */
  lemma AllListNewestFirst(rows: seq<Email>, i: int, j: int)
    requires 0 <= i < j < |FindAllNewestFirst(rows)|
    ensures NewerOrSame(FindAllNewestFirst(rows)[i], FindAllNewestFirst(rows)[j])
  {
    SortedIsSortedAllPairs(ReceivedAtDesc, FindAllNewestFirst(rows));
  }

  // ---------------------------------------------------------------------------
  // save

  datatype SaveError = ValueTooLong(column: string) | DuplicateMessageId

  /** Some row other than position `self` already holds the non-null message id of `e`. */
  predicate MessageIdTaken(rows: seq<Email>, e: Email, self: Option<nat>) {
    e.messageId.Some? && exists j :: 0 <= j < |rows| && rows[j].messageId == e.messageId && self != Some(j)
  }

  /** The position `save(e)` writes over: the row with the same id, if `e` has one that is stored. */
  function Target(t: Table, e: Email): Option<nat> {
    if e.id.Some? then IndexOfId(t.rows, e.id.value) else None
  }

  /** `save(e)`: rejected by a column constraint (table unchanged), or an update in place of the row
      with the same id, or an insert at the end with the next identity value. */
  function SaveSpec(t: Table, e: Email): (res: (Table, Result<Email, SaveError>))
    ensures res.1.Failure? ==> res.0 == t
    ensures res.1.Success? <==> FitsColumns(e) && !MessageIdTaken(t.rows, e, Target(t, e))
    ensures res.1.Success? && Target(t, e).Some? ==>
      res.1.value == e && res.0 == Table(t.rows[Target(t, e).value := e], t.nextId)
    ensures res.1.Success? && Target(t, e).None? ==>
      res.1.value == e.(id := Some(t.nextId)) && res.0 == Table(t.rows + [res.1.value], t.nextId + 1)
    ensures TableValid(t) ==> TableValid(res.0)
  {
    var self := Target(t, e);
    if !FitsLength(e.body, BodyLength) then (t, Failure(ValueTooLong("body")))
    else if !FitsLength(e.requirements, RequirementsLength) then (t, Failure(ValueTooLong("requirements")))
    else if MessageIdTaken(t.rows, e, self) then (t, Failure(DuplicateMessageId))
    else match self
      case Some(k) => (Table(t.rows[k := e], t.nextId), Success(e))
      case None =>
        var s := e.(id := Some(t.nextId));
        (Table(t.rows + [s], t.nextId + 1), Success(s))
  }

  /** An id, once assigned, never changes: `save` keeps the id of every row already stored. */
  lemma SaveKeepsIds(t: Table, e: Email, i: int)
    requires 0 <= i < |t.rows|
    ensures SaveSpec(t, e).0.rows[i].id == t.rows[i].id
  {
  }

  /** The table, held by the application and changed in place by `save`. */
  class EmailStore {
    var rows: seq<Email>
    var nextId: nat

    function Snapshot(): Table
      reads this
    {
      Table(rows, nextId)
    }

    ghost predicate Valid()
      reads this
    {
      TableValid(Snapshot())
    }

    /** An empty table; identity values start at 1. */
    constructor ()
      ensures Valid() && rows == [] && nextId == 1
    {
      rows := [];
      nextId := 1;
    }

    method Save(e: Email) returns (r: Result<Email, SaveError>)
      requires Valid()
      modifies this
      ensures Valid()
      ensures (Snapshot(), r) == SaveSpec(old(Snapshot()), e)
    {
      var res := SaveSpec(Snapshot(), e);
      rows, nextId := res.0.rows, res.0.nextId;
      r := res.1;
    }
  }
}
