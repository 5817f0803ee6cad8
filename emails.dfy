/** The `Email` entity, its field defaults, its column constraints and the priority rule. */
module Emails {
  import opened Wrappers

  /** A local date-time, in seconds. */
  type Timestamp = int

  /** One row of the `emails` table. Reference-typed Java fields that may be null are `Option`s;
      `approved`, `status` and `filtered` are never null on any path of the program. */
  datatype Email = Email(
    id: Option<nat>,
    messageId: Option<string>,
    sender: Option<string>,
    subject: Option<string>,
    body: Option<string>,
    receivedAt: Option<Timestamp>,
    sentiment: Option<string>,
    priority: Option<string>,
    phone: Option<string>,
    altEmail: Option<string>,
    requirements: Option<string>,
    draftReply: Option<string>,
    finalReply: Option<string>,
    approved: bool,
    status: string,
    filtered: bool)

  const Urgent := "Urgent"
  const NotUrgent := "Not urgent"
  const Neutral := "Neutral"
  const Pending := "Pending"
  const Resolved := "Resolved"

  /** Declared column lengths of `body` and `requirements`. */
  const BodyLength := 10000
  const RequirementsLength := 2000

  /** The entity as its no-argument constructor leaves it. */
  function NoArgs(): (e: Email)
    ensures !e.approved && e.status == Pending && !e.filtered
    ensures e.id.None? && e.messageId.None? && e.priority.None? && e.sentiment.None?
  {
    Email(None, None, None, None, None, None, None, None, None, None, None, None, None, false, Pending, false)
  }

  /** The labels the program writes: a priority of "Urgent" or "Not urgent" and a sentiment of
      "Positive", "Negative" or "Neutral". */
  predicate KnownLabels(e: Email) {
    && (e.priority == Some(Urgent) || e.priority == Some(NotUrgent))
    && (e.sentiment == Some("Positive") || e.sentiment == Some("Negative") || e.sentiment == Some(Neutral))
  }

  predicate FitsLength(s: Option<string>, n: nat) {
    s.None? || |s.value| <= n
  }

  /** The row respects the declared column lengths. */
  predicate FitsColumns(e: Email) {
    FitsLength(e.body, BodyLength) && FitsLength(e.requirements, RequirementsLength)
  }

  // ---------------------------------------------------------------------------
  // Case-insensitive "urgent" test

  function LowerChar(c: char): char {
    if 'A' <= c <= 'Z' then (c as int + 32) as char else c
  }

  function UpperChar(c: char): char {
    if 'a' <= c <= 'z' then (c as int - 32) as char else c
  }

  /** ASCII lower-casing, character by character. */
  function Lower(s: string): (r: string)
    ensures |r| == |s|
    ensures forall i :: 0 <= i < |s| ==> r[i] == LowerChar(s[i])
  {
    seq(|s|, i requires 0 <= i < |s| => LowerChar(s[i]))
  }

  function Upper(s: string): (r: string)
    ensures |r| == |s|
    ensures forall i :: 0 <= i < |s| ==> r[i] == UpperChar(s[i])
  {
    seq(|s|, i requires 0 <= i < |s| => UpperChar(s[i]))
  }

  /** `pat` occurs in `s` at position `i`. */
  predicate OccursAt(s: string, pat: string, i: nat) {
    i + |pat| <= |s| && s[i..i + |pat|] == pat
  }

  /** Java's `String.contains`: a scan over the start positions `from`, `from + 1`, ... */
  function ContainsFrom(s: string, pat: string, from: nat): (r: bool)
    ensures r <==> exists i: nat :: from <= i && OccursAt(s, pat, i)
    decreases |s| - from
  {
    if from + |pat| > |s| then
      false
    else if s[from..from + |pat|] == pat then
      assert OccursAt(s, pat, from);
      true
    else
      var r := ContainsFrom(s, pat, from + 1);
      assert r ==> exists i: nat :: from <= i && OccursAt(s, pat, i);
      r
  }

  function Contains(s: string, pat: string): (r: bool)
    ensures r <==> exists i: nat :: OccursAt(s, pat, i)
  {
    ContainsFrom(s, pat, 0)
  }

  /** The priority derived from a subject at creation time: "Urgent" exactly when the subject is
      present and its lower-cased form contains "urgent" somewhere. */
  function PriorityOf(subject: Option<string>): (p: string)
    ensures p == Urgent || p == NotUrgent
    ensures p == Urgent <==> subject.Some? && exists i: nat :: OccursAt(Lower(subject.value), "urgent", i)
  {
    if subject.Some? && Contains(Lower(subject.value), "urgent") then Urgent else NotUrgent
  }

  /** Upper-casing a subject never changes its priority: the test ignores ASCII case. */
  lemma PriorityIgnoresCase(s: string)
    ensures PriorityOf(Some(Upper(s))) == PriorityOf(Some(s))
  {
    assert Lower(Upper(s)) == Lower(s);
  }

  /** Two example subjects, and a missing one. */
  lemma PriorityExamples()
    ensures PriorityOf(Some("URGENT: server down")) == Urgent
    ensures PriorityOf(Some("weekly newsletter")) == NotUrgent
    ensures PriorityOf(None) == NotUrgent
  {
    assert OccursAt(Lower("URGENT: server down"), "urgent", 0);
    var w := Lower("weekly newsletter");
    assert forall i :: 0 <= i < |w| ==> w[i] != 'u';
    forall i: nat ensures !OccursAt(w, "urgent", i) {
      if i + 6 <= |w| {
        assert w[i..i + 6][0] == w[i];
      }
    }
  }
}
