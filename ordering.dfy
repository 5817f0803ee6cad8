/** The two `ORDER BY` clauses of the repository's finders, and a sort that realises them. */
module Ordering {
  import opened Wrappers
  import opened Emails

  /** Code-point lexicographic order on strings: the order the database uses for `priority`. */
  predicate LexLess(a: string, b: string)
    decreases |a|
  {
    if a == [] then b != []
    else if b == [] then false
    else if a[0] != b[0] then a[0] < b[0]
    else LexLess(a[1..], b[1..])
  }

  lemma {:induction false} LexLessIrreflexive(a: string)
    ensures !LexLess(a, a)
    decreases |a|
  {
    if a != [] {
      LexLessIrreflexive(a[1..]);
    }
  }

  lemma {:induction false} LexLessTransitive(a: string, b: string, c: string)
    requires LexLess(a, b) && LexLess(b, c)
    ensures LexLess(a, c)
    decreases |a|
  {
    if a != [] && a[0] == b[0] && b[0] == c[0] {
      LexLessTransitive(a[1..], b[1..], c[1..]);
    }
  }

  lemma {:induction false} LexLessTotal(a: string, b: string)
    requires a != b
    ensures LexLess(a, b) || LexLess(b, a)
    decreases |a|
  {
    if a != [] && b != [] && a[0] == b[0] {
      LexLessTotal(a[1..], b[1..]);
    }
  }

  /** "Urgent" sorts above "Not urgent", because 'U' comes after 'N'. */
  lemma NotUrgentBelowUrgent()
    ensures LexLess(NotUrgent, Urgent) && !LexLess(Urgent, NotUrgent)
  {
  }

  /** SQL order on a nullable column: NULL is the lowest value. */
  predicate OptLess(a: Option<string>, b: Option<string>) {
    match (a, b)
    case (None, Some(_)) => true
    case (Some(x), Some(y)) => LexLess(x, y)
    case _ => false
  }

  /** `receivedAt` of `a` is at least that of `b`, NULL being the lowest value. */
  predicate NewerOrSame(a: Email, b: Email) {
    match (a.receivedAt, b.receivedAt)
    case (_, None) => true
    case (None, Some(_)) => false
    case (Some(x), Some(y)) => x >= y
  }

  /** The two orders the repository declares. */
  datatype Order = ReceivedAtDesc | PriorityDescReceivedAtDesc

  /** `a` may be listed before `b` in order `o`. */
  predicate Precedes(o: Order, a: Email, b: Email) {
    match o
    case ReceivedAtDesc => NewerOrSame(a, b)
    case PriorityDescReceivedAtDesc =>
      OptLess(b.priority, a.priority) || (a.priority == b.priority && NewerOrSame(a, b))
  }

  lemma PrecedesTotal(o: Order, a: Email, b: Email)
    ensures Precedes(o, a, b) || Precedes(o, b, a)
  {
    if o.PriorityDescReceivedAtDesc? && a.priority != b.priority && a.priority.Some? && b.priority.Some? {
      LexLessTotal(a.priority.value, b.priority.value);
    }
  }

  lemma PrecedesTransitive(o: Order, a: Email, b: Email, c: Email)
    requires Precedes(o, a, b) && Precedes(o, b, c)
    ensures Precedes(o, a, c)
  {
    if o.PriorityDescReceivedAtDesc? && a.priority.Some? && b.priority.Some? && c.priority.Some? {
      if LexLess(c.priority.value, b.priority.value) && LexLess(b.priority.value, a.priority.value) {
        LexLessTransitive(c.priority.value, b.priority.value, a.priority.value);
      }
    }
  }

  /** Each neighbour pair is in order. */
  predicate Sorted(o: Order, s: seq<Email>) {
    forall i :: 0 <= i < |s| - 1 ==> Precedes(o, s[i], s[i + 1])
  }

  /** Every pair is in order. */
  predicate SortedAllPairs(o: Order, s: seq<Email>) {
    forall i, j :: 0 <= i < j < |s| ==> Precedes(o, s[i], s[j])
  }

  lemma {:induction false} SortedIsSortedAllPairs(o: Order, s: seq<Email>)
    requires Sorted(o, s)
    ensures SortedAllPairs(o, s)
    decreases |s|
  {
    if |s| > 1 {
      SortedIsSortedAllPairs(o, s[1..]);
      forall j | 1 < j < |s| ensures Precedes(o, s[0], s[j]) {
        assert Precedes(o, s[1..][0], s[1..][j - 1]);
        PrecedesTransitive(o, s[0], s[1], s[j]);
      }
    }
  }

  /** Places `x` before the first element it may precede. */
  function InsertSorted(o: Order, x: Email, s: seq<Email>): (r: seq<Email>)
    requires Sorted(o, s)
    ensures Sorted(o, r)
    ensures multiset(r) == multiset(s) + multiset{x}
    ensures r[0] == x || (s != [] && r[0] == s[0])
    decreases |s|
  {
    if s == [] then [x]
    else if Precedes(o, x, s[0]) then [x] + s
    else
      PrecedesTotal(o, x, s[0]);
      var rest := InsertSorted(o, x, s[1..]);
      assert s == [s[0]] + s[1..];
      [s[0]] + rest
  }

  /** Insertion sort: a permutation of `s` in order `o`; equal elements keep their store order. */
  function SortBy(o: Order, s: seq<Email>): (r: seq<Email>)
    ensures Sorted(o, r)
    ensures multiset(r) == multiset(s)
    decreases |s|
  {
    if s == [] then []
    else
      assert s == [s[0]] + s[1..];
      InsertSorted(o, s[0], SortBy(o, s[1..]))
  }
}
