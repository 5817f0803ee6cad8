/** The dashboard page's two memos: the list filter and the sentiment tally. */
module Dashboard {
  import opened Wrappers

  /** An email as the page receives it in JSON, reduced to the fields the memos read; a null or
      missing field is `None`. */
  datatype EmailJson = EmailJson(priority: Option<string>, status: Option<string>, sentiment: Option<string>)

  // ---------------------------------------------------------------------------
  // filtered

  /** The predicate given to `emails.filter`, compared with `===`. */
  predicate Keep(filter: string, e: EmailJson) {
    if filter == "urgent" then e.priority == Some("Urgent")
    else if filter == "pending" then e.status == Some("Pending")
    else if filter == "resolved" then e.status == Some("Resolved")
    else true
  }

  /** `a` is `b` with some elements left out, order kept. */
  predicate IsSubsequence<T(==)>(a: seq<T>, b: seq<T>)
    decreases |b|
  {
    if a == [] then true
    else if b == [] then false
    else (a[0] == b[0] && IsSubsequence(a[1..], b[1..])) || IsSubsequence(a, b[1..])
  }

  /** `emails.filter(...)`: the kept emails, in their order, each as often as it occurs. */
  function FilterEmails(emails: seq<EmailJson>, filter: string): (r: seq<EmailJson>)
    ensures IsSubsequence(r, emails)
    ensures forall e :: multiset(r)[e] == if Keep(filter, e) then multiset(emails)[e] else 0
    decreases |emails|
  {
    if emails == [] then []
    else
      var rest := FilterEmails(emails[1..], filter);
      assert emails == [emails[0]] + emails[1..];
      if Keep(filter, emails[0]) then
        assert ([emails[0]] + rest)[1..] == rest;
        [emails[0]] + rest
      else rest
  }

  /** What each filter value keeps. */
  lemma FilterSelects(emails: seq<EmailJson>, filter: string, e: EmailJson)
    ensures filter == "urgent" ==> (e in FilterEmails(emails, filter) <==> e in emails && e.priority == Some("Urgent"))
    ensures filter == "pending" ==> (e in FilterEmails(emails, filter) <==> e in emails && e.status == Some("Pending"))
    ensures filter == "resolved" ==> (e in FilterEmails(emails, filter) <==> e in emails && e.status == Some("Resolved"))
  {
    assert e in FilterEmails(emails, filter) <==> multiset(FilterEmails(emails, filter))[e] > 0;
    assert e in emails <==> multiset(emails)[e] > 0;
  }

  /** "all", or any value the page does not recognise, keeps the list as it is. */
  lemma {:induction false} FilterOtherKeepsAll(emails: seq<EmailJson>, filter: string)
    requires filter != "urgent" && filter != "pending" && filter != "resolved"
    ensures FilterEmails(emails, filter) == emails
    decreases |emails|
  {
    if emails != [] {
      FilterOtherKeepsAll(emails[1..], filter);
    }
  }

  // ---------------------------------------------------------------------------
  // sentimentCounts

  /** `e.sentiment || 'Neutral'`: a missing or empty sentiment counts as "Neutral". */
  function SentimentKey(e: EmailJson): string {
    if e.sentiment.None? || e.sentiment.value == "" then "Neutral" else e.sentiment.value
  }

  const InitialCounts: map<string, nat> := map["Positive" := 0, "Negative" := 0, "Neutral" := 0]

  /** `c[k] = (c[k] || 0) + 1`. */
  function Bump(c: map<string, nat>, k: string): map<string, nat> {
    c[k := (if k in c then c[k] else 0) + 1]
  }

  /** The dictionary after the loop has seen `emails`, one email at a time. */
  function Tally(emails: seq<EmailJson>): map<string, nat>
    decreases |emails|
  {
    if emails == [] then InitialCounts
    else Bump(Tally(emails[..|emails| - 1]), SentimentKey(emails[|emails| - 1]))
  }

  method SentimentCounts(emails: seq<EmailJson>) returns (c: map<string, nat>)
    ensures c == Tally(emails)
  {
    c := InitialCounts;
    for i := 0 to |emails|
      invariant c == Tally(emails[..i])
    {
      assert emails[..i + 1][..i] == emails[..i];
      var key := SentimentKey(emails[i]);
      c := c[key := (if key in c then c[key] else 0) + 1];
    }
    assert emails[..|emails|] == emails;
  }

  /** How many of the emails count under `k`. */
  function CountKey(emails: seq<EmailJson>, k: string): nat
    decreases |emails|
  {
    if emails == [] then 0
    else CountKey(emails[..|emails| - 1], k) + (if SentimentKey(emails[|emails| - 1]) == k then 1 else 0)
  }

  /** The tally holds the three base keys and exactly the keys of the emails seen, and each key's
      value is the number of emails counted under it; an unexpected sentiment starts at 1. */
  lemma {:induction false} TallyCounts(emails: seq<EmailJson>)
    ensures forall k :: k in Tally(emails) <==>
      k in InitialCounts || exists i :: 0 <= i < |emails| && SentimentKey(emails[i]) == k
    ensures forall k :: k in Tally(emails) ==> Tally(emails)[k] == CountKey(emails, k)
    decreases |emails|
  {
    if emails != [] {
      var init := emails[..|emails| - 1];
      TallyCounts(init);
      forall k ensures k in Tally(emails) <==>
        k in InitialCounts || exists i :: 0 <= i < |emails| && SentimentKey(emails[i]) == k
      {
        if exists i :: 0 <= i < |init| && SentimentKey(init[i]) == k {
          var i :| 0 <= i < |init| && SentimentKey(init[i]) == k;
          assert emails[i] == init[i];
        }
        if exists i :: 0 <= i < |emails| && SentimentKey(emails[i]) == k {
          var i :| 0 <= i < |emails| && SentimentKey(emails[i]) == k;
          if i < |init| {
            assert init[i] == emails[i];
          }
        }
      }
      forall k | k in Tally(emails) ensures Tally(emails)[k] == CountKey(emails, k) {
        if k !in Tally(init) {
          assert CountKey(init, k) == 0 by {
            CountKeyZero(init, k);
          }
        }
      }
    }
  }

  /** A key that no email counts under has count zero. */
  lemma {:induction false} CountKeyZero(emails: seq<EmailJson>, k: string)
    requires forall i :: 0 <= i < |emails| ==> SentimentKey(emails[i]) != k
    ensures CountKey(emails, k) == 0
    decreases |emails|
  {
    if emails != [] {
      CountKeyZero(emails[..|emails| - 1], k);
    }
  }

  /** The sum of a dictionary's values. */
  ghost function MapSum(m: map<string, nat>): nat
    decreases |m|
  {
    if m == map[] then 0
    else
      var k :| k in m;
      m[k] + MapSum(m - {k})
  }

  /** The sum may be taken apart at any key. */
  lemma {:induction false} MapSumAt(m: map<string, nat>, k: string)
    requires k in m
    ensures MapSum(m) == m[k] + MapSum(m - {k})
    decreases |m|
  {
    var j :| j in m && MapSum(m) == m[j] + MapSum(m - {j});
    if j != k {
      MapSumAt(m - {j}, k);
      MapSumAt(m - {k}, j);
      assert m - {j} - {k} == m - {k} - {j};
    }
  }

  lemma MapSumBump(c: map<string, nat>, k: string)
    ensures MapSum(Bump(c, k)) == MapSum(c) + 1
  {
    var b := Bump(c, k);
    MapSumAt(b, k);
    assert b - {k} == c - {k};
    if k in c {
      MapSumAt(c, k);
    } else {
      assert c - {k} == c;
    }
  }

  lemma InitialCountsSumToZero()
    ensures MapSum(InitialCounts) == 0
  {
    var m := InitialCounts;
    MapSumAt(m, "Positive");
    var m1 := m - {"Positive"};
    MapSumAt(m1, "Negative");
    var m2 := m1 - {"Negative"};
    MapSumAt(m2, "Neutral");
    assert m2 - {"Neutral"} == map[];
  }

  /** The tally's values add up to the number of emails. */
  lemma {:induction false} TallySumsToLength(emails: seq<EmailJson>)
    ensures MapSum(Tally(emails)) == |emails|
    decreases |emails|
  {
    if emails == [] {
      InitialCountsSumToZero();
    } else {
      TallySumsToLength(emails[..|emails| - 1]);
      MapSumBump(Tally(emails[..|emails| - 1]), SentimentKey(emails[|emails| - 1]));
    }
  }
}
