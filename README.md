# Email support dashboard: ingestion gate and email store, in Dafny

This project models the core of a support-ticket dashboard. The dashboard polls an IMAP inbox, stores each new message as an `Email` row, and classifies it as "Urgent" or "Not urgent" by subject. Reviewers then reply to an email, change its status or ask an external model for a draft.

The model covers these parts:

- **`Emails`** (`emails.dfy`): the `Email` entity. Its nullable fields are `Option`s. The module also holds the no-argument defaults, the declared column lengths, and the priority rule: an ASCII lower-casing followed by a `String.contains` scan.
- **`Ordering`** (`ordering.dfy`): the two `ORDER BY` clauses of the repository.
  - `priority DESC, receivedAt DESC` compares `priority` by code-point order, so "Urgent" sorts above "Not urgent".
  - `receivedAt DESC` is the second order.
  - NULL is the lowest value in both.
  - An insertion sort realises each order. It is proved to be a sorted permutation.
- **`Repository`** (`repository.dfy`): the table as a value `Table(rows, nextId)` and the derived queries as pure functions. `save` is a specification function `SaveSpec` plus the class `EmailStore`, whose `Save` method updates the rows in place. The database constraints declared on the entity are enforced by `save`: the body length, the requirements length and the unique non-null `message_id`.
- **`MailFetch`** (`mail_fetch.dfy`): `getTextFromMessage` over a tagged MIME content type, and `getMessageId`. The fetch loop is the imperative method `FetchAndSaveEmails`, proved equal to the left fold `Ingest`. Idempotence, first-occurrence-wins and the other properties of a cycle are lemmas about `Ingest`.
- **`Service`** (`service.dfy`): `createEmail`, the two listings and `analytics`.
- **`Controller`** (`controller.dfy`): `saveReply`, `updateStatus`, the demo `seed`, `fetchEmails` and `generateDraft`. Each handler is a method on the store, proved equal to a specification function. Lemmas cover the found and not-found cases.
- **`Dashboard`** (`dashboard.dfy`): two parts of the front-end page. One is the `filtered` memo, a pure filter. The other is the `sentimentCounts` loop, which increments a dictionary.

Outside inputs are parameters:

- The inbox is a sequence of `InboxMessage` values.
- A failed IMAP connection is `connectError`.
- An exception thrown while a message's sender, subject, content or received date is read from the server is that message's `readError`.
- Jsoup's HTML-to-text conversion is `strip: string -> string`.
- The random UUIDs are `uuids`, one candidate per message.
- The clock is `now`, in seconds.
- The draft generator's answer is `apiReply`, which is none on failure.
- The text of a caught exception is `message`.

Where a natural reading of the system differs from the code, the model follows the code:

- **Multipart scan.** In a multipart message the first part that is *either* text/plain or text/html wins, so an HTML part placed before a plain part is returned stripped. Nested multiparts are not searched.
- **Header-less mail.** The existence check runs on the raw header value, which may be null. The random id is drawn only after the check. Spring Data derives `message_id IS NULL` from a null argument, so a message without a Message-ID is skipped whenever any stored row has a null message id. Rows created through `createEmail` have one. If no such row exists, the message is saved under its random id. For the same reason `findByMessageId(null)` is a single-result query that fails once two rows have no message id.
- **Aborted cycles.** A cycle stops at the first message that hits one of these:
  - a failed read of its sender, subject, content or received date;
  - a missing received date;
  - a save that violates a column constraint.

  The reads and the date come before the existence check, so they stop the cycle even for a duplicate. Rows saved earlier in the cycle stay. `FetchFailure` lists these causes together with a failed connection.

## Model

| member | source | states |
|---|---|---|
| `Emails.NoArgs` | support-dashboard/src/main/java/com/emailassistant/model/Email.java:49-51 | a no-argument entity has approved false, status "Pending", filtered false, and no id, message id, priority or sentiment |
| `Emails.Contains` | support-dashboard/src/main/java/com/emailassistant/service/MailFetchService.java:64 | the left-to-right scan answers true exactly when the pattern occurs at some position of the string |
| `Emails.PriorityOf` | support-dashboard/src/main/java/com/emailassistant/service/MailFetchService.java:64-65 | priority is "Urgent" iff the subject is non-null and its lower-cased form contains "urgent" at some position, else "Not urgent"; no other value is produced |
| `Emails.PriorityIgnoresCase` | support-dashboard/src/main/java/com/emailassistant/service/EmailService.java:21 | upper-casing a subject never changes its priority (the test is case-insensitive) |
| `Emails.PriorityExamples` | support-dashboard/src/main/java/com/emailassistant/service/MailFetchService.java:64-65 | "URGENT: server down" is Urgent, "weekly newsletter" and a null subject are Not urgent |
| `Ordering.NotUrgentBelowUrgent` | support-dashboard/src/main/java/com/emailassistant/repository/EmailRepository.java:13-14 | in string order "Not urgent" is below "Urgent", so a descending sort lists Urgent first |
| `Ordering.LexLessTransitive` | support-dashboard/src/main/java/com/emailassistant/repository/EmailRepository.java:13-14 | the string order used for `priority` is transitive |
| `Ordering.LexLessTotal` | support-dashboard/src/main/java/com/emailassistant/repository/EmailRepository.java:13-14 | any two different strings are ordered one way or the other |
| `Ordering.SortBy` | support-dashboard/src/main/java/com/emailassistant/repository/EmailRepository.java:13-16 | the result is a permutation (same multiset) of the input, each neighbour pair in the requested order |
| `Ordering.SortedIsSortedAllPairs` | support-dashboard/src/main/java/com/emailassistant/repository/EmailRepository.java:13-16 | a list sorted neighbour by neighbour is in order for every pair |
| `Repository.ExistsByMessageId` | support-dashboard/src/main/java/com/emailassistant/repository/EmailRepository.java:22 | true iff some stored row's message id equals the key, a null key matching rows whose message id is null |
| `Repository.FindByMessageId` | support-dashboard/src/main/java/com/emailassistant/repository/EmailRepository.java:11 | the single-result query fails with a non-unique result exactly when two rows share the key; otherwise it returns the row with that message id, empty exactly when none exists |
| `Repository.FindByMessageIdFailsOnlyForNull` | support-dashboard/src/main/java/com/emailassistant/repository/EmailRepository.java:11 | in a valid table the lookup never fails for a non-null key, and a null key fails as soon as two rows have no message id |
| `Repository.FindById` | support-dashboard/src/main/java/com/emailassistant/controller/EmailController.java:102 | returns a row of the list with that id, and returns empty exactly when no row has it |
| `Repository.CountByStatus` | support-dashboard/src/main/java/com/emailassistant/repository/EmailRepository.java:20 | the count equals the multiplicity of the status in the rows' statuses, at most the table size |
| `Repository.StatusCountsDisjoint` | support-dashboard/src/main/java/com/emailassistant/service/EmailService.java:51-52 | counts of two different statuses add up to at most the number of rows |
| `Repository.CountByReceivedAtAfter` | support-dashboard/src/main/java/com/emailassistant/repository/EmailRepository.java:18 | the count is the number of row positions whose received date is non-null and strictly after the cutoff; hence at most the table size, and equal to it only if every row is after the cutoff |
| `Repository.CountAfterAntitone` | support-dashboard/src/main/java/com/emailassistant/repository/EmailRepository.java:18 | a later cutoff never counts more rows |
| `Repository.CountAfterAppend` | support-dashboard/src/main/java/com/emailassistant/repository/EmailRepository.java:18 | one more row adds one to the count exactly when it is strictly after the cutoff |
| `Repository.FindFilteredByPriorityThenNewest` | support-dashboard/src/main/java/com/emailassistant/repository/EmailRepository.java:14 | holds exactly the filtered rows (each as often as stored), ordered by priority descending then received date descending |
| `Repository.FindAllNewestFirst` | support-dashboard/src/main/java/com/emailassistant/repository/EmailRepository.java:16 | a permutation of the whole table, newest first |
| `Repository.FilteredListUrgentFirst` | support-dashboard/src/main/java/com/emailassistant/repository/EmailRepository.java:13-14 | in the filtered list no "Not urgent" row precedes an "Urgent" one, and within one priority newer precedes older |
| `Repository.AllListNewestFirst` | support-dashboard/src/main/java/com/emailassistant/repository/EmailRepository.java:16 | any earlier row of the full list is at least as new as any later one |
| `Repository.IdDeterminesRow` | support-dashboard/src/main/java/com/emailassistant/model/Email.java:16-18 | in a valid table two rows with the same id are the same row |
| `Repository.SaveSpec` | support-dashboard/src/main/java/com/emailassistant/model/Email.java:16-41 | a save succeeds iff body and requirements fit their declared lengths and no other row holds its non-null message id; on failure nothing changes; a known id is updated in place, otherwise the row is appended with the next id; validity is preserved |
| `Repository.SaveKeepsIds` | support-dashboard/src/main/java/com/emailassistant/model/Email.java:16-18 | a save never changes the id of a row already stored |
| `Repository.EmailStore.Save` | support-dashboard/src/main/java/com/emailassistant/service/EmailService.java:36-38 | the store's rows and next id after `save` are those of `SaveSpec`, and the store stays valid |
| `MailFetch.GetText` | support-dashboard/src/main/java/com/emailassistant/service/MailFetchService.java:93-112 | a plain part gives its text, an HTML part its stripped text, a multipart the text of its first plain-or-HTML part ("" when it has none), any other type "" |
| `MailFetch.GetMessageId` | support-dashboard/src/main/java/com/emailassistant/service/MailFetchService.java:115-124 | the first Message-ID header value when the header is present and non-empty, otherwise null |
| `MailFetch.FirstTextPart` | support-dashboard/src/main/java/com/emailassistant/service/MailFetchService.java:99-111 | the text of the first part that is plain or HTML, in part order (HTML stripped); "" when no part is either |
| `MailFetch.GetTextSinglePart` | support-dashboard/src/main/java/com/emailassistant/service/MailFetchService.java:94-98 | plain text is returned verbatim, HTML stripped, any other type and an empty multipart give "" |
| `MailFetch.HtmlPartBeforePlainWins` | support-dashboard/src/main/java/com/emailassistant/service/MailFetchService.java:101-108 | an HTML part before a plain part wins; non-text parts before it are passed over |
| `MailFetch.NestedMultipartIgnored` | support-dashboard/src/main/java/com/emailassistant/service/MailFetchService.java:101-109 | removing a nested multipart from the part list never changes the extracted body |
| `MailFetch.NestedTextNotFound` | support-dashboard/src/main/java/com/emailassistant/service/MailFetchService.java:99-111 | text held only inside a nested multipart is not found: the body is "" |
| `MailFetch.FetchAndSaveEmails` | support-dashboard/src/main/java/com/emailassistant/service/MailFetchService.java:39-91 | the loop leaves the store and returns the outcome given by the fold `Ingest` (connection failure first), keeping the store valid |
| `MailFetch.IngestOneEffect` | support-dashboard/src/main/java/com/emailassistant/service/MailFetchService.java:53-86 | a stored id leaves the table unchanged; otherwise one row built from the message is appended with the next id; a message whose read fails or that has no date never passes |
| `MailFetch.IngestAppendsOnly` | support-dashboard/src/main/java/com/emailassistant/service/MailFetchService.java:53-86 | existing rows are untouched, at most one row is added per message, and the table stays valid (message ids unique) |
| `MailFetch.IngestedRowsComeFromMessages` | support-dashboard/src/main/java/com/emailassistant/service/MailFetchService.java:72-85 | every added row carries one message's sender, subject, body and date, its first Message-ID or else its random id, the derived priority, sentiment "Neutral", status "Pending", approved false, filtered true |
| `MailFetch.IngestKeepsLabels` | support-dashboard/src/main/java/com/emailassistant/model/Email.java:33-34 | ingestion keeps every row's priority in {Urgent, Not urgent} and sentiment in {Positive, Negative, Neutral} |
| `MailFetch.StoredStaysStored` | support-dashboard/src/main/java/com/emailassistant/service/MailFetchService.java:71-85 | a message id stored before a cycle is still stored after it (the cycle never deletes or rewrites rows) |
| `MailFetch.CompletedCycleStoresEveryId` | support-dashboard/src/main/java/com/emailassistant/service/MailFetchService.java:53-86 | after a completed cycle over messages with ids, every message was read, is dated, and has its id stored |
| `MailFetch.StoredMessagesAreSkipped` | support-dashboard/src/main/java/com/emailassistant/service/MailFetchService.java:71 | a cycle over readable, dated messages whose ids are all stored changes nothing and completes |
| `MailFetch.IngestIdempotent` | support-dashboard/src/main/java/com/emailassistant/service/MailFetchService.java:53-86 | re-running a cycle over the same messages, all with a Message-ID, with any random ids, adds no row and ends with the same outcome, whether the first run completed or stopped early |
| `MailFetch.FirstOccurrenceSaved` | support-dashboard/src/main/java/com/emailassistant/service/MailFetchService.java:71-85 | of several messages sharing a new id, exactly one row is saved, and it carries the first message's fields |
| `MailFetch.HeaderlessMessage` | support-dashboard/src/main/java/com/emailassistant/service/MailFetchService.java:71-73 | a message without Message-ID is skipped if a row with a null message id exists; otherwise it is appended under its random id exactly when it fits the columns and that id is unused |
| `MailFetch.FreshIdsNeverCollide` | support-dashboard/src/main/java/com/emailassistant/service/MailFetchService.java:73 | with distinct unused random ids the unique constraint never rejects a save of the cycle |
| `Service.CreateEmailAddsOne` | support-dashboard/src/main/java/com/emailassistant/service/EmailService.java:20-34 | creation appends exactly one row with the next id, no message id, the derived priority, "Neutral", "Pending", filtered, not approved; it fails, changing nothing, only for an over-long body |
| `Service.CreateEmail` | support-dashboard/src/main/java/com/emailassistant/service/EmailService.java:20-34 | the store after creation is that of saving the built record, and stays valid |
| `Service.GetFilteredEmails` | support-dashboard/src/main/java/com/emailassistant/service/EmailService.java:40-42 | exactly the filtered rows, every pair in priority-then-newest order |
| `Service.GetAllEmails` | support-dashboard/src/main/java/com/emailassistant/service/EmailService.java:44-46 | every row once, every pair newest first |
| `Service.Analytics` | support-dashboard/src/main/java/com/emailassistant/service/EmailService.java:48-54 | exactly the keys total24h, resolved, pending; resolved and pending count statuses exactly "Resolved" and "Pending" and together are at most the table size; total24h counts rows strictly after now minus 24 hours |
| `Service.Total24hWindowIsOpen` | support-dashboard/src/main/java/com/emailassistant/service/EmailService.java:50 | a row received exactly 24 hours ago is not counted, one received a second later is |
| `Controller.SaveReplyUnknownId` | support-dashboard/src/main/java/com/emailassistant/controller/EmailController.java:51-57 | an unknown id answers not-found and leaves the table unchanged |
| `Controller.SaveReplyKnownId` | support-dashboard/src/main/java/com/emailassistant/controller/EmailController.java:50-58 | a known id sets that row's final reply and approved true, keeping its status and every other row |
| `Controller.SaveReply` | support-dashboard/src/main/java/com/emailassistant/controller/EmailController.java:49-58 | the handler's new store and response are those of `SaveReplySpec` |
| `Controller.UpdateStatusUnknownId` | support-dashboard/src/main/java/com/emailassistant/controller/EmailController.java:61-67 | an unknown id answers not-found and leaves the table unchanged |
| `Controller.UpdateStatusKnownId` | support-dashboard/src/main/java/com/emailassistant/controller/EmailController.java:60-68 | a known id sets only that row's status, not its approval, and no other row |
| `Controller.UpdateStatus` | support-dashboard/src/main/java/com/emailassistant/controller/EmailController.java:60-68 | the handler's new store and response are those of `UpdateStatusSpec` |
| `Controller.HandlersKeepLabels` | support-dashboard/src/main/java/com/emailassistant/controller/EmailController.java:53-64 | reply, status and draft updates keep every row's priority and sentiment among the known labels |
| `Controller.SeedSubjectIsUrgent` | support-dashboard/src/main/java/com/emailassistant/controller/EmailController.java:81 | the demo subject contains "urgent", so its priority is Urgent |
| `Controller.SeedCreatesOneUrgentEmail` | support-dashboard/src/main/java/com/emailassistant/controller/EmailController.java:77-85 | a non-empty table is left unchanged; an empty one gets exactly one pending Urgent email |
| `Controller.SeedIdempotent` | support-dashboard/src/main/java/com/emailassistant/controller/EmailController.java:78 | seeding twice leaves what seeding once leaves |
| `Controller.Seed` | support-dashboard/src/main/java/com/emailassistant/controller/EmailController.java:76-85 | the handler answers OK and leaves the store given by `SeedSpec` |
| `Controller.FetchResponse` | support-dashboard/src/main/java/com/emailassistant/controller/EmailController.java:88-98 | the answer is "Emails fetched successfully" iff the cycle completed, otherwise "Error: " followed by the exception message |
| `Controller.FetchEmails` | support-dashboard/src/main/java/com/emailassistant/controller/EmailController.java:87-98 | the store after the request is the ingestion cycle's, and the text is the cycle outcome's response |
| `Controller.NegativeIdNotFound` | support-dashboard/src/main/java/com/emailassistant/controller/EmailController.java:51-102 | a negative path id matches no stored row, so reply, status update and draft generation all answer not-found and change nothing |
| `Controller.GenerateDraftUnknownId` | support-dashboard/src/main/java/com/emailassistant/controller/EmailController.java:102-107 | an unknown id answers not-found, changes nothing, whatever the generator would answer |
| `Controller.GenerateDraftKnownId` | support-dashboard/src/main/java/com/emailassistant/controller/EmailController.java:102-106 | for a known id a failed generation returns the fixed sentinel, changing nothing; a generated text becomes that row's draft only and is returned |
| `Controller.GenerateDraft` | support-dashboard/src/main/java/com/emailassistant/controller/EmailController.java:100-108 | the handler's new store and response are those of `GenerateDraftSpec` |
| `Dashboard.FilterEmails` | support-dashboard-frontend/src/App.jsx:28-35 | an order-preserving subsequence of the emails holding each kept email as often as it occurs and nothing else |
| `Dashboard.FilterSelects` | support-dashboard-frontend/src/App.jsx:30-32 | 'urgent' keeps exactly priority "Urgent"; 'pending' and 'resolved' keep exactly status "Pending" or "Resolved" |
| `Dashboard.FilterOtherKeepsAll` | support-dashboard-frontend/src/App.jsx:33 | 'all' or any unrecognised filter returns the list unchanged |
| `Dashboard.SentimentCounts` | support-dashboard-frontend/src/App.jsx:37-41 | the loop's dictionary is the tally of the emails |
| `Dashboard.TallyCounts` | support-dashboard-frontend/src/App.jsx:38-39 | the keys are Positive, Negative, Neutral plus each email's sentiment (missing or empty meaning Neutral); each value is the number of emails under that key |
| `Dashboard.TallySumsToLength` | support-dashboard-frontend/src/App.jsx:38-39 | the tally's values add up to the number of emails |

## Left out

- IMAP session, store and folder handling (MailFetchService.java:41-51, 89-90) are mail I/O. The inbox is an input sequence, and a failed connection is an input error string.
- Which read throws, and its exception type, is not modelled: the reads of sender, subject, content and date are one `readError` per message. The `MessagingException` caught inside `getMessageId` is not modelled either: a header that cannot be read behaves as an absent header.
- Jsoup's HTML-to-text conversion is a foreign library. It is the parameter `strip`.
- `UUID.randomUUID()` is the parameter `uuids`. Its uniqueness is the hypothesis `FreshIds` of `MailFetch.FreshIdsNeverCollide`.
- Clock, time zones and `LocalDateTime` precision are reduced to integer seconds, with `now` as a parameter.
- Java's locale-sensitive, Unicode `toLowerCase` is reduced to ASCII lower-casing.
- GeminiNlpService.java is not part of this model: prompt building, the HTTP call and JSON parsing. `generateDraft` receives the generator's answer as `apiReply`. Only its effect is modelled: the draft is stored on success, and the sentinel string is returned on failure.
- Concurrent ingestion and its check-then-insert race are out of scope. The model is single-threaded.
- support-dashboard-frontend/src/api.js (fetch wrappers) and everything in App.jsx except the two memos are left out.
- SupportDashboardApplication.java, KnowledgeBaseArticle.java and KnowledgeBaseArticleRepository.java are left out: bootstrap code and an unused entity.
- JPA and Lombok mechanics are left out: persistence contexts, dirty checking, and the builder.
- The controller handlers that only delegate (`getEmails`, `getAllEmails`, `createEmail`, `analytics`) are covered by the service members they call.
- The default 255-character limit of the other string columns is not modelled, because it depends on how the schema is generated. Only the declared lengths (10000 and 2000) and the unique message id are enforced.
- Database ordering leaves ties unspecified. The model's sort keeps store order among equal keys, which is one admissible answer. NULL sorts lowest, and database collations other than code-point order are not modelled.
- The texts of exceptions (`e.getMessage()`) are the parameter `message` of `Controller.FetchResponse`.
- In `sentimentCounts`, a sentiment that names an inherited JavaScript object property (such as "constructor") is not modelled. The dictionary is a plain map.
- MailFetch.FirstOccurrenceSaved: stated for cycles that complete, and for the case where no random id drawn earlier in the cycle equals the shared id. An aborted cycle may stop before the first occurrence.
