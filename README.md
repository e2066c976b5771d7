# codesearch credential pipeline, modelled in Dafny

This project models the core of a small pipeline that looks for Azure storage connection
strings in public code. It has two workers.

- The code-search worker pages through GitHub code-search results. It extracts every
  `DefaultEndpointsProtocol...==` span from the code excerpts and pairs each span with its
  repository name. It queues the candidates it has not seen before, and then tests the queued
  candidates one at a time against the storage service. Candidates that work are published to
  the `tested-connection-strings` message queue.
- The notifier worker consumes that queue. It keeps a ledger table keyed by the SHA-1 of the
  lower-cased repository and connection string. For a candidate that has no ledger row yet, it
  looks up a commit email of the repository's owner in the owner's GitHub event feed. It then
  inserts the ledger row and after that sends one warning email.

Files:

- `wrappers.dfy`: the `Option` type. `None` stands for C# `null`.
- `strings.dfy`: the .NET string operations the code relies on:
  - `IsNullOrWhiteSpace`, `Trim`;
  - ordinal and `OrdinalIgnoreCase` `IndexOf`;
  - `Split`, `Join`, `ToLowerInvariant`.
- `linq.dfy`: the LINQ operators `Except`, `Distinct`, `Where`, `FirstOrDefault` (as `FirstIndex`) and `SelectMany`.
- `workers.dfy`: what an iteration returns, either a delay (`Zero`, `ShortDelay` = 3 s,
  `LongDelay` = 10 s) or an exception.
- `identified_connection_string.dfy`: the candidate value type.
- `github_page.dfy`: the connection-string extractor and the pairing of strings with repositories.
  - The scan loop `ExtractConnectionStrings` is proved equal to a reference definition:
    `Extracted(code)` is the texts of all *accepted* marker positions, in order.
  - A marker position is accepted when three things hold. A first `==` follows it. No other
    marker starts strictly between the two. The span contains no line break.
  - The lemmas derive the promised properties from that definition. Every emitted string is a
    substring of `code`. It starts with the marker and contains no other. It ends with its only
    `==` and has no CR or LF. The emitted strings appear in order and never overlap.
- `code_search_worker.dfy`: the scrape/test state machine, modelled as a class. Its invariant
  covers the page counter, the seen-set, the pending FIFO queue and the published queue.
  - The page counter stays in 0..100.
  - Every pending or published candidate has been seen and is complete.
  - No candidate is pending twice, published twice, or both pending and published.
- `notifier_worker.dfy`: the notifier, also modelled as a class. Its parts:
  - the ledger keys;
  - the `Sha1` hex formatting, with the hash itself an uninterpreted digest function;
  - the `FindGitHubEmail` event-page loop;
  - the ledger gate in `RunIteration`.

  The class invariant accounts for every ledger row. Every email sent has its own row, and no
  row has two emails. Each row is one of three kinds, and no row is of two kinds:
  - a row that was there when the worker started;
  - the row of an email this worker sent;
  - a row this worker inserted whose email then failed to send.

  An invariant cannot say in what order the insert and the send happen. `RunIteration`'s
  contract shows the order instead: when the send throws, the new row is already in the ledger
  and no email is recorded.

Oracles stand in for the outside world; each worker file's header lists the ones it uses.

- Code-search worker:
  - the downloaded result page, or a failed download;
  - `HttpUtility.HtmlDecode`;
  - `CloudStorageAccount.TryParse`;
  - whether the container listing and the enqueue complete.
- Notifier worker:
  - SHA-1 over UTF-8;
  - the GitHub user lookup;
  - a user's event pages;
  - whether `SendEmail` completes.

Modelling choices:

- Exceptions are modelled as the outcome `Threw`. The state is left as it was when the
  exception happened. In particular a notifier message that was not deleted stays at the front of
  the queue.
- The scraper computes `newConnectionStrings` as `IdentifyConnectionStrings(...).Distinct().Except(seen)`.
  - This is a deferred LINQ query, so `Any()` and the `foreach` each enumerate it once.
  - Both enumerations give the same sequence. The page was already parsed into a list, and
    `Except` copies the seen-set when each enumeration starts and before anything is added to it.
  - The model therefore computes the sequence once.
- `OrdinalIgnoreCase` and `ToLowerInvariant` fold ASCII letters only.
- `Environment.NewLine` is `"\r\n"`, as on the Windows .NET Framework the program targets.

## Model

| member | source | states |
|---|---|---|
| SharedLibs.HasAllFieldsMeaning | CodeSearch.SharedLibs/IdentifiedConnectionString.cs:46-53 | HasAllFields holds iff both fields are non-null and each holds a character that is not white space |
| SharedLibs.IdentifiedConnectionString.HasAllFields | CodeSearch.SharedLibs/IdentifiedConnectionString.cs:46-53 | a candidate with all fields has both fields non-null and non-empty |
| SharedLibs.IdentifiedConnectionString.Equals | CodeSearch.SharedLibs/IdentifiedConnectionString.cs:15-27 | Equals is false for null and for other object types, and true exactly for a candidate with the same repository and connection string |
| SharedLibs.IdentifiedConnectionString.GetHashCode | CodeSearch.SharedLibs/IdentifiedConnectionString.cs:29-43 | null fields are skipped, so two null fields give the hash of the empty string; two equal non-null fields cancel out to that same hash |
| SharedLibs.EqualsIsEquivalence | CodeSearch.SharedLibs/IdentifiedConnectionString.cs:24-26 | Equals is reflexive, symmetric and transitive |
| SharedLibs.EqualsImpliesSameHash | CodeSearch.SharedLibs/IdentifiedConnectionString.cs:29-43 | equal candidates have equal GetHashCode for any deterministic string hash |
| SharedLibs.HashIgnoresFieldOrder | CodeSearch.SharedLibs/IdentifiedConnectionString.cs:31-41 | swapping the two fields leaves the XOR hash unchanged |
| GitHubPage.GetRepoName | CodeSearch/GitHubPage.cs:71-93 | no title node or no anchor in it gives the empty name; otherwise the name is trimmed (no white space at either end) |
| GitHubPage.NoCellsNoCandidates | CodeSearch/GitHubPage.cs:63-66 | a container without code cells has empty content, from which nothing is extracted |
| GitHubPage.GetCodeContent | CodeSearch/GitHubPage.cs:54-69 | the content is the trimmed, decoded code lines joined by NewLine; the early return for no code cells agrees with joining no lines, and a single cell is its decoded line alone |
| GitHubPage.CodeContentHoldsLines | CodeSearch/GitHubPage.cs:68 | the code content contains every trimmed, decoded code line |
| GitHubPage.ExtractedWithinOneLine | CodeSearch/GitHubPage.cs:68 | since emitted strings have no CR/LF and the lines are joined with "\r\n", each extracted string lies inside a single decoded line |
| GitHubPage.ExtractConnectionStrings | CodeSearch/GitHubPage.cs:95-135 | the scan loop terminates (startSearchAt strictly grows) and returns exactly Extracted(code), the texts of all accepted marker positions in increasing order |
| GitHubPage.ScanNoMarker | CodeSearch/GitHubPage.cs:103-107 | when no marker is left, no accepted position is left |
| GitHubPage.ScanNoTerminator | CodeSearch/GitHubPage.cs:109-113 | when no "==" follows the marker, no accepted position is left |
| GitHubPage.ScanInnerMarker | CodeSearch/GitHubPage.cs:115-121 | restarting at an inner marker skips no accepted position |
| GitHubPage.ScanDropsSpan | CodeSearch/GitHubPage.cs:123-129 | a span with a line break is dropped and the scan resumes after it without losing any accepted position |
| GitHubPage.ScanKeepsSpan | CodeSearch/GitHubPage.cs:123-131 | a span without a line break is the next emitted string, and the scan resumes right after it |
| GitHubPage.AcceptedFromSpec | CodeSearch/GitHubPage.cs:99-132 | the reference list holds exactly the accepted positions from a start on, strictly increasing |
| GitHubPage.AcceptedSpanShape | CodeSearch/GitHubPage.cs:103-129 | an accepted span is a substring of the code at its position, starts with the marker (ignoring case), ends with "==", and has no CR/LF |
| GitHubPage.SpanNoInnerMarker | CodeSearch/GitHubPage.cs:115-121 | an emitted string contains the marker only at offset 0 |
| GitHubPage.SpanNoInnerTerminator | CodeSearch/GitHubPage.cs:109 | an emitted string contains "==" only as its last two characters |
| GitHubPage.OuterMarkerNotAccepted | CodeSearch/GitHubPage.cs:115-121 | innermost marker wins: a marker followed by another marker before any "==" opens no span |
| GitHubPage.AcceptedSpansDisjoint | CodeSearch/GitHubPage.cs:123-124 | a later accepted span starts after the end of an earlier one |
| GitHubPage.ExtractedInOrder | CodeSearch/GitHubPage.cs:99-132 | the emitted strings are well-formed substrings of the code at strictly increasing, non-overlapping positions |
| GitHubPage.ExtractedComplete | CodeSearch/GitHubPage.cs:101-132 | every accepted span is emitted |
| GitHubPage.PagePairsStep | CodeSearch/GitHubPage.cs:23-39 | each container appends exactly its own pairs to the candidate list |
| GitHubPage.ContainerPairsMeaning | CodeSearch/GitHubPage.cs:25-38 | a container's pairs are exactly the candidates whose repository is its repo name and whose string is extracted from its content |
| GitHubPage.PagePairsMeaning | CodeSearch/GitHubPage.cs:23-39 | the whole list holds exactly the candidates that come from some container |
| GitHubPage.IdentifyConnectionStrings | CodeSearch/GitHubPage.cs:14-42 | the result is the complete pairs of all containers, duplicates removed in first-occurrence order; it has no duplicates and holds exactly the complete candidates coming from some container |
| GitHubPage.UntitledContainerContributesNothing | CodeSearch/GitHubPage.cs:81-92 | a container without title or anchor yields the empty repo name, so its candidates are dropped |
| Linq.DistinctIdempotent | CodeSearch/CodeSearchWorker.cs:107-109 | the second Distinct applied to the already distinct result changes nothing |
| Linq.ExceptOfDistinct | CodeSearch/CodeSearchWorker.cs:109-110 | Except of a duplicate-free sequence disjoint from the set returns it unchanged |
| CodeSearchWorkers.NextPage | CodeSearch/CodeSearchWorker.cs:99-100 | the requested page is always in 1..100; after page 100 the next request is page 1, otherwise the page after |
| CodeSearchWorkers.PagesCycle | CodeSearch/CodeSearchWorker.cs:129-135 | the k-th scrape of a fresh worker requests page (k-1) mod 100 + 1 |
| CodeSearchWorkers.DevelopmentAccountNeverPublished | CodeSearch/CodeSearchWorker.cs:71-74 | a candidate whose account name equals the development account's, in any letter case, is never published |
| CodeSearchWorkers.CodeSearchWorker.constructor | CodeSearch/CodeSearchWorker.cs:29-35 | a fresh worker has page number 0, an empty pending queue and an empty seen-set, and its invariant holds |
| CodeSearchWorkers.CodeSearchWorker.CheckPageNumber | CodeSearch/CodeSearchWorker.cs:129-135 | a page number of 100 or more is reset to 0; nothing else changes |
| CodeSearchWorkers.CodeSearchWorker.RunIteration | CodeSearch/CodeSearchWorker.cs:46-54 | with an empty pending queue it scrapes: the page advances, a failed download throws and queues nothing, otherwise exactly the distinct candidates of the page not seen before are queued and added to the seen-set, with LongDelay when nothing is new or the page is at 100 or more and ShortDelay otherwise; with a non-empty queue it tests exactly the front candidate and returns Zero; the invariant holds and the seen-set never shrinks |
| CodeSearchWorkers.CodeSearchWorker.TestConnectionString | CodeSearch/CodeSearchWorker.cs:56-89 | an empty queue gives ShortDelay and no change; otherwise exactly the front is dequeued, Zero is returned, and it is published iff it parses, is not the development account and the listing and enqueue complete |
| CodeSearchWorkers.CodeSearchWorker.ScrapConnectionStrings | CodeSearch/CodeSearchWorker.cs:97-127 | the page advances; a failed download throws and changes nothing else; otherwise exactly the distinct candidates of the page not seen before are queued in order and added to the seen-set; nothing new gives LongDelay, otherwise LongDelay iff page >= 100, else ShortDelay |
| CodeSearchWorkers.CodeSearchWorker.Enqueue | CodeSearch/CodeSearchWorker.cs:117-121 | each new candidate is added to the seen-set and enqueued, in order |
| CodeSearchWorkers.EnqueueKeepsValid | CodeSearch/CodeSearchWorker.cs:107-121 | queueing candidates that were never seen keeps the pending queue duplicate-free, inside the seen-set and disjoint from the published queue |
| CodeSearchWorkers.DequeuedIsFresh | CodeSearch/CodeSearchWorker.cs:63-80 | the dequeued front is not still pending, and publishing it keeps the message queue duplicate-free |
| NotifierWorkers.FormatIsLowerHex | CodeSearch.Notifier/NotifierWorker.cs:207 | BitConverter's dashed uppercase text, with dashes removed and lower-cased, is the lowercase hex of the digest |
| NotifierWorkers.RemoveCharMeaning | CodeSearch.Notifier/NotifierWorker.cs:207 | Replace("-", "") leaves no dash and changes a string without dashes in no way |
| NotifierWorkers.Sha1 | CodeSearch.Notifier/NotifierWorker.cs:194-209 | null input gives null; non-null input gives a non-null result |
| NotifierWorkers.Sha1IsLowerHex | CodeSearch.Notifier/NotifierWorker.cs:194-209 | Sha1 of a string is the lowercase hex, without dashes, of its digest |
| NotifierWorkers.LowerHexShape | CodeSearch.Notifier/NotifierWorker.cs:207 | two characters per digest byte, each a lowercase hex digit |
| NotifierWorkers.HexRoundTrip | CodeSearch.Notifier/NotifierWorker.cs:207 | decoding the hex text gives the digest back |
| NotifierWorkers.PartitionKey | CodeSearch.Notifier/NotifierWorker.cs:184-187 | computing the partition key throws exactly when the repository is null |
| NotifierWorkers.RowKey | CodeSearch.Notifier/NotifierWorker.cs:189-192 | computing the row key throws exactly when the connection string is null |
| NotifierWorkers.KeyOf | CodeSearch.Notifier/NotifierWorker.cs:176-181 | the ledger key can be computed exactly when both fields are non-null |
| NotifierWorkers.CaseVariantsShareKey | CodeSearch.Notifier/NotifierWorker.cs:184-192 | candidates whose fields differ only in letter case map to the same ledger key |
| NotifierWorkers.KeysEqualIffDigestsEqual | CodeSearch.Notifier/NotifierWorker.cs:184-208 | two ledger keys are equal iff the digests of the lower-cased repositories and of the lower-cased connection strings are equal |
| NotifierWorkers.MalformedRepositoryGivesNull | CodeSearch.Notifier/NotifierWorker.cs:80-84 | a repository that does not split on '/' into exactly two parts gives a null email |
| NotifierWorkers.ScanFromResult | CodeSearch.Notifier/NotifierWorker.cs:93-118 | the event scan returns the empty string (feed exhausted) or a non-blank author email, never null |
| NotifierWorkers.PagesAfterEmptyPageIgnored | CodeSearch.Notifier/NotifierWorker.cs:99-102 | pages after the first empty page never influence the result |
| NotifierWorkers.FindGitHubEmail | CodeSearch.Notifier/NotifierWorker.cs:75-119 | the loop terminates and returns GitHubEmailOf: null repository throws, not owner/name or no user gives null, otherwise the scan of pages 1, 2, ... examining only the first PushEvent per page (case-insensitively), skipping pages whose push has no commits, returning the first non-blank author email or throwing when there is none, and "" at the first empty page |
| NotifierWorkers.EmailsBoundedByRows | CodeSearch.Notifier/NotifierWorker.cs:64-68 | every email has its own ledger row, so there are no more emails sent than rows in the ledger |
| NotifierWorkers.NewRowKeepsCover | CodeSearch.Notifier/NotifierWorker.cs:64-68 | inserting a fresh row and then emailing about it keeps one row per email |
| NotifierWorkers.RowsMatchEmails | CodeSearch.Notifier/NotifierWorker.cs:60-68 | under the invariant, the ledger holds exactly the starting rows plus one row per email sent plus one row per failed send, and no email is about a row that was there at the start |
| NotifierWorkers.SentRowKeepsAccounts | CodeSearch.Notifier/NotifierWorker.cs:66-67 | inserting a fresh row and then sending its email keeps every row accounted for |
| NotifierWorkers.FailedSendKeepsAccounts | CodeSearch.Notifier/NotifierWorker.cs:66-67 | inserting a fresh row whose email then fails keeps every row accounted for, the row counting as failed |
| NotifierWorkers.NotifierWorker.constructor | CodeSearch.Notifier/NotifierWorker.cs:35-40 | a fresh worker starts from the given queue and ledger, with no email sent and no failed row, every row counting as a starting row, and its invariant holds |
| NotifierWorkers.NotifierWorker.RecordAndEmail | CodeSearch.Notifier/NotifierWorker.cs:66-67 | the row is inserted; a completed send records one email, a failed send records none and marks the row failed; the row accounting holds |
| NotifierWorkers.NotifierWorker.RunIteration | CodeSearch.Notifier/NotifierWorker.cs:50-73 | no message gives ShortDelay and no change; a null field throws; a key already in the ledger deletes the message with no insert and no email; a failed lookup throws; a blank email deletes the message only; otherwise the row is inserted, then the email is sent (or the send throws, leaving the row and the message); every completed path deletes the message and returns Zero; the starting rows never change and only a failed send adds a failed row; the row accounting invariant holds |

## Left out

- HTTP fetching, response streams and HtmlAgilityPack parsing are not modelled. A result page is a sequence of containers, each holding the texts of its code cells and its title anchor. `GetCodeDivs` is not modelled either: finding the nodes by class name is part of HTML parsing.
- The search URL formatting and the GitHub URL of the events API are left out because they are I/O.
- `HttpUtility.HtmlDecode` is a given function.
- The Azure storage SDK is not modelled: `CloudStorageAccount.Parse`/`TryParse`, container listing, the queue and the table. Each becomes an oracle, a sequence or a map.
- The constructors' environment-variable parsing of the storage account is left out.
- Both `Setup` methods are left out. The scraper's `Setup` starts `CreateIfNotExistsAsync` without awaiting it; that race is not modelled.
- Storage failures of the queue and table calls themselves are not modelled (message get and delete, table retrieve and insert, and an insert conflict under concurrent workers). In the notifier, only the send failure, the failed email lookup and the null fields of the candidate are modelled.
- SHA-1 and UTF-8 encoding are one uninterpreted digest function. `string.GetHashCode` is an uninterpreted `bv32` function.
- JSON serialisation of candidates is the identity. A message that deserialises to null or fails to deserialise is not modelled.
- The Octokit client is not modelled: credentials, and the exception it raises for a missing user or a failed request. The user lookup returns a user or none, and the event pages are a finite sequence.
- NotifierWorkers.FindGitHubEmail: an event feed whose pages never become empty (an endless feed) is not modelled, because pages past the end of the finite sequence are empty.
- A null commit inside a commit list is not modelled.
- `SendEmail` is reduced to a logged recipient and candidate: the Mailgun request and the message text are left out. Its failure (for example `Substring(0, 7)` or the HTTP post) is an oracle.
- Async/await, cancellation tokens and `Trace` logging are left out.
- Time delays are kept only as their symbolic values.
- The `Program.cs` bootstraps and the polling harness are left out.
- Case folding covers ASCII letters only. The non-ASCII mappings of `OrdinalIgnoreCase` and `ToLowerInvariant` are left out.
- `IndexOf("==", int)` is modelled as an ordinal search, and its culture-sensitive comparison is left out.
