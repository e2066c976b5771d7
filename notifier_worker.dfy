/**
  The notifier worker. It takes tested candidates off the message queue, looks up a ledger row
  keyed by the SHA-1 of the lower-cased repository and connection string, and, for a candidate
  not yet in the ledger whose repository owner has a public commit email, inserts the row and
  then sends one warning email.

  The outside world is given as oracles:
  - `hash` is SHA-1 over the UTF-8 bytes of a string;
  - `users(login)` is the GitHub user of that login, or None when there is none;
  - `feeds(user)` is that user's event feed as consecutive pages, page 1 first; every page past
    the end is empty;
  - `sendSucceeds` tells whether SendEmail completes.
  The message queue is the sequence of deserialised candidates, the ledger table a map from
  ledger key to stored candidate, and the mail channel the log of emails sent.
 */
module NotifierWorkers {
  import opened Wrappers
  import opened Strings
  import opened Linq
  import opened Workers
  import opened SharedLibs

  newtype byte = x: int | 0 <= x < 256

  // ---------------------------------------------------------------------------------------------
  // Sha1: BitConverter.ToString(hash).Replace("-", "").ToLowerInvariant()

  const UpperHexDigits: string := "0123456789ABCDEF"
  const LowerHexDigits: string := "0123456789abcdef"

  /** One byte as BitConverter writes it: two uppercase hex digits. */
  function ByteToString(b: byte): (r: string)
    ensures |r| == 2 && '-' !in r
  {
    [UpperHexDigits[b / 16], UpperHexDigits[b % 16]]
  }

  function ByteStrings(bs: seq<byte>): (r: seq<string>)
    ensures |r| == |bs|
    ensures forall i | 0 <= i < |bs| :: r[i] == ByteToString(bs[i])
  {
    if bs == [] then [] else [ByteToString(bs[0])] + ByteStrings(bs[1..])
  }

  /** BitConverter.ToString(bs): the bytes' digit pairs separated by dashes, as in "0A-FF-3C". */
  function BitConverterToString(bs: seq<byte>): string
  {
    Join("-", ByteStrings(bs))
  }

  /** s.Replace(c, "") for a one-character string c: every occurrence of c removed. */
  function RemoveChar(s: string, c: char): (r: string)
    ensures |r| <= |s|
  {
    if s == [] then [] else (if s[0] == c then [] else [s[0]]) + RemoveChar(s[1..], c)
  }

  /** Sha1(str): null for null, otherwise the digest of `str` in lowercase hex without dashes. */
  function Sha1(str: Option<string>, hash: string -> seq<byte>): (r: Option<string>)
    ensures r.None? <==> str.None?
  {
    if str.None? then None
    else Some(ToLowerInvariant(RemoveChar(BitConverterToString(hash(str.value)), '-')))
  }

  /** The reference form of a digest: each byte as two lowercase hex digits, high digit first. */
  function LowerHex(bs: seq<byte>): string
  {
    if bs == [] then "" else [LowerHexDigits[bs[0] / 16], LowerHexDigits[bs[0] % 16]] + LowerHex(bs[1..])
  }

  /** The value of a lowercase hex digit. */
  function HexValue(c: char): (r: int)
    ensures 0 <= r < 16
  {
    if '0' <= c <= '9' then c as int - '0' as int
    else if 'a' <= c <= 'f' then c as int - 'a' as int + 10
    else 0
  }

  /** Reads pairs of hex digits back into bytes. */
  function HexDecode(s: string): seq<byte>
  {
    if |s| < 2 then [] else [(16 * HexValue(s[0]) + HexValue(s[1])) as byte] + HexDecode(s[2..])
  }

  lemma {:induction false} RemoveCharAppend(a: string, b: string, c: char)
    ensures RemoveChar(a + b, c) == RemoveChar(a, c) + RemoveChar(b, c)
  {
    if a != [] {
      assert (a + b)[0] == a[0];
      assert (a + b)[1..] == a[1..] + b;
      RemoveCharAppend(a[1..], b, c);
      var h := if a[0] == c then [] else [a[0]];
      assert RemoveChar(a + b, c) == h + (RemoveChar(a[1..], c) + RemoveChar(b, c));
      assert h + (RemoveChar(a[1..], c) + RemoveChar(b, c)) == (h + RemoveChar(a[1..], c)) + RemoveChar(b, c);
    } else {
      assert a + b == b;
    }
  }

  /** Nothing to remove leaves the string as it is, and nothing removed is left. */
  lemma {:induction false} RemoveCharMeaning(s: string, c: char)
    ensures c !in RemoveChar(s, c)
    ensures c !in s ==> RemoveChar(s, c) == s
  {
    if s != [] {
      RemoveCharMeaning(s[1..], c);
      assert s == [s[0]] + s[1..];
    }
  }

  lemma {:induction false} ToLowerAppend(a: string, b: string)
    ensures ToLowerInvariant(a + b) == ToLowerInvariant(a) + ToLowerInvariant(b)
  {
    var l, r := ToLowerInvariant(a + b), ToLowerInvariant(a) + ToLowerInvariant(b);
    forall i | 0 <= i < |a + b| ensures l[i] == r[i] {
      if i < |a| {
        assert (a + b)[i] == a[i];
      } else {
        assert (a + b)[i] == b[i - |a|];
      }
    }
  }

  /** Lower-casing an uppercase digit pair gives the lowercase pair. */
  lemma LowerPair(b: byte)
    ensures ToLowerInvariant(ByteToString(b)) == [LowerHexDigits[b / 16], LowerHexDigits[b % 16]]
  {
    DigitToLower((b / 16) as int);
    DigitToLower((b % 16) as int);
  }

  lemma DigitToLower(n: int)
    requires 0 <= n < 16
    ensures ToLower(UpperHexDigits[n]) == LowerHexDigits[n]
  {
  }

  /** Removing the dashes and lower-casing BitConverter's text gives the reference lowercase hex. */
  lemma {:induction false} FormatIsLowerHex(bs: seq<byte>)
    ensures ToLowerInvariant(RemoveChar(BitConverterToString(bs), '-')) == LowerHex(bs)
  {
    if |bs| == 1 {
      LowerPair(bs[0]);
    } else if |bs| > 1 {
      var head := ByteToString(bs[0]);
      var rest := BitConverterToString(bs[1..]);
      assert ByteStrings(bs)[1..] == ByteStrings(bs[1..]);
      assert BitConverterToString(bs) == head + "-" + rest;
      RemoveCharAppend(head + "-", rest, '-');
      RemoveCharAppend(head, "-", '-');
      RemoveCharMeaning(head, '-');
      ToLowerAppend(head, RemoveChar(rest, '-'));
      LowerPair(bs[0]);
      FormatIsLowerHex(bs[1..]);
    }
  }

  /** Sha1 of a non-null string is the lowercase hex of its digest. */
  lemma Sha1IsLowerHex(s: string, hash: string -> seq<byte>)
    ensures Sha1(Some(s), hash) == Some(LowerHex(hash(s)))
  {
    FormatIsLowerHex(hash(s));
  }

  /** Two hex characters per byte, all of them lowercase hex digits. */
  lemma {:induction false} LowerHexShape(bs: seq<byte>)
    ensures |LowerHex(bs)| == 2 * |bs|
    ensures forall i | 0 <= i < |LowerHex(bs)| :: LowerHex(bs)[i] in LowerHexDigits
  {
    if bs != [] {
      LowerHexShape(bs[1..]);
    }
  }

  lemma DigitValue(n: int)
    requires 0 <= n < 16
    ensures HexValue(LowerHexDigits[n]) == n
  {
  }

  /** The hex text gives the digest back: formatting loses nothing. */
  lemma {:induction false} HexRoundTrip(bs: seq<byte>)
    ensures HexDecode(LowerHex(bs)) == bs
  {
    if bs != [] {
      var s := LowerHex(bs);
      DigitValue((bs[0] / 16) as int);
      DigitValue((bs[0] % 16) as int);
      assert s[2..] == LowerHex(bs[1..]);
      HexRoundTrip(bs[1..]);
    }
  }

  // ---------------------------------------------------------------------------------------------
  // Ledger keys

  /** A ledger row's key: the table's partition key and row key. */
  datatype LedgerKey = LedgerKey(partitionKey: string, rowKey: string)

  /** GetPartitionKey; None when the repository is null and ToLowerInvariant throws. */
  function PartitionKey(connStr: IdentifiedConnectionString, hash: string -> seq<byte>): (r: Option<string>)
    ensures r.None? <==> connStr.repository.None?
  {
    if connStr.repository.None? then None else Sha1(Some(ToLowerInvariant(connStr.repository.value)), hash)
  }

  /** GetRowKey; None when the connection string is null and ToLowerInvariant throws. */
  function RowKey(connStr: IdentifiedConnectionString, hash: string -> seq<byte>): (r: Option<string>)
    ensures r.None? <==> connStr.connectionString.None?
  {
    if connStr.connectionString.None? then None else Sha1(Some(ToLowerInvariant(connStr.connectionString.value)), hash)
  }

  /** The key RunIteration looks up and inserts; None when computing it throws. */
  function KeyOf(connStr: IdentifiedConnectionString, hash: string -> seq<byte>): (r: Option<LedgerKey>)
    ensures r.None? <==> connStr.repository.None? || connStr.connectionString.None?
  {
    var p := PartitionKey(connStr, hash);
    var k := RowKey(connStr, hash);
    if p.None? || k.None? then None else Some(LedgerKey(p.value, k.value))
  }

  /** Candidates whose fields differ only in letter case share one ledger row. */
  lemma CaseVariantsShareKey(a: IdentifiedConnectionString, b: IdentifiedConnectionString, hash: string -> seq<byte>)
    requires a.repository.Some? && b.repository.Some? && a.connectionString.Some? && b.connectionString.Some?
    requires EqualsIgnoreCase(a.repository.value, b.repository.value)
    requires EqualsIgnoreCase(a.connectionString.value, b.connectionString.value)
    ensures KeyOf(a, hash).Some? && KeyOf(a, hash) == KeyOf(b, hash)
  {
    EqualsIgnoreCaseSameLower(a.repository.value, b.repository.value);
    EqualsIgnoreCaseSameLower(a.connectionString.value, b.connectionString.value);
  }

  /** Two keys agree exactly when the digests of the lower-cased fields agree. */
  lemma KeysEqualIffDigestsEqual(a: IdentifiedConnectionString, b: IdentifiedConnectionString, hash: string -> seq<byte>)
    requires a.repository.Some? && b.repository.Some? && a.connectionString.Some? && b.connectionString.Some?
    ensures KeyOf(a, hash) == KeyOf(b, hash) <==>
      && hash(ToLowerInvariant(a.repository.value)) == hash(ToLowerInvariant(b.repository.value))
      && hash(ToLowerInvariant(a.connectionString.value)) == hash(ToLowerInvariant(b.connectionString.value))
  {
    var ra, rb := ToLowerInvariant(a.repository.value), ToLowerInvariant(b.repository.value);
    var ca, cb := ToLowerInvariant(a.connectionString.value), ToLowerInvariant(b.connectionString.value);
    Sha1IsLowerHex(ra, hash);
    Sha1IsLowerHex(rb, hash);
    Sha1IsLowerHex(ca, hash);
    Sha1IsLowerHex(cb, hash);
    HexRoundTrip(hash(ra));
    HexRoundTrip(hash(rb));
    HexRoundTrip(hash(ca));
    HexRoundTrip(hash(cb));
  }

  // ---------------------------------------------------------------------------------------------
  // FindGitHubEmail

  datatype Author = Author(email: Option<string>)
  datatype Commit = Commit(author: Option<Author>)
  /** An event's payload: a push payload with its (possibly null) commit list, another kind, or null. */
  datatype Payload = PushPayload(commits: Option<seq<Commit>>) | OtherPayload | NoPayload
  datatype Activity = Activity(activityType: Option<string>, payload: Payload)
  datatype User = User(id: int)

  /** The result of FindGitHubEmail: an email address (None for null), or the exception it throws. */
  datatype EmailLookup = Email(address: Option<string>) | LookupThrew

  type Feed = seq<seq<Activity>>

  /** "PushEvent".Equals(e.Type, OrdinalIgnoreCase) */
  predicate IsPushEvent(e: Activity)
  {
    e.activityType.Some? && EqualsIgnoreCase("PushEvent", e.activityType.value)
  }

  /** The commit FirstOrDefault picks: one with an author whose email is not blank. */
  predicate HasAuthorEmail(c: Commit)
  {
    c.author.Some? && !IsNullOrWhiteSpace(c.author.value.email)
  }

  /** Event page `page` of the feed; pages past the end are empty. */
  function EventsPage(feed: Feed, page: int): (r: seq<Activity>)
    ensures page < 1 || page > |feed| ==> r == []
  {
    if 1 <= page <= |feed| then feed[page - 1] else []
  }

  /** The commits of the push event examined on a page, when it has a non-empty commit list. */
  function ExaminedCommits(events: seq<Activity>): (r: Option<seq<Commit>>)
    ensures r.Some? ==> r.value != []
  {
    var i := FirstIndex(events, IsPushEvent);
    if i < |events| && events[i].payload.PushPayload? && events[i].payload.commits.Some? && |events[i].payload.commits.value| > 0
    then events[i].payload.commits
    else None
  }

  /** What the scan of a non-empty commit list returns: the first author email that is not blank, or the null dereference. */
  function EmailOfCommits(commits: seq<Commit>): EmailLookup
  {
    var j := FirstIndex(commits, HasAuthorEmail);
    if j < |commits| then Email(commits[j].author.value.email) else LookupThrew
  }

  /** The event scan from page `page` on, as a reference definition of the loop. */
  function ScanFrom(feed: Feed, page: int): EmailLookup
    requires page >= 1
    decreases |feed| + 1 - page
  {
    var events := EventsPage(feed, page);
    if events == [] then Email(Some(""))
    else if ExaminedCommits(events).Some? then EmailOfCommits(ExaminedCommits(events).value)
    else ScanFrom(feed, page + 1)
  }

  /** FindGitHubEmail as a function of the candidate and the oracles. */
  function GitHubEmailOf(connStr: IdentifiedConnectionString, users: string -> Option<User>, feeds: User -> Feed): EmailLookup
  {
    if connStr.repository.None? then LookupThrew
    else
      var repoParts := Split(connStr.repository.value, '/');
      if |repoParts| != 2 then Email(None)
      else if users(repoParts[0]).None? then Email(None)
      else ScanFrom(feeds(users(repoParts[0]).value), 1)
  }

  /** The scan yields the empty string or an author email that is not blank: never null. */
  lemma {:induction false} ScanFromResult(feed: Feed, page: int)
    requires page >= 1
    decreases |feed| + 1 - page
    ensures ScanFrom(feed, page).Email? ==>
      ScanFrom(feed, page) == Email(Some("")) || !IsNullOrWhiteSpace(ScanFrom(feed, page).address)
  {
    var events := EventsPage(feed, page);
    if events != [] && ExaminedCommits(events).None? {
      ScanFromResult(feed, page + 1);
    }
  }

  /** The scan stops at the first empty page: pages after it are never looked at. */
  lemma {:induction false} PagesAfterEmptyPageIgnored(feed: Feed, rest: Feed, page: int)
    requires page >= 1
    requires exists k | page <= k <= |feed| :: EventsPage(feed, k) == []
    decreases |feed| + 1 - page
    ensures ScanFrom(feed, page) == ScanFrom(feed + rest, page)
  {
    var k :| page <= k <= |feed| && EventsPage(feed, k) == [];
    var events := EventsPage(feed, page);
    assert EventsPage(feed + rest, page) == events;
    if events != [] && ExaminedCommits(events).None? {
      assert k != page;
      PagesAfterEmptyPageIgnored(feed, rest, page + 1);
    }
  }

  /** A repository that is not exactly "owner/name" gives a null email. */
  lemma MalformedRepositoryGivesNull(connStr: IdentifiedConnectionString, users: string -> Option<User>, feeds: User -> Feed)
    requires connStr.repository.Some?
    requires Count(connStr.repository.value, '/') != 1
    ensures GitHubEmailOf(connStr, users, feeds) == Email(None)
  {
    SplitTwoPieces(connStr.repository.value, '/');
  }

  /**
    FindGitHubEmail: split the repository into owner and name, look the owner up and scan the
    owner's event pages 1, 2, ... until the first empty page.
   */
  method FindGitHubEmail(connStr: IdentifiedConnectionString, users: string -> Option<User>, feeds: User -> Feed)
    returns (r: EmailLookup)
    ensures r == GitHubEmailOf(connStr, users, feeds)
  {
    if connStr.repository.None? {
      return LookupThrew;
    }
    var repoParts := Split(connStr.repository.value, '/');
    if |repoParts| != 2 {
      return Email(None);
    }

    var githubLogin := repoParts[0];
    var user := users(githubLogin);
    if user.None? {
      return Email(None);
    }

    var feed := feeds(user.value);
    var page := 1;
    while true
      invariant page >= 1
      invariant ScanFrom(feed, page) == GitHubEmailOf(connStr, users, feeds)
      decreases |feed| + 1 - page
    {
      var events := EventsPage(feed, page);
      if events == [] {
        break;
      }

      var pushEvent := FirstIndex(events, IsPushEvent);
      if pushEvent < |events| {
        var pushPayload := events[pushEvent].payload;
        if pushPayload.PushPayload? && pushPayload.commits.Some? && |pushPayload.commits.value| > 0 {
          var commits := pushPayload.commits.value;
          var commit := FirstIndex(commits, HasAuthorEmail);
          if commit == |commits| {
            // FirstOrDefault gave null and `commit.Author` throws
            return LookupThrew;
          }
          return Email(commits[commit].author.value.email);
        }
      }

      page := page + 1;
    }

    return Email(Some(""));
  }

  // ---------------------------------------------------------------------------------------------
  // The worker

  /** An email sent by SendEmail: its recipient and the candidate it warns about. */
  datatype SentEmail = SentEmail(recipient: string, candidate: IdentifiedConnectionString)

  /** Every email went to a non-blank address about a candidate whose ledger row exists, one email per row. */
  ghost predicate LedgerCoversEmails(sent: seq<SentEmail>, ledger: map<LedgerKey, IdentifiedConnectionString>,
                                     hash: string -> seq<byte>)
  {
    && (forall i | 0 <= i < |sent| ::
          && !IsNullOrWhiteSpace(Some(sent[i].recipient))
          && KeyOf(sent[i].candidate, hash).Some?
          && KeyOf(sent[i].candidate, hash).value in ledger)
    && (forall i, j | 0 <= i < j < |sent| :: KeyOf(sent[i].candidate, hash) != KeyOf(sent[j].candidate, hash))
  }

  /** The ledger keys of the candidates emailed about. */
  ghost function SentKeys(sent: seq<SentEmail>, hash: string -> seq<byte>): set<LedgerKey>
  {
    if sent == [] then {}
    else
      var key := KeyOf(sent[|sent| - 1].candidate, hash);
      SentKeys(sent[..|sent| - 1], hash) + (if key.Some? then {key.value} else {})
  }

  lemma {:induction false} SentKeysMembers(sent: seq<SentEmail>, hash: string -> seq<byte>)
    ensures forall x | x in SentKeys(sent, hash) :: exists i | 0 <= i < |sent| :: KeyOf(sent[i].candidate, hash) == Some(x)
  {
    if sent != [] {
      var init := sent[..|sent| - 1];
      SentKeysMembers(init, hash);
      forall x | x in SentKeys(init, hash) ensures exists i | 0 <= i < |sent| :: KeyOf(sent[i].candidate, hash) == Some(x) {
        var i :| 0 <= i < |init| && KeyOf(init[i].candidate, hash) == Some(x);
        assert sent[i] == init[i];
      }
    }
  }

  lemma {:induction false} SentKeysCount(sent: seq<SentEmail>, hash: string -> seq<byte>)
    requires forall i | 0 <= i < |sent| :: KeyOf(sent[i].candidate, hash).Some?
    requires forall i, j | 0 <= i < j < |sent| :: KeyOf(sent[i].candidate, hash) != KeyOf(sent[j].candidate, hash)
    ensures |SentKeys(sent, hash)| == |sent|
  {
    if sent != [] {
      var init := sent[..|sent| - 1];
      var last := KeyOf(sent[|sent| - 1].candidate, hash);
      assert forall i | 0 <= i < |init| :: init[i] == sent[i];
      SentKeysCount(init, hash);
      SentKeysMembers(init, hash);
      assert last.value !in SentKeys(init, hash);
    }
  }

  /** No more emails than ledger rows: each email has its own row. */
  lemma EmailsBoundedByRows(sent: seq<SentEmail>, ledger: map<LedgerKey, IdentifiedConnectionString>,
                            hash: string -> seq<byte>)
    requires LedgerCoversEmails(sent, ledger, hash)
    ensures |sent| <= |ledger|
  {
    SentKeysCount(sent, hash);
    SentKeysMembers(sent, hash);
    assert SentKeys(sent, hash) <= ledger.Keys;
    CardinalityOfSubset(SentKeys(sent, hash), ledger.Keys);
  }

  lemma CardinalityOfSubset<T>(a: set<T>, b: set<T>)
    requires a <= b
    ensures |a| <= |b|
  {
    assert b == a + (b - a);
  }

  /**
    The ledger is the rows present at the start, the rows of the emails sent and the rows whose
    email failed; the three are pairwise disjoint.
   */
  ghost predicate RowsAccounted(sent: seq<SentEmail>, ledger: map<LedgerKey, IdentifiedConnectionString>,
                                initial: set<LedgerKey>, failed: set<LedgerKey>, hash: string -> seq<byte>)
  {
    && SentKeys(sent, hash) !! initial
    && failed !! initial
    && failed !! SentKeys(sent, hash)
    && ledger.Keys == initial + SentKeys(sent, hash) + failed
  }

  /** The notifier's ledger invariant: one row per email, and every row accounted for. */
  ghost predicate Accounted(sent: seq<SentEmail>, ledger: map<LedgerKey, IdentifiedConnectionString>,
                            initial: set<LedgerKey>, failed: set<LedgerKey>, hash: string -> seq<byte>)
  {
    LedgerCoversEmails(sent, ledger, hash) && RowsAccounted(sent, ledger, initial, failed, hash)
  }

  lemma SentKeysSnoc(sent: seq<SentEmail>, e: SentEmail, key: LedgerKey, hash: string -> seq<byte>)
    requires KeyOf(e.candidate, hash) == Some(key)
    ensures SentKeys(sent + [e], hash) == SentKeys(sent, hash) + {key}
  {
    assert (sent + [e])[..|sent|] == sent;
  }

  /**
    The rows inserted while running match the emails one to one, apart from failed sends, and no
    email is about a row that was there when the worker started.
   */
  lemma RowsMatchEmails(sent: seq<SentEmail>, ledger: map<LedgerKey, IdentifiedConnectionString>,
                        initial: set<LedgerKey>, failed: set<LedgerKey>, hash: string -> seq<byte>)
    requires Accounted(sent, ledger, initial, failed, hash)
    ensures |ledger| == |initial| + |sent| + |failed|
    ensures forall i | 0 <= i < |sent| :: KeyOf(sent[i].candidate, hash).value !in initial
  {
    SentKeysCount(sent, hash);
    var keys := SentKeys(sent, hash);
    assert |initial + keys| == |initial| + |keys|;
    assert |(initial + keys) + failed| == |initial + keys| + |failed|;
    forall i | 0 <= i < |sent| ensures KeyOf(sent[i].candidate, hash).value !in initial {
      SentKeyMember(sent, i, hash);
    }
  }

  lemma {:induction false} SentKeyMember(sent: seq<SentEmail>, i: nat, hash: string -> seq<byte>)
    requires i < |sent| && KeyOf(sent[i].candidate, hash).Some?
    ensures KeyOf(sent[i].candidate, hash).value in SentKeys(sent, hash)
  {
    if i < |sent| - 1 {
      SentKeyMember(sent[..|sent| - 1], i, hash);
    }
  }

  /** A row inserted for an email that was then sent keeps the accounting. */
  lemma SentRowKeepsAccounts(sent: seq<SentEmail>, ledger: map<LedgerKey, IdentifiedConnectionString>,
                             initial: set<LedgerKey>, failed: set<LedgerKey>, key: LedgerKey,
                             c: IdentifiedConnectionString, to: string, hash: string -> seq<byte>)
    requires Accounted(sent, ledger, initial, failed, hash)
    requires KeyOf(c, hash) == Some(key) && key !in ledger
    requires !IsNullOrWhiteSpace(Some(to))
    ensures Accounted(sent + [SentEmail(to, c)], ledger[key := c], initial, failed, hash)
  {
    NewRowKeepsCover(sent, ledger, key, c, to, hash);
    SentKeysSnoc(sent, SentEmail(to, c), key, hash);
  }

  /** A row inserted for an email whose send then threw keeps the accounting with that key failed. */
  lemma FailedSendKeepsAccounts(sent: seq<SentEmail>, ledger: map<LedgerKey, IdentifiedConnectionString>,
                                initial: set<LedgerKey>, failed: set<LedgerKey>, key: LedgerKey,
                                c: IdentifiedConnectionString, hash: string -> seq<byte>)
    requires Accounted(sent, ledger, initial, failed, hash)
    requires KeyOf(c, hash) == Some(key) && key !in ledger
    ensures Accounted(sent, ledger[key := c], initial, failed + {key}, hash)
  {
  }

  class NotifierWorker {
    const hash: string -> seq<byte>
    /** The "tested-connection-strings" queue, front first. */
    var messages: seq<IdentifiedConnectionString>
    /** The "notifiedaccounts" table: the candidate stored under each ledger key. */
    var notifiedAccounts: map<LedgerKey, IdentifiedConnectionString>
    /** The emails sent, oldest first. */
    var sentEmails: seq<SentEmail>
    /** The ledger keys present when this worker started: rows of earlier runs. */
    ghost var initialKeys: set<LedgerKey>
    /** The keys of rows this worker inserted whose email then failed to send. */
    ghost var failedKeys: set<LedgerKey>

    /**
      One row per email, and every row is either older than this worker, or belongs to exactly
      one email this worker sent, or to one whose send failed after the insert.
     */
    ghost predicate Valid()
      reads this
    {
      Accounted(sentEmails, notifiedAccounts, initialKeys, failedKeys, hash)
    }

    constructor (hash: string -> seq<byte>, messages: seq<IdentifiedConnectionString>,
                 notifiedAccounts: map<LedgerKey, IdentifiedConnectionString>)
      ensures this.hash == hash && this.messages == messages && this.notifiedAccounts == notifiedAccounts
      ensures sentEmails == [] && initialKeys == notifiedAccounts.Keys && failedKeys == {}
      ensures Valid()
    {
      this.hash := hash;
      this.messages := messages;
      this.notifiedAccounts := notifiedAccounts;
      sentEmails := [];
      initialKeys := notifiedAccounts.Keys;
      failedKeys := {};
    }

    /**
      RunIteration: take the front message; when its candidate has no ledger row and its owner's
      email is not blank, insert the row and then send the email; delete the message and return
      Zero. An exception leaves the message on the queue for a later attempt.
     */
    method RunIteration(users: string -> Option<User>, feeds: User -> Feed, sendSucceeds: bool) returns (outcome: Outcome)
      requires Valid()
      modifies this
      ensures Valid()
      ensures initialKeys == old(initialKeys)
      ensures outcome != Threw ==> failedKeys == old(failedKeys)
      ensures old(messages) == [] ==>
        && outcome == Returned(ShortDelay)
        && messages == old(messages) && notifiedAccounts == old(notifiedAccounts) && sentEmails == old(sentEmails)
      ensures old(messages) != [] && KeyOf(old(messages)[0], hash).None? ==>
        && outcome == Threw
        && messages == old(messages) && notifiedAccounts == old(notifiedAccounts) && sentEmails == old(sentEmails)
        && failedKeys == old(failedKeys)
      ensures old(messages) != [] && KeyOf(old(messages)[0], hash).Some? && KeyOf(old(messages)[0], hash).value in old(notifiedAccounts) ==>
        && outcome == Returned(Zero)
        && messages == old(messages)[1..] && notifiedAccounts == old(notifiedAccounts) && sentEmails == old(sentEmails)
      ensures old(messages) != [] && KeyOf(old(messages)[0], hash).Some? && KeyOf(old(messages)[0], hash).value !in old(notifiedAccounts) ==>
        var c := old(messages)[0];
        var email := GitHubEmailOf(c, users, feeds);
        && (email.LookupThrew? ==>
              outcome == Threw && messages == old(messages) && notifiedAccounts == old(notifiedAccounts) && sentEmails == old(sentEmails)
              && failedKeys == old(failedKeys))
        && (email.Email? && IsNullOrWhiteSpace(email.address) ==>
              outcome == Returned(Zero) && messages == old(messages)[1..]
              && notifiedAccounts == old(notifiedAccounts) && sentEmails == old(sentEmails))
        && (email.Email? && !IsNullOrWhiteSpace(email.address) ==>
              && notifiedAccounts == old(notifiedAccounts)[KeyOf(c, hash).value := c]
              && (sendSucceeds ==>
                    outcome == Returned(Zero) && messages == old(messages)[1..]
                    && sentEmails == old(sentEmails) + [SentEmail(email.address.value, c)])
              && (!sendSucceeds ==>
                    outcome == Threw && messages == old(messages) && sentEmails == old(sentEmails)
                    && failedKeys == old(failedKeys) + {KeyOf(c, hash).value}))
    {
      if |messages| == 0 {
        return Returned(ShortDelay);
      }

      var connStr := messages[0];
      var key := KeyOf(connStr, hash);
      if key.None? {
        // GetPartitionKey or GetRowKey dereferences a null field
        return Threw;
      }

      if key.value !in notifiedAccounts {
        var email := FindGitHubEmail(connStr, users, feeds);
        if email.LookupThrew? {
          return Threw;
        }

        if !IsNullOrWhiteSpace(email.address) {
          RecordAndEmail(connStr, key.value, email.address.value, sendSucceeds);
          if !sendSucceeds {
            return Threw;
          }
        }
      }

      messages := messages[1..];
      return Returned(Zero);
    }

    /**
      Inserts the ledger row of a candidate not yet in it and then emails its owner; when the send
      throws, the row stays and no email is recorded.
     */
    method RecordAndEmail(c: IdentifiedConnectionString, key: LedgerKey, to: string, sendSucceeds: bool)
      requires Valid()
      requires KeyOf(c, hash) == Some(key) && key !in notifiedAccounts
      requires !IsNullOrWhiteSpace(Some(to))
      modifies this
      ensures Valid()
      ensures messages == old(messages) && initialKeys == old(initialKeys)
      ensures notifiedAccounts == old(notifiedAccounts)[key := c]
      ensures sendSucceeds ==> sentEmails == old(sentEmails) + [SentEmail(to, c)] && failedKeys == old(failedKeys)
      ensures !sendSucceeds ==> sentEmails == old(sentEmails) && failedKeys == old(failedKeys) + {key}
    {
      if !sendSucceeds {
        FailedSendKeepsAccounts(sentEmails, notifiedAccounts, initialKeys, failedKeys, key, c, hash);
        notifiedAccounts, failedKeys := notifiedAccounts[key := c], failedKeys + {key};
      } else {
        SentRowKeepsAccounts(sentEmails, notifiedAccounts, initialKeys, failedKeys, key, c, to, hash);
        notifiedAccounts, sentEmails := notifiedAccounts[key := c], sentEmails + [SentEmail(to, c)];
      }
    }
  }

  /** Inserting a fresh row and emailing about its candidate keeps every email covered by its own row. */
  lemma NewRowKeepsCover(sent: seq<SentEmail>, ledger: map<LedgerKey, IdentifiedConnectionString>, key: LedgerKey,
                         c: IdentifiedConnectionString, to: string, hash: string -> seq<byte>)
    requires LedgerCoversEmails(sent, ledger, hash)
    requires KeyOf(c, hash) == Some(key) && key !in ledger
    requires !IsNullOrWhiteSpace(Some(to))
    ensures LedgerCoversEmails(sent + [SentEmail(to, c)], ledger[key := c], hash)
  {
    var s := sent + [SentEmail(to, c)];
    forall i, j | 0 <= i < j < |s| ensures KeyOf(s[i].candidate, hash) != KeyOf(s[j].candidate, hash) {
      if j == |sent| {
        assert KeyOf(s[i].candidate, hash).value in ledger;
      } else {
        assert s[i] == sent[i] && s[j] == sent[j];
      }
    }
  }
}
