/**
  The scrape-and-validate worker. Each iteration either scrapes the next page of code-search
  results for new candidates (when nothing is pending) or tests the oldest pending candidate
  against the storage service and, when it works, publishes it to the message queue.

  The outside world is given to each operation as oracles:
  - `fetch(searchTerm, pageNumber)` is the downloaded result page, or None when the request throws;
  - `htmlDecode` is HttpUtility.HtmlDecode;
  - `parse(s)` is CloudStorageAccount.TryParse, with the credentials' account name on success;
  - `listContainers(account)` tells whether ListContainersSegmentedAsync completes;
  - `queueAccepts` tells whether AddMessageAsync completes.
  The message queue is the sequence of candidates added to it, in order.
 */
module CodeSearchWorkers {
  import opened Wrappers
  import opened Strings
  import opened Linq
  import opened Workers
  import opened SharedLibs
  import GitHubPage

  const MaxPageNumber: int := 100

  /** The account name of CloudStorageAccount.DevelopmentStorageAccount. */
  const DevelopmentAccountName: string := "devstoreaccount1"

  /** A parsed storage account, reduced to its credentials' account name. */
  datatype StorageAccount = StorageAccount(accountName: string)

  /** The page a scrape requests: CheckPageNumber resets 100 or more to 0, then the number is incremented. */
  function NextPage(p: int): (r: int)
    ensures 0 <= p ==> 1 <= r <= MaxPageNumber
    ensures p >= MaxPageNumber ==> r == 1
    ensures 0 <= p < MaxPageNumber ==> r == p + 1
  {
    (if p >= MaxPageNumber then 0 else p) + 1
  }

  /** The page number after `k` scrapes of a fresh worker. */
  ghost function PageAfterScrapes(k: nat): int
  {
    if k == 0 then 0 else NextPage(PageAfterScrapes(k - 1))
  }

  /** Scrapes request pages 1, 2, ..., 100, 1, 2, ... in turn. */
  lemma {:induction false} PagesCycle(k: nat)
    requires k >= 1
    ensures PageAfterScrapes(k) == (k - 1) % MaxPageNumber + 1
  {
    if k > 1 {
      PagesCycle(k - 1);
    }
  }

  /** TryParse of the candidate's connection string; a null string does not parse. */
  function ParseAccount(parse: string -> Option<StorageAccount>, connectionString: Option<string>): Option<StorageAccount>
  {
    if connectionString.None? then None else parse(connectionString.value)
  }

  /** A tested candidate reaches the message queue: it parses, is not the development account, and both calls complete. */
  predicate Publishes(parse: string -> Option<StorageAccount>, listContainers: StorageAccount -> bool, queueAccepts: bool,
                      x: IdentifiedConnectionString)
  {
    match ParseAccount(parse, x.connectionString)
    case None => false
    case Some(account) =>
      !EqualsIgnoreCase(DevelopmentAccountName, account.accountName) && listContainers(account) && queueAccepts
  }

  /** The development storage account, in any letter case, is never published. */
  lemma DevelopmentAccountNeverPublished(parse: string -> Option<StorageAccount>, listContainers: StorageAccount -> bool,
                                         queueAccepts: bool, x: IdentifiedConnectionString, account: StorageAccount)
    requires ParseAccount(parse, x.connectionString) == Some(account)
    requires EqualsIgnoreCase(account.accountName, DevelopmentAccountName)
    ensures !Publishes(parse, listContainers, queueAccepts, x)
  {
    assert EqualsIgnoreCase(DevelopmentAccountName, account.accountName) by {
      forall i | 0 <= i < |DevelopmentAccountName|
        ensures CharEquals(DevelopmentAccountName[i], account.accountName[i], true)
      {
        assert CharEquals(account.accountName[i], DevelopmentAccountName[i], true);
      }
    }
  }

  class CodeSearchWorker {
    const searchTerm: string
    var pageNumber: int
    /** The pending FIFO queue, front first. */
    var queuedConnectionStrings: seq<IdentifiedConnectionString>
    /** Every candidate seen since the process started. */
    var identifiedConnectionStrings: set<IdentifiedConnectionString>
    /** The messages added to the "tested-connection-strings" queue, oldest first. */
    var messageQueue: seq<IdentifiedConnectionString>

    /**
      The page number stays in 0..100; every pending or published candidate has been seen, is
      complete, and sits only once in the pending queue or in the message queue, never in both.
     */
    ghost predicate Valid()
      reads this
    {
      && 0 <= pageNumber <= MaxPageNumber
      && NoDuplicates(queuedConnectionStrings)
      && NoDuplicates(messageQueue)
      && (forall x | x in identifiedConnectionStrings :: x.HasAllFields())
      && (forall x | x in queuedConnectionStrings :: x in identifiedConnectionStrings)
      && (forall x | x in messageQueue :: x in identifiedConnectionStrings && x !in queuedConnectionStrings)
    }

    constructor (searchTerm: string)
      ensures this.searchTerm == searchTerm
      ensures pageNumber == 0 && queuedConnectionStrings == [] && identifiedConnectionStrings == {} && messageQueue == []
      ensures Valid()
    {
      this.searchTerm := searchTerm;
      pageNumber := 0;
      identifiedConnectionStrings := {};
      queuedConnectionStrings := [];
      messageQueue := [];
    }

    /** CheckPageNumber: start over after the last page. */
    method CheckPageNumber()
      modifies this
      ensures pageNumber == if old(pageNumber) >= MaxPageNumber then 0 else old(pageNumber)
      ensures queuedConnectionStrings == old(queuedConnectionStrings)
      ensures identifiedConnectionStrings == old(identifiedConnectionStrings)
      ensures messageQueue == old(messageQueue)
    {
      if pageNumber >= MaxPageNumber {
        pageNumber := 0;
      }
    }

    /** RunIteration: scrape when nothing is pending, otherwise test the oldest pending candidate. */
    method RunIteration(fetch: (string, int) -> Option<GitHubPage.Page>, htmlDecode: string -> string,
                        parse: string -> Option<StorageAccount>, listContainers: StorageAccount -> bool, queueAccepts: bool)
      returns (outcome: Outcome)
      requires Valid()
      modifies this
      ensures Valid()
      ensures old(identifiedConnectionStrings) <= identifiedConnectionStrings
      ensures old(queuedConnectionStrings) == [] ==>
        && pageNumber == NextPage(old(pageNumber))
        && messageQueue == old(messageQueue)
        && identifiedConnectionStrings == old(identifiedConnectionStrings) + Elements(queuedConnectionStrings)
      ensures old(queuedConnectionStrings) == [] && fetch(searchTerm, pageNumber).None? ==>
        outcome == Threw && queuedConnectionStrings == []
      ensures old(queuedConnectionStrings) == [] && fetch(searchTerm, pageNumber).Some? ==>
        && NoDuplicates(queuedConnectionStrings)
        && (forall x :: x in queuedConnectionStrings <==>
              GitHubPage.Identified(fetch(searchTerm, pageNumber).value, htmlDecode, x) && x !in old(identifiedConnectionStrings))
        && outcome == (if queuedConnectionStrings == [] then Returned(LongDelay)
                       else if pageNumber >= MaxPageNumber then Returned(LongDelay)
                       else Returned(ShortDelay))
      ensures old(queuedConnectionStrings) != [] ==>
        && outcome == Returned(Zero)
        && pageNumber == old(pageNumber)
        && queuedConnectionStrings == old(queuedConnectionStrings)[1..]
        && identifiedConnectionStrings == old(identifiedConnectionStrings)
        && messageQueue == old(messageQueue)
             + (if Publishes(parse, listContainers, queueAccepts, old(queuedConnectionStrings)[0])
                then [old(queuedConnectionStrings)[0]] else [])
    {
      if |queuedConnectionStrings| == 0 {
        ghost var added;
        outcome, added := ScrapConnectionStrings(fetch, htmlDecode);
        assert queuedConnectionStrings == added;
        return;
      }
      outcome := TestConnectionString(parse, listContainers, queueAccepts);
    }

    /**
      TestConnectionString: take the oldest pending candidate off the queue and publish it when it
      parses, is not the development account and the container listing and the enqueue complete.
      An empty queue yields ShortDelay and changes nothing.
     */
    method TestConnectionString(parse: string -> Option<StorageAccount>, listContainers: StorageAccount -> bool, queueAccepts: bool)
      returns (outcome: Outcome)
      requires Valid()
      modifies this
      ensures Valid()
      ensures pageNumber == old(pageNumber)
      ensures identifiedConnectionStrings == old(identifiedConnectionStrings)
      ensures old(queuedConnectionStrings) == [] ==>
        && outcome == Returned(ShortDelay)
        && queuedConnectionStrings == [] && messageQueue == old(messageQueue)
      ensures old(queuedConnectionStrings) != [] ==>
        && outcome == Returned(Zero)
        && queuedConnectionStrings == old(queuedConnectionStrings)[1..]
        && messageQueue == old(messageQueue)
             + (if Publishes(parse, listContainers, queueAccepts, old(queuedConnectionStrings)[0])
                then [old(queuedConnectionStrings)[0]] else [])
    {
      if |queuedConnectionStrings| == 0 {
        return Returned(ShortDelay);
      }

      var connStr := queuedConnectionStrings[0];
      queuedConnectionStrings := queuedConnectionStrings[1..];
      assert forall x | x in queuedConnectionStrings :: x in old(queuedConnectionStrings);
      DequeuedIsFresh(old(queuedConnectionStrings), messageQueue);

      var cloudAccount := ParseAccount(parse, connStr.connectionString);
      if cloudAccount.None? {
        return Returned(Zero);
      }

      if EqualsIgnoreCase(DevelopmentAccountName, cloudAccount.value.accountName) {
        return Returned(Zero);
      }

      // the listing and the enqueue throw on failure; the exception is swallowed
      if listContainers(cloudAccount.value) && queueAccepts {
        messageQueue := messageQueue + [connStr];
      }
      return Returned(Zero);
    }

    /**
      ScrapConnectionStrings: advance the page number, fetch that page and queue the distinct
      candidates it yields that were never seen before. `added` is what was queued.
     */
    method ScrapConnectionStrings(fetch: (string, int) -> Option<GitHubPage.Page>, htmlDecode: string -> string)
      returns (outcome: Outcome, ghost added: seq<IdentifiedConnectionString>)
      requires Valid()
      modifies this
      ensures Valid()
      ensures pageNumber == NextPage(old(pageNumber))
      ensures messageQueue == old(messageQueue)
      ensures queuedConnectionStrings == old(queuedConnectionStrings) + added
      ensures identifiedConnectionStrings == old(identifiedConnectionStrings) + Elements(added)
      ensures fetch(searchTerm, pageNumber).None? ==> outcome == Threw && added == []
      ensures fetch(searchTerm, pageNumber).Some? ==>
        && NoDuplicates(added)
        && (forall x :: x in added <==>
              GitHubPage.Identified(fetch(searchTerm, pageNumber).value, htmlDecode, x) && x !in old(identifiedConnectionStrings))
        && outcome == (if added == [] then Returned(LongDelay)
                       else if pageNumber >= MaxPageNumber then Returned(LongDelay)
                       else Returned(ShortDelay))
    {
      CheckPageNumber();
      pageNumber := pageNumber + 1;

      var response := fetch(searchTerm, pageNumber);
      if response.None? {
        added := [];
        assert Elements(added) == {};
        return Threw, added;
      }

      var identified := GitHubPage.IdentifyConnectionStrings(response.value, htmlDecode);
      var newConnectionStrings := Except(Distinct(identified), identifiedConnectionStrings);
      NewCandidates(identified, identifiedConnectionStrings, response.value, htmlDecode);
      added := newConnectionStrings;

      if |newConnectionStrings| == 0 {
        assert Elements(added) == {};
        return Returned(LongDelay), added;
      }

      ghost var queuedBefore := queuedConnectionStrings;
      ghost var seenBefore := identifiedConnectionStrings;
      Enqueue(newConnectionStrings);
      EnqueueKeepsValid(queuedBefore, seenBefore, messageQueue, newConnectionStrings, response.value, htmlDecode);

      return (if pageNumber >= MaxPageNumber then Returned(LongDelay) else Returned(ShortDelay)), added;
    }

    /** The foreach of ScrapConnectionStrings: remember each new candidate and queue it, in order. */
    method Enqueue(newConnectionStrings: seq<IdentifiedConnectionString>)
      modifies this
      ensures identifiedConnectionStrings == old(identifiedConnectionStrings) + Elements(newConnectionStrings)
      ensures queuedConnectionStrings == old(queuedConnectionStrings) + newConnectionStrings
      ensures pageNumber == old(pageNumber) && messageQueue == old(messageQueue)
    {
      for k := 0 to |newConnectionStrings|
        invariant identifiedConnectionStrings == old(identifiedConnectionStrings) + Elements(newConnectionStrings[..k])
        invariant queuedConnectionStrings == old(queuedConnectionStrings) + newConnectionStrings[..k]
        invariant pageNumber == old(pageNumber) && messageQueue == old(messageQueue)
      {
        assert newConnectionStrings[..k + 1] == newConnectionStrings[..k] + [newConnectionStrings[k]];
        ElementsSnoc(newConnectionStrings[..k], newConnectionStrings[k]);
        identifiedConnectionStrings := identifiedConnectionStrings + {newConnectionStrings[k]};
        queuedConnectionStrings := queuedConnectionStrings + [newConnectionStrings[k]];
      }
      assert newConnectionStrings[..|newConnectionStrings|] == newConnectionStrings;
    }
  }

  /** The front of a duplicate-free pending queue is neither behind itself nor already published. */
  lemma DequeuedIsFresh(queued: seq<IdentifiedConnectionString>, published: seq<IdentifiedConnectionString>)
    requires queued != [] && NoDuplicates(queued)
    requires forall x | x in published :: x !in queued
    ensures queued[0] !in queued[1..]
    ensures NoDuplicates(published) ==> NoDuplicates(published + [queued[0]])
  {
    if NoDuplicates(published) {
      NoDuplicatesAppend(published, [queued[0]]);
    }
  }

  /** Queueing candidates that were never seen keeps the worker's invariant. */
  lemma EnqueueKeepsValid(queued: seq<IdentifiedConnectionString>, seen: set<IdentifiedConnectionString>,
                          published: seq<IdentifiedConnectionString>, added: seq<IdentifiedConnectionString>,
                          page: GitHubPage.Page, htmlDecode: string -> string)
    requires NoDuplicates(queued) && NoDuplicates(added)
    requires forall x | x in seen :: x.HasAllFields()
    requires forall x | x in queued :: x in seen
    requires forall x | x in published :: x in seen && x !in queued
    requires forall x :: x in added <==> GitHubPage.Identified(page, htmlDecode, x) && x !in seen
    ensures NoDuplicates(queued + added)
    ensures forall x | x in seen + Elements(added) :: x.HasAllFields()
    ensures forall x | x in queued + added :: x in seen + Elements(added)
    ensures forall x | x in published :: x in seen + Elements(added) && x !in queued + added
  {
    NoDuplicatesAppend(queued, added);
  }

  /** The distinct candidates of a page that were not seen before are exactly the identified ones outside the seen set. */
  lemma NewCandidates(found: seq<IdentifiedConnectionString>, seen: set<IdentifiedConnectionString>,
                      page: GitHubPage.Page, htmlDecode: string -> string)
    requires forall x :: x in found <==> GitHubPage.Identified(page, htmlDecode, x)
    ensures forall x :: x in Except(Distinct(found), seen) <==> GitHubPage.Identified(page, htmlDecode, x) && x !in seen
  {
  }
}
