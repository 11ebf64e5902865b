/**
 * The scheduled `GET /api/update` handler: check the bearer secret, build the
 * records of the scraped page, find those whose Redis key does not exist,
 * store them, and announce them on Slack in ascending rank order.
 */
module UpdateRoute {
  import opened Wrappers
  import opened Donations
  import opened RecordOrder
  import opened RedisStore
  import opened Slack

  datatype ResponseBody = PlainText(text: string) | Json(success: bool)

  datatype Response = Response(status: int, body: ResponseBody)

  const Unauthorized: Response := Response(401, PlainText("Unauthorized"))

  /** `Response.json({ success: true })`. */
  const Success: Response := Response(200, Json(true))

  /** `${process.env.CRON_SECRET}`: an unset variable is interpolated as "undefined". */
  function SecretText(secret: Option<string>): string {
    if secret.Some? then secret.value else "undefined"
  }

  /** `authHeader !== \`Bearer ${process.env.CRON_SECRET}\`` is false: an absent header never matches. */
  predicate Authorized(authHeader: Option<string>, secret: Option<string>) {
    authHeader == Some("Bearer " + SecretText(secret))
  }

  /** What one invocation returns, leaves in Redis and posts to Slack. */
  datatype Outcome = Outcome(response: Response, entries: Keyspace, sent: seq<Message>)

  /** The whole handler on values: `m` is the keyspace before the run. */
  function Run(authHeader: Option<string>, secret: Option<string>, scrape: seq<ScrapedItem>, m: Keyspace): Outcome {
    if !Authorized(authHeader, secret) then Outcome(Unauthorized, m, [])
    else
      var missing := Missing(m, Combined(scrape));
      Outcome(Success, WriteAll(m, missing), Messages(Reverse(missing)))
  }

  /** Sorts the new records in place by rank and builds one payload per
      record in that order. */
  method Announce(missing: seq<Record>) returns (sent: seq<Message>)
    requires StrictlyDecreasing(missing)
    ensures sent == Messages(Reverse(missing))
  {
    var records := new Record[|missing|](i requires 0 <= i < |missing| => missing[i]);
    assert records[..] == missing;
    SortByIndex(records);
    SortedPermutationIsReverse(records[..], missing);
    sent := [];
    for i := 0 to records.Length
      invariant sent == Messages(records[..i])
    {
      sent := sent + [Body(records[i])];
    }
    assert records[..records.Length] == records[..];
  }

  /** The handler. Fetching and parsing the page is the `scrape` input; each
      Slack POST is recorded in `sent` (a failed POST is swallowed, so every
      payload is attempted and nothing else depends on the outcome). */
  method Get(authHeader: Option<string>, secret: Option<string>, scrape: seq<ScrapedItem>, store: Store)
    returns (response: Response, sent: seq<Message>)
    modifies store
    ensures var o := Run(authHeader, secret, scrape, old(store.entries));
      response == o.response && store.entries == o.entries && sent == o.sent
  {
    if !Authorized(authHeader, secret) {
      return Unauthorized, [];
    }
    ghost var before := store.entries;
    var combined := BuildRecords(scrape);
    var missing := FindMissing(store, combined);
    Persist(store, missing);

    CombinedIndices(scrape);
    MissingDecreasing(before, combined);
    sent := Announce(missing);
    response := Success;
  }

  /** A request without the exact bearer secret is refused and changes
      nothing; any other request succeeds, however many records are new. */
  lemma AuthGate(authHeader: Option<string>, secret: Option<string>, scrape: seq<ScrapedItem>, m: Keyspace)
    ensures var o := Run(authHeader, secret, scrape, m);
      (o.response == Success <==> Authorized(authHeader, secret)) &&
      (!Authorized(authHeader, secret) ==> o.response == Unauthorized && o.entries == m && o.sent == [])
  {
  }

  /** With CRON_SECRET unset the literal header "Bearer undefined" is accepted. */
  lemma UnsetSecretAcceptsUndefined()
    ensures Authorized(Some("Bearer undefined"), None)
    ensures !Authorized(None, None)
  {
    assert "Bearer " + "undefined" == "Bearer undefined";
  }

  /** After an authorized run: every scraped rank has a key, the hashes that
      existed are as they were, only the new ranks gained a key, and each new
      rank holds its record's name and amount. */
  lemma RunStore(authHeader: Option<string>, secret: Option<string>, scrape: seq<ScrapedItem>, m: Keyspace)
    requires Authorized(authHeader, secret)
    ensures var c, o := Combined(scrape), Run(authHeader, secret, scrape, m);
      var missing := Missing(m, c);
      (forall r :: r in c ==> r.index in o.entries) &&
      (forall k :: k in m ==> k in o.entries && o.entries[k] == m[k]) &&
      (forall k :: k in o.entries <==> k in m || k in IndexSet(missing)) &&
      (forall r :: r in missing ==> o.entries[r.index] == Fields(r))
  {
    var c := Combined(scrape);
    var missing := Missing(m, c);
    CombinedIndices(scrape);
    MissingDecreasing(m, c);
    WriteAllFrame(m, missing);
    MissingMembers(m, c);
    WriteAllStoresFields(m, missing);
    forall r | r in c
      ensures r.index in WriteAll(m, missing)
    {
      if r.index !in m {
        assert r in missing;
      }
    }
  }

  /** An authorized run posts one payload per new record, lowest rank first:
      the new records sorted by rank, a rearrangement of them with no rank twice. */
  lemma RunNotifications(authHeader: Option<string>, secret: Option<string>, scrape: seq<ScrapedItem>, m: Keyspace)
    requires Authorized(authHeader, secret)
    ensures var o := Run(authHeader, secret, scrape, m);
      var missing := Missing(m, Combined(scrape));
      var order := Reverse(missing);
      |o.sent| == |missing| &&
      multiset(order) == multiset(missing) &&
      (forall i, j :: 0 <= i < j < |order| ==> order[i].index < order[j].index) &&
      (forall i :: 0 <= i < |o.sent| ==> o.sent[i] == Body(order[i]))
  {
    var missing := Missing(m, Combined(scrape));
    CombinedIndices(scrape);
    MissingDecreasing(m, Combined(scrape));
    ReverseOfDecreasingIsSorted(missing);
    ReversePermutes(missing);
  }

  /** A second run on the same page finds nothing new: no writes, no posts,
      and the same response. */
  lemma RunIdempotent(authHeader: Option<string>, secret: Option<string>, scrape: seq<ScrapedItem>, m: Keyspace)
    ensures var first := Run(authHeader, secret, scrape, m);
      var second := Run(authHeader, secret, scrape, first.entries);
      second == Outcome(first.response, first.entries, [])
  {
    var first := Run(authHeader, secret, scrape, m);
    if Authorized(authHeader, secret) {
      RunStore(authHeader, secret, scrape, m);
      MissingNoneNew(first.entries, Combined(scrape));
    }
  }

  /** A page whose every rank is already stored changes nothing and posts nothing. */
  lemma RunNothingNew(authHeader: Option<string>, secret: Option<string>, scrape: seq<ScrapedItem>, m: Keyspace)
    requires forall k :: 1 <= k <= |scrape| ==> k in m
    ensures var o := Run(authHeader, secret, scrape, m);
      o.entries == m && o.sent == [] &&
      (o.response == Success <==> Authorized(authHeader, secret))
  {
    CombinedIndices(scrape);
    var c := Combined(scrape);
    forall r | r in c
      ensures r.index in m
    {
      assert r.index in IndexSet(c);
    }
    MissingNoneNew(m, c);
  }
}
