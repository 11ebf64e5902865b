# giving-dayerator update route, modelled in Dafny

The repository is one scheduled Next.js handler, `GET /api/update`. It checks a
bearer secret, scrapes the campaign page of a Giving Day fundraiser, and turns each
`.fb-message` element into a record `{index, name, amount}`. It then asks Redis
whether the key `record:<index>` exists, writes the new records as hashes with two
`hSet` calls, sorts them by ascending index and posts one Slack Block Kit message
per new record.

The model follows the handler step by step:

- `js_text.dfy` (module `JsText`): the JavaScript string operations it uses.
  These are `trim` over the full ECMAScript whitespace and line-terminator set,
  `substring(start)` with start clamped to the length, and `String(n)` on integers.
  Strings are sequences of Unicode code points, not UTF-16 code units (see
  "Left out").
- `donations.dfy` (module `Donations`): the scraped items, the records, the name and
  amount cleaning, and the loop that builds `combined`.
- `record_order.dfy` (module `RecordOrder`): the in-place ascending sort by index,
  and the proof that its result is the new records in reverse document order.
- `redis_store.dfy` (module `RedisStore`): the Redis keyspace as a map from index
  to hash, a `Store` class for the connection, the existence-check loop and the
  write loop.
- `slack.dfy` (module `Slack`): the message payload and a reader that recovers the
  record from it.
- `update_route.dfy` (module `UpdateRoute`): the auth gate, the handler `Get` as a
  method over a `Store`, and `Run`, the same handler written as a function. The
  lemmas about a whole invocation are stated over `Run`.
- `scenarios.dfy` (module `Scenarios`): concrete cleanings and two consecutive runs.

Each record is keyed by its position, `record:<index>`, and is new exactly when
that key does not exist; records are not matched by a name/amount fingerprint.

Inputs that stand for I/O:

- The fetched and parsed page is the parameter `scrape`. It has one `ScrapedItem`
  per `.fb-message` element, holding the optional `.text` of its name and amount
  children.
- `CRON_SECRET` is an `Option<string>`. When it is unset, the template literal reads
  it as `"undefined"`.
- Redis is the `Store` object.
- The Slack posts are the returned `sent` sequence.

## Model

| member | source | states |
|---|---|---|
| `JsText.Trim` | app/api/update/route.ts:34-35 | the trimmed text is no longer than the text and neither starts nor ends with whitespace |
| `JsText.TrimIsSlice` | app/api/update/route.ts:34-35 | `trim` keeps a contiguous slice of the text, and everything it cuts from either end is whitespace |
| `JsText.TrimEmptyIff` | app/api/update/route.ts:34 | trimmed text is empty exactly when the text is all whitespace |
| `JsText.TrimIdempotent` | app/api/update/route.ts:34-35 | trimming trimmed text changes nothing |
| `JsText.Substring` | app/api/update/route.ts:35 | `substring(2)` drops the first two characters: the result has length max(0, len - 2) and is a suffix of the text |
| `JsText.IntToString` | app/api/update/route.ts:90 | `String(i)`: a minus sign exactly when `i` is negative, then the decimal numeral of its magnitude |
| `JsText.NatToString` | app/api/update/route.ts:90 | the decimal form of `String(index)` is non-empty and all digits, with no leading zero unless the value is 0 |
| `JsText.IntToStringRoundTrip` | app/api/update/route.ts:90 | `String(i)` is read back as `i`, so different counts give different texts |
| `Donations.CleanName` | app/api/update/route.ts:31-34 | `name ? name.trim() : "Secret"`: the trimmed name, or the placeholder when the name is absent or empty; never longer than the name |
| `Donations.CleanAmount` | app/api/update/route.ts:32-35 | `amount ? amount.trim().substring(2) : "Secret"`: the trimmed amount without its first two characters, or the placeholder; never longer than the amount |
| `Donations.CleanNameSpec` | app/api/update/route.ts:31-34 | an absent or empty name gives `"Secret"`; a non-empty whitespace-only name gives `""`; any other name gives its trimmed, non-empty slice |
| `Donations.CleanAmountSpec` | app/api/update/route.ts:32-35 | an absent or empty amount gives `"Secret"`; otherwise the trimmed text loses its first two characters, so trimmed text of length 2 or less gives `""` |
| `Donations.Combined` | app/api/update/route.ts:29-42 | the `combined` array: one record per scraped item, in page order, with rank `n - i` and the cleaned name and amount |
| `Donations.CombinedIndices` | app/api/update/route.ts:29-42 | a page of n items gives n records whose indices are exactly 1..n, strictly decreasing in document order |
| `Donations.BuildRecords` | app/api/update/route.ts:29-42 | the loop pushes, for the item at position i, the record with index n - i and the cleaned name and amount |
| `RecordOrder.SortByIndex` | app/api/update/route.ts:73 | the in-place sort leaves the array ascending by index and a permutation of its old contents |
| `RecordOrder.SortedPermutationIsReverse` | app/api/update/route.ts:73 | for records listed with strictly decreasing indices, the only ascending rearrangement is the reversed list |
| `RecordOrder.ReverseOfDecreasingIsSorted` | app/api/update/route.ts:73 | reversing a strictly decreasing list gives strictly increasing indices |
| `RecordOrder.ReversePermutes` | app/api/update/route.ts:73 | reversal keeps the same multiset of records |
| `RedisStore.SetField` | app/api/update/route.ts:68-69 | `hSet` creates the hash if needed, sets one field, keeps the hash's other fields and leaves every other key alone |
| `RedisStore.Store.Exists` | app/api/update/route.ts:57 | `exists` is true exactly when the key is present |
| `RedisStore.Store.HSet` | app/api/update/route.ts:68-69 | one `hSet` call changes the keyspace as `SetField` says |
| `RedisStore.Missing` | app/api/update/route.ts:54-62 | `missingRecords`: the scraped records, in order, whose key does not exist, no more of them than were scraped |
| `RedisStore.MissingMembers` | app/api/update/route.ts:54-62 | a record is kept exactly when it is among the scraped records and its key is absent |
| `RedisStore.MissingNoneNew` | app/api/update/route.ts:54-62 | when every scraped key already exists, the list of new records is empty |
| `RedisStore.MissingInDocumentOrder` | app/api/update/route.ts:54-62 | the kept records appear at strictly increasing positions of the scrape, and those are exactly the positions whose key is absent |
| `RedisStore.MissingDecreasing` | app/api/update/route.ts:54-62 | the new records keep strictly decreasing indices |
| `RedisStore.FindMissing` | app/api/update/route.ts:54-62 | the existence-check loop computes `Missing` of the keyspace as read, before anything is written |
| `RedisStore.WriteRecord` | app/api/update/route.ts:68-69 | the two `hSet` calls for one record: its key then exists and holds its name and amount, the set of keys grows by that key only, and every other hash is unchanged |
| `RedisStore.WriteAll` | app/api/update/route.ts:67-70 | the write loop: WriteRecord for each new record in document order |
| `RedisStore.WriteAllFrame` | app/api/update/route.ts:67-70 | after the writes, the keys are the old keys plus the written indices, and no other hash changes |
| `RedisStore.WriteAllStoresFields` | app/api/update/route.ts:67-70 | each new record, written under an absent key, is stored as exactly `{name, amount}` |
| `RedisStore.Persist` | app/api/update/route.ts:67-70 | the write loop makes two `hSet` calls per new record, in order |
| `Slack.Body` | app/api/update/route.ts:77-107 | the Block Kit payload for one record: the header, the count section and the name and amount fields |
| `Slack.BodyRoundTrip` | app/api/update/route.ts:77-107 | the payload has the header `"Somebody donated!"`, the count text `"That makes <index>!"` and the `*Name*` and `*Donation*` fields; the record's index, name and amount are recovered from it |
| `Slack.BodyInjective` | app/api/update/route.ts:77-107 | different records give different payloads |
| `Slack.Messages` | app/api/update/route.ts:76-113 | the route posts one payload per record |
| `UpdateRoute.Announce` | app/api/update/route.ts:73-113 | after the in-place sort, the posted payloads are those of the new records in reverse document order |
| `UpdateRoute.Get` | app/api/update/route.ts:11-119 | the handler's response, its final keyspace and its posts are those of `Run` on the keyspace before the call |
| `UpdateRoute.SecretText` | app/api/update/route.ts:13 | the interpolated `CRON_SECRET`: its value, or `"undefined"` when unset |
| `UpdateRoute.Authorized` | app/api/update/route.ts:12-13 | the gate: the header is present and equals `"Bearer "` followed by the interpolated secret |
| `UpdateRoute.Run` | app/api/update/route.ts:11-118 | one whole invocation on values: the response, the keyspace left behind and the payloads posted |
| `UpdateRoute.AuthGate` | app/api/update/route.ts:12-17 | the response is success exactly when the header equals `"Bearer " + secret`; otherwise it is 401 `"Unauthorized"` with no write and no post |
| `UpdateRoute.UnsetSecretAcceptsUndefined` | app/api/update/route.ts:13 | with `CRON_SECRET` unset, the header `"Bearer undefined"` is accepted and a missing header is refused |
| `UpdateRoute.RunStore` | app/api/update/route.ts:54-70 | after an authorized run every scraped index is a key, existing hashes are unchanged, only new indices gain keys, and each new key holds its record's name and amount |
| `UpdateRoute.RunNotifications` | app/api/update/route.ts:64-113 | an authorized run posts as many payloads as there are new records, in strictly ascending index order, and the posted records are a permutation of the new ones |
| `UpdateRoute.RunIdempotent` | app/api/update/route.ts:56-70 | a second run on the same page and the resulting keyspace finds nothing new, writes nothing, posts nothing and returns the same response |
| `UpdateRoute.RunNothingNew` | app/api/update/route.ts:56-118 | when every index 1..n is already a key, nothing is written or posted and an authorized run still returns success |
| `Scenarios.CleanAmountPadded` | app/api/update/route.ts:35 | `" $ 50\n"` is cleaned to `"50"` |
| `Scenarios.CleanAmountUnseparated` | app/api/update/route.ts:35 | `"$50"` is cleaned to `"0"`: two characters are always dropped |
| `Scenarios.CleanAmountShort` | app/api/update/route.ts:35 | `"$5"` is cleaned to `""` |
| `Scenarios.CleanNamePadded` | app/api/update/route.ts:34 | `" Alice "` is cleaned to `"Alice"` |
| `Scenarios.CleanNameBlank` | app/api/update/route.ts:34 | `" "` is cleaned to `""`, not to `"Secret"` |
| `Scenarios.FirstRunOnEmptyStore` | app/api/update/route.ts:29-113 | from an empty keyspace a two-item page writes keys 1 and 2 and posts the lower item (index 1) first |
| `Scenarios.SecondRunFindsOneNew` | app/api/update/route.ts:29-113 | when one item is added on top, only index 3 is written and posted |
| `Scenarios.WrongSecretRejected` | app/api/update/route.ts:12-17 | a wrong bearer secret gives 401, with the keyspace unchanged and nothing posted |

## Left out

- The HTTP fetch of the campaign page and the `node-html-parser` selection (lines 20-27, 31-32): network I/O and a foreign library. Their result is the `scrape` input. So the model cannot show that an unauthorized request fetches nothing. It shows only that such a request leaves the keyspace alone and posts nothing.
- The Redis client lifecycle (`createClient`, the error logger, `connect`, `disconnect` in `finally`; lines 45-51, 114-116): resource handling. Failures are not modelled. A failed `connect` or `exists` (lines 51, 57) rejects the invocation before anything is written. Only a failing `hSet` (lines 68-69) can leave a partial write behind. A failed page fetch (lines 20-23) rejects the whole handler before Redis is touched.
- The Slack POST itself, `JSON.stringify`, and the swallowed `.catch` (lines 109-112): outbound I/O. Every payload counts as attempted. A failed delivery affects neither the keyspace nor later posts, and the model needs nothing more to show it.
- `console.log` and the environment lookups of `REDIS_URL` and `SLACK_WEBHOOK` (lines 46, 49, 64, 109): logging and configuration.
- Concurrent overlapping invocations: the code does not guard against them, and the model is one sequential run.
- Redis keys are written as the integer index rather than the string `record:<index>`. The mapping between them is one-to-one.
- `RecordOrder.SortByIndex`: it states sorted and permutation but not stability. The JavaScript sort is stable, but within one run the indices are distinct, so stability changes nothing.
- `Donations.Combined`: `items.indexOf(item)` is modelled as the loop position. The parsed elements are distinct nodes, so `indexOf` finds each item's own position.
- `JsText.Substring`: strings are modelled as sequences of code points, while JavaScript's `substring(2)` counts UTF-16 code units. The two differ whenever either of the first two characters of the trimmed amount lies outside the Basic Multilingual Plane (one code point, two code units). When the first one does, `"\u{1F389}50"` cleans to `"50"` in JavaScript and to `"0"` here. When only the second one does, JavaScript's result starts with a lone low surrogate, which a Dafny `string` cannot hold; `"$\u{1F389}50"` cleans to `"50"` here. `trim` is unaffected, because every whitespace and line-terminator code point lies in the Basic Multilingual Plane.
