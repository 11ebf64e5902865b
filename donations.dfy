/**
 * Building the donation records of one scrape: every `.fb-message` element of
 * the campaign page becomes a record holding its rank, the donor's name and
 * the donated amount.
 */
module Donations {
  import opened Wrappers
  import opened JsText

  /** What the page yields for one `.fb-message` element: the `.text` of its
      `.fb-user-name` and `.donation-amount` children, when they exist. */
  datatype ScrapedItem = ScrapedItem(nameText: Option<string>, amountText: Option<string>)

  /** The route's `combinedAmount` record. */
  datatype Record = Record(index: int, name: string, amount: string)

  /** The placeholder for a missing or empty name or amount. */
  const Placeholder: string := "Secret"

  /** `name ? name.trim() : "Secret"`: `undefined` and `""` are falsy. */
  function CleanName(name: Option<string>): (r: string)
    ensures name.Some? && name.value != "" ==> |r| <= |name.value|
  {
    if name.Some? && name.value != "" then Trim(name.value) else Placeholder
  }

  /** `amount ? amount.trim().substring(2) : "Secret"`. */
  function CleanAmount(amount: Option<string>): (r: string)
    ensures amount.Some? && amount.value != "" ==> |r| <= |amount.value|
  {
    if amount.Some? && amount.value != "" then Substring(Trim(amount.value), 2) else Placeholder
  }

  lemma CleanNameSpec(name: Option<string>)
    ensures name.None? || name == Some("") ==> CleanName(name) == Placeholder
    ensures name.Some? && name.value != "" && AllWhitespace(name.value) ==> CleanName(name) == ""
    ensures name.Some? && !AllWhitespace(name.value) ==>
      var r := CleanName(name);
      r != [] && !IsWhitespace(r[0]) && !IsWhitespace(r[|r| - 1]) &&
      exists i {:trigger name.value[i..i + |r|]} ::
        0 <= i <= i + |r| <= |name.value| && r == name.value[i..i + |r|] &&
        (forall k :: 0 <= k < i ==> IsWhitespace(name.value[k])) &&
        (forall k :: i + |r| <= k < |name.value| ==> IsWhitespace(name.value[k]))
  {
    if name.Some? && !AllWhitespace(name.value) {
      TrimEmptyIff(name.value);
      TrimIsSlice(name.value);
      var i := TrimOffset(name.value);
      assert CleanName(name) == name.value[i..i + |CleanName(name)|];
    } else if name.Some? {
      TrimEmptyIff(name.value);
    }
  }

  lemma CleanAmountSpec(amount: Option<string>)
    ensures amount.None? || amount == Some("") ==> CleanAmount(amount) == Placeholder
    ensures amount.Some? && amount.value != "" ==>
      var t := Trim(amount.value);
      var r := CleanAmount(amount);
      (|t| <= 2 ==> r == "") &&
      (|t| > 2 ==> |r| == |t| - 2 && t == t[..2] + r)
    ensures amount.Some? && amount.value != "" && AllWhitespace(amount.value) ==> CleanAmount(amount) == ""
  {
    if amount.Some? {
      TrimEmptyIff(amount.value);
    }
  }

  /** The records of a scrape, in document order: the item at position `i` of
      `n` is ranked `n - i` (`items.length - items.indexOf(item)`; the elements
      are distinct nodes, so `indexOf` finds the item's own position). */
  function Combined(scrape: seq<ScrapedItem>): (c: seq<Record>)
    ensures |c| == |scrape|
  {
    seq(|scrape|, i requires 0 <= i < |scrape| =>
      Record(|scrape| - i, CleanName(scrape[i].nameText), CleanAmount(scrape[i].amountText)))
  }

  predicate StrictlyDecreasing(rs: seq<Record>) {
    forall i, j :: 0 <= i < j < |rs| ==> rs[i].index > rs[j].index
  }

  function IndexSet(rs: seq<Record>): set<int> {
    set r | r in rs :: r.index
  }

  /** The ranks of a scrape of `n` items are exactly 1..n, each used once, highest first. */
  lemma CombinedIndices(scrape: seq<ScrapedItem>)
    ensures |Combined(scrape)| == |scrape|
    ensures StrictlyDecreasing(Combined(scrape))
    ensures forall k :: k in IndexSet(Combined(scrape)) <==> 1 <= k <= |scrape|
  {
    var c := Combined(scrape);
    var n := |scrape|;
    forall k | 1 <= k <= n
      ensures k in IndexSet(c)
    {
      assert c[n - k].index == k;
    }
  }

  /** The loop of the route that pushes one record per scraped element. */
  method BuildRecords(scrape: seq<ScrapedItem>) returns (combined: seq<Record>)
    ensures |combined| == |scrape|
    ensures forall i :: 0 <= i < |scrape| ==>
      combined[i] == Record(|scrape| - i, CleanName(scrape[i].nameText), CleanAmount(scrape[i].amountText))
    ensures combined == Combined(scrape)
  {
    combined := [];
    for position := 0 to |scrape|
      invariant combined == Combined(scrape)[..position]
    {
      var item := scrape[position];
      var cleanedName := CleanName(item.nameText);
      var cleanedAmount := CleanAmount(item.amountText);
      combined := combined + [Record(|scrape| - position, cleanedName, cleanedAmount)];
    }
  }
}
