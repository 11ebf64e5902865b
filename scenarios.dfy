/** Concrete runs of the update handler. */
module Scenarios {
  import opened Wrappers
  import opened JsText
  import opened Donations
  import opened RecordOrder
  import opened RedisStore
  import opened Slack
  import opened UpdateRoute

  /** One whitespace character on each side of unpadded text is cut. */
  lemma TrimOnePad(before: char, body: string, after: char)
    requires IsWhitespace(before) && IsWhitespace(after)
    requires body != [] && !IsWhitespace(body[0]) && !IsWhitespace(body[|body| - 1])
    ensures Trim([before] + body + [after]) == body
  {
    var s := [before] + body + [after];
    var n := |s|;
    assert s[0] == before && s[1] == body[0];
    assert SkipLeading(s, 1) == 1;
    assert TrimOffset(s) == 1;
    assert s[n - 1] == after && s[n - 2] == body[|body| - 1];
    assert SkipTrailing(s, 1, n - 1) == n - 1;
    assert SkipTrailing(s, 1, n) == n - 1;
    assert s[1..n - 1] == body;
  }

  lemma TrimPadded()
    ensures Trim(" $ 50\n") == "$ 50"
  {
    var body := "$ 50";
    assert body[0] == '$' && body[|body| - 1] == '0';
    assert " $ 50\n" == [' '] + body + ['\n'];
    TrimOnePad(' ', body, '\n');
  }

  /** Cleaning drops the first two characters of the trimmed amount text. */
  lemma CleanAmountPadded()
    ensures CleanAmount(Some(" $ 50\n")) == "50"
  {
    TrimPadded();
    assert "$ 50"[2..] == "50";
  }

  /** Text with no whitespace at either end is left as it is. */
  lemma TrimUnpadded(s: string)
    requires s != [] && !IsWhitespace(s[0]) && !IsWhitespace(s[|s| - 1])
    ensures Trim(s) == s
  {
    assert TrimOffset(s) == 0;
    assert SkipTrailing(s, 0, |s|) == |s|;
    assert s[0..|s|] == s;
  }

  /** Without a separator after the currency sign, the first digit goes too. */
  lemma CleanAmountUnseparated()
    ensures CleanAmount(Some("$50")) == "0"
  {
    var s := "$50";
    assert s[0] == '$' && s[|s| - 1] == '0';
    TrimUnpadded(s);
    assert s[2..] == "0";
  }

  /** Trimmed text of two characters or fewer leaves the empty string. */
  lemma CleanAmountShort()
    ensures CleanAmount(Some("$5")) == ""
  {
    var s := "$5";
    assert s[0] == '$' && s[|s| - 1] == '5';
    TrimUnpadded(s);
    assert Substring(s, 2) == "";
  }

  lemma CleanNamePadded()
    ensures CleanName(Some(" Alice ")) == "Alice"
  {
    var body := "Alice";
    assert body[0] == 'A' && body[|body| - 1] == 'e';
    assert " Alice " == [' '] + body + [' '];
    TrimOnePad(' ', body, ' ');
  }

  lemma TrimBlank()
    ensures Trim(" ") == ""
  {
    assert SkipLeading(" ", 1) == 1;
    assert SkipTrailing(" ", 1, 1) == 1;
  }

  /** A whitespace-only name is kept as the empty string, not the placeholder. */
  lemma CleanNameBlank()
    ensures CleanName(Some(" ")) == ""
  {
    TrimBlank();
  }

  /** The record a scraped item becomes at rank `index`. */
  function RecordOf(index: int, item: ScrapedItem): Record {
    Record(index, CleanName(item.nameText), CleanAmount(item.amountText))
  }

  lemma TwoItemRecords(top: ScrapedItem, below: ScrapedItem)
    ensures Combined([top, below]) == [RecordOf(2, top), RecordOf(1, below)]
  {
  }

  lemma ThreeItemRecords(newest: ScrapedItem, top: ScrapedItem, below: ScrapedItem)
    ensures Combined([newest, top, below]) == [RecordOf(3, newest), RecordOf(2, top), RecordOf(1, below)]
  {
  }

  lemma MissingFromEmpty(a: Record, b: Record)
    ensures Missing(map[], [a, b]) == [a, b]
  {
    assert [a, b][..1] == [a];
    assert [a][..0] == [];
  }

  lemma WriteTwo(a: Record, b: Record)
    requires a.index != b.index
    ensures WriteAll(map[], [a, b]) == map[a.index := Fields(a), b.index := Fields(b)]
  {
    WriteOne(map[], a);
    var m1 := map[a.index := Fields(a)];
    assert [a, b][..1] == [a];
    assert WriteAll(map[], [a, b]) == WriteRecord(m1, b);
    assert WriteRecord(m1, b) == m1[b.index := Fields(b)];
  }

  lemma ReverseTwo(a: Record, b: Record)
    ensures Reverse([a, b]) == [b, a]
  {
    assert [a, b][..1] == [a];
    assert Reverse([a]) == [a];
  }

  /** An authorized run, unfolded. */
  lemma RunAuthorized(secret: string, scrape: seq<ScrapedItem>, m: Keyspace)
    ensures var missing := Missing(m, Combined(scrape));
      Run(Some("Bearer " + secret), Some(secret), scrape, m) ==
      Outcome(Success, WriteAll(m, missing), Messages(Reverse(missing)))
  {
    assert Authorized(Some("Bearer " + secret), Some(secret));
  }

  /** From an empty store both records of a two-item page are new; rank 1,
      the lower item, is announced first. */
  lemma FirstRunOnEmptyStore(secret: string, top: ScrapedItem, below: ScrapedItem)
    ensures var o := Run(Some("Bearer " + secret), Some(secret), [top, below], map[]);
      o.response == Success &&
      o.entries == map[2 := Fields(RecordOf(2, top)), 1 := Fields(RecordOf(1, below))] &&
      o.sent == [Body(RecordOf(1, below)), Body(RecordOf(2, top))]
  {
    var a, b := RecordOf(2, top), RecordOf(1, below);
    var empty: Keyspace := map[];
    RunAuthorized(secret, [top, below], empty);
    TwoItemRecords(top, below);
    MissingFromEmpty(a, b);
    var o := Run(Some("Bearer " + secret), Some(secret), [top, below], empty);
    assert o == Outcome(Success, WriteAll(empty, [a, b]), Messages(Reverse([a, b])));
    WriteTwo(a, b);
    SentTwo(a, b);
  }

  lemma SentTwo(a: Record, b: Record)
    ensures Messages(Reverse([a, b])) == [Body(b), Body(a)]
  {
    ReverseTwo(a, b);
    assert Messages([b, a]) == [Body(b), Body(a)];
  }

  lemma MissingOneNew(m: Keyspace, a: Record, b: Record, c: Record)
    requires a.index !in m && b.index in m && c.index in m
    ensures Missing(m, [a, b, c]) == [a]
  {
    assert [a, b, c][..2] == [a, b];
    assert [a, b][..1] == [a];
    assert [a][..0] == [];
    assert Missing(m, [a]) == [a];
    assert Missing(m, [a, b]) == [a];
  }

  lemma WriteOne(m: Keyspace, a: Record)
    requires a.index !in m
    ensures WriteAll(m, [a]) == m[a.index := Fields(a)]
  {
    assert [a][..0] == [];
  }

  /** The second run, on the keyspace the first one left. */
  lemma RunAfterFirst(secret: string, newest: ScrapedItem, top: ScrapedItem, below: ScrapedItem, m: Keyspace)
    requires m == map[2 := Fields(RecordOf(2, top)), 1 := Fields(RecordOf(1, below))]
    ensures var o := Run(Some("Bearer " + secret), Some(secret), [newest, top, below], m);
      o.response == Success &&
      o.entries == m[3 := Fields(RecordOf(3, newest))] &&
      o.sent == [Body(RecordOf(3, newest))]
  {
    var a := RecordOf(3, newest);
    RunAuthorized(secret, [newest, top, below], m);
    ThreeItemRecords(newest, top, below);
    MissingOneNew(m, a, RecordOf(2, top), RecordOf(1, below));
    WriteOne(m, a);
    SentOne(a);
  }

  lemma SentOne(a: Record)
    ensures Messages(Reverse([a])) == [Body(a)]
  {
    assert Reverse([a]) == [a];
    assert Messages([a]) == [Body(a)];
  }

  /** When one more donation appears on top, only its rank 3 is new: one
      write and one announcement. */
  lemma SecondRunFindsOneNew(secret: string, newest: ScrapedItem, top: ScrapedItem, below: ScrapedItem)
    ensures var m := Run(Some("Bearer " + secret), Some(secret), [top, below], map[]).entries;
      var o := Run(Some("Bearer " + secret), Some(secret), [newest, top, below], m);
      o.response == Success &&
      o.entries == m[3 := Fields(RecordOf(3, newest))] &&
      o.sent == [Body(RecordOf(3, newest))]
  {
    FirstRunOnEmptyStore(secret, top, below);
    var m := Run(Some("Bearer " + secret), Some(secret), [top, below], map[]).entries;
    RunAfterFirst(secret, newest, top, below, m);
  }

  /** A request with the wrong secret changes nothing and posts nothing. */
  lemma WrongSecretRejected(scrape: seq<ScrapedItem>, m: Keyspace)
    ensures Run(Some("Bearer wrong"), Some("right"), scrape, m) == Outcome(Unauthorized, m, [])
  {
    assert "Bearer " + "right" != "Bearer wrong" by {
      assert ("Bearer " + "right")[7] == 'r';
    }
  }
}
