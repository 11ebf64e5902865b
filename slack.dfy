/**
 * The Slack Block Kit payload the route posts for one new donation: a header,
 * a section with the running count and a section with the name and amount
 * fields.
 */
module Slack {
  import opened Wrappers
  import opened JsText
  import opened Donations

  datatype Block =
    | Header(plainText: string)
    | Section(mrkdwn: string)
    | FieldsSection(fields: seq<string>)

  datatype Message = Message(blocks: seq<Block>)

  const HeaderText: string := "Somebody donated!"
  const CountPrefix: string := "That makes "
  const CountSuffix: string := "!"
  const NameLabel: string := "*Name*\n"
  const AmountLabel: string := "*Donation*\n"

  /** The payload for one record. */
  function Body(r: Record): Message {
    Message([
      Header(HeaderText),
      Section(CountPrefix + IntToString(r.index) + CountSuffix),
      FieldsSection([NameLabel + r.name, AmountLabel + r.amount])
    ])
  }

  /** Reads a payload back into the record it announces, when it has Body's shape. */
  function ReadBody(msg: Message): Option<Record> {
    if |msg.blocks| == 3 && msg.blocks[0] == Header(HeaderText) &&
       msg.blocks[1].Section? && msg.blocks[2].FieldsSection? && |msg.blocks[2].fields| == 2
    then
      var count := msg.blocks[1].mrkdwn;
      var name := msg.blocks[2].fields[0];
      var amount := msg.blocks[2].fields[1];
      if CountPrefix <= count && |count| >= |CountPrefix| + |CountSuffix| &&
         count[|count| - |CountSuffix|..] == CountSuffix &&
         NameLabel <= name && AmountLabel <= amount
      then Some(Record(ParseInt(count[|CountPrefix|..|count| - |CountSuffix|]),
                       name[|NameLabel|..], amount[|AmountLabel|..]))
      else None
    else None
  }

  /** Each payload carries its record's rank, name and amount, all recoverable. */
  lemma BodyRoundTrip(r: Record)
    ensures ReadBody(Body(r)) == Some(r)
  {
    var digits := IntToString(r.index);
    var count := CountPrefix + digits + CountSuffix;
    assert count[|CountPrefix|..|count| - |CountSuffix|] == digits;
    assert count[|count| - |CountSuffix|..] == CountSuffix;
    assert (NameLabel + r.name)[|NameLabel|..] == r.name;
    assert (AmountLabel + r.amount)[|AmountLabel|..] == r.amount;
    IntToStringRoundTrip(r.index);
  }

  /** Different records are announced by different payloads. */
  lemma BodyInjective(r1: Record, r2: Record)
    ensures Body(r1) == Body(r2) ==> r1 == r2
  {
    BodyRoundTrip(r1);
    BodyRoundTrip(r2);
  }

  /** One payload per record, in the records' order. */
  function Messages(rs: seq<Record>): (ms: seq<Message>)
    ensures |ms| == |rs|
  {
    seq(|rs|, i requires 0 <= i < |rs| => Body(rs[i]))
  }
}
