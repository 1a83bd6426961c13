/**
  The credential-row message: length-prefixed fields whose lengths count UTF-8 bytes.

  Text is a sequence of Unicode scalar values. The message is uniquely decodable: nothing a field
  holds, digits and colons included, can make two different rows encode alike.
 */
module CredentialRow {
  import opened Decimals
  import opened Outcomes

  /** Bytes of one scalar value in UTF-8 (section 3 of RFC 3629). */
  function CharWidth(c: char): (w: nat)
    ensures 1 <= w <= 4
  {
    if c as int < 0x80 then 1 else if c as int < 0x800 then 2 else if c as int < 0x10000 then 3 else 4
  }

  function Utf8Bytes(text: string): nat {
    if text == "" then 0 else CharWidth(text[0]) + Utf8Bytes(text[1..])
  }

  lemma {:induction false} Utf8BytesConcat(a: string, b: string)
    ensures Utf8Bytes(a + b) == Utf8Bytes(a) + Utf8Bytes(b)
    ensures |b| <= Utf8Bytes(b)
    decreases |a| + |b|
  {
    if a != "" {
      assert (a + b)[1..] == a[1..] + b;
      Utf8BytesConcat(a[1..], b);
    } else {
      assert a + b == b;
      if b != "" {
        Utf8BytesConcat("", b[1..]);
      }
    }
  }

  function Field(text: string): string {
    Print(Utf8Bytes(text)) + (":" + text)
  }

  datatype Entry = Entry(name: string, value: string)

  /** `tag` is the canonicalization tag, a constant of the credentials document. */
  datatype Row = Row(tag: string, harness: string, provider: string, entries: seq<Entry>)

  function EntryMessage(entry: Entry): (message: string)
    ensures message != ""
  {
    Field(entry.name) + (Field(Print(Utf8Bytes(entry.value))) + Field(entry.value))
  }

  function EntriesMessage(entries: seq<Entry>): string {
    if entries == [] then "" else EntryMessage(entries[0]) + EntriesMessage(entries[1..])
  }

  function Message(row: Row): string {
    Field(row.tag) + (Field(row.harness) + (Field(row.provider) + EntriesMessage(row.entries)))
  }

  /** `canonicalCredentialRowEncoding`. */
  method Encode(row: Row) returns (message: string)
    ensures message == Message(row)
  {
    message := Field(row.tag) + Field(row.harness) + Field(row.provider);
    ghost var goal := Message(row);
    FixedFields(row, message);
    for k := 0 to |row.entries|
      invariant message + EntriesMessage(row.entries[k..]) == goal
    {
      EntriesTurn(row.entries, k, message);
      message := message + EntryMessage(row.entries[k]);
    }
    assert message + "" == message;
  }

  lemma FixedFields(row: Row, message: string)
    requires message == Field(row.tag) + Field(row.harness) + Field(row.provider)
    ensures message + EntriesMessage(row.entries[0..]) == Message(row)
  {
    Regroup(Field(row.tag), Field(row.harness), Field(row.provider), EntriesMessage(row.entries));
    assert row.entries[0..] == row.entries;
  }

  lemma EntriesTurn(entries: seq<Entry>, k: nat, message: string)
    requires k < |entries|
    ensures message + EntriesMessage(entries[k..])
         == message + EntryMessage(entries[k]) + EntriesMessage(entries[k + 1..])
  {
    assert entries[k..][1..] == entries[k + 1..];
    var rest := EntriesMessage(entries[k + 1..]);
    assert message + (EntryMessage(entries[k]) + rest) == message + EntryMessage(entries[k]) + rest;
  }

  /** A field ends where its length says, whatever it and the text after it hold. */
  lemma FieldEnds(a: string, b: string, rest: string, rest': string)
    requires Field(a) + rest == Field(b) + rest'
    ensures a == b && rest == rest'
  {
    LengthEnds(Print(Utf8Bytes(a)), Print(Utf8Bytes(b)), a, b, rest, rest');
    PrintIsInjective(Utf8Bytes(a), Utf8Bytes(b));
    SameBytesSamePrefix(a, b, rest, rest');
  }

  lemma LengthEnds(p: string, q: string, a: string, b: string, rest: string, rest': string)
    requires AllDigits(p) && AllDigits(q)
    requires p + (":" + a) + rest == q + (":" + b) + rest'
    ensures p == q && a + rest == b + rest'
  {
    var afterP, afterQ := ":" + (a + rest), ":" + (b + rest');
    assert p + (":" + a) + rest == p + afterP;
    assert q + (":" + b) + rest' == q + afterQ;
    DigitsEnd(p, q, afterP, afterQ);
    assert afterP[1..] == a + rest && afterQ[1..] == b + rest';
  }

  lemma SameBytesSamePrefix(a: string, b: string, rest: string, rest': string)
    requires a + rest == b + rest' && Utf8Bytes(a) == Utf8Bytes(b)
    ensures a == b && rest == rest'
  {
    var all := a + rest;
    if |a| <= |b| {
      assert b == a + b[|a|..] by {
        assert a == all[..|a|] == b[..|a|];
      }
      Utf8BytesConcat(a, b[|a|..]);
    } else {
      assert a == b + a[|b|..] by {
        assert b == all[..|b|] == a[..|b|];
      }
      Utf8BytesConcat(b, a[|b|..]);
    }
    assert |a| == |b|;
    assert a == all[..|a|] == b;
    assert rest == all[|a|..] == rest';
  }

  lemma {:induction false} EntriesAreDetermined(a: seq<Entry>, b: seq<Entry>)
    requires EntriesMessage(a) == EntriesMessage(b)
    ensures a == b
  {
    if a != [] && b != [] {
      EntryEnds(a[0], b[0], EntriesMessage(a[1..]), EntriesMessage(b[1..]));
      EntriesAreDetermined(a[1..], b[1..]);
      assert a == [a[0]] + a[1..] && b == [b[0]] + b[1..];
    }
  }

  lemma EntryEnds(x: Entry, y: Entry, rest: string, rest': string)
    requires EntryMessage(x) + rest == EntryMessage(y) + rest'
    ensures x == y && rest == rest'
  {
    var lengthX, lengthY := Print(Utf8Bytes(x.value)), Print(Utf8Bytes(y.value));
    Regroup(Field(x.name), Field(lengthX), Field(x.value), rest);
    Regroup(Field(y.name), Field(lengthY), Field(y.value), rest');
    FieldEnds(x.name, y.name, Field(lengthX) + (Field(x.value) + rest), Field(lengthY) + (Field(y.value) + rest'));
    FieldEnds(lengthX, lengthY, Field(x.value) + rest, Field(y.value) + rest');
    FieldEnds(x.value, y.value, rest, rest');
  }

  lemma Regroup(a: string, b: string, c: string, d: string)
    ensures (a + (b + c)) + d == a + (b + (c + d)) == a + b + c + d
  {
  }

  /** Equal messages come from equal rows: tag, harness, provider, and every name and value in order. */
  lemma MessageIsUniquelyDecodable(a: Row, b: Row)
    requires Message(a) == Message(b)
    ensures a == b
  {
    var entriesA, entriesB := EntriesMessage(a.entries), EntriesMessage(b.entries);
    FieldEnds(a.tag, b.tag, Field(a.harness) + (Field(a.provider) + entriesA),
              Field(b.harness) + (Field(b.provider) + entriesB));
    FieldEnds(a.harness, b.harness, Field(a.provider) + entriesA, Field(b.provider) + entriesB);
    FieldEnds(a.provider, b.provider, entriesA, entriesB);
    EntriesAreDetermined(a.entries, b.entries);
  }

  // ----- A reader of messages

  /** The characters that make up the first `bytes` bytes of `text`, and the rest. */
  function TakeBytes(text: string, bytes: nat): (r: Option<(string, string)>)
    ensures r.Some? ==> |r.value.1| <= |text|
  {
    if bytes == 0 then Some((text[..0], text))
    else if text == "" || CharWidth(text[0]) > bytes then None
    else
      match TakeBytes(text[1..], bytes - CharWidth(text[0]))
      case None => None
      case Some((more, rest)) => Some(([text[0]] + more, rest))
  }

  /** A length in decimal, a colon, and that many bytes. */
  function ReadField(message: string): (r: Option<(string, string)>)
    ensures r.Some? ==> |r.value.1| < |message|
  {
    match ReadNat(message)
    case None => None
    case Some((bytes, more)) => if more != "" && more[0] == ':' then TakeBytes(more[1..], bytes) else None
  }

  /** A name, the length of the value in bytes, and the value. */
  function ReadEntry(message: string): (r: Option<(Entry, string)>)
    ensures r.Some? ==> |r.value.1| < |message|
  {
    match ReadField(message)
    case None => None
    case Some((name, afterName)) =>
      match ReadField(afterName)
      case None => None
      case Some((length, afterLength)) =>
        match ReadField(afterLength)
        case None => None
        case Some((value, rest)) =>
          if length == Print(Utf8Bytes(value)) then Some((Entry(name, value), rest)) else None
  }

  /** Entries to the end of the message. */
  function ReadEntries(message: string): Option<seq<Entry>>
    decreases |message|
  {
    if message == "" then Some([])
    else
      match ReadEntry(message)
      case None => None
      case Some((entry, rest)) =>
        match ReadEntries(rest)
        case None => None
        case Some(more) => Some([entry] + more)
  }

  function ReadRow(message: string): Option<Row> {
    match ReadField(message)
    case None => None
    case Some((tag, afterTag)) =>
      match ReadField(afterTag)
      case None => None
      case Some((harness, afterHarness)) =>
        match ReadField(afterHarness)
        case None => None
        case Some((provider, rest)) =>
          match ReadEntries(rest)
          case None => None
          case Some(entries) => Some(Row(tag, harness, provider, entries))
  }

  lemma {:induction false} TakesBytes(text: string, rest: string)
    ensures TakeBytes(text + rest, Utf8Bytes(text)) == Some((text, rest))
  {
    if text == "" {
      assert text + rest == rest && rest[..0] == text;
    } else {
      assert (text + rest)[1..] == text[1..] + rest;
      TakesBytes(text[1..], rest);
      assert [text[0]] + text[1..] == text;
    }
  }

  lemma ReadsField(text: string, rest: string)
    ensures ReadField(Field(text) + rest) == Some((text, rest))
  {
    var length := Print(Utf8Bytes(text));
    var more := ":" + (text + rest);
    assert Field(text) + rest == length + more;
    ReadsNat(Utf8Bytes(text), more);
    assert more[1..] == text + rest;
    TakesBytes(text, rest);
  }

  lemma ReadsEntry(entry: Entry, rest: string)
    ensures ReadEntry(EntryMessage(entry) + rest) == Some((entry, rest))
  {
    var length := Print(Utf8Bytes(entry.value));
    Regroup(Field(entry.name), Field(length), Field(entry.value), rest);
    ReadsField(entry.name, Field(length) + (Field(entry.value) + rest));
    ReadsField(length, Field(entry.value) + rest);
    ReadsField(entry.value, rest);
  }

  lemma ReadsOneMore(message: string, entry: Entry, rest: string, more: seq<Entry>)
    requires message != "" && ReadEntry(message) == Some((entry, rest)) && ReadEntries(rest) == Some(more)
    ensures ReadEntries(message) == Some([entry] + more)
  {
  }

  lemma {:induction false} ReadsEntries(entries: seq<Entry>)
    ensures ReadEntries(EntriesMessage(entries)) == Some(entries)
  {
    if entries != [] {
      var rest := EntriesMessage(entries[1..]);
      ReadsEntry(entries[0], rest);
      ReadsEntries(entries[1..]);
      ReadsOneMore(EntryMessage(entries[0]) + rest, entries[0], rest, entries[1..]);
      assert entries == [entries[0]] + entries[1..];
    }
  }

  /** The message is read back, field by field, as the row it was made from. */
  lemma MessageReadsBack(row: Row)
    ensures ReadRow(Message(row)) == Some(row)
  {
    var rest := EntriesMessage(row.entries);
    ReadsField(row.tag, Field(row.harness) + (Field(row.provider) + rest));
    ReadsField(row.harness, Field(row.provider) + rest);
    ReadsField(row.provider, rest);
    ReadsEntries(row.entries);
  }
}
