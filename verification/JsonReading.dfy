/**
  A reader of JSON texts (sections 2 to 7 of RFC 8259) that knows nothing of the encoder: it takes
  any escape and tells where a value ends. It covers what the encoder can write, so numbers are
  integers and there is no white space. What the encoder writes is read back as what was meant.
 */
module JsonReading {
  import opened Outcomes
  import opened Decimals
  import opened CanonicalJson

  // ----- Strings

  function HexValue(c: char): Option<nat> {
    if '0' <= c <= '9' then Some(c as int - '0' as int)
    else if 'a' <= c <= 'f' then Some(c as int - 'a' as int + 10)
    else if 'A' <= c <= 'F' then Some(c as int - 'A' as int + 10)
    else None
  }

  /** The character a two-character escape stands for. */
  function Unescape(c: char): Option<char> {
    if c == '"' || c == '\\' || c == '/' then Some(c)
    else if c == 'b' then Some('\U{8}')
    else if c == 'f' then Some('\U{C}')
    else if c == 'n' then Some('\n')
    else if c == 'r' then Some('\r')
    else if c == 't' then Some('\t')
    else None
  }

  /** The scalar value that four hexadecimal digits name; half a surrogate pair names none. */
  function ReadHex(text: string): Option<char> {
    if |text| < 4 then None
    else
      var a, b, c, d := HexValue(text[0]), HexValue(text[1]), HexValue(text[2]), HexValue(text[3]);
      if a.None? || b.None? || c.None? || d.None? then None
      else
        var code := 0x1000 * a.value + 0x100 * b.value + 0x10 * c.value + d.value;
        if 0xD800 <= code < 0xE000 then None else Some(code as char)
  }

  /** One character of a string, and what follows it. */
  function ReadChar(text: string): (r: Option<(char, string)>)
    ensures r.Some? ==> |r.value.1| < |text|
  {
    if text == "" || text[0] == '"' || text[0] as int < 0x20 then None
    else if text[0] != '\\' then Some((text[0], text[1..]))
    else if |text| < 2 then None
    else if text[1] == 'u' then
      (match ReadHex(text[2..])
       case None => None
       case Some(c) => Some((c, text[6..])))
    else
      match Unescape(text[1])
      case None => None
      case Some(c) => Some((c, text[2..]))
  }

  /** The rest of a string whose opening quote has been read. */
  function ReadChars(text: string): (r: Option<(string, string)>)
    ensures r.Some? ==> |r.value.1| < |text|
    decreases |text|
  {
    if text != "" && text[0] == '"' then Some(("", text[1..]))
    else
      match ReadChar(text)
      case None => None
      case Some((c, more)) =>
        match ReadChars(more)
        case None => None
        case Some((cs, rest)) => Some(([c] + cs, rest))
  }

  // ----- Numbers

  function ReadInt(text: string): (r: Option<(int, string)>)
    ensures r.Some? ==> |r.value.1| < |text|
  {
    if text != "" && text[0] == '-' then
      match ReadNat(text[1..])
      case None => None
      case Some((n, rest)) => Some((0 - n as int, rest))
    else
      match ReadNat(text)
      case None => None
      case Some((n, rest)) => Some((n, rest))
  }

  // ----- Values

  /** `text` with the given word taken off its front. */
  function AfterWord(text: string, word: string): (r: Option<string>)
    ensures r.Some? ==> text == word + r.value
  {
    if word <= text then Some(text[|word|..]) else None
  }

  /** A value, and what follows it. */
  function ReadValue(text: string): (r: Option<(Canon, string)>)
    ensures r.Some? ==> |r.value.1| < |text|
    decreases |text|, 1
  {
    if AfterWord(text, "null").Some? then Some((CNull, AfterWord(text, "null").value))
    else if AfterWord(text, "true").Some? then Some((CBool(true), AfterWord(text, "true").value))
    else if AfterWord(text, "false").Some? then Some((CBool(false), AfterWord(text, "false").value))
    else if text == "" then None
    else if text[0] == '"' then
      (match ReadChars(text[1..])
       case None => None
       case Some((s, rest)) => Some((CStr(s), rest)))
    else if text[0] == '[' then
      (match ReadArray(text[1..])
       case None => None
       case Some((items, rest)) => Some((CArray(items), rest)))
    else if text[0] == '{' then
      (match ReadObject(text[1..])
       case None => None
       case Some((members, rest)) => Some((CObject(members), rest)))
    else
      match ReadInt(text)
      case None => None
      case Some((n, rest)) => Some((CInt(n), rest))
  }

  /** The rest of an array whose opening bracket has been read. */
  function ReadArray(text: string): (r: Option<(seq<Canon>, string)>)
    ensures r.Some? ==> |r.value.1| < |text|
    decreases |text|, 3
  {
    if text != "" && text[0] == ']' then Some(([], text[1..])) else ReadItems(text)
  }

  /** One item or more, and the closing bracket. */
  function ReadItems(text: string): (r: Option<(seq<Canon>, string)>)
    ensures r.Some? ==> |r.value.1| < |text|
    decreases |text|, 2
  {
    match ReadValue(text)
    case None => None
    case Some((c, more)) =>
      if more == "" then None
      else if more[0] == ']' then Some(([c], more[1..]))
      else if more[0] != ',' then None
      else
        match ReadItems(more[1..])
        case None => None
        case Some((cs, rest)) => Some(([c] + cs, rest))
  }

  function ReadObject(text: string): (r: Option<(seq<CMember>, string)>)
    ensures r.Some? ==> |r.value.1| < |text|
    decreases |text|, 3
  {
    if text != "" && text[0] == '}' then Some(([], text[1..])) else ReadMembers(text)
  }

  /** A member: its key, a colon and its value. */
  function ReadMember(text: string): (r: Option<(CMember, string)>)
    ensures r.Some? ==> |r.value.1| < |text|
    decreases |text|, 0
  {
    if text == "" || text[0] != '"' then None
    else
      match ReadChars(text[1..])
      case None => None
      case Some((key, more)) =>
        if more == "" || more[0] != ':' then None
        else
          match ReadValue(more[1..])
          case None => None
          case Some((c, rest)) => Some((CMember(key, c), rest))
  }

  function ReadMembers(text: string): (r: Option<(seq<CMember>, string)>)
    ensures r.Some? ==> |r.value.1| < |text|
    decreases |text|, 2
  {
    match ReadMember(text)
    case None => None
    case Some((member, more)) =>
      if more == "" then None
      else if more[0] == '}' then Some(([member], more[1..]))
      else if more[0] != ',' then None
      else
        match ReadMembers(more[1..])
        case None => None
        case Some((ms, rest)) => Some(([member] + ms, rest))
  }

  // ----- What is written is read back

  lemma Group(a: string, b: string, c: string)
    ensures (a + b) + c == a + (b + c)
  {
  }

  lemma HexRoundTrip(d: nat)
    requires d < 16
    ensures HexValue(HexDigit(d)) == Some(d)
  {
  }

  lemma ReadsControl(c: char, rest: string)
    requires c as int < 0x20
    ensures ReadChar(EscapeChar(c) + rest) == Some((c, rest))
  {
    var text := EscapeChar(c) + rest;
    HexRoundTrip(c as int / 16);
    HexRoundTrip(c as int % 16);
    assert text[..6] == EscapeChar(c) && text[6..] == rest;
    assert text[2..][0] == '0' && text[2..][1] == '0';
    assert text[2..][2] == HexDigit(c as int / 16) && text[2..][3] == HexDigit(c as int % 16);
  }

  lemma ReadsEscape(c: char, rest: string)
    ensures ReadChar(EscapeChar(c) + rest) == Some((c, rest))
  {
    var text := EscapeChar(c) + rest;
    if c as int < 0x20 {
      ReadsControl(c, rest);
    } else {
      assert text[|EscapeChar(c)|..] == rest;
    }
  }

  lemma {:induction false} ReadsChars(s: string, rest: string)
    ensures ReadChars(EscapeAll(s) + ("\"" + rest)) == Some((s, rest))
  {
    if s == "" {
      assert EscapeAll(s) + ("\"" + rest) == "\"" + rest;
      assert ("\"" + rest)[1..] == rest;
    } else {
      var more := EscapeAll(s[1..]) + ("\"" + rest);
      Group(EscapeChar(s[0]), EscapeAll(s[1..]), "\"" + rest);
      ReadsEscape(s[0], more);
      ReadsChars(s[1..], rest);
      assert (EscapeChar(s[0]) + more)[0] != '"';
      assert s == [s[0]] + s[1..];
    }
  }

  /** The text of a string after its opening quote. */
  lemma ReadsString(s: string, rest: string)
    ensures RenderString(s) + rest != "" && (RenderString(s) + rest)[0] == '"'
    ensures ReadChars((RenderString(s) + rest)[1..]) == Some((s, rest))
  {
    Group(EscapeAll(s), "\"", rest);
    assert (RenderString(s) + rest)[1..] == EscapeAll(s) + ("\"" + rest);
    ReadsChars(s, rest);
  }

  lemma ReadsInt(n: int, rest: string)
    requires StopsDigits(rest)
    ensures ReadInt(RenderInt(n) + rest) == Some((n, rest))
  {
    if n < 0 {
      Group("-", Print(-n), rest);
      assert (RenderInt(n) + rest)[1..] == Print(-n) + rest;
      ReadsNat(-n, rest);
    } else {
      ReadsNat(n, rest);
      assert (Print(n) + rest)[0] == Print(n)[0];
    }
  }

  /** A number is taken for nothing else. */
  lemma NumberStarts(n: int, rest: string)
    ensures
      var text := RenderInt(n) + rest;
      text != "" && (text[0] == '-' || IsDigit(text[0]))
  {
    assert (RenderInt(n) + rest)[0] == RenderInt(n)[0];
  }

  lemma WordsStart(text: string)
    ensures AfterWord(text, "null").Some? ==> text[0] == 'n'
    ensures AfterWord(text, "true").Some? ==> text[0] == 't'
    ensures AfterWord(text, "false").Some? ==> text[0] == 'f'
  {
  }

  lemma ReadsWord(word: string, rest: string)
    ensures AfterWord(word + rest, word) == Some(rest)
  {
    assert (word + rest)[|word|..] == rest;
  }

  /** The text of a value is read back as that value, whatever follows it. */
  lemma {:induction false} ReadsValue(c: Canon, rest: string)
    requires StopsDigits(rest)
    ensures ReadValue(Render(c) + rest) == Some((c, rest))
    decreases c, 1, 0
  {
    var text := Render(c) + rest;
    WordsStart(text);
    match c
    case CNull => ReadsWord("null", rest);
    case CBool(b) => ReadsWord(Render(c), rest);
    case CInt(n) =>
      NumberStarts(n, rest);
      ReadsInt(n, rest);
    case CStr(s) => ReadsString(s, rest);
    case CArray(items) =>
      Group("[", RenderItems(c, items, true), rest);
      assert text[1..] == RenderItems(c, items, true) + rest;
      ReadsArray(c, rest);
    case CObject(members) =>
      Group("{", RenderMembers(c, members, true), rest);
      assert text[1..] == RenderMembers(c, members, true) + rest;
      ReadsObject(c, rest);
  }

  lemma {:induction false} ReadsArray(c: Canon, rest: string)
    requires c.CArray?
    ensures ReadArray(RenderItems(c, c.items, true) + rest) == Some((c.items, rest))
    decreases c, 0, |c.items| + 1
  {
    if c.items == [] {
      assert ("]" + rest)[1..] == rest;
    } else {
      ReadsItems(c, c.items, rest);
      ItemsOpen(c, c.items, rest);
    }
  }

  /** The text of an item starts with no bracket and no comma. */
  lemma ItemsOpen(c: Canon, items: seq<Canon>, rest: string)
    requires CItemsOf(c, items) && items != []
    ensures
      var text := RenderItems(c, items, true) + rest;
      text != "" && text[0] != ']'
  {
    assert items[0] in c.items;
    var first := Render(items[0]);
    assert first != "" && first[0] != ']';
    assert (RenderItems(c, items, true) + rest)[0] == first[0];
  }

  lemma {:induction false} ReadsItems(c: Canon, items: seq<Canon>, rest: string)
    requires CItemsOf(c, items) && items != []
    ensures ReadItems(RenderItems(c, items, true) + rest) == Some((items, rest))
    decreases c, 0, |items|
  {
    assert items[0] in c.items;
    var more := RenderItems(c, items[1..], false) + rest;
    Group("", Render(items[0]) + RenderItems(c, items[1..], false), rest);
    Group(Render(items[0]), RenderItems(c, items[1..], false), rest);
    assert RenderItems(c, items, true) + rest == Render(items[0]) + more;
    if items[1..] == [] {
      assert more == "]" + rest && more[1..] == rest;
      ReadsValue(items[0], more);
      assert items == [items[0]];
    } else {
      Commas(c, items[1..], rest);
      ReadsValue(items[0], more);
      ReadsItems(c, items[1..], rest);
      assert items == [items[0]] + items[1..];
    }
  }

  lemma Commas(c: Canon, items: seq<Canon>, rest: string)
    requires CItemsOf(c, items) && items != []
    ensures RenderItems(c, items, false) + rest == "," + (RenderItems(c, items, true) + rest)
    ensures (RenderItems(c, items, false) + rest)[1..] == RenderItems(c, items, true) + rest
  {
    assert items[0] in c.items;
    var tail := Render(items[0]) + RenderItems(c, items[1..], false);
    assert RenderItems(c, items, true) == "" + tail == tail;
    Group(",", tail, rest);
  }

  lemma {:induction false} ReadsObject(c: Canon, rest: string)
    requires c.CObject?
    ensures ReadObject(RenderMembers(c, c.members, true) + rest) == Some((c.members, rest))
    decreases c, 0, |c.members| + 1
  {
    if c.members == [] {
      assert ("}" + rest)[1..] == rest;
    } else {
      ReadsMembers(c, c.members, rest);
      MembersSplit(c, c.members, rest);
      ReadsString(c.members[0].key, "");
      assert (RenderMembers(c, c.members, true) + rest)[0] == '"';
    }
  }

  /** The text of a member, and of what follows it. */
  function AfterKey(ghost c: Canon, members: seq<CMember>, rest: string): string
    requires CMembersOf(c, members) && members != []
  {
    ":" + (Render(members[0].value) + (RenderMembers(c, members[1..], false) + rest))
  }

  lemma MembersSplit(c: Canon, members: seq<CMember>, rest: string)
    requires CMembersOf(c, members) && members != []
    ensures RenderMembers(c, members, true) + rest == RenderString(members[0].key) + AfterKey(c, members, rest)
    ensures RenderMembers(c, members, false) + rest == "," + (RenderMembers(c, members, true) + rest)
  {
    assert members[0] in c.members;
    var key, value := RenderString(members[0].key), Render(members[0].value);
    var more := RenderMembers(c, members[1..], false);
    var tail := key + (":" + (value + more));
    assert RenderMembers(c, members, true) == "" + tail == tail;
    Group(",", tail, rest);
    Group(key, ":" + (value + more), rest);
    Group(":", value + more, rest);
    Group(value, more, rest);
  }

  lemma {:induction false} ReadsMember(c: Canon, members: seq<CMember>, rest: string)
    requires CMembersOf(c, members) && members != []
    ensures ReadMember(RenderMembers(c, members, true) + rest)
         == Some((members[0], RenderMembers(c, members[1..], false) + rest))
    decreases c, 0, |members|, 0
  {
    var more := RenderMembers(c, members[1..], false) + rest;
    assert members[0] in c.members;
    MembersSplit(c, members, rest);
    ReadsString(members[0].key, AfterKey(c, members, rest));
    assert AfterKey(c, members, rest)[1..] == Render(members[0].value) + more;
    assert StopsDigits(more);
    ReadsValue(members[0].value, more);
  }

  lemma {:induction false} ReadsMembers(c: Canon, members: seq<CMember>, rest: string)
    requires CMembersOf(c, members) && members != []
    ensures ReadMembers(RenderMembers(c, members, true) + rest) == Some((members, rest))
    decreases c, 0, |members|, 1
  {
    var more := RenderMembers(c, members[1..], false) + rest;
    ReadsMember(c, members, rest);
    if members[1..] == [] {
      assert more == "}" + rest && more[1..] == rest;
      assert members == [members[0]];
    } else {
      MembersSplit(c, members[1..], rest);
      assert more[1..] == RenderMembers(c, members[1..], true) + rest;
      ReadsMembers(c, members[1..], rest);
      assert members == [members[0]] + members[1..];
    }
  }
}
