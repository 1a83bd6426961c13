/**
  Canonical JSON: what a value means to the encoder (`Normalize`), the text of that meaning
  (`Render`), and the encoder itself, which appends to a string as it walks the value.

  A number means its safe integer, and an object means its key-to-value map: `Normalize` lists
  the members in code-point order of their keys, whatever order they were inserted in.
 */
module CanonicalJson {
  import opened Arithmetic
  import opened Outcomes
  import opened Decimals

  // ----- Values

  /** `serde_json::Number`; a finite `f64` is an exact real. */
  datatype Number = PosInt(unsigned: nat) | NegInt(signed: int) | Float(value: real)

  datatype Value =
    | Null
    | Bool(b: bool)
    | Num(number: Number)
    | Str(text: string)
    | Array(items: seq<Value>)
    | Object(entries: seq<Entry>)

  datatype Entry = Entry(key: string, value: Value)

  function SafeRange(value: int): Option<int> {
    if -MAX_SAFE_INTEGER <= value <= MAX_SAFE_INTEGER then Some(value) else None
  }

  /** `number_as_safe_integer`. */
  function SafeInteger(number: Number): Option<int> {
    match number
    case PosInt(u) =>
      if u <= MAX_I64 then SafeRange(u)
      else if u <= MAX_SAFE_INTEGER then Some(u)
      else None
    case NegInt(i) => SafeRange(i)
    case Float(r) =>
      if r.Floor as real != r || r > MAX_SAFE_INTEGER as real || -r > MAX_SAFE_INTEGER as real then None
      else Some(r.Floor)
  }

  // ----- Key order

  /** Rust `str` order, which is code-point order. */
  predicate Less(a: string, b: string) {
    if b == "" then false
    else if a == "" then true
    else if a[0] != b[0] then a[0] < b[0]
    else Less(a[1..], b[1..])
  }

  lemma {:induction false} LessIsTotal(a: string, b: string)
    ensures a != b ==> Less(a, b) || Less(b, a)
    ensures !(Less(a, b) && Less(b, a))
  {
    if a != "" && b != "" && a[0] == b[0] {
      LessIsTotal(a[1..], b[1..]);
      assert a == [a[0]] + a[1..] && b == [b[0]] + b[1..];
    }
  }

  lemma {:induction false} LessIsTransitive(a: string, b: string, c: string)
    requires Less(a, b) && Less(b, c)
    ensures Less(a, c)
  {
    if a != "" && a[0] == b[0] == c[0] {
      LessIsTransitive(a[1..], b[1..], c[1..]);
    }
  }

  /** `a` comes first by code point: where the two part, `a` ends or has the smaller character. */
  ghost predicate Before(a: string, b: string) {
    exists k | 0 <= k <= |a| && k < |b| && a[..k] == b[..k] :: k == |a| || a[k] < b[k]
  }

  /** What `Less` decides. */
  lemma {:induction false} LessIsBefore(a: string, b: string)
    ensures Less(a, b) <==> Before(a, b)
  {
    if a == "" || b == "" || a[0] != b[0] {
      if b != "" {
        assert a[..0] == b[..0];
      }
    } else {
      LessIsBefore(a[1..], b[1..]);
      if k :| 0 <= k <= |a| && k < |b| && a[..k] == b[..k] && (k == |a| || a[k] < b[k]) {
        assert k > 0;
        SameAfterFirst(a, b, k - 1);
      }
      if k :| 0 <= k <= |a[1..]| && k < |b[1..]| && a[1..][..k] == b[1..][..k]
              && (k == |a[1..]| || a[1..][k] < b[1..][k])
      {
        SameAfterFirst(a, b, k);
        assert a[..k + 1] == b[..k + 1];
      }
    }
  }

  lemma SameAfterFirst(a: string, b: string, k: nat)
    requires a != "" && b != "" && a[0] == b[0] && k < |a| && k < |b|
    ensures a[1..][..k] == b[1..][..k] <==> a[..k + 1] == b[..k + 1]
  {
    assert a[..k + 1] == [a[0]] + a[1..][..k];
    assert b[..k + 1] == [b[0]] + b[1..][..k];
    assert a[..k + 1][1..] == a[1..][..k] && b[..k + 1][1..] == b[1..][..k];
  }

  predicate Sorted(keys: seq<string>) {
    forall i, j | 0 <= i < j < |keys| :: Less(keys[i], keys[j])
  }

  function InsertKey(keys: seq<string>, key: string): (r: seq<string>)
  {
    if keys == [] then [key]
    else if key == keys[0] then keys
    else if Less(key, keys[0]) then [key] + keys
    else [keys[0]] + InsertKey(keys[1..], key)
  }

  lemma {:induction false} InsertKeySorts(keys: seq<string>, key: string)
    requires Sorted(keys)
    ensures Sorted(InsertKey(keys, key))
    ensures forall k :: k in InsertKey(keys, key) <==> k in keys || k == key
  {
    if keys != [] {
      LessIsTotal(key, keys[0]);
      if Less(key, keys[0]) {
        forall j | 0 <= j < |keys|
          ensures Less(key, keys[j])
        {
          if j > 0 {
            LessIsTransitive(key, keys[0], keys[j]);
          }
        }
      } else if key != keys[0] {
        var tail := InsertKey(keys[1..], key);
        InsertKeySorts(keys[1..], key);
        forall k | k in tail
          ensures Less(keys[0], k)
        {
          if k != key {
            var j :| 0 <= j < |keys[1..]| && keys[1..][j] == k;
            assert keys[j + 1] == k;
          }
        }
      }
    }
  }

  lemma FirstIsIn(keys: seq<string>)
    ensures keys == [] || keys[0] in keys
  {
  }

  /** A strictly sorted list is determined by its elements. */
  lemma {:induction false} SortedIsUnique(a: seq<string>, b: seq<string>)
    requires Sorted(a) && Sorted(b)
    requires forall k :: k in a <==> k in b
    ensures a == b
  {
    FirstIsIn(a);
    FirstIsIn(b);
    if a != [] {
      var j :| 0 <= j < |b| && b[j] == a[0];
      var i :| 0 <= i < |a| && a[i] == b[0];
      LessIsTotal(a[0], b[0]);
      assert a[0] == b[0];
      TailElements(a);
      TailElements(b);
      SortedIsUnique(a[1..], b[1..]);
      assert a == [a[0]] + a[1..] && b == [b[0]] + b[1..];
    }
  }

  lemma TailElements(keys: seq<string>)
    requires Sorted(keys) && keys != []
    ensures Sorted(keys[1..])
    ensures forall k :: k in keys[1..] <==> k in keys && k != keys[0]
  {
    LessIsTotal(keys[0], keys[0]);
    forall k
      ensures k in keys[1..] <==> k in keys && k != keys[0]
    {
      if k in keys[1..] {
        var j :| 0 <= j < |keys[1..]| && keys[1..][j] == k;
        assert keys[j + 1] == k && Less(keys[0], k);
      }
    }
  }

  // ----- The map an object stands for

  /** Collecting the entries into a map; a later entry of a key replaces an earlier one. */
  function Collect(entries: seq<Entry>): (m: map<string, Value>)
    ensures forall key | key in m :: exists e | e in entries :: e.value == m[key]
  {
    if entries == [] then map[]
    else
      var last := entries[|entries| - 1];
      Collect(entries[..|entries| - 1])[last.key := last.value]
  }

  /** No later entry has this one's key. */
  predicate LastEntry(entries: seq<Entry>, i: nat)
    requires i < |entries|
  {
    forall j | i < j < |entries| :: entries[j].key != entries[i].key
  }

  /** The map holds the last entry of each key. */
  ghost predicate Holds(entries: seq<Entry>, key: string, value: Value) {
    exists i | 0 <= i < |entries| && LastEntry(entries, i) :: entries[i] == Entry(key, value)
  }

  lemma {:induction false} CollectHoldsLast(entries: seq<Entry>, key: string, value: Value)
    ensures key in Collect(entries) && Collect(entries)[key] == value <==> Holds(entries, key, value)
  {
    if entries != [] {
      var last := |entries| - 1;
      var all := Collect(entries);
      assert all == Collect(entries[..last])[entries[last].key := entries[last].value];
      if entries[last].key == key {
        HoldsTheLast(entries, value);
      } else {
        CollectHoldsLast(entries[..last], key, value);
        HoldsOfMore(entries, key, value);
      }
    }
  }

  lemma HoldsTheLast(entries: seq<Entry>, value: Value)
    requires entries != []
    ensures var last := entries[|entries| - 1]; Holds(entries, last.key, value) <==> last.value == value
  {
    assert LastEntry(entries, |entries| - 1);
  }

  lemma HoldsOfMore(entries: seq<Entry>, key: string, value: Value)
    requires entries != [] && entries[|entries| - 1].key != key
    ensures Holds(entries, key, value) <==> Holds(entries[..|entries| - 1], key, value)
  {
    var most := entries[..|entries| - 1];
    if i: nat :| i < |entries| && LastEntry(entries, i) && entries[i] == Entry(key, value) {
      LastEntryOfMore(entries, i);
      assert most[i] == entries[i];
    }
    if i: nat :| i < |most| && LastEntry(most, i) && most[i] == Entry(key, value) {
      LastEntryOfMore(entries, i);
      assert entries[i] == most[i];
    }
  }

  lemma LastEntryOfMore(entries: seq<Entry>, i: nat)
    requires i + 1 < |entries| && entries[i].key != entries[|entries| - 1].key
    ensures LastEntry(entries[..|entries| - 1], i) <==> LastEntry(entries, i)
  {
    var most := entries[..|entries| - 1];
    assert forall j | i < j < |most| :: most[j].key == entries[j].key;
  }

  /** The keys in the order a `BTreeMap` iterates them. */
  function SortedKeys(entries: seq<Entry>): (keys: seq<string>)
  {
    if entries == [] then []
    else InsertKey(SortedKeys(entries[..|entries| - 1]), entries[|entries| - 1].key)
  }

  lemma {:induction false} SortedKeysOf(entries: seq<Entry>)
    ensures Sorted(SortedKeys(entries))
    ensures forall key :: key in SortedKeys(entries) <==> key in Collect(entries)
  {
    if entries != [] {
      var most := entries[..|entries| - 1];
      SortedKeysOf(most);
      InsertKeySorts(SortedKeys(most), entries[|entries| - 1].key);
    }
  }

  function Member(v: Value, key: string): (value: Value)
    requires v.Object? && key in Collect(v.entries)
    ensures value < v
  {
    var value := Collect(v.entries)[key];
    assert exists e | e in v.entries :: e.value == value;
    value
  }

  // ----- Meanings

  datatype Canon =
    | CNull
    | CBool(b: bool)
    | CInt(n: int)
    | CStr(text: string)
    | CArray(items: seq<Canon>)
    | CObject(members: seq<CMember>)

  datatype CMember = CMember(key: string, value: Canon)

  /** What the encoder writes down, or `None` when some number is not a safe integer. */
  function Normalize(v: Value): Option<Canon>
    decreases v, 1, 0
  {
    match v
    case Null => Some(CNull)
    case Bool(b) => Some(CBool(b))
    case Num(number) => (match SafeInteger(number) case Some(n) => Some(CInt(n)) case None => None)
    case Str(text) => Some(CStr(text))
    case Array(items) =>
      (match NormalizeItems(v, items) case Some(cs) => Some(CArray(cs)) case None => None)
    case Object(entries) =>
      SortedKeysOf(entries);
      (match NormalizeMembers(v, SortedKeys(entries)) case Some(ms) => Some(CObject(ms)) case None => None)
  }

  ghost predicate ItemsOf(v: Value, items: seq<Value>) {
    v.Array? && forall item | item in items :: item in v.items
  }

  ghost predicate KeysOf(v: Value, keys: seq<string>) {
    v.Object? && forall key | key in keys :: key in Collect(v.entries)
  }

  function NormalizeItems(ghost v: Value, items: seq<Value>): (r: Option<seq<Canon>>)
    requires ItemsOf(v, items)
    ensures r.Some? ==> |r.value| == |items|
    decreases v, 0, |items|
  {
    if items == [] then Some([])
    else
      assert items[0] in v.items;
      match Normalize(items[0])
      case None => None
      case Some(c) =>
        match NormalizeItems(v, items[1..])
        case None => None
        case Some(cs) => Some([c] + cs)
  }

  function NormalizeMembers(v: Value, keys: seq<string>): (r: Option<seq<CMember>>)
    requires KeysOf(v, keys)
    ensures r.Some? ==> |r.value| == |keys|
    decreases v, 0, |keys|
  {
    if keys == [] then Some([])
    else
      assert keys[0] in Collect(v.entries);
      match Normalize(Member(v, keys[0]))
      case None => None
      case Some(c) =>
        match NormalizeMembers(v, keys[1..])
        case None => None
        case Some(ms) => Some([CMember(keys[0], c)] + ms)
  }

  // ----- Text

  function HexDigit(d: nat): (c: char)
    requires d < 16
  {
    if d < 10 then ('0' as int + d) as char else ('a' as int + (d - 10)) as char
  }

  /** `"` and `\` take a backslash, control characters the form `\u00xx`, anything else stands for itself. */
  function EscapeChar(c: char): (s: string)
    ensures s != "" && s[0] != '"'
  {
    if c == '"' then "\\\""
    else if c == '\\' then "\\\\"
    else if c as int < 0x20 then ['\\', 'u', '0', '0', HexDigit(c as int / 16), HexDigit(c as int % 16)]
    else [c]
  }

  function EscapeAll(text: string): string {
    if text == "" then "" else EscapeChar(text[0]) + EscapeAll(text[1..])
  }

  function RenderString(text: string): string {
    "\"" + (EscapeAll(text) + "\"")
  }

  function RenderInt(n: int): string {
    if n < 0 then "-" + Print(-n) else Print(n)
  }

  function Render(c: Canon): string
    decreases c, 1, 0
  {
    match c
    case CNull => "null"
    case CBool(b) => if b then "true" else "false"
    case CInt(n) => RenderInt(n)
    case CStr(text) => RenderString(text)
    case CArray(items) => "[" + RenderItems(c, items, true)
    case CObject(members) => "{" + RenderMembers(c, members, true)
  }

  ghost predicate CItemsOf(c: Canon, items: seq<Canon>) {
    c.CArray? && forall item | item in items :: item in c.items
  }

  ghost predicate CMembersOf(c: Canon, members: seq<CMember>) {
    c.CObject? && forall member | member in members :: member in c.members
  }

  function Comma(first: bool): string {
    if first then "" else ","
  }

  /** The items with their separators and the closing bracket. */
  function RenderItems(ghost c: Canon, items: seq<Canon>, first: bool): (s: string)
    requires CItemsOf(c, items)
    ensures s != "" && (first || s[0] == ',' || s[0] == ']')
    decreases c, 0, |items|
  {
    if items == [] then "]"
    else
      assert items[0] in c.items;
      Comma(first) + (Render(items[0]) + RenderItems(c, items[1..], false))
  }

  function RenderMembers(ghost c: Canon, members: seq<CMember>, first: bool): (s: string)
    requires CMembersOf(c, members)
    ensures s != "" && (first || s[0] == ',' || s[0] == '}')
    decreases c, 0, |members|
  {
    if members == [] then "}"
    else
      assert members[0] in c.members;
      Comma(first)
      + (RenderString(members[0].key) + (":" + (Render(members[0].value) + RenderMembers(c, members[1..], false))))
  }
}
