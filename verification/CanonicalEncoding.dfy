/**
  The canonical encoder and why its output is unambiguous: the text determines the meaning, the
  meaning determines the text, and a protocol line in front of it keeps protocols apart.
 */
module CanonicalEncoding {
  import opened Arithmetic
  import opened Outcomes
  import opened Decimals
  import opened CanonicalJson
  import opened JsonReading

  // ----- Text determines meaning

  function Kind(c: Canon): nat {
    match c
    case CNull => 0
    case CBool(b) => if b then 1 else 2
    case CInt(_) => 3
    case CStr(_) => 4
    case CArray(_) => 5
    case CObject(_) => 6
  }

  function KindOfChar(c: char): nat {
    if c == 'n' then 0
    else if c == 't' then 1
    else if c == 'f' then 2
    else if c == '-' || IsDigit(c) then 3
    else if c == '"' then 4
    else if c == '[' then 5
    else if c == '{' then 6
    else 7
  }

  /** The first character of a text tells what kind of value it renders. */
  lemma RenderStarts(c: Canon)
    ensures Render(c) != "" && KindOfChar(Render(c)[0]) == Kind(c)
  {
  }

  // Facts about strings that the proofs below apply to texts they do not look into.

  lemma SameFirst(x: string, y: string, rest: string, rest': string)
    requires x != "" && y != "" && x + rest == y + rest'
    ensures x[0] == y[0]
  {
    assert (x + rest)[0] == x[0] && (y + rest')[0] == y[0];
  }

  lemma DropHead(head: string, x: string, y: string, rest: string, rest': string)
    requires (head + x) + rest == (head + y) + rest'
    ensures x + rest == y + rest'
  {
    assert x + rest == ((head + x) + rest)[|head|..];
    assert y + rest' == ((head + y) + rest')[|head|..];
  }

  lemma DropSame(head: string, rest: string, rest': string)
    requires head + rest == head + rest'
    ensures rest == rest'
  {
    assert rest == (head + rest)[|head|..] && rest' == (head + rest')[|head|..];
  }

  lemma Regroup(x: string, y: string, rest: string)
    ensures (x + y) + rest == x + (y + rest)
  {
  }

  // ----- One character, one string, one number

  lemma EscapeEnds(a: char, b: char, rest: string, rest': string)
    requires EscapeChar(a) + rest == EscapeChar(b) + rest'
    ensures a == b && rest == rest'
  {
    var x, y := EscapeChar(a), EscapeChar(b);
    var all := x + rest;
    assert all[0] == x[0] == y[0];
    if x[0] == '\\' {
      assert all[1] == x[1] == y[1];
      if x[1] == 'u' {
        assert all[4] == x[4] == y[4];
        assert all[5] == x[5] == y[5];
        HexPairs(a as int, b as int);
      }
    }
    assert |x| == |y|;
    assert rest == all[|x|..] == rest';
  }

  lemma HexPairs(a: nat, b: nat)
    requires a < 0x20 && b < 0x20
    requires HexDigit(a / 16) == HexDigit(b / 16) && HexDigit(a % 16) == HexDigit(b % 16)
    ensures a == b
  {
  }

  /** The characters of a string up to and including its closing quote. */
  function Closed(text: string): (s: string)
    ensures s != "" && (s[0] == '"' <==> text == "")
  {
    EscapeAll(text) + "\""
  }

  lemma ClosedTurns(text: string)
    requires text != ""
    ensures Closed(text) == EscapeChar(text[0]) + Closed(text[1..])
  {
    Regroup(EscapeChar(text[0]), EscapeAll(text[1..]), "\"");
  }

  lemma {:induction false} ClosedEnds(a: string, b: string, rest: string, rest': string)
    requires Closed(a) + rest == Closed(b) + rest'
    ensures a == b && rest == rest'
  {
    SameFirst(Closed(a), Closed(b), rest, rest');
    if a == "" {
      assert Closed(a) == "\"" == Closed(b);
      DropSame("\"", rest, rest');
    } else {
      var moreA, moreB := Closed(a[1..]), Closed(b[1..]);
      ClosedTurns(a);
      ClosedTurns(b);
      Regroup(EscapeChar(a[0]), moreA, rest);
      Regroup(EscapeChar(b[0]), moreB, rest');
      EscapeEnds(a[0], b[0], moreA + rest, moreB + rest');
      ClosedEnds(a[1..], b[1..], rest, rest');
      assert a == [a[0]] + a[1..] && b == [b[0]] + b[1..];
    }
  }

  /** A rendered string ends at its closing quote, whatever the string and the text after it hold. */
  lemma StringEnds(a: string, b: string, rest: string, rest': string)
    requires RenderString(a) + rest == RenderString(b) + rest'
    ensures a == b && rest == rest'
  {
    DropHead("\"", Closed(a), Closed(b), rest, rest');
    ClosedEnds(a, b, rest, rest');
  }

  lemma SignedIsNotDigit(m: int)
    ensures RenderInt(m) != "" && (RenderInt(m)[0] == '-' <==> m < 0)
  {
  }

  lemma IntEnds(m: int, n: int, rest: string, rest': string)
    requires StopsDigits(rest) && StopsDigits(rest')
    requires RenderInt(m) + rest == RenderInt(n) + rest'
    ensures m == n && rest == rest'
  {
    SignedIsNotDigit(m);
    SignedIsNotDigit(n);
    SameFirst(RenderInt(m), RenderInt(n), rest, rest');
    if m < 0 {
      DropHead("-", Print(-m), Print(-n), rest, rest');
      PrintedNumbersEnd(-m, -n, rest, rest');
    } else {
      PrintedNumbersEnd(m, n, rest, rest');
    }
  }

  // ----- Any value

  /** No rendered value is a proper prefix of another, digits after a number aside. */
  lemma {:induction false} ValueEnds(c: Canon, d: Canon, rest: string, rest': string)
    requires StopsDigits(rest) && StopsDigits(rest')
    requires Render(c) + rest == Render(d) + rest'
    ensures c == d && rest == rest'
    decreases c, 1, 0
  {
    RenderStarts(c);
    RenderStarts(d);
    SameFirst(Render(c), Render(d), rest, rest');
    match c
    case CNull => DropSame("null", rest, rest');
    case CBool(b) => DropSame(Render(c), rest, rest');
    case CInt(n) => IntEnds(n, d.n, rest, rest');
    case CStr(text) => StringEnds(text, d.text, rest, rest');
    case CArray(items) =>
      DropHead("[", RenderItems(c, items, true), RenderItems(d, d.items, true), rest, rest');
      ItemsEnd(c, items, d, d.items, true, rest, rest');
    case CObject(members) =>
      DropHead("{", RenderMembers(c, members, true), RenderMembers(d, d.members, true), rest, rest');
      MembersEnd(c, members, d, d.members, true, rest, rest');
  }

  /** The first character of the items tells whether there are any. */
  lemma ItemsStart(c: Canon, xs: seq<Canon>, first: bool)
    requires CItemsOf(c, xs)
    ensures RenderItems(c, xs, first)[0] == ']' <==> xs == []
  {
    if xs != [] {
      RenderStarts(xs[0]);
      assert RenderItems(c, xs, first)[0] == if first then Render(xs[0])[0] else ',';
    }
  }

  lemma {:induction false} ItemsEnd(
    c: Canon, xs: seq<Canon>, d: Canon, ys: seq<Canon>, first: bool, rest: string, rest': string)
    requires CItemsOf(c, xs) && CItemsOf(d, ys)
    requires RenderItems(c, xs, first) + rest == RenderItems(d, ys, first) + rest'
    ensures xs == ys && rest == rest'
    decreases c, 0, |xs|
  {
    ItemsStart(c, xs, first);
    ItemsStart(d, ys, first);
    SameFirst(RenderItems(c, xs, first), RenderItems(d, ys, first), rest, rest');
    if xs == [] {
      DropSame("]", rest, rest');
    } else {
      var valueX, valueY := Render(xs[0]), Render(ys[0]);
      var moreX, moreY := RenderItems(c, xs[1..], false), RenderItems(d, ys[1..], false);
      DropHead(Comma(first), valueX + moreX, valueY + moreY, rest, rest');
      Regroup(valueX, moreX, rest);
      Regroup(valueY, moreY, rest');
      assert xs[0] in c.items;
      ValueEnds(xs[0], ys[0], moreX + rest, moreY + rest');
      ItemsEnd(c, xs[1..], d, ys[1..], false, rest, rest');
      assert xs == [xs[0]] + xs[1..] && ys == [ys[0]] + ys[1..];
    }
  }

  lemma MembersStart(c: Canon, xs: seq<CMember>, first: bool)
    requires CMembersOf(c, xs)
    ensures RenderMembers(c, xs, first)[0] == '}' <==> xs == []
  {
    if xs != [] {
      assert RenderMembers(c, xs, first)[0] == if first then '"' else ',';
    }
  }

  lemma MemberTurns(comma: string, key: string, value: string, more: string, rest: string)
    ensures (comma + (key + (":" + (value + more)))) + rest == comma + (key + (":" + (value + (more + rest))))
  {
  }

  lemma {:induction false} MembersEnd(
    c: Canon, xs: seq<CMember>, d: Canon, ys: seq<CMember>, first: bool, rest: string, rest': string)
    requires CMembersOf(c, xs) && CMembersOf(d, ys)
    requires RenderMembers(c, xs, first) + rest == RenderMembers(d, ys, first) + rest'
    ensures xs == ys && rest == rest'
    decreases c, 0, |xs|
  {
    MembersStart(c, xs, first);
    MembersStart(d, ys, first);
    SameFirst(RenderMembers(c, xs, first), RenderMembers(d, ys, first), rest, rest');
    if xs == [] {
      DropSame("}", rest, rest');
    } else {
      var moreX, moreY := RenderMembers(c, xs[1..], false), RenderMembers(d, ys[1..], false);
      var x, y := xs[0], ys[0];
      MemberTurns(Comma(first), RenderString(x.key), Render(x.value), moreX, rest);
      MemberTurns(Comma(first), RenderString(y.key), Render(y.value), moreY, rest');
      var afterX, afterY := ":" + (Render(x.value) + (moreX + rest)), ":" + (Render(y.value) + (moreY + rest'));
      DropSame(Comma(first), RenderString(x.key) + afterX, RenderString(y.key) + afterY);
      StringEnds(x.key, y.key, afterX, afterY);
      DropSame(":", Render(x.value) + (moreX + rest), Render(y.value) + (moreY + rest'));
      assert x in c.members;
      ValueEnds(x.value, y.value, moreX + rest, moreY + rest');
      MembersEnd(c, xs[1..], d, ys[1..], false, rest, rest');
      assert xs == [x] + xs[1..] && ys == [y] + ys[1..];
    }
  }

  // ----- Meaning, without reference to the encoder

  /**
    Two values mean the same: equal leaves, the same safe integer, the same items in order, and for
    objects the same keys with members that mean the same, however the entries are ordered.
   */
  ghost predicate Same(v: Value, w: Value)
    decreases v
  {
    match v
    case Null => w.Null?
    case Bool(b) => w == Bool(b)
    case Num(number) => w.Num? && SafeInteger(number) == SafeInteger(w.number)
    case Str(text) => w == Str(text)
    case Array(items) =>
      && w.Array? && |items| == |w.items|
      && forall i | 0 <= i < |items| :: Same(items[i], w.items[i])
    case Object(entries) =>
      && w.Object?
      && (forall key :: key in Collect(entries) <==> key in Collect(w.entries))
      && forall key | key in Collect(entries) :: Same(Member(v, key), Member(w, key))
  }

  /** The number a JSON number is. */
  function NumberValue(number: Number): real {
    match number
    case PosInt(u) => u as real
    case NegInt(i) => i as real
    case Float(r) => r
  }

  predicate IsSafeInteger(number: Number) {
    var r := NumberValue(number);
    r.Floor as real == r && -MAX_SAFE_INTEGER as real <= r <= MAX_SAFE_INTEGER as real
  }

  /** `number_as_safe_integer` finds a number's value exactly when it is a safe integer. */
  lemma SafeIntegerIsValue(number: Number)
    ensures SafeInteger(number).Some? <==> IsSafeInteger(number)
    ensures SafeInteger(number).Some? ==> SafeInteger(number).value as real == NumberValue(number)
  {
  }

  /** Every number among a value's items and members is a safe integer. */
  ghost predicate AllSafe(v: Value)
    decreases v
  {
    match v
    case Num(number) => IsSafeInteger(number)
    case Array(items) => forall i | 0 <= i < |items| :: AllSafe(items[i])
    case Object(entries) => forall key | key in Collect(entries) :: AllSafe(Member(v, key))
    case _ => true
  }

  /** The encoder succeeds exactly on values all of whose numbers are safe integers. */
  lemma {:induction false} NormalizesWhenSafe(v: Value)
    ensures Normalize(v).Some? <==> AllSafe(v)
    decreases v, 1, 0
  {
    match v
    case Num(number) => SafeIntegerIsValue(number);
    case Array(items) => ItemsNormalizeWhenSafe(v, items);
    case Object(entries) =>
      SortedKeysOf(entries);
      MembersNormalizeWhenSafe(v, SortedKeys(entries));
    case _ =>
  }

  lemma {:induction false} ItemsNormalizeWhenSafe(v: Value, items: seq<Value>)
    requires ItemsOf(v, items)
    ensures NormalizeItems(v, items).Some? <==> forall i | 0 <= i < |items| :: AllSafe(items[i])
    decreases v, 0, |items|
  {
    if items != [] {
      assert items[0] in v.items;
      NormalizesWhenSafe(items[0]);
      ItemsNormalizeWhenSafe(v, items[1..]);
      assert items == [items[0]] + items[1..];
    }
  }

  lemma {:induction false} MembersNormalizeWhenSafe(v: Value, keys: seq<string>)
    requires KeysOf(v, keys)
    ensures NormalizeMembers(v, keys).Some? <==> forall key | key in keys :: AllSafe(Member(v, key))
    decreases v, 0, |keys|
  {
    if keys != [] {
      assert keys[0] in Collect(v.entries);
      NormalizesWhenSafe(Member(v, keys[0]));
      MembersNormalizeWhenSafe(v, keys[1..]);
      MembersSafeTurn(v, keys);
    }
  }

  lemma MembersSafeTurn(v: Value, keys: seq<string>)
    requires v.Object? && keys != [] && forall key | key in keys :: key in Collect(v.entries)
    ensures (forall key | key in keys :: AllSafe(Member(v, key)))
       <==> AllSafe(Member(v, keys[0])) && forall key | key in keys[1..] :: AllSafe(Member(v, key))
  {
    assert keys == [keys[0]] + keys[1..];
  }

  lemma {:induction false} NormalizedItem(v: Value, items: seq<Value>, i: nat)
    requires ItemsOf(v, items) && NormalizeItems(v, items).Some? && i < |items|
    ensures Normalize(items[i]) == Some(NormalizeItems(v, items).value[i])
  {
    if i > 0 {
      NormalizedItem(v, items[1..], i - 1);
    }
  }

  lemma {:induction false} NormalizedMember(v: Value, keys: seq<string>, i: nat)
    requires KeysOf(v, keys) && NormalizeMembers(v, keys).Some? && i < |keys|
    ensures NormalizeMembers(v, keys).value[i].key == keys[i]
    ensures keys[i] in Collect(v.entries)
    ensures Normalize(Member(v, keys[i])) == Some(NormalizeMembers(v, keys).value[i].value)
  {
    if i > 0 {
      NormalizedMember(v, keys[1..], i - 1);
    }
  }

  lemma {:induction false} NormalizeIsMeaning(v: Value, w: Value)
    requires Normalize(v).Some? && Normalize(w).Some?
    ensures Normalize(v) == Normalize(w) <==> Same(v, w)
    decreases v
  {
    if v.Array? && w.Array? {
      ItemsMeaning(v, w);
    } else if v.Object? && w.Object? {
      MembersMeaning(v, w);
    }
  }

  lemma {:induction false} ItemsMeaning(v: Value, w: Value)
    requires v.Array? && w.Array? && Normalize(v).Some? && Normalize(w).Some?
    ensures Normalize(v) == Normalize(w) <==> Same(v, w)
    decreases v, 0
  {
    var cs, ds := NormalizeItems(v, v.items).value, NormalizeItems(w, w.items).value;
    if |v.items| == |w.items| {
      forall i | 0 <= i < |v.items|
        ensures cs[i] == ds[i] <==> Same(v.items[i], w.items[i])
      {
        NormalizedItem(v, v.items, i);
        NormalizedItem(w, w.items, i);
        NormalizeIsMeaning(v.items[i], w.items[i]);
      }
      assert cs == ds <==> forall i | 0 <= i < |cs| :: cs[i] == ds[i];
    }
  }

  lemma {:induction false} MembersMeaning(v: Value, w: Value)
    requires v.Object? && w.Object? && Normalize(v).Some? && Normalize(w).Some?
    ensures Normalize(v) == Normalize(w) <==> Same(v, w)
    decreases v, 0
  {
    var keys, keys' := SortedKeys(v.entries), SortedKeys(w.entries);
    SortedKeysOf(v.entries);
    SortedKeysOf(w.entries);
    var ms, ns := NormalizeMembers(v, keys).value, NormalizeMembers(w, keys').value;
    if ms == ns {
      forall i | 0 <= i < |keys|
        ensures keys[i] == keys'[i]
      {
        NormalizedMember(v, keys, i);
        NormalizedMember(w, keys', i);
      }
      assert keys == keys';
    }
    if keys == keys' {
      forall i | 0 <= i < |keys|
        ensures ms[i] == ns[i] <==> SameAt(v, w, keys[i])
      {
        NormalizedMember(v, keys, i);
        NormalizedMember(w, keys', i);
        NormalizeIsMeaning(Member(v, keys[i]), Member(w, keys[i]));
      }
      assert ms == ns <==> forall i | 0 <= i < |keys| :: SameAt(v, w, keys[i]);
      KeyByKey(v, w, keys);
    } else {
      DifferentKeys(v, w);
    }
  }

  ghost predicate SameAt(v: Value, w: Value, key: string)
    requires v.Object? && w.Object?
  {
    key in Collect(v.entries) && key in Collect(w.entries) && Same(Member(v, key), Member(w, key))
  }

  lemma KeyByKey(v: Value, w: Value, keys: seq<string>)
    requires v.Object? && w.Object?
    requires forall key :: key in keys <==> key in Collect(v.entries)
    requires forall key :: key in keys <==> key in Collect(w.entries)
    ensures Same(v, w) <==> forall i | 0 <= i < |keys| :: SameAt(v, w, keys[i])
  {
    if forall i | 0 <= i < |keys| :: SameAt(v, w, keys[i]) {
      forall key | key in Collect(v.entries)
        ensures Same(Member(v, key), Member(w, key))
      {
        var i :| 0 <= i < |keys| && keys[i] == key;
        assert SameAt(v, w, keys[i]);
      }
    }
  }

  lemma DifferentKeys(v: Value, w: Value)
    requires v.Object? && w.Object?
    requires SortedKeys(v.entries) != SortedKeys(w.entries)
    ensures !Same(v, w)
  {
    SortedKeysOf(v.entries);
    SortedKeysOf(w.entries);
    if Same(v, w) {
      SortedIsUnique(SortedKeys(v.entries), SortedKeys(w.entries));
    }
  }

  // ----- What a text has to say

  /** In every object the members stand in the code-point order of their keys. */
  ghost predicate Ordered(c: Canon) {
    match c
    case CArray(items) => forall i | 0 <= i < |items| :: Ordered(items[i])
    case CObject(members) =>
      && (forall i, j | 0 <= i < j < |members| :: Before(members[i].key, members[j].key))
      && (forall i | 0 <= i < |members| :: Ordered(members[i].value))
    case _ => true
  }

  /**
    What is read from a text says what the value holds: the same leaves, a number's own value, the
    items in order, and one member for each key, with the value entered last under it.
   */
  ghost predicate Means(c: Canon, v: Value)
    decreases c
  {
    match c
    case CNull => v.Null?
    case CBool(b) => v == Bool(b)
    case CInt(n) => v.Num? && NumberValue(v.number) == n as real
    case CStr(text) => v == Str(text)
    case CArray(items) =>
      && v.Array? && |items| == |v.items|
      && forall i | 0 <= i < |items| :: Means(items[i], v.items[i])
    case CObject(members) =>
      && v.Object?
      && (forall key | key in Collect(v.entries) :: exists i | 0 <= i < |members| :: members[i].key == key)
      && (forall i | 0 <= i < |members| ::
            members[i].key in Collect(v.entries) && Means(members[i].value, Member(v, members[i].key)))
  }

  /** A text is right for a value: read as JSON it says what the value holds, in order, and nothing else. */
  ghost predicate Writes(text: string, v: Value) {
    exists c | ReadValue(text) == Some((c, "")) :: Means(c, v) && Ordered(c)
  }

  lemma {:induction false} NormalizeMeans(v: Value)
    requires Normalize(v).Some?
    ensures Means(Normalize(v).value, v) && Ordered(Normalize(v).value)
    decreases v, 1
  {
    match v
    case Num(number) => SafeIntegerIsValue(number);
    case Array(items) => ItemsMean(v);
    case Object(entries) => MembersMean(v);
    case _ =>
  }

  lemma {:induction false} ItemsMean(v: Value)
    requires v.Array? && Normalize(v).Some?
    ensures Means(Normalize(v).value, v) && Ordered(Normalize(v).value)
    decreases v, 0
  {
    var cs := NormalizeItems(v, v.items).value;
    forall i | 0 <= i < |v.items|
      ensures Means(cs[i], v.items[i]) && Ordered(cs[i])
    {
      NormalizedItem(v, v.items, i);
      NormalizeMeans(v.items[i]);
    }
  }

  lemma {:induction false} MembersMean(v: Value)
    requires v.Object? && Normalize(v).Some?
    ensures Means(Normalize(v).value, v) && Ordered(Normalize(v).value)
    decreases v, 0
  {
    var keys := SortedKeys(v.entries);
    SortedKeysOf(v.entries);
    var ms := NormalizeMembers(v, keys).value;
    forall i | 0 <= i < |keys|
      ensures ms[i].key == keys[i] && keys[i] in Collect(v.entries)
      ensures Means(ms[i].value, Member(v, keys[i])) && Ordered(ms[i].value)
    {
      NormalizedMember(v, keys, i);
      NormalizeMeans(Member(v, keys[i]));
    }
    MembersInOrder(v, keys, ms);
  }

  lemma MembersInOrder(v: Value, keys: seq<string>, ms: seq<CMember>)
    requires v.Object? && Sorted(keys) && |ms| == |keys|
    requires forall key :: key in keys <==> key in Collect(v.entries)
    requires forall i | 0 <= i < |keys| ::
               ms[i].key == keys[i] && Means(ms[i].value, Member(v, keys[i])) && Ordered(ms[i].value)
    ensures Means(CObject(ms), v) && Ordered(CObject(ms))
  {
    forall i, j | 0 <= i < j < |ms|
      ensures Before(ms[i].key, ms[j].key)
    {
      LessIsBefore(keys[i], keys[j]);
    }
    forall key | key in Collect(v.entries)
      ensures exists i | 0 <= i < |ms| :: ms[i].key == key
    {
      var i :| 0 <= i < |keys| && keys[i] == key;
      assert ms[i].key == key;
    }
  }

  /** What the encoder has to write is right for the value. */
  lemma RenderingWrites(v: Value)
    requires Normalize(v).Some?
    ensures Writes(Render(Normalize(v).value), v)
  {
    var c := Normalize(v).value;
    NormalizeMeans(v);
    ReadsValue(c, "");
    assert Render(c) + "" == Render(c);
  }

  // ----- The encoder

  /** `canonical_json_encode`. */
  function Encode(v: Value): Option<string> {
    match Normalize(v)
    case None => None
    case Some(c) => Some(Render(c))
  }

  /** The canonical text and the meaning determine each other. */
  lemma EncodingIsInjective(v: Value, w: Value)
    requires Encode(v).Some? && Encode(w).Some?
    ensures Encode(v) == Encode(w) <==> Same(v, w)
  {
    NormalizeIsMeaning(v, w);
    if Encode(v) == Encode(w) {
      var c, d := Normalize(v).value, Normalize(w).value;
      assert Render(c) + "" == Render(c) == Render(d) + "";
      ValueEnds(c, d, "", "");
    }
  }

  /** What `protocol_digest` hashes. */
  function Preimage(protocol: string, v: Value): Option<string> {
    match Encode(v)
    case None => None
    case Some(canonical) => Some(protocol + ("\n" + canonical))
  }

  predicate OneLine(text: string) {
    forall k | 0 <= k < |text| :: text[k] != '\n'
  }

  lemma FirstLineEnds(p: string, q: string, rest: string, rest': string)
    requires OneLine(p) && OneLine(q)
    requires p + ("\n" + rest) == q + ("\n" + rest')
    ensures p == q && rest == rest'
  {
    var all := p + ("\n" + rest);
    assert all[|p|] == '\n' && all[|q|] == '\n';
    assert forall k | 0 <= k < |p| :: all[k] == p[k];
    assert forall k | 0 <= k < |q| :: all[k] == q[k];
    assert |p| == |q|;
    assert p == all[..|p|] == q;
    DropSame(p + "\n", rest, rest') by {
      Regroup(p, "\n", rest);
      Regroup(p, "\n", rest');
    }
  }

  /** Preimages of one-line protocols collide only when the protocol and the meaning agree. */
  lemma PreimagesSeparateProtocols(p: string, q: string, v: Value, w: Value)
    requires OneLine(p) && OneLine(q)
    requires Preimage(p, v).Some? && Preimage(q, w).Some?
    ensures Preimage(p, v) == Preimage(q, w) <==> p == q && Same(v, w)
  {
    EncodingIsInjective(v, w);
    if Preimage(p, v) == Preimage(q, w) {
      FirstLineEnds(p, q, Encode(v).value, Encode(w).value);
    }
  }

  /** `encode_canonical_string`. */
  method EncodeString(before: string, text: string) returns (out: string)
    ensures out == before + RenderString(text)
  {
    out := before + "\"";
    ghost var goal := before + RenderString(text);
    for k := 0 to |text|
      invariant out + Closed(text[k..]) == goal
    {
      ClosedTurns(text[k..]);
      assert text[k..][1..] == text[k + 1..];
      Regroup(out, EscapeChar(text[k]), Closed(text[k + 1..]));
      out := out + EscapeChar(text[k]);
    }
    assert text[|text|..] == "";
    out := out + "\"";
  }

  /** The first `index` items are in `out`; the rest of the array's text is still to come. */
  ghost predicate ItemsWritten(v: Value, before: string, index: nat, out: string)
    requires v.Array? && index <= |v.items|
  {
    var all := NormalizeItems(v, v.items);
    && (all.Some? <==> NormalizeItems(v, v.items[index..]).Some?)
    && (all.Some? ==>
          var c := CArray(all.value);
          out + RenderItems(c, all.value[index..], index == 0) == before + Render(c))
  }

  ghost predicate MembersWritten(v: Value, keys: seq<string>, before: string, index: nat, out: string)
    requires KeysOf(v, keys) && index <= |keys|
  {
    var all := NormalizeMembers(v, keys);
    && (all.Some? <==> NormalizeMembers(v, keys[index..]).Some?)
    && (all.Some? ==>
          var c := CObject(all.value);
          out + RenderMembers(c, all.value[index..], index == 0) == before + Render(c))
  }

  lemma ItemTurns(v: Value, before: string, index: nat, out: string)
    requires v.Array? && index < |v.items| && ItemsWritten(v, before, index, out)
    ensures
      match Normalize(v.items[index])
      case None => Normalize(v).None?
      case Some(c) => ItemsWritten(v, before, index + 1, out + Comma(index == 0) + Render(c))
  {
    var rest := v.items[index..];
    assert rest[0] == v.items[index] && rest[1..] == v.items[index + 1..];
    var all := NormalizeItems(v, v.items);
    if all.Some? {
      NormalizedItem(v, v.items, index);
      var c, more := CArray(all.value), all.value[index..];
      assert more[0] == all.value[index] && more[1..] == all.value[index + 1..];
      Pieces(out, Comma(index == 0), Render(more[0]), RenderItems(c, more[1..], false));
    }
  }

  lemma MemberTurnsOut(v: Value, keys: seq<string>, before: string, index: nat, out: string)
    requires KeysOf(v, keys) && index < |keys| && MembersWritten(v, keys, before, index, out)
    ensures keys[index] in Collect(v.entries)
    ensures
      match Normalize(Member(v, keys[index]))
      case None => NormalizeMembers(v, keys).None?
      case Some(c) =>
        MembersWritten(v, keys, before, index + 1,
                       out + Comma(index == 0) + RenderString(keys[index]) + ":" + Render(c))
  {
    var rest := keys[index..];
    assert rest[0] == keys[index] && rest[1..] == keys[index + 1..];
    var all := NormalizeMembers(v, keys);
    if all.Some? {
      NormalizedMember(v, keys, index);
      var c, more := CObject(all.value), all.value[index..];
      assert more[0] == all.value[index] && more[1..] == all.value[index + 1..];
      var tail := RenderMembers(c, more[1..], false);
      Pieces(out, Comma(index == 0), RenderString(more[0].key), ":" + (Render(more[0].value) + tail));
      Pieces(out + Comma(index == 0) + RenderString(more[0].key), ":", Render(more[0].value), tail);
    }
  }

  lemma ItemsOpen(v: Value, before: string)
    requires v.Array?
    ensures ItemsWritten(v, before, 0, before + "[")
  {
    assert v.items[0..] == v.items;
    if NormalizeItems(v, v.items).Some? {
      var cs := NormalizeItems(v, v.items).value;
      assert cs[0..] == cs;
      Regroup(before, "[", RenderItems(CArray(cs), cs, true));
    }
  }

  lemma ItemsClose(v: Value, before: string, out: string)
    requires v.Array? && ItemsWritten(v, before, |v.items|, out)
    ensures Normalize(v).Some? && out + "]" == before + Render(Normalize(v).value)
  {
  }

  lemma MembersOpen(v: Value, keys: seq<string>, before: string)
    requires KeysOf(v, keys)
    ensures MembersWritten(v, keys, before, 0, before + "{")
  {
    assert keys[0..] == keys;
    if NormalizeMembers(v, keys).Some? {
      var ms := NormalizeMembers(v, keys).value;
      assert ms[0..] == ms;
      Regroup(before, "{", RenderMembers(CObject(ms), ms, true));
    }
  }

  lemma MembersClose(v: Value, keys: seq<string>, before: string, out: string)
    requires KeysOf(v, keys) && keys == SortedKeys(v.entries) && MembersWritten(v, keys, before, |keys|, out)
    ensures Normalize(v).Some? && out + "}" == before + Render(Normalize(v).value)
  {
  }

  lemma Pieces(out: string, x: string, y: string, z: string)
    ensures out + (x + (y + z)) == out + x + y + z
  {
  }

  /** `encode_canonical_value`: appends the text of the value's meaning, or reports that it has none. */
  method EncodeValue(before: string, v: Value) returns (ok: bool, out: string)
    ensures ok <==> Normalize(v).Some?
    ensures ok <==> AllSafe(v)
    ensures ok ==> out == before + Render(Normalize(v).value)
    ensures ok ==> before <= out && Writes(out[|before|..], v)
    decreases v, 1
  {
    NormalizesWhenSafe(v);
    if Normalize(v).Some? {
      RenderingWrites(v);
      assert (before + Render(Normalize(v).value))[|before|..] == Render(Normalize(v).value);
    }
    match v
    case Null => return true, before + "null";
    case Bool(b) => return true, before + if b then "true" else "false";
    case Num(number) =>
      var integer := SafeInteger(number);
      if integer.None? {
        return false, before;
      }
      return true, before + RenderInt(integer.value);
    case Str(text) =>
      out := EncodeString(before, text);
      return true, out;
    case Array(_) =>
      ok, out := EncodeItems(before, v);
    case Object(_) =>
      ok, out := EncodeMembers(before, v);
  }

  method EncodeItem(ghost before: string, v: Value, index: nat, written: string) returns (ok: bool, out: string)
    requires v.Array? && index < |v.items| && ItemsWritten(v, before, index, written)
    ensures ok ==> ItemsWritten(v, before, index + 1, out)
    ensures !ok ==> Normalize(v).None?
    decreases v, 0, 0
  {
    ItemTurns(v, before, index, written);
    out := written;
    if index > 0 {
      out := out + ",";
    }
    ok, out := EncodeValue(out, v.items[index]);
    assert written + "" == written;
  }

  method EncodeItems(before: string, v: Value) returns (ok: bool, out: string)
    requires v.Array?
    ensures ok <==> Normalize(v).Some?
    ensures ok ==> out == before + Render(Normalize(v).value)
    decreases v, 0, 1
  {
    out := before + "[";
    ItemsOpen(v, before);
    for index := 0 to |v.items|
      invariant ItemsWritten(v, before, index, out)
    {
      ok, out := EncodeItem(before, v, index, out);
      if !ok {
        return;
      }
    }
    ItemsClose(v, before, out);
    out := out + "]";
    ok := true;
  }

  method EncodeMember(ghost before: string, v: Value, keys: seq<string>, index: nat, written: string)
    returns (ok: bool, out: string)
    requires KeysOf(v, keys) && index < |keys| && MembersWritten(v, keys, before, index, written)
    ensures ok ==> MembersWritten(v, keys, before, index + 1, out)
    ensures !ok ==> NormalizeMembers(v, keys).None?
    decreases v, 0, 0
  {
    MemberTurnsOut(v, keys, before, index, written);
    out := written;
    if index > 0 {
      out := out + ",";
    }
    out := EncodeString(out, keys[index]);
    out := out + ":";
    ok, out := EncodeValue(out, Member(v, keys[index]));
    assert written + "" == written;
  }

  method EncodeMembers(before: string, v: Value) returns (ok: bool, out: string)
    requires v.Object?
    ensures ok <==> Normalize(v).Some?
    ensures ok ==> out == before + Render(Normalize(v).value)
    decreases v, 0, 1
  {
    SortedKeysOf(v.entries);
    var keys := SortedKeys(v.entries);
    out := before + "{";
    MembersOpen(v, keys, before);
    for index := 0 to |keys|
      invariant MembersWritten(v, keys, before, index, out)
    {
      ok, out := EncodeMember(before, v, keys, index, out);
      if !ok {
        return;
      }
    }
    MembersClose(v, keys, before, out);
    out := out + "}";
    ok := true;
  }
}
