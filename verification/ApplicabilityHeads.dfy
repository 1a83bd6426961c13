/**
  The applicability-heads digest: heads are sorted by stream key before they are encoded, and the
  sort is stable. Two head lists are hashed alike exactly when every stream sees the same sequence.
 */
module ApplicabilityHeads {
  import opened Arithmetic
  import opened Outcomes
  import opened CanonicalJson
  import opened CanonicalEncoding
  import opened JsonReading

  datatype Head = Head(streamKey: string, sequence: int)

  /** `json!` of an `i64`. */
  function IntNumber(n: int): Number {
    if n >= 0 then PosInt(n) else NegInt(n)
  }

  function HeadValue(head: Head): Value {
    Object([Entry("seq", Num(IntNumber(head.sequence))), Entry("streamKey", Str(head.streamKey))])
  }

  // ----- The stable sort

  function InsertFirst(head: Head, sorted: seq<Head>): seq<Head> {
    if sorted != [] && Less(sorted[0].streamKey, head.streamKey) then [sorted[0]] + InsertFirst(head, sorted[1..])
    else [head] + sorted
  }

  function StableSort(heads: seq<Head>): seq<Head> {
    if heads == [] then [] else InsertFirst(heads[0], StableSort(heads[1..]))
  }

  ghost predicate SortedByKey(heads: seq<Head>) {
    forall i, j | 0 <= i < j < |heads| :: !Less(heads[j].streamKey, heads[i].streamKey)
  }

  /** The sequence numbers of one stream, in the order the list gives them. */
  function Stream(heads: seq<Head>, key: string): seq<int> {
    if heads == [] then []
    else (if heads[0].streamKey == key then [heads[0].sequence] else []) + Stream(heads[1..], key)
  }

  lemma NotLessIsTransitive(a: string, b: string, c: string)
    requires !Less(b, a) && !Less(c, b)
    ensures !Less(c, a)
  {
    LessIsTotal(a, b);
    LessIsTotal(b, c);
    if Less(a, b) && Less(b, c) {
      LessIsTransitive(a, b, c);
    }
    LessIsTotal(a, c);
  }

  lemma {:induction false} InsertFirstSorts(head: Head, sorted: seq<Head>)
    requires SortedByKey(sorted)
    ensures SortedByKey(InsertFirst(head, sorted))
    ensures forall h | h in InsertFirst(head, sorted) :: h == head || h in sorted
  {
    if sorted != [] && Less(sorted[0].streamKey, head.streamKey) {
      var tail := InsertFirst(head, sorted[1..]);
      InsertFirstSorts(head, sorted[1..]);
      LessIsTotal(sorted[0].streamKey, head.streamKey);
      forall j | 0 <= j < |tail|
        ensures !Less(tail[j].streamKey, sorted[0].streamKey)
      {
        assert tail[j] in tail;
        if tail[j] != head {
          var i :| 0 <= i < |sorted[1..]| && sorted[1..][i] == tail[j];
          assert tail[j] == sorted[i + 1];
        }
      }
    } else if sorted != [] {
      forall j | 0 <= j < |sorted|
        ensures !Less(sorted[j].streamKey, head.streamKey)
      {
        if j > 0 {
          NotLessIsTransitive(head.streamKey, sorted[0].streamKey, sorted[j].streamKey);
        }
      }
    }
  }

  lemma {:induction false} StableSortIsSorted(heads: seq<Head>)
    ensures SortedByKey(StableSort(heads))
  {
    if heads != [] {
      StableSortIsSorted(heads[1..]);
      InsertFirstSorts(heads[0], StableSort(heads[1..]));
    }
  }

  /** Of two heads with different keys, the one whose key is first by code point comes first. */
  lemma StableSortSorts(heads: seq<Head>)
    ensures SortedByKey(StableSort(heads))
    ensures forall i, j | 0 <= i < |StableSort(heads)| && 0 <= j < |StableSort(heads)| ::
              Before(StableSort(heads)[i].streamKey, StableSort(heads)[j].streamKey) ==> i < j
  {
    var sorted := StableSort(heads);
    StableSortIsSorted(heads);
    forall i, j | 0 <= i < |sorted| && 0 <= j < |sorted| && Before(sorted[i].streamKey, sorted[j].streamKey)
      ensures i < j
    {
      LessIsBefore(sorted[i].streamKey, sorted[j].streamKey);
      LessIsTotal(sorted[i].streamKey, sorted[j].streamKey);
    }
  }

  lemma {:induction false} InsertFirstIsStable(head: Head, sorted: seq<Head>, key: string)
    ensures Stream(InsertFirst(head, sorted), key)
         == (if head.streamKey == key then [head.sequence] else []) + Stream(sorted, key)
  {
    var all := InsertFirst(head, sorted);
    if sorted != [] && Less(sorted[0].streamKey, head.streamKey) {
      LessIsTotal(sorted[0].streamKey, head.streamKey);
      InsertFirstIsStable(head, sorted[1..], key);
      assert all[1..] == InsertFirst(head, sorted[1..]);
      var x := if sorted[0].streamKey == key then [sorted[0].sequence] else [];
      var y := if head.streamKey == key then [head.sequence] else [];
      var z := Stream(sorted[1..], key);
      assert x + (y + z) == y + (x + z) by {
        assert x == [] || y == [];
      }
    } else {
      assert all[1..] == sorted;
    }
  }

  /** Sorting keeps each stream's own order. */
  lemma {:induction false} StableSortKeepsStreams(heads: seq<Head>, key: string)
    ensures Stream(StableSort(heads), key) == Stream(heads, key)
  {
    if heads != [] {
      StableSortKeepsStreams(heads[1..], key);
      InsertFirstIsStable(heads[0], StableSort(heads[1..]), key);
    }
  }

  lemma {:induction false} StreamHolds(heads: seq<Head>, key: string)
    ensures Stream(heads, key) != [] <==> exists i | 0 <= i < |heads| :: heads[i].streamKey == key
  {
    if heads != [] {
      StreamHolds(heads[1..], key);
      if i :| 0 <= i < |heads| && heads[i].streamKey == key {
        assert i == 0 || heads[1..][i - 1].streamKey == key;
      }
    }
  }

  ghost predicate SameStreams(a: seq<Head>, b: seq<Head>) {
    forall key :: Stream(a, key) == Stream(b, key)
  }

  lemma FirstIsLeast(a: seq<Head>, b: seq<Head>)
    requires SortedByKey(a) && SameStreams(a, b) && a != [] && b != []
    ensures !Less(b[0].streamKey, a[0].streamKey)
  {
    StreamHolds(b, b[0].streamKey);
    StreamHolds(a, b[0].streamKey);
    assert b[0].streamKey == b[0].streamKey;
    var i :| 0 <= i < |a| && a[i].streamKey == b[0].streamKey;
    LessIsTotal(a[0].streamKey, a[0].streamKey);
  }

  /** A sorted list is determined by its streams. */
  lemma {:induction false} SortedIsDetermined(a: seq<Head>, b: seq<Head>)
    requires SortedByKey(a) && SortedByKey(b) && SameStreams(a, b)
    ensures a == b
  {
    if a == [] || b == [] {
      SameEmptiness(a, b);
    } else {
      FirstIsLeast(a, b);
      FirstIsLeast(b, a);
      LessIsTotal(a[0].streamKey, b[0].streamKey);
      var key := a[0].streamKey;
      assert Stream(a, key)[0] == a[0].sequence && Stream(b, key)[0] == b[0].sequence;
      forall k
        ensures Stream(a[1..], k) == Stream(b[1..], k)
      {
        var skip := if k == key then 1 else 0;
        assert Stream(a[1..], k) == Stream(a, k)[skip..];
        assert Stream(b[1..], k) == Stream(b, k)[skip..];
      }
      SortedIsDetermined(a[1..], b[1..]);
      assert a == [a[0]] + a[1..] && b == [b[0]] + b[1..];
    }
  }

  lemma SameEmptiness(a: seq<Head>, b: seq<Head>)
    requires SameStreams(a, b)
    ensures a == [] <==> b == []
  {
    if a != [] {
      assert Stream(a, a[0].streamKey) == Stream(b, a[0].streamKey);
    }
    if b != [] {
      assert Stream(a, b[0].streamKey) == Stream(b, b[0].streamKey);
    }
  }

  // ----- The digest's preimage

  const APPLICABILITY_HEADS_DIGEST_PROTOCOL: string := "mc-claim-applicability-heads-v1"

  function HeadValues(heads: seq<Head>): (values: seq<Value>)
    ensures |values| == |heads| && forall i | 0 <= i < |heads| :: values[i] == HeadValue(heads[i])
  {
    seq(|heads|, i requires 0 <= i < |heads| => HeadValue(heads[i]))
  }

  /** What `compute_applicability_heads_digest` hashes. */
  function HeadsPreimage(heads: seq<Head>): Option<string> {
    Preimage(APPLICABILITY_HEADS_DIGEST_PROTOCOL, Array(HeadValues(StableSort(heads))))
  }

  predicate Safe(head: Head) {
    -MAX_SAFE_INTEGER <= head.sequence <= MAX_SAFE_INTEGER
  }

  lemma HeadMeaning(g: Head, h: Head)
    requires Safe(g) && Safe(h)
    ensures Same(HeadValue(g), HeadValue(h)) <==> g == h
  {
    HeadMembers(g);
    HeadMembers(h);
    SameLeaf(g, h);
    SameByTwo(HeadValue(g), HeadValue(h), "seq", "streamKey");
  }

  /** Two objects with the same two keys mean the same exactly when both members do. */
  lemma SameByTwo(v: Value, w: Value, a: string, b: string)
    requires v.Object? && (forall key :: key in Collect(v.entries) <==> key == a || key == b)
    requires w.Object? && (forall key :: key in Collect(w.entries) <==> key == a || key == b)
    ensures Same(v, w) <==> Same(Member(v, a), Member(w, a)) && Same(Member(v, b), Member(w, b))
  {
  }

  lemma HeadMembers(head: Head)
    ensures Collect(HeadValue(head).entries)
         == map["seq" := Num(IntNumber(head.sequence)), "streamKey" := Str(head.streamKey)]
    ensures forall key :: key in Collect(HeadValue(head).entries) <==> key == "seq" || key == "streamKey"
    ensures Member(HeadValue(head), "seq") == Num(IntNumber(head.sequence))
    ensures Member(HeadValue(head), "streamKey") == Str(head.streamKey)
  {
    var entries := HeadValue(head).entries;
    assert |"seq"| != |"streamKey"|;
    assert entries[..1] == [Entry("seq", Num(IntNumber(head.sequence)))];
    assert entries[..1][..0] == [];
    assert Collect(entries[..1]) == map["seq" := Num(IntNumber(head.sequence))];
  }

  lemma SameLeaf(g: Head, h: Head)
    requires Safe(g) && Safe(h)
    ensures Same(Num(IntNumber(g.sequence)), Num(IntNumber(h.sequence))) <==> g.sequence == h.sequence
    ensures Same(Str(g.streamKey), Str(h.streamKey)) <==> g.streamKey == h.streamKey
  {
  }

  lemma ListMeaning(a: seq<Head>, b: seq<Head>)
    requires forall head | head in a :: Safe(head)
    requires forall head | head in b :: Safe(head)
    ensures Same(Array(HeadValues(a)), Array(HeadValues(b))) <==> a == b
  {
    if |a| == |b| {
      forall i | 0 <= i < |a|
        ensures Same(HeadValues(a)[i], HeadValues(b)[i]) <==> a[i] == b[i]
      {
        HeadMeaning(a[i], b[i]);
      }
      assert a == b <==> forall i | 0 <= i < |a| :: a[i] == b[i];
    }
  }

  lemma {:induction false} InsertFirstHolds(head: Head, sorted: seq<Head>, h: Head)
    ensures h in InsertFirst(head, sorted) <==> h == head || h in sorted
  {
    if sorted != [] && Less(sorted[0].streamKey, head.streamKey) {
      InsertFirstHolds(head, sorted[1..], h);
      assert sorted == [sorted[0]] + sorted[1..];
    }
  }

  lemma {:induction false} SortKeepsHeads(heads: seq<Head>, h: Head)
    ensures h in StableSort(heads) <==> h in heads
  {
    if heads != [] {
      SortKeepsHeads(heads[1..], h);
      InsertFirstHolds(heads[0], StableSort(heads[1..]), h);
      assert heads == [heads[0]] + heads[1..];
    }
  }

  lemma HeadIsSafe(head: Head)
    ensures AllSafe(HeadValue(head)) <==> Safe(head)
  {
    HeadMembers(head);
    var v := HeadValue(head);
    assert AllSafe(v) <==> AllSafe(Member(v, "seq")) && AllSafe(Member(v, "streamKey"));
    NumberOf(head.sequence);
  }

  lemma NumberOf(n: int)
    ensures IsSafeInteger(IntNumber(n)) <==> -MAX_SAFE_INTEGER <= n <= MAX_SAFE_INTEGER
  {
    assert NumberValue(IntNumber(n)) == n as real;
  }

  /** The digest is computed exactly when every sequence number is a safe integer. */
  lemma HeadsHaveAPreimage(heads: seq<Head>)
    ensures HeadsPreimage(heads).Some? <==> forall head | head in heads :: Safe(head)
  {
    var sorted := StableSort(heads);
    NormalizesWhenSafe(Array(HeadValues(sorted)));
    forall i | 0 <= i < |sorted|
      ensures AllSafe(HeadValues(sorted)[i]) <==> Safe(sorted[i])
    {
      HeadIsSafe(sorted[i]);
    }
    forall head
      ensures head in sorted <==> head in heads
    {
      SortKeepsHeads(heads, head);
    }
    assert (forall i | 0 <= i < |sorted| :: Safe(sorted[i])) <==> (forall head | head in sorted :: Safe(head));
  }

  lemma ProtocolIsOneLine()
    ensures OneLine(APPLICABILITY_HEADS_DIGEST_PROTOCOL)
  {
  }

  /** What is hashed of one head. */
  function HeadCanon(head: Head): Canon {
    CObject([CMember("seq", CInt(head.sequence)), CMember("streamKey", CStr(head.streamKey))])
  }

  lemma SequenceThenStream(head: Head)
    ensures SortedKeys(HeadValue(head).entries) == ["seq", "streamKey"]
  {
    var entries := HeadValue(head).entries;
    var seqKey, streamKey := "seq", "streamKey";
    assert entries[..1] == [entries[0]] && entries[..1][..0] == [];
    assert SortedKeys(entries[..1]) == [seqKey];
    assert seqKey[0] == streamKey[0] && seqKey[1] < streamKey[1];
    assert seqKey[1..][0] == seqKey[1] && streamKey[1..][0] == streamKey[1];
    assert Less(seqKey, streamKey);
    LessIsTotal(seqKey, streamKey);
    assert InsertKey([seqKey], streamKey) == [seqKey] + InsertKey([seqKey][1..], streamKey);
  }

  lemma TwoMembers(v: Value, keys: seq<string>, x: Canon, y: Canon)
    requires KeysOf(v, keys) && |keys| == 2 && NormalizeMembers(v, keys).Some?
    requires keys[0] in keys && keys[1] in keys
    requires Normalize(Member(v, keys[0])) == Some(x) && Normalize(Member(v, keys[1])) == Some(y)
    ensures NormalizeMembers(v, keys).value == [CMember(keys[0], x), CMember(keys[1], y)]
  {
    NormalizedMember(v, keys, 0);
    NormalizedMember(v, keys, 1);
  }

  lemma LeavesAreWritten(head: Head)
    requires Safe(head)
    ensures Normalize(Num(IntNumber(head.sequence))) == Some(CInt(head.sequence))
    ensures Normalize(Str(head.streamKey)) == Some(CStr(head.streamKey))
  {
    NumberOf(head.sequence);
    SafeIntegerIsValue(IntNumber(head.sequence));
  }

  lemma HeadIsWritten(head: Head)
    requires Safe(head)
    ensures Normalize(HeadValue(head)) == Some(HeadCanon(head))
  {
    HeadMembers(head);
    SequenceThenStream(head);
    LeavesAreWritten(head);
    var v := HeadValue(head);
    SortedKeysOf(v.entries);
    HeadIsSafe(head);
    NormalizesWhenSafe(v);
    TwoMembers(v, SortedKeys(v.entries), CInt(head.sequence), CStr(head.streamKey));
  }

  /**
    What is hashed reads, after the protocol's line, as the array of the heads in sorted order, each an
    object with its sequence number and stream key.
   */
  lemma HeadsPreimageReads(heads: seq<Head>) returns (canonical: string, items: seq<Canon>)
    requires HeadsPreimage(heads).Some?
    ensures HeadsPreimage(heads).value == "mc-claim-applicability-heads-v1\n" + canonical
    ensures ReadValue(canonical) == Some((CArray(items), "")) && |items| == |StableSort(heads)|
    ensures forall i | 0 <= i < |items| :: items[i] == HeadCanon(StableSort(heads)[i])
  {
    var sorted := StableSort(heads);
    var v := Array(HeadValues(sorted));
    canonical, items := Encode(v).value, NormalizeItems(v, v.items).value;
    ReadsValue(CArray(items), "");
    assert canonical + "" == canonical;
    assert APPLICABILITY_HEADS_DIGEST_PROTOCOL + ("\n" + canonical)
        == "mc-claim-applicability-heads-v1\n" + canonical;
    HeadsHaveAPreimage(heads);
    forall i | 0 <= i < |items|
      ensures items[i] == HeadCanon(sorted[i])
    {
      SortKeepsHeads(heads, sorted[i]);
      NormalizedItem(v, v.items, i);
      HeadIsWritten(sorted[i]);
    }
  }

  /** The heads digest sees each stream's sequence and nothing of how streams were interleaved. */
  lemma HeadsPreimageIsStreams(a: seq<Head>, b: seq<Head>)
    requires HeadsPreimage(a).Some? && HeadsPreimage(b).Some?
    ensures HeadsPreimage(a) == HeadsPreimage(b) <==> SameStreams(a, b)
  {
    var sortedA, sortedB := StableSort(a), StableSort(b);
    ProtocolIsOneLine();
    HeadsHaveAPreimage(a);
    HeadsHaveAPreimage(b);
    forall head
      ensures head in sortedA <==> head in a
      ensures head in sortedB <==> head in b
    {
      SortKeepsHeads(a, head);
      SortKeepsHeads(b, head);
    }
    PreimagesSeparateProtocols(
      APPLICABILITY_HEADS_DIGEST_PROTOCOL, APPLICABILITY_HEADS_DIGEST_PROTOCOL,
      Array(HeadValues(sortedA)), Array(HeadValues(sortedB)));
    ListMeaning(sortedA, sortedB);
    forall key
      ensures Stream(a, key) == Stream(sortedA, key) && Stream(b, key) == Stream(sortedB, key)
    {
      StableSortKeepsStreams(a, key);
      StableSortKeepsStreams(b, key);
    }
    if SameStreams(a, b) {
      StableSortIsSorted(a);
      StableSortIsSorted(b);
      SortedIsDetermined(sortedA, sortedB);
    }
  }
}
