/** Splitting camel-case key names into words, and the bounded label built from a name's label segments. */
module KeyLabels {
  import opened KeyNames
  import opened Outcomes

  import Pieces

  // ----- separate_words

  predicate Upper(c: char) {
    'A' <= c <= 'Z'
  }

  predicate Lower(c: char) {
    'a' <= c <= 'z'
  }

  predicate Digit(c: char) {
    '0' <= c <= '9'
  }

  predicate Alphanumeric(c: char) {
    Upper(c) || Lower(c) || Digit(c)
  }

  /** A word starts at `c`, read between `previous` and `next`. */
  predicate StartsWord(previous: Option<char>, c: char, next: Option<char>) {
    && Upper(c)
    && previous.Some?
    && (|| Lower(previous.value) || Digit(previous.value)
        || (Upper(previous.value) && next.Some? && Lower(next.value)))
  }

  function Head(s: string): Option<char> {
    if s == "" then None else Some(s[0])
  }

  function SeparateAfter(previous: Option<char>, rest: string): string
    decreases rest
  {
    if rest == "" then ""
    else (if StartsWord(previous, rest[0], Head(rest[1..])) then "_" else "")
         + [rest[0]] + SeparateAfter(Some(rest[0]), rest[1..])
  }

  function Separate(key: string): string {
    SeparateAfter(None, key)
  }

  function Previous(key: string, index: nat): Option<char>
    requires index <= |key|
  {
    if index == 0 then None else Some(key[index - 1])
  }

  method SeparateWords(key: string) returns (separated: string)
    ensures separated == Separate(key)
  {
    separated := "";
    for index := 0 to |key|
      invariant separated + SeparateAfter(Previous(key, index), key[index..]) == Separate(key)
    {
      var character := key[index];
      var previous := Previous(key, index);
      var lowerToUpper := Upper(character) && previous.Some? && (Lower(previous.value) || Digit(previous.value));
      var acronymToWord := Upper(character) && previous.Some? && Upper(previous.value)
                           && index + 1 < |key| && Lower(key[index + 1]);
      assert lowerToUpper || acronymToWord <==> StartsWord(previous, character, Head(key[index + 1..]));
      SeparateTurns(key, index, separated);
      if lowerToUpper || acronymToWord {
        separated := separated + "_";
      }
      separated := separated + [character];
    }
  }

  lemma SeparateTurns(key: string, index: nat, before: string)
    requires index < |key|
    ensures before + SeparateAfter(Previous(key, index), key[index..])
         == before + (if StartsWord(Previous(key, index), key[index], Head(key[index + 1..])) then "_" else "")
            + [key[index]] + SeparateAfter(Previous(key, index + 1), key[index + 1..])
  {
    assert key[index..][1..] == key[index + 1..];
    var mark := if StartsWord(Previous(key, index), key[index], Head(key[index + 1..])) then "_" else "";
    var tail := SeparateAfter(Previous(key, index + 1), key[index + 1..]);
    assert SeparateAfter(Previous(key, index), key[index..]) == mark + [key[index]] + tail;
    assert before + (mark + [key[index]] + tail) == before + mark + [key[index]] + tail;
  }

  /** One character and what follows it, with or without an underscore in front. */
  lemma SeparateOne(previous: Option<char>, c: char, rest: string)
    ensures SeparateAfter(previous, [c] + rest)
         == (if StartsWord(previous, c, Head(rest)) then "_" else "") + [c] + SeparateAfter(Some(c), rest)
  {
    assert ([c] + rest)[1..] == rest;
  }

  /** What follows a character starts with the character that followed it, or with an underscore. */
  lemma HeadAfter(c: char, rest: string)
    ensures Head(SeparateAfter(Some(c), rest)) == Head(rest) || Head(SeparateAfter(Some(c), rest)) == Some('_')
  {
  }

  /** A mark already in the name stays, and none is added before it or after it. */
  lemma SeparatingMarked(previous: Option<char>, c: char, rest: string)
    ensures SeparateAfter(previous, "_" + ([c] + rest)) == "_" + ([c] + SeparateAfter(Some(c), rest))
  {
    SeparateOne(previous, '_', [c] + rest);
    SeparateOne(Some('_'), c, rest);
  }

  /** If separating changes nothing after `c`, it changes nothing from `c` on once `c` has its mark. */
  lemma SeparatingFromHere(previous: Option<char>, c: char, next: Option<char>, tail: string)
    requires SeparateAfter(Some(c), tail) == tail && (Head(tail) == next || Head(tail) == Some('_'))
    ensures
      var marked := (if StartsWord(previous, c, next) then "_" else "") + ([c] + tail);
      SeparateAfter(previous, marked) == marked
  {
    if StartsWord(previous, c, next) {
      SeparatingMarked(previous, c, tail);
    } else {
      SeparateOne(previous, c, tail);
      assert "" + ([c] + tail) == [c] + tail == "" + [c] + tail;
    }
  }

  lemma SeparateHead(previous: Option<char>, rest: string)
    requires rest != ""
    ensures SeparateAfter(previous, rest)
         == (if StartsWord(previous, rest[0], Head(rest[1..])) then "_" else "")
            + ([rest[0]] + SeparateAfter(Some(rest[0]), rest[1..]))
  {
  }

  lemma {:induction false} SeparatingAgain(previous: Option<char>, rest: string)
    ensures SeparateAfter(previous, SeparateAfter(previous, rest)) == SeparateAfter(previous, rest)
    decreases rest
  {
    if rest != "" {
      SeparatingAgain(Some(rest[0]), rest[1..]);
      HeadAfter(rest[0], rest[1..]);
      SeparatingFromHere(previous, rest[0], Head(rest[1..]), SeparateAfter(Some(rest[0]), rest[1..]));
      SeparateHead(previous, rest);
    }
  }

  /** Splitting words is idempotent. */
  lemma SeparateIsIdempotent(key: string)
    ensures Separate(Separate(key)) == Separate(key)
  {
    SeparatingAgain(None, key);
  }

  /** `longer` is `key` with underscores put in and nothing else touched. */
  ghost predicate InsertsUnderscores(key: string, longer: string) {
    if longer == "" then key == ""
    else
      || (key != "" && key[0] == longer[0] && InsertsUnderscores(key[1..], longer[1..]))
      || (longer[0] == '_' && InsertsUnderscores(key, longer[1..]))
  }

  lemma {:induction false} SeparateOnlyInserts(previous: Option<char>, rest: string)
    ensures InsertsUnderscores(rest, SeparateAfter(previous, rest))
    decreases rest
  {
    if rest != "" {
      SeparateOnlyInserts(Some(rest[0]), rest[1..]);
      var tail := SeparateAfter(Some(rest[0]), rest[1..]);
      assert ([rest[0]] + tail)[1..] == tail;
      assert InsertsUnderscores(rest, [rest[0]] + tail);
      if StartsWord(previous, rest[0], Head(rest[1..])) {
        assert SeparateAfter(previous, rest)[1..] == [rest[0]] + tail;
      }
    }
  }

  /**
    A capital that starts a word: after a small letter or a digit, or after a capital and before a
    small letter.
   */
  predicate Hump(key: string, i: nat) {
    && 0 < i < |key| && 'A' <= key[i] <= 'Z'
    && (|| 'a' <= key[i - 1] <= 'z' || '0' <= key[i - 1] <= '9'
        || ('A' <= key[i - 1] <= 'Z' && i + 1 < |key| && 'a' <= key[i + 1] <= 'z'))
  }

  /** How many there are from `i` on. */
  function Humps(key: string, i: nat): nat
    decreases |key| - i
  {
    if i >= |key| then 0 else (if Hump(key, i) then 1 else 0) + Humps(key, i + 1)
  }

  lemma {:induction false} OneMarkEach(key: string, i: nat)
    requires i <= |key|
    ensures |SeparateAfter(Previous(key, i), key[i..])| == |key| - i + Humps(key, i)
    decreases |key| - i
  {
    if i < |key| {
      OneMarkEach(key, i + 1);
      assert key[i..][1..] == key[i + 1..];
      assert StartsWord(Previous(key, i), key[i], Head(key[i + 1..])) <==> Hump(key, i);
    }
  }

  lemma {:induction false} NoHumpsLeft(key: string, i: nat, k: nat)
    requires Humps(key, i) == 0 && i <= k < |key|
    ensures !Hump(key, k)
    decreases |key| - i
  {
    if i < k {
      NoHumpsLeft(key, i + 1, k);
    }
  }

  /** One underscore is put in for each capital that starts a word, and then no capital starts one unmarked. */
  lemma SeparateMarksHumps(key: string)
    ensures |Separate(key)| == |key| + Humps(key, 0)
    ensures forall k | 0 <= k < |Separate(key)| :: !Hump(Separate(key), k)
  {
    var separated := Separate(key);
    assert key[0..] == key && separated[0..] == separated;
    OneMarkEach(key, 0);
    OneMarkEach(separated, 0);
    SeparateIsIdempotent(key);
    forall k | 0 <= k < |separated|
      ensures !Hump(separated, k)
    {
      NoHumpsLeft(separated, 0, k);
    }
  }

  // ----- Labels

  /** `split` on characters that are not ASCII alphanumerics, with `current` already read. */
  function SplitAfter(current: string, rest: string): (segments: seq<string>)
    decreases rest
  {
    if rest == "" then [current]
    else if Alphanumeric(rest[0]) then SplitAfter(current + [rest[0]], rest[1..])
    else [current] + SplitAfter("", rest[1..])
  }

  function LabelSegments(segments: seq<string>): (kept: seq<string>)
  {
    if segments == [] then []
    else (if IsLabelSegment(segments[0]) then [segments[0]] else []) + LabelSegments(segments[1..])
  }

  /** `text` with `_` in place of whatever is not an ASCII letter or digit. */
  function Blanked(text: string): (blanked: string)
    ensures |blanked| == |text|
  {
    if text == "" then ""
    else
      var c := text[0];
      (if 'a' <= c <= 'z' || 'A' <= c <= 'Z' || '0' <= c <= '9' then [c] else "_") + Blanked(text[1..])
  }

  lemma {:induction false} SplitAfterCurrent(current: string, rest: string)
    ensures
      var pieces := Pieces.SplitAt(Blanked(rest), '_');
      SplitAfter(current, rest) == [current + pieces[0]] + pieces[1..]
    decreases |rest|
  {
    if rest == "" {
      assert current + Blanked(rest) == current;
    } else {
      assert Blanked(rest)[1..] == Blanked(rest[1..]);
      var more := Pieces.SplitAt(Blanked(rest[1..]), '_');
      if Alphanumeric(rest[0]) {
        SplitAfterCurrent(current + [rest[0]], rest[1..]);
        assert current + ([rest[0]] + more[0]) == (current + [rest[0]]) + more[0];
      } else {
        SplitAfterCurrent("", rest[1..]);
        assert "" + more[0] == more[0] && [more[0]] + more[1..] == more;
        assert current + Blanked(rest)[..0] == current;
      }
    }
  }

  /** The segments are what stands between the characters that are no letters or digits. */
  lemma SegmentsAreBetweenBlanks(text: string)
    ensures SplitAfter("", text) == Pieces.SplitAt(Blanked(text), '_')
  {
    SplitAfterCurrent("", text);
    var pieces := Pieces.SplitAt(Blanked(text), '_');
    assert "" + pieces[0] == pieces[0] && [pieces[0]] + pieces[1..] == pieces;
  }

  lemma LabelTurn(segments: seq<string>, keeps: bool)
    requires segments != [] && keeps == IsLabelSegment(segments[0])
    ensures LabelSegments(segments) == (if keeps then [segments[0]] else []) + LabelSegments(segments[1..])
  {
  }

  /** The label segments are kept where they stand. */
  lemma {:induction false} LabelSegmentsStand(a: seq<string>, b: seq<string>)
    ensures LabelSegments(a + b) == LabelSegments(a) + LabelSegments(b)
  {
    if a == [] {
      assert a + b == b;
    } else {
      var keeps := IsLabelSegment(a[0]);
      LabelTurn(a, keeps);
      LabelTurn(a + b, keeps);
      assert (a + b)[1..] == a[1..] + b;
      LabelSegmentsStand(a[1..], b);
      KeepGrouped(if keeps then [a[0]] else [], LabelSegments(a[1..]), LabelSegments(b));
    }
  }

  lemma KeepGrouped(x: seq<string>, y: seq<string>, z: seq<string>)
    ensures x + (y + z) == (x + y) + z
  {
  }

  /** As often as they occur, and nothing else is. */
  lemma {:induction false} LabelSegmentsAreKept(segments: seq<string>, segment: string)
    ensures multiset(LabelSegments(segments))[segment]
         == if IsLabelSegment(segment) then multiset(segments)[segment] else 0
  {
    if segments != [] {
      LabelTurn(segments, IsLabelSegment(segments[0]));
      LabelSegmentsAreKept(segments[1..], segment);
      KeepCount(segments, LabelSegments(segments[1..]), IsLabelSegment(segments[0]), segment);
    }
  }

  lemma KeepCount(segments: seq<string>, kept: seq<string>, keeps: bool, segment: string)
    requires segments != []
    ensures multiset((if keeps then [segments[0]] else []) + kept)[segment]
         == multiset(kept)[segment] + (if keeps && segment == segments[0] then 1 else 0)
    ensures multiset(segments)[segment] == multiset(segments[1..])[segment] + (if segment == segments[0] then 1 else 0)
  {
    assert segments == [segments[0]] + segments[1..];
  }

  predicate AllAlphanumeric(word: string) {
    forall k | 0 <= k < |word| :: Alphanumeric(word[k])
  }

  lemma {:induction false} SegmentsAreAlphanumeric(current: string, rest: string, segment: string)
    requires AllAlphanumeric(current) && segment in SplitAfter(current, rest)
    ensures AllAlphanumeric(segment)
    decreases rest
  {
    if rest != "" {
      if Alphanumeric(rest[0]) {
        SegmentsAreAlphanumeric(current + [rest[0]], rest[1..], segment);
      } else if segment != current {
        SegmentsAreAlphanumeric("", rest[1..], segment);
      }
    }
  }

  /** `join("_")`. */
  function Join(segments: seq<string>): string {
    if segments == [] then "" else Pieces.Join(segments, '_')
  }

  lemma JoinNext(segments: seq<string>, k: nat)
    requires 1 <= k < |segments|
    ensures Join(segments[..k + 1]) == Join(segments[..k]) + "_" + segments[k]
  {
    Pieces.JoinAppend(segments[..k], segments[k], '_');
    assert segments[..k + 1] == segments[..k] + [segments[k]];
  }

  lemma {:induction false} JoinPrefix(segments: seq<string>, k: nat)
    requires 1 <= k <= |segments|
    ensures Join(segments[..k]) <= Join(segments)
  {
    if k < |segments| {
      var most := segments[..|segments| - 1];
      JoinPrefix(most, k);
      JoinNext(segments, |segments| - 1);
      assert most[..k] == segments[..k] && segments[..|segments|] == segments;
    } else {
      assert segments[..k] == segments;
    }
  }

  const MAX_REDACTION_LABEL_BYTES: nat := 64

  /** The label segments of a key; `lower` stands for Unicode lowercasing. */
  function KeySegments(key: string, lower: string -> string): seq<string> {
    LabelSegments(SplitAfter("", lower(Separate(key))))
  }

  /** `name` joins the longest run of leading segments whose join fits the bound. */
  ghost predicate LongestFitting(segments: seq<string>, k: nat, name: string) {
    && 1 <= k <= |segments|
    && name == Join(segments[..k])
    && |name| <= MAX_REDACTION_LABEL_BYTES
    && (k < |segments| ==> |Join(segments[..k + 1])| > MAX_REDACTION_LABEL_BYTES)
  }

  /** The last mark within the bound is the one before the segment that outgrows it. */
  lemma LastMark(name: string, head: string, segment: string, boundary: nat)
    requires head + "_" + segment <= name && AllAlphanumeric(segment)
    requires |head| <= MAX_REDACTION_LABEL_BYTES <= |head| + |segment|
    requires boundary <= MAX_REDACTION_LABEL_BYTES && name[boundary] == '_'
    requires forall i | boundary < i <= MAX_REDACTION_LABEL_BYTES :: name[i] != '_'
    ensures name[..boundary] == head
  {
    assert name[|head|] == '_';
    assert forall i | |head| < i <= MAX_REDACTION_LABEL_BYTES :: name[i] == segment[i - |head| - 1];
    assert boundary == |head|;
  }

  /** A mark and the next segment follow the first `k` segments. */
  lemma MarkAfter(segments: seq<string>, k: nat)
    requires 1 <= k < |segments|
    ensures Join(segments[..k + 1]) == Join(segments[..k]) + "_" + segments[k] <= Join(segments)
    ensures |Join(segments[..k])| < |Join(segments)| && Join(segments)[|Join(segments[..k])|] == '_'
  {
    JoinPrefix(segments, k + 1);
    JoinNext(segments, k);
    assert (Join(segments[..k]) + "_" + segments[k])[|Join(segments[..k])|] == '_';
  }

  /** Cutting at the last `_` within the bound is cutting after the last segment that fits. */
  lemma {:induction false} CutIsLongestFitting(segments: seq<string>, k: nat, boundary: nat)
    requires 1 <= k < |segments|
    requires forall segment | segment in segments :: Usable(segment)
    requires |Join(segments[..k])| <= MAX_REDACTION_LABEL_BYTES < |Join(segments)|
    requires boundary <= MAX_REDACTION_LABEL_BYTES && Join(segments)[boundary] == '_'
    requires forall i | boundary < i <= MAX_REDACTION_LABEL_BYTES :: Join(segments)[i] != '_'
    ensures exists last :: LongestFitting(segments, last, Join(segments)[..boundary])
    decreases |segments| - k
  {
    MarkAfter(segments, k);
    if |Join(segments[..k + 1])| <= MAX_REDACTION_LABEL_BYTES {
      assert segments[..|segments|] == segments;
      CutIsLongestFitting(segments, k + 1, boundary);
    } else {
      assert Usable(segments[k]);
      LastMark(Join(segments), Join(segments[..k]), segments[k], boundary);
      assert LongestFitting(segments, k, Join(segments)[..boundary]);
    }
  }

  lemma {:induction false} LabelSegmentsAreLabels(segments: seq<string>, segment: string)
    requires segment in LabelSegments(segments)
    ensures IsLabelSegment(segment) && segment in segments
  {
    if !IsLabelSegment(segments[0]) || segment != segments[0] {
      LabelSegmentsAreLabels(segments[1..], segment);
    }
  }

  predicate Usable(segment: string) {
    AllAlphanumeric(segment) && 0 < |segment| <= MAX_VOCABULARY_WORD_BYTES
  }

  lemma LabelsAreUsable(key: string, lower: string -> string)
    ensures forall segment | segment in KeySegments(key, lower) :: Usable(segment)
  {
    forall segment | segment in KeySegments(key, lower)
      ensures Usable(segment)
    {
      LabelSegmentsAreLabels(SplitAfter("", lower(Separate(key))), segment);
      SegmentsAreAlphanumeric("", lower(Separate(key)), segment);
      WordsAreShort(segment);
    }
  }

  /**
    `redaction_type_for_key`: `secret` when the name has no label segment, otherwise the longest
    run of whole leading label segments that fits 64 bytes.
   */
  method RedactionTypeForKey(key: string, lower: string -> string) returns (name: string)
    ensures
      var segments := KeySegments(key, lower);
      if segments == [] then name == "secret" else exists k :: LongestFitting(segments, k, name)
  {
    var separated := SeparateWords(key);
    LabelsAreUsable(key, lower);
    name := BoundedLabel(LabelSegments(SplitAfter("", lower(separated))));
  }

  /** The join and its truncation; the mid-segment fallback is dead. */
  method BoundedLabel(segments: seq<string>) returns (name: string)
    requires forall segment | segment in segments :: Usable(segment)
    ensures if segments == [] then name == "secret" else exists k :: LongestFitting(segments, k, name)
  {
    name := Join(segments);
    if segments != [] {
      JoinNotEmpty(segments);
    }
    if name == "" {
      return "secret";
    }
    if |name| <= MAX_REDACTION_LABEL_BYTES {
      assert segments[..|segments|] == segments;
      assert LongestFitting(segments, |segments|, name);
      return;
    }
    var boundary := MAX_REDACTION_LABEL_BYTES;
    while boundary > 0 && name[boundary] != '_'
      invariant 0 <= boundary <= MAX_REDACTION_LABEL_BYTES
      invariant forall i | boundary < i <= MAX_REDACTION_LABEL_BYTES :: name[i] != '_'
    {
      boundary := boundary - 1;
    }
    FirstBoundary(segments);
    if boundary > 0 {
      CutIsLongestFitting(segments, 1, boundary);
      name := name[..boundary];
    } else {
      assert false;
      name := "secret";
    }
  }

  lemma JoinNotEmpty(segments: seq<string>)
    requires segments != [] && Usable(segments[0])
    ensures Join(segments) != ""
  {
    JoinPrefix(segments, 1);
    assert segments[..1][0] == segments[0];
  }

  /** A label too long to keep whole has a segment boundary within the bound. */
  lemma FirstBoundary(segments: seq<string>)
    requires forall segment | segment in segments :: Usable(segment)
    requires |Join(segments)| > MAX_REDACTION_LABEL_BYTES
    ensures |segments| > 1
    ensures 0 < |Join(segments[..1])| <= MAX_REDACTION_LABEL_BYTES
    ensures |Join(segments[..1])| < |Join(segments)| && Join(segments)[|Join(segments[..1])|] == '_'
  {
    assert segments != [];
    assert Usable(segments[0]);
    assert |segments| > 1;
    JoinPrefix(segments, 2);
    JoinNext(segments, 1);
    assert segments[..1][0] == segments[0];
  }
}
