/**
  The cover scan: which positions of an undelimited name vocabulary words can reach, and what the
  name therefore says. The specification is existential: some sequence of vocabulary words
  concatenates to the text.
 */
module CoverScan {
  import opened KeyNames

  /** The predicate that says which strings are words. */
  type Vocabulary = string -> bool

  function Concat(words: seq<string>): string {
    if words == [] then "" else words[0] + Concat(words[1..])
  }

  lemma {:induction false} ConcatSplits(words: seq<string>, k: nat)
    requires k <= |words|
    ensures Concat(words) == Concat(words[..k]) + Concat(words[k..])
  {
    if k == 0 {
      assert words[..0] == [] && words[0..] == words;
    } else {
      ConcatSplits(words[1..], k - 1);
      assert words[..k][0] == words[0] && words[..k][1..] == words[1..][..k - 1];
      assert words[1..][k - 1..] == words[k..];
    }
  }

  ghost predicate Covers(vocab: Vocabulary, words: seq<string>, text: string) {
    && (forall k | 0 <= k < |words| :: vocab(words[k]))
    && Concat(words) == text
  }

  /** What the cover scan's span relies on. */
  ghost predicate Bounded(vocab: Vocabulary) {
    forall word | vocab(word) :: 0 < |word| <= MAX_VOCABULARY_WORD_BYTES
  }

  /** `text` splits into vocabulary words. */
  ghost predicate Splits(vocab: Vocabulary, text: string) {
    exists words :: Covers(vocab, words, text)
  }

  lemma CoverJoin(vocab: Vocabulary, left: seq<string>, leftText: string, right: seq<string>, rightText: string)
    requires Covers(vocab, left, leftText) && Covers(vocab, right, rightText)
    ensures Covers(vocab, left + right, leftText + rightText)
  {
    ConcatSplits(left + right, |left|);
    assert (left + right)[..|left|] == left && (left + right)[|left|..] == right;
  }

  lemma CoverOne(vocab: Vocabulary, word: string)
    requires vocab(word)
    ensures Covers(vocab, [word], word)
  {
    assert [word][1..] == [];
  }

  // ----- Reach

  /** The part of the name a walk that got to `at` has read. */
  function Read(joined: string, reverse: bool, at: nat): string
    requires at <= |joined|
  {
    if reverse then joined[at..] else joined[..at]
  }

  ghost predicate Reached(vocab: Vocabulary, joined: string, reverse: bool, at: nat)
    requires at <= |joined|
  {
    Splits(vocab, Read(joined, reverse, at))
  }

  function Origin(joined: string, reverse: bool): nat {
    if reverse then |joined| else 0
  }

  /** One vocabulary word takes a walk from `from` to `to`. */
  ghost predicate Steps(vocab: Vocabulary, joined: string, reverse: bool, from: nat, to: nat)
    requires from <= |joined| && to <= |joined|
  {
    && (if reverse then to < from && vocab(joined[to..from])
        else from < to && vocab(joined[from..to]))
    && Reached(vocab, joined, reverse, from)
  }

  lemma StepReaches(vocab: Vocabulary, joined: string, reverse: bool, from: nat, to: nat)
    requires from <= |joined| && to <= |joined| && Steps(vocab, joined, reverse, from, to)
    ensures Reached(vocab, joined, reverse, to)
  {
    if reverse {
      WordBefore(vocab, joined[to..from], joined[from..]);
      assert joined[to..] == joined[to..from] + joined[from..];
    } else {
      WordAfter(vocab, joined[..from], joined[from..to]);
      assert joined[..to] == joined[..from] + joined[from..to];
    }
  }

  lemma WordBefore(vocab: Vocabulary, word: string, rest: string)
    requires vocab(word) && Splits(vocab, rest)
    ensures Splits(vocab, word + rest)
  {
    var words :| Covers(vocab, words, rest);
    CoverOne(vocab, word);
    CoverJoin(vocab, [word], word, words, rest);
  }

  lemma WordAfter(vocab: Vocabulary, start: string, word: string)
    requires vocab(word) && Splits(vocab, start)
    ensures Splits(vocab, start + word)
  {
    var words :| Covers(vocab, words, start);
    CoverOne(vocab, word);
    CoverJoin(vocab, words, start, [word], word);
  }

  lemma ReachedByStep(vocab: Vocabulary, joined: string, reverse: bool, to: nat) returns (from: nat)
    requires Bounded(vocab)
    requires to <= |joined| && Reached(vocab, joined, reverse, to) && to != Origin(joined, reverse)
    ensures from <= |joined| && Steps(vocab, joined, reverse, from, to)
  {
    var text := Read(joined, reverse, to);
    var words :| Covers(vocab, words, text);
    assert words != [];
    if reverse {
      var word := words[0];
      from := to + |word|;
      assert word == text[..|word|] == joined[to..from];
      assert joined[from..] == text[|word|..] == Concat(words[1..]);
      assert Covers(vocab, words[1..], joined[from..]);
    } else {
      var last := |words| - 1;
      var word := words[last];
      ConcatSplits(words, last);
      CoverOne(vocab, word);
      assert words[last..] == [word];
      from := to - |word|;
      assert word == text[from..] == joined[from..to];
      assert joined[..from] == text[..from] == Concat(words[..last]);
      assert Covers(vocab, words[..last], joined[..from]);
    }
  }

  lemma OriginReached(vocab: Vocabulary, joined: string, reverse: bool)
    ensures Reached(vocab, joined, reverse, Origin(joined, reverse))
  {
    assert Covers(vocab, [], Read(joined, reverse, Origin(joined, reverse)));
  }

  /** Positions the walk has handled after `step` of its steps. */
  predicate Handled(joined: string, reverse: bool, step: int, at: nat) {
    if reverse then at > |joined| - step else at < step
  }

  /** `to` is marked once some handled position steps there. */
  ghost predicate Marked(vocab: Vocabulary, joined: string, reverse: bool, step: int, to: nat)
    requires to <= |joined|
  {
    || to == Origin(joined, reverse)
    || exists from: nat | from <= |joined| && Handled(joined, reverse, step, from) ::
         Steps(vocab, joined, reverse, from, to)
  }

  /** A position is settled by the time the walk handles it. */
  lemma MarkedIsReached(vocab: Vocabulary, joined: string, reverse: bool, step: int, to: nat)
    requires Bounded(vocab)
    requires to <= |joined|
    ensures Marked(vocab, joined, reverse, step, to) ==> Reached(vocab, joined, reverse, to)
    ensures Reached(vocab, joined, reverse, to) && Handled(joined, reverse, step + 1, to)
         ==> Marked(vocab, joined, reverse, step, to)
  {
    OriginReached(vocab, joined, reverse);
    if to != Origin(joined, reverse) {
      if from: nat :| from <= |joined| && Handled(joined, reverse, step, from)
                      && Steps(vocab, joined, reverse, from, to) {
        StepReaches(vocab, joined, reverse, from, to);
      }
      if Reached(vocab, joined, reverse, to) && Handled(joined, reverse, step + 1, to) {
        var from := ReachedByStep(vocab, joined, reverse, to);
        assert Handled(joined, reverse, step, from);
      }
    }
  }

  /** `vocabulary_reach`: the marked positions are exactly those a vocabulary cover reaches. */
  method VocabularyReach(vocab: Vocabulary, joined: string, reverse: bool) returns (reach: array<bool>)
    requires Bounded(vocab)
    ensures fresh(reach) && reach.Length == |joined| + 1
    ensures forall at | 0 <= at <= |joined| :: reach[at] <==> Reached(vocab, joined, reverse, at)
  {
    var length := |joined|;
    reach := new bool[length + 1](_ => false);
    reach[if reverse then length else 0] := true;
    for step := 0 to length + 1
      invariant forall to | 0 <= to <= length :: reach[to] <==> Marked(vocab, joined, reverse, step, to)
    {
      var at := if reverse then length - step else step;
      MarkedIsReached(vocab, joined, reverse, step, at);
      if reach[at] {
        MarkFrom(vocab, joined, reverse, at, reach);
      }
      forall to | 0 <= to <= length
        ensures Marked(vocab, joined, reverse, step + 1, to)
            <==> Marked(vocab, joined, reverse, step, to) || Steps(vocab, joined, reverse, at, to)
      {
        MarkOneMore(vocab, joined, reverse, at, step, to);
      }
    }
    forall at | 0 <= at <= length
      ensures reach[at] <==> Reached(vocab, joined, reverse, at)
    {
      MarkedIsReached(vocab, joined, reverse, length + 1, at);
    }
  }

  lemma MarkOneMore(vocab: Vocabulary, joined: string, reverse: bool, at: nat, step: nat, to: nat)
    requires at <= |joined| && to <= |joined| && at == (if reverse then |joined| - step else step)
    ensures Marked(vocab, joined, reverse, step + 1, to)
       <==> Marked(vocab, joined, reverse, step, to) || Steps(vocab, joined, reverse, at, to)
  {
    assert Handled(joined, reverse, step + 1, at);
    forall from: nat | from <= |joined|
      ensures Handled(joined, reverse, step + 1, from) <==> Handled(joined, reverse, step, from) || from == at
    {
    }
  }

  /** The step is by a word shorter than `span`. */
  ghost predicate StepsWithin(vocab: Vocabulary, joined: string, reverse: bool, at: nat, to: nat, span: nat)
    requires at <= |joined| && to <= |joined|
  {
    Steps(vocab, joined, reverse, at, to) && (if reverse then at - to < span else to - at < span)
  }

  lemma NextSpan(vocab: Vocabulary, joined: string, reverse: bool, at: nat, span: nat, start: nat, end: nat, to: nat)
    requires at <= |joined| && to <= |joined| && Reached(vocab, joined, reverse, at)
    requires span > 0 && start <= end <= |joined|
    requires if reverse then start == at - span && end == at else start == at && end == at + span
    ensures StepsWithin(vocab, joined, reverse, at, to, span + 1)
       <==> StepsWithin(vocab, joined, reverse, at, to, span)
            || (to == (if reverse then start else end) && vocab(joined[start..end]))
  {
  }

  /** Marks every position one word away from `at`; no longer span can name a word. */
  method MarkFrom(vocab: Vocabulary, joined: string, reverse: bool, at: nat, reach: array<bool>)
    requires Bounded(vocab)
    requires reach.Length == |joined| + 1 && at <= |joined|
    requires Reached(vocab, joined, reverse, at)
    modifies reach
    ensures forall to | 0 <= to <= |joined| :: reach[to] <==> old(reach[to]) || Steps(vocab, joined, reverse, at, to)
  {
    var length := |joined|;
    var span := 1;
    while span <= MAX_VOCABULARY_WORD_BYTES && (if reverse then span <= at else at + span <= length)
      invariant 1 <= span <= MAX_VOCABULARY_WORD_BYTES + 1
      invariant forall to | 0 <= to <= length ::
                  reach[to] <==> old(reach[to]) || StepsWithin(vocab, joined, reverse, at, to, span)
    {
      var start := if reverse then at - span else at;
      var end := if reverse then at else at + span;
      forall to | 0 <= to <= length
        ensures StepsWithin(vocab, joined, reverse, at, to, span + 1)
           <==> StepsWithin(vocab, joined, reverse, at, to, span)
                || (to == (if reverse then start else end) && vocab(joined[start..end]))
      {
        NextSpan(vocab, joined, reverse, at, span, start, end, to);
      }
      if vocab(joined[start..end]) {
        reach[if reverse then start else end] := true;
      }
      span := span + 1;
    }
    forall to | 0 <= to <= length && Steps(vocab, joined, reverse, at, to)
      ensures StepsWithin(vocab, joined, reverse, at, to, span)
    {
    }
  }

  // ----- The verdict

  /** Some full cover of the name holds a word with this property. */
  ghost predicate SomeCoverHolds(vocab: Vocabulary, joined: string, p: string -> bool) {
    exists words, k: nat | Covers(vocab, words, joined) && k < |words| :: p(words[k])
  }

  /** `joined[start..end]` is a word of some full cover. */
  ghost predicate CoverWord(vocab: Vocabulary, joined: string, start: nat, end: nat)
    requires start <= end <= |joined|
  {
    && Reached(vocab, joined, false, start)
    && Reached(vocab, joined, true, end)
    && vocab(joined[start..end])
  }

  lemma CoverAround(vocab: Vocabulary, left: seq<string>, before: string, word: string, right: seq<string>,
                    after: string,
                    whole: string, p: string -> bool)
    requires Covers(vocab, left, before) && vocab(word) && Covers(vocab, right, after)
    requires whole == before + word + after && p(word)
    ensures SomeCoverHolds(vocab, whole, p)
  {
    CoverOne(vocab, word);
    CoverJoin(vocab, left, before, [word], word);
    CoverJoin(vocab, left + [word], before + word, right, after);
    var words := left + [word] + right;
    assert words[|left|] == word;
  }

  lemma CoverWordIsInCover(vocab: Vocabulary, joined: string, start: nat, end: nat, p: string -> bool)
    requires start <= end <= |joined| && CoverWord(vocab, joined, start, end) && p(joined[start..end])
    ensures SomeCoverHolds(vocab, joined, p)
  {
    var left :| Covers(vocab, left, joined[..start]);
    var right :| Covers(vocab, right, joined[end..]);
    assert joined == joined[..start] + joined[start..end] + joined[end..];
    CoverAround(vocab, left, joined[..start], joined[start..end], right, joined[end..], joined, p);
  }

  lemma CoverHoldsWord(vocab: Vocabulary, joined: string, p: string -> bool) returns (start: nat, end: nat)
    requires Bounded(vocab)
    requires SomeCoverHolds(vocab, joined, p)
    ensures start < end <= |joined| && end - start <= MAX_VOCABULARY_WORD_BYTES
    ensures CoverWord(vocab, joined, start, end) && p(joined[start..end])
  {
    var words, k: nat :| Covers(vocab, words, joined) && k < |words| && p(words[k]);
    var left, word, right := Concat(words[..k]), words[k], Concat(words[k + 1..]);
    ConcatSplits(words, k);
    assert Concat(words[k..]) == word + right by {
      assert words[k..][1..] == words[k + 1..];
    }
    start, end := |left|, |left| + |word|;
    Parts(left, word, right, joined);
    assert Covers(vocab, words[..k], left);
    assert Covers(vocab, words[k + 1..], right);
  }

  lemma Parts(left: string, word: string, right: string, joined: string)
    requires joined == left + (word + right)
    ensures joined[..|left|] == left
    ensures joined[|left|..|left| + |word|] == word
    ensures joined[|left| + |word|..] == right
  {
  }

  /** The words the scan has looked at: those that start before `from`, and at `from` those that end before `to`. */
  ghost predicate FoundBefore(vocab: Vocabulary, joined: string, p: string -> bool, from: nat, to: nat) {
    exists start: nat, end: nat | start < end <= |joined| && end - start <= MAX_VOCABULARY_WORD_BYTES
        && (start < from || (start == from && end < to)) && CoverWord(vocab, joined, start, end) ::
           p(joined[start..end])
  }

  lemma FoundIsSomeCover(vocab: Vocabulary, joined: string, p: string -> bool)
    requires Bounded(vocab)
    ensures FoundBefore(vocab, joined, p, |joined|, 0) <==> SomeCoverHolds(vocab, joined, p)
  {
    if start: nat, end: nat :| start < end <= |joined| && CoverWord(vocab, joined, start, end)
                              && p(joined[start..end])
    {
      CoverWordIsInCover(vocab, joined, start, end, p);
    }
    if SomeCoverHolds(vocab, joined, p) {
      var start, end := CoverHoldsWord(vocab, joined, p);
    }
  }

  /** The scan for any vocabulary: whether some full cover holds a label and some full cover a qualified segment. */
  method ScanCovers(vocab: Vocabulary, joined: string, namesLabel: string -> bool, namesSegment: string -> bool)
    returns (r: bool)
    requires Bounded(vocab)
    ensures r <==> SomeCoverHolds(vocab, joined, namesLabel) && SomeCoverHolds(vocab, joined, namesSegment)
  {
    var fromStart := VocabularyReach(vocab, joined, false);
    var toEnd := VocabularyReach(vocab, joined, true);
    if !fromStart[|joined|] {
      NoCover(vocab, joined, namesLabel);
      return false;
    }
    var namesALabel, namesAQualifiedSegment := false, false;
    for start := 0 to |joined|
      invariant namesALabel <==> FoundBefore(vocab, joined, namesLabel, start, 0)
      invariant namesAQualifiedSegment <==> FoundBefore(vocab, joined, namesSegment, start, 0)
    {
      if !fromStart[start] {
        continue;
      }
      var last := if start + MAX_VOCABULARY_WORD_BYTES < |joined| then start + MAX_VOCABULARY_WORD_BYTES else |joined|;
      for end := start + 1 to last + 1
        invariant namesALabel <==> FoundBefore(vocab, joined, namesLabel, start, end)
        invariant namesAQualifiedSegment <==> FoundBefore(vocab, joined, namesSegment, start, end)
      {
        if !toEnd[end] {
          continue;
        }
        var word := joined[start..end];
        if !vocab(word) {
          continue;
        }
        namesALabel := namesALabel || namesLabel(word);
        namesAQualifiedSegment := namesAQualifiedSegment || namesSegment(word);
      }
    }
    FoundIsSomeCover(vocab, joined, namesLabel);
    FoundIsSomeCover(vocab, joined, namesSegment);
    r := namesALabel && namesAQualifiedSegment;
  }

  lemma NoCover(vocab: Vocabulary, joined: string, p: string -> bool)
    requires !Reached(vocab, joined, false, |joined|)
    ensures !SomeCoverHolds(vocab, joined, p)
  {
    assert joined[..|joined|] == joined;
    assert !Splits(vocab, joined);
  }

  /** No vocabulary word outgrows the span the scan looks at, so the bound loses nothing. */
  lemma SpanBoundLosesNothing()
    ensures Bounded(NamesAVocabularyWord)
  {
    forall word | NamesAVocabularyWord(word)
      ensures 0 < |word| <= MAX_VOCABULARY_WORD_BYTES
    {
      WordsAreShort(word);
    }
  }

  /**
    `undelimited_names_a_credential`: true iff some full cover holds a label word and some full
    cover, not necessarily the same one, holds a label segment other than `key`.
   */
  method UndelimitedNamesACredential(joined: string) returns (r: bool)
    ensures r <==>
            && SomeCoverHolds(NamesAVocabularyWord, joined, NamesALabelWord)
            && SomeCoverHolds(NamesAVocabularyWord, joined, NamesAQualifiedSegment)
  {
    SpanBoundLosesNothing();
    r := ScanCovers(NamesAVocabularyWord, joined, NamesALabelWord, NamesAQualifiedSegment);
  }
}
