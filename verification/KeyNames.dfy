/** The vocabulary that credential key names are made of, and which words of it mark a credential. */
module KeyNames {
  const LABEL_WORDS: seq<string> := [
    "key", "token", "secret", "password", "auth", "authorization", "bearer", "credential"]

  const LABEL_QUALIFIERS: seq<string> := [
    "api", "access", "signing", "signature", "webhook", "encryption", "hmac", "master", "refresh", "private",
    "client", "auth", "authorization", "secret", "bearer", "session", "refresh", "service", "x", "openai",
    "anthropic", "google", "github", "huggingface", "aws", "azure", "db", "database", "admin", "root", "app",
    "application", "consumer", "oauth", "jwt", "shared", "user", "vault", "gcp", "gitlab", "slack", "stripe",
    "twilio"]

  const LABEL_AFFIXES: seq<string> := [
    "b64", "base64", "data", "env", "file", "hash", "hex", "id", "name", "path", "plain", "prefix", "ref",
    "string", "text", "value"]

  const MAX_VOCABULARY_WORD_BYTES: nat := 14

  function PluralStem(word: string): string {
    if word != "" && word[|word| - 1] == 's' then word[..|word| - 1] else word
  }

  predicate NamesAVocabularyWord(word: string) {
    var stem := PluralStem(word);
    || stem in LABEL_WORDS
    || word in LABEL_QUALIFIERS
    || word in LABEL_AFFIXES
    || stem in LABEL_AFFIXES
  }

  predicate NamesALabelWord(word: string) {
    PluralStem(word) in LABEL_WORDS
  }

  predicate IsLabelSegment(segment: string) {
    PluralStem(segment) in LABEL_WORDS || segment in LABEL_QUALIFIERS
  }

  predicate NamesAQualifiedSegment(word: string) {
    IsLabelSegment(word) && PluralStem(word) != "key"
  }

  /** A word's stem is the word itself, or the word without its one plural `s`. */
  lemma StemIsSingular(word: string, singular: string)
    ensures PluralStem(word) == singular
       <==> word == singular + "s" || (word == singular && (singular == "" || singular[|singular| - 1] != 's'))
  {
    if word != "" && word[|word| - 1] == 's' {
      assert word == word[..|word| - 1] + "s";
    }
    assert (singular + "s")[..|singular|] == singular;
  }

  lemma NoLabelWordIsPlural(word: string)
    requires word in LABEL_WORDS
    ensures word != "" && word[|word| - 1] != 's'
  {
  }

  lemma NoAffixIsPlural(word: string)
    requires word in LABEL_AFFIXES
    ensures word != "" && word[|word| - 1] != 's'
  {
  }

  /** One of `words`, or one of them with a plural `s`. */
  ghost predicate Among(words: seq<string>, name: string) {
    exists word | word in words :: name == word || name == word + "s"
  }

  lemma StemIsLabel(word: string)
    ensures PluralStem(word) in LABEL_WORDS <==> Among(LABEL_WORDS, word)
  {
    forall singular | singular in LABEL_WORDS
      ensures PluralStem(word) == singular <==> word == singular || word == singular + "s"
    {
      StemIsSingular(word, singular);
      NoLabelWordIsPlural(singular);
    }
  }

  lemma StemIsAffix(word: string)
    ensures PluralStem(word) in LABEL_AFFIXES <==> Among(LABEL_AFFIXES, word)
  {
    forall singular | singular in LABEL_AFFIXES
      ensures PluralStem(word) == singular <==> word == singular || word == singular + "s"
    {
      StemIsSingular(word, singular);
      NoAffixIsPlural(singular);
    }
  }

  /**
    What the cover scan takes for a word: a label word or an affix, with or without a plural `s`, or a
    qualifier; and what it takes for a label.
   */
  lemma VocabularyIsListed(word: string)
    ensures NamesAVocabularyWord(word)
       <==> Among(LABEL_WORDS, word) || word in LABEL_QUALIFIERS || Among(LABEL_AFFIXES, word)
    ensures NamesALabelWord(word) <==> Among(LABEL_WORDS, word)
    ensures IsLabelSegment(word) <==> Among(LABEL_WORDS, word) || word in LABEL_QUALIFIERS
    ensures NamesAQualifiedSegment(word) <==> IsLabelSegment(word) && word != "key" && word != "keys"
  {
    StemIsLabel(word);
    StemIsAffix(word);
    StemIsSingular(word, "key");
    assert "key"[|"key"| - 1] == 'y' && "key" + "s" == "keys";
    if word in LABEL_AFFIXES {
      assert Among(LABEL_AFFIXES, word);
    }
  }

  /** No vocabulary word outgrows the cover scan's span, and none is empty. */
  lemma WordsAreShort(word: string)
    requires NamesAVocabularyWord(word)
    ensures 0 < |word| <= MAX_VOCABULARY_WORD_BYTES
  {
    QualifiersAreShort(word);
  }

  lemma QualifiersAreShort(word: string)
    ensures word in LABEL_QUALIFIERS ==> 0 < |word| < MAX_VOCABULARY_WORD_BYTES
  {
  }
}
