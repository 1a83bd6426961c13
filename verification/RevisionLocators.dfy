/** Revision locators, `<claim-id>/r<revision>/<digest>`: printing and parsing undo each other. */
module RevisionLocators {
  import opened Arithmetic
  import opened Decimals
  import opened Outcomes
  import opened Pieces

  const PUBLIC_CLAIM_ID_PREFIX: string := "mcm_"

  predicate LowerHexChar(c: char) {
    '0' <= c <= '9' || 'a' <= c <= 'f'
  }

  predicate IsLowerHex(text: string, expected: nat) {
    |text| == expected && forall k | 0 <= k < |text| :: LowerHexChar(text[k])
  }

  predicate IsValidPublicClaimId(candidate: string) {
    PUBLIC_CLAIM_ID_PREFIX <= candidate && IsLowerHex(candidate[|PUBLIC_CLAIM_ID_PREFIX|..], 32)
  }

  /** `revision` is an `i64` in the source, so it can be negative here too. */
  datatype RevisionLocator = RevisionLocator(publicClaimId: string, revision: int, contentDigest: string)

  predicate InRange(revision: int) {
    1 <= revision <= MAX_SAFE_INTEGER
  }

  function Format(locator: RevisionLocator): Option<string> {
    if !IsValidPublicClaimId(locator.publicClaimId) || !InRange(locator.revision)
       || !IsLowerHex(locator.contentDigest, 64) then None
    else Some(locator.publicClaimId + ['/'] + ("r" + Print(locator.revision) + ['/'] + locator.contentDigest))
  }

  /** `str::parse::<i64>` on a run of digits. */
  function ParseI64(digits: string): Option<int>
    requires AllDigits(digits)
  {
    if Read(digits) <= MAX_I64 then Some(Read(digits)) else None
  }

  function Parse(raw: string): Option<RevisionLocator> {
    var parts := SplitAt(raw, '/');
    if |parts| != 3 || !IsValidPublicClaimId(parts[0]) then None
    else if !("r" <= parts[1]) then None
    else
      var digits := parts[1][1..];
      if digits == "" || digits[0] == '0' || !AllDigits(digits) then None
      else
        match ParseI64(digits)
        case None => None
        case Some(revision) =>
          if !InRange(revision) || !IsLowerHex(parts[2], 64) then None
          else Some(RevisionLocator(parts[0], revision, parts[2]))
  }

  lemma JoinThree(a: string, b: string, c: string)
    ensures Join([a, b, c], '/') == a + ['/'] + (b + ['/'] + c)
  {
    assert [a, b, c][1..] == [b, c] && [b, c][1..] == [c];
    assert Join([b, c], '/') == b + ['/'] + Join([c], '/');
  }

  /** No part of a locator that is printed holds a slash. */
  lemma PartsAreWhole(locator: RevisionLocator)
    requires Format(locator).Some?
    ensures '/' !in locator.publicClaimId && '/' !in "r" + Print(locator.revision) && '/' !in locator.contentDigest
  {
    var id := locator.publicClaimId;
    assert id == PUBLIC_CLAIM_ID_PREFIX + id[|PUBLIC_CLAIM_ID_PREFIX|..];
  }

  /** Printing then parsing gives the locator back. */
  lemma ParseUndoesFormat(locator: RevisionLocator)
    requires Format(locator).Some?
    ensures Parse(Format(locator).value) == Some(locator)
  {
    var id, digits, digest := locator.publicClaimId, Print(locator.revision), locator.contentDigest;
    PartsAreWhole(locator);
    JoinThree(id, "r" + digits, digest);
    SplitJoin([id, "r" + digits, digest], '/');
    assert ("r" + digits)[1..] == digits;
    ReadPrint(locator.revision);
  }

  /** Parsing then printing gives the text back, so only the printed form parses. */
  lemma FormatUndoesParse(raw: string)
    requires Parse(raw).Some?
    ensures Format(Parse(raw).value) == Some(raw)
  {
    var parts := SplitAt(raw, '/');
    JoinSplit(raw, '/');
    var digits := parts[1][1..];
    assert parts[1] == "r" + digits;
    PrintRead(digits);
    JoinThree(parts[0], parts[1], parts[2]);
    assert parts == [parts[0], parts[1], parts[2]];
  }

  /** Small hexadecimal digits, as many as asked for. */
  predicate Hex(text: string, length: nat) {
    |text| == length && forall c | c in text :: c in "0123456789abcdef"
  }

  lemma HexIsLowerHex(text: string, length: nat)
    ensures Hex(text, length) <==> IsLowerHex(text, length)
  {
    forall c: char
      ensures c in "0123456789abcdef" <==> LowerHexChar(c)
    {
      HexCharacter(c);
    }
    assert (forall c | c in text :: LowerHexChar(c)) <==> forall k | 0 <= k < |text| :: LowerHexChar(text[k]);
  }

  lemma HexCharacter(c: char)
    ensures c in "0123456789abcdef" <==> LowerHexChar(c)
  {
    var digits := "0123456789abcdef";
    if LowerHexChar(c) {
      var k := if c <= '9' then c as int - '0' as int else c as int - 'a' as int + 10;
      assert digits[k] == c;
    }
  }

  /** The written form of a locator, spelled out. */
  ghost predicate Spells(raw: string, id: string, revision: int, digest: string) {
    && Hex(id, 32) && 1 <= revision <= MAX_SAFE_INTEGER && Hex(digest, 64)
    && raw == "mcm_" + id + "/r" + Print(revision) + "/" + digest
  }

  lemma FormatSpells(locator: RevisionLocator)
    ensures
      var id := locator.publicClaimId;
      Format(locator).Some? <==>
        && "mcm_" <= id && Hex(id[4..], 32) && 1 <= locator.revision <= MAX_SAFE_INTEGER
        && Hex(locator.contentDigest, 64)
    ensures Format(locator).Some? ==>
              Spells(Format(locator).value, locator.publicClaimId[4..], locator.revision, locator.contentDigest)
  {
    if "mcm_" <= locator.publicClaimId {
      HexIsLowerHex(locator.publicClaimId[4..], 32);
    }
    HexIsLowerHex(locator.contentDigest, 64);
    if Format(locator).Some? {
      Spelled(locator.publicClaimId, locator.publicClaimId[4..], Print(locator.revision), locator.contentDigest);
    }
  }

  lemma Spelled(id: string, hex: string, digits: string, digest: string)
    requires "mcm_" <= id && hex == id[4..]
    ensures id + ['/'] + ("r" + digits + ['/'] + digest) == "mcm_" + hex + "/r" + digits + "/" + digest
  {
    assert id == "mcm_" + hex;
  }

  /** Exactly the spelled texts parse. */
  lemma ParsesWhatIsSpelled(raw: string)
    ensures Parse(raw).Some? <==> exists id, revision, digest :: Spells(raw, id, revision, digest)
  {
    if Parse(raw).Some? {
      FormatUndoesParse(raw);
      FormatSpells(Parse(raw).value);
    }
    if id, revision, digest :| Spells(raw, id, revision, digest) {
      var locator := RevisionLocator("mcm_" + id, revision, digest);
      assert locator.publicClaimId[4..] == id;
      FormatSpells(locator);
      ParseUndoesFormat(locator);
    }
  }
}
