/**
  Bytes that need not be UTF-8, cut as `[u8]::utf8_chunks` cuts them: runs of well-formed text, each
  followed by the bytes of one char that broke off. The lossy text replaces each such remnant.
 */
module LossyDecoding {
  import opened Utf8

  /** Valid text and the invalid bytes that follow it, if any. */
  datatype Chunk = Chunk(valid: Bytes, invalid: Bytes)

  /** How many bytes of a char that breaks off belong to it: the lead and what could have followed it. */
  function BrokenWidth(bytes: Bytes): (width: nat)
    requires bytes != [] && FirstWidth(bytes) == 0
    ensures 1 <= width <= 3 && width <= |bytes|
  {
    if |bytes| >= 2 && Continuation(bytes[1]) && ThreeByteLead(bytes[0], bytes[1]) then 2
    else if |bytes| >= 2 && Continuation(bytes[1]) && FourByteLead(bytes[0], bytes[1]) then
      if |bytes| >= 3 && Continuation(bytes[2]) then 3 else 2
    else 1
  }

  /** `glyph`, one char, put before the first chunk's text. */
  function Lead(glyph: Bytes, chunks: seq<Chunk>): seq<Chunk> {
    if chunks == [] then [Chunk(glyph, [])] else [Chunk(glyph + chunks[0].valid, chunks[0].invalid)] + chunks[1..]
  }

  function ChunksOf(bytes: Bytes): seq<Chunk> {
    if bytes == [] then []
    else if FirstWidth(bytes) > 0 then Lead(bytes[..FirstWidth(bytes)], ChunksOf(bytes[FirstWidth(bytes)..]))
    else [Chunk([], bytes[..BrokenWidth(bytes)])] + ChunksOf(bytes[BrokenWidth(bytes)..])
  }

  /** The chunks' bytes, end to end. */
  function Flatten(chunks: seq<Chunk>): Bytes {
    if chunks == [] then [] else chunks[0].valid + (chunks[0].invalid + Flatten(chunks[1..]))
  }

  /** A char breaks off after exactly `invalid`. */
  ghost predicate Breaks(invalid: Bytes, rest: Bytes) {
    invalid != [] && FirstWidth(invalid + rest) == 0 && BrokenWidth(invalid + rest) == |invalid|
  }

  /**
    Each chunk's text is well-formed and goes on until a char breaks off, or until the bytes end, and
    its invalid bytes are those of that char.
   */
  ghost predicate Canonical(chunks: seq<Chunk>) {
    chunks == []
    || (&& WellFormed(chunks[0].valid)
        && (if |chunks| == 1 && chunks[0].invalid == [] then chunks[0].valid != []
            else Breaks(chunks[0].invalid, Flatten(chunks[1..])))
        && Canonical(chunks[1..]))
  }

  // ----- One char, one broken char

  /** One well-formed char. */
  predicate IsGlyph(glyph: Bytes) {
    glyph != [] && FirstWidth(glyph) == |glyph|
  }

  lemma GlyphFirst(glyph: Bytes, rest: Bytes)
    requires IsGlyph(glyph)
    ensures FirstWidth(glyph + rest) == |glyph|
  {
  }

  lemma FirstIsGlyph(bytes: Bytes)
    requires FirstWidth(bytes) > 0
    ensures IsGlyph(bytes[..FirstWidth(bytes)])
  {
  }

  /** A well-formed char can start so. */
  ghost predicate StartsGlyph(part: Bytes) {
    exists glyph | IsGlyph(glyph) :: part <= glyph
  }

  lemma BrokenStartsGlyph(bytes: Bytes)
    requires bytes != [] && FirstWidth(bytes) == 0 && BrokenWidth(bytes) > 1
    ensures StartsGlyph(bytes[..BrokenWidth(bytes)])
  {
    var part := bytes[..BrokenWidth(bytes)];
    if |part| == 3 || ThreeByteLead(bytes[0], bytes[1]) {
      assert IsGlyph(part + [0x80]) && part <= part + [0x80];
    } else {
      assert IsGlyph(part + [0x80, 0x80]) && part <= part + [0x80, 0x80];
    }
  }

  lemma NoMoreStartsGlyph(bytes: Bytes, n: nat, glyph: Bytes)
    requires bytes != [] && FirstWidth(bytes) == 0 && n <= |bytes|
    requires IsGlyph(glyph) && bytes[..n] <= glyph
    ensures n <= BrokenWidth(bytes)
  {
    assert forall k | 0 <= k < n :: bytes[k] == bytes[..n][k] == glyph[k];
  }

  /** What is replaced is the longest start of a well-formed char that stands there, or one byte. */
  lemma BrokenIsMaximal(bytes: Bytes)
    requires bytes != [] && FirstWidth(bytes) == 0
    ensures BrokenWidth(bytes) == 1 || StartsGlyph(bytes[..BrokenWidth(bytes)])
    ensures forall n | BrokenWidth(bytes) < n <= |bytes| :: !StartsGlyph(bytes[..n])
  {
    if BrokenWidth(bytes) > 1 {
      BrokenStartsGlyph(bytes);
    }
    forall n | BrokenWidth(bytes) < n <= |bytes|
      ensures !StartsGlyph(bytes[..n])
    {
      if glyph :| IsGlyph(glyph) && bytes[..n] <= glyph {
        NoMoreStartsGlyph(bytes, n, glyph);
      }
    }
  }

  lemma Cut(head: Bytes, rest: Bytes)
    ensures (head + rest)[..|head|] == head && (head + rest)[|head|..] == rest
  {
  }

  lemma Uncut(bytes: Bytes, at: nat)
    requires at <= |bytes|
    ensures bytes == bytes[..at] + bytes[at..]
  {
  }

  lemma WellFormedLead(glyph: Bytes, text: Bytes)
    requires IsGlyph(glyph)
    ensures WellFormed(glyph + text) <==> WellFormed(text)
  {
    GlyphFirst(glyph, text);
    Cut(glyph, text);
  }

  lemma ChunksOfGlyph(glyph: Bytes, rest: Bytes)
    requires IsGlyph(glyph)
    ensures ChunksOf(glyph + rest) == Lead(glyph, ChunksOf(rest))
  {
    GlyphFirst(glyph, rest);
    Cut(glyph, rest);
  }

  lemma ChunksOfBroken(invalid: Bytes, rest: Bytes)
    requires Breaks(invalid, rest)
    ensures ChunksOf(invalid + rest) == [Chunk([], invalid)] + ChunksOf(rest)
  {
    Cut(invalid, rest);
  }

  lemma LeadFlattens(glyph: Bytes, chunks: seq<Chunk>)
    ensures Flatten(Lead(glyph, chunks)) == glyph + Flatten(chunks)
  {
    if chunks == [] {
      EmptyTail(glyph, Lead(glyph, chunks)[1..]);
    } else {
      var tail := chunks[0].invalid + Flatten(chunks[1..]);
      assert Lead(glyph, chunks)[1..] == chunks[1..];
      assert glyph + chunks[0].valid + tail == glyph + (chunks[0].valid + tail);
    }
  }

  lemma EmptyTail(glyph: Bytes, none: seq<Chunk>)
    requires none == []
    ensures glyph + ([] + Flatten(none)) == glyph + Flatten(none)
  {
  }

  lemma LeadIsCanonical(glyph: Bytes, chunks: seq<Chunk>)
    requires IsGlyph(glyph) && Canonical(chunks)
    ensures Canonical(Lead(glyph, chunks))
  {
    var all := Lead(glyph, chunks);
    if chunks == [] {
      WellFormedLead(glyph, []);
      assert glyph + [] == glyph;
      assert all[1..] == [];
    } else {
      WellFormedLead(glyph, chunks[0].valid);
      assert all[1..] == chunks[1..];
    }
  }

  // ----- Cutting

  lemma {:induction false} ChunksOfFlattens(bytes: Bytes)
    ensures Flatten(ChunksOf(bytes)) == bytes
    decreases |bytes|
  {
    if bytes != [] {
      var width := if FirstWidth(bytes) > 0 then FirstWidth(bytes) else BrokenWidth(bytes);
      var head, rest := bytes[..width], bytes[width..];
      Uncut(bytes, width);
      ChunksOfFlattens(rest);
      if FirstWidth(bytes) > 0 {
        LeadFlattens(head, ChunksOf(rest));
      } else {
        BrokenFlattens(head, ChunksOf(rest));
      }
    }
  }

  lemma BrokenFlattens(invalid: Bytes, chunks: seq<Chunk>)
    ensures Flatten([Chunk([], invalid)] + chunks) == invalid + Flatten(chunks)
  {
    assert ([Chunk([], invalid)] + chunks)[1..] == chunks;
    assert [] + (invalid + Flatten(chunks)) == invalid + Flatten(chunks);
  }

  lemma {:induction false} ChunksOfIsCanonical(bytes: Bytes)
    ensures Canonical(ChunksOf(bytes))
    decreases |bytes|
  {
    if bytes != [] {
      var width := if FirstWidth(bytes) > 0 then FirstWidth(bytes) else BrokenWidth(bytes);
      var head, rest := bytes[..width], bytes[width..];
      Uncut(bytes, width);
      ChunksOfIsCanonical(rest);
      if FirstWidth(bytes) > 0 {
        FirstIsGlyph(bytes);
        LeadIsCanonical(head, ChunksOf(rest));
      } else {
        ChunksOfFlattens(rest);
        BrokenIsCanonical(head, ChunksOf(rest));
      }
    }
  }

  lemma BrokenIsCanonical(invalid: Bytes, chunks: seq<Chunk>)
    requires Breaks(invalid, Flatten(chunks)) && Canonical(chunks)
    ensures Canonical([Chunk([], invalid)] + chunks)
  {
    assert ([Chunk([], invalid)] + chunks)[1..] == chunks;
  }

  /** There is one canonical way to cut bytes. */
  lemma {:induction false} CanonicalIsChunksOf(chunks: seq<Chunk>)
    requires Canonical(chunks)
    ensures chunks == ChunksOf(Flatten(chunks))
    decreases |chunks|, if chunks == [] then 0 else |chunks[0].valid|
  {
    if chunks != [] {
      if chunks[0].valid == [] {
        CanonicalIsChunksOf(chunks[1..]);
        ChunksOfBroken(chunks[0].invalid, Flatten(chunks[1..]));
        assert [] + (chunks[0].invalid + Flatten(chunks[1..])) == chunks[0].invalid + Flatten(chunks[1..]);
      } else {
        var glyph, shorter := OffFirst(chunks);
        CanonicalIsChunksOf(shorter);
        LeadFlattens(glyph, shorter);
        ChunksOfGlyph(glyph, Flatten(shorter));
      }
    }
  }

  /** The first char taken off a cut. */
  lemma OffFirst(chunks: seq<Chunk>) returns (glyph: Bytes, shorter: seq<Chunk>)
    requires Canonical(chunks) && chunks != [] && chunks[0].valid != []
    ensures IsGlyph(glyph) && Canonical(shorter) && chunks == Lead(glyph, shorter)
    ensures |shorter| < |chunks| || (|shorter| == |chunks| && |shorter[0].valid| < |chunks[0].valid|)
  {
    var valid := chunks[0].valid;
    glyph := valid[..FirstWidth(valid)];
    var text := valid[FirstWidth(valid)..];
    FirstIsGlyph(valid);
    Uncut(valid, FirstWidth(valid));
    WellFormedLead(glyph, text);
    if text == [] && |chunks| == 1 && chunks[0].invalid == [] {
      shorter := [];
      assert glyph + text == glyph;
      assert chunks == [chunks[0]];
    } else {
      shorter := [Chunk(text, chunks[0].invalid)] + chunks[1..];
      assert shorter[1..] == chunks[1..];
      assert chunks == [chunks[0]] + chunks[1..] && chunks[0] == Chunk(glyph + text, chunks[0].invalid);
    }
  }

  /** `chunks` cut up `bytes` as `utf8_chunks` does. */
  ghost predicate Chunked(bytes: Bytes, chunks: seq<Chunk>) {
    Flatten(chunks) == bytes && Canonical(chunks)
  }

  /** Cutting loses nothing, and there is one way to do it. */
  lemma ChunkedIsChunksOf(bytes: Bytes, chunks: seq<Chunk>)
    ensures Chunked(bytes, chunks) <==> chunks == ChunksOf(bytes)
  {
    ChunksOfFlattens(bytes);
    ChunksOfIsCanonical(bytes);
    if Chunked(bytes, chunks) {
      CanonicalIsChunksOf(chunks);
    }
  }

  // ----- The lossy text

  const REPLACEMENT_CHARACTER: Bytes := [0xEF, 0xBF, 0xBD]

  function Mark(chunk: Chunk): Bytes {
    if chunk.invalid == [] then [] else REPLACEMENT_CHARACTER
  }

  ghost function Lossy(chunks: seq<Chunk>): Bytes {
    if chunks == [] then [] else chunks[0].valid + Mark(chunks[0]) + Lossy(chunks[1..])
  }

  /** The text of bytes that need not be UTF-8. */
  ghost function LossyText(bytes: Bytes): Bytes {
    Lossy(ChunksOf(bytes))
  }

  ghost predicate ValidChunks(chunks: seq<Chunk>) {
    forall k | 0 <= k < |chunks| :: Sliceable(chunks[k].valid)
  }

  lemma {:induction false} CanonicalIsValid(chunks: seq<Chunk>)
    requires Canonical(chunks)
    ensures ValidChunks(chunks)
  {
    if chunks != [] {
      WellFormedIsSliceable(chunks[0].valid);
      CanonicalIsValid(chunks[1..]);
    }
  }

  lemma {:induction false} LossyIsSliceable(chunks: seq<Chunk>)
    requires ValidChunks(chunks)
    ensures Sliceable(Lossy(chunks))
  {
    if chunks != [] {
      LossyIsSliceable(chunks[1..]);
      SliceableConcat(chunks[0].valid, Mark(chunks[0]));
      SliceableConcat(chunks[0].valid + Mark(chunks[0]), Lossy(chunks[1..]));
    }
  }

  /** Valid UTF-8 is its own lossy text. */
  lemma WellFormedDecodesToItself(bytes: Bytes)
    requires WellFormed(bytes)
    ensures LossyText(bytes) == bytes
  {
    if bytes != [] {
      var whole := [Chunk(bytes, [])];
      OneChunk(bytes, whole, whole[1..]);
      ChunkedIsChunksOf(bytes, whole);
    }
  }

  lemma OneChunk(bytes: Bytes, whole: seq<Chunk>, none: seq<Chunk>)
    requires WellFormed(bytes) && bytes != [] && whole == [Chunk(bytes, [])] && none == whole[1..]
    ensures Chunked(bytes, whole) && Lossy(whole) == bytes
  {
    assert Flatten(none) == [] && Lossy(none) == [];
    assert bytes + ([] + []) == bytes && bytes + [] + [] == bytes;
  }
}
