/**
  Texts as the byte strings Rust's `&str` holds, with its notion of a char boundary.

  The windowing code needs three consequences of UTF-8 only: a text never starts with a
  continuation byte, never holds four of them in a row, and never has one after an ASCII byte
  (`Sliceable`). `WellFormed` is the byte syntax of section 4 of RFC 3629, and
  `WellFormedIsSliceable` derives the consequences.
 */
module Utf8 {
  newtype Byte = x: int | 0 <= x < 256

  type Bytes = seq<Byte>

  const NEWLINE: Byte := 10

  predicate Continuation(b: Byte) {
    0x80 <= b <= 0xBF
  }

  /** `str::is_char_boundary`. */
  predicate Boundary(text: Bytes, index: int) {
    || index == 0
    || index == |text|
    || (0 < index < |text| && !Continuation(text[index]))
  }

  predicate LeadWithinFour(text: Bytes, index: nat)
    requires index + 4 <= |text|
  {
    !(Continuation(text[index]) && Continuation(text[index + 1])
      && Continuation(text[index + 2]) && Continuation(text[index + 3]))
  }

  predicate AsciiStandsAlone(text: Bytes, index: nat)
    requires 0 < index < |text|
  {
    text[index - 1] < 0x80 ==> !Continuation(text[index])
  }

  ghost predicate Sliceable(text: Bytes) {
    && (|text| > 0 ==> !Continuation(text[0]))
    && (forall index: nat | index + 4 <= |text| :: LeadWithinFour(text, index))
    && forall index: nat | 0 < index < |text| :: AsciiStandsAlone(text, index)
  }

  /** Width of the first char when `text` starts with a well-formed one, otherwise 0. */
  function FirstWidth(text: Bytes): (width: nat)
    ensures width <= 4 && width <= |text|
    ensures width > 0 ==> !Continuation(text[0])
    ensures forall k | 0 < k < width :: Continuation(text[k])
  {
    if |text| >= 1 && text[0] <= 0x7F then 1
    else if |text| >= 2 && 0xC2 <= text[0] <= 0xDF && Continuation(text[1]) then 2
    else if |text| >= 3 && ThreeByteLead(text[0], text[1]) && Continuation(text[1]) && Continuation(text[2]) then 3
    else if |text| >= 4 && FourByteLead(text[0], text[1]) && Continuation(text[1]) && Continuation(text[2])
            && Continuation(text[3]) then 4
    else 0
  }

  predicate ThreeByteLead(first: Byte, second: Byte) {
    || (first == 0xE0 && 0xA0 <= second)
    || 0xE1 <= first <= 0xEC
    || (first == 0xED && second <= 0x9F)
    || 0xEE <= first <= 0xEF
  }

  predicate FourByteLead(first: Byte, second: Byte) {
    || (first == 0xF0 && 0x90 <= second)
    || 0xF1 <= first <= 0xF3
    || (first == 0xF4 && second <= 0x8F)
  }

  predicate WellFormed(text: Bytes) {
    text == [] || (FirstWidth(text) > 0 && WellFormed(text[FirstWidth(text)..]))
  }

  lemma {:induction false} WellFormedIsSliceable(text: Bytes)
    requires WellFormed(text)
    ensures Sliceable(text)
  {
    if text != [] {
      var width := FirstWidth(text);
      var rest := text[width..];
      WellFormedIsSliceable(rest);
      forall index: nat | index + 4 <= |text|
        ensures LeadWithinFour(text, index)
      {
        if index >= width {
          assert LeadWithinFour(rest, index - width);
        } else if index > 0 {
          assert text[width] == rest[0];
        }
      }
      forall index: nat | 0 < index < |text|
        ensures AsciiStandsAlone(text, index)
      {
        if index > width {
          assert AsciiStandsAlone(rest, index - width);
        } else if index == width {
          assert text[width] == rest[0];
        }
      }
    }
  }

  /** Largest char boundary at or below `index`, clamped to the length. */
  function Floor(text: Bytes, index: nat): (at: nat)
    ensures at <= index && at <= |text|
    ensures Boundary(text, at)
  {
    if index > |text| then |text|
    else if Boundary(text, index) then index
    else Floor(text, index - 1)
  }

  lemma {:induction false} FloorIsLargest(text: Bytes, index: nat)
    ensures forall k | Floor(text, index) < k <= index && k <= |text| :: !Boundary(text, k)
  {
    if index <= |text| && !Boundary(text, index) {
      FloorIsLargest(text, index - 1);
    }
  }

  method CharFloor(text: Bytes, index: nat) returns (at: nat)
    ensures at == Floor(text, index)
  {
    at := if index < |text| then index else |text|;
    while !Boundary(text, at)
      invariant at <= |text| && Floor(text, at) == Floor(text, index)
      decreases at
    {
      at := at - 1;
    }
  }

  /** A floor gives up at most three bytes. */
  lemma FloorIsNear(text: Bytes, index: nat)
    requires Sliceable(text)
    ensures index <= |text| ==> index <= Floor(text, index) + 3
    ensures index >= |text| ==> Floor(text, index) == |text|
  {
    FloorIsLargest(text, index);
    if 3 <= index < |text| {
      assert LeadWithinFour(text, index - 3);
      assert exists k | index - 3 <= k <= index :: Boundary(text, k) by {
        if !Boundary(text, index) && !Boundary(text, index - 1) && !Boundary(text, index - 2) {
          assert Boundary(text, index - 3);
        }
      }
    }
  }

  /** Any boundary at or below `index` with no boundary above it up to `index` is the floor. */
  lemma FloorIsUnique(text: Bytes, index: nat, at: nat)
    requires at <= index && at <= |text| && Boundary(text, at)
    requires forall k | at < k <= index && k <= |text| :: !Boundary(text, k)
    ensures Floor(text, index) == at
  {
    FloorIsLargest(text, index);
  }

  /** Boundaries of a slice are the boundaries of the text between its two ends. */
  lemma SliceBoundary(text: Bytes, start: nat, end: nat, index: nat)
    requires start <= end <= |text| && index <= end - start
    requires Boundary(text, start) && Boundary(text, end)
    requires Sliceable(text)
    ensures Boundary(text[start..end], index) <==> Boundary(text, start + index)
  {
  }

  lemma SliceFloor(text: Bytes, start: nat, end: nat, index: nat)
    requires start <= end <= |text| && index <= end - start
    requires Boundary(text, start) && Boundary(text, end)
    requires Sliceable(text)
    ensures start + Floor(text[start..end], index) == Floor(text, start + index)
  {
    var slice := text[start..end];
    var at := Floor(slice, index);
    FloorIsLargest(slice, index);
    SliceBoundary(text, start, end, at);
    forall k | start + at < k <= start + index
      ensures !Boundary(text, k)
    {
      SliceBoundary(text, start, end, k - start);
    }
    FloorIsUnique(text, start + index, start + at);
  }

  lemma SliceableParts(text: Bytes, cut: nat)
    requires Sliceable(text) && cut <= |text| && Boundary(text, cut)
    ensures Sliceable(text[..cut]) && Sliceable(text[cut..])
  {
    forall index: nat | index + 4 <= cut
      ensures LeadWithinFour(text[..cut], index)
    {
      assert LeadWithinFour(text, index);
    }
    forall index: nat | index + 4 <= |text| - cut
      ensures LeadWithinFour(text[cut..], index)
    {
      assert LeadWithinFour(text, cut + index);
    }
    forall index: nat | 0 < index < cut
      ensures AsciiStandsAlone(text[..cut], index)
    {
      assert AsciiStandsAlone(text, index);
    }
    forall index: nat | 0 < index < |text| - cut
      ensures AsciiStandsAlone(text[cut..], index)
    {
      assert AsciiStandsAlone(text, cut + index);
    }
  }

  lemma SliceableConcat(left: Bytes, right: Bytes)
    requires Sliceable(left) && Sliceable(right)
    ensures Sliceable(left + right)
    ensures Boundary(left + right, |left|)
  {
    var text := left + right;
    forall index: nat | index + 4 <= |text|
      ensures LeadWithinFour(text, index)
    {
      if index + 4 <= |left| {
        assert LeadWithinFour(left, index);
      } else if index >= |left| {
        assert LeadWithinFour(right, index - |left|);
      } else {
        assert text[|left|] == right[0];
      }
    }
    forall index: nat | 0 < index < |text|
      ensures AsciiStandsAlone(text, index)
    {
      if index < |left| {
        assert AsciiStandsAlone(left, index);
      } else if index > |left| {
        assert AsciiStandsAlone(right, index - |left|);
      }
    }
  }
}
