/**
  The windows a long text is scanned in: the line-aligned walk of `scan_windows` and the sliding
  walk shared by `detect_sliding` and `detect_copying`.

  Both walks produce `Proper` windows, which is all the exactness proof in ScanExactness needs.
 */
module Windows {
  import opened Arithmetic
  import opened Utf8

  const MAX_REDACTABLE_BYTES: nat := 512 * 1024
  const MAX_MATCH_BYTES: nat := 32 * 1024
  const MAX_RULE_RADIUS: nat := 16 * 1024
  const MAX_LOCAL_CONTEXT_BYTES: nat := 1024
  const WINDOW_OVERLAP_BYTES: nat := 96 * 1024
  const EDGE_MARGIN_BYTES: nat := MAX_RULE_RADIUS + MAX_LOCAL_CONTEXT_BYTES
  const MIN_WINDOW_ADVANCE_BYTES: nat := (MAX_REDACTABLE_BYTES - WINDOW_OVERLAP_BYTES) / 2

  /** The compile-time assertions of the source. */
  lemma ConstantsFit()
    ensures MAX_MATCH_BYTES + 2 * MAX_RULE_RADIUS + 2 * MAX_LOCAL_CONTEXT_BYTES <= WINDOW_OVERLAP_BYTES
    ensures 2 * WINDOW_OVERLAP_BYTES <= MAX_REDACTABLE_BYTES
    ensures MAX_MATCH_BYTES + 2 * EDGE_MARGIN_BYTES <= WINDOW_OVERLAP_BYTES
    ensures EDGE_MARGIN_BYTES < MIN_WINDOW_ADVANCE_BYTES
  {
  }

  function Max(a: nat, b: nat): (r: nat)
  {
    if a < b then b else a
  }

  /** Half-open byte range of the text. */
  datatype Window = Window(start: nat, end: nat)

  // ----- What every walk promises

  ghost predicate InText(text: Bytes, w: Window) {
    && w.start <= w.end <= |text|
    && w.end - w.start <= MAX_REDACTABLE_BYTES
    && Boundary(text, w.start)
    && Boundary(text, w.end)
  }

  /** `next` follows a window that stops short of the end of the text. */
  ghost predicate Follows(text: Bytes, w: Window, next: Window) {
    && w.end < |text|
    && w.end <= next.end
    && next.start + WINDOW_OVERLAP_BYTES <= w.end
    && w.start + MIN_WINDOW_ADVANCE_BYTES <= next.start
  }

  /** The windows cover the text from left to right and only the last one reaches its end. */
  ghost predicate Proper(text: Bytes, ws: seq<Window>) {
    && |ws| > 0
    && ws[0].start == 0
    && ws[|ws| - 1].end == |text|
    && (forall k | 0 <= k < |ws| :: InText(text, ws[k]))
    && (forall k | 0 <= k < |ws| - 1 :: Follows(text, ws[k], ws[k + 1]))
  }

  // ----- The sliding walk

  /** The end of the window opened at `start`: as much text as fits, cut back to a boundary. */
  function WindowEnd(text: Bytes, start: nat): (end: nat)
    requires start <= |text| && Boundary(text, start)
    ensures start <= end <= |text| && end - start <= MAX_REDACTABLE_BYTES
    ensures Boundary(text, end)
  {
    FloorIsLargest(text, start + MAX_REDACTABLE_BYTES);
    Floor(text, start + MAX_REDACTABLE_BYTES)
  }

  /** `window_advance`. */
  function Advance(window: Bytes): (cut: nat)
    ensures cut <= |window|
  {
    Floor(window, SaturatingSub(|window|, WINDOW_OVERLAP_BYTES))
  }

  /** A window that stops short of the end is at most three bytes short of full. */
  lemma FullUnlessLast(text: Bytes, start: nat)
    requires Sliceable(text) && start <= |text| && Boundary(text, start)
    ensures WindowEnd(text, start) < |text| ==> MAX_REDACTABLE_BYTES <= WindowEnd(text, start) - start + 3
    ensures |text| <= start + MAX_REDACTABLE_BYTES ==> WindowEnd(text, start) == |text|
  {
    FloorIsNear(text, start + MAX_REDACTABLE_BYTES);
  }

  lemma AdvanceMoves(text: Bytes, start: nat)
    requires Sliceable(text) && start <= |text| && Boundary(text, start)
    requires WindowEnd(text, start) < |text|
    ensures
      var end := WindowEnd(text, start);
      var next := start + Advance(text[start..end]);
      && start + MIN_WINDOW_ADVANCE_BYTES <= next
      && next + WINDOW_OVERLAP_BYTES <= end
      && next == Floor(text, end - WINDOW_OVERLAP_BYTES)
  {
    var end := WindowEnd(text, start);
    FullUnlessLast(text, start);
    SliceFloor(text, start, end, end - start - WINDOW_OVERLAP_BYTES);
    FloorIsNear(text, end - WINDOW_OVERLAP_BYTES);
  }

  lemma EndsAdvance(text: Bytes, start: nat, next: nat)
    requires Sliceable(text) && start <= next <= |text|
    requires Boundary(text, start) && Boundary(text, next)
    ensures WindowEnd(text, start) <= WindowEnd(text, next)
  {
    FloorIsLargest(text, next + MAX_REDACTABLE_BYTES);
  }

  ghost function SlideWindows(text: Bytes, start: nat): (ws: seq<Window>)
    requires Sliceable(text) && start <= |text| && Boundary(text, start)
    ensures |ws| > 0 && ws[0] == Window(start, WindowEnd(text, start))
    decreases |text| - start
  {
    var end := WindowEnd(text, start);
    if end == |text| then [Window(start, end)]
    else
      AdvanceMoves(text, start);
      [Window(start, end)] + SlideWindows(text, start + Advance(text[start..end]))
  }

  ghost predicate ProperFrom(text: Bytes, ws: seq<Window>) {
    && |ws| > 0
    && ws[|ws| - 1].end == |text|
    && (forall k | 0 <= k < |ws| :: InText(text, ws[k]))
    && (forall k | 0 <= k < |ws| - 1 :: Follows(text, ws[k], ws[k + 1]))
  }

  lemma PrependWindow(text: Bytes, w: Window, ws: seq<Window>)
    requires ProperFrom(text, ws) && InText(text, w) && Follows(text, w, ws[0])
    ensures ProperFrom(text, [w] + ws)
  {
    var all := [w] + ws;
    forall k | 0 <= k < |all| - 1
      ensures Follows(text, all[k], all[k + 1])
    {
      if k > 0 {
        assert Follows(text, ws[k - 1], ws[k]);
      }
    }
  }

  lemma {:induction false} SlideWindowsFrom(text: Bytes, start: nat)
    requires Sliceable(text) && start <= |text| && Boundary(text, start)
    ensures ProperFrom(text, SlideWindows(text, start))
    decreases |text| - start
  {
    var end := WindowEnd(text, start);
    if end < |text| {
      AdvanceMoves(text, start);
      var next := start + Advance(text[start..end]);
      EndsAdvance(text, start, next);
      var rest := SlideWindows(text, next);
      SlideWindowsFrom(text, next);
      PrependWindow(text, Window(start, end), rest);
      assert SlideWindows(text, start) == [Window(start, end)] + rest;
    }
  }

  /** Sliding covers every text with overlapping, advancing windows on char boundaries. */
  lemma SlideWindowsProper(text: Bytes)
    requires Sliceable(text)
    ensures Proper(text, SlideWindows(text, 0))
  {
    SlideWindowsFrom(text, 0);
  }

  // ----- The line-aligned walk

  predicate LineStart(text: Bytes, at: int) {
    0 < at <= |text| && text[at - 1] == NEWLINE
  }

  /** The latest line start in `[floor, target]`, or `target` when there is none. */
  ghost predicate IsLatestLineStart(text: Bytes, floor: nat, target: nat, next: nat) {
    if exists at | floor <= at <= target :: LineStart(text, at) then
      && floor <= next <= target
      && LineStart(text, next)
      && forall at | next < at <= target :: !LineStart(text, at)
    else
      next == target
  }

  /** How `scan_windows` opens the window after one that stops short of the end. */
  ghost predicate OpensOnLine(text: Bytes, w: Window, next: Window) {
    && w.end >= WINDOW_OVERLAP_BYTES
    && IsLatestLineStart(text, w.start + MIN_WINDOW_ADVANCE_BYTES,
                         Floor(text, w.end - WINDOW_OVERLAP_BYTES), next.start)
  }

  ghost predicate Filled(text: Bytes, w: Window) {
    w.start <= |text| && Boundary(text, w.start) && w.end == WindowEnd(text, w.start)
  }

  ghost predicate LineAligned(text: Bytes, ws: seq<Window>) {
    && (forall k | 0 <= k < |ws| :: Filled(text, ws[k]))
    && (forall k | 0 <= k < |ws| - 1 :: OpensOnLine(text, ws[k], ws[k + 1]))
  }

  /** `rfind('\n')` over `text[from..to]`, as the line start just past the newline. */
  method LastLineStart(text: Bytes, from: nat, to: nat) returns (found: bool, at: nat)
    requires from <= to <= |text|
    ensures found <==> exists k | from < k <= to :: LineStart(text, k)
    ensures found ==> from < at <= to && LineStart(text, at) && forall k | at < k <= to :: !LineStart(text, k)
  {
    at := to;
    while at > from && text[at - 1] != NEWLINE
      invariant from <= at <= to
      invariant forall k | at < k <= to :: !LineStart(text, k)
    {
      at := at - 1;
    }
    found := at > from;
    assert found ==> LineStart(text, at);
  }

  /** Starting the newline search just below `floor` finds what a search of the whole text would. */
  method NextStart(text: Bytes, start: nat, end: nat) returns (next: nat)
    requires Sliceable(text) && start <= |text| && Boundary(text, start)
    requires end == WindowEnd(text, start) < |text|
    ensures InText(text, Window(start, end))
    ensures OpensOnLine(text, Window(start, end), Window(next, end))
    ensures start + MIN_WINDOW_ADVANCE_BYTES <= next <= end - WINDOW_OVERLAP_BYTES
    ensures Boundary(text, next)
  {
    FullUnlessLast(text, start);
    FloorIsNear(text, end - WINDOW_OVERLAP_BYTES);
    var target := CharFloor(text, end - WINDOW_OVERLAP_BYTES);
    var floor := start + MIN_WINDOW_ADVANCE_BYTES;
    var searchFrom := CharFloor(text, floor - 1);
    searchFrom := if searchFrom < target then searchFrom else target;
    var found, at := LastLineStart(text, searchFrom, target);
    next := if found && at >= floor then at else target;
    if next != target {
      LineStartIsBoundary(text, next);
    }
    // The source also applies `max(start + 1)`, which never changes the start.
    next := Max(next, start + 1);
  }

  lemma LineStartIsBoundary(text: Bytes, at: nat)
    requires Sliceable(text) && LineStart(text, at)
    ensures Boundary(text, at)
  {
    if at < |text| {
      assert AsciiStandsAlone(text, at);
    }
  }

  /** The windows before the one about to open, and how that one follows them. */
  ghost predicate Opening(text: Bytes, ws: seq<Window>, next: Window) {
    && InText(text, next) && Filled(text, next)
    && (if |ws| == 0 then next.start == 0 else
          && ws[0].start == 0
          && Follows(text, ws[|ws| - 1], next)
          && OpensOnLine(text, ws[|ws| - 1], next))
    && (forall k | 0 <= k < |ws| :: InText(text, ws[k]))
    && (forall k | 0 <= k < |ws| - 1 :: Follows(text, ws[k], ws[k + 1]))
    && LineAligned(text, ws)
  }

  lemma OpenNext(text: Bytes, ws: seq<Window>, w: Window, next: Window)
    requires Opening(text, ws, w)
    requires InText(text, next) && Filled(text, next)
    requires Follows(text, w, next) && OpensOnLine(text, w, next)
    ensures Opening(text, ws + [w], next)
  {
    ChainGrows(text, ws, w);
    AlignedGrows(text, ws, w);
    var all := ws + [w];
    assert all[|all| - 1] == w;
    assert all[0].start == 0;
  }

  lemma ChainGrows(text: Bytes, ws: seq<Window>, w: Window)
    requires Opening(text, ws, w)
    ensures forall k | 0 <= k < |ws + [w]| :: InText(text, (ws + [w])[k])
    ensures forall k | 0 <= k < |ws + [w]| - 1 :: Follows(text, (ws + [w])[k], (ws + [w])[k + 1])
  {
    forall k | 0 <= k < |ws|
      ensures Follows(text, (ws + [w])[k], (ws + [w])[k + 1])
    {
      if k < |ws| - 1 {
        assert Follows(text, ws[k], ws[k + 1]);
      }
    }
  }

  lemma AlignedGrows(text: Bytes, ws: seq<Window>, w: Window)
    requires Opening(text, ws, w)
    ensures LineAligned(text, ws + [w])
  {
    forall k | 0 <= k < |ws|
      ensures OpensOnLine(text, (ws + [w])[k], (ws + [w])[k + 1])
    {
      if k < |ws| - 1 {
        assert OpensOnLine(text, ws[k], ws[k + 1]);
      }
    }
  }

  lemma CloseWalk(text: Bytes, ws: seq<Window>, w: Window)
    requires Opening(text, ws, w) && w.end == |text|
    ensures Proper(text, ws + [w]) && LineAligned(text, ws + [w])
  {
    ChainGrows(text, ws, w);
    AlignedGrows(text, ws, w);
  }

  /** `scan_windows`. */
  method ScanWindows(text: Bytes) returns (ws: seq<Window>)
    requires Sliceable(text)
    ensures Proper(text, ws)
    ensures LineAligned(text, ws)
  {
    ws := [];
    var start := 0;
    while true
      invariant start <= |text| && Boundary(text, start)
      invariant Opening(text, ws, Window(start, WindowEnd(text, start)))
      decreases |text| - start
    {
      var end := CharFloor(text, start + MAX_REDACTABLE_BYTES);
      ghost var before := ws;
      ws := ws + [Window(start, end)];
      if end >= |text| {
        CloseWalk(text, before, Window(start, end));
        return;
      }
      var next := NextStart(text, start, end);
      EndsAdvance(text, start, next);
      OpenNext(text, before, Window(start, end), Window(next, WindowEnd(text, next)));
      start := next;
    }
  }
}
