/**
  `WindowScan` and the three verdict-only walks that drive it.

  Each walk is proved to return what the function `Walk` of ScanExactness returns over its windows,
  to leave the same `claimedTo` behind and to scan the same windows in the same order. The copying
  walk is the delicate one: it never holds more than a window of the lossy text, and it must still
  cut exactly where the in-place walk over the whole lossy text would.
 */
module WindowScanning {
  import opened Arithmetic
  import opened Outcomes
  import opened Utf8
  import opened Windows
  import opened ScanExactness
  import opened LossyDecoding

  class WindowScan {
    const scan: Scanner
    /** Absolute end of the range earlier windows have claimed. */
    var claimedTo: nat
    /** Every window scanned, in order. */
    ghost var seen: seq<Seen>

    constructor (scan: Scanner)
      ensures this.scan == scan && claimedTo == 0 && seen == []
    {
      this.scan := scan;
      claimedTo := 0;
      seen := [];
    }

    /** `WindowScan::findings`: scans one window and keeps the findings that are its to report. */
    method Findings(window: Bytes, start: nat, isLast: bool) returns (r: Result<seq<Finding>, ErrorKind>)
      modifies this
      ensures seen == old(seen) + [Seen(start, start + |window|, isLast)]
      ensures match scan(window)
              case Failed(kind) => r == Err(kind) && claimedTo == old(claimedTo)
              case Found(fs) =>
                && r == Ok(Retain(fs, start, |window|, isLast, old(claimedTo)))
                && claimedTo == start + KeepTo(|window|, isLast)
    {
      seen := seen + [Seen(start, start + |window|, isLast)];
      var report := scan(window);
      if report.Failed? {
        return Err(report.kind);
      }
      var fs := report.findings;
      var kept: seq<Finding> := [];
      for i := 0 to |fs|
        invariant claimedTo == old(claimedTo)
        invariant seen == old(seen) + [Seen(start, start + |window|, isLast)]
        invariant kept + Retain(fs[i..], start, |window|, isLast, old(claimedTo))
               == Retain(fs, start, |window|, isLast, old(claimedTo))
      {
        assert fs[i..][1..] == fs[i + 1..] && fs[i..][0] == fs[i];
        if Keeps(fs[i], start, |window|, isLast, claimedTo) {
          kept := kept + [fs[i]];
        }
      }
      assert kept == Retain(fs, start, |window|, isLast, old(claimedTo));
      claimedTo := start + KeepTo(|window|, isLast);
      return Ok(kept);
    }

    /** `!findings(..)?.is_empty()`, the test every verdict-only walk makes. */
    method Hits(window: Bytes, start: nat, isLast: bool) returns (r: Result<bool, ErrorKind>)
      modifies this
      ensures seen == old(seen) + [Seen(start, start + |window|, isLast)]
      ensures Turn(r, claimedTo) == ScanTurn(scan, window, start, isLast, old(claimedTo))
    {
      var kept := Findings(window, start, isLast);
      if kept.Err? {
        return Err(kept.error);
      }
      return Ok(kept.value != []);
    }

    /** `WindowScan::slide`: scans a full buffer and, when it is clean, drops all but the overlap. */
    method Slide(buffer: Bytes, start: nat) returns (r: Result<bool, ErrorKind>, rest: Bytes, next: nat)
      modifies this
      ensures seen == old(seen) + [Seen(start, start + |buffer|, false)]
      ensures Turn(r, claimedTo) == ScanTurn(scan, buffer, start, false, old(claimedTo))
      ensures r == Ok(false) ==> rest == buffer[Advance(buffer)..] && next == start + Advance(buffer)
    {
      rest, next := buffer, start;
      r := Hits(buffer, start, false);
      if r != Ok(false) {
        return;
      }
      var cut := CharFloor(buffer, SaturatingSub(|buffer|, WINDOW_OVERLAP_BYTES));
      rest, next := buffer[cut..], start + cut;
    }
  }

  // ----- detect_windowed

  /** A walk under way: its scanner and text, and what it will come to. */
  datatype Course = Course(scan: Scanner, text: Bytes, goal: Verdict)

  /** `Redactor::detect_windowed` over the line-aligned windows it computes. */
  method DetectWindowed(state: WindowScan, text: Bytes) returns (r: Result<bool, ErrorKind>, ws: seq<Window>)
    requires Sliceable(text)
    modifies state
    ensures Proper(text, ws) && LineAligned(text, ws)
    ensures Verdict(r, state.claimedTo, state.seen) == Walk(state.scan, text, ws, old(state.claimedTo), old(state.seen))
  {
    ws := ScanWindows(text);
    r := WalkWindows(state, text, ws);
  }

  /** The loop of `detect_windowed`. */
  method WalkWindows(state: WindowScan, text: Bytes, ws: seq<Window>) returns (r: Result<bool, ErrorKind>)
    requires AllInText(text, ws) && forall k | 0 <= k < |ws| :: InText(text, ws[k])
    modifies state
    ensures Verdict(r, state.claimedTo, state.seen) == Walk(state.scan, text, ws, old(state.claimedTo), old(state.seen))
  {
    ghost var c := Course(state.scan, text, Walk(state.scan, text, ws, state.claimedTo, state.seen));
    assert ws[0..] == ws;
    for i := 0 to |ws|
      invariant OnList(c, ws, i, state.claimedTo, state.seen)
    {
      r := WindowOnce(state, text, ws, i, c);
      if r != Ok(false) {
        return;
      }
    }
    r := Ok(false);
  }

  /** One turn of the loop of `detect_windowed`. */
  method WindowOnce(state: WindowScan, text: Bytes, ws: seq<Window>, i: nat, ghost c: Course)
    returns (r: Result<bool, ErrorKind>)
    requires c.scan == state.scan && c.text == text && i < |ws| && InText(text, ws[i])
    requires OnList(c, ws, i, state.claimedTo, state.seen)
    modifies state
    ensures r != Ok(false) ==> c.goal == Verdict(r, state.claimedTo, state.seen)
    ensures r == Ok(false) ==> OnList(c, ws, i + 1, state.claimedTo, state.seen)
  {
    var w := ws[i];
    ghost var turn := ScanTurn(c.scan, text[w.start..w.end], w.start, w.end == |text|, state.claimedTo);
    ghost var after := state.seen + [Seen(w.start, w.end, w.end == |text|)];
    NextOnList(c, ws, i, state.claimedTo, state.seen);
    r := state.Hits(text[w.start..w.end], w.start, w.end == |text|);
    assert turn == Turn(r, state.claimedTo) && after == state.seen;
  }

  /** The walk has scanned `ws[..i]`. */
  ghost predicate OnList(c: Course, ws: seq<Window>, i: nat, claimedTo: nat, seen: seq<Seen>) {
    && i <= |ws| && AllInText(c.text, ws)
    && c.goal == Walk(c.scan, c.text, ws[i..], claimedTo, seen)
  }

  lemma NextOnList(c: Course, ws: seq<Window>, i: nat, claimedTo: nat, seen: seq<Seen>)
    requires OnList(c, ws, i, claimedTo, seen) && i < |ws| && InText(c.text, ws[i])
    ensures
      var w := ws[i];
      var turn := ScanTurn(c.scan, c.text[w.start..w.end], w.start, w.end == |c.text|, claimedTo);
      var after := seen + [Seen(w.start, w.end, w.end == |c.text|)];
      if turn.result == Ok(false) then OnList(c, ws, i + 1, turn.claimedTo, after)
      else c.goal == Verdict(turn.result, turn.claimedTo, after)
  {
    assert ws[i..][1..] == ws[i + 1..];
    assert ws[i..][0] == ws[i];
  }

  // ----- detect_sliding

  /** What a sliding walk that resumes at `start` does. */
  ghost function SlideWalk(scan: Scanner, text: Bytes, start: nat, claimedTo: nat, seen: seq<Seen>): Verdict
    requires Sliceable(text) && start <= |text| && Boundary(text, start)
  {
    SlideWindowsFrom(text, start);
    var ws := SlideWindows(text, start);
    assert forall k | 0 <= k < |ws| :: InText(text, ws[k]);
    Walk(scan, text, ws, claimedTo, seen)
  }

  /** One turn of the sliding walk. */
  lemma SlideWalkTurns(scan: Scanner, text: Bytes, start: nat, claimedTo: nat, seen: seq<Seen>)
    requires Sliceable(text) && start <= |text| && Boundary(text, start)
    ensures
      var end := WindowEnd(text, start);
      var turn := ScanTurn(scan, text[start..end], start, end == |text|, claimedTo);
      var after := seen + [Seen(start, end, end == |text|)];
      if turn.result == Ok(false) && end < |text| then
        && 0 < Advance(text[start..end]) <= end - start
        && Boundary(text, start + Advance(text[start..end]))
        && SlideWalk(scan, text, start, claimedTo, seen)
           == SlideWalk(scan, text, start + Advance(text[start..end]), turn.claimedTo, after)
      else SlideWalk(scan, text, start, claimedTo, seen) == Verdict(turn.result, turn.claimedTo, after)
  {
    var end := WindowEnd(text, start);
    var ws := SlideWindows(text, start);
    SlideWindowsFrom(text, start);
    assert forall k | 0 <= k < |ws| :: InText(text, ws[k]);
    if end < |text| {
      AdvanceMoves(text, start);
      assert ws[1..] == SlideWindows(text, start + Advance(text[start..end]));
    } else {
      var turn := ScanTurn(scan, text[start..end], start, true, claimedTo);
      assert ws[1..] == ws[..0];
      Scanned(scan, text, ws[1..], turn.claimedTo, seen + [Seen(start, end, true)]);
    }
  }

  lemma Scanned(scan: Scanner, text: Bytes, ws: seq<Window>, claimedTo: nat, seen: seq<Seen>)
    requires AllInText(text, ws) && ws == []
    ensures Walk(scan, text, ws, claimedTo, seen) == Verdict(Ok(false), claimedTo, seen)
  {
  }

  /** The walk stands at `start` with this claim and record. */
  ghost predicate InStep(c: Course, start: nat, claimedTo: nat, seen: seq<Seen>) {
    && Sliceable(c.text) && start <= |c.text| && Boundary(c.text, start)
    && c.goal == SlideWalk(c.scan, c.text, start, claimedTo, seen)
  }

  /** Scanning the window at `start` takes the walk one step further or ends it. */
  lemma StepOrEnd(c: Course, start: nat, claimedTo: nat, seen: seq<Seen>, window: Bytes, isLast: bool)
    requires InStep(c, start, claimedTo, seen)
    requires window == c.text[start..WindowEnd(c.text, start)] && isLast == (WindowEnd(c.text, start) == |c.text|)
    ensures
      var turn := ScanTurn(c.scan, window, start, isLast, claimedTo);
      var after := seen + [Seen(start, start + |window|, isLast)];
      if turn.result == Ok(false) && !isLast then
        && Advance(window) > 0
        && InStep(c, start + Advance(window), turn.claimedTo, after)
      else c.goal == Verdict(turn.result, turn.claimedTo, after)
  {
    SlideWalkTurns(c.scan, c.text, start, claimedTo, seen);
  }

  /** The walk after its window was scanned with this outcome. */
  lemma Stepped(c: Course, start: nat, claimedTo: nat, seen: seq<Seen>, window: Bytes, isLast: bool,
                r: Result<bool, ErrorKind>, next: nat, claimedTo': nat, seen': seq<Seen>)
    requires InStep(c, start, claimedTo, seen)
    requires window == c.text[start..WindowEnd(c.text, start)] && isLast == (WindowEnd(c.text, start) == |c.text|)
    requires Turn(r, claimedTo') == ScanTurn(c.scan, window, start, isLast, claimedTo)
    requires next == start + Advance(window) && seen' == seen + [Seen(start, start + |window|, isLast)]
    ensures r != Ok(false) || isLast ==> c.goal == Verdict(r, claimedTo', seen')
    ensures r == Ok(false) && !isLast ==> start < next <= |c.text| && InStep(c, next, claimedTo', seen')
  {
    StepOrEnd(c, start, claimedTo, seen, window, isLast);
  }

  ghost function CourseOver(scan: Scanner, text: Bytes, claimedTo: nat, seen: seq<Seen>): (c: Course)
    requires Sliceable(text)
    ensures InStep(c, 0, claimedTo, seen)
  {
    Course(scan, text, SlideWalk(scan, text, 0, claimedTo, seen))
  }

  /** One turn of the loop of `detect_sliding`: scan the window at `start` and move past it. */
  method SlideOnce(state: WindowScan, text: Bytes, start: nat, ghost c: Course)
    returns (r: Result<bool, ErrorKind>, isLast: bool, next: nat)
    requires c.scan == state.scan && c.text == text && InStep(c, start, state.claimedTo, state.seen)
    modifies state
    ensures r != Ok(false) || isLast ==> c.goal == Verdict(r, state.claimedTo, state.seen)
    ensures r == Ok(false) && !isLast ==> start < next <= |text| && InStep(c, next, state.claimedTo, state.seen)
  {
    var end := CharFloor(text, start + MAX_REDACTABLE_BYTES);
    isLast := end == |text|;
    var window := text[start..end];
    r := state.Hits(window, start, isLast);
    var cut := CharFloor(window, SaturatingSub(|window|, WINDOW_OVERLAP_BYTES));
    next := start + cut;
    Stepped(c, start, old(state.claimedTo), old(state.seen), window, isLast, r, next, state.claimedTo, state.seen);
  }

  /** `Redactor::detect_sliding`. */
  method DetectSliding(state: WindowScan, text: Bytes) returns (r: Result<bool, ErrorKind>)
    requires Sliceable(text)
    modifies state
    ensures Verdict(r, state.claimedTo, state.seen)
         == SlideWalk(state.scan, text, 0, old(state.claimedTo), old(state.seen))
  {
    var start := 0;
    ghost var c := CourseOver(state.scan, text, state.claimedTo, state.seen);
    while true
      invariant InStep(c, start, state.claimedTo, state.seen)
      decreases |text| - start
    {
      var isLast;
      r, isLast, start := SlideOnce(state, text, start, c);
      if r != Ok(false) {
        return;
      }
      if isLast {
        return;
      }
    }
  }

  // ----- detect_copying

  /** `buffer` holds the lossy text from `start` on, and `rest` is what has not been read yet. */
  ghost predicate Buffered(text: Bytes, buffer: Bytes, start: nat, rest: Bytes) {
    && Sliceable(text)
    && |buffer| <= MAX_REDACTABLE_BYTES
    && start + |buffer| + |rest| == |text|
    && buffer == text[start..start + |buffer|]
    && rest == text[start + |buffer|..]
    && Boundary(text, start)
    && Boundary(text, start + |buffer|)
  }

  /** A buffer the next char does not fit into ends exactly where the in-place window ends. */
  lemma FullBufferIsWindow(text: Bytes, buffer: Bytes, start: nat, rest: Bytes)
    requires Buffered(text, buffer, start, rest)
    requires rest != []
    requires forall k | 0 < k <= MAX_REDACTABLE_BYTES - |buffer| && k <= |rest| :: !Boundary(rest, k)
    ensures WindowEnd(text, start) == start + |buffer| < |text|
    ensures MAX_REDACTABLE_BYTES - |buffer| <= 3
  {
    var at := start + |buffer|;
    forall k | at < k <= start + MAX_REDACTABLE_BYTES && k <= |text|
      ensures !Boundary(text, k)
    {
      assert !Boundary(rest, k - at);
    }
    FloorIsUnique(text, start + MAX_REDACTABLE_BYTES, at);
    FullUnlessLast(text, start);
  }

  /** Reading `taken`, a run of whole chars that fits, keeps the buffer in step with the text. */
  lemma Append(text: Bytes, buffer: Bytes, start: nat, taken: Bytes, rest: Bytes)
    requires Buffered(text, buffer, start, taken + rest)
    requires |buffer| + |taken| <= MAX_REDACTABLE_BYTES
    requires Boundary(taken + rest, |taken|)
    ensures Buffered(text, buffer + taken, start, rest)
  {
    TakeFromText(text, start + |buffer|, taken, rest);
    JoinSlices(text, start, start + |buffer|, start + |buffer| + |taken|);
  }

  lemma TakeFromText(text: Bytes, at: nat, taken: Bytes, rest: Bytes)
    requires at <= |text| && text[at..] == taken + rest
    ensures |text| == at + |taken| + |rest|
    ensures taken == text[at..at + |taken|] && rest == text[at + |taken|..]
  {
    assert taken == text[at..][..|taken|];
    assert rest == text[at..][|taken|..];
  }

  lemma JoinSlices(text: Bytes, start: nat, mid: nat, end: nat)
    requires start <= mid <= end <= |text|
    ensures text[start..mid] + text[mid..end] == text[start..end]
  {
  }

  /** A slid buffer holds the text from where the in-place walk starts its next window. */
  lemma SlidBuffer(text: Bytes, buffer: Bytes, start: nat, rest: Bytes, buffer': Bytes, start': nat)
    requires Buffered(text, buffer, start, rest)
    requires WindowEnd(text, start) == start + |buffer| < |text|
    requires buffer' == buffer[Advance(buffer)..] && start' == start + Advance(buffer)
    ensures Buffered(text, buffer', start', rest)
    ensures |buffer'| + 4 <= MAX_REDACTABLE_BYTES && |buffer'| < |buffer|
  {
    AdvanceMoves(text, start);
    FloorIsNear(text, start + |buffer| - WINDOW_OVERLAP_BYTES);
    DropFromSlice(text, start, start + |buffer|, Advance(buffer));
  }

  lemma DropFromSlice(text: Bytes, start: nat, end: nat, cut: nat)
    requires start + cut <= end <= |text|
    ensures text[start..end][cut..] == text[start + cut..end]
  {
  }

  /** The copying walk has read all of the text but `rest` and stands where the in-place walk stands. */
  ghost predicate Copying(c: Course, state: WindowScan, buffer: Bytes, start: nat, rest: Bytes)
    reads state
  {
    && state.scan == c.scan
    && Buffered(c.text, buffer, start, rest)
    && InStep(c, start, state.claimedTo, state.seen)
  }

  /** Where the walk stands once a full buffer has been scanned and slid. */
  lemma SlidInStep(c: Course, start: nat, claimedTo: nat, seen: seq<Seen>, buffer: Bytes,
                   turn: Turn, after: seq<Seen>, start': nat)
    requires InStep(c, start, claimedTo, seen) && buffer == c.text[start..WindowEnd(c.text, start)]
    requires WindowEnd(c.text, start) == start + |buffer| < |c.text|
    requires turn == ScanTurn(c.scan, buffer, start, false, claimedTo)
    requires after == seen + [Seen(start, start + |buffer|, false)]
    requires turn.result == Ok(false) ==> start' == start + Advance(buffer)
    ensures turn.result != Ok(false) ==> c.goal == Verdict(turn.result, turn.claimedTo, after)
    ensures turn.result == Ok(false) ==> InStep(c, start', turn.claimedTo, after)
  {
    StepOrEnd(c, start, claimedTo, seen, buffer, false);
  }

  /** `slide`, called when the next char does not fit. */
  method SlideInStep(state: WindowScan, buffer: Bytes, start: nat, ghost c: Course, ghost rest: Bytes)
    returns (r: Result<bool, ErrorKind>, buffer': Bytes, start': nat)
    requires Copying(c, state, buffer, start, rest)
    requires WindowEnd(c.text, start) == start + |buffer| < |c.text|
    modifies state
    ensures r != Ok(false) ==> c.goal == Verdict(r, state.claimedTo, state.seen)
    ensures r == Ok(false) ==>
              && Copying(c, state, buffer', start', rest)
              && |buffer'| < |buffer| && |buffer'| + 4 <= MAX_REDACTABLE_BYTES
  {
    r, buffer', start' := state.Slide(buffer, start);
    SlidInStep(c, start, old(state.claimedTo), old(state.seen), buffer, Turn(r, state.claimedTo), state.seen, start');
    if r == Ok(false) {
      SlidBuffer(c.text, buffer, start, rest, buffer', start');
    }
  }

  /** Fills the buffer with a chunk's valid text, sliding whenever the next char does not fit. */
  method CopyValid(state: WindowScan, chunk: Bytes, buffer0: Bytes, start0: nat, ghost c: Course, ghost tail: Bytes)
    returns (r: Result<bool, ErrorKind>, buffer: Bytes, start: nat)
    requires Sliceable(chunk) && Sliceable(tail)
    requires Copying(c, state, buffer0, start0, chunk + tail)
    modifies state
    ensures r != Ok(false) ==> c.goal == Verdict(r, state.claimedTo, state.seen)
    ensures r == Ok(false) ==> Copying(c, state, buffer, start, tail)
  {
    var valid := chunk;
    buffer, start := buffer0, start0;
    while valid != []
      invariant Sliceable(valid)
      invariant Copying(c, state, buffer, start, valid + tail)
      decreases |valid|, |buffer|
    {
      var take := CharFloor(valid, MAX_REDACTABLE_BYTES - |buffer|);
      if take == 0 {
        NothingFits(c.text, buffer, start, valid, tail);
        r, buffer, start := SlideInStep(state, buffer, start, c, valid + tail);
        if r != Ok(false) {
          return;
        }
        continue;
      }
      SliceableParts(valid, take);
      Take(c.text, buffer, start, valid, take, tail);
      buffer := buffer + valid[..take];
      valid := valid[take..];
    }
    assert valid + tail == tail;
    r := Ok(false);
  }

  /** Adds the replacement character that stands for a chunk's invalid bytes. */
  method CopyInvalid(state: WindowScan, buffer0: Bytes, start0: nat, ghost c: Course, ghost tail: Bytes)
    returns (r: Result<bool, ErrorKind>, buffer: Bytes, start: nat)
    requires Sliceable(tail)
    requires Copying(c, state, buffer0, start0, REPLACEMENT_CHARACTER + tail)
    modifies state
    ensures r != Ok(false) ==> c.goal == Verdict(r, state.claimedTo, state.seen)
    ensures r == Ok(false) ==> Copying(c, state, buffer, start, tail)
  {
    buffer, start := buffer0, start0;
    r := Ok(false);
    if |buffer| + |REPLACEMENT_CHARACTER| > MAX_REDACTABLE_BYTES {
      FullBufferIsWindow(c.text, buffer, start, REPLACEMENT_CHARACTER + tail);
      r, buffer, start := SlideInStep(state, buffer, start, c, REPLACEMENT_CHARACTER + tail);
      if r != Ok(false) {
        return;
      }
    }
    SliceableConcat(REPLACEMENT_CHARACTER, tail);
    Append(c.text, buffer, start, REPLACEMENT_CHARACTER, tail);
    buffer := buffer + REPLACEMENT_CHARACTER;
  }

  /** One turn of the loop over chunks: the text, then a replacement for what broke off. */
  method CopyChunk(state: WindowScan, chunk: Chunk, buffer0: Bytes, start0: nat, ghost c: Course, ghost after: Bytes)
    returns (r: Result<bool, ErrorKind>, buffer: Bytes, start: nat)
    requires Sliceable(chunk.valid) && Sliceable(after) && Sliceable(Mark(chunk) + after)
    requires Copying(c, state, buffer0, start0, chunk.valid + (Mark(chunk) + after))
    modifies state
    ensures r != Ok(false) ==> c.goal == Verdict(r, state.claimedTo, state.seen)
    ensures r == Ok(false) ==> Copying(c, state, buffer, start, after)
  {
    r, buffer, start := CopyValid(state, chunk.valid, buffer0, start0, c, Mark(chunk) + after);
    if r != Ok(false) {
      return;
    }
    if chunk.invalid != [] {
      r, buffer, start := CopyInvalid(state, buffer, start, c, after);
    } else {
      assert Mark(chunk) + after == after;
    }
  }

  /**
    `Redactor::detect_copying`: streaming the chunks through a bounded buffer gives the verdict,
    the claim and the windows of `detect_sliding` over the whole lossy decoding.
   */
  method DetectCopying(state: WindowScan, bytes: Bytes) returns (r: Result<bool, ErrorKind>)
    modifies state
    ensures Sliceable(LossyText(bytes))
    ensures Verdict(r, state.claimedTo, state.seen)
         == SlideWalk(state.scan, LossyText(bytes), 0, old(state.claimedTo), old(state.seen))
  {
    var chunks := ChunksOf(bytes);
    ChunksOfIsCanonical(bytes);
    CanonicalIsValid(chunks);
    LossyIsSliceable(chunks);
    var buffer: Bytes := [];
    var start := 0;
    ghost var c := CopyStarts(state.scan, chunks, buffer, state.claimedTo, state.seen);
    for i := 0 to |chunks|
      invariant Copying(c, state, buffer, start, Lossy(chunks[i..]))
    {
      var chunk := chunks[i];
      ghost var after := Lossy(chunks[i + 1..]);
      LossyTurns(chunks, i);
      r, buffer, start := CopyChunk(state, chunk, buffer, start, c, after);
      if r != Ok(false) {
        return;
      }
    }
    NothingAfter(chunks);
    r := ScanRest(state, buffer, start, c, Lossy(chunks[|chunks|..]));
  }

  lemma CopyStarts(scan: Scanner, chunks: seq<Chunk>, buffer: Bytes, claimedTo: nat, seen: seq<Seen>)
    returns (c: Course)
    requires Sliceable(Lossy(chunks)) && buffer == []
    ensures c == Course(scan, Lossy(chunks), SlideWalk(scan, Lossy(chunks), 0, claimedTo, seen))
    ensures Buffered(c.text, buffer, 0, Lossy(chunks[0..])) && InStep(c, 0, claimedTo, seen)
  {
    c := CourseOver(scan, Lossy(chunks), claimedTo, seen);
    assert chunks[0..] == chunks;
  }

  lemma NothingAfter(chunks: seq<Chunk>)
    ensures Lossy(chunks[|chunks|..]) == []
  {
  }

  /** The last window: whatever the buffer holds once all chunks are read. */
  method ScanRest(state: WindowScan, buffer: Bytes, start: nat, ghost c: Course, ghost rest: Bytes)
    returns (r: Result<bool, ErrorKind>)
    requires Copying(c, state, buffer, start, rest) && rest == []
    modifies state
    ensures c.goal == Verdict(r, state.claimedTo, state.seen)
  {
    FullUnlessLast(c.text, start);
    StepOrEnd(c, start, state.claimedTo, state.seen, buffer, true);
    r := state.Hits(buffer, start, true);
  }

  lemma LossyTurns(chunks: seq<Chunk>, i: nat)
    requires ValidChunks(chunks) && i < |chunks|
    ensures Sliceable(Lossy(chunks[i + 1..])) && Sliceable(Mark(chunks[i]) + Lossy(chunks[i + 1..]))
    ensures Lossy(chunks[i..]) == chunks[i].valid + (Mark(chunks[i]) + Lossy(chunks[i + 1..]))
  {
    assert chunks[i..][1..] == chunks[i + 1..];
    LossyIsSliceable(chunks[i + 1..]);
    SliceableConcat(Mark(chunks[i]), Lossy(chunks[i + 1..]));
  }

  lemma NothingFits(text: Bytes, buffer: Bytes, start: nat, valid: Bytes, tail: Bytes)
    requires Sliceable(valid) && valid != []
    requires Buffered(text, buffer, start, valid + tail)
    requires Floor(valid, MAX_REDACTABLE_BYTES - |buffer|) == 0
    ensures WindowEnd(text, start) == start + |buffer| < |text|
    ensures MAX_REDACTABLE_BYTES - |buffer| <= 3
  {
    var room := MAX_REDACTABLE_BYTES - |buffer|;
    FloorIsNear(valid, room);
    FloorIsLargest(valid, room);
    forall k | 0 < k <= room && k <= |valid + tail|
      ensures !Boundary(valid + tail, k)
    {
      assert !Boundary(valid, k);
    }
    FullBufferIsWindow(text, buffer, start, valid + tail);
  }

  lemma Take(text: Bytes, buffer: Bytes, start: nat, valid: Bytes, take: nat, tail: Bytes)
    requires Buffered(text, buffer, start, valid + tail)
    requires Sliceable(valid) && Sliceable(tail)
    requires 0 < take <= |valid| && Boundary(valid, take)
    requires |buffer| + take <= MAX_REDACTABLE_BYTES
    ensures Buffered(text, buffer + valid[..take], start, valid[take..] + tail)
  {
    var all := valid + tail;
    assert all == valid[..take] + (valid[take..] + tail);
    SliceableConcat(valid, tail);
    Append(text, buffer, start, valid[..take], valid[take..] + tail);
  }

  // ----- The public entry points

  lemma SlideVerdictIsRight(scan: Scanner, text: Bytes, truth: multiset<Finding>, seen: seq<Seen>)
    requires Sliceable(text) && Local(scan, text, truth)
    ensures
      var verdict := SlideWalk(scan, text, 0, 0, seen);
      verdict.result.Ok? ==> (verdict.result.value <==> truth != multiset{})
  {
    SlideWindowsProper(text);
    VerdictIsRight(scan, text, truth, SlideWindows(text, 0), seen);
  }

  lemma SlideAnswerRests(scan: Scanner, text: Bytes, seen: seq<Seen>)
    requires Sliceable(text)
    ensures Rests(scan, text, SlideWalk(scan, text, 0, 0, seen).result)
    ensures Decided(scan, text, SlideWalk(scan, text, 0, 0, seen).result)
  {
    SlideWindowsProper(text);
    AnswerRests(scan, text, SlideWindows(text, 0), seen);
  }

  /**
    `detect_windowed`: a verdict on a string is whether the whole text has a finding, and an error is
    the scanner's own on some window, never the length of the text.
   */
  method DetectText(scan: Scanner, text: Bytes, ghost truth: multiset<Finding>) returns (r: Result<bool, ErrorKind>)
    requires WellFormed(text)
    ensures Rests(scan, text, r) && Decided(scan, text, r)
    ensures Local(scan, text, truth) && r.Ok? ==> (r.value <==> truth != multiset{})
  {
    WellFormedIsSliceable(text);
    var state := new WindowScan(scan);
    ghost var seen := state.seen;
    var ws;
    r, ws := DetectWindowed(state, text);
    AnswerRests(scan, text, ws, seen);
    if Local(scan, text, truth) {
      VerdictIsRight(scan, text, truth, ws, seen);
    }
  }

  /**
    `detect_windowed_bytes`: a verdict on bytes is whether their lossy text has a finding. On valid
    UTF-8 that text is the bytes themselves, so the verdict is the one `detect_windowed` gives.
   */
  method DetectBytes(scan: Scanner, bytes: Bytes, ghost truth: multiset<Finding>) returns (r: Result<bool, ErrorKind>)
    ensures WellFormed(bytes) ==> LossyText(bytes) == bytes
    ensures Rests(scan, LossyText(bytes), r) && Decided(scan, LossyText(bytes), r)
    ensures Local(scan, LossyText(bytes), truth) && r.Ok? ==> (r.value <==> truth != multiset{})
  {
    var state := new WindowScan(scan);
    ghost var seen := state.seen;
    if WellFormed(bytes) {
      WellFormedIsSliceable(bytes);
      WellFormedDecodesToItself(bytes);
      r := DetectSliding(state, bytes);
    } else {
      r := DetectCopying(state, bytes);
    }
    SlideAnswerRests(scan, LossyText(bytes), seen);
    if Local(scan, LossyText(bytes), truth) {
      SlideVerdictIsRight(scan, LossyText(bytes), truth, seen);
    }
  }
}
