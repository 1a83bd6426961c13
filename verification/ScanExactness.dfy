/**
  What a windowed scan reports, and why it reports exactly what one scan of the whole text would.

  `WindowScan` keeps a finding when it lies clear of the window's artificial edges and ends past
  the range earlier windows claimed. The scanner itself is a parameter. The one thing assumed of it
  is `Local`: away from artificial edges, a window's report agrees with the whole text's findings.
 */
module ScanExactness {
  import opened Arithmetic
  import opened Outcomes
  import opened Utf8
  import opened Windows

  datatype ErrorKind = InputLimit | CandidateLimit | WorkLimit | MatchLimit | DetectionLimit | InvalidSpan

  /** `start..end` is the full match, `valueStart..valueEnd` the secret inside it. */
  datatype Finding = Finding(rule: string, start: nat, end: nat, valueStart: nat, valueEnd: nat)

  datatype Report = Found(findings: seq<Finding>) | Failed(kind: ErrorKind)

  type Scanner = Bytes -> Report

  // ----- One window

  function KeepFrom(start: nat): nat {
    if start == 0 then 0 else EDGE_MARGIN_BYTES
  }

  function KeepTo(length: nat, isLast: bool): nat {
    if isLast then length else SaturatingSub(length, EDGE_MARGIN_BYTES)
  }

  predicate Keeps(f: Finding, start: nat, length: nat, isLast: bool, claimedTo: nat) {
    && f.start >= KeepFrom(start)
    && f.end <= KeepTo(length, isLast)
    && f.end > SaturatingSub(claimedTo, start)
  }

  function Retain(fs: seq<Finding>, start: nat, length: nat, isLast: bool, claimedTo: nat): (kept: seq<Finding>)
  {
    if fs == [] then []
    else (if Keeps(fs[0], start, length, isLast, claimedTo) then [fs[0]] else [])
         + Retain(fs[1..], start, length, isLast, claimedTo)
  }

  lemma {:induction false} RetainCounts(fs: seq<Finding>, start: nat, length: nat, isLast: bool, claimedTo: nat,
                                        f: Finding)
    ensures multiset(Retain(fs, start, length, isLast, claimedTo))[f]
         == if Keeps(f, start, length, isLast, claimedTo) then multiset(fs)[f] else 0
  {
    if fs != [] {
      RetainCounts(fs[1..], start, length, isLast, claimedTo, f);
      assert fs == [fs[0]] + fs[1..];
    }
  }

  /** A finding of a window that starts at `base`, placed in the whole text. */
  function Place(f: Finding, base: nat): Finding {
    Finding(f.rule, f.start + base, f.end + base, f.valueStart + base, f.valueEnd + base)
  }

  function PlaceAll(fs: seq<Finding>, base: nat): (placed: seq<Finding>)
    ensures |placed| == |fs|
  {
    if fs == [] then [] else [Place(fs[0], base)] + PlaceAll(fs[1..], base)
  }

  predicate IsPlaced(f: Finding, base: nat) {
    base <= f.start && base <= f.end && base <= f.valueStart && base <= f.valueEnd
  }

  function Unplace(f: Finding, base: nat): (g: Finding)
    requires IsPlaced(f, base)
    ensures Place(g, base) == f
  {
    Finding(f.rule, f.start - base, f.end - base, f.valueStart - base, f.valueEnd - base)
  }

  lemma CountFirst(fs: seq<Finding>, f: Finding)
    requires fs != []
    ensures multiset(fs)[f] == (if fs[0] == f then 1 else 0) + multiset(fs[1..])[f]
  {
    assert fs == [fs[0]] + fs[1..];
  }

  lemma {:induction false} PlaceCounts(fs: seq<Finding>, base: nat, f: Finding)
    ensures multiset(PlaceAll(fs, base))[f] == if IsPlaced(f, base) then multiset(fs)[Unplace(f, base)] else 0
  {
    if fs != [] {
      PlaceCounts(fs[1..], base, f);
      CountFirst(PlaceAll(fs, base), f);
      if IsPlaced(f, base) {
        CountFirst(fs, Unplace(f, base));
        assert Place(fs[0], base) == f <==> fs[0] == Unplace(f, base);
      }
    }
  }

  // ----- The hypothesis on the scanner

  /** A finding's value lies inside its match, and a match is not empty at the start of the text and not over-long. */
  predicate Plausible(f: Finding, length: nat) {
    && f.start <= f.valueStart <= f.valueEnd <= f.end
    && 0 < f.end <= length
    && f.end - f.start <= MAX_MATCH_BYTES
  }

  /** `g`, relative to the window, keeps `EDGE_MARGIN_BYTES` from each edge that is not an end of the text. */
  predicate ClearOfEdges(text: Bytes, w: Window, g: Finding)
    requires w.start <= w.end
  {
    && (w.start == 0 || EDGE_MARGIN_BYTES <= g.start)
    && (if w.end == |text| then g.end <= w.end - w.start else g.end + EDGE_MARGIN_BYTES <= w.end - w.start)
  }

  ghost predicate AgreesOn(scan: Scanner, text: Bytes, truth: multiset<Finding>, w: Window, g: Finding)
    requires InText(text, w)
  {
    var report := scan(text[w.start..w.end]);
    report.Found? && ClearOfEdges(text, w, g) ==> multiset(report.findings)[g] == truth[Place(g, w.start)]
  }

  /** `truth` is what the scanner finds in the whole text, and windows agree with it away from their edges. */
  ghost predicate Local(scan: Scanner, text: Bytes, truth: multiset<Finding>) {
    && (forall f | f in truth :: Plausible(f, |text|))
    && (forall w, g | InText(text, w) :: AgreesOn(scan, text, truth, w, g))
  }

  // ----- The walk as a function

  function Slice(text: Bytes, w: Window): Bytes
    requires w.start <= w.end <= |text|
  {
    text[w.start..w.end]
  }

  function IsLast(text: Bytes, w: Window): bool {
    w.end == |text|
  }

  /** Absolute end of the range a window claims. */
  function Claim(text: Bytes, w: Window): nat
    requires w.start <= w.end <= |text|
  {
    w.start + KeepTo(w.end - w.start, IsLast(text, w))
  }

  /** The findings one window reports, placed in the whole text. */
  function KeptBy(scan: Scanner, text: Bytes, w: Window, claimedTo: nat): seq<Finding>
    requires w.start <= w.end <= |text|
    requires scan(Slice(text, w)).Found?
  {
    PlaceAll(Retain(scan(Slice(text, w)).findings, w.start, w.end - w.start, IsLast(text, w), claimedTo), w.start)
  }

  ghost predicate AllInText(text: Bytes, ws: seq<Window>) {
    forall k | 0 <= k < |ws| :: ws[k].start <= ws[k].end <= |text|
  }

  ghost predicate AllScanned(scan: Scanner, text: Bytes, ws: seq<Window>)
    requires AllInText(text, ws)
  {
    forall k | 0 <= k < |ws| :: scan(Slice(text, ws[k])).Found?
  }

  /** Everything a walk over `ws` reports, in order. */
  ghost function KeptByAll(scan: Scanner, text: Bytes, ws: seq<Window>, claimedTo: nat): seq<Finding>
    requires AllInText(text, ws) && AllScanned(scan, text, ws)
  {
    if ws == [] then []
    else KeptBy(scan, text, ws[0], claimedTo) + KeptByAll(scan, text, ws[1..], Claim(text, ws[0]))
  }

  datatype Seen = Seen(start: nat, end: nat, isLast: bool)

  /** What a verdict-only walk returns and leaves behind. */
  datatype Verdict = Verdict(result: Result<bool, ErrorKind>, claimedTo: nat, seen: seq<Seen>)

  /** One scanned window's outcome: whether it held a finding to report, and the claim left behind. */
  datatype Turn = Turn(result: Result<bool, ErrorKind>, claimedTo: nat)

  function ScanTurn(scan: Scanner, window: Bytes, start: nat, isLast: bool, claimedTo: nat): Turn {
    match scan(window)
    case Failed(kind) => Turn(Err(kind), claimedTo)
    case Found(fs) =>
      Turn(Ok(Retain(fs, start, |window|, isLast, claimedTo) != []), start + KeepTo(|window|, isLast))
  }

  /** A walk stops at the first finding or failure; `seen` is what was scanned before it. */
  ghost function Walk(scan: Scanner, text: Bytes, ws: seq<Window>, claimedTo: nat, seen: seq<Seen>): Verdict
    requires AllInText(text, ws)
  {
    if ws == [] then Verdict(Ok(false), claimedTo, seen)
    else
      var w := ws[0];
      var turn := ScanTurn(scan, Slice(text, w), w.start, IsLast(text, w), claimedTo);
      var after := seen + [Seen(w.start, w.end, IsLast(text, w))];
      if turn.result == Ok(false) then Walk(scan, text, ws[1..], turn.claimedTo, after)
      else Verdict(turn.result, turn.claimedTo, after)
  }

  // ----- Exactness

  /** The claim a window inherits: nothing for the first, up to the shared edge's margin for the others. */
  ghost predicate Inherits(text: Bytes, w: Window, claimedTo: nat) {
    if w.start == 0 then claimedTo == 0
    else
      && EDGE_MARGIN_BYTES <= claimedTo
      && w.start + WINDOW_OVERLAP_BYTES <= claimedTo + EDGE_MARGIN_BYTES
      && claimedTo + EDGE_MARGIN_BYTES <= w.end
  }

  lemma KeptIsOwned(text: Bytes, w: Window, claimedTo: nat, g: Finding)
    requires InText(text, w)
    requires Keeps(g, w.start, w.end - w.start, IsLast(text, w), claimedTo)
    ensures ClearOfEdges(text, w, g)
    ensures claimedTo < Place(g, w.start).end <= Claim(text, w)
  {
  }

  lemma OwnedIsKept(text: Bytes, w: Window, claimedTo: nat, f: Finding)
    requires InText(text, w) && Inherits(text, w, claimedTo)
    requires Plausible(f, |text|) && claimedTo < f.end <= Claim(text, w)
    ensures IsPlaced(f, w.start)
    ensures Keeps(Unplace(f, w.start), w.start, w.end - w.start, IsLast(text, w), claimedTo)
  {
    ConstantsFit();
  }

  lemma RetainedAgree(scan: Scanner, text: Bytes, truth: multiset<Finding>, w: Window, claimedTo: nat, g: Finding)
    requires Local(scan, text, truth)
    requires InText(text, w) && scan(Slice(text, w)).Found?
    ensures multiset(Retain(scan(Slice(text, w)).findings, w.start, w.end - w.start, IsLast(text, w), claimedTo))[g]
         == if Keeps(g, w.start, w.end - w.start, IsLast(text, w), claimedTo) then truth[Place(g, w.start)] else 0
  {
    RetainCounts(scan(Slice(text, w)).findings, w.start, w.end - w.start, IsLast(text, w), claimedTo, g);
    assert AgreesOn(scan, text, truth, w, g);
    if Keeps(g, w.start, w.end - w.start, IsLast(text, w), claimedTo) {
      KeptIsOwned(text, w, claimedTo, g);
    }
  }

  /** The heart of the argument: a window reports its share of the findings, with multiplicity, and nothing else. */
  lemma WindowReportsItsShare(scan: Scanner, text: Bytes, truth: multiset<Finding>, w: Window, claimedTo: nat,
                              f: Finding)
    requires Local(scan, text, truth)
    requires InText(text, w) && Inherits(text, w, claimedTo) && scan(Slice(text, w)).Found?
    ensures multiset(KeptBy(scan, text, w, claimedTo))[f]
         == if claimedTo < f.end <= Claim(text, w) then truth[f] else 0
  {
    PlaceCounts(
      Retain(scan(Slice(text, w)).findings, w.start, w.end - w.start, IsLast(text, w), claimedTo), w.start, f);
    if f in truth && claimedTo < f.end <= Claim(text, w) {
      OwnedIsKept(text, w, claimedTo, f);
    }
    if IsPlaced(f, w.start) {
      var g := Unplace(f, w.start);
      RetainedAgree(scan, text, truth, w, claimedTo, g);
      if Keeps(g, w.start, w.end - w.start, IsLast(text, w), claimedTo) {
        KeptIsOwned(text, w, claimedTo, g);
      }
    }
  }

  lemma NextInherits(text: Bytes, w: Window, next: Window)
    requires InText(text, w) && InText(text, next) && Follows(text, w, next)
    ensures Inherits(text, next, Claim(text, w))
    ensures Claim(text, w) <= Claim(text, next)
  {
    ConstantsFit();
  }

  lemma {:induction false} WalkReportsTheRest(
    scan: Scanner, text: Bytes, truth: multiset<Finding>, ws: seq<Window>, claimedTo: nat, f: Finding)
    requires Local(scan, text, truth)
    requires ProperFrom(text, ws) && Inherits(text, ws[0], claimedTo)
    requires AllScanned(scan, text, ws)
    ensures multiset(KeptByAll(scan, text, ws, claimedTo))[f] == if claimedTo < f.end then truth[f] else 0
  {
    WindowReportsItsShare(scan, text, truth, ws[0], claimedTo, f);
    if |ws| > 1 {
      NextInherits(text, ws[0], ws[1]);
      ProperTail(text, ws);
      WalkReportsTheRest(scan, text, truth, ws[1..], Claim(text, ws[0]), f);
      ClaimOrder(text, ws[0], claimedTo);
    }
  }

  lemma ProperTail(text: Bytes, ws: seq<Window>)
    requires ProperFrom(text, ws) && |ws| > 1
    ensures ProperFrom(text, ws[1..])
  {
    var tail := ws[1..];
    forall k | 0 <= k < |tail| - 1
      ensures Follows(text, tail[k], tail[k + 1])
    {
      assert Follows(text, ws[k + 1], ws[k + 2]);
    }
  }

  lemma ClaimOrder(text: Bytes, w: Window, claimedTo: nat)
    requires InText(text, w) && Inherits(text, w, claimedTo)
    ensures claimedTo <= Claim(text, w)
  {
  }

  /**
    Windowed scanning is exact: over any proper windows of any text, the findings reported are
    those of the whole text, each reported once.
   */
  lemma WindowedScanIsExact(scan: Scanner, text: Bytes, truth: multiset<Finding>, ws: seq<Window>)
    requires Local(scan, text, truth)
    requires Proper(text, ws) && AllScanned(scan, text, ws)
    ensures multiset(KeptByAll(scan, text, ws, 0)) == truth
  {
    forall f: Finding
      ensures multiset(KeptByAll(scan, text, ws, 0))[f] == truth[f]
    {
      WalkReportsTheRest(scan, text, truth, ws, 0, f);
    }
  }

  lemma {:induction false} WalkVerdict(
    scan: Scanner, text: Bytes, truth: multiset<Finding>, ws: seq<Window>, claimedTo: nat, seen: seq<Seen>)
    requires Local(scan, text, truth)
    requires ProperFrom(text, ws) && Inherits(text, ws[0], claimedTo)
    ensures
      var verdict := Walk(scan, text, ws, claimedTo, seen);
      verdict.result.Ok? ==> (verdict.result.value <==> exists f | f in truth :: claimedTo < f.end)
  {
    var w := ws[0];
    if scan(Slice(text, w)).Found? {
      TurnTellsKept(scan, text, truth, w, claimedTo);
      ClaimOrder(text, w, claimedTo);
      if |ws| > 1 {
        NextInherits(text, w, ws[1]);
        ProperTail(text, ws);
        WalkVerdict(scan, text, truth, ws[1..], Claim(text, w), seen + [Seen(w.start, w.end, IsLast(text, w))]);
      }
    }
  }

  /** `kept` is what `truth` has that ends in the range, with multiplicity. */
  ghost predicate IsShare(kept: seq<Finding>, truth: multiset<Finding>, from: nat, to: nat) {
    forall f: Finding :: multiset(kept)[f] == if from < f.end <= to then truth[f] else 0
  }

  lemma ShareTells(kept: seq<Finding>, truth: multiset<Finding>, from: nat, to: nat)
    requires IsShare(kept, truth, from, to)
    ensures kept != [] <==> exists f | f in truth :: from < f.end <= to
  {
    if kept != [] {
      assert kept[0] in multiset(kept);
    }
    if f :| f in truth && from < f.end <= to {
      assert f in multiset(kept);
    }
  }

  lemma KeptIsShare(scan: Scanner, text: Bytes, truth: multiset<Finding>, w: Window, claimedTo: nat)
    requires Local(scan, text, truth)
    requires InText(text, w) && Inherits(text, w, claimedTo) && scan(Slice(text, w)).Found?
    ensures IsShare(KeptBy(scan, text, w, claimedTo), truth, claimedTo, Claim(text, w))
  {
    forall f: Finding
      ensures multiset(KeptBy(scan, text, w, claimedTo))[f]
           == if claimedTo < f.end <= Claim(text, w) then truth[f] else 0
    {
      WindowReportsItsShare(scan, text, truth, w, claimedTo, f);
    }
  }

  lemma TurnTellsKept(scan: Scanner, text: Bytes, truth: multiset<Finding>, w: Window, claimedTo: nat)
    requires Local(scan, text, truth)
    requires InText(text, w) && Inherits(text, w, claimedTo) && scan(Slice(text, w)).Found?
    ensures
      var turn := ScanTurn(scan, Slice(text, w), w.start, IsLast(text, w), claimedTo);
      && turn.claimedTo == Claim(text, w)
      && turn.result == Ok(exists f | f in truth :: claimedTo < f.end <= Claim(text, w))
  {
    KeptIsShare(scan, text, truth, w, claimedTo);
    ShareTells(KeptBy(scan, text, w, claimedTo), truth, claimedTo, Claim(text, w));
  }

  /** A verdict is only ever the right one: an early stop or a later scan failure cannot make it wrong. */
  lemma VerdictIsRight(scan: Scanner, text: Bytes, truth: multiset<Finding>, ws: seq<Window>, seen: seq<Seen>)
    requires Local(scan, text, truth) && Proper(text, ws)
    ensures
      var verdict := Walk(scan, text, ws, 0, seen);
      verdict.result.Ok? ==> (verdict.result.value <==> truth != multiset{})
  {
    WalkVerdict(scan, text, truth, ws, 0, seen);
    if truth != multiset{} {
      var f :| f in truth;
      assert Plausible(f, |text|);
    }
  }

  /** Any two ways to cut a text agree: on the verdict, and on every finding when both scans finish. */
  lemma WalksAgree(scan: Scanner, text: Bytes, truth: multiset<Finding>, ws: seq<Window>, others: seq<Window>,
                   seen: seq<Seen>)
    requires Local(scan, text, truth) && Proper(text, ws) && Proper(text, others)
    ensures
      var one, two := Walk(scan, text, ws, 0, seen), Walk(scan, text, others, 0, seen);
      one.result.Ok? && two.result.Ok? ==> one.result == two.result
    ensures AllScanned(scan, text, ws) && AllScanned(scan, text, others) ==>
              multiset(KeptByAll(scan, text, ws, 0)) == multiset(KeptByAll(scan, text, others, 0))
  {
    VerdictIsRight(scan, text, truth, ws, seen);
    VerdictIsRight(scan, text, truth, others, seen);
    if AllScanned(scan, text, ws) && AllScanned(scan, text, others) {
      WindowedScanIsExact(scan, text, truth, ws);
      WindowedScanIsExact(scan, text, truth, others);
    }
  }

  // ----- What any answer rests on, whatever the scanner

  /** The scanner fails so on some window of the text. */
  ghost predicate FailsSomewhere(scan: Scanner, text: Bytes, kind: ErrorKind) {
    exists w | InText(text, w) :: scan(Slice(text, w)) == Failed(kind)
  }

  /** The scanner finds something in some window of the text. */
  ghost predicate FindsSomewhere(scan: Scanner, text: Bytes) {
    exists w | InText(text, w) :: scan(Slice(text, w)).Found? && scan(Slice(text, w)).findings != []
  }

  /** Windows that cover the text were all scanned without failure. */
  ghost predicate ScannedThrough(scan: Scanner, text: Bytes) {
    exists ws | Proper(text, ws) :: AllScanned(scan, text, ws)
  }

  /**
    An error is the scanner's own on some window, a hit is one the scanner reported, and a clean
    answer took a scan of the whole text. So a scanner that never fails always gets an answer.
   */
  ghost predicate Rests(scan: Scanner, text: Bytes, r: Result<bool, ErrorKind>) {
    match r
    case Err(kind) => FailsSomewhere(scan, text, kind)
    case Ok(true) => FindsSomewhere(scan, text)
    case Ok(false) => ScannedThrough(scan, text)
  }

  lemma RetainedIsFound(fs: seq<Finding>, start: nat, length: nat, isLast: bool, claimedTo: nat)
    ensures fs == [] ==> Retain(fs, start, length, isLast, claimedTo) == []
  {
  }

  lemma {:induction false} WalkRests(scan: Scanner, text: Bytes, ws: seq<Window>, claimedTo: nat, seen: seq<Seen>)
    requires AllInText(text, ws) && forall k | 0 <= k < |ws| :: InText(text, ws[k])
    ensures
      var r := Walk(scan, text, ws, claimedTo, seen).result;
      if r == Ok(false) then AllScanned(scan, text, ws) else Rests(scan, text, r)
  {
    if ws != [] {
      var w := ws[0];
      var turn := ScanTurn(scan, Slice(text, w), w.start, IsLast(text, w), claimedTo);
      assert InText(text, w);
      if turn.result == Ok(false) {
        WalkRests(scan, text, ws[1..], turn.claimedTo, seen + [Seen(w.start, w.end, IsLast(text, w))]);
        assert forall k | 0 < k < |ws| :: ws[k] == ws[1..][k - 1];
      } else if scan(Slice(text, w)).Found? {
        RetainedIsFound(scan(Slice(text, w)).findings, w.start, |Slice(text, w)|, IsLast(text, w), claimedTo);
      }
    }
  }

  /** The claim that the window after the first `n` inherits. */
  function ClaimAfter(text: Bytes, ws: seq<Window>, n: nat, claimedTo: nat): nat
    requires n <= |ws| && forall k | 0 <= k < |ws| :: ws[k].start <= ws[k].end <= |text|
  {
    if n == 0 then claimedTo else Claim(text, ws[n - 1])
  }

  /**
    Window `n` decides: those before it were scanned and held nothing to report; it fails, or holds
    something; or there is none.
   */
  ghost predicate DecidedAt(scan: Scanner, text: Bytes, ws: seq<Window>, claimedTo: nat, n: nat,
                            r: Result<bool, ErrorKind>)
    requires AllInText(text, ws) && n <= |ws|
  {
    && AllScanned(scan, text, ws[..n]) && KeptByAll(scan, text, ws[..n], claimedTo) == []
    && (if n == |ws| then r == Ok(false)
        else
          match scan(Slice(text, ws[n]))
          case Failed(kind) => r == Err(kind)
          case Found(_) => r == Ok(true) && KeptBy(scan, text, ws[n], ClaimAfter(text, ws, n, claimedTo)) != [])
  }

  /** The answer is the first failure or finding of some walk that covers the text, or that there is none. */
  ghost predicate Decided(scan: Scanner, text: Bytes, r: Result<bool, ErrorKind>) {
    exists ws, n: nat | Proper(text, ws) && n <= |ws| :: DecidedAt(scan, text, ws, 0, n, r)
  }

  lemma DecidedFirst(scan: Scanner, text: Bytes, ws: seq<Window>, claimedTo: nat, r: Result<bool, ErrorKind>)
    requires AllInText(text, ws)
    requires
      if ws == [] then r == Ok(false)
      else
        var w := ws[0];
        r != Ok(false) && r == ScanTurn(scan, Slice(text, w), w.start, IsLast(text, w), claimedTo).result
    ensures DecidedAt(scan, text, ws, claimedTo, 0, r)
  {
    assert ws[..0] == [];
  }

  lemma DecidedLater(scan: Scanner, text: Bytes, ws: seq<Window>, claimedTo: nat, n: nat, r: Result<bool, ErrorKind>)
    requires AllInText(text, ws) && ws != [] && n <= |ws[1..]|
    requires scan(Slice(text, ws[0])).Found? && KeptBy(scan, text, ws[0], claimedTo) == []
    requires DecidedAt(scan, text, ws[1..], Claim(text, ws[0]), n, r)
    ensures DecidedAt(scan, text, ws, claimedTo, n + 1, r)
  {
    var first := ws[..n + 1];
    assert first[0] == ws[0] && first[1..] == ws[1..][..n];
    forall k | 0 <= k < |first|
      ensures scan(Slice(text, first[k])).Found?
    {
      assert k > 0 ==> first[k] == ws[1..][..n][k - 1];
    }
  }

  lemma CleanTurn(scan: Scanner, text: Bytes, w: Window, claimedTo: nat)
    requires w.start <= w.end <= |text|
    requires ScanTurn(scan, Slice(text, w), w.start, IsLast(text, w), claimedTo).result == Ok(false)
    ensures scan(Slice(text, w)).Found? && KeptBy(scan, text, w, claimedTo) == []
    ensures ScanTurn(scan, Slice(text, w), w.start, IsLast(text, w), claimedTo).claimedTo == Claim(text, w)
  {
  }

  /** One window of a walk: the walk ends there, or goes on behind it. */
  lemma WalkTurns(scan: Scanner, text: Bytes, ws: seq<Window>, claimedTo: nat, seen: seq<Seen>) returns (turn: Turn)
    requires AllInText(text, ws) && ws != []
    ensures turn == ScanTurn(scan, Slice(text, ws[0]), ws[0].start, IsLast(text, ws[0]), claimedTo)
    ensures
      Walk(scan, text, ws, claimedTo, seen).result
      == if turn.result == Ok(false) then
           Walk(scan, text, ws[1..], turn.claimedTo,
                seen + [Seen(ws[0].start, ws[0].end, IsLast(text, ws[0]))]).result
         else turn.result
  {
    turn := ScanTurn(scan, Slice(text, ws[0]), ws[0].start, IsLast(text, ws[0]), claimedTo);
  }

  lemma {:induction false} WalkDecides(scan: Scanner, text: Bytes, ws: seq<Window>, claimedTo: nat, seen: seq<Seen>,
                                       r: Result<bool, ErrorKind>)
    returns (n: nat)
    requires AllInText(text, ws) && r == Walk(scan, text, ws, claimedTo, seen).result
    ensures n <= |ws| && DecidedAt(scan, text, ws, claimedTo, n, r)
    decreases |ws|
  {
    n := 0;
    if ws == [] {
      DecidedFirst(scan, text, ws, claimedTo, r);
    } else {
      var w := ws[0];
      var turn := WalkTurns(scan, text, ws, claimedTo, seen);
      if turn.result == Ok(false) {
        CleanTurn(scan, text, w, claimedTo);
        var after := seen + [Seen(w.start, w.end, IsLast(text, w))];
        n := WalkDecides(scan, text, ws[1..], turn.claimedTo, after, r);
        DecidedLater(scan, text, ws, claimedTo, n, r);
        n := n + 1;
      } else {
        DecidedFirst(scan, text, ws, claimedTo, r);
      }
    }
  }

  lemma AnswerRests(scan: Scanner, text: Bytes, ws: seq<Window>, seen: seq<Seen>)
    requires Proper(text, ws)
    ensures Rests(scan, text, Walk(scan, text, ws, 0, seen).result)
    ensures Decided(scan, text, Walk(scan, text, ws, 0, seen).result)
  {
    WalkRests(scan, text, ws, 0, seen);
    var n := WalkDecides(scan, text, ws, 0, seen, Walk(scan, text, ws, 0, seen).result);
  }

  // ----- The hypothesis can be met

  function MarkAt(at: nat): Finding {
    Finding("mark", at, at + 1, at, at + 1)
  }

  /** A scanner that reports every occurrence of one byte. */
  function Marks(text: Bytes, mark: Byte): seq<Finding> {
    if text == [] then []
    else Marks(text[..|text| - 1], mark) + (if text[|text| - 1] == mark then [MarkAt(|text| - 1)] else [])
  }

  predicate IsMark(text: Bytes, mark: Byte, f: Finding) {
    f.start < |text| && text[f.start] == mark && f == MarkAt(f.start)
  }

  lemma CountJoin(a: seq<Finding>, b: seq<Finding>, f: Finding)
    ensures multiset(a + b)[f] == multiset(a)[f] + multiset(b)[f]
  {
  }

  lemma {:induction false} MarksCount(text: Bytes, mark: Byte, f: Finding)
    ensures multiset(Marks(text, mark))[f] == if IsMark(text, mark, f) then 1 else 0
  {
    if text != [] {
      var last := |text| - 1;
      MarksCount(text[..last], mark, f);
      CountJoin(Marks(text[..last], mark), if text[last] == mark then [MarkAt(last)] else [], f);
    }
  }

  lemma MarkInSlice(text: Bytes, mark: Byte, start: nat, end: nat, g: Finding)
    requires start <= end <= |text| && g.end <= end - start
    ensures IsMark(text[start..end], mark, g) <==> IsMark(text, mark, Place(g, start))
  {
  }

  lemma MarksAgree(text: Bytes, mark: Byte, start: nat, end: nat, g: Finding)
    requires start <= end <= |text| && g.end <= end - start
    ensures multiset(Marks(text[start..end], mark))[g] == multiset(Marks(text, mark))[Place(g, start)]
  {
    MarkInSlice(text, mark, start, end, g);
    var part, placed := text[start..end], Place(g, start);
    MarksCount(part, mark, g);
    MarksCount(text, mark, placed);
  }

  lemma MarksArePlausible(text: Bytes, mark: Byte, f: Finding)
    requires f in multiset(Marks(text, mark))
    ensures Plausible(f, |text|)
  {
    MarksCount(text, mark, f);
  }

  function MarkScanner(mark: Byte): Scanner {
    (window: Bytes) => Found(Marks(window, mark))
  }

  lemma MarkScannerIsLocal(text: Bytes, mark: Byte)
    ensures Local(MarkScanner(mark), text, multiset(Marks(text, mark)))
  {
    var truth := multiset(Marks(text, mark));
    forall f | f in truth
      ensures Plausible(f, |text|)
    {
      MarksArePlausible(text, mark, f);
    }
    forall w, g | InText(text, w)
      ensures AgreesOn(MarkScanner(mark), text, truth, w, g)
    {
      if ClearOfEdges(text, w, g) {
        MarksAgree(text, mark, w.start, w.end, g);
      }
    }
  }
}
