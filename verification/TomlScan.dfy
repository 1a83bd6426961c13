/**
  The quote-aware scan of a Cargo manifest, one line at a time: what it visits, how comments are
  cut, and why cutting them changes nothing that a later scan of the same file sees.
 */
module TomlScan {
  import opened Outcomes
  import opened Pieces

  /** Between scans: outside strings, or inside a multiline string of the given quote. */
  datatype Mode = Plain | Multiline(quote: char)

  // ----- What the scan does

  predicate Triple(line: string, i: nat, quote: char) {
    i + 3 <= |line| && line[i] == quote && line[i + 1] == quote && line[i + 2] == quote
  }

  /** `indexOf` of the delimiter. */
  function FindTriple(line: string, i: nat, quote: char): (r: Option<nat>)
    ensures r.Some? ==> i <= r.value && Triple(line, r.value, quote)
    decreases |line| - i
  {
    if i + 3 > |line| then None
    else if Triple(line, i, quote) then Some(i)
    else FindTriple(line, i + 1, quote)
  }

  /** Where a single-line string ends: its closing quote, or the end of the line. */
  function CloseQuote(line: string, scan: nat, quote: char, escaped: bool): (r: nat)
    requires scan <= |line|
    ensures scan <= r <= |line|
    decreases |line| - scan
  {
    if scan == |line| then scan
    else if quote == '\'' then
      if line[scan] == '\'' then scan else CloseQuote(line, scan + 1, quote, false)
    else if escaped then CloseQuote(line, scan + 1, quote, false)
    else if line[scan] == '\\' then CloseQuote(line, scan + 1, quote, true)
    else if line[scan] == '"' then scan
    else CloseQuote(line, scan + 1, quote, false)
  }

  /** One turn of the scan: the turn visits `index`, or moves to another index and mode. */
  datatype Turn = Visit | Jump(index: nat, mode: Mode) | Lost

  function TurnAt(line: string, i: nat, mode: Mode): (t: Turn)
    requires i < |line|
    ensures t.Jump? ==> i < t.index
    ensures t.Lost? ==> mode.Multiline?
  {
    match mode
    case Multiline(quote) =>
      (match FindTriple(line, i, quote)
       case None => Lost
       case Some(close) => Jump(close + 3, Plain))
    case Plain =>
      if Triple(line, i, '"') then Jump(i + 3, Multiline('"'))
      else if Triple(line, i, '\'') then Jump(i + 3, Multiline('\''))
      else if line[i] == '"' || line[i] == '\'' then Jump(CloseQuote(line, i + 1, line[i], false) + 1, Plain)
      else Visit
  }

  /** The indices a scan visits, in order, and the mode it leaves. `halts` says where the visitor stops it. */
  function Scan(line: string, i: nat, mode: Mode, halts: char -> bool): (r: (seq<nat>, Mode))
    decreases |line| - i
  {
    if i >= |line| then ([], mode)
    else
      match TurnAt(line, i, mode)
      case Lost => ([], mode)
      case Jump(index, next) => Scan(line, index, next, halts)
      case Visit =>
        if halts(line[i]) then ([i], mode)
        else var (rest, end) := Scan(line, i + 1, mode, halts); ([i] + rest, end)
  }

  predicate Inside(line: string, i: nat, visited: seq<nat>) {
    forall k | 0 <= k < |visited| :: i <= visited[k] < |line|
  }

  lemma {:induction false} VisitsAreInside(line: string, i: nat, mode: Mode, halts: char -> bool)
    ensures Inside(line, i, Scan(line, i, mode, halts).0)
    decreases |line| - i
  {
    if i < |line| {
      match TurnAt(line, i, mode) {
        case Lost =>
        case Jump(index, next) => VisitsAreInside(line, index, next, halts);
        case Visit =>
          if !halts(line[i]) {
            VisitsAreInside(line, i + 1, mode, halts);
          }
      }
    }
  }

  // ----- What the two visitors ask for

  predicate AtHash(c: char) {
    c == '#'
  }

  predicate Never(c: char) {
    false
  }

  /** Every index outside strings. */
  function Visits(line: string, i: nat, mode: Mode): (visited: seq<nat>)
    ensures Inside(line, 0, visited)
  {
    VisitsAreInside(line, i, mode, Never);
    Scan(line, i, mode, Never).0
  }

  function ModeAfter(line: string, mode: Mode): Mode {
    Scan(line, 0, mode, AtHash).1
  }

  function Strip(line: string, mode: Mode): string {
    VisitsAreInside(line, 0, mode, AtHash);
    var visited := Scan(line, 0, mode, AtHash).0;
    if visited != [] && line[visited[|visited| - 1]] == '#' then line[..visited[|visited| - 1]] else line
  }

  function Bracket(c: char): int {
    if c == '{' || c == '[' then 1 else if c == '}' || c == ']' then -1 else 0
  }

  function Nesting(line: string, visited: seq<nat>): int
    requires Inside(line, 0, visited)
  {
    if visited == [] then 0
    else Nesting(line, visited[..|visited| - 1]) + Bracket(line[visited[|visited| - 1]])
  }

  /** The characters a scan shows its visitor. */
  function Shown(line: string, visited: seq<nat>): string
    requires Inside(line, 0, visited)
  {
    if visited == [] then "" else Shown(line, visited[..|visited| - 1]) + [line[visited[|visited| - 1]]]
  }

  /** What opens minus what closes. */
  function Open(text: string): int {
    var opens: int := multiset(text)['['] + multiset(text)['{'];
    var closes: int := multiset(text)[']'] + multiset(text)['}'];
    opens - closes
  }

  lemma {:induction false} NestingIsOpen(line: string, visited: seq<nat>)
    requires Inside(line, 0, visited)
    ensures Nesting(line, visited) == Open(Shown(line, visited))
  {
    if visited != [] {
      NestingIsOpen(line, visited[..|visited| - 1]);
      OpenOneMore(Shown(line, visited[..|visited| - 1]), line[visited[|visited| - 1]]);
    }
  }

  lemma OpenOneMore(text: string, c: char)
    ensures Open(text + [c]) == Open(text) + Bracket(c)
  {
  }

  // ----- One line

  lemma {:induction false} FindTripleInPrefix(line: string, c: nat, i: nat, quote: char)
    requires c <= |line|
    ensures FindTriple(line[..c], i, quote)
         == (var r := FindTriple(line, i, quote); if r.Some? && r.value + 3 <= c then r else None)
    decreases |line| - i
  {
    if i + 3 <= c && !Triple(line, i, quote) {
      FindTripleInPrefix(line, c, i + 1, quote);
    }
  }

  lemma {:induction false} CloseQuoteInPrefix(line: string, c: nat, scan: nat, quote: char, escaped: bool)
    requires scan <= c <= |line|
    ensures CloseQuote(line[..c], scan, quote, escaped)
         == (var r := CloseQuote(line, scan, quote, escaped); if r < c then r else c)
    decreases |line| - scan
  {
    if scan < c {
      CloseQuoteInPrefix(line, c, scan + 1, quote, true);
      CloseQuoteInPrefix(line, c, scan + 1, quote, false);
    }
  }

  /** A turn that does not pass `c` is the same turn on the line cut at `c`. */
  lemma TurnInPrefix(line: string, c: nat, i: nat, mode: Mode)
    requires i < c <= |line|
    requires var t := TurnAt(line, i, mode); t.Visit? || (t.Jump? && t.index <= c)
    ensures TurnAt(line[..c], i, mode) == TurnAt(line, i, mode)
  {
    match mode {
      case Multiline(quote) => FindTripleInPrefix(line, c, i, quote);
      case Plain => CloseQuoteInPrefix(line, c, i + 1, line[i], false);
    }
  }

  /** Cut at an index it visits, a line is scanned as far as the cut as before, and the scan ends outside strings. */
  lemma {:induction false} ScanOfPrefix(line: string, c: nat, i: nat, mode: Mode)
    requires c in Visits(line, i, mode)
    ensures i <= c < |line|
    ensures Visits(line, i, mode) == Visits(line[..c], i, mode) + Visits(line, c, Plain)
    ensures Scan(line[..c], i, mode, Never).1 == Plain
    decreases |line| - i
  {
    VisitsAreInside(line, i, mode, Never);
    match TurnAt(line, i, mode) {
      case Lost =>
      case Jump(index, next) =>
        ScanOfPrefix(line, c, index, next);
        TurnInPrefix(line, c, i, mode);
      case Visit =>
        if c != i {
          ScanOfPrefix(line, c, i + 1, mode);
          TurnInPrefix(line, c, i, mode);
          assert [i] + (Visits(line[..c], i + 1, mode) + Visits(line, c, Plain))
              == ([i] + Visits(line[..c], i + 1, mode)) + Visits(line, c, Plain);
        }
    }
  }

  /** The scan that looks for `#` is the full scan, stopped at the first `#` it visits. */
  lemma {:induction false} HashScan(line: string, i: nat, mode: Mode)
    ensures var (v, end) := Scan(line, i, mode, AtHash);
            && Inside(line, 0, v)
            && (forall k | 0 <= k < |v| - 1 :: line[v[k]] != '#')
            && (v != [] && line[v[|v| - 1]] == '#' ==> end == Plain && v <= Visits(line, i, mode))
            && (v == [] || line[v[|v| - 1]] != '#' ==> (v, end) == Scan(line, i, mode, Never))
    decreases |line| - i
  {
    VisitsAreInside(line, i, mode, AtHash);
    if i < |line| {
      match TurnAt(line, i, mode) {
        case Lost =>
        case Jump(index, next) => HashScan(line, index, next);
        case Visit =>
          if line[i] != '#' {
            HashScan(line, i + 1, mode);
          }
      }
    }
  }

  /** `s` is `line` without its comment: cut at a `#` the scan visits, with no such `#` before, or not at all. */
  ghost predicate CommentCut(line: string, mode: Mode, s: string) {
    && s <= line
    && (s != line ==> |s| in Visits(line, 0, mode) && line[|s|] == '#')
    && (forall k | 0 <= k < |Visits(s, 0, mode)| :: s[Visits(s, 0, mode)[k]] != '#')
  }

  lemma StripCutsTheComment(line: string, mode: Mode)
    ensures CommentCut(line, mode, Strip(line, mode))
    ensures Scan(Strip(line, mode), 0, mode, Never).1 == ModeAfter(line, mode)
  {
    HashScan(line, 0, mode);
    var (v, end) := Scan(line, 0, mode, AtHash);
    var s := Strip(line, mode);
    if s != line {
      var c := v[|v| - 1];
      ScanOfPrefix(line, c, 0, mode);
      VisitsAreInside(s, 0, mode, Never);
      FirstOfTheRest(line, c, v, Visits(s, 0, mode), Visits(line, c, Plain), mode);
    }
  }

  /** A scan of `line[..c]` shows the visits of `line` before `c`, so it shows none of its `#`s. */
  lemma FirstOfTheRest(line: string, c: nat, v: seq<nat>, before: seq<nat>, rest: seq<nat>, mode: Mode)
    requires v != [] && v[|v| - 1] == c < |line| && Inside(line, 0, v)
    requires forall k | 0 <= k < |v| - 1 :: line[v[k]] != '#'
    requires v <= before + rest && Inside(line[..c], 0, before)
    ensures forall k | 0 <= k < |before| :: line[..c][before[k]] != '#'
  {
    forall k | 0 <= k < |before|
      ensures line[..c][before[k]] != '#'
    {
      assert v[k] == (before + rest)[k] == before[k];
    }
  }

  /** A comment can be cut in one way only. */
  lemma CommentCutIsStrip(line: string, mode: Mode, s: string)
    requires CommentCut(line, mode, s)
    ensures s == Strip(line, mode)
  {
    StripCutsTheComment(line, mode);
    var t := Strip(line, mode);
    if s != line {
      HashOutsideCut(line, mode, t, |s|);
    }
    if t != line {
      HashOutsideCut(line, mode, s, |t|);
    }
    assert |s| == |t|;
  }

  /** Every `#` the scan visits is at the cut or after it. */
  lemma HashOutsideCut(line: string, mode: Mode, t: string, c: nat)
    requires CommentCut(line, mode, t)
    requires c in Visits(line, 0, mode) && line[c] == '#'
    ensures |t| <= c
  {
    if t != line {
      ScanOfPrefix(line, |t|, 0, mode);
      assert t == line[..|t|];
      if c !in Visits(t, 0, mode) {
        VisitsAreInside(line, |t|, Plain, Never);
      }
    }
  }

  /**
    Stripping twice is stripping once; both visitors leave a stripped line in the mode the first
    strip left; and what a stripped line's scan visits is what the line's scan visits before its comment.
   */
  lemma StripIsStable(line: string, mode: Mode)
    ensures var s := Strip(line, mode);
            && Strip(s, mode) == s
            && ModeAfter(s, mode) == ModeAfter(line, mode) == Scan(s, 0, mode, Never).1
            && Visits(line, 0, mode) == Visits(s, 0, mode) + (if s == line then [] else Visits(line, |s|, Plain))
  {
    var s := Strip(line, mode);
    StripCutsTheComment(line, mode);
    if s != line {
      ScanOfPrefix(line, |s|, 0, mode);
      assert s == line[..|s|];
    } else {
      assert Visits(s, 0, mode) + [] == Visits(s, 0, mode);
    }
    StripCutsTheComment(s, mode);
    CommentCutIsStrip(s, mode, s);
  }

  // ----- In place, as the caller runs it

  /** The caller's `state`, updated in place from line to line. */
  class ScanState {
    var multiline: Mode

    constructor ()
      ensures multiline == Plain
    {
      multiline := Plain;
    }
  }

  method EndOfString(line: string, start: nat, quote: char) returns (scan: nat)
    requires start <= |line|
    ensures scan == CloseQuote(line, start, quote, false)
  {
    scan := start;
    var escaped := false;
    while scan < |line|
      invariant start <= scan <= |line|
      invariant quote == '\'' ==> !escaped
      invariant CloseQuote(line, start, quote, false) == CloseQuote(line, scan, quote, escaped)
    {
      var inner := line[scan];
      if quote == '\'' {
        if inner == '\'' {
          break;
        }
      } else if escaped {
        escaped := false;
      } else if inner == '\\' {
        escaped := true;
      } else if inner == '"' {
        break;
      }
      scan := scan + 1;
    }
  }

  /** `scanUnquoted`, with what its visitor was shown. */
  method ScanUnquoted(line: string, state: ScanState, halts: char -> bool) returns (visited: seq<nat>)
    modifies state
    ensures visited == Scan(line, 0, old(state.multiline), halts).0
    ensures state.multiline == Scan(line, 0, old(state.multiline), halts).1
  {
    visited := [];
    var index: nat := 0;
    ghost var whole := Scan(line, 0, state.multiline, halts);
    while index < |line|
      invariant whole.0 == visited + Scan(line, index, state.multiline, halts).0
      invariant whole.1 == Scan(line, index, state.multiline, halts).1
      decreases |line| - index
    {
      if state.multiline.Multiline? {
        var close := FindTriple(line, index, state.multiline.quote);
        if close.None? {
          return;
        }
        index := close.value + 3;
        state.multiline := Plain;
        continue;
      }
      if Triple(line, index, '"') {
        state.multiline := Multiline('"');
        index := index + 3;
        continue;
      } else if Triple(line, index, '\'') {
        state.multiline := Multiline('\'');
        index := index + 3;
        continue;
      }
      var c := line[index];
      if c == '"' || c == '\'' {
        var scan := EndOfString(line, index + 1, c);
        index := scan + 1;
        continue;
      }
      ghost var rest := Scan(line, index + 1, state.multiline, halts).0;
      assert visited + ([index] + rest) == (visited + [index]) + rest;
      visited := visited + [index];
      if halts(c) {
        return;
      }
      index := index + 1;
    }
  }

  /** `stripTomlComments`. */
  method StripTomlComments(line: string, state: ScanState) returns (s: string)
    modifies state
    ensures s == Strip(line, old(state.multiline)) && state.multiline == ModeAfter(line, old(state.multiline))
  {
    var visited := ScanUnquoted(line, state, AtHash);
    VisitsAreInside(line, 0, old(state.multiline), AtHash);
    if visited != [] && line[visited[|visited| - 1]] == '#' {
      return line[..visited[|visited| - 1]];
    }
    return line;
  }

  /** `structuralDelta`. */
  method StructuralDelta(line: string, state: ScanState) returns (delta: int)
    modifies state
    ensures delta == Open(Shown(line, Visits(line, 0, old(state.multiline))))
    ensures state.multiline == Scan(line, 0, old(state.multiline), Never).1
  {
    var visited := ScanUnquoted(line, state, Never);
    VisitsAreInside(line, 0, old(state.multiline), Never);
    delta := 0;
    for k := 0 to |visited|
      invariant delta == Nesting(line, visited[..k])
    {
      assert visited[..k + 1][..k] == visited[..k];
      var c := line[visited[k]];
      if c == '{' || c == '[' {
        delta := delta + 1;
      } else if c == '}' || c == ']' {
        delta := delta - 1;
      }
    }
    assert visited[..|visited|] == visited;
    NestingIsOpen(line, visited);
  }

  /** `tomlLines`. */
  method TomlLines(cargo: string) returns (lines: seq<string>)
    ensures lines == StripAll(SplitAt(cargo, '\n'), Plain)
  {
    var state := new ScanState();
    var raw := SplitAt(cargo, '\n');
    lines := [];
    for i := 0 to |raw|
      invariant lines + StripAll(raw[i..], state.multiline) == StripAll(raw, Plain)
    {
      assert raw[i..][1..] == raw[i + 1..];
      ghost var rest := StripAll(raw[i + 1..], ModeAfter(raw[i], state.multiline));
      var line := StripTomlComments(raw[i], state);
      assert lines + ([line] + rest) == (lines + [line]) + rest;
      lines := lines + [line];
    }
    assert lines + [] == lines;
  }

  // ----- Whole files

  function StripAll(lines: seq<string>, mode: Mode): (r: seq<string>)
    ensures |r| == |lines|
  {
    if lines == [] then []
    else [Strip(lines[0], mode)] + StripAll(lines[1..], ModeAfter(lines[0], mode))
  }

  /** The mode each line starts in, and the mode the last leaves. */
  function ModesOf(lines: seq<string>, mode: Mode, halts: char -> bool): seq<Mode> {
    [mode] + if lines == [] then [] else ModesOf(lines[1..], Scan(lines[0], 0, mode, halts).1, halts)
  }

  /** Stripped lines strip to themselves, and either visitor meets them in the modes the first strip met. */
  lemma {:induction false} StrippedLinesAreStable(lines: seq<string>, mode: Mode)
    ensures StripAll(StripAll(lines, mode), mode) == StripAll(lines, mode)
    ensures ModesOf(StripAll(lines, mode), mode, AtHash) == ModesOf(lines, mode, AtHash)
    ensures ModesOf(StripAll(lines, mode), mode, Never) == ModesOf(lines, mode, AtHash)
  {
    if lines != [] {
      var next := ModeAfter(lines[0], mode);
      StripIsStable(lines[0], mode);
      StrippedLinesAreStable(lines[1..], next);
      var stripped := StripAll(lines, mode);
      assert stripped[1..] == StripAll(lines[1..], next);
    }
  }

  lemma {:induction false} StrippedLinesStayLines(lines: seq<string>, mode: Mode)
    requires forall k | 0 <= k < |lines| :: '\n' !in lines[k]
    ensures forall k | 0 <= k < |lines| :: '\n' !in StripAll(lines, mode)[k]
  {
    if lines != [] {
      StripCutsTheComment(lines[0], mode);
      StrippedLinesStayLines(lines[1..], ModeAfter(lines[0], mode));
    }
  }

  /** The lines of a manifest, stripped and put back together, are a manifest with the same stripped lines. */
  lemma StrippedFileIsStable(cargo: string)
    ensures var lines := StripAll(SplitAt(cargo, '\n'), Plain);
            && StripAll(SplitAt(Join(lines, '\n'), '\n'), Plain) == lines
            && ModesOf(lines, Plain, Never) == ModesOf(SplitAt(cargo, '\n'), Plain, AtHash)
  {
    var raw := SplitAt(cargo, '\n');
    SplitHasNone(cargo, '\n');
    StrippedLinesStayLines(raw, Plain);
    StrippedLinesAreStable(raw, Plain);
    SplitJoin(StripAll(raw, Plain), '\n');
  }
}
