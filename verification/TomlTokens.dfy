/**
  A reading of a TOML line that does not mention the scan: the line is cut into plain characters,
  single-line strings and multiline strings, each given by what it may hold. The scan visits exactly
  the plain characters, so "outside strings" means what a reader of TOML takes it to mean.
 */
module TomlTokens {
  import opened Outcomes
  import opened TomlScan

  datatype Token =
    | Char(c: char)
    | Closed(quote: char, body: string)
    | Unclosed(quote: char, body: string)
    | Block(quote: char, body: string)
    | OpenBlock(quote: char, body: string)
    /** The rest of a multiline string that an earlier line opened, and such a string going on. */
    | BlockEnd(quote: char, body: string)
    | BlockRest(body: string)

  function Fence(quote: char): string {
    [quote, quote, quote]
  }

  function Text(token: Token): string {
    match token
    case Char(c) => [c]
    case Closed(quote, body) => [quote] + body + [quote]
    case Unclosed(quote, body) => [quote] + body
    case Block(quote, body) => Fence(quote) + body + Fence(quote)
    case OpenBlock(quote, body) => Fence(quote) + body
    case BlockEnd(quote, body) => body + Fence(quote)
    case BlockRest(body) => body
  }

  function TextOf(tokens: seq<Token>): string {
    if tokens == [] then "" else Text(tokens[0]) + TextOf(tokens[1..])
  }

  predicate IsQuote(c: char) {
    c == '"' || c == '\''
  }

  /** How many backslashes stand directly before `at`, from `start` on. */
  function Backslashes(text: string, start: nat, at: nat): nat
    requires start <= at <= |text|
    decreases at
  {
    if at == start || text[at - 1] != '\\' then 0 else 1 + Backslashes(text, start, at - 1)
  }

  /** In a basic string, a character after an odd run of backslashes is escaped. A literal string has no escapes. */
  predicate Escaped(quote: char, text: string, start: nat, at: nat)
    requires start <= at <= |text|
  {
    quote == '"' && Backslashes(text, start, at) % 2 == 1
  }

  /** No quote in `text[start..end]` ends a string opened just before `start`. */
  ghost predicate NoneEnds(quote: char, text: string, start: nat, end: nat)
    requires start <= end <= |text|
  {
    forall k | start <= k < end && text[k] == quote :: Escaped(quote, text, start, k)
  }

  /** What a single-line string may hold; `closed` strings do not end in an escape. */
  ghost predicate StringBody(quote: char, body: string, closed: bool) {
    NoneEnds(quote, body, 0, |body|) && (closed ==> !Escaped(quote, body, 0, |body|))
  }

  /** The closing fence after `body` is the first one. */
  ghost predicate FirstFence(quote: char, body: string) {
    forall k | 0 <= k < |body| :: !Triple(body + Fence(quote), k, quote)
  }

  ghost predicate NoFence(quote: char, body: string) {
    forall k | 0 <= k < |body| :: !Triple(body, k, quote)
  }

  /** `token` may stand first in a text that is in `mode`, before `rest`. */
  ghost predicate Fits(token: Token, mode: Mode, rest: string) {
    match token
    case Char(c) => mode.Plain? && !IsQuote(c)
    case Closed(quote, body) =>
      mode.Plain? && IsQuote(quote) && StringBody(quote, body, true) && !Triple(Text(token) + rest, 0, quote)
    case Unclosed(quote, body) =>
      mode.Plain? && IsQuote(quote) && StringBody(quote, body, false) && !Triple(Text(token), 0, quote) && rest == ""
    case Block(quote, body) => mode.Plain? && IsQuote(quote) && FirstFence(quote, body)
    case OpenBlock(quote, body) => mode.Plain? && IsQuote(quote) && NoFence(quote, body) && rest == ""
    case BlockEnd(quote, body) => mode == Multiline(quote) && FirstFence(quote, body)
    case BlockRest(body) => mode.Multiline? && body != "" && NoFence(mode.quote, body) && rest == ""
  }

  function ModeAfterToken(token: Token, mode: Mode): Mode {
    match token
    case OpenBlock(quote, _) => Multiline(quote)
    case BlockRest(_) => mode
    case _ => Plain
  }

  ghost predicate Lexes(tokens: seq<Token>, mode: Mode, end: Mode) {
    if tokens == [] then mode == end
    else Fits(tokens[0], mode, TextOf(tokens[1..])) && Lexes(tokens[1..], ModeAfterToken(tokens[0], mode), end)
  }

  /** Where the plain characters are, when the tokens start at `from`. */
  function CharsAt(tokens: seq<Token>, from: nat): seq<nat> {
    if tokens == [] then []
    else (if tokens[0].Char? then [from] else []) + CharsAt(tokens[1..], from + |Text(tokens[0])|)
  }

  // ----- Single-line strings

  lemma {:induction false} SameBackslashes(line: string, from: nat, body: string, at: nat)
    requires from + |body| <= |line| && line[from..from + |body|] == body && at <= |body|
    ensures Backslashes(line, from, from + at) == Backslashes(body, 0, at)
  {
    if at > 0 {
      assert line[from + at - 1] == line[from..from + |body|][at - 1];
      SameBackslashes(line, from, body, at - 1);
    }
  }

  /** The scan for the closing quote stops at the first quote that is not escaped. */
  lemma {:induction false} ClosesAt(line: string, start: nat, scan: nat, quote: char, end: nat)
    requires IsQuote(quote) && start <= scan <= end <= |line|
    requires forall k | scan <= k < end && line[k] == quote :: Escaped(quote, line, start, k)
    requires end < |line| ==> line[end] == quote && !Escaped(quote, line, start, end)
    ensures CloseQuote(line, scan, quote, Escaped(quote, line, start, scan)) == end
    decreases end - scan
  {
    if scan < end {
      ClosesAt(line, start, scan + 1, quote, end);
    }
  }

  /** And so it stops at a quote that is not escaped, or nowhere. */
  lemma {:induction false} StopsRight(line: string, start: nat, scan: nat, quote: char)
    requires IsQuote(quote) && start <= scan <= |line|
    ensures
      var end := CloseQuote(line, scan, quote, Escaped(quote, line, start, scan));
      && scan <= end <= |line|
      && (forall k | scan <= k < end && line[k] == quote :: Escaped(quote, line, start, k))
      && (end < |line| ==> line[end] == quote && !Escaped(quote, line, start, end))
    decreases |line| - scan
  {
    if scan < |line| {
      StopsRight(line, start, scan + 1, quote);
    }
  }

  // ----- Multiline strings

  lemma {:induction false} FenceAt(line: string, i: nat, quote: char, at: nat)
    requires i <= at && Triple(line, at, quote)
    requires forall k | i <= k < at :: !Triple(line, k, quote)
    ensures FindTriple(line, i, quote) == Some(at)
    decreases at - i
  {
    if i < at {
      FenceAt(line, i + 1, quote, at);
    }
  }

  lemma {:induction false} NoFenceFrom(line: string, i: nat, quote: char)
    requires forall k | i <= k < |line| :: !Triple(line, k, quote)
    ensures FindTriple(line, i, quote) == None
    decreases |line| - i
  {
    if i + 3 <= |line| {
      NoFenceFrom(line, i + 1, quote);
    }
  }

  lemma {:induction false} FirstFound(line: string, i: nat, quote: char)
    ensures
      match FindTriple(line, i, quote)
      case Some(at) => forall k | i <= k < at :: !Triple(line, k, quote)
      case None => forall k | i <= k < |line| :: !Triple(line, k, quote)
    decreases |line| - i
  {
    if i + 3 <= |line| && !Triple(line, i, quote) {
      FirstFound(line, i + 1, quote);
    }
  }

  // ----- One token, one or two turns of the scan

  lemma TailAt(line: string, i: nat, tail: string, k: nat)
    requires i <= |line| && line[i..] == tail && k < |tail|
    ensures line[i + k] == tail[k]
  {
  }

  lemma TripleInTail(line: string, i: nat, tail: string, k: nat, quote: char)
    requires i <= |line| && line[i..] == tail
    ensures Triple(line, i + k, quote) <==> Triple(tail, k, quote)
  {
  }

  /** A string's body, where it stands in the line. */
  lemma BodyInLine(line: string, from: nat, quote: char, body: string)
    requires from + |body| <= |line| && line[from..from + |body|] == body
    ensures NoneEnds(quote, body, 0, |body|) <==> NoneEnds(quote, line, from, from + |body|)
    ensures Escaped(quote, body, 0, |body|) <==> Escaped(quote, line, from, from + |body|)
  {
    forall k | 0 <= k <= |body|
      ensures Escaped(quote, body, 0, k) <==> Escaped(quote, line, from, from + k)
      ensures k < |body| ==> body[k] == line[from + k]
    {
      SameBackslashes(line, from, body, k);
      assert k < |body| ==> line[from..from + |body|][k] == line[from + k];
    }
    if NoneEnds(quote, body, 0, |body|) {
      forall k | from <= k < from + |body| && line[k] == quote
        ensures Escaped(quote, line, from, k)
      {
        assert body[k - from] == quote;
      }
    }
    if NoneEnds(quote, line, from, from + |body|) {
      forall k | 0 <= k < |body| && body[k] == quote
        ensures Escaped(quote, body, 0, k)
      {
        assert line[from + k] == quote;
      }
    }
  }

  /** The scan goes on from `next` in `mode` after it has visited `here`. */
  predicate GoesOn(line: string, i: nat, mode: Mode, here: seq<nat>, next: nat, mode': Mode) {
    && Visits(line, i, mode) == here + Visits(line, next, mode')
    && Scan(line, i, mode, Never).1 == Scan(line, next, mode', Never).1
  }

  lemma CharTurn(line: string, i: nat, c: char, rest: string)
    requires i <= |line| && line[i..] == [c] + rest && !IsQuote(c)
    ensures GoesOn(line, i, Plain, [i], i + 1, Plain)
  {
    TailAt(line, i, [c] + rest, 0);
  }

  lemma ClosedTurn(line: string, i: nat, quote: char, body: string, rest: string)
    requires i <= |line| && IsQuote(quote) && StringBody(quote, body, true)
    requires line[i..] == [quote] + body + [quote] + rest && !Triple(line, i, quote)
    ensures GoesOn(line, i, Plain, [], i + |body| + 2, Plain)
  {
    var end := i + 1 + |body|;
    Parts(line, i, quote, body, [quote] + rest);
    assert line[i..] == [quote] + body + ([quote] + rest);
    BodyInLine(line, i + 1, quote, body);
    ClosesAt(line, i + 1, i + 1, quote, end);
    QuoteTurn(line, i, end);
  }

  lemma UnclosedTurn(line: string, i: nat, quote: char, body: string)
    requires i <= |line| && IsQuote(quote) && StringBody(quote, body, false)
    requires line[i..] == [quote] + body && !Triple(line, i, quote)
    ensures GoesOn(line, i, Plain, [], |line|, Plain)
  {
    Parts(line, i, quote, body, "");
    assert line[i..] == [quote] + body + "";
    BodyInLine(line, i + 1, quote, body);
    ClosesAt(line, i + 1, i + 1, quote, |line|);
    QuoteTurn(line, i, |line|);
  }

  lemma Parts(line: string, i: nat, quote: char, body: string, after: string)
    requires i <= |line| && line[i..] == [quote] + body + after
    ensures i + 1 + |body| <= |line| && line[i] == quote && line[i + 1..i + 1 + |body|] == body
    ensures |line| == i + 1 + |body| + |after|
    ensures after != "" ==> line[i + 1 + |body|] == after[0]
  {
    var tail := line[i..];
    assert tail[0] == quote && tail[1..1 + |body|] == body;
    assert after != "" ==> tail[1 + |body|] == after[0];
  }

  /** The turn at a single quote jumps past the closing one. */
  lemma QuoteTurn(line: string, i: nat, end: nat)
    requires i < |line| && IsQuote(line[i]) && !Triple(line, i, line[i])
    requires end == CloseQuote(line, i + 1, line[i], false) <= |line|
    ensures GoesOn(line, i, Plain, [], if end < |line| then end + 1 else end, Plain)
  {
    assert TurnAt(line, i, Plain) == Jump(end + 1, Plain);
    var next := if end < |line| then end + 1 else end;
    assert Scan(line, end + 1, Plain, Never) == Scan(line, next, Plain, Never);
    assert [] + Visits(line, next, Plain) == Visits(line, next, Plain);
  }

  lemma FenceTurn(line: string, i: nat, quote: char)
    requires IsQuote(quote) && Triple(line, i, quote)
    ensures GoesOn(line, i, Plain, [], i + 3, Multiline(quote))
  {
  }

  lemma BlockEndTurn(line: string, i: nat, quote: char, body: string, rest: string)
    requires i <= |line| && FirstFence(quote, body) && line[i..] == body + Fence(quote) + rest
    ensures GoesOn(line, i, Multiline(quote), [], i + |body| + 3, Plain)
  {
    var tail := line[i..];
    forall k | i <= k < i + |body|
      ensures !Triple(line, k, quote)
    {
      TripleInTail(line, i, tail, k - i, quote);
      assert !Triple(body + Fence(quote), k - i, quote);
      assert tail[..|body| + 3] == body + Fence(quote);
    }
    TripleInTail(line, i, tail, |body|, quote);
    FenceAt(line, i, quote, i + |body|);
  }

  lemma BlockRestTurn(line: string, i: nat, quote: char)
    requires i <= |line| && NoFence(quote, line[i..])
    ensures GoesOn(line, i, Multiline(quote), [], |line|, Multiline(quote))
  {
    forall k | i <= k < |line|
      ensures !Triple(line, k, quote)
    {
      TripleInTail(line, i, line[i..], k - i, quote);
    }
    NoFenceFrom(line, i, quote);
  }

  /** One stretch of the scan after another. */
  lemma Chain(line: string, i: nat, mode: Mode, here: seq<nat>, next: nat, mode': Mode, after: nat, mode'': Mode)
    requires GoesOn(line, i, mode, here, next, mode') && GoesOn(line, next, mode', [], after, mode'')
    ensures GoesOn(line, i, mode, here, after, mode'')
  {
    assert [] + Visits(line, after, mode'') == Visits(line, after, mode'');
  }

  lemma Regroup(a: string, b: string, c: string, d: string)
    ensures a + b + c + d == a + (b + c + d)
  {
  }

  lemma NoRest(head: string, rest: string)
    requires rest == ""
    ensures head + rest == head
  {
  }

  lemma BlockTurn(line: string, i: nat, quote: char, body: string, rest: string)
    requires i <= |line| && IsQuote(quote) && FirstFence(quote, body)
    requires line[i..] == Fence(quote) + body + Fence(quote) + rest
    ensures GoesOn(line, i, Plain, [], i + 6 + |body|, Plain)
  {
    Regroup(Fence(quote), body, Fence(quote), rest);
    AfterFence(line, i, quote, body + Fence(quote) + rest);
    FenceTurn(line, i, quote);
    BlockEndTurn(line, i + 3, quote, body, rest);
    Chain(line, i, Plain, [], i + 3, Multiline(quote), i + 6 + |body|, Plain);
  }

  lemma OpenBlockTurn(line: string, i: nat, quote: char, body: string)
    requires i <= |line| && IsQuote(quote) && NoFence(quote, body)
    requires line[i..] == Fence(quote) + body
    ensures GoesOn(line, i, Plain, [], |line|, Multiline(quote))
  {
    AfterFence(line, i, quote, body);
    FenceTurn(line, i, quote);
    BlockRestTurn(line, i + 3, quote);
    Chain(line, i, Plain, [], i + 3, Multiline(quote), |line|, Multiline(quote));
  }

  /** What a token makes of the scan. */
  predicate TokenGoesOn(line: string, i: nat, token: Token, mode: Mode) {
    GoesOn(line, i, mode, if token.Char? then [i] else [], i + |Text(token)|, ModeAfterToken(token, mode))
  }

  lemma LineTokenTurn(line: string, i: nat, token: Token, mode: Mode, rest: string)
    requires i <= |line| && line[i..] == Text(token) + rest && Fits(token, mode, rest)
    requires token.Char? || token.Closed? || token.Unclosed?
    ensures TokenGoesOn(line, i, token, mode)
  {
    TripleInTail(line, i, Text(token) + rest, 0, line[i..][0]);
    match token
    case Char(c) => CharTurn(line, i, c, rest);
    case Closed(quote, body) => ClosedTurn(line, i, quote, body, rest);
    case Unclosed(quote, body) =>
      NoRest(Text(token), rest);
      UnclosedTurn(line, i, quote, body);
  }

  lemma BlockTokenTurn(line: string, i: nat, token: Token, mode: Mode, rest: string)
    requires i <= |line| && line[i..] == Text(token) + rest && Fits(token, mode, rest)
    requires token.Block? || token.BlockEnd?
    ensures TokenGoesOn(line, i, token, mode)
  {
    match token
    case Block(quote, body) => BlockTurn(line, i, quote, body, rest);
    case BlockEnd(quote, body) => BlockEndTurn(line, i, quote, body, rest);
  }

  lemma LastTokenTurn(line: string, i: nat, token: Token, mode: Mode, rest: string)
    requires i <= |line| && line[i..] == Text(token) + rest && Fits(token, mode, rest)
    requires token.OpenBlock? || token.BlockRest?
    ensures TokenGoesOn(line, i, token, mode)
  {
    NoRest(Text(token), rest);
    match token
    case OpenBlock(quote, body) => OpenBlockTurn(line, i, quote, body);
    case BlockRest(body) => BlockRestTurn(line, i, mode.quote);
  }

  lemma TokenTurn(line: string, i: nat, token: Token, mode: Mode, rest: string)
    requires i <= |line| && line[i..] == Text(token) + rest && Fits(token, mode, rest)
    ensures TokenGoesOn(line, i, token, mode)
  {
    if token.Block? || token.BlockEnd? {
      BlockTokenTurn(line, i, token, mode, rest);
    } else if token.OpenBlock? || token.BlockRest? {
      LastTokenTurn(line, i, token, mode, rest);
    } else {
      LineTokenTurn(line, i, token, mode, rest);
    }
  }

  lemma AfterFence(line: string, i: nat, quote: char, after: string)
    requires i <= |line| && line[i..] == Fence(quote) + after
    ensures i + 3 <= |line| && line[i + 3..] == after && Triple(line, i, quote)
  {
    assert line[i + 3..] == line[i..][3..];
    assert line[i..][0] == line[i..][1] == line[i..][2] == quote;
  }

  // ----- Both directions

  /** The tokens are a reading of the line from `i` on. */
  ghost predicate Reads(line: string, i: nat, tokens: seq<Token>, mode: Mode, end: Mode) {
    i <= |line| && line[i..] == TextOf(tokens) && Lexes(tokens, mode, end)
  }

  lemma FirstToken(line: string, i: nat, tokens: seq<Token>, mode: Mode, end: Mode)
    requires Reads(line, i, tokens, mode, end) && tokens != []
    ensures TokenGoesOn(line, i, tokens[0], mode)
    ensures Reads(line, i + |Text(tokens[0])|, tokens[1..], ModeAfterToken(tokens[0], mode), end)
  {
    TokenTurn(line, i, tokens[0], mode, TextOf(tokens[1..]));
    TailAfter(line, i, Text(tokens[0]), TextOf(tokens[1..]));
  }

  /** The scan from `i` on visits the plain characters of `tokens` and ends in `end`. */
  predicate ScanAgrees(line: string, i: nat, tokens: seq<Token>, mode: Mode, end: Mode) {
    Visits(line, i, mode) == CharsAt(tokens, i) && Scan(line, i, mode, Never).1 == end
  }

  lemma AgreesAtEnd(line: string, tokens: seq<Token>, mode: Mode)
    requires tokens == []
    ensures ScanAgrees(line, |line|, tokens, mode, mode)
  {
  }

  lemma AgreesBefore(line: string, i: nat, tokens: seq<Token>, more: seq<Token>, mode: Mode, end: Mode)
    requires tokens != [] && more == tokens[1..] && TokenGoesOn(line, i, tokens[0], mode)
    requires ScanAgrees(line, i + |Text(tokens[0])|, more, ModeAfterToken(tokens[0], mode), end)
    ensures ScanAgrees(line, i, tokens, mode, end)
  {
  }

  /** However a line is read into tokens, the scan visits exactly its plain characters and ends in its mode. */
  lemma {:induction false} ScanReadsTokens(line: string, i: nat, tokens: seq<Token>, mode: Mode, end: Mode)
    requires Reads(line, i, tokens, mode, end)
    ensures ScanAgrees(line, i, tokens, mode, end)
    decreases |tokens|
  {
    if tokens == [] {
      NothingRead(line, i, tokens, mode, end);
      AgreesAtEnd(line, tokens, mode);
    } else {
      var more := tokens[1..];
      FirstToken(line, i, tokens, mode, end);
      ScanReadsTokens(line, i + |Text(tokens[0])|, more, ModeAfterToken(tokens[0], mode), end);
      AgreesBefore(line, i, tokens, more, mode, end);
    }
  }

  lemma NothingRead(line: string, i: nat, tokens: seq<Token>, mode: Mode, end: Mode)
    requires Reads(line, i, tokens, mode, end) && tokens == []
    ensures i == |line| && mode == end
  {
    assert |line[i..]| == 0;
  }

  lemma TailAfter(line: string, i: nat, head: string, rest: string)
    requires i <= |line| && line[i..] == head + rest
    ensures i + |head| <= |line| && line[i + |head|..] == rest
  {
    assert line[i + |head|..] == line[i..][|head|..];
  }

  /** `line[i..next]` is a token of a line that is in `mode` at `i`. */
  ghost predicate IsToken(line: string, i: nat, mode: Mode, token: Token, next: nat) {
    i < next <= |line| && Text(token) == line[i..next] && Fits(token, mode, line[next..])
  }

  /** The next token of a text that is not empty. */
  lemma NextToken(line: string, i: nat, mode: Mode) returns (token: Token, next: nat)
    requires i < |line| && (mode.Multiline? ==> IsQuote(mode.quote))
    ensures IsToken(line, i, mode, token, next)
  {
    if mode.Multiline? {
      token, next := BlockToken(line, i, mode.quote);
    } else if IsQuote(line[i]) {
      if Triple(line, i, line[i]) {
        token, next := OpeningToken(line, i, line[i]);
      } else {
        token, next := StringToken(line, i, line[i]);
      }
    } else {
      token, next := Char(line[i]), i + 1;
    }
  }

  /** The string opened just before `start` ends here. */
  lemma StringEnd(line: string, start: nat, quote: char) returns (end: nat)
    requires IsQuote(quote) && start <= |line|
    ensures end == CloseQuote(line, start, quote, false) && start <= end <= |line|
    ensures NoneEnds(quote, line, start, end)
    ensures end < |line| ==> line[end] == quote && !Escaped(quote, line, start, end)
  {
    end := CloseQuote(line, start, quote, false);
    StopsRight(line, start, start, quote);
  }

  lemma StringToken(line: string, i: nat, quote: char) returns (token: Token, next: nat)
    requires i < |line| && IsQuote(quote) && line[i] == quote && !Triple(line, i, quote)
    ensures IsToken(line, i, Plain, token, next)
  {
    var end := StringEnd(line, i + 1, quote);
    if end < |line| {
      token, next := ClosedToken(line, i, quote, end);
    } else {
      token, next := UnclosedToken(line, i, quote);
    }
  }

  lemma ClosedToken(line: string, i: nat, quote: char, end: nat) returns (token: Token, next: nat)
    requires i < end < |line| && IsQuote(quote) && line[i] == line[end] == quote && !Triple(line, i, quote)
    requires NoneEnds(quote, line, i + 1, end) && !Escaped(quote, line, i + 1, end)
    ensures IsToken(line, i, Plain, token, next)
  {
    token, next := Closed(quote, line[i + 1..end]), end + 1;
    BodyInLine(line, i + 1, quote, line[i + 1..end]);
    ClosedText(line, i, end);
    TripleInTail(line, i, line[i..], 0, quote);
  }

  lemma UnclosedToken(line: string, i: nat, quote: char) returns (token: Token, next: nat)
    requires i < |line| && IsQuote(quote) && line[i] == quote && !Triple(line, i, quote)
    requires NoneEnds(quote, line, i + 1, |line|)
    ensures IsToken(line, i, Plain, token, next)
  {
    token, next := Unclosed(quote, line[i + 1..|line|]), |line|;
    BodyInLine(line, i + 1, quote, line[i + 1..|line|]);
    UnclosedText(line, i);
    TripleInTail(line, i, line[i..], 0, quote);
  }

  lemma ClosedText(line: string, i: nat, end: nat)
    requires i < end < |line|
    ensures line[i..end + 1] == [line[i]] + line[i + 1..end] + [line[end]]
    ensures [line[i]] + line[i + 1..end] + [line[end]] + line[end + 1..] == line[i..]
  {
  }

  lemma UnclosedText(line: string, i: nat)
    requires i < |line|
    ensures line[i..|line|] == line[i..] == [line[i]] + line[i + 1..|line|]
    ensures line[|line|..] == ""
  {
  }

  lemma OpeningToken(line: string, i: nat, quote: char) returns (token: Token, next: nat)
    requires i < |line| && IsQuote(quote) && Triple(line, i, quote)
    ensures IsToken(line, i, Plain, token, next)
  {
    var close := FindTriple(line, i + 3, quote);
    FirstFound(line, i + 3, quote);
    assert Fence(quote) == line[i..i + 3];
    if close.Some? {
      var body := line[i + 3..close.value];
      token, next := Block(quote, body), close.value + 3;
      FenceIsFirst(line, i + 3, quote, close.value);
      assert Text(token) == line[i..next];
    } else {
      var body := line[i + 3..];
      token, next := OpenBlock(quote, body), |line|;
      NoFenceInTail(line, i + 3, quote);
      assert Text(token) == line[i..next];
    }
  }

  lemma BlockToken(line: string, i: nat, quote: char) returns (token: Token, next: nat)
    requires i < |line| && IsQuote(quote)
    ensures IsToken(line, i, Multiline(quote), token, next)
  {
    var close := FindTriple(line, i, quote);
    FirstFound(line, i, quote);
    if close.Some? {
      token, next := BlockEnd(quote, line[i..close.value]), close.value + 3;
      FenceIsFirst(line, i, quote, close.value);
      assert Text(token) == line[i..next];
    } else {
      token, next := BlockRest(line[i..]), |line|;
      NoFenceInTail(line, i, quote);
      assert line[i..next] == line[i..];
    }
  }

  lemma FenceIsFirst(line: string, i: nat, quote: char, at: nat)
    requires i <= at && Triple(line, at, quote) && forall k | i <= k < at :: !Triple(line, k, quote)
    ensures FirstFence(quote, line[i..at]) && line[at..at + 3] == Fence(quote)
  {
    var body := line[i..at];
    assert body + Fence(quote) == line[i..at + 3];
    forall k | 0 <= k < |body|
      ensures !Triple(body + Fence(quote), k, quote)
    {
      assert !Triple(line, i + k, quote);
    }
  }

  lemma NoFenceInTail(line: string, i: nat, quote: char)
    requires i <= |line| && forall k | i <= k < |line| :: !Triple(line, k, quote)
    ensures NoFence(quote, line[i..])
  {
    forall k | 0 <= k < |line[i..]|
      ensures !Triple(line[i..], k, quote)
    {
      TripleInTail(line, i, line[i..], k, quote);
    }
  }

  /** The modes a file can be in. */
  predicate Proper(mode: Mode) {
    mode.Multiline? ==> IsQuote(mode.quote)
  }

  lemma OneMoreToken(line: string, i: nat, next: nat, token: Token, rest: seq<Token>, mode: Mode, end: Mode)
    requires IsToken(line, i, mode, token, next) && Reads(line, next, rest, ModeAfterToken(token, mode), end)
    ensures Reads(line, i, [token] + rest, mode, end)
  {
    assert ([token] + rest)[1..] == rest;
    JoinSlices(line, i, next);
  }

  lemma JoinSlices(line: string, i: nat, next: nat)
    requires i <= next <= |line|
    ensures line[i..] == line[i..next] + line[next..]
  {
  }

  lemma NothingLeft(line: string, tokens: seq<Token>, mode: Mode)
    requires tokens == []
    ensures Reads(line, |line|, tokens, mode, mode)
  {
  }

  /** Every line can be read into tokens. */
  lemma {:induction false} LineReads(line: string, i: nat, mode: Mode) returns (tokens: seq<Token>, end: Mode)
    requires i <= |line| && Proper(mode)
    ensures Reads(line, i, tokens, mode, end) && Proper(end)
    decreases |line| - i
  {
    if i == |line| {
      tokens, end := [], mode;
      NothingLeft(line, tokens, mode);
    } else {
      var token, next := NextToken(line, i, mode);
      var rest;
      rest, end := LineReads(line, next, ModeAfterToken(token, mode));
      OneMoreToken(line, i, next, token, rest, mode, end);
      tokens := [token] + rest;
    }
  }

  /** So what the scan visits is the plain characters of any reading of the line, and there is one. */
  lemma VisitsArePlainCharacters(line: string, mode: Mode) returns (tokens: seq<Token>)
    requires Proper(mode)
    ensures Reads(line, 0, tokens, mode, Scan(line, 0, mode, Never).1)
    ensures Visits(line, 0, mode) == CharsAt(tokens, 0)
  {
    var end;
    tokens, end := LineReads(line, 0, mode);
    ScanReadsTokens(line, 0, tokens, mode, end);
  }
}
