/**
  A reading of a dotted key that does not mention the splitter: the key is cut into plain characters
  and quoted strings, each given by what it may hold. The dots the splitter cuts at are exactly the
  plain ones.
 */
module KeyTokens {
  import opened DottedKeys
  import opened TomlTokens

  /** No quote is left open; a plain character is no quote. */
  ghost predicate FitsKey(token: Token, rest: string) {
    match token
    case Char(c) => !IsQuote(c)
    case Closed(quote, body) => IsQuote(quote) && StringBody(quote, body, true)
    case Unclosed(quote, body) => IsQuote(quote) && StringBody(quote, body, false) && rest == ""
    case _ => false
  }

  /** `tokens` is a reading of `key`. */
  ghost predicate ReadsKey(key: string, tokens: seq<Token>) {
    if tokens == [] then key == ""
    else
      && Text(tokens[0]) <= key
      && FitsKey(tokens[0], key[|Text(tokens[0])|..])
      && ReadsKey(key[|Text(tokens[0])|..], tokens[1..])
  }

  /** Where the plain dots are, when the tokens start at `from`. */
  function PlainDots(tokens: seq<Token>, from: nat): set<nat> {
    if tokens == [] then {}
    else (if tokens[0] == Char('.') then {from} else {}) + PlainDots(tokens[1..], from + |Text(tokens[0])|)
  }

  // ----- The splitter's state inside a string

  lemma {:induction false} AfterMore(s: string, c: char, q: Quoting)
    ensures After(s + [c], q) == Next(After(s, q), c)
  {
    if s == "" {
      assert s + [c] == [c] && [c][1..] == "";
      assert After([c], q) == After("", Next(q, c));
    } else {
      assert (s + [c])[1..] == s[1..] + [c];
      AfterMore(s[1..], c, Next(q, s[0]));
    }
  }

  lemma {:induction false} AfterBoth(a: string, b: string, q: Quoting)
    ensures After(a + b, q) == After(b, After(a, q))
  {
    if a == "" {
      assert a + b == b;
    } else {
      assert (a + b)[1..] == a[1..] + b;
      AfterBoth(a[1..], b, Next(q, a[0]));
    }
  }

  /** What the splitter knows `k` characters into a string. */
  function Within(quote: char, body: string, k: nat): Quoting
    requires k <= |body|
  {
    if quote == '"' then Basic(Escaped(quote, body, 0, k)) else Literal
  }

  lemma {:induction false} InsideString(quote: char, body: string, k: nat)
    requires IsQuote(quote) && k <= |body| && NoneEnds(quote, body, 0, |body|)
    ensures After(body[..k], Within(quote, body, 0)) == Within(quote, body, k)
  {
    if k == 0 {
      assert body[..0] == "";
    } else {
      InsideString(quote, body, k - 1);
      assert body[..k] == body[..k - 1] + [body[k - 1]];
      AfterMore(body[..k - 1], body[k - 1], Within(quote, body, 0));
      assert body[k - 1] == quote ==> Escaped(quote, body, 0, k - 1);
    }
  }

  /** `k` characters into a quoted string, its opening quote counted. */
  lemma InsideQuoted(quote: char, body: string, k: nat)
    requires IsQuote(quote) && NoneEnds(quote, body, 0, |body|) && 1 <= k <= |body| + 1
    ensures After(([quote] + body)[..k], Bare) == Within(quote, body, k - 1)
  {
    assert ([quote] + body)[..k] == [quote] + body[..k - 1];
    AfterBoth([quote], body[..k - 1], Bare);
    assert After([quote], Bare) == Next(Bare, quote) by {
      assert [quote][1..] == "";
    }
    InsideString(quote, body, k - 1);
  }

  lemma AfterClosed(quote: char, body: string)
    requires IsQuote(quote) && StringBody(quote, body, true)
    ensures After([quote] + body + [quote], Bare) == Bare
  {
    assert ([quote] + body)[..|body| + 1] == [quote] + body;
    InsideQuoted(quote, body, |body| + 1);
    AfterMore([quote] + body, quote, Bare);
  }

  // ----- Dots

  /** The splitter cuts at `k`. */
  predicate CutsAt(key: string, k: nat)
    requires k < |key|
  {
    key[k] == '.' && After(key[..k], Bare).Bare?
  }

  /** No cut inside a quoted string. */
  lemma NoCutInString(quote: char, body: string, tail: string, key: string, k: nat)
    requires IsQuote(quote) && NoneEnds(quote, body, 0, |body|)
    requires key == [quote] + body + tail && k < |body| + 1
    ensures !CutsAt(key, k)
  {
    if k > 0 {
      assert key[..k] == ([quote] + body)[..k];
      InsideQuoted(quote, body, k);
    }
  }

  /** Past a token that ends outside quotes, the key is cut as what follows it is. */
  lemma CutsAfter(head: string, tail: string, k: nat)
    requires After(head, Bare) == Bare && k < |tail|
    ensures CutsAt(head + tail, |head| + k) <==> CutsAt(tail, k)
  {
    assert (head + tail)[..|head| + k] == head + tail[..k];
    AfterBoth(head, tail[..k], Bare);
  }

  lemma NoCutAtQuote(quote: char, body: string, key: string)
    requires IsQuote(quote) && StringBody(quote, body, true) && key == [quote] + body + [quote]
    ensures forall k | 0 <= k < |key| :: !CutsAt(key, k)
  {
    forall k | 0 <= k < |key|
      ensures !CutsAt(key, k)
    {
      if k <= |body| {
        NoCutInString(quote, body, [quote], key, k);
      }
    }
  }

  /** A first token ends outside quotes, unless it is an unclosed string, and only a plain dot in it is cut at. */
  lemma FirstTokenCuts(token: Token, key: string, k: nat)
    requires Text(token) <= key && FitsKey(token, key[|Text(token)|..]) && k < |Text(token)|
    ensures token.Unclosed? || After(Text(token), Bare) == Bare
    ensures CutsAt(key, k) <==> token == Char('.')
  {
    assert key[..k] == Text(token)[..k] && key[k] == Text(token)[k];
    match token
    case Char(c) =>
      assert [c][1..] == "" && After([c], Bare) == After("", Next(Bare, c));
      assert key[..0] == "";
    case Closed(quote, body) =>
      AfterClosed(quote, body);
      NoCutAtQuote(quote, body, Text(token));
      assert !CutsAt(Text(token), k);
    case Unclosed(quote, body) =>
      assert Text(token) + "" == Text(token);
      NoCutInString(quote, body, "", Text(token), k);
  }

  lemma {:induction false} DotsFrom(tokens: seq<Token>, from: nat, at: nat)
    requires at in PlainDots(tokens, from)
    ensures from <= at
  {
    if at != from || tokens[0] != Char('.') {
      DotsFrom(tokens[1..], from + |Text(tokens[0])|, at);
    }
  }

  lemma DotsTurn(tokens: seq<Token>, from: nat, k: nat)
    requires tokens != []
    ensures
      var width := |Text(tokens[0])|;
      from + k in PlainDots(tokens, from)
      <==> if k < width then tokens[0] == Char('.') else from + k in PlainDots(tokens[1..], from + width)
  {
    if from + k in PlainDots(tokens[1..], from + |Text(tokens[0])|) {
      DotsFrom(tokens[1..], from + |Text(tokens[0])|, from + k);
    }
  }

  lemma TailIsCut(key: string, token: Token, k: nat)
    requires key != "" && Text(token) <= key && FitsKey(token, key[|Text(token)|..])
    requires |Text(token)| <= k < |key|
    ensures CutsAt(key, k) <==> CutsAt(key[|Text(token)|..], k - |Text(token)|)
  {
    var head, tail := Text(token), key[|Text(token)|..];
    assert key == head + tail;
    FirstTokenCuts(token, key, 0);
    CutsAfter(head, tail, k - |head|);
  }

  /** The key is cut exactly at the plain dots of any reading of it. */
  lemma {:induction false} CutsArePlainDots(key: string, tokens: seq<Token>, from: nat, k: nat)
    requires ReadsKey(key, tokens) && k < |key|
    ensures CutsAt(key, k) <==> from + k in PlainDots(tokens, from)
    decreases |tokens|
  {
    var token, width := tokens[0], |Text(tokens[0])|;
    DotsTurn(tokens, from, k);
    if k < width {
      FirstTokenCuts(token, key, k);
    } else {
      TailIsCut(key, token, k);
      CutsArePlainDots(key[width..], tokens[1..], from + width, k - width);
    }
  }

  // ----- Every key has a reading

  /** Where a string opened before `body[0]` ends: at its closing quote, or with the text. */
  lemma {:induction false} StringStops(quote: char, text: string, k: nat) returns (end: nat)
    requires IsQuote(quote) && k <= |text| && NoneEnds(quote, text, 0, k)
    ensures k <= end <= |text| && NoneEnds(quote, text, 0, end)
    ensures end < |text| ==> text[end] == quote && !Escaped(quote, text, 0, end)
    decreases |text| - k
  {
    if k == |text| || (text[k] == quote && !Escaped(quote, text, 0, k)) {
      end := k;
    } else {
      end := StringStops(quote, text, k + 1);
    }
  }

  lemma {:induction false} SameInPrefix(quote: char, text: string, end: nat, k: nat)
    requires k <= end <= |text|
    ensures Backslashes(text[..end], 0, k) == Backslashes(text, 0, k)
  {
    if k > 0 && text[k - 1] == '\\' {
      SameInPrefix(quote, text, end, k - 1);
    }
  }

  lemma BodyOfString(quote: char, text: string, end: nat)
    requires IsQuote(quote) && end <= |text| && NoneEnds(quote, text, 0, end)
    ensures NoneEnds(quote, text[..end], 0, end)
    ensures Escaped(quote, text[..end], 0, end) <==> Escaped(quote, text, 0, end)
  {
    forall k | 0 <= k <= end
      ensures Backslashes(text[..end], 0, k) == Backslashes(text, 0, k)
    {
      SameInPrefix(quote, text, end, k);
    }
  }

  lemma FirstKeyToken(key: string) returns (token: Token)
    requires key != ""
    ensures Text(token) != "" && Text(token) <= key && FitsKey(token, key[|Text(token)|..])
  {
    if !IsQuote(key[0]) {
      token := Char(key[0]);
    } else {
      var quote, text := key[0], key[1..];
      var end := StringStops(quote, text, 0);
      BodyOfString(quote, text, end);
      assert key == [quote] + text;
      if end < |text| {
        token := Closed(quote, text[..end]);
        assert key[..end + 2] == [quote] + text[..end] + [quote];
      } else {
        token := Unclosed(quote, text[..end]);
        assert text[..end] == text;
      }
    }
  }

  lemma {:induction false} KeyHasReading(key: string) returns (tokens: seq<Token>)
    ensures ReadsKey(key, tokens)
    decreases |key|
  {
    if key == "" {
      tokens := [];
    } else {
      var token := FirstKeyToken(key);
      var more := KeyHasReading(key[|Text(token)|..]);
      tokens := [token] + more;
      assert tokens[1..] == more;
    }
  }
}
