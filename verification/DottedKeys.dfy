/** Splitting a dotted TOML key at the dots outside quotes, and why the parts are the key's own. */
module DottedKeys {
  import opened Pieces

  /** Inside which quote, and whether the next character is escaped. */
  datatype Quoting = Bare | Basic(escaped: bool) | Literal

  function Next(q: Quoting, c: char): Quoting {
    match q
    case Bare => if c == '"' then Basic(false) else if c == '\'' then Literal else Bare
    case Basic(true) => Basic(false)
    case Basic(false) => if c == '\\' then Basic(true) else if c == '"' then Bare else q
    case Literal => if c == '\'' then Bare else Literal
  }

  function After(s: string, q: Quoting): Quoting {
    if s == "" then q else After(s[1..], Next(q, s[0]))
  }

  /** Some dot of `s` is outside quotes. */
  ghost predicate HasSeparator(s: string, q: Quoting) {
    exists k | 0 <= k < |s| :: s[k] == '.' && After(s[..k], q).Bare?
  }

  function Split(s: string, q: Quoting): (parts: seq<string>)
    ensures parts != []
  {
    if s == "" then [s]
    else if q.Bare? && s[0] == '.' then [s[..0]] + Split(s[1..], Bare)
    else Prepend(s[0], Split(s[1..], Next(q, s[0])))
  }

  /** `rest` with `current` put before its first piece, after `parts`. */
  function Resume(parts: seq<string>, current: string, rest: seq<string>): seq<string>
    requires rest != []
  {
    parts + [current + rest[0]] + rest[1..]
  }

  lemma ResumeStart(parts: seq<string>, current: string, rest: seq<string>)
    requires rest != [] && parts == [] && current == ""
    ensures Resume(parts, current, rest) == rest
  {
    assert current + rest[0] == rest[0];
    assert [rest[0]] + rest[1..] == rest;
  }

  lemma ResumeCut(parts: seq<string>, current: string, empty: string, rest: seq<string>)
    requires rest != [] && empty == ""
    ensures Resume(parts, current, [empty] + rest) == Resume(parts + [current], empty, rest)
  {
    assert current + empty == current && empty + rest[0] == rest[0];
    assert ([empty] + rest)[1..] == [rest[0]] + rest[1..];
  }

  lemma ResumeOn(parts: seq<string>, current: string, c: char, rest: seq<string>)
    requires rest != []
    ensures Resume(parts, current, Prepend(c, rest)) == Resume(parts, current + [c], rest)
  {
    assert current + ([c] + rest[0]) == (current + [c]) + rest[0];
  }

  /** `splitDottedKey`. */
  method SplitDottedKey(normalized: string) returns (parts: seq<string>)
    ensures parts == Split(normalized, Bare)
  {
    parts := [];
    var current := "";
    var q := Bare;
    assert normalized[0..] == normalized;
    ResumeStart(parts, current, Split(normalized, q));
    for i := 0 to |normalized|
      invariant Split(normalized, Bare) == Resume(parts, current, Split(normalized[i..], q))
    {
      var c := normalized[i];
      ghost var rest := normalized[i..];
      assert rest[0] == c && rest[1..] == normalized[i + 1..];
      if q.Bare? && c == '.' {
        ResumeCut(parts, current, rest[..0], Split(rest[1..], Bare));
        parts := parts + [current];
        current := "";
      } else {
        ResumeOn(parts, current, c, Split(rest[1..], Next(q, c)));
        current := current + [c];
        q := Next(q, c);
      }
    }
    assert current + normalized[|normalized|..] == current;
    parts := parts + [current];
  }

  // ----- Both directions

  lemma {:induction false} JoinUndoesSplit(s: string, q: Quoting)
    ensures Join(Split(s, q), '.') == s
  {
    if s != "" {
      if q.Bare? && s[0] == '.' {
        JoinUndoesSplit(s[1..], Bare);
        assert Split(s, q)[1..] == Split(s[1..], Bare);
        assert s[..0] + ['.'] + s[1..] == s;
      } else {
        var rest := Split(s[1..], Next(q, s[0]));
        JoinUndoesSplit(s[1..], Next(q, s[0]));
        JoinPrepend(s[0], rest, '.');
      }
    }
  }

  /** No part holds a dot outside quotes, and every part but the last ends outside quotes. */
  ghost predicate Separated(parts: seq<string>, q: Quoting) {
    forall k | 0 <= k < |parts| :: PartSeparated(parts, k, q)
  }

  ghost predicate PartSeparated(parts: seq<string>, k: nat, q: Quoting)
    requires k < |parts|
  {
    var from := if k == 0 then q else Bare;
    !HasSeparator(parts[k], from) && (k < |parts| - 1 ==> After(parts[k], from).Bare?)
  }

  lemma SeparatorAhead(s: string, q: Quoting)
    requires s != ""
    ensures HasSeparator(s, q) <==> (q.Bare? && s[0] == '.') || HasSeparator(s[1..], Next(q, s[0]))
  {
    forall k | 0 < k <= |s|
      ensures After(s[..k], q) == After(s[1..][..k - 1], Next(q, s[0]))
    {
      assert s[..k][1..] == s[1..][..k - 1];
    }
    if HasSeparator(s, q) {
      var k :| 0 <= k < |s| && s[k] == '.' && After(s[..k], q).Bare?;
      if k == 0 {
        assert After(s[..0], q) == q;
      } else {
        assert s[1..][k - 1] == '.';
      }
    }
    if q.Bare? && s[0] == '.' {
      assert After(s[..0], q).Bare?;
    }
    if HasSeparator(s[1..], Next(q, s[0])) {
      var k :| 0 <= k < |s[1..]| && s[1..][k] == '.' && After(s[1..][..k], Next(q, s[0])).Bare?;
      assert s[k + 1] == '.' && After(s[..k + 1], q).Bare?;
    }
  }

  lemma {:induction false} SplitSeparates(s: string, q: Quoting)
    ensures Separated(Split(s, q), q)
  {
    if s != "" {
      var parts := Split(s, q);
      if q.Bare? && s[0] == '.' {
        var rest := Split(s[1..], Bare);
        SplitSeparates(s[1..], Bare);
        forall k | 0 <= k < |parts|
          ensures PartSeparated(parts, k, q)
        {
          if k > 0 {
            assert PartSeparated(rest, k - 1, Bare) && parts[k] == rest[k - 1];
          }
        }
      } else {
        var next := Next(q, s[0]);
        var rest := Split(s[1..], next);
        SplitSeparates(s[1..], next);
        forall k | 0 <= k < |parts|
          ensures PartSeparated(parts, k, q)
        {
          assert PartSeparated(rest, k, next);
          if k == 0 {
            assert parts[0][1..] == rest[0];
            SeparatorAhead(parts[0], q);
          } else {
            assert parts[k] == rest[k];
          }
        }
      }
    }
  }

  /** Separated parts come back from their join, so a part splits into itself alone. */
  lemma {:induction false} SplitUndoesJoin(parts: seq<string>, q: Quoting)
    requires parts != [] && Separated(parts, q)
    ensures Split(Join(parts, '.'), q) == parts
    decreases |parts|, |parts[0]|
  {
    assert PartSeparated(parts, 0, q);
    var first := parts[0];
    var tail := parts[1..];
    if first != "" {
      SeparatorAhead(first, q);
      var shorter := [first[1..]] + tail;
      forall k | 0 <= k < |shorter|
        ensures PartSeparated(shorter, k, Next(q, first[0]))
      {
        assert PartSeparated(parts, k, q);
      }
      SplitUndoesJoin(shorter, Next(q, first[0]));
      assert Prepend(first[0], shorter) == parts by {
        assert [first[0]] + first[1..] == first;
      }
      JoinPrepend(first[0], shorter, '.');
      assert Join(parts, '.')[1..] == Join(shorter, '.');
    } else if tail != [] {
      forall k | 0 <= k < |tail|
        ensures PartSeparated(tail, k, Bare)
      {
        assert PartSeparated(parts, k + 1, q);
      }
      SplitUndoesJoin(tail, Bare);
      assert Join(parts, '.')[1..] == Join(tail, '.');
      assert Join(parts, '.')[..0] == first;
    }
  }

  /** A list of parts is the split of `s` exactly when it joins to `s` and its parts are separated. */
  lemma SplitIsTheSeparation(s: string, parts: seq<string>)
    requires parts != []
    ensures parts == Split(s, Bare) <==> Join(parts, '.') == s && Separated(parts, Bare)
  {
    JoinUndoesSplit(s, Bare);
    SplitSeparates(s, Bare);
    if Join(parts, '.') == s && Separated(parts, Bare) {
      SplitUndoesJoin(parts, Bare);
    }
  }

  lemma PartsSplitToThemselves(s: string, k: nat)
    requires k < |Split(s, Bare)|
    ensures Split(Split(s, Bare)[k], Bare) == [Split(s, Bare)[k]]
  {
    SplitSeparates(s, Bare);
    var part := Split(s, Bare)[k];
    assert PartSeparated(Split(s, Bare), k, Bare);
    assert PartSeparated([part], 0, Bare);
    SplitUndoesJoin([part], Bare);
  }
}
