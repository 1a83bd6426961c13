/** Splitting text at a separator character and joining the pieces again. */
module Pieces {

  function SplitAt(s: string, sep: char): (parts: seq<string>)
    ensures parts != []
  {
    if s == "" then [s]
    else if s[0] == sep then [s[..0]] + SplitAt(s[1..], sep)
    else Prepend(s[0], SplitAt(s[1..], sep))
  }

  /** `c` put before the first piece. */
  function Prepend(c: char, parts: seq<string>): (r: seq<string>)
    requires parts != []
    ensures |r| == |parts| && r[0] == [c] + parts[0] && r[1..] == parts[1..]
  {
    [[c] + parts[0]] + parts[1..]
  }

  function Join(parts: seq<string>, sep: char): string
    requires parts != []
  {
    if |parts| == 1 then parts[0] else parts[0] + [sep] + Join(parts[1..], sep)
  }

  lemma {:induction false} SplitHasNone(s: string, sep: char)
    ensures forall k | 0 <= k < |SplitAt(s, sep)| :: sep !in SplitAt(s, sep)[k]
  {
    if s != "" {
      SplitHasNone(s[1..], sep);
      if s[0] != sep {
        var rest := SplitAt(s[1..], sep);
        forall k | 0 <= k < |rest|
          ensures sep !in SplitAt(s, sep)[k]
        {
          assert k > 0 ==> SplitAt(s, sep)[k] == rest[k];
        }
      }
    }
  }

  lemma {:induction false} SplitPiece(piece: string, rest: string, sep: char)
    requires sep !in piece
    ensures SplitAt(piece + [sep] + rest, sep) == [piece] + SplitAt(rest, sep)
    decreases |piece|
  {
    var whole := piece + [sep] + rest;
    if piece == "" {
      assert whole[1..] == rest;
    } else {
      SplitPiece(piece[1..], rest, sep);
      assert whole[1..] == piece[1..] + [sep] + rest;
      assert [piece[0]] + piece[1..] == piece;
    }
  }

  lemma {:induction false} SplitWhole(piece: string, sep: char)
    requires sep !in piece
    ensures SplitAt(piece, sep) == [piece]
  {
    if piece != "" {
      SplitWhole(piece[1..], sep);
      assert [piece[0]] + piece[1..] == piece;
    }
  }

  /** Pieces free of the separator come back from their join. */
  lemma {:induction false} SplitJoin(parts: seq<string>, sep: char)
    requires parts != [] && forall k | 0 <= k < |parts| :: sep !in parts[k]
    ensures SplitAt(Join(parts, sep), sep) == parts
  {
    if |parts| == 1 {
      SplitWhole(parts[0], sep);
    } else {
      SplitJoin(parts[1..], sep);
      SplitPiece(parts[0], Join(parts[1..], sep), sep);
    }
  }

  lemma {:induction false} JoinAppend(parts: seq<string>, last: string, sep: char)
    requires parts != []
    ensures Join(parts + [last], sep) == Join(parts, sep) + [sep] + last
  {
    if |parts| > 1 {
      JoinAppend(parts[1..], last, sep);
      assert (parts + [last])[1..] == parts[1..] + [last];
      assert parts[0] + [sep] + (Join(parts[1..], sep) + [sep] + last) == Join(parts, sep) + [sep] + last;
    }
  }

  /** Joining what was split gives the text back. */
  lemma {:induction false} JoinSplit(s: string, sep: char)
    ensures Join(SplitAt(s, sep), sep) == s
  {
    if s != "" {
      var rest := SplitAt(s[1..], sep);
      JoinSplit(s[1..], sep);
      if s[0] == sep {
        assert SplitAt(s, sep)[1..] == rest;
        assert s[..0] + [sep] + s[1..] == s;
      } else {
        JoinPrepend(s[0], rest, sep);
        assert [s[0]] + s[1..] == s;
      }
    }
  }

  lemma JoinPrepend(c: char, rest: seq<string>, sep: char)
    requires rest != []
    ensures Join(Prepend(c, rest), sep) == [c] + Join(rest, sep)
  {
    if |rest| > 1 {
      assert [c] + (rest[0] + [sep] + Join(rest[1..], sep)) == ([c] + rest[0]) + [sep] + Join(rest[1..], sep);
    }
  }
}
