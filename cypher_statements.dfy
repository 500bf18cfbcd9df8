/**
 * How the multi-statement procedures cut their input into statements: a
 * `java.util.Scanner` whose delimiter is the pattern `;\r?\n`, read with
 * `hasNext`/`next` until the input is exhausted.
 */
module CypherStatements {
  import opened Lang

  const Semicolon: Char16 := 59
  const LineFeed: Char16 := 10
  const CarriageReturn: Char16 := 13

  /** The two spellings of the delimiter: `;\n` and `;\r\n`. */
  const SemicolonLf: JString := [Semicolon, LineFeed]
  const SemicolonCrLf: JString := [Semicolon, CarriageReturn, LineFeed]

  /** The length of the delimiter that starts `s`, or 0 when none does. */
  function DelimiterLength(s: JString): (n: nat)
    ensures n == 0 || n == 2 || n == 3
    ensures n > 0 ==> |s| >= n && s[0] == Semicolon
  {
    if |s| >= 2 && s[0] == Semicolon && s[1] == LineFeed then 2
    else if |s| >= 3 && s[0] == Semicolon && s[1] == CarriageReturn && s[2] == LineFeed then 3
    else 0
  }

  /** No delimiter starts anywhere inside `p`. */
  predicate NoDelimiter(p: JString)
  {
    forall i :: 0 <= i < |p| ==> DelimiterLength(p[i..]) == 0
  }

  /**
   * The text between consecutive delimiters, the leftmost delimiter matching
   * first; `k` delimiters give `k + 1` pieces, some of them possibly empty.
   */
  function Pieces(s: JString): (r: seq<JString>)
    ensures |r| >= 1
    decreases |s|
  {
    if |s| == 0 then [[]]
    else if DelimiterLength(s) > 0 then [[]] + Pieces(s[DelimiterLength(s)..])
    else
      var rest := Pieces(s[1..]);
      [[s[0]] + rest[0]] + rest[1..]
  }

  /**
   * The tokens the scanner returns: it skips one delimiter at the very start,
   * and reports no token once only a delimiter (or nothing) is left, so a
   * leading and a trailing empty piece are dropped; empty pieces between two
   * delimiters are returned as empty statements.
   */
  function Statements(s: JString): (r: seq<JString>)
    ensures Pieces(s)[0] != [] ==> r != [] && r[0] == Pieces(s)[0]
  {
    var p := Pieces(s);
    var q := if p[0] == [] then p[1..] else p;
    if |q| > 0 && q[|q| - 1] == [] then q[..|q| - 1] else q
  }

  /** The statements are the pieces with at most the first and the last one dropped. */
  lemma StatementsArePieces(s: JString)
    ensures exists lo, hi ::
      0 <= lo <= 1 && |Pieces(s)| - 1 <= hi <= |Pieces(s)| && lo <= hi && Statements(s) == Pieces(s)[lo..hi]
  {
    var p := Pieces(s);
    var lo := if p[0] == [] then 1 else 0;
    var q := p[lo..];
    var hi := if |q| > 0 && q[|q| - 1] == [] then |p| - 1 else |p|;
    assert q[..hi - lo] == p[lo..hi];
  }

  /** The first piece is a prefix of the text. */
  lemma {:induction false} FirstPieceIsPrefix(s: JString)
    ensures |Pieces(s)[0]| <= |s| && s[..|Pieces(s)[0]|] == Pieces(s)[0]
    decreases |s|
  {
    if |s| > 0 && DelimiterLength(s) == 0 {
      var r := Pieces(s[1..])[0];
      FirstPieceIsPrefix(s[1..]);
      assert Pieces(s)[0] == [s[0]] + r;
      assert s[..|r| + 1] == [s[0]] + s[1..][..|r|];
    }
  }

  /** No piece ever contains a delimiter. */
  lemma {:induction false} PiecesHaveNoDelimiter(s: JString)
    ensures forall j :: 0 <= j < |Pieces(s)| ==> NoDelimiter(Pieces(s)[j])
    decreases |s|
  {
    if |s| == 0 {
    } else if DelimiterLength(s) > 0 {
      PiecesHaveNoDelimiter(s[DelimiterLength(s)..]);
      assert Pieces(s) == [[]] + Pieces(s[DelimiterLength(s)..]);
    } else {
      var rest := Pieces(s[1..]);
      PiecesHaveNoDelimiter(s[1..]);
      var first := [s[0]] + rest[0];
      assert Pieces(s) == [first] + rest[1..];
      forall i | 0 <= i < |first| ensures DelimiterLength(first[i..]) == 0 {
        if i == 0 {
          assert first[0..] == first;
          FirstPieceIsPrefix(s);
          PrefixNoDelimiter(first, s);
        } else {
          assert first[i..] == rest[0][i - 1..];
        }
      }
    }
  }

  /** A prefix of `s` starts with a delimiter only if `s` does. */
  lemma PrefixNoDelimiter(p: JString, s: JString)
    requires |p| <= |s| && s[..|p|] == p
    requires DelimiterLength(s) == 0
    ensures DelimiterLength(p) == 0
  {
    if |p| >= 2 {
      assert p[0] == s[0] && p[1] == s[1];
    }
    if |p| >= 3 {
      assert p[2] == s[2];
    }
  }

  /** Without carriage returns, joining the pieces with `;\n` gives the text back. */
  lemma {:induction false} JoinPieces(s: JString)
    requires forall i :: 0 <= i < |s| ==> s[i] != CarriageReturn
    ensures Join(Pieces(s), SemicolonLf) == s
    decreases |s|
  {
    if |s| == 0 {
    } else if DelimiterLength(s) > 0 {
      assert s[1] != CarriageReturn;
      JoinPieces(s[2..]);
      JoinPiecesAtDelimiter(s);
    } else {
      JoinPieces(s[1..]);
      JoinPiecesAtChar(s);
    }
  }

  /** The step of `JoinPieces` for text that starts with `;\n`. */
  lemma JoinPiecesAtDelimiter(s: JString)
    requires |s| >= 2 && s[0] == Semicolon && s[1] == LineFeed
    requires Join(Pieces(s[2..]), SemicolonLf) == s[2..]
    ensures Join(Pieces(s), SemicolonLf) == s
  {
    var rest := s[2..];
    assert Pieces(s) == [[]] + Pieces(rest);
    JoinInFront([], Pieces(rest), SemicolonLf);
    assert s == SemicolonLf + rest;
  }

  /** The step of `JoinPieces` for text that starts with no delimiter. */
  lemma JoinPiecesAtChar(s: JString)
    requires |s| >= 1 && DelimiterLength(s) == 0
    requires Join(Pieces(s[1..]), SemicolonLf) == s[1..]
    ensures Join(Pieces(s), SemicolonLf) == s
  {
    var p := Pieces(s[1..]);
    assert Pieces(s) == [[s[0]] + p[0]] + p[1..];
    JoinIntoFirst([s[0]], p, SemicolonLf);
    assert s == [s[0]] + s[1..];
  }

  /** A piece in front of at least one more piece is followed by the delimiter. */
  lemma JoinInFront(x: JString, p: seq<JString>, d: JString)
    requires |p| >= 1
    ensures Join([x] + p, d) == x + d + Join(p, d)
  {
    assert ([x] + p)[0] == x && ([x] + p)[1..] == p;
  }

  /** Text put in front of the first piece stands in front of the joined pieces. */
  lemma JoinIntoFirst(a: JString, p: seq<JString>, d: JString)
    requires |p| >= 1
    ensures Join([a + p[0]] + p[1..], d) == a + Join(p, d)
  {
    var q := [a + p[0]] + p[1..];
    if |p| == 1 {
      assert q == [a + p[0]];
    } else {
      assert q[0] == a + p[0] && q[1..] == p[1..];
      assert Join(q, d) == (a + p[0]) + d + Join(p[1..], d);
      assert Join(p, d) == p[0] + d + Join(p[1..], d);
    }
  }

  /** A delimiter right after a non-empty piece does not start at the piece's start. */
  lemma NoDelimiterBefore(x: JString, t: JString)
    requires |x| >= 1 && NoDelimiter(x)
    requires |t| >= 1 && t[0] == Semicolon
    ensures DelimiterLength(x + t) == 0
  {
    var s := x + t;
    assert DelimiterLength(x) == 0 by { assert x[0..] == x; }
    assert s[0] == x[0];
    if |x| == 1 {
      assert s[1] == Semicolon;
    } else if |x| == 2 {
      assert s[1] == x[1];
      assert s[2] == Semicolon;
    } else {
      assert s[1] == x[1] && s[2] == x[2];
    }
  }

  /** Dropping the first character of a piece keeps it free of delimiters. */
  lemma NoDelimiterTail(x: JString)
    requires |x| >= 1 && NoDelimiter(x)
    ensures NoDelimiter(x[1..])
  {
    forall i | 0 <= i < |x[1..]| ensures DelimiterLength(x[1..][i..]) == 0 {
      assert x[1..][i..] == x[i + 1..];
    }
  }

  /** Text that starts with a delimiter starts with an empty piece. */
  lemma PiecesAtDelimiter(d: JString, rest: JString)
    requires d == SemicolonLf || d == SemicolonCrLf
    ensures Pieces(d + rest) == [[]] + Pieces(rest)
  {
    var s := d + rest;
    if d == SemicolonLf {
      assert s[0] == Semicolon && s[1] == LineFeed;
    } else {
      assert s[0] == Semicolon && s[1] == CarriageReturn && s[2] == LineFeed;
    }
    assert DelimiterLength(s) == |d|;
    assert s[|d|..] == rest;
  }

  /**
   * Text without delimiters in front of text that is empty or starts with a
   * semicolon joins the first piece of the latter.
   */
  lemma {:induction false} PiecesConcat(x: JString, t: JString)
    requires NoDelimiter(x)
    requires |t| == 0 || t[0] == Semicolon
    ensures Pieces(x + t) == [x + Pieces(t)[0]] + Pieces(t)[1..]
    decreases |x|
  {
    var p := Pieces(t);
    if |x| == 0 {
      assert x + t == t;
      assert x + p[0] == p[0];
      assert [p[0]] + p[1..] == p;
    } else {
      var s := x + t;
      if |t| == 0 {
        assert s == x;
        assert DelimiterLength(x) == 0 by { assert x[0..] == x; }
      } else {
        NoDelimiterBefore(x, t);
      }
      NoDelimiterTail(x);
      PiecesConcat(x[1..], t);
      PiecesConcatCons(x, t);
    }
  }

  /** The step of `PiecesConcat`: the first code unit of `x` joins the first piece. */
  lemma PiecesConcatCons(x: JString, t: JString)
    requires |x| > 0 && DelimiterLength(x + t) == 0
    requires Pieces(x[1..] + t) == [x[1..] + Pieces(t)[0]] + Pieces(t)[1..]
    ensures Pieces(x + t) == [x + Pieces(t)[0]] + Pieces(t)[1..]
  {
    SplitFirst(x, t);
    SplitFirst(x, Pieces(t)[0]);
    PiecesCons(x[0], x[1..] + t);
  }

  /** Concatenation with a non-empty left operand starts with its first code unit. */
  lemma SplitFirst(x: JString, y: JString)
    requires |x| > 0
    ensures x + y == [x[0]] + (x[1..] + y)
  {
    assert x == [x[0]] + x[1..];
  }

  /** A code unit that starts no delimiter joins the first piece of the rest. */
  lemma PiecesCons(c: Char16, u: JString)
    requires DelimiterLength([c] + u) == 0
    ensures Pieces([c] + u) == [[c] + Pieces(u)[0]] + Pieces(u)[1..]
  {
    assert ([c] + u)[1..] == u;
  }

  /** A piece without delimiters, then a delimiter: the piece comes out whole. */
  lemma PiecesAfter(x: JString, d: JString, rest: JString)
    requires NoDelimiter(x)
    requires d == SemicolonLf || d == SemicolonCrLf
    ensures Pieces(x + d + rest) == [x] + Pieces(rest)
  {
    assert x + d + rest == x + (d + rest);
    PiecesAtDelimiter(d, rest);
    PiecesConcat(x, d + rest);
    assert x + [] == x;
  }

  /** A piece without delimiters is a single piece. */
  lemma PiecesOfPiece(x: JString)
    requires NoDelimiter(x)
    ensures Pieces(x) == [x]
  {
    PiecesConcat(x, []);
    assert x + [] == x;
  }

  /** Texts without delimiters, joined with `;\n`, are cut back into the same pieces. */
  lemma {:induction false} PiecesOfJoin(xs: seq<JString>)
    requires |xs| >= 1
    requires forall j :: 0 <= j < |xs| ==> NoDelimiter(xs[j])
    ensures Pieces(Join(xs, SemicolonLf)) == xs
    decreases |xs|
  {
    if |xs| == 1 {
      PiecesOfPiece(xs[0]);
    } else {
      PiecesOfJoin(xs[1..]);
      PiecesAfter(xs[0], SemicolonLf, Join(xs[1..], SemicolonLf));
      assert xs == [xs[0]] + xs[1..];
    }
  }

  /** `;\r\n` separates statements as `;\n` does. */
  lemma CrLfSeparates(x: JString, rest: JString)
    requires NoDelimiter(x)
    ensures Pieces(x + SemicolonCrLf + rest) == [x] + Pieces(rest)
  {
    PiecesAfter(x, SemicolonCrLf, rest);
  }

  /**
   * Non-empty statements without delimiters, written one after the other
   * with `;\n` between them, are read back as exactly those statements.
   */
  lemma StatementsOfJoin(xs: seq<JString>)
    requires forall j :: 0 <= j < |xs| ==> NoDelimiter(xs[j]) && xs[j] != []
    ensures Statements(Join(xs, SemicolonLf)) == xs
  {
    if |xs| > 0 {
      PiecesOfJoin(xs);
    }
  }

  /** A final `;\n` after the last statement adds no statement. */
  lemma TrailingDelimiter(xs: seq<JString>)
    requires |xs| >= 1
    requires forall j :: 0 <= j < |xs| ==> NoDelimiter(xs[j]) && xs[j] != []
    ensures Statements(Join(xs, SemicolonLf) + SemicolonLf) == xs
  {
    var ys := xs + [[]];
    assert forall j :: 0 <= j < |ys| ==> NoDelimiter(ys[j]);
    JoinSnoc(xs, [], SemicolonLf);
    assert Join(ys, SemicolonLf) == Join(xs, SemicolonLf) + SemicolonLf + [];
    assert Join(xs, SemicolonLf) + SemicolonLf + [] == Join(xs, SemicolonLf) + SemicolonLf;
    PiecesOfJoin(ys);
    assert ys[..|ys| - 1] == xs;
  }
}
