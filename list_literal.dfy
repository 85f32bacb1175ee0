/** The list-literal part of `equalExpression` (main.cpp): a literal such as
    `[[1,2],[3,4]]` is gathered from the tokens, counted for its brackets and
    its first row's commas, stripped of its brackets, and read piece by
    piece between commas, a piece `n/d` standing for a fraction. */
module ListLiteral {
  import opened MatrixValues
  import opened Tokens

  // ---------------------------------------------------------------------
  // Gathering the literal

  /** `listStr`: the concatenation of the tokens after the first one whose
      last character is not `=`. */
  function ListText(tokens: seq<string>): string
    requires NonEmptyTokens(tokens)
  {
    if |tokens| <= 1 then []
    else
      var last := tokens[|tokens| - 1];
      ListText(tokens[..|tokens| - 1]) + (if last[|last| - 1] != '=' then last else [])
  }

  /** The concatenation loop over the tokens. */
  method GatherList(tokens: seq<string>) returns (listStr: string)
    requires NonEmptyTokens(tokens)
    ensures listStr == ListText(tokens)
  {
    listStr := [];
    var i := 0;
    while i < |tokens|
      invariant 0 <= i <= |tokens|
      invariant listStr == ListText(tokens[..i])
    {
      assert tokens[..i + 1][..i] == tokens[..i];
      if tokens[i][|tokens[i]| - 1] != '=' && i > 0 {
        listStr := listStr + tokens[i];
      }
      i := i + 1;
    }
    assert tokens[..i] == tokens;
  }

  /** In `X = lit`, the literal is all that is gathered: the name and the
      `=` are skipped. */
  lemma ListTextOfAssignment(name: string, lit: string)
    requires |name| > 0 && |lit| > 0 && lit[|lit| - 1] != '='
    ensures NonEmptyTokens([name, "=", lit])
    ensures ListText([name, "=", lit]) == lit
  {
    var ts := [name, "=", lit];
    assert ts[..2] == [name, "="] && ts[..2][..1] == [name];
    assert ListText(ts[..2]) == [];
  }

  /** The first token never contributes: whatever the name, the gathered
      text is the same. */
  lemma {:induction false} ListTextIgnoresName(tokens: seq<string>, x: string)
    requires NonEmptyTokens(tokens) && |tokens| > 0 && |x| > 0
    ensures NonEmptyTokens([x] + tokens[1..])
    ensures ListText([x] + tokens[1..]) == ListText(tokens)
    decreases |tokens|
  {
    var us := [x] + tokens[1..];
    if |tokens| > 1 {
      var init := tokens[..|tokens| - 1];
      assert us[..|us| - 1] == [x] + init[1..];
      assert us[|us| - 1] == tokens[|tokens| - 1];
      ListTextIgnoresName(init, x);
    }
  }

  // ---------------------------------------------------------------------
  // The counting loop

  /** `commaCount`: the commas met while no `]` has been seen, which are
      the commas of the first row. */
  function CommasBeforeClose(s: string): nat
  {
    if s == [] then 0
    else CommasBeforeClose(s[..|s| - 1]) + (if s[|s| - 1] == ',' && Count(s[..|s| - 1], ']') == 0 then 1 else 0)
  }

  /** `numStr`: the characters of s other than brackets, in order. */
  function Strip(s: string): string
  {
    if s == [] then []
    else Strip(s[..|s| - 1]) + (if s[|s| - 1] == '[' || s[|s| - 1] == ']' then [] else [s[|s| - 1]])
  }

  /** The counting loop of `equalExpression`. */
  method ScanList(listStr: string) returns (openCount: nat, closeCount: nat, commaCount: nat, numStr: string)
    ensures openCount == Count(listStr, '[') && closeCount == Count(listStr, ']')
    ensures commaCount == CommasBeforeClose(listStr)
    ensures numStr == Strip(listStr)
  {
    openCount, closeCount, commaCount, numStr := 0, 0, 0, [];
    var i := 0;
    while i < |listStr|
      invariant 0 <= i <= |listStr|
      invariant openCount == Count(listStr[..i], '[') && closeCount == Count(listStr[..i], ']')
      invariant commaCount == CommasBeforeClose(listStr[..i])
      invariant numStr == Strip(listStr[..i])
    {
      var c := listStr[i];
      assert listStr[..i + 1][..i] == listStr[..i];
      CountSnoc(listStr, '[', i);
      CountSnoc(listStr, ']', i);
      if c == '[' {
        openCount := openCount + 1;
      } else if c == ']' {
        closeCount := closeCount + 1;
      } else if c == ',' && closeCount == 0 {
        commaCount := commaCount + 1;
      }
      if c != '[' && c != ']' {
        numStr := numStr + [c];
      }
      i := i + 1;
    }
    assert listStr[..i] == listStr;
  }

  lemma CountAppend(s: string, t: string, c: char)
    ensures Count(s + t, c) == Count(s, c) + Count(t, c)
    decreases |t|
  {
    if t != [] {
      assert (s + t)[..|s + t| - 1] == s + t[..|t| - 1];
      CountAppend(s, t[..|t| - 1], c);
    } else {
      assert s + t == s;
    }
  }

  /** Stripping distributes over concatenation. */
  lemma {:induction false} StripAppend(s: string, t: string)
    ensures Strip(s + t) == Strip(s) + Strip(t)
    decreases |t|
  {
    if t == [] {
      assert s + t == s;
    } else {
      assert (s + t)[..|s + t| - 1] == s + t[..|t| - 1];
      StripAppend(s, t[..|t| - 1]);
    }
  }

  /** Once a `]` has been seen, no further comma is counted. */
  lemma {:induction false} CommasAfterClose(s: string, t: string)
    requires Count(s, ']') > 0
    ensures CommasBeforeClose(s + t) == CommasBeforeClose(s)
    decreases |t|
  {
    if t == [] {
      assert s + t == s;
    } else {
      var u := t[..|t| - 1];
      assert (s + t)[..|s + t| - 1] == s + u;
      CommasAfterClose(s, u);
      CountAppend(s, u, ']');
    }
  }

  /** Before any `]`, every comma is counted. */
  lemma {:induction false} CommasOpenRow(s: string)
    requires Count(s, ']') == 0
    ensures CommasBeforeClose(s) == Count(s, ',')
    decreases |s|
  {
    if s != [] {
      CountPrefix(s, ']', |s| - 1);
      CommasOpenRow(s[..|s| - 1]);
    }
  }

  /** The stripped text holds no bracket, and the brackets are all that
      was taken out. */
  lemma {:induction false} StripRemovesBrackets(s: string)
    ensures forall k :: 0 <= k < |Strip(s)| ==> Strip(s)[k] != '[' && Strip(s)[k] != ']'
    ensures |Strip(s)| + Count(s, '[') + Count(s, ']') == |s|
    decreases |s|
  {
    if s != [] {
      StripRemovesBrackets(s[..|s| - 1]);
    }
  }

  // ---------------------------------------------------------------------
  // Reading the pieces

  /** c does not occur in s. */
  predicate NoChar(s: string, c: char)
  {
    forall k :: 0 <= k < |s| ==> s[k] != c
  }

  /** `find`: the position of the first c in s, or |s| when there is none. */
  function IndexOf(s: string, c: char): (i: nat)
    ensures i <= |s|
    ensures i < |s| ==> s[i] == c
    ensures forall k :: 0 <= k < i ==> s[k] != c
  {
    if s == [] then 0 else if s[0] == c then 0 else 1 + IndexOf(s[1..], c)
  }

  /** The pieces `std::getline(tokenize, num, ',')` reads from s: the text
      between commas, where a final comma starts no further piece. */
  function Pieces(s: string): (ps: seq<string>)
    ensures forall k :: 0 <= k < |ps| ==> NoChar(ps[k], ',')
    ensures s != [] ==> |ps| > 0
    decreases |s|
  {
    if s == [] then []
    else
      var i := IndexOf(s, ',');
      if i == |s| then [s] else [s[..i]] + Pieces(s[i + 1..])
  }

  /** What one `std::getline` call reads, and what it leaves. */
  function NextRest(s: string): string
  {
    var j := IndexOf(s, ',');
    if j == |s| then [] else s[j + 1..]
  }

  lemma PiecesFront(s: string)
    requires s != []
    ensures Pieces(s) == [s[..IndexOf(s, ',')]] + Pieces(NextRest(s))
    ensures |NextRest(s)| < |s|
  {
    if IndexOf(s, ',') == |s| {
      assert s[..|s|] == s;
    }
  }

  /** The pieces put back together with commas. */
  function Join(ps: seq<string>): string
  {
    if ps == [] then []
    else if |ps| == 1 then ps[0]
    else ps[0] + "," + Join(ps[1..])
  }

  /** Reading the pieces and joining them again gives back the text,
      unless a final comma was dropped. */
  lemma {:induction false} JoinPieces(s: string)
    requires s == [] || s[|s| - 1] != ','
    ensures Join(Pieces(s)) == s
    decreases |s|
  {
    if s != [] {
      var i := IndexOf(s, ',');
      if i < |s| {
        var rest := s[i + 1..];
        assert rest != [] && rest[|rest| - 1] == s[|s| - 1];
        JoinPieces(rest);
        var ps := Pieces(s);
        assert ps == [s[..i]] + Pieces(rest);
        assert ps[1..] == Pieces(rest);
        assert s == s[..i] + "," + rest;
      }
    }
  }

  /** The first c in p + t is the first of t when p has none. */
  lemma {:induction false} IndexOfPast(p: string, t: string, c: char)
    requires NoChar(p, c) && |t| > 0 && t[0] == c
    ensures IndexOf(p + t, c) == |p|
    decreases |p|
  {
    if p != [] {
      assert (p + t)[0] == p[0];
      assert (p + t)[1..] == p[1..] + t;
      IndexOfPast(p[1..], t, c);
    }
  }

  /** Joining comma-free pieces, the last one not empty, and reading them
      again gives back the pieces. */
  lemma {:induction false} PiecesJoin(ps: seq<string>)
    requires forall k :: 0 <= k < |ps| ==> NoChar(ps[k], ',')
    requires ps != [] ==> |ps[|ps| - 1]| > 0
    ensures Pieces(Join(ps)) == ps
    decreases |ps|
  {
    if |ps| == 1 {
      assert IndexOf(ps[0], ',') == |ps[0]|;
    } else if |ps| > 1 {
      var p := ps[0];
      var rest := ps[1..];
      assert rest[|rest| - 1] == ps[|ps| - 1];
      assert forall k :: 0 <= k < |rest| ==> NoChar(rest[k], ',') by {
        forall k | 0 <= k < |rest|
          ensures NoChar(rest[k], ',')
        {
          assert rest[k] == ps[k + 1];
        }
      }
      PiecesJoin(rest);
      var t := "," + Join(rest);
      IndexOfPast(p, t, ',');
      var s := p + t;
      assert Join(ps) == s;
      assert s[..|p|] == p;
      assert s[|p| + 1..] == Join(rest);
      assert ps == [p] + rest;
    }
  }

  /** `num.find('/') != npos` and, then, a nonzero denominator. */
  predicate CellDefined(p: string, stod: string -> real)
  {
    var i := IndexOf(p, '/');
    i < |p| ==> stod(p[i + 1..]) != 0.0
  }

  /** The value of one piece: the quotient of the numbers around its first
      `/`, or the number itself. */
  function Cell(p: string, stod: string -> real): real
    requires CellDefined(p, stod)
  {
    var i := IndexOf(p, '/');
    if i < |p| then stod(p[..i]) / stod(p[i + 1..]) else stod(p)
  }

  /** A piece without `/` is read as one number. */
  lemma CellPlain(p: string, stod: string -> real)
    requires NoChar(p, '/')
    ensures CellDefined(p, stod) && Cell(p, stod) == stod(p)
  {
  }

  /** A piece `n/d` is the fraction n / d; the denominator is everything
      after the first `/`. */
  lemma CellFraction(n: string, d: string, stod: string -> real)
    requires NoChar(n, '/') && stod(d) != 0.0
    ensures CellDefined(n + "/" + d, stod) && Cell(n + "/" + d, stod) == stod(n) / stod(d)
  {
    var p := n + ("/" + d);
    assert p == n + "/" + d;
    IndexOfPast(n, "/" + d, '/');
    assert p[..|n|] == n && p[|n| + 1..] == d;
  }

  // ---------------------------------------------------------------------
  // The matrix a literal stands for

  /** What reading the literal s needs: with balanced brackets, at least one
      `[` (the row count is one less), no more pieces than elements (the
      read does not check), and a nonzero denominator in every fraction. */
  predicate ListReadable(s: string, stod: string -> real)
  {
    var pieces := Pieces(Strip(s));
    Count(s, '[') == Count(s, ']') ==>
      Count(s, '[') >= 1 &&
      |pieces| <= (Count(s, '[') - 1) * (CommasBeforeClose(s) + 1) &&
      forall k :: 0 <= k < |pieces| ==> CellDefined(pieces[k], stod)
  }

  /** The rows of a literal: `openCount - 1`. */
  function ListRows(s: string): nat
    requires Count(s, '[') >= 1
  {
    Count(s, '[') - 1
  }

  /** The columns of a literal: one more than the commas of its first row. */
  function ListCols(s: string): nat
  {
    CommasBeforeClose(s) + 1
  }

  /** The matrix a balanced, readable literal s stands for: its shape, and
      its first elements in row-major order are the values of the pieces.
      The elements after the pieces are left as they were allocated. */
  ghost predicate ListMatrix(m: Mat, s: string, stod: string -> real)
    requires ListReadable(s, stod) && Count(s, '[') == Count(s, ']')
  {
    var pieces := Pieces(Strip(s));
    Wf(m) && m.rows == ListRows(s) && m.cols == ListCols(s) &&
    forall q :: 0 <= q < |pieces| ==> m.elems[q] == Cell(pieces[q], stod)
  }

  /** A piece that holds no bracket, comma or slash and is not empty. */
  predicate PlainPiece(p: string)
  {
    |p| > 0 && NoChar(p, '[') && NoChar(p, ']') && NoChar(p, ',') && NoChar(p, '/')
  }

  lemma {:induction false} CountAbsent(p: string, c: char)
    requires NoChar(p, c)
    ensures Count(p, c) == 0
    decreases |p|
  {
    if p != [] {
      CountAbsent(p[..|p| - 1], c);
    }
  }

  lemma {:induction false} StripPlain(p: string)
    requires NoChar(p, '[') && NoChar(p, ']')
    ensures Strip(p) == p
    decreases |p|
  {
    if p != [] {
      var q := p[..|p| - 1];
      StripPlain(q);
      assert p == q + [p[|p| - 1]];
    }
  }

  /** The commas of a row are one fewer than its pieces, and a row of
      plain pieces holds no bracket. */
  lemma {:induction false} JoinRow(row: seq<string>)
    requires |row| > 0 && forall k :: 0 <= k < |row| ==> PlainPiece(row[k])
    ensures Count(Join(row), ',') == |row| - 1
    ensures NoChar(Join(row), '[') && NoChar(Join(row), ']')
    decreases |row|
  {
    CountAbsent(row[0], ',');
    if |row| > 1 {
      var rest := row[1..];
      assert forall k :: 0 <= k < |rest| ==> PlainPiece(rest[k]) by {
        forall k | 0 <= k < |rest|
          ensures PlainPiece(rest[k])
        {
          assert rest[k] == row[k + 1];
        }
      }
      JoinRow(rest);
      CountAppend(row[0], ",", ',');
      CountAppend(row[0] + ",", Join(rest), ',');
      assert Join(row) == row[0] + "," + Join(rest);
    }
  }

  /** Bracket and comma counts of `[[r]]` for a text r without brackets. */
  lemma OneRowCounts(r: string)
    requires NoChar(r, '[') && NoChar(r, ']')
    ensures Count("[[" + r + "]]", '[') == 2 && Count("[[" + r + "]]", ']') == 2
    ensures CommasBeforeClose("[[" + r + "]]") == Count(r, ',')
  {
    CountAbsent(r, '[');
    CountAbsent(r, ']');
    assert Count("[", '[') == 1 && Count("[", ']') == 0 && Count("[", ',') == 0 by {
      assert "["[..0] == [];
    }
    assert Count("[[", '[') == 2 && Count("[[", ']') == 0 && Count("[[", ',') == 0 by {
      assert "[["[..1] == "[";
    }
    assert Count("]", '[') == 0 && Count("]", ']') == 1 by {
      assert "]"[..0] == [];
    }
    assert Count("]]", '[') == 0 && Count("]]", ']') == 2 by {
      assert "]]"[..1] == "]";
    }
    var h := "[[" + r;
    CountAppend("[[", r, '[');
    CountAppend("[[", r, ']');
    CountAppend("[[", r, ',');
    CountAppend(h, "]]", '[');
    CountAppend(h, "]]", ']');
    CommasOpenRow(h);
    CloseTwice(h);
  }

  /** Closing `]]` after a row with no `]` counts no further comma. */
  lemma CloseTwice(h: string)
    requires Count(h, ']') == 0
    ensures CommasBeforeClose(h + "]]") == CommasBeforeClose(h)
  {
    var h1 := h + "]";
    assert h1[..|h1| - 1] == h;
    assert CommasBeforeClose(h1) == CommasBeforeClose(h);
    assert Count(h1, ']') > 0 by {
      CountAppend(h, "]", ']');
    }
    CommasAfterClose(h1, "]");
    assert h1 + "]" == h + "]]";
  }

  /** Stripping `[[r]]` leaves r. */
  lemma OneRowStrip(r: string)
    requires NoChar(r, '[') && NoChar(r, ']')
    ensures Strip("[[" + r + "]]") == r
  {
    StripPlain(r);
    StripAppend("[[", r);
    StripAppend("[[" + r, "]]");
    assert Strip("[[") == [] by {
      assert "[["[..1] == "[";
    }
    assert Strip("]]") == [] by {
      assert "]]"[..1] == "]";
    }
  }

  /** A one-row literal `[[x1,...,xn]]` of plain pieces stands for the
      1 x n matrix of those pieces. */
  lemma OneRow(row: seq<string>)
    requires |row| > 0 && forall k :: 0 <= k < |row| ==> PlainPiece(row[k])
    ensures var s := "[[" + Join(row) + "]]";
            Count(s, '[') == Count(s, ']') == 2 &&
            ListRows(s) == 1 && ListCols(s) == |row| &&
            Pieces(Strip(s)) == row
  {
    var r := Join(row);
    JoinRow(row);
    OneRowCounts(r);
    OneRowStrip(r);
    assert |row[|row| - 1]| > 0;
    forall k | 0 <= k < |row|
      ensures NoChar(row[k], ',')
    {
      assert PlainPiece(row[k]);
    }
    PiecesJoin(row);
  }
}
