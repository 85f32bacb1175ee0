/** The token-level helpers of the calculator's command interpreter
    (main.cpp): operator and number recognition, the splitting of
    parentheses off tokens, and the infix-to-postfix conversion. */
module Tokens {

  // ---------------------------------------------------------------------
  // Operators and numbers

  /** `isOperator(char)`: a key of the precedence table
      `g_operatorPrecedence`, which lists `+`, `-`, `*` and `^`. */
  predicate IsOperatorChar(c: char)
  {
    c == '+' || c == '-' || c == '*' || c == '^'
  }

  /** `isOperator(const std::string&)`: a one-character token whose character
      is an operator. */
  predicate IsOperator(t: string)
    ensures IsOperator(t) <==> t == "+" || t == "-" || t == "*" || t == "^"
  {
    |t| == 1 && (assert t == [t[0]]; IsOperatorChar(t[0]))
  }

  /** The precedence of an operator token, from `g_operatorPrecedence`:
      `+` and `-` bind weakest, then `*`, then `^`. */
  function Prec(t: string): (p: nat)
    requires IsOperator(t)
    ensures 1 <= p <= 3
    ensures p == 1 <==> t == "+" || t == "-"
    ensures p == 3 <==> t == "^"
  {
    if t[0] == '^' then 3 else if t[0] == '*' then 2 else 1
  }

  /** `std::isdigit`. */
  predicate IsDigit(c: char)
  {
    '0' <= c <= '9'
  }

  /** The number of occurrences of c in s. */
  function Count(s: string, c: char): nat
  {
    if s == [] then 0 else Count(s[..|s| - 1], c) + (if s[|s| - 1] == c then 1 else 0)
  }

  lemma CountSnoc(s: string, c: char, i: nat)
    requires i < |s|
    ensures Count(s[..i + 1], c) == Count(s[..i], c) + (if s[i] == c then 1 else 0)
  {
    assert s[..i + 1][..i] == s[..i];
  }

  /** A prefix has no more occurrences than the whole string. */
  lemma {:induction false} CountPrefix(s: string, c: char, i: nat)
    requires i <= |s|
    ensures Count(s[..i], c) <= Count(s, c)
    decreases |s|
  {
    if i == |s| {
      assert s[..i] == s;
    } else {
      assert s[..|s| - 1][..i] == s[..i];
      CountPrefix(s[..|s| - 1], c, i);
    }
  }

  /** What `isNumber` accepts: at most one '.', at most one '-' (anywhere in
      the token), and digits everywhere else; the empty token included. */
  predicate NumberShaped(s: string)
  {
    Count(s, '.') <= 1 && Count(s, '-') <= 1 &&
    forall i :: 0 <= i < |s| && s[i] != '.' && s[i] != '-' ==> IsDigit(s[i])
  }

  /** `isNumber`: one scan with a flag for the decimal point and one for the
      minus sign; a second of either, or any other non-digit, rejects. */
  method IsNumber(token: string) returns (b: bool)
    ensures b <==> NumberShaped(token)
  {
    var foundDecimal, foundNegative := false, false;
    var i := 0;
    while i < |token|
      invariant 0 <= i <= |token|
      invariant Count(token[..i], '.') <= 1 && (foundDecimal <==> Count(token[..i], '.') == 1)
      invariant Count(token[..i], '-') <= 1 && (foundNegative <==> Count(token[..i], '-') == 1)
      invariant forall k :: 0 <= k < i && token[k] != '.' && token[k] != '-' ==> IsDigit(token[k])
    {
      var c := token[i];
      CountSnoc(token, '.', i);
      CountSnoc(token, '-', i);
      if foundDecimal && c == '.' {
        CountPrefix(token, '.', i + 1);
        return false;
      } else if !foundDecimal && c == '.' {
        foundDecimal := true;
      } else if foundNegative && c == '-' {
        CountPrefix(token, '-', i + 1);
        return false;
      } else if !foundNegative && c == '-' {
        foundNegative := true;
      } else if !IsDigit(c) {
        return false;
      }
      i := i + 1;
    }
    assert token[..i] == token;
    return true;
  }

  // ---------------------------------------------------------------------
  // Splitting parentheses off tokens

  /** The characters of a token list, run together. */
  function Concat(ts: seq<string>): string
  {
    if ts == [] then [] else Concat(ts[..|ts| - 1]) + ts[|ts| - 1]
  }

  lemma {:induction false} ConcatAppend(ts: seq<string>, us: seq<string>)
    ensures Concat(ts + us) == Concat(ts) + Concat(us)
    decreases |us|
  {
    if us == [] {
      assert ts + us == ts;
    } else {
      assert (ts + us)[..|ts + us| - 1] == ts + us[..|us| - 1];
      ConcatAppend(ts, us[..|us| - 1]);
    }
  }

  lemma InitLast<T>(s: seq<T>)
    requires |s| > 0
    ensures s[..|s| - 1] + [s[|s| - 1]] == s
  {
  }

  predicate NonEmptyTokens(ts: seq<string>)
  {
    forall k :: 0 <= k < |ts| ==> |ts[k]| > 0
  }

  /** One token of `tokenizeMath`: a leading `(` is split off; otherwise a
      trailing `)` is split off; otherwise the token is kept. At most one
      parenthesis leaves each token. */
  function SplitParen(t: string): (r: seq<string>)
    requires |t| > 0
    ensures 1 <= |r| <= 2 && Concat(r) == t
  {
    if t[0] != '(' && t[|t| - 1] != ')' then
      assert Concat([t]) == Concat([]) + t;
      [t]
    else if t[0] == '(' then
      assert Concat(["(", t[1..]]) == Concat(["("]) + t[1..];
      assert Concat(["("]) == Concat([]) + "(";
      ["(", t[1..]]
    else
      assert Concat([t[..|t| - 1], ")"]) == Concat([t[..|t| - 1]]) + ")";
      assert Concat([t[..|t| - 1]]) == Concat([]) + t[..|t| - 1];
      [t[..|t| - 1], ")"]
  }

  /** `tokenizeMath` on a whole token list: each token's pieces, in order. */
  function SplitAll(ts: seq<string>): (r: seq<string>)
    requires NonEmptyTokens(ts)
  {
    if ts == [] then [] else SplitAll(ts[..|ts| - 1]) + SplitParen(ts[|ts| - 1])
  }

  /** `tokenizeMath`: the pieces of every token, appended in order. */
  method TokenizeMath(tokens: seq<string>) returns (newTokens: seq<string>)
    requires NonEmptyTokens(tokens)
    ensures newTokens == SplitAll(tokens)
  {
    newTokens := [];
    var i := 0;
    while i < |tokens|
      invariant 0 <= i <= |tokens|
      invariant newTokens == SplitAll(tokens[..i])
    {
      var t := tokens[i];
      assert tokens[..i + 1][..i] == tokens[..i];
      if t[0] != '(' && t[|t| - 1] != ')' {
        newTokens := newTokens + [t];
      } else if t[0] == '(' {
        newTokens := newTokens + ["("];
        newTokens := newTokens + [t[1..]];
      } else {
        newTokens := newTokens + [t[..|t| - 1]];
        newTokens := newTokens + [")"];
      }
      i := i + 1;
    }
    assert tokens[..i] == tokens;
  }

  /** Splitting keeps every character, in order. */
  lemma {:induction false} SplitAllKeepsText(ts: seq<string>)
    requires NonEmptyTokens(ts)
    ensures Concat(SplitAll(ts)) == Concat(ts)
    decreases |ts|
  {
    if ts != [] {
      SplitAllKeepsText(ts[..|ts| - 1]);
      ConcatAppend(SplitAll(ts[..|ts| - 1]), SplitParen(ts[|ts| - 1]));
    }
  }

  /** Each input token yields one or two output tokens. */
  lemma {:induction false} SplitAllLength(ts: seq<string>)
    requires NonEmptyTokens(ts)
    ensures |ts| <= |SplitAll(ts)| <= 2 * |ts|
    decreases |ts|
  {
    if ts != [] {
      SplitAllLength(ts[..|ts| - 1]);
    }
  }

  /** Tokens with neither a leading `(` nor a trailing `)` pass through. */
  lemma {:induction false} SplitAllPlain(ts: seq<string>)
    requires NonEmptyTokens(ts)
    requires forall k :: 0 <= k < |ts| ==> ts[k][0] != '(' && ts[k][|ts[k]| - 1] != ')'
    ensures SplitAll(ts) == ts
    decreases |ts|
  {
    if ts != [] {
      var init, last := ts[..|ts| - 1], ts[|ts| - 1];
      assert forall k :: 0 <= k < |init| ==> init[k] == ts[k];
      SplitAllPlain(init);
      assert last[0] != '(' && last[|last| - 1] != ')';
      assert SplitParen(last) == [last];
      InitLast(ts);
    }
  }

  /** A lone parenthesis token leaves an empty token beside the parenthesis,
      and a doubled one keeps its second parenthesis. */
  lemma SplitParenEdges()
    ensures SplitParen("(") == ["(", ""]
    ensures SplitParen(")") == ["", ")"]
    ensures SplitParen("((A") == ["(", "(A"]
    ensures SplitParen("(A)") == ["(", "A)"]
  {
    assert "(A)"[1..] == "A)";
    assert "((A"[1..] == "(A";
  }

  // ---------------------------------------------------------------------
  // Infix to postfix (the shunting-yard conversion of `toPostfix`)

  /** The conversion's state: the operator stack (top last) and the output. */
  datatype Shunt = Shunt(stack: seq<string>, out: seq<string>)

  /** The popping loop for an incoming operator of precedence p: stacked
      operators of precedence p or more move to the output. */
  function PopOperators(st: Shunt, p: nat): (r: Shunt)
    decreases |st.stack|
  {
    if |st.stack| > 0 && IsOperator(st.stack[|st.stack| - 1]) && p <= Prec(st.stack[|st.stack| - 1]) then
      PopOperators(Shunt(st.stack[..|st.stack| - 1], st.out + [st.stack[|st.stack| - 1]]), p)
    else
      st
  }

  /** The elements of s, last first: the order in which popping moves them. */
  function Reversed(s: seq<string>): (r: seq<string>)
    ensures |r| == |s|
  {
    if s == [] then [] else [s[|s| - 1]] + Reversed(s[..|s| - 1])
  }

  /** The loop for `)`: everything above the topmost `(` moves to the
      output, and the `(` is dropped. */
  function PopToOpen(st: Shunt): (r: Shunt)
    decreases |st.stack|
  {
    if |st.stack| == 0 then st
    else if st.stack[|st.stack| - 1] == "(" then Shunt(st.stack[..|st.stack| - 1], st.out)
    else PopToOpen(Shunt(st.stack[..|st.stack| - 1], st.out + [st.stack[|st.stack| - 1]]))
  }

  /** One token of the conversion. */
  function ShuntStep(st: Shunt, t: string): Shunt
  {
    if IsOperator(t) then
      var s := PopOperators(st, Prec(t));
      Shunt(s.stack + [t], s.out)
    else if t == ")" then PopToOpen(st)
    else if t == "(" then Shunt(st.stack + [t], st.out)
    else Shunt(st.stack, st.out + [t])
  }

  function ShuntAll(st: Shunt, ts: seq<string>): Shunt
  {
    if ts == [] then st else ShuntStep(ShuntAll(st, ts[..|ts| - 1]), ts[|ts| - 1])
  }

  /** The tokens `toPostfix` works on: the split tokens and a closing `)`
      that matches the `(` it starts its stack with. */
  function Framed(tokens: seq<string>): seq<string>
    requires NonEmptyTokens(tokens)
  {
    SplitAll(tokens) + [")"]
  }

  /** The postfix expression the conversion produces. */
  function ShuntingYard(tokens: seq<string>): seq<string>
    requires NonEmptyTokens(tokens)
  {
    ShuntAll(Shunt(["("], []), Framed(tokens)).out
  }

  /** Popping the top entry puts it first in the reversed rest. */
  lemma ReversedTail(s: seq<string>, j: nat)
    requires j < |s|
    ensures Reversed(s[j..]) == [s[|s| - 1]] + Reversed(s[..|s| - 1][j..])
  {
    assert s[j..][..|s[j..]| - 1] == s[..|s| - 1][j..];
  }

  /** The popping loop for an operator of precedence p moves the stacked
      operators of precedence p or more from the top of the stack to the
      output, topmost first, and stops below the first entry that is not
      one. */
  lemma {:induction false} PopOperatorsMoves(st: Shunt, p: nat)
    ensures var r := PopOperators(st, p);
            |r.stack| <= |st.stack| && r.stack == st.stack[..|r.stack|] &&
            r.out == st.out + Reversed(st.stack[|r.stack|..]) &&
            (forall k :: |r.stack| <= k < |st.stack| ==> IsOperator(st.stack[k]) && p <= Prec(st.stack[k])) &&
            (r.stack == [] || !IsOperator(r.stack[|r.stack| - 1]) || Prec(r.stack[|r.stack| - 1]) < p)
    decreases |st.stack|
  {
    var s := st.stack;
    if |s| > 0 && IsOperator(s[|s| - 1]) && p <= Prec(s[|s| - 1]) {
      var top, init := s[|s| - 1], s[..|s| - 1];
      var next := Shunt(init, st.out + [top]);
      PopOperatorsMoves(next, p);
      var r := PopOperators(next, p);
      assert r == PopOperators(st, p);
      var j := |r.stack|;
      assert r.stack == s[..j] by {
        assert init[..j] == s[..j];
      }
      ReversedTail(s, j);
      assert r.out == st.out + Reversed(s[j..]);
      forall k | j <= k < |s|
        ensures IsOperator(s[k]) && p <= Prec(s[k])
      {
        if k < |init| {
          assert s[k] == init[k];
        }
      }
    } else {
      assert s[|s|..] == [];
    }
  }

  /** The loop for `)` moves everything above the topmost `(` to the output,
      topmost first, and drops that `(`; with no `(` on the stack it empties
      the stack. */
  lemma PopToOpenMoves(st: Shunt)
    ensures var r := PopToOpen(st);
            |r.stack| <= |st.stack| && r.stack == st.stack[..|r.stack|] &&
            (CountTok(st.stack, "(") > 0 ==>
               |r.stack| < |st.stack| && st.stack[|r.stack|] == "(" && r.out == st.out + Reversed(st.stack[|r.stack| + 1..])) &&
            (CountTok(st.stack, "(") == 0 ==> r.stack == [] && r.out == st.out + Reversed(st.stack)) &&
            (forall k :: |r.stack| < k < |st.stack| ==> st.stack[k] != "(")
  {
    PopToOpenPrefix(st);
    PopToOpenFound(st);
    PopToOpenEmpties(st);
  }

  /** The stack left is a prefix of the stack, with no `(` above it but the
      one dropped. */
  lemma {:induction false} PopToOpenPrefix(st: Shunt)
    ensures var r := PopToOpen(st);
            |r.stack| <= |st.stack| && r.stack == st.stack[..|r.stack|] &&
            (forall k :: |r.stack| < k < |st.stack| ==> st.stack[k] != "(")
    decreases |st.stack|
  {
    var s := st.stack;
    if |s| > 0 && s[|s| - 1] != "(" {
      var top, init := s[|s| - 1], s[..|s| - 1];
      var next := Shunt(init, st.out + [top]);
      PopToOpenPrefix(next);
      var r := PopToOpen(next);
      var j := |r.stack|;
      assert init[..j] == s[..j];
      forall k | j < k < |s|
        ensures s[k] != "("
      {
        if k < |init| {
          assert s[k] == init[k];
        }
      }
    }
  }

  /** With a `(` on the stack, the loop stops at the topmost one. */
  lemma {:induction false} PopToOpenFound(st: Shunt)
    ensures var r := PopToOpen(st);
            CountTok(st.stack, "(") > 0 ==>
              |r.stack| < |st.stack| && st.stack[|r.stack|] == "(" && r.out == st.out + Reversed(st.stack[|r.stack| + 1..])
    decreases |st.stack|
  {
    var s := st.stack;
    if |s| > 0 {
      if s[|s| - 1] == "(" {
        assert s[|s|..] == [];
      } else {
        var top, init := s[|s| - 1], s[..|s| - 1];
        var next := Shunt(init, st.out + [top]);
        PopToOpenFound(next);
        var r := PopToOpen(next);
        if CountTok(s, "(") > 0 {
          var j := |r.stack|;
          ReversedTail(s, j + 1);
          assert s[j] == init[j];
        }
      }
    }
  }

  /** Without a `(` on the stack, the loop outputs the whole stack. */
  lemma {:induction false} PopToOpenEmpties(st: Shunt)
    ensures var r := PopToOpen(st);
            CountTok(st.stack, "(") == 0 ==> r.stack == [] && r.out == st.out + Reversed(st.stack)
    decreases |st.stack|
  {
    var s := st.stack;
    if |s| > 0 && s[|s| - 1] != "(" {
      var top, init := s[|s| - 1], s[..|s| - 1];
      var next := Shunt(init, st.out + [top]);
      PopToOpenEmpties(next);
      ReversedTail(s, 0);
      assert s[0..] == s && init[0..] == init;
    }
  }

  /** One token of the conversion only ever appends to the output: an
      operator is pushed once the stronger-or-equal operators above it have
      moved out, `)` pops, `(` is pushed and an operand is output. */
  lemma ShuntStepMoves(st: Shunt, t: string)
    ensures var r := ShuntStep(st, t);
            st.out <= r.out &&
            (IsOperator(t) ==>
               0 < |r.stack| <= |st.stack| + 1 && r.stack[|r.stack| - 1] == t &&
               r.stack[..|r.stack| - 1] == st.stack[..|r.stack| - 1] &&
               r.out == st.out + Reversed(st.stack[|r.stack| - 1..])) &&
            (t == ")" ==> |r.stack| <= |st.stack| && r.stack == st.stack[..|r.stack|]) &&
            (t == "(" ==> r.stack == st.stack + ["("] && r.out == st.out) &&
            (!IsOperator(t) && t != "(" && t != ")" ==> r.stack == st.stack && r.out == st.out + [t])
  {
    if IsOperator(t) {
      PopOperatorsMoves(st, Prec(t));
    } else if t == ")" {
      PopToOpenMoves(st);
    }
  }

  /** The number of tokens equal to x. */
  function CountTok(ts: seq<string>, x: string): nat
  {
    if ts == [] then 0 else CountTok(ts[..|ts| - 1], x) + (if ts[|ts| - 1] == x then 1 else 0)
  }

  /** No prefix closes more parentheses than it opens: the outer `(` of the
      operator stack is never popped before the final `)`. */
  ghost predicate NeverUnderflows(ts: seq<string>)
  {
    forall i :: 0 <= i <= |ts| ==> CountTok(ts[..i], ")") <= CountTok(ts[..i], "(")
  }

  /** Every `(` is closed. */
  predicate Balanced(ts: seq<string>)
  {
    CountTok(ts, ")") == CountTok(ts, "(")
  }

  /** One token of `toPostfix` reads only a nonempty operator stack: the
      popping loop of an operator stops before the stack runs out, and a
      `)` finds a `(` to stop at. */
  predicate StepDefined(st: Shunt, t: string)
  {
    if IsOperator(t) then |PopOperators(st, Prec(t)).stack| > 0
    else if t == ")" then "(" in st.stack
    else true
  }

  /** Every token of ts, taken in turn from st, reads only a nonempty stack. */
  predicate StepsDefined(st: Shunt, ts: seq<string>)
  {
    ts == [] || (StepsDefined(st, ts[..|ts| - 1]) && StepDefined(ShuntAll(st, ts[..|ts| - 1]), ts[|ts| - 1]))
  }

  /** `toPostfix` never calls `top()` on an empty stack, the final `)`
      included. */
  predicate ConversionDefined(tokens: seq<string>)
    requires NonEmptyTokens(tokens)
  {
    StepsDefined(Shunt(["("], []), Framed(tokens))
  }

  /** The popping loop of `toPostfix` for an incoming operator. */
  method PopOperatorsLoop(stack0: seq<string>, expression0: seq<string>, currPrecedence: nat)
    returns (stack: seq<string>, expression: seq<string>)
    ensures Shunt(stack, expression) == PopOperators(Shunt(stack0, expression0), currPrecedence)
  {
    stack, expression := stack0, expression0;
    while |stack| > 0 && IsOperator(stack[|stack| - 1]) && currPrecedence <= Prec(stack[|stack| - 1])
      invariant PopOperators(Shunt(stack, expression), currPrecedence) == PopOperators(Shunt(stack0, expression0), currPrecedence)
      decreases |stack|
    {
      expression := expression + [stack[|stack| - 1]];
      stack := stack[..|stack| - 1];
    }
  }

  /** The popping loop of `toPostfix` for `)`, and the pop of the `(`. */
  method PopToOpenLoop(stack0: seq<string>, expression0: seq<string>)
    returns (stack: seq<string>, expression: seq<string>)
    ensures Shunt(stack, expression) == PopToOpen(Shunt(stack0, expression0))
  {
    stack, expression := stack0, expression0;
    while |stack| > 0 && stack[|stack| - 1] != "("
      invariant PopToOpen(Shunt(stack, expression)) == PopToOpen(Shunt(stack0, expression0))
      decreases |stack|
    {
      expression := expression + [stack[|stack| - 1]];
      stack := stack[..|stack| - 1];
    }
    if |stack| > 0 {
      stack := stack[..|stack| - 1];
    }
  }

  /** `toPostfix`: tokenizeMath, then the shunting-yard loop over the split
      tokens with `(` pushed first and `)` appended last. */
  method ToPostfix(tokens: seq<string>) returns (expression: seq<string>)
    requires NonEmptyTokens(tokens) && ConversionDefined(tokens)
    ensures expression == ShuntingYard(tokens)
  {
    var split := TokenizeMath(tokens);
    var ts := split + [")"];
    var stack := ["("];
    expression := [];
    var i := 0;
    while i < |ts|
      invariant 0 <= i <= |ts|
      invariant Shunt(stack, expression) == ShuntAll(Shunt(["("], []), ts[..i])
    {
      var t := ts[i];
      assert ts[..i + 1][..i] == ts[..i];
      if IsOperator(t) {
        stack, expression := PopOperatorsLoop(stack, expression, Prec(t));
        stack := stack + [t];
      } else if t == ")" {
        stack, expression := PopToOpenLoop(stack, expression);
      } else if t == "(" {
        stack := stack + [t];
      } else {
        expression := expression + [t];
      }
      i := i + 1;
    }
    assert ts[..i] == ts;
  }

  // ---------------------------------------------------------------------
  // What the conversion guarantees

  predicate IsParen(t: string)
  {
    t == "(" || t == ")"
  }

  lemma OperatorNotParen(t: string)
    requires IsOperator(t)
    ensures !IsParen(t)
  {
  }

  /** The operand tokens (neither operators nor parentheses), in order. */
  function Operands(ts: seq<string>): seq<string>
  {
    if ts == [] then []
    else Operands(ts[..|ts| - 1]) + (if IsOperator(ts[|ts| - 1]) || IsParen(ts[|ts| - 1]) then [] else [ts[|ts| - 1]])
  }

  /** The operator tokens, in order. */
  function Operators(ts: seq<string>): seq<string>
  {
    if ts == [] then [] else Operators(ts[..|ts| - 1]) + (if IsOperator(ts[|ts| - 1]) then [ts[|ts| - 1]] else [])
  }

  lemma FiltersSnoc(ts: seq<string>, t: string)
    ensures Operands(ts + [t]) == Operands(ts) + (if IsOperator(t) || IsParen(t) then [] else [t])
    ensures Operators(ts + [t]) == Operators(ts) + (if IsOperator(t) then [t] else [])
    ensures CountTok(ts + [t], "(") == CountTok(ts, "(") + (if t == "(" then 1 else 0)
    ensures CountTok(ts + [t], ")") == CountTok(ts, ")") + (if t == ")" then 1 else 0)
  {
    assert (ts + [t])[..|ts + [t]| - 1] == ts;
  }

  /** The operator stack holds only `(` and operators. */
  ghost predicate StackShaped(stack: seq<string>)
  {
    forall k :: 0 <= k < |stack| ==> stack[k] == "(" || IsOperator(stack[k])
  }

  /** The output holds no parenthesis. */
  ghost predicate NoParens(out: seq<string>)
  {
    forall k :: 0 <= k < |out| ==> !IsParen(out[k])
  }

  /** What the operator stack and the output hold after a prefix ts: the
      stack only `(` and operators, the output no parentheses, the operands
      of ts in order, and every operator of ts either output or stacked. */
  ghost predicate ShuntInv(st: Shunt, ts: seq<string>)
  {
    StackShaped(st.stack) && NoParens(st.out) &&
    Operands(st.out) == Operands(ts) &&
    multiset(Operators(st.out)) + multiset(Operators(st.stack)) == multiset(Operators(ts))
  }

  /** While the outer `(` has not been matched: it is still at the bottom of
      the stack, above it one `(` per unclosed parenthesis. */
  ghost predicate Nested(st: Shunt, ts: seq<string>)
  {
    |st.stack| > 0 && st.stack[0] == "(" && CountTok(st.stack, "(") == 1 + CountTok(ts, "(") - CountTok(ts, ")")
  }

  lemma MoveTopShapes(stack: seq<string>, out: seq<string>)
    requires StackShaped(stack) && NoParens(out) && |stack| > 0 && IsOperator(stack[|stack| - 1])
    ensures StackShaped(stack[..|stack| - 1]) && NoParens(out + [stack[|stack| - 1]])
  {
    OperatorNotParen(stack[|stack| - 1]);
  }

  lemma MoveTopFilters(stack: seq<string>, out: seq<string>)
    requires |stack| > 0 && IsOperator(stack[|stack| - 1])
    ensures Operands(out + [stack[|stack| - 1]]) == Operands(out)
    ensures multiset(Operators(out + [stack[|stack| - 1]])) + multiset(Operators(stack[..|stack| - 1])) ==
            multiset(Operators(out)) + multiset(Operators(stack))
    ensures CountTok(stack[..|stack| - 1], "(") == CountTok(stack, "(")
  {
    var top, rest := stack[|stack| - 1], stack[..|stack| - 1];
    FiltersSnoc(out, top);
    FiltersSnoc(rest, top);
    InitLast(stack);
    OperatorNotParen(top);
  }

  /** Moving the top operator to the output keeps the invariant. */
  lemma MoveTop(st: Shunt, ts: seq<string>)
    requires ShuntInv(st, ts) && |st.stack| > 0 && IsOperator(st.stack[|st.stack| - 1])
    ensures ShuntInv(Shunt(st.stack[..|st.stack| - 1], st.out + [st.stack[|st.stack| - 1]]), ts)
    ensures CountTok(st.stack[..|st.stack| - 1], "(") == CountTok(st.stack, "(")
  {
    MoveTopShapes(st.stack, st.out);
    MoveTopFilters(st.stack, st.out);
  }

  /** An operator on top is never the outer `(`, so moving it keeps Nested. */
  lemma MoveTopNested(st: Shunt, ts: seq<string>)
    requires Nested(st, ts) && IsOperator(st.stack[|st.stack| - 1])
    ensures Nested(Shunt(st.stack[..|st.stack| - 1], st.out + [st.stack[|st.stack| - 1]]), ts)
  {
    var top, rest := st.stack[|st.stack| - 1], st.stack[..|st.stack| - 1];
    OperatorNotParen(top);
    FiltersSnoc(rest, top);
    InitLast(st.stack);
  }

  lemma {:induction false} PopOperatorsInv(st: Shunt, p: nat, ts: seq<string>)
    requires ShuntInv(st, ts)
    ensures ShuntInv(PopOperators(st, p), ts)
    ensures Nested(st, ts) ==> Nested(PopOperators(st, p), ts)
    decreases |st.stack|
  {
    if |st.stack| > 0 && IsOperator(st.stack[|st.stack| - 1]) && p <= Prec(st.stack[|st.stack| - 1]) {
      MoveTop(st, ts);
      if Nested(st, ts) {
        MoveTopNested(st, ts);
      }
      PopOperatorsInv(Shunt(st.stack[..|st.stack| - 1], st.out + [st.stack[|st.stack| - 1]]), p, ts);
    }
  }

  lemma {:induction false} PopToOpenInv(st: Shunt, ts: seq<string>)
    requires ShuntInv(st, ts)
    ensures ShuntInv(PopToOpen(st), ts)
    decreases |st.stack|
  {
    if |st.stack| > 0 {
      var top := st.stack[|st.stack| - 1];
      if top == "(" {
        FiltersSnoc(st.stack[..|st.stack| - 1], top);
        InitLast(st.stack);
      } else {
        MoveTop(st, ts);
        PopToOpenInv(Shunt(st.stack[..|st.stack| - 1], st.out + [top]), ts);
      }
    }
  }

  /** Below an unmatched `(` other than the outer one, `)` keeps the outer one. */
  lemma {:induction false} PopToOpenNested(st: Shunt, ts: seq<string>)
    requires ShuntInv(st, ts) && Nested(st, ts) && CountTok(st.stack, "(") >= 2
    ensures |PopToOpen(st).stack| > 0 && PopToOpen(st).stack[0] == "("
    ensures CountTok(PopToOpen(st).stack, "(") == CountTok(st.stack, "(") - 1
    decreases |st.stack|
  {
    var top := st.stack[|st.stack| - 1];
    var rest := st.stack[..|st.stack| - 1];
    FiltersSnoc(rest, top);
    InitLast(st.stack);
    if top != "(" {
      MoveTop(st, ts);
      PopToOpenNested(Shunt(rest, st.out + [top]), ts);
    } else {
      assert CountTok([], "(") == 0;
      assert |rest| > 0;
    }
  }

  /** With only the outer `(` left open, `)` empties the stack. */
  lemma {:induction false} PopToOpenLast(st: Shunt, ts: seq<string>)
    requires ShuntInv(st, ts) && |st.stack| > 0 && st.stack[0] == "(" && CountTok(st.stack, "(") == 1
    ensures PopToOpen(st).stack == []
    decreases |st.stack|
  {
    var top := st.stack[|st.stack| - 1];
    var rest := st.stack[..|st.stack| - 1];
    FiltersSnoc(rest, top);
    InitLast(st.stack);
    if top != "(" {
      MoveTop(st, ts);
      PopToOpenLast(Shunt(rest, st.out + [top]), ts);
    } else if |rest| > 0 {
      assert rest[0] == "(";
      CountTokPositive(rest);
    }
  }

  lemma {:induction false} CountTokPositive(ts: seq<string>)
    requires |ts| > 0 && ts[0] == "("
    ensures CountTok(ts, "(") >= 1
    decreases |ts|
  {
    if |ts| > 1 {
      CountTokPositive(ts[..|ts| - 1]);
    }
  }

  lemma PushShapes(stack: seq<string>, t: string)
    requires StackShaped(stack) && (t == "(" || IsOperator(t))
    ensures StackShaped(stack + [t])
  {
  }

  lemma PushOperatorFilters(stack: seq<string>, ts: seq<string>, t: string)
    requires IsOperator(t)
    ensures Operators(stack + [t]) == Operators(stack) + [t] && Operators(ts + [t]) == Operators(ts) + [t]
    ensures Operands(ts + [t]) == Operands(ts)
  {
    OperatorNotParen(t);
    FiltersSnoc(ts, t);
    FiltersSnoc(stack, t);
  }

  lemma PushOperator(st: Shunt, ts: seq<string>, t: string)
    requires ShuntInv(st, ts) && IsOperator(t)
    ensures ShuntInv(Shunt(st.stack + [t], st.out), ts + [t])
  {
    PushShapes(st.stack, t);
    PushOperatorFilters(st.stack, ts, t);
  }

  lemma ParenFilters(stack: seq<string>, ts: seq<string>, t: string)
    requires IsParen(t)
    ensures Operators(stack + [t]) == Operators(stack) && Operators(ts + [t]) == Operators(ts)
    ensures Operands(ts + [t]) == Operands(ts)
  {
    assert !IsOperator(t) by {
    }
    FiltersSnoc(ts, t);
    FiltersSnoc(stack, t);
  }

  lemma PushParen(st: Shunt, ts: seq<string>, t: string)
    requires ShuntInv(st, ts) && IsParen(t)
    ensures ShuntInv(st, ts + [t])
    ensures t == "(" ==> ShuntInv(Shunt(st.stack + [t], st.out), ts + [t])
  {
    ParenFilters(st.stack, ts, t);
    if t == "(" {
      PushShapes(st.stack, t);
    }
  }

  lemma EmitFilters(out: seq<string>, ts: seq<string>, t: string)
    requires !IsOperator(t) && !IsParen(t) && Operands(out) == Operands(ts)
    ensures Operands(out + [t]) == Operands(ts + [t])
    ensures Operators(out + [t]) == Operators(out) && Operators(ts + [t]) == Operators(ts)
  {
    FiltersSnoc(ts, t);
    FiltersSnoc(out, t);
  }

  lemma EmitNoParens(out: seq<string>, t: string)
    requires NoParens(out) && !IsParen(t)
    ensures NoParens(out + [t])
  {
  }

  lemma EmitOperand(st: Shunt, ts: seq<string>, t: string)
    requires ShuntInv(st, ts) && !IsOperator(t) && !IsParen(t)
    ensures ShuntInv(Shunt(st.stack, st.out + [t]), ts + [t])
  {
    EmitFilters(st.out, ts, t);
    EmitNoParens(st.out, t);
  }

  /** One token keeps the invariant. */
  lemma ShuntStepInv(st: Shunt, ts: seq<string>, t: string)
    requires ShuntInv(st, ts)
    ensures ShuntInv(ShuntStep(st, t), ts + [t])
  {
    if IsOperator(t) {
      PopOperatorsInv(st, Prec(t), ts);
      PushOperator(PopOperators(st, Prec(t)), ts, t);
    } else if t == ")" {
      PopToOpenInv(st, ts);
      PushParen(PopToOpen(st), ts, t);
    } else if t == "(" {
      PushParen(st, ts, t);
    } else {
      EmitOperand(st, ts, t);
    }
  }

  /** One token keeps the outer `(` in place while no prefix underflows. */
  lemma ShuntStepNested(st: Shunt, ts: seq<string>, t: string)
    requires ShuntInv(st, ts) && Nested(st, ts)
    requires CountTok(ts + [t], ")") <= CountTok(ts + [t], "(")
    ensures Nested(ShuntStep(st, t), ts + [t])
  {
    FiltersSnoc(ts, t);
    if IsOperator(t) {
      PopOperatorsInv(st, Prec(t), ts);
      var s := PopOperators(st, Prec(t));
      FiltersSnoc(s.stack, t);
      assert (s.stack + [t])[0] == "(";
    } else if t == ")" {
      PopToOpenNested(st, ts);
    } else if t == "(" {
      FiltersSnoc(st.stack, t);
    }
  }

  lemma {:induction false} ShuntAllInv(ts: seq<string>)
    ensures ShuntInv(ShuntAll(Shunt(["("], []), ts), ts)
    ensures NeverUnderflows(ts) ==> Nested(ShuntAll(Shunt(["("], []), ts), ts)
    decreases |ts|
  {
    if ts == [] {
      assert CountTok(["("], "(") == CountTok([], "(") + 1 by {
        FiltersSnoc([], "(");
      }
    } else {
      var init, t := ts[..|ts| - 1], ts[|ts| - 1];
      InitLast(ts);
      if NeverUnderflows(ts) {
        forall i | 0 <= i <= |init|
          ensures CountTok(init[..i], ")") <= CountTok(init[..i], "(")
        {
          assert init[..i] == ts[..i];
        }
        assert ts[..|ts|] == ts;
      }
      ShuntAllInv(init);
      ShuntStepInv(ShuntAll(Shunt(["("], []), init), init, t);
      if NeverUnderflows(ts) {
        ShuntStepNested(ShuntAll(Shunt(["("], []), init), init, t);
      }
    }
  }

  /** The conversion ends by popping to the outer `(` for the appended `)`. */
  lemma ShuntingYardLast(tokens: seq<string>)
    requires NonEmptyTokens(tokens)
    ensures ShuntingYard(tokens) == PopToOpen(ShuntAll(Shunt(["("], []), SplitAll(tokens))).out
  {
    var ts := SplitAll(tokens);
    assert Framed(tokens)[..|ts|] == ts;
  }

  lemma ShuntAllSnoc(st: Shunt, ts: seq<string>, t: string)
    ensures ShuntAll(st, ts + [t]) == ShuntStep(ShuntAll(st, ts), t)
  {
    assert (ts + [t])[..|ts|] == ts;
  }

  lemma {:induction false} CountTokAbsent(ts: seq<string>, x: string)
    requires forall k :: 0 <= k < |ts| ==> ts[k] != x
    ensures CountTok(ts, x) == 0
    decreases |ts|
  {
    if ts != [] {
      CountTokAbsent(ts[..|ts| - 1], x);
    }
  }

  /** Tokens without parentheses never close more than they open. */
  lemma NoParensNeverUnderflow(ts: seq<string>)
    requires forall k :: 0 <= k < |ts| ==> !IsParen(ts[k])
    ensures NeverUnderflows(ts)
  {
    forall i | 0 <= i <= |ts|
      ensures CountTok(ts[..i], ")") <= CountTok(ts[..i], "(")
    {
      CountTokAbsent(ts[..i], ")");
    }
  }

  lemma NeverUnderflowsInit(ts: seq<string>)
    requires |ts| > 0 && NeverUnderflows(ts)
    ensures NeverUnderflows(ts[..|ts| - 1])
  {
    var init := ts[..|ts| - 1];
    forall i | 0 <= i <= |init|
      ensures CountTok(init[..i], ")") <= CountTok(init[..i], "(")
    {
      assert init[..i] == ts[..i];
    }
  }

  /** While the outer `(` stays at the bottom of the stack, no token reads
      an empty stack. */
  lemma NestedStepDefined(st: Shunt, ts: seq<string>, t: string)
    requires ShuntInv(st, ts) && Nested(st, ts)
    ensures StepDefined(st, t)
  {
    if IsOperator(t) {
      PopOperatorsInv(st, Prec(t), ts);
    } else if t == ")" {
      assert st.stack[0] == "(";
    }
  }

  lemma {:induction false} NeverUnderflowsStepsDefined(ts: seq<string>)
    requires NeverUnderflows(ts)
    ensures StepsDefined(Shunt(["("], []), ts)
    decreases |ts|
  {
    if ts != [] {
      var init := ts[..|ts| - 1];
      NeverUnderflowsInit(ts);
      NeverUnderflowsStepsDefined(init);
      ShuntAllInv(init);
      NestedStepDefined(ShuntAll(Shunt(["("], []), init), init, ts[|ts| - 1]);
    }
  }

  /** Input whose prefixes never close more parentheses than they open is
      converted without reading an empty stack. */
  lemma NeverUnderflowsDefined(tokens: seq<string>)
    requires NonEmptyTokens(tokens)
    ensures NeverUnderflows(SplitAll(tokens)) ==> ConversionDefined(tokens)
  {
    var ts := SplitAll(tokens);
    if NeverUnderflows(ts) {
      var fr := Framed(tokens);
      assert fr[..|fr| - 1] == ts;
      NeverUnderflowsStepsDefined(ts);
      ShuntAllInv(ts);
      NestedStepDefined(ShuntAll(Shunt(["("], []), ts), ts, ")");
    }
  }

  /** tokenizeMath on `(A )) (B`. */
  lemma EarlyCloseSplit()
    ensures NonEmptyTokens(["(A", "))", "(B"])
    ensures SplitAll(["(A", "))", "(B"]) == ["(", "A", ")", ")", "(", "B"]
  {
    var tokens := ["(A", "))", "(B"];
    assert SplitParen("(A") == ["(", "A"] by { assert "(A"[1..] == "A"; }
    assert SplitParen("))") == [")", ")"] by { assert "))"[..1] == ")"; }
    assert SplitParen("(B") == ["(", "B"] by { assert "(B"[1..] == "B"; }
    assert tokens[..2] == ["(A", "))"] && tokens[..2][..1] == ["(A"] && tokens[..2][..1][..0] == [];
    assert SplitAll(tokens[..2][..1]) == ["(", "A"];
    assert SplitAll(tokens[..2]) == ["(", "A", ")", ")"];
  }

  /** Its first four split tokens close more than they open. */
  lemma EarlyCloseUnderflows()
    ensures !NeverUnderflows(["(", "A", ")", ")", "(", "B"])
  {
    var ts := ["(", "A", ")", ")", "(", "B"];
    var p := ts[..4];
    assert p[..3] == ts[..3] && ts[..3][..2] == ts[..2] && ts[..2][..1] == ts[..1] && ts[..1][..0] == [];
    assert CountTok(ts[..0], ")") == 0 && CountTok(ts[..0], "(") == 0;
    assert CountTok(ts[..1], ")") == 0 && CountTok(ts[..1], "(") == 1;
    assert CountTok(ts[..2], ")") == 0 && CountTok(ts[..2], "(") == 1;
    assert CountTok(ts[..3], ")") == 1 && CountTok(ts[..3], "(") == 1;
    assert CountTok(p, ")") == 2 && CountTok(p, "(") == 1;
  }

  /** The conversion of the framed split tokens, step by step: the stack is
      empty only after the second `)`, where a `(` is pushed next. */
  lemma EarlyCloseShunt()
    ensures StepsDefined(Shunt(["("], []), ["(", "A", ")", ")", "(", "B", ")"])
    ensures ShuntAll(Shunt(["("], []), ["(", "A", ")", ")", "(", "B", ")"]) == Shunt([], ["A", "B"])
  {
    var fr := ["(", "A", ")", ")", "(", "B", ")"];
    var s0 := Shunt(["("], []);
    assert fr[..0] == [] && fr[..1] == ["("] && fr[..2] == ["(", "A"] && fr[..7] == fr;
    assert fr[..1][..0] == fr[..0] && fr[..2][..1] == fr[..1] && fr[..3][..2] == fr[..2];
    assert fr[..4][..3] == fr[..3] && fr[..5][..4] == fr[..4] && fr[..6][..5] == fr[..5] && fr[..7][..6] == fr[..6];
    assert ShuntAll(s0, fr[..1]) == Shunt(["(", "("], []);
    assert ShuntAll(s0, fr[..2]) == Shunt(["(", "("], ["A"]);
    assert ShuntAll(s0, fr[..3]) == Shunt(["("], ["A"]);
    assert ShuntAll(s0, fr[..4]) == Shunt([], ["A"]);
    assert ShuntAll(s0, fr[..5]) == Shunt(["("], ["A"]);
    assert ShuntAll(s0, fr[..6]) == Shunt(["("], ["A", "B"]);
    assert StepsDefined(s0, fr[..1]) && StepsDefined(s0, fr[..2]);
    assert StepsDefined(s0, fr[..3]) && StepsDefined(s0, fr[..4]);
    assert StepsDefined(s0, fr[..5]) && StepsDefined(s0, fr[..6]);
  }

  /** The converse of NeverUnderflowsDefined fails: `(A )) (B` closes the
      outer `(` early and opens a new one, so no stack read finds the stack
      empty, and the postfix is `A B`. */
  lemma DefinedWithEarlyClose()
    ensures NonEmptyTokens(["(A", "))", "(B"])
    ensures !NeverUnderflows(SplitAll(["(A", "))", "(B"]))
    ensures ConversionDefined(["(A", "))", "(B"])
    ensures ShuntingYard(["(A", "))", "(B"]) == ["A", "B"]
  {
    EarlyCloseSplit();
    EarlyCloseUnderflows();
    EarlyCloseShunt();
    assert Framed(["(A", "))", "(B"]) == ["(", "A", ")", ")", "(", "B", ")"];
  }

  /** The postfix expression has no parentheses and keeps the operands in
      their input order; when the parentheses are balanced, every operator
      of the input appears in it exactly as often as in the input. */
  lemma ShuntingYardProperties(tokens: seq<string>)
    requires NonEmptyTokens(tokens)
    ensures forall k :: 0 <= k < |ShuntingYard(tokens)| ==>
              ShuntingYard(tokens)[k] != "(" && ShuntingYard(tokens)[k] != ")"
    ensures Operands(ShuntingYard(tokens)) == Operands(SplitAll(tokens))
    ensures NeverUnderflows(SplitAll(tokens)) && Balanced(SplitAll(tokens)) ==>
              multiset(Operators(ShuntingYard(tokens))) == multiset(Operators(SplitAll(tokens)))
  {
    var ts := SplitAll(tokens);
    var st := ShuntAll(Shunt(["("], []), ts);
    ShuntingYardLast(tokens);
    ShuntAllInv(ts);
    PopToOpenInv(st, ts);
    if NeverUnderflows(ts) && Balanced(ts) {
      PopToOpenLast(st, ts);
      assert Operators(PopToOpen(st).stack) == [];
    }
  }

  /** A token that is neither an operator nor split by tokenizeMath. */
  predicate PlainOperand(t: string)
  {
    |t| > 0 && !IsOperator(t) && t[0] != '(' && t[|t| - 1] != ')'
  }

  /** An operand goes straight to the output. */
  lemma OperandStep(st: Shunt, t: string)
    requires PlainOperand(t)
    ensures ShuntStep(st, t) == Shunt(st.stack, st.out + [t])
  {
    assert t != "(" && t != ")";
  }

  /** An operator over `(` is pushed. */
  lemma OverOpenStep(stack: seq<string>, out: seq<string>, t: string)
    requires IsOperator(t) && |stack| > 0 && stack[|stack| - 1] == "("
    ensures ShuntStep(Shunt(stack, out), t) == Shunt(stack + [t], out)
  {
  }

  /** An operator over a weaker one is pushed. */
  lemma OverWeakerStep(stack: seq<string>, out: seq<string>, t: string, u: string)
    requires IsOperator(t) && IsOperator(u) && Prec(u) < Prec(t)
    ensures ShuntStep(Shunt(stack + [u], out), t) == Shunt(stack + [u, t], out)
  {
    assert stack + [u] + [t] == stack + [u, t];
  }

  /** An operator over an operator of no lower precedence that sits on `(`
      pops it and is pushed. */
  lemma PopOneStep(out: seq<string>, t: string, u: string)
    requires IsOperator(t) && IsOperator(u) && Prec(t) <= Prec(u)
    ensures ShuntStep(Shunt(["(", u], out), t) == Shunt(["(", t], out + [u])
  {
    var st := Shunt(["(", u], out);
    assert st.stack[..|st.stack| - 1] == ["("];
    assert PopOperators(st, Prec(t)) == PopOperators(Shunt(["("], out + [u]), Prec(t));
    assert !IsOperator("(");
  }

  /** Extending a prefix of the input by its next token, whose step is known. */
  lemma ShuntAllExtend(st: Shunt, ts: seq<string>, k: nat, before: Shunt, after: Shunt)
    requires k < |ts| && ShuntAll(st, ts[..k]) == before && ShuntStep(before, ts[k]) == after
    ensures ShuntAll(st, ts[..k + 1]) == after
  {
    ShuntAllSnoc(st, ts[..k], ts[k]);
    assert ts[..k] + [ts[k]] == ts[..k + 1];
  }

  lemma OperatorPlain(t: string)
    requires IsOperator(t)
    ensures t[0] != '(' && t[|t| - 1] != ')'
  {
  }

  /** The postfix expression of plain tokens, from the shunting state
      before the final `)`. */
  lemma ShuntingYardOfPlain(ts: seq<string>, st: Shunt)
    requires NonEmptyTokens(ts)
    requires forall k :: 0 <= k < |ts| ==> ts[k][0] != '(' && ts[k][|ts[k]| - 1] != ')'
    requires ShuntAll(Shunt(["("], []), ts) == st
    ensures ShuntingYard(ts) == PopToOpen(st).out
  {
    SplitAllPlain(ts);
    ShuntingYardLast(ts);
  }

  /** The state after `x op y`. */
  lemma ShuntThree(x: string, op: string, y: string)
    requires PlainOperand(x) && PlainOperand(y) && IsOperator(op)
    ensures ShuntAll(Shunt(["("], []), [x, op, y]) == Shunt(["(", op], [x, y])
  {
    var ts := [x, op, y];
    var s0 := Shunt(["("], []);
    var s1 := Shunt(["("], [x]);
    var s2 := Shunt(["(", op], [x]);
    var s3 := Shunt(["(", op], [x, y]);
    OperandStep(s0, x);
    OverOpenStep(["("], [x], op);
    OperandStep(s2, y);
    assert ts[..0] == [];
    ShuntAllExtend(s0, ts, 0, s0, s1);
    ShuntAllExtend(s0, ts, 1, s1, s2);
    ShuntAllExtend(s0, ts, 2, s2, s3);
    assert ts[..3] == ts;
  }

  /** The state after `x op1 y op2 z`, from the steps of `op2` and `z`. */
  lemma ShuntFive(x: string, op1: string, y: string, op2: string, z: string, mid: Shunt, after: Shunt)
    requires PlainOperand(x) && PlainOperand(y) && IsOperator(op1)
    requires ShuntStep(Shunt(["(", op1], [x, y]), op2) == mid && ShuntStep(mid, z) == after
    ensures ShuntAll(Shunt(["("], []), [x, op1, y, op2, z]) == after
  {
    var s0 := Shunt(["("], []);
    ShuntThree(x, op1, y);
    ShuntAllSnoc(s0, [x, op1, y], op2);
    assert [x, op1, y] + [op2] == [x, op1, y, op2];
    ShuntAllSnoc(s0, [x, op1, y, op2], z);
    assert [x, op1, y, op2] + [z] == [x, op1, y, op2, z];
  }

  /** `x op y` becomes `x y op`. */
  lemma BinaryPostfix(x: string, op: string, y: string)
    requires PlainOperand(x) && PlainOperand(y) && IsOperator(op)
    ensures ShuntingYard([x, op, y]) == [x, y, op]
  {
    var s3 := Shunt(["(", op], [x, y]);
    ShuntThree(x, op, y);
    OperatorPlain(op);
    ShuntingYardOfPlain([x, op, y], s3);
    PopOne(op, [x, y]);
  }

  /** `x op1 y op2 z` with op2 no stronger than op1 becomes `x y op1 z op2`:
      `A * 2 + B` gives `A 2 * B +`, and `A - B - C` gives `A B - C -`, so
      operators of equal precedence associate to the left. */
  lemma NoStrongerPops(x: string, op1: string, y: string, op2: string, z: string)
    requires PlainOperand(x) && PlainOperand(y) && PlainOperand(z)
    requires IsOperator(op1) && IsOperator(op2) && Prec(op2) <= Prec(op1)
    ensures ShuntingYard([x, op1, y, op2, z]) == [x, y, op1, z, op2]
  {
    var s4 := Shunt(["(", op2], [x, y, op1]);
    var s5 := Shunt(["(", op2], [x, y, op1, z]);
    PopOneStep([x, y], op2, op1);
    OperandStep(s4, z);
    ShuntFive(x, op1, y, op2, z, s4, s5);
    OperatorPlain(op1);
    OperatorPlain(op2);
    ShuntingYardOfPlain([x, op1, y, op2, z], s5);
    PopOne(op2, [x, y, op1, z]);
  }

  /** `x op1 y op2 z` with op2 stronger than op1 becomes `x y z op2 op1`:
      `A + B * C` gives `A B C * +`. */
  lemma StrongerWaits(x: string, op1: string, y: string, op2: string, z: string)
    requires PlainOperand(x) && PlainOperand(y) && PlainOperand(z)
    requires IsOperator(op1) && IsOperator(op2) && Prec(op1) < Prec(op2)
    ensures ShuntingYard([x, op1, y, op2, z]) == [x, y, z, op2, op1]
  {
    var s4 := Shunt(["(", op1, op2], [x, y]);
    var s5 := Shunt(["(", op1, op2], [x, y, z]);
    assert ShuntStep(Shunt(["(", op1], [x, y]), op2) == s4 by {
      OverWeakerStep(["("], [x, y], op2, op1);
      assert ["("] + [op1] == ["(", op1] && ["("] + [op1, op2] == ["(", op1, op2];
    }
    OperandStep(s4, z);
    ShuntFive(x, op1, y, op2, z, s4, s5);
    OperatorPlain(op1);
    OperatorPlain(op2);
    ShuntingYardOfPlain([x, op1, y, op2, z], s5);
    PopTwo(op1, op2, [x, y, z]);
  }

  /** `)` over one stacked operator pops it. */
  lemma PopOne(op: string, out: seq<string>)
    requires IsOperator(op)
    ensures PopToOpen(Shunt(["(", op], out)).out == out + [op]
  {
    OperatorNotParen(op);
    assert ["(", op][..1] == ["("];
  }

  /** `)` over two stacked operators pops both, the top one first. */
  lemma PopTwo(op1: string, op2: string, out: seq<string>)
    requires IsOperator(op1) && IsOperator(op2)
    ensures PopToOpen(Shunt(["(", op1, op2], out)).out == out + [op2, op1]
  {
    OperatorNotParen(op1);
    OperatorNotParen(op2);
    var st := Shunt(["(", op1, op2], out);
    assert st.stack[..2] == ["(", op1];
    assert PopToOpen(st) == PopToOpen(Shunt(["(", op1], out + [op2]));
    assert ["(", op1][..1] == ["("];
    assert PopToOpen(Shunt(["(", op1], out + [op2])) == PopToOpen(Shunt(["("], out + [op2] + [op1]));
    assert out + [op2] + [op1] == out + [op2, op1];
  }
}
