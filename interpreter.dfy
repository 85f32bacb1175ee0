/** The expression evaluator of the calculator's command interpreter
    (main.cpp): the table of named matrices, the operand lookup, one binary
    operation of the postfix evaluator (`doOp`), the evaluator itself
    (`evaluate`) and the `name = ...` assignment (`equalExpression`). */
module Interpreter {
  import opened MatrixValues
  import opened Tokens
  import opened ListLiteral
  import MatrixEngine

  datatype Option<T> = None | Some(value: T)

  /** `g_matrices`: the named matrices. */
  type Table = map<string, Mat>

  predicate TableWf(t: Table)
  {
    forall n :: n in t ==> Wf(t[n])
  }

  // ---------------------------------------------------------------------
  // Names

  /** `name.substr(0, 2) == "__"`: the prefix of the evaluator's own names. */
  predicate Reserved(name: string)
  {
    |name| >= 2 && name[..2] == "__"
  }

  /** `s.find(w) != std::string::npos`. */
  predicate Contains(s: string, w: string)
    decreases |s|
  {
    |w| <= |s| && (s[..|w|] == w || (|s| > 0 && Contains(s[1..], w)))
  }

  /** The names `doOp` gives its results: `"__result"` and a number. */
  predicate IsResultName(name: string)
  {
    |name| >= 8 && name[..8] == "__result"
  }

  /** `foundMatrix`: the name is in the table, and it either does not start
      with `__` or contains `result`. */
  function FoundMatrix(t: Table, name: string): bool
  {
    (!Reserved(name) || Contains(name, "result")) && name in t
  }

  /** A user's names are found exactly when they are defined, and so are the
      result names; the error marker never is. */
  lemma FoundMatrixNames(t: Table, name: string)
    ensures !Reserved(name) ==> (FoundMatrix(t, name) <==> name in t)
    ensures IsResultName(name) ==> Reserved(name) && (FoundMatrix(t, name) <==> name in t)
    ensures !FoundMatrix(t, "__error")
  {
    if IsResultName(name) {
      assert name[..2] == name[..8][..2];
      assert name[2..][..6] == name[..8][2..] == "result";
      assert Contains(name[1..][1..], "result") by {
        assert name[1..][1..] == name[2..];
      }
      assert Contains(name[1..], "result");
      assert Contains(name, "result");
    }
    var e := "__error";
    assert e[1..][1..] == "error";
    assert !Contains(e[1..][1..], "result");
    assert e[1..][..6] != "result" by {
      assert e[1..][..6][0] == '_';
    }
    assert e[..6] != "result" by {
      assert e[..6][0] == '_';
    }
  }

  // ---------------------------------------------------------------------
  // Operands and one operation

  /** An operand of `doOp`: a matrix, the text of a number, or neither. */
  datatype Operand = MatOperand(m: Mat) | NumOperand(text: string) | BadOperand

  predicate OperandWf(x: Operand)
  {
    x.MatOperand? ==> Wf(x.m)
  }

  /** `a[0] == '-' && a.size() > 1 && foundMatrix(a.substr(1))`: a minus
      sign before a matrix name. */
  predicate NegatesMatrix(t: Table, a: string)
  {
    |a| > 1 && a[0] == '-' && FoundMatrix(t, a[1..])
  }

  /** The lookup `doOp` makes: a found matrix, otherwise a number. */
  function Classify(t: Table, a: string): (x: Operand)
    requires TableWf(t)
    ensures OperandWf(x)
    ensures x.MatOperand? <==> FoundMatrix(t, a)
    ensures x.NumOperand? <==> !FoundMatrix(t, a) && NumberShaped(a)
  {
    if FoundMatrix(t, a) then MatOperand(t[a]) else if NumberShaped(a) then NumOperand(a) else BadOperand
  }

  /** What an operand token stands for: a matrix name with a minus sign
      stands for that matrix negated. */
  function OperandOf(t: Table, a: string): (x: Operand)
    requires TableWf(t)
    ensures OperandWf(x)
    ensures NegatesMatrix(t, a) ==> x == MatOperand(Negate(t[a[1..]]))
    ensures !NegatesMatrix(t, a) ==> x == Classify(t, a)
  {
    if NegatesMatrix(t, a) then MatOperand(Negate(t[a[1..]])) else Classify(t, a)
  }

  /** The `^` operator is declared in no file of this model: it is taken as
      a parameter that maps well-formed matrices to well-formed matrices. */
  ghost predicate PowerWf(power: (Mat, nat) -> Mat)
  {
    forall m: Mat, k: nat :: Wf(m) ==> Wf(power(m, k))
  }

  /** The operations `doOp` knows: matrix `+ - *` matrix, matrix `* ^`
      number and number `*` matrix; anything else is an error. `stod` and
      `stoul` are the standard conversions, taken as parameters. */
  function Apply(op: char, x: Operand, y: Operand, stod: string -> real, stoul: string -> nat,
                 power: (Mat, nat) -> Mat): (r: Option<Mat>)
    requires OperandWf(x) && OperandWf(y) && PowerWf(power)
    ensures r.Some? ==> Wf(r.value)
    ensures r.Some? <==>
              (x.MatOperand? && y.MatOperand? && (op == '+' || op == '-' || op == '*')) ||
              (x.MatOperand? && y.NumOperand? && (op == '*' || op == '^')) ||
              (x.NumOperand? && y.MatOperand? && op == '*')
    ensures x.MatOperand? && y.MatOperand? && op == '+' ==> r == Some(Plus(x.m, y.m))
    ensures x.MatOperand? && y.MatOperand? && op == '-' ==> r == Some(Minus(x.m, y.m))
    ensures x.MatOperand? && y.MatOperand? && op == '*' ==> r == Some(Product(x.m, y.m))
    ensures x.MatOperand? && y.NumOperand? && op == '*' ==> r == Some(ScaleAll(x.m, stod(y.text)))
    ensures x.NumOperand? && y.MatOperand? && op == '*' ==> r == Some(ScaleAll(y.m, stod(x.text)))
  {
    match (x, y)
    case (MatOperand(p), MatOperand(q)) =>
      if op == '+' then Some(Plus(p, q))
      else if op == '-' then Some(Minus(p, q))
      else if op == '*' then Some(Product(p, q))
      else None
    case (MatOperand(p), NumOperand(s)) =>
      if op == '*' then Some(ScaleAll(p, stod(s)))
      else if op == '^' then Some(power(p, stoul(s)))
      else None
    case (NumOperand(s), MatOperand(q)) =>
      if op == '*' then Some(ScaleAll(q, stod(s))) else None
    case _ => None
  }

  /** One operation with both operand values taken from the table as it
      stands: the result is stored under resName and pushed, or the stack
      becomes the error marker and the table is left alone. */
  function Operation(t: Table, eval: seq<string>, a: string, b: string, op: char, resName: string,
                     stod: string -> real, stoul: string -> nat, power: (Mat, nat) -> Mat): (r: (Table, seq<string>))
    requires TableWf(t) && PowerWf(power)
    ensures TableWf(r.0)
    ensures r.1 == ["__error"] || (r.1 == eval + [resName] && resName in r.0)
    ensures forall n :: n != resName ==> (n in r.0 <==> n in t) && (n in t ==> r.0[n] == t[n])
  {
    StoreResult(t, eval, Apply(op, OperandOf(t, a), OperandOf(t, b), stod, stoul, power), resName)
  }

  /** A result is stored under resName and its name pushed; a failed
      operation replaces the stack by the error marker. */
  function StoreResult(t: Table, eval: seq<string>, res: Option<Mat>, resName: string): (r: (Table, seq<string>))
    requires TableWf(t) && (res.Some? ==> Wf(res.value))
    ensures TableWf(r.0)
    ensures res.None? ==> r == (t, ["__error"])
    ensures res.Some? ==> r.1 == eval + [resName] && resName in r.0 && r.0[resName] == res.value
    ensures forall n :: n != resName ==> (n in r.0 <==> n in t) && (n in t ==> r.0[n] == t[n])
  {
    if res.Some? then (t[resName := res.value], eval + [resName]) else (t, ["__error"])
  }

  /** `doOp` as written: a negated operand is negated in the table itself,
      the operation reads the table, and the negations are undone at the
      end. When both operands name the same matrix, the second lookup sees
      the first negation. */
  function AsWritten(t: Table, eval: seq<string>, a: string, b: string, op: char, resName: string,
                     stod: string -> real, stoul: string -> nat, power: (Mat, nat) -> Mat): (r: (Table, seq<string>))
    requires TableWf(t) && PowerWf(power)
    ensures TableWf(r.0)
    ensures r.1 == ["__error"] || (r.1 == eval + [resName] && resName in r.0)
    ensures forall n :: n != resName ==> (n in r.0 <==> n in t)
  {
    var na := NegateEntry(t, a);
    var nb := NegateEntry(na.0, b);
    var t2 := nb.0;
    var st := StoreResult(t2, eval, Apply(op, Classify(t2, na.1), Classify(t2, nb.1), stod, stoul, power), resName);
    (Unnegate(Unnegate(st.0, na.1, na.2), nb.1, nb.2), st.1)
  }

  /** Every entry but the result's is negated an even number of times by
      `doOp` as written, however the operands alias: only the result entry
      can differ from the table before the operation. */
  lemma AsWrittenFrame(t: Table, eval: seq<string>, a: string, b: string, op: char, resName: string,
                       stod: string -> real, stoul: string -> nat, power: (Mat, nat) -> Mat)
    requires TableWf(t) && PowerWf(power)
    ensures var r := AsWritten(t, eval, a, b, op, resName, stod, stoul, power);
            forall n :: n in t && n != resName ==> n in r.0 && r.0[n] == t[n]
  {
    var na := NegateEntry(t, a);
    var nb := NegateEntry(na.0, b);
    var t2 := nb.0;
    var st := StoreResult(t2, eval, Apply(op, Classify(t2, na.1), Classify(t2, nb.1), stod, stoul, power), resName);
    var t4 := Unnegate(st.0, na.1, na.2);
    var t5 := Unnegate(t4, nb.1, nb.2);
    forall n | n in t && n != resName
      ensures n in t5 && t5[n] == t[n]
    {
      NegateTwice(t[n]);
      var ca := na.2 && na.1 == n;
      var cb := nb.2 && nb.1 == n;
      assert na.0[n] == if ca then Negate(t[n]) else t[n];
      assert t2[n] == if cb then Negate(na.0[n]) else na.0[n];
      assert st.0[n] == t2[n];
      assert t4[n] == if ca then Negate(t2[n]) else t2[n];
      assert t5[n] == if cb then Negate(t4[n]) else t4[n];
    }
  }

  /** `g_matrices[a] = -g_matrices[a]` for an operand `-a` naming a matrix:
      the table, the name without its sign, and whether it was negated. */
  function NegateEntry(t: Table, a: string): (r: (Table, string, bool))
    requires TableWf(t)
    ensures TableWf(r.0) && r.0.Keys == t.Keys
    ensures r.2 == NegatesMatrix(t, a) && (r.2 ==> r.1 in t)
  {
    if NegatesMatrix(t, a) then (t[a[1..] := Negate(t[a[1..]])], a[1..], true) else (t, a, false)
  }

  /** The negation undone at the end of `doOp`. */
  function Unnegate(t: Table, a: string, negated: bool): (r: Table)
    requires TableWf(t) && (negated ==> a in t)
    ensures TableWf(r) && r.Keys == t.Keys
  {
    if negated then t[a := Negate(t[a])] else t
  }

  /** The name an operand token refers to in the table. */
  function Stripped(t: Table, a: string): string
  {
    if NegatesMatrix(t, a) then a[1..] else a
  }

  /** The operands do not share a table entry that one of them negates, and
      the result name is neither operand's entry. */
  predicate Unaliased(t: Table, a: string, b: string, resName: string)
  {
    ((NegatesMatrix(t, a) || NegatesMatrix(t, b)) ==> Stripped(t, a) != Stripped(t, b)) &&
    (NegatesMatrix(t, a) ==> resName != a[1..]) &&
    (NegatesMatrix(t, b) ==> resName != b[1..])
  }

  /** Without aliasing, the code as written computes the intended operation
      and undoes its negations exactly. */
  lemma AsWrittenAgrees(t: Table, eval: seq<string>, a: string, b: string, op: char, resName: string,
                        stod: string -> real, stoul: string -> nat, power: (Mat, nat) -> Mat)
    requires TableWf(t) && PowerWf(power) && Unaliased(t, a, b, resName)
    ensures AsWritten(t, eval, a, b, op, resName, stod, stoul, power) ==
            Operation(t, eval, a, b, op, resName, stod, stoul, power)
  {
    var negA := NegatesMatrix(t, a);
    var a' := if negA then a[1..] else a;
    var t1 := if negA then t[a' := Negate(t[a'])] else t;
    var negB := NegatesMatrix(t1, b);
    assert negB == NegatesMatrix(t, b);
    var b' := if negB then b[1..] else b;
    var t2 := if negB then t1[b' := Negate(t1[b'])] else t1;
    assert Classify(t2, a') == OperandOf(t, a);
    assert Classify(t2, b') == OperandOf(t, b);
    var res := Apply(op, OperandOf(t, a), OperandOf(t, b), stod, stoul, power);
    var t3 := if res.Some? then t2[resName := res.value] else t2;
    var t4 := if negA then t3[a' := Negate(t3[a'])] else t3;
    var t5 := if negB then t4[b' := Negate(t4[b'])] else t4;
    if negA {
      NegateTwice(t[a']);
    }
    if negB {
      NegateTwice(t[b']);
    }
    var want := if res.Some? then t[resName := res.value] else t;
    assert t5 == want;
  }

  /** `-A + -A` with A = [1]: the first negation is undone by the second
      before the sum is taken, so the code as written computes A + A = [2]
      where -A + -A = [-2] is meant. */
  lemma AliasedNegationCounterexample()
    ensures var t := map["A" := Mat(1, 1, [1.0])];
            var stod := (s: string) => 0.0;
            var stoul := (s: string) => 0;
            var power := (m: Mat, k: nat) => m;
            AsWritten(t, [], "-A", "-A", '+', "__result0", stod, stoul, power).0["__result0"] == Mat(1, 1, [2.0]) &&
            Operation(t, [], "-A", "-A", '+', "__result0", stod, stoul, power).0["__result0"] == Mat(1, 1, [-2.0])
  {
    var t := map["A" := Mat(1, 1, [1.0])];
    var stod := (s: string) => 0.0;
    var stoul := (s: string) => 0;
    var power := (m: Mat, k: nat) => m;
    var a := "-A";
    assert a[1..] == "A";
    FoundMatrixNames(t, "A");
    assert NegatesMatrix(t, a);
    var m := Mat(1, 1, [1.0]);
    var n := Negate(m);
    assert n.elems == [-1.0];
    assert Negate(n).elems == [1.0];
    assert Negate(n) == m;
    var t2 := t["A" := n]["A" := Negate(n)];
    assert t2["A"] == m;
    assert Plus(m, m).elems == [2.0] by {
      assert At(Plus(m, m), 0, 0) == 2.0;
    }
    assert Plus(n, n).elems == [-2.0] by {
      assert At(Plus(n, n), 0, 0) == -2.0;
    }
  }

  // ---------------------------------------------------------------------
  // The evaluator

  function OperatorCount(ps: seq<string>): nat
  {
    if ps == [] then 0 else (if IsOperator(ps[0]) then 1 else 0) + OperatorCount(ps[1..])
  }

  /** Every operator finds two operands on the stack, and one value is left
      at the end: the stack `evaluate` reads from is never empty. */
  predicate StackSafe(ps: seq<string>, depth: nat)
  {
    if ps == [] then depth >= 1
    else if IsOperator(ps[0]) then depth >= 2 && StackSafe(ps[1..], depth - 1)
    else StackSafe(ps[1..], depth + 1)
  }

  predicate AllResultNames(names: seq<string>)
  {
    forall k :: 0 <= k < |names| ==> IsResultName(names[k])
  }

  /** `g_matrices[eval.top()]`: a missing name is inserted as the empty matrix. */
  function Finish(t: Table, top: string): (r: (Table, Mat))
    requires TableWf(t)
    ensures TableWf(r.0) && Wf(r.1)
    ensures top in r.0 && r.0[top] == r.1 && r.0.Keys == t.Keys + {top}
    ensures forall n :: n in t ==> r.0[n] == t[n]
    ensures top !in t ==> r.1 == Empty
  {
    if top in t then (t, t[top]) else (t[top := Empty], Empty)
  }

  /** The evaluation loop over the rest ps of the postfix expression, from
      the table t and the stack; the k-th operation stores its result under
      names[k] (the random names of `doOp`). */
  function Run(t: Table, stack: seq<string>, ps: seq<string>, names: seq<string>,
               stod: string -> real, stoul: string -> nat, power: (Mat, nat) -> Mat): (r: (Table, Mat))
    requires TableWf(t) && PowerWf(power) && StackSafe(ps, |stack|)
    requires AllResultNames(names) && OperatorCount(ps) <= |names|
    ensures TableWf(r.0) && Wf(r.1)
    decreases |ps|
  {
    if ps == [] then Finish(t, stack[|stack| - 1])
    else if !IsOperator(ps[0]) then
      if ps[0] == "__error" then (t, Empty)
      else Run(t, stack + [ps[0]], ps[1..], names, stod, stoul, power)
    else
      var o := Operation(t, stack[..|stack| - 2], stack[|stack| - 2], stack[|stack| - 1], ps[0][0], names[0], stod, stoul, power);
      if o.1 == ["__error"] then (o.0, Empty)
      else Run(o.0, o.1, ps[1..], names[1..], stod, stoul, power)
  }

  /** The evaluation loop as written: every operator step is `doOp` as
      written, negating through the table. */
  function RunAsWritten(t: Table, stack: seq<string>, ps: seq<string>, names: seq<string>,
                        stod: string -> real, stoul: string -> nat, power: (Mat, nat) -> Mat): (r: (Table, Mat))
    requires TableWf(t) && PowerWf(power) && StackSafe(ps, |stack|)
    requires AllResultNames(names) && OperatorCount(ps) <= |names|
    ensures TableWf(r.0) && Wf(r.1)
    decreases |ps|
  {
    if ps == [] then Finish(t, stack[|stack| - 1])
    else if !IsOperator(ps[0]) then
      if ps[0] == "__error" then (t, Empty)
      else RunAsWritten(t, stack + [ps[0]], ps[1..], names, stod, stoul, power)
    else
      var o := AsWritten(t, stack[..|stack| - 2], stack[|stack| - 2], stack[|stack| - 1], ps[0][0], names[0], stod, stoul, power);
      if o.1 == ["__error"] then (o.0, Empty)
      else RunAsWritten(o.0, o.1, ps[1..], names[1..], stod, stoul, power)
  }

  /** No operator step of the run negates an operand whose matrix is the
      other operand's or the result's (Unaliased at every step). */
  predicate RunUnaliased(t: Table, stack: seq<string>, ps: seq<string>, names: seq<string>,
                         stod: string -> real, stoul: string -> nat, power: (Mat, nat) -> Mat)
    requires TableWf(t) && PowerWf(power) && StackSafe(ps, |stack|)
    requires AllResultNames(names) && OperatorCount(ps) <= |names|
    decreases |ps|
  {
    if ps == [] then true
    else if !IsOperator(ps[0]) then
      ps[0] == "__error" || RunUnaliased(t, stack + [ps[0]], ps[1..], names, stod, stoul, power)
    else
      Unaliased(t, stack[|stack| - 2], stack[|stack| - 1], names[0]) &&
      var o := Operation(t, stack[..|stack| - 2], stack[|stack| - 2], stack[|stack| - 1], ps[0][0], names[0], stod, stoul, power);
      o.1 == ["__error"] || RunUnaliased(o.0, o.1, ps[1..], names[1..], stod, stoul, power)
  }

  /** Without aliasing anywhere along the run, the loop as written computes
      the intended table and result. */
  lemma {:induction false} RunAsWrittenAgrees(t: Table, stack: seq<string>, ps: seq<string>, names: seq<string>,
                                              stod: string -> real, stoul: string -> nat, power: (Mat, nat) -> Mat)
    requires TableWf(t) && PowerWf(power) && StackSafe(ps, |stack|)
    requires AllResultNames(names) && OperatorCount(ps) <= |names|
    requires RunUnaliased(t, stack, ps, names, stod, stoul, power)
    ensures RunAsWritten(t, stack, ps, names, stod, stoul, power) == Run(t, stack, ps, names, stod, stoul, power)
    decreases |ps|
  {
    if ps != [] {
      if !IsOperator(ps[0]) {
        if ps[0] != "__error" {
          RunAsWrittenAgrees(t, stack + [ps[0]], ps[1..], names, stod, stoul, power);
        }
      } else {
        AsWrittenAgrees(t, stack[..|stack| - 2], stack[|stack| - 2], stack[|stack| - 1], ps[0][0], names[0], stod, stoul, power);
        var o := Operation(t, stack[..|stack| - 2], stack[|stack| - 2], stack[|stack| - 1], ps[0][0], names[0], stod, stoul, power);
        if o.1 != ["__error"] {
          RunAsWrittenAgrees(o.0, o.1, ps[1..], names[1..], stod, stoul, power);
        }
      }
    }
  }

  /** Even with aliasing, the loop as written removes and changes no matrix
      the user named. */
  lemma {:induction false} RunAsWrittenKeepsUserMatrices(t: Table, stack: seq<string>, ps: seq<string>, names: seq<string>,
                                                          stod: string -> real, stoul: string -> nat, power: (Mat, nat) -> Mat)
    requires TableWf(t) && PowerWf(power) && StackSafe(ps, |stack|)
    requires AllResultNames(names) && OperatorCount(ps) <= |names|
    ensures forall n :: n in t ==> n in RunAsWritten(t, stack, ps, names, stod, stoul, power).0
    ensures forall n :: n in t && !Reserved(n) ==> RunAsWritten(t, stack, ps, names, stod, stoul, power).0[n] == t[n]
    decreases |ps|
  {
    if ps != [] {
      if !IsOperator(ps[0]) {
        if ps[0] != "__error" {
          RunAsWrittenKeepsUserMatrices(t, stack + [ps[0]], ps[1..], names, stod, stoul, power);
        }
      } else {
        AsWrittenFrame(t, stack[..|stack| - 2], stack[|stack| - 2], stack[|stack| - 1], ps[0][0], names[0], stod, stoul, power);
        var o := AsWritten(t, stack[..|stack| - 2], stack[|stack| - 2], stack[|stack| - 1], ps[0][0], names[0], stod, stoul, power);
        FoundMatrixNames(t, names[0]);
        if o.1 != ["__error"] {
          RunAsWrittenKeepsUserMatrices(o.0, o.1, ps[1..], names[1..], stod, stoul, power);
        }
      }
    }
  }

  /** `evaluate`'s special case: a single token `-X` with X a matrix. */
  predicate LoneNegation(t: Table, tokens: seq<string>)
  {
    |tokens| == 1 && |tokens[0]| > 0 && tokens[0][0] == '-' && FoundMatrix(t, tokens[0][1..])
  }

  /** What `evaluate` needs to stay defined: toPostfix never reads an empty
      operator stack, the evaluation stack never does, and there is a result
      name for every operation. */
  ghost predicate EvaluateDefined(t: Table, tokens: seq<string>, names: seq<string>)
    requires NonEmptyTokens(tokens)
  {
    LoneNegation(t, tokens) ||
    (ConversionDefined(tokens) && StackSafe(ShuntingYard(tokens), 0) &&
     OperatorCount(ShuntingYard(tokens)) <= |names|)
  }

  /** The table and the matrix `evaluate` leaves and returns. */
  ghost function EvaluateSpec(t: Table, tokens: seq<string>, names: seq<string>,
                              stod: string -> real, stoul: string -> nat, power: (Mat, nat) -> Mat): (r: (Table, Mat))
    requires TableWf(t) && PowerWf(power) && NonEmptyTokens(tokens) && AllResultNames(names)
    requires EvaluateDefined(t, tokens, names)
    ensures TableWf(r.0) && Wf(r.1)
  {
    if LoneNegation(t, tokens) then (t, Negate(t[tokens[0][1..]]))
    else Run(t, [], ShuntingYard(tokens), names, stod, stoul, power)
  }

  /** The table and the matrix `evaluate` as written leaves and returns. */
  ghost function EvaluateAsWritten(t: Table, tokens: seq<string>, names: seq<string>,
                                   stod: string -> real, stoul: string -> nat, power: (Mat, nat) -> Mat): (r: (Table, Mat))
    requires TableWf(t) && PowerWf(power) && NonEmptyTokens(tokens) && AllResultNames(names)
    requires EvaluateDefined(t, tokens, names)
    ensures TableWf(r.0) && Wf(r.1)
  {
    if LoneNegation(t, tokens) then (t, Negate(t[tokens[0][1..]]))
    else RunAsWritten(t, [], ShuntingYard(tokens), names, stod, stoul, power)
  }

  /** No step of evaluating the tokens aliases a negated operand. */
  ghost predicate EvaluateUnaliased(t: Table, tokens: seq<string>, names: seq<string>,
                                    stod: string -> real, stoul: string -> nat, power: (Mat, nat) -> Mat)
    requires TableWf(t) && PowerWf(power) && NonEmptyTokens(tokens) && AllResultNames(names)
    requires EvaluateDefined(t, tokens, names)
  {
    LoneNegation(t, tokens) || RunUnaliased(t, [], ShuntingYard(tokens), names, stod, stoul, power)
  }

  /** Without aliasing, `evaluate` as written agrees with EvaluateSpec. */
  lemma EvaluateAsWrittenAgrees(t: Table, tokens: seq<string>, names: seq<string>,
                                stod: string -> real, stoul: string -> nat, power: (Mat, nat) -> Mat)
    requires TableWf(t) && PowerWf(power) && NonEmptyTokens(tokens) && AllResultNames(names)
    requires EvaluateDefined(t, tokens, names) && EvaluateUnaliased(t, tokens, names, stod, stoul, power)
    ensures EvaluateAsWritten(t, tokens, names, stod, stoul, power) == EvaluateSpec(t, tokens, names, stod, stoul, power)
  {
    if !LoneNegation(t, tokens) {
      RunAsWrittenAgrees(t, [], ShuntingYard(tokens), names, stod, stoul, power);
    }
  }

  /** `evaluate` as written leaves every user-named matrix in place. */
  lemma EvaluateAsWrittenKeepsUserMatrices(t: Table, tokens: seq<string>, names: seq<string>,
                                           stod: string -> real, stoul: string -> nat, power: (Mat, nat) -> Mat)
    requires TableWf(t) && PowerWf(power) && NonEmptyTokens(tokens) && AllResultNames(names)
    requires EvaluateDefined(t, tokens, names)
    ensures forall n :: n in t ==> n in EvaluateAsWritten(t, tokens, names, stod, stoul, power).0
    ensures forall n :: n in t && !Reserved(n) ==> EvaluateAsWritten(t, tokens, names, stod, stoul, power).0[n] == t[n]
  {
    if !LoneNegation(t, tokens) {
      RunAsWrittenKeepsUserMatrices(t, [], ShuntingYard(tokens), names, stod, stoul, power);
    }
  }

  /** `doOp` as written on `-A + A` with A = [1]: A is negated in the table
      before either lookup, so the sum stored is (-A) + (-A) = [-2]. */
  lemma NegatedSumAsWritten(stod: string -> real, stoul: string -> nat, power: (Mat, nat) -> Mat)
    requires PowerWf(power)
    ensures var w := AsWritten(map["A" := Mat(1, 1, [1.0])], [], "-A", "A", '+', "__result0", stod, stoul, power);
            w.1 == ["__result0"] && "__result0" in w.0 && w.0["__result0"] == Mat(1, 1, [-2.0])
  {
    var t := map["A" := Mat(1, 1, [1.0])];
    var x, y, name := "-A", "A", "__result0";
    assert x[1..] == y;
    FoundMatrixNames(t, y);
    assert NegatesMatrix(t, x);
    var n := Negate(t[y]);
    assert n.elems == [-1.0];
    var t1 := t[y := n];
    FoundMatrixNames(t1, y);
    assert !NegatesMatrix(t1, y);
    assert Classify(t1, y) == MatOperand(n);
    var sum := Plus(n, n);
    assert sum.elems == [-2.0] by {
      assert At(sum, 0, 0) == -2.0;
    }
    assert Apply('+', Classify(t1, y), Classify(t1, y), stod, stoul, power) == Some(sum);
  }

  /** The intended operation on `-A + A` with A = [1] stores [0]. */
  lemma NegatedSumIntended(stod: string -> real, stoul: string -> nat, power: (Mat, nat) -> Mat)
    requires PowerWf(power)
    ensures var o := Operation(map["A" := Mat(1, 1, [1.0])], [], "-A", "A", '+', "__result0", stod, stoul, power);
            o.1 == ["__result0"] && "__result0" in o.0 && o.0["__result0"] == Mat(1, 1, [0.0])
  {
    var t := map["A" := Mat(1, 1, [1.0])];
    var x, y := "-A", "A";
    assert x[1..] == y;
    FoundMatrixNames(t, y);
    assert NegatesMatrix(t, x) && !NegatesMatrix(t, y);
    var m := t[y];
    var n := Negate(m);
    assert n.elems == [-1.0];
    var zero := Plus(n, m);
    assert zero.elems == [0.0] by {
      assert At(zero, 0, 0) == 0.0;
    }
    assert OperandOf(t, x) == MatOperand(n) && OperandOf(t, y) == MatOperand(m);
  }

  /** The postfix `-A A +` run as written from A = [1] ends with [-2]. */
  lemma RunNegatedSumAsWritten(stod: string -> real, stoul: string -> nat, power: (Mat, nat) -> Mat)
    requires PowerWf(power)
    ensures StackSafe(["-A", "A", "+"], 0) && AllResultNames(["__result0"]) && OperatorCount(["-A", "A", "+"]) <= 1
    ensures RunAsWritten(map["A" := Mat(1, 1, [1.0])], [], ["-A", "A", "+"], ["__result0"], stod, stoul, power).1 == Mat(1, 1, [-2.0])
  {
    var t := map["A" := Mat(1, 1, [1.0])];
    var x, y, name := "-A", "A", "__result0";
    var names := [name];
    SumDefined(t, x, y, name);
    var ps := [x, y, "+"];
    assert ps[1..] == [y, "+"] && ps[1..][1..] == ["+"] && ps[1..][1..][1..] == [];
    assert [] + [x] + [y] == [x, y];
    RunAsWrittenStep(t, [], ps, names, stod, stoul, power);
    RunAsWrittenStep(t, [x], ps[1..], names, stod, stoul, power);
    RunAsWrittenStep(t, [x, y], ps[1..][1..], names, stod, stoul, power);
    NegatedSumAsWritten(stod, stoul, power);
  }

  /** The postfix `-A A +` run as intended from A = [1] ends with [0]. */
  lemma RunNegatedSumIntended(stod: string -> real, stoul: string -> nat, power: (Mat, nat) -> Mat)
    requires PowerWf(power)
    ensures StackSafe(["-A", "A", "+"], 0) && AllResultNames(["__result0"]) && OperatorCount(["-A", "A", "+"]) <= 1
    ensures Run(map["A" := Mat(1, 1, [1.0])], [], ["-A", "A", "+"], ["__result0"], stod, stoul, power).1 == Mat(1, 1, [0.0])
  {
    var t := map["A" := Mat(1, 1, [1.0])];
    var x, y, name := "-A", "A", "__result0";
    var names := [name];
    SumDefined(t, x, y, name);
    var ps := [x, y, "+"];
    assert ps[1..] == [y, "+"] && ps[1..][1..] == ["+"] && ps[1..][1..][1..] == [];
    assert [] + [x] + [y] == [x, y];
    RunOperand(t, [], ps, names, stod, stoul, power);
    RunOperand(t, [x], ps[1..], names, stod, stoul, power);
    RunOperator(t, [x, y], ps[1..][1..], names, stod, stoul, power);
    NegatedSumIntended(stod, stoul, power);
  }

  /** `-A + A` with A = [1]: `evaluate` as written returns [-2], because the
      negation of A is still in the table when the second operand is read,
      where -A + A = [0] is meant. */
  lemma AliasedEvaluateCounterexample(stod: string -> real, stoul: string -> nat, power: (Mat, nat) -> Mat)
    requires PowerWf(power)
    ensures var t := map["A" := Mat(1, 1, [1.0])];
            var tokens := ["-A", "+", "A"];
            var names := ["__result0"];
            NonEmptyTokens(tokens) && AllResultNames(names) && EvaluateDefined(t, tokens, names) &&
            EvaluateAsWritten(t, tokens, names, stod, stoul, power).1 == Mat(1, 1, [-2.0]) &&
            EvaluateSpec(t, tokens, names, stod, stoul, power).1 == Mat(1, 1, [0.0])
  {
    var t := map["A" := Mat(1, 1, [1.0])];
    var tokens := ["-A", "+", "A"];
    var name := "__result0";
    SumDefined(t, "-A", "A", name);
    assert !LoneNegation(t, tokens);
    RunNegatedSumAsWritten(stod, stoul, power);
    RunNegatedSumIntended(stod, stoul, power);
  }

  /** One step of the loop as written: an operand is pushed, an operator
      applies `doOp` as written to the top two stack entries. */
  lemma RunAsWrittenStep(t: Table, stack: seq<string>, ps: seq<string>, names: seq<string>,
                         stod: string -> real, stoul: string -> nat, power: (Mat, nat) -> Mat)
    requires TableWf(t) && PowerWf(power) && StackSafe(ps, |stack|)
    requires AllResultNames(names) && OperatorCount(ps) <= |names|
    requires ps != [] && (IsOperator(ps[0]) || ps[0] != "__error")
    ensures !IsOperator(ps[0]) ==>
              StackSafe(ps[1..], |stack + [ps[0]]|) && OperatorCount(ps[1..]) <= |names| &&
              RunAsWritten(t, stack, ps, names, stod, stoul, power) == RunAsWritten(t, stack + [ps[0]], ps[1..], names, stod, stoul, power)
    ensures IsOperator(ps[0]) ==> |stack| >= 2 && |names| > 0 && IsResultName(names[0])
    ensures IsOperator(ps[0]) ==>
              var o := AsWritten(t, stack[..|stack| - 2], stack[|stack| - 2], stack[|stack| - 1], ps[0][0], names[0], stod, stoul, power);
              (o.1 == ["__error"] ==> RunAsWritten(t, stack, ps, names, stod, stoul, power) == (o.0, Empty)) &&
              (o.1 != ["__error"] ==>
                 o.1 == stack[..|stack| - 2] + [names[0]] &&
                 StackSafe(ps[1..], |o.1|) && OperatorCount(ps[1..]) <= |names[1..]| && AllResultNames(names[1..]) &&
                 RunAsWritten(t, stack, ps, names, stod, stoul, power) == RunAsWritten(o.0, o.1, ps[1..], names[1..], stod, stoul, power))
  {
  }

  /** An operand token is pushed. */
  lemma RunOperand(t: Table, stack: seq<string>, ps: seq<string>, names: seq<string>,
                   stod: string -> real, stoul: string -> nat, power: (Mat, nat) -> Mat)
    requires TableWf(t) && PowerWf(power) && StackSafe(ps, |stack|)
    requires AllResultNames(names) && OperatorCount(ps) <= |names|
    requires ps != [] && !IsOperator(ps[0]) && ps[0] != "__error"
    ensures StackSafe(ps[1..], |stack + [ps[0]]|) && OperatorCount(ps[1..]) <= |names|
    ensures Run(t, stack, ps, names, stod, stoul, power) == Run(t, stack + [ps[0]], ps[1..], names, stod, stoul, power)
  {
  }

  /** An operator token applies the operation to the top two stack entries. */
  lemma RunOperator(t: Table, stack: seq<string>, ps: seq<string>, names: seq<string>,
                    stod: string -> real, stoul: string -> nat, power: (Mat, nat) -> Mat)
    requires TableWf(t) && PowerWf(power) && StackSafe(ps, |stack|)
    requires AllResultNames(names) && OperatorCount(ps) <= |names|
    requires ps != [] && IsOperator(ps[0])
    ensures |stack| >= 2 && |names| > 0 && IsResultName(names[0])
    ensures var o := Operation(t, stack[..|stack| - 2], stack[|stack| - 2], stack[|stack| - 1], ps[0][0], names[0], stod, stoul, power);
            (o.1 == ["__error"] ==> Run(t, stack, ps, names, stod, stoul, power) == (o.0, Empty)) &&
            (o.1 != ["__error"] ==>
               o.1 == stack[..|stack| - 2] + [names[0]] &&
               StackSafe(ps[1..], |o.1|) && OperatorCount(ps[1..]) <= |names[1..]| && AllResultNames(names[1..]) &&
               Run(t, stack, ps, names, stod, stoul, power) == Run(o.0, o.1, ps[1..], names[1..], stod, stoul, power))
  {
  }

  /** Evaluation only ever adds or overwrites reserved names, and adds the
      final name when it is missing: every matrix the user defined keeps its
      value. */
  lemma {:induction false} RunKeepsUserMatrices(t: Table, stack: seq<string>, ps: seq<string>, names: seq<string>,
                                                 stod: string -> real, stoul: string -> nat, power: (Mat, nat) -> Mat)
    requires TableWf(t) && PowerWf(power) && StackSafe(ps, |stack|)
    requires AllResultNames(names) && OperatorCount(ps) <= |names|
    ensures forall n :: n in t ==> n in Run(t, stack, ps, names, stod, stoul, power).0
    ensures forall n :: n in t && !Reserved(n) ==> Run(t, stack, ps, names, stod, stoul, power).0[n] == t[n]
    decreases |ps|
  {
    if ps != [] {
      if !IsOperator(ps[0]) {
        if ps[0] != "__error" {
          RunKeepsUserMatrices(t, stack + [ps[0]], ps[1..], names, stod, stoul, power);
        }
      } else {
        var o := Operation(t, stack[..|stack| - 2], stack[|stack| - 2], stack[|stack| - 1], ps[0][0], names[0], stod, stoul, power);
        FoundMatrixNames(t, names[0]);
        if o.1 != ["__error"] {
          RunKeepsUserMatrices(o.0, o.1, ps[1..], names[1..], stod, stoul, power);
        }
      }
    }
  }

  lemma EvaluateKeepsUserMatrices(t: Table, tokens: seq<string>, names: seq<string>,
                                  stod: string -> real, stoul: string -> nat, power: (Mat, nat) -> Mat)
    requires TableWf(t) && PowerWf(power) && NonEmptyTokens(tokens) && AllResultNames(names)
    requires EvaluateDefined(t, tokens, names)
    ensures forall n :: n in t ==> n in EvaluateSpec(t, tokens, names, stod, stoul, power).0
    ensures forall n :: n in t && !Reserved(n) ==> EvaluateSpec(t, tokens, names, stod, stoul, power).0[n] == t[n]
  {
    if !LoneNegation(t, tokens) {
      RunKeepsUserMatrices(t, [], ShuntingYard(tokens), names, stod, stoul, power);
    }
  }

  /** `A + B` is defined: it has no parentheses and its postfix form is
      `A B +`. */
  lemma SumDefined(t: Table, x: string, y: string, name: string)
    requires PlainOperand(x) && PlainOperand(y)
    ensures NonEmptyTokens([x, "+", y])
    ensures ShuntingYard([x, "+", y]) == [x, y, "+"]
    ensures EvaluateDefined(t, [x, "+", y], [name])
  {
    var ts := [x, "+", y];
    assert IsOperator("+");
    BinaryPostfix(x, "+", y);
    assert !LoneNegation(t, ts);
    assert ConversionDefined(ts) by {
      OperatorPlain("+");
      SplitAllPlain(ts);
      assert x != "(" && x != ")" && y != "(" && y != ")";
      NoParensNeverUnderflow(ts);
      NeverUnderflowsDefined(ts);
    }
    var ps := [x, y, "+"];
    assert ps[1..] == [y, "+"] && ps[1..][1..] == ["+"] && ps[1..][1..][1..] == [];
    assert StackSafe(ps[1..][1..], 2) by {
      assert StackSafe(ps[1..][1..][1..], 1);
    }
    assert StackSafe(ps[1..], 1);
    assert StackSafe(ps, 0);
    assert OperatorCount(ps[1..][1..]) == 1 by {
      assert OperatorCount(ps[1..][1..][1..]) == 0;
    }
    assert OperatorCount(ps[1..]) == 1;
    assert OperatorCount(ps) == 1;
  }

  /** `(A )) (B` converts to `A B`, so `evaluate` reads table[B], inserting
      the empty matrix when B is missing, both as written and as intended. */
  lemma EvaluateEarlyClose(t: Table, names: seq<string>,
                           stod: string -> real, stoul: string -> nat, power: (Mat, nat) -> Mat)
    requires TableWf(t) && PowerWf(power) && AllResultNames(names)
    ensures NonEmptyTokens(["(A", "))", "(B"]) && EvaluateDefined(t, ["(A", "))", "(B"], names)
    ensures EvaluateAsWritten(t, ["(A", "))", "(B"], names, stod, stoul, power) == Finish(t, "B")
    ensures EvaluateSpec(t, ["(A", "))", "(B"], names, stod, stoul, power) == Finish(t, "B")
  {
    var tokens := ["(A", "))", "(B"];
    DefinedWithEarlyClose();
    assert !LoneNegation(t, tokens);
    var ps := ["A", "B"];
    assert !IsOperator("A") && !IsOperator("B");
    assert ps[1..] == ["B"] && ps[1..][1..] == [];
    assert StackSafe(ps[1..], 1) by {
      assert StackSafe(ps[1..][1..], 2);
    }
    assert StackSafe(ps, 0);
    assert OperatorCount(ps[1..]) == 0 by {
      assert OperatorCount(ps[1..][1..]) == 0;
    }
    assert OperatorCount(ps) == 0;
    assert [] + ["A"] + ["B"] == ["A", "B"];
  }

  /** `A + B` with both defined gives Plus of the two, stored under the
      first result name. */
  lemma EvaluateSum(t: Table, x: string, y: string, name: string,
                    stod: string -> real, stoul: string -> nat, power: (Mat, nat) -> Mat)
    requires TableWf(t) && PowerWf(power) && IsResultName(name)
    requires PlainOperand(x) && PlainOperand(y) && !Reserved(x) && !Reserved(y) && x in t && y in t
    requires x[0] != '-' && y[0] != '-' && x != "__error" && y != "__error"
    ensures NonEmptyTokens([x, "+", y]) && EvaluateDefined(t, [x, "+", y], [name])
    ensures EvaluateSpec(t, [x, "+", y], [name], stod, stoul, power) == (t[name := Plus(t[x], t[y])], Plus(t[x], t[y]))
  {
    SumDefined(t, x, y, name);
    var ps := [x, y, "+"];
    assert !LoneNegation(t, [x, "+", y]);
    assert ps[1..] == [y, "+"] && ps[1..][1..] == ["+"];
    RunOperand(t, [], ps, [name], stod, stoul, power);
    RunOperand(t, [x], ps[1..], [name], stod, stoul, power);
    assert [] + [x] + [y] == [x, y];
    RunOperator(t, [x, y], ps[1..][1..], [name], stod, stoul, power);
    SumOperation(t, x, y, name, stod, stoul, power);
    assert ps[1..][1..][1..] == [];
  }

  /** The operation of `X + Y` on two user matrices stores their sum. */
  lemma SumOperation(t: Table, x: string, y: string, name: string,
                     stod: string -> real, stoul: string -> nat, power: (Mat, nat) -> Mat)
    requires TableWf(t) && PowerWf(power)
    requires |x| > 0 && |y| > 0 && !Reserved(x) && !Reserved(y) && x in t && y in t
    requires x[0] != '-' && y[0] != '-'
    ensures Operation(t, [], x, y, '+', name, stod, stoul, power) == (t[name := Plus(t[x], t[y])], [name])
  {
    FoundMatrixNames(t, x);
    FoundMatrixNames(t, y);
    assert !NegatesMatrix(t, x) && !NegatesMatrix(t, y);
    assert OperandOf(t, x) == MatOperand(t[x]);
    assert OperandOf(t, y) == MatOperand(t[y]);
    assert [] + [name] == [name];
  }

  /** The `std::getline` loop of `equalExpression`: the pieces of numStr,
      read as numbers or fractions, are written to the elements of a in
      order; the elements after them keep what they held. */
  method ReadPieces(a: MatrixEngine.Matrix, numStr: string, stod: string -> real)
    requires a.Valid() && |Pieces(numStr)| <= a.size
    requires forall k :: 0 <= k < |Pieces(numStr)| ==> CellDefined(Pieces(numStr)[k], stod)
    modifies a.buf
    ensures a.Valid()
    ensures forall q :: 0 <= q < |Pieces(numStr)| ==> a.buf[q] == Cell(Pieces(numStr)[q], stod)
    ensures forall q :: |Pieces(numStr)| <= q < a.buf.Length ==> a.buf[q] == old(a.buf[q])
  {
    ghost var ps := Pieces(numStr);
    var rest := numStr;
    var k := 0;
    while rest != []
      invariant k <= |ps| && Pieces(rest) == ps[k..]
      invariant forall q :: 0 <= q < k ==> a.buf[q] == Cell(ps[q], stod)
      invariant forall q :: k <= q < a.buf.Length ==> a.buf[q] == old(a.buf[q])
      decreases |rest|
    {
      var j := IndexOf(rest, ',');
      var num := rest[..j];
      PiecesFront(rest);
      assert ps[k] == num && ps[k..][1..] == ps[k + 1..];
      a.buf[k] := Cell(num, stod);
      k := k + 1;
      rest := if j == |rest| then [] else rest[j + 1..];
    }
  }

  /** `keyword[0] == '['`: the right-hand side of an assignment is a list
      literal. */
  predicate IsListLiteral(tokens: seq<string>)
  {
    |tokens| >= 3 && |tokens[2]| > 0 && tokens[2][0] == '['
  }

  /** The table after `X = [...]` from the table before, with the missing
      bracket reported for an unbalanced literal. */
  ghost predicate ListOutcome(t0: Table, t: Table, name: string, s: string, stod: string -> real,
                             missing: Option<char>)
    requires ListReadable(s, stod)
  {
    var opens := Count(s, '[');
    var closes := Count(s, ']');
    missing == (if opens < closes then Some('[') else if opens > closes then Some(']') else None) &&
    (missing.Some? ==> t == t0) &&
    (missing.None? ==> name in t && t == t0[name := t[name]] && ListMatrix(t[name], s, stod))
  }

  // ---------------------------------------------------------------------
  // The interpreter's state

  class Session {
    /** `g_matrices`. */
    var matrices: Table

    ghost predicate Valid()
      reads this
    {
      TableWf(matrices)
    }

    constructor ()
      ensures Valid() && matrices == map[]
    {
      matrices := map[];
    }

    /** The tests `foundMatrix(a)` and `isNumber(a)` of `doOp`. */
    method Lookup(a: string) returns (x: Operand)
      requires Valid()
      ensures x == Classify(matrices, a)
    {
      if FoundMatrix(matrices, a) {
        x := MatOperand(matrices[a]);
      } else {
        var number := IsNumber(a);
        x := if number then NumOperand(a) else BadOperand;
      }
    }

    /** `doOp` as written: the negations go through the table. */
    method DoOpAsWritten(eval: seq<string>, a0: string, b0: string, opStr: string, resName: string,
                         stod: string -> real, stoul: string -> nat, power: (Mat, nat) -> Mat)
      returns (eval': seq<string>)
      requires Valid() && |opStr| > 0 && PowerWf(power)
      modifies this
      ensures Valid()
      ensures (matrices, eval') == AsWritten(old(matrices), eval, a0, b0, opStr[0], resName, stod, stoul, power)
    {
      var op := opStr[0];
      var a, negatedA := NegateInPlace(a0);
      var b, negatedB := NegateInPlace(b0);
      var x := Lookup(a);
      var y := Lookup(b);
      var res := Apply(op, x, y, stod, stoul, power);
      eval' := Store(eval, res, resName);
      Restore(a, negatedA);
      Restore(b, negatedB);
    }

    /** `g_matrices[a] = -g_matrices[a]` at the end of `doOp`, for an
        operand that was negated. */
    method Restore(a: string, negated: bool)
      requires Valid() && (negated ==> a in matrices)
      modifies this
      ensures Valid() && matrices == Unnegate(old(matrices), a, negated)
    {
      if negated {
        matrices := matrices[a := Negate(matrices[a])];
      }
    }

    /** `g_matrices[a] = -g_matrices[a]` for an operand `-a` that names a
        matrix: the name without its sign is returned. */
    method NegateInPlace(a0: string) returns (a: string, negated: bool)
      requires Valid()
      modifies this
      ensures Valid()
      ensures (matrices, a, negated) == NegateEntry(old(matrices), a0)
    {
      a, negated := a0, false;
      if |a| > 1 && a[0] == '-' && FoundMatrix(matrices, a[1..]) {
        negated := true;
        a := a[1..];
        matrices := matrices[a := Negate(matrices[a])];
      }
    }

    /** The operand a token stands for, read without changing the table. */
    method OperandValue(a: string) returns (x: Operand)
      requires Valid()
      ensures x == OperandOf(matrices, a)
    {
      if |a| > 1 && a[0] == '-' && FoundMatrix(matrices, a[1..]) {
        x := MatOperand(Negate(matrices[a[1..]]));
      } else {
        x := Lookup(a);
      }
    }

    /** `doOp` with both operand values read before the table changes. */
    method DoOp(eval: seq<string>, a: string, b: string, opStr: string, resName: string,
                stod: string -> real, stoul: string -> nat, power: (Mat, nat) -> Mat)
      returns (eval': seq<string>)
      requires Valid() && |opStr| > 0 && PowerWf(power)
      modifies this
      ensures Valid()
      ensures (matrices, eval') == Operation(old(matrices), eval, a, b, opStr[0], resName, stod, stoul, power)
    {
      var x := OperandValue(a);
      var y := OperandValue(b);
      var res := Apply(opStr[0], x, y, stod, stoul, power);
      eval' := Store(eval, res, resName);
    }

    /** `g_matrices[resName] = ...; eval.push(resName)`, or on an error the
        stack replaced by `__error`. */
    method Store(eval: seq<string>, res: Option<Mat>, resName: string) returns (eval': seq<string>)
      requires Valid() && (res.Some? ==> Wf(res.value))
      modifies this
      ensures Valid()
      ensures (matrices, eval') == StoreResult(old(matrices), eval, res, resName)
    {
      if res.Some? {
        matrices := matrices[resName := res.value];
        eval' := eval + [resName];
      } else {
        eval' := ["__error"];
      }
    }

    /** `equalExpression`: `X = [[...]]` stores the matrix the literal
        stands for, or reports the missing bracket and changes nothing;
        `X = <command>` stores the matrix the command returned, res, unless
        it is the empty matrix. */
    method EqualExpression(tokens: seq<string>, res: Mat, stod: string -> real) returns (missing: Option<char>)
      requires Valid() && |tokens| >= 3 && Wf(res)
      requires IsListLiteral(tokens) ==> NonEmptyTokens(tokens) && ListReadable(ListText(tokens), stod)
      modifies this
      ensures Valid()
      ensures !IsListLiteral(tokens) ==>
                missing == None && matrices == (if res != Empty then old(matrices)[tokens[0] := res] else old(matrices))
      ensures IsListLiteral(tokens) ==> ListOutcome(old(matrices), matrices, tokens[0], ListText(tokens), stod, missing)
    {
      var name := tokens[0];
      var keyword := tokens[2];
      if |keyword| > 0 && keyword[0] == '[' {
        var listStr := GatherList(tokens);
        var openCount, closeCount, commaCount, numStr := ScanList(listStr);
        if openCount != closeCount {
          missing := Some(if openCount < closeCount then '[' else ']');
          return;
        }
        var numRows := openCount - 1;
        var numCols := commaCount + 1;
        var a := new MatrixEngine.Matrix.OfSize(numRows, numCols);
        ReadPieces(a, numStr, stod);
        var m := Mat(a.rows, a.cols, a.buf[..]);
        matrices := matrices[name := m];
        missing := None;
      } else {
        missing := None;
        if res != Empty {
          matrices := matrices[name := res];
        }
      }
    }

    /** The operator branch of `evaluate`: pop b, pop a, `doOp` as written. */
    method ApplyOperator(eval: seq<string>, t: string, resName: string,
                         stod: string -> real, stoul: string -> nat, power: (Mat, nat) -> Mat)
      returns (eval': seq<string>)
      requires Valid() && PowerWf(power) && |eval| >= 2 && |t| > 0 && IsResultName(resName)
      modifies this
      ensures Valid()
      ensures (matrices, eval') ==
              AsWritten(old(matrices), eval[..|eval| - 2], eval[|eval| - 2], eval[|eval| - 1], t[0], resName, stod, stoul, power)
      ensures eval'[|eval'| - 1] == "__error" <==> eval' == ["__error"]
    {
      var b := eval[|eval| - 1];
      var a := eval[|eval| - 2];
      eval' := DoOpAsWritten(eval[..|eval| - 2], a, b, t, resName, stod, stoul, power);
    }

    /** `evaluate`: the lone `-X`, then toPostfix and the stack loop with
        `doOp` as written; an error returns the empty matrix at once. */
    method Evaluate(tokens: seq<string>, names: seq<string>,
                    stod: string -> real, stoul: string -> nat, power: (Mat, nat) -> Mat)
      returns (r: Mat)
      requires Valid() && PowerWf(power) && NonEmptyTokens(tokens) && AllResultNames(names)
      requires EvaluateDefined(matrices, tokens, names)
      modifies this
      ensures Valid()
      ensures (matrices, r) == EvaluateAsWritten(old(matrices), tokens, names, stod, stoul, power)
    {
      if |tokens| == 1 && tokens[0][0] == '-' && FoundMatrix(matrices, tokens[0][1..]) {
        return Negate(matrices[tokens[0][1..]]);
      }
      var postfix := ToPostfix(tokens);
      r := RunPostfix(postfix, names, stod, stoul, power);
    }

    /** The loop of `evaluate` over the postfix tokens, and the lookup of
        the name left on top of the stack. */
    method RunPostfix(postfix: seq<string>, names: seq<string>,
                      stod: string -> real, stoul: string -> nat, power: (Mat, nat) -> Mat)
      returns (r: Mat)
      requires Valid() && PowerWf(power) && AllResultNames(names)
      requires StackSafe(postfix, 0) && OperatorCount(postfix) <= |names|
      modifies this
      ensures Valid()
      ensures (matrices, r) == RunAsWritten(old(matrices), [], postfix, names, stod, stoul, power)
    {
      var eval: seq<string> := [];
      var rest, ns := postfix, names;
      while rest != []
        invariant Valid() && StackSafe(rest, |eval|) && OperatorCount(rest) <= |ns| && AllResultNames(ns)
        invariant RunAsWritten(matrices, eval, rest, ns, stod, stoul, power) ==
                  RunAsWritten(old(matrices), [], postfix, names, stod, stoul, power)
        decreases |rest|
      {
        var t := rest[0];
        if !IsOperator(t) {
          if t == "__error" {
            return Empty;
          }
          RunAsWrittenStep(matrices, eval, rest, ns, stod, stoul, power);
          eval := eval + [t];
        } else {
          RunAsWrittenStep(matrices, eval, rest, ns, stod, stoul, power);
          eval := ApplyOperator(eval, t, ns[0], stod, stoul, power);
          if eval[|eval| - 1] == "__error" {
            return Empty;
          }
          ns := ns[1..];
        }
        rest := rest[1..];
      }
      var top := eval[|eval| - 1];
      if top !in matrices {
        matrices := matrices[top := Empty];
      }
      r := matrices[top];
    }
  }
}
