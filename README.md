# A verified model of the matrix calculator

The calculator is an interactive shell for matrix arithmetic. The user
types `A = [[1,2],[3,4]]` to define a matrix. Expressions such as
`B = A * -A + 2 * A` are evaluated. Commands run row reduction, inversion
and the other operations of the matrix library.

This project models three parts of the calculator:

- the dense row-major matrix class of `matrix.hpp`, namespace `mat`;
- the older template class of `Matrix.hpp`;
- the expression machinery of `main.cpp`.

It then proves properties of that model.

## Modules

The modules follow the program's structure.

- `MatrixValues` (`matrix_values.dfy`): matrices as values.
  - A `Mat` is a row count, a column count and a flat row-major sequence of
    elements.
  - It defines the functions the library's operations are specified by:
    `SwapRows`, `AddRows`, `MultiplyRow`, `Plus`, `Minus`, `Product`,
    `ScaleAll`, `Negate`, `Transpose`, `Augment`, `Columns` and `Identity`.
  - Every binary operation follows the library's shape rules: on a shape
    mismatch it returns its left operand unchanged.
- `Echelon` (`echelon.dfy`):
  - leading entries;
  - what the library's `isRowEchelonForm` accepts (`AcceptedEchelon`);
  - the textbook row echelon and reduced row echelon conditions;
  - elementary row operations as data (`RowOp`, `ApplyOps`);
  - the invariant behind `inverse`: after any row operations on `[A | I]`,
    the right half times A equals the left half.
- `MatrixEngine` (`matrix_engine.dfy`): `mat::matrix` as a class.
  - Its fields are `rows`, `cols`, `size` and a heap buffer `buf: array<real>`.
  - Its mutators (`swapRows`, `addRows`, `multiplyRow`, `+=`, `-=`, `*=`)
    update the buffer in place.
  - A ghost `Value()` reads the object as a `Mat`. Every method's contract
    ties the new `Value()` to the value function applied to the old one.
  - The free functions are methods that build fresh matrices: `+`, `-`,
    unary `-`, `*`, `==`, `rowEchelon`, `reducedRowEchelon`, `transpose`,
    `augment`, `identity` and `inverse`.
- `MatrixTemplate` (`matrix_template.dfy`): the same for `Matrix<T>` of
  `Matrix.hpp`.
  - It has an in-place `transpose`.
  - Its `swapRows` and `addRows` do no range checks.
  - Its `inverse` is a stub that returns its argument.
- `Tokens` (`tokens.dfy`): the tokenizer and the shunting-yard conversion.
  - `isOperator`, `isNumber` and `tokenizeMath` are modelled.
  - `toPostfix` is modelled by the functional `ShuntingYard`, which the loop
    method `ToPostfix` is proved against.
- `ListLiteral` (`list_literal.dfy`): reading a list literal such as
  `[[1,2/3],[4,5]]`.
  - Re-joining the tokens, counting brackets and commas, and stripping the
    brackets.
  - Splitting on commas with `std::getline` semantics (`Pieces`).
  - Reading each cell as a number or a fraction.
- `Interpreter` (`interpreter.dfy`): the matrix table `g_matrices` as the
  field of a `Session` class, with these operations:
  - `foundMatrix`;
  - `doOp`, with negated operands such as `-A`;
  - `evaluate`, which walks the postfix sequence with a stack;
  - `equalExpression`, which handles both list literals and computed values.

Numbers are exact `real`s. The library's element type `double` and its
epsilon comparison are not modelled; see "Left out".

## Model

| member | source | states |
|---|---|---|
| MatrixValues.Update | matrix.hpp:189-199 | writing element (i, j) changes that element only; the shape is kept |
| MatrixValues.Build | matrix.hpp:41-59 | the matrix of a given shape whose element (i, j) is f(i, j) |
| MatrixValues.Filled | matrix.hpp:50-59 | a rows x cols matrix with every element equal to the fill value |
| MatrixValues.SwapRows | matrix.hpp:157-164 | rows r1 and r2 trade places and every other row is kept; an index out of range leaves the matrix as it was |
| MatrixValues.AddRows | matrix.hpp:167-179 | row r2 becomes row r2 plus s times row r1 and the other rows are kept; an index out of range is a no-op |
| MatrixValues.MultiplyRow | matrix.hpp:181-187 | row r is scaled by s and every other row is kept |
| MatrixValues.ScaleAll | matrix.hpp:253-261 | every element is multiplied by the scalar |
| MatrixValues.Negate | matrix.hpp:324-328 | the same shape, with every element negated |
| MatrixValues.Plus | matrix.hpp:202-216 | elementwise sum when the shapes agree; otherwise the left operand unchanged |
| MatrixValues.Minus | matrix.hpp:219-230 | elementwise difference when the shapes agree; otherwise the left operand unchanged |
| MatrixValues.Product | matrix.hpp:233-250 | when A.cols == B.rows, an A.rows x B.cols matrix whose (i, j) entry is the dot product of row i of A and column j of B; otherwise A unchanged |
| MatrixValues.Transpose | matrix.hpp:466-476 | a cols x rows matrix with T(j, i) = M(i, j) |
| MatrixValues.Augment | matrix.hpp:508-529 | [A B] side by side when the row counts agree (left block A, right block B); otherwise A |
| MatrixValues.Columns | matrix.hpp:499-503 | the block of w columns starting at column lo |
| MatrixValues.Identity | matrix.hpp:531-540 | the n x n matrix with ones on the diagonal and zeros elsewhere |
| MatrixValues.TransposeTwice | matrix.hpp:466-476 | transposing twice gives back the matrix |
| MatrixValues.SwapRowsTwice | matrix.hpp:157-164 | swapping the same two rows twice gives back the matrix |
| MatrixValues.NegateTwice | matrix.hpp:324-328 | unary minus applied twice gives back the matrix |
| MatrixValues.AugmentSplits | matrix.hpp:508-529 | the left and right column blocks of [A B] are A and B again |
| MatrixValues.ProductIdentityLeft | matrix.hpp:233-250 | I times B is B |
| Echelon.FirstNonzero | matrix.hpp:263-283 | the first column at or after j holding a nonzero entry of row i, or cols when the rest of the row is zero |
| Echelon.Lead | matrix.hpp:263-283 | the leading column of a row: every entry left of it is zero and the entry there is nonzero |
| Echelon.AcceptedAllRows | matrix.hpp:263-283 | the row-by-row scan with `prevCol` accepts all rows exactly when the leading ones strictly move right and none sits in column 0 |
| Echelon.ScanAccepts | matrix.hpp:272-275 | a row leading with a 1 right of `prevCol` extends the accepted prefix and moves `prevCol` to its leading column |
| Echelon.ScanSkips | matrix.hpp:268-280 | an all-zero row is passed over without moving `prevCol` |
| Echelon.ScanRejects | matrix.hpp:277-278 | a row whose first nonzero entry is not a 1 right of `prevCol` makes the whole test fail |
| Echelon.ZeroMatrixAccepted | matrix.hpp:263-283 | the zero matrix passes the test |
| Echelon.IdentityRefused | matrix.hpp:266-275 | no identity matrix passes the test, because `prevCol` starts at 0 and a leading 1 in column 0 is not right of it |
| Echelon.ZeroRowAboveAccepted | matrix.hpp:263-283 | the test accepts [[0, 0], [0, 1]], which is not in row echelon form |
| Echelon.BelowLeadIsZero | matrix.hpp:263-283 | under ordered leading ones, every entry below a leading entry is zero |
| Echelon.PivotedEchelon | matrix.hpp:397-432 | once the pivoting passes have placed their leading ones and cleared everything below them, the matrix is in row echelon form |
| Echelon.SameLeadsEchelon | matrix.hpp:439-464 | clearing above the pivots keeps every row's leading column, so a row echelon form stays one |
| Echelon.ClearedAll | matrix.hpp:439-464 | when every leading column is cleared from row 0 down, every pivot column holds a single nonzero entry |
| Echelon.OpsKeepRelation | matrix.hpp:478-506 | row operations keep "right half times A equals left half" |
| Echelon.AugmentedIdentityRelated | matrix.hpp:487-496 | [A I] satisfies that relation |
| Echelon.RightHalfTimesA | matrix.hpp:499-503 | under that relation, the right half times A is the left half |
| Echelon.RowOpsOnAugmentedIdentity | matrix.hpp:478-506 | after any row operations on [A I], the right half times A equals the left half |
| Echelon.UndoOp | matrix.hpp:157-187 | an elementary row operation (a swap, a scaling by a nonzero factor, adding a multiple of another row) is undone by its inverse operation |
| Echelon.ScaleUndone | matrix.hpp:181-187 | scaling a row by s and then by 1/s gives back the matrix, for s nonzero |
| Echelon.AddUndone | matrix.hpp:167-179 | adding s times another row and then -s times it gives back the matrix |
| Echelon.UndoOps | matrix.hpp:157-187 | every sequence of elementary row operations is undone by the inverses in reverse order, so it loses no information |
| Echelon.OpsKeepZero | matrix.hpp:157-187 | row operations leave the zero matrix as it is |
| Echelon.ZeroOnlyFromZero | matrix.hpp:157-187 | elementary row operations reach the zero matrix only from the zero matrix |
| Echelon.EchelonPivotIsTop | matrix.hpp:397-432 | in a matrix already in row echelon form, the pivot the search finds at or below row t is a 1 in row t with zeros below it, so no row operation is needed |
| MatrixEngine.Matrix.Default | matrix.hpp:33-39 | the 0 x 0 matrix |
| MatrixEngine.Matrix.OfSize | matrix.hpp:41-48 | a rows x cols matrix whose elements are left unspecified |
| MatrixEngine.Matrix.OfSizeFilled | matrix.hpp:50-59 | a rows x cols matrix filled with the value |
| MatrixEngine.Matrix.CopyOf | matrix.hpp:61-70 | a deep copy with its own buffer |
| MatrixEngine.Matrix.Elem | matrix.hpp:189-199 | element (i, j) of the row-major buffer |
| MatrixEngine.Matrix.Set | matrix.hpp:189-199 | writing element (i, j) through the reference changes that element only |
| MatrixEngine.Matrix.SwapRows | matrix.hpp:157-164 | the new value is SwapRows of the old one, a no-op out of range |
| MatrixEngine.Matrix.AddRows | matrix.hpp:167-179 | the new value is AddRows of the old one, a no-op out of range |
| MatrixEngine.Matrix.MultiplyRow | matrix.hpp:181-187 | the new value is MultiplyRow of the old one |
| MatrixEngine.Matrix.AddAssign | matrix.hpp:202-216 | the new value is the old value plus the other operand, or unchanged on a shape mismatch |
| MatrixEngine.Matrix.SubAssign | matrix.hpp:219-230 | the new value is the old value minus the other operand, or unchanged on a shape mismatch |
| MatrixEngine.Matrix.MulAssign | matrix.hpp:233-250 | the new value is the product of the old value and the other operand, in a new buffer when the shapes agree |
| MatrixEngine.Matrix.ScaleAssign | matrix.hpp:253-261 | every element is multiplied by k |
| MatrixEngine.Matrix.IsZeroMatrix | matrix.hpp:285-292 | true exactly when every element is zero |
| MatrixEngine.Matrix.IsRowEchelonForm | matrix.hpp:263-283 | the scan's answer is AcceptedEchelon of the value |
| MatrixEngine.Matrix.Eliminate | matrix.hpp:391-433 | the pivoting loop brings the matrix into row echelon form by elementary row operations, and uses none on a matrix already in row echelon form |
| MatrixEngine.Sum | matrix.hpp:312-316 | a fresh matrix holding Plus of the operands |
| MatrixEngine.Difference | matrix.hpp:318-322 | a fresh matrix holding Minus of the operands |
| MatrixEngine.Negation | matrix.hpp:324-328 | a fresh matrix holding the negation |
| MatrixEngine.Times | matrix.hpp:331-335 | a fresh matrix holding the product |
| MatrixEngine.ScalarTimes | matrix.hpp:338-348 | a fresh matrix holding k times M, with the scalar on either side |
| MatrixEngine.Equal | matrix.hpp:364-382 | true exactly when the shapes and all elements agree |
| MatrixEngine.RowEchelon | matrix.hpp:385-436 | the result is the input transformed by elementary row operations (no zero scaling, no row added to itself); an input the test accepts comes back unchanged, any other input comes back in row echelon form, and an input already in row echelon form comes back unchanged |
| MatrixEngine.RowEchelonTwice | matrix.hpp:385-436 | rowEchelon applied to its own result changes nothing |
| MatrixEngine.RowEchelonCorrected | matrix.hpp:391-433 | elimination without the fast path: elementary row operations of the input, always in row echelon form, and no change to an input already in row echelon form |
| MatrixEngine.ReducedRowEchelon | matrix.hpp:439-464 | elementary row operations of the input with ordered leading ones and cleared pivot columns; in reduced row echelon form whenever rowEchelon's result was in row echelon form |
| MatrixEngine.Transposed | matrix.hpp:466-476 | a fresh matrix holding the transpose |
| MatrixEngine.Augmented | matrix.hpp:508-529 | a fresh matrix holding [A B] |
| MatrixEngine.MakeIdentity | matrix.hpp:531-540 | a fresh n x n identity |
| MatrixEngine.AugmentIdentity | matrix.hpp:487-496 | a fresh [A I] for square A |
| MatrixEngine.RightHalf | matrix.hpp:499-503 | a fresh matrix holding the right n x n half of the reduced matrix |
| MatrixEngine.Inverse | matrix.hpp:478-506 | a non-square input comes back unchanged; for square A the result R is the right half of [A I] after elementary row operations that leave ordered leading ones and cleared pivot columns, and R * A equals the left half, so R * A == I whenever that half is the identity |
| MatrixTemplate.Matrix.Default | Matrix.hpp:33-39 | the 0 x 0 matrix |
| MatrixTemplate.Matrix.OfSize | Matrix.hpp:41-48 | a rows x cols matrix whose elements are left unspecified |
| MatrixTemplate.Matrix.Zeroed | Matrix.hpp:250-265 | the accumulator of `*=`, taken as zero-filled |
| MatrixTemplate.Matrix.CopyOf | Matrix.hpp:50-59 | a deep copy with its own buffer |
| MatrixTemplate.Matrix.Elem | Matrix.hpp:195-205 | element (i, j) of the buffer |
| MatrixTemplate.Matrix.Set | Matrix.hpp:195-205 | writing element (i, j) changes that element only |
| MatrixTemplate.Matrix.Transpose | Matrix.hpp:146-156 | in place: the object now holds the transpose of its old value, in a new buffer |
| MatrixTemplate.Matrix.SwapRows | Matrix.hpp:158-163 | the new value is SwapRows of the old one; both rows must exist |
| MatrixTemplate.Matrix.AddRows | Matrix.hpp:166-183 | the new value is AddRows of the old one; both rows must exist |
| MatrixTemplate.Matrix.MultiplyRow | Matrix.hpp:185-193 | the new value is MultiplyRow of the old one |
| MatrixTemplate.Matrix.AddAssign | Matrix.hpp:208-219 | elementwise sum in place, unchanged on a shape mismatch |
| MatrixTemplate.Matrix.SubAssign | Matrix.hpp:229-240 | elementwise difference in place, unchanged on a shape mismatch |
| MatrixTemplate.Matrix.MulAssign | Matrix.hpp:250-265 | the product of the old value and the operand |
| MatrixTemplate.Matrix.ScaleAssign | Matrix.hpp:275-282 | every element multiplied by k |
| MatrixTemplate.Matrix.Sum | Matrix.hpp:222-226 | a fresh matrix holding Plus |
| MatrixTemplate.Matrix.Difference | Matrix.hpp:243-247 | a fresh matrix holding Minus |
| MatrixTemplate.Matrix.Times | Matrix.hpp:268-272 | a fresh matrix holding the product |
| MatrixTemplate.Matrix.ScalarTimes | Matrix.hpp:285-296 | a fresh matrix holding k times the matrix |
| MatrixTemplate.Matrix.Equals | Matrix.hpp:298-310 | true exactly when the shapes and all elements agree |
| MatrixTemplate.Matrix.IsRowEchelonForm | Matrix.hpp:318-338 | the answer is AcceptedEchelon of the value |
| MatrixTemplate.Matrix.Eliminate | Matrix.hpp:358-401 | the pivoting loop brings the matrix into row echelon form by elementary row operations, and uses none on a matrix already in row echelon form |
| MatrixTemplate.RowEchelon | Matrix.hpp:352-404 | elementary row operations of the input; an accepted input unchanged, any other in row echelon form, and one already in row echelon form unchanged |
| MatrixTemplate.ReducedRowEchelon | Matrix.hpp:408-436 | elementary row operations of the input with ordered leading ones and cleared pivot columns |
| MatrixTemplate.Inverse | Matrix.hpp:440-444 | the stub returns a copy of its argument |
| Tokens.IsOperator | main.cpp:865-876 | the operator tokens are exactly "+", "-", "*" and "^" |
| Tokens.Prec | main.cpp:38-44 | "+" and "-" bind weakest (1), "^" strongest (3), "*" in between |
| Tokens.IsNumber | main.cpp:878-897 | accepted exactly when the token has at most one '.', at most one '-' and otherwise only digits |
| Tokens.SplitParen | main.cpp:741-763 | a token splits into one or two tokens that concatenate back to it |
| Tokens.TokenizeMath | main.cpp:741-763 | the loop computes SplitAll of the token list |
| Tokens.SplitAllKeepsText | main.cpp:741-763 | splitting loses and adds no characters |
| Tokens.SplitAllLength | main.cpp:741-763 | the list grows by at most one token per input token |
| Tokens.SplitAllPlain | main.cpp:741-763 | tokens without a leading '(' or trailing ')' are left as they are |
| Tokens.SplitParenEdges | main.cpp:748-760 | a lone "(" or ")" leaves an empty token beside it, and only the outer parenthesis of a token is split off |
| Tokens.PopOperatorsLoop | main.cpp:713-718 | the popping loop pops operators from the top while they are of precedence p or more, and stops at the first entry that is not |
| Tokens.PopToOpenLoop | main.cpp:722-730 | the loop pops everything down to the matching "(" and removes it |
| Tokens.PopOperatorsMoves | main.cpp:713-718 | the operators of precedence p or more on top of the stack move to the output, topmost first; the loop stops at an entry that is not such an operator |
| Tokens.PopToOpenMoves | main.cpp:722-730 | everything above the topmost "(" moves to the output, topmost first, and that "(" is dropped; without a "(" the whole stack is output |
| Tokens.PopToOpenPrefix | main.cpp:724-728 | the stack left is a prefix of the old one, with no "(" among the entries popped |
| Tokens.PopToOpenFound | main.cpp:724-730 | with a "(" on the stack the loop stops at the topmost one and drops it |
| Tokens.PopToOpenEmpties | main.cpp:724-728 | without a "(" on the stack the whole stack is output, topmost first |
| Tokens.ShuntStepMoves | main.cpp:711-735 | one token only appends to the output: an operator is pushed after the stronger-or-equal operators above it move out, ")" pops, "(" is pushed, an operand is output |
| Tokens.ToPostfix | main.cpp:699-739 | on every input where no stack read finds the stack empty, the loop computes ShuntingYard of the tokens |
| Tokens.ShuntAllInv | main.cpp:699-739 | after any prefix the stack holds only "(" and operators, the output has no parenthesis, and operands and operators are kept; without underflow the guard "(" stays at the bottom and the parentheses nest |
| Tokens.ShuntingYardProperties | main.cpp:699-739 | the output holds no parenthesis and the operands in their input order; for balanced input, the same operators as the input |
| Tokens.NoParensNeverUnderflow | main.cpp:699-739 | input without parentheses never pops past the guard "(" |
| Tokens.NeverUnderflowsStepsDefined | main.cpp:709-736 | while no prefix closes more parentheses than it opens, no operator loop and no ")" reads an empty stack |
| Tokens.NeverUnderflowsDefined | main.cpp:705-736 | such input, with the appended ")", is converted without an empty-stack read |
| Tokens.DefinedWithEarlyClose | main.cpp:705-736 | the converse fails: `(A )) (B` closes the guard "(" early, yet no read finds the stack empty, and the postfix is `A B` |
| Tokens.BinaryPostfix | main.cpp:699-739 | x op y becomes x y op |
| Tokens.NoStrongerPops | main.cpp:711-721 | in x op1 y op2 z with op2 no stronger than op1, op1 is emitted first: x y op1 z op2 |
| Tokens.StrongerWaits | main.cpp:711-721 | with op2 stronger than op1 the second operation comes first: x y z op2 op1 |
| ListLiteral.GatherList | main.cpp:584-587 | the loop re-joins every token after the first that does not end in '=' |
| ListLiteral.ListTextOfAssignment | main.cpp:584-587 | for `X = lit` the re-joined text is the literal |
| ListLiteral.ListTextIgnoresName | main.cpp:585-587 | the first token never contributes to the re-joined text |
| ListLiteral.CommasOpenRow | main.cpp:595-602 | before any ']' every comma is counted |
| ListLiteral.CommasAfterClose | main.cpp:595-602 | once a ']' has been seen no further comma is counted, so the count is the first row's commas |
| ListLiteral.ScanList | main.cpp:591-604 | the counts of '[' and ']', the commas met before the first ']', and the text with the brackets removed |
| ListLiteral.CountAppend | main.cpp:591-604 | counting a character is additive over concatenation |
| ListLiteral.StripAppend | main.cpp:603-604 | stripping brackets distributes over concatenation |
| ListLiteral.StripRemovesBrackets | main.cpp:603-604 | the stripped text holds no bracket and is shorter by exactly the number of brackets |
| ListLiteral.IndexOf | main.cpp:626-629 | the first occurrence of the character, or the length when it is absent |
| ListLiteral.Pieces | main.cpp:624 | `getline` with ',' yields comma-free pieces, at least one for a nonempty text |
| ListLiteral.JoinPieces | main.cpp:624 | joining the pieces with commas gives back a text that does not end in a comma |
| ListLiteral.PiecesJoin | main.cpp:624 | splitting comma-free pieces joined with commas gives back the pieces, when the last one is nonempty |
| ListLiteral.CellPlain | main.cpp:632-633 | a cell without '/' is read by stod |
| ListLiteral.CellFraction | main.cpp:626-630 | a cell n/d is stod(n) / stod(d) |
| ListLiteral.OneRow | main.cpp:591-624 | `[[x1,...,xn]]` gives one row, n columns, and the pieces x1 ... xn |
| Interpreter.FoundMatrixNames | main.cpp:858-863 | an ordinary name is found exactly when it is in the table; a result name `__...` is found by its full name; `__error` is never found |
| Interpreter.Classify | main.cpp:795-832 | an operand is a matrix exactly when foundMatrix holds, and a number exactly when it is not one and isNumber accepts it |
| Interpreter.OperandOf | main.cpp:779-809 | `-X` naming a matrix X reads as the negation of X; any other operand is classified as it stands |
| Interpreter.Apply | main.cpp:795-832 | the operation is defined exactly for matrix + - * matrix, matrix * ^ number and number * matrix, with sum, difference, product and scaling as results |
| Interpreter.Operation | main.cpp:765-844 | the stack gets the result name, or collapses to `__error`; no table entry except the result changes |
| Interpreter.StoreResult | main.cpp:795-838 | a defined result is stored under the result name and pushed, no other entry changes; an undefined one leaves the table and makes the stack `__error` |
| Interpreter.AsWritten | main.cpp:779-843 | doOp as written: the stack gets the result name or collapses to `__error`, and the table gains no name but the result's |
| Interpreter.AsWrittenFrame | main.cpp:779-843 | even when the operands alias, every entry but the result's ends as it was, because each negation is undone |
| Interpreter.AsWrittenAgrees | main.cpp:779-843 | doOp as written and the corrected Operation agree when no negated operand's matrix is also the other operand's matrix or the result name (`Unaliased`); `-A + -A`, `-A + A` and `A * -A` are all excluded |
| Interpreter.AliasedNegationCounterexample | main.cpp:779-843 | for `-A + -A` with A = [1], doOp as written stores [2] and the corrected Operation stores [-2] |
| Interpreter.NegatedSumAsWritten | main.cpp:779-843 | for `-A + A` with A = [1], doOp as written stores (-A) + (-A) = [-2] |
| Interpreter.NegatedSumIntended | main.cpp:779-843 | for `-A + A` with A = [1], the corrected Operation stores [0] |
| Interpreter.Finish | main.cpp:696 | the matrix returned is the table's entry for the name on top, inserted as the empty matrix when missing; no other entry changes |
| Interpreter.Run | main.cpp:672-696 | the intended evaluation loop, each operator step by Operation |
| Interpreter.RunAsWritten | main.cpp:672-696 | the evaluation loop as written, each operator step by doOp as written |
| Interpreter.RunAsWrittenStep | main.cpp:675-694 | one step of the loop as written: an operand is pushed, an operator replaces the top two entries by the result name or ends the run on `__error` |
| Interpreter.RunAsWrittenAgrees | main.cpp:672-696 | when no step of the run aliases (`RunUnaliased`), the loop as written computes the intended table and result |
| Interpreter.RunAsWrittenKeepsUserMatrices | main.cpp:672-696 | even with aliasing, the loop as written removes and changes no user-named matrix |
| Interpreter.EvaluateSpec | main.cpp:665-697 | intended evaluation: a lone `-X` is negated directly; otherwise the tokens are tokenized, converted to postfix and run, and the matrix named on top is returned, or the empty matrix |
| Interpreter.EvaluateAsWritten | main.cpp:665-697 | evaluate as written: the same, with doOp as written at each operator |
| Interpreter.EvaluateAsWrittenAgrees | main.cpp:665-697 | without aliasing, evaluate as written agrees with the intended evaluation |
| Interpreter.EvaluateAsWrittenKeepsUserMatrices | main.cpp:665-697 | evaluate as written leaves every user-named matrix in place |
| Interpreter.RunNegatedSumAsWritten | main.cpp:672-696 | the postfix `-A A +` run as written from A = [1] returns [-2] |
| Interpreter.RunNegatedSumIntended | main.cpp:672-696 | the same run as intended returns [0] |
| Interpreter.AliasedEvaluateCounterexample | main.cpp:665-843 | `-A + A` with A = [1] evaluates to [-2] as written, and to [0] as intended |
| Interpreter.RunKeepsUserMatrices | main.cpp:672-696 | no user-named matrix is removed or changed by the intended run |
| Interpreter.EvaluateKeepsUserMatrices | main.cpp:665-697 | the intended evaluation leaves every user-named matrix in place |
| Interpreter.EvaluateEarlyClose | main.cpp:665-697 | `(A )) (B` is evaluated, as written and as intended, to table[B], with the empty matrix inserted when B is missing |
| Interpreter.EvaluateSum | main.cpp:665-844 | `X + Y` stores X + Y under the result name and returns it |
| Interpreter.SumOperation | main.cpp:795-838 | the operation on two user matrices X and Y with `+` stores X + Y under the result name and pushes that name |
| Interpreter.ReadPieces | main.cpp:619-634 | the q-th piece's value is written to element q, and the elements past the pieces are untouched |
| Interpreter.Session.constructor | main.cpp:30 | the table starts empty |
| Interpreter.Session.Lookup | main.cpp:795-832 | the operand's classification in the current table |
| Interpreter.Session.NegateInPlace | main.cpp:779-793 | for `-X` naming a matrix, X is negated in the table and the name loses its '-' |
| Interpreter.Session.OperandValue | main.cpp:779-809 | the operand's value, reading `-X` as the negation of X without touching the table |
| Interpreter.Session.DoOpAsWritten | main.cpp:765-844 | the table and stack after doOp exactly as written, negating in place and restoring afterwards |
| Interpreter.Session.Restore | main.cpp:840-843 | a negated operand's matrix is negated back in the table; otherwise nothing changes |
| Interpreter.Session.DoOp | main.cpp:765-844 | the table and stack follow Operation |
| Interpreter.Session.Store | main.cpp:795-838 | a defined result is stored under its name and pushed; otherwise the stack becomes `__error` |
| Interpreter.Session.ApplyOperator | main.cpp:677-686 | the top two stack entries are combined by doOp as written; the stack ends in `__error` only when it is just `__error` |
| Interpreter.Session.RunPostfix | main.cpp:672-696 | the loop computes RunAsWritten on the postfix sequence |
| Interpreter.Session.Evaluate | main.cpp:665-697 | the table and result follow EvaluateAsWritten |
| Interpreter.Session.EqualExpression | main.cpp:576-643 | for a computed value, a non-empty result is stored under the name; for a list literal, unbalanced brackets report the missing one and change nothing, else the name maps to a rows x cols matrix whose leading elements are the literal's cells |

## Left out

- Floating point: elements are exact reals.
  - `almostEqual` is exact equality, and so are `==` and `isZeroMatrix`.
  - The snap to zero in `addRows` is exact too.
  - IEEE infinities from dividing by zero are not modelled.
- Uninitialised memory: constructing a sized matrix without a fill value
  leaves its elements unspecified (`OfSize`). The accumulator of
  `Matrix<T>::operator*=` is taken as zero-filled (`Zeroed`), which is what
  the code relies on.
- MatrixEngine.Matrix.MultiplyRow: requires the row to exist (or no
  columns). The source writes out of bounds otherwise.
- MatrixTemplate.Matrix.MultiplyRow: requires `r < rows || cols == 0`, for
  the same reason: `Matrix.hpp:184-186` indexes row r without a range
  check.
- MatrixTemplate.Matrix.SwapRows: requires both rows to exist. The source
  does no range check and its behaviour out of range is undefined.
- MatrixTemplate.Matrix.AddRows: requires both rows to exist, for the same
  reason.
- MatrixEngine.ReducedRowEchelon: requires at least one row when there are
  columns.
  - The source computes `rows() - 1` as an unsigned value.
  - A 0 x n matrix then reads out of bounds.
  - A 0 x 0 matrix makes the source count down from 2^64 − 1 doing nothing,
    which the model treats as a no-op.
- MatrixTemplate.ReducedRowEchelon: the same precondition, for the same
  reason.
- The const `operator==` of `Matrix<T>` (Matrix.hpp:312-316) is not modelled.
  - Its body `*this == other` on a const object resolves to itself, so it
    recurses without end.
  - Nothing in the program calls it. MatrixTemplate.Matrix.Equals models the
    non-const overload.
- Tokens.ToPostfix: requires `ConversionDefined`. That is, no operator's
  popping loop and no ')' reads an empty stack, the appended ')' included.
  - The source calls `top()` on an empty stack otherwise, which is undefined.
  - This is the exact condition. It admits input such as `(A )) (B`, which
    closes the guard '(' early and opens a new one.
- Interpreter.Session.Evaluate: requires `EvaluateDefined`. That is,
  `toPostfix` reads no empty stack, every operator finds two entries on the
  evaluation stack, and there are enough result names.
  - The source reads an empty stack otherwise.
  - This is slightly stronger than needed after an `__error` collapse.
- Random result names: the names `doOp` generates are a parameter `names`.
  The source never adds a name to `results`, so its uniqueness loop never
  rejects one. The model therefore assumes nothing about distinctness.
- `^`, `std::stod` and `std::stoul` are parameters (`power`, `stod` and
  `stoul`).
  - Their exceptions on bad input are not modelled.
  - Interpreter.Session.EqualExpression requires every fraction cell to
    have a nonzero denominator.
- Interpreter.Session.EqualExpression: requires `|tokens| >= 3`. The source
  reads `tokens[2]` (main.cpp:580) without a size check, so a line such as
  `A =` reads past the end of the token list.
- Interpreter.Session.EqualExpression: requires the list-literal tokens to
  be nonempty and the pieces to fit the rows x cols buffer.
  - The source calls `back()` on an empty token, and it writes past the
    buffer for a ragged literal.
  - Elements past the last piece are left unspecified, as the source leaves
    them uninitialised.
  - The computed value for a non-literal right-hand side is a parameter
    `res`, because `doCommand` is not part of this model.
- Printing and error messages are not modelled. The missing bracket is
  returned as an `Option<char>`, and a failed operation shows as the
  `__error` stack entry.
- Left out entirely:
  - the REPL loop;
  - `doCommand` and the command dispatch;
  - `determinant`, `minor`, `adjugate`, `zero`, the `random` matrix, and
    stream output;
  - the destructor and assignment operators, whose effects are covered by
    the fresh buffers of the model;
  - the iterators;
  - `driver.cpp`.
- MatrixEngine.Inverse: proves that R * A equals the left half of [A I]
  after the elementary row operations, and that R * A == I when that half
  is the identity. It does not prove that the left half is the identity for
  every invertible A.
- ListLiteral.OneRow: proved for one-row literals only. The general
  many-row shape follows from `ScanList` and `Pieces` but is not stated as
  one lemma.

## Findings

| source | as written | input that shows it | evidently intended | confidence | as-written member | corrected member |
|---|---|---|---|---|---|---|
| main.cpp:779-843 | `doOp` negates a `-X` operand in the table in place, then looks up both names, then negates back. When the other operand names the same matrix, its lookup sees the negation: `-A + -A` negates A twice before either lookup, and `-A + A` and `A * -A` read -A on both sides. | `B = -A + -A` with A = [1] | -2A, that is [-2] | not executed | Interpreter.AliasedNegationCounterexample | Interpreter.Session.DoOp |
| matrix.hpp:385-389 | `rowEchelon` returns its input unchanged when `isRowEchelonForm` accepts it, and that test skips all-zero rows wherever they are | [[0, 0], [0, 1]] comes back unchanged, with a zero row above a nonzero row | a result in row echelon form | not executed | Echelon.ZeroRowAboveAccepted | MatrixEngine.RowEchelonCorrected |

`Interpreter.Session.DoOpAsWritten` models `doOp` literally, and the
evaluator `Session.Evaluate` uses it, as `evaluate` does.
`Interpreter.AsWrittenAgrees` shows that it agrees with the corrected
`Operation` whenever the operands do not alias (`Unaliased`), and
`RunAsWrittenAgrees` and `EvaluateAsWrittenAgrees` lift that to whole
expressions. `B = -A + A` shows the fault at the level of `evaluate`:
`AliasedEvaluateCounterexample` evaluates it to [-2] for A = [1], where
[0] is meant. In `A * -A + 2 * A` the first product is computed as
(-A)(-A) = A A instead of -A A. The corrected `Operation` (`Session.DoOp`)
defines the intended evaluation `EvaluateSpec`.

`MatrixEngine.RowEchelon` keeps the fast path, and so does
`MatrixTemplate.RowEchelon`, since `Matrix.hpp:355-356` has the same
shortcut. Its contract says that an accepted input comes back unchanged,
and `ZeroRowAboveAccepted` shows that such an input need not be in row
echelon form. `RowEchelonCorrected` runs the elimination alone.
`ReducedRowEchelon` and `Inverse` follow the source and call the
as-written `RowEchelon`.
