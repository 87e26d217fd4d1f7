# roman_arithmetic in Dafny

This project models the library core of `roman_arithmetic`. That core evaluates arithmetic expressions whose operands are Roman numerals, for example `X + V * (II - I)`, and writes results back as numerals. It has three parts, each modelled here in its own module.

- **`roman_to_int`** is modelled by `RomanCodec.RomanToInt` in `roman_codec.dfy`.
  - The decoder scans the string from right to left. It subtracts a letter's value when that value is strictly below the value of the letter after it, and adds it otherwise. Any character outside `IVXLCDM` counts as 0.
  - The method keeps the source's loop, with `sum` and `prev`. It is proved equal to `Decode`, a left-to-right recursive definition that needs no `prev`.
- **`int_to_roman`** is modelled by `RomanCodec.IntToRoman`.
  - The encoder walks the fixed table of thirteen value/symbol pairs, from `(1000, "M")` down to `(1, "I")`. It appends a symbol for as long as the remainder is at least that symbol's value.
  - The method keeps the nested loops. It is proved equal to `Encode`, the greedy walk written as a recursive function.
  - The loop invariant states that the decoded output so far plus the remainder equals the input.
  - The round trip `Decode(Encode(n)) == n` holds for every `n >= 0`.
- **The canonical form of numerals** is in `roman_canonical.dfy`.
  - `Places` spells a number place by place: thousands as a run of `M`, and each lower digit with the standard pattern, including the subtractive pairs for 4 and 9.
  - The encoder is proved to produce exactly this form for every `n >= 0`. For `1 <= n <= 3999`, the output uses only the seven letters and never repeats a letter four times in a row.
  - `WellFormedNumeral` describes the numerals the grammar accepts at a `roman` leaf. Each of them is the encoding of its own value, and that value lies in 1..3999.
- **`eval`** is modelled in `evaluator.dfy`.
  - The parse tree is a datatype with one constructor per grammar rule the evaluator visits: `Program`, `Expr`, `Term`, `StrongTerm` and `Factor`. A factor's operand is an `Atom`, either a `Roman` leaf or a `Group`.
  - `Eval` is the specification. It evaluates the operands of a chain and then folds them from the left: `FoldAdd` for `+ -` and `FoldMul` for `* /`.
  - `EvalTree`, `EvalSum` and `EvalProduct` are the evaluator with the source's loops. They evaluate each operand just before applying its operator, and they are proved to compute `Eval`.
  - Division truncates toward zero (`TruncDiv`), as `i32` division does.
  - A division by zero, which panics in the source, is the model's one error value, `Err(DivisionByZero)`.

The model keeps three behaviours of the code:

- `int_to_roman` returns the empty string for `n <= 0` (src/lib.rs:40-46: no loop fires). `IntToRoman` models that, and `EncodeNonPositive` proves it.
- A division by zero panics (src/lib.rs:108). The model turns that panic into `Err(DivisionByZero)` and does not model what happens after it.
- Values are `i32`. Overflow panics in debug builds and wraps in release builds; the model uses unbounded integers (see Left out).

The data of the model:

- `RomanCodec.Table` is the encoder's table of thirteen value/symbol pairs at src/lib.rs:35-39, in the same order.
- `Evaluator.Node`, `Evaluator.Atom` and `Evaluator.Operand` stand for pest's `Pair` tree that `eval` walks (src/lib.rs:76-138). `Node` has one constructor per rule `eval` matches: `program`, `expr`, `term`, `strong_term` and `factor`. `Atom` is a factor's `roman` leaf or `group` (src/lib.rs:127-128, 133-134). `Operand` pairs an operator token with the operand after it (src/lib.rs:86-87, 104-105).
- `AddOp`, `MulOp` and `UnaryOp` are the operator tokens `+ -`, `* /` and the unary signs (src/lib.rs:89-91, 106-108, 121-123).

## Model

| member | source | states |
|---|---|---|
| RomanCodec.IsNumeralLetter | src/lib.rs:12-20 | the seven characters the decoder gives a non-zero value to |
| RomanCodec.LeadTerm | src/lib.rs:22-26 | reference definition: a letter is subtracted when it is worth less than the letter after it, added otherwise |
| RomanCodec.Decode | src/lib.rs:8-30 | reference definition of `roman_to_int`: the sum of the terms of the characters, read left to right |
| RomanCodec.EncodeFrom | src/lib.rs:40-45 | reference definition of the loops: from table entry k, take the entry's symbol while the remainder is at least its value, then move to the next entry |
| RomanCodec.Encode | src/lib.rs:32-47 | reference definition of `int_to_roman`: the greedy walk from the first table entry |
| RomanCodec.SymbolValue | src/lib.rs:12-20 | a character's value is 0 exactly when it is not one of I, V, X, L, C, D, M |
| RomanCodec.RomanToInt | src/lib.rs:8-30 | the right-to-left scan with `prev` computes `Decode`: each letter is subtracted iff it is worth less than the letter after it |
| RomanCodec.DecodeAppend | src/lib.rs:22-27 | decoding adds up over a concatenation whose join is not a subtraction (left part's last letter worth at least the right part's first) |
| RomanCodec.DecodeSkipsNonNumeral | src/lib.rs:20-27 | a non-numeral character contributes 0 and also keeps the letter before it from being subtracted |
| RomanCodec.DecodeNonNumeral | src/lib.rs:9-29 | a string with no numeral letter, the empty string included, decodes to 0 |
| RomanCodec.TableOrder | src/lib.rs:35-39 | table values are positive and strictly decreasing; the last letters of the symbols never grow along the table |
| RomanCodec.TableLetters | src/lib.rs:35-39 | each table symbol is made of numeral letters |
| RomanCodec.TableSymbol | src/lib.rs:35-39 | each table symbol decodes to its own value and starts with a letter worth at most its last letter |
| RomanCodec.IntToRoman | src/lib.rs:32-47 | the nested loops compute `Encode(num)`; for num >= 0 the result decodes to num; for num <= 0 it is empty |
| RomanCodec.AppendTake | src/lib.rs:41-44 | one inner-loop step keeps the output so far, followed by the greedy encoding of the remainder, equal to the full encoding |
| RomanCodec.AppendDecode | src/lib.rs:41-44 | one inner-loop step keeps `Decode(res) + n == num` and leaves `res` ending with the entry's last letter |
| RomanCodec.DecodeEncodeFrom | src/lib.rs:40-45 | the greedy encoding from any table entry decodes back to the remainder it was given |
| RomanCodec.RoundTrip | src/lib.rs:8-47 | `roman_to_int(int_to_roman(n)) == n` for every n >= 0 |
| RomanCodec.EncodeNonPositive | src/lib.rs:40-46 | a remainder <= 0 makes no loop fire: the encoding is empty |
| RomanCodec.EncodeLetters | src/lib.rs:35-46 | every character of an encoding is one of the seven numeral letters |
| RomanCanonical.WellFormedNumeral | src/lib.rs:127 | the numerals the grammar's `roman` rule accepts at a leaf: not empty, at most three M, then canonical hundreds, tens and units |
| RomanCanonical.EncodeStage | src/lib.rs:41-44 | from a table entry, q times its value plus a smaller rest gives q copies of its symbol and then the encoding of the rest |
| RomanCanonical.PlaceStage | src/lib.rs:35-45 | the four table entries of one place (9, 5, 4 and 1 units) spell the digit d in its canonical pattern |
| RomanCanonical.EncodePlaces | src/lib.rs:35-45 | the encoding of th*1000 + h*100 + t*10 + u is thousands as M's, then the hundreds, tens and units patterns |
| RomanCanonical.EncodeIsCanonical | src/lib.rs:32-47 | for every n >= 0 the encoder produces the canonical numeral read off n's decimal digits |
| RomanCanonical.UnitsSubtractivePair | src/lib.rs:38-44 | a units digit of 4 or 9 is written as the subtractive pair IV or IX at the end of the encoding |
| RomanCanonical.DigitShape | src/lib.rs:35-39 | a single place's pattern has no run of four, uses only that place's letters and starts with its one or five letter |
| RomanCanonical.JoinNoRun | src/lib.rs:42 | appending strings with different letters at the join creates no run of four |
| RomanCanonical.PlacesNoRunOfFour | src/lib.rs:35-45 | a canonical numeral with at most three M never repeats a letter four times in a row |
| RomanCanonical.EncodeCanonicalProperties | src/lib.rs:32-47 | for 1 <= n <= 3999 the encoding is well formed, uses only IVXLCDM and has no run of four equal letters |
| RomanCanonical.PlacesRoundTrip | src/lib.rs:8-47 | a canonical numeral decodes to the number with those digits and is that number's encoding |
| RomanCanonical.WellFormedNumeralRoundTrip | src/lib.rs:127 | every numeral accepted at a `roman` leaf has a value in 1..3999 and is the encoding of that value |
| RomanCanonical.NotWellFormed | src/lib.rs:127 | a string that is not the encoding of its own value is not an accepted numeral |
| RomanCanonical.RejectedNumerals | src/lib.rs:127 | IIII, VV, IC and the empty string are not accepted numerals |
| Evaluator.Eval | src/lib.rs:76-138 | reference definition of `eval`: `program` and `expr` pass their child through; a chain evaluates its operands, then folds them from the left; the first failure is the result |
| Evaluator.EvalAtom | src/lib.rs:127-134 | reference definition: a `roman` leaf decodes its span, a `group` has its expression's value |
| Evaluator.ApplyAdd | src/lib.rs:89-91 | one `term` step: `+` adds the operand's value, `-` subtracts it |
| Evaluator.ApplySign | src/lib.rs:121-125 | a unary `+` keeps the value, a unary `-` negates it, no sign keeps it |
| Evaluator.FoldAdd | src/lib.rs:86-96 | reference definition of the `term` loop: the left fold of the `+`/`-` steps |
| Evaluator.FoldMul | src/lib.rs:104-111 | reference definition of the `strong_term` loop: the left fold of the `*`/`/` steps, stopping at the first division by 0 |
| Evaluator.TruncDiv | src/lib.rs:108 | the quotient leaves a remainder smaller than the divisor, with the sign of the dividend or zero: division truncating toward 0 |
| Evaluator.TruncDivUnique | src/lib.rs:108 | truncating division is the only quotient with that remainder property |
| Evaluator.TruncDivExamples | src/lib.rs:108 | -7 / 2 is -3 (not the Euclidean -4); 7 / -2 is -3; -7 / -2 is 3 |
| Evaluator.ApplyMul | src/lib.rs:106-109 | one `*` or `/` step fails exactly when it divides by 0 |
| Evaluator.EvalOperands | src/lib.rs:86-87 | evaluating a chain's operands yields one (operator, value) pair per operand, or fails |
| Evaluator.EvalTree | src/lib.rs:76-138 | the recursive evaluator computes `Eval` for every tree |
| Evaluator.EvalSum | src/lib.rs:82-98 | the `term` loop (evaluate an operand, then add or subtract it) computes `Eval`, stopping at the first failing operand |
| Evaluator.EvalProduct | src/lib.rs:100-113 | the `strong_term` loop (evaluate an operand, then multiply or divide) computes `Eval`, failing at a zero divisor |
| Evaluator.EvalAtomTree | src/lib.rs:127-134 | a `roman` leaf is decoded by `roman_to_int`; a `group` evaluates its expression |
| Evaluator.FoldAddIsSum | src/lib.rs:86-96 | the left fold of + and - equals the first value plus the signed sum of the operands |
| Evaluator.FoldMulIsProduct | src/lib.rs:104-111 | a chain of only `*` never fails and gives the first value times the product of the operands |
| Evaluator.FoldMulFails | src/lib.rs:104-111 | the `*`/`/` fold fails if and only if some operator is `/` with operand value 0 |
| Evaluator.FoldMulPrefixFails | src/lib.rs:104-111 | once a prefix of a `strong_term` fails, the whole `strong_term` fails |
| Evaluator.OperandsPrefixFails | src/lib.rs:86-87 | once an operand fails, the whole operand list fails |
| Evaluator.OperandsValues | src/lib.rs:86-87 | each evaluated pair holds its own operator and its own operand's value, in order |
| Evaluator.StrongTermFails | src/lib.rs:100-113 | a `strong_term` whose operands evaluate fails iff one of its divisors evaluates to 0 |
| Evaluator.DivisionFreeSucceeds | src/lib.rs:76-138 | a tree without division always evaluates: division by 0 is the only failure |
| Evaluator.AsExprKeepsValue | src/lib.rs:80-113 | an `expr` made of one factor, through one-operand `term` and `strong_term`, has the factor's value |
| Evaluator.GroupValue | src/lib.rs:128 | a sign-less `group` factor has the value of its expression |
| Evaluator.ParenthesesKeepValue | src/lib.rs:78-128 | any number of redundant parentheses leave a value unchanged |
| Evaluator.UnarySign | src/lib.rs:119-126 | unary `-` negates its operand's value, unary `+` keeps it, and a failure passes through |
| Evaluator.DoubleNegation | src/lib.rs:119-128 | `-(-a)` evaluates to the value of a |
| Evaluator.NumeralLeaf | src/lib.rs:127 | an accepted numeral leaf evaluates to a value in 1..3999 whose encoding is the leaf itself |
| Evaluator.LeftToRightSum | src/lib.rs:82-98 | C - L + X evaluates to 60, not 40 |
| Evaluator.ProductBindsTighter | src/lib.rs:82-113 | X + V * II evaluates to 20 |
| Evaluator.GroupOverridesPrecedence | src/lib.rs:100-128 | (X + V) * II evaluates to 30 |
| Evaluator.MinusMinusOne | src/lib.rs:119-128 | -(-I) evaluates to 1 |
| Evaluator.LeftToRightProduct | src/lib.rs:100-113 | M / II * V evaluates to 2500 |
| Evaluator.GroupedDivisor | src/lib.rs:100-128 | M / (II * V) evaluates to 100 |
| Evaluator.DivideByZeroFails | src/lib.rs:108 | X / (I - I) fails with a division by zero |
| Evaluator.NegativeQuotientTruncates | src/lib.rs:108 | -VII / II evaluates to -3 |

## Left out

- The command-line program in `src/main.rs` is not part of this model. It dispatches arguments, reads files and prints help, credits and results.
- `print_ast` and `test_parse` (src/lib.rs:49-74) are left out. They only print the parse tree.
- The generated parser (src/lib.rs:1-3) and its grammar file are not part of this model.
  - Trees are given as values of the `Node` datatype. `Eval` accepts any such tree, not only the shapes the grammar builds.
  - Of the grammar, only the numerals it accepts at a `roman` leaf are modelled, by `WellFormedNumeral`.
- The `unreachable!()` arms of `eval` (src/lib.rs:92, 94, 109, 124, 129, 136) cannot occur in the model. Operators are enumerations, and a factor's operand is always a numeral or a group.
- Eval: values are unbounded integers. `i32` overflow, which panics or wraps in the source, is not modelled; this includes `i32::MIN / -1` and negating `i32::MIN`.
- RomanToInt: the sum is an unbounded integer. The `i32` wrap-around of a sum over very long strings is not modelled.
- IntToRoman: the argument is an unbounded integer rather than an `i32`. Every `i32` input behaves the same way in the model.
- EvalProduct: a division by zero returns `Err(DivisionByZero)`, where the source panics and ends the process.
