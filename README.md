# Integer expression calculator and singly linked list

This project models two small C++ components in Dafny and proves properties of the models.

**The calculator** (`W3-1.cpp`) reads an arithmetic expression on integers in three stages:

1. `Tokenize` turns the string into tokens.
   - Whitespace is skipped.
   - A maximal run of decimal digits becomes one `Number`.
   - Each of `+ - * / % ( ) s` becomes one fixed token. Only the single letter `s` means `Sqr`, so `sqr(4)` lexes as `s ( 4 )`.
   - Every other character is dropped.
2. A recursive-descent parser (`ParseExpression`, `ParseTerm`, `ParseFactor`) builds a tree of `Constant`, five binary operators and `SqrOp`. All three functions advance one shared cursor.
3. The `Calculate()` methods of the tree nodes evaluate the tree in post-order. `/` and `%` truncate toward zero.

`Calculate(string_view)` chains the three stages. It rejects input with tokens left after the top-level expression.

**The list** (`W3-2.cpp`) is `SingleList<T>`: a head pointer, a `Size` counter, and a chain of nodes linked by `pNext`.

Modules:

- `Wrappers`: `Option` and `Result`.
- `Expressions`: the tree, truncating division and the evaluator.
  - The source's throws become an `Error` value.
  - A zero divisor is undefined behaviour in the source. Here it gives the error `DivisionByZero`, which is a modelling choice. The source reports no such error.
- `Lexer`: `TokenMap`, the specification function `Lex`, and the `Tokenize` method with its loops.
  - `Lex` is written over a cursor `k`, as the source's `pos` loop is.
- `Parser`: the grammar written twice.
  - As pure functions `Expression`, `ExpressionLoop`, `Term`, `TermLoop` and `Factor`. Each returns the tree together with the new cursor.
  - As the methods `ParseExpression`, `ParseTerm` and `ParseFactor`. These keep the source's `while` loops and are proved equal to the functions.
  - `Unparse` prints a tree in fully bracketed token form. Parsing its output gives the tree back.
- `Calculator`: the `Calculation` pipeline and the `Calculate` method, plus worked inputs proved to give their results.
  - The worked inputs include the source's own sample, `1 + 3 * (4 - 2) / (2 - 1) + sqr(4)`, which gives 23.
  - The 34-character sample is written in contracts as the concatenation of two string literals. The string is the same.
- `SingleLinkedList`: the list as a `class` whose methods update `head`, `size` and the nodes' `next` fields in place.
  - Ghost fields give the node sequence (`nodes`), the stored values (`Contents`) and the footprint (`Repr`).
  - `Valid()` says three things: `nodes` is exactly the chain from `head` to `null` without repetition, the values are `Contents`, and `size` is its length.
  - The pure functions `InsertResult` and `RemoveResult` state the source's `insert` and `removeAt` on sequences, including the cases that throw.

Modelling choices in the calculator:

- In unary minus before a non-number, `Subtract(ParseFactor, ParseTerm)`, C++ leaves the order of the two calls open. The model parses the factor first, then the term. So `-(5)` fails for want of a term, `-(5) 3` is `5 - 3`, and `--5` is `(0 - 5) - 5`; see `Calculator.UnaryMinusBeforeNonNumber`.
- Truncating division would make `-7 / 2` equal -3. The code as written rejects it:
  - the unary-minus-before-a-number branch leaves the cursor on the number, so the top level stops there;
  - `Calculate` then reports trailing tokens.
  
  The model follows the code; see `Calculator.NegativeLiteralsRejected`.

## Model

| member | source | states |
|---|---|---|
| Expressions.TruncDiv | W3-1.cpp:79-83 | `lhs / rhs` truncates: the magnitude is the quotient of the magnitudes, and the quotient is non-negative when the operands' signs agree and non-positive when they differ |
| Expressions.TruncMod | W3-1.cpp:85-89 | `lhs % rhs`: the magnitude is the remainder of the magnitudes, and the sign follows the dividend |
| Expressions.DivModIdentity | W3-1.cpp:79-89 | the truncating pair satisfies `(a / b) * b + a % b == a` with `Abs(a % b) < Abs(b)` for every non-zero divisor |
| Expressions.Apply | W3-1.cpp:61-89 | the five `Operation`s; the result fails exactly for `/` or `%` by zero |
| Expressions.Eval | W3-1.cpp:39-99 | post-order `Calculate()`: the only failure is a zero divisor, and a `SqrOp` value is never negative |
| Expressions.EvalTotalWithoutDivision | W3-1.cpp:43-98 | a tree without `/` or `%` always evaluates |
| Expressions.EvalFailurePropagates | W3-1.cpp:54-58 | a binary node fails if either operand fails, since both are evaluated before combining |
| Lexer.TokenMapEntries | W3-1.cpp:101-110 | `TokenMap` has exactly the eight keys `+ - * / % ( ) s`, and no two keys map to the same token |
| Lexer.CharacterClassesDisjoint | W3-1.cpp:116-130 | `isspace`, `isdigit` and the keys of `TokenMap` are disjoint classes, so the order of the three tests does not matter; the digits are `'0'` to `'9'` |
| Lexer.DecimalValueBound | W3-1.cpp:125 | the value `stoi` reads from a run of `d` digits is below `10` to the power `d` |
| Lexer.LexLength | W3-1.cpp:112-140 | from any position, each character yields at most one token, since a digit run yields exactly one |
| Lexer.Lex | W3-1.cpp:112-140 | `Tokenize` emits at most one token per input character |
| Lexer.DigitRunEnd | W3-1.cpp:120-124 | the inner loop stops at the first non-digit; everything before it is a digit |
| Lexer.DigitRunIs | W3-1.cpp:121-124 | any maximal digit run from `k` ends where the inner loop stops |
| Lexer.Tokenize | W3-1.cpp:112-140 | the loop over `pos`, with its inner digit loop, emits exactly `Lex(input)` |
| Lexer.LexProducible | W3-1.cpp:112-140 | `Tokenize` never emits `UnknownToken`, `MinToken` or `AbsToken`, and every `Number` it emits is non-negative |
| Lexer.LexSkipAt | W3-1.cpp:115-136 | whitespace, and any non-digit outside `TokenMap`, yields no token |
| Lexer.LexLetterAt | W3-1.cpp:101-110 | lower-case letters other than `s` yield no token, so `sqr` lexes as `Sqr` alone |
| Lexer.LexDigitRunAt | W3-1.cpp:120-125 | a maximal digit run yields one `Number` with its base-10 value, and lexing resumes at the first non-digit |
| Lexer.LexTokenAt | W3-1.cpp:127-133 | a character of `TokenMap` yields exactly its one token |
| Lexer.TokenChar | W3-1.cpp:101-110 | every operator, bracket and `Sqr` token has a character mapped to it, which is neither a space nor a digit |
| Lexer.LexShift | W3-1.cpp:112-140 | what `Tokenize` emits from a position depends only on the characters from there on |
| Lexer.DecimalValueOfDigits | W3-1.cpp:125 | the decimal digits of `n` read back as `n` |
| Lexer.LexNumberThen | W3-1.cpp:120-125 | the digits of `n` followed by a non-digit lex as `Number(n)` and then the rest |
| Lexer.LexTokenText | W3-1.cpp:112-140 | the text of a token followed by a space lexes as that token and then the rest |
| Lexer.LexShow | W3-1.cpp:112-140 | round trip: lexing the printed form of any sequence of producible tokens gives that sequence back |
| Parser.Expression | W3-1.cpp:145-164 | a successful `ParseExpression` moves the cursor forward, never beyond the tokens |
| Parser.ExpressionLoop | W3-1.cpp:148-161 | the additive loop never moves the cursor back or beyond the tokens |
| Parser.Term | W3-1.cpp:166-186 | a successful `ParseTerm` moves the cursor forward, never beyond the tokens |
| Parser.MultiplicativeOp | W3-1.cpp:171-179 | exactly `/`, `%` and `*` continue a term |
| Parser.TermLoop | W3-1.cpp:169-183 | the multiplicative loop never moves the cursor back or beyond the tokens |
| Parser.Factor | W3-1.cpp:188-243 | a successful `ParseFactor` advances the cursor by at least one, never beyond the tokens |
| Parser.ParseExpression | W3-1.cpp:145-164 | the method with its `while` loop computes `Expression` |
| Parser.ParseTerm | W3-1.cpp:166-186 | the method with its `while` loop computes `Term` |
| Parser.ParseFactor | W3-1.cpp:188-243 | the method computes `Factor` |
| Parser.FactorRejects | W3-1.cpp:188-243 | `ParseFactor` fails at the end of input and on every token that cannot begin a factor (`*`, `/`, `%`, `)` and the tokens the lexer never emits); conversely a success began with a token that can |
| Parser.BracketErrors | W3-1.cpp:199-239 | a missing `)` after a bracketed expression, a missing `(` after `s`, and a missing `)` inside `s(...)` each give their own error |
| Parser.MinusBeforeNonNumber | W3-1.cpp:219-222 | unary minus before anything but a number reads a factor, then a whole term, and gives `factor - term`; a failure of either is the minus's failure |
| Parser.MinusBeforeNonNumberExamples | W3-1.cpp:212-222 | `- ( 5 )` fails at the end of input, `- ( 5 ) 3` parses to `5 - 3`, and `- - 5` to `(0 - 5) - 5` |
| Parser.MinusNumberKeepsCursorOnNumber | W3-1.cpp:212-218 | `- n` yields `0 - n` and leaves the cursor on the number token, not past it |
| Parser.NegativeLiteralRejected | W3-1.cpp:212-218 | for every `n`, the tokens `- n` are rejected for trailing tokens and `( - n )` for a missing `)` |
| Parser.FactorIsWholeExpression | W3-1.cpp:145-186 | a factor followed by no operator is the whole term and the whole expression |
| Parser.SubtractionIsLeftAssociative | W3-1.cpp:145-164 | `a - b - c` parses as `(a - b) - c` |
| Parser.MultiplicativeIsLeftAssociative | W3-1.cpp:166-186 | `a / b % c` parses as `(a / b) % c` |
| Parser.MultiplicationBindsTighter | W3-1.cpp:145-186 | `a + b * c` parses as `a + (b * c)`, and `a * b + c` as `(a * b) + c` |
| Parser.OperatorToken | W3-1.cpp:150-179 | each binary operator's token is an operator token, and it continues a term exactly for `*`, `/` and `%` |
| Parser.FactorUnparse | W3-1.cpp:188-243 | wherever the bracketed tokens of a tree stand, `ParseFactor` reads exactly them back as that tree |
| Parser.FactorBracketedBinary | W3-1.cpp:199-207 | `( left op right )` with the operands read by `ParseFactor` is read as the binary node, past the `)` |
| Parser.Parse | W3-1.cpp:246-251 | parsing succeeds exactly when one expression from cursor 0 uses every token, giving its tree; an empty input fails at its end, parse errors pass through, and an expression that stops early leaves trailing tokens |
| Parser.ParseUnparse | W3-1.cpp:145-243 | round trip: parsing the bracketed token form of any tree gives that tree |
| Parser.ParseSingleOperation | W3-1.cpp:145-186 | `a op b` on two numbers is the single binary node, for each of the five operators |
| Calculator.Calculation | W3-1.cpp:245-253 | a parse error is the result; otherwise the result is the tree's evaluation, which always succeeds for a tree without `/` or `%`; input without tokens fails at its end |
| Calculator.Calculate | W3-1.cpp:245-253 | the method runs `Tokenize`, `ParseExpression` from cursor 0 and the trailing-token check, then evaluates, computing `Calculation` |
| Calculator.UnparseProducible | W3-1.cpp:112-140 | a tree with non-negative constants prints to tokens the lexer can produce |
| Calculator.CalculateShownTree | W3-1.cpp:245-253 | round trip over the whole pipeline: the printed text of any tree with non-negative constants calculates to that tree's value |
| Calculator.CalculateBinaryOfNaturals | W3-1.cpp:245-253 | `a op b` written in decimal calculates to the operator applied to `a` and `b`, for every `a`, `b` and operator |
| Calculator.SevenDividedByTwo | W3-1.cpp:79-83 | `7 / 2` calculates to 3 |
| Calculator.DivideByZeroFlagged | W3-1.cpp:80 | `5 / 0` is not given a value; the model reports `DivisionByZero` |
| Calculator.ModuloByZeroFlagged | W3-1.cpp:86 | `5 % 0` is not given a value; the model reports `DivisionByZero` |
| Calculator.LexSourceSample | W3-1.cpp:257 | the sample's 34 characters lex as 20 tokens, with `q` and `r` dropped |
| Calculator.SourceSampleTokensAre23 | W3-1.cpp:145-243 | those 20 tokens parse to the tree `(1 + ((3 * (4 - 2)) / (2 - 1))) + sqr(4)`, whose value is 23 |
| Calculator.SourceSampleIs23 | W3-1.cpp:255-258 | `1 + 3 * (4 - 2) / (2 - 1) + sqr(4)` calculates to 23 |
| Calculator.SubtractionChain | W3-1.cpp:145-164 | `9 - 3 - 2` calculates to 4 |
| Calculator.Precedence | W3-1.cpp:145-207 | `2 + 3 * 4` calculates to 14 and `(2 + 3) * 4` to 20 |
| Calculator.NegativeLiteralsRejected | W3-1.cpp:212-251 | `-7` and `-7 / 2` are rejected for trailing tokens, and `(-7)` for a missing `)` |
| Calculator.UnaryMinusBeforeNonNumber | W3-1.cpp:219-251 | `-(5)` fails at the end of input, `-(5) 3` calculates to 2, and `--5` to -10 |
| Calculator.UnbalancedBrackets | W3-1.cpp:199-251 | `(1 + 2` is rejected for a missing `)`, and `1 + 2)` for trailing tokens |
| SingleLinkedList.InsertResult | W3-2.cpp:80-102 | `insert` succeeds exactly for index 0, for `1 <= index <= Size`, and for a negative index on a non-empty list; it then places the value at its position with the others in order |
| SingleLinkedList.RemoveResult | W3-2.cpp:104-131 | `removeAt` succeeds exactly for `0 <= index < Size` and then deletes exactly that element, keeping the rest in order |
| SingleLinkedList.RemoveInsertRoundTrip | W3-2.cpp:80-131 | removing at the index where a value was just inserted gives the original list back |
| SingleLinkedList.InsertAtEndAppends | W3-2.cpp:80-102 | inserting at index `Size` appends, as `push_back` does |
| SingleLinkedList.RemoveFirstIsTail | W3-2.cpp:104-112 | removing index 0 drops the first value, as `pop_front` does |
| SingleLinkedList.InsertNegativeIndex | W3-2.cpp:86-99 | a negative index is not rejected: on a non-empty list it inserts at position 1, and on an empty list it fails |
| SingleLinkedList.InsertPastEndRejected | W3-2.cpp:87-97 | an index past `Size` fails, and every index from 0 to `Size` succeeds |
| SingleLinkedList.Node.constructor | W3-2.cpp:20-25 | a node holds the given value and successor |
| SingleLinkedList.SingleList.constructor | W3-2.cpp:31-32 | a new list is valid and empty |
| SingleLinkedList.SingleList.GetSize | W3-2.cpp:13 | `Size` is the number of values in the list |
| SingleLinkedList.SingleList.PopFront | W3-2.cpp:39-46 | on an empty list nothing changes; otherwise the first value goes and the list stays valid, with `Size` one less |
| SingleLinkedList.SingleList.PushBack | W3-2.cpp:48-61 | after the walk to the last node, the list is the old list plus `[data]`, still valid, with `Size` one more |
| SingleLinkedList.SingleList.Clear | W3-2.cpp:63-71 | after unlinking every node the list is empty with `Size == 0` |
| SingleLinkedList.SingleList.PushFront | W3-2.cpp:73-78 | the list is `[data]` plus the old list, still valid, with `Size` one more |
| SingleLinkedList.SingleList.LinkAfter | W3-2.cpp:99-100 | linking a new node after the `i`-th inserts the value at position `i + 1` and keeps the chain valid |
| SingleLinkedList.SingleList.Insert | W3-2.cpp:80-102 | succeeds exactly when `InsertResult` does and then makes the list `InsertResult`'s value; on failure nothing changes |
| SingleLinkedList.SingleList.UnlinkAfter | W3-2.cpp:126-129 | unlinking the node after the `i`-th removes the value at position `i + 1` and keeps the chain valid |
| SingleLinkedList.SingleList.RemoveAt | W3-2.cpp:104-131 | succeeds exactly when `RemoveResult` does and then makes the list `RemoveResult`'s value; on failure nothing changes |
| SingleLinkedList.SingleList.At | W3-2.cpp:133-148 | `operator[]` gives the value at `index` when `0 <= index < Size`, and fails otherwise |
| SingleLinkedList.UsageScenario | W3-2.cpp:151-161 | after pushing 5, 10 and 15 the size is 3 and element 2 is 15; after `clear` the size is 0 |

## Left out

- `Lexer.Tokenize`: does not model `std::stoi` overflow. A digit run too long for a 32-bit `int` makes the source throw `out_of_range`; the model reads it as an unbounded natural.
- `Lexer.Tokenize`: the source scans bytes (`char`), and `std::isspace` and `std::isdigit` on a negative `char` are undefined behaviour. The model scans Unicode characters and treats every character outside the ASCII classes as one that yields no token.
- `Lexer.Tokenize`: `std::stoi` is given the rest of the input (`.data()` of the substring view), not just the digit run. Because the run is maximal, the next character is never a digit, so it reads the same value. The model reads the run.
- `Expressions.Eval`: does not model 32-bit overflow of `+`, `-`, `*` and `sqr`, which is undefined behaviour in the source. The model uses unbounded integers.
- `Expressions.Apply`: division and modulo by zero are undefined behaviour in the source. The model reports `DivisionByZero` instead and does not model whatever the compiled program would do.
- `Parser.Factor`: C++ leaves unspecified the order in which the two sides of unary minus before a non-number are parsed. The model fixes it as left to right: the factor, then the term. Evaluation order is otherwise immaterial, since evaluation has no side effects.
- `SingleLinkedList.InsertResult` and `SingleLinkedList.SingleList.Insert`: the index and `Size` are unbounded integers. For `index == INT_MIN` the source's `index - 1` overflows, which is undefined behaviour; with wrap-around the loop would run past the end and throw, whereas the model inserts at position 1 as for any other negative index.
- `SingleLinkedList.SingleList.At`: returns the value, not a writable reference (`T&`), so writing through `operator[]` is not modelled.
- `SingleLinkedList.SingleList.RemoveAt` and `SingleLinkedList.SingleList.At`: the source's later null checks and final `throw` are written as unreachable branches. They cannot be reached once the index has passed the range check against `Size`, and the model proves this.
- Memory management in the list: `delete`, the destructor (which calls `clear`) and leaks. Unlinked nodes are dropped from the ghost footprint.
- Exception message texts, `std::cout`/`std::cerr` output and the `main` functions' printing. Errors are an `Error` datatype; the list's `main` is `SingleLinkedList.UsageScenario`.
- `FT-FZ1.cpp` (a mutex-guarded map shared by two threads) and `FT-FZ2.cpp` (a Winsock accept/recv/send loop) are not part of this model. They consist of concurrency and network I/O plumbing.
