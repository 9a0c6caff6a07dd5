# dice-js in Dafny

This project models `DiceExpression` from dice-js (lib/dice.js). The function takes
dice notation such as `2d10 + d6 - 7 + 2` and returns a callable object:
- calling it rolls the expression;
- `.min()` and `.max()` report the bounds computed when the expression was built;
- `.roll()` returns the total together with one value per term.

The constructor works in four stages, and the model keeps them:

1. **Input checks** (`Dice.Check`):
   - a falsy input (`undefined`, `null`, `false`, `0`, `0n`, `NaN`, `""`) is missing;
   - a value that is not a string is refused;
   - otherwise every `\s` character is removed (`Notation.Strip`);
   - the stripped text must match `Node ([+-] Node)*`.

   A node is either a constant of 1 to 8 digits not followed by a digit or a
   marker, or 0 to 4 digits, then `d` or `D`, then 1 to 4 digits or `%`. A
   hand-written predicate (`Notation.IsExpression`) checks the grammar in place of
   the regular expression. The pattern as the regex engine matches it, with its
   lookahead and backtracking, is `Notation.NodeMatch`.
2. **Tokenizer** (`Dice.Tokenize`): the `exec` loop as a `while` loop over a
   position.
   - Each match is recorded with the character before it as its sign, or `+` at
     the start.
   - A failed match moves the search on by one character, as `exec` does.
   - The loop is proved to produce `Notation.Tokens`, which splits at each
     operator. Rendering the nodes gives back the text (`Notation.TokensRender`,
     `Notation.RenderTokens`).
3. **Conversion** (`Dice.Convert`): the `map` callback that builds
   `{op, dices, sides}` (`Conversion.ToTerm`) and adds to the `min` and `max`
   accumulators node by node (`Conversion.MinBound`, `Conversion.MaxBound`).
4. **Rolling**: the class `Dice.DiceExpression`.
   - `RollDice` is `_rollDice`, `RollAll` is `_roll`, `Value` is the call itself
     and `Roll` is `.roll()`.
   - They draw from `Dice.Random`, a class whose state advances one step on every
     draw and which promises only that a draw lies in the requested range.
   - Each rolling method returns, as a ghost, the faces it drew, and states the
     engine's state afterwards: advanced by one step per die (`Dice.Steps`,
     `Rolls.DiceCount`), so a constant or a `0dS` term draws nothing.
   - `Dice.Build` returns an object and an engine that are both new, so a caller
     may roll what it returns (`Examples.ConstantsRolled`, `Examples.OneSidedRolled`).
   - Its result is stated through the pure functions of `Rolls`: `Values` gives one
     value per term and `Sum` is the `reduce`.

Two behaviours of the code are kept as written:
- A zero dice count (`0d6`) converts to `dices = 0`, the same shape as a constant.
  It adds nothing to `min` and `max`, but rolls `op * sides` (`Examples.ZeroCountDice`).
- `min` counts every die as showing 1 and `max` every die at its top face,
  whatever the term's sign (see Findings). A subtracted dice term therefore puts
  its greatest value into `min` and its least into `max`.
  - `Dice.DiceExpression.Min` and `Max` return the bounds as the code computes them.
  - `Roll` and `Value` are stated against the true range of the totals,
    `Rolls.LeastTotal` and `Rolls.GreatestTotal`.
  - The two agree when no dice term is subtracted and none has a zero count
    (`Rolls.BoundsTightWithoutSubtraction`).
  - When every dice term is subtracted they agree with the bounds swapped
    (`Rolls.BoundsSwappedWithOnlySubtraction`).
  - So a roll lies between `min` and `max`, in whichever order they fall, when
    all dice terms share one sign (`Rolls.RollBetweenBounds`). With dice of both
    signs it need not: `1d6-1d6` has `min` and `max` both 0, yet a six and a one
    roll 5 (`Examples.OppositeDice`).

Modules: `Wrappers` (Option and Result), `Notation` (text and grammar),
`Conversion` (terms and bounds), `Rolls` (roll values and ranges), `Dice` (the
constructor's loops, the random engine and the returned object) and `Examples`
(the repository's tests, stated about the model).

## Model

| member | source | states |
|---|---|---|
| Dice.Falsy | lib/dice.js:26 | definition: the JavaScript values for which `!inputExpression` holds (`undefined`, `null`, `false`, `0`, `0n`, `NaN`, `""`) |
| Dice.Message | lib/dice.js:27-41 | definition: the three error messages, the last naming the original input; stated for the tests by `Examples.RefusedInputs` and `Examples.NotValidMessage` |
| Dice.Check | lib/dice.js:26-42 | a missing input is reported exactly when the input is falsy; a non-string exactly when the input is truthy and not a string; success exactly when the input is a string whose whitespace-stripped text is an expression, and then the result is that text; the not-valid error carries the original input |
| Dice.WhitespaceIsIgnored | lib/dice.js:33 | whitespace inserted anywhere into an input changes neither whether it is accepted nor the expression it yields |
| Notation.IsWhitespace | lib/dice.js:33 | definition: the characters the `\s` class matches (ASCII whitespace, no-break and other Unicode spaces, line and paragraph separators, byte order mark); `Notation.StripRemovesWhitespace` states that none survives stripping |
| Notation.Strip | lib/dice.js:33 | definition: `replace(/\s/g, '')`, every whitespace character removed and the rest kept in order; its properties are the `Strip` lemmas below |
| Notation.StripRemovesWhitespace | lib/dice.js:33 | the stripped text holds no whitespace and is no longer than the input |
| Notation.StripConcat | lib/dice.js:33 | stripping distributes over concatenation |
| Notation.StripKeeps | lib/dice.js:33 | a text without whitespace is unchanged by stripping |
| Notation.StripWhitespace | lib/dice.js:33 | a text of whitespace strips to the empty string |
| Notation.InsertedWhitespaceVanishes | lib/dice.js:33 | whitespace inserted anywhere vanishes on stripping |
| Notation.SpacedOperator | lib/dice.js:33 | spaces around an operator vanish on stripping |
| Notation.DigitRunDigits | lib/dice.js:36 | the leading digit run (`\d` greedy) holds only digits |
| Notation.IsConstantNode | lib/dice.js:36 | definition: the first alternative as a set of texts, 1 to 8 digits; `Notation.NodeMatchIsNode` and `Notation.DigitsBeforeMarkerAreDice` relate it to the pattern with its lookahead |
| Notation.IsSides | lib/dice.js:36 | definition: the sides part of the second alternative, 1 to 4 digits or `%`; `Conversion.SidesText` states what conversion reads from it |
| Notation.IsDiceNode | lib/dice.js:36 | definition: the second alternative as a set of texts, 0 to 4 digits, `d` or `D`, then sides; `Notation.DiceMatchIsPiece` states that the pattern matches such a node whole |
| Notation.MatchConstant | lib/dice.js:36 | a constant match is 1 to 8 characters and is not followed by a digit or a marker (the lookahead) |
| Notation.MatchDice | lib/dice.js:36 | a dice match is at least a marker and one character of sides, and lies within the text |
| Notation.NodeMatch | lib/dice.js:36 | a match of the node pattern is non-empty and lies within the text |
| Notation.NodeMatchIsNode | lib/dice.js:36 | whatever the node pattern matches is a node of the grammar |
| Notation.DigitsBeforeMarkerAreDice | lib/dice.js:36 | digits followed by a marker never match as a constant; the match is the dice alternative's |
| Notation.NodeHasNoOperator | lib/dice.js:36-37 | a node contains no `+` or `-`, so operators delimit nodes |
| Notation.NextOperator | lib/dice.js:37 | the position returned is within the text and, if inside it, holds an operator |
| Notation.BeforeNextOperator | lib/dice.js:37 | no operator comes before the next operator |
| Notation.IsExpression | lib/dice.js:36-42 | definition: the text up to the first operator is a node, and the rest after that operator is again an expression; `Notation.RenderTokens` and `Notation.TokensRender` show these are exactly the texts `Node ([+-] Node)*` |
| Notation.ExpressionHasNoWhitespace | lib/dice.js:33-40 | an accepted expression contains no whitespace, so stripping it again changes nothing |
| Notation.ExpressionSplit | lib/dice.js:37 | proof step (an unfolding of the definitions): an expression with an operator is a node, that operator, and another expression, and its nodes split there |
| Notation.TokensFrom | lib/dice.js:45-58 | definition: the nodes of an expression split at each operator, each signed by the operator before it; its properties are the lemmas below |
| Notation.Tokens | lib/dice.js:45-58 | definition: the nodes of an expression with the first signed `+`; `Dice.Tokenize` is proved to compute it |
| Notation.TokensFromSigned | lib/dice.js:52 | the nodes of an expression are signed: the first carries the given sign and every later one an operator |
| Notation.TokensFromRender | lib/dice.js:45-58 | rendering the nodes of an expression gives back the expression |
| Notation.RenderTokensFrom | lib/dice.js:45-58 | rendering signed nodes gives an expression that splits back into the same nodes |
| Notation.TokensRender | lib/dice.js:45-58 | the nodes of an expression are well formed (first sign `+`) and render back to it |
| Notation.RenderTokens | lib/dice.js:45-58 | well-formed nodes render to an expression whose nodes they are |
| Notation.TokenCount | lib/dice.js:45-58 | an expression has one more node than it has operators |
| Notation.NodeMatchIsPiece | lib/dice.js:47-53 | at the start of an expression the node pattern matches exactly up to the next operator |
| Notation.DiceMatchIsPiece | lib/dice.js:36 | a dice node followed by an operator or the end is matched whole |
| Notation.NoMatchAtOperator | lib/dice.js:49 | proof step of `Dice.Tokenize`: the node pattern does not match at an operator |
| Notation.NextOperatorSplit | lib/dice.js:49-56 | recording the node before the next operator leaves the scan on that operator with the nodes so far |
| Notation.SkipStep | lib/dice.js:49 | proof step of `Dice.Tokenize`: at an operator the search fails and moves on to the next node |
| Notation.ScanAtNode | lib/dice.js:49-56 | at the start of a node the match records that node, signed by the character before it |
| Notation.SignAt | lib/dice.js:52 | definition: the sign of a match, `+` at position 0 and otherwise the character before it; `Dice.Tokenize` records each node with it, and `Notation.TokensFromSigned` states that every sign after the first is an operator |
| Notation.ScanMatch | lib/dice.js:49-56 | a successful `exec` keeps the tokenizer's invariant |
| Notation.ScanMiss | lib/dice.js:49 | a failed match at a position keeps the invariant one position on |
| Dice.Tokenize | lib/dice.js:45-58 | the loop produces exactly the nodes of the expression in source order, well formed and rendering back to the expression |
| Conversion.DecimalValue | lib/dice.js:70 | unary `+` on n decimal digits is below 10^n |
| Conversion.LeadingZero | lib/dice.js:70 | leading zeros do not change the value |
| Conversion.DecimalAppend | lib/dice.js:70 | a digit appended on the right multiplies the value by ten and adds the digit |
| Conversion.CountText | lib/dice.js:74-76 | the text before the marker is at most four digits |
| Conversion.SidesText | lib/dice.js:74-83 | the text after the marker is 1 to 4 digits or `%` |
| Conversion.ToTerm | lib/dice.js:64-93 | `op` is 1 or -1; a constant has no dice; counts are at most 9999; dice sides are at most 9999 |
| Conversion.Sign | lib/dice.js:65 | definition: `+` gives 1 and every other sign -1 |
| Conversion.ConstantRule | lib/dice.js:65-72 | a constant converts to `op` from its sign, no dice, and its decimal value as sides |
| Conversion.DiceRule | lib/dice.js:74-84 | count, marker and sides form a dice node that converts to the count (1 if empty) and the sides (100 for `%`) |
| Conversion.Terms | lib/dice.js:63-97 | definition: the `dices` array, each node converted by `ToTerm` in order; `Dice.Convert` is proved to compute it |
| Conversion.MinBound | lib/dice.js:61-85 | definition: the `min` accumulator, each node adding its value if a constant and `op * dices` if dice (the as-written side of the finding); `Rolls.MinIsAllOnes` ties it to a roll |
| Conversion.MaxBound | lib/dice.js:62-86 | definition: the `max` accumulator, each node adding its value if a constant and `op * dices * sides` if dice (the as-written side of the finding); `Rolls.MaxIsAllTop` ties it to a roll |
| Conversion.MinContribution | lib/dice.js:71-85 | definition: what one node adds to `min`, its signed value if a constant and `op * dices` if dice; `Rolls.MinIsAllOnes` ties the sum of these to a roll |
| Conversion.MaxContribution | lib/dice.js:72-86 | definition: what one node adds to `max`, its signed value if a constant and `op * dices * sides` if dice; `Rolls.MaxIsAllTop` ties the sum of these to a roll |
| Conversion.ConvertSnoc | lib/dice.js:61-97 | proof step of `Dice.Convert`: converting one more node appends its term and adds its contributions to `min` and `max` |
| Dice.Convert | lib/dice.js:61-97 | the loop yields the converted terms and the accumulated `min` and `max` |
| Dice.TermsUnitSigns | lib/dice.js:65 | every converted term has sign 1 or -1 |
| Dice.Steps | lib/dice.js:99-108 | definition: the engine's state after a number of draws, one step each; `Dice.StepsAdd` states that draws compose |
| Dice.StepsAdd | lib/dice.js:99-108 | a run of draws followed by another is one run of the two counts added |
| Dice.DrawsStep | lib/dice.js:113-115 | proof step of `Dice.DiceExpression.RollAll`: rolling one more term advances the engine by that term's dice |
| Dice.Random.constructor | lib/dice.js:99 | the engine starts from the seed |
| Dice.Random.Integer | lib/dice.js:108 | a draw lies in the requested inclusive range and advances the engine's state by one step |
| Dice.DiceExpression.constructor | lib/dice.js:24-99 | the object holds the terms and bounds of its stripped expression and a fresh engine at the seed |
| Dice.DiceExpression.Min | lib/dice.js:132-134 | `.min()` is the accumulated `min` of the expression's nodes |
| Dice.DiceExpression.Max | lib/dice.js:143-145 | `.max()` is the accumulated `max` of the expression's nodes |
| Dice.DiceExpression.RollDice | lib/dice.js:101-111 | a term with no dice yields `op * sides` and leaves the engine's state as it was; otherwise the value is the signed sum of `dices` faces in `[1, sides]`, and the engine has advanced exactly `dices` steps |
| Dice.DiceExpression.RollAll | lib/dice.js:100-117 | one value per term, in term order, each from faces that fit its term; the engine has advanced one step per die of all terms |
| Dice.DiceExpression.Value | lib/dice.js:120-124 | calling the expression gives the sum of the per-term values, which lies between the least and the greatest total; the engine has advanced one step per die |
| Dice.DiceExpression.Roll | lib/dice.js:154-169 | `.roll()` reports one value per term and their sum as `roll`, which lies between the least and the greatest total; the engine has advanced one step per die |
| Dice.Build | lib/dice.js:24-99 | construction fails exactly when the checks fail, with their error; otherwise it yields a new valid object built from the stripped text, holding a new engine at the seed, so the caller may roll it |
| Rolls.Sum | lib/dice.js:121-123 | definition: the `reduce` of the values with `+`, as in lib/dice.js:164-166 too |
| Rolls.TermValue | lib/dice.js:101-111 | definition: `_rollDice` once its faces are known, `op * sides` with no dice and otherwise the signed sum of the faces; `Dice.DiceExpression.RollDice` is proved to compute it |
| Rolls.Values | lib/dice.js:113-115 | definition: `_roll` once the faces are known, one value per term in order; `Dice.DiceExpression.RollAll` is proved to compute it |
| Rolls.DiceCount | lib/dice.js:106-115 | definition: the number of draws a roll of the terms makes, one per die and none for a `dices == 0` term; `Dice.DiceExpression.RollAll` states that the engine advances by it |
| Rolls.SumOfDraws | lib/dice.js:106-109 | the sum of n draws in `[1, sides]` lies in `[n, n * sides]` |
| Rolls.TermValueRange | lib/dice.js:101-111 | a term's roll lies between its least and greatest value, which are `op * dices` and `op * dices * sides` in the order the sign puts them |
| Rolls.ValuesSnoc | lib/dice.js:113-115 | proof step (an unfolding of the definitions): rolling one more term appends its value |
| Rolls.ValuesStep | lib/dice.js:113-115 | proof step of `Dice.DiceExpression.RollAll`: the values of one more term extend those of the prefix |
| Rolls.ValuesPrefix | lib/dice.js:113-115 | proof step (an unfolding of the definitions): the values of a prefix of the terms are the prefix of the values |
| Rolls.Low | lib/dice.js:101-111 | definition: the least value a term can roll, `op * dices` when added and `op * dices * sides` when subtracted; `Rolls.TermValueRange` states that every roll of the term is at least this |
| Rolls.High | lib/dice.js:101-111 | definition: the greatest value a term can roll, the other end; `Rolls.TermValueRange` states that every roll is at most this |
| Rolls.LeastTotal | lib/dice.js:127 | definition: the corrected `min`, the least total a roll can reach; `Rolls.TotalRange` and `Rolls.LeastTotalReached` state that it is the minimum |
| Rolls.GreatestTotal | lib/dice.js:137-138 | definition: the corrected `max`, the greatest total a roll can reach; `Rolls.TotalRange` and `Rolls.GreatestTotalReached` state that it is the maximum |
| Rolls.TotalRange | lib/dice.js:113-124 | the total of any roll lies between the least and the greatest total |
| Rolls.LeastTotalReached | lib/dice.js:101-124 | some roll totals exactly the least total, so it is the minimum |
| Rolls.GreatestTotalReached | lib/dice.js:101-124 | some roll totals exactly the greatest total, so it is the maximum |
| Rolls.MinIsAllOnes | lib/dice.js:71-85 | without zero-count dice, `min` is the total when every die shows one |
| Rolls.MaxIsAllTop | lib/dice.js:72-86 | without zero-count dice, `max` is the total when every die shows its top face |
| Rolls.BoundsTightWithoutSubtraction | lib/dice.js:61-87 | without subtracted or zero-count dice, `min` and `max` are the least and greatest totals |
| Rolls.RollWithinBounds | lib/dice.js:61-124 | for such expressions every roll lies between `min` and `max` |
| Rolls.BoundsSwappedWithOnlySubtraction | lib/dice.js:61-87 | when every dice node is subtracted and none has a zero count, `min` is the greatest total and `max` the least |
| Rolls.RollBetweenBounds | lib/dice.js:61-124 | when all dice nodes share one sign and none has a zero count, every roll lies between `min` and `max`, in whichever order they fall |
| Rolls.ConstantValues | lib/dice.js:102-104 | in an expression of constants each value is the constant with its sign |
| Rolls.ConstantsDrawNothing | lib/dice.js:102-104 | an expression of constants rolls no dice, so rolling it leaves the engine's state unchanged |
| Rolls.ConstantsAreDeterministic | lib/dice.js:102-104 | an expression of constants always rolls the same total, equal to `min` and to `max` |
| Examples.RefusedInputs | test/dice.test.js:8-18 | no input and the number 456 are refused with their messages |
| Examples.NotValidExample | test/dice.test.js:20-24 | `ssss` is refused as not valid, naming the input |
| Examples.NotValidMessage | test/dice.test.js:20-24 | the message for `ssss` |
| Examples.BlankIsNotValid | lib/dice.js:26-42 | a blank string passes the first two checks and fails validation |
| Examples.NineDigitConstant | lib/dice.js:36 | a constant of nine digits is refused |
| Examples.FiveDigitCount | lib/dice.js:36 | a dice count of five digits is refused |
| Examples.Written | lib/dice.js:33-58 | well-formed nodes, written with or without spaces around operators, are accepted as their unspaced text and split back into the same nodes |
| Examples.DigitsBeforeMarker | lib/dice.js:36 | `12d6` is a single dice node |
| Examples.TwelveDiceMatch | lib/dice.js:36 | the node pattern refuses `12d6` as a constant, because of the lookahead, and matches it whole as dice |
| Examples.ZeroCountDice | lib/dice.js:75-79 | `0d6` converts to no dice and six sides, adds nothing to `min` or `max`, and rolls 6 |
| Examples.MinMaxExample | test/dice.test.js:28-38 | `2d20 - 7 + 9` is accepted, splits into its three nodes, and has `min` 4 and `max` 42 |
| Examples.PercentileExample | test/dice.test.js:42-46 | `3d% - d7 + 19` is accepted, splits into its three nodes, and converts to three 100-sided dice, minus one 7-sided die, plus 19; its totals span [15, 318] while the bounds are 21 and 312 |
| Examples.SubtractedAccepted | test/dice.test.js:65-67 | `1 - 2D6 + 20` is accepted and splits into three nodes, converted to three terms |
| Examples.SubtractedDiceExample | test/dice.test.js:68-80 | every roll of those terms gives three values: 1, a negative one, and 20, with a positive total |
| Examples.MinAboveARoll | lib/dice.js:126-145 | for `1 - 2D6 + 20`, `min` is 19 and `max` is 9, two sixes total 9, and the totals span [9, 19] |
| Examples.OppositeDice | lib/dice.js:85-86 | `1d6-1d6` is accepted with `min` and `max` both 0, yet a six and a one roll 5, outside the bounds in either order |
| Examples.ConstantsExample | test/dice.test.js:82-91 | `1000 - 200 - 20` is accepted, splits into its three nodes, and always rolls `[1000, -200, -20]`, total 780 |
| Examples.ConstantsBuilt | test/dice.test.js:82-91 | `1000 - 200 - 20` passes the checks, splits into its three nodes and converts to three constants |
| Examples.ConstantsRolled | test/dice.test.js:82-91 | building `1000 - 200 - 20` and calling `.roll()` on it gives `{roll: 780, dice: [1000, -200, -20]}`, and the engine is still at its seed |
| Examples.DifferenceExample | test/dice.test.js:48-51 | `7-4` is accepted, splits into its two nodes, and always totals 3 |
| Examples.OneDie | test/dice.test.js:53-61 | `1d` and a digit is accepted as one die with that many sides |
| Examples.OneSidedExample | test/dice.test.js:53-56 | `1d1` always totals 1 |
| Examples.OneSidedRolled | test/dice.test.js:53-56 | building `1d1` and calling it gives 1, after exactly one step of the engine |
| Examples.SixSidedExample | test/dice.test.js:58-61 | `1d6` totals between 1 and 6 |

## Left out

- The module export block (AMD, CommonJS, global and `noConflict`, lib/dice.js:174-190) is module plumbing, not logic.
- Dice.Random.Integer: does not model the Mersenne Twister engine or `autoSeed()` of random-js. A draw promises only its range; the uniformity and sequence of draws are not modelled, and the state update is a stand-in step function.
- The callable function with methods attached (lib/dice.js:120-171) is a class whose methods `Value`, `Min`, `Max` and `Roll` stand for the call, `.min`, `.max` and `.roll`.
- Numbers are unbounded integers. JavaScript numbers are doubles, which are exact for these values as long as totals stay below 2^53. A single term is at most 9999 * 9999, or a constant below 10^8.
- `isNaN`, unary `+` and `split(/[dD]/)` are replaced by the grammar's own constant and dice cases, a decimal conversion of digit strings, and the text before and after the marker. On the texts the grammar admits they agree.
- Strings are sequences of characters. UTF-16 surrogate pairs are not modelled; no `\s` character or grammar character is one.
- Dice.DiceExpression.RollDice, RollAll, Roll and Value: require every dice term to have at least one side. The draw `random.integer(1, 0)` for `d0` is defined by random-js, which is not part of this model.
- Dice.Tokenize: requires its text to be an expression. The constructor reaches the tokenizer only after validation.
- The regular-expression engine's `exec` and `lastIndex` mechanics are modelled by `NodeMatch` and a position. A successful match is never empty, so the step past an empty match is not needed.
- The repository's tests are stated about nodes and terms. Each roll lemma quantifies over every set of faces that fits the terms, in place of one random run.
- The documentation example `de.min() // 3` for `2d10 + d6 - 7 + 2` (lib/dice.js:130) is not used. The code yields -2.

## Findings

| source | as written | input that shows it | evidently intended | confidence | as-written member | corrected member |
|---|---|---|---|---|---|---|
| lib/dice.js:85-86 | a dice term adds `op * dices` to `min` and `op * dices * sides` to `max`, which for a subtracted term puts its largest value into `min` and its smallest into `max` | `1 - 2D6 + 20`: `min()` is 19 and `max()` is 9, yet two sixes roll 9, below `min()`; `1d6-1d6`: `min()` and `max()` are both 0, yet a six and a one roll 5; `3d% - d7 + 19`: bounds 21 and 312, while rolls range over [15, 318] | `.min()` and `.max()` are the least and greatest rolled values (lib/dice.js:127 and 137-138) | not executed | Conversion.MinBound, Conversion.MaxBound, Examples.MinAboveARoll, Examples.OppositeDice | Rolls.LeastTotal, Rolls.GreatestTotal, Rolls.TotalRange, Rolls.LeastTotalReached, Rolls.GreatestTotalReached |
