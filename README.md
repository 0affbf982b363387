# Incremental line lexing and the recursive-primary-expression type rule

This project models two pieces of a Power Query language-tooling library in Dafny and proves properties about them.

**The incremental lexer's line store** (`lexer.dfy`, module `Lexer`). A lexer state is a sequence of lines. Each line has a kind, a mode it is entered in (`lineModeStart`), a mode it is left in (`lineModeEnd`) and its text. `Lex` splits a document at its line terminator and lexes the lines in order, the first from `Default`. `UpdateLine` replaces one line's text and re-lexes that line from its existing start mode. When the line's end mode changes, the new mode cascades into the following lines, each re-lexed with its own text, until a line's end mode comes out as it was before. The character-level scanner is a parameter `scan`, which maps a start mode and a text to an end mode and an error flag. Everything is proved for every scanner. The main results are:
- `UpdateLine` keeps the state invariant: the first line starts in `Default`, every line agrees with the scanner, and each line's end mode is the next line's start mode.
- On a valid state, the incremental update equals lexing every text again from scratch (`UpdateLineIsFullRelex`).

`lexer_scenarios.dfy` (module `LexerScenarios`) restates the test suite's scenarios. They are proved for every scanner that agrees with the mode facts the tests show, for example that `foo` lexes `Default → Default` and a lone `"` lexes `Default → String`.

**The type rule for a postfix/member chain** (`inspect_type.dfy`, module `InspectType`). The tree is an abstract read-only index: the child at a given attribute index, and a node's ordered children. The types of other nodes come from a type oracle, which stands for the recursive inspection of those nodes. The method `InspectTypeRecursivePrimaryExpression` follows the source's guard chain and its loop over the trailing expressions. It is proved equal to the pure function `RecursivePrimaryExpressionType`. Missing pieces degrade to `Unknown`. A child of a kind the rule does not allow, a broken tree, is returned as a `TreeError` rather than absorbed into `Unknown`. It also returns the nodes it handed to the oracle, in order, so that "each trailing expression is inspected once, left to right" and "an absorbing head stops the rule" can be stated.

`wrappers.dfy` holds the `Option` and `Result` datatypes that both modules use.

## Model

| member | source | states |
|---|---|---|
| `Lexer.UpdateLine` | src/test/lexer/incremental.ts:17-130 | A negative line number fails with `LineNumberNegative(n)`. A line number at or past the line count fails with `LineNumberTooLarge(n, numLines)`. Any other line number succeeds. The line count and the terminator are kept. Lines before the edit are equal to before. The edited line keeps its start mode and gets the new text and the end mode the scanner gives. No other line's text changes. If the end mode is unchanged, every other line is equal to before. |
| `Lexer.Cascade` | src/test/lexer/incremental.ts:134-243 | A cascade from line `i` keeps the length and every text, and leaves lines before `i` alone. Line `i` is re-lexed from the given mode. A later line changes exactly when its predecessor's end mode changed, and it is then re-lexed from that new mode. |
| `Lexer.LexLines` | src/test/lexer/incremental.ts:80-86 | Lexing texts in order keeps the texts. The first line starts in the given mode. The lines form a chain: each agrees with the scanner and starts in the mode its predecessor ended in. |
| `Lexer.Lex` | src/test/lexer/incremental.ts:80-86 | Lexing a document yields at least one line and a valid state. Joining the line texts with the terminator gives back the document. |
| `Lexer.Split` | src/test/lexer/incremental.ts:80-80 | Splitting always yields at least one piece. A text shorter than the terminator, the empty text included, is a single piece, so `""` splits into `[""]`. |
| `Lexer.SplitCutsEverywhere` | src/test/lexer/incremental.ts:80-86 | With a one-character terminator, the text is cut at every occurrence, leftmost first: no piece contains the terminator, and there is one piece more than the text has terminators. |
| `Lexer.SplitTrailingTerminator` | src/test/lexer/incremental.ts:80-80 | With a one-character terminator, a text that ends in the terminator has an empty last piece. |
| `Lexer.LexCutsAtEveryTerminator` | src/test/lexer/incremental.ts:80-86 | With a one-character terminator, lexing a document yields one line per terminator plus one, and no line's text contains the terminator. Together with the round trip of `Lexer.Lex`, this fixes the lines' texts. |
| `Lexer.LexJoined` | src/test/lexer/incremental.ts:80-86 | Lexing pieces joined by a one-character terminator that none of them contains gives exactly the lexing of those pieces, in order, the first from `Default`. |
| `Lexer.JoinSplit` | src/test/lexer/incremental.ts:80-80 | Splitting a document at the terminator and joining the pieces gives back the document. |
| `Lexer.SplitJoin` | src/test/lexer/incremental.ts:80-80 | Joining lines that do not contain a one-character terminator, then splitting the result, gives back the lines. |
| `Lexer.CascadeKeepsValid` | src/test/lexer/incremental.ts:144-150 | A cascade that starts at a line entered in the right mode, with consistent lines on both sides, yields a valid state. |
| `Lexer.UpdateLineKeepsValid` | src/test/lexer/incremental.ts:144-150 | Updating a valid state succeeds and yields a valid state. The first line starts in `Default`, every line agrees with the scanner, and end modes match the next start modes. |
| `Lexer.ValidUnique` | src/test/lexer/incremental.ts:10-13 | Two valid states with the same texts are equal line by line, so the texts alone determine a valid state. |
| `Lexer.ValidIffLexed` | src/test/lexer/incremental.ts:80-86 | A line sequence is valid if and only if it equals the lexing of its own texts from `Default`. |
| `Lexer.UpdateLineIsFullRelex` | src/test/lexer/incremental.ts:134-243 | On a valid state, the incremental update gives the same lines as lexing all texts from scratch with the edited one replaced. |
| `Lexer.UpdateLineSettlesInMode` | src/test/lexer/incremental.ts:144-150 | Suppose the edited line now ends in mode `m`, and every later text lexed from `m` ends in `m`. Then every later line is entered and left in `m`, with its text unchanged. This covers both the `Default` to `String` and the `String` to `Default` cascades. |
| `Lexer.UpdateLineSameTextIsIdentity` | src/test/lexer/incremental.ts:88-94 | Rewriting a line of a valid state with its current text returns the state unchanged. |
| `Lexer.UpdateLineIdempotent` | src/test/lexer/incremental.ts:88-94 | Applying the same update twice gives the same state as applying it once. |
| `LexerScenarios.TestFactsSatisfiable` | src/test/lexer/incremental.ts:36-74 | The scanner facts the tests rely on are consistent: a scanner that switches between `Default` and `String` on any line holding a quote meets them. |
| `LexerScenarios.UpdateOutOfRange` | src/test/lexer/incremental.ts:17-30 | The empty document has one line. Updating line -1 fails with the "< 0" bound. Updating line 1 or 2 fails with the ">= numLines" bound against 1 line. |
| `LexerScenarios.SingleLineUpdates` | src/test/lexer/incremental.ts:35-75 | `foo` to `foobar` stays `Default → Default`. `foo` to `"` becomes `Default → String`. `"` to `foobar` returns to `Default → Default`. Every line is `Touched`. |
| `LexerScenarios.NoModeChange` | src/test/lexer/incremental.ts:78-132 | Rewriting any one of `alpha`/`bravo`/`charlie` to `foobar` changes that line's text only. Every line stays `Default → Default`. |
| `LexerScenarios.DefaultToString` | src/test/lexer/incremental.ts:134-188 | Rewriting line n of `alpha`/`bravo`/`charlie` to `"` makes it `Default → String`. Every later line becomes `String → String`. Earlier lines are unchanged. |
| `LexerScenarios.StringToDefaultFirst` | src/test/lexer/incremental.ts:191-207 | `"`/`bravo`/`charlie` with line 0 rewritten to `foobar` is all `Default → Default`. |
| `LexerScenarios.StringToDefaultMiddle` | src/test/lexer/incremental.ts:209-225 | `alpha`/`"`/`charlie` with line 1 rewritten to `foobar` is all `Default → Default`. The line before it is unchanged. |
| `LexerScenarios.StringToDefaultLast` | src/test/lexer/incremental.ts:227-243 | `alpha`/`bravo`/`"` with line 2 rewritten to `foobar` is all `Default → Default`. The lines before it are unchanged. |
| `InspectType.RecursivePrimaryExpressionType` | src/inspection/type/inspectType/inspectTypeRecursivePrimaryExpression.ts:8-50 | The rule as a function. Without a head, the type is `Unknown`. A `None` or `Unknown` head type is returned as it is. The only error is a broken tree: a child at attribute index 1 of this node that is not an `ArrayWrapper`, reported with its kind. |
| `InspectType.InspectTypeRecursivePrimaryExpression` | src/inspection/type/inspectType/inspectTypeRecursivePrimaryExpression.ts:8-50 | The returned result, a type or a broken-tree error, is the rule's result. With no head, nothing is inspected. Otherwise the head is inspected first. An absorbing head type stops the rule after the head. With no trailing list, nothing beyond the head is inspected. Otherwise each trailing expression is inspected exactly once, left to right. |
| `InspectType.MissingHeadIsUnknown` | src/inspection/type/inspectType/inspectTypeRecursivePrimaryExpression.ts:11-19 | No child at attribute index 0 gives `Unknown`. |
| `InspectType.AbsorbingHead` | src/inspection/type/inspectType/inspectTypeRecursivePrimaryExpression.ts:21-24 | A head typed `None` or `Unknown` is returned as it is. The result does not depend on anything in the tree or the oracle beyond the head. |
| `InspectType.MissingWrapperIsUnknown` | src/inspection/type/inspectType/inspectTypeRecursivePrimaryExpression.ts:26-33 | A typed head with no child at attribute index 1 gives `Unknown`, not the head's type. |
| `InspectType.MismatchedWrapperFails` | src/inspection/type/inspectType/inspectTypeRecursivePrimaryExpression.ts:26-30 | A typed head next to a child at attribute index 1 that is not an `ArrayWrapper` fails with that child's kind instead of degrading to `Unknown`. |
| `InspectType.FailsExactlyOnMismatchedWrapper` | src/inspection/type/inspectType/inspectTypeRecursivePrimaryExpression.ts:21-33 | The rule fails if and only if the head is present with a type other than `None` or `Unknown` and the child at attribute index 1 is not an `ArrayWrapper`. |
| `InspectType.MissingChildrenIsUnknown` | src/inspection/type/inspectType/inspectTypeRecursivePrimaryExpression.ts:35-41 | A typed head whose wrapper's children cannot be found gives `Unknown`. |
| `InspectType.LastTrailingDecides` | src/inspection/type/inspectType/inspectTypeRecursivePrimaryExpression.ts:43-49 | With a typed head and a non-empty trailing list, the rule succeeds with the last expression's type. Oracles that agree on the head and the last expression give the same result, so earlier types do not matter. |
| `InspectType.EmptyTrailingIsHead` | src/inspection/type/inspectType/inspectTypeRecursivePrimaryExpression.ts:43-49 | With an empty trailing list, the result is the head's type. |
| `InspectType.ResultHasASource` | src/inspection/type/inspectType/inspectTypeRecursivePrimaryExpression.ts:8-50 | When the rule succeeds, the result is `Unknown`, the head's type or the type of one of the trailing expressions. |

## Left out

- `LineMode.Comment` stands for a further mode that a line can leave open, a multi-line comment. No test and no scanner fact uses it.
- The character-level scanner is a parameter. The model does not contain the scanner itself: tokens, string recognition and comment recognition. The only facts about it are those the tests show, collected in `LexerScenarios.TestFacts`.
- Per-line tokens are not modelled. A line is the abridged view the tests compare: kind, start mode, end mode and text.
- Line kinds other than `Touched` and `TouchedWithError` are not modelled. Their producers are not part of this model.
- The exact error messages of the invariant errors are not modelled. `UpdateError` keeps which bound failed and the compared values.
- The fourth argument of `updateLine` is not modelled. The tests always pass `undefined`.
- `Lexer.Lex` requires a non-empty line terminator. Splitting at an empty terminator, which splits into characters, is not modelled.
- `UpdateLine` treats the new text as one line's text. A replacement text that contains the terminator is not split into several lines.
- `Lexer.SplitJoin`, `Lexer.SplitCutsEverywhere`, `Lexer.SplitTrailingTerminator`, `Lexer.LexCutsAtEveryTerminator` and `Lexer.LexJoined` are proved only for one-character terminators. This is the shape of the tests' `\n`. For longer terminators, only the round trip `Lexer.JoinSplit` is proved.
- The full type catalogue is reduced to `None`, `Unknown` and `Other`, because the rule tells only these apart.
- The recursive inspection of other nodes is reduced to an oracle (`TypeOracle`). So is the session cache and the per-kind dispatch. Their code is not part of this model. The head is typed by applying the oracle to the head node, where the source re-fetches the child at attribute index 0.
- The tree helpers `maybeXorChildByAttributeIndex` and `expectXorChildren` are not part of this model. They are modelled as lookups in an abstract index (`MaybeChildByAttributeIndex`, `MaybeChildren`). A child whose kind the caller does not allow is a broken tree, which the design treats as fatal. The model returns it as a `TreeError` value instead of raising it. Other tree inconsistencies, such as duplicate ids or dangling child references, cannot be expressed in the abstract index.
- The kind assertion at the start of the rule is a precondition of `InspectType.InspectTypeRecursivePrimaryExpression`. The invariant error it raises otherwise is not modelled as a value.
- The rule returns `Unknown` when the trailing-operations wrapper is missing, even though the head is typed. The model keeps this behaviour.
