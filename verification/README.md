# ReadableExpressions translation rules, in Dafny

ReadableExpressions turns a .NET expression tree into readable C#-like
source text. A registry maps each node kind (`ExpressionType`) to a
translator. Each translator renders its node and asks the translation
context to render the children. This project models the registry and five
of the translators as pure Dafny functions over immutable datatypes, and
proves properties about the text they produce:

- the kind-to-translator table and how the registry dispatches through it
  (`registry.dfy`, plus `core.dfy`, which registers the modelled
  translators together);
- try/catch/fault/finally rendering. This includes the walk that decides
  whether a catch variable is really used, and the rewrite of
  `throw <name>;` to `throw;` (`try_catch.dfy`);
- switch rendering: case labels, the synthetic `break;`, and the default
  case (`switch.dfy`);
- the 40-character inline/multi-line rule for object and collection
  initialisers, and how the empty brackets of a parameterless constructor
  are stripped (`initialisation.dfy`);
- `@`-escaping of parameter names that are keywords (`parameters.dfy`);
- lambda rendering, `parameters + " =>" + body` (`lambda.dfy`).

Supporting modules:
- `text.dfy` models the .NET string operations the translators call
  (`Trim`, `TrimStart`, `TrimEnd`, `string.Join`, `string.Replace`).
- `code_blocks.dfy` models the code-block layout operations.
- `expressions.dfy` defines the node model and the translation context.
- `wrappers.dfy` defines `Option` (a null reference) and `Result` (an
  operation that can throw).

Modelling choices:
- `Environment.NewLine` is fixed to `"\n"`. The line breaks inside the C#
  verbatim string templates are taken to be the same constant.
- An expression is `Param(id, name)`, `Unary(op, operand)`, `Block(...)`
  or an opaque `Other(kind, children)`. A bare rethrow is a unary node with
  no operand. The source compares parameters by reference; the model
  compares them by `id`.
- A parameter's name, and so a catch variable's name, may be null
  (`Expression.Parameter(typeof(int))` has none). `Registry.Translate` and
  the translators return `Option<string>`, with `None` for null. Where the
  source writes a null name into an interpolated string, it writes nothing
  (`Expressions.NameText`).
- `string.Length` counts UTF-16 code units, so the initialiser's
  40-character rule and its `Substring` cut count code units
  (`Text.Utf16Length`). A character outside the Basic Multilingual Plane
  counts as two.
- These helpers are uninterpreted and passed in as function values:
  - fields of `Expressions.Context`: `context.Translate`,
    `context.TranslateCodeBlock` and `GetFriendlyName`;
  - fields of `Lambda.LambdaFormat`: `GetTranslatedParameters` followed by
    `WithParenthesesIfNecessary`, `GetTranslatedExpressionBody`,
    `AsExpressionBody` and `WithParentheses`;
  - `InternalTypeExtensions.TypeNames`, a parameter of
    `Parameters.Keywords`.
  `context.Translate` returns text. Where the source could get null from
  it, null is only ever interpolated or concatenated, which reads it as
  the empty text, and the empty text is one of the values it may return.
  The registry's node kind and `ToString()` are parameters of
  `Registry.Translate`.
- `CodeBlock` is a sequence of lines plus the two facts the translators
  ask of it: `HasReturn()` and `IsASingleStatement`. In the real code
  these are read from the translated expressions. The model records them
  when the block is built, and its layout operations keep them unchanged.
  `CodeBlock` itself is not part of this model. The layouts used here are
  assumptions:
  - `Indented` puts four spaces in front of every line.
  - `Append` adds a line at the end, and `Insert` adds lines at the front.
  - `WithoutCurlyBraces` joins the lines with line breaks.
  - `WithCurlyBraces` starts a new line and puts the indented lines
    between a `{` line and a `}` line.
  The try/catch proofs use only two facts about `WithCurlyBraces`: its
  text starts with a line break and ends with `}`.
- The caught type is compared with a distinguished `ExceptionType`
  (`typeof(Exception)`).
- .NET's `Expression.SwitchCase` rejects a case without test values.
  `Switch.WellFormed` states this, and the line-level description of a
  switch (`Switch.SwitchLines`) is proved for such switches.

The registry builds its table with `ToDictionary`
(ExpressionTranslatorRegistry.cs line 59). `ToDictionary` throws on a
repeated key. `Registry.ToDictionary` returns an error naming the repeated
kind instead. So construction succeeds only when the declared kind sets
are repeat-free and pairwise disjoint.

Every function in the model is pure. So translating the same node twice
gives the same text by construction; no lemma is needed for it.

## Model

| member | source | states |
|---|---|---|
| `Registry.ToDictionary` | ReadableExpressions/ExpressionTranslatorRegistry.cs:53-59 | building the dictionary from the flattened (kind, translator) list succeeds iff no kind repeats. On success it holds exactly the listed kinds, and each maps to the translator listed with it. On failure the reported kind occurs twice. |
| `Registry.BuildSucceedsIffDisjoint` | ReadableExpressions/ExpressionTranslatorRegistry.cs:53-59 | the registry's table builds iff every translator's declared kinds are repeat-free and no two translators share a kind. |
| `Registry.BuiltTable` | ReadableExpressions/ExpressionTranslatorRegistry.cs:53-59 | a built table's key set is the union of all declared kinds. Each kind maps to the translator that declares it, and that translator is unique. |
| `Registry.Translate` | ReadableExpressions/ExpressionTranslatorRegistry.cs:62-74 | a null node translates to null. A non-null node translates to null only when its kind is in the table and that kind's translator returns null for it. |
| `Registry.NullConsultsNoTranslator` | ReadableExpressions/ExpressionTranslatorRegistry.cs:64-67 | null gives null whatever the table holds, so no translator is consulted. |
| `Registry.DispatchReachesDeclaringTranslator` | ReadableExpressions/ExpressionTranslatorRegistry.cs:71-72 | if a translator declares the node's kind, the result is that translator's output for the node, null included. |
| `Registry.DispatchFallsBack` | ReadableExpressions/ExpressionTranslatorRegistry.cs:71-73 | if no translator declares the node's kind, the result is the node's own string, so dispatch never fails. |
| `Core.TranslateNode` | ReadableExpressions/ExpressionTranslatorRegistry.cs:62-74 | over the modelled translators, the registry returns null exactly for a null node and for a parameter without a name. Every other node gets text. |
| `Core.NullOnlyForUnnamedParameter` | ReadableExpressions/ExpressionTranslatorRegistry.cs:62-74 | once the modelled translators are registered, the table builds, and a non-null node translates to null exactly when it is a parameter without a name. |
| `Core.CoreTableBuilds` | ReadableExpressions/ExpressionTranslatorRegistry.cs:20-59 | the lambda, parameter, switch and try translators declare different kinds (Lambda, Parameter, Switch, Try), so registering them together does not throw. |
| `Core.CoreDispatch` | ReadableExpressions/ExpressionTranslatorRegistry.cs:62-74 | each node reaches the translator of its kind. A try node goes to the try/catch translator, a lambda node to the lambda translator, a parameter node to the parameter translator, and so on. A node of any other kind is rendered as its own string. |
| `TryCatch.VisitFindsMentions` | ReadableExpressions/Translators/TryCatchExpressionTranslator.cs:130-154 | the visitor's walk over a node starts and ends with no pending rethrow. It sets the usage flag iff the catch variable occurs other than as the direct operand of a `throw` of that variable. The `throw` node sets the rethrow flag, and the next parameter visited clears it without counting. |
| `TryCatch.VisitAllFindsMentions` | ReadableExpressions/Translators/TryCatchExpressionTranslator.cs:130-154 | the same for a sequence of sibling nodes walked left to right: the flag is set iff some sibling mentions the variable. |
| `TryCatch.IsVariableUsed` | ReadableExpressions/Translators/TryCatchExpressionTranslator.cs:112-128 | a handler with no variable is never "used". Otherwise the result is true iff the filter or the body mentions the variable other than as the operand of its own rethrow. The body is walked only when the filter showed no usage. |
| `TryCatch.ExceptionClause` | ReadableExpressions/Translators/TryCatchExpressionTranslator.cs:59-75 | with a used variable the clause is ` (T name)`, followed by ` when <filter>` only when a filter exists; a null name is written as nothing. With an unused or absent variable the clause is empty when the type is `Exception` and ` (T)` otherwise, so the filter is dropped. |
| `TryCatch.CatchBody` | ReadableExpressions/Translators/TryCatchExpressionTranslator.cs:47-53 | without a variable, the body is the braced block unchanged. In every case it still ends with the closing brace. |
| `TryCatch.CatchBodyRewritesRethrows` | ReadableExpressions/Translators/TryCatchExpressionTranslator.cs:49-53 | with a variable, the braced text splits into pieces around the occurrences of `throw <name>;`, and no piece contains another occurrence. The rendered body is the same pieces joined by `throw;`. So every occurrence is rewritten and no other text changes. |
| `TryCatch.Translate` | ReadableExpressions/Translators/TryCatchExpressionTranslator.cs:25-39 | the output is, in order, `try` with the braced body, a line break, the catch texts, the fault block and the finally block. It is exactly that when a fault or finally block exists. Otherwise it is that with the final line break removed. |
| `TryCatch.TranslateTrims` | ReadableExpressions/Translators/TryCatchExpressionTranslator.cs:34-38 | `Trim` of the template removes only the leading line break and, when no fault or finally block closes the text, the trailing line break. |
| `TryCatch.TranslateOpensAndCloses` | ReadableExpressions/Translators/TryCatchExpressionTranslator.cs:29-38 | the text starts with `try` and the braced try body. It ends with `finally` and its braced body when a finally block exists, otherwise with `fault` and its braced body when a fault block exists. Otherwise, with the trimmed line break put back, it ends with the last handler's catch text. With no handlers it is the try block alone. |
| `Switch.GetCase` | ReadableExpressions/Translators/SwitchExpressionTranslator.cs:50-60 | the case text is, line by line: each label indented once, each body line indented twice, then an indented `break;` iff the body has no return. It is rendered without braces. |
| `Switch.DefaultCase` | ReadableExpressions/Translators/SwitchExpressionTranslator.cs:78-83 | the default case has the same layout under the single label `default:`. |
| `Switch.Translate` | ReadableExpressions/Translators/SwitchExpressionTranslator.cs:23-48 | for every switch .NET can build, the text is the line list `switch (value)`, `{`, then the cases, then `}`. Each declared case, in order, is its `case v:` labels in test-value order plus its body lines as in `GetCase`. The default case comes last, if any. Cases are separated by one empty line, and a switch with no case at all has one empty line between the braces. |
| `Switch.DefaultCaseLast` | ReadableExpressions/Translators/SwitchExpressionTranslator.cs:62-76 | when a default body exists, the default case's lines are the last lines before the closing brace. |
| `Initialisation.Layout` | ReadableExpressions/Translators/InitialisationExpressionTranslator.Helpers.cs:25-35 | when `Length(new) + Σ(Length(init) + 2) ≤ 40` (40 included, lengths in UTF-16 code units), the result is `new { a, b }`. Otherwise, with entries, it is the lines `new`, `{`, each entry indented four spaces with a comma after all but the last, and `}`. With no entries it is the same but with an empty line between the braces. |
| `Initialisation.MultiLineMatchesLines` | ReadableExpressions/Translators/InitialisationExpressionTranslator.Helpers.cs:30-35 | joining the indented entries with `,` plus a line break gives the same text as the line-by-line form above. |
| `Initialisation.SeparatedLengthInsert` | ReadableExpressions/Translators/InitialisationExpressionTranslator.Helpers.cs:25 | adding an entry anywhere adds its length plus 2 to the counted cost. |
| `Initialisation.AddingEntryKeepsMultiLine` | ReadableExpressions/Translators/InitialisationExpressionTranslator.Helpers.cs:25 | adding an entry never turns a multi-line layout into an inline one. |
| `Initialisation.InlineLength` | ReadableExpressions/Translators/InitialisationExpressionTranslator.Helpers.cs:25-27 | with at least one entry, the inline text is 3 code units longer than the counted cost, so an inline layout is at most 43 code units long. |
| `Initialisation.NewExpressionText` | ReadableExpressions/Translators/InitialisationExpressionTranslator.Helpers.cs:38-52 | text shorter than 2 code units makes `Substring` throw for a parameterless constructor. Otherwise that text loses its last 2 code units, keeping a shorter prefix. A constructor with parameters keeps its text unchanged. |
| `Initialisation.StripsEmptyBrackets` | ReadableExpressions/Translators/InitialisationExpressionTranslator.Helpers.cs:45-49 | `T()` of a parameterless constructor becomes `T`. |
| `Initialisation.Translate` | ReadableExpressions/Translators/InitialisationExpressionTranslator.Helpers.cs:19-49 | the helper fails only when a parameterless constructor's text is shorter than 2 code units. A parameterless constructor written `T()` is laid out as `T` with the entries. A constructor with parameters is laid out with its text as it is. |
| `Parameters.ReservedWordsAreNineteen` | ReadableExpressions/Translators/ParameterExpressionTranslator.cs:19-39 | the listed words are 19 different words. |
| `Parameters.TranslateName` | ReadableExpressions/Translators/ParameterExpressionTranslator.cs:16-51 | a name becomes `@` + name iff it is a type alias or one of the listed words; any other name stays itself. The result ends with the name and is as long as the name or one longer. |
| `Parameters.Translate` | ReadableExpressions/Translators/ParameterExpressionTranslator.cs:47-51 | an unnamed parameter renders as null, and a named one renders as text. That text starts with `@` before the name exactly when the name is reserved. Reading it back recovers any name that does not start with `@`. |
| `Parameters.TranslateIgnoresContext` | ReadableExpressions/Translators/ParameterExpressionTranslator.cs:47-48 | the context plays no part, and only the parameter's name matters. |
| `Parameters.UnescapeInvertsTranslateName` | ReadableExpressions/Translators/ParameterExpressionTranslator.cs:50-51 | removing a leading `@` before a keyword recovers any name that does not itself start with `@`. |
| `Parameters.TranslateNameInjective` | ReadableExpressions/Translators/ParameterExpressionTranslator.cs:50-51 | two names that do not start with `@` render alike only when they are equal. |
| `Lambda.Translate` | ReadableExpressions/Translators/LambdaExpressionTranslator.cs:12-25 | when the parameter text holds no ` =>` of its own, the rendering reads back, at its first ` =>`, into exactly that parameter text and that body text. The body is `AsExpressionBody` of a single-statement block and `WithParentheses` of any other (`Lambda.BodyText`). |
| `Lambda.ArrowFoundAfterParameters` | ReadableExpressions/Translators/LambdaExpressionTranslator.cs:24 | in `parameters + " =>" + body`, the first ` =>` is the one right after the parameters whenever the parameter text contains none. |

The lambda translator declares only `ExpressionType.Lambda`
(LambdaExpressionTranslator.cs line 8). This is `Lambda.NodeTypes`, and
`Core.CoreDispatch` shows that lambda nodes reach it.

## Left out

- The other translators in the registry's list (ExpressionTranslatorRegistry.cs lines 20-51): their source is not part of this model, so neither are their declared kinds. `Core` registers only the four modelled translators whose kinds are known.
- The registry's mutual recursion: every translator gets the registry's own `Translate` as its context. The model passes the context in as an uninterpreted parameter instead of tying that knot.
- The internals of `CodeBlock`, `TranslationContext`, `GetFriendlyName`, `TypeNames`, `GetTranslatedParameters`, `GetTranslatedExpressionBody`, `WithParenthesesIfNecessary`, `AsExpressionBody` and `WithParentheses`. Their source is not part of this model. They are the uninterpreted parameters, or the assumed `CodeBlock` layouts, listed under the modelling choices above.
- `GetInitialisations`, the abstract `GetNewExpression` and `ConstructorIsParameterless` (InitialisationExpressionTranslator.Helpers.cs lines 54-60): subclasses implement them, and their source is not part of this model. `Initialisation.Translate` therefore takes the translated constructor text, the parameterless flag and the translated entries as inputs.
- Initialisation.NewExpressionText: suppose the last two code units are a character of its own preceded by the second half of a surrogate pair. Then `Substring` leaves an unpaired high surrogate, which a Dafny string cannot hold. The model drops the whole pair instead. Its length clause is stated only for text that does not end this way (`Initialisation.SplitsSurrogatePair`).
- Switch.Translate: the line-level clause is stated for switches .NET can build (`Switch.WellFormed`). A case with no test values cannot be built. The text-level clause holds for every switch.
- The .NET `ExpressionVisitor` base traversal. The model walks its own `Expr` in pre-order: a unary node's operand, then a block's or opaque node's children in order. Variables declared by nested blocks, lambdas or handlers are visited only if they are listed among an opaque node's children.
- `char.IsWhiteSpace` is modelled by its fixed list of Unicode space characters. No other Unicode data is modelled.
- The invalid cast a translator would hit if handed a node of the wrong class. In .NET a node's kind fixes its class, so the table never does this. `Core.CoreDispatch` assumes that opaque nodes carry kinds the four translators do not declare, and that parameter nodes hold parameters.
- A recursion-depth guard: the code has none, so none is modelled.
- The debugger-visualizer host and the assembly metadata: they contain no translation logic.
