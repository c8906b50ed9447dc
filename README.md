# Zero-copy primitive parsers, modelled in Dafny

This project models the primitive layer of chumsky's zero-copy parser
engine (`src/zero_copy/primitive.rs`): the single-step matchers `end`,
`empty`, `just`, `one_of`, `none_of`, `filter` and `any`, and the ordered,
backtracking alternation `choice`. Each of them reads tokens through an input
cursor and runs under a mode (Check or Emit) that only decides whether an
output value is built.

Layout:

- `input.dfy`, module `Input`: the cursor. `Cursor` is a class over an
  immutable token sequence `input` with a mutable position `pos`; its methods
  `Next`, `Save` and `Rewind` change `pos` as the engine's input reference
  does. `NextAt` gives the same `next` step as a function.
- `modes.dfy`, module `Modes`: `Mode` (Check | Emit), the mode-shaped output
  `Out`, `Bind` (`M::bind`), the payload-free `Error` and the result type
  `PResult`.
- `primitive.dfy`, module `Primitive`: the `Seq` patterns (`Pat`, iterated by
  `Iter`: a single value iterates once, an array or string its elements), the
  combinator values (`Parser`, one constructor per combinator; `Any()` is
  `Filter` with an always-true predicate), and for each combinator a
  specification function `Parse…` and a `Go…` method. The `Go…` methods are
  the imperative model of each `go`: they call `inp.Next()`, `Save` and
  `Rewind` on a `Cursor` the way the Rust code does (Just's `loop` becomes a
  `while` loop over the pattern, Choice's unrolled arms become a loop over the
  arms). Each method is proved to end with the result and cursor position
  that the matching `Parse…` function gives for the entry position.
- `properties.dfy`, module `PrimitiveProperties`: the lemmas. They cover Just's
  success condition and where it stops on failure, ordered first-match Choice,
  mode equivalence, output typing, and concrete runs on character input.

Behaviour worth knowing before reading the contracts:

- End, OneOf, NoneOf and Filter call `next()` before deciding. So a failure on
  a present token leaves the cursor one past the entry position: `end()` on
  `"x"` fails at 1 (`EndConsumesOnFailureScenario`). Only Choice restores the
  position.
- Choice exists only with at least one arm: there is no zero-arity impl.
  `WellTyped` encodes this and, approximately, the typing rule that all arms
  share one output type; the output-typing lemmas assume it. The `Go` methods
  and the specification functions do not need it, so they also define an
  empty `Choice`, which fails without moving.
- `ChoiceScenario` uses `just('a')` and `just('b')`. With string patterns the
  arms would output `&str` while `any()` outputs `char`, which Rust rejects
  (`StringChoiceIllTyped`).

## Model

| member | source | states |
|---|---|---|
| Input.NextAt | src/zero_copy/primitive.rs:19 | when a token is left, `next` yields the token at the cursor and moves one step; at end of input it yields nothing and does not move |
| Input.Cursor.Next | src/zero_copy/primitive.rs:164 | the cursor method: it returns the token at the cursor and advances by one; at end of input it returns None and leaves `pos` unchanged |
| Input.Cursor.Save | src/zero_copy/primitive.rs:352 | a checkpoint holds exactly the current position, and saving changes nothing |
| Input.Cursor.Rewind | src/zero_copy/primitive.rs:359 | after a rewind the cursor is exactly at the checkpoint's position |
| Modes.Bind | src/zero_copy/primitive.rs:20 | `M::bind` yields a value only under Emit, and that value is the one given; under Check it yields the discarded unit |
| Primitive.Iter | src/zero_copy/primitive.rs:57-115 | `Seq::iter`: a single value iterates once, as `[v]`; an array or a string iterates as its elements, in order |
| Primitive.PatValue | src/zero_copy/primitive.rs:168 | the clone Just emits: a single-value pattern comes back as that token, a collection as the collection; either way its elements are what the pattern iterates |
| Primitive.Any | src/zero_copy/primitive.rs:317-319 | `any()` is a filter whose predicate accepts every token |
| Primitive.OutputKind | src/zero_copy/primitive.rs:16-349 | the declared output type of each combinator: unit for End (:16) and Empty (:41), the pattern value's type for Just (:158), the token for OneOf (:212), NoneOf (:260) and Filter (:303), and for a Choice its first arm's type (:349) |
| Primitive.WellTyped | src/zero_copy/primitive.rs:334-349 | a well-typed Choice has at least one arm, and any two arms (as computed by `OutputKind`) have the same output type, which is the Choice's own |
| Primitive.ParseEnd | src/zero_copy/primitive.rs:18-23 | End succeeds iff no token is left at the cursor; on success the cursor is unchanged and the output is unit; on failure the token read has been consumed (cursor one step on) |
| Primitive.ParseEmpty | src/zero_copy/primitive.rs:43-45 | Empty always succeeds with unit output and leaves the cursor where it was |
| Primitive.MatchFrom | src/zero_copy/primitive.rs:161-170 | Just's loop never moves the cursor backward or past the end of input; when it completes, it has advanced by exactly the number of remaining pattern elements |
| Primitive.ParseJust | src/zero_copy/primitive.rs:160-171 | on success the cursor has advanced by exactly the pattern's length and Emit yields a copy of the pattern value, not the consumed tokens; the cursor never leaves `[entry, end of input]` |
| Primitive.ParseOneOf | src/zero_copy/primitive.rs:214-218 | OneOf succeeds iff a token is present and equals some element of the pattern; it consumes exactly one token whenever one is present, success or not, emits that token, and fails at end of input |
| Primitive.ParseNoneOf | src/zero_copy/primitive.rs:262-266 | NoneOf succeeds iff a token is present and equals no element of the pattern; it consumes one token whenever one is present, emits that token, and fails at end of input |
| Primitive.ParseFilter | src/zero_copy/primitive.rs:305-310 | Filter succeeds iff a token is present and the predicate holds for it; it consumes one token whenever one is present, emits that token, and fails at end of input |
| Primitive.Parse | src/zero_copy/primitive.rs:18-363 | every combinator, Choice included, leaves the cursor between its entry position and the end of input, and a success carries an output value exactly when the mode is Emit |
| Primitive.ParseChoiceFrom | src/zero_copy/primitive.rs:352-363 | the cursor ends between the entry position and the end of input; a failure ends exactly at the entry position; a success carries an output value exactly under Emit |
| Primitive.GoEnd | src/zero_copy/primitive.rs:18-23 | End's `go` on a cursor ends with the result and position ParseEnd gives for the entry position |
| Primitive.GoEmpty | src/zero_copy/primitive.rs:43-45 | Empty's `go` touches nothing and yields ParseEmpty's result at the current position |
| Primitive.GoJust | src/zero_copy/primitive.rs:160-171 | Just's `loop` steps through the pattern and the cursor together; it ends with ParseJust's result and position, never rewinding |
| Primitive.GoOneOf | src/zero_copy/primitive.rs:214-218 | OneOf's `go` ends with ParseOneOf's result and position |
| Primitive.GoNoneOf | src/zero_copy/primitive.rs:262-266 | NoneOf's `go` ends with ParseNoneOf's result and position |
| Primitive.GoFilter | src/zero_copy/primitive.rs:305-310 | Filter's `go` ends with ParseFilter's result and position |
| Primitive.Go | src/zero_copy/primitive.rs:357 | running any combinator on a cursor ends with Parse's result and position |
| Primitive.GoChoice | src/zero_copy/primitive.rs:351-364 | Choice saves once, tries its arms in order, rewinds after each failure and returns the first success; it ends with Parse's result and position |
| PrimitiveProperties.AnySucceedsIff | src/zero_copy/primitive.rs:315-319 | Any succeeds iff input is not exhausted, consuming and emitting the token |
| PrimitiveProperties.OneOfNoneOfComplement | src/zero_copy/primitive.rs:214-266 | on a present token exactly one of OneOf(s) and NoneOf(s) succeeds; at end of input both fail; both end at the same position |
| PrimitiveProperties.MatchFromIff | src/zero_copy/primitive.rs:161-170 | the loop from element k completes iff the tokens at the cursor equal the rest of the pattern, element by element |
| PrimitiveProperties.JustSucceedsIff | src/zero_copy/primitive.rs:160-171 | Just(p) succeeds iff the next pattern-length tokens equal p's elements in order; then cursor = entry + length and Emit yields the pattern value |
| PrimitiveProperties.JustEmptyPattern | src/zero_copy/primitive.rs:168 | an empty pattern succeeds at once and consumes nothing |
| PrimitiveProperties.MatchFromStopsAtFirstMismatch | src/zero_copy/primitive.rs:164-166 | a failing loop gives the index of its first mismatch and the cursor just past the mismatching token, or at end of input |
| PrimitiveProperties.JustFailsAtFirstMismatch | src/zero_copy/primitive.rs:164-166 | a failing Just does not rewind: it stopped at the first mismatching element, with the cursor just past the token read there, or at end of input if the input ran out |
| PrimitiveProperties.ChoiceFromFirstSuccess | src/zero_copy/primitive.rs:356-361 | from arm i on, if arm k is the first to succeed, the outcome is exactly arm k's |
| PrimitiveProperties.ChoiceFirstSuccess | src/zero_copy/primitive.rs:352-361 | ordered first match: if arm k is the first arm that succeeds from the entry position, Choice's result, output and cursor are exactly arm k's |
| PrimitiveProperties.ChoiceFromWinner | src/zero_copy/primitive.rs:356-361 | a successful run from arm i on names the arm that won; every earlier arm failed |
| PrimitiveProperties.ChoiceSuccessHasWinner | src/zero_copy/primitive.rs:352-361 | a successful Choice owes its whole outcome to some arm k that succeeded from the entry position, every earlier arm having failed from there |
| PrimitiveProperties.ChoiceFromAllFail | src/zero_copy/primitive.rs:356-363 | a run from arm i on fails iff every remaining arm fails from the entry position |
| PrimitiveProperties.ChoiceFailsIff | src/zero_copy/primitive.rs:352-363 | Choice fails iff every arm fails from the entry position, and then the cursor is exactly back at the entry position |
| PrimitiveProperties.ChoiceIgnoresLaterArms | src/zero_copy/primitive.rs:358 | once an arm succeeds no later arm matters: adding arms after a succeeding prefix leaves the outcome unchanged |
| PrimitiveProperties.ModeEquivalence | src/zero_copy/primitive.rs:18-363 | for every combinator, Check and Emit runs agree on success or failure and on the final cursor; the Check result is the Emit result with its output dropped |
| PrimitiveProperties.ModeEquivalenceFrom | src/zero_copy/primitive.rs:357-359 | the same agreement for Choice's arms from arm i on |
| PrimitiveProperties.OutputHasDeclaredKind | src/zero_copy/primitive.rs:342-349 | a well-typed combinator emits a value of its declared output type; a Choice emits the type shared by all its arms |
| PrimitiveProperties.OutputHasDeclaredKindFrom | src/zero_copy/primitive.rs:347-358 | the same for Choice's arms from arm i on |
| PrimitiveProperties.ChoiceWellTypedIff | src/zero_copy/primitive.rs:335-347 | a Choice is accepted iff it has an arm, every arm is accepted, and any two arms have the same output type |
| PrimitiveProperties.StringChoiceIllTyped | src/zero_copy/primitive.rs:347 | `choice((just("a"), just("b"), any()))` is not accepted: the string arms' output type differs from `any()`'s |
| PrimitiveProperties.UnitTokenChoiceScenario | src/zero_copy/primitive.rs:347-363 | over `()` tokens, `choice((end(), any()))`, which Rust accepts, is not `WellTyped`, yet Choice still runs it: on one `()` token End fails, the cursor is rewound and Any emits the token with the cursor at 1 |
| PrimitiveProperties.JustPrefixScenario | src/zero_copy/primitive.rs:160-171 | `just("ab")` on `"abc"` emits `"ab"` with the cursor at 2 |
| PrimitiveProperties.JustMismatchScenario | src/zero_copy/primitive.rs:164-166 | `just("ax")` on `"abc"` fails with the cursor at 2, past the mismatching `b` |
| PrimitiveProperties.OneOfScenario | src/zero_copy/primitive.rs:214-216 | `one_of("abc")` on `"abc"` emits `'a'` with the cursor at 1 |
| PrimitiveProperties.EndAtEndScenario | src/zero_copy/primitive.rs:19-20 | `end()` on `""` succeeds with unit output and the cursor at 0 |
| PrimitiveProperties.EndConsumesOnFailureScenario | src/zero_copy/primitive.rs:19-21 | `end()` on `"x"` fails with the cursor at 1: the token read is consumed |
| PrimitiveProperties.ChoiceScenario | src/zero_copy/primitive.rs:352-363 | `choice((just('a'), just('b'), any()))` is well typed, and on `"z"` it emits `'z'` with the cursor at 1 after the first two arms fail and are rewound |

## Left out

- Rust plumbing: `PhantomData`, the `Copy`/`Clone` impls, lifetimes, the parser state parameter `S` and the `go_extra!` macro carry no behaviour. They are not modelled.
- The real `Input`/`InputRef` types are not part of this model. `Cursor` stands in for them with exactly the `next`/`save`/`rewind` contract the primitives rely on.
- The error payload (position, expected, found) and the unused `(at, found)` bindings of OneOf and NoneOf are not modelled: the error is the bare `NoMatch`.
- The generic associated-type machinery of `Seq` is reduced to `Pat`: a single value (`Once`) or a collection (`Many`). Collection patterns of different Rust types (arrays of different lengths, arrays and array references, strings) share one kind, so `WellTyped` admits some Choices whose arms Rust would reject as having different output types. The UTF-8 decoding of `str::chars` is not modelled: a string is its sequence of characters.
- Token equality is Dafny's structural equality. A `PartialEq` other than structural equality is not modelled, so on success Just's emitted pattern and the consumed tokens coincide here, which need not hold in Rust.
- Filter's closure is a total, pure predicate. Fallible or stateful closures are not modelled.
- The tuple-macro expansion of `choice` is replaced by a non-empty sequence of arms. The limit of 25 arms (`R_` is missing from the macro's list) is not modelled.
- Modes.Bind takes the value rather than a closure. Under Check the value is never used, but Dafny's pure functions cannot observe whether it was computed.
- There is no dynamic dispatch: `Parser` is a closed datatype of the primitives and Choice. Higher-level combinators are not part of this model.
- Input.Cursor.Next: also returns the offset it read at. The primitives bind it as `_` or `at` and never use it, and `InputRef` is defined outside primitive.rs, so primitive.rs does not fix what that offset means.
- Primitive.WellTyped: kinds keep the unit of End and Empty apart from a token of type `()`. So `WellTyped` also rejects some Choices Rust accepts, such as `end()` next to `any()` over unit tokens; the `Go` methods and `Parse` do not require it, so only the output-typing lemmas are affected.
- Primitive.Any: its token type is limited to types whose values hold no heap references (`T(!new)`), so that the contract can quantify over every token. Tokens are plain values throughout this model.
