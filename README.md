# option_chain_tool in Dafny

`option_chain_tool` provides the procedural macro `opt!`, which turns an
optional chain such as `test_struct.value?.my_vec?.get(0)?.name` into nested
`if let` expressions: each `?.` tests the value before it with `Some(..)`,
`?Ok.` with `Ok(..)` and `?Err.` with `Err(..)`, every failed test yields
`None`, and the innermost expression yields `Some(____v)`.

This project models the macro's two stages on token trees:

- `Tokens` — the data model: token trees (`Ident`, `Punct`, `Literal`,
  `Group`), the variants `Root | Option | Ok | Err | Required` and the
  segments (`variant`, `tokens`).
- `Segmenter` — `split_on_optional_variants`. The scanning loop is the
  method `SplitOnOptionalVariants`, proved equal to the function `Split`,
  which is built in layers: `ScanAt` (one loop iteration), `Lex` (the
  lexemes of the whole scan: kept tokens and recognised markers), `Gather`
  (the segments the loop pushes), `Shift` (each segment takes the variant of
  the next one) and the rule for the last token. Partners: `Unlex` spells
  lexemes back out, and `Render` writes a well-formed chain from its spans
  and markers; the lemmas prove that the scan inverts both.
- `Builder` — `some_wrapper`, `if_let` and `opt`. `IfLet` returns the
  emitted tokens or the panic. `Opt` is the loop of `opt` over the reversed
  segments, proved equal to the function `Build`. Partner: the decoder
  `DecodeIfLet`/`Unnest`, which takes nested `if let`s apart; the lemmas
  prove that decoding the output gives back one layer per segment. `Unnest`
  decodes a given number of nested `if let`s; the lemmas give it the number
  of segments.
- `Scenarios` — chains from the repository's demo programs and corner cases
  of the scanner, with their segments and expansions.

The model follows the code, including these behaviours:

- The last segment's variant comes from the last input token alone: `?`
  gives `Option`, an identifier `Ok` or `Err` gives `Ok` or `Err`, anything
  else gives `Required`. A chain that ends in a field named `Ok` is
  therefore an `Ok` test.
- An empty span is not rejected. A marker that finds the current span empty
  pushes nothing but still makes its check the active one. So of two
  adjacent markers the second decides the check of the span before them and
  the first leaves no trace; a leading `?.` closes nothing and its check
  never reaches a segment; a trailing `?.` leaves an empty last segment; and
  the input `?.` alone is one empty `Required` segment, expanded into an
  `if let`, where empty input panics.
- A `Required` last segment still gets an `if let (____v) = & ...`; it is
  not emitted as a direct `Some(...)`.
- Every segment, the last included, becomes one `if let`, so the nesting
  depth is the number of segments.
- A chain with one segment gets a single `if let` with an empty then-block
  and no `Some(____v)` (for example `user.age?`). The model states this
  as the code does; it does not repair it.
- Empty input is not rejected by the segmenter: it yields one `Root`
  segment with no tokens, and `if_let` then panics with
  "if_let called with Root variant". The model returns that panic as
  `Panicked`.

## Model

| member | source | states |
|---|---|---|
| Segmenter.SplitOnOptionalVariants | src/lib.rs:133-227 | the scanning loop, the shift loop and the last-token rule compute exactly `Split(input)` |
| Segmenter.ScanAt | src/lib.rs:140-196 | one iteration consumes at least one token and emits at most one lexeme; a token other than `?` is kept and consumes exactly itself; a `?` it starts from is itself never kept |
| Segmenter.SegmentCount | src/lib.rs:179-201 | the number of segments is one more than the number of markers that close a non-empty span |
| Segmenter.SpansNonEmpty | src/lib.rs:179-185 | every segment but the last has a non-empty span |
| Segmenter.TokensPreserved | src/lib.rs:140-201 | the spans laid end to end are exactly the tokens the scan keeps, in input order |
| Segmenter.LexDropsOnlyMarkerWords | src/lib.rs:140-196 | spelling the scan's lexemes back out (a recognised marker as `?.`, `?Ok.` or `?Err.`) gives the input with some `?` tokens removed, each possibly with the `Ok` or `Err` right after it, and every other token kept in order |
| Segmenter.SpansKeepAllOthers | src/lib.rs:140-201 | the spans laid end to end are the input with some `?`, `.`, `Ok` and `Err` tokens removed: every other token (identifiers, literals, groups) survives, in its order |
| Segmenter.SpansSubsequence | src/lib.rs:140-201 | the spans laid end to end are a subsequence of the input: the segmenter never invents, duplicates or reorders a token |
| Segmenter.LexUnlex | src/lib.rs:140-189 | marker recognition inverts spelling: scanning the spelling of any canonical lexeme sequence gives it back |
| Segmenter.LexUnlexEnding | src/lib.rs:144-177 | the same round trip holds when the text is closed by a lone `?`, by `?Ok` or by `?Err`, which produce no lexeme |
| Segmenter.NoMarkerSingleSegment | src/lib.rs:194-225 | a non-empty input without `?` is one segment holding the whole input, its variant decided by the last token |
| Segmenter.SplitVariants | src/lib.rs:198-225 | after the shift every segment but the last carries the variant of the marker after it, which is `Option`, `Ok` or `Err`; the last carries the variant of the last token; empty input gives one `Root` segment with no tokens |
| Segmenter.NoRootSegment | src/lib.rs:139-225 | on non-empty input no segment is `Root` and only the last may be `Required` |
| Segmenter.WellFormedChainSplit | src/lib.rs:133-227 | for a chain of non-empty spans without `?`, joined by `?.`/`?Ok.`/`?Err.` and optionally closed by `?`/`?Ok`/`?Err`, the segments are exactly the spans, each under the check of the marker after it, the last under the closing check or the variant of its last token |
| Segmenter.ChainRaw | src/lib.rs:140-201 | for such a chain the loop pushes the receiver under `Root` and every later span under the marker that opened it |
| Builder.SomeWrapper | src/lib.rs:53-61 | the output is a `Some` call whose argument is exactly the body |
| Builder.IfLet | src/lib.rs:63-116 | panics with "if_let called with Root variant" exactly when the variant is `Root` |
| Builder.IfLetRoundTrip | src/lib.rs:63-116 | decoding the emitted `if let` gives back its check (`Required` for the bare pattern `(____v)`), its accessor and its then-block |
| Builder.DecodeIfLetSound | src/lib.rs:63-116 | whatever the decoder accepts is exactly what `IfLet` emits for the decoded check, accessor and then-block |
| Builder.Opt | src/lib.rs:8-51 | the loop over the reversed segments computes `Build(Split(input))`, and it panics exactly when the input is empty |
| Builder.NestPanics | src/lib.rs:31-47 | the nest of inner segments panics exactly when one of them is `Root` |
| Builder.BuildPanics | src/lib.rs:20-50 | the expansion panics, with the `Root` message, exactly when some segment is `Root` |
| Builder.OptPanics | src/lib.rs:8-51 | the macro panics exactly on empty input |
| Builder.NestLayers | src/lib.rs:31-47 | the inner nest decodes into one layer per remaining segment, each accessor `____v .` followed by the span, with `Some(____v)` innermost, and into no deeper layer |
| Builder.BuildLayers | src/lib.rs:20-50 | for segments without `Root` the output decodes into exactly one layer per segment, the first with the raw span as accessor, with `Some(____v)` innermost, or an empty then-block for a single segment |
| Builder.OptLayers | src/lib.rs:8-51 | for non-empty input the expansion decodes into one layer per segment; every layer but the last tests `Some`, `Ok` or `Err`, and the last tests what the last token decides |
| Builder.ChainExpansion | src/lib.rs:8-51 | a well-formed chain expands into one `if let` per span, each testing the check of the marker after its span and reading `____v .` plus the span (the receiver as written for the first) |
| Scenarios.VecChainSegments | examples/example1/src/option_ext.rs:71 | `test_struct.value?.my_vec?.get(0)?.name` splits into three `Option` segments and a `Required` `name` |
| Scenarios.AgeChainExpansion | examples/example1/src/main.rs:50 | `user.age?` is one `Option` segment and expands to `if let Some(____v) = &user.age {} else {None}` |
| Scenarios.OkChainSegments | examples/example1/src/main.rs:56 | a closing `?Ok` makes the last segment an `Ok` test |
| Scenarios.ResultChainSegments | examples/example1/src/option_ext.rs:74 | `?Ok.` makes the span before it an `Ok` test and a closing `?` makes the last one an `Option` test |
| Scenarios.OkWithoutDot | src/lib.rs:150-173 | in `a?Ok b` the `?` and `Ok` are lost and `b` joins the span |
| Scenarios.LoneQuestion | src/lib.rs:176-191 | in `a?b` the `?` is lost |
| Scenarios.LeadingMarker | src/lib.rs:179-188 | in `?.a` the leading `?.` closes no segment and its check is overwritten by the last-token rule |
| Scenarios.AdjacentMarkers | src/lib.rs:179-205 | in `a?.?Ok.b` the `?Ok.` closes no span but still sets the active check, so the shift gives `a` the check `Ok`; the `?.` before it leaves no trace |
| Scenarios.MarkerOnly | src/lib.rs:133-227 | `?.` alone is one empty `Required` segment whose expansion is emitted, while empty input panics |
| Scenarios.TrailingMarker | src/lib.rs:198-225 | a trailing `?.` leaves an empty `Required` last segment |
| Scenarios.TrailingMarkerExpansion | src/lib.rs:31-47 | whose `if let` reads the accessor `____v .` with nothing after the dot |

## Left out

- Spans, hygiene and the joint/alone spacing of `proc_macro` tokens: the
  macro never inspects them on its input, and on its output they do not
  change which tokens are emitted.
- The contents of `Group` tokens (call arguments such as `get(0)`): the
  scanner treats a group as one opaque token.
- `TokenStream::from_str("None")` is modelled as the single token
  `Ident("None")`; the parser of `proc_macro` is not part of this model.
- The run-time meaning of the generated expression (what it evaluates to)
  is not modelled; the model states the shape of the emitted tokens.
- A panic is modelled as the `Panicked` result carrying its message, not as
  unwinding.
- The commented-out debug output in `opt` and the commented-out panic for
  `Required` in `if_let` are not modelled.
