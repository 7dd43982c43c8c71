# gowindcss compiler core in Dafny

gowindcss turns Tailwind-style class tokens such as `hover:bg-red-500` or
`aspect-[4/3]` into CSS rules. The current compiler is `main.go`:
- a tokenizer reads a line token by token, and each token byte by byte, into variant parts and one class part;
- the class part selects a base rule, from the base-class registry or from a class that takes an arbitrary `[value]`;
- the variants are folded over that rule, innermost first, over a slice of rules that a forking variant (`marker`) can grow;
- a three-key comparator orders the rules;
- rendering turns each rule into text, with the selector escaped and the block nested in indented `@media` wrappers.

`engine.go`, `css.go`, `variant.go`, `baseClass.go` and `util.go` are earlier revisions of the same compiler. Each is modelled in its own module because their behaviour differs:
- engine.go has no slash modifier, fails a token on any stray byte after `]`, and also ends tokens at `'`;
- css.go treats the whole input as one class string split on `:`, escapes only `:`, and wraps media without indentation;
- variant.go takes the arbitrary value as a pointer, and some of its kinds panic.

Modules:
- `Rules`: the rule records.
- `GoStrings`: the `strings` functions the code relies on.
- `ByteReader`: a `strings.Reader` with `ReadByte`.
- `Order`: `OrderedCSSLess`.
- `Render`: `CSS.String`, `wrapInMedias` and `OrderedCSSArrToString` of main.go.
- `Tokenizer`: main.go's token and part parser.
- `Fold`: one variant step, shared by main.go and engine.go.
- `Variants`: main.go's variants.
- `BaseClasses`: main.go's base-class kinds and registry.
- `Compiler`: main.go's `createCSSFromClassInformation`, `ProduceNextCSS` and `ParseString`.
- `Util`: `concatMaps`.
- `EngineV1`, `CssV1`, `VariantV1`, `BaseClassV1`: the earlier revisions.

How the model is built:
- The global registries are explicit map parameters: variants, base classes, arbitrary classes, the color palette and the breakpoint table.
- The byte loops are methods over a `ByteReader.Reader`. Each is proved equal to a function on the unread input, and the properties are proved about that function.
- Each character of a Dafny `string` stands for one byte.
- `CSSDeepCopy` (main.go:258-284, css.go:21-48) is one function, `Rules.DeepCopy`. Under value semantics it is the identity.
- baseClass.go's `produceMap` and `arbitraryValue` code equals main.go's for everything the model keeps, so `BaseClassV1` reuses the kinds of `BaseClasses`. The number and fraction scales, left out below, differ in order: main.go adds 1 and 2 to the class order (main.go:995-1010), baseClass.go does not (baseClass.go:355-372). It keeps only its own producer list, orders and arbitrary registry.

The model follows the code as written, including these behaviours:
- `PseudoElementVariant.convert` builds the new pseudo-element list from the old pseudo-classes, in main.go and in variant.go. The model gives that list storage of its own; the shared storage of the Go slices is listed under "Left out".
- variant.go's `MediaVariant.convert` builds the media list from the old pseudo-elements.
- css.go's `isLowerAlnum` holds for every byte.
- css.go's `Comparator` always returns 0.
- main.go's `String` never renders `supportsStatements`.

## Model

| member | source | states |
|---|---|---|
| Rules.DeepCopy | main.go:258-284 | the copy equals the original in every field (css.go:21-48 is the same function) |
| Order.Compare | main.go:291-313 | the result is -1, 0 or 1, and 0 exactly when the two rules have the same order and the same selector |
| Order.CompareIsKeyOrder | main.go:291-313 | -1 exactly when a comes first by (order, selector length, selector bytes), 1 exactly when b comes first |
| Order.CompareAntisymmetric | main.go:291-313 | swapping the arguments negates the result |
| Order.CompareTransitive | main.go:291-313 | the strict and the non-strict order are both transitive |
| Order.LexLessTotal | main.go:306-311 | Go's byte-wise `<` on strings is total: two strings are equal or one is less |
| Order.LexLessTransitive | main.go:306-311 | Go's `<` on strings is transitive |
| GoStrings.Split | css.go:168-174 | `strings.Split` gives at least one piece, no piece holds the separator, and joining the pieces gives the input |
| GoStrings.SplitJoin | css.go:168-174 | splitting a join of separator-free parts gives the parts back |
| Util.ConcatMaps | util.go:5-11 | the loop's result is the left-to-right merge of the maps |
| Util.MergeKeys | util.go:5-11 | a key is in the result exactly when it is in some input map |
| Util.MergeLast | util.go:5-11 | a key's value is the one from the last input map holding it |
| Util.MergeEmpty | util.go:5-11 | with no input maps the result is empty |
| Util.MergeFrom | main.go:1255-1261 | every value of the result is the value the key has in one of the inputs |
| Render.EscapeIsCharwise | main.go:325-327 | the three successive replacements escape `[`, `]` and `:` byte by byte, each exactly once |
| Render.UnescapeEscape | main.go:325-327 | for a selector without backslashes, the escaped selector unescapes to the original |
| Render.LinesOfUnlines | main.go:348-354 | splitting newline-terminated lines on `\n` gives the lines back |
| Render.WrapLinesAt | main.go:343-359 | line i of the output is the i-th opener indented i levels, a body line indented k levels, or a closer indented one level less than the one before |
| Render.WrapNoMedia | main.go:343-359 | with no conditions, newline-terminated text comes back unchanged |
| Render.WrapNests | main.go:343-359 | wrapping in [m] + ms is one `@media (m)` block around the ms-wrapping, indented one level, so the first condition is the outermost |
| Render.WrapInMedias | main.go:343-359 | the loops produce exactly the wrapped text |
| Render.BlockLines | main.go:315-338 | a rule's block is the header line, one indented `property: value;` line per declaration in order, and `}` |
| Render.RenderWithoutMedia | main.go:315-339 | a rule without media conditions renders as its block alone |
| Render.RenderNests | main.go:315-339 | the first media condition of a rule is its outermost wrapper |
| Render.CssString | main.go:315-339 | the method produces the rule's text: escaped selector, combinator, pseudo-classes, pseudo-elements, declarations, media wrappers |
| Render.OrderedCssArrToString | main.go:360-366 | the output is each rule's text, one after another, in order |
| Render.RenderAllAppend | main.go:360-366 | rendering a concatenation renders the two parts one after the other |
| Tokenizer.Token | main.go:414-423 | a token has no delimiter byte, is a prefix of the input, and is followed by a delimiter unless it runs to the end |
| Tokenizer.TokenOf | main.go:414-423 | a token is exactly the bytes before the first delimiter, and the delimiter is consumed |
| Tokenizer.GrabFirstPossibleValidString | main.go:414-423 | the loop returns the token and leaves the reader just past its delimiter |
| Tokenizer.ScanArbitrary | main.go:509-523 | absent exactly when the input has no `]`; otherwise the text is everything before the first `]`, verbatim |
| Tokenizer.ParseArbitrary | main.go:509-523 | nil exactly when no `]` follows; otherwise the text before the first `]`, with the reader just past it |
| Tokenizer.ScanSlash | main.go:528-541 | the slash text has no `:`; it runs to a consumed `:` or to the end of the input |
| Tokenizer.ParseSlash | main.go:528-541 | the loop reads exactly the slash scan's text and reports whether `:` ended it |
| Tokenizer.NextPart | main.go:444-502 | a variant step consumes input, and a class part ends the input |
| Tokenizer.ParseNextPart | main.go:444-502 | the method's part, its kind and the reader's rest agree with the part function, and it fails when that fails |
| Tokenizer.ParseStr | main.go:425-440 | the loop's result is the parse of the token: the variants left to right, then one class part |
| Tokenizer.ParsePlainClass | main.go:425-455 | a plain name, the empty one included, parses to a class part without variants |
| Tokenizer.ParseVariant | main.go:444-455 | a plain name ended by `:` is a variant with no arbitrary or slash text, in front of what the rest parses to |
| Tokenizer.ParseUnterminated | main.go:457-467 | a bracket that is never closed fails the whole token |
| Tokenizer.ParseFuzzSeed | main_test.go:44 | the fuzz seed `-[0-[` fails to parse |
| Tokenizer.ParseArbitraryClass | main.go:457-467 | `name[text]` gives a class part named by the pending name without its last byte, with the text verbatim |
| Tokenizer.ParseStrayByte | main.go:462-497 | a byte after `]` other than `:` and `/` is dropped together with the bracket text, and parsing goes on with the untrimmed name |
| Tokenizer.ParseEmptySlash | main.go:462-497 | empty slash text fails the token, after a plain name and after a bracket |
| Tokenizer.ParseSlashClass | main.go:528-541 | slash text after a plain name runs to the end and becomes the class part's slash text |
| Tokenizer.PartRoundTrip | main.go:444-502 | a well-formed part written as `name-[text]/slash` is read back as the same part, as a variant when `:` follows |
| Tokenizer.ParseUnparse | main.go:425-502 | writing a well-formed class token and parsing it gives the same variants and class part |
| Variants.Convert | main.go:1110-1245 | every variant kind, the unregistered `customSupportsVariant` included, returns at most two rules: two exactly for the marker, none exactly for a breakpoint given arbitrary text; the selector and declarations are never changed |
| Variants.ConvertChanges | main.go:1110-1245 | which one field each kind changes and how, and that restoring that field gives the input; the marker's second rule is the first with child combinator `*` |
| Variants.ConvertIgnoresSlash | main.go:1110-1245 | the slash text has no effect on any variant |
| Variants.ConvertCommutes | main.go:1110-1245 | every kind but the marker leaves the child combinator alone: setting it before or after the variant gives the same rules, rule by rule |
| Variants.SameAsValue | main.go:1133-1135 | a pseudo-element variant whose name and value are both n |
| Variants.VariantMapFromArrs | main.go:1098-1104 | the loop builds the map of each variant under its base |
| Variants.VariantMapLast | main.go:1098-1104 | a variant whose base no later element shares is what that base maps to |
| Variants.VariantMapKeys | main.go:1098-1104 | every key is the base of an element and maps to such an element |
| Variants.BreakpointMap | main.go:1231-1237 | the breakpoint variants have exactly the table's keys, each with its own value |
| Variants.GenBreakpointsVariant | main.go:1231-1237 | one breakpoint per table entry, with distinct names and the right values, in any order |
| Variants.BreakpointsAsMap | main.go:1231-1237 | whatever order Go's map iteration takes, the resulting variant map is the breakpoint map |
| Variants.MakeVariants | main.go:1087-1094 | the registry is the merge of pseudo-classes, pseudo-elements, the marker and the breakpoints, later ones winning |
| Variants.AllVariantsLookup | main.go:1087-1094 | breakpoints override same-named variants; otherwise `hover` is the pseudo-class and `marker` the forking variant |
| Fold.ApplyStep | main.go:566-581 | the counted inner loop computes one step: it visits only the rules present when it starts and fails on an empty result |
| Fold.StepShape | main.go:566-581 | a step fails exactly when some rule's result is empty; otherwise each rule keeps its place and order, and the slice grows by one rule per fork |
| Fold.StepOrder | main.go:566-581 | whatever the transform, a step never shrinks the slice and keeps a shared order |
| Fold.StepUniform | main.go:566-581 | with a selector-keeping transform, rules with one selector and one order keep both |
| Fold.ForksUniform | main.go:566-581 | a transform whose results all have length n forks every rule when n is 2 and no rule otherwise |
| Fold.SecondsAllFork | main.go:577-579 | when every rule forks, the appended rule for rule i is rule i's second result, with rule i's order |
| Fold.ForkPairs | main.go:566-581 | a transform whose second result is its first with child combinator `*` gives rules whose second half is the first half with `*`, rule by rule |
| Fold.StepKeepsPairs | main.go:566-581 | a transform that never forks and commutes with `*` keeps that pairing |
| Compiler.Reverse | main.go:560 | `slices.Reverse`: the same length, with element i taken from position len-1-i |
| Compiler.ConvLength | main.go:1110-1245 | each variant's result has one length, whatever rule it is given |
| Compiler.StepFacts | main.go:560-583 | one variant step fails exactly for a breakpoint with arbitrary text; otherwise it doubles the slice for the marker and keeps it otherwise, keeping selector and order |
| Compiler.ResolveFails | main.go:560-583 | the fold fails exactly when some variant is unknown or is a breakpoint given arbitrary text |
| Compiler.ResolveSize | main.go:560-583 | on success there are 2^k rules per starting rule for k marker variants, all with the shared selector and order |
| Compiler.ResolveShape | main.go:560-583 | the failure condition and the size and uniformity facts together |
| Compiler.CreateCssShape | main.go:543-584 | the token yields rules exactly when the base rule exists and no variant rejects; then there are 2^k rules, each selected by the full token with the base rule's order |
| Compiler.PseudoClassOrder | main.go:560 | variants are applied in reverse, so `a:b:` in front of the class gives pseudo-classes [b, a] |
| Compiler.ResolvePseudoClasses | main.go:560-583 | pseudo-class variants append their names one by one in the order applied |
| Compiler.SlashIgnored | main.go:543-584 | the class part's slash text plays no part in the result |
| Compiler.EmptyBrackets | main.go:545-550 | `name[]` is the plain lookup of the name without its last byte |
| Compiler.ParseLineToken | main.go:384-394 | a non-empty token followed by a delimiter contributes its rules, or none when it does not parse or resolve, and the rest of the line follows |
| Compiler.ParseLineStops | main.go:384-394 | a delimiter at the start ends the line, so two delimiters in a row stop it, and the empty line gives no rules |
| Compiler.TokenRulesSelector | main.go:558 | every rule of a token is selected by the token |
| Compiler.ParseLineSelectors | main.go:384-412 | every rule of a line carries a non-empty, delimiter-free token as its selector |
| Compiler.ParseVariantClass | main.go:425-455 | `v:c` for plain names is one variant then the class |
| Compiler.PseudoClassToken | main.go:543-584 | a pseudo-class variant over a plain class gives the class's rule under that pseudo-class, selected by the token |
| Compiler.ResolveKeepsPairs | main.go:560-583 | variants other than the marker give both branches of a fork the same changes, so the pairing survives them |
| Compiler.ForkStaysPaired | main.go:560-583 | after the marker's fork, each rule and its copy with child combinator `*` stay paired through every later variant that is not a marker |
| Compiler.MarkerPairs | main.go:543-584 | a token whose innermost variant is the only marker gives exactly two rules, the second the first with child combinator `*` |
| Compiler.PlainClassToken | main.go:543-584 | a plain class with no variants gives its base rule, selected by the token |
| Compiler.AspectVideo | main_test.go:43 | the fuzz seed `aspect-video`, against the registries `MakeBaseClasses` and `MakeVariants` build, gives one rule `aspect-ratio: 16 / 9` with order 100 and selector `aspect-video`, whatever the palette and breakpoints |
| Compiler.HoverExample | main.go:543-584 | `hover:bg-red-500` gives one rule: the base rule with pseudo-class `hover` and selector `hover:bg-red-500` |
| Compiler.CreateCssFromClassInformation | main.go:543-584 | the loops compute the class's rules as the fold specifies them |
| Compiler.ProduceNextCss | main.go:396-412 | none only when the rest of the line yields nothing; otherwise a non-empty prefix whose rules, followed by the rest's, are the line's |
| Compiler.ParseString | main.go:384-394 | the loop's result is the rules of each token in turn |
| BaseClasses.KeyForInjective | main.go:687-700 | different table keys give different class names, so no entry of one producer overwrites another |
| BaseClasses.Entry | main.go:687-700 | an entry is one declaration of the class property with the table value, and the class order |
| BaseClasses.EntriesOf | main.go:687-700 | each key appears under its class name with its entry, and every name comes from some key |
| BaseClasses.ProducedMapEntries | main.go:687-700 | exactly one entry per table key (the keyword, random-keyword and color producers at main.go:788-798, 930-939 and 1046-1055 follow the same scheme) |
| BaseClasses.ProduceMap | main.go:687-700 | the loop, in any iteration order, builds exactly the produced map |
| BaseClasses.DeclarationOf | main.go:729-744 | the declaration read from `property:value` has no `:` in either half |
| BaseClasses.ArbitraryValue | main.go:681-686 | a keyword, numerical or color class makes one declaration of its property with the text verbatim and its order; the passthrough class makes one declaration per `;` piece |
| BaseClasses.PassthroughValue | main.go:729-744 | the loop over the `;` pieces builds the passthrough class's rule |
| BaseClasses.PassthroughRoundTrip | main.go:729-744 | declarations written as `p:v;p:v` are read back unchanged when no part holds `:` or `;` |
| BaseClasses.PassthroughExtraColon | main.go:729-744 | a piece with two `:` keeps its property and loses its value |
| BaseClasses.MakeBaseClasses | main.go:614-640 | the registry is the left-to-right merge of the eighteen producers' maps |
| BaseClasses.MainArbitraryKeys | main.go:642-650 | every arbitrary class is keyed by its own base name, and the non-passthrough ones build one verbatim declaration |
| BaseClasses.LaterAbsent | main.go:614-640 | a producer's entry survives the merge when no later producer has the same name |
| BaseClasses.TextWrapWins | main.go:614-640 | `text-wrap` is the wrap keyword whatever the palette holds, because `textWrap` comes after `textColor` |
| BaseClasses.FloatBothFromClear | main.go:895-907 | `float-both` exists and comes from `clear`, registered under the name `float` |
| BaseClasses.HiddenIsDisplayNone | main.go:941-969 | `hidden` is `display: none` in the registry |
| BaseClasses.AspectVideoIsSixteenNine | main.go:716-726 | `aspect-video` is `aspect-ratio: 16 / 9` in the registry, because no producer after `aspectRatio` gives that name |
| VariantV1.Convert | variant.go:32-168 | a convert panics exactly in the panicking cases; otherwise it returns at most two rules, two exactly for the marker and none exactly for a breakpoint given a value; the selector and declarations are kept |
| VariantV1.ConvertChanges | variant.go:32-168 | which field each kind changes and from what it builds it, and that restoring that field gives the input |
| VariantV1.SameAsValue | variant.go:53-55 | a pseudo-element variant whose name and value are both n |
| VariantV1.VariantMapFromArrs | variant.go:20-26 | the loop builds the map of each variant under its base |
| VariantV1.VariantMapLast | variant.go:20-26 | a later element with the same base overwrites an earlier one |
| VariantV1.VariantMapKeys | variant.go:20-26 | every key is the base of an element and maps to such an element |
| VariantV1.BreakpointMap | variant.go:154-160 | the breakpoint variants have exactly the table's keys, each with its own value |
| VariantV1.GenBreakpointsVariant | variant.go:154-160 | one breakpoint per table entry, with distinct names and the right values, in any order |
| VariantV1.BreakpointsAsMap | variant.go:154-160 | whatever the iteration order, the resulting variant map is the breakpoint map |
| VariantV1.MakeVariants | variant.go:9-16 | the registry is the merge of pseudo-classes, pseudo-elements, the marker and the breakpoints |
| VariantV1.RegisteredNeverPanic | variant.go:9-16 | no registered variant panics when given no arbitrary value |
| VariantV1.AllVariantsLookup | variant.go:9-16 | breakpoints override same-named variants; otherwise `focus` is the pseudo-class and `marker` the forking variant |
| EngineV1.Token | engine.go:109-118 | a token has no delimiter, the single quote included, and is followed by one unless it runs to the end |
| EngineV1.TokenOf | engine.go:109-118 | a token is exactly the bytes before the first delimiter |
| EngineV1.GrabFirstPossibleValidString | engine.go:109-118 | the loop returns the token and leaves the reader past its delimiter |
| EngineV1.ParseName | engine.go:221-223 | bytes other than `:` and `[`, the slash included, only extend the pending name |
| EngineV1.ColonStep | engine.go:215-220 | a `:` appends a variant named by the pending bytes and resets the name |
| EngineV1.BracketStep | engine.go:198-214 | after `]`, the end gives a class part named by the pending name without its last byte, and `:` gives such a variant |
| EngineV1.StrayByte | engine.go:198-214 | any other byte after `]`, `/` included, fails the whole token |
| EngineV1.Unterminated | engine.go:193-197 | an unterminated bracket fails the token |
| EngineV1.TrailingColon | engine.go:184-192 | a token ending in `:` fails |
| EngineV1.EmptyFails | engine.go:184-192 | the empty token fails |
| EngineV1.NoSlash | engine.go:179-225 | no input parses to a part with slash text |
| EngineV1.ParseUnparse | engine.go:179-225 | writing a well-formed class token and parsing it gives it back |
| EngineV1.ParseStr | engine.go:179-225 | the byte loop's result is the parse of the token |
| EngineV1.ResolveShape | engine.go:253-294 | an unknown variant fails the fold; otherwise the rules never shrink and keep a shared order, whatever the transforms do |
| EngineV1.ResolveSelector | engine.go:253-294 | selector-keeping transforms leave every rule with the shared selector and order |
| EngineV1.CreateCssShape | engine.go:253-294 | no rules without a base rule or with an unknown variant; otherwise at least one, all with the base rule's order |
| EngineV1.CreateCssSelector | engine.go:253-294 | with selector-keeping transforms every rule is selected by the full token |
| EngineV1.CreateCssFromClassInformation | engine.go:253-294 | the loops compute the class's rules as the fold specifies them |
| EngineV1.ParseLineToken | engine.go:33-43 | a token followed by a delimiter, `'` included, contributes its rules, and then the rest of the line follows |
| EngineV1.ParseLineStops | engine.go:33-43 | a delimiter at the start ends the line |
| EngineV1.ProduceNextCss | engine.go:81-107 | none only when the rest of the line yields nothing; otherwise a non-empty prefix whose rules, followed by the rest's, are the line's |
| EngineV1.ParseString | engine.go:33-43 | the loop's result is the rules of each token in turn |
| CssV1.UnescapeColons | css.go:68-90 | only `:` is escaped, and unescaping gives back a selector without backslashes |
| CssV1.BracketsKept | css.go:68-90 | brackets in the selector come out as they are |
| CssV1.BlockLines | css.go:68-90 | a block is the header, one tab-indented line per declaration in order, and `}` |
| CssV1.RenderWithoutMedia | css.go:68-90 | a rule without media conditions renders as its block alone |
| CssV1.CssString | css.go:68-90 | the method produces the rule's text |
| CssV1.WrapNoMedia | css.go:92-102 | with no conditions any text comes back unchanged |
| CssV1.WrapNests | css.go:92-102 | wrapping in [m] + ms is an unindented `@media (m)` block around the ms-wrapping |
| CssV1.WrapInMedias | css.go:92-102 | the loops produce the openers, the text unchanged and the closers |
| CssV1.CssArrToString | css.go:104-110 | the output is each rule's text in order |
| CssV1.OrderedCssArrToString | css.go:111-117 | the output is each rule's text in order, without the orders |
| CssV1.RenderAllAppend | css.go:104-110 | rendering a concatenation renders the two parts one after the other |
| CssV1.Comparator | css.go:60-66 | every pair compares as equal |
| CssV1.EveryByteLowerAlnum | css.go:163-165 | every byte passes `isLowerAlnum` |
| CssV1.ReadNextClass | css.go:145-161 | the whole remaining input is read and returned verbatim |
| CssV1.VariantGroups | css.go:176-196 | the variant groups are the `:` groups before the last, from the second-to-last down to the first |
| CssV1.ResolveFails | css.go:176-196 | the fold panics only through a panicking variant and yields nil only through an unknown group; it produces rules exactly when every group is a known, non-panicking variant |
| CssV1.ResolveSize | css.go:176-196 | on success the slice doubles once per marker, and every rule keeps the shared selector and order |
| CssV1.CreateShape | css.go:168-198 | rules exactly when the last group is a base class and every variant group is known and does not panic; then 2^k rules, each selected by the whole string with the base rule's order |
| CssV1.CreateCssFromClassString | css.go:168-198 | the nested loops compute the class string's outcome |
| CssV1.RegistryNeverCrashes | variant.go:9-16 | with variant.go's registry no class string panics |
| CssV1.PlainClass | css.go:168-174 | a string without `:` is looked up whole, giving its rule or none |
| CssV1.ProduceNextCss | css.go:131-142 | the whole input is consumed; the outcome is the class string's when input remained, and nil otherwise |
| CssV1.ParseString | css.go:119-129 | the outcome is the one class string's rules, none for empty input, or a panic |
| BaseClassV1.MakeBaseClasses | baseClass.go:32-56 | the registry is the left-to-right merge of the sixteen producers' maps |
| BaseClassV1.ArbitraryKeys | baseClass.go:58-65 | every arbitrary class is keyed by its own non-empty base name and builds one verbatim declaration |
| BaseClassV1.RegistryOrders | baseClass.go:68-71 | every rule of the registry has one declaration; its order is 100 exactly when the `columns` producer makes its name, and 0 otherwise |
| BaseClassV1.ClearAddsBoth | baseClass.go:253-265 | `float-both`, which only `clear` defines, is in the registry |
| BaseClassV1.ClearOverridesFloats | baseClass.go:241-265 | `float-left`, defined by both float classes, is `clear`'s rule |
| BaseClassV1.TextWrapWins | baseClass.go:267-278 | `text-wrap` is the wrap keyword whatever the palette holds |
| BaseClassV1.HiddenIsDisplayNone | baseClass.go:301-328 | `hidden` is `display: none` in the registry |

## Left out

- `main()`, `writeSource` and the listing mode (main.go:22-142) are command-line I/O.
- `ParseConfigFile` and `HandleConfigFile` (main.go:144-172) are JSON and file I/O. The palette and the breakpoints are parameters instead.
- `Format`, `collectUntil`, `streamUntilMatch` and `realFormatGiveBetterName` (main.go:174-232) belong to the streaming formatter over `io.ByteReader`/`io.ByteWriter`.
- `BaseClasses.ProduceMap`: numerical classes give only their keyword entries. The number and fraction scales and `parseFraction` (main.go:986-1010, main.go:1263-1274, baseClass.go:346-374) use floating point and `fmt.Sprint`. Their orders also differ between the revisions: main.go gives number entries the class order plus 1 and fraction entries plus 2, while baseClass.go gives both the class order.
- The static tables `defaultColors` and `defaultBreakpoints` are parameters. `defaultNums` and `defaultFractions` only feed the scales left out above.
- `MediaVariant` and `supportsVariant` in main.go are not modelled. They do not fit main.go's `Variant` interface and are never registered (main.go:1174, main.go:1200).
- `ariaStatesVariant` and `groupVariant` are not modelled, because they are not used.
- The unregistered `preferences` list of variant.go is not modelled, because it is never used.
- engine.go's `generate` and `possibleNameByte` are not modelled, because they are unused. `possibleNameByte` calls an undefined `isAlnum`.
- engine.go's `Variant` interface is not part of this model. Its `convert(arbitraryText, css)` is taken as `EngineV1.Transform`, an arbitrary function.
- Go slices are values here. The in-place `slices.Reverse` also reverses the caller's `variants`, but no caller reads them again. Slices that share storage are covered by the `Variants.Convert` and `VariantV1.Convert` lines below.
- The fresh output map of `concatMaps` and the unmodified inputs follow from value semantics and are not stated separately.
- Go's map iteration order in `produceMap` and `genBreakpointsVariant` is a nondeterministic choice. Results are stated as maps, or as sequences up to order.
- Sorting itself, with `OrderedCSSLess` or `Comparator`, happens only in `main()`. The model states the comparator's properties only.
- The fixture-file tests of main_test.go need files that are not part of this model. Only the fuzz seeds `aspect-video` and `-[0-[` (main_test.go:43-44) are used.
- `Variants.Convert`: nil and empty results are not distinguished, since main.go rejects both.
- `Variants.Convert`: the storage that `append(c.PseudoClasses, p.name)` (main.go:1137-1140) shares between the pseudo-element and pseudo-class lists is not modelled. In Go, a later pseudo-class appended into spare capacity overwrites the pseudo-element's name. For example, `focus:before:active:visited:hover:<class>` renders `::hover::visited::active::focus` in Go, while the model ends the list with `::before`. `Variants.ConvertChanges`' claim that restoring the changed field gives the input holds only under the model's value semantics.
- `Compiler.ForkStaysPaired` and `Compiler.ResolveKeepsPairs` hold under value semantics only. `CSSDeepCopy` (main.go:258-284) gives the `*` copy's slices no spare capacity, while the original keeps what `append` grew. A pseudo-element variant after a marker that is not innermost then shares storage in the original only. For example, with `focus:before:marker:active:visited:hover:hidden`, Go's first rule ends `::focus` and its `*` rule ends `::before`, so the two are not paired. `Compiler.MarkerPairs`, with the marker innermost, is unaffected: both branches start with equal capacities.
- `VariantV1.Convert`: the same shared storage is not modelled for variant.go:61, for example `focus:before:hover:hover:hover:<class>`, nor for `MediaVariant`'s media list built from the pseudo-elements. `VariantV1.ConvertChanges`' restoring clause likewise holds only under value semantics.
- `customSupportsVariant` (main.go:1208-1219) fits the `Variant` interface, so it is modelled as the `CustomSupports` kind of `Variants.Variant`. `MakeVariants` (main.go:1087-1094) never registers it, and no registry lemma makes it reachable.
- `CssV1.ParseString`: a panic is an `Outcome` value, and no recovery is modelled.
