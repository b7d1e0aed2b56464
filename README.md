# marked-variables: the variable-resolution engine

This project models the core of `marked-variables`, a preprocessor for Markdown
pages. A page may define variables (`[name]: value` at the start of a line, or
`[name](value)` inline) and use them (`[name]`, `![name]`, `$[name]`, and
`$[expression]` for arithmetic over variables). Before the page is rendered,
the preprocessor rewrites the page's text in four steps:

1. Clear the current page's records in a page-indexed variable store, keeping
   only the records the host injected.
2. Cut the page into a queue of text, definition and call items. Code
   regions are skipped.
3. Run a fixed-point loop. Each pass writes definitions (with their nested
   calls substituted) into the store and turns calls into text. One final
   best-effort pass follows the first pass that makes no progress.
4. Join what is left.

The model keeps the module state (`varsQueue`, `globalVarsList`,
`globalPageNumber`) as the fields of one class, `Engine.Context`. The loops of
the source are methods with loop invariants. Each method is proved equal to a
function that states the same behaviour over values. Properties are proved
about those functions.

| file | module | contents |
|---|---|---|
| options.dfy | `Options` | `Option` |
| text.dfy | `Text` | `trim`, the whitespace class, `normalizeVarNames` and its description as joined words |
| formatters.dfy | `Formatters` | `toChar` and its variants, `sign`, `signed` |
| store.dfy | `Store` | the page store, `lookupVar`, the page reset, `setMarkedVariable` |
| scanner.dfy | `Scanner`, `ScannerFacts` | the combined tokenizer expression as explicit scanners, the paren-depth scan, the token stream and the cursor loop |
| replace.dfy | `Replace` | `replaceAll` with a string, and the word-bounded replacement of the math path |
| links.dfy | `Links` | `content.match(linkRegex)` |
| resolve.dfy | `Resolve`, `ResolveFacts` | `replaceVar`, and the substitution of nested calls in a definition |
| queue.dfy | `Queue`, `QueueFacts` | one step, one pass and the loop of `processVariableQueue`, as functions |
| engine.dfy | `Engine` | `class Context` with the in-place loops, `preprocess` and the host API |

Two foreign pieces come in through `Resolve.Env`, which is fixed when a
`Context` is built:
- `evaluate` is the `expr-eval` evaluator. It maps an expression to its printed
  result, or to `None` when it throws.
- `isNumber` is JavaScript's `!isNaN` on a trimmed, non-empty string.

Where the code and the prose description of the system differ, the model
follows the code:
- Every lookup hoists: calls, nested calls inside definitions, and math
  variables alike. All go through `lookupVar`. The description says nested
  calls and math variables use the backward walk only.
- The hoisting walk starts at the number of pages (`Object.keys(...).length`),
  not at the highest page index. `Store.HoistStart` is that number.
- An injected record survives one reset of its page and no more. The reset
  clears its `external` flag, and the next reset drops it
  (`Store.ExternalSurvivesOneReset`).
- The resolution loop does not always terminate. A definition like
  `[c]: [b] $[zz]`, with `[b]` a link, grows on every pass. The model gives the
  loop a bound on passes, `fuel`.
- `!isNaN` holds for a blank string, so a blank piece of a math label is
  numeric (`Resolve.IsNumeric`).

## Model

| member | source | states |
|---|---|---|
| Text.Trim | src/index.js:100 | the trimmed text has no whitespace at either edge |
| Text.TrimUntouched | src/index.js:100 | text without edge whitespace is its own trim |
| Text.LeadingWord | src/index.js:100 | the first word is a prefix of the text without run characters, stops at a run character or the end, and is non-empty when the text starts with a word character |
| Text.SkipRun | src/index.js:100 | skipping a leading run leaves a suffix of the text that starts with no run character, after run characters only |
| Text.WordsSkipRun | src/index.js:100 | a leading run of whitespace adds no word |
| Text.LeadingWordBeforeRun | src/index.js:100 | trailing whitespace does not change the first word |
| Text.WordsIgnoreTrailingRun | src/index.js:100 | trailing whitespace adds no word |
| Text.CollapseAfterWord | src/index.js:100 | collapsing leaves a word without whitespace as it is |
| Text.CollapseRun | src/index.js:100 | a whitespace run before a word becomes one space |
| Text.LeadingWordIsWord | src/index.js:100 | a word followed by whitespace or the end is the first word |
| Text.CollapseWordRunRest | src/index.js:100 | a word, a whitespace run, then more text collapse to the word, one space, then the rest collapsed |
| Text.WordsWordRunRest | src/index.js:100 | a word, a whitespace run, then more text split into that word followed by the words of the rest |
| Text.AllSpaceIsRun | src/index.js:100 | blank text is a single whitespace run |
| Text.LeadingWordOfJoin | src/index.js:99-101 | in words joined by spaces the first word is read back whole |
| Text.WordsAreWords | src/index.js:99-101 | every word of a text is non-empty and holds no whitespace |
| Text.NormalizeNameIsJoinedWords | src/index.js:99-101 | a normalised name is the name's words in order, joined by single spaces |
| Text.CollapseIsJoin | src/index.js:100 | on text without a run character at either edge, collapsing each run to one space joins its words with single spaces |
| Text.WordsOfJoin | src/index.js:99-101 | splitting non-empty words joined by single spaces gives back the same words, when the space is a run character |
| Text.NormalizeNameIdempotent | src/index.js:99-101 | normalising a normalised name changes nothing |
| Text.NormalizeNameNonEmpty | src/index.js:99-101 | a name with a non-whitespace character normalises to a non-empty name |
| Formatters.GenChars | src/index.js:68-70 | the label of a positive number is a non-empty word over A-Z |
| Formatters.ToChar | src/index.js:66-72 | a non-positive input comes back unchanged as a number, and exactly those inputs do |
| Formatters.ToCharUpper | src/index.js:73-75 | fails exactly for non-positive inputs; otherwise it is the letter label of `toChar` |
| Formatters.ToCharLower | src/index.js:76-78 | fails exactly for non-positive inputs; otherwise the letter label of `toChar` with each letter in lower case (its code 32 higher) |
| Formatters.LabelValuePositive | src/index.js:68-70 | every non-empty word over A-Z denotes a positive number |
| Formatters.GenCharsDecodes | src/index.js:68-70 | decoding the label of `i` as a bijective base-26 numeral gives back `i` |
| Formatters.GenCharsOfValue | src/index.js:68-70 | every non-empty word over A-Z is the label of the number it denotes, so labels and positive numbers correspond one to one |
| Formatters.GenCharsStep | src/index.js:68-70 | the label of a number with higher part `q` and last digit `d` is the label of `q` followed by the letter of `d` |
| Formatters.LabelOfLetter | src/index.js:68-70 | a single letter is the label of its place in the alphabet |
| Formatters.LabelAppend | src/index.js:68-70 | appending a letter to a label gives the label of the number with that letter as its last digit |
| Formatters.ToCharSamples | spec/index.test.js:522-527 | 18 is R, 39 is AM, 26 is Z, 27 is AA, and 0 stays 0 |
| Formatters.Sign | src/index.js:46-49 | one character: `+` exactly for non-negative input, `-` exactly for negative input |
| Formatters.Signed | src/index.js:51-54 | the sign character followed by the decimal digits of the magnitude |
| Formatters.DigitsDecode | src/index.js:52-53 | the decimal digits of a number read back as that number |
| Formatters.SignedRoundTrip | src/index.js:51-54 | the output of `signed` reads back as its input |
| Store.WalkDownFindsHighest | src/index.js:146-150 | the backward walk returns the record of the highest page at or below the index that holds the name, and finds nothing exactly when no such page exists |
| Store.LookupOrder | src/index.js:145-161 | a record at or below the index wins; only without one does the hoisting walk from the page count run; nothing is found exactly when no page in either range holds the name |
| Store.ResetPage | src/index.js:224-229 | the current page keeps exactly its external records, with the flag cleared; it exists afterwards; other pages are untouched |
| Store.ExternalSurvivesOneReset | src/index.js:224-229 | two resets of a page leave it empty |
| Store.SetExternal | src/index.js:329-337 | a negative page changes nothing; otherwise only the record `(page, name)` changes, to resolved and external, creating the page if needed |
| Store.SetThenLookup | src/index.js:329-345 | after the host sets a value, a lookup from that page returns it |
| Scanner.FirstWhere | src/index.js:232-237 | the first index from `i` whose character passes the test, or the end of the text |
| Scanner.FirstWhereIs | src/index.js:232-237 | a position before which nothing passes the test, and which passes it or is the end, is the first one |
| Scanner.LabelClose | src/index.js:233 | the closing `]` of a label: every bracket before it is escaped by a backslash |
| Scanner.LabelAt | src/index.js:233 | a label match starts with an optional `!` or `$` then `[`, has a non-blank body without bare brackets, and ends inside the text |
| Scanner.TailAt | src/index.js:234-235 | a block tail ends after the label; an inline tail has a non-empty body between `(` and `)` |
| Scanner.MatchAt | src/index.js:237 | a match starts where it is tried, ends inside the text, and a label match sits on a `[` |
| Scanner.NextMatch | src/index.js:237-241 | a match found starts at or after the cursor, inside the text, and is the match tried at its start |
| Scanner.NextMatchLeftmost | src/index.js:237-241 | no match starts between the cursor and the match found, or anywhere after the cursor when none is found |
| Scanner.ParenStop | src/index.js:272-285 | the scan stops on a `)` inside the content, at its end, or one past its end only when the content ends in a backslash |
| Scanner.ParenScan | src/index.js:272-285 | the `for` loop stops at the same index as the depth scan |
| Scanner.InlineScan | src/index.js:270-287 | the inline definition keeps the content before the stop index, trimmed and collapsed, and the cursor moves back by what follows the stop |
| Scanner.ResumeBounds | src/index.js:286-309 | the cursor always moves past the start of the match, and at most one past the end of the text |
| Scanner.Push | src/index.js:247-309 | the loop body pushes exactly the tokens of the match and moves the cursor to its resume index |
| Scanner.PushLabel | src/index.js:259-309 | the same for a label match: a block definition, an inline definition and its call, or a call |
| Scanner.ScanUnfold | src/index.js:241-309 | the tokens from a cursor are the gap text, the match's tokens, then the tokens from the resume index |
| Scanner.ScanStep | src/index.js:241-309 | one turn of the loop: the cursor moves forward and the tokens from it are the gap, the pushed tokens, then the tokens from the new cursor |
| Scanner.ScanOne | src/index.js:241-309 | the turn as code: the cursor moves forward, at most one past the end, and the pushed tokens followed by the rest from the new cursor are the rest from the old one |
| Scanner.ScanEnd | src/index.js:312-318 | without another match only the rest of the text remains, as one text token when it is not empty |
| Scanner.ScanTail | src/index.js:312-318 | the code after the loop pushes exactly what is left from the cursor |
| Scanner.Tokenize | src/index.js:239-318 | the cursor loop produces exactly the token stream `Tokens(src)` |
| ScannerFacts.JoinConcat | src/index.js:322 | the joined output of two queues is the join of each, in order |
| ScannerFacts.MatchTokensShape | src/index.js:253-308 | no match pushes a resolved item; every definition or call it pushes comes from a label match and carries its prefix and normalised name |
| ScannerFacts.MatchTokensWellFormed | src/index.js:253-308 | every token a match pushes is well formed: a valid prefix and a non-empty, normalised name |
| ScannerFacts.MatchTokensPaired | src/index.js:289-299 | every call without content that a match pushes directly follows a definition of the same name and prefix |
| ScannerFacts.NameFacts | src/index.js:244 | a label with a non-blank body normalises to a non-empty name that normalising again leaves alone |
| ScannerFacts.SinglePaired | src/index.js:253-308 | a single token that is not an empty call is correctly paired |
| ScannerFacts.PairPaired | src/index.js:289-299 | a definition followed by an empty call of the same name and prefix is correctly paired |
| ScannerFacts.CallsPairedConcat | src/index.js:239-318 | pairing is kept when two queues are put together |
| ScannerFacts.JoinSingle | src/index.js:322 | the join of one item is its content |
| ScannerFacts.BlockTailOffLineStart | src/index.js:259-308 | a block tail away from a line start pushes the call `prefix[name]`, and the cursor still moves past the tail |
| ScannerFacts.NextMatchTail | src/index.js:237-241 | a label match found by the scan ends inside the text, and its tail is the tail tried right after the label |
| ScannerFacts.InlineTailAt | src/index.js:235 | an inline tail is `(`, its body as it stands in the text, then `)` |
| ScannerFacts.ScanFromWellFormed | src/index.js:239-318 | every token from any cursor is well formed, and every empty call is paired with its definition |
| ScannerFacts.TokensWellFormed | src/index.js:239-318 | the same for a whole page |
| ScannerFacts.ScanFromVerbatim | src/index.js:247-251 | from any cursor, a text without `[` is cut into text tokens that join back to the rest of the text |
| ScannerFacts.TokensVerbatim | src/index.js:312-318 | a page without `[` is cut into text tokens that join back to the page |
| ScannerFacts.DefinitionsWhereAllowed | src/index.js:259-300 | a match pushes a definition only from an inline tail, or from a block tail at a line start |
| ScannerFacts.InlineResume | src/index.js:272-287 | for a label match with an inline tail: the body stands after the `(`; when the depth scan stops inside it, the cursor sits just after that `)` and the kept content is the body before it; at the match end when the scan ran through; one past the match end when the content ends in a lone backslash |
| ScannerFacts.ParenStopSamples | spec/index.test.js:199-211 | an unbalanced `)` ends the content, balanced pairs are kept, and an escaped `)` is skipped |
| Replace.ReplaceFromAbsent | src/index.js:182 | without an occurrence of the pattern nothing changes |
| Replace.ReplaceFromSelf | src/index.js:182 | replacing a pattern by itself changes nothing |
| Replace.OccursShift | src/index.js:182 | an occurrence in a suffix is an occurrence at the shifted place in the whole text, and back |
| Replace.ReplaceFromShift | src/index.js:182 | the replacement only looks forward from the cursor |
| Replace.ReplaceHead | src/index.js:182 | a one-character pattern is replaced character by character |
| Replace.MarkerRoundTrip | src/index.js:182 | replacing a pattern by a fresh marker, then the marker by the pattern, restores the text |
| Replace.MarkerHit | src/index.js:182 | across an occurrence, the marker turns back into the pattern |
| Replace.MarkerMiss | src/index.js:182 | across a character that starts no occurrence, the character comes back as it was |
| Replace.ReplaceWordSample | src/index.js:115 | a variable name inside a longer word is not replaced |
| Links.FirstUnescaped | src/index.js:11 | the first delimiter of a title body that no backslash escapes |
| Links.LastClosing | src/index.js:11 | the last closing delimiter in range that stands at a line end |
| Links.TitleEnd | src/index.js:11 | a title closes after it opens, with the closer of its opener (`"`, `'`, or `)` for `(`), right before a line end |
| Links.RestSound | src/index.js:11 | a rest read after the destination either ends the line there, or is one space, an opening delimiter, the title, its closer, and the line end |
| Links.AngleFrom | src/index.js:11 | an angle destination starts with `<` and has at least two characters |
| Links.LinkAt | src/index.js:11 | a destination is non-empty, and starts with `<` or has no whitespace |
| Links.LinkFrom | src/index.js:11 | the same for the first line that matches |
| Links.LinkMatch | src/index.js:11 | the same for the whole content |
| Links.AngleFound | src/index.js:11 | a `<.*?>` destination runs from its `<` to just after a `>` of the same line, where the rest of the line fits |
| Links.LinkAtSound | src/index.js:11 | a match anchored at an index is read from the text there: a run of non-space characters ended by whitespace or the end, or `<` through `>`, then a rest that fits |
| Links.LinkFromSound | src/index.js:11 | the match is the one anchored at the first line start, from the cursor on, where one is anchored |
| Links.LinkMatchSound | src/index.js:11 | the match stands at the start of the first line where the expression matches; its destination is the text there, followed by the end of that line, or by one space and a delimited title that closes at the end of that line |
| Links.PlainHrefMatch | src/index.js:11 | a destination without whitespace at the very start, followed by a rest that fits, is the match |
| Links.QuotedTitleRest | src/index.js:11 | a space, then a double-quoted title without inner quotes up to the end, is read as that title |
| Links.LinkBare | src/index.js:11 | a bare destination matches with no title |
| Links.LinkWithTitle | src/index.js:11 | `href "title"` matches with that destination and that title |
| Resolve.MathSepAt | src/index.js:105 | a separator ends after it starts, and is one operator character or a run of lower-case letters followed by `(` |
| Resolve.SplitFrom | src/index.js:105-106 | at least one piece, and no piece holds an operator character |
| Resolve.SplitMath | src/index.js:105-106 | at least one piece, and no piece holds an operator character |
| Resolve.SeparatorsFrom | src/index.js:105 | one separator fewer than the pieces, each an operator character or lower-case letters followed by `(` |
| Resolve.Separators | src/index.js:105 | the same for a whole label |
| Resolve.SplitFromRebuilds | src/index.js:105-106 | the pieces interleaved with the separators give back the text from the piece start |
| Resolve.SplitMathRebuilds | src/index.js:105-106 | the pieces of a label interleaved with its separators give back the label |
| Resolve.MathVarsOf | src/index.js:107 | every math variable is non-empty |
| Resolve.MathVars | src/index.js:105-107 | every math variable of a label is non-empty |
| Resolve.NextCall | src/index.js:12 | the first call at or after the cursor, and none exists when nothing is found |
| Resolve.TrimOfNonBlank | src/index.js:107 | a piece that is not blank trims to a non-empty name |
| ResolveFacts.SplitFromPlain | src/index.js:105-106 | a label without operator characters is one piece |
| ResolveFacts.MathVarsOfNumbers | src/index.js:107 | numeric pieces yield no variables |
| ResolveFacts.VariableCall | src/index.js:126-132 | `$[name]` for a plain, non-numeric name takes no math path and yields the record's content when it may be used |
| ResolveFacts.NumbersOnly | src/index.js:111-119 | a label of numbers alone takes the math path and is evaluated as it stands |
| ResolveFacts.NeedsRecord | src/index.js:111-142 | only `$` takes the math path; outside it a value needs a usable record; a link or image needs content that matches `linkRegex` |
| ResolveFacts.LinkRecord | src/index.js:126-142 | a link or image call whose resolved record reads as a link takes the closing format of that link |
| ResolveFacts.LinkCall | src/index.js:134-139 | `[name]` with record `href "title"` becomes `[name](href "title")` |
| ResolveFacts.BareLinkCall | src/index.js:134-139 | `[name]` with a bare destination becomes `[name](href)` |
| ResolveFacts.ImageCall | src/index.js:134-142 | `![name]` becomes `![name](href  "title")`, with two spaces before the title |
| ResolveFacts.BareImageCall | src/index.js:134-142 | `![name]` with a bare destination becomes `![name](href )`, with a trailing space |
| ResolveFacts.SplitSample | src/index.js:105-106 | `x+1` splits into `x` and `1` |
| ResolveFacts.PiecesSample | src/index.js:107 | of the pieces `x` and `1`, only `x` is a variable |
| ResolveFacts.MathVarsSample | src/index.js:105-107 | `x+1` mentions the variable `x` alone |
| ResolveFacts.NotWholeSample | src/index.js:111 | `x` is not the whole label `x+1`, so the math path is taken |
| ResolveFacts.MathPathOne | src/index.js:111-119 | a `$` label with one variable other than the whole label is evaluated after that variable is substituted |
| ResolveFacts.MathPathSample | src/index.js:111-119 | `$[x+1]` is evaluated after `x` is substituted |
| ResolveFacts.ReplaceSample | src/index.js:115 | `x` in `x+1` is replaced at a word boundary |
| ResolveFacts.NumericRecord | src/index.js:113-114 | a resolved, non-empty, numeric record gives its content as the value to substitute |
| ResolveFacts.SubstituteOne | src/index.js:112-116 | with one math variable, substitution is the word-bounded replacement of that variable by its value |
| ResolveFacts.NumericSample | src/index.js:112-116 | with `x` holding 2, `x+1` becomes `2+1` |
| ResolveFacts.SubstituteSample | src/index.js:111-119 | `$[x+1]` with `x` holding 2 evaluates `2+1` |
| ResolveFacts.NothingResolves | src/index.js:176-183 | when no nested call resolves, the content is kept, and it counts as resolved only if it holds no call |
| ResolveFacts.PlainDefinition | src/index.js:173-183 | a definition without `[` is final as it stands |
| Queue.Write | src/index.js:190-193 | only the record `(page, name)` changes, and the page exists afterwards |
| QueueFacts.PassPointwise | src/index.js:166-208 | a pass maps the queue item by item: text stays, a call stays or becomes text, a definition stays or becomes resolved, and prefix and name never change |
| QueueFacts.PassWritesDefinitions | src/index.js:190-193 | a pass only adds the current page, leaves other pages alone, and adds only names that the queue defines |
| QueueFacts.PassKeepsName | src/index.js:190-193 | a pass over items that do not define a name leaves that name's record alone |
| QueueFacts.LastDefinitionWins | src/index.js:185-196 | the last definition of a name in a pass decides its record: that definition's new content, resolved exactly when the definition became resolved |
| QueueFacts.PassOverText | src/index.js:169-170 | a pass over text alone changes nothing and makes no progress |
| QueueFacts.WithoutAbsentKind | src/index.js:210 | filtering out a kind the queue lacks changes nothing |
| QueueFacts.WithoutKindMembers | src/index.js:210-217 | filtering keeps exactly the items of the other kinds |
| QueueFacts.WithoutKindConcat | src/index.js:210 | filtering keeps the order of the surviving items |
| QueueFacts.ProcessOverText | src/index.js:163-218 | a queue of text comes out unchanged, and the store is untouched |
| QueueFacts.ProcessLeavesNoDefinitions | src/index.js:210-217 | after the loop only text and calls remain |
| QueueFacts.FiltersAfterPass | src/index.js:210-217 | after a pass that maps the items one for one, dropping resolved definitions and then definitions leaves items that match, one for one and in order, the items left when definitions are dropped before the pass |
| QueueFacts.SettlesAllThen | src/index.js:166-217 | for text and calls, matching one for one across two passes is matching one for one across both |
| QueueFacts.OnePassSettles | src/index.js:166-210 | one pass and its filter map the text and calls of the queue one for one, in order, and leave no resolved item |
| QueueFacts.ProcessSettles | src/index.js:163-218 | for a queue without resolved items, the whole loop returns exactly as many items as the queue has text and calls, in the same order: text unchanged, and each call unchanged or turned into text |
| QueueFacts.PlainPage | src/index.js:239-323 | a page without `[` comes out of tokenizing, the loop and the join unchanged |
| Engine.PassAt | src/index.js:168-208 | a pass from item `k` is the step on item `k`, then a pass over the items after it |
| Engine.PassStep | src/index.js:168-209 | after item `k` is processed in place, the items before `k + 1` are done, the rest is untouched, and the pass still comes out as `PassSpec` says |
| Engine.PassEnds | src/index.js:168-209 | before the first item nothing is done and the whole pass lies ahead; after the last item the queue, store and flag are the pass's result |
| Engine.ChainedExtend | src/index.js:212-215 | adding a pass to the log keeps "a pass is final exactly after a pass without progress" |
| Engine.OpenLogExtend | src/index.js:212-215 | a pass that is not final keeps the running log consistent, and the next pass is final exactly when it made no progress |
| Engine.CloseAfterFinal | src/index.js:212-213 | a final pass after at least one other pass closes the log |
| Engine.CloseAtFuel | src/index.js:166-216 | a loop that used all its passes leaves a closed log |
| Engine.PassLog | src/index.js:163-218 | the passes of the loop have its shape: with passes left the first pass is final exactly when the loop starts final; nothing follows a final pass; after a pass that is not final, the next is final exactly when that pass made no progress |
| Engine.LoopFromIs | src/index.js:163-218 | the rest of the loop after some logged passes ends with the queue and store of `ProcessSpec`, and with the logged passes followed by `PassLog` |
| Engine.LogFromCloses | src/index.js:166-216 | a running log followed by passes of the loop's shape is closed |
| Engine.PassLogClosed | src/index.js:166-216 | the log of the whole loop is closed: a pass is final exactly when the one before made no progress, only the last pass can be final, a final pass is never the first, and the loop stops before its fuel runs out only after its final pass |
| Engine.LoopDone | src/index.js:163-218 | the loop run from an empty log ends with the queue and store of `ProcessSpec` and a closed log of its passes |
| Engine.Context.constructor | src/index.js:5-7 | an empty queue, an empty store, page 0 |
| Engine.Context.Lookup | src/index.js:145-161 | the two walks find exactly the record `LookupSpec` names, whose order `Store.LookupOrder` proves; the store is not changed |
| Engine.Context.NumericLookup | src/index.js:113-114 | a value is substituted only for a resolved, non-empty, numeric record |
| Engine.Context.SubstituteVars | src/index.js:112-116 | the `forEach` substitutes the math variables in order, as `Resolve.Substitute` does |
| Engine.Context.ReplaceVar | src/index.js:103-143 | returns exactly `ReplaceVarSpec`, whose cases the `ResolveFacts` lemmas state |
| Engine.Context.ResolveDefinition | src/index.js:173-183 | the `exec` loop gives the new content and the all-resolved flag of `ResolveDefSpec` |
| Engine.Context.ProcessItem | src/index.js:168-208 | one item is updated in place and the store written as `StepSpec` says; nothing else changes |
| Engine.Context.StepDefinition | src/index.js:172-197 | a definition is updated and its record written as `StepSpec` says; the queue and page number are untouched |
| Engine.Context.StepCall | src/index.js:199-208 | a call becomes text when its value is found and stays otherwise, as `StepSpec` says, and the store is not changed |
| Engine.Context.RunPass | src/index.js:166-210 | the pass and filter leave the queue, store and progress flag of `PassSpec`, with resolved definitions removed |
| Engine.Context.Advance | src/index.js:166-215 | one turn of the `while` loop: `resolvedOne` is the progress of the pass; after the final pass the filtered queue, the store and the log with this pass are the loop's result; otherwise the rest of the loop from the new state, final exactly when no progress was made, with this pass logged, gives the same result |
| Engine.Context.ProcessVariableQueue | src/index.js:163-218 | the queue and store end as `ProcessSpec` says, and the log it returns is `PassLog` of this run, which is closed: a pass is final exactly when the one before made no progress, only the last pass can be final, a final pass is never the first, and the loop stops before its fuel runs out only after its final pass |
| Engine.Context.ResetCurrentPage | src/index.js:224-229 | the store becomes `ResetPage` of the old store |
| Engine.Context.Preprocess | src/index.js:223-323 | the queue and store are `ProcessSpec` over the tokens of the page after the reset, and the output is their join |
| Engine.Context.SetMarkedVariable | src/index.js:329-337 | the store becomes `SetExternal` of the old store; queue and page number unchanged |
| Engine.Context.GetMarkedVariable | src/index.js:339-345 | returns content exactly when the lookup finds a resolved record, and then that record's content |
| Engine.Context.SetMarkedVariablePage | src/index.js:347-349 | only the current page number changes |

## Left out

- The `expr-eval` evaluator (src/index.js:1, 15-44, 119) is a foreign library over floating point. It is the parameter `Env.evaluate`, which returns the printed result or `None` for a throw. Consequently `sign`, `signed` and `toChar` are modelled on integers only, as functions the evaluator would call. They are not wired into `evaluate`.
- `isNaN` string-to-number coercion is the parameter `Env.isNumber`. It is applied to trimmed, non-empty text. Blank text is numeric, as in JavaScript.
- `toRomans*`, `toWords*` and `toWordsCaps` (src/index.js:55-64, 79-96) wrap the `romans` and `written-number` libraries. Those libraries are not part of this model.
- The `markedVariables` hook object and its registration with the renderer (src/index.js:220-222). `preprocess` is the method `Engine.Context.Preprocess`.
- Exact regular-expression engine semantics are written as explicit scanners:
  - The fence back-reference and look-aheads of `codeBlockSkip` are a scanner for indented blocks, fenced blocks and inline code, tried in that order.
  - `\s` is JavaScript's whitespace set.
  - Multiline `^` and `$` use JavaScript's four line terminators.
  - Any alternative ordering the scanners do not reproduce is not modelled.
- Math variable names are read literally in the word-bounded replacement (src/index.js:115). A name holding regular-expression metacharacters would be read as a pattern by the source. The replacement text's `$` patterns (`$&`, `$1`) in `replaceAll` (src/index.js:115, 182) are not interpreted either.
- Engine.Context.ProcessVariableQueue: does not run to a fixed point unconditionally. The loop is allowed `fuel` passes, because the source's loop need not terminate. When the fuel runs out, the queue is filtered as after a final pass.
- Page numbers are integers. Non-integer page indices are not modelled.
- Store.LookupOrder: the store holds only names that were defined. In the source a page is a plain object, so a call whose name is an `Object.prototype` key, such as `[constructor]` or `[toString]`, is found by `lookupVar` (src/index.js:147) on any page. For such a name in a call without `$`, the source's final pass reaches `foundVar.content.match(linkRegex)` (src/index.js:134) with no content and throws a TypeError out of `preprocess`. The model finds nothing for these names and keeps the call, so "nothing is found exactly when no page holds the name" does not describe them.
- LinkAt, LinkFrom, LinkMatch: their own contracts give only the shape of the destination. What a match is read from, and that it is on the first line where one is anchored, is stated by Links.LinkAtSound, Links.LinkFromSound and Links.LinkMatchSound. Which `>` and which title closer are chosen when several fit (the shortest destination, the longest title) is stated by `Links.LastClosing` and by the definitions, not by a lemma.
- SplitFrom, SplitMath: their own contracts give only the number of pieces and that no piece holds an operator character. That the pieces are the text between the separators is stated by Resolve.SplitFromRebuilds and Resolve.SplitMathRebuilds.
- A math result is a string. The evaluator's numeric results, and their conversion to text when joined, are not modelled.
- `lib/index.umd.js` (a generated bundle), `rollup.config.umd.js` and `spec/marked.spec.js` are not part of this model. `spec/index.test.js` is cited only as evidence.
