# Morpheus rule interpreter in Dafny

Morpheus is a morphology engine. Its `.morphology` files define conjugation
patterns for a language:
- a pattern name with an optional condition (`present indicative for infinitive like "-ar"`);
- a list of forms (`1sg stem -o`);
- a list of stem definitions (`stem = infinitive adjusted: (-ar → ∅)`, `changed-stem = stem adjusted: (e → ie in final syllable)`).

Its `.lexicon` files list verbs with optional properties
(`verb pensar (stem-change e→ie);`). The engine loads both. It then
conjugates a verb: every pattern whose condition the verb satisfies
contributes a table from person to form. Each form is the named stem (the
infinitive run through the stem's chain of adjustments) followed by the
ending.

This project models the rule interpreter of `morpheus.py` in Dafny and
proves what it does:

- `Adjustments`: the four kinds of stem adjustment, tested in this order:
  - suffix deletion;
  - suffix replacement;
  - rightmost single-character substitution "in final syllable";
  - global replacement.

  It also holds chains of adjustments and the computed stem.
- `AdjustmentLists`: the parser of an adjustment list such as `-ar → ∅, e → ie in final syllable`.
- `StemLines`: hand-written recognizers for the stem-definition lines.
- `Patterns`: the parsers of conjugation blocks and participle blocks, and the loading of a run of blocks.
- `Lexicon`: lexicon entries and the verb table they fill.
- `Conditions`: the condition evaluator.
- `Engine`: the person sort key, the conjugation, and the `MorphologyEngine` class. Its fields `patterns` and `verbs` are updated in place by the loaders.
- `Text`, `Tables`, `Wrappers`: Python's string built-ins, dictionaries filled by successive assignments, and `Option`/`Result`.

Each loop of the source is a method proved against a specification function.
The properties the source promises are lemmas about those functions.

## Model

| member | source | states |
|---|---|---|
| Adjustments.Apply | morpheus.py:20-45 | The method, which scans backwards for the final-syllable case, returns exactly the specified result of the adjustment. |
| Adjustments.LastIndexOf | morpheus.py:41-44 | The index found holds the character, and no later index does; `None` means the character does not occur. |
| Adjustments.DeletionRemovesSuffix | morpheus.py:22-26 | With replacement `∅` and any condition: if the text ends with the pattern without its leading hyphens, the result is the text with exactly that suffix removed; otherwise the text is unchanged. |
| Adjustments.SuffixReplacementSpec | morpheus.py:29-34 | With a pattern starting with `-`: if the text ends with the stripped ending, the result is the text before it followed by the replacement, inserted verbatim. An empty ending empties the text, as `text[:-0]` does. Otherwise the text is unchanged. |
| Adjustments.FinalSyllableReplacesRightmost | morpheus.py:37-43 | Only the rightmost occurrence of the one-character pattern is replaced; every other character is kept. |
| Adjustments.FinalSyllableNoMatch | morpheus.py:37-44 | A pattern that is not one character, or does not occur, leaves the text unchanged. |
| Adjustments.GlobalReplacementSpec | morpheus.py:45 | The default branch replaces every non-overlapping occurrence: it splits on the pattern and joins with the replacement. A text without the pattern is unchanged. |
| Adjustments.ChainAppend | morpheus.py:293-296  | Applying two chains one after the other is applying their concatenation. |
| Adjustments.ChainSnoc | morpheus.py:294-296 | Extending a chain by one adjustment applies it to the chain's result. |
| Text.ReplaceIsJoinOfSplit | morpheus.py:45 | `str.replace` with a non-empty pattern equals joining the pieces of `str.split` on the pattern with the replacement. |
| Text.ReplaceIdentities | morpheus.py:45  | Replacing a pattern that does not occur, or replacing a pattern by itself, changes nothing. |
| Text.SplitJoin | morpheus.py:195  | Splitting a comma-joined list of comma-free pieces gives the pieces back. |
| Text.JoinSplit | morpheus.py:195 | Joining the pieces of a split with the separator gives the text back. |
| Text.StripPadded | morpheus.py:196-200  | Stripping removes exactly the surrounding whitespace of a padded text. |
| Text.TokensOfJoin | morpheus.py:150  | `split()` of tokens joined by blanks gives the tokens back. |
| AdjustmentLists.ParseAdjustments | morpheus.py:192-209 | The method returns the specified parse of the comma-separated parts of the text. |
| AdjustmentLists.AdjustmentsOfSpec | morpheus.py:195-209 | Parsing succeeds exactly when no part fails to unpack. It then yields one adjustment per part that has an arrow, in order. Otherwise it fails at the first failing part, and every part before it succeeds. |
| AdjustmentLists.CollectStopsAtFailure | morpheus.py:195-208 | Once a part has failed, the parts after it do not change the outcome. |
| AdjustmentLists.ParsePartOfRender | morpheus.py:196-208 | Parsing the text of an adjustment gives it back: pattern and replacement are stripped, and ` in final syllable` becomes the condition. |
| AdjustmentLists.MarkerRemoved | morpheus.py:204-206 | A replacement followed by ` in final syllable` is recognized, and removing the phrase and stripping gives the replacement back. |
| AdjustmentLists.PlainPartHasNoCondition | morpheus.py:196-208 | A part `p → q` whose replacement lacks ` in final syllable` reads back as pattern `p`, replacement `q` and no condition. |
| AdjustmentLists.ParseRenderList | morpheus.py:192-209 | Parsing the comma-joined text of a list of adjustments gives the list back. |
| AdjustmentLists.TwoArrowsFail | morpheus.py:197-198 | A part with two arrows cannot be unpacked, and parsing fails on that part. |
| StemLines.InfinitiveDefOfLine | morpheus.py:165 | `X = infinitive adjusted: (L)` is recognized, with name `X` and list `L`. |
| StemLines.SearchFindsLine | morpheus.py:127 | The leftmost search for a base definition finds it at the start of the stem text. |
| StemLines.DerivedDefOfLine | morpheus.py:165-173  | `X = B adjusted: (L)` is recognized with name, base and list. It is not taken for a base definition unless `B` is `infinitive`. |
| StemLines.InfinitiveDefSound | morpheus.py:165 | Whatever the base recognizer accepts is a name (`\w+`, or `\w+(?:-\w+)?` for stem lines), optional blanks, `=`, optional blanks, `infinitive adjusted:`, optional blanks and `(LIST)`. The list holds no `)` and no newline. |
| StemLines.DerivedDefSound | morpheus.py:173 | Whatever the derived recognizer accepts is a name, optional blanks, `=`, optional blanks, a base name, at least one blank, `adjusted:`, optional blanks and `(LIST)`. The list holds no `)` and no newline. |
| StemLines.SearchInfinitiveDefSound | morpheus.py:127 | The search returns the match at the leftmost position that has one, and returns nothing exactly when no position matches. |
| Patterns.ParseForms | morpheus.py:145-156 | The forms loop returns the specified forms of the lines. |
| Patterns.FormsOfSkipsIgnored | morpheus.py:147-148 | Blank lines and `#` lines add no form and leave the others in order. |
| Patterns.FormsOfAppend | morpheus.py:145-156 | The forms of two runs of lines are the forms of the first followed by those of the second, so source order is kept. |
| Patterns.FormOfFormLine | morpheus.py:146-156 | A form line `person stem ending,` reads back as that form. |
| Patterns.FormsOfFormsText | morpheus.py:145-156 | The forms text of a list of forms reads back as that list, in order. |
| Patterns.ParseStems | morpheus.py:159-188 | The stems loop returns the specified stems of the lines. |
| Patterns.StemLineStep | morpheus.py:160-188 | One stems line has its specified effect on the stems defined so far. |
| Patterns.StemLineBase | morpheus.py:165-170 | A base definition line sets its stem to the parsed list, overwriting any earlier definition. |
| Patterns.StemLineDerived | morpheus.py:173-188 | A derived line with a defined base sets the stem to the base's chain followed by the parsed list. When the new name differs from the base, the base's own chain is unchanged; when it is the base itself, that chain is extended. With an undefined base other than `infinitive`, the stems are unchanged. |
| Patterns.CommentStemLine | morpheus.py:161-162 | A `#` line leaves the stems unchanged. |
| Patterns.StemsOfStopsAtFailure | morpheus.py:159-188 | After a line fails to parse, later lines do not matter. |
| Patterns.DerivedStemOf | morpheus.py:182-184  | The stem derived from a base is the base's computed stem run through the new adjustments. Other stems are unchanged. |
| Patterns.ParseConjugationPattern | morpheus.py:134-190 | The method returns the specified pattern of the block. |
| Patterns.HeaderOfName | morpheus.py:139-142 | A header without ` for ` is all name, and the condition is empty. |
| Patterns.HeaderOfFor | morpheus.py:139-142 | `NAME for CONDITION` gives that name and that condition, stripped. |
| Patterns.HeaderDropsAfterSecondFor | morpheus.py:139-142 | With a second ` for `, only the text between the first two is the condition. |
| Patterns.PatternOfRendered | morpheus.py:134-190 | A block written from a name, a condition, a list of forms and a base stem definition parses back to exactly that pattern. |
| Patterns.StemsOfBaseLine | morpheus.py:159-170 | A stems text of one base definition defines exactly that stem. |
| Patterns.ParseParticiple | morpheus.py:113-131 | The method returns the specified participle pattern. |
| Patterns.ParticipleOfRendered | morpheus.py:113-131 | A participle block `stem -ado` with a base stem definition gives the pattern named by its type, with the stripped condition, one person-less form and that one stem. |
| Patterns.ParseBlock | morpheus.py:102-132  | A block is parsed as a conjugation block or as a participle block. |
| Patterns.LoadBlocksSpec | morpheus.py:102-132  | Loading succeeds exactly when every block parses, and then adds their patterns in order. Otherwise it stops at the first failing block, having added the patterns of the blocks before it. |
| Patterns.LoadBlocksStops | morpheus.py:102-104 | Blocks after a failing block add nothing. |
| Patterns.MorphologyBlocks | morpheus.py:102-113  | The loader takes every conjugation block, then every participle block. |
| Lexicon.PropertiesOf | morpheus.py:220-223 | An entry has no properties exactly when its property text is empty. |
| Lexicon.PropertiesOfList | morpheus.py:223 | A comma-joined list of trimmed, comma-free properties reads back as that list. |
| Lexicon.TrailingCommaGivesEmptyProperty | morpheus.py:223 | A property list ending with a comma gets an empty last property. |
| Lexicon.EnteredFiledByName | morpheus.py:224 | Entering keeps every verb filed under its own infinitive. |
| Lexicon.EnteredKeys | morpheus.py:219-224 | After entering, a name is known exactly when it was known before or some entry names it. |
| Lexicon.EnteredLast | morpheus.py:219-224 | The verb filed under a name is that of the last entry with that name. |
| Lexicon.EnteredSnoc | morpheus.py:219-224 | Entering one more entry files its verb under its infinitive, replacing whatever was filed there. |
| Lexicon.EnteredTwice | morpheus.py:219-224 | Loading two lexicons one after the other is loading their entries together. |
| Tables.AssignKeys | morpheus.py:224  | The keys of a dictionary filled by assignments are exactly the keys assigned. |
| Tables.AssignLast | morpheus.py:246-248  | A key holds the value of its last assignment. |
| Conditions.CheckSingleCondition | morpheus.py:268-285 | The method returns whether the single condition holds, as specified. |
| Conditions.PatternMatches | morpheus.py:252-266 | The method returns whether the pattern applies, as specified. |
| Conditions.QuotedEndingsOfList | morpheus.py:272 | Every ending of a list `"-a" or "-b"` is found, in order, with its hyphen. |
| Conditions.QuotedEndingsSkip | morpheus.py:272 | Text without a quote contributes no ending. |
| Conditions.InfinitiveLikeHolds | morpheus.py:271-276 | `infinitive like "-a" or ...` holds exactly for the verbs whose infinitive ends with one of the listed endings. |
| Conditions.InfinitiveLikeWithoutEndings | morpheus.py:271-276 | An `infinitive like` condition quoting no ending holds for no verb, since the `stem-change` test is never reached. |
| Conditions.StemChangeHoldsForOwnProperty | morpheus.py:279-283 | A `stem-change` condition holds for a verb that has it as a property. |
| Conditions.EmptyPropertyMatchesEveryStemChange | morpheus.py:279-283 | A verb with an empty property satisfies every `stem-change` condition. |
| Conditions.BlankApplies | morpheus.py:257-258 | A blank condition applies to every verb. |
| Conditions.AndApplies | morpheus.py:261-264 | `A and B` applies exactly when both `A` and `B` hold. |
| Engine.SortKey | morpheus.py:76-88  | A person in the conventional order gets its position there; any other person gets 999. |
| Engine.SortKeyOrder | morpheus.py:76-88  | The conventional persons sort in their order, and all of them before an unknown person. |
| Engine.ComputeStem | morpheus.py:287-300 | An undeclared stem is the infinitive. A declared one is the left-to-right fold of its adjustments over the infinitive. |
| Engine.ConjugatePattern | morpheus.py:240-246 | The forms loop returns the specified table of a pattern's forms by person. |
| Engine.ConjugationTenses | morpheus.py:228-250 | A conjugation of a known verb succeeds. Its tenses are exactly the names of the patterns that apply to the verb. |
| Engine.ConjugatedPattern | morpheus.py:234-248 | The forms filed under a pattern's name are the form table of the last applying pattern of that name. |
| Engine.FormTableEntry | morpheus.py:240-245 | A pattern's form table holds, for a person, the conjugation of its last form for that person. |
| Engine.ConjugatedForm | morpheus.py:234-248 | Each entry is the stem followed by the ending without hyphens. It comes from the last applying pattern of that name, and from that pattern's last form for the person, or `form` when the person is empty. |
| Engine.MorphologyEngine.constructor | morpheus.py:78-80 | A new engine has no patterns and no verbs. |
| Engine.MorphologyEngine.LoadMorphology | morpheus.py:102-132  | The loaded patterns are appended to the engine's patterns, and the verbs are unchanged. A block that fails to parse stops the loading with its error, keeping the patterns added before it. |
| Engine.MorphologyEngine.AddBlocks | morpheus.py:102-104  | The loading loop appends each block's pattern in turn. |
| Engine.MorphologyEngine.LoadLexicon | morpheus.py:219-224 | The verbs become the old verbs with the entries entered in order. Every verb stays filed under its infinitive, and the patterns are unchanged. |
| Engine.MorphologyEngine.Conjugate | morpheus.py:226-250 | The method returns the specified conjugation. An unknown verb gives `VerbNotFound`. |

## Left out

- File reading in `load_morphology` and `load_lexicon` (morpheus.py:92-93, 212-213), and the printing `main` (morpheus.py:303-328): I/O.
- demo.py is not part of this model: it only loads files and prints tables.
- The whole-file regular expressions that cut a morphology file into blocks (morpheus.py:96-100, 107-111) and a lexicon into entries (morpheus.py:217) are left out. Their lazy, DOTALL, lookahead semantics are not modelled, so the loaders take the pieces those expressions capture.
- The line regular expressions (morpheus.py:127, 165, 173) are replaced by hand-written left-to-right recognizers.
- `\w` is approximated as ASCII letters and digits, `_`, and the Latin-1 and Latin Extended-A letters. Python's Unicode `\w` is wider.
- Exceptions become `Result` values. The `ValueError` of a part with two arrows (morpheus.py:198) and of an unknown verb (morpheus.py:229) are both modelled this way. A raised error in `load_morphology` keeps the patterns appended before it.
- Engine.MorphologyEngine.LoadMorphology: the source's two loops over conjugation blocks and participle blocks become one loop over both runs of blocks, in the same order.
- Syllable analysis is not modelled: the source only looks for the rightmost matching character, and so does the model.
- `-ar → -e` on `hablar` gives `habl-e`, because the replacement is inserted verbatim (morpheus.py:33); the model follows the code.
- A part with two arrows raises at morpheus.py:198 and is not skipped; the model returns a `ParseError`.
- `str.replace` with an empty pattern, which inserts the replacement around every character, is modelled as written. Adjustments.GlobalReplacementSpec and Text.ReplaceIdentities state their properties for a non-empty pattern only.
