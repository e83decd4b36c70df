# MXSpell core in Dafny

MXSpell is a Hunspell-style spell checker. It works from two files:

- An affix file lists directives. The `PFX` and `SFX` groups hold strip/append/condition rules, `REP` lists replacement pairs and `TRY` lists the characters to try. Other directives are `FLAG`, `COMPOUNDFLAG` and `COMPOUNDMIN`.
- A word list gives a count line and then one `word/flags` line per word.

This project models that core and proves properties of it:

- **Affix parser and word-form expander** (`AffixParser`, `Affix`, `AffixRule`):
  - the directive dispatch of `parseAffixFile`, with its "declared count = parsed count" checks for REP and for every rule group;
  - flag decoding (`getFlags`) for the four flag types;
  - word-form expansion (`getWords`, `processRules`, `matchesCondition`).
- **Bitmask condition walks** of `Prefix` and `Suffix`, related to the regular-expression check.
- **Suggestion engine** (`SpellCorrector.suggest`):
  - the dictionary and lower-case lookups;
  - the candidate passes: deletion, REP, TRY substitution, TRY insertion and transposition;
  - the two-word splits and the fallback truncation scan.
- **Case-retry layer** (`SpellChecker.suggest`): the upper-case, capitalized and mixed-case checks and the single-deletion refinement loop.
- **`checkString` tokenizer** and the mapping from a dictionary archive's file name to a language key.
- **Word-list loading** (`Dictionary.loadWords`, `lookup`) and `DictionaryEntry` equality and order.

## How it is organised

Each operation has two forms:

- A specification function on values. `AffixGrammar`, `WordForms`, `Candidates`, `SpellCorrectors` and `SpellCheckers` hold these functions.
- Imperative code wherever the Java code works by mutation or loops:
  - `AffixParsers.AffixParser`, `Affixes.Affix` and `Dictionaries.Dictionary` are classes whose methods update fields in place;
  - `getFlags` fills an array;
  - the `suggest` passes, the refinement loop and the `checkString` loops are methods with loop invariants.

Each method is proved equal to its function. The properties are then proved about the functions.

Java's null is `Option.None`. A Java exception is `Result.Err` with the kind of exception. `IOException` carries a reason tag instead of the message text.

Some behaviour of the code differs from what its documentation suggests. Where they differ, the model follows the code:

- An append token `0` is appended literally. Only a strip token `0` means "strip nothing" (`WordForms.AppendZeroIsLiteral`).
- A rule line without a condition is accepted only when its append token is `.`. It is then stored as append `""` with condition `.` (`AffixGrammar.RuleOf`).
- `checkString` splits with `text.split("\s+")`. In a Java string literal `\s` is a single space, so the regular expression is `" +"`. The text is split on runs of U+0020 only (`SpellCheckers.SplitSpaces`), not on tabs or newlines.
- The "long" flag type fills only even slots below `|s|/2` and leaves the others null. Expanding a long flag string of four or more characters therefore always raises (`WordForms.LongFlagsFailBeyondOnePair`).
- `SpellCorrector.suggest` never returns its accumulated candidate list. It answers either nothing or the word itself (`SpellCorrectors.Suggest`).
- `SpellChecker.suggest` on an unknown one-character word that is neither upper case, capitalized nor mixed case raises. It asks about the empty deletion and tries to capitalize it (`SpellCheckers.CheckerRaisesOnOneCharacterWord`).
- A `checkString` text that starts with a space and holds a non-space character yields an empty first token. Reading that token's first character raises (`SpellCheckers.CheckStringLeadingSpaceRaises`). Text made only of spaces splits into no tokens at all and gives an empty map.
- Dictionary.java:109 and Dictionary.java:111 call a two-argument `DictionaryEntry` constructor that does not exist. The model builds the entry from the word and the flags, which is what the three-argument constructor stores.

## Model

| member | source | states |
|---|---|---|
| Common.LineParts | src/com/maxprograms/mxspell/AffixParser.java:69-71 | a stripped line split on whitespace gives its tokens, so more than one part means every part is a non-empty whitespace-free token and the first is a prefix of the stripped line |
| Common.Tokens | src/com/maxprograms/mxspell/AffixParser.java:333-340 | the successive `StringTokenizer` tokens are non-empty and hold no tokenizer delimiter |
| Common.ParseInt | src/com/maxprograms/mxspell/AffixParser.java:102 | `Integer.parseInt` succeeds only on an optional sign followed by digits, and then gives the signed decimal value of the digits, within 32 bits; every digit string of value at most 2^31-1 is read as that value |
| Common.ParseIntLeadingZero | src/com/maxprograms/mxspell/AffixParser.java:102 | a zero after the sign does not change what `Integer.parseInt` reads |
| Common.IndexOf | src/com/maxprograms/mxspell/Dictionary.java:105 | `indexOf` gives the first occurrence at or after the start index, or -1 when there is none |
| Common.AddNew | src/com/maxprograms/mxspell/AffixParser.java:418-420 | adding under a `contains` guard: the new list holds exactly the old elements and the new one, and stays duplicate-free |
| AffixRules.StripLength | src/com/maxprograms/mxspell/AffixParser.java:404-406 | a strip token `0` removes nothing; any other removes as many characters as it has |
| Affixes.IsCrossProduct | src/com/maxprograms/mxspell/Affix.java:29 | cross product holds exactly for the token `Y`; any other token gives false |
| Affixes.NewGroup | src/com/maxprograms/mxspell/Affix.java:26-32 | a new group keeps its type, flag and count, has no rules, and is complete exactly when the count is 0 |
| Affixes.Affix.constructor | src/com/maxprograms/mxspell/Affix.java:26-32 | the new object's value is the new group of its header |
| Affixes.Affix.GetType | src/com/maxprograms/mxspell/Affix.java:34-36 | returns the type given at construction |
| Affixes.Affix.GetRules | src/com/maxprograms/mxspell/Affix.java:42-44 | returns the rules in the order they were added |
| Affixes.Affix.AddRule | src/com/maxprograms/mxspell/Affix.java:38-40 | appends the rule at the end; earlier rules, type, flag, cross product and count are unchanged |
| Affixes.Affix.HasAllRules | src/com/maxprograms/mxspell/Affix.java:46-48 | true exactly when the number of rules equals the declared count, so both too few and too many give false |
| Conditions.CloseIndex | src/com/maxprograms/mxspell/AffixParser.java:430 | finds the `]` that closes a bracket group, or reports that there is none |
| Conditions.Compile | src/com/maxprograms/mxspell/AffixParser.java:430 | a condition compiles to at most one character class per character |
| Conditions.MatchesCondition | src/com/maxprograms/mxspell/AffixParser.java:426-432 | `.` always matches; an unclosed bracket raises PatternSyntaxException; a match needs a word at least as long as the condition |
| Conditions.ShortWordNeverMatches | src/com/maxprograms/mxspell/AffixParser.java:430-431 | a word shorter than its condition never matches, for prefixes and suffixes alike |
| Conditions.LiteralCompiles | src/com/maxprograms/mxspell/AffixParser.java:430 | a condition without metacharacters is one literal class per character |
| Conditions.LiteralSuffixCondition | src/com/maxprograms/mxspell/AffixParser.java:430-431 | a suffix rule with a literal condition applies exactly to words ending with that text |
| Prefixes.CheckConditions | src/com/maxprograms/mxspell/Prefix.java:15-28 | false exactly when some slot k rejects the character at index k before the walk runs off the word or the table; no slots gives true |
| Prefixes.IgnoresTail | src/com/maxprograms/mxspell/Prefix.java:16-25 | characters at index `numconds` and beyond are never read |
| Prefixes.AgreesWithRegexOnLongWords | src/com/maxprograms/mxspell/Prefix.java:15-28 | on words at least as long as the condition whose characters lie in the table, the bitmask walk agrees with `^cond.*` |
| Prefixes.AcceptsShortWordsUnlikeRegex | src/com/maxprograms/mxspell/Prefix.java:22-24 | a too-short word whose reached slots accept it passes the bitmask walk but not the regular expression |
| Suffixes.CheckConditions | src/com/maxprograms/mxspell/Suffix.java:15-28 | false exactly when a slot rejects the character as many places from the end, walking inward; no slots gives true |
| Suffixes.IgnoresFront | src/com/maxprograms/mxspell/Suffix.java:16-17 | characters before index `|word| - numconds` are never read |
| Suffixes.AgreesWithRegexOnLongWords | src/com/maxprograms/mxspell/Suffix.java:15-28 | on long enough words inside the table, the bitmask walk agrees with `.*cond$` |
| Suffixes.AcceptsShortWordsUnlikeRegex | src/com/maxprograms/mxspell/Suffix.java:17 | a too-short word whose reached slots accept it passes the walk but not the regular expression |
| AffixGrammar.CompoundMin | src/com/maxprograms/mxspell/AffixParser.java:102-105 | the stored COMPOUNDMIN lies in 1..50, equals the given value when that is in range, and is 3 otherwise |
| AffixGrammar.HandleFlag | src/com/maxprograms/mxspell/AffixParser.java:309-318 | succeeds exactly when there is a first token and it is one of ASCII, UTF-8, num or long; success sets only the flag type, to that token; no token raises NoSuchElement, an unknown one IOException |
| AffixGrammar.HandleReplacement | src/com/maxprograms/mxspell/AffixParser.java:320-330 | the first REP line must hold a number, which becomes the declared size, and creates an empty map; later lines need a third part and put pattern to replacement, overwriting |
| AffixGrammar.RuleOf | src/com/maxprograms/mxspell/AffixParser.java:336-351 | tokens are stored verbatim; without a condition the line is accepted only for append `.`, as append "" with condition `.`, else IOException |
| AffixGrammar.HandleAffix | src/com/maxprograms/mxspell/AffixParser.java:332-357 | an affix line changes only the group map |
| AffixGrammar.HandleDirective | src/com/maxprograms/mxspell/AffixParser.java:72-288 | once set, TRY, COMPOUNDFLAG, COMPOUNDMIN and the REP map with its declared size are never changed by a later line |
| AffixGrammar.HandleLine | src/com/maxprograms/mxspell/AffixParser.java:67-73 | lines with fewer than two parts change nothing; others are dispatched on their stripped tokens |
| AffixGrammar.ParseLinesAppend | src/com/maxprograms/mxspell/AffixParser.java:67-290 | reading two runs of lines is reading the first and, unless it raised, then the second |
| AffixGrammar.Finish | src/com/maxprograms/mxspell/AffixParser.java:291-306 | the final checks succeed exactly when the REP map holds its declared number of pairs and every group its declared number of rules |
| AffixGrammar.HandleAffixConsistent | src/com/maxprograms/mxspell/AffixParser.java:332-357 | an affix line keeps every group filed under its own token flag |
| AffixGrammar.HandleReplacementConsistent | src/com/maxprograms/mxspell/AffixParser.java:320-330 | REP pairs stay whitespace-free tokens |
| AffixGrammar.HandleDirectiveConsistent | src/com/maxprograms/mxspell/AffixParser.java:72-288 | every directive keeps the parser state consistent |
| AffixGrammar.HandleLineConsistent | src/com/maxprograms/mxspell/AffixParser.java:67-290 | every line keeps the parser state consistent |
| AffixGrammar.ParseLinesConsistent | src/com/maxprograms/mxspell/AffixParser.java:67-290 | the loop keeps the parser state consistent |
| AffixGrammar.ParseSound | src/com/maxprograms/mxspell/AffixParser.java:65-307 | a successful parse has a known flag type, COMPOUNDMIN unset or in 1..50, exactly the declared REP pairs, and every group complete |
| AffixGrammar.HandleLineSets | src/com/maxprograms/mxspell/AffixParser.java:77-106 | a TRY, COMPOUNDFLAG or COMPOUNDMIN line that succeeds sets its field |
| AffixGrammar.HandleLineRejectsRepeat | src/com/maxprograms/mxspell/AffixParser.java:78-82 | such a line raises once its field is set |
| AffixGrammar.HandleLineKeepsSet | src/com/maxprograms/mxspell/AffixParser.java:72-288 | a set field stays set |
| AffixGrammar.RepeatAfterSetFails | src/com/maxprograms/mxspell/AffixParser.java:77-106 | once the field is set, any later line of the same directive makes the loop raise |
| AffixGrammar.DirectiveTwiceFails | src/com/maxprograms/mxspell/AffixParser.java:77-106 | from any state, a directive line followed later by another of the same directive makes the loop raise |
| AffixGrammar.RepeatedDirectiveFails | src/com/maxprograms/mxspell/AffixParser.java:77-106 | a second TRY, COMPOUNDFLAG or COMPOUNDMIN line makes the parse fail |
| AffixGrammar.RuleLineIgnoresTag | src/com/maxprograms/mxspell/AffixParser.java:335 | PFX and SFX share one map: for a known flag the tag makes no difference |
| AffixGrammar.RuleLineAppends | src/com/maxprograms/mxspell/AffixParser.java:335-351 | a rule line for a known flag appends exactly its verbatim rule to that group and changes nothing else |
| AffixGrammar.AffixLineExtends | src/com/maxprograms/mxspell/AffixParser.java:332-357 | an affix line adds at most its own flag, and existing groups keep header and earlier rules in order |
| AffixGrammar.HeaderLineOpens | src/com/maxprograms/mxspell/AffixParser.java:352-356 | a header for a new flag opens an empty group of the line's type, and fails exactly when the count is not a number |
| AffixParsers.AffixParser.constructor | src/com/maxprograms/mxspell/AffixParser.java:41-53 | a fresh parser has no groups, flag type ASCII, COMPOUNDMIN -1, and no TRY or REP |
| AffixParsers.AffixParser.HandleFlag | src/com/maxprograms/mxspell/AffixParser.java:309-318 | updates the fields as `AffixGrammar.HandleFlag` says |
| AffixParsers.AffixParser.HandleReplacement | src/com/maxprograms/mxspell/AffixParser.java:320-330 | updates the REP map in place as `AffixGrammar.HandleReplacement` says |
| AffixParsers.AffixParser.AddRuleTo | src/com/maxprograms/mxspell/AffixParser.java:351 | only the group of the flag gains the rule at its end |
| AffixParsers.AffixParser.OpenGroup | src/com/maxprograms/mxspell/AffixParser.java:355 | a fresh group object is filed under the new flag |
| AffixParsers.AffixParser.HandleAffix | src/com/maxprograms/mxspell/AffixParser.java:332-357 | updates the group objects in place as `AffixGrammar.HandleAffix` says |
| AffixParsers.AffixParser.HandleDirective | src/com/maxprograms/mxspell/AffixParser.java:72-288 | the `switch` updates the fields as `AffixGrammar.HandleDirective` says |
| AffixParsers.AffixParser.HandleLine | src/com/maxprograms/mxspell/AffixParser.java:68-73 | one loop iteration updates the fields as `AffixGrammar.HandleLine` says |
| AffixParsers.AffixParser.Finish | src/com/maxprograms/mxspell/AffixParser.java:291-306 | the final checks raise exactly when `AffixGrammar.Finish` does |
| AffixParsers.AffixParser.ParseAffixFile | src/com/maxprograms/mxspell/AffixParser.java:65-307 | the whole file leaves the fields `AffixGrammar.ParseFrom` gives, or raises the same exception |
| AffixParsers.AffixParser.GetFlags | src/com/maxprograms/mxspell/AffixParser.java:359-378 | the array filled equals `WordForms.FlagsOf` for the current flag type |
| AffixParsers.AffixParser.FormOf | src/com/maxprograms/mxspell/AffixParser.java:403-417 | the form built equals `WordForms.ApplyRule` |
| AffixParsers.AffixParser.ProcessRules | src/com/maxprograms/mxspell/AffixParser.java:396-424 | the loop's list equals `WordForms.ProcessRules` |
| AffixParsers.AffixParser.GetWords | src/com/maxprograms/mxspell/AffixParser.java:380-394 | the loop's list equals `WordForms.GetWords` over the parser's groups |
| AffixParsers.Load | src/com/maxprograms/mxspell/AffixParser.java:51-59 | a parser built from the lines has the state `AffixGrammar.Parse` gives, or raises its exception |
| WordForms.CommaPiecesJoin | src/com/maxprograms/mxspell/AffixParser.java:375 | splitting on commas loses nothing: joining the pieces gives the text back |
| WordForms.DropTrailingEmpty | src/com/maxprograms/mxspell/AffixParser.java:375 | only empty pieces at the end are dropped, and the last kept piece is non-empty |
| WordForms.SplitComma | src/com/maxprograms/mxspell/AffixParser.java:375 | `split(",")` gives comma-free pieces, the whole text when there is no comma, and no trailing empty piece |
| WordForms.FlagsOf | src/com/maxprograms/mxspell/AffixParser.java:359-378 | ASCII/UTF-8 give one flag per character; long gives `|s|/2` slots, non-null exactly at even indices and holding the two characters there; num gives the comma pieces; other types give none |
| WordForms.ApplyRule | src/com/maxprograms/mxspell/AffixParser.java:403-417 | raises exactly when the strip is longer than the word; otherwise the form's length is the word's minus the strip plus the append |
| WordForms.SuffixFormInverse | src/com/maxprograms/mxspell/AffixParser.java:410-416 | a suffix form ends with the append text, and dropping it and restoring the stripped characters gives the word back |
| WordForms.PrefixFormInverse | src/com/maxprograms/mxspell/AffixParser.java:408-414 | a prefix form starts with the append text, and dropping it and restoring the stripped characters gives the word back |
| WordForms.AppendZeroIsLiteral | src/com/maxprograms/mxspell/AffixParser.java:413-417 | an append token `0` adds the character `0` |
| WordForms.ProducedSnoc | src/com/maxprograms/mxspell/AffixParser.java:398-422 | the forms of a rule list are those of its prefix and those of its last rule |
| WordForms.ProcessRulesForms | src/com/maxprograms/mxspell/AffixParser.java:396-424 | `processRules` lists each form once, and exactly the forms some matching rule makes |
| WordForms.GetWords | src/com/maxprograms/mxspell/AffixParser.java:380-394 | success needs every flag non-null and known |
| WordForms.GetWordsForms | src/com/maxprograms/mxspell/AffixParser.java:380-394 | `getWords` gives exactly the forms some flag's group licenses |
| WordForms.ProcessRulesErrPersists | src/com/maxprograms/mxspell/AffixParser.java:396-424 | the first exception ends `processRules` |
| WordForms.GetWordsErrPersists | src/com/maxprograms/mxspell/AffixParser.java:382-392 | the first exception ends `getWords` |
| WordForms.LongFlagsFailBeyondOnePair | src/com/maxprograms/mxspell/AffixParser.java:367-372 | a long flag string of four or more characters leaves a null slot, so expanding it always raises |
| WordForms.PluralExample | src/com/maxprograms/mxspell/AffixParser.java:396-424 | `SFX A 0 s .` makes "cats" of "cat" |
| DictionaryEntries.ConstructorIgnoresOther | src/com/maxprograms/mxspell/DictionaryEntry.java:19-22 | the third constructor argument is not stored |
| DictionaryEntries.EqualsIsValueEquality | src/com/maxprograms/mxspell/DictionaryEntry.java:33-38 | `equals` (same word, `Arrays.equals` flags, null equal only to null) is equality of entries |
| DictionaryEntries.StrCompareZero | src/com/maxprograms/mxspell/DictionaryEntry.java:48 | `String.compareTo` is 0 exactly for equal strings |
| DictionaryEntries.StrCompareAntisymmetric | src/com/maxprograms/mxspell/DictionaryEntry.java:48 | swapping the strings negates `String.compareTo` |
| DictionaryEntries.StrCompareTransitive | src/com/maxprograms/mxspell/DictionaryEntry.java:48 | `String.compareTo` is transitive |
| DictionaryEntries.SlotCompareZero | src/com/maxprograms/mxspell/DictionaryEntry.java:52 | one `Arrays.compare` slot is 0 exactly for equal slots, null sorting first |
| DictionaryEntries.SlotCompareAntisymmetric | src/com/maxprograms/mxspell/DictionaryEntry.java:52 | swapping slots negates their comparison |
| DictionaryEntries.SlotCompareTransitive | src/com/maxprograms/mxspell/DictionaryEntry.java:52 | the slot comparison is transitive |
| DictionaryEntries.SlotsCompareZero | src/com/maxprograms/mxspell/DictionaryEntry.java:52 | `Arrays.compare` is 0 exactly for equal arrays |
| DictionaryEntries.SlotsCompareAntisymmetric | src/com/maxprograms/mxspell/DictionaryEntry.java:52 | swapping arrays negates `Arrays.compare` |
| DictionaryEntries.SlotsCompareTransitive | src/com/maxprograms/mxspell/DictionaryEntry.java:52 | `Arrays.compare` is transitive |
| DictionaryEntries.CompareToZeroIffEquals | src/com/maxprograms/mxspell/DictionaryEntry.java:46-55 | `compareTo` is 0 exactly when `equals` holds |
| DictionaryEntries.CompareToAntisymmetric | src/com/maxprograms/mxspell/DictionaryEntry.java:46-55 | swapping the entries negates `compareTo` |
| DictionaryEntries.CompareToOrdersByWordThenFlags | src/com/maxprograms/mxspell/DictionaryEntry.java:47-52 | different words are ordered by word alone; for the same word a null flag array sorts first |
| DictionaryEntries.CompareToTransitive | src/com/maxprograms/mxspell/DictionaryEntry.java:46-55 | `compareTo` is transitive, hence a total order |
| Dictionaries.EntryOfSplitsAtFirstSlash | src/com/maxprograms/mxspell/Dictionary.java:105-109 | a line with its first `/` at index 1 or later gives the text before it as word (without `/`), with the flags of everything after it, and word, `/` and flag text rebuild the line |
| Dictionaries.EntryOfWithoutFlags | src/com/maxprograms/mxspell/Dictionary.java:110-111 | a line without `/`, or starting with `/`, is the whole line as word with null flags |
| Dictionaries.LoadLinesWords | src/com/maxprograms/mxspell/Dictionary.java:104-113 | the loaded words are exactly the earlier ones and the word of each line, each filed under itself |
| Dictionaries.LoadLinesLastWins | src/com/maxprograms/mxspell/Dictionary.java:109-111 | the last line for a word decides its entry |
| Dictionaries.LoadLinesUntouched | src/com/maxprograms/mxspell/Dictionary.java:104-113 | a word no line names keeps its entry |
| Dictionaries.LoadWords | src/com/maxprograms/mxspell/Dictionary.java:92-121 | loading fails, with IOException, exactly when the first line is missing or not a number; the flag reports whether the count matches the distinct words |
| Dictionaries.CountMismatchStillLoads | src/com/maxprograms/mxspell/Dictionary.java:114-118 | any number is accepted as count and every later line is loaded |
| Dictionaries.Dictionary.constructor | src/com/maxprograms/mxspell/Dictionary.java:88 | a new dictionary has an empty word map |
| Dictionaries.Dictionary.AddLine | src/com/maxprograms/mxspell/Dictionary.java:105-112 | one line puts its entry under its word in the map |
| Dictionaries.Dictionary.LoadWords | src/com/maxprograms/mxspell/Dictionary.java:92-121 | the loop leaves the map `LoadLines` gives, or raises with the map untouched |
| Dictionaries.Dictionary.Lookup | src/com/maxprograms/mxspell/Dictionary.java:123-125 | exact, case-sensitive lookup: present exactly for a key, and the entry found carries that word |
| Dictionaries.Open | src/com/maxprograms/mxspell/Dictionary.java:87-89 | a dictionary opened from the lines holds the map `LoadWords` gives, or the load's exception |
| CaseMapping.Capitalize | src/com/maxprograms/mxspell/SpellCorrector.java:268-270 | raises IndexOutOfBounds exactly for the empty word |
| CaseMapping.IsCapitalized | src/com/maxprograms/mxspell/SpellCorrector.java:272-274 | raises exactly for the empty word |
| CaseMapping.MixedCaseIsNoneOfTheOthers | src/com/maxprograms/mxspell/SpellCorrector.java:292-294 | mixed case holds exactly when the word is neither lower case, upper case nor capitalized, and fails exactly when the capitalization must be computed for the empty word |
| CaseMapping.CapitalizeIdempotent | src/com/maxprograms/mxspell/SpellCorrector.java:268-274 | with idempotent case maps a capitalized word is capitalized |
| Candidates.DeleteAtShape | src/com/maxprograms/mxspell/SpellCorrector.java:60-66 | a deletion is one shorter and keeps the characters on both sides of the gap in order |
| Candidates.DeleteThenInsert | src/com/maxprograms/mxspell/SpellCorrector.java:60-66 | putting the deleted character back restores the word |
| Candidates.InsertThenDelete | src/com/maxprograms/mxspell/SpellCorrector.java:143-153 | deleting the inserted character restores the word |
| Candidates.SubstituteShape | src/com/maxprograms/mxspell/SpellCorrector.java:114-124 | a substitution keeps the length and changes at most the one position |
| Candidates.InsertBeforeShape | src/com/maxprograms/mxspell/SpellCorrector.java:143-153 | an insertion adds one character in front of its position, never after the last character |
| Candidates.SwapAdjacentShape | src/com/maxprograms/mxspell/SpellCorrector.java:172-183 | a transposition keeps length and characters, swaps the two neighbours and undoes itself |
| Candidates.RepFromSound | src/com/maxprograms/mxspell/SpellCorrector.java:84-110 | every REP candidate replaces one occurrence of the key |
| Candidates.RepFromComplete | src/com/maxprograms/mxspell/SpellCorrector.java:84-110 | every occurrence of the key, overlapping ones included, gives a REP candidate |
| Candidates.SubstitutionsMembers | src/com/maxprograms/mxspell/SpellCorrector.java:113-124 | the substitution pass tries exactly each TRY character at each position |
| Candidates.InsertionsMembers | src/com/maxprograms/mxspell/SpellCorrector.java:142-153 | the insertion pass tries exactly each TRY character in front of each position |
| Candidates.SubstitutionsPrefix | src/com/maxprograms/mxspell/SpellCorrector.java:114-141 | the candidates of earlier TRY characters come first |
| Candidates.InsertionsPrefix | src/com/maxprograms/mxspell/SpellCorrector.java:143-170 | the candidates of earlier TRY characters come first |
| Candidates.SubstitutionsKeepLength | src/com/maxprograms/mxspell/SpellCorrector.java:114-124 | every substitution has the word's length |
| Candidates.InsertionsAddOne | src/com/maxprograms/mxspell/SpellCorrector.java:143-153 | every insertion is one character longer |
| Candidates.TranspositionsPermute | src/com/maxprograms/mxspell/SpellCorrector.java:172-183 | every transposition is a rearrangement of the word |
| Candidates.BuildDeletion | src/com/maxprograms/mxspell/SpellCorrector.java:61-66 | the StringBuilder loop builds the deletion at `i` |
| Candidates.BuildSubstitution | src/com/maxprograms/mxspell/SpellCorrector.java:116-123 | the loop builds the substitution at `j` |
| Candidates.BuildInsertion | src/com/maxprograms/mxspell/SpellCorrector.java:145-152 | the loop builds the insertion at `j` |
| Candidates.ReplaceAtShape | src/com/maxprograms/mxspell/SpellCorrector.java:93 | a REP candidate keeps the text before the occurrence, puts the replacement in place of the key and keeps the text after it |
| Candidates.ReplaceAtUndo | src/com/maxprograms/mxspell/SpellCorrector.java:93 | replacing the replacement back by the key restores the word |
| Candidates.BuildTransposition | src/com/maxprograms/mxspell/SpellCorrector.java:173-183 | the loop builds the swap of `i` and `i + 1` |
| SpellCorrectors.Expand | src/com/maxprograms/mxspell/SpellCorrector.java:69-70 | an entry without flags has no forms; otherwise its forms are `getWords` of its flags |
| SpellCorrectors.Confirms | src/com/maxprograms/mxspell/SpellCorrector.java:67-81 | a candidate that is not a key says no, and an IOException from expansion never escapes |
| SpellCorrectors.ConfirmsLicensed | src/com/maxprograms/mxspell/SpellCorrector.java:67-81 | a candidate confirms the word exactly when it is a key whose known flags license the word |
| SpellCorrectors.ScanAppend | src/com/maxprograms/mxspell/SpellCorrector.java:59-199 | running two passes in turn is one pass over both candidate lists |
| SpellCorrectors.ScanPrefix | src/com/maxprograms/mxspell/SpellCorrector.java:59-199 | a pass that stopped early stopped for the whole list |
| SpellCorrectors.ScanContinues | src/com/maxprograms/mxspell/SpellCorrector.java:59-199 | a pass runs to its end exactly when every candidate says no |
| SpellCorrectors.ScanNeverRaisesIOException | src/com/maxprograms/mxspell/SpellCorrector.java:76-81 | an IOException never ends a pass |
| SpellCorrectors.KeysOfMembers | src/com/maxprograms/mxspell/SpellCorrector.java:77-80 | `result` holds each dictionary word among the candidates, once |
| SpellCorrectors.SplitsBelowMembers | src/com/maxprograms/mxspell/SpellCorrector.java:201-213 | a split is offered exactly for each cut into two dictionary words |
| SpellCorrectors.SuggestByEdits | src/com/maxprograms/mxspell/SpellCorrector.java:55-265 | the candidate passes answer nothing or the word alone |
| SpellCorrectors.Suggest | src/com/maxprograms/mxspell/SpellCorrector.java:35-266 | `suggest` answers nothing or the word alone, never its candidate list |
| SpellCorrectors.SuggestMisspelt | src/com/maxprograms/mxspell/SpellCorrector.java:35-266 | the word is returned exactly when it and the relevant lower-case form are not keys, TRY is set, no edit candidate confirms it, and, when no candidate or split was a key, no truncation does |
| SpellCorrectors.SuggestNeverRaisesIOException | src/com/maxprograms/mxspell/SpellCorrector.java:76-81 | no IOException escapes `suggest` |
| SpellCorrectors.SuggestEmptyWordRaises | src/com/maxprograms/mxspell/SpellCorrector.java:268-270 | an unknown empty word raises IndexOutOfBounds when `suggest` asks whether it is capitalized (line 47) |
| SpellCorrectors.Confirm | src/com/maxprograms/mxspell/SpellCorrector.java:67-76 | the lookup, expansion and `contains` give the step of the pass |
| SpellCorrectors.Probe | src/com/maxprograms/mxspell/SpellCorrector.java:67-81 | one candidate, with `result` and `checkList` still listing the dictionary words probed |
| SpellCorrectors.DeletionPass | src/com/maxprograms/mxspell/SpellCorrector.java:59-82 | the deletion loop scans the deletions in order and keeps `result` in step |
| SpellCorrectors.RepProbe | src/com/maxprograms/mxspell/SpellCorrector.java:89-108 | one REP occurrence is built and probed |
| SpellCorrectors.RepKeyPass | src/com/maxprograms/mxspell/SpellCorrector.java:87-109 | the `indexOf` loop of one key scans every occurrence |
| SpellCorrectors.RepCandidatesPrefix | src/com/maxprograms/mxspell/SpellCorrector.java:84-112 | the candidates of earlier keys come first |
| SpellCorrectors.RepPass | src/com/maxprograms/mxspell/SpellCorrector.java:84-112 | the REP loop scans every key's candidates in iteration order |
| SpellCorrectors.SubstitutionRowPass | src/com/maxprograms/mxspell/SpellCorrector.java:115-140 | one TRY character at each position |
| SpellCorrectors.SubstitutionPass | src/com/maxprograms/mxspell/SpellCorrector.java:114-141 | the substitution loops scan all substitutions in order |
| SpellCorrectors.InsertionRowPass | src/com/maxprograms/mxspell/SpellCorrector.java:144-169 | one TRY character in front of each position |
| SpellCorrectors.InsertionPass | src/com/maxprograms/mxspell/SpellCorrector.java:143-170 | the insertion loops scan all insertions in order |
| SpellCorrectors.TranspositionPass | src/com/maxprograms/mxspell/SpellCorrector.java:172-199 | the transposition loop scans all swaps in order |
| SpellCorrectors.EarlyPasses | src/com/maxprograms/mxspell/SpellCorrector.java:55-112 | the deletion pass, then REP when the table exists |
| SpellCorrectors.TryPasses | src/com/maxprograms/mxspell/SpellCorrector.java:114-199 | the TRY passes, then the transpositions |
| SpellCorrectors.SplitPass | src/com/maxprograms/mxspell/SpellCorrector.java:201-213 | appends every two-word split to `result` without a duplicate check |
| SpellCorrectors.CapSplitPass | src/com/maxprograms/mxspell/SpellCorrector.java:215-228 | appends every capitalized split, only for a capitalized word |
| SpellCorrectors.PrefixPass | src/com/maxprograms/mxspell/SpellCorrector.java:232-245 | scans the proper prefixes, longest first |
| SpellCorrectors.SuffixPass | src/com/maxprograms/mxspell/SpellCorrector.java:248-261 | scans the proper suffixes, longest first |
| SpellCorrectors.SuggestFromCandidates | src/com/maxprograms/mxspell/SpellCorrector.java:55-265 | the passes compute `SuggestByEdits` |
| SpellCorrectors.SuggestWords | src/com/maxprograms/mxspell/SpellCorrector.java:35-266 | the method computes `Suggest`: nothing or the word alone |
| SpellCheckers.CheckUppercase | src/com/maxprograms/mxspell/SpellChecker.java:99-106 | true exactly for an upper-case word whose lower-case form the corrector accepts |
| SpellCheckers.CheckCapitalized | src/com/maxprograms/mxspell/SpellChecker.java:108-115 | true exactly for a capitalized word whose lower-case form is accepted; the empty word raises |
| SpellCheckers.CheckMixedCase | src/com/maxprograms/mxspell/SpellChecker.java:117-124 | true exactly for a mixed-case word whose lower-case form is accepted |
| SpellCheckers.OtherChoicesStep | src/com/maxprograms/mxspell/SpellChecker.java:70-89 | one deletion extends the list without duplicates only by itself or its upper-case or capitalized form, and by itself when the corrector accepts it |
| SpellCheckers.CheckerPassesOtherAnswers | src/com/maxprograms/mxspell/SpellChecker.java:48-50 | an answer other than the word alone, or an exception, is passed on unchanged |
| SpellCheckers.CheckerAcceptsLowerCaseForm | src/com/maxprograms/mxspell/SpellChecker.java:52-55 | an unknown upper-case or capitalized word with an accepted lower-case form gets no suggestions |
| SpellCheckers.CheckerMixedCasePair | src/com/maxprograms/mxspell/SpellChecker.java:56-59 | an unknown mixed-case word with an accepted lower-case form gets exactly its capitalized and lower-case forms |
| SpellCheckers.OtherChoicesShape | src/com/maxprograms/mxspell/SpellChecker.java:61-90 | the refinement list has no duplicates and refines the candidates |
| SpellCheckers.OtherChoicesKeepsAccepted | src/com/maxprograms/mxspell/SpellChecker.java:83-89 | every accepted candidate is in the list |
| SpellCheckers.DeletionRefinements | src/com/maxprograms/mxspell/SpellChecker.java:60-90 | every refinement is a single deletion of the word or its upper-case or capitalized form |
| SpellCheckers.CheckerSuggestRefines | src/com/maxprograms/mxspell/SpellChecker.java:60-94 | a word the corrector answers with the word alone, and of no special case shape, gets its refined deletions, or itself when there are none |
| SpellCheckers.OtherChoicesPrefixKept | src/com/maxprograms/mxspell/SpellChecker.java:63-90 | the loop only adds to the list: what a prefix of the candidates put there stays |
| SpellCheckers.CheckerSuggestAnswers | src/com/maxprograms/mxspell/SpellChecker.java:48-97 | `suggest` answers nothing, the word, the mixed-case pair, or a duplicate-free list of refined single deletions |
| SpellCheckers.CheckerFallsBackToWord | src/com/maxprograms/mxspell/SpellChecker.java:91-93 | when no deletion helps, the word alone is returned |
| SpellCheckers.CheckerRaisesOnOneCharacterWord | src/com/maxprograms/mxspell/SpellChecker.java:60-89 | an unknown one-character word of no special case shape makes `suggest` raise |
| Common.CharIndex | src/com/maxprograms/mxspell/SpellChecker.java:128 | finds the next occurrence of the character, with none of it before |
| SpellCheckers.RunEnd | src/com/maxprograms/mxspell/SpellChecker.java:128 | finds the end of a run of spaces |
| SpellCheckers.SpacePieces | src/com/maxprograms/mxspell/SpellChecker.java:128 | pieces hold no space and only the first and last may be empty |
| SpellCheckers.SplitSpaces | src/com/maxprograms/mxspell/SpellChecker.java:128 | `split(" +")` gives space-free tokens, all after the first non-empty, and a text without spaces whole |
| SpellCheckers.SplitSpacesJoin | src/com/maxprograms/mxspell/SpellChecker.java:128 | splitting words joined by single spaces gives the words back |
| SpellCheckers.SpacePiecesJoin | src/com/maxprograms/mxspell/SpellChecker.java:128 | the pieces of words joined by single spaces are the words |
| SpellCheckers.LeadingStart | src/com/maxprograms/mxspell/SpellChecker.java:132-135 | the first loop stops at the first letter, or at the last character, having passed only non-letters |
| SpellCheckers.TrailingEnd | src/com/maxprograms/mxspell/SpellChecker.java:136-139 | the second loop stops after the last letter, or after the first character, having passed only non-letters |
| SpellCheckers.TrimLeading | src/com/maxprograms/mxspell/SpellChecker.java:132-135 | the first loop leaves a non-empty suffix starting with a letter, or one character, having dropped only non-letters |
| SpellCheckers.TrimTrailing | src/com/maxprograms/mxspell/SpellChecker.java:136-139 | the second loop leaves a non-empty prefix ending with a letter, or one character, having dropped only non-letters |
| SpellCheckers.TrimShape | src/com/maxprograms/mxspell/SpellChecker.java:130-139 | trimming removes only non-letters, only from the two ends |
| SpellCheckers.TrimEnds | src/com/maxprograms/mxspell/SpellChecker.java:130-142 | a checked token starts and ends with a letter |
| SpellCheckers.FileWord | src/com/maxprograms/mxspell/SpellChecker.java:140-145 | entries already in the map stay |
| SpellCheckers.FileWordFiles | src/com/maxprograms/mxspell/SpellChecker.java:140-145 | a trimmed word that is not one non-letter is filed with the non-empty suggestions it gets, and the map is otherwise unchanged |
| SpellCheckers.CheckToken | src/com/maxprograms/mxspell/SpellChecker.java:130-146 | an empty token raises; existing entries stay |
| SpellCheckers.CheckTokenFiles | src/com/maxprograms/mxspell/SpellChecker.java:130-146 | a token leaves the map as it was or adds one entry: its trimmed form, starting and ending with a letter, with the non-empty suggestions it gets |
| SpellCheckers.CheckTokensEntries | src/com/maxprograms/mxspell/SpellChecker.java:129-147 | every entry is a trimmed token starting and ending with a letter, filed with the non-empty answer of `suggest` |
| SpellCheckers.FileWordKeeps | src/com/maxprograms/mxspell/SpellChecker.java:140-146 | filing a word files it, when its answer is not empty, and keeps every word already filed |
| SpellCheckers.CheckTokensComplete | src/com/maxprograms/mxspell/SpellChecker.java:129-147 | when `checkString` succeeds, every token is non-empty, and every trimmed token that is not skipped has an answer and, when that answer is not empty, is in the map with it |
| SpellCheckers.CheckTokensErrPersists | src/com/maxprograms/mxspell/SpellChecker.java:129-147 | the first token that raises ends `checkString` |
| SpellCheckers.CheckStringLeadingSpaceRaises | src/com/maxprograms/mxspell/SpellChecker.java:128-130 | empty text, or text that starts with a space and holds a non-space character, raises IndexOutOfBounds |
| SpellCheckers.IsUppercaseCorrect | src/com/maxprograms/mxspell/SpellChecker.java:99-106 | asking the corrector computes `CheckUppercase` |
| SpellCheckers.IsCapitalizedCorrect | src/com/maxprograms/mxspell/SpellChecker.java:108-115 | asking the corrector computes `CheckCapitalized` |
| SpellCheckers.IsMixedCaseCorrect | src/com/maxprograms/mxspell/SpellChecker.java:117-124 | asking the corrector computes `CheckMixedCase` |
| SpellCheckers.RefineWith | src/com/maxprograms/mxspell/SpellChecker.java:71-89 | one iteration computes `OtherChoicesStep` |
| SpellCheckers.SuggestFor | src/com/maxprograms/mxspell/SpellChecker.java:48-97 | the method computes `CheckerSuggest` |
| SpellCheckers.RefineDeletions | src/com/maxprograms/mxspell/SpellChecker.java:61-90 | the loop computes the refinements of the deletions |
| SpellCheckers.OtherChoicesErrPersists | src/com/maxprograms/mxspell/SpellChecker.java:63-90 | the first candidate that raises ends the loop |
| SpellCheckers.TrimFront | src/com/maxprograms/mxspell/SpellChecker.java:132-135 | the first while-loop computes `TrimLeading` |
| SpellCheckers.TrimBack | src/com/maxprograms/mxspell/SpellChecker.java:136-139 | the second while-loop computes `TrimTrailing` |
| SpellCheckers.CheckWord | src/com/maxprograms/mxspell/SpellChecker.java:130-146 | one iteration computes `CheckToken` |
| SpellCheckers.CheckText | src/com/maxprograms/mxspell/SpellChecker.java:126-149 | the loop computes `CheckString` |
| SpellCheckers.Hyphenate | src/com/maxprograms/mxspell/SpellChecker.java:188 | `replace('_', '-')` keeps the length, leaves no `_` and changes only underscores |
| SpellCheckers.LanguageKey | src/com/maxprograms/mxspell/SpellChecker.java:186-188 | only file names ending in `.zip` give a language key |
| SpellCheckers.LanguageKeyOfArchive | src/com/maxprograms/mxspell/SpellChecker.java:186-188 | `name.zip` is filed under the hyphenated name, from which the name comes back when it had no `-` |

## Left out

- Common.ParseInt: accepts only the ASCII digits `0`-`9`. `Integer.parseInt` also accepts the other Unicode decimal digits (`Character.digit`), which the model reads as a format error, because the model has no Unicode tables.
- Files, zip archives and character sets: `EncodingResolver`, the zip-extracting part of the `Dictionary` constructor (Dictionary.java:40-86), `Dictionary.main`, the file reading of `AffixParser` and `loadWords`, and the `CheckDictionaries` and `Constants` classes. The model takes the already-decoded lines as input.
- The `SpellChecker` and `SpellCorrector` constructors, `makeDictionary`, and the directory walk of `loadDictionaryList`. These are filesystem work. Only the mapping from a file name to a language key is modelled.
- `learn` and `ignore`. They call `Dictionary` methods that do not exist in the code.
- `Dictionary.getWords`, `getReplacementMap` and `getTryCharacters` are called but do not exist in the code:
  - they are taken to be `AffixParser.getWords` on the entry's word and flags, the parser's REP map and the parser's TRY characters;
  - an entry with null flags is taken to have no forms.
- Logging, `MessageFormat`, `lineNr`, `filename` and `printStackTrace`: they only produce messages. Errors are exception kinds, not texts.
- `DictionaryEntry.hashCode`, the getters of `AffixParser`, and the tags the parser only skips: their only effect is the log line of the `default` branch.
- `COMPOUNDFLAG` and `COMPOUNDMIN` are only stored, because nothing reads them.
- Java's regular-expression engine:
  - only the condition subset is interpreted: literal characters, `.`, `[...]` and `[^...]`;
  - a condition with any other metacharacter is excluded by `Conditions.Supported`.
- The order in which a `HashMap` yields its keys is the parameter `repOrder`. The candidate order, and so which lookup raises or succeeds first, depends on that order; every property here holds for whatever order `repOrder` gives. The order of `checkString`'s map is not modelled: the model's map is a Dafny `map`.
- Locale-sensitive `toUpperCase`/`toLowerCase` and `Character.isLetter` are parameters, `CaseMapping.CaseMap` and `isLetter`. They are not Unicode tables.
- Strings are sequences of Unicode scalar values, and every index, length and character comparison in the model counts scalar values where Java counts UTF-16 code units. For text with characters outside the Basic Multilingual Plane the model therefore differs from the source wherever the source indexes, measures or compares strings; this is not modelled. In particular:
  - the candidate positions of the deletion, substitution, insertion and transposition passes (SpellCorrector.java:60-66, SpellCorrector.java:114-183), and the TRY characters taken with `toCharArray` (AffixParser.java:83);
  - the `length() > 3` test, the split points and the truncations of the later passes (SpellCorrector.java:202-261);
  - `capitalize` (SpellCorrector.java:269);
  - the `checkString` trims with `Character.isLetter(char)` (SpellChecker.java:130-139);
  - `getFlags` for the ASCII, UTF-8 and long types (AffixParser.java:360-372), where Java turns a flag outside the Basic Multilingual Plane into two surrogate flags and `getWords` then raises;
  - the strip length and its `substring` (AffixParser.java:406-411);
  - the `charAt` walks of the condition checks (Prefix.java:15-28, Suffix.java:15-28);
  - `String.compareTo` in `DictionaryEntry.compareTo` (DictionaryEntry.java:48): `DictionaryEntries.StrCompare` orders scalar values, so U+FFFF sorts before U+10000, while Java compares U+FFFF with the high surrogate U+D800 and sorts it after.
- `Prefix` and `Suffix` use fields `numconds` and `condition` that `Affix` does not declare. These are parameters of `CheckConditions`, and the table is indexed by character code.
- `SpellCorrectors.Valid` asks REP keys to be non-empty. The parser can only store non-empty keys, because they are whitespace-separated tokens (`AffixGrammar.ParseSound`).
- CaseMapping.CapitalizeIdempotent: proved only for case maps that keep a one-character string one character long and are idempotent, because the case maps are parameters.
- DictionaryEntries.StrCompare: agrees with Java's `String.compareTo` only on text within the Basic Multilingual Plane, for the reason given above.
- SpellCheckers.CheckerRaisesOnOneCharacterWord: assumes case maps that keep the empty string empty, which Java's do.
