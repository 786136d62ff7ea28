# Datapack optimization helper, modelled in Dafny

The datapack optimization helper is a VS Code extension. It reads the
`.mcfunction` files of a Minecraft datapack line by line and warns about
commands that can be written better:

- target selectors without a `type` or without a position;
- `execute` chains that repeat or override their own subcommands;
- scoreboard fake players written without `#`;
- `nbt=` item checks that `if items` could replace;
- conditions that can never pass, or that always pass;
- code after an unconditional `return`;
- functions that call themselves on every path.

It also offers quick fixes for some of those warnings. It builds an index
of which function calls which, and uses it for "go to definition" on
conditions and for updating references when a function file is renamed.
`# warn-off` comments switch rules off for one line or for a whole file.

This project restates each of those analyses as pure Dafny functions over
lines of text (`seq<char>`), and proves what the warnings mean: what a
parsed selector holds, when a warning is raised and which span it covers,
which score ranges a condition reads, and that the function index agrees
with the files it was built from. For the quick fixes it proves what the
rewritten selector parses back to. The no-position fix parses back to
`distance=0..` followed by the old arguments for every selector as the
parser yields it. The type-order fix parses back to the reordered
arguments only when the arguments it moves in front are bracket-balanced;
when they are not, the fix as written breaks the selector (see Findings),
and a guarded fix is given beside it.

Each file is one Dafny module:

| module | models |
|---|---|
| `Text`, `Seqs`, `Wrappers` | string helpers (`trim`, `toLowerCase`, `split`, `indexOf`, `parseInt`), sequence helpers, `Option` |
| `Tokens`, `Scans` | the tokenisers and the fixed regular-expression scans the rules share |
| `Patterns` | the shape of what the score passes' regular expressions extract from a line; the extraction itself is a parameter (`Classifier`) |
| `WarnOff` | `src/utils/warnOff.ts` |
| `TargetSelector`, `TargetSelectorFix` | `src/rules/targetSelector.ts`, `src/codeActions/targetSelectorFix.ts` |
| `ExecuteAsIfEntity`, `ExecuteAsIfEntityFix` | `src/rules/executeAsIfEntity.ts`, `src/codeActions/executeAsIfEntityFix.ts` |
| `ExecuteGroup`, `ExecuteRedundant`, `ExecuteAtChain` | `src/rules/executeGroup.ts`, `src/rules/executeRedundant.ts`, `src/rules/executeAtChain.ts` |
| `ScoreboardFakePlayer`, `NbtItems` | `src/rules/scoreboardFakePlayer.ts`, `src/rules/nbtItems.ts` |
| `UnreachableCode`, `InfiniteRecursion` | `src/unreachable/index.ts`, `src/rules/infiniteRecursion.ts` |
| `FunctionIndex`, `RenameHandler` | `src/analyzer/functionIndex.ts`, `src/refactor/renameHandler.ts` |
| `ScoreLattice`, `ScorePass`, `UnreachableCondition`, `AlwaysPassCondition`, `ConditionDefinition` | the score-range analysis of `src/rules/unreachableCondition.ts`, `src/rules/alwaysPassCondition.ts` and `src/providers/conditionDefinition.ts` |

Positions are character offsets (UTF-16 code units in the source; Dafny
`char`s here). A diagnostic is a datatype holding its line, its start and
end columns, and the facts its message reports. The VS Code objects, the
messages and their translations are not modelled. Where the code keeps a
mistake, the member named after the source function follows the code
(`...AsWritten` where both are kept) and the corrected member sits beside
it; the Findings table pairs them.

## Model

| member | source | states |
|---|---|---|
| Text.Trim | src/utils/warnOff.ts:56 | the trimmed text is no longer than the input and neither starts nor ends with whitespace |
| Text.TrimIdempotent | src/utils/warnOff.ts:56 | trimming twice is trimming once |
| Text.SplitOn | src/analyzer/functionIndex.ts:163 | the pieces number at least one, the first is the text before the first separator, and joining them with the separator gives the text back |
| Text.ParseInt | src/rules/unreachableCondition.ts:24-33 | `parseInt` fails exactly when no digit follows the leading spaces and the optional sign |
| WarnOff.RulesOf | src/utils/warnOff.ts:33-40 | a rule is in the set exactly when it is a non-empty item other than `all`, or when `all` is an item and the rule is one of the known rule ids |
| WarnOff.ParseRuleList | src/utils/warnOff.ts:27-42 | a missing or blank list disables every known rule; otherwise the set holds exactly the named items, with `all` standing for every known rule |
| WarnOff.DirectiveWritten | src/utils/warnOff.ts:24-25 | `# word rest` matches the directive pattern and captures `rest`; `# word` alone matches with no rule list |
| WarnOff.DirectiveBareIff | src/utils/warnOff.ts:24-25 | the pattern matches with no rule list exactly when the line is `#`, whitespace, and the word in any letter case, ending the line |
| WarnOff.DirectiveListIff | src/utils/warnOff.ts:24-25 | the pattern captures a rule list `c` exactly when the line is `#`, whitespace, the word, at least one whitespace character, and then `c` starting at a non-space and holding no line terminator |
| WarnOff.ParseWarnOffLayout | src/utils/warnOff.ts:44-50 | a line yields a rule set exactly when it has one of the two `# warn-off` layouts; the bare layout disables every known rule and the listed layout disables the rules its list names |
| WarnOff.FileLineIsNotLineDirective | src/utils/warnOff.ts:24-25 | a `# warn-off-file` comment is never read as a one-line `# warn-off` comment |
| WarnOff.FileRules | src/utils/warnOff.ts:55-66 | only a blank or comment line can carry file-wide rules |
| WarnOff.StepMeaning | src/utils/warnOff.ts:55-66 | the header scan stops exactly at the first line that is neither blank nor a comment, and adds rules exactly at `# warn-off-file` lines |
| WarnOff.FileRulesNamed | src/utils/warnOff.ts:52-69 | every rule disabled for the file is named by some `# warn-off-file` line of the file |
| WarnOff.HeaderDirectiveCounts | src/utils/warnOff.ts:52-69 | a `# warn-off-file` line with only blank and comment lines above it disables its rules for the whole file |
| WarnOff.StopsAtCode | src/utils/warnOff.ts:59-61 | lines after the first code line have no effect on the file-wide rules |
| WarnOff.NearestAbove | src/utils/warnOff.ts:77-81 | finds the nearest non-blank line above a line, with only blank lines between; none when every line above is blank |
| WarnOff.NearestIs | src/utils/warnOff.ts:77-81 | the line found is the unique non-blank line with only blank lines between it and the given line |
| WarnOff.GetDisabledRulesForLine | src/utils/warnOff.ts:71-92 | the file-wide rules are always disabled, plus the rules of the nearest non-blank line above when it is a `# warn-off` comment |
| WarnOff.OnlyNearestMatters | src/utils/warnOff.ts:76-90 | two files that agree from the nearest non-blank line down to a line disable the same rules for it |
| WarnOff.DisabledIgnoresCase | src/utils/warnOff.ts:94-96 | whether a rule is disabled does not depend on the case of the queried id |
| TargetSelector.Unnegate | src/rules/targetSelector.ts:93-96 | a value is negated exactly when it starts with `!`, and exactly one `!` is removed |
| TargetSelector.ParseArgumentNone | src/rules/targetSelector.ts:83-87 | an argument is rejected exactly when it has no `=` |
| TargetSelector.ParseArgumentAt | src/rules/targetSelector.ts:83-99 | split at the first `=`: the key is the trimmed text before it, the value and negation come from the trimmed text after it, and the raw text is kept unchanged |
| TargetSelector.ArgumentsReadBack | src/rules/targetSelector.ts:53-78 | every argument the segment loop keeps parses back to itself from its own raw text |
| TargetSelector.ParsedReadBack | src/rules/targetSelector.ts:42-81 | `""` and `"[]"` give no arguments, and every parsed argument reads back from its raw text |
| TargetSelector.ParsedShape | src/rules/targetSelector.ts:50-78 | every parsed argument reads back from its raw text, none holds a comma outside brackets, and every one but the last ends with its brackets closed |
| TargetSelector.ParseSelectors | src/rules/targetSelector.ts:20-40 | every selector is an `@e` or `@n` match whose raw text is its span of the line and whose arguments are the parse of its bracket text; they come left to right without overlapping, and every place where such a match starts lies inside one of them |
| TargetSelector.FirstKey | src/rules/targetSelector.ts:108-111 | the index is -1 exactly when no argument has the key, and is otherwise the first argument with the key |
| TargetSelector.Failed | src/rules/targetSelector.ts:108-146 | at most three distinct checks fail; no-type fails iff there is no `type` key, no-dimension iff none of `x`, `y`, `z`, `distance`, type-order iff the first `type` is not the last argument |
| TargetSelector.SelectorDiags | src/rules/targetSelector.ts:113-146 | a selector gets one warning for each check it fails and no other, each on the selector's span of the given line |
| TargetSelector.CheckTargetSelector | src/rules/targetSelector.ts:103-150 | every warning of the line is on the span of one of its selectors and names a check that selector fails, and every failed check of every selector is warned |
| TargetSelector.DiagsOfSelectors | src/rules/targetSelector.ts:107-147 | no warning of any selector is lost |
| Tokens.SplitArgsRejoin | src/rules/targetSelector.ts:50-78 | the segments number one more than the commas outside brackets, and joining them with commas gives the text back |
| Tokens.SplitArgsShape | src/rules/targetSelector.ts:50-78 | no segment holds a comma outside brackets, and every segment but the last ends with its brackets closed |
| Tokens.SplitJoin | src/rules/targetSelector.ts:50-78 | splitting the comma-join of segments with no comma outside brackets, all but the last closing their brackets, gives back exactly those segments |
| Tokens.TrimKeepsDepth | src/rules/targetSelector.ts:59-74 | trimming a segment keeps it free of commas outside brackets, and keeps its brackets closed when they were |
| Tokens.BracketLen | src/rules/targetSelector.ts:22 | the optional group is either absent or a `[`…`]` with no `]` inside; it is absent only when no `]` closes the `[` |
| Tokens.SelectorAt | src/rules/targetSelector.ts:22 | a match starts at a position exactly when `@` and a selector letter stand there, and it then takes the bracket group that follows |
| Tokens.ScanSelectors | src/rules/targetSelector.ts:22-25 | the scan reports real matches in order and without overlap; no match starts before the first, between two reported ones, or after the last, and every place a match could start lies inside a reported one |
| Tokens.Words | src/rules/executeGroup.ts:263-296 | the tokens are non-empty and together hold, in order, exactly the characters of the line that are not separating spaces; quote marks are kept |
| Tokens.WordsSplit | src/rules/executeGroup.ts:270-286 | at a space outside quotes and brackets the tokens split: the tokens of the line are those of the text before it followed by those of the text after it |
| Tokens.WordsWhole | src/rules/executeGroup.ts:270-293 | a non-empty text with no separating space is a single token |
| Tokens.WordsJoin | src/rules/executeGroup.ts:263-296 | words without spaces, quotes or brackets, joined by single spaces, tokenise back to themselves |
| TargetSelectorFix.FindSelector | src/codeActions/targetSelectorFix.ts:13-16 | finds a selector with exactly the warned span, and none exists when it finds nothing |
| TargetSelectorFix.NoDimensionFix | src/codeActions/targetSelectorFix.ts:12-29 | a fix exists exactly when a selector has the warned span; the new text keeps the selector's letter and parses back to `distance=0..` followed by the old arguments, so it has a position |
| TargetSelectorFix.SelectorArgsParsed | src/codeActions/targetSelectorFix.ts:13-16 | the arguments of a selector found on a line have the shape parsing gives |
| TargetSelectorFix.NoDimensionResolves | src/codeActions/targetSelectorFix.ts:19-25 | for any arguments as parsing yields them, the rewritten bracket text parses to `distance=0..` followed by the old arguments, and no longer lacks a dimension |
| TargetSelectorFix.WithoutKeyAppend | src/codeActions/targetSelectorFix.ts:49 | dropping a key from two lists joined is dropping it from each and joining, so the order of the kept arguments is that of the input |
| TargetSelectorFix.WithoutKeyOne | src/codeActions/targetSelectorFix.ts:49 | a single argument is kept exactly when its key differs from the one dropped |
| TargetSelectorFix.ReorderedFrom | src/codeActions/targetSelectorFix.ts:48-52 | the reordered arguments come from the old ones, and the first `type` is now last |
| TargetSelectorFix.TypeOrderFix | src/codeActions/targetSelectorFix.ts:41-58 | a fix exists exactly when a selector has the warned span and a `type` argument; it keeps the selector's letter, and when the moved arguments are balanced it parses back to the reordered arguments |
| TargetSelectorFix.TypeOrderFixGuarded | src/codeActions/targetSelectorFix.ts:41-58 | the corrected fix is offered exactly when a selector has the warned span, a `type`, and balanced moved arguments; it then parses back to the reordered arguments and fails neither the no-type nor the type-order check |
| TargetSelectorFix.TypeOrderResolves | src/codeActions/targetSelectorFix.ts:47-58 | with balanced moved arguments, the fixed selector parses to the reordered arguments, fails neither the no-type nor the type-order check, and has a dimension iff the old one had |
| TargetSelectorFix.TypeOrderWhenBalanced | src/codeActions/targetSelectorFix.ts:47-58 | for arguments as parsed with a `type`, balanced moved arguments are enough for the reordered text to parse back |
| TargetSelectorFix.TypeOrderFixBreaks | src/codeActions/targetSelectorFix.ts:48-54 | on `@e[type=z,n=[x]]` the type-order warning fires, and the fix as written yields text that parses to one argument and fails the no-type check |
| TargetSelectorFix.DimensionKept | src/codeActions/targetSelectorFix.ts:52 | reordering keeps whether a dimension is given |
| TargetSelectorFix.ArgumentsRoundTrip | src/codeActions/targetSelectorFix.ts:23-24 | joining the raw texts of arguments as parsing yields them, with commas inside brackets, parses to those same arguments |
| ExecuteAsIfEntity.ArgOf | src/rules/executeAsIfEntity.ts:22-26 | an argument keeps its trimmed text, and one without `=` is its own key |
| ExecuteAsIfEntity.ArgsOfReadBack | src/rules/executeAsIfEntity.ts:13-38 | every argument the loop keeps parses back from its own raw text |
| ExecuteAsIfEntity.ParsedReadBack | src/rules/executeAsIfEntity.ts:7-40 | every argument of a parsed selector reads back from its raw text |
| ExecuteAsIfEntity.ParseArgsJoin | src/rules/executeAsIfEntity.ts:7-40 | joining the raw texts of balanced arguments that read back parses to those same arguments |
| ExecuteAsIfEntity.Restricted | src/rules/executeAsIfEntity.ts:42-48 | lists exactly the keys present that may not appear twice in a merged selector |
| ExecuteAsIfEntity.NoneShared | src/rules/executeAsIfEntity.ts:49-54 | true exactly when no key of the first list is in the second |
| ExecuteAsIfEntity.CanMerge | src/rules/executeAsIfEntity.ts:42-55 | two selectors can merge exactly when no key that may not be repeated occurs in both |
| ExecuteAsIfEntity.CanMergeSymmetric | src/rules/executeAsIfEntity.ts:42-55 | whether two selectors can merge does not depend on their order |
| ExecuteAsIfEntity.CheckExecuteAsIfEntity | src/rules/executeAsIfEntity.ts:57-99 | a warning exists exactly for an `execute ` line with both an `as @…` and an `if\|unless entity @…`; it spans from `execute` to the end of the line, suggests removing `as` exactly when the entity is not `@s`, and suggests merging exactly when it is `@s` and the selectors can merge |
| ExecuteAsIfEntityFix.Toggle | src/codeActions/executeAsIfEntityFix.ts:50-54 | a leading `!` is removed, otherwise one is added |
| ExecuteAsIfEntityFix.NegateKeepsKey | src/codeActions/executeAsIfEntityFix.ts:43-56 | negating an argument keeps its key |
| ExecuteAsIfEntityFix.NegateTwice | src/codeActions/executeAsIfEntityFix.ts:43-56 | negating twice gives the argument back, unless its value starts with `!!` |
| ExecuteAsIfEntityFix.NegateTwiceCounterexample | src/codeActions/executeAsIfEntityFix.ts:43-56 | the `!!` exception is real: `a=!!b` comes back as `a=b` |
| ExecuteAsIfEntityFix.NegateReadsBack | src/codeActions/executeAsIfEntityFix.ts:43-56 | a negated argument still parses back to its key and text |
| ExecuteAsIfEntityFix.MergeComplexValues | src/codeActions/executeAsIfEntityFix.ts:58-62 | a value without `=` on either side is left as it was |
| ExecuteAsIfEntityFix.MergeShape | src/codeActions/executeAsIfEntityFix.ts:58-81 | the merged argument keeps the existing key and `=` position, and its value is one `{…}` compound |
| ExecuteAsIfEntityFix.MergeEmptyIncoming | src/codeActions/executeAsIfEntityFix.ts:63-80 | merging an empty compound leaves the existing value unchanged |
| ExecuteAsIfEntityFix.MergeIntoEmpty | src/codeActions/executeAsIfEntityFix.ts:63-80 | merging into an empty compound gives the incoming entries in braces |
| ExecuteAsIfEntityFix.MergeReadsBack | src/codeActions/executeAsIfEntityFix.ts:58-81 | a merged argument still parses back to its key and text |
| ExecuteAsIfEntityFix.FindKey | src/codeActions/executeAsIfEntityFix.ts:93 | the index is -1 exactly when no argument has the key, and is otherwise the first argument with the key |
| ExecuteAsIfEntityFix.Step | src/codeActions/executeAsIfEntityFix.ts:91-109 | adding one `@s` argument keeps the earlier arguments in place; a new key is appended negated for `unless`, a repeated plain key changes nothing, and a repeated `scores`/`advancements` key is merged in place |
| ExecuteAsIfEntityFix.StepDistinct | src/codeActions/executeAsIfEntityFix.ts:91-109 | adding an argument never makes a key occur twice |
| ExecuteAsIfEntityFix.Combine | src/codeActions/executeAsIfEntityFix.ts:89-109 | the `as` arguments stay in place, and every added argument comes from the `@s` selector with its key |
| ExecuteAsIfEntityFix.CombineDistinct | src/codeActions/executeAsIfEntityFix.ts:89-109 | combining keeps the keys distinct |
| ExecuteAsIfEntityFix.CombineComplete | src/codeActions/executeAsIfEntityFix.ts:89-109 | every key of the `@s` selector is present in the combined arguments, and all of them still read back |
| ExecuteAsIfEntityFix.MergedHasEveryKey | src/codeActions/executeAsIfEntityFix.ts:83-109 | after merging two parsed selectors, every key of the `@s` selector is present |
| ExecuteAsIfEntityFix.Others | src/codeActions/executeAsIfEntityFix.ts:111-115 | holds exactly the arguments whose key is not `type` |
| ExecuteAsIfEntityFix.Types | src/codeActions/executeAsIfEntityFix.ts:111-115 | holds exactly the arguments whose key is `type` |
| ExecuteAsIfEntityFix.TypeLast | src/codeActions/executeAsIfEntityFix.ts:111-115 | no other argument follows a `type` argument |
| ExecuteAsIfEntityFix.TypeLastPermutes | src/codeActions/executeAsIfEntityFix.ts:111-115 | moving the `type` arguments last is a permutation |
| ExecuteAsIfEntityFix.TypeLastMembers | src/codeActions/executeAsIfEntityFix.ts:111-115 | moving the `type` arguments last keeps exactly the same arguments |
| ExecuteAsIfEntityFix.GetMergedSelector | src/codeActions/executeAsIfEntityFix.ts:117-119 | with no combined arguments the result is the bare selector, otherwise it is the selector followed by a `[…]` list |
| ExecuteAsIfEntityFix.MergedReparses | src/codeActions/executeAsIfEntityFix.ts:83-120 | when the sorted arguments are balanced, the bracket text of the merged selector parses back to exactly them |
| ExecuteGroup.LexLeTotal | src/rules/executeGroup.ts:254-256 | the substitute string order compares any two strings |
| ExecuteGroup.LexLeTrans | src/rules/executeGroup.ts:254-256 | the substitute string order is transitive |
| ExecuteGroup.LexLeAntisym | src/rules/executeGroup.ts:254-256 | the substitute string order is antisymmetric |
| ExecuteGroup.InsertArg | src/rules/executeGroup.ts:248-257 | inserting into a sorted list keeps it sorted and adds exactly that element |
| ExecuteGroup.SortArgs | src/rules/executeGroup.ts:248-257 | the result is sorted (`type` arguments last) and a permutation of the input |
| ExecuteGroup.SortedUnique | src/rules/executeGroup.ts:248-257 | two sorted permutations of one list are equal, so the sort is determined by its input |
| ExecuteGroup.TypeArgsLast | src/rules/executeGroup.ts:248-257 | in a sorted list every `type` argument comes after every other |
| ExecuteGroup.TrimmedSegments | src/rules/executeGroup.ts:223-246 | holds exactly the non-empty trimmed segments |
| ExecuteGroup.NormalizeSelector | src/rules/executeGroup.ts:210-261 | a selector without arguments is unchanged; otherwise the result is the selector head with a sorted permutation of its trimmed arguments in brackets |
| ExecuteGroup.NormalizeIgnoresOrder | src/rules/executeGroup.ts:210-261 | selectors with the same head and the same arguments in any order normalise alike |
| ExecuteGroup.NormalizedWords | src/rules/executeGroup.ts:298-306 | the normalised tokens are the tokens of the line with every selector normalised and the rest unchanged |
| ExecuteGroup.FindLastRun | src/rules/executeGroup.ts:308-315 | finds the last `run` token, and -1 when there is none |
| ExecuteGroup.CommonLength | src/rules/executeGroup.ts:151-161 | the length found is shared by every line and cannot be extended |
| ExecuteGroup.ShortenSound | src/rules/executeGroup.ts:163-201 | a prefix kept after shortening is shared by every line; unless it ends with `run`, it has at least two tokens, every line goes on with a subcommand or `run`, and it does not end on a shared `positioned`/`rotated` whose `as` selectors differ |
| ExecuteGroup.ShortenLongest | src/rules/executeGroup.ts:172-201 | without a `run`, shortening keeps the longest acceptable length: a prefix exactly when some length is acceptable, and no acceptable length above the one kept |
| ExecuteGroup.ShortenAtRun | src/rules/executeGroup.ts:163-170 | a shared prefix holding `run` is cut just after its last `run` |
| ExecuteGroup.FindCommonPrefix | src/rules/executeGroup.ts:146-208 | no lines give no prefix; a prefix is present exactly when its token count is positive, and it is never empty; when the shared tokens hold no `run`, a prefix is found exactly when some length is acceptable, and it is the longest such |
| ExecuteGroup.CommonPrefixSound | src/rules/executeGroup.ts:146-208 | a prefix found is shared and well cut (including the `positioned`/`rotated as` refusal), and a shared prefix holding `run` is cut after its last `run` |
| ExecuteGroup.PositionedAsRefused | src/rules/executeGroup.ts:180-196 | `at positioned as @a say` and `at positioned as @b say` share three tokens but get no prefix: cutting after `positioned` would split `positioned as` |
| ExecuteGroup.LongestKept | src/rules/executeGroup.ts:172-201 | `as @a at @s if x` alone keeps the four tokens `as @a at @s`, the longest length followed by a subcommand |
| ExecuteGroup.SuffixCases | src/rules/executeGroup.ts:119-135 | a line's suffix is empty past its end, drops a leading `run`, gains `execute ` when it starts with a subcommand, and is the remaining tokens otherwise |
| ExecuteGroup.PrefixRestores | src/rules/executeGroup.ts:119-135 | the prefix text followed by the remaining tokens gives the line's tokens back |
| ExecuteGroup.MakeGroup | src/rules/executeGroup.ts:137-143 | a group lists its lines, their suffixes and the prefix, and starts and ends at its first and last line |
| ExecuteGroup.CreateGroup | src/rules/executeGroup.ts:107-144 | a group exists exactly when the batch has two lines or more and they share a prefix |
| ExecuteGroup.ExtractGroups | src/rules/executeGroup.ts:52-89 | groups are well shaped, ordered and lie within the block; fewer than two lines give none |
| ExecuteGroup.FindExecuteGroups | src/rules/executeGroup.ts:19-50 | groups are well shaped, ordered, and every line a group spans is blank, a comment or an `execute ` line |
| ExecuteGroup.CheckExecuteGroup | src/rules/executeGroup.ts:317-331 | one hint per group, from its first line to the end of its last line |
| ExecuteRedundant.ArgsEnd | src/rules/executeRedundant.ts:52-64 | a subcommand's arguments run up to the next subcommand or `run`, or to the end |
| ExecuteRedundant.Spans | src/rules/executeRedundant.ts:36-75 | the token spans start at subcommands, follow each other without gaps, and end at the end of the line or at `run` |
| ExecuteRedundant.ParseExecuteTokens | src/rules/executeRedundant.ts:36-75 | every token is a subcommand, and a line that does not start with `execute` has none |
| ExecuteRedundant.DuplicatesSpec | src/rules/executeRedundant.ts:125-146 | a token is reported exactly when an earlier non-exempt token has the same subcommand and arguments |
| ExecuteRedundant.KeptSpec | src/rules/executeRedundant.ts:157-181 | a token is kept exactly when it is an exempt `as`/`at` or repeats no earlier non-exempt token |
| ExecuteRedundant.ExemptNeverDuplicate | src/rules/executeRedundant.ts:112-146 | an `as`/`at` choosing the nearest entity is never reported |
| ExecuteRedundant.ReportedOrKept | src/rules/executeRedundant.ts:125-181 | the reported tokens and the kept tokens together number exactly the tokens |
| ExecuteRedundant.CheckExecuteRedundant | src/rules/executeRedundant.ts:11-34 | a non-`execute` line or an `execute run` line gets no warning, and a warning covers the whole line |
| ExecuteRedundant.RunPart | src/rules/executeRedundant.ts:182-183 | the kept tail is empty or ` run ` followed by text that ends the line |
| ExecuteRedundant.GetOptimizedExecute | src/rules/executeRedundant.ts:148-186 | a rewrite is offered only when some token is dropped, and it is `execute`, the kept tokens in order, and the `run` tail |
| ExecuteRedundant.ReportedIffOptimized | src/rules/executeRedundant.ts:11-34 | a line is warned exactly when a rewrite is offered for it |
| ExecuteRedundant.KeepsFirstOccurrences | src/rules/executeRedundant.ts:148-186 | the rewrite keeps a token exactly when it is exempt or the first with its key, and drops exactly the reported ones |
| ExecuteAtChain.FindAtTokens | src/rules/executeAtChain.ts:51-65 | each token is an `at @…` match at its own position, the tokens come left to right without overlapping, and no match starts before the first, between two, or after the last |
| ExecuteAtChain.Overridden | src/rules/executeAtChain.ts:22-46 | for each `at` token but the last, whether the next one overrides it |
| ExecuteAtChain.FirstRedundant | src/rules/executeAtChain.ts:22-46 | finds the first `at` token the next one overrides, and none when no token is overridden |
| ExecuteAtChain.FirstRedundantFound | src/rules/executeAtChain.ts:22-46 | a first overridden token exists exactly when some token is overridden |
| ExecuteAtChain.CheckExecuteAtChain | src/rules/executeAtChain.ts:11-49 | a warning exists exactly for an `execute ` line where some `at` is followed by another `at` with no `as @` between them and a selector that keeps no nearest-entity choice; it covers the first such `at` and its selector |
| ExecuteAtChain.TokenSpan | src/rules/executeAtChain.ts:53 | a token's span is the word `at`, whitespace, and its selector |
| ExecuteAtChain.WarnedSpan | src/rules/executeAtChain.ts:35-40 | the warned span is the word `at`, whitespace, and a selector |
| ScoreboardFakePlayer.SubcommandAt | src/rules/scoreboardFakePlayer.ts:6 | reads one of the seven subcommands in any letter case, followed by whitespace |
| ScoreboardFakePlayer.MatchAtSound | src/rules/scoreboardFakePlayer.ts:6 | a match found at a position has the pattern's layout there |
| ScoreboardFakePlayer.MatchAtComplete | src/rules/scoreboardFakePlayer.ts:6 | wherever the pattern's layout is, a match is found |
| ScoreboardFakePlayer.FindPatternLeftmost | src/rules/scoreboardFakePlayer.ts:22-26 | the match found is the leftmost, and none is found only when the pattern matches nowhere |
| ScoreboardFakePlayer.ParseCommand | src/rules/scoreboardFakePlayer.ts:20-32 | a command is read exactly when the pattern matches; its first argument occurs at the offset past the match |
| ScoreboardFakePlayer.WarnIfFake | src/rules/scoreboardFakePlayer.ts:38-45 | a name found on the line is warned exactly when it is neither a selector nor `#`-prefixed |
| ScoreboardFakePlayer.Warnings | src/rules/scoreboardFakePlayer.ts:34-109 | at most two warnings, each on a fake name of the line at or after the target; other subcommands warn only on the first argument, `operation` needs two arguments and checks the target and the source apart, warning the source exactly when it is found after the target and is a fake name |
| ScoreboardFakePlayer.CheckAsWritten | src/rules/scoreboardFakePlayer.ts:13-112 | the rule as written: disabled or unmatched lines get nothing, and at most two warnings each on a fake name found in the line, selectors being `@a`,`@e`,`@p`,`@r`,`@s`; for a matched line the warnings are exactly those its subcommand decides, the target searched for from the line's start |
| ScoreboardFakePlayer.CheckScoreboardFakePlayer | src/rules/scoreboardFakePlayer.ts:13-112 | the corrected rule: the same guards and bound, `@n` counted as a selector, every warning at or after the first argument, and for a matched line exactly the warnings its subcommand decides, the target taken at the first argument |
| ScoreboardFakePlayer.AsWrittenOn | src/rules/scoreboardFakePlayer.ts:34-61 | as written, a warned target's range is its first occurrence anywhere in the line |
| ScoreboardFakePlayer.MisplacedTarget | src/rules/scoreboardFakePlayer.ts:100 | as written, `scoreboard players add a obj 1` is warned at column 7, inside `scoreboard`, while the target stands at column 23 |
| ScoreboardFakePlayer.PlacedTarget | src/rules/scoreboardFakePlayer.ts:95-109 | the corrected rule warns that line exactly on the target, and only when the target is fake |
| ScoreboardFakePlayer.NearestAsWritten | src/rules/scoreboardFakePlayer.ts:10 | as written, `@n` is warned as a fake player |
| ScoreboardFakePlayer.NearestSkipped | src/rules/scoreboardFakePlayer.ts:10 | the corrected rule does not warn `@n` |
| NbtItems.UnquoteOnlyQuoted | src/rules/nbtItems.ts:61-66 | a key changes under unquoting only when it starts and ends with the same quote mark |
| NbtItems.AddKey | src/rules/nbtItems.ts:67 | adding a key keeps the earlier keys in order, adds the key if non-empty, and never repeats one |
| NbtItems.RunTracks | src/rules/nbtItems.ts:41-79 | the character loop ends with exactly the keys before a top-level `:`, its quote and depth state following the text |
| NbtItems.ExtractNbtKeysAsWritten | src/rules/nbtItems.ts:28-94 | the extraction as written: a value not in braces has no keys, and keys never repeat |
| NbtItems.AsWrittenReads | src/rules/nbtItems.ts:81-91 | as written, the last segment after the loop is added as a key too |
| NbtItems.ExtractNbtKeys | src/rules/nbtItems.ts:28-94 | the corrected extraction: a value not in braces has no keys; otherwise the keys are exactly those before a top-level `:`, distinct |
| NbtItems.ColonKeysAre | src/rules/nbtItems.ts:60-70 | a key is found exactly when some top-level `:` outside strings ends a segment with that non-empty key |
| NbtItems.ColonKeysGrow | src/rules/nbtItems.ts:60-70 | keys found earlier stay found |
| NbtItems.FirstKeyKept | src/rules/nbtItems.ts:60-70 | the key of `{k:…}` is found |
| NbtItems.PairKeys | src/rules/nbtItems.ts:81-91 | for `{k:w}` the corrected extraction gives `[k]` while the code as written gives `[k, w]` |
| NbtItems.QuotedKeyKept | src/rules/nbtItems.ts:44-53 | a double-quoted key is found without its quotes |
| NbtItems.ParseAllSelectors | src/rules/nbtItems.ts:9-26 | every selector is an `@` match of any selector letter with the arguments parsed from its bracket text, left to right without overlap, and every place a selector starts lies inside a reported one |
| NbtItems.RangeOf | src/rules/nbtItems.ts:114-115 | the range is the first occurrence of the argument's text from the selector's start, of its length; -1 only when there is none |
| NbtItems.ArgDiags | src/rules/nbtItems.ts:106-129 | one warning for each flagged argument and no other |
| NbtItems.CheckNbtItemsAsWritten | src/rules/nbtItems.ts:96-134 | the rule as written: nothing when disabled, else warnings exactly for the `nbt` arguments whose keys as extracted by the code include an item key |
| NbtItems.CheckNbtItems | src/rules/nbtItems.ts:96-134 | the corrected rule: nothing when disabled, else warnings exactly for the `nbt` arguments whose top-level keys include `SelectedItem`, `equipment`, `Inventory` or `EnderItems` |
| NbtItems.NegatedMissed | src/rules/nbtItems.ts:108 | as written, a negated `nbt=!{SelectedItem:…}` is not warned; the corrected rule warns it |
| NbtItems.ValueTaken | src/rules/nbtItems.ts:81-91 | as written, `{CustomName:EnderItems}` is warned because the value is read as a key; the corrected rule does not warn it |
| UnreachableCode.IsTerminatingCommand | src/unreachable/index.ts:4-6 | true exactly when the line begins with the word `return` |
| UnreachableCode.UnreachableFrom | src/unreachable/index.ts:11-29 | one hint per non-blank, non-comment line from the given line on, in order, covering the whole line |
| UnreachableCode.CreateUnreachableDiagnostics | src/unreachable/index.ts:8-32 | hints cover exactly the code lines at or after the start line, each over the whole line; a start past the end gives none |
| InfiniteRecursion.LastSegment | src/rules/infiniteRecursion.ts:59 | a name without `:` is its own last segment |
| InfiniteRecursion.Warnings | src/rules/infiniteRecursion.ts:44-66 | every warning is on the line of a call that closes a cycle, and on a line of the file |
| InfiniteRecursion.CheckInfiniteRecursion | src/rules/infiniteRecursion.ts:32-69 | a disabled rule or an unindexed file gives no warnings |
| InfiniteRecursion.AnyCallWitness | src/rules/infiniteRecursion.ts:18-28 | the call loop answers yes only through a followed call that names the target or reaches it |
| InfiniteRecursion.AnyCallFinds | src/rules/infiniteRecursion.ts:18-28 | a followed call that names or reaches the target makes the loop answer yes |
| InfiniteRecursion.ReachesSound | src/rules/infiniteRecursion.ts:7-30 | the search answers yes only when the function is the target or a chain of followed calls leads to it |
| InfiniteRecursion.ReachesComplete | src/rules/infiniteRecursion.ts:7-30 | a chain of followed calls through unvisited, distinct functions to the target makes the search answer yes |
| InfiniteRecursion.WarningMeansCycle | src/rules/infiniteRecursion.ts:32-69 | a warning means the file's function leads back to itself through a followed call on the warned line |
| InfiniteRecursion.DirectSelfCallWarned | src/rules/infiniteRecursion.ts:49-58 | a followed call of a function to itself is warned on its line |
| InfiniteRecursion.NoThrow | src/rules/infiniteRecursion.ts:54 | when every call that closes a cycle is on a line of the file, the rule finishes without looking up a missing line |
| InfiniteRecursion.ConditionalCallsNeverFollowed | src/rules/infiniteRecursion.ts:19-21 | where every call is conditional, no recursion is found |
| FunctionIndex.NormalizePath | src/analyzer/functionIndex.ts:69-71 | the path keeps its length, has no backslash, and is lower-cased with `\` turned into `/` |
| FunctionIndex.FunctionPathOf | src/analyzer/functionIndex.ts:141-146 | a function path starts with its namespace and `:` |
| FunctionIndex.LogicalLines | src/analyzer/functionIndex.ts:165-179 | joining continuation lines never makes more lines |
| FunctionIndex.NoContinuation | src/analyzer/functionIndex.ts:165-179 | without a trailing `\` the logical lines are the trimmed raw lines |
| FunctionIndex.CallOf | src/analyzer/functionIndex.ts:189-197 | a call is recorded exactly when a function reference is found, on its line, conditional exactly for an `execute` with a condition, `on` or a rebinding |
| FunctionIndex.ChangeOf | src/analyzer/functionIndex.ts:199-260 | a score change is recorded exactly for a non-macro line with a set, add, remove, reset or operation; set records its value, reset without objective records `*` |
| FunctionIndex.CallsListed | src/analyzer/functionIndex.ts:181-197 | the calls are exactly the call of each line that has one, in line order |
| FunctionIndex.ChangesListed | src/analyzer/functionIndex.ts:199-260 | the changes are exactly the change of each line that has one, in line order |
| FunctionIndex.ParseFunctionFile | src/analyzer/functionIndex.ts:148-267 | the unit carries its file and function path; its calls and changes are those of the logical lines, and an unreadable file has none |
| FunctionIndex.NameSplits | src/analyzer/functionIndex.ts:148-160 | a unit's full path is its namespace, `:`, and its path |
| FunctionIndex.AddEdges | src/analyzer/functionIndex.ts:273-281 | adding a caller's calls adds exactly an edge per call under the callee's name and keeps the earlier edges |
| FunctionIndex.BuildCallerGraph | src/analyzer/functionIndex.ts:269-283 | the caller lists hold exactly the call edges of the units, and none is empty |
| FunctionIndex.BuildIsInverse | src/analyzer/functionIndex.ts:269-283 | the graph built is the inverse of the units' calls |
| FunctionIndex.InverseUnique | src/analyzer/functionIndex.ts:269-283 | two inverse graphs of the same units agree, so the graph is determined by the units |
| FunctionIndex.GetFunctionInfoByFile | src/analyzer/functionIndex.ts:55-62 | a unit found by file is the unit the normalised path maps to |
| FunctionIndex.Keep | src/analyzer/functionIndex.ts:322 | keeps exactly the edges from other callers |
| FunctionIndex.DropCaller | src/analyzer/functionIndex.ts:319-330 | removes the caller's edges from every callee it calls |
| FunctionIndex.Teardown | src/analyzer/functionIndex.ts:316-333 | the file is no longer indexed, and a file not indexed leaves the index unchanged |
| FunctionIndex.TeardownKeepsWf | src/analyzer/functionIndex.ts:316-333 | tearing a file down keeps the index consistent and leaves no unit or edge of its function |
| FunctionIndex.RemoveFileFromIndex | src/analyzer/functionIndex.ts:359-381 | after removal the file has no unit, and an unknown file leaves the index unchanged |
| FunctionIndex.RemoveKeepsWf | src/analyzer/functionIndex.ts:359-381 | removing a file keeps the index consistent |
| FunctionIndex.FirstRoot | src/analyzer/functionIndex.ts:335-339 | finds the first datapack root whose functions folder holds the file, and none only when none holds it |
| FunctionIndex.InsertFinds | src/analyzer/functionIndex.ts:341-342 | a unit inserted for a file is found by that file |
| FunctionIndex.InsertKeepsWf | src/analyzer/functionIndex.ts:339-352 | inserting a new unit keeps the index consistent |
| FunctionIndex.ReindexFile | src/analyzer/functionIndex.ts:312-357 | a file outside every root or missing is torn down; otherwise the file maps to its freshly parsed unit |
| FunctionIndex.ReindexKeepsWf | src/analyzer/functionIndex.ts:312-357 | re-indexing keeps the index consistent when no other file holds the parsed name |
| FunctionIndex.TeardownUndoesInsert | src/analyzer/functionIndex.ts:316-356 | tearing down a freshly inserted file restores the units, files and order |
| FunctionIndex.ReindexIdempotent | src/analyzer/functionIndex.ts:312-357 | re-indexing the same content twice is re-indexing once |
| FunctionIndex.RemoveThenReindex | src/analyzer/functionIndex.ts:312-381 | removing a file before re-indexing it changes nothing, and the file then maps to its parsed unit |
| FunctionIndex.Register | src/analyzer/functionIndex.ts:294-305 | every discovered file gets a unit under its function path, and nothing indexed before is lost |
| FunctionIndex.IndexWorkspace | src/analyzer/functionIndex.ts:285-310 | a run while indexing changes nothing; otherwise the index is consistent, initialised, and holds every discovered function |
| FunctionIndex.ForgetTarget | src/analyzer/functionIndex.ts:459-467 | every tracked score of the target loses its value, and nothing else changes |
| FunctionIndex.LinesBefore | src/analyzer/functionIndex.ts:431-434 | keeps exactly the changes on lines before the call |
| FunctionIndex.BreakAppliesEarlierLines | src/analyzer/functionIndex.ts:430-478 | stopping at the first change at or after the call line applies exactly the changes before it |
| FunctionIndex.ParsedChangesOrdered | src/analyzer/functionIndex.ts:199-260 | a parsed unit's changes are in line order |
| FunctionIndex.AddThenRemove | src/analyzer/functionIndex.ts:454-457 | adding and then removing the same amount restores a known score |
| FunctionIndex.ChangeIsLocal | src/analyzer/functionIndex.ts:430-478 | a change other than a reset of all objectives affects only its own score |
| FunctionIndex.ChangeOutcome | src/analyzer/functionIndex.ts:430-478 | an unconditional set fixes the value, a reset forgets it, an unknown operation drops the score, an add on a known value adds, and an add on an unknown value changes nothing |
| FunctionIndex.Consensus | src/analyzer/functionIndex.ts:419-428 | a score in the consensus has the state every caller gives it |
| FunctionIndex.ConsensusIff | src/analyzer/functionIndex.ts:419-428 | a score is in the consensus exactly when some caller gives it and all callers agree on its value |
| FunctionIndex.ConsensusDropsDisagreement | src/analyzer/functionIndex.ts:419-428 | two callers that disagree drop the score |
| FunctionIndex.AppendAll | src/analyzer/functionIndex.ts:480-485 | each caller's state is appended under its score |
| FunctionIndex.Collect | src/analyzer/functionIndex.ts:389-489 | a visited function or one without callers gives nothing; every score gathers at least one and at most one state per caller |
| FunctionIndex.CollectCallers | src/analyzer/functionIndex.ts:400-487 | the loop over the callers keeps the scores gathered and adds at most one state per caller |
| FunctionIndex.Contributing | src/analyzer/functionIndex.ts:406-415 | keeps exactly the unconditional callers that are indexed |
| FunctionIndex.OnlyContributorsCount | src/analyzer/functionIndex.ts:406-415 | conditional or unindexed callers do not change the gathered states |
| FunctionIndex.ConsensusScoreStates | src/analyzer/functionIndex.ts:491-509 | a function without callers inherits nothing |
| FunctionIndex.SingleCallerConsensus | src/analyzer/functionIndex.ts:389-509 | a function with one unconditional root caller inherits that caller's changes before the call |
| RenameHandler.MatchIsLayout | src/refactor/renameHandler.ts:40 | an anchored match reads the text as `data/<ns>/<folder>/<path>.mcfunction` |
| RenameHandler.LayoutMatches | src/refactor/renameHandler.ts:40 | any valid `data/<ns>/function(s)/<path>.mcfunction` matches, with those parts |
| RenameHandler.MatchHereIff | src/refactor/renameHandler.ts:40 | the pattern matches a text with given parts exactly when the parts are valid and the text is their layout |
| RenameHandler.FirstMatch | src/refactor/renameHandler.ts:40 | the match found is the leftmost, and none only when the pattern matches nowhere |
| RenameHandler.ExtractFunctionReference | src/refactor/renameHandler.ts:36-48 | a reference is read exactly when the slash-normalised path matches; it is `<ns>:<path>` with no backslash |
| RenameHandler.ExtractLayout | src/refactor/renameHandler.ts:36-48 | the path of a function file gives back its `<ns>:<path>` reference |
| RenameHandler.EscapeRegex | src/refactor/renameHandler.ts:98-100 | escaping never shortens the text, and text without metacharacters is unchanged |
| RenameHandler.UnescapeEscape | src/refactor/renameHandler.ts:98-100 | removing the escapes gives the text back, so escaping loses nothing |
| RenameHandler.RefAfterSpaces | src/refactor/renameHandler.ts:75-76 | a reference found after the spaces occurs there and ends at a word boundary |
| RenameHandler.RefAfterSpacesLargest | src/refactor/renameHandler.ts:75-76 | the greedy `\s+` leaves the reference at the last place it can start |
| RenameHandler.ScanRefs | src/refactor/renameHandler.ts:80-90 | the matches of one pattern come in order and do not overlap, and none is missed: the first reported is the first match from the start, each next one the first match after the previous reference, and no match follows the last |
| RenameHandler.ScanRefsFound | src/refactor/renameHandler.ts:80-90 | every match is a reference after `function` and whitespace, ending at a word boundary |
| RenameHandler.BothPatternsFound | src/refactor/renameHandler.ts:74-90 | every place either pattern finds holds such a reference |
| RenameHandler.LineUpdatesAsWritten | src/refactor/renameHandler.ts:79-90 | one update per match of each pattern, each spanning exactly the old reference and writing the new one |
| RenameHandler.ScheduleTwice | src/refactor/renameHandler.ts:79-90 | as written, `schedule function a:b` gets the same update twice |
| RenameHandler.LineUpdatesDistinct | src/refactor/renameHandler.ts:79-90 | the corrected updates are those of the code, each once |
| RenameHandler.ScheduleOnce | src/refactor/renameHandler.ts:79-90 | the corrected updates give `schedule function a:b` one update |
| RenameHandler.LinesUpdates | src/refactor/renameHandler.ts:69-92 | every update lies on a line of the text and spans the old reference, and every update of every line is present |
| RenameHandler.LinesUpdatesOne | src/refactor/renameHandler.ts:69-92 | a one-line text gets exactly the updates of its line |
| RenameHandler.FindAndReplaceReferences | src/refactor/renameHandler.ts:56-96 | every update lies in one of the texts on the old reference, and every update of every line of every text is present |
| RenameHandler.HandleRename | src/refactor/renameHandler.ts:10-34 | renames that do not apply give nothing, every update comes from an applying rename, writing its new reference over text as long as its old one, and every update of every applying rename is present |
| ScoreLattice.ParseBound | src/rules/unreachableCondition.ts:24-33 | a written bound is a number or NaN, never open |
| ScoreLattice.ParseRange | src/rules/unreachableCondition.ts:24-33 | a range without `..` is one number at both ends |
| ScoreLattice.ParseRangeLenient | src/rules/alwaysPassCondition.ts:24-40 | the always-pass parser never yields NaN |
| ScoreLattice.LenientMatchesAlike | src/rules/alwaysPassCondition.ts:24-50 | the two range parsers decide every value alike |
| ScoreLattice.ParseShowRange | src/rules/unreachableCondition.ts:24-33 | printing a range without NaN and parsing it back gives the range |
| ScoreLattice.ParseShowInt | src/rules/unreachableCondition.ts:24-33 | printing an integer and parsing it back gives the integer |
| ScoreLattice.DecimalString | src/rules/unreachableCondition.ts:24-33 | the digits printed have the number's value |
| ScoreLattice.JudgmentsExclusive | src/providers/conditionDefinition.ts:39-61 | a condition is never both unreachable and always passing |
| ScoreLattice.DecidedIffTracked | src/providers/conditionDefinition.ts:39-61 | a condition is judged unreachable or always passing exactly when its score is tracked, and `isConditionAlwaysTrue` decides it exactly when the score is known or reset under `if` |
| ScoreLattice.IfUnlessOpposite | src/rules/unreachableCondition.ts:45-61 | `if` and `unless` on the same range are decided oppositely |
| ScoreLattice.AdmitsIsMatching | src/rules/unreachableCondition.ts:35-43 | for a 32-bit score, lying between the range's ends is matching it |
| ScoreLattice.OverlapSymmetric | src/rules/unreachableCondition.ts:63-69 | overlap does not depend on order |
| ScoreLattice.OverlapIffCommonValue | src/rules/unreachableCondition.ts:63-69 | ranges sharing a value overlap, and overlapping non-empty ranges share one |
| ScoreLattice.NaNNeverOverlaps | src/rules/unreachableCondition.ts:63-69 | a NaN end overlaps nothing |
| ScoreLattice.ContainmentLeavesNoValue | src/rules/unreachableCondition.ts:167-193 | a value the inner range admits is admitted by a containing range |
| ScoreLattice.EqualRangesContain | src/rules/unreachableCondition.ts:71-73 | equal ranges contain each other |
| ScoreLattice.FromConsensus | src/rules/unreachableCondition.ts:325-339 | inherited scores are known exactly when the consensus has a value, with that value, and never reset |
| ScoreLattice.AddKind | src/rules/unreachableCondition.ts:389-422 | an add keeps a score known exactly when it is unconditional on a known score, adding the amount |
| ScoreLattice.AddThenRemoveKind | src/rules/unreachableCondition.ts:389-422 | adding and then removing the same amount restores a known score |
| ScoreLattice.MarkTarget | src/rules/unreachableCondition.ts:440-451 | every tracked score of the target gets the new state, and nothing else changes |
| ScorePass.DiagAt | src/rules/unreachableCondition.ts:484-485 | a condition's warning is on its line, as long as its text, at an occurrence of it or -1 |
| ScorePass.DiagsMembers | src/rules/unreachableCondition.ts:474-495 | the warnings are exactly those of the conditions given |
| ScorePass.Stored | src/rules/unreachableCondition.ts:356-368 | a `store` marks its score as unknown and changes nothing else |
| ScorePass.UnconditionalCall | src/rules/unreachableCondition.ts:209-240 | a call behind `execute` runs for certain exactly when there is no `on`, rebinding or non-score condition and every score condition is known to pass |
| ScorePass.Inherited | src/rules/unreachableCondition.ts:325-339 | no file or an uninitialised index inherits nothing, and no inherited score is reset |
| UnreachableCondition.PairFlags | src/rules/unreachableCondition.ts:121-141 | an `if` is flagged exactly when an earlier `if` on the same score has a disjoint range |
| UnreachableCondition.EqualFlags | src/rules/unreachableCondition.ts:144-164 | an `unless` is flagged exactly when some `if` has an equal range |
| UnreachableCondition.ContainFlags | src/rules/unreachableCondition.ts:167-193 | an `if` is flagged exactly when some `unless` contains its range |
| UnreachableCondition.Ifs | src/rules/unreachableCondition.ts:116-119 | holds exactly the `if` conditions of the group |
| UnreachableCondition.Unlesses | src/rules/unreachableCondition.ts:116-119 | holds exactly the `unless` conditions of the group |
| UnreachableCondition.GroupFlags | src/rules/unreachableCondition.ts:114-194 | a group of fewer than two conditions has no conflict, and only its own conditions are flagged |
| UnreachableCondition.Group | src/rules/unreachableCondition.ts:105-112 | holds exactly the conditions on one score |
| UnreachableCondition.GroupKeys | src/rules/unreachableCondition.ts:105-112 | lists exactly the scores the conditions read |
| UnreachableCondition.LineConflicts | src/rules/unreachableCondition.ts:85-197 | flags exactly the conditions some score group flags |
| UnreachableCondition.ConflictsAreConditions | src/rules/unreachableCondition.ts:85-197 | every flagged condition is a condition of the line |
| UnreachableCondition.GroupFlagsSound | src/rules/unreachableCondition.ts:114-194 | when a condition is flagged, no 32-bit value passes every condition of its group |
| UnreachableCondition.ApplyScoreChange | src/rules/unreachableCondition.ts:242-318 | a forced or conditional change marks its score unknown, and every change except a reset of all objectives leaves its score tracked |
| UnreachableCondition.ForcedChangesOnlyForget | src/rules/unreachableCondition.ts:242-318 | forced changes only forget values and never drop a score |
| UnreachableCondition.SetChangeOutcome | src/rules/unreachableCondition.ts:242-318 | an unconditional set fixes its score and leaves every other score as it was |
| UnreachableCondition.UnreachableConds | src/rules/unreachableCondition.ts:470-495 | keeps exactly the conditions that cannot pass in the tracked state |
| UnreachableCondition.Command | src/rules/unreachableCondition.ts:370-468 | the line's command is handled as a scoreboard command exactly when it is a set, add, remove, reset or operation that is not a macro line |
| UnreachableCondition.LineStep | src/rules/unreachableCondition.ts:341-526 | a blank or comment line changes nothing, and every warning is on the current line |
| UnreachableCondition.DiagsOnLines | src/rules/unreachableCondition.ts:341-526 | every warning of the pass is on a line of the file from where it started |
| UnreachableCondition.RunDiagsIff | src/rules/unreachableCondition.ts:341-526 | the warnings of the pass are exactly the warnings of each line's step, in the scores the pass has reached at that line |
| UnreachableCondition.RunStates | src/rules/unreachableCondition.ts:341-526 | the pass ends in the scores reached by stepping through every line in order |
| UnreachableCondition.SkippedLineIsInert | src/rules/unreachableCondition.ts:345-347 | a blank or comment line changes nothing |
| UnreachableCondition.SetThenContradiction | src/rules/unreachableCondition.ts:370-495 | a set followed by a condition that its value fails warns that condition |
| UnreachableCondition.SetLineStores | src/rules/unreachableCondition.ts:370-387 | an unconditional set line fixes exactly its score |
| UnreachableCondition.ContradictionWarns | src/rules/unreachableCondition.ts:470-495 | a condition the known value fails is warned |
| UnreachableCondition.UntrackedSetIsInert | src/rules/unreachableCondition.ts:370-387 | a set of a selector or `*` changes nothing |
| UnreachableCondition.DeadLineSkipsCall | src/rules/unreachableCondition.ts:497-508 | a line with an unpassable condition does not apply its call |
| UnreachableCondition.LineDiagsIff | src/rules/unreachableCondition.ts:345-495 | on a line whose command changes no score, the warnings are exactly those of its conflicting conditions and of its conditions that cannot pass |
| AlwaysPassCondition.Commands | src/rules/alwaysPassCondition.ts:152-252 | a line with no score command leaves the state unchanged |
| AlwaysPassCondition.PassingConds | src/rules/alwaysPassCondition.ts:254-327 | keeps exactly the conditions that always pass in the tracked state |
| AlwaysPassCondition.CalleeChange | src/rules/alwaysPassCondition.ts:346-405 | an unconditional add or remove in an unconditional callee is ignored |
| AlwaysPassCondition.LineStep | src/rules/alwaysPassCondition.ts:123-425 | a blank or comment line changes nothing and returns nothing, and every warning is on the current line |
| AlwaysPassCondition.Run | src/rules/alwaysPassCondition.ts:93-429 | every warning and every always-returning line lies in the file from where the pass started, the latter in increasing order; a line is listed only if it is an `execute` with score conditions only, `run return` and no `as @…` |
| AlwaysPassCondition.RunReturnsIff | src/rules/alwaysPassCondition.ts:93-344 | a line is listed as always returning exactly when its own step, in the scores the pass has reached at that line, marks it |
| AlwaysPassCondition.RunReturnsWhen | src/rules/alwaysPassCondition.ts:329-344 | a line is listed as always returning exactly when it is not blank or a comment, has that shape, and all its conditions always pass in the scores the pass has reached after the line's own inline commands |
| AlwaysPassCondition.RunDiagsIff | src/rules/alwaysPassCondition.ts:93-429 | the warnings of the pass are exactly the warnings of each line's step, in the scores the pass has reached at that line |
| AlwaysPassCondition.MarkLine | src/rules/alwaysPassCondition.ts:329-344 | a line is listed as always returning exactly when it is marked, keeping the list increasing |
| AlwaysPassCondition.NeverBothWarnings | src/rules/alwaysPassCondition.ts:52-59 | a condition warned as always passing is never unreachable |
| AlwaysPassCondition.TrackedIsDecided | src/rules/alwaysPassCondition.ts:52-59 | a tracked condition either always passes or cannot pass |
| AlwaysPassCondition.LineDiagsIff | src/rules/alwaysPassCondition.ts:254-327 | a line's warnings are exactly those of its conditions that always pass |
| AlwaysPassCondition.ReturnNeedsPassingConditions | src/rules/alwaysPassCondition.ts:329-344 | a line returns for certain only when all its conditions always pass |
| AlwaysPassCondition.ConditionalCalleeOnlyForgets | src/rules/alwaysPassCondition.ts:358-367 | a conditional call only forgets values and never drops a score |
| AlwaysPassCondition.CalleeAddsIgnored | src/rules/alwaysPassCondition.ts:369-394 | an unconditional callee that only adds or removes leaves the state unchanged |
| AlwaysPassCondition.ForgetChangesKeys | src/rules/alwaysPassCondition.ts:395-403 | forgetting a callee's changes tracks every score it changes and keeps only old values |
| ConditionDefinition.InheritedDefs | src/providers/conditionDefinition.ts:112-126 | inherited scores have no line and no file, and are never reset |
| ConditionDefinition.CalleeDefs | src/providers/conditionDefinition.ts:270-288 | a callee's changes add exactly their keys; each changed key becomes unknown, in the callee's file, at the line of its last change; keys no change names keep their state |
| ConditionDefinition.DefLine | src/providers/conditionDefinition.ts:140-268 | a line keeps every score and either keeps its state, forgets it, or defines it on this line of this file |
| ConditionDefinition.Target | src/providers/conditionDefinition.ts:95-100 | a location exists exactly when the definition has a line, and it is on that line |
| ConditionDefinition.Scan | src/providers/conditionDefinition.ts:88-101 | a location is found exactly when some condition of the line has its `if`/`unless` keyword under the cursor and a tracked state, set on a line, that decides it; the location is that of the first such condition |
| ConditionDefinition.ProvenanceStep | src/providers/conditionDefinition.ts:130-268 | if every known or reset score is inherited or was set by an earlier line of this document, that stays true after one more line |
| ConditionDefinition.ProvenanceRun | src/providers/conditionDefinition.ts:130-268 | after the pass up to the cursor, every known or reset score is inherited or was set by a line of this document before the cursor |
| ConditionDefinition.DefinitionPrecedesCursor | src/providers/conditionDefinition.ts:64-106 | a definition found lies before the cursor line, in this document |
| ConditionDefinition.ScanDecisive | src/providers/conditionDefinition.ts:88-101 | when every known or reset score was inherited or set before a line, a location found lies before that line, in this document |
| ConditionDefinition.FirstConditionAnswers | src/providers/conditionDefinition.ts:81-100 | on the keyword of a first condition with a decisive definition, the answer is that definition |
| ConditionDefinition.UndecidedGivesNothing | src/providers/conditionDefinition.ts:88-101 | with every score unknown, no definition is offered |
| ConditionDefinition.DecisiveIff | src/providers/conditionDefinition.ts:39-61 | a definition decides a condition exactly when the score is known, or reset under `if` |

## Left out

- The VS Code objects (diagnostics, ranges, code actions, edits, locations, providers, events), the messages and their translations: findings are plain records of kind, line and columns.
- File-system discovery and reads (`findDatapackRoots`, `findMcfunctionFiles`, `readFileSync`, `existsSync`, the watcher) and the asynchronous flow of `indexWorkspace` and `handleRename`: the file list and file contents are inputs, and the `indexing` flag is a boolean field.
- Configuration lookup: each rule's enable flag is a boolean parameter (`Option<bool>` where the source treats a missing value as off).
- Patterns: the regular expressions the score passes and the function index run on a line (score conditions, `set`/`add`/`reset`/`operation`, `store`, function references) are one `Classifier` parameter that returns what they extract; the passes are proved for every classifier, but the regular expressions themselves are not modelled.
- ParseRuleList: items are lower-cased on ASCII letters only (`Text.Lower`), whereas `toLowerCase` also maps other letters (U+212A KELVIN SIGN becomes `k`); the same holds for DisabledIgnoresCase, NormalizePath and the case-insensitive patterns.
- ExecuteGroup.LexLe: `localeCompare` collation is replaced by character-code order, a total order as the sort needs.
- Scores and columns are unbounded integers; JavaScript numbers, their overflow and `parseInt` beyond its digits-and-sign prefix are not modelled (`Text.ParseInt` reads an optional sign and leading digits).
- FunctionIndex.ParseFunctionFile: a file that cannot be read becomes a unit with no calls and no changes, which is what the source's `catch` leaves.
- Line numbers in the function index are indices of logical lines (continuations joined); the source records the same indices.
- ExecuteAsIfEntityFix.NegateTwice: negating twice gives the argument back only when its value does not start with `!!`; `NegateTwiceCounterexample` shows the exception.
- ExecuteAsIfEntityFix.MergedReparses: the merged selector is proved to parse back only when every sorted argument is bracket-balanced.
- TargetSelectorFix.TypeOrderFix: the re-parse of the fix as written is stated only when the moved arguments are balanced, because otherwise it breaks (see Findings).
- The regular-expression rewriting of the whole line in the `execute as … if entity` merge and convert fixes (src/codeActions/executeAsIfEntityFix.ts:122-201); only `getMergedSelector` and its helpers are modelled.
- The quick fixes other than the two target-selector fixes and `getMergedSelector`, and the single-regular-expression rules (`executeRun`, `executeAsS`, `executeReturn`, `returnRunDuplicate`, `selectorNbt`, `preferTellraw`).
- NbtItems.RangeOf: when the argument's text is not found, the range starts at -1 as in the source, and no bound is proved for that case beyond its length.
- FunctionIndex.ReindexKeepsWf: proved only when no other file's unit already holds the re-parsed function name; in that collision the source leaves the other file's entry behind, which the index invariant does not describe.
- FunctionIndex.ReindexIdempotent: proved under the same no-collision condition.
- UnreachableCondition.LineConflicts: states which conditions are flagged, not how many times a condition flagged by several checks is reported.
- UnreachableCondition.LineDiagsIff: states which warnings a line gets, not their multiplicity.
- InfiniteRecursion.CheckInfiniteRecursion: the warning's column comes from the source's `function ns:path` match, which is part of the classifier; only the line is proved.

## Findings

| source | as written | input that shows it | evidently intended | confidence | as-written member | corrected member |
|---|---|---|---|---|---|---|
| src/refactor/renameHandler.ts:79-90 | both patterns are run over the line and every match is pushed | `schedule function a:b` renamed to `a:c`: the `function` pattern and the `schedule function` pattern both match the reference, giving the same edit twice | one edit per reference | not executed | RenameHandler.ScheduleTwice | RenameHandler.ScheduleOnce |
| src/rules/scoreboardFakePlayer.ts:100 | the warned range starts at `line.indexOf(target)`, the first occurrence anywhere in the line (also lines 39, 53, 68, 76) | `scoreboard players add a obj 1`: `a` first occurs inside `scoreboard`, so column 7 is warned instead of column 23 | the range of the argument itself | not executed | ScoreboardFakePlayer.MisplacedTarget | ScoreboardFakePlayer.PlacedTarget |
| src/rules/scoreboardFakePlayer.ts:10 | selectors are `@[aeprs]` | `scoreboard players add @n obj 1` warns `@n` as a fake player | `@n` is a selector like the others | not executed | ScoreboardFakePlayer.NearestAsWritten | ScoreboardFakePlayer.NearestSkipped |
| src/rules/nbtItems.ts:108 | a negated value is sliced once more, though the argument parser already removed the `!` | `@s[nbt=!{SelectedItem:{id:"a"}}]`: the slice removes the `{`, no key is found, nothing is warned | the keys of the value after the `!` | not executed | NbtItems.NegatedMissed | NbtItems.CheckNbtItems |
| src/rules/nbtItems.ts:81-91 | after the loop the remaining segment is added as a key | `@e[nbt={CustomName:EnderItems}]`: the value `EnderItems` is taken as a key and the argument is warned | only text before a top-level `:` is a key | not executed | NbtItems.ValueTaken | NbtItems.PairKeys |
| src/codeActions/targetSelectorFix.ts:48-54 | the arguments are re-joined with `type` moved last, whatever they hold | `@e[type=z,n=[x]]`: the selector's bracket part ends at the first `]`, so the arguments are `type=z` and `n=[x`; the fix writes `@e[n=[x,type=z]`, which parses as one argument and now lacks `type` | a fix that keeps the `type` argument | not executed | TargetSelectorFix.TypeOrderFixBreaks | TargetSelectorFix.TypeOrderFixGuarded |
