# impsort import-section transformer, modelled in Dafny

This project models the part of impsort (the import-sorting Maven plugin) that reads a Java
file's import section and writes it back sorted. It covers:

- **Line endings**:
  - detecting a file's line ending by counting LF, CRLF and CR;
  - the characters of each ending.
- **Groups**:
  - parsing a comma-separated list of package prefixes into an ordered group list;
  - bucketing imports into the first matching group;
  - sorting each bucket;
  - emitting the section text with its blank-line separators.
- **Imports**:
  - the import value (static flag, name, prefix and suffix comments);
  - its text, equality and hash.
- **The section transformation of `ImpSort.parseFile`**:
  - locating the section's line range in a parsed compilation unit and widening it over blank lines;
  - folding comments and declarations into imports, merging duplicates;
  - removing unused imports and imports from the file's own package.
- **The two results**:
  - `isSorted`, with its cached answer;
  - the line splice `saveSorted` writes.
- **Small helpers**:
  - the parse-problem filter;
  - the exception message format;
  - the older `maven.plugin` sorter: its line parser, comparator, ordered set, and the line partition of `SortMojo`;
  - the compliance-to-language-level mapping.

There is one module per source file. The shared modules are:

- `Wrappers`: Option, Result and Outcome.
- `JavaStrings`: `trim`, whitespace, `split`, `join`, `compareTo`, and hash codes with 32-bit wrap-around.
- `Sequences`: filtering and subsequences.
- `Sorting`: a stable insertion sort that stands for `List.sort`.
- `Positions`: JavaParser's line and column positions.

Code that changes state step by step is written as methods with loops, each proved equal to a function that serves as its specification:

- the counting scan;
- the bucket fill;
- the StringBuilder emission;
- the widening loops;
- the converter's buffered pass;
- the duplicate-removing iterator;
- the `removeIf` filters;
- `SortMojo`'s pass and trimming loops.

The objects whose fields change are classes:

- the two `Result` classes, which cache `isSorted`;
- the plugin's `ImportOrganizer`.

The Java parser is not modelled. Its output becomes a datatype of positioned nodes:

- the package declaration's end;
- the import declarations, each with its attached comment;
- the orphan comments.

The identifiers a file uses arrive as a set of strings.

Some readings of the code worth stating:

- **Prefix trimming.** The converter trims the prefix at both ends with `String.trim` (ImpSort.java:192).
- **Bucket order.** Each bucket is sorted by `compareTo` on the import name (Grouper.java:98). `Grouper.java` offers no other bucket order.
- **Line breaks in the section text.** The section text uses "\n" throughout (Grouper.java:119-143, ImpSort.java:105). The file's chosen line ending is not applied to it.
- **Grouped text and its framing.** ImpSort.java:116 calls `grouper.groupedImports(allImports)` on the import set and uses the result as a string, then adds the framing line breaks itself (ImpSort.java:117-124). The `Grouper.java` at hand defines only `groupedImports(Parser.Result)`, which returns a `Result` and frames the text already (Grouper.java:111-146). `ImpSort.ParseFile` takes the grouper's text for the set and frames it once (`Grouping.SectionBody`, then one `Grouping.WrapSection`), so the section is never framed twice. `Grouping.GroupedImports` models the `Parser.Result` overload on its own.
- **Start of the section.** `ImpSort.ParseFile` starts the section where ImpSort.java:95 does, at the first node's own line. That line can lie after the comment attached to the first import, which the converter also writes as that import's prefix (ImpSort.java:142-147). This is the second finding below. `ImpSort.CorrectedSectionRange` is the range that covers that comment.

## Model

| member | source | states |
|---|---|---|
| LineEndings.Chars | src/main/java/net/revelc/code/impsort/LineEnding.java:23-33 | getChars has characters for every ending but KEEP and UNKNOWN; LF, CRLF and CR give "\n", "\r\n" and "\r", each of which the detector reads back as that ending; AUTO gives the host separator |
| LineEndings.DetermineLineEnding | src/main/java/net/revelc/code/impsort/LineEnding.java:42-69 | the counting scan returns only LF, CRLF, CR or UNKNOWN (never AUTO or KEEP); a terminator only when its count in the independent Tally of the text is strictly greater than both other counts; UNKNOWN exactly when no ending has such a majority |
| LineEndings.CountStep | src/main/java/net/revelc/code/impsort/LineEnding.java:47-59 | one step of the scan: a "\r\n" at i is one pair, so the scan counts it once and skips the '\n' |
| LineEndings.Chosen | src/main/java/net/revelc/code/impsort/LineEnding.java:61-68 | the comparison cascade picks an ending only when it strictly dominates, and UNKNOWN exactly on a tie for the maximum or no endings at all |
| LineEndings.DominatesUnique | src/main/java/net/revelc/code/impsort/LineEnding.java:61-68 | at most one ending can have a strict majority, so the cascade's order does not matter |
| LineEndings.TallyAppend | src/main/java/net/revelc/code/impsort/LineEnding.java:47-59 | counts add up over concatenation when no "\r\n" is split at the seam |
| LineEndings.TallyEnded | src/main/java/net/revelc/code/impsort/LineEnding.java:47-59 | text made of terminator-free lines each followed by CR, LF or CRLF (no CR directly before an LF-started line) is tallied as the sum of its endings |
| LineEndings.UniformFileDetected | src/test/java/net/revelc/code/impsort/LineEndingTest.java:29-54 | a non-empty file whose every line ends with the same terminator is detected as that terminator |
| LineEndings.MixedMostlyLfExample | src/test/java/net/revelc/code/impsort/LineEndingTest.java:59-64 | "Test\r\nTest\rTest\nTest\nTest\r\nTest\n" has three LF, one CR and two CRLF, so LF dominates |
| LineEndings.MixedNoMajorityExample | src/test/java/net/revelc/code/impsort/LineEndingTest.java:69-74 | "Test\r\nTest\r\nTest\nTest\nTest\r\nTest\nTest\r" ties LF and CRLF at three, so no ending dominates (UNKNOWN) |
| LineEndings.NoLineEndingExample | src/test/java/net/revelc/code/impsort/LineEndingTest.java:79-84 | a text without line breaks has zero counts and no dominating ending (UNKNOWN) |
| Positions.Trichotomy | src/main/java/net/revelc/code/impsort/ParseProblemFilter.java:35-36 | JavaParser's position order (line, then column) is total and strict: exactly one of before, equal, after |
| Positions.BeforeTransitive | src/main/java/net/revelc/code/impsort/ParseProblemFilter.java:35-36 | the position order is transitive, so "sorted().findFirst()" is a minimum |
| ParseProblems.FirstBegin | src/main/java/net/revelc/code/impsort/ParseProblemFilter.java:35-36 | the first top-level begin is absent iff no type has a begin; otherwise it is one of the begins and no other begin precedes it |
| ParseProblems.RelevantProblems | src/main/java/net/revelc/code/impsort/ParseProblemFilter.java:33-46 | the result is an order-preserving subsequence of the problems; the list itself when no type has a begin; otherwise exactly the problems whose location begins strictly before the first type |
| ParseProblems.UnlocatedDropped | src/main/java/net/revelc/code/impsort/ParseProblemFilter.java:41-44 | a problem without a location, or whose first token has no range, is dropped when there is a reference position |
| ImpSortExceptions.ReasonTextInjective | src/main/java/net/revelc/code/impsort/ex/ImpSortException.java:22-40 | the three reason texts "unknown line ending", "unable to successfully parse the Java file" and "the Java file contained parse errors" are pairwise different |
| ImpSortExceptions.Message | src/main/java/net/revelc/code/impsort/ex/ImpSortException.java:52-56 | the message is "file: ", the path, "; reason: " and the reason text, at the stated offsets |
| ImpSortExceptions.MessageDetermines | src/main/java/net/revelc/code/impsort/ex/ImpSortException.java:52-75 | the message gives back the exception (its path and reason) when either of the two is known |
| Imports.NewImport | src/main/java/net/revelc/code/impsort/Import.java:26-47 | construction succeeds iff name, prefix and suffix are all non-null, and the accessors then return exactly the arguments; a null name or prefix is reported as such |
| Imports.ToStringWithoutPrefix | src/main/java/net/revelc/code/impsort/Import.java:50-52 | with an empty prefix the text starts with "import" and holds a line break iff the suffix does |
| Imports.ReadStatementText | src/main/java/net/revelc/code/impsort/Import.java:50-52 | the declaration text "import[ static] name;" reads back as the static flag and the name |
| Imports.ToStringInjective | src/main/java/net/revelc/code/impsort/Import.java:50-52 | for imports with the same comments, equal texts mean equal imports: the text determines static flag and name |
| Imports.Equals | src/main/java/net/revelc/code/impsort/Import.java:59-70 | equality holds iff static flag, name, prefix and suffix are all equal |
| Imports.Hash | src/main/java/net/revelc/code/impsort/Import.java:54-57 | the hash is a 32-bit int congruent to twice the name's String.hashCode plus one when static, modulo 2^32 |
| Imports.HashIgnoresComments | src/main/java/net/revelc/code/impsort/Import.java:54-57 | imports that agree on name and static flag hash equal, whatever their comments, so equal imports hash equal |
| LanguageLevels.GetLanguageLevel | src/main/java/net/revelc/code/impsort/maven/plugin/AbstractImpSortMojo.java:373-387 | a missing or blank compliance gives POPULAR; otherwise it succeeds exactly when the enum has the constant named by LevelName of the trimmed compliance, the success is that constant, and the error names it |
| LanguageLevels.OldReleaseName | src/main/java/net/revelc/code/impsort/maven/plugin/AbstractImpSortMojo.java:379-380 | "1.0" to "1.4" name JAVA_1_0 to JAVA_1_4 |
| LanguageLevels.RenamedReleaseName | src/main/java/net/revelc/code/impsort/maven/plugin/AbstractImpSortMojo.java:381-382 | "1.5" to "1.9" name JAVA_5 to JAVA_9, the same names as "5" to "9" |
| LanguageLevels.OtherName | src/main/java/net/revelc/code/impsort/maven/plugin/AbstractImpSortMojo.java:383-384 | any other value v names "JAVA_" followed by v |
| LanguageLevels.TrimmedFirst | src/main/java/net/revelc/code/impsort/maven/plugin/AbstractImpSortMojo.java:374-378 | the compliance is trimmed before matching: surrounding whitespace changes nothing |
| LanguageLevels.RenamedReleasesAgree | src/test/java/net/revelc/code/impsort/maven/plugin/AbstractImpSortMojoTest.java:36-45 | getLanguageLevel("1.d") equals getLanguageLevel("d") for d from 5 to 9, whatever constants the enum has |
| LanguageLevels.DottedOtherFails | src/main/java/net/revelc/code/impsort/maven/plugin/AbstractImpSortMojo.java:383-386 | a dotted value that is neither an old nor a renamed release fails with the constant name "JAVA_" + v when no constant has a dot |
| LanguageLevels.OnePointTenFails | src/test/java/net/revelc/code/impsort/maven/plugin/AbstractImpSortMojoTest.java:51 | getLanguageLevel("1.10") is an IllegalArgumentException |
| Results.SplitTerminated | src/main/java/net/revelc/code/impsort/Result.java:75 | splitting text built as lines each followed by "\n" gives the lines back, less trailing empty ones ([""] for no lines), as String.split does |
| Results.SpliceLines | src/main/java/net/revelc/code/impsort/Result.java:74-84 | the list built with addAll/add is the lines before start, the new section split on "\n", a blank line when lines follow, and the lines from stop on |
| Results.SplicedKeepsOutside | src/main/java/net/revelc/code/impsort/Result.java:74-84 | the lines outside [start, stop) appear unchanged and in order, around the section lines |
| Results.SplicedSection | src/main/java/net/revelc/code/impsort/Result.java:74-84 | splicing a section built from lines puts those lines (less trailing blanks) between the kept lines |
| Results.Result.IsSorted | src/main/java/net/revelc/code/impsort/Result.java:52-57 | isSorted holds iff the original and new sections are equal; the answer is cached, so later calls return it again |
| Results.Result.SaveSorted | src/main/java/net/revelc/code/impsort/Result.java:67-86 | a sorted file keeps its original content; otherwise the spliced line list is written; the cache is filled either way |
| Results.Result.constructor | src/main/java/net/revelc/code/impsort/Result.java:40-50 | a new result holds the given path, lines, range, both section texts and imports, with no sortedness cached yet |
| Groups.NewGroup | src/main/java/net/revelc/code/impsort/Group.java:28-42 | construction succeeds iff the encounter order is non-negative, keeping prefix and order; otherwise the "Encounter order cannot be negative" error |
| Groups.MatchesIff | src/main/java/net/revelc/code/impsort/Group.java:44-46 | "*" matches every class name; any other prefix matches exactly the names that start with it |
| Groups.Equals | src/main/java/net/revelc/code/impsort/Group.java:53-65 | two groups are equal iff prefix and order are both equal |
| Groups.Hash | src/main/java/net/revelc/code/impsort/Group.java:48-51 | the hash is the 32-bit wrap of the prefix's String.hashCode plus the order |
| Groups.EqualsHash | src/main/java/net/revelc/code/impsort/Group.java:48-65 | equal groups hash equal |
| Groups.DottedNameIff | src/main/java/net/revelc/code/impsort/Group.java:70 | the hand-written recogniser of \w+([.]\w+)*[.]? accepts exactly the non-empty word-character-and-dot strings that start with a word character and have no two dots in a row |
| Groups.UserTokens | src/main/java/net/revelc/code/impsort/Group.java:69-72 | after whitespace removal and the split on ",", no token holds a comma or a whitespace character, and every character comes from the groups string |
| Groups.FirstBad | src/main/java/net/revelc/code/impsort/Group.java:73-80 | the first token that fails the group shape or repeats an earlier token, and none before it fails |
| Groups.Parse | src/main/java/net/revelc/code/impsort/Group.java:67-95 | the loop that checks, numbers and appends tokens, adds "*" when missing and sorts computes exactly ParseSpec of the groups string, on success and on each error |
| Groups.DefaultedShape | src/main/java/net/revelc/code/impsort/Group.java:81-88 | before sorting, each user group's order is its encounter index, "*" is appended with order = count exactly when absent, so there is exactly one "*", and no prefix repeats |
| Groups.ParseOrdered | src/main/java/net/revelc/code/impsort/Group.java:89-93 | a parsed list is well formed and ordered by non-increasing prefix length; equal lengths keep encounter order (the tie-breaker compares a with a, so the stable sort keeps the input order) |
| Groups.ParseMembers | src/main/java/net/revelc/code/impsort/Group.java:81-93 | the parsed list holds exactly the user tokens with their encounter indices, plus ("*", count) when "*" was not given |
| Groups.ParseFailure | src/main/java/net/revelc/code/impsort/Group.java:73-80 | parse fails iff some token is bad; the error is "Invalid group" for the first bad token when it lacks the shape and "Duplicate group" when it repeats an earlier one |
| Groups.ParseEmptyExample | src/main/java/net/revelc/code/impsort/Grouper.java:51-54 | parse("") and parse("*") both give [("*", 0)] |
| Groups.ParseOneExample | src/main/java/net/revelc/code/impsort/Group.java:67-95 | parse("a") gives [("a", 0), ("*", 1)] |
| Groups.TokensOfJoined | src/main/java/net/revelc/code/impsort/Grouper.java:51 | comma-joined parts split back into the parts with their whitespace removed |
| Groups.MixedParseExample | src/test/java/net/revelc/code/impsort/ImpSortTest.java:142-145 | the tokens of " b , * , ab ,com., java , a" parse to [com.:3, java:4, ab:2, b:0, *:1, a:5] |
| Groups.MixedSortExample | src/main/java/net/revelc/code/impsort/Grouper.java:71-75 | the stable longest-prefix-first sort puts groups of lengths 1,1,2,4,4,1 in the order 4,4,2,1,1,1, keeping ties in encounter order |
| Grouping.NewGrouper | src/main/java/net/revelc/code/impsort/Grouper.java:42-47 | construction succeeds iff both group strings parse; the non-static groups' error is reported first; on success both lists are the parsed ones, well formed and sorted longest prefix first |
| Grouping.FirstMatch | src/main/java/net/revelc/code/impsort/Grouper.java:90-95 | the group an import goes to: the first group in list order that matches its name, with none before it matching |
| Grouping.FindGroup | src/main/java/net/revelc/code/impsort/Grouper.java:90-95 | the for/break loop over the groups finds exactly the first matching group |
| Grouping.DefaultAlwaysMatches | src/main/java/net/revelc/code/impsort/Grouper.java:90-95 | with a "*" group in the list every import finds a group |
| Grouping.FirstMatchLongest | src/main/java/net/revelc/code/impsort/Grouper.java:90-95 | in a list sorted longest prefix first, the chosen group's prefix is at least as long as that of any other matching group |
| Grouping.FileImports | src/main/java/net/revelc/code/impsort/Grouper.java:88-96 | filing the imports one by one with computeIfAbsent(...).add puts into key k exactly the imports of the wanted kind whose first matching group has order k, in their original order, and creates no empty entry |
| Grouping.SortBuckets | src/main/java/net/revelc/code/impsort/Grouper.java:97-99 | sorting each list in place keeps the keys and sorts every bucket by path |
| Grouping.GroupImports | src/main/java/net/revelc/code/impsort/Grouper.java:87-101 | group returns a map whose keys are exactly the non-empty bucket orders and whose values are those buckets sorted by path |
| Grouping.GroupNonStatic | src/main/java/net/revelc/code/impsort/Grouper.java:79-81 | groupNonStatic is group over the non-static groups with the non-static filter |
| Grouping.GroupStatic | src/main/java/net/revelc/code/impsort/Grouper.java:83-85 | groupStatic is group over the static groups with the static filter |
| Grouping.ExactlyOneBucket | src/main/java/net/revelc/code/impsort/Grouper.java:89-96 | an import that passes the filter is in exactly one bucket, that of its first matching group, with all its occurrences; every other bucket has none of it |
| Grouping.OtherKindInNoBucket | src/main/java/net/revelc/code/impsort/Grouper.java:89 | an import that fails the static/non-static filter is in no bucket |
| Grouping.BucketSorted | src/main/java/net/revelc/code/impsort/Grouper.java:97-99 | each bucket is sorted lexicographically by path (String.compareTo) and holds only imports of the input that belong to it |
| Grouping.BucketKeysInRange | src/main/java/net/revelc/code/impsort/Grouper.java:88-92 | with a parsed group list every key of a non-empty bucket is a group order in [0, number of groups) |
| Grouping.KeysBetween | src/main/java/net/revelc/code/impsort/Grouper.java:97 | the keys of the map in a range, strictly ascending, exactly those present: the iteration order of TreeMap.values() |
| Grouping.TreeValues | src/main/java/net/revelc/code/impsort/Grouper.java:126 | values() lists the buckets in ascending key order |
| Grouping.GroupedIsBucketMap | src/main/java/net/revelc/code/impsort/Grouper.java:87-101 | any map with the keys and sorted buckets group promises is the reference BucketMap, so the result of group is determined |
| Grouping.BucketsOfKind | src/main/java/net/revelc/code/impsort/Grouper.java:89 | every import in a partition's buckets is of that partition's kind and comes from the input |
| Grouping.GroupBoth | src/main/java/net/revelc/code/impsort/Grouper.java:113-114 | both partitions are grouped into their reference bucket maps |
| Grouping.AppendGrouping | src/main/java/net/revelc/code/impsort/Grouper.java:124 | appending each import and "\n" to the builder adds the bucket's texts, each ending in a line break |
| Grouping.AppendBuckets | src/main/java/net/revelc/code/impsort/Grouper.java:119-126 | the consumer over values() writes one line break before every bucket but the first, then each bucket's lines |
| Grouping.JoinPartitions | src/main/java/net/revelc/code/impsort/Grouper.java:116-131 | the first partition, one extra line break iff joinStaticWithNonStatic is false and both partitions are non-empty, then the second partition; firstGroup is reset between them |
| Grouping.SectionBody | src/main/java/net/revelc/code/impsort/Grouper.java:112-134 | the builder's text is the grouped lines of the imports, each followed by "\n" (static partition first unless staticAfter) |
| Grouping.SectionText | src/main/java/net/revelc/code/impsort/Grouper.java:126-131 | the text of the section lines is the two partitions' texts with the separating line break in between exactly when they are kept apart and both hold something |
| Grouping.WrapSection | src/main/java/net/revelc/code/impsort/Grouper.java:136-143 | a leading "\n" iff start > 0 and a trailing "\n" iff stop is before the end of the file |
| Grouping.WrapLines | src/main/java/net/revelc/code/impsort/Grouper.java:136-143 | wrapping is the same as adding a blank line before the section lines when start > 0 and after them when lines follow |
| Grouping.BlankSeparatedImports | src/main/java/net/revelc/code/impsort/Grouper.java:119-126 | leaving out the blank lines of a partition gives every import's text, bucket after bucket, in order |
| Grouping.BlankSeparatedGaps | src/main/java/net/revelc/code/impsort/Grouper.java:119-126 | a partition has exactly one blank line fewer than it has buckets |
| Grouping.BlankSeparatedShape | src/main/java/net/revelc/code/impsort/Grouper.java:119-126 | a partition of non-empty buckets starts and ends with an import line and never has two blank lines in a row, so no blank line precedes the first bucket and exactly one separates consecutive buckets |
| Grouping.TextNotEmpty | src/main/java/net/revelc/code/impsort/Grouper.java:124 | every import's text is a non-empty line |
| Grouping.SectionImports | src/main/java/net/revelc/code/impsort/Grouper.java:126-131 | the section's non-blank lines are the first partition's import texts followed by the second's |
| Grouping.SectionGaps | src/main/java/net/revelc/code/impsort/Grouper.java:126-131 | the section's blank lines are the gaps of the two partitions plus one iff the partitions are kept apart and both are non-empty |
| Grouping.SectionShape | src/main/java/net/revelc/code/impsort/Grouper.java:126-131 | the whole section starts and ends with an import and has no two blank lines in a row |
| Grouping.BucketsNotEmpty | src/main/java/net/revelc/code/impsort/Grouper.java:92 | computeIfAbsent creates a bucket only to add to it, so every bucket written is non-empty |
| Grouping.GroupedLinesOrder | src/main/java/net/revelc/code/impsort/Grouper.java:116-131 | the section lists the static imports' texts first unless staticAfter, and it is framed by imports with single blank separators |
| Grouping.GroupedImports | src/main/java/net/revelc/code/impsort/Grouper.java:111-146 | groupedImports makes a result with an empty cache whose new section is the wrapped text of the grouped lines |
| Grouping.GroupedResult.IsSorted | src/main/java/net/revelc/code/impsort/Grouper.java:158-163 | isSorted holds iff the original section equals the new one, and the answer is cached |
| Grouping.GroupedResult.SaveSortedAsWritten | src/main/java/net/revelc/code/impsort/Grouper.java:169-188 | saveSorted as written: with an empty cache the unboxing of the Boolean fails; otherwise keep the file when sorted, else write the spliced lines |
| Grouping.SaveWithoutIsSorted | src/main/java/net/revelc/code/impsort/Grouper.java:169-175 | saving a result on which isSorted() was never called raises a NullPointerException; after isSorted() it agrees with the corrected save |
| Grouping.GroupedResult.SaveSorted | src/main/java/net/revelc/code/impsort/Grouper.java:169-188 | the corrected saveSorted asks isSorted() first: it keeps the file when sorted and writes fileLines before start, the section lines, a blank line when lines follow and the rest, otherwise |
| Grouping.GroupedResult.constructor | src/main/java/net/revelc/code/impsort/Grouper.java:153-156 | a new result holds the parse result's lines, range and original section with the new section, and its Boolean cache is still null |
| Grouping.ByPathOrder | src/main/java/net/revelc/code/impsort/Grouper.java:98 | ordering by import path with compareTo is total and transitive, so the sorted bucket is well defined |
| PluginImports.MatchAt | src/main/java/net/revelc/code/impsort/maven/plugin/Import.java:25-26 | the pattern anchored with its prefix ending at p: when it matches, the groups lie in order inside the line and the prefix group ends at p |
| PluginImports.FindFrom | src/main/java/net/revelc/code/impsort/maven/plugin/Import.java:62-63 | find(): the match whose prefix is shortest (the lazy prefix group), no match at any earlier position, and None exactly when no position matches |
| PluginImports.NewImport | src/main/java/net/revelc/code/impsort/maven/plugin/Import.java:33-38 | the import is static exactly when the type text ends with "static"; the name is kept; a missing prefix or suffix becomes the empty string |
| PluginImports.FromMatch | src/main/java/net/revelc/code/impsort/maven/plugin/Import.java:64-68 | the import built from a match is tidy: its name has no whitespace, its prefix no leading and its suffix no trailing whitespace |
| PluginImports.Parse | src/main/java/net/revelc/code/impsort/maven/plugin/Import.java:61-71 | parse: when a line yields an import, that import is tidy |
| PluginImports.ParseNoneIff | src/main/java/net/revelc/code/impsort/maven/plugin/Import.java:63-70 | parse answers empty exactly when the pattern matches at no position of the line |
| PluginImports.ParseStaticIff | src/main/java/net/revelc/code/impsort/maven/plugin/Import.java:63-68 | the parsed import is the one built from the first match, and it is static exactly when the matched type runs past the keyword import (an import static statement) |
| PluginImports.FromMatchStatic | src/main/java/net/revelc/code/impsort/maven/plugin/Import.java:34 | the type group collapses to "import static" or "import"; the import is static exactly when the type group is longer than the keyword |
| PluginImports.ToString | src/main/java/net/revelc/code/impsort/maven/plugin/Import.java:57-59 | toString starts with the keyword import, is at least as long as the keyword, separator, name, semicolon and suffix together, and ends with the semicolon followed by the suffix (the prefix is not printed) |
| PluginImports.LineMatch | src/main/java/net/revelc/code/impsort/maven/plugin/Import.java:25-26 | a line written as toString writes it is matched at position 0, with the name as the item group, the suffix as the suffix group, and a static type exactly for a static import |
| PluginImports.ParseToString | src/main/java/net/revelc/code/impsort/maven/plugin/Import.java:57-71 | round trip: parsing toString of a tidy import gives the same import with an empty prefix, because toString drops the prefix |
| PluginImports.Equals | src/main/java/net/revelc/code/impsort/maven/plugin/Import.java:79-89 | equals holds exactly when the kind, name, prefix and suffix all agree |
| PluginImports.Hash | src/main/java/net/revelc/code/impsort/maven/plugin/Import.java:74-76 | hashCode is a 32-bit value congruent, modulo 2^32, to twice the name's String hash plus one for a static import |
| PluginImports.HashOfNameAndFlag | src/main/java/net/revelc/code/impsort/maven/plugin/Import.java:74-89 | imports that agree in kind and name have the same hashCode whatever their prefix and suffix (equal imports hash equally) |
| ImportComparators.NewComparator | src/main/java/net/revelc/code/impsort/maven/plugin/ImportComparator.java:27-31 | the constructor fails exactly when either group string is null, and otherwise keeps both strings and the staticAfter flag |
| ImportComparators.GroupCompare | src/main/java/net/revelc/code/impsort/maven/plugin/ImportComparator.java:64-69 | groupCompare succeeds exactly when the groups string is "*", and then returns 0 exactly on equal names; any other groups string throws UnsupportedOperationException |
| ImportComparators.TieBreak | src/main/java/net/revelc/code/impsort/maven/plugin/ImportComparator.java:51-61 | the prefix and then the suffix comparison give 0 exactly when both agree |
| ImportComparators.Compare | src/main/java/net/revelc/code/impsort/maven/plugin/ImportComparator.java:34-62 | compare fails exactly for two distinct objects of the same kind whose kind's groups string is not "*"; it gives 0 exactly on equal imports; imports of different kinds compare positive exactly when the first one's kind is the one staticAfter puts last |
| ImportComparators.KindOrder | src/main/java/net/revelc/code/impsort/maven/plugin/ImportComparator.java:42-44 | imports of different kinds compare by the rank of their kind alone |
| ImportComparators.TieBreakAntisymmetric | src/main/java/net/revelc/code/impsort/maven/plugin/ImportComparator.java:51-61 | swapping the arguments negates the prefix and suffix comparison |
| ImportComparators.CompareAntisymmetric | src/main/java/net/revelc/code/impsort/maven/plugin/ImportComparator.java:34-62 | where compare succeeds, swapping its arguments negates the result |
| ImportComparators.TieBreakTransitive | src/main/java/net/revelc/code/impsort/maven/plugin/ImportComparator.java:51-61 | the prefix and suffix ordering is transitive |
| ImportComparators.SameKindTransitive | src/main/java/net/revelc/code/impsort/maven/plugin/ImportComparator.java:46-61 | among imports of one kind whose groups string is "*", compare is a transitive order |
| ImportComparators.CompareTransitive | src/main/java/net/revelc/code/impsort/maven/plugin/ImportComparator.java:34-62 | compare is transitive wherever the outer comparison succeeds |
| ImportComparators.KindBlocks | src/main/java/net/revelc/code/impsort/maven/plugin/ImportComparator.java:42-44 | the kinds form two contiguous blocks: past an import of the other kind, every greater import is of that kind too |
| ImportOrganizers.ComparableIff | src/main/java/net/revelc/code/impsort/maven/plugin/ImportOrganizer.java:27-29 | adding to the set can succeed exactly when the new import's kind has the groups string "*" or no import of its kind is already held |
| ImportOrganizers.Inserted | src/main/java/net/revelc/code/impsort/maven/plugin/ImportOrganizer.java:21 | the import is present after it is added |
| ImportOrganizers.InsertedElements | src/main/java/net/revelc/code/impsort/maven/plugin/ImportOrganizer.java:27-29 | after add the set holds exactly the old elements and the new import, and grows by at most one |
| ImportOrganizers.InsertedAt | src/main/java/net/revelc/code/impsort/maven/plugin/ImportOrganizer.java:27-29 | add places the import just after the elements below it and before the first one above it |
| ImportOrganizers.InsertedPresent | src/main/java/net/revelc/code/impsort/maven/plugin/ImportOrganizer.java:27-29 | adding an import already held leaves the set unchanged |
| ImportOrganizers.InsertedInOrder | src/main/java/net/revelc/code/impsort/maven/plugin/ImportOrganizer.java:21 | add keeps the set in strictly ascending comparator order |
| ImportOrganizers.InOrderDistinct | src/main/java/net/revelc/code/impsort/maven/plugin/ImportOrganizer.java:21 | a set in ascending order holds no import twice |
| ImportOrganizers.ImportOrganizer.constructor | src/main/java/net/revelc/code/impsort/maven/plugin/ImportOrganizer.java:23-25 | a new organizer is empty and orders by the comparator built from the two group strings and staticAfter |
| ImportOrganizers.ImportOrganizer.Add | src/main/java/net/revelc/code/impsort/maven/plugin/ImportOrganizer.java:27-29 | add fails with UnsupportedOperationException exactly when the comparator would have to compare two imports it cannot, leaving the set as it was; otherwise the set becomes the old one with the import inserted in order |
| ImportOrganizers.ImportOrganizer.IsEmpty | src/main/java/net/revelc/code/impsort/maven/plugin/ImportOrganizer.java:31-33 | isEmpty holds exactly when the set holds no import |
| SortMojos.Read | src/main/java/net/revelc/code/impsort/maven/plugin/SortMojo.java:42-44 | the file read line by line: one entry for each line, in order |
| SortMojos.ReadAt | src/main/java/net/revelc/code/impsort/maven/plugin/SortMojo.java:43-44 | the k-th entry is the k-th line with its own parse |
| SortMojos.FirstImport | src/main/java/net/revelc/code/impsort/maven/plugin/SortMojo.java:45-52 | the index of the first import line: every earlier line is not an import line, and the line there is one |
| SortMojos.AddAll | src/main/java/net/revelc/code/impsort/maven/plugin/SortMojo.java:45-47 | adding imports one by one, when every add succeeds, yields exactly the old elements and the added imports |
| SortMojos.PartitionImports | src/main/java/net/revelc/code/impsort/maven/plugin/SortMojo.java:43-54 | the pass succeeds exactly when adding the file's imports in order succeeds, and the organizer then holds what those adds give |
| SortMojos.PartitionSnoc | src/main/java/net/revelc/code/impsort/maven/plugin/SortMojo.java:43-54 | a failed pass stays failed when a line is added; otherwise one more line is one more step |
| SortMojos.PartitionLines | src/main/java/net/revelc/code/impsort/maven/plugin/SortMojo.java:49-52 | after the pass, before is every line ahead of the first import line, after is every non-import line past it, and the organizer is empty exactly when the file has no import line |
| SortMojos.DropTrailingBlank | src/main/java/net/revelc/code/impsort/maven/plugin/SortMojo.java:64-67 | only blank lines are removed, all from the end; what stays is a prefix that is empty or ends with a non-blank line |
| SortMojos.DropLeadingBlank | src/main/java/net/revelc/code/impsort/maven/plugin/SortMojo.java:69-72 | only blank lines are removed, all from the start; what stays is a suffix that is empty or starts with a non-blank line |
| SortMojos.Sort | src/main/java/net/revelc/code/impsort/maven/plugin/SortMojo.java:62-74 | the two loops trim the trailing blanks of before and the leading blanks of after |
| SortMojos.ProcessFile | src/main/java/net/revelc/code/impsort/maven/plugin/SortMojo.java:34-60 | processFile fails exactly when some add fails; otherwise before, the organizer and after are the pass's lists and set, with the blank lines trimmed |
| SortMojos.AddStep | src/main/java/net/revelc/code/impsort/maven/plugin/SortMojo.java:45-47 | an import line whose add succeeds inserts its import and leaves both line lists alone |
| SortMojos.AddFails | src/main/java/net/revelc/code/impsort/maven/plugin/SortMojo.java:45-47 | an import line whose add fails makes the pass fail |
| SortMojos.OtherStep | src/main/java/net/revelc/code/impsort/maven/plugin/SortMojo.java:49-52 | a non-import line goes to before while the organizer is empty and to after once it is not |
| SortMojos.FailureSticks | src/main/java/net/revelc/code/impsort/maven/plugin/SortMojo.java:43-54 | once an add has failed the whole pass fails, whatever lines follow |
| ImpSort.ByPositionOrder | src/main/java/net/revelc/code/impsort/ImpSort.java:53-54 | BY_POSITION is a total and transitive order on nodes, so sorting by it is well defined |
| ImpSort.LastImportBegin | src/main/java/net/revelc/code/impsort/ImpSort.java:83-84 | the position taken is the begin of one of the declarations, and no declaration begins after it |
| ImpSort.SectionComments | src/main/java/net/revelc/code/impsort/ImpSort.java:85-88 | the comments kept are exactly the orphan comments that begin after the package position and before the last import, in their original order |
| ImpSort.CommentNodes | src/main/java/net/revelc/code/impsort/ImpSort.java:91-92 | each kept comment becomes one node of the section, in order |
| ImpSort.ImportNodes | src/main/java/net/revelc/code/impsort/ImpSort.java:91-92 | each declaration becomes one node of the section, in order |
| ImpSort.SectionBounded | src/main/java/net/revelc/code/impsort/ImpSort.java:83-88 | every kept comment begins before the last import, every declaration no later, and one declaration begins there |
| ImpSort.SortedByPosition | src/main/java/net/revelc/code/impsort/ImpSort.java:93 | the sorted nodes are a permutation of the concatenated comments and declarations, ordered by position |
| ImpSort.SortedNodesShape | src/main/java/net/revelc/code/impsort/ImpSort.java:91-96 | a position-ordered permutation of such comments and declarations ends with the declaration at the last import position and holds no other node |
| ImpSort.SectionNodesShape | src/main/java/net/revelc/code/impsort/ImpSort.java:82-96 | the section's nodes are the comments and declarations, ordered by position, non-empty, with a declaration last, so no comment is left over after conversion |
| ImpSort.SectionRangeWithin | src/main/java/net/revelc/code/impsort/ImpSort.java:94-96 | both ends of the section's line range lie in the file, start before stop, and the start counting the attached comment is no later than the start as written |
| ImpSort.WidenedStart | src/main/java/net/revelc/code/impsort/ImpSort.java:99-101 | the start moves up over blank lines only, and stops at line 0 or below a non-blank line |
| ImpSort.WidenedStop | src/main/java/net/revelc/code/impsort/ImpSort.java:102-104 | the stop moves down over blank lines only, and stops at the end of the file or at a non-blank line |
| ImpSort.Widen | src/main/java/net/revelc/code/impsort/ImpSort.java:99-104 | the two while loops compute the widened start and stop |
| ImpSort.SectionRange | src/main/java/net/revelc/code/impsort/ImpSort.java:94-104 | the range parseFile computes, from the line before the first node's own line to the last node's end line, widened over blank lines: it lies within the file, in order, with a non-blank line (or the file's edge) on each side |
| ImpSort.CorrectedSectionRange | src/main/java/net/revelc/code/impsort/ImpSort.java:94-104 | the range widened from the line before the first import's attached comment: it lies within the file, its start is no later than the start as written, its stop is the same, and it is the range as written unless such a comment opens the section |
| ImpSort.FirstDeclaration | src/main/java/net/revelc/code/impsort/ImpSort.java:174-187 | the index of the first declaration among a group's nodes: before it only comments, and a declaration there |
| ImpSort.LastDeclaration | src/main/java/net/revelc/code/impsort/ImpSort.java:182-186 | the declaration whose flag and name the import takes: none exactly when the group has no declaration, otherwise one of its declarations |
| ImpSort.SuffixText | src/main/java/net/revelc/code/impsort/ImpSort.java:188-191 | the trimmed suffix is empty when it is blank, and otherwise the trimmed text after one space |
| ImpSort.BuildImport | src/main/java/net/revelc/code/impsort/ImpSort.java:169-192 | the loop over a group's nodes builds the import the reference definition gives: comments before the declaration form the trimmed prefix, comments after it the suffix, and a group without a declaration fails on the null name |
| ImpSort.ImportFromParts | src/main/java/net/revelc/code/impsort/ImpSort.java:170-192 | the import built is static as its last declaration is, named after it, with the trimmed texts before the first declaration as prefix and the texts after it as suffix |
| ImpSort.ConvertsBefore | src/main/java/net/revelc/code/impsort/ImpSort.java:142-147 | a declaration whose attached comment starts before it converts with that comment inside its prefix, after the floating comments |
| ImpSort.ConvertsAfter | src/main/java/net/revelc/code/impsort/ImpSort.java:148-151 | a declaration whose attached comment does not start before it converts with that comment as its suffix |
| ImpSort.ConvertsAlone | src/main/java/net/revelc/code/impsort/ImpSort.java:152-154 | a declaration without an attached comment converts with the floating comments as its prefix and an empty suffix |
| ImpSort.ThisImportConverts | src/main/java/net/revelc/code/impsort/ImpSort.java:138-157 | every declaration's group of nodes converts successfully to the import of that declaration and its floating comments |
| ImpSort.DeclarationImportKey | src/main/java/net/revelc/code/impsort/ImpSort.java:183-185 | the converted import's static flag and name are those of the declaration, the name ending with .* for an asterisk import |
| ImpSort.KeySet | src/main/java/net/revelc/code/impsort/ImpSort.java:193-202 | the set of kind-and-name keys held by a list of imports |
| ImpSort.OtherKeys | src/main/java/net/revelc/code/impsort/ImpSort.java:193-198 | the candidates an add leaves in the set are exactly those of another key, in order |
| ImpSort.ScanKeyed | src/main/java/net/revelc/code/impsort/ImpSort.java:193-201 | for duplicate tests that mean equal kind and name, the scan removes exactly the candidates with the new import's key and the merged import keeps that key; with no duplicate the import is unchanged |
| ImpSort.AddedKeyed | src/main/java/net/revelc/code/impsort/ImpSort.java:193-202 | after an add the set is the other-key candidates followed by the merged import, no earlier element duplicates it, the key set gains the new key, and distinct keys stay distinct; with no duplicate the import is appended |
| ImpSort.AddedAppends | src/main/java/net/revelc/code/impsort/ImpSort.java:193-202 | the set after an add is the other-key candidates in order with the merged import last |
| ImpSort.AddedKeys | src/main/java/net/revelc/code/impsort/ImpSort.java:193-202 | adding keeps keys distinct and adds exactly the new import's key |
| ImpSort.MergeImport | src/main/java/net/revelc/code/impsort/ImpSort.java:193-202 | the iterator loop removes each duplicate, combines it into the import and appends the result, as the reference definition says |
| ImpSort.ConvertAndAddImport | src/main/java/net/revelc/code/impsort/ImpSort.java:169-203 | convertAndAddImport fails exactly when the group converts to no import, and otherwise adds the converted import with the duplicate merge |
| ImpSort.ConvertImportSection | src/main/java/net/revelc/code/impsort/ImpSort.java:131-167 | the loop over the section's nodes gives the reference conversion: floating comments gather until a declaration, which converts with them; any other node, or comments left at the end, is an IllegalStateException |
| ImpSort.ConvertFromSucceeds | src/main/java/net/revelc/code/impsort/ImpSort.java:134-165 | conversion succeeds exactly when the nodes hold no other node and no comment follows the last declaration |
| ImpSort.ConvertFromKeys | src/main/java/net/revelc/code/impsort/ImpSort.java:131-167 | a successful conversion holds each declared kind-and-name key once and exactly the keys of the section's declarations |
| ImpSort.LastSegmentOf | src/main/java/net/revelc/code/impsort/ImpSort.java:267-272 | the last element of split("[.]") of a dotted name is the text after its last dot |
| ImpSort.UsedImports | src/main/java/net/revelc/code/impsort/ImpSort.java:265-279 | the imports removeIf keeps are exactly the used ones, in order |
| ImpSort.RemoveUnusedImports | src/main/java/net/revelc/code/impsort/ImpSort.java:265-279 | removeUnusedImports fails with the AssertionError exactly when some name has no segment, and otherwise keeps exactly the used imports in order |
| ImpSort.WildcardsKept | src/main/java/net/revelc/code/impsort/ImpSort.java:273-275 | a wildcard import is never removed as unused |
| ImpSort.SimpleNameKeptIff | src/main/java/net/revelc/code/impsort/ImpSort.java:272-277 | an import of a simple name is kept exactly when that name is a token in use |
| ImpSort.OtherPackages | src/main/java/net/revelc/code/impsort/ImpSort.java:281-292 | the imports removeIf keeps are exactly those not in the file's package, in order |
| ImpSort.RemoveSamePackageImports | src/main/java/net/revelc/code/impsort/ImpSort.java:281-292 | removeSamePackageImports keeps exactly the imports outside the package, in order, with the default package taken as the empty name |
| ImpSort.ClassOfPackageRemoved | src/main/java/net/revelc/code/impsort/ImpSort.java:289 | an import of a class of the file's own package is removed |
| ImpSort.DotPastPackageKept | src/main/java/net/revelc/code/impsort/ImpSort.java:289 | an import with a dot past the package name, from a sub-package or a package whose name only starts with it, is kept |
| ImpSort.OtherPrefixKept | src/main/java/net/revelc/code/impsort/ImpSort.java:289 | an import that does not start with the package name is kept |
| ImpSort.KeptImports | src/main/java/net/revelc/code/impsort/ImpSort.java:109-114 | the imports that stay are a subsequence of the converted ones, and the removal fails exactly when unused imports are removed and some name has no segment |
| ImpSort.ParseFile | src/main/java/net/revelc/code/impsort/ImpSort.java:69-128 | parseFile fails on an unparsable file; a file without imports gives the whole-file empty section; otherwise the result holds the widened range as ImpSort.java:95 computes it (`ImpSort.SectionRange`), the original text of those lines, the kept imports and the grouper's section with a line break before it when lines precede and after it when lines follow |
| ImpSort.StartAsWrittenSplitsComment | src/main/java/net/revelc/code/impsort/ImpSort.java:94-95 | in the four-line example, the start of parseFile's range is line 3, so the comment attached to the first import stays in the lines kept before the section, while its trimmed text is also the import's prefix |
| ImpSort.SectionCoversFirstComment | src/main/java/net/revelc/code/impsort/ImpSort.java:94-96 | the corrected range begins before every node's own line and before the first import's attached comment |
| ImpSort.SavedLines | src/main/java/net/revelc/code/impsort/Result.java:67-86 | section lines without line breaks, ending with a non-blank line, are written as they are, with exactly one blank line on each side where the file goes on |
| ImpSort.SavedGroupedSection | src/main/java/net/revelc/code/impsort/ImpSort.java:116-124 | the grouper's lines for the kept imports replace the section in the saved file, framed by one blank line where the file goes on |
| ImpSort.OriginalSectionLines | src/main/java/net/revelc/code/impsort/ImpSort.java:105 | the original section is the range's lines each followed by a line break, so splitting it on line breaks gives those lines back less the empty ones at the end |
| JavaStrings.BlankIffTrimEmpty | src/main/java/net/revelc/code/impsort/maven/plugin/SortMojo.java:65 | trim().isEmpty() holds exactly when every character of the line is one trim() removes |
| JavaStrings.TrimEnds | src/main/java/net/revelc/code/impsort/ImpSort.java:188-192 | a trimmed string is empty or starts and ends with a character trim() keeps |
| JavaStrings.TrimIdempotent | src/main/java/net/revelc/code/impsort/ImpSort.java:188 | trimming twice is trimming once |
| JavaStrings.RemoveSpacesChars | src/main/java/net/revelc/code/impsort/Grouper.java:51 | replaceAll("\\s+", "") leaves no whitespace and removes nothing else |
| JavaStrings.SplitAllJoin | src/main/java/net/revelc/code/impsort/Result.java:75 | splitting a join on a separator the pieces do not hold gives the pieces back |
| JavaStrings.JoinSplitAll | src/main/java/net/revelc/code/impsort/Result.java:75 | joining the pieces of a split with the separator gives the string back |
| JavaStrings.Split | src/main/java/net/revelc/code/impsort/Result.java:75 | String.split: no piece holds the separator, every character of a piece is in the string, trailing empty pieces are dropped, and a string without the separator is one piece |
| JavaStrings.LastIndexOf | src/main/java/net/revelc/code/impsort/ImpSort.java:289 | lastIndexOf: -1 exactly when the character is absent, otherwise the index of its last occurrence |
| JavaStrings.CompareToZeroIff | src/main/java/net/revelc/code/impsort/maven/plugin/ImportComparator.java:66 | String.compareTo is 0 exactly on equal strings |
| JavaStrings.CompareToAntisymmetric | src/main/java/net/revelc/code/impsort/maven/plugin/ImportComparator.java:66 | swapping the strings negates compareTo |
| JavaStrings.CompareToTransitive | src/main/java/net/revelc/code/impsort/Grouper.java:98 | compareTo is a transitive order |
| JavaStrings.ToInt32 | src/main/java/net/revelc/code/impsort/maven/plugin/Import.java:75 | int arithmetic wraps to the 32-bit range, congruent to the exact value modulo 2^32 |
| Sorting.Sort | src/main/java/net/revelc/code/impsort/ImpSort.java:93 | List.sort keeps the length |
| Sorting.SortPermutation | src/main/java/net/revelc/code/impsort/ImpSort.java:93 | List.sort gives a permutation of its input |
| Sorting.SortSorted | src/main/java/net/revelc/code/impsort/ImpSort.java:93 | under a total, transitive order List.sort gives a sorted list |
| Sorting.SortStable | src/main/java/net/revelc/code/impsort/Group.java:89-93 | List.sort is stable: elements the order ties keep their encounter order |
| Sorting.SortOfSorted | src/main/java/net/revelc/code/impsort/Grouper.java:98 | sorting an already sorted list leaves it unchanged |
| Sequences.FilterSubsequence | src/main/java/net/revelc/code/impsort/ImpSort.java:266 | removeIf keeps a subsequence holding exactly the elements the test keeps |
| Sequences.FilterMultiset | src/main/java/net/revelc/code/impsort/ImpSort.java:266 | removeIf keeps every kept element as often as it occurs and drops the rest |

## Left out

- **JavaParser.** Parsing, `CompilationUnit`, `Comment.toString` and Javadoc parsing are not modelled: the parse arrives as a positioned-node datatype with comment texts. `tokensInUse` (ImpSort.java:211-254) arrives as a set of tokens, because it walks the parser's token ranges and Javadoc trees.
- **The driver in `AbstractImpSortMojo.execute`.** Left out because it is concurrency and I/O: parallel streams, counters, the hash cache, properties files and directory scanning.
- **File system calls and character sets.** `Files.readAllLines`, `Files.lines`, `Files.write`, `Files.copy`, `Files.isSameFile` and charset encoding and decoding are left out. Files are lists of lines in, and a save outcome (keep the original, or write these lines) out.
- **`System.lineSeparator()`.** It is a parameter of `LineEndings.Chars`.
- **`CheckMojo`.** Left out: it only calls `isSorted`.
- **`UnknownLineEndingException` and `EmptyFileException`.** These message-only classes are not modelled. Errors are datatype variants.
- **`isDuplicatedBy` and `combineWith`.** They are not part of this model: ImpSort.java calls them, but their source is not present. They are function parameters `dup` and `combine`. The key properties of the merge (`ImpSort.ScanKeyed`, `ImpSort.AddedKeyed`, `ImpSort.AddedKeys`, `ImpSort.ConvertFromKeys`) are proved for any duplicate test that means "same static flag and name" and any merge that keeps that key.
- **The breadth-first and depth-first comparators.** Only the tests use them, and `Grouper.java` does not define them, so they are not modelled.
- **`Parser.Result`.** It is not part of this model. `Grouping.GroupedResult` holds the fields that `Grouper.java` reads from it.
- **Object identity.** Modelled by a `same` flag (`ImportComparators.Compare` requires `same ==> o1 == o2`). `ImportComparator.compare` returns 0 for the very same object before any group comparison.
- **The `TreeSet` of `ImportOrganizer`.** It is a sequence kept in ascending comparator order. A failing comparison fails the whole add, as `TreeMap.put` does. The red-black tree itself is not modelled.
- **Java `char`.** Characters are Dafny `char`s. UTF-16 surrogate pairs are not modelled.
- **The `LanguageLevel` enum.** The parser library's enum is the set of its constant names, given as a parameter.
- **Accessors.** The plain getters (`getImport`, `getPrefix`, `getPath`, `getReason`, `getImports` and the like) are not separate members: they are datatype or class fields.
- PluginImports.Parse: the model treats every character of the line as ordinary. `^` matches only at the line's start, `$` only at its end, and `.` matches any character. That agrees with Java only on a line holding none of \n, \r, U+0085, U+2028 and U+2029. `Files.lines` never delivers the first two inside a line, but it can deliver the last three, which Java's `MULTILINE` anchors and `.` treat as line terminators. Example: on "a\u2028import b;" Java's prefix is "" but the model's is "a\u2028". Example: on "import b; x\u2028y" the model's suffix runs past the U+2028.
- ImpSort.ConvertFromKeys: states only key distinctness and the key set. It states nothing about the merged comment texts, because `combineWith` is a parameter.
- ImpSort.ParseFile: frames the grouper's text once. ImpSort.java:116-124 frames the text it gets from `groupedImports`, and the `Grouper.groupedImports` at hand (Grouper.java:111-146) takes a `Parser.Result` and frames it too. Read together literally, the two files would frame the section twice, or would not compile. The model reads ImpSort.java:116 as a call that returns the grouper's unframed text (`Grouping.SectionBody`).
- SortMojos.ProcessFile: the `sort` step only trims `before` and `after`. `SortMojo.sort` as shown writes nothing, so the model writes nothing either.

## Findings

| source | as written | input that shows it | evidently intended | confidence | as-written member | corrected member |
|---|---|---|---|---|---|---|
| src/main/java/net/revelc/code/impsort/Grouper.java:169-170 | `saveSorted` reads the `Boolean` field `isSorted` directly, and it stays null until `isSorted()` is called | a `Grouper.Result` saved without a prior `isSorted()` call: unboxing null raises NullPointerException | call `isSorted()`, as `Result.saveSorted` does at Result.java:68 | not executed | Grouping.SaveWithoutIsSorted | Grouping.GroupedResult.SaveSorted |
| src/main/java/net/revelc/code/impsort/ImpSort.java:95 | the section starts at the first node's own line, less one | a file of four lines: the package, a blank line, a comment attached to the import, then the import. The start is line 3, so the comment stays in the lines kept before the section and is also written again as the import's prefix | start at the line of the comment attached to the first node, because ImpSort.java:142-147 already writes that comment as the import's prefix | not executed; it depends on JavaParser's node ranges leaving out attached comments, which the code here does not show | ImpSort.StartAsWrittenSplitsComment | ImpSort.SectionCoversFirstComment |
