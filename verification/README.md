# A verified model of the HotSpot source-line normaliser

`clean-source.py` tidies the C/C++ files of a HotSpot checkout. It reads each
file as a Python list of lines, runs up to four fixes over that list, and writes
the file back when every fix succeeded and something changed. The fixes are:

- `fix_include_block` sorts the first block of `#include` lines and drops the
  blank lines inside it. In a `.c`/`.cpp` file it also insists that
  `#include "precompiled.hpp"` comes first.
- `squash_multiple_empty_lines` shrinks every run of blank lines to one line.
- `fix_whitespaces` strips trailing whitespace, turns each tab into two spaces,
  and writes ` for (` and ` while (` for ` for(` and ` while(`.
- `fix_include_guards` renames the `#ifndef`/`#define`/`#endif` guard of a
  header. The name comes from the header's path after `/src/hotspot/`
  (`form_include_guard_name`).

This project models these fixes, the path helpers they use and the per-file
driver in Dafny, and proves what they do. The model follows the program's shape:

- Each fix is a method over a `LineList`, a class whose `items` field is the
  caller's list. The method changes that list as the Python function does.
- Each method is proved equal to a function on `seq<string>`:
  - `FixedIncludeBlock` (an `Option`: `None` when the fix returns False);
  - `Squash`;
  - `FixAllLines`;
  - `FixedIncludeGuards` (`Refused`, `Raised` for the IndexError, or `Rewritten`).
- The properties are lemmas about those functions.
- The Python primitives the code relies on are modelled explicitly in `Text`,
  `Lines` and `Sorting`:
  - `str.strip` and `str.rstrip`, over the full `str.isspace` set;
  - `startswith`, `find` and non-overlapping `replace`;
  - list subscripts with negative indices and IndexError;
  - `list.sort` as the code-point order on strings.

Modules, one per file: `Wrappers` (Option), `Text`, `Lines`, `Sorting`,
`Paths`, `IncludeBlock`, `Squash`, `Whitespace`, `IncludeGuards`, `CleanFile`,
`Rerun` (what a second run does).

Some behaviours of the code are easy to miss. The model keeps each of them,
and a lemma states it:

- **A second run of the guard fix is not always harmless.** It changes nothing,
  unless the `#define` line is the last line of the file.
  - Then the closing line number stays -1, so `lines[-1]` is the `#define`
    line, and the `#endif` line overwrites it.
  - A second run then refuses the file.
  - `IncludeGuards.GuardsIdempotent` proves the general case.
    `IncludeGuards.GuardsNotIdempotent` and `IncludeGuards.DefineOnLastLine`
    prove the exception.
- **The include-block fix, the squash and the whitespace fix are each
  idempotent; the chain of fixes is not.**
  - The include-block fix, the squash and the whitespace fix each change
    nothing on their own output (`IncludeBlock.IncludeBlockIdempotent`,
    `Squash.SquashIdempotent`, `Whitespace.FixAllLinesIdempotent`).
  - The whitespace fix runs after the sort and rewrites ` for(` as ` for (`.
    Because `(` sorts after a blank, this can reverse the order of two include
    lines.
  - A second run with `-i -w` then sorts them back and writes the file again
    (`Rerun.CleanNotIdempotent`).
- **The guard fix can overwrite a line that is not a guard line.** Any line
  number the scan leaves at -1 denotes the last line.
  - A header with no `#ifndef ` line, or whose `#ifndef ` line is its last line,
    is not refused. Its last line becomes the `#endif` line
    (`IncludeGuards.UnguardedLastLine`).
  - A header with a well-formed `#ifndef`/`#define` pair whose last non-blank
    line does not start with `#endif` finds no closing line. This happens with a
    comment after the `#endif` or an indented `#endif`. The last line is then
    overwritten with the `#endif` line, and the old `#endif` line stays where
    it was (`IncludeGuards.TrailingLineOverwritten`).
- **An empty header stops the whole script.**
  - The other fixes report failure through their result ("Returns True if
    successful, False if not", clean-source.py:73, :134, :156).
  - The guard fix, given an empty header whose path yields a guard name,
    raises IndexError instead. Nothing catches it (`CleanFile.CrashedWhen`).
- **Loop keywords need a blank before them.** The replacement looks for
  ` for(` and ` while(` with a leading blank, so `for(` at the very start of a
  line is left as it is. A line such as `for(;;) {` comes back unchanged
  (`Whitespace.FixLineClean`).
- **The precompiled check strips first.** The first include line is compared
  with `#include "precompiled.hpp"` after `strip()`, not literally.

## Model

| member | source | states |
|---|---|---|
| Text.IsSpace | clean-source.py:64 | definition of the `str.isspace()` character set that `strip()` and `rstrip()` (:64, :160) remove: the ASCII controls 0x09-0x0D and 0x1C-0x1F, the blank, and the Unicode spaces 0x85, 0xA0, 0x1680, 0x2000-0x200A, 0x2028, 0x2029, 0x202F, 0x205F, 0x3000 |
| Text.UpperAll | clean-source.py:174 | definition of `f.upper()`, character by character, mapping the ASCII letters a-z only |
| Text.RStrip | clean-source.py:160 | definition of `str.rstrip()`; Text.RStripShape states its result |
| Text.Strip | clean-source.py:62-66 | definition of `str.strip()`; Text.StripEmptyIff and Text.StripKeepsPrefix state its results |
| Text.Replace | clean-source.py:161-163 | definition of `str.replace`, left to right without overlaps; the Replace lemmas below state its results |
| Text.RStripShape | clean-source.py:160 | `rstrip()` keeps a prefix of the line that does not end in whitespace, and every character it drops is whitespace |
| Text.StripEmptyIff | clean-source.py:62-66 | `strip()` leaves the empty string exactly when every character is whitespace |
| Text.StripKeepsPrefix | clean-source.py:84 | a leading text that starts and ends in non-whitespace is still a prefix after `strip()`, so an `#include`/`#define` line passes the stripped `startswith` test |
| Text.Find | clean-source.py:170 | `str.find`: -1 exactly when the pattern occurs nowhere, otherwise the first position where it occurs |
| Text.ReplaceCharsFrom | clean-source.py:161-163 | every character of a `replace` result comes from the input or from the replacement |
| Text.ReplaceRemovesChar | clean-source.py:161 | replacing a character by text that does not hold it removes every occurrence of it |
| Text.ReplaceAbsent | clean-source.py:161-163 | `replace` of a pattern that does not occur returns the input unchanged |
| Text.ReplaceKeepsLastNonSpace | clean-source.py:160-164 | the replacements keep a line non-empty and ending in non-whitespace after `rstrip()` |
| Text.ReplaceCharPointwise | clean-source.py:175-176 | replacing one character by another keeps the length and maps the string character by character |
| Text.ReplaceLeavesNone | clean-source.py:162-163 | after `replace(' for(', ' for (')` no ` for(` remains, and `replace(' while(', ' while (')` leaves no ` while(` and creates no ` for(` |
| Text.LastIndexOf | clean-source.py:29 | the last position of a character, or -1 exactly when it does not occur; no later position holds it |
| Lines.LineList.constructor | clean-source.py:294 | `input_lines.copy()`: a new list holding the lines read |
| Lines.ListIndex | clean-source.py:208-210 | a Python subscript is valid exactly for -n <= p < n, and denotes p or n + p |
| Lines.SetItem | clean-source.py:208-210 | `lines[p] = v` raises IndexError exactly when p is out of range and then changes nothing; otherwise it writes exactly that one element |
| Lines.IsNonemptyLine | clean-source.py:62-66 | definition of `is_nonempty_line`: `strip()` leaves something |
| Lines.NonBlank | clean-source.py:117 | definition of `list(filter(is_nonempty_line, …))`: the non-blank lines in order, as many as the input holds |
| Lines.NonSpaceStartIsNonempty | clean-source.py:62-66 | a line starting with a non-whitespace character is non-empty for `is_nonempty_line` |
| Lines.NonBlankHasNoBlank | clean-source.py:117 | `filter(is_nonempty_line, …)` leaves no blank line |
| Lines.NonBlankMultiset | clean-source.py:117 | the filter keeps every non-blank line as often as it occurred and drops every blank one |
| Lines.NonBlankOfNonBlank | clean-source.py:117 | the filter leaves a list without blank lines as it is |
| Sorting.StrLe | clean-source.py:120 | definition of Python's `<=` on `str`, the order `list.sort()` uses: lexicographic by code point, a prefix first |
| Sorting.Sort | clean-source.py:120 | definition of `list.sort()`, by insertion; Sorting.SortSpec states its result |
| Sorting.StrLeTotal | clean-source.py:120 | any two strings are ordered one way or the other |
| Sorting.StrLeAntisymmetric | clean-source.py:120 | two strings ordered both ways are equal |
| Sorting.StrLeTransitive | clean-source.py:120 | the string order is transitive |
| Sorting.InsertSorted | clean-source.py:120 | inserting into a sorted list keeps it sorted and adds exactly that element |
| Sorting.SortSpec | clean-source.py:120 | `list.sort()`: the result is sorted, a permutation of the input, of the same length |
| Sorting.SortedPermutationUnique | clean-source.py:120 | two sorted permutations of each other are equal, so the sorted order is unique |
| Sorting.SortSorted | clean-source.py:120 | sorting a sorted list changes nothing |
| Paths.FileName | clean-source.py:29 | the final path component holds no '/' and ends the path |
| Paths.FileNameValue | clean-source.py:29 | the final component is the whole path or follows a '/', so it is exactly the text after the last '/' |
| Paths.Suffix | clean-source.py:29 | `pathlib` suffix: empty, or a '.' followed by at least one character and no further '.' or '/', ending the path |
| Paths.SuffixValue | clean-source.py:29 | the suffix is empty exactly when the final component is empty, ends in '.', or has no '.' after its first character; otherwise it is a proper tail of that component, the one from its last '.' on |
| Paths.HasExtension | clean-source.py:28-33 | definition of `has_extension`: the suffix is one of the given extensions |
| Paths.IsSourceFile | clean-source.py:36-37 | definition of `is_source_file`: the suffix is `.cpp` or `.c` |
| Paths.IsHeaderFile | clean-source.py:40-41 | definition of `is_header_file`: the suffix is `.hpp` or `.h` |
| Paths.FormIncludeGuardName | clean-source.py:169-177 | definition of `form_include_guard_name`; Paths.GuardNameChars states its result |
| Paths.SuffixOfName | clean-source.py:28-33 | a path made of a non-empty stem and an extension has exactly that extension as its suffix |
| Paths.SourceAndHeaderDisjoint | clean-source.py:36-41 | no file is both a source file and a header |
| Paths.ClassifiedByEnding | clean-source.py:36-41 | a stem plus `.c`/`.cpp` is a source file and not a header, and a stem plus `.h`/`.hpp` is a header and not a source file |
| Paths.ClassifiedPathEnds | clean-source.py:36-41 | a source file's path ends in `.c` or `.cpp`, a header's in `.h` or `.hpp` |
| Paths.GuardNameChars | clean-source.py:169-177 | the guard name is "" when the path lacks `/src/hotspot/`; otherwise it has one character for each character after the first occurrence, upper-cased, with '.' and '/' as '_' |
| Paths.GuardNameHasNoDotOrSlash | clean-source.py:169-177 | a guard name contains neither '.' nor '/' |
| IncludeBlock.IsInclude | clean-source.py:84-88 | definition of the test `line.strip().startswith('#include')` |
| IncludeBlock.FirstInclude | clean-source.py:83-86 | the first include line at or after a position, with no include line before it |
| IncludeBlock.NextNonBlank | clean-source.py:87-93 | the first non-blank line at or after a position, with only blank lines before it |
| IncludeBlock.BlockLast | clean-source.py:87-93 | the last include line of the block: no code line before it, and no include line after it across blank lines only |
| IncludeBlock.IncludeSpan | clean-source.py:76-94 | None exactly when no stripped line starts with `#include`; otherwise the block from the first include line to the last include line before the first line that is neither an include nor blank |
| IncludeBlock.SpanLastUnique | clean-source.py:76-94 | a block has only one possible last line |
| IncludeBlock.IncludeSpanExact | clean-source.py:76-94 | the scan finds a given span exactly when that span is the include block, so trailing blank lines stay outside it |
| IncludeBlock.ScanIncludeSection | clean-source.py:76-94 | the scan loop ends with both line numbers -1 exactly when there is no include line, and otherwise with the block's first and last line |
| IncludeBlock.FixedIncludeBlock | clean-source.py:74-129 | definition of what `fix_include_block` does to the list, None when it returns False; the IncludeBlock lemmas state its results |
| IncludeBlock.FixIncludeBlock | clean-source.py:74-129 | returns True exactly when `IncludeBlock.FixedIncludeBlock` succeeds; then the list becomes its result, and otherwise the list is left as it was |
| IncludeBlock.IncludeBlockFails | clean-source.py:96-112 | the fix fails exactly for a `.c`/`.cpp` file with no include line, or whose first include line, stripped, is not `#include "precompiled.hpp"`; a header without include lines succeeds unchanged |
| IncludeBlock.SortedBlockShape | clean-source.py:108-124 | the block written back holds only include lines, as many as the block had non-blank lines |
| IncludeBlock.SortedTail | clean-source.py:113-124 | the first line followed by the other non-blank lines, sorted, holds only include lines, one per non-blank line after the first |
| IncludeBlock.IncludeBlockRewrites | clean-source.py:103-127 | on success the lines before and after the block are kept and the block is replaced by its non-blank lines, sorted and a permutation of them, behind the original precompiled line in a source file; the list shrinks by the number of blank lines in the block |
| IncludeBlock.RewrittenIncludeSpan | clean-source.py:127 | after the splice, the include block of the new list is exactly the block written back |
| IncludeBlock.BlockIsFixpoint | clean-source.py:113-124 | a block already in written-back form comes out of the filter and sort unchanged |
| IncludeBlock.IncludeBlockIdempotent | clean-source.py:74-129 | running the fix on its own result succeeds and changes nothing |
| Squash.Dropped | clean-source.py:139-141 | definition of the skip: a blank line is dropped exactly when the input line before it is blank, kept or not, which is what `had_empty_line` records |
| Squash.Squash | clean-source.py:135-149 | definition of the list `squash_multiple_empty_lines` leaves; the Squash lemmas state its results |
| Squash.SquashMultipleEmptyLines | clean-source.py:135-149 | returns True and replaces the list by its squashed form |
| Squash.SquashLast | clean-source.py:135-149 | the result of a non-empty list is non-empty, and its last line is blank exactly when the input's last line is |
| Squash.SquashNoAdjacentBlanks | clean-source.py:135-149 | the result has no two consecutive blank lines |
| Squash.SquashKeepsNonBlank | clean-source.py:135-149 | the non-blank lines of the result are exactly those of the input, in order |
| Squash.SquashIsSubsequence | clean-source.py:135-149 | the result is the input with some lines left out |
| Squash.SquashKeepsOneBlankPerRun | clean-source.py:135-149 | the result holds one blank line for each run of blank lines in the input |
| Squash.SquashFixpoint | clean-source.py:135-149 | a list without two consecutive blank lines is left unchanged |
| Squash.SquashIdempotent | clean-source.py:135-149 | squashing twice gives the same list as squashing once |
| Whitespace.FixWhitespaces | clean-source.py:157-166 | returns True and replaces each line by its fixed form, one for one |
| Whitespace.FixLine | clean-source.py:160-164 | definition of one output line of `fix_whitespaces`; the FixLine lemmas state its results |
| Whitespace.FixAllLines | clean-source.py:158-165 | the line count is preserved |
| Whitespace.FixLineNoTab | clean-source.py:160-164 | no output line contains a tab |
| Whitespace.FixLineNoTrailingSpace | clean-source.py:160-164 | every output line ends in "\n", and the character before it, if any, is not whitespace |
| Whitespace.FixLineClean | clean-source.py:160-164 | a line ending in "\n", with no tab, no whitespace before the "\n" and no ` for(` or ` while(`, is left unchanged |
| Whitespace.FixLineNoLoopParen | clean-source.py:160-164 | no output line holds ` for(` or ` while(` |
| Whitespace.FixLineIdempotent | clean-source.py:160-164 | fixing a fixed line changes nothing |
| Whitespace.FixAllLinesIdempotent | clean-source.py:157-166 | running `fix_whitespaces` on its own result changes nothing |
| Whitespace.FixLineKeepsBlankness | clean-source.py:160-164 | a line is blank after the fix exactly when it was blank before |
| Whitespace.FixAllKeepsNoAdjacentBlanks | clean-source.py:157-166 | the fix creates no new pair of consecutive blank lines |
| Whitespace.FixAllLinesShape | clean-source.py:157-166 | every line of the result ends in "\n" and holds no tab |
| IncludeGuards.IsIfndef | clean-source.py:194 | definition of the test `line.startswith('#ifndef ')`, on the line as it is |
| IncludeGuards.IsDefine | clean-source.py:197 | definition of the test `line.strip().startswith('#define')` |
| IncludeGuards.IsEndif | clean-source.py:202 | definition of the test `line.startswith('#endif')`, on the line as it is |
| IncludeGuards.EndifAt | clean-source.py:201-205 | definition of the closing line number the scan settles on: the last non-blank line after the `#define` line if it starts with `#endif`, otherwise -1 |
| IncludeGuards.Assign | clean-source.py:208-210 | definition of one write `lines[p] = v`: None for IndexError, otherwise the list with position p, or n + p for a negative p, replaced |
| IncludeGuards.FirstIfndef | clean-source.py:194-195 | the first line starting with `#ifndef ` at or after a position, with none before it |
| IncludeGuards.LastNonBlank | clean-source.py:201-205 | the last non-blank line after the `#define` line, or -1; every line after it is blank |
| IncludeGuards.ScanGuard | clean-source.py:192-206 | the three line numbers lie between -1 and the list's length |
| IncludeGuards.ScanGuardLines | clean-source.py:183-206 | the scan loop reports a malformed guard exactly when the scan function refuses, and otherwise its three line numbers |
| IncludeGuards.FixedIncludeGuards | clean-source.py:181-212 | definition of how `fix_include_guards` ends: refused (False), IndexError, or the rewritten list; the IncludeGuards lemmas state its results |
| IncludeGuards.FixIncludeGuards | clean-source.py:181-212 | returns False and changes nothing when refused, raises IndexError and changes nothing on an empty list, and otherwise returns True with the list rewritten as specified |
| IncludeGuards.GuardLineKinds | clean-source.py:194-210 | the written `#ifndef`, `#define` and `#endif` lines pass the scan's own tests as what they are; the `#endif` line passes neither other test and is non-blank |
| IncludeGuards.GuardsFailure | clean-source.py:188-199 | returns False exactly when the path yields no name, or the line after the first `#ifndef ` line is not a `#define` line; raises IndexError exactly on an empty list with a name |
| IncludeGuards.ScanGuardRefuses | clean-source.py:196-199 | the scan refuses exactly when the line after the first `#ifndef ` line is not a `#define` line |
| IncludeGuards.WritesSucceed | clean-source.py:208-210 | on a non-empty list none of the three writes raises |
| IncludeGuards.ScanGuardFinds | clean-source.py:192-206 | `ifdef` is the first `#ifndef ` line, or -1 when there is none; `def` is the next line; `endif`, when not -1, is an `#endif` line after it followed only by blank lines |
| IncludeGuards.ScanGuardNoEndif | clean-source.py:201-205 | when no closing line is found, every `#endif` line after the `#define` line is followed by a non-blank line |
| IncludeGuards.GuardsRewrite | clean-source.py:208-210 | on success the length is kept; only the three positions (-1 meaning the last line) change, holding `#endif // N`, `#define N` and `#ifndef N`, where a later write to the same position wins |
| IncludeGuards.WellFormedGuard | clean-source.py:181-212 | a header with an `#ifndef `/`#define` pair and a trailing `#endif` gets exactly those three lines renamed |
| IncludeGuards.TrailingLineOverwritten | clean-source.py:193-210 | with a well-formed `#ifndef`/`#define` pair and a last line that is non-blank but not `#endif`, the pair is renamed and the last line is overwritten by the `#endif` line |
| IncludeGuards.UnguardedLastLine | clean-source.py:193-210 | a non-empty file with no `#ifndef ` line, or with its only one on the last line, is not refused: its last line is overwritten by the `#endif` line and nothing else changes |
| IncludeGuards.GuardsIdempotent | clean-source.py:181-212 | a second run on the result returns True and changes nothing, unless the `#define` line was the last line |
| IncludeGuards.GuardsNotIdempotent | clean-source.py:201-210 | when the `#define` line is the last line, a second run on the result returns False |
| IncludeGuards.DefineOnLastLine | clean-source.py:201-210 | a two-line header `#ifndef X`/`#define X` under `/src/hotspot/a.h` becomes `#ifndef A_H`/`#endif // A_H` |
| CleanFile.Fixes | clean-source.py:297-308 | definition of the enabled fixes run in the script's order, each whatever the ones before returned, with the AND of their results |
| CleanFile.Decide | clean-source.py:312-325 | definition of the decision at the end of the loop body |
| CleanFile.Clean | clean-source.py:294-325 | definition of what the driver does with one file; the CleanFile lemmas state its results |
| CleanFile.CleanOneFile | clean-source.py:294-325 | the loop body for one file, run in place on a copy of the lines, ends with the outcome `CleanFile.Clean` gives: crashed, unclear, unchanged, dry run, or written with the fixed lines |
| CleanFile.WriteDecision | clean-source.py:312-325 | skip on failure, leave an unchanged file alone, and otherwise write unless it is a dry run |
| CleanFile.FixesSucceeded | clean-source.py:297-308 | the AND of the results holds only when every enabled fix that can fail returned True |
| CleanFile.WrittenOnlyWhen | clean-source.py:312-325 | a file is written only when every enabled fix succeeded, the output differs from the input and dry run is off |
| CleanFile.DryRunWritesNothing | clean-source.py:317-325 | a dry run never writes, and it reports a change exactly for the files a normal run writes |
| CleanFile.GuardsOnlyForHeaders | clean-source.py:306-308 | for a file that is not `.h`/`.hpp`, neither the absolute path nor the guard switch changes the outcome |
| CleanFile.BlockFailsOnlyForSources | clean-source.py:96-101 | the include-block fix fails only on source files, so never on a header |
| CleanFile.UnclearWhen | clean-source.py:297-315 | the file is skipped as unclear exactly when the include-block fix or the guard fix returned False |
| CleanFile.CrashedWhen | clean-source.py:306-308 | the script stops with IndexError exactly on an empty header whose absolute path yields a guard name, when the guard fix is enabled |
| CleanFile.BeforeGuardsEmpty | clean-source.py:297-305 | the fixes before the guard fix leave an empty list exactly when the input is empty |
| CleanFile.IncludeBlockKeepsSomeLine | clean-source.py:127 | the include-block fix never empties a non-empty list |
| CleanFile.AllFixesShape | clean-source.py:297-308 | with all fixes on, a written file has no two consecutive blank lines and every line ends in "\n"; a written file that is not a header also holds no tab |
| CleanFile.GuardsKeepShape | clean-source.py:208-210 | the guard fix keeps a list free of consecutive blank lines and of lines without a final "\n" |
| Rerun.CleanNotIdempotent | clean-source.py:297-325 | with `-i -w`, a non-source file holding `#include"x for(a"` and `#include"x for b"` is written with the two lines swapped and the first fixed; a second run on that output swaps them back and writes again |
| Rerun.RunSwaps | clean-source.py:297-325 | with `-i -w`, a non-source file of two include lines, the second sorting first, is written as the two lines swapped and whitespace-fixed, when that differs |
| Rerun.SwapTwoIncludes | clean-source.py:74-129 | `fix_include_block` on two include lines, the second sorting first, swaps them |
| Rerun.SortTwo | clean-source.py:120 | sorting two lines, the second sorting first, swaps them |

## Left out

- Argument parsing, `find_files_to_process`, `should_process_this_file`, the
  loop over files, reading and writing files, and the `trc`/`verbose` messages
  (clean-source.py:44-59, 214-292) are not modelled. The driver gets the lines
  read and the file's path as inputs. It returns what it would write.
- `pathlib.Path(f).absolute()` is not modelled. The absolute path is a
  parameter of `CleanFile.Clean`.
- Paths.FileName, Paths.Suffix: the value of each is pinned by the lemmas
  Paths.FileNameValue and Paths.SuffixValue rather than by their own
  contracts, which state only the result's shape. Stating it in the function
  contracts makes every proof that classifies a file much more expensive.
- Paths.Suffix: does not model `pathlib`'s normalisation of the path (trailing
  slashes, `.` components). It takes the text after the last '/' as the file
  name, which settles the `.c`/`.cpp`/`.h`/`.hpp` classification of ordinary
  paths.
- Text.UpperAll: upper-cases ASCII letters only. Python's `str.upper` also maps
  other letters, and some of them to several characters. So the length stated
  by Paths.GuardNameChars holds for the ASCII model only.
- The other scripts of the repository (`run_builds.py`,
  `create-all-codelines.py`, `upload-patch.py`) are not part of this model. They
  only drive external tools (hg, git, configure/make, webrev, rsync) and the
  file system.
