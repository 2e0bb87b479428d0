# Table detection in extracted PDF text, modelled in Dafny

This project models the table detector of `PdfService`
(`src/pdf/pdf.service.ts`, lines 49–228). The detector takes the plain text
of a document, which has no layout information. It cuts the text into lines,
drops the blank ones, and runs two independent finders:

* the **gap finder** (`findPotentialTables`) scans for a header-shaped line
  (three or more tokens separated by runs of two or more whitespace
  characters) followed by row-shaped lines (two or more such tokens). Each
  block it closes goes to `extractTable`. That extractor tries three
  separators (a run of two or more whitespace characters, a tab, a pipe) and
  keeps the first attempt with the most headers;
* the **column finder** (`findColumnAlignedTables`) takes every offset where
  one of the first ten lines starts a token. It keeps the lines with a
  non-space character at all but at most one of those offsets, and cuts the
  kept lines at the offsets into one table.

The detector returns the tables of both finders that have headers and rows,
the gap finder's tables first.

The model has one module per part of the source:

| module | file | what it holds |
|---|---|---|
| `JsText` | `js_text.dfy` | the JavaScript string operations the detector uses: `\s`, `trim`, `split` on a character, `split(/\s{2,}/)`, `slice` |
| `Tables` | `tables.dfy` | `PdfTable` and `PdfTableRow`, and the `forEach` that fills a row object |
| `LineClassifier` | `line_classifier.dfy` | `isPotentialHeader` and `isTableRow` |
| `Extractor` | `extractor.dfy` | `extractTable` |
| `GapFinder` | `gap_finder.dfy` | `findPotentialTables` |
| `ColumnPositions` | `column_positions.dfy` | `detectColumnPositions` and `countColumnAlignments` |
| `ColumnTables` | `column_tables.dfy` | `splitLineByPositions`, `extractTableWithColumns` and `findColumnAlignedTables` |
| `Assembler` | `assembler.dfy` | `detectTablesAdvanced` |

Each loop of the source is a method with a `for` loop. Each such
method is proved equal to a specification function, and the properties are
lemmas about those functions. The predicates, the filters and the spreads of
the source are functions.

Two details of the code that are easy to miss:

* Column starts and column hits test only the space character `' '`, not
  whitespace in general. A tab counts as text there.
* The row objects of a column table are keyed by the raw header segments,
  padding included. The reported headers are the trimmed segments. So a row
  key differs from its header whenever the header segment ends in spaces.
  `ColumnTables.ColumnTableShape` states both facts.

## Model

| member | source | states |
|---|---|---|
| `JsText.IsWhite` | src/pdf/pdf.service.ts:185 | the definition of `\s`, which is also the set `trim` removes at line 201: the ECMAScript WhiteSpace and LineTerminator characters |
| `JsText.Trim` | src/pdf/pdf.service.ts:201 | `trim` keeps one slice of the string and cuts only whitespace before and after it; the result has no whitespace at either end, and it is empty exactly when the input is all whitespace |
| `JsText.TrimStart` | src/pdf/pdf.service.ts:201 | the result is a suffix of the input, what it drops is all whitespace, and it starts with a non-whitespace character or is empty |
| `JsText.TrimEnd` | src/pdf/pdf.service.ts:201 | the result is a prefix of the input, what it drops is all whitespace, and it ends with a non-whitespace character or is empty |
| `JsText.TrimOfTrimmed` | src/pdf/pdf.service.ts:201 | trimming a string that has no whitespace at either end changes nothing |
| `JsText.TrimAll` | src/pdf/pdf.service.ts:169 | `.map(h => h.trim())` keeps the length and trims each element |
| `JsText.SplitAt` | src/pdf/pdf.service.ts:51 | `split` on one character gives at least one piece, and no piece holds the separator |
| `JsText.JoinSplitAt` | src/pdf/pdf.service.ts:51 | joining the pieces of a split with the separator gives back the text |
| `JsText.SplitAtJoin` | src/pdf/pdf.service.ts:51 | splitting a join of separator-free pieces gives back the pieces |
| `JsText.JoinAppend` | src/pdf/pdf.service.ts:51 | joining two lists of lines is joining each with one separator between them |
| `JsText.LeadingWhite` | src/pdf/pdf.service.ts:185 | the length of the leading whitespace run: all of it is whitespace and the next character is not |
| `JsText.SplitWhiteRuns` | src/pdf/pdf.service.ts:185 | `split(/\s{2,}/)` gives at least one piece, none holding two whitespace characters in a row, and the first piece starts where the line does (the round trip and the maximal cuts are the next two lemmas) |
| `JsText.SplitWhiteRunsChars` | src/pdf/pdf.service.ts:185 | every character of every piece comes from the line |
| `JsText.SplitWhiteRunsNoGap` | src/pdf/pdf.service.ts:185 | a line with no two whitespace characters in a row is one piece |
| `JsText.WhiteRuns` | src/pdf/pdf.service.ts:185 | the separators the split cuts out, left to right, each a run of two or more whitespace characters |
| `JsText.SplitWhiteRunsJoin` | src/pdf/pdf.service.ts:185 | the split loses nothing: there is one cut run fewer than pieces, and putting the runs back between the pieces gives the line |
| `JsText.SplitWhiteRunsMaximal` | src/pdf/pdf.service.ts:185 | each cut takes the whole whitespace run: a piece before a cut does not end with whitespace and a piece after a cut does not start with it |
| `JsText.SplitWhiteRunsInner` | src/pdf/pdf.service.ts:185 | no piece between two cuts is empty, so a long whitespace run is cut once, not in two; with the round trip and the two lemmas before it this fixes the split |
| `JsText.Slice` | src/pdf/pdf.service.ts:179 | `slice(start, end)` is empty when the range is empty or starts past the end, the exact substring inside the string, and the tail when `end` runs past it |
| `Tables.ZipRow` | src/pdf/pdf.service.ts:208-210 | the row has exactly the headers as keys, and each header whose last occurrence is at index `i` maps to token `i`, or to `''` when the line has fewer tokens |
| `Tables.CellAt` | src/pdf/pdf.service.ts:209 | `values[index] \|\| ''`: a missing token reads as the empty string (the definition; the column extractor's `?.trim() \|\| ''` at line 162 reads the same once the cells are trimmed) |
| `Tables.BuildRow` | src/pdf/pdf.service.ts:206-210 | the `forEach` assignment loop builds exactly that row |
| `Tables.RowsBy` | src/pdf/pdf.service.ts:204-213 | one row per body line |
| `Tables.RowsByAt` | src/pdf/pdf.service.ts:204-213 | row `i` is built from body line `i` and no other line |
| `Tables.RowsByCells` | src/pdf/pdf.service.ts:204-213 | one row per body line, each with an entry for exactly the keys, and under each key the cut cell of its line at the key's last index |
| `Tables.RowsBySnoc` | src/pdf/pdf.service.ts:212 | `rows.push(row)` for the next line extends the rows of the lines before it |
| `LineClassifier.KeepNonBlank` | src/pdf/pdf.service.ts:185 | `.filter(p => p.trim())` keeps no piece that is all whitespace and never adds pieces |
| `LineClassifier.KeepNonBlankMembers` | src/pdf/pdf.service.ts:185 | a piece is kept exactly when it is in the input and is not all whitespace |
| `LineClassifier.KeepNonBlankAppend` | src/pdf/pdf.service.ts:51 | the filter of lines 51 and 185 works element by element: filtering a concatenation concatenates the filtered parts, so input order and repeats are kept |
| `LineClassifier.KeepNonBlankSingle` | src/pdf/pdf.service.ts:51 | on one element the filter keeps it exactly when it is not all whitespace |
| `LineClassifier.Tokens` | src/pdf/pdf.service.ts:185 | the definition: the pieces of `split(/\s{2,}/)` that are not all whitespace |
| `LineClassifier.IsPotentialHeader` | src/pdf/pdf.service.ts:184-187 | the definition: three tokens or more |
| `LineClassifier.IsTableRow` | src/pdf/pdf.service.ts:189-192 | the definition: two tokens or more |
| `LineClassifier.HeaderIsRow` | src/pdf/pdf.service.ts:184-192 | every potential header is also a table row |
| `LineClassifier.BlankIsNeither` | src/pdf/pdf.service.ts:184-192 | a line of whitespace only, the empty line included, has no tokens and is neither a header nor a row |
| `LineClassifier.TableRowShape` | src/pdf/pdf.service.ts:189-192 | `isTableRow` holds exactly when some non-whitespace character is followed, later in the line, by a non-whitespace character right after two whitespace characters |
| `LineClassifier.PotentialHeaderShape` | src/pdf/pdf.service.ts:184-187 | `isPotentialHeader` holds exactly when a non-whitespace character is followed, later in the line, by two non-whitespace characters that each come right after two whitespace characters |
| `Extractor.Split` | src/pdf/pdf.service.ts:195-205 | the definition of `split(separator)` for each of the three separators of line 195, as used at lines 201 and 205 |
| `Extractor.DropEmpty` | src/pdf/pdf.service.ts:201 | `.filter(h => h)` keeps only non-empty strings taken from the input |
| `Extractor.DropEmptyMembers` | src/pdf/pdf.service.ts:201 | a string is kept exactly when it is in the input and is not empty |
| `Extractor.DropEmptyAppend` | src/pdf/pdf.service.ts:201 | the filter works element by element: filtering a concatenation concatenates the filtered parts, so the headers keep the order of the line |
| `Extractor.DropEmptySingle` | src/pdf/pdf.service.ts:201 | on one element the filter keeps it exactly when it is not empty |
| `Extractor.HeaderCells` | src/pdf/pdf.service.ts:201 | the definition: the non-empty trimmed pieces of the first line's split |
| `Extractor.HeaderCellsClean` | src/pdf/pdf.service.ts:201 | every header token is non-empty and trimmed |
| `Extractor.ValueCells` | src/pdf/pdf.service.ts:205 | one value per piece of the split, empty pieces kept so that positions line up with the headers, each trimmed |
| `Extractor.Attempt` | src/pdf/pdf.service.ts:200-214 | the definition of one `try` body: `None` where `lines[0].split` throws on an empty block, else the headers and the rows |
| `Extractor.Attempts` | src/pdf/pdf.service.ts:195-199 | one attempt per separator, in the order whitespace run, tab, pipe |
| `Extractor.AttemptShape` | src/pdf/pdf.service.ts:200-214 | an attempt is skipped exactly on an empty block; otherwise its headers are the trimmed non-empty tokens of the first line, and there is one row per later line whose keys are exactly the headers and whose entry for a header is that line's trimmed token at the header's last index, or `''` past the last token |
| `Extractor.Better` | src/pdf/pdf.service.ts:215-218 | the comparison takes the attempt exactly when it has strictly more headers than the best table, and keeps the best table otherwise, a tie included |
| `Extractor.BestOf` | src/pdf/pdf.service.ts:196-222 | the definition: the comparison folded over the attempts from the empty table |
| `Extractor.ExtractedTable` | src/pdf/pdf.service.ts:194-228 | the definition: the best of the three attempts |
| `Extractor.BestOfIsFirstMaximal` | src/pdf/pdf.service.ts:215-218 | the kept attempt has at least as many headers as every attempt and more than every earlier one; with no headers the result is the empty table |
| `Extractor.ExtractStep` | src/pdf/pdf.service.ts:199-222 | one turn of the separator loop compares that separator's attempt with the best so far |
| `Extractor.ExtractedTableShape` | src/pdf/pdf.service.ts:194-228 | the headers are trimmed and non-empty; without headers there are no rows; with headers the table is the attempt of one separator, so there is one row per line after the first, its keys are exactly the headers, and its entry for a header is that line's trimmed token under that separator at the header's last index |
| `Extractor.ExtractTable` | src/pdf/pdf.service.ts:194-228 | the loop over the separators returns the first attempt with the most headers |
| `Extractor.TrySeparator` | src/pdf/pdf.service.ts:200-221 | the `try` block replaces the best table with this separator's attempt exactly when the attempt has more headers; an empty block throws and leaves the best table as it was |
| `Extractor.BuildRows` | src/pdf/pdf.service.ts:204-213 | the row loop builds one row per body line |
| `GapFinder.ClosesBlock` | src/pdf/pdf.service.ts:77 | the definition of the closing test: blank, or not a table row |
| `GapFinder.ClosesBlockIsNotRow` | src/pdf/pdf.service.ts:77 | the blank test is subsumed: a line ends a block exactly when it is not a table row |
| `GapFinder.OpenerDoesNotClose` | src/pdf/pdf.service.ts:70-77 | a line that can open a block can never close one |
| `GapFinder.KindOf` | src/pdf/pdf.service.ts:70-77 | the definition: a line's two tests, `isPotentialHeader` at line 70 and the closing test at line 77 |
| `GapFinder.Kinds` | src/pdf/pdf.service.ts:69-77 | each line is classified by itself alone, in order |
| `GapFinder.Emit` | src/pdf/pdf.service.ts:78 | closing a block emits at most one block, the one from its header line to the closing line |
| `GapFinder.BlockLines` | src/pdf/pdf.service.ts:72-87 | a block inside the input is the run of lines between its bounds |
| `GapFinder.OpenStateExtend` | src/pdf/pdf.service.ts:86-88 | a line that does not close the open block extends it |
| `GapFinder.OpenStateStart` | src/pdf/pdf.service.ts:70-73 | a header line outside a table opens a one-line block |
| `GapFinder.ScanBlocks` | src/pdf/pdf.service.ts:64-100 | the definition of the block scan over classified lines, one line per step, with the open block's start as state |
| `GapFinder.GapBlocks` | src/pdf/pdf.service.ts:64-100 | the definition: the scan from the first line outside a table |
| `GapFinder.ScanBlocksShape` | src/pdf/pdf.service.ts:64-100 | every emitted block starts at a header, has two lines or more, holds no closing line, ends at a closing line or the end of input, and the blocks come in order with a closing line between them |
| `GapFinder.GapBlocksShape` | src/pdf/pdf.service.ts:64-100 | the same for the whole input |
| `GapFinder.WellFormedLines` | src/pdf/pdf.service.ts:69-97 | in terms of the lines: the first line is a potential header, the others are non-blank table rows, and the line after the block is neither a row nor a header |
| `GapFinder.Candidates` | src/pdf/pdf.service.ts:79 | one extracted table per block, in block order |
| `GapFinder.WithHeaders` | src/pdf/pdf.service.ts:80-82 | the headers test never adds tables |
| `GapFinder.WithHeadersMembers` | src/pdf/pdf.service.ts:80-82 | a table is kept exactly when it has headers |
| `GapFinder.GapTables` | src/pdf/pdf.service.ts:64-100 | the definition of what findPotentialTables returns: the tables the scan flushes as it goes |
| `GapFinder.Closed` | src/pdf/pdf.service.ts:78-83 | a closed block contributes at most one table |
| `GapFinder.QuietStep` | src/pdf/pdf.service.ts:70-88 | a line that emits nothing leaves the tables still to come unchanged |
| `GapFinder.CloseStep` | src/pdf/pdf.service.ts:77-85 | a closing line emits the open block's table and the scan goes on outside a table |
| `GapFinder.EndStep` | src/pdf/pdf.service.ts:92-97 | at the end of input the open block is flushed |
| `GapFinder.BlockTablesFromBlocks` | src/pdf/pdf.service.ts:78-96 | every table of the scan has headers and is the extractor's result on one of the emitted blocks |
| `GapFinder.ScanTablesAreBlockTables` | src/pdf/pdf.service.ts:64-100 | flushing block by block as the scan goes gives the tables of the emitted blocks |
| `GapFinder.BlockTableShape` | src/pdf/pdf.service.ts:78-83 | a table extracted from a block of two lines or more, if it has headers, has at least one row |
| `GapFinder.GapTableOrigin` | src/pdf/pdf.service.ts:64-100 | every table findPotentialTables returns is extractTable's result on a well-formed block of the input |
| `GapFinder.GapTableComplete` | src/pdf/pdf.service.ts:78-96 | every table findPotentialTables returns has headers and at least one row |
| `GapFinder.FlushBlock` | src/pdf/pdf.service.ts:78-83 | closing a block pushes its extracted table when it has two lines or more and headers |
| `GapFinder.ScanTables` | src/pdf/pdf.service.ts:69-97 | the definition of the `inTable`/`currentTable` state machine, flushing each block as it closes and at the end |
| `GapFinder.ScanLines` | src/pdf/pdf.service.ts:64-100 | the scan loop with `inTable` and `currentTable` yields the tables of the block-by-block specification |
| `GapFinder.FindPotentialTables` | src/pdf/pdf.service.ts:64-100 | findPotentialTables returns the tables of the emitted blocks that have headers |
| `ColumnPositions.SampleSize` | src/pdf/pdf.service.ts:125 | `Math.min(10, lines.length)`: ten lines, or all of them when there are fewer |
| `ColumnPositions.StartsToken` | src/pdf/pdf.service.ts:131 | the definition of the `inText` transition: a character other than `' '` at the start of the line or right after a space |
| `ColumnPositions.SampleStarts` | src/pdf/pdf.service.ts:125-138 | the definition: the token starts of the first `n` lines, as a set |
| `ColumnPositions.StartsBelow` | src/pdf/pdf.service.ts:129-137 | the offsets below `j` where a run of non-space characters begins |
| `ColumnPositions.ColumnStarts` | src/pdf/pdf.service.ts:122-138 | the definition: the token starts of the first ten lines, as a set |
| `ColumnPositions.SampleStartsMembers` | src/pdf/pdf.service.ts:125-138 | an offset is collected exactly when one of the sampled lines starts a token there |
| `ColumnPositions.ColumnStartsMembers` | src/pdf/pdf.service.ts:122-138 | the column set holds exactly the token starts of the first ten lines |
| `ColumnPositions.ColumnStartsInLines` | src/pdf/pdf.service.ts:129-137 | every column start is a non-space character of some line |
| `ColumnPositions.LeastWitness` | src/pdf/pdf.service.ts:140 | a non-empty set of offsets has a least element |
| `ColumnPositions.Least` | src/pdf/pdf.service.ts:140 | the least element of a non-empty set of offsets |
| `ColumnPositions.SortedElements` | src/pdf/pdf.service.ts:140 | `Array.from(set).sort((a, b) => a - b)` lists every element once, nothing else, in strictly ascending order |
| `ColumnPositions.SameAscending` | src/pdf/pdf.service.ts:140 | two strictly ascending lists with the same elements are equal |
| `ColumnPositions.SortedElementsUnique` | src/pdf/pdf.service.ts:140 | any strictly ascending listing of the set is the sort's result |
| `ColumnPositions.DetectColumnPositions` | src/pdf/pdf.service.ts:122-141 | the two scan loops and the sort return the sorted token starts of the first ten lines |
| `ColumnPositions.Hits` | src/pdf/pdf.service.ts:146 | the definition: the position lies inside the line and holds a character other than `' '` |
| `ColumnPositions.AlignedCount` | src/pdf/pdf.service.ts:143-151 | the count never exceeds the number of positions |
| `ColumnPositions.CountColumnAlignments` | src/pdf/pdf.service.ts:143-151 | the loop counts the positions where the line has a non-space character |
| `ColumnPositions.AllAligned` | src/pdf/pdf.service.ts:143-151 | the count equals the number of positions exactly when every position is hit |
| `ColumnPositions.AtMostOneMiss` | src/pdf/pdf.service.ts:106-109 | the filter test `count >= positions.length - 1` holds exactly when no two positions are both missed |
| `ColumnTables.SegmentEnd` | src/pdf/pdf.service.ts:178 | the definition: the next position, or the line length for the last one |
| `ColumnTables.Segments` | src/pdf/pdf.service.ts:174-182 | one segment per position, segment `i` being `slice(positions[i], positions[i + 1])` and the last running to the end of the line |
| `ColumnTables.SplitLineByPositions` | src/pdf/pdf.service.ts:174-182 | the loop pushes exactly those segments, in order |
| `ColumnTables.Clamp` | src/pdf/pdf.service.ts:179 | `slice` clamps an offset into the string |
| `ColumnTables.SliceClamped` | src/pdf/pdf.service.ts:179 | a slice between ordered offsets is the text between the clamped offsets |
| `ColumnTables.SegmentsCons` | src/pdf/pdf.service.ts:176-180 | cutting at the first position and then at the rest gives the same segments |
| `ColumnTables.SegmentsCover` | src/pdf/pdf.service.ts:174-182 | for ascending positions the segments, concatenated, are the line from the first position on: nothing is lost or repeated |
| `ColumnTables.ColumnCells` | src/pdf/pdf.service.ts:158-162 | the definition: the trimmed segments of a line, read at each header index as `values[index]?.trim() \|\| ''` |
| `ColumnTables.ColumnTable` | src/pdf/pdf.service.ts:153-172 | the definition: the trimmed header segments, and the rows keyed by the raw header segments |
| `ColumnTables.ColumnTableShape` | src/pdf/pdf.service.ts:153-172 | one header per position, each the trimmed header segment; one row per later line; the row keys are exactly the untrimmed header segments; each key whose last occurrence is column `j` maps to the trimmed segment `j` of that line |
| `ColumnTables.ColumnRowStep` | src/pdf/pdf.service.ts:157-166 | one turn of the row loop appends the row of line `i` |
| `ColumnTables.ExtractTableWithColumns` | src/pdf/pdf.service.ts:153-172 | the row loop returns the column table of the lines |
| `ColumnTables.IsAligned` | src/pdf/pdf.service.ts:108 | the definition: the count reaches the number of positions less one |
| `ColumnTables.AlignedLines` | src/pdf/pdf.service.ts:107-109 | the filter never adds lines |
| `ColumnTables.AlignedLinesMembers` | src/pdf/pdf.service.ts:107-109 | a line is kept exactly when it is in the input and misses at most one position |
| `ColumnTables.AlignedLinesAppend` | src/pdf/pdf.service.ts:107-109 | the filter works line by line: filtering a concatenation concatenates the filtered parts, so the first kept line is the first aligned line of the input |
| `ColumnTables.AlignedLinesSingle` | src/pdf/pdf.service.ts:107-109 | on one line the filter keeps it exactly when it misses at most one position |
| `ColumnTables.ColumnAlignedTables` | src/pdf/pdf.service.ts:102-120 | the definition of what findColumnAlignedTables returns |
| `ColumnTables.FindColumnAlignedTables` | src/pdf/pdf.service.ts:102-120 | findColumnAlignedTables returns the column table of the aligned lines, under the source's conditions |
| `ColumnTables.ColumnAlignedTablesShape` | src/pdf/pdf.service.ts:102-120 | at most one table, namely the column table of the aligned lines; none exactly when there are fewer than two positions or fewer than two aligned lines; otherwise one header per position and one row per aligned line after the first |
| `ColumnTables.ColumnTableComplete` | src/pdf/pdf.service.ts:111-116 | every table findColumnAlignedTables returns has headers and at least one row |
| `Assembler.NonBlankLines` | src/pdf/pdf.service.ts:51 | the lines kept are no more than the lines of the text (their order is stated by `Assembler.NonBlankLinesAppend`) |
| `Assembler.NonBlankLinesMembers` | src/pdf/pdf.service.ts:51 | a line is kept exactly when it is a line of the text that is not all whitespace; kept lines hold no line break and do not trim to nothing |
| `Assembler.NonBlankLinesAppend` | src/pdf/pdf.service.ts:51 | the kept lines come in text order: for two texts joined by a line break, the non-blank lines are those of the first followed by those of the second |
| `Assembler.Complete` | src/pdf/pdf.service.ts:60 | the definition of the final filter's test: at least one header and at least one row |
| `Assembler.KeepComplete` | src/pdf/pdf.service.ts:59-61 | the final filter keeps exactly the tables with headers and rows |
| `Assembler.KeepCompleteOfComplete` | src/pdf/pdf.service.ts:59-61 | the filter leaves a list of complete tables unchanged |
| `Assembler.DetectedTables` | src/pdf/pdf.service.ts:49-62 | every table returned has headers and rows |
| `Assembler.DetectTablesAdvanced` | src/pdf/pdf.service.ts:49-62 | the method returns the complete tables of both finders, gap tables first, or none for fewer than two non-blank lines |
| `Assembler.DetectedTablesUnfiltered` | src/pdf/pdf.service.ts:49-62 | the final filter never removes anything: the result is the gap tables followed by the column table, if any |
| `Assembler.DetectedTablesSources` | src/pdf/pdf.service.ts:55-59 | every table returned comes from one of the two finders, and the column finder adds at most one |

## Left out

- `parsePdfToTable` and everything else in the repository. Reading the file, the `pdf-parse` library, metadata and the error wrapping are I/O and library code. The model starts from the text they produce.
- `ColumnTables.ExtractTableWithColumns` requires at least one line. On an empty list the source reads `lines[0]` as `undefined`. With no positions it then returns `{ headers: [], rows: [] }`. With one position it throws when it reads the length of `undefined`. With two or more it throws when it slices `undefined`. Its only caller passes two lines or more, so neither case can happen there.
- The `catch` in `extractTable` is modelled only for the one throw that can happen: `lines[0]` is undefined on an empty block. No caller passes an empty block.
- JavaScript object quirks of the row objects are left out: enumeration order of keys, and keys such as `__proto__` that an assignment does not store. A row is a `map<string, string>`.
- The unused variable `pos` in `detectColumnPositions` has no counterpart.
- The set object and the sort of `detectColumnPositions` are modelled by their results, as a `set<nat>` and its ascending listing `ColumnPositions.SortedElements`. The sort algorithm itself is not modelled.
- `GapFinder.ScanLines` takes the two line tests as a parameter `classify`. It takes the extractor as a ghost parameter, tied to `extractTable` by `GapFinder.IsExtractTable`. `GapFinder.FindPotentialTables` instantiates both with the source's functions.
- Strings are sequences of Dafny characters. UTF-16 surrogate pairs are not modelled; the whitespace set of `\s` and `trim` is listed character by character in `JsText.IsWhite`.
