# wp-semantic-similarity core, modelled in Dafny

This project models four core pieces of the wp-semantic-similarity
library (a Java toolkit for Wikipedia-based semantic relatedness):

- **`SparseMatrixTransposer`** (`transposer.dfy`, using `sparse_rows.dfy`)
  transposes a sparse matrix out of core:
  - a counting pass finds each column's cell count;
  - the column ids are sorted and cut into greedy batches under a
    megabyte budget;
  - each batch is filled by one scan over every source row, checked
    against the counts, and handed to the writer.
- **`SparseMatrix`** (`sparse_matrix.dfy`) reads the matrix file's header
  from the first mapped window:
  - the magic word `0xabcdef`;
  - the two value-range words and the row count;
  - the row-id/offset table.

  It also models `getRow` and the row iterator over an abstract
  row-buffer lookup.
- **`Disambiguator`** (`disambiguator.dfy`) resolves a phrase to a
  Wikipedia page:
  - without a hint, the first candidate article with a positive id wins;
  - with a hint, every pair of candidate articles is scored, and the
    first pair with the largest weighted score wins.

  `MostSimilarScorer.score` finds the hint page in a most-similar list.
- **`DictionaryEntry`** (`dictionary_entry.dfy`, using `java_strings.dfy`)
  parses one line of the crosswikis dictionary with the pattern
  `([^\t]*)\t([0-9.e-]+) ([^ ]*)(| (.*))$`. It covers:
  - splitting the flags with `trim().split(" ")`;
  - reading the English-link count from the first `W:` flag;
  - `hasFlag`, `compareTo` and `normalize`.

Java's `null` and exceptions are modelled as `Option` and `Result`
(`java_types.dfy`). Java `int` arithmetic is written out with explicit
two's-complement wrap-around (`JavaTypes.Wrap32`).

Calls into code outside the core become function parameters:
- the concept mapper, the title lookup and the similarity scorer;
- the row-buffer lookup and the row decoder;
- `Float.valueOf` and `Fraction.getFraction`;
- the `\p{L}\p{N}` character class and per-character lowercasing.

## Model

| member | source | states |
|---|---|---|
| SparseMatrixTransposer.Transpose | src/main/java/edu/macalester/wpsemsim/matrix/SparseMatrixTransposer.java:34-41 | The successive values of the column cursor cut the sorted column ids into consecutive non-empty greedy batches. The rows written between two cuts are exactly that batch's columns, in the order in which those columns first occur in the scan, as the `LinkedHashMap` keeps them. The output is the exact transpose: one row per column, each row holding that column's cells in scan order, and the multiset of flipped cells preserved. |
| SparseMatrixTransposer.CountCellsSpec | src/main/java/edu/macalester/wpsemsim/matrix/SparseMatrixTransposer.java:43-54 | The count map's keys are exactly the column ids that occur. Each key's count is the number of cells in that column. |
| SparseMatrixTransposer.ColIds | src/main/java/edu/macalester/wpsemsim/matrix/SparseMatrixTransposer.java:51-53 | The sorted key array is strictly increasing, so it has no duplicates. It holds exactly the columns that occur. |
| SparseMatrixTransposer.BatchEnd | src/main/java/edu/macalester/wpsemsim/matrix/SparseMatrixTransposer.java:60-72 | The greedy batch is maximal: every prefix up to its end fits the budget, and adding the next column would exceed it. |
| SparseMatrixTransposer.BatchProgress | src/main/java/edu/macalester/wpsemsim/matrix/SparseMatrixTransposer.java:62-72 | If the first remaining column fits the budget on its own, the batch takes at least one column. |
| SparseMatrixTransposer.OversizedColumnStalls | src/main/java/edu/macalester/wpsemsim/matrix/SparseMatrixTransposer.java:36-72 | A column whose own estimate exceeds the budget is never passed: no batch that starts at or before it gets past it, so the `transpose` loop never ends. |
| SparseMatrixTransposer.RowStructureBytesIncreasing | src/main/java/edu/macalester/wpsemsim/matrix/SparseMatrixTransposer.java:109-116 | Below `int` overflow, the size estimate grows by exactly 6 bytes per entry. |
| SparseMatrixTransposer.ScanSpec | src/main/java/edu/macalester/wpsemsim/matrix/SparseMatrixTransposer.java:75-88 | The scan creates one accumulator per batch column that occurs, none twice. Each accumulator holds exactly its column's cells in scan order. Together the accumulators hold exactly the batch's cells, flipped. The accumulators come in the order in which their columns first occur in the scan. |
| SparseMatrixTransposer.ScanOrder | src/main/java/edu/macalester/wpsemsim/matrix/SparseMatrixTransposer.java:57-88 | Insertion order: an accumulator created earlier belongs to a column whose first cell comes earlier in the scan, and every accumulator's column occurs in the scan. |
| SparseMatrixTransposer.FirstMismatch | src/main/java/edu/macalester/wpsemsim/matrix/SparseMatrixTransposer.java:90-94 | Finds the first accumulator whose size disagrees with the count map. If it finds none, every accumulator agrees. |
| SparseMatrixTransposer.AccumulateBatchSucceeds | src/main/java/edu/macalester/wpsemsim/matrix/SparseMatrixTransposer.java:56-97 | When the counts come from the rows being scanned, the "row size unexpected!" check never fires and the batch is the scan's result. |
| SparseMatrixFile.IntRoundTrip | src/main/java/edu/macalester/wpsemsim/matrix/SparseMatrix.java:65 | `getInt` at an offset reads back any `int` written there in big-endian order, whatever surrounds it. |
| SparseMatrixFile.LongRoundTrip | src/main/java/edu/macalester/wpsemsim/matrix/SparseMatrix.java:66 | `getLong` at an offset reads back any `long` written there in big-endian order, whatever surrounds it. |
| SparseMatrixFile.GetInt | src/main/java/edu/macalester/wpsemsim/matrix/SparseMatrix.java:56 | A read fails exactly when the four bytes are not inside the window. |
| SparseMatrixFile.Window | src/main/java/edu/macalester/wpsemsim/matrix/SparseMatrix.java:54-55 | The mapped window is the file's prefix of `min(size, maxPageSize)` bytes, and header decoding depends only on that prefix. |
| SparseMatrixFile.ReadHeadersRoundTrip | src/main/java/edu/macalester/wpsemsim/matrix/SparseMatrix.java:53-72 | Take any header and row table written in the file layout, with the table inside the first page, followed by any row bodies. Reading it back gives the same value-range words, the row ids in table order, and, for each id, the offset of its last table entry. |
| SparseMatrixFile.ReadHeadersSucceeds | src/main/java/edu/macalester/wpsemsim/matrix/SparseMatrix.java:53-72 | Reading succeeds if and only if all of these hold: the page size is non-negative, the window holds the 16-byte header, the magic word is `0xabcdef`, the row count is non-negative, and the whole table lies inside the window. |
| SparseMatrixFile.BadMagicRejected | src/main/java/edu/macalester/wpsemsim/matrix/SparseMatrix.java:56-58 | A wrong magic word is rejected with "invalid file header" naming the word that was found. |
| SparseMatrixFile.ReadHeadersContents | src/main/java/edu/macalester/wpsemsim/matrix/SparseMatrix.java:59-70 | On success: the value-range words and the row count are the words at 4, 8 and 12. `getNumRows` is that count. Row id `i` is the `int` at `16 + 12i`. The offset map has exactly the listed ids as keys. Each id maps to the `long` after its last occurrence in the table. |
| SparseMatrixFile.ReadEntriesOk | src/main/java/edu/macalester/wpsemsim/matrix/SparseMatrix.java:63-70 | The table loop fails if and only if the table runs past the window. |
| SparseMatrixFile.ReadEntriesIds | src/main/java/edu/macalester/wpsemsim/matrix/SparseMatrix.java:63-70 | The loop keeps one id per entry, in order, and maps exactly those ids. |
| SparseMatrixFile.ReadEntriesOffsets | src/main/java/edu/macalester/wpsemsim/matrix/SparseMatrix.java:63-70 | For a repeated id, the later table entry's offset overwrites the earlier one. |
| SparseMatrixFile.GetRow | src/main/java/edu/macalester/wpsemsim/matrix/SparseMatrix.java:75-83 | The row is `null` exactly when the buffer lookup gives `null`. A lookup failure propagates as an error. Otherwise the row is built from the returned buffer. |
| SparseMatrixFile.IterateRows | src/main/java/edu/macalester/wpsemsim/matrix/SparseMatrix.java:117-136 | Iteration calls `next()` once per stored row id and yields the rows in table order. A failed read gives a `null` element instead of stopping the loop. |
| Disambiguator.FirstResolved | src/main/java/edu/macalester/wpsemsim/concepts/Disambiguator.java:76-83 | Finds the first concept whose title resolves to an id above 0. No earlier concept resolves. |
| Disambiguator.DisambiguateWithoutHint | src/main/java/edu/macalester/wpsemsim/concepts/Disambiguator.java:75-85 | Without a hint, a `null` concept map throws. The result is `null` if and only if no candidate resolves to a positive id. Otherwise the match names the first candidate that resolves, with its id. |
| Disambiguator.DisambiguateWithHintEmpty | src/main/java/edu/macalester/wpsemsim/concepts/Disambiguator.java:87-95 | With a hint, a `null` concept map on either side throws. An empty map on either side gives `null`. |
| Disambiguator.DisambiguateWithHint | src/main/java/edu/macalester/wpsemsim/concepts/Disambiguator.java:97-127 | With two non-empty candidate lists, the call fails if and only if the scorer throws for some candidate pair. If no pair gets a value, the match carries both phrases and ids 0. Otherwise the match names the first pair whose weighted score is largest. |
| Disambiguator.Disambiguate | src/main/java/edu/macalester/wpsemsim/concepts/Disambiguator.java:65-69 | Every returned match carries the phrase and the hint it was asked about. |
| Disambiguator.OuterLoopIsSearch | src/main/java/edu/macalester/wpsemsim/concepts/Disambiguator.java:99-125 | The two nested loops are equivalent to one search over the flat list of candidate pairs, in loop order. |
| Disambiguator.InnerLoopIsSearch | src/main/java/edu/macalester/wpsemsim/concepts/Disambiguator.java:105-124 | The inner loop is equivalent to that search over one row's pairs. |
| Disambiguator.RowPairs | src/main/java/edu/macalester/wpsemsim/concepts/Disambiguator.java:105-110 | Every pair in a row has the row's first article and id, and a hint-side id that is non-negative and is the title lookup's answer. |
| Disambiguator.RowPairsWeights | src/main/java/edu/macalester/wpsemsim/concepts/Disambiguator.java:105-116 | Each pair of a row comes from one hint-side concept, and its weight is the product of the two concepts' scores. |
| Disambiguator.Pairs | src/main/java/edu/macalester/wpsemsim/concepts/Disambiguator.java:99-110 | Every candidate pair has two non-negative ids, each of which is the title lookup's answer for its article. |
| Disambiguator.RowPairsComplete | src/main/java/edu/macalester/wpsemsim/concepts/Disambiguator.java:105-110 | A row holds exactly one pair per concept of the hint side whose id is `>= 0` (id 0 included), in map order. The pair for the `j`-th concept comes right after the pairs of the earlier concepts that resolve. |
| Disambiguator.PairsComplete | src/main/java/edu/macalester/wpsemsim/concepts/Disambiguator.java:99-110 | The candidate pairs are the whole cross product restricted to ids `>= 0`, in nested loop order. There is one pair per resolved combination, and the pair of the `i`-th phrase concept and the `j`-th hint concept sits at its nested-order position. |
| Disambiguator.PairIndexOrder | src/main/java/edu/macalester/wpsemsim/concepts/Disambiguator.java:99-110 | Nested-order positions are strictly increasing: outer index first, then inner. So no two resolved combinations share a position, and the earlier one in loop order comes first. |
| Disambiguator.SearchFails | src/main/java/edu/macalester/wpsemsim/concepts/Disambiguator.java:111 | The search fails if and only if the scorer throws for some pair. The error then names the first such pair. |
| Disambiguator.SearchAppend | src/main/java/edu/macalester/wpsemsim/concepts/Disambiguator.java:97-125 | Searching a concatenation of pair lists is the same as searching the first list and continuing from its state over the second, so the running best carries across the rows of the outer loop. |
| Disambiguator.SearchFindsFirstBest | src/main/java/edu/macalester/wpsemsim/concepts/Disambiguator.java:97-123 | If the scorer never throws, the search succeeds. It finds nothing if and only if no pair gets a value. Otherwise it finds a pair that nothing beats, and every earlier pair scores strictly less: the first maximum, as the strict `>` keeps it. |
| Disambiguator.MostSimilarScore | src/main/java/edu/macalester/wpsemsim/concepts/Disambiguator.java:143-156 | The score is `null` if and only if the list is `null` or empty. Otherwise it carries the list and the index of the first entry with the hint's id, or -1 when no entry has that id. |
| DictionaryEntry.MatchLine | src/main/java/edu/macalester/wpsemsim/concepts/DictionaryEntry.java:26-33 | A successful match yields groups that are well formed for the pattern and spell out the line exactly. |
| DictionaryEntry.MatchCompose | src/main/java/edu/macalester/wpsemsim/concepts/DictionaryEntry.java:26-27 | Every well-formed set of groups is matched back to exactly those groups, so the match is unique. |
| DictionaryEntry.ParseEntry | src/main/java/edu/macalester/wpsemsim/concepts/DictionaryEntry.java:30-34 | The constructor rejects a line as an invalid entry if and only if the pattern does not match it. |
| DictionaryEntry.BuildEntry | src/main/java/edu/macalester/wpsemsim/concepts/DictionaryEntry.java:35-45 | After a match, the constructor fails with a number-format error on the probability when `Float.valueOf` throws. Otherwise it fails exactly when the `W:` fraction throws, with a number-format or an arithmetic error. A built entry always stores the input less one trailing newline. |
| DictionaryEntry.BuildEntryRoundTrip | src/main/java/edu/macalester/wpsemsim/concepts/DictionaryEntry.java:35-45 | From groups whose remainder is a space followed by the join of a non-empty, space-free flag list with no blank ends, the constructor builds exactly those flags. It stores the parsed probability and the flags' link count. |
| DictionaryEntry.SplitArticleCompose | src/main/java/edu/macalester/wpsemsim/concepts/DictionaryEntry.java:27 | A space-free article followed by nothing or by a space-led remainder splits back into exactly that article and remainder. |
| DictionaryEntry.NewlineEndsGroups | src/main/java/edu/macalester/wpsemsim/concepts/DictionaryEntry.java:27 | When a matched line ends in a newline, the remainder after the article is empty and the newline ends the article, because `.` never matches a line terminator. |
| DictionaryEntry.ParseEntryFields | src/main/java/edu/macalester/wpsemsim/concepts/DictionaryEntry.java:30-46 | A parsed entry holds groups 1 and 3 and the parsed probability. Its flags are group 4 trimmed and split on single spaces, and joining them gives the trimmed group back. Its link count is that of its flags. Its line is the input less one trailing newline. |
| DictionaryEntry.ParseEntryRoundTrip | src/main/java/edu/macalester/wpsemsim/concepts/DictionaryEntry.java:30-46 | Take a line built from well-formed groups and a non-empty list of space-free flags, whose join has no blank ends. It parses back to exactly those parts and flags. |
| DictionaryEntry.ParseEntryNoFlags | src/main/java/edu/macalester/wpsemsim/concepts/DictionaryEntry.java:38 | A line with nothing after the article has the single empty flag and no links. |
| DictionaryEntry.NewlineEndsArticle | src/main/java/edu/macalester/wpsemsim/concepts/DictionaryEntry.java:26-45 | When a parsed line ends in a newline: the newline is part of the article, there are no flags beyond the empty one, and the stored line drops exactly that newline. |
| DictionaryEntry.StripNewline | src/main/java/edu/macalester/wpsemsim/concepts/DictionaryEntry.java:41-45 | The stored line is shorter than the input if and only if the input ends in a newline, and then it is shorter by exactly that newline. |
| DictionaryEntry.FirstLinkFlag | src/main/java/edu/macalester/wpsemsim/concepts/DictionaryEntry.java:69-73 | Finds the first flag that starts with `W:`. No earlier flag starts with `W:`. |
| DictionaryEntry.FractionEnglishLinks | src/main/java/edu/macalester/wpsemsim/concepts/DictionaryEntry.java:68-75 | The result is `null` if and only if no flag starts with `W:`. Otherwise it is the fraction after `W:` in the first such flag. Text that is not a fraction throws a number-format error; a zero denominator throws an arithmetic error. |
| DictionaryEntry.NumberEnglishLinks | src/main/java/edu/macalester/wpsemsim/concepts/DictionaryEntry.java:77-80 | Throws exactly when the fraction does. Otherwise it is 0 without a `W:` flag, and the fraction's numerator with one. |
| DictionaryEntry.HasFlagRoundTrip | src/main/java/edu/macalester/wpsemsim/concepts/DictionaryEntry.java:82-84 | On a line written with a given flag list, `hasFlag` holds exactly for the flags in that list. |
| DictionaryEntry.CompareToAsWritten | src/main/java/edu/macalester/wpsemsim/concepts/DictionaryEntry.java:95-98 | Whenever the `int` subtraction does not overflow, the sign of the as-written comparison is the order of the link counts. |
| DictionaryEntry.CompareToAsWrittenOverflows | src/main/java/edu/macalester/wpsemsim/concepts/DictionaryEntry.java:95-98 | With counts `2147483647` and `-1`, the as-written comparison is negative. With `-2147483648` and `1` it is positive. |
| DictionaryEntry.CompareLinks | src/main/java/edu/macalester/wpsemsim/concepts/DictionaryEntry.java:95-98 | The corrected comparison's sign is always the order of the link counts. |
| DictionaryEntry.CompareToIsOrder | src/main/java/edu/macalester/wpsemsim/concepts/DictionaryEntry.java:95-98 | The corrected comparison on entries has antisymmetric signs and is transitive. |
| DictionaryEntry.CompareToAgreesWithoutOverflow | src/main/java/edu/macalester/wpsemsim/concepts/DictionaryEntry.java:95-98 | The as-written and corrected comparisons agree whenever the subtraction fits. |
| DictionaryEntry.CompareNonNegativeLinks | src/main/java/edu/macalester/wpsemsim/concepts/DictionaryEntry.java:95-98 | For non-negative link counts the subtraction never overflows, and the as-written comparison has the same sign as the corrected one. |
| DictionaryEntry.ReplaceRunsShape | src/main/java/edu/macalester/wpsemsim/concepts/DictionaryEntry.java:90-92 | Replacing the non-letter-or-digit runs gives the maximal letter-or-digit words joined by single spaces. A space is added in front exactly when the input starts with a non-word character, and a space at the end only when there are words. |
| DictionaryEntry.NormalizeWords | src/main/java/edu/macalester/wpsemsim/concepts/DictionaryEntry.java:90-93 | `normalize` is the input's maximal letter-or-digit words, lowercased and joined by single spaces. |
| DictionaryEntry.NormalizeWordsShape | src/main/java/edu/macalester/wpsemsim/concepts/DictionaryEntry.java:90-93 | A normalized string has no blank ends and never two spaces in a row. |
| JavaStrings.TrimSpec | src/main/java/edu/macalester/wpsemsim/concepts/DictionaryEntry.java:38 | `trim()` returns a contiguous middle part of the string with no blank ends. Everything cut from either end is at or below U+0020. |
| JavaStrings.TrimIdempotent | src/main/java/edu/macalester/wpsemsim/concepts/DictionaryEntry.java:38 | Trimming twice is the same as trimming once. |
| JavaStrings.JoinPieces | src/main/java/edu/macalester/wpsemsim/concepts/DictionaryEntry.java:38 | Joining the single-space pieces with single spaces gives the string back. |
| JavaStrings.PiecesSpaceFree | src/main/java/edu/macalester/wpsemsim/concepts/DictionaryEntry.java:38 | No piece holds a space. |
| JavaStrings.SplitTrimmed | src/main/java/edu/macalester/wpsemsim/concepts/DictionaryEntry.java:38 | On a trimmed string, `split(" ")` drops no trailing piece, so joining the split gives the string back. The empty string splits to one empty flag. |
| JavaStrings.SplitJoin | src/main/java/edu/macalester/wpsemsim/concepts/DictionaryEntry.java:38 | Space-free words whose join has no blank ends come back unchanged from a join, `trim()` and `split(" ")`. |

## Left out

- **Memory mapping and the page cache.** The file is modelled as a byte
  sequence, and `MemoryMappedMatrix` is an abstract lookup that returns a
  buffer, `null` or a failure. `maxOpenPages` does not matter here.
- **Row-body decoding (`SparseMatrixRow`).** It is the `build` parameter.
  The transposer works on decoded rows of (column id, packed `short`
  value) entries. The writer (`SparseMatrixWriter`, `finish`) is modelled
  as the sequence of rows handed to `writeRow`.
- **`ValueConf` and the header floats.** The float meaning of the header
  words at 4 and 8 is not modelled; they are kept as raw bits.
- **Floating point.** Probabilities, weights and similarity scores are
  `real`, so NaN and infinite scores are left out. The transposer's
  megabyte doubles are replaced by the same comparison on whole bytes,
  which is exact because every estimate is a whole number of bytes
  divided by 2^20.
- **Logging, and the code not in the core.** Logging, `main`, `dump`,
  `getPath`, the iterator's `remove` (which only throws), and
  `disambiguateMostSimilar` / `disambiguateSimilarity` (thin wrappers) are
  not modelled.
- **Outside code becomes parameters.** These are
  `SimilarityScorer` / `metric`, the `ConceptMapper`, `IndexHelper.titleToWpId`,
  `Float.valueOf` and `Fraction.getFraction`. An `IOException` from the
  mapper or the title lookup is not modelled; an exception from the scorer is.
  The fraction parser returns a fraction or says which exception it
  threw: `NumberFormatException` for text that is not a fraction, or
  `ArithmeticException` for a zero denominator such as `W:1/0`. Which
  strings fall in which case is up to the parameter, as is the format
  `Fraction.getFraction` accepts.
- **Characters.** Java strings are UTF-16, while the model uses Unicode
  characters, so surrogate pairs are not modelled. `\p{L}\p{N}` is a
  predicate parameter, and `toLowerCase()` is a per-character function
  parameter, which leaves out the locale and length-changing mappings.
- **Unreadable rows.** The transposer assumes every source row is
  readable. In the source, a `null` row from `getRow`, or a `null` from
  the iterator after a read failure, throws a `NullPointerException` in
  the counting or scanning pass.
- **Byte order.** The file layout is read in big-endian order, because
  `ByteBuffer` defaults to it and the reader never changes the order.
- **Oversized columns.** The code does not force a batch to hold at least
  one column: a column whose estimate alone exceeds the budget is never
  taken, and `transpose` loops forever.
- SparseMatrixTransposer.Transpose: requires every column's estimate to fit
  the budget on its own. Without that the source loop does not terminate
  (`OversizedColumnStalls`), and a Dafny method must terminate.
- SparseMatrixTransposer.CountCells: counts are unbounded integers. A
  column with more than 2^31-1 cells would wrap in the source's `int` map.
- DictionaryEntry.NormalizeWords: assumes lowercasing keeps the space a
  space and never turns a letter or digit into a blank character. Java's
  `toLowerCase()` meets this for the characters that matter.
- DictionaryEntry.ParseEntryRoundTrip: stated for flag lists that survive
  `trim().split(" ")` unchanged (non-empty, space-free, no blank ends).
  Any other tail is covered by `ParseEntryFields`, which gives the split
  for every line.

## Findings

| source | as written | input that shows it | evidently intended | confidence | as-written member | corrected member |
|---|---|---|---|---|---|---|
| src/main/java/edu/macalester/wpsemsim/concepts/DictionaryEntry.java:95-98 | `compareTo` returns `this.numLinks - e.numLinks` in `int` arithmetic, which wraps on overflow | link counts `2147483647` and `-1`: the difference wraps to `-2147483648`, so the entry with more links sorts first | the sign of the difference without overflow, as `Integer.compare` gives | low (needs `W:` numerators near the `int` limits); not executed | DictionaryEntry.CompareToAsWrittenOverflows | DictionaryEntry.CompareLinks |
