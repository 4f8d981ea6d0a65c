# Coursework data scripts, modelled in Dafny

This project models three small data-processing scripts as pure functions over strings, sequences, sets and maps, and proves what they compute:

- **Random-walk transaction generator** (`lecture-material/week-11/gen-transactions.py`, module `TransactionGen`).
  - It builds a table of transition weights over every ordered pair of distinct items.
  - It generates each transaction as a random walk over the items that never revisits one.
  - It writes a header line and then one comma-joined line per transaction.
  - The random source is an explicit stream of draws (`Rng`), consumed in the order the script calls `random`.
    - `Draw.unit` stands for `random.random()`.
    - `Draw.pick` stands for the index `random.choice` / `random.choices` settles on.
- **Bag-of-words converter** (`homework/homework-07/to_transactions.py`, module `DocwordTransactions`).
  - It skips the three header lines of a docword file and groups the `doc word count` lines into the word ids of each document.
  - It numbers the vocabulary lines from 1.
  - It writes each document as the comma-joined list of its words.
- **Time-spent reshaper** (`scripts/parse_time_spent.py`, module `TimeSpent`).
  - It zips the CSV header onto each record.
  - It explodes each row's bracketed `time_spent` list into one output row per piece.
  - It writes the rows under the sorted heading `time_spent,week`.

Support modules:

- `Text` holds the Python string operations the scripts use: `str.split` and `str.join` with one-character separators, `str.strip`, and `str(n)`. It also defines `Count`, the number of occurrences of a character, which the proofs use to state when a line has enough fields; no script calls `str.count`.
- `Collections` holds repeat-free sequences and their element sets.
- `Wrappers` holds the `Result` type. In `to_transactions.py` and `parse_time_spent.py`, each `IndexError` and `KeyError` the script can raise becomes an `Err` value. The generator's model has no error values: its `IndexError` on an empty alphabet is excluded by a precondition, and the `ValueError` of `random.choices` is left out (see below).

## Model

| member | source | states |
|---|---|---|
| TransactionGen.BuildRow | lecture-material/week-11/gen-transactions.py:5 | The row for a source has a weight for every item except the source itself. It takes one draw per such item. With draws in [0, 1), every weight lies in [0, 1). |
| TransactionGen.BuildRowsDraws | lecture-material/week-11/gen-transactions.py:5 | Building the rows for k sources over n items takes k·(n−1) draws. |
| TransactionGen.BuildTable | lecture-material/week-11/gen-transactions.py:5 | The table has a row for every item, holding a weight for every other item. It takes n·(n−1) draws, leaves the stream otherwise untouched, and has all weights in [0, 1) when the draws are. |
| TransactionGen.TableEntries | lecture-material/week-11/gen-transactions.py:5 | The table's (source, destination) entries are exactly the ordered pairs of distinct items. There are n·(n−1) of them and none is a self-pair. |
| TransactionGen.CompleteEntries | lecture-material/week-11/gen-transactions.py:5 | A table with a row per item, each over all other items, has exactly the ordered pairs of distinct items as entries. |
| TransactionGen.P | lecture-material/week-11/gen-transactions.py:9-10 | `P(p)` consumes one draw and is true iff that draw is strictly below `p`. For a draw in [0, 1), `p <= 0` is never true and `p >= 1` always is. |
| TransactionGen.Choose | lecture-material/week-11/gen-transactions.py:26 | A weighted or uniform choice always returns one of the candidates. |
| TransactionGen.ChooseReachesEveryCandidate | lecture-material/week-11/gen-transactions.py:26 | Every candidate is the outcome of some draw, so the oracle can reach every choice. |
| TransactionGen.Candidates | lecture-material/week-11/gen-transactions.py:24 | `next_choices` lists exactly the items still left, each once. |
| TransactionGen.Weights | lecture-material/week-11/gen-transactions.py:25 | There is one weight per candidate. When the previous item's row holds weights in [0, 1), so does every weight offered to the choice. |
| TransactionGen.Start | lecture-material/week-11/gen-transactions.py:16-19 | The walk starts with one item of the alphabet, and the items left are the alphabet minus that item. The chosen and left items partition the alphabet. One draw is consumed. |
| TransactionGen.ExtendPreservesPartition | lecture-material/week-11/gen-transactions.py:27-28 | Moving an item left to the end of the chosen list keeps the chosen items repeat-free, disjoint from the items left, and together with them equal to the alphabet. |
| TransactionGen.PartitionSizes | lecture-material/week-11/gen-transactions.py:16-28 | While the invariant holds, the chosen count plus the left count is n. |
| TransactionGen.NextItem | lecture-material/week-11/gen-transactions.py:23-26 | The previous chosen item has a row in the table holding every candidate, so the lookup on line 25 never raises `KeyError`. The candidates are exactly the items left. The appended item is the draw's pick among them under the weights of the previous item's row, and it is one of the items left. |
| TransactionGen.NextItemReadsPreviousRow | lecture-material/week-11/gen-transactions.py:23-26 | Only the previous chosen item's row of the table matters: two tables that agree on that row give the same next item. |
| TransactionGen.Extend | lecture-material/week-11/gen-transactions.py:23-28 | One extension keeps the partition and keeps the earlier choices as a prefix. It appends one item taken from the items left, removes exactly that item from them, and uses two draws. The appended item is the weighted pick of `NextItem` made with the second of those draws. |
| TransactionGen.Step | lecture-material/week-11/gen-transactions.py:20-28 | One loop iteration stops iff its stop draw is below `p`. A stop consumes only that draw and changes nothing else. Otherwise the iteration is one extension. |
| TransactionGen.Walk | lecture-material/week-11/gen-transactions.py:20-28 | The loop terminates, because each iteration stops or shrinks the items left. It ends with chosen and left items still partitioning the alphabet. |
| TransactionGen.WalkDraws | lecture-material/week-11/gen-transactions.py:20-28 | The loop uses two draws per appended item, plus one more when it stops before the alphabet is exhausted. |
| TransactionGen.GenTransaction | lecture-material/week-11/gen-transactions.py:12-29 | A transaction starts with an alphabet item. It has 1 to n items, none repeated, all from the alphabet. It uses 2·length draws, one fewer when it exhausts the alphabet. |
| TransactionGen.WalkNeverStopping | lecture-material/week-11/gen-transactions.py:20-22 | When the stop check can never fire, the loop runs until no item is left. |
| TransactionGen.WalkAlwaysStopping | lecture-material/week-11/gen-transactions.py:20-22 | When the stop check always fires, the loop adds nothing. |
| TransactionGen.NeverStoppingGivesPermutation | lecture-material/week-11/gen-transactions.py:16-29 | With `p <= 0` a transaction is a permutation of the alphabet. |
| TransactionGen.AlwaysStoppingGivesSingleton | lecture-material/week-11/gen-transactions.py:16-22 | With `p >= 1` a transaction is its start item alone. |
| TransactionGen.GenerateAll | lecture-material/week-11/gen-transactions.py:32 | Generating `num` transactions from one shared stream gives `num` valid transactions. |
| TransactionGen.GenerateAllNeverStopping | lecture-material/week-11/gen-transactions.py:32 | With `p <= 0` every generated transaction is a permutation of the alphabet. |
| TransactionGen.HeaderIsOneLine | lecture-material/week-11/gen-transactions.py:35 | The comment header holds no newline. |
| TransactionGen.SerializeRoundTrip | lecture-material/week-11/gen-transactions.py:33-36 | Splitting the output at newlines gives the header and then one line per transaction. Each of those lines splits at commas back into its transaction. |
| TransactionGen.SerializeEmpty | lecture-material/week-11/gen-transactions.py:35-36 | With no transactions the file is the header and its newline. |
| TransactionGen.GenerateFileLines | lecture-material/week-11/gen-transactions.py:31-36 | The generated file has `num + 1` lines. The first is the header. Every other line splits at commas into a repeat-free list of 1 to n alphabet items. |
| TransactionGen.ConfiguredFileLines | lecture-material/week-11/gen-transactions.py:4-7 | With the script's alphabet, 100 transactions and stop probability 0.25, the file has 101 lines. The first is the header, and each other line is a transaction of one to five distinct letters. |
| TransactionGen.AlphabetIsValid | lecture-material/week-11/gen-transactions.py:4 | The configured alphabet has five distinct items, none holding a comma or newline. |
| DocwordTransactions.ParseLine | homework/homework-07/to_transactions.py:9-12 | A data line parses iff it has at least two spaces (three fields). Otherwise it fails with that line's number. A parsed line starts with its two space-free ids, each followed by a space. |
| DocwordTransactions.ParseLineFormat | homework/homework-07/to_transactions.py:9-11 | Any line of the form `doc word rest` parses to exactly `doc` and `word`. |
| DocwordTransactions.ParseLineIgnoresCount | homework/homework-07/to_transactions.py:12-18 | The occurrence count never affects the result. |
| DocwordTransactions.ParseEntries | homework/homework-07/to_transactions.py:8-12 | The data lines parse iff each has three fields. Then there is one entry per line, in order. |
| DocwordTransactions.FirstBadLine | homework/homework-07/to_transactions.py:8-12 | A failure names the first line with fewer than three fields. |
| DocwordTransactions.DataLines | homework/homework-07/to_transactions.py:6 | `lines[3:]`: the lines after the third, and nothing when there are three lines or fewer. |
| DocwordTransactions.HeaderLinesIgnored | homework/homework-07/to_transactions.py:6 | Any three header lines give the same result. |
| DocwordTransactions.Add | homework/homework-07/to_transactions.py:13-15 | One entry adds its doc id if it is new and its word id to that doc's set. It leaves the other docs unchanged and keeps every set repeat-free and non-empty. |
| DocwordTransactions.GroupStep | homework/homework-07/to_transactions.py:13-15 | One more entry adds its doc id to the doc ids and its word id to that doc's word ids. It changes no other doc. |
| DocwordTransactions.AddExtendsGroup | homework/homework-07/to_transactions.py:13-15 | Adding an entry to the grouping of the entries before it gives the grouping of all of them. |
| DocwordTransactions.Group | homework/homework-07/to_transactions.py:7-15 | The map's keys are exactly the doc ids of the data lines. Each doc's set is exactly the word ids paired with it. |
| DocwordTransactions.GroupIgnoresRepeats | homework/homework-07/to_transactions.py:13-15 | A repeated (doc, word) pair changes nothing. |
| DocwordTransactions.ReadDocword | homework/homework-07/to_transactions.py:3-19 | `read_docword` fails iff some data line after the header lacks a field. Otherwise it is the grouping of the parsed lines. |
| DocwordTransactions.ReadVocab | homework/homework-07/to_transactions.py:23 | There is one vocabulary word per line. |
| DocwordTransactions.ReadVocabRoundTrip | homework/homework-07/to_transactions.py:21-24 | Words padded with whitespace on their lines are read back exactly. |
| DocwordTransactions.NewIdIsFresh | homework/homework-07/to_transactions.py:47 | The id `str(n+1)` of a new word is none of the ids `str(1)`..`str(n)` before it. |
| DocwordTransactions.IdToWord | homework/homework-07/to_transactions.py:44-49 | `id_to_word` has a key for exactly the ids `str(1)`..`str(n)`. |
| DocwordTransactions.IdToWordPositions | homework/homework-07/to_transactions.py:45-49 | `id_to_word[str(i+1)] == vocab[i]` for every vocabulary line `i`. |
| DocwordTransactions.WordToId | homework/homework-07/to_transactions.py:43-48 | `word_to_id` has a key for exactly the vocabulary words, each mapped to an id in `str(1)`..`str(n)`. |
| DocwordTransactions.WordIdRoundTrip | homework/homework-07/to_transactions.py:43-49 | Mapping a word to its id and back gives the word. |
| DocwordTransactions.WordIdsArePositions | homework/homework-07/to_transactions.py:45-48 | With no repeated word, word `i` has id `str(i+1)`. |
| DocwordTransactions.ZeroLedIdUnknown | homework/homework-07/to_transactions.py:47 | An id starting with `0` is never a vocabulary id. |
| DocwordTransactions.Lookup | homework/homework-07/to_transactions.py:54 | Translating a document's ids succeeds iff all are known. It is then pointwise `id_to_word[id]`. Otherwise it fails with an unknown id of the document. |
| DocwordTransactions.Transactions | homework/homework-07/to_transactions.py:52-55 | The result holds one transaction per document, in order, each the translation of that document's ids. It fails iff some id is unknown. |
| DocwordTransactions.AllKnownEntries | homework/homework-07/to_transactions.py:52-55 | Every id in the grouping is known iff the word id of every data line is. |
| DocwordTransactions.TransactionSizes | homework/homework-07/to_transactions.py:52-55 | There is one transaction per distinct doc id. Each transaction's length is its document's number of distinct word ids. |
| DocwordTransactions.OutputRoundTrip | homework/homework-07/to_transactions.py:58 | The output has no header line. It splits at newlines into one line per transaction, and each line splits at commas back into its transaction. |
| DocwordTransactions.ConvertSucceeds | homework/homework-07/to_transactions.py:38-58 | The conversion succeeds iff every data line has three fields and every word id is one of `str(1)`..`str(n)` for the `n` vocabulary lines. |
| TimeSpent.Header | scripts/parse_time_spent.py:6-7 | There is always at least one column name. |
| TimeSpent.HeaderOfText | scripts/parse_time_spent.py:6-7 | The header is the text's first line split at commas. |
| TimeSpent.Zip | scripts/parse_time_spent.py:9 | A zipped record has a key for exactly the column names. |
| TimeSpent.ZipLastWins | scripts/parse_time_spent.py:9 | When a column name repeats, its value comes from the last column with that name. |
| TimeSpent.ZipDistinct | scripts/parse_time_spent.py:9 | With distinct column names, column `header[i]` maps to field `i`. |
| TimeSpent.ReadRecords | scripts/parse_time_spent.py:9 | Reading fails iff some record is shorter than the header, and the failure names a short record. Otherwise there is one row per record, in order. |
| TimeSpent.Pieces | scripts/parse_time_spent.py:25 | A list string gives at least one comma-free piece. The pieces, joined by commas, are the string with its leading and trailing brackets removed, so the pieces keep their order and are not trimmed. |
| TimeSpent.EmptyListPieces | scripts/parse_time_spent.py:25 | `[]` gives a single empty piece. |
| TimeSpent.PiecesOfList | scripts/parse_time_spent.py:25 | A bracketed comma-joined list splits back into its elements. |
| TimeSpent.Explode | scripts/parse_time_spent.py:23-31 | A row missing `week` fails on it first, then a row missing `time_spent`. Otherwise there is one output row per piece, each carrying the row's week, and the rows' times are the pieces in order. |
| TimeSpent.ExplodeEmptyList | scripts/parse_time_spent.py:25-31 | A row whose list is `[]` yields exactly one output row, with an empty time. |
| TimeSpent.FlatMap | scripts/parse_time_spent.py:22-31 | Concatenating per-row outputs succeeds iff every row succeeds. A failure comes from some row. |
| TimeSpent.FlatMapAppend | scripts/parse_time_spent.py:22-31 | Mapping a concatenation gives the concatenation of the outputs. |
| TimeSpent.Reshape | scripts/parse_time_spent.py:21-31 | The reshape succeeds iff every row has both columns. A failure is a missing column. |
| TimeSpent.ReshapeCount | scripts/parse_time_spent.py:22-31 | The number of output rows is the sum of the rows' piece counts. |
| TimeSpent.ReshapeAppend | scripts/parse_time_spent.py:22-31 | Input order is preserved: the output for two runs of rows is the first run's output followed by the second's. |
| TimeSpent.ReshapeNonEmpty | scripts/parse_time_spent.py:22-31 | Every input row yields at least one output row. There are output rows iff there are input rows. |
| TimeSpent.LexLeTotal | scripts/parse_time_spent.py:34 | Python's string order is total. |
| TimeSpent.Insert | scripts/parse_time_spent.py:34 | Inserting into a sorted list keeps it sorted and adds exactly that element. |
| TimeSpent.Sort | scripts/parse_time_spent.py:34 | `list.sort()` yields a sorted permutation of its input. |
| TimeSpent.HeadingIsTimeThenWeek | scripts/parse_time_spent.py:33-34 | The sorted heading is `time_spent`, then `week`. |
| TimeSpent.LineIsTimeThenWeek | scripts/parse_time_spent.py:36 | Each output line holds the row's fields in heading order: time, then week. |
| TimeSpent.Render | scripts/parse_time_spent.py:33-36 | Writing fails with `NoRows` exactly when there are no output rows, as `out_lines[0]` does. |
| TimeSpent.RenderText | scripts/parse_time_spent.py:35 | The output starts with `time_spent,week` and a newline. |
| TimeSpent.CellsPlain | scripts/parse_time_spent.py:36 | The fields written per line are the row's time and week, and comma-free and newline-free values stay so. |
| TimeSpent.RenderRoundTrip | scripts/parse_time_spent.py:35-36 | The output splits at newlines into the heading line and one line per output row, in order. Each such line splits at commas into the row's time and week. |
| TimeSpent.ConvertFailsOnlyWithoutRecords | scripts/parse_time_spent.py:19-36 | When every record is long enough and has both columns, the script fails exactly when there are no records, and the failure is at `out_lines[0]`. |
| Text.Split | homework/homework-07/to_transactions.py:9 | `str.split` gives at least one piece, none holding the separator, and the pieces rejoined with the separator give the string back. |
| Text.SplitJoin | homework/homework-07/to_transactions.py:58 | Splitting a join of separator-free parts gives the parts back. |
| Text.SplitCount | homework/homework-07/to_transactions.py:9-12 | There is one more piece than there are separators. |
| Text.Strip | homework/homework-07/to_transactions.py:23 | `str.strip` returns the slice left after removing all leading and trailing stripped characters. Its ends are not stripped characters. |
| Text.StripPadding | homework/homework-07/to_transactions.py:23 | Stripping removes exactly the padding around a core whose ends are kept. |
| Text.NatToString | homework/homework-07/to_transactions.py:47 | `str(n)` is a non-empty string of digits that starts with `0` only for zero. |
| Text.DecimalRoundTrip | homework/homework-07/to_transactions.py:47 | Reading `str(n)` back as a decimal gives `n`. |
| Text.NatToStringInjective | homework/homework-07/to_transactions.py:47 | Distinct numbers get distinct ids. |

## Left out

- `lecture-material/week-10/sample_image.py` is not part of this model. It is image decoding and pixel access through a foreign library.
- Command-line parsing, file opening, reading and writing, and the `__main__` plumbing are left out. The model takes file contents as strings or as lists of lines.
  - `readlines()` is modelled by its list of lines.
  - `fp.write` is modelled by the string written.
- The Mersenne Twister, `random.seed(2)` and the concrete float weights are left out. Draws are an arbitrary stream, so every property holds for every seed.
- The probability distribution of `random.choice` and `random.choices` is left out, including the `ValueError` that `random.choices` raises when all weights are zero. A draw picks an index, reduced modulo the candidate count.
- `csv.reader` quoting and `skipinitialspace` are left out. Records are taken as already-split field lists.
  - The link between the input text's later lines and those records is therefore not modelled.
- The generator's walk with an empty alphabet raises `IndexError` in `random.choice`. The model requires a non-empty alphabet without repeats, which the script's constant `["A", "B", "C", "D", "E"]` is.
- TransactionGen.Candidates: lists the items left in alphabet order, where the script iterates a Python set, whose order depends on string hashing. Since the oracle may pick any index, no reachable choice is lost.
- DocwordTransactions.Group: keeps each document's word ids in order of first appearance, where the script keeps a Python set, whose iteration order is not reproducible. The transactions' element sets and lengths are the same either way.
- TransactionGen.GenerateAll: states only a lower bound (`num`) on the draws the transactions use. The exact count per transaction is in `GenTransaction`.
- TransactionGen.Choose: states only that the choice is one of the candidates, not how likely each one is.
- TimeSpent.Header: its own contract says only that there is a column name. What the names are is stated by `HeaderOfText` for a text that starts with its header line and has no surrounding whitespace.
- TimeSpent.Render: its contract covers only the failure on empty input. The contents are stated by `RenderRoundTrip` for values without commas or newlines. A value holding a comma makes the output ambiguous to read back, and this is not modelled further.
- Floating point is left out. The values of `random.random()` and the weights are Dafny reals, without rounding.
