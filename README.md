# NGS barcode clash checker — verified model

This project models the checking core of the NGS Barcode Clash Checker, a
small web tool for sequencing labs. A user pastes index barcodes, one per
line. The tool cleans and validates them as DNA sequences. It then reports
every pair of barcodes whose Hamming distance is at most a chosen threshold,
because such barcodes cannot be told apart reliably. There are two checks:

- the within-set check removes exact duplicates and compares every unordered
  pair of the distinct barcodes once;
- the between-set check compares every barcode of one set with every barcode
  of the other, in row-major order, keeping duplicates.

Modules, one per concern of `streamlit_app.py`:

- `Text` (`text.dfy`): `str.strip()`, an ASCII `str.upper()`, their
  composition `Normalize`, and `str.split('\n')` together with its inverse
  `Join`.
- `Hamming` (`hamming.dfy`): `hamming_distance`. `float('inf')` is the
  `Infinite` case of `Distance`, and `AtMost` is the `distance <= max_distance`
  test.
- `Validator` (`validator.dfy`): `validate_barcodes`, as a loop method proved
  against the specification functions `ValidOf` and `InvalidOf`.
- `Clashes` (`clashes.dfy`): the clash record and the comparison both
  detectors share. `CompareRow` is the loop that compares one barcode with a
  list; `Row` is its specification.
- `WithinSet` (`within_set.dfy`): `check_barcodes_within_set`.
  `Deduplicate` takes members of a set in an arbitrary order, so it
  promises exactly what Python's `list(set(...))` promises.
- `BetweenSets` (`between_sets.dfy`): `check_barcodes_between_sets`.
- `Labels` (`labels.dfy`): the rows of the between-set report, keyed by
  headings built from the two set names. `KeyedRecord` is the row as
  written. `LabelledRecord` and `Report` are the corrected rows (see
  "## Findings").
- `Input` (`input.dfy`): how the two tabs turn pasted text into barcode
  lists.

The clash threshold is a `nat`, because the sidebar input has `min_value=0`
(`streamlit_app.py:15-21`).

## Model

| member | source | states |
|---|---|---|
| Hamming.HammingDistance | streamlit_app.py:23-27 | The distance is finite exactly when the lengths agree, and is then at most the length. |
| Hamming.AtMost | streamlit_app.py:36 | The test `distance <= max_distance`, also used at line 52: a finite distance passes when it is at most the threshold, and `float('inf')` never passes. It carries no contract of its own. `HammingCountsDifferences` shows that a length mismatch passes no threshold, and `HammingExamples` gives a concrete case. |
| Hamming.Mismatches | streamlit_app.py:27 | The `sum(...)` over `zip(s1, s2)` is at most the length of the first string. `HammingCountsDifferences` characterises it as the number of differing positions. |
| Hamming.HammingCountsDifferences | streamlit_app.py:25-27 | For equal lengths the distance is the number of positions where the strings differ. For different lengths it is never at most any threshold. |
| Hamming.HammingSymmetric | streamlit_app.py:23-27 | `distance(a, b) == distance(b, a)`. |
| Hamming.HammingZeroIffEqual | streamlit_app.py:25-27 | The distance is 0 exactly when the two strings are equal. |
| Hamming.MismatchesAllDiffer | streamlit_app.py:27 | Strings that differ at every position are at a distance equal to their length. |
| Hamming.HammingExamples | streamlit_app.py:23-27 | "ACGT"/"ACGG" is at distance 1. "AC"/"ACG" is never within a threshold. |
| Text.TrimStartShape | streamlit_app.py:67 | `lstrip` keeps a suffix, removes only whitespace, and leaves no leading whitespace. |
| Text.TrimEndShape | streamlit_app.py:67 | `rstrip` keeps a prefix, removes only whitespace, and leaves no trailing whitespace. |
| Text.StripShape | streamlit_app.py:67 | `strip` keeps a contiguous middle part and removes only whitespace around it. |
| Text.Strip | streamlit_app.py:67 | `bc.strip()`. It carries no contract of its own. `StripShape`, `StripIsStripped` and `StripIdempotent` characterise it. |
| Text.StripIsStripped | streamlit_app.py:67 | A stripped string has no whitespace at either end. |
| Text.StripIdempotent | streamlit_app.py:67 | Stripping twice is stripping once. |
| Text.Upper | streamlit_app.py:67 | `upper` keeps the length and maps each character by the ASCII case mapping. |
| Text.UpperKeepsStripped | streamlit_app.py:67 | Upper-casing a string with nothing to strip leaves nothing to strip. |
| Text.Normalize | streamlit_app.py:67 | `bc.strip().upper()`. It carries no contract of its own. `NormalizeIdempotent`, `NormalizeStrip` and `Validator.DnaIsNormal` characterise it. |
| Text.NormalizeIdempotent | streamlit_app.py:67 | `x.strip().upper()` applied twice equals applying it once. |
| Text.NormalizeStrip | streamlit_app.py:67 | Stripping before normalizing changes nothing. |
| Text.Split | streamlit_app.py:96 | `split('\n')` gives at least one piece, and no piece contains a newline. |
| Text.JoinSplit | streamlit_app.py:96 | Joining the pieces with the separator gives back the text. |
| Text.SplitJoin | streamlit_app.py:96 | Pieces without a separator come back exactly from their join. |
| Validator.ValidateBarcodes | streamlit_app.py:61-73 | The loop returns exactly `ValidOf` and `InvalidOf` of its input. The lemmas below state what those lists are. |
| Validator.IsDna | streamlit_app.py:68 | `bc_clean and all(c in 'ACGT' for c in bc_clean)`. It carries no contract of its own. `ValidMembers`, `InvalidMembers` and `DnaIsNormal` characterise it. |
| Validator.ValidAppend | streamlit_app.py:66-71 | The `valid` list of a concatenation is the concatenation of the `valid` lists, so input order is kept. |
| Validator.InvalidAppend | streamlit_app.py:66-71 | The same holds for the `invalid` list. |
| Validator.PartitionSizes | streamlit_app.py:66-71 | `len(valid) + len(invalid) == len(barcodes)`. |
| Validator.PartitionAt | streamlit_app.py:66-71 | Input `i` is entry `k` of `valid` in cleaned form, or entry `m` of `invalid` unmodified, where `k` and `m` are the counts of earlier accepted and rejected inputs and sum to `i`. |
| Validator.ValidMembers | streamlit_app.py:67-69 | `x` is in `valid` exactly when `x` is a DNA sequence and is the cleaned form of some input. |
| Validator.InvalidMembers | streamlit_app.py:67-71 | `x` is in `invalid` exactly when `x` is an input whose cleaned form is not a DNA sequence. |
| Validator.DnaIsNormal | streamlit_app.py:67-68 | A DNA sequence is its own cleaned form. |
| Validator.AllDnaAccepted | streamlit_app.py:66-71 | Inputs that are all DNA sequences all go to `valid`, unchanged, and `invalid` is empty. |
| Validator.ValidateIdempotent | streamlit_app.py:61-73 | Validating `valid` again returns it unchanged, with nothing rejected. |
| Clashes.CompareRow | streamlit_app.py:50-57 | The inner loop returns exactly `Row` of its inputs. |
| Clashes.Compare | streamlit_app.py:51-57 | One comparison gives at most one record. It gives a record exactly when the distance is at most the threshold. Every record it gives pairs `x` with `y` at their true distance, at most the threshold. |
| Clashes.CompareExact | streamlit_app.py:51-57 | A record is in one comparison exactly when it is the clash record of `x` and `y`, so no clash of the pair is missed. |
| Clashes.RowMembers | streamlit_app.py:50-57 | A record is in a row exactly when it pairs `x` with a member of the list and its distance is the true distance, at most the threshold. |
| Clashes.RowMultiplicity | streamlit_app.py:50-57 | A record occurs in a row once per occurrence of its second barcode. |
| Clashes.RowLength | streamlit_app.py:50-57 | A row has at most one record per compared barcode. |
| Clashes.RowAppend | streamlit_app.py:50-57 | Records come in the order of the compared list. |
| Clashes.RowSnoc | streamlit_app.py:50-57 | Comparing with one more barcode appends that comparison's records. |
| Clashes.KeepAppend | streamlit_app.py:36 | Filtering by threshold distributes over concatenation. |
| Clashes.KeepShrinks | streamlit_app.py:36 | Filtering only drops records. |
| Clashes.RowMonotone | streamlit_app.py:52 | A row at a lower threshold is the row at a higher one, filtered. |
| Clashes.PairsDistinctAppend | streamlit_app.py:34 | Two lists that each name every pair once, and share no pair, name every pair once when joined. |
| Clashes.RowPairsDistinct | streamlit_app.py:34-41 | Comparing a barcode with a duplicate-free list that does not hold it names every pair once. |
| Clashes.PairOfDiffer | streamlit_app.py:34 | Records naming different unordered pairs name different sets of barcodes. |
| Clashes.PairImageCount | streamlit_app.py:34-41 | A list that names every unordered pair once has as many records as it names pairs. |
| WithinSet.Deduplicate | streamlit_app.py:32 | The result has no duplicates and exactly the members of the input. |
| WithinSet.CheckWithinSet | streamlit_app.py:29-43 | The returned list has no duplicates and the input's members. The clash list is exactly `WithinClashes` of that list. Whatever order deduplication picks, the records name exactly the unordered pairs of different input barcodes within the threshold, and there is one record per such pair. |
| WithinSet.PairClashes | streamlit_app.py:34-41 | The loop over `combinations(unique, 2)` returns exactly `WithinClashes`. |
| WithinSet.WithinSound | streamlit_app.py:34-41 | Every record is a clash record of `unique[a]` and `unique[b]` with `a < b`. |
| WithinSet.WithinRecordsAreClashes | streamlit_app.py:34-41 | For a duplicate-free list, every record pairs two different members. They have equal length and their distance is at most the threshold. |
| WithinSet.WithinExact | streamlit_app.py:34-41 | For `i < j`, the record of `unique[i]` and `unique[j]` is reported exactly when it is their clash record. |
| WithinSet.WithinNoReversed | streamlit_app.py:34 | With no duplicates, a pair is never reported in reverse list order. |
| WithinSet.EachPairReportedOnce | streamlit_app.py:34-41 | Each unordered pair within the threshold is reported in exactly one orientation. |
| WithinSet.WithinPairsDistinct | streamlit_app.py:32-41 | With no duplicates, no unordered pair is reported twice. |
| WithinSet.WithinLength | streamlit_app.py:34 | There are at most `n * (n - 1) / 2` records. |
| WithinSet.FewerThanTwoNoClashes | streamlit_app.py:32-34 | Fewer than two distinct barcodes give no clashes. |
| WithinSet.WithinMonotone | streamlit_app.py:36 | The clash list at a lower threshold is the list at a higher one, filtered, so raising the threshold never shrinks it. |
| WithinSet.WithinPairImage | streamlit_app.py:32-41 | With no duplicates, the records name exactly the unordered pairs of different members within the threshold. |
| WithinSet.WithinCount | streamlit_app.py:32-41 | With no duplicates, the record count is the number of such pairs, so it depends only on the input's members. |
| WithinSet.WithinOrderFree | streamlit_app.py:32-41 | Two deduplication orders of the same input report the same unordered pairs and equally many records. |
| WithinSet.WithinCountMonotone | streamlit_app.py:36 | A higher threshold never lowers the count, even when the two runs deduplicate in different orders. |
| WithinSet.DistinctCount | streamlit_app.py:32 | A duplicate-free list has as many entries as members. |
| WithinSet.TwoMembers | streamlit_app.py:32 | A deduplicated list of two distinct barcodes holds them in one order or the other. |
| WithinSet.TwoBarcodes | streamlit_app.py:34 | Two barcodes are compared once, in list order. |
| WithinSet.TwoBarcodesClash | streamlit_app.py:32-41 | Two distinct barcodes give one record, at their distance, exactly when they are within the threshold, whatever order deduplication picks. |
| WithinSet.ExampleDuplicateRemoved | streamlit_app.py:32-41 | `["ACGT", "ACGT", "TGCA"]` keeps two barcodes and has no clash at threshold 0 or 3. |
| WithinSet.ExampleOneClash | streamlit_app.py:32-41 | `["ACGT", "ACGA"]` has exactly one clash at threshold 1, at distance 1. |
| BetweenSets.CheckBetweenSets | streamlit_app.py:45-59 | The nested loop returns exactly `CrossClashes`. |
| BetweenSets.CrossMembers | streamlit_app.py:49-57 | A record is reported exactly when its first barcode is in the first set, its second in the second, and its distance is the true distance, at most the threshold. |
| BetweenSets.CrossMultiplicity | streamlit_app.py:49-57 | Duplicates are kept: each clash record occurs (count in set 1) × (count in set 2) times. |
| BetweenSets.CrossAppend | streamlit_app.py:49-50 | Row-major order: splitting the first set splits the report at the same place. |
| BetweenSets.CrossSingle | streamlit_app.py:50-57 | One barcode in the first set gives exactly its row against the second set. |
| BetweenSets.CrossLength | streamlit_app.py:49-57 | There are at most `len(set1) * len(set2)` records. |
| BetweenSets.RowCount | streamlit_app.py:50-57 | A row has one record per position of the second set within the threshold. |
| BetweenSets.RowIndicesSnoc | streamlit_app.py:50-52 | The qualifying positions of a list one longer are the old ones, plus the new position if it qualifies. |
| BetweenSets.TagCount | streamlit_app.py:49-50 | Tagging a row's positions with the row number keeps their count. |
| BetweenSets.PairIndicesSnoc | streamlit_app.py:49-52 | The qualifying position pairs of a longer first set are the old ones plus the new last row. The two parts share no pair. |
| BetweenSets.CrossCount | streamlit_app.py:49-57 | The record count equals the number of position pairs `(i, j)` with `distance(set1[i], set2[j])` at most the threshold. |
| BetweenSets.CrossSwap | streamlit_app.py:49-57 | Swapping the two sets reports the same pairs with the barcodes swapped. |
| BetweenSets.SharedBarcodeClashes | streamlit_app.py:49-57 | A barcode in both sets always clashes with itself at distance 0. |
| BetweenSets.CrossMonotone | streamlit_app.py:52 | The report at a lower threshold is the report at a higher one, filtered. |
| BetweenSets.ExampleIdenticalPair | streamlit_app.py:45-59 | `["AAAA"]` against `["AAAA", "TTTT"]` at threshold 0 gives exactly one record, at distance 0. |
| Input.KeepStrippedMembers | streamlit_app.py:96 | A kept line is non-empty, has nothing to strip, and is the stripped form of some piece. Every piece that is not blank is kept. |
| Input.StrippedLines | streamlit_app.py:96 | The single-set tab's list comprehension. It carries no contract of its own. `StrippedLinesMembers` and `BlankTextNoLines` characterise it. |
| Input.StrippedLinesMembers | streamlit_app.py:96 | The same for the lines of a text, and no kept line holds a newline. |
| Input.StripChars | streamlit_app.py:96 | Stripping adds no characters. |
| Input.NormalizedIsUpperStripped | streamlit_app.py:153-154 | The set-comparison tab keeps the same lines as the single-set tab, upper-cased. |
| Input.NormalizedLines | streamlit_app.py:153-154 | The set-comparison tab's list comprehensions. They carry no contract of their own. `NormalizedIsUpperStripped` and `NormalizedLinesSameValid` characterise them. |
| Input.SameValid | streamlit_app.py:153-157 | Both tabs' line lists give the same `valid` list. |
| Input.SameAccepted | streamlit_app.py:153-154 | A line is accepted in the same cleaned form whether it was stripped or normalized first. |
| Input.ValidSingle | streamlit_app.py:66-71 | A one-element input is validated by the single-input rule. |
| Input.NormalizedLinesSameValid | streamlit_app.py:153-157 | For any text, both tabs produce equally many lines and the same `valid` list. |
| Input.BlankTextNoLines | streamlit_app.py:95-96 | Text that is blank after stripping gives no barcodes. |
| Input.SplitChars | streamlit_app.py:96 | The pieces of a split hold only characters of the text. |
| Input.AllSpaceStrips | streamlit_app.py:96 | A whitespace-only line strips to nothing. |
| Input.NoKept | streamlit_app.py:96 | Lines that all strip to nothing contribute no barcodes. |
| Labels.BarcodeKey | streamlit_app.py:54-55 | A barcode column heading `f'{name} Barcode'` is never the distance heading. |
| Labels.BarcodeKeyInjective | streamlit_app.py:54-55 | Different set names give different barcode headings. |
| Labels.KeyedRecord | streamlit_app.py:53-57 | The row as written, a dictionary display whose later keys override earlier equal ones. It carries no contract of its own. `KeyedRecordDistinctNames`, `KeyedRecordSameName` and `ExampleSameNameLosesBarcode` characterise it. |
| Labels.KeyedRecordDistinctNames | streamlit_app.py:53-57 | With different set names a row as written has three columns and reads back as its record. |
| Labels.KeyedRecordSameName | streamlit_app.py:53-57 | With equal set names a row as written has two columns. Its one barcode column holds the second set's barcode, and the first set's barcode is nowhere in the row when the two differ. |
| Labels.ExampleSameNameLosesBarcode | streamlit_app.py:53-57 | Both sets named `Set 1`: the clash of `AAAA` with `AAAT` becomes a row holding only `AAAT` and the distance, and it does not read back as the clash. |
| Labels.SecondKey | streamlit_app.py:55 | The corrected second barcode heading: it is the source's `f'{set2_name} Barcode'` when the names differ. For all names, it differs from the first barcode heading and from the distance heading. |
| Labels.LabelledRecordRoundTrip | streamlit_app.py:53-57 | For all set names, a corrected row has three columns and reads back as its record. |
| Labels.Report | streamlit_app.py:49-57 | The report has one row per record, and row `k` is the corrected row of record `k`. |
| Labels.ReportRoundTrip | streamlit_app.py:49-57 | Every row of the report reads back as the record at its position. |

## Left out

- The Streamlit user interface is not modelled: page setup, sidebar, tabs, text areas, buttons, warnings and metrics (`streamlit_app.py:1-21`, `75-243`). It is presentation and event handling, and it calls a framework outside this model.
- pandas DataFrames and CSV export (`streamlit_app.py:109-119`, `172-181`, `220-229`) are left out. They are calls into a foreign library.
- File upload is left out (`streamlit_app.py:196-234`): UTF-8 decoding, `pd.read_csv`, first-column extraction and the `try/except`. This is I/O.
- The within-set rows `{'Barcode 1': ..., 'Barcode 2': ..., 'Hamming Distance': ...}` (`streamlit_app.py:37-41`) have fixed headings, so they carry exactly a `Clash` record and are modelled as one.
- The set labels are modelled only as headings of the report rows (`Labels`), which are built from the detector's records. The Streamlit text inputs they come from (`streamlit_app.py:134`, `144`) are UI.
- `float('inf')` is not a float here. It is the `Infinite` case of `Distance`, and only its comparison with the threshold is modelled: it is never at most the threshold.
- Text.Upper: maps only the ASCII letters `a`-`z`. Python's full Unicode case mapping is not modelled. The difference could change which list an input lands in only for a character whose Python upper-case form is `A`, `C`, `G` or `T`; in Unicode's case tables those are only `a`, `c`, `g` and `t`. Upper-cased non-DNA lines of the set-comparison tab appear only in warnings.
- Text.Strip: removes exactly the characters of CPython's `str.isspace()`, which `IsSpace` lists. The Unicode database is not consulted.
- WithinSet.Deduplicate: does not fix an order, because Python's `set` iteration order is unspecified. Every property of the within-set check is therefore proved for every duplicate-free ordering of the input's members. The reported unordered pairs and their count are the same for every ordering (`WithinSet.WithinOrderFree`); only the orientation and order of the records can differ.
- The inner loops of both detectors are one method, `Clashes.CompareRow`, which both outer loops call. The loop body is written once rather than twice. `combinations(unique, 2)` is modelled as row `i` against `unique[i + 1..]` for each `i`, which is the order in which `itertools.combinations` enumerates pairs.
- The display truncation of invalid items (`[:5]`, `[:3]`) and the unique-count metrics are left out. They are UI only.

## Findings

| source | as written | input that shows it | evidently intended | confidence | as-written member | corrected member |
|---|---|---|---|---|---|---|
| streamlit_app.py:53-57 | Each between-set row is a dictionary display keyed `f'{set1_name} Barcode'`, `f'{set2_name} Barcode'` and `'Hamming Distance'`. When both names are equal the second key overwrites the first. | Both set names `Set 1` (`streamlit_app.py:134`, `144`); `AAAA` against `AAAT` at threshold 1 gives the row `{"Set 1 Barcode": "AAAT", "Hamming Distance": 1}`. | Every row shows both clashing barcodes, whatever the names. | not executed | Labels.KeyedRecordSameName | Labels.LabelledRecordRoundTrip |
