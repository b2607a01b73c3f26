# Mut2Pep: the approximate-match scanner

Mut2Pep takes one mutant peptide, a mismatch budget and a collection of
protein records (id, description, sequence). It slides a window of the
peptide's length along every protein, at every offset from 0 to
`len(sequence) - len(peptide)`. For each window it lists the positions where
the wild-type window and the peptide differ. A window is reported when that
list has at least one and at most `max_mismatches` entries. Each reported
window becomes one row:

- the peptide;
- the protein's id and description;
- 1-based inclusive `Match_Start` / `Match_End`;
- the wild-type window;
- the number of mismatches;
- the mutation text, `"{ref}{position}{mut}"` per mismatch joined by `"; "`.

The project models that scan.

- `decimal.dfy` (module `Decimal`): the decimal text Python's f-string gives
  a position, and a reader for it.
- `notation.dfy` (module `MutationNotation`): the `"; "`-joined mutation
  text, and a parser that reads it back. The parser is the partner that
  shows the text loses nothing.
- `mut2pep.dfy` (module `Mut2Pep`):
  - the records and rows;
  - the mismatch list comprehension and the acceptance filter;
  - a pure specification `ScanSpec` of the whole report;
  - the imperative `Scan`. It loops over the proteins, and `ScanProtein`
    holds the inner loop over offsets; together they append to `results`
    and are proved equal to `ScanSpec`.
- `scan_properties.dfy` (module `ScanProperties`): what the report promises,
  namely which windows give rows, in what order, how many, and what each
  column says.
- `scan_examples.dfy` (module `ScanExamples`): small worked instances.

The script's top-level loop is modelled as `Scan(peptide, maxMismatches,
records)`. The values hardcoded at the top of the script become parameters.

The script does not reject an empty peptide or a negative budget, so `Scan`
has no precondition:

- an empty peptide gives `len(sequence) + 1` empty windows, none with a
  mismatch, so no rows;
- a budget of zero or less gives no rows (`NoBudgetNoRows`).

`Scan` returns the finished list of rows, as the script does.

The parser in `notation.dfy` splits the text at each `"; "` and reads each
entry as its first character, a run of digits and its last character. A
separator never starts inside an entry. A `;` as `ref` is followed by a
digit, and a `;` as `mut` is followed by the end of the text or by the `;`
of the next separator. So the text reads back for every peptide, digits
included.

## Model

| member | source | states |
|---|---|---|
| Decimal.FromNat | Mut2Pep.py:45 | The text of a position is non-empty and all decimal digits. It has no leading zero unless the number is zero. |
| Decimal.ValueOfFromNat | Mut2Pep.py:45 | Reading the decimal text of `n` back as a number gives `n`. |
| Decimal.FromNatInjective | Mut2Pep.py:45 | Two positions with the same text are the same position. |
| MutationNotation.Join | Mut2Pep.py:44 | `"; ".join` of no parts is empty, of one part is that part, and otherwise starts with the first part. |
| MutationNotation.Render | Mut2Pep.py:44-46 | The mutation text is empty exactly when there are no substitutions. |
| MutationNotation.RenderOne | Mut2Pep.py:44-46 | The text of one substitution is exactly its `"{ref}{pos}{mut}"`. |
| MutationNotation.RenderCons | Mut2Pep.py:44-46 | The text of two or more substitutions is the first one's notation, `"; "`, then the text of the rest. |
| MutationNotation.FindSeparator | Mut2Pep.py:44 | The result is the first index where `"; "` starts, or the text's length when there is none. |
| MutationNotation.ParseEntryNotation | Mut2Pep.py:45 | One `"{ref}{pos}{mut}"` entry reads back as exactly that substitution, whatever its characters. |
| MutationNotation.FindSeparatorAfterNotation | Mut2Pep.py:44-45 | No `"; "` starts inside an entry: in an entry followed by the separator, the first separator is the one after the entry. |
| MutationNotation.ParseListNotation | Mut2Pep.py:44-45 | The text of a single entry reads back as that one substitution. |
| MutationNotation.ParseListNotationThen | Mut2Pep.py:44-45 | An entry, `"; "` and more text read back as that substitution followed by what the rest reads back as. |
| MutationNotation.ParseListRender | Mut2Pep.py:44-46 | A non-empty list of substitutions is read back from its text unchanged, order included, for any residues. |
| MutationNotation.ParseRender | Mut2Pep.py:44-46 | Round trip: parsing the mutation text of any list of substitutions gives back exactly that list. |
| MutationNotation.RenderInjective | Mut2Pep.py:44-46 | Two lists of substitutions with the same text are the same list. |
| Mut2Pep.MismatchesBelowSound | Mut2Pep.py:29-33 | Each entry for the first `n` positions is a differing position below `n`, with `window[pos]` as ref and `peptide[pos]` as mut. Entries strictly ascend, and there are at most `n`. |
| Mut2Pep.MismatchesBelowComplete | Mut2Pep.py:29-33 | Every differing position below `n` has an entry. |
| Mut2Pep.MismatchesExact | Mut2Pep.py:29-33 | The mismatch list names exactly the positions where window and peptide differ, in ascending order, with the window's and the peptide's residues. It is at most the peptide's length, and empty exactly when the window equals the peptide. |
| Mut2Pep.WindowOffsets | Mut2Pep.py:26 | The scanned offsets are exactly those whose window fits in the sequence. A sequence shorter than the peptide has none. |
| Mut2Pep.RowFacts | Mut2Pep.py:36-43 | A row's start is at least 1 and its end is at most the protein's length. The coordinates span the peptide's length and delimit the reported window. The peptide, id and description are copied. The mismatch count is at most the peptide's length and zero exactly when the window is the peptide. |
| Mut2Pep.Scan | Mut2Pep.py:20-47 | The loop over proteins produces exactly `ScanSpec`: each protein in input order, then each offset ascending, one row per window passing `0 < len(mismatches) <= max_mismatches`. |
| Mut2Pep.ScanProtein | Mut2Pep.py:23-47 | The loop over one protein's offsets leaves the earlier results unchanged and appends exactly that protein's rows. |
| ScanProperties.RecordRowsBelowSoundAt | Mut2Pep.py:26-47 | A row of a protein from the offsets below `n` starts at or before `n` and is the row of an in-range offset whose window passes the filter. |
| ScanProperties.RecordRowsBelowSound | Mut2Pep.py:26-47 | Every row of a protein from the offsets below `n` starts at or before `n` and is the row of an in-range offset whose window passes the filter. |
| ScanProperties.RecordRowsBelowComplete | Mut2Pep.py:26-47 | Every offset below `n` whose window passes the filter has its row among the rows. |
| ScanProperties.RecordRowsBelowExtend | Mut2Pep.py:26-36 | One more offset keeps the earlier rows as a prefix and adds at most one row, which starts at that offset plus one. |
| ScanProperties.RecordRowsBelowAscendingAt | Mut2Pep.py:26 | Of two rows of a protein, the earlier one starts first. |
| ScanProperties.RecordRowsBelowAscending | Mut2Pep.py:26 | A protein's rows come in strictly ascending `Match_Start`. |
| ScanProperties.RecordRowsBelowCount | Mut2Pep.py:26-36 | The number of rows for the offsets below `n` is the number of those offsets whose window passes the filter. |
| ScanProperties.RecordRowsCount | Mut2Pep.py:26-36 | A protein yields exactly one row per kept offset in `0 .. len(seq) - len(peptide)`. |
| ScanProperties.RecordRowsExact | Mut2Pep.py:26-47 | A protein's rows are exactly its reported rows (both directions), in strictly ascending offset. |
| ScanProperties.ScanSpecAppend | Mut2Pep.py:22 | The report for two batches of proteins is the first batch's report followed by the second's. |
| ScanProperties.ScanSpecOrder | Mut2Pep.py:20-22 | The rows of protein `j` come after those of all earlier proteins and before those of all later ones. |
| ScanProperties.ScanSpecSound | Mut2Pep.py:20-47 | Every row of the report is a reported row of some protein. |
| ScanProperties.ScanSpecComplete | Mut2Pep.py:20-47 | Every reported row of every protein is in the report. |
| ScanProperties.ScanSpecMembership | Mut2Pep.py:20-47 | A row is in the report if and only if it is a reported row of one of the proteins. |
| ScanProperties.ScanSpecEmpty | Mut2Pep.py:50-55 | The report is empty, so "No matches found." is printed, exactly when no window of any protein passes the filter. |
| ScanProperties.NoBudgetNoRows | Mut2Pep.py:35 | With a budget of zero or less, nothing is ever reported. |
| ScanProperties.WideBudgetReportsEveryVariant | Mut2Pep.py:35 | With a budget of at least the peptide's length, a window is reported exactly when it differs from the peptide. |
| ScanProperties.ScanRowFacts | Mut2Pep.py:36-43 | Every row in the report has the following properties: <br>- it copies the peptide, and the id and description of the protein it came from; <br>- its 1-based coordinates span the peptide's length inside that protein and delimit its window; <br>- it counts between 1 and `max_mismatches` (and at most `len(peptide)`) mismatches; <br>- its window is never the peptide. |
| ScanProperties.SubstitutionsPlaced | Mut2Pep.py:44-46 | Each mutation entry's position lies in `[Match_Start, Match_End]`. Its ref is the protein's residue there and its mut is the peptide's residue at the same window position, and the two differ. Entries strictly ascend. |
| ScanProperties.SubstitutionsCover | Mut2Pep.py:44-46 | Every protein position in the window where the protein and the peptide differ has a mutation entry. |
| ScanProperties.RowMutationsReadBack | Mut2Pep.py:44-46 | A row's `Mutations` text parses back to exactly its window's substitutions, in order, for any peptide. |
| ScanProperties.RowEntriesInWindow | Mut2Pep.py:40-46 | Each mutation entry of a row lies in `[Match_Start, Match_End]`. Its ref is the row's `Wildtype_Window` residue there and its mut is the peptide's, and the two differ. |
| ScanProperties.RowEntriesCover | Mut2Pep.py:40-46 | Every position where a row's `Wildtype_Window` and the peptide differ has a mutation entry at `Match_Start` plus that offset. |
| ScanProperties.RowMutationsDescribed | Mut2Pep.py:36-46 | A row's window substitutions satisfy all of the following, stated in the row's own columns: <br>- `Mutations` is their text and `Num_Mismatches` counts them; <br>- each lies inside the row's window with the window's and the peptide's residues; <br>- they ascend; <br>- every differing position has one. |
| ScanProperties.ScanRowMutations | Mut2Pep.py:20-47 | Every row of the report has a `Mutations` text that parses. The parsed entries satisfy all of the following, stated in the row's own columns: <br>- there are `Num_Mismatches` of them, in ascending position; <br>- each lies between `Match_Start` and `Match_End` with `Wildtype_Window`'s residue as ref and the peptide's as mut; <br>- every position where `Wildtype_Window` and the peptide differ has one. |
| ScanExamples.TwoSubstitutions | Mut2Pep.py:29-46 | Window "AC" against peptide "GT" at offset 0 gives two mismatches, written "A1G; C2T". |
| ScanExamples.BudgetExample | Mut2Pep.py:35 | That window is dropped with budget 1. With budget 2 it is the single row, at 1..2. |
| ScanExamples.OneSubstitution | Mut2Pep.py:29-46 | Window "AAAB" against "AAAA" at offset 1 gives one mismatch, written "B5A". |
| ScanExamples.OneRowExample | Mut2Pep.py:20-47 | Peptide "AAAA" with budget 1 against protein "AAAAB": the exact match at offset 0 is skipped and the only row is 2..5, "AAAB", 1, "B5A". |
| ScanExamples.DigitResidue | Mut2Pep.py:44-46 | A digit residue, as in "A12" ('A' at 1 replaced by '2'), is written and read back unambiguously. |

## Left out

- Reading the protein file with Biopython's `SeqIO.parse` (Mut2Pep.py:22) is foreign library code. The proteins are an input sequence of (id, description, sequence) records, in file order.
- `str(record.seq)` (Mut2Pep.py:23) converts a library type. The sequence is taken as a plain string.
- The hardcoded file paths, peptide and budget (Mut2Pep.py:14-17) are configuration. They are the parameters of `Scan`.
- Writing the Excel file with pandas and the two messages (Mut2Pep.py:49-55) are file and console output. Only the choice between them is modelled, by `ScanSpecEmpty`.
- Python strings are sequences of code points, modelled as `seq<char>`; comparison is plain character equality, as in the script.
