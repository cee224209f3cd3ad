# vcfverifier core, modelled in Dafny

vcfverifier checks that a VCF file agrees with an indexed FASTA reference.
For every data line it does three things:

- it reads CHROM, POS and REF;
- it looks up the reference bases over `[POS-1, POS-1+|REF|)` (0-based);
- it compares those bases with REF, ignoring letter case.

Each mismatching line is reported with its physical line number and its
text, and the scan carries on. At the end, `main` returns `Err` if any line
mismatched and `Ok` otherwise. Any extraction or lookup failure is a panic
that ends the run at once.

The project has three modules:

- `wrappers.dfy`: `Option` and `Result`.
- `columns.dfy` (`Columns`): `get_columns`, the field extractor.
  - It finds the first four tabs one after another, as `match_indices('\t')`
    with `nth(0)` four times does.
  - It keeps the fields before tabs 1, 2 and 4: CHROM, POS and REF, which
    are VCF columns 1, 2 and 4.
  - It parses POS as a 64-bit `usize` and subtracts one.
  - It is proved equal to a reference definition, `SplitColumns`, which
    splits the whole line at every tab. Round trip, trailing-column
    independence and the three failure cases follow from that.
- `verifier.dfy` (`Verifier`): the loop in `main`.
  - `CheckLine` gives the verdict for one line: skipped, matched,
    mismatched, or a panic.
  - `ScanLines` folds the verdicts over the lines into the loop state: the
    line counter, the error flag, the reports, or the panic that stopped it.
  - `Run` gives the outcome of the whole program.
  - `VerifyVcf` is the imperative loop itself. Its postcondition is that it
    computes `Run`.
  - Lemmas say what the scan promises: where it stops, which reports it
    prints, what the error flag means, and how the run ends.

Inputs that come from the outside world are parameters:

- The FASTA file is `Option<Reference>`: `None` when it cannot be opened,
  otherwise a map from sequence name to bases.
- The VCF file is `Option<seq<Line>>`: `None` when it cannot be opened.
  A `Line` is `None` when that line could not be read.

## Model

| member | source | states |
|---|---|---|
| Columns.FirstTab | src/main.rs:68-69 | The next match of the tab iterator is the index of a tab with no tab before it; no match means the text holds no tab. |
| Columns.NextField | src/main.rs:68-72 | One iterator step splits the text into a tab-free field, a tab, and the rest; no step is possible only on tab-free text. |
| Columns.NextFieldSplit | src/main.rs:68-72 | One iterator step peels exactly the first field off the full split of the text. |
| Columns.LeadingFieldsSplit | src/main.rs:68-76 | Finding `n` tabs in turn succeeds exactly when the line has more than `n` fields, and then yields the first `n` fields of the full split. |
| Columns.LeadingFieldsNoTab | src/main.rs:69-76 | No field found before a tab contains a tab. |
| Columns.ParseUsize | src/main.rs:77 | `parse::<usize>` succeeds exactly when the text, after one optional leading `+`, is a non-empty run of ASCII digits whose decimal value is at most 2^64-1. The result is that decimal value, so any other character anywhere rejects the text. |
| Columns.ParseUsizeDec | src/main.rs:77 | Every `usize` written in decimal parses back to itself, with or without a leading `+`. |
| Columns.ParseUsizeOverflow | src/main.rs:77 | A decimal number above 2^64-1 is rejected, not truncated. |
| Columns.Assemble | src/main.rs:77 | POS is a `BadPosition` panic exactly when it does not parse, a `PositionUnderflow` panic exactly when it parses to 0, and otherwise gives CHROM, the parsed value minus one, and REF. |
| Columns.GetColumns | src/main.rs:67-79 | An extracted 0-based position is below 2^64-1, because it is a parsed `usize` minus one. |
| Columns.GetColumnsBySplit | src/main.rs:66-79 | Scanning for four tabs gives the same result as splitting the whole line and taking fields 1, 2 and 4, errors included. |
| Columns.ExtractedFieldsHaveNoTab | src/main.rs:69-76 | Extracted CHROM and REF are whole cells: neither contains a tab. |
| Columns.GetColumnsCases | src/main.rs:69-77 | The three panics are exact: fewer than four tabs (an `unwrap` on a missing match), a POS cell that is not a `usize` (an `unwrap` on the parse), and a POS of zero (the `- 1`). Otherwise it succeeds. |
| Columns.GetColumnsRoundTrip | src/main.rs:67-79 | Extracting from a line written out of CHROM, POS+1, ID, REF and any further columns gives back CHROM, POS and REF. |
| Columns.TrailingColumnsIgnored | src/main.rs:66-76 | Once a line has four tabs, whatever follows the fourth cannot change the result. |
| Verifier.Lower | src/main.rs:37-38 | Lower-casing keeps the length and folds each character on its own. |
| Verifier.LowerEqualIff | src/main.rs:37-39 | The lower-cased strings are equal exactly when the two strings agree position by position up to letter case. |
| Verifier.Lookup | src/main.rs:32-35 | The lookup succeeds exactly when the name is indexed, the end `pos + len` fits in `usize`, and the end is within the sequence. It then returns exactly the bases `[pos, pos + len)`. An unknown name is `UnknownChrom`, and every failure is one of the three lookup panics. |
| Verifier.CompareCases | src/main.rs:32-41 | Comparing fields against the reference panics on an unknown name, an overflowing end or a range past the sequence end. Otherwise it is a mismatch exactly when the bases and REF differ other than in letter case. |
| Verifier.Compare | src/main.rs:32-41 | Comparing extracted fields never skips. The result is a match, a mismatch, or one of the three lookup panics: unknown name, overflowing end, or range past the sequence end. `CompareCases` says which. |
| Verifier.CheckLine | src/main.rs:26-43 | An unreadable line is skipped, an empty line panics, and a line starting with `#` is skipped. Any other line whose extraction fails panics with that extraction error. Only a line whose columns were extracted can match or mismatch. |
| Verifier.DataLineVerdict | src/main.rs:27-42 | A data line's verdict is the comparison of its extracted fields with `[pos, pos + len(REF))` of its sequence, with the lookup panics in the source's order. |
| Verifier.RecordVerdict | src/main.rs:27-42 | End to end: a line written from CHROM, POS, ID and REF is judged on exactly `[POS, POS + len(REF))` of CHROM, up to letter case. |
| Verifier.Advance | src/main.rs:24-42 | One loop step: once halted, nothing changes. Otherwise the counter goes up by one, and the step halts exactly on a panic verdict, keeping the reports and taking that panic. If it does not halt, the error flag is raised exactly when it was already raised or the line mismatched, and a mismatch appends one report with the new line number and the line text. |
| Verifier.ScanLines | src/main.rs:21-45 | A scan that runs to the end has counted every line, and its error flag is set exactly when it has printed a report. A scan that panics stops on a line it has counted. |
| Verifier.HaltedStays | src/main.rs:32-35 | After a panic, later lines change nothing. |
| Verifier.ScanCompletes | src/main.rs:24-44 | The loop reaches the end of the file exactly when no line's verdict is a panic, so a mismatch never stops it. |
| Verifier.ScanHalts | src/main.rs:24-35 | A loop that panics does so on the first line whose verdict is a panic, with that line's own panic and physical line number. |
| Verifier.ReportsSound | src/main.rs:25-41 | Every printed report names a mismatching line by its physical number, counting header and unreadable lines, and carries that line's text. Reports come out in file order. |
| Verifier.ReportsComplete | src/main.rs:39-41 | Every mismatching line before the line where the scan stops is reported, with its number and text. That holds both for a scan that runs to the end and for one halted by a panic. |
| Verifier.ScanPrefix | src/main.rs:24-42 | Reports printed after some of the lines stay, in front, after more lines. A scan still going at the end was still going after the first lines. |
| Verifier.ErrFlagMonotone | src/main.rs:39-42 | A raised error flag stays raised on every longer scan that is still going. |
| Verifier.Run | src/main.rs:20-52 | A FASTA file that cannot be opened panics before any line is read. A VCF file that cannot be opened gives `Ok` with no report. A returned run is `Err` exactly when it printed a report. |
| Verifier.RunOutcome | src/main.rs:21-52 | With both files open, the run returns exactly when no line panics, and then returns `Err` exactly when some line mismatches. Otherwise it panics on the first line whose verdict is a panic. |
| Verifier.VerifyVcf | src/main.rs:18-53 | The loop of `main` produces exactly the outcome `Run` describes. |
| Verifier.ExampleVerdict | src/main.rs:27-42 | On reference ACGTACGT, POS 3 with REF `GT` or `gt` matches and REF `GC` mismatches. |
| Verifier.ExampleHeader | src/main.rs:24-29 | A header line and an unreadable line are both counted, and neither is reported. |
| Verifier.ExampleRun | src/main.rs:21-52 | A header line, an unreadable line, then a record: a mismatch is reported as line 3 and the run returns `Err`; a match returns `Ok` with no report. |

## Left out

- Command-line parsing (`Args`, src/main.rs:8-19) is left out. The two files are parameters of `Run` and `VerifyVcf`.
- `read_lines` (src/main.rs:56-64) is reduced to its result: the file could not be opened, or a list of lines, each readable or not. The gzip decoding and buffered reading behind it are not modelled.
- Automatic choice between plain, gzip and block-gzip input is not modelled, because the code does not do it: it always wraps the file in a gzip decoder.
- The FASTA index (`faimm`) is a map from sequence name to bases. Line wrapping in the FASTA file, the `.fai` file format and memory mapping are not part of this model.
- The printed text is not modelled. That covers the "Failed line" diagnostic, the final message and the exit code. A report keeps the line number and the line, and the outcome keeps `Err` against `Ok`.
- Verifier.Lower: folds ASCII letters only. Rust's `to_lowercase` also folds non-ASCII letters, and can change a string's length; the model does not capture that.
- Columns.GetColumns: strings are sequences of characters, not UTF-8 bytes. Slicing agrees with the source for ASCII lines, which is what VCF and FASTA files hold.
- Columns.GetColumns: POS = 0 is modelled as the debug-build overflow panic on `- 1`. A release build wraps to 2^64-1 instead; the following `view` call then fails, so that run also panics, but at the lookup.
- Verifier.Lookup: `usize` is taken to be 64 bits. The overflow of `pos + len` is modelled as the debug-build panic.
- Verifier.ScanLines: the line counter is an unbounded natural number. In the code, `lineno` (src/main.rs:21, 25) is an integer literal and so defaults to `i32`. Past 2^31-1 lines, a debug build panics on the increment and a release build wraps to negative line numbers; the model captures neither.
- Verifier.Compare: the lookup range uses the number of characters of REF, `|REF|`. The code uses `ref_allele.len()` (src/main.rs:34), which counts UTF-8 bytes. For a REF holding non-ASCII characters the two differ, and so can the range looked up and the choice between a `view` panic and a mismatch. The two agree for ASCII REF.
- A line count is not reported as a result. The code uses the counter only to number the "Failed line" reports. The model also records the line a panic happens on, which the code does not print.
