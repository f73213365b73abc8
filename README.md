# PGD report generator: the decision logic, verified

This project models what the PGD report generator decides when it turns a PGD
(preimplantation genetic diagnosis) spreadsheet into one report per case. The
generator runs a single forward scan over the sheet's rows:

- a *summary row* (column 4 is text containing "VỢ") opens a case;
- a look-ahead collects the case's mutation labels from column 8 of the rows
  that follow;
- a consumption loop turns each of those rows into an embryo record;
- both loops stop at the next summary row, or at the next row whose column 0
  holds a value.

Each embryo record is built as follows:

- its zygosity comes from the markers in column 14, in priority order;
- its mutation labels come from the same text, or from the case's labels when
  that text names none;
- it gets a result text (`pgd_result`) and a conclusion.

The records are then sorted into three name buckets by re-reading their result
text, and one conclusion paragraph is written per non-empty bucket. The case's
output file name is derived from its ID and the wife's name.

## Modules

One module per part of the program:

- `Text`: the string operations the code relies on. It covers:
  - searching (`in`, `find`, `rfind`);
  - `strip`;
  - splitting and joining;
  - `lower`/`upper` casing.
- `Cells`: a spreadsheet cell (`Text`, `Num`, `Date`, `Empty`) and what pandas
  makes of it (`notna`, `str`). It also holds the biopsy-date formatting and the
  two row tests, "summary row" and "ends a case".
- `Filename`: `filename_cleanup`.
- `Mutations`: `extract_mutations`, with hand-written recognisers for the five
  patterns of `MUTATION_PATTERNS`. The patterns are tried in table order.
- `RedPhrase`: `extract_red_phrase`, as written and as intended (see Findings).
- `NameBlock`: `pgd_parse_name_block`, as a method with the source's loop,
  proved against a fold over the lines.
- `Classify`: zygosity, `pgd_result` and the conclusion of one embryo row.
- `Report`: the name buckets, `generate_conclusion_block` and the row colour of
  the embryo table.
- `Scanner`: `process_pgd_excel`. It is three methods with the source's loops:
  - `ScanAhead`, the look-ahead;
  - `ConsumeEmbryos`, the consumption loop;
  - `ProcessSheet`, the outer cursor.

  Each is proved against functions of the rows (`RunEnd`, `CaseLabelSet`,
  `Embryos`, `SummaryIndices`, `BuildReport`).

## Modelling choices

- **Set order.** Python's set iteration order (`", ".join(mutation_set)`,
  `list(mutation_set)`) is unspecified. A report therefore records the order it
  used as `caseLabels`. The contract only requires that order to list the
  look-ahead set without repeats. Both uses in the source share that one order.
- **Date formatting.** `Timestamp.strftime("%d/%m/%Y")` is modelled on a `Date`
  cell that carries day, month and year.
- **Differences from the documentation.** Where the code and the
  documentation disagree, the model follows the code:
  - The CD canonicaliser removes every space and every hyphen, so "CD 41-42"
    gives "CD4142". The inline comment at utils.py:23 and the
    documentation say "CD41-42".
  - A missing result value prints as "nan". So an embryo of unknown zygosity
    whose result cell is empty gets the result text "nan", not "".
  - The result text is lower-cased before labels are extracted from it. The
    HGVS pattern wants upper-case bases, so in an embryo's own text an HGVS
    label never carries a base after `>`; in the column-8 look-ahead it can.
  - `\b` and `\w` are Unicode-aware, as in Python. A code written right after a
    letter, as in the usual notation "-α3.7" of the 3.7 deletion, has no word
    boundary before it, so it yields no label. The model reproduces this.

## Model

| member | source | states |
|---|---|---|
| Cells.SummaryRowIff | pgd.py:15-16 | a row is a summary row exactly when its column 4 is text with "VỢ" at some position |
| Cells.FormatDate | pgd.py:144-146 | a formatted date reads dd/mm/yyyy: the first two digits are the day, the next two the month and the rest the year, read back as numbers, with '/' at positions 2 and 5 |
| Cells.BiopsyDate | pgd.py:144-146 | the model of the biopsy date: "" for a missing cell, the formatted date for a timestamp, and the printed value otherwise; its format is stated by Cells.FormatDate |
| Text.NatToStringValue | pgd.py:146 | the decimal digits written for a number read back as that number |
| Cells.IsSummaryRow | pgd.py:15-16 | the model of `pgd_is_summary_row`; its meaning is stated by Cells.SummaryRowIff |
| NameBlock.ParseNameBlock | pgd.py:18-37 | the four fields equal the fold of the line rule over the block's lines; a non-text block gives four empty strings |
| NameBlock.ScanLines | pgd.py:24-35 | the loop over the lines leaves the fields that the fold of the line rule computes |
| NameBlock.SplitAtLastHyphen | pgd.py:26-29 | content with a hyphen splits at its last hyphen into a stripped name and a stripped year |
| NameBlock.SplitAtLastSpace | pgd.py:27-29 | content without a hyphen splits at its last space |
| NameBlock.SplitWithoutSeparator | pgd.py:27-29 | with neither a hyphen nor a space, the name is the whole stripped content and the year is "" |
| NameBlock.YearWithoutHyphen | pgd.py:27-29 | after a split at the last hyphen, the year holds no hyphen |
| NameBlock.LastWifeLineWins | pgd.py:24-29 | the wife's name and year come from the last "VỢ:" line; later lines overwrite earlier ones |
| NameBlock.NoWifeLine | pgd.py:19-29 | with no "VỢ:" line, the wife's name and year stay "" |
| NameBlock.LastHusbandLineWins | pgd.py:31-35 | the husband's fields come from the last "CHỒNG:" line that is not also a "VỢ:" line (the `elif`) |
| NameBlock.NoHusbandLine | pgd.py:19-35 | with no such line, the husband's fields stay "" |
| NameBlock.NotTextGivesNobody | pgd.py:19-20 | a block that is not a string gives four empty strings |
| Classify.ZygosityOf | pgd.py:183-190 | unknown exactly when none of "đồng hợp", "dị hợp", "bình thường" occurs; otherwise its marker occurs and no marker of higher priority does |
| Classify.ClassifyEmbryo | pgd.py:179-227 | the model of one record of the consumption loop: it carries the index it was given (pgd.py:223), and its conclusion is "" exactly when the result text holds no zygosity marker; a homozygous embryo is "Bất thường", and a normal one is "Phôi có thể lựa chọn để cấy" with result text "Bình thường"; a heterozygous embryo is "Bất thường" exactly when it has two labels or more, counting its own labels, or the case's labels when its own text names none (pgd.py:192-195, 212-215); with no label of its own and an empty case set, a homozygous or heterozygous result text is the bare "<zygosity> đột biến" (pgd.py:205-206); its other fields are stated by Classify.FallbackToCaseLabels, Classify.EmbryoMarksZygosity and Report.EmbryoColour |
| Classify.PgdResult | pgd.py:197-208 | the model of `pgd_result`; its forms are stated by Classify.PgdResultJoins, Classify.ResultMarksZygosity and Classify.UnknownMarksNothing |
| Classify.Conclusion | pgd.py:210-220 | the model of `final_conclusion`; its cases are stated by Classify.ConclusionIff |
| Classify.ConclusionIff | pgd.py:210-220 | "Bất thường" iff homozygous, or heterozygous with two labels or more; "Phôi có thể lựa chọn để cấy" iff normal, or heterozygous with fewer; "" iff unknown |
| Classify.ConclusionsDiffer | pgd.py:211-220 | the three conclusions are distinct |
| Classify.PgdResultJoins | pgd.py:199-204 | with a known non-normal zygosity and at least one label, the result text is the zygosity name, " đột biến ", and the labels joined by " và đột biến " (one label included) |
| Classify.FallbackToCaseLabels | pgd.py:192-204 | when the embryo's own text yields no label and its zygosity is homozygous or heterozygous, its result text names the case's labels |
| Classify.EmbryoMarksZygosity | pgd.py:183-208 | the record's lower-cased result text contains its own zygosity's marker and no other |
| Classify.ResultMarksZygosity | pgd.py:197-206 | a built result text marks exactly the zygosity it was built from |
| Classify.UnknownMarksNothing | pgd.py:207-208 | the raw text kept for an unknown zygosity holds none of the three markers |
| Report.BucketByZygosity | pgd.py:233-235 | when every record's text marks its zygosity, the names read back by a marker are exactly the embryos of that zygosity, in row order |
| Report.GroupByZygosity | pgd.py:232-236 | `grouped` is the ", "-join of the homozygous, heterozygous and normal embryos' names, in row order |
| Report.ConclusionBlock | pgd.py:113-131 | there is one paragraph per non-empty bucket, in the order homozygous, heterozygous, normal, each with its own sentence |
| Report.ConclusionBlockSize | pgd.py:113-131 | at most three paragraphs, and none exactly when every bucket is empty |
| Report.RowColour | pgd.py:67-76 | the model of the colour choice for a table row; its cases are stated by Report.ConclusionColour and Report.EmbryoColour |
| Report.ConclusionColour | pgd.py:69-76 | unless the result text is homozygous, "Bất thường" colours red, "Phôi có thể lựa chọn để cấy" green, and "" not at all |
| Report.EmbryoColour | pgd.py:67-76 | an embryo's row is red exactly when its conclusion is "Bất thường", green exactly when it is selectable, and uncoloured exactly when it is "" |
| Scanner.RunEnd | pgd.py:173-177 | the case's rows run from `from` up to the first row that ends a case (or the end of the sheet), and no row before it ends the case |
| Scanner.ScanAhead | pgd.py:155-163 | the look-ahead stops where the case's rows end and collects the union of the column-8 labels of exactly those rows |
| Scanner.SetToSeq | pgd.py:165-169 | the list holds each label of the set exactly once |
| Scanner.ConsumeEmbryos | pgd.py:171-229 | the consumption loop stops at the same row as the look-ahead and turns each row before it into a record, in order |
| Scanner.BuildReport | pgd.py:141-257 | the model of one case's report, the function `Scanner.ProcessCase` is proved against; its parts are stated by Scanner.ReportEmbryos, Scanner.ReportLabels, Scanner.EmptyCase and Report.GroupByZygosity |
| Scanner.ProcessCase | pgd.py:141-261 | one case's report is the one its row and its following rows determine, with names bucketed by zygosity |
| Scanner.ProcessSheet | pgd.py:133-266 | the k-th report is the report of the k-th summary row, and there is one per summary row |
| Scanner.SummaryIndicesExact | pgd.py:137-141 | the rows that get reports are exactly the summary rows, in strictly increasing order |
| Scanner.SummaryIndicesSkip | pgd.py:172-177 | rows consumed by a case hold no summary row, so skipping them skips no report |
| Scanner.CaseLabelSetIff | pgd.py:156-163 | a label is in the case's set iff some row of the case contributes it |
| Scanner.CaseLabelsAreLabels | pgd.py:160-162 | every case label is a label a pattern's canonicaliser produces |
| Scanner.ReportLabels | pgd.py:156-169 | a label is in the report's label list iff a row of the case's own run contributes it |
| Scanner.ReportEmbryos | pgd.py:171-227 | a report has one record per row of its case, with index k+1 and the name from column 4 of that row |
| Scanner.EmbryosMarkRows | pgd.py:179-227 | each record's result text marks the zygosity of its own row's column 14 |
| Scanner.EmptyCase | pgd.py:165-252 | a case with no following rows has no records, no labels, mutation "", empty buckets and no paragraphs |
| Mutations.Extract | utils.py:40-54 | the model of `extract_mutations` on a text, the function `Mutations.ExtractMutations` is proved against; its properties are stated by the Mutations rows below |
| Text.IsWordChar | utils.py:20-24 | the model of `\w` (and so of `\b`) in a Python `str` pattern: a letter, a number or `_`, written out for ASCII, U+0080 to U+052F and U+1E00 to U+1FFF |
| Mutations.AlphaNotationMissed | utils.py:21 | Greek alpha is a word character, so "-α3.7" has no word boundary before "3.7" and yields no label |
| Mutations.ExtractMutations | utils.py:36-54 | non-text input gives []; text gives the labels of its separator-delimited segments, in segment order |
| Mutations.LabelSegment | utils.py:44-53 | the inner loop stops at the first pattern that matches and returns its label |
| Mutations.LabelsOfAppend | utils.py:43-53 | the labels of two runs of segments are the labels of each, in order |
| Mutations.ExtractBound | utils.py:41-53 | there are never more labels than segments |
| Mutations.FirstMatchWins | utils.py:44-53 | when no earlier pattern matches, the first one that does gives the label |
| Mutations.TableOrder | utils.py:19-25 | the patterns are tried in the order SEA, 3.7, 4.2, CD, HGVS |
| Mutations.SearchFinds | utils.py:45 | the search returns the leftmost match |
| Mutations.SearchMisses | utils.py:45 | with no match anywhere, the search finds nothing |
| Mutations.CdLabelShape | utils.py:23 | a CD label is "CD" followed by digits only (no space, no hyphen), and is upper case |
| Mutations.HgvsLabelShape | utils.py:24 | an HGVS label is "c." followed only by digits, capitals, '+', '-' and '>' |
| Mutations.HgvsInLowerCaseText | utils.py:24 | in lower-cased text, an HGVS label ends at '>' and has no capital letter |
| Mutations.ExtractGivesLabels | utils.py:36-54 | every extracted label is one of the five kinds the canonicalisers produce |
| Mutations.SeaBeforeCd | utils.py:19-25 | "SEA CD41" holds a CD match, yet yields "SEA" |
| Mutations.SegmentsOfTwo | utils.py:27-41 | "a, b" splits into `a` and `b` |
| Mutations.ExampleCdLabel | utils.py:23 | "CD 41-42" gives "CD4142" |
| Mutations.ExampleHgvsLabel | utils.py:24 | "c.95A>G" gives itself |
| Mutations.CdAndHgvsExample | utils.py:36-54 | "CD 41-42, c.95A>G" gives ["CD4142", "c.95A>G"] |
| Filename.FilenameCleanup | utils.py:29-34 | the model of `filename_cleanup`, the chain of four substitutions; its properties are stated by the Filename rows below |
| Filename.CleanChar | utils.py:30-33 | each character becomes at most one character, and that one is safe |
| Filename.CleanupIsPerChar | utils.py:29-34 | the chain of substitutions acts character by character |
| Filename.CleanupSafe | utils.py:29-34 | the output has none of the nine characters the first substitution removes (angle brackets, colon, double quote, both slashes, vertical bar, question mark, asterisk), no space, no parenthesis, no 'α'/'Α', and is never longer than the input |
| Filename.CleanupIdempotent | utils.py:29-34 | cleaning twice is cleaning once |
| Filename.CleanupKeepsOthers | utils.py:29-34 | a name that is already safe is left as it is |
| Filename.CleanupExample | utils.py:29-34 | "Case (1)/Test*" gives "Case_1Test" |
| RedPhrase.ExtractRedPhrase | utils.py:112-121 | the model of `extract_red_phrase` as written; its properties are stated by the RedPhrase rows below |
| RedPhrase.ExtractRedPhraseToEnd | utils.py:112-121 | the intended reading, where the phrase runs to the end of the sentence when no "trên gen" follows; stated by RedPhrase.IntendedStartsWithMarker and RedPhrase.IntendedKeepsMarker |
| RedPhrase.NoMarkerNoPhrase | utils.py:112-121 | a sentence without "dị hợp tử" gives "" |
| RedPhrase.PhraseUpToGene | utils.py:113-120 | when "trên gen" follows the marker, the phrase is the stripped text from the marker's first occurrence to that "trên gen" |
| RedPhrase.PhraseStartsWithMarker | utils.py:113-120 | in that case the phrase starts with its marker |
| RedPhrase.PhraseWithoutGene | utils.py:115-120 | without a following "trên gen", the code slices to one character before the end |
| RedPhrase.CutShort | utils.py:117-120 | "dị hợp tử" alone gives "dị hợp t" |
| RedPhrase.IntendedStartsWithMarker | utils.py:112-121 | the intended reading always starts with the marker it found, preferring "đột biến dị hợp tử" |
| RedPhrase.IntendedKeepsMarker | utils.py:117-120 | the intended reading gives "dị hợp tử" for "dị hợp tử" |

## Left out

- `gui.py`: the windows, dialogs and the settings file are user interface and disk I/O.
- Reading the workbook (`pd.read_excel`, `iloc`) is not modelled. The input is a sequence of rows of cells.
- `datetime.today()` (pgd.py:231, 246-248) is a clock, so the report has no issue-date fields. The constant `"address": ""` is not kept either.
- `render_report`, template loading and saving, and `results.append((output_name, output_path))` are not modelled. The output path comes from the file system, so a report carries its output name but no path.
- `style_embryo_table`'s document edits are not modelled; its colour choice is `Report.RowColour`. Its walk over the table is also left out, including the stop once a conclusion text grows past 50 characters.
- `remove_alternating_empty_rows` (pgd.py:91-111) is left out, including the odd-index selection of blank rows: it only edits the document.
- `highlight_mutation_phrases` (utils.py:71-110) is left out, because it edits document runs. It takes its phrases as a parameter. Nothing in the program calls `extract_red_phrase`, so the report does not depend on it.
- `RichText` bold formatting is not modelled: paragraphs are plain strings.
- Regular expressions are not modelled in general. The five fixed patterns, `\b` and the separator split are written out as recognisers.
- Mutations.ExtractMutations: `\d` and `\w` are narrower than Python's Unicode classes.
  - `\d` is only the ASCII digits. Python also matches other decimal digits, such as the Arabic-Indic '٤', in the CD and HGVS patterns.
  - `Text.IsWordChar`, and so `Mutations.Boundary`, follows Python's `\w` for ASCII, U+0080 to U+052F and U+1E00 to U+1FFF. Elsewhere it treats a letter or number as a non-word character. So a code right after, say, an Armenian or a CJK letter yields a label in the model but none in the source.
  - Inside those ranges the model agrees with the source, and both give no label for "-α3.7". The exception is a result column holding 'İ', whose lower-casing is described in the next item.
- Case mapping covers only some letters. `Text.Lower` covers ASCII, all of Latin-1 and the Vietnamese capitals. `Text.Upper` covers ASCII, Latin-1 and the Vietnamese letters, except that it leaves ß, ÿ and µ unchanged, where Python gives "SS", "Ÿ" and "Μ". Every other character is left unchanged.
  - `upper` runs on each line of the name block (pgd.py:25, 31) and on a CD match (utils.py:23).
    - A CD match is "CD", digits, white space and hyphens, all ASCII.
    - In the name block, `upper` only serves the tests for "VỢ:" and "CHỒNG:". The model upper-cases every letter of both tags, and no character outside the model's mapping upper-cases to any of those letters, with two exceptions. 'ŉ' gives "ʼN" and 'ẖ' gives "H̱", and neither can complete a tag. So the gap reaches neither a label nor a name.
  - `lower` runs on the result column before the markers are searched and the patterns are tried (pgd.py:181). It also runs on `pgd_result` and the table cells before the markers are searched again (pgd.py:67, 233-235). Among the characters `Text.Lower` leaves unchanged, none lower-cases in Python to a marker letter, a pattern character, or a character of a different word class. The one exception is 'İ' (U+0130), which Python lowers to "i" and the combining dot U+0307, which is not a word character. So the source finds "3.7" in "İ3.7". In the model 'İ' stays a word character, and no label is found.
- Determinism of `extract_mutations` is not stated as a lemma: `Mutations.Extract` is a function, so equal inputs give equal lists by construction.
- Scanner.Rectangular: every row must have at least 15 cells, because the code reads column 14. In the source, a sheet narrower than that raises as soon as a row reads a missing column. Which column fails depends on the rows:
  - column 4 in the summary-row test on every row;
  - column 8 in the look-ahead;
  - column 14 for an embryo row.

  The model does not cover that error path. It also excludes a narrow sheet none of whose rows is read as an embryo, which the source processes. The look-ahead stops at a non-empty column 0 before it reads column 8 (pgd.py:158), and the consumption loop stops there before it reads column 14 (pgd.py:176).
- Scanner.ProcessCase: the order of the case labels is any listing of the label set without repeats, because Python's set order is unspecified.

## Findings

| source | as written | input that shows it | evidently intended | confidence | as-written member | corrected member |
|---|---|---|---|---|---|---|
| utils.py:115-120 | when no "trên gen" follows the marker, `find` returns -1 and `sentence[start:-1]` drops the last character | "dị hợp tử" gives "dị hợp t" | the phrase runs to the end of the sentence | not executed | RedPhrase.CutShort | RedPhrase.IntendedStartsWithMarker |
