# genome-cleaner core, in Dafny

genome-cleaner reads FASTA and FASTQ files of DNA sequences. It validates each
(header, sequence) record, optionally sanitises the sequence, flags repeated
headers and summarises a batch in a statistical report. The web front end then
buckets the results by quality and writes the valid sequences back out as FASTA.

This project models that logic over strings and lists and proves what the code
promises:

- `Validator` (src/validator.py) models:
  - `validate_sequence` as the method `ValidateSequence` against the function
    `ValidationOf`. It covers the blank-input early exit and the normalisation
    (upper-casing, then removing space, tab and newline). It also covers the
    alphabet check over A, C, G, T, N with its error listing each offending
    character once, the replacement by N under sanitisation, the length check,
    and the all-N and low-complexity warnings.
  - `validate_sequences`, with its two passes for duplicate headers
    (`ValidateSequences` against `BatchValidationOf`).
  - `get_validation_summary` (`GetValidationSummary` against `SummaryOf`).
  - `filter_valid_sequences`, `calculate_gc_content` and
    `calculate_sequence_stats`.
- `Stats` (src/stats.py) models `generate_report` as three methods:
  - one step of its loop (`Visit`);
  - the loop itself (`CollectResults`);
  - the derivation of the report (`GenerateReport`).

  Each method is proved against a function. The module also models the helpers
  for length and GC statistics, integer-division quartiles, the stable top ten,
  error classification, error analysis and the four quality buckets.
- `Parser` (src/parser.py) models:
  - `_is_fasta_format`;
  - `_parse_fasta`, as a line loop carrying the current header and sequence
    lines;
  - `_parse_fastq`, as a loop whose index moves by 1, 2 or 4.

  All three work on the lines of `content.strip().split('\n')`.
- `App` (app.py) models `calculate_quality_distribution` and
  `generate_fasta_export`. It proves that parsing the exported text with the
  FASTA parser gives back exactly the exported records.

The shared modules hold:

- `Text`: Python's `strip`, `upper`, `split` and `join`, and substring tests;
- `Tally`: insertion-ordered counters, as Python dicts and `Counter`s behave;
- `Sorting`: a stable sort;
- `Ratio`: percentages and means over exact reals;
- `Seqs`: small sequence lemmas;
- `Records`: the (header, sequence) pair.

A few behaviours of the code are modelled as written:

- `corrected_length` keeps the raw input length when the input had no invalid
  characters, even though `corrected_sequence` then has its whitespace removed.
  `CorrectedLengthAgreement` states exactly when the two agree.
- Without sanitisation, `corrected_sequence` is the raw input whenever the
  alphabet check passes. It is absent when the input is blank or an invalid
  character was found.
- The validator never sets `original_sequence`, so it is an optional field.
- `calculate_quality_distribution` in app.py returns all four keys even for an
  empty batch. Its counterpart in src/stats.py returns an empty dictionary then.

## Model

| member | source | states |
|---|---|---|
| Validator.ValidationOf | src/validator.py:15-88 | `is_valid` holds exactly when `errors` is empty; the header and `original_length` are the input's; `corrected_sequence` is set exactly when sanitising, or when the non-blank input passed the alphabet check |
| Validator.ValidateSequence | src/validator.py:15-88 | the step-by-step construction of the result dictionary yields `ValidationOf`, and `is_valid` holds exactly when no error was appended |
| Validator.CollectInvalid | src/validator.py:54-58 | the loop gathers exactly the characters outside A, C, G, T, N, in order (`Offending`) |
| Validator.Offending | src/validator.py:54-58 | the list of offending characters is empty exactly when the sequence is over A, C, G, T, N |
| Validator.OffendingMembers | src/validator.py:56-58 | a character is listed exactly when it occurs in the sequence and is not one of A, C, G, T, N |
| Validator.DistinctMembers | src/validator.py:61 | the characters named in the error are the offending ones, each once (Python's `set`) |
| Validator.Sanitize | src/validator.py:67 | replacing non-alphabet characters by N keeps the length |
| Validator.SanitizeShape | src/validator.py:67 | the sanitised sequence is over A, C, G, T, N, and each position keeps an alphabet character and holds N otherwise |
| Validator.SanitizeClean | src/validator.py:67 | sanitising a sequence already over the alphabet changes nothing |
| Validator.NormalizeLength | src/validator.py:48 | normalising removes exactly the spaces, tabs and newlines: the length drops by their count and none is left |
| Validator.NormalizeKeeps | src/validator.py:48 | every character other than a space, a tab or a newline survives normalisation, upper-cased; carriage returns, form feeds and other whitespace are kept too |
| Validator.NormalizeNonEmpty | src/validator.py:42-48 | a sequence that is not blank for `strip()` is not empty after normalising |
| Validator.NormalizeBases | src/validator.py:48 | a sequence already over A, C, G, T, N normalises to itself |
| Validator.EmptyExactlyWhenBlank | src/validator.py:41-45 | "Empty sequence" is reported exactly when `sequence.strip()` is empty, and then it is the only error and there are no warnings |
| Validator.SanitizedAlphabet | src/validator.py:48-71 | with sanitisation a non-blank input comes back non-empty and over A, C, G, T, N, as long as the input less its spaces, tabs and newlines; it is the normalised input with every other character replaced by N |
| Validator.SanitizeIdempotent | src/validator.py:65-71 | re-validating the corrected sequence with sanitisation returns it unchanged, with no alphabet error |
| Validator.InvalidCharactersReported | src/validator.py:54-63 | the invalid-characters error appears exactly when the normalised non-blank input has a character outside the alphabet, whether or not it is sanitised; it comes first and lists the distinct offending characters |
| Validator.TooShortReported | src/validator.py:73-78 | the too-short error appears exactly when the normalised length is below the minimum; it is the last error, so it follows the alphabet error without replacing it |
| Validator.WarningsReported | src/validator.py:80-86 | the all-N warning appears exactly when the checked sequence is non-empty and all N; the low-complexity warning appears exactly when the checked sequence is of low complexity |
| Validator.LowComplexityIntegers | src/validator.py:127-144 | a sequence is of low complexity exactly when its length is at least 10 and it has fewer than 4 distinct characters or 10·distinct < 3·length |
| Validator.SanitizedAllN | src/validator.py:65-86 | the sanitised sequence is all N exactly when every character was N or outside the alphabet |
| Validator.CorrectedLengthAgreement | src/validator.py:31-71 | with sanitisation, `corrected_length` equals the length of `corrected_sequence` exactly when the input is blank, had invalid characters, or held no space, tab or newline |
| Validator.OwnErrorsNoDuplicatePhrase | src/validator.py:41-78 | no error of a single validation contains "Duplicate header" |
| Validator.BatchValidationOf | src/validator.py:91-124 | the batch has one result per record, in order, with `sequence_index` i and the record's header, and `is_valid` holds exactly when `errors` is empty |
| Validator.ValidateSequences | src/validator.py:91-124 | the two-pass loop yields `BatchValidationOf` |
| Validator.DuplicateHeadersFlagged | src/validator.py:102-117 | a header occurring k > 1 times gets "Duplicate header found (k occurrences)" appended as its last error and is invalid; a header occurring once keeps its own errors and validity; warnings and corrections are untouched |
| Validator.BatchDuplicateCountPrefix | src/validator.py:102-117 | over each prefix, the results flagged as duplicates are exactly the records whose header is repeated in the whole batch |
| Validator.BatchDuplicateCount | src/validator.py:102-117 | the number of results with a duplicate-header error, and the summary's `duplicate_headers`, equal the number of records whose header is repeated |
| Validator.FilterValid | src/validator.py:208-217 | the filtered list holds exactly the valid results, and as many as there are valid results |
| Validator.FilterValidSnoc | src/validator.py:217 | one more result is appended to the filtered list exactly when it is valid |
| Validator.FilterValidAppend | src/validator.py:217 | filtering distributes over concatenation, so the valid results keep their input order and multiplicity |
| Validator.SummaryOf | src/validator.py:220-279 | total = valid + invalid = number of results; the valid, sanitised and duplicate-header counts are the numbers of results that are valid, were sanitised and carry a duplicate-header error; the validity percentage is valid / total · 100; `total_errors` equals the sum of the `error_types` counts, the validity percentage lies in [0, 100] and is present exactly for a non-empty batch, and an empty batch gives all-zero counts |
| Validator.GetValidationSummary | src/validator.py:220-279 | the counting loops yield `SummaryOf` |
| Validator.AllErrorsLength | src/validator.py:252-255 | the flattened error list has the total number of errors |
| Validator.LabelsCountKinds | src/validator.py:257-268 | each `error_types` label counts exactly the errors of its class |
| Validator.KindCountsSum | src/validator.py:257-268 | every error falls in exactly one of the five classes |
| Validator.SummaryErrorTypes | src/validator.py:252-277 | `total_errors` is the sum of the errors of all results, each class count is the number of errors of that class, and the five counts sum to `total_errors` |
| Validator.KindOfInvalidCharacters | src/validator.py:259-260 | an invalid-characters error is classed as "Invalid characters" |
| Validator.KindOfTooShort | src/validator.py:261-262 | a too-short error is classed as "Too short" |
| Validator.KindOfDuplicateHeader | src/validator.py:263-264 | a duplicate-header error is classed as "Duplicate headers", not as "too short" |
| Validator.KindOfEmptySequence | src/validator.py:265-266 | the empty-sequence error is classed as "Empty sequence" |
| Validator.GcContent | src/validator.py:147-167 | GC content lies in [0, 100] |
| Validator.GcContentMeaning | src/validator.py:147-167 | GC content is 0 exactly when there is no G or C, 100 exactly when every A/C/G/T base is G or C, and otherwise 100·(G+C)/(A+C+G+T) |
| Validator.GcContentUpper | src/validator.py:159 | GC content does not depend on letter case |
| Validator.SequenceStatsOf | src/validator.py:170-205 | the statistics give the length, the A, T, G, C and N counts of the upper-cased sequence, base counts whose A+T+G+C is `valid_chars`, G+C matching the GC content, and `valid_chars` + N count at most the length |
| Stats.Least | src/stats.py:214 | `min` returns a member no greater than any other |
| Stats.Greatest | src/stats.py:215 | `max` returns a member no smaller than any other |
| Stats.IntSumBounds | src/stats.py:216-218 | a sum of values within bounds is within n times those bounds |
| Stats.SortedInts | src/stats.py:240 | `sorted` returns an ascending permutation |
| Stats.SortedReals | src/stats.py:233 | `sorted` returns an ascending permutation |
| Stats.QuartilesOrdered | src/stats.py:238-247 | all three quartiles are 0 for no values; otherwise q1 ≤ q2 ≤ q3, each is one of the values, and they lie between the minimum and the maximum |
| Stats.LengthStatsOrdered | src/stats.py:208-221 | there are no length statistics exactly for no lengths; otherwise count and total are the number and sum of the lengths, min ≤ q1 ≤ median ≤ q3 ≤ max, the median is q2 and one of the lengths, and every length lies between min and max |
| Stats.LengthMeanBounds | src/stats.py:216 | the mean length lies between the minimum and the maximum |
| Stats.GcStatsOrdered | src/stats.py:224-235 | there are no GC statistics exactly for no values; otherwise count is their number, min ≤ median ≤ max, the median is one of them, and every value lies between min and max |
| Stats.RealSumBounds | src/stats.py:232 | a sum of values within bounds is within n times those bounds |
| Stats.GcMeanBounds | src/stats.py:232 | the mean GC content lies between the minimum and the maximum |
| Stats.SequenceEntries | src/stats.py:55-90 | there are at most as many per-sequence entries as results |
| Stats.SequenceEntriesSound | src/stats.py:55-90 | every entry describes the result at its `sequence_index`, which has a non-empty analysed sequence, with that sequence's statistics, header and validity; the indices increase |
| Stats.SequenceEntriesComplete | src/stats.py:55-58 | every result with a non-empty analysed sequence has an entry |
| Stats.ContributionsMatch | src/stats.py:58-72 | the lengths and GC lists are the entries' lengths and GC contents, position by position |
| Stats.InvalidDetails | src/stats.py:92-100 | there are as many invalid details as invalid results |
| Stats.InvalidDetailsSound | src/stats.py:92-100 | each invalid detail describes an invalid result at its index, with its header, errors, warnings and original length; the indices increase |
| Stats.InvalidDetailsComplete | src/stats.py:92-100 | every invalid result has a detail |
| Stats.ValidInvalidPartition | src/stats.py:30-32 | valid and invalid results together make up the batch |
| Stats.ClassifiesValidatorMessages | src/stats.py:268-279 | each of the validator's four messages is classified under its own type |
| Stats.ErrorDetailsOf | src/stats.py:102-107 | an invalid result contributes one detail per error |
| Stats.ErrorDetailsExact | src/stats.py:102-107 | every error detail comes from an invalid result, with its index, header and one of its errors classified by `_classify_error`; for consistent results there is one detail per error of an invalid result |
| Stats.ErrorAnalysisCounts | src/stats.py:282-303 | `total_errors` is the number of details and the sum of the type counts; each type counts its details; there is a most common type exactly when there are details, and it is the first-inserted type with the largest count |
| Stats.AnalyzeErrors | src/stats.py:282-303 | the counting loop yields `ErrorAnalysisOf` |
| Stats.TopCount | src/stats.py:256 | the top list takes at most ten entries |
| Stats.LongestFirst | src/stats.py:253 | sorting by length keeps every entry |
| Stats.TopLongestOrder | src/stats.py:250-265 | min(n, 10) entries, so exactly ten when there are more, ranked 1..k, with non-increasing length and no shorter than any left out; ties keep their input order |
| Stats.GetTop10Longest | src/stats.py:250-265 | the ranking loop yields `TopLongest` |
| Stats.QualityCountsOf | src/stats.py:318-333 | each result falls in exactly one bucket, so the four buckets sum to the number of results |
| Stats.QualityCountsPerBucket | src/stats.py:318-333 | each bucket's count is the number of results whose errors and warnings put them in that bucket |
| Stats.CalculateQualityDistribution | src/stats.py:306-335 | the counting loop yields the bucket counts for a non-empty batch and nothing for an empty one |
| Stats.QualityMatchesValidity | src/stats.py:318-326 | for consistent results, high plus medium is the number of valid results |
| Stats.PassFields | src/stats.py:45-107 | the pass counts sanitised results and results with a duplicate-header error, and collects the per-sequence entries, lengths, GC contents, invalid details and error details exactly as specified above |
| Stats.Visit | src/stats.py:45-107 | one iteration of the loop performs `Step` |
| Stats.CollectResults | src/stats.py:45-107 | the loop yields `Pass` |
| Stats.GenerateReport | src/stats.py:17-147 | the report is `ReportOf` |
| Stats.ReportFields | src/stats.py:30-147 | for a non-empty batch, the report's sanitised and duplicate counts, statistics list, length and GC statistics, top ten, invalid details and error analysis are those of the pass |
| Stats.ReportCounts | src/stats.py:17-147 | an empty batch gives the empty report; otherwise totals match, valid + invalid = total, the invalid details number the invalid results, the validity percentage and sanitisation rate are valid / total · 100 and sanitised / total · 100 and lie in [0, 100], length and GC statistics are absent exactly when no sequence contributed, and the top list has at most ten entries |
| Stats.ReportErrorTotals | src/stats.py:102-120 | for consistent results, the analysed error total is the number of errors and high + medium quality is the valid count |
| Sorting.SortBySorted | src/stats.py:253 | sorting by a key orders the entries by that key |
| Sorting.SortByStable | src/stats.py:253 | sorting is stable: entries with equal keys keep their order |
| Ratio.PercentBounds | src/stats.py:135-136 | a part of a whole, as a percentage, lies in [0, 100] |
| Ratio.MeanBounds | src/stats.py:216 | a mean lies between the bounds of the values |
| Parser.Lines | src/parser.py:29 | the lines are never empty as a list and hold no line break |
| Parser.LinesOfJoin | src/parser.py:29 | lines joined by line breaks split back into themselves when the text has no surrounding whitespace |
| Parser.VerdictFromMeaning | src/parser.py:34-44 | the scan from line i says FASTA exactly when a header line within the first ten is preceded from i only by blank lines, the first line, or headers |
| Parser.LooksLikeFastaMeaning | src/parser.py:20-44 | content is taken for FASTA exactly when, within its first ten lines, a header line comes before any non-blank non-header line other than the first |
| Parser.IsFastaFormat | src/parser.py:20-44 | the scan with early returns yields `LooksLikeFasta` |
| Parser.ParseFasta | src/parser.py:89-127 | the line loop yields `FastaRecordsOf` |
| Parser.FeedAppend | src/parser.py:103-119 | feeding two runs of lines is feeding their concatenation |
| Parser.FeedWellFormed | src/parser.py:103-119 | every saved record has a non-empty sequence and every kept sequence line is non-blank, at every step |
| Parser.FastaSequencesNonEmpty | src/parser.py:109-125 | every FASTA record has a non-empty sequence |
| Parser.PreambleDiscarded | src/parser.py:103-119 | lines before the first header line produce no record and no header |
| Parser.PreambleIgnored | src/parser.py:103-125 | prefixing a header-free preamble does not change the records |
| Parser.BlocksFromShape | src/parser.py:103-119 | the lines from a header line on are a sequence of blocks, each a header line and the lines up to the next header line |
| Parser.FeedBody | src/parser.py:117-119 | lines between headers only add their stripped, non-blank text to the current sequence |
| Parser.FeedBlock | src/parser.py:108-119 | a header line saves the record under way and starts a new one with the stripped text after `>` |
| Parser.FeedBlocks | src/parser.py:103-125 | feeding blocks adds, in order, one record per block whose stripped lines join to a non-empty sequence |
| Parser.FastaByBlocks | src/parser.py:89-127 | for lines made of a header-free preamble and blocks, the records are: the stripped text after `>` of each block's header, with the concatenation of its stripped lines, for each block where that is non-empty, in order |
| Parser.FastaRecordsByBlocks | src/parser.py:89-127 | every content splits into its preamble and blocks, and its records are those of its blocks |
| Parser.NextHeader | src/parser.py:108 | the next header line at or after i, with none before it |
| Parser.ParseFastq | src/parser.py:130-168 | the loop with its index moving by 1, 2 or 4 yields `FastqRecordsOf` |
| Parser.FastqFromSound | src/parser.py:143-166 | every FASTQ record has a non-empty sequence and is the stripped text after `@` of some line with the stripped next line as sequence |
| Parser.FastqShift | src/parser.py:143-166 | a four-line record ahead of the rest shifts the scan by four lines |
| Parser.FastqEntryHead | src/parser.py:147-161 | a well-written four-line entry gives its record and moves on by four lines |
| Parser.FastqEntryLines | src/parser.py:143-166 | lines of well-written four-line entries give one record per entry, in order |
| Parser.FastqRoundTrip | src/parser.py:130-168 | parsing the text of well-written four-line entries gives back their headers and sequences |
| Parser.EntryLines | src/parser.py:147-158 | entries are four lines each |
| App.LevelsBump | app.py:837-847 | incrementing a named bucket agrees with adding the result to that bucket's count |
| App.CalculateQualityDistribution | app.py:824-849 | the counting loop yields `QualityLevelsOf` |
| App.LevelsGet | app.py:826-831 | looking up a bucket's key finds that bucket's count |
| App.QualityLevelsMeaning | app.py:824-849 | there are exactly the four distinct keys; each key counts exactly the results of its bucket, and the counts sum to the number of results; an empty batch gives four zeros, and otherwise the four values, read by key, are the report's quality distribution |
| App.QualityLevelsValid | app.py:833-841 | for consistent results, High plus Medium Quality is the number of valid results |
| App.ChunksFromShape | app.py:880-881 | from an offset, the chunks number ⌈remaining/60⌉, and chunk k is the slice starting at offset + 60k, of up to 60 characters |
| App.ChunksMeaning | app.py:879-881 | the chunks concatenate back to the sequence; they number ⌈length/60⌉, each has 1 to 60 characters, and all but the last have exactly 60 |
| App.ChunksConcat | app.py:880-881 | the chunks from an offset concatenate to the rest of the sequence |
| App.GenerateFastaExport | app.py:870-884 | the nested loops yield `FastaExportOf` |
| App.ExportEmptyIff | app.py:874-884 | the export is the empty string exactly when no result is valid with a non-empty chosen sequence |
| App.ExportLinesFirst | app.py:874-882 | a non-empty export starts with `>` and the first exported header, and ends with an empty line |
| App.ExportEmptyLines | app.py:874-882 | no lines means no exported record |
| App.ChunksClean | app.py:880-881 | the chunks of a sequence with no whitespace and no `>` are non-blank lines that are not headers |
| App.FeedSequenceLines | app.py:880-881 | sequence lines only extend the current record when read back by the FASTA parser |
| App.FeedRecord | app.py:878-882 | one exported record, read back, starts a record with its header and chunks |
| App.FeedExport | app.py:874-882 | reading back all export lines leaves exactly the exported records |
| App.ExportLinesEnd | app.py:878-882 | the line before the final empty line is a clean sequence line |
| App.ExportLinesNoBreak | app.py:878-882 | no export line contains a line break |
| App.ExportTextLines | app.py:884 | the export text splits back into its lines, less the final empty one |
| App.ExportRoundTrip | app.py:870-884 | parsing the export with `_parse_fasta` gives back exactly the exported records, in order: each valid result with a non-empty chosen sequence, whose header is stripped and whose sequence holds no whitespace and no `>` |

## Left out

- File reading, `load_sequences`, `detect_file_format`, `save_report` with
  `_save_json_report` and `_save_csv_report`, the command-line interface in
  src/cli.py, the Streamlit UI in app.py and `generate_csv_report` are I/O,
  JSON/CSV formatting and presentation. They are not part of this model.
- The report's `generated_at` is the wall clock (`datetime.now()`). Here it is
  a parameter of `GenerateReport`.
- Floating point: percentages, means and GC contents are exact reals, with no
  Python rounding.
- `str.upper()` is modelled for ASCII letters only (`Text.Upper`). Characters
  whose upper case is longer than one character are out of scope, so
  upper-casing keeps the length.
- Validator.DistinctMembers: Python builds the invalid-characters listing from a
  `set`, whose iteration order is unspecified. The model lists each offending
  character once, in order of first occurrence. Its contract states the members
  and their distinctness, not the order.
- The check `if not lines` in `_is_fasta_format` (src/parser.py:30-31) can never
  fire, because `split` always returns at least one piece (`Parser.Lines`).
  It is left out.
- Validator.ValidateSequence: the default arguments `min_length=20` and
  `sanitize=False` are not modelled. Callers pass both.
- App.ExportRoundTrip: the round trip is proved for results whose header has
  no surrounding whitespace and no line break, and whose chosen sequence
  contains no whitespace and no `>`. For other results the parser strips or
  splits the text, so the round trip does not hold.
- Parser.FastqRoundTrip: the round trip is proved for a non-empty list of
  entries whose header, sequence and quality have no surrounding whitespace and
  no line break, and whose sequence and quality are non-empty. `_parse_fastq`
  never inspects the `+` and quality lines.
- Stats.QualityMatchesValidity, Stats.ErrorDetailsExact,
  Stats.ReportErrorTotals and App.QualityLevelsValid: the count identities
  that compare against `is_valid` assume results whose `is_valid` agrees with
  their `errors`, as every result of the validator does (`Consistent`).
