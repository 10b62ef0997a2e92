/**
 * The two computations of the web front end that work on validation results
 * alone: the named four-way quality count, and the FASTA text of the valid
 * sequences wrapped at sixty characters.
 */
module App {
  import opened Wrappers
  import opened Text
  import opened Records
  import opened Tally
  import opened Validator
  import Stats
  import Parser
  import Seqs

  // ------------------------------------------------ calculate_quality_distribution

  /** The dictionary key of each bucket. */
  function LevelName(b: Stats.Quality): string {
    match b
    case High => "High Quality"
    case Medium => "Medium Quality"
    case Low => "Low Quality"
    case Unusable => "Unusable"
  }

  /** The dictionary, keys in the order the source lists them. */
  function Levels(q: Stats.QualityCounts): Counts {
    [Entry("High Quality", q.high), Entry("Medium Quality", q.medium),
     Entry("Low Quality", q.low), Entry("Unusable", q.unusable)]
  }

  /** What `calculate_quality_distribution` returns: all four keys, even for no results. */
  function QualityLevelsOf(results: seq<ValidationResult>): Counts {
    Levels(Stats.QualityCountsOf(results))
  }

  /** Adding one to a bucket's key is counting one more result in that bucket. */
  lemma {:induction false} LevelsBump(q: Stats.QualityCounts, b: Stats.Quality)
    ensures Bump(Levels(q), LevelName(b)) == Levels(Stats.Add(q, b))
  {
    var t := Levels(q);
    var k := LevelName(b);
    LevelNamesDistinct();
    assert t[1..] == t[1..4] && t[1..][1..] == t[2..4] && t[2..4][1..] == [t[3]];
    match b
    case High =>
    case Medium =>
      assert Bump(t[1..4], k) == [Entry(k, q.medium + 1)] + t[2..4];
    case Low =>
      assert Bump(t[2..4], k) == [Entry(k, q.low + 1)] + [t[3]];
      assert Bump(t[1..4], k) == [t[1]] + Bump(t[2..4], k);
    case Unusable =>
      assert Bump([t[3]], k) == [Entry(k, q.unusable + 1)];
      assert Bump(t[2..4], k) == [t[2]] + Bump([t[3]], k);
      assert Bump(t[1..4], k) == [t[1]] + Bump(t[2..4], k);
  }

  /** The four keys differ in their first character. */
  lemma {:induction false} LevelNamesDistinct()
    ensures "High Quality" != "Medium Quality" && "High Quality" != "Low Quality" && "High Quality" != "Unusable"
    ensures "Medium Quality" != "Low Quality" && "Medium Quality" != "Unusable" && "Low Quality" != "Unusable"
  {
    assert "High Quality"[0] == 'H' && "Medium Quality"[0] == 'M';
    assert "Low Quality"[0] == 'L' && "Unusable"[0] == 'U';
  }

  /** Looking up a bucket's name finds that bucket's count. */
  lemma {:induction false} LevelsGet(q: Stats.QualityCounts, b: Stats.Quality)
    ensures Get(Levels(q), LevelName(b)) == Stats.Bucket(q, b)
  {
    var t := Levels(q);
    var k := LevelName(b);
    LevelNamesDistinct();
    assert t[1..] == [t[1], t[2], t[3]] && t[1..][1..] == [t[2], t[3]] && t[1..][1..][1..] == [t[3]];
    match b
    case High =>
    case Medium =>
      assert Get(t, k) == Get(t[1..], k);
    case Low =>
      assert Get(t, k) == Get(t[1..], k) == Get(t[1..][1..], k);
    case Unusable =>
      assert Get(t, k) == Get(t[1..], k) == Get(t[1..][1..], k) == Get(t[1..][1..][1..], k);
  }

  /** `calculate_quality_distribution`: one increment per result. */
  method CalculateQualityDistribution(results: seq<ValidationResult>) returns (levels: Counts)
    ensures levels == QualityLevelsOf(results)
  {
    levels := [Entry("High Quality", 0), Entry("Medium Quality", 0), Entry("Low Quality", 0), Entry("Unusable", 0)];
    for i := 0 to |results|
      invariant levels == QualityLevelsOf(results[..i])
    {
      assert results[..i + 1][..i] == results[..i];
      var result := results[i];
      LevelsBump(Stats.QualityCountsOf(results[..i]), Stats.QualityOf(result));
      var hasErrors := |result.errors| > 0;
      var hasWarnings := |result.warnings| > 0;
      if !hasErrors {
        if !hasWarnings {
          levels := Bump(levels, "High Quality");
        } else {
          levels := Bump(levels, "Medium Quality");
        }
      } else {
        var canBeSanitized := exists e :: e in result.errors && Contains(e, "Invalid characters");
        if canBeSanitized {
          levels := Bump(levels, "Low Quality");
        } else {
          levels := Bump(levels, "Unusable");
        }
      }
    }
    assert results[..|results|] == results;
  }

  /**
   * The four keys are always present and distinct, every result is counted once,
   * each key counts exactly the results of its bucket, and for a non-empty batch
   * the counts are the report's quality distribution; the report has none for an
   * empty batch while this dictionary holds four zeros.
   */
  lemma {:induction false} QualityLevelsMeaning(results: seq<ValidationResult>)
    ensures var levels := QualityLevelsOf(results);
            |levels| == 4 && DistinctKeys(levels) && Total(levels) == |results|
            && (forall b :: HasKey(levels, LevelName(b)))
            && (forall b :: Get(levels, LevelName(b)) == Stats.InBucket(results, b))
            && (results == [] ==> forall b :: Get(levels, LevelName(b)) == 0)
            && (results != [] ==>
                  Stats.QualityDistributionOf(results)
                  == Some(Stats.QualityCounts(Get(levels, LevelName(Stats.High)), Get(levels, LevelName(Stats.Medium)),
                                              Get(levels, LevelName(Stats.Low)), Get(levels, LevelName(Stats.Unusable)))))
  {
    var levels := QualityLevelsOf(results);
    var q := Stats.QualityCountsOf(results);
    forall b ensures Get(levels, LevelName(b)) == Stats.InBucket(results, b) {
      LevelsGet(q, b);
      Stats.QualityCountsPerBucket(results, b);
    }
    LevelsGet(q, Stats.High);
    LevelsGet(q, Stats.Medium);
    LevelsGet(q, Stats.Low);
    LevelsGet(q, Stats.Unusable);
    LevelNamesDistinct();
    assert levels[1..] == levels[1..4] && levels[1..4][1..] == levels[2..4] && levels[2..4][1..] == [levels[3]];
    assert Total([levels[3]]) == levels[3].count;
    assert Total(levels[2..4]) == levels[2].count + levels[3].count;
    assert Total(levels[1..4]) == levels[1].count + levels[2].count + levels[3].count;
    forall b ensures HasKey(levels, LevelName(b)) {
      match b
      case High => assert levels[0].key == LevelName(b);
      case Medium => assert levels[1].key == LevelName(b);
      case Low => assert levels[2].key == LevelName(b);
      case Unusable => assert levels[3].key == LevelName(b);
    }
  }

  /** With validity agreeing with the errors, the high and medium keys together count the valid results. */
  lemma {:induction false} QualityLevelsValid(results: seq<ValidationResult>)
    requires Consistent(results)
    ensures Get(QualityLevelsOf(results), "High Quality") + Get(QualityLevelsOf(results), "Medium Quality")
            == CountWhere(results, IsValidResult)
  {
    Stats.QualityMatchesValidity(results);
  }

  // ---------------------------------------------------------- generate_fasta_export

  /** The width of a sequence line in the export. */
  const LineWidth := 60

  /** `[s[i:i+60] for i in range(start, len(s), 60)]`. */
  function ChunksFrom(s: string, start: nat): seq<string>
    decreases |s| - start
  {
    if start >= |s| then []
    else [s[start..if start + LineWidth < |s| then start + LineWidth else |s|]] + ChunksFrom(s, start + LineWidth)
  }

  /** The sequence lines of one record. */
  function Chunks(s: string): seq<string> {
    ChunksFrom(s, 0)
  }

  /** Chunk `k` is the `k`-th sixty-character window, the last one possibly shorter. */
  lemma {:induction false} ChunksFromShape(s: string, start: nat)
    requires start <= |s|
    ensures |ChunksFrom(s, start)| == (|s| - start + LineWidth - 1) / LineWidth
    ensures forall k :: 0 <= k < |ChunksFrom(s, start)| ==>
              var a := start + LineWidth * k;
              a < |s| && ChunksFrom(s, start)[k] == s[a..if a + LineWidth < |s| then a + LineWidth else |s|]
    decreases |s| - start
  {
    if start < |s| {
      if start + LineWidth <= |s| {
        ChunksFromShape(s, start + LineWidth);
      }
      var cs := ChunksFrom(s, start);
      forall k | 1 <= k < |cs|
        ensures cs[k] == ChunksFrom(s, start + LineWidth)[k - 1]
      {
      }
    }
  }

  /**
   * Splitting into lines loses and adds nothing: the lines concatenate to the
   * sequence, and each line is non-empty and at most sixty characters long,
   * every line but the last exactly sixty.
   */
  lemma {:induction false} ChunksMeaning(s: string)
    ensures Concat(Chunks(s)) == s
    ensures |Chunks(s)| == (|s| + LineWidth - 1) / LineWidth
    ensures forall k :: 0 <= k < |Chunks(s)| ==> 1 <= |Chunks(s)[k]| <= LineWidth
    ensures forall k :: 0 <= k < |Chunks(s)| - 1 ==> |Chunks(s)[k]| == LineWidth
  {
    ChunksConcat(s, 0);
    ChunksFromShape(s, 0);
  }

  lemma {:induction false} ChunksConcat(s: string, start: nat)
    requires start <= |s|
    ensures Concat(ChunksFrom(s, start)) == s[start..]
    decreases |s| - start
  {
    if start < |s| {
      if start + LineWidth < |s| {
        ChunksConcat(s, start + LineWidth);
        assert s[start..] == s[start..start + LineWidth] + s[start + LineWidth..];
      } else {
        assert ChunksFrom(s, start + LineWidth) == [];
        assert s[start..|s|] == s[start..];
      }
    }
  }

  /** The sequence `generate_fasta_export` writes for a result: `corrected or original or ''`, for valid results only. */
  predicate Exported(r: ValidationResult) {
    r.isValid && AnalysedSequence(r) != []
  }

  /** A header line, the sequence lines, then an empty separator line. */
  function RecordLines(r: ValidationResult): seq<string> {
    if Exported(r) then [['>'] + r.header] + Chunks(AnalysedSequence(r)) + [[]] else []
  }

  function ExportLines(results: seq<ValidationResult>): seq<string> {
    if results == [] then [] else ExportLines(results[..|results| - 1]) + RecordLines(results[|results| - 1])
  }

  /** What `generate_fasta_export` returns. */
  function FastaExportOf(results: seq<ValidationResult>): string {
    Join(ExportLines(results), "\n")
  }

  /** `generate_fasta_export`: nested loops over the results and over each sequence in steps of sixty. */
  method GenerateFastaExport(results: seq<ValidationResult>) returns (text: string)
    ensures text == FastaExportOf(results)
  {
    var fastaLines: seq<string> := [];
    for j := 0 to |results|
      invariant fastaLines == ExportLines(results[..j])
    {
      assert results[..j + 1][..j] == results[..j];
      var result := results[j];
      ghost var before := fastaLines;
      if result.isValid {
        var sequence := AnalysedSequence(result);
        if sequence != [] {
          var head := ['>'] + result.header;
          fastaLines := fastaLines + [head];
          var i := 0;
          while i < |sequence|
            invariant fastaLines + ChunksFrom(sequence, i) == before + [head] + Chunks(sequence)
            decreases |sequence| - i
          {
            var end := if i + LineWidth < |sequence| then i + LineWidth else |sequence|;
            assert ChunksFrom(sequence, i) == [sequence[i..end]] + ChunksFrom(sequence, i + LineWidth);
            Seqs.AppendAssoc(fastaLines, [sequence[i..end]], ChunksFrom(sequence, i + LineWidth));
            fastaLines := fastaLines + [sequence[i..end]];
            i := i + LineWidth;
          }
          assert ChunksFrom(sequence, i) == [];
          Seqs.AppendEmpty(fastaLines);
          fastaLines := fastaLines + [[]];
          Seqs.AppendAssoc(before, [head] + Chunks(sequence), [[]]);
          Seqs.AppendAssoc(before, [head], Chunks(sequence));
          assert RecordLines(result) == [head] + Chunks(sequence) + [[]];
        }
      }
      if !Exported(result) {
        Seqs.AppendEmpty(fastaLines);
      }
    }
    Seqs.PrefixAll(results);
    text := Join(fastaLines, "\n");
  }

  /** The (header, sequence) pairs the export holds, in order. */
  function ExportedRecords(results: seq<ValidationResult>): seq<SequenceRecord> {
    if results == [] then []
    else
      var r := results[|results| - 1];
      ExportedRecords(results[..|results| - 1])
      + (if Exported(r) then [SequenceRecord(r.header, AnalysedSequence(r))] else [])
  }

  /** The export is empty exactly when no valid result has a sequence. */
  lemma {:induction false} ExportEmptyIff(results: seq<ValidationResult>)
    ensures FastaExportOf(results) == [] <==> ExportedRecords(results) == []
    ensures ExportLines(results) == [] <==> ExportedRecords(results) == []
  {
    if results != [] {
      ExportEmptyIff(results[..|results| - 1]);
    }
    var ls := ExportLines(results);
    if ls != [] {
      JoinEnds(ls, "\n");
      ExportLinesFirst(results);
    }
  }

  /** A non-empty export starts with the first exported header line and ends with an empty line. */
  lemma {:induction false} ExportLinesFirst(results: seq<ValidationResult>)
    ensures ExportLines(results) != [] ==>
              ExportedRecords(results) != []
              && ExportLines(results)[0] == ['>'] + ExportedRecords(results)[0].header
              && ExportLines(results)[|ExportLines(results)| - 1] == []
  {
    if results != [] {
      var init := results[..|results| - 1];
      ExportLinesFirst(init);
      if ExportLines(init) == [] {
        ExportEmptyLines(init);
      }
    }
  }

  lemma {:induction false} ExportEmptyLines(results: seq<ValidationResult>)
    requires ExportLines(results) == []
    ensures ExportedRecords(results) == []
  {
    if results != [] {
      ExportEmptyLines(results[..|results| - 1]);
    }
  }

  // ------------------------------------------------------------ reading it back

  /** A line the FASTA parser keeps as it is: non-empty, no whitespace at either end, no line break. */
  predicate CleanLine(line: string) {
    line != [] && !IsSpace(line[0]) && !IsSpace(line[|line| - 1]) && '\n' !in line
  }

  /** Characters that may appear in an exported sequence for it to read back. */
  predicate PlainSequence(s: string) {
    forall k :: 0 <= k < |s| ==> !IsSpace(s[k]) && s[k] != '>'
  }

  /** A result whose export reads back: a trimmed, single-line header and a plain sequence. */
  predicate ReadsBack(r: ValidationResult) {
    Parser.Trimmed(r.header) && PlainSequence(AnalysedSequence(r))
  }

  /** Every line of a plain sequence is clean and does not look like a header. */
  lemma {:induction false} ChunksClean(s: string)
    requires PlainSequence(s)
    ensures forall k :: 0 <= k < |Chunks(s)| ==> CleanLine(Chunks(s)[k]) && Chunks(s)[k][0] != '>'
  {
    ChunksFromShape(s, 0);
    forall k | 0 <= k < |Chunks(s)|
      ensures CleanLine(Chunks(s)[k]) && Chunks(s)[k][0] != '>'
    {
      var a := LineWidth * k;
      var b := if a + LineWidth < |s| then a + LineWidth else |s|;
      var c := Chunks(s)[k];
      assert c == s[a..b];
      assert forall x :: 0 <= x < |c| ==> c[x] == s[a + x];
      assert '\n' !in c by {
        assert forall x :: 0 <= x < |c| ==> c[x] != '\n';
      }
    }
  }

  /** Clean lines that are not headers are appended to the current sequence. */
  lemma {:induction false} FeedSequenceLines(st: Parser.FastaState, cs: seq<string>)
    requires forall k :: 0 <= k < |cs| ==> CleanLine(cs[k]) && cs[k][0] != '>'
    ensures Parser.Feed(st, cs) == st.(pending := st.pending + cs)
  {
    if cs != [] {
      var init := cs[..|cs| - 1];
      var last := cs[|cs| - 1];
      FeedSequenceLines(st, init);
      StripUnchanged(last);
      assert init + [last] == cs;
    }
  }

  /** Reading one exported record saves the record before it and starts this one. */
  lemma {:induction false} FeedRecord(st: Parser.FastaState, r: ValidationResult)
    requires Exported(r) && ReadsBack(r)
    ensures Parser.Feed(st, RecordLines(r))
            == Parser.FastaState(Parser.Flush(st), Some(r.header), Chunks(AnalysedSequence(r)))
  {
    var h := ['>'] + r.header;
    var cs := Chunks(AnalysedSequence(r));
    assert RecordLines(r) == [h] + cs + [[]];
    StripUnchanged(h);
    StripUnchanged(r.header);
    assert h[1..] == r.header;
    assert Parser.Feed(st, [h]) == Parser.FastaState(Parser.Flush(st), Some(r.header), []) by {
      var one: seq<string> := [h];
      assert one[..0] == [];
    }
    ChunksClean(AnalysedSequence(r));
    var next := Parser.FastaState(Parser.Flush(st), Some(r.header), []);
    FeedSequenceLines(next, cs);
    assert next.pending + cs == cs;
    Parser.FeedAppend(st, [h], cs);
    Parser.FeedAppend(st, [h] + cs, [[]]);
    assert Parser.Feed(Parser.Feed(st, [h] + cs), [[]]) == Parser.Feed(st, [h] + cs) by {
      var gap: seq<string> := [[]];
      assert gap[..0] == [];
    }
  }

  /** The parser's state after the export of `rs`: the last record still pending. */
  function ExportState(rs: seq<SequenceRecord>): Parser.FastaState {
    if rs == [] then Parser.Initial
    else Parser.FastaState(rs[..|rs| - 1], Some(rs[|rs| - 1].header), Chunks(rs[|rs| - 1].sequence))
  }

  lemma {:induction false} FeedExport(results: seq<ValidationResult>)
    requires forall i :: 0 <= i < |results| && Exported(results[i]) ==> ReadsBack(results[i])
    ensures Parser.Feed(Parser.Initial, ExportLines(results)) == ExportState(ExportedRecords(results))
    ensures Parser.Flush(ExportState(ExportedRecords(results))) == ExportedRecords(results)
  {
    if results != [] {
      var init := results[..|results| - 1];
      var r := results[|results| - 1];
      FeedExport(init);
      var before := ExportState(ExportedRecords(init));
      if Exported(r) {
        var rec := SequenceRecord(r.header, AnalysedSequence(r));
        var all := ExportedRecords(results);
        assert all == ExportedRecords(init) + [rec];
        assert all[..|all| - 1] == ExportedRecords(init);
        Parser.FeedAppend(Parser.Initial, ExportLines(init), RecordLines(r));
        FeedRecord(before, r);
        ChunksMeaning(AnalysedSequence(r));
      } else {
        assert Parser.Feed(Parser.Initial, ExportLines(init)) == ExportState(ExportedRecords(init));
        assert ExportLines(results) == ExportLines(init);
        assert ExportedRecords(results) == ExportedRecords(init);
      }
    }
  }

  /** A non-empty export ends with a sequence line and then the empty separator line. */
  lemma {:induction false} ExportLinesEnd(results: seq<ValidationResult>)
    requires forall i :: 0 <= i < |results| && Exported(results[i]) ==> ReadsBack(results[i])
    ensures var ls := ExportLines(results);
            ls != [] ==> |ls| >= 2 && CleanLine(ls[|ls| - 2])
  {
    if results != [] {
      var init := results[..|results| - 1];
      var r := results[|results| - 1];
      ExportLinesEnd(init);
      if Exported(r) {
        var cs := Chunks(AnalysedSequence(r));
        ChunksClean(AnalysedSequence(r));
        ChunksMeaning(AnalysedSequence(r));
        assert cs != [];
        assert CleanLine(cs[|cs| - 1]);
        BlockEnd(ExportLines(init), ['>'] + r.header, cs);
      } else {
        assert ExportLines(results) == ExportLines(init) + [];
      }
    }
  }

  lemma {:induction false} BlockEnd(e: seq<string>, h: string, cs: seq<string>)
    requires cs != []
    ensures var ls := e + [h] + cs + [[]]; |ls| >= 2 && ls[|ls| - 2] == cs[|cs| - 1]
  {
  }

  /** No exported line holds a line break. */
  lemma {:induction false} ExportLinesNoBreak(results: seq<ValidationResult>)
    requires forall i :: 0 <= i < |results| && Exported(results[i]) ==> ReadsBack(results[i])
    ensures forall k :: 0 <= k < |ExportLines(results)| ==> '\n' !in ExportLines(results)[k]
  {
    if results != [] {
      var init := results[..|results| - 1];
      var r := results[|results| - 1];
      ExportLinesNoBreak(init);
      var e := ExportLines(init);
      var ls := ExportLines(results);
      if Exported(r) {
        var cs := Chunks(AnalysedSequence(r));
        ChunksClean(AnalysedSequence(r));
        assert ls == e + [['>'] + r.header] + cs + [[]];
        assert '\n' !in ['>'] + r.header;
        forall k | 0 <= k < |ls| ensures '\n' !in ls[k] {
          if k < |e| {
            assert ls[k] == e[k];
          } else if k > |e| && k < |ls| - 1 {
            assert ls[k] == cs[k - |e| - 1];
          }
        }
      } else {
        assert ls == e + [];
      }
    }
  }

  /** The parser reads the lines of a non-empty export back, less the final empty line. */
  lemma {:induction false} ExportTextLines(results: seq<ValidationResult>)
    requires forall i :: 0 <= i < |results| && Exported(results[i]) ==> ReadsBack(results[i])
    requires ExportLines(results) != []
    ensures Parser.Lines(FastaExportOf(results)) == ExportLines(results)[..|ExportLines(results)| - 1]
  {
    var ls := ExportLines(results);
    ExportLinesFirst(results);
    ExportLinesEnd(results);
    ExportLinesNoBreak(results);
    var body := ls[..|ls| - 1];
    assert ls == body + [[]];
    JoinAppendEmpty(body, "\n");
    JoinEnds(body, "\n");
    var text := Join(body, "\n");
    assert text[0] == '>';
    StripTrailingSpace(text, '\n');
    SplitJoin(body, '\n');
  }

  /**
   * Round trip: parsing the exported FASTA text as FASTA gives back exactly the
   * exported (header, sequence) pairs, in order, provided headers are trimmed
   * single lines and sequences hold neither whitespace nor `>`.
   */
  lemma {:induction false} ExportRoundTrip(results: seq<ValidationResult>)
    requires forall i :: 0 <= i < |results| && Exported(results[i]) ==> ReadsBack(results[i])
    ensures Parser.FastaRecordsOf(FastaExportOf(results)) == ExportedRecords(results)
  {
    var ls := ExportLines(results);
    FeedExport(results);
    ExportEmptyIff(results);
    if ls == [] {
      assert Parser.Lines([]) == [[]];
      var gap: seq<string> := [[]];
      assert gap[..0] == [];
    } else {
      ExportTextLines(results);
      ExportLinesFirst(results);
      var body := ls[..|ls| - 1];
      assert ls == body + [[]];
      Parser.FeedAppend(Parser.Initial, body, [[]]);
      assert Parser.Feed(Parser.Feed(Parser.Initial, body), [[]]) == Parser.Feed(Parser.Initial, body) by {
        var gap: seq<string> := [[]];
        assert gap[..0] == [];
      }
    }
  }
}
