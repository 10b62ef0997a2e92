/**
 * The report aggregator: one pass over validation results that counts, collects
 * per-sequence statistics, invalid-record details and classified errors, followed
 * by length and GC statistics, a stable top-10 by length, an error histogram and
 * a four-way quality count.
 */
module Stats {
  import opened Wrappers
  import opened Text
  import Tally
  import Sorting
  import Ratio
  import opened Validator

  // ------------------------------------------------------------ min, max, sum

  /** Python's `min` under `key`: an element no other element is below. */
  function Least<T>(xs: seq<T>, key: T -> real): (m: T)
    requires xs != []
    ensures m in xs
    ensures forall x :: x in xs ==> key(m) <= key(x)
  {
    if |xs| == 1 then xs[0]
    else
      var rest := Least(xs[1..], key);
      assert forall x :: x in xs ==> x == xs[0] || x in xs[1..];
      if key(rest) < key(xs[0]) then rest else xs[0]
  }

  /** Python's `max` under `key`: an element no other element is above. */
  function Greatest<T>(xs: seq<T>, key: T -> real): (m: T)
    requires xs != []
    ensures m in xs
    ensures forall x :: x in xs ==> key(x) <= key(m)
  {
    if |xs| == 1 then xs[0]
    else
      var rest := Greatest(xs[1..], key);
      assert forall x :: x in xs ==> x == xs[0] || x in xs[1..];
      if key(rest) > key(xs[0]) then rest else xs[0]
  }

  function IntKey(x: int): real {
    x as real
  }

  function RealKey(x: real): real {
    x
  }

  function IntSum(xs: seq<int>): int {
    if xs == [] then 0 else IntSum(xs[..|xs| - 1]) + xs[|xs| - 1]
  }

  function RealSum(xs: seq<real>): real {
    if xs == [] then 0.0 else RealSum(xs[..|xs| - 1]) + xs[|xs| - 1]
  }

  lemma {:induction false} IntSumBounds(xs: seq<int>, lo: int, hi: int)
    requires forall x :: x in xs ==> lo <= x <= hi
    ensures |xs| * lo <= IntSum(xs) <= |xs| * hi
  {
    if xs != [] {
      var init := xs[..|xs| - 1];
      assert forall x :: x in init ==> x in xs;
      IntSumBounds(init, lo, hi);
      assert xs[|xs| - 1] in xs;
      assert |xs| * lo == |init| * lo + lo && |xs| * hi == |init| * hi + hi;
    }
  }

  // ------------------------------------------- length, GC and quartile stats

  datatype Quartiles = Quartiles(q1: int, q2: int, q3: int)

  datatype LengthStats = LengthStats(
    min: int, max: int, mean: real, median: int, total: int, count: nat, quartiles: Quartiles)

  datatype GcStats = GcStats(min: real, max: real, mean: real, median: real, count: nat)

  function SortedInts(xs: seq<int>): (s: seq<int>)
    ensures |s| == |xs| && multiset(s) == multiset(xs)
    ensures forall i, j :: 0 <= i < j < |s| ==> s[i] <= s[j]
  {
    Sorting.SortBySorted(xs, IntKey);
    Sorting.SortBy(xs, IntKey)
  }

  function SortedReals(xs: seq<real>): (s: seq<real>)
    ensures |s| == |xs| && multiset(s) == multiset(xs)
    ensures forall i, j :: 0 <= i < j < |s| ==> s[i] <= s[j]
  {
    Sorting.SortBySorted(xs, RealKey);
    Sorting.SortBy(xs, RealKey)
  }

  /** `_calculate_quartiles`: the sorted values at n//4, n//2 and 3n//4, or zeros for no values. */
  function QuartilesOf(values: seq<int>): Quartiles {
    var s := SortedInts(values);
    var n := |s|;
    if n == 0 then Quartiles(0, 0, 0) else Quartiles(s[n / 4], s[n / 2], s[3 * n / 4])
  }

  /** The quartiles are ordered, are values of the input and lie between its least and greatest value. */
  lemma {:induction false} QuartilesOrdered(values: seq<int>)
    ensures var q := QuartilesOf(values);
            (values == [] ==> q == Quartiles(0, 0, 0))
            && (values != [] ==>
                  q.q1 <= q.q2 <= q.q3
                  && q.q1 in values && q.q2 in values && q.q3 in values
                  && Least(values, IntKey) <= q.q1 && q.q3 <= Greatest(values, IntKey))
  {
    var s := SortedInts(values);
    var n := |s|;
    if n > 0 {
      assert n / 4 <= n / 2 <= 3 * n / 4 < n;
      assert s[n / 4] in multiset(values) && s[n / 2] in multiset(values) && s[3 * n / 4] in multiset(values);
    }
  }

  /** `_calculate_length_stats`; absent (`{}`) for no lengths. */
  function LengthStatsOf(lengths: seq<int>): Option<LengthStats> {
    if lengths == [] then None
    else
      var total := IntSum(lengths);
      Some(LengthStats(Least(lengths, IntKey), Greatest(lengths, IntKey), total as real / |lengths| as real,
                       SortedInts(lengths)[|lengths| / 2], total, |lengths|, QuartilesOf(lengths)))
  }

  /**
   * For lengths present, min <= q1 <= median <= q3 <= max, the median is the second
   * quartile and one of the lengths, every length lies between min and max, and
   * total and count are the sum and number of the lengths.
   */
  lemma {:induction false} LengthStatsOrdered(lengths: seq<int>)
    ensures LengthStatsOf(lengths).None? <==> lengths == []
    ensures LengthStatsOf(lengths).Some? ==>
              var st := LengthStatsOf(lengths).value;
              st.count == |lengths| && st.total == IntSum(lengths)
              && st.min <= st.quartiles.q1 <= st.median <= st.quartiles.q3 <= st.max
              && st.median == st.quartiles.q2 && st.median in lengths
              && (forall x :: x in lengths ==> st.min <= x <= st.max)
  {
    if lengths != [] {
      QuartilesOrdered(lengths);
    }
  }

  /** The mean length lies between the least and the greatest length. */
  lemma {:induction false} LengthMeanBounds(lengths: seq<int>)
    requires lengths != []
    ensures var st := LengthStatsOf(lengths).value;
            st.min as real <= st.mean <= st.max as real
  {
    var lo := Least(lengths, IntKey);
    var hi := Greatest(lengths, IntKey);
    IntSumBounds(lengths, lo, hi);
    Ratio.MeanBoundsInt(IntSum(lengths), |lengths|, lo, hi);
  }

  /** `_calculate_gc_stats`; absent (`{}`) for no values. */
  function GcStatsOf(gcs: seq<real>): Option<GcStats> {
    if gcs == [] then None
    else
      Some(GcStats(Least(gcs, RealKey), Greatest(gcs, RealKey), RealSum(gcs) / |gcs| as real,
                   SortedReals(gcs)[|gcs| / 2], |gcs|))
  }

  /** For values present, min <= median <= max, the median is one of the values, and every value lies between min and max. */
  lemma {:induction false} GcStatsOrdered(gcs: seq<real>)
    ensures GcStatsOf(gcs).None? <==> gcs == []
    ensures GcStatsOf(gcs).Some? ==>
              var st := GcStatsOf(gcs).value;
              st.count == |gcs| && st.min <= st.median <= st.max && st.median in gcs
              && (forall x :: x in gcs ==> st.min <= x <= st.max)
  {
    if gcs != [] {
      var m := SortedReals(gcs)[|gcs| / 2];
      assert m in multiset(gcs);
      assert m in gcs;
      var lo := Least(gcs, RealKey);
      var hi := Greatest(gcs, RealKey);
      assert forall x :: x in gcs ==> RealKey(lo) <= RealKey(x) <= RealKey(hi);
      assert GcStatsOf(gcs).value == GcStats(lo, hi, RealSum(gcs) / |gcs| as real, m, |gcs|);
    }
  }

  lemma {:induction false} RealSumBounds(xs: seq<real>, lo: real, hi: real)
    requires forall x :: x in xs ==> lo <= x <= hi
    ensures |xs| as real * lo <= RealSum(xs) <= |xs| as real * hi
  {
    if xs != [] {
      var init := xs[..|xs| - 1];
      assert forall x :: x in init ==> x in xs;
      RealSumBounds(init, lo, hi);
      assert xs[|xs| - 1] in xs;
      assert |xs| as real * lo == |init| as real * lo + lo && |xs| as real * hi == |init| as real * hi + hi;
    }
  }

  /** The mean GC content lies between the least and the greatest one. */
  lemma {:induction false} GcMeanBounds(gcs: seq<real>)
    requires gcs != []
    ensures var st := GcStatsOf(gcs).value;
            st.min <= st.mean <= st.max
  {
    var lo := Least(gcs, RealKey);
    var hi := Greatest(gcs, RealKey);
    RealSumBounds(gcs, lo, hi);
    Ratio.MeanBounds(RealSum(gcs), |gcs|, lo, hi);
  }

  // ------------------------------------------------ per-sequence contributions

  /** An entry of `sequence_statistics`. */
  datatype SequenceEntry = SequenceEntry(stats: SequenceStats, sequenceIndex: nat, header: string, isValid: bool)

  /** The entry for result `i`, whose analysed sequence is non-empty. */
  function EntryFor(r: ValidationResult, i: nat): SequenceEntry {
    SequenceEntry(SequenceStatsOf(AnalysedSequence(r)), i, r.header, r.isValid)
  }

  /** `sequence_statistics`: one entry per result with a non-empty analysed sequence, in order. */
  function SequenceEntries(rs: seq<ValidationResult>): (es: seq<SequenceEntry>)
    ensures |es| <= |rs|
  {
    if rs == [] then []
    else
      var last := rs[|rs| - 1];
      SequenceEntries(rs[..|rs| - 1]) + (if AnalysedSequence(last) != [] then [EntryFor(last, |rs| - 1)] else [])
  }

  /** `e` is the entry of the result at its index, whose analysed sequence is non-empty. */
  predicate DescribesSequence(rs: seq<ValidationResult>, e: SequenceEntry) {
    e.sequenceIndex < |rs| && AnalysedSequence(rs[e.sequenceIndex]) != []
    && e == EntryFor(rs[e.sequenceIndex], e.sequenceIndex)
  }

  /**
   * Every entry of `sequence_statistics` belongs to a result with a non-empty
   * analysed sequence and carries that sequence's statistics; entries are in input order.
   */
  lemma {:induction false} SequenceEntriesSound(rs: seq<ValidationResult>)
    ensures forall k :: 0 <= k < |SequenceEntries(rs)| ==> DescribesSequence(rs, SequenceEntries(rs)[k])
    ensures forall k, l :: 0 <= k < l < |SequenceEntries(rs)| ==>
              SequenceEntries(rs)[k].sequenceIndex < SequenceEntries(rs)[l].sequenceIndex
  {
    if rs != [] {
      var init := rs[..|rs| - 1];
      SequenceEntriesSound(init);
      var es0 := SequenceEntries(init);
      var es := SequenceEntries(rs);
      var last := rs[|rs| - 1];
      assert es == es0 + (if AnalysedSequence(last) != [] then [EntryFor(last, |rs| - 1)] else []);
      forall k | 0 <= k < |es0|
        ensures es[k] == es0[k] && DescribesSequence(rs, es0[k]) && es0[k].sequenceIndex < |init|
      {
        assert DescribesSequence(init, es0[k]);
        assert init[es0[k].sequenceIndex] == rs[es0[k].sequenceIndex];
      }
      if AnalysedSequence(last) != [] {
        assert es[|es0|] == EntryFor(last, |rs| - 1);
        assert DescribesSequence(rs, es[|es0|]);
      }
    }
  }

  /** Every result with a non-empty analysed sequence has an entry in `sequence_statistics`. */
  lemma {:induction false} SequenceEntriesComplete(rs: seq<ValidationResult>, i: nat)
    requires i < |rs| && AnalysedSequence(rs[i]) != []
    ensures exists k :: 0 <= k < |SequenceEntries(rs)| && SequenceEntries(rs)[k].sequenceIndex == i
  {
    var init := rs[..|rs| - 1];
    var es0 := SequenceEntries(init);
    var es := SequenceEntries(rs);
    if i == |rs| - 1 {
      assert es[|es0|].sequenceIndex == i;
    } else {
      assert init[i] == rs[i];
      SequenceEntriesComplete(init, i);
      var k :| 0 <= k < |es0| && es0[k].sequenceIndex == i;
      assert es[k] == es0[k];
    }
  }

  /** The `lengths` list: the length of each entry's sequence. */
  function Lengths(es: seq<SequenceEntry>): (ls: seq<int>)
    ensures |ls| == |es|
  {
    if es == [] then [] else Lengths(es[..|es| - 1]) + [es[|es| - 1].stats.length]
  }

  /** The `gc_contents` list: the GC content of each entry's sequence. */
  function GcContents(es: seq<SequenceEntry>): (gs: seq<real>)
    ensures |gs| == |es|
  {
    if es == [] then [] else GcContents(es[..|es| - 1]) + [es[|es| - 1].stats.gcContent]
  }

  /** The i-th length and GC content are those of the i-th entry. */
  lemma {:induction false} ContributionsMatch(es: seq<SequenceEntry>)
    ensures forall k :: 0 <= k < |es| ==> Lengths(es)[k] == es[k].stats.length >= 0
    ensures forall k :: 0 <= k < |es| ==> GcContents(es)[k] == es[k].stats.gcContent
  {
    if es != [] {
      ContributionsMatch(es[..|es| - 1]);
    }
  }

  // ---------------------------------------------------------- invalid details

  datatype InvalidDetail = InvalidDetail(index: nat, header: string, errors: seq<string>, warnings: seq<string>, length: nat)

  function DetailOf(r: ValidationResult, i: nat): InvalidDetail {
    InvalidDetail(i, r.header, r.errors, r.warnings, r.originalLength)
  }

  predicate IsInvalidResult(r: ValidationResult) {
    !r.isValid
  }

  /** `invalid_sequences_detail`: one entry per invalid result, in order. */
  function InvalidDetails(rs: seq<ValidationResult>): (ds: seq<InvalidDetail>)
    ensures |ds| == CountWhere(rs, IsInvalidResult)
  {
    if rs == [] then []
    else
      var last := rs[|rs| - 1];
      InvalidDetails(rs[..|rs| - 1]) + (if !last.isValid then [DetailOf(last, |rs| - 1)] else [])
  }

  /** `d` describes the invalid result at its index. */
  predicate DescribesInvalid(rs: seq<ValidationResult>, d: InvalidDetail) {
    d.index < |rs| && !rs[d.index].isValid && d == DetailOf(rs[d.index], d.index)
  }

  /** Every entry of `invalid_sequences_detail` describes an invalid result; entries are in input order. */
  lemma {:induction false} InvalidDetailsSound(rs: seq<ValidationResult>)
    ensures forall k :: 0 <= k < |InvalidDetails(rs)| ==> DescribesInvalid(rs, InvalidDetails(rs)[k])
    ensures forall k, l :: 0 <= k < l < |InvalidDetails(rs)| ==> InvalidDetails(rs)[k].index < InvalidDetails(rs)[l].index
  {
    if rs != [] {
      var init := rs[..|rs| - 1];
      InvalidDetailsSound(init);
      var ds0 := InvalidDetails(init);
      var ds := InvalidDetails(rs);
      var last := rs[|rs| - 1];
      assert ds == ds0 + (if !last.isValid then [DetailOf(last, |rs| - 1)] else []);
      forall k | 0 <= k < |ds0|
        ensures ds[k] == ds0[k] && DescribesInvalid(rs, ds0[k]) && ds0[k].index < |init|
      {
        assert DescribesInvalid(init, ds0[k]);
        assert init[ds0[k].index] == rs[ds0[k].index];
      }
    }
  }

  /** Every invalid result has an entry in `invalid_sequences_detail`. */
  lemma {:induction false} InvalidDetailsComplete(rs: seq<ValidationResult>, i: nat)
    requires i < |rs| && !rs[i].isValid
    ensures exists k :: 0 <= k < |InvalidDetails(rs)| && InvalidDetails(rs)[k].index == i
  {
    var init := rs[..|rs| - 1];
    var ds0 := InvalidDetails(init);
    var ds := InvalidDetails(rs);
    if i == |rs| - 1 {
      assert ds[|ds0|].index == i;
    } else {
      assert init[i] == rs[i];
      InvalidDetailsComplete(init, i);
      var k :| 0 <= k < |ds0| && ds0[k].index == i;
      assert ds[k] == ds0[k];
    }
  }

  /** Valid and invalid results partition the input. */
  lemma {:induction false} ValidInvalidPartition(rs: seq<ValidationResult>)
    ensures CountWhere(rs, IsValidResult) + CountWhere(rs, IsInvalidResult) == |rs|
  {
    if rs != [] {
      ValidInvalidPartition(rs[..|rs| - 1]);
    }
  }

  // ------------------------------------------------------- error classification

  /** The labels of `_classify_error`; unlike the validation summary, the duplicate class is singular. */
  function ReportLabel(kind: ErrorKind): string {
    match kind
    case InvalidCharacters => "Invalid characters"
    case TooShort => "Too short"
    case DuplicateHeader => "Duplicate header"
    case EmptySequence => "Empty sequence"
    case Other => "Other"
  }

  /** `_classify_error`: the label of the first phrase the message contains. */
  function ClassifyError(error: string): string {
    ReportLabel(KindOf(error))
  }

  /** Every message the validator produces is classified under its own class. */
  lemma {:induction false} ClassifiesValidatorMessages(cs: seq<char>, n: nat, m: nat, k: nat)
    ensures ClassifyError(InvalidCharactersError(cs)) == "Invalid characters"
    ensures ClassifyError(TooShortError(n, m)) == "Too short"
    ensures ClassifyError(DuplicateHeaderError(k)) == "Duplicate header"
    ensures ClassifyError(EmptySequenceError) == "Empty sequence"
  {
    KindOfInvalidCharacters(cs);
    KindOfTooShort(n, m);
    KindOfDuplicateHeader(k);
    KindOfEmptySequence();
  }

  // ------------------------------------------------------------ error details

  datatype ErrorDetail = ErrorDetail(sequenceIndex: nat, header: string, error: string, errorType: string)

  /** The details of one result's errors, in order. */
  function ErrorDetailsOf(r: ValidationResult, i: nat): (ds: seq<ErrorDetail>)
    ensures |ds| == |r.errors|
  {
    seq(|r.errors|, k requires 0 <= k < |r.errors| => ErrorDetail(i, r.header, r.errors[k], ClassifyError(r.errors[k])))
  }

  /** `error_details`: the errors of the invalid results only, in order. */
  function ErrorDetails(rs: seq<ValidationResult>): seq<ErrorDetail> {
    if rs == [] then []
    else
      var last := rs[|rs| - 1];
      ErrorDetails(rs[..|rs| - 1]) + (if !last.isValid then ErrorDetailsOf(last, |rs| - 1) else [])
  }

  /**
   * Every error detail comes from an invalid result, carries that result's header
   * and one of its errors, and the error's class; when validity agrees with the
   * errors, there is one detail per error of the batch.
   */
  lemma {:induction false} ErrorDetailsExact(rs: seq<ValidationResult>)
    ensures forall d :: d in ErrorDetails(rs) ==>
              d.sequenceIndex < |rs| && !rs[d.sequenceIndex].isValid && d.header == rs[d.sequenceIndex].header
              && d.error in rs[d.sequenceIndex].errors && d.errorType == ClassifyError(d.error)
    ensures Consistent(rs) ==> |ErrorDetails(rs)| == ErrorTotal(rs)
  {
    if rs != [] {
      var init := rs[..|rs| - 1];
      var last := rs[|rs| - 1];
      ErrorDetailsExact(init);
      assert forall i :: 0 <= i < |init| ==> init[i] == rs[i];
      forall d | d in ErrorDetails(rs)
        ensures d.sequenceIndex < |rs| && !rs[d.sequenceIndex].isValid && d.header == rs[d.sequenceIndex].header
                && d.error in rs[d.sequenceIndex].errors && d.errorType == ClassifyError(d.error)
      {
        if d !in ErrorDetails(init) {
          var k :| 0 <= k < |last.errors| && ErrorDetailsOf(last, |rs| - 1)[k] == d;
        }
      }
      if Consistent(rs) {
        assert Consistent(init);
        assert !last.isValid <==> last.errors != [];
      }
    }
  }

  // ------------------------------------------------------------ error analysis

  datatype ErrorAnalysis = ErrorAnalysis(totalErrors: nat, errorTypes: Tally.Counts, mostCommon: Option<Tally.Entry>)

  function ErrorTypes(details: seq<ErrorDetail>): (ts: seq<string>)
    ensures |ts| == |details|
  {
    if details == [] then [] else ErrorTypes(details[..|details| - 1]) + [details[|details| - 1].errorType]
  }

  /** `_analyze_errors`. */
  function ErrorAnalysisOf(details: seq<ErrorDetail>): ErrorAnalysis {
    if details == [] then ErrorAnalysis(0, [], None)
    else
      var types := Tally.OfKeys(ErrorTypes(details));
      ErrorAnalysis(|details|, types, Tally.MostCommon(types))
  }

  /**
   * The type histogram sums to the number of errors and counts each type as often
   * as it occurs; the most common entry has the largest count and no entry before
   * it reaches that count; it is absent only for no errors.
   */
  lemma {:induction false} ErrorAnalysisCounts(details: seq<ErrorDetail>)
    ensures var a := ErrorAnalysisOf(details);
            a.totalErrors == |details| == Tally.Total(a.errorTypes)
            && (forall t :: Tally.Get(a.errorTypes, t) == Tally.Occurrences(ErrorTypes(details), t))
            && (a.mostCommon.None? <==> details == [])
            && (a.mostCommon.Some? ==>
                  exists m :: 0 <= m < |a.errorTypes| && a.mostCommon.value == a.errorTypes[m]
                              && (forall j :: 0 <= j < |a.errorTypes| ==> a.errorTypes[j].count <= a.errorTypes[m].count)
                              && (forall j :: 0 <= j < m ==> a.errorTypes[j].count < a.errorTypes[m].count))
  {
    Tally.OfKeysCounts(ErrorTypes(details));
  }

  /** `_analyze_errors`: counts the error types in a dictionary, then takes the most common one. */
  method AnalyzeErrors(details: seq<ErrorDetail>) returns (a: ErrorAnalysis)
    ensures a == ErrorAnalysisOf(details)
  {
    if details == [] {
      return ErrorAnalysis(0, [], None);
    }
    var types: Tally.Counts := [];
    for i := 0 to |details|
      invariant types == Tally.OfKeys(ErrorTypes(details[..i]))
    {
      assert details[..i + 1][..i] == details[..i];
      types := Tally.Bump(types, details[i].errorType);
    }
    assert details[..|details|] == details;
    a := ErrorAnalysis(|details|, types, Tally.MostCommon(types));
  }

  // ------------------------------------------------------------- top 10 longest

  datatype TopEntry = TopEntry(rank: nat, header: string, length: nat, gcContent: real, sequenceIndex: nat)

  /** The sort key of `sorted(..., key=length, reverse=True)`: Python's descending sort is stable. */
  function NegatedLength(e: SequenceEntry): real {
    -(e.stats.length as real)
  }

  function EntryRank(e: SequenceEntry): int {
    e.sequenceIndex
  }

  function LongestFirst(es: seq<SequenceEntry>): (s: seq<SequenceEntry>)
    ensures |s| == |es| && multiset(s) == multiset(es)
  {
    Sorting.SortBy(es, NegatedLength)
  }

  function TopCount(n: nat): (k: nat)
    ensures k <= n && k <= 10
  {
    if n < 10 then n else 10
  }

  function TopEntryOf(rank: nat, e: SequenceEntry): TopEntry {
    TopEntry(rank, e.header, e.stats.length, e.stats.gcContent, e.sequenceIndex)
  }

  /** `_get_top_10_longest`: the first ten of the longest-first order, ranked from 1. */
  function TopLongest(es: seq<SequenceEntry>): seq<TopEntry> {
    var s := LongestFirst(es);
    seq(TopCount(|es|), k requires 0 <= k < TopCount(|es|) => TopEntryOf(k + 1, s[k]))
  }

  lemma {:induction false} TopLongestEntries(es: seq<SequenceEntry>)
    ensures |TopLongest(es)| == TopCount(|es|)
    ensures forall k :: 0 <= k < |TopLongest(es)| ==> TopLongest(es)[k] == TopEntryOf(k + 1, LongestFirst(es)[k])
  {
  }

  /**
   * The top list has non-increasing lengths, ranks 1..k, min(n, 10) entries, and
   * no entry left out is longer than an entry kept; when the entries are in input
   * order, entries of equal length keep that order.
   */
  lemma {:induction false} TopLongestOrder(es: seq<SequenceEntry>)
    ensures var top := TopLongest(es);
            |top| == (if |es| < 10 then |es| else 10)
            && (forall k :: 0 <= k < |top| ==> top[k].rank == k + 1)
            && (forall k, l :: 0 <= k < l < |top| ==> top[k].length >= top[l].length)
            && (forall k, j :: 0 <= k < |top| <= j < |es| ==> top[k].length >= LongestFirst(es)[j].stats.length)
    ensures (forall i, j :: 0 <= i < j < |es| ==> es[i].sequenceIndex < es[j].sequenceIndex) ==>
              var top := TopLongest(es);
              forall k, l :: 0 <= k < l < |top| && top[k].length == top[l].length ==>
                top[k].sequenceIndex < top[l].sequenceIndex
  {
    var s := LongestFirst(es);
    TopLongestEntries(es);
    Sorting.SortBySorted(es, NegatedLength);
    assert forall k, l :: 0 <= k < l < |s| ==> s[k].stats.length >= s[l].stats.length by {
      forall k, l | 0 <= k < l < |s| ensures s[k].stats.length >= s[l].stats.length {
        assert NegatedLength(s[k]) <= NegatedLength(s[l]);
      }
    }
    if forall i, j :: 0 <= i < j < |es| ==> es[i].sequenceIndex < es[j].sequenceIndex {
      assert forall i, j :: 0 <= i < j < |es| ==> EntryRank(es[i]) < EntryRank(es[j]);
      Sorting.SortByStable(es, NegatedLength, EntryRank);
      forall k, l | 0 <= k < l < |s| && s[k].stats.length == s[l].stats.length
        ensures s[k].sequenceIndex < s[l].sequenceIndex
      {
        assert NegatedLength(s[k]) == NegatedLength(s[l]);
      }
    }
  }

  /** `_get_top_10_longest`: sorts, then appends the first ten with their ranks. */
  method GetTop10Longest(es: seq<SequenceEntry>) returns (top: seq<TopEntry>)
    ensures top == TopLongest(es)
  {
    var sorted := LongestFirst(es);
    top := [];
    var count := TopCount(|sorted|);
    TopLongestEntries(es);
    for i := 0 to count
      invariant top == TopLongest(es)[..i]
    {
      top := top + [TopEntryOf(i + 1, sorted[i])];
    }
  }

  // ------------------------------------------------------ quality distribution

  datatype Quality = High | Medium | Low | Unusable

  /** The bucket of one result: clean, warned, fixable by sanitising, or neither. */
  function QualityOf(r: ValidationResult): Quality {
    if r.errors == [] then (if r.warnings == [] then High else Medium)
    else if exists e :: e in r.errors && Contains(e, "Invalid characters") then Low
    else Unusable
  }

  datatype QualityCounts = QualityCounts(high: nat, medium: nat, low: nat, unusable: nat)

  function Add(q: QualityCounts, b: Quality): QualityCounts {
    match b
    case High => q.(high := q.high + 1)
    case Medium => q.(medium := q.medium + 1)
    case Low => q.(low := q.low + 1)
    case Unusable => q.(unusable := q.unusable + 1)
  }

  /** The four bucket counts; every result is in exactly one bucket, so they sum to the number of results. */
  function QualityCountsOf(rs: seq<ValidationResult>): (q: QualityCounts)
    ensures q.high + q.medium + q.low + q.unusable == |rs|
  {
    if rs == [] then QualityCounts(0, 0, 0, 0)
    else Add(QualityCountsOf(rs[..|rs| - 1]), QualityOf(rs[|rs| - 1]))
  }

  /** The count `q` holds for bucket `b`. */
  function Bucket(q: QualityCounts, b: Quality): nat {
    match b
    case High => q.high
    case Medium => q.medium
    case Low => q.low
    case Unusable => q.unusable
  }

  /** How many of the results fall in bucket `b`. */
  function InBucket(rs: seq<ValidationResult>, b: Quality): (n: nat)
    ensures n <= |rs|
  {
    if rs == [] then 0
    else InBucket(rs[..|rs| - 1], b) + (if QualityOf(rs[|rs| - 1]) == b then 1 else 0)
  }

  /** Each bucket counts exactly the results that fall in it. */
  lemma {:induction false} QualityCountsPerBucket(rs: seq<ValidationResult>, b: Quality)
    ensures Bucket(QualityCountsOf(rs), b) == InBucket(rs, b)
  {
    if rs != [] {
      QualityCountsPerBucket(rs[..|rs| - 1], b);
    }
  }

  /** `_calculate_quality_distribution`: absent (`{}`) for no results. */
  function QualityDistributionOf(rs: seq<ValidationResult>): Option<QualityCounts> {
    if rs == [] then None else Some(QualityCountsOf(rs))
  }

  method CalculateQualityDistribution(rs: seq<ValidationResult>) returns (q: Option<QualityCounts>)
    ensures q == QualityDistributionOf(rs)
  {
    if rs == [] {
      return None;
    }
    var counts := QualityCounts(0, 0, 0, 0);
    for i := 0 to |rs|
      invariant counts == QualityCountsOf(rs[..i])
    {
      assert rs[..i + 1][..i] == rs[..i];
      var r := rs[i];
      if r.errors == [] {
        if r.warnings == [] {
          counts := counts.(high := counts.high + 1);
        } else {
          counts := counts.(medium := counts.medium + 1);
        }
      } else {
        if exists e :: e in r.errors && Contains(e, "Invalid characters") {
          counts := counts.(low := counts.low + 1);
        } else {
          counts := counts.(unusable := counts.unusable + 1);
        }
      }
    }
    assert rs[..|rs|] == rs;
    q := Some(counts);
  }

  /** When validity agrees with the errors, the high and medium buckets hold exactly the valid results. */
  lemma {:induction false} QualityMatchesValidity(rs: seq<ValidationResult>)
    requires Consistent(rs)
    ensures QualityCountsOf(rs).high + QualityCountsOf(rs).medium == CountWhere(rs, IsValidResult)
  {
    if rs != [] {
      var init := rs[..|rs| - 1];
      assert Consistent(init) by {
        assert forall i :: 0 <= i < |init| ==> init[i] == rs[i];
      }
      QualityMatchesValidity(init);
    }
  }

  // ------------------------------------------------------------------- report

  const ToolVersion: string := "1.0.0"

  datatype ReportSummary = ReportSummary(
    totalSequences: nat,
    validSequences: nat,
    invalidSequences: nat,
    sanitizedSequences: nat,
    duplicateHeaders: nat,
    validityPercentage: real,
    sanitizationRate: real)

  /**
   * The report dictionary. `generatedAt` is the caller's timestamp; absent
   * sub-dictionaries (`{}`) are `None`.
   */
  datatype Report = Report(
    generatedAt: string,
    metadataTotal: nat,
    toolVersion: string,
    summary: ReportSummary,
    sequenceLengths: Option<LengthStats>,
    gcContent: Option<GcStats>,
    top10Longest: seq<TopEntry>,
    qualityDistribution: Option<QualityCounts>,
    errorAnalysis: Option<ErrorAnalysis>,
    invalidSequencesDetail: seq<InvalidDetail>,
    sequenceStatistics: seq<SequenceEntry>)

  /** `_empty_report`. */
  function EmptyReport(generatedAt: string): Report {
    Report(generatedAt, 0, ToolVersion, ReportSummary(0, 0, 0, 0, 0, 0.0, 0.0),
           None, None, [], None, None, [], [])
  }

  /** What `generate_report` returns. */
  function ReportOf(results: seq<ValidationResult>, generatedAt: string): Report {
    if results == [] then EmptyReport(generatedAt) else ReportFrom(results, generatedAt, Pass(results))
  }

  /** The report of a non-empty batch, from the counts and lists of its pass. */
  function ReportFrom(results: seq<ValidationResult>, generatedAt: string, c: Collected): Report
    requires results != []
  {
    var n := |results|;
    var valid := CountWhere(results, IsValidResult);
    Report(generatedAt, n, ToolVersion,
           ReportSummary(n, valid, n - valid, c.sanitized, c.duplicates,
                         Ratio.Percent(valid, n), Ratio.Percent(c.sanitized, n)),
           LengthStatsOf(c.lengths), GcStatsOf(c.gcContents), TopLongest(c.entries),
           QualityDistributionOf(results), Some(ErrorAnalysisOf(c.errorDetails)), c.invalid, c.entries)
  }

  /** The counts and lists the pass of `generate_report` accumulates. */
  datatype Collected = Collected(
    sanitized: nat, duplicates: nat, lengths: seq<int>, gcContents: seq<real>,
    entries: seq<SequenceEntry>, invalid: seq<InvalidDetail>, errorDetails: seq<ErrorDetail>)

  /** What result `r`, at index `i`, adds to each count and list. */
  function Step(c: Collected, r: ValidationResult, i: nat): Collected {
    var analysed := AnalysedSequence(r) != [];
    var e := EntryFor(r, i);
    Collected(
      c.sanitized + (if IsSanitized(r) then 1 else 0),
      c.duplicates + (if HasDuplicateError(r) then 1 else 0),
      c.lengths + (if analysed then [e.stats.length] else []),
      c.gcContents + (if analysed then [e.stats.gcContent] else []),
      c.entries + (if analysed then [e] else []),
      c.invalid + (if !r.isValid then [DetailOf(r, i)] else []),
      c.errorDetails + (if !r.isValid then ErrorDetailsOf(r, i) else []))
  }

  /** The state after the pass over `rs`. */
  function Pass(rs: seq<ValidationResult>): Collected {
    if rs == [] then Collected(0, 0, [], [], [], [], [])
    else Step(Pass(rs[..|rs| - 1]), rs[|rs| - 1], |rs| - 1)
  }

  lemma {:induction false} ContributionsAppend(es: seq<SequenceEntry>, e: SequenceEntry)
    ensures Lengths(es + [e]) == Lengths(es) + [e.stats.length]
    ensures GcContents(es + [e]) == GcContents(es) + [e.stats.gcContent]
  {
    assert (es + [e])[..|es|] == es;
  }

  /** The pass computes each count and list of the report. */
  lemma {:induction false} PassFields(rs: seq<ValidationResult>)
    ensures Pass(rs).sanitized == CountWhere(rs, IsSanitized)
    ensures Pass(rs).duplicates == CountWhere(rs, HasDuplicateError)
    ensures Pass(rs).entries == SequenceEntries(rs)
    ensures Pass(rs).lengths == Lengths(SequenceEntries(rs))
    ensures Pass(rs).gcContents == GcContents(SequenceEntries(rs))
    ensures Pass(rs).invalid == InvalidDetails(rs)
    ensures Pass(rs).errorDetails == ErrorDetails(rs)
  {
    if rs != [] {
      var init := rs[..|rs| - 1];
      var last := rs[|rs| - 1];
      PassFields(init);
      var c := Pass(init);
      assert Pass(rs) == Step(c, last, |rs| - 1);
      if AnalysedSequence(last) != [] {
        ContributionsAppend(SequenceEntries(init), EntryFor(last, |rs| - 1));
      } else {
        assert SequenceEntries(rs) == SequenceEntries(init);
        assert c.lengths + [] == c.lengths && c.gcContents + [] == c.gcContents;
      }
    }
  }

  /** The body of the loop of `generate_report`: counts and collects what result `r`, at index `i`, contributes. */
  method Visit(c: Collected, r: ValidationResult, i: nat) returns (next: Collected)
    ensures next == Step(c, r, i)
  {
    next := c;
    if IsSanitized(r) {
      next := next.(sanitized := next.sanitized + 1);
    }
    if HasDuplicateError(r) {
      next := next.(duplicates := next.duplicates + 1);
    }
    var sequence := AnalysedSequence(r);
    if sequence != [] {
      var entry := EntryFor(r, i);
      var stats := entry.stats;
      next := next.(lengths := next.lengths + [stats.length], gcContents := next.gcContents + [stats.gcContent],
                    entries := next.entries + [entry]);
    }
    if !r.isValid {
      next := next.(invalid := next.invalid + [DetailOf(r, i)], errorDetails := next.errorDetails + ErrorDetailsOf(r, i));
    }
  }

  /** The loop of `generate_report`: one pass over the results. */
  method CollectResults(results: seq<ValidationResult>) returns (c: Collected)
    ensures c == Pass(results)
  {
    c := Collected(0, 0, [], [], [], [], []);
    for i := 0 to |results|
      invariant c == Pass(results[..i])
    {
      assert results[..i + 1][..i] == results[..i];
      c := Visit(c, results[i], i);
    }
    assert results[..|results|] == results;
  }

  /** `generate_report`: the pass over the results, then the derived statistics. */
  method GenerateReport(results: seq<ValidationResult>, generatedAt: string) returns (report: Report)
    ensures report == ReportOf(results, generatedAt)
  {
    if results == [] {
      return EmptyReport(generatedAt);
    }
    var total := |results|;
    var valid := CountWhere(results, IsValidResult);
    var c := CollectResults(results);
    var top := GetTop10Longest(c.entries);
    var analysis := AnalyzeErrors(c.errorDetails);
    var quality := CalculateQualityDistribution(results);
    report := Report(generatedAt, total, ToolVersion,
                     ReportSummary(total, valid, total - valid, c.sanitized, c.duplicates,
                                   Ratio.Percent(valid, total), Ratio.Percent(c.sanitized, total)),
                     LengthStatsOf(c.lengths), GcStatsOf(c.gcContents), top, quality, Some(analysis), c.invalid,
                     c.entries);
  }

  /**
   * Each part of a non-empty report is what its single-purpose definition gives:
   * the sanitised and duplicate counts, the per-sequence entries and the lists
   * derived from them, the invalid details and the analysis of the invalid results' errors.
   */
  lemma {:induction false} ReportFields(results: seq<ValidationResult>, generatedAt: string)
    requires results != []
    ensures var r := ReportOf(results, generatedAt);
            var entries := SequenceEntries(results);
            r.summary.sanitizedSequences == CountWhere(results, IsSanitized)
            && r.summary.duplicateHeaders == CountWhere(results, HasDuplicateError)
            && r.sequenceStatistics == entries
            && r.sequenceLengths == LengthStatsOf(Lengths(entries))
            && r.gcContent == GcStatsOf(GcContents(entries))
            && r.top10Longest == TopLongest(entries)
            && r.invalidSequencesDetail == InvalidDetails(results)
            && r.errorAnalysis == Some(ErrorAnalysisOf(ErrorDetails(results)))
  {
    PassFields(results);
  }

  /**
   * The report's counts: valid and invalid partition the total, the invalid details
   * are as many as the invalid results, both rates are percentages, the statistics
   * are absent exactly when no result has a sequence to analyse, and no input gives
   * the empty report.
   */
  lemma {:induction false} ReportCounts(results: seq<ValidationResult>, generatedAt: string)
    ensures var r := ReportOf(results, generatedAt);
            (results == [] ==> r == EmptyReport(generatedAt))
            && r.summary.totalSequences == r.metadataTotal == |results|
            && r.summary.validSequences + r.summary.invalidSequences == |results|
            && |r.invalidSequencesDetail| == r.summary.invalidSequences
            && 0.0 <= r.summary.validityPercentage <= 100.0
            && 0.0 <= r.summary.sanitizationRate <= 100.0
            && (results != [] ==>
                  r.summary.validityPercentage == Ratio.Percent(r.summary.validSequences, |results|)
                  && r.summary.sanitizationRate == Ratio.Percent(CountWhere(results, IsSanitized), |results|))
            && (r.sequenceLengths.None? <==> r.sequenceStatistics == [])
            && (r.gcContent.None? <==> r.sequenceStatistics == [])
            && |r.top10Longest| <= 10
            && (results != [] ==> r.errorAnalysis.Some? && r.qualityDistribution.Some?)
  {
    if results != [] {
      var n := |results|;
      var valid := CountWhere(results, IsValidResult);
      var sanitized := CountWhere(results, IsSanitized);
      ReportFields(results, generatedAt);
      TopLongestEntries(SequenceEntries(results));
      ValidInvalidPartition(results);
      Ratio.PercentBounds(valid, n);
      Ratio.PercentBounds(sanitized, n);
    }
  }

  /**
   * For results whose validity agrees with their errors, the error analysis counts
   * every error of the batch, and the high and medium quality buckets are the
   * valid results.
   */
  lemma {:induction false} ReportErrorTotals(results: seq<ValidationResult>, generatedAt: string)
    requires results != [] && Consistent(results)
    ensures var r := ReportOf(results, generatedAt);
            r.errorAnalysis.value.totalErrors == ErrorTotal(results)
            && r.qualityDistribution.value.high + r.qualityDistribution.value.medium == r.summary.validSequences
  {
    ReportFields(results, generatedAt);
    ErrorDetailsExact(results);
    ErrorAnalysisCounts(ErrorDetails(results));
    QualityMatchesValidity(results);
  }
}
