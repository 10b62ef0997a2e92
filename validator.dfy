/**
 * Per-record validation and sanitisation, the batch validator with duplicate-header
 * detection, and the summary counters over a batch of results (src/validator.py).
 */
module Validator {
  import opened Wrappers
  import opened Text
  import opened Records
  import Tally
  import Ratio
  import Seqs

  /**
   * The result dictionary. `originalSequence` is never written by the validator; the
   * aggregators read it with a default of "", so it is optional here.
   * `sequenceIndex` is added by the batch validator only.
   */
  datatype ValidationResult = ValidationResult(
    isValid: bool,
    errors: seq<string>,
    warnings: seq<string>,
    correctedSequence: Option<string>,
    header: string,
    originalLength: nat,
    correctedLength: Option<nat>,
    originalSequence: Option<string>,
    sequenceIndex: Option<nat>)

  // ---------------------------------------------------------------- messages

  const EmptySequenceError: string := "Empty sequence"
  const OnlyNWarning: string := "Sequence contains only N characters" + " (likely low quality)"
  const LowComplexityWarning: string := "Low complexity sequence detected"

  /** The characters as one-character strings, for `', '.join(...)`. */
  function Singletons(cs: string): (r: seq<string>)
    ensures |r| == |cs|
    ensures forall i :: 0 <= i < |cs| ==> r[i] == [cs[i]]
  {
    seq(|cs|, i requires 0 <= i < |cs| => [cs[i]])
  }

  function InvalidCharactersError(chars: string): string {
    "Invalid characters found: " + Join(Singletons(chars), ", ")
  }

  function TooShortError(length: nat, minimum: nat): string {
    "Sequence too short: " + NatToString(length) + " bp (minimum: " + NatToString(minimum) + " bp)"
  }

  function DuplicateHeaderError(count: nat): string {
    "Duplicate header found (" + NatToString(count) + " occurrences)"
  }

  // ------------------------------------------------------- character classes

  predicate IsBase(c: char) {
    c == 'A' || c == 'C' || c == 'G' || c == 'T' || c == 'N'
  }

  /** `re.match(r'^[ACGTN]*$', s)` succeeds. */
  predicate AllBases(s: string) {
    forall i :: 0 <= i < |s| ==> IsBase(s[i])
  }

  predicate AllN(s: string) {
    forall i :: 0 <= i < |s| ==> s[i] == 'N'
  }

  /** `s.upper().replace(" ", "").replace("\t", "").replace("\n", "")`. */
  function Normalize(s: string): string {
    Without(Without(Without(UpperString(s), ' '), '\t'), '\n')
  }

  /** `re.sub(r'[^ACGTN]', 'N', s)`. */
  function Sanitize(s: string): (r: string)
    ensures |r| == |s|
  {
    seq(|s|, i requires 0 <= i < |s| => if IsBase(s[i]) then s[i] else 'N')
  }

  /** Sanitising leaves only A, C, G, T and N, keeps those where they were and puts N everywhere else. */
  lemma {:induction false} SanitizeShape(s: string)
    ensures AllBases(Sanitize(s))
    ensures forall i :: 0 <= i < |s| ==> Sanitize(s)[i] == if IsBase(s[i]) then s[i] else 'N'
  {
  }

  /** The characters of `s` outside A, C, G, T, N, in order and with repeats. */
  function Offending(s: string): (bad: string)
    ensures bad == [] <==> AllBases(s)
  {
    if s == [] then []
    else
      var init := s[..|s| - 1];
      assert s == init + [s[|s| - 1]];
      Offending(init) + (if IsBase(s[|s| - 1]) then [] else [s[|s| - 1]])
  }

  lemma {:induction false} OffendingMembers(s: string)
    ensures forall c :: c in Offending(s) <==> c in s && !IsBase(c)
  {
    if s != [] {
      OffendingMembers(s[..|s| - 1]);
      assert s == s[..|s| - 1] + [s[|s| - 1]];
    }
  }

  /**
   * The distinct characters of `cs` in order of first occurrence. It stands for
   * iterating over `set(cs)`, whose order Python leaves unspecified.
   */
  function Distinct(cs: string): string {
    if cs == [] then []
    else
      var d := Distinct(cs[..|cs| - 1]);
      if cs[|cs| - 1] in d then d else d + [cs[|cs| - 1]]
  }

  /** `Distinct` keeps exactly the characters of its input, each once. */
  lemma {:induction false} DistinctMembers(cs: string)
    ensures forall c :: c in Distinct(cs) <==> c in cs
    ensures forall i, j :: 0 <= i < j < |Distinct(cs)| ==> Distinct(cs)[i] != Distinct(cs)[j]
  {
    if cs != [] {
      DistinctMembers(cs[..|cs| - 1]);
      assert cs == cs[..|cs| - 1] + [cs[|cs| - 1]];
    }
  }

  function CharSet(s: string): set<char> {
    set c | c in s
  }

  /** `_is_low_complexity` with its defaults `min_unique_chars=4`, `min_unique_ratio=0.3`. */
  predicate IsLowComplexity(s: string) {
    if |s| < 10 then false
    else
      var unique := |CharSet(UpperString(s))|;
      var ratio := unique as real / |s| as real;
      unique < 4 || ratio < 0.3
  }

  /** The warnings a checked sequence raises: all `N`, then low complexity. */
  function Warnings(s: string): seq<string> {
    (if s != [] && AllN(s) then [OnlyNWarning] else [])
    + (if IsLowComplexity(s) then [LowComplexityWarning] else [])
  }

  // ----------------------------------------------------- validate_sequence

  /** The alphabet error: the offending characters, each listed once. */
  function AlphabetErrors(norm: string): seq<string> {
    if AllBases(norm) then [] else [InvalidCharactersError(Distinct(Offending(norm)))]
  }

  function LengthErrors(length: nat, minLength: int): seq<string> {
    if length < minLength then [TooShortError(length, minLength as nat)] else []
  }

  /** The sequence the length check and the warnings look at. */
  function Checked(norm: string, sanitize: bool): (c: string)
    ensures |c| == |norm|
  {
    if sanitize then Sanitize(norm) else norm
  }

  /** `corrected_sequence`: the sanitised sequence, or the input itself when it was clean. */
  function Corrected(sequence: string, norm: string, sanitize: bool): Option<string> {
    if sanitize then Some(Sanitize(norm)) else if AllBases(norm) then Some(sequence) else None
  }

  /** `corrected_length`: set only with `sanitize`, and to the input length unless characters were replaced. */
  function CorrectedLength(sequence: string, norm: string, sanitize: bool): Option<nat> {
    if !sanitize then None else if AllBases(norm) then Some(|sequence|) else Some(|norm|)
  }

  /**
   * What `validate_sequence` returns, field by field. The sequence the length
   * check and the warnings look at is the sanitised one when `sanitize` holds and
   * the normalised one otherwise; both have the normalised length.
   */
  function ValidationOf(header: string, sequence: string, minLength: int, sanitize: bool): (r: ValidationResult)
    ensures r.isValid <==> r.errors == []
    ensures r.header == header && r.originalLength == |sequence|
    ensures r.originalSequence.None? && r.sequenceIndex.None?
    ensures r.correctedSequence.Some? <==> sanitize || (!IsBlank(sequence) && AllBases(Normalize(sequence)))
  {
    if IsBlank(sequence) then
      ValidationResult(false, [EmptySequenceError], [],
                       if sanitize then Some(sequence) else None, header, |sequence|,
                       if sanitize then Some(|sequence|) else None, None, None)
    else
      var norm := Normalize(sequence);
      ValidationResult(
        AllBases(norm) && |norm| >= minLength,
        AlphabetErrors(norm) + LengthErrors(|norm|, minLength),
        Warnings(Checked(norm, sanitize)),
        Corrected(sequence, norm, sanitize),
        header, |sequence|,
        CorrectedLength(sequence, norm, sanitize),
        None, None)
  }

  lemma {:induction false} SanitizeClean(s: string)
    requires AllBases(s)
    ensures Sanitize(s) == s
  {
    SanitizeShape(s);
  }

  /** The loop of `validate_sequence` that gathers the characters outside the alphabet. */
  method CollectInvalid(s: string) returns (invalidChars: string)
    ensures invalidChars == Offending(s)
  {
    invalidChars := [];
    var i := 0;
    while i < |s|
      invariant 0 <= i <= |s|
      invariant invalidChars == Offending(s[..i])
    {
      assert s[..i + 1][..i] == s[..i];
      if !IsBase(s[i]) {
        invalidChars := invalidChars + [s[i]];
      }
      i := i + 1;
    }
    assert s[..i] == s;
  }

  /** `validate_sequence`: builds the result dictionary and updates it check by check. */
  method ValidateSequence(header: string, sequence: string, minLength: int, sanitize: bool)
    returns (result: ValidationResult)
    ensures result == ValidationOf(header, sequence, minLength, sanitize)
    ensures result.isValid <==> result.errors == []
  {
    result := ValidationResult(true, [], [], if sanitize then Some(sequence) else None, header,
                               |sequence|, if sanitize then Some(|sequence|) else None, None, None);
    if IsBlank(sequence) {
      result := result.(isValid := false, errors := result.errors + [EmptySequenceError]);
      return;
    }
    var seqUpper := Normalize(sequence);
    var invalidChars: string := [];
    if !AllBases(seqUpper) {
      invalidChars := CollectInvalid(seqUpper);
      if invalidChars != [] {
        result := result.(errors := result.errors + [InvalidCharactersError(Distinct(invalidChars))],
                          isValid := false);
        if sanitize {
          var corrected := Sanitize(seqUpper);
          result := result.(correctedSequence := Some(corrected), correctedLength := Some(|corrected|));
        }
      }
    } else {
      SanitizeClean(seqUpper);
      result := result.(correctedSequence := Some(if sanitize then seqUpper else sequence));
    }
    assert result == ValidationResult(AllBases(seqUpper), AlphabetErrors(seqUpper), [],
                                      Corrected(sequence, seqUpper, sanitize), header, |sequence|,
                                      CorrectedLength(sequence, seqUpper, sanitize), None, None);
    var finalSequence := if sanitize then result.correctedSequence.value else seqUpper;
    assert finalSequence == Checked(seqUpper, sanitize);
    if |finalSequence| < minLength {
      result := result.(errors := result.errors + [TooShortError(|finalSequence|, minLength)],
                        isValid := false);
    }
    assert result.errors == AlphabetErrors(seqUpper) + LengthErrors(|seqUpper|, minLength);
    assert result.warnings == [];
    if finalSequence != [] && AllN(finalSequence) {
      result := result.(warnings := result.warnings + [OnlyNWarning]);
    }
    ghost var onlyN := if finalSequence != [] && AllN(finalSequence) then [OnlyNWarning] else [];
    assert result.warnings == onlyN;
    if IsLowComplexity(finalSequence) {
      result := result.(warnings := result.warnings + [LowComplexityWarning]);
    }
    assert result.warnings == onlyN + if IsLowComplexity(finalSequence) then [LowComplexityWarning] else [];
  }

  // ------------------------------------------------ properties of one result

  /** Normalising keeps, upper-cased, every character other than a space, a tab or a newline. */
  lemma {:induction false} NormalizeKeeps(s: string, i: nat)
    requires i < |s| && s[i] != ' ' && s[i] != '\t' && s[i] != '\n'
    ensures Upper(s[i]) in Normalize(s)
  {
    var u := UpperString(s);
    assert u[i] == Upper(s[i]);
    WithoutShape(u, ' ');
    WithoutShape(Without(u, ' '), '\t');
    WithoutShape(Without(Without(u, ' '), '\t'), '\n');
  }

  lemma {:induction false} NormalizeNonEmpty(s: string)
    requires !IsBlank(s)
    ensures Normalize(s) != []
  {
    var i :| 0 <= i < |s| && !IsSpace(s[i]);
    NormalizeKeeps(s, i);
  }

  /** Normalising removes exactly the spaces, tabs and newlines. */
  lemma {:induction false} NormalizeLength(s: string)
    ensures |Normalize(s)| == |s| - Count(s, ' ') - Count(s, '\t') - Count(s, '\n')
    ensures ' ' !in Normalize(s) && '\t' !in Normalize(s) && '\n' !in Normalize(s)
  {
    var u := UpperString(s);
    WithoutShape(u, ' ');
    WithoutShape(Without(u, ' '), '\t');
    WithoutShape(Without(Without(u, ' '), '\t'), '\n');
    CountUpper(s, ' ');
    CountUpper(s, '\t');
    CountUpper(s, '\n');
    CountWithout(u, ' ', '\t');
    CountWithout(u, ' ', '\n');
    CountWithout(Without(u, ' '), '\t', '\n');
  }

  /** A string over A, C, G, T, N is its own normal form. */
  lemma {:induction false} NormalizeBases(s: string)
    requires AllBases(s)
    ensures Normalize(s) == s
  {
    assert UpperString(s) == s;
    WithoutAbsent(s, ' ');
    WithoutAbsent(s, '\t');
    WithoutAbsent(s, '\n');
  }

  /** Each message starts with its own capital: `I`nvalid, `S`equence too short, `D`uplicate, `E`mpty. */
  lemma {:induction false} MessageHeads()
    ensures forall cs :: InvalidCharactersError(cs)[0] == 'I'
    ensures forall n, m :: TooShortError(n, m)[0] == 'S'
    ensures forall k :: DuplicateHeaderError(k)[0] == 'D'
    ensures EmptySequenceError[0] == 'E'
  {
  }

  lemma {:induction false} ErrorHeads(norm: string, minLength: int)
    ensures forall e :: e in AlphabetErrors(norm) + LengthErrors(|norm|, minLength) ==>
              |e| > 0 && (e[0] == 'I' || e[0] == 'S')
  {
  }

  /** "Empty sequence" is reported for a blank input, alone and without warnings, and for no other input. */
  lemma {:induction false} EmptyExactlyWhenBlank(header: string, sequence: string, minLength: int, sanitize: bool)
    ensures var r := ValidationOf(header, sequence, minLength, sanitize);
            (EmptySequenceError in r.errors <==> Strip(sequence) == [])
            && (Strip(sequence) == [] ==> r.errors == [EmptySequenceError] && r.warnings == [])
  {
    StripEmptyIffBlank(sequence);
    ErrorHeads(Normalize(sequence), minLength);
  }

  /**
   * With sanitisation on, a non-blank input comes back over A, C, G, T, N only,
   * non-empty, and as long as the input less its spaces, tabs and newlines: it is
   * the normalised input with every character outside the alphabet turned into N.
   */
  lemma {:induction false} SanitizedAlphabet(header: string, sequence: string, minLength: int)
    ensures var c := ValidationOf(header, sequence, minLength, true).correctedSequence;
            c.Some?
            && (IsBlank(sequence) ==> c.value == sequence)
            && (!IsBlank(sequence) ==>
                  AllBases(c.value) && c.value != []
                  && |c.value| == |sequence| - Count(sequence, ' ') - Count(sequence, '\t') - Count(sequence, '\n')
                  && var norm := Normalize(sequence);
                     |c.value| == |norm|
                     && forall i :: 0 <= i < |norm| ==> c.value[i] == if IsBase(norm[i]) then norm[i] else 'N')
  {
    if !IsBlank(sequence) {
      SanitizeShape(Normalize(sequence));
      NormalizeNonEmpty(sequence);
      NormalizeLength(sequence);
    }
  }

  /** Sanitising is idempotent: validating the corrected sequence again with sanitisation gives it back unchanged and clean. */
  lemma {:induction false} SanitizeIdempotent(header: string, sequence: string, minLength: int, header2: string, minLength2: int)
    ensures var c := ValidationOf(header, sequence, minLength, true).correctedSequence;
            var r2 := ValidationOf(header2, c.value, minLength2, true);
            r2.correctedSequence == c
            && (!IsBlank(sequence) ==> AlphabetErrors(Normalize(c.value)) == [])
  {
    var c := ValidationOf(header, sequence, minLength, true).correctedSequence.value;
    if !IsBlank(sequence) {
      var norm := Normalize(sequence);
      assert c == Sanitize(norm);
      assert AllBases(c) && c != [] by {
        SanitizeShape(norm);
        NormalizeNonEmpty(sequence);
      }
      assert !IsSpace(c[0]);
      NormalizeBases(c);
      SanitizeClean(c);
    }
  }

  /**
   * The invalid-characters error appears exactly when a non-blank input holds a
   * character outside A, C, G, T, N after normalising, whether or not it is
   * sanitised; it comes first and lists each offending character once.
   */
  lemma {:induction false} InvalidCharactersReported(header: string, sequence: string, minLength: int, sanitize: bool)
    ensures var norm := Normalize(sequence);
            var r := ValidationOf(header, sequence, minLength, sanitize);
            ((exists cs :: InvalidCharactersError(cs) in r.errors) <==> !IsBlank(sequence) && !AllBases(norm))
            && (!IsBlank(sequence) && !AllBases(norm) ==> r.errors[0] == InvalidCharactersError(Distinct(Offending(norm))))
  {
    var norm := Normalize(sequence);
    var r := ValidationOf(header, sequence, minLength, sanitize);
    MessageHeads();
  }

  /**
   * The too-short error appears exactly when a non-blank input is shorter than the
   * minimum once whitespace is removed (sanitising keeps that length); it comes last
   * and gives that length and the minimum.
   */
  lemma {:induction false} TooShortReported(header: string, sequence: string, minLength: int, sanitize: bool)
    ensures var norm := Normalize(sequence);
            var r := ValidationOf(header, sequence, minLength, sanitize);
            ((exists n: nat, m: nat :: TooShortError(n, m) in r.errors) <==> !IsBlank(sequence) && |norm| < minLength)
            && (!IsBlank(sequence) && |norm| < minLength ==>
                  r.errors[|r.errors| - 1] == TooShortError(|norm|, minLength)
                  && |Checked(norm, sanitize)| < minLength)
  {
    var norm := Normalize(sequence);
    var r := ValidationOf(header, sequence, minLength, sanitize);
    MessageHeads();
  }

  /**
   * The all-N warning is raised exactly when the checked sequence of a non-blank
   * input is all `N`, and the low-complexity warning exactly when that sequence is
   * of low complexity; a blank input raises neither.
   */
  lemma {:induction false} WarningsReported(header: string, sequence: string, minLength: int, sanitize: bool)
    ensures var checked := Checked(Normalize(sequence), sanitize);
            var r := ValidationOf(header, sequence, minLength, sanitize);
            (OnlyNWarning in r.warnings <==> !IsBlank(sequence) && AllN(checked))
            && (LowComplexityWarning in r.warnings <==> !IsBlank(sequence) && IsLowComplexity(checked))
  {
    if !IsBlank(sequence) {
      NormalizeNonEmpty(sequence);
      assert OnlyNWarning[0] == 'S' && LowComplexityWarning[0] == 'L';
    }
  }

  /** Under sanitisation the checked sequence is all `N` exactly when the input has no A, C, G or T. */
  lemma {:induction false} SanitizedAllN(s: string)
    ensures AllN(Sanitize(s)) <==> forall i :: 0 <= i < |s| ==> s[i] == 'N' || !IsBase(s[i])
  {
    SanitizeShape(s);
  }

  lemma {:induction false} RatioBelow(a: real, n: real, c: real)
    requires n > 0.0
    ensures a / n < c <==> a < c * n
  {
    var q := a / n;
    assert q * n == a;
    if q < c {
      assert q * n < c * n;
    } else {
      assert q * n >= c * n;
    }
  }

  /** The ratio test of `_is_low_complexity` in integer form: fewer than 4 distinct characters, or distinct/length below 3/10. */
  lemma {:induction false} LowComplexityIntegers(s: string)
    ensures var d := |CharSet(UpperString(s))|;
            IsLowComplexity(s) <==> |s| >= 10 && (d < 4 || 10 * d < 3 * |s|)
  {
    if |s| >= 10 {
      var d := |CharSet(UpperString(s))|;
      RatioBelow(d as real, |s| as real, 0.3);
    }
  }

  /**
   * With sanitisation on, `corrected_length` agrees with the length of
   * `corrected_sequence` exactly when the input was blank, had an invalid
   * character, or had no space, tab or newline to remove.
   */
  lemma {:induction false} CorrectedLengthAgreement(header: string, sequence: string, minLength: int)
    ensures var r := ValidationOf(header, sequence, minLength, true);
            r.correctedLength == Some(|r.correctedSequence.value|)
            <==> IsBlank(sequence) || !AllBases(Normalize(sequence))
                 || Count(sequence, ' ') + Count(sequence, '\t') + Count(sequence, '\n') == 0
  {
    NormalizeLength(sequence);
  }

  // ---------------------------------------------- which phrases a message holds

  /** The listing of offending characters alternates listed characters with ", ". */
  lemma {:induction false} ListingPairs(cs: string, a: char, b: char)
    requires a != ',' && a != ' ' && b != ','
    ensures !HasPair(Join(Singletons(cs), ", "), a, b)
  {
    if |cs| >= 2 {
      var parts := Singletons(cs);
      assert parts[1..] == Singletons(cs[1..]);
      ListingPairs(cs[1..], a, b);
      var rest := Join(parts[1..], ", ");
      assert !HasPair([cs[0]] + ", ", a, b);
      NoPairAppend([cs[0]] + ", ", rest, a, b);
    }
  }

  /** No message the per-record validator emits mentions a duplicate header. */
  lemma {:induction false} InvalidCharactersNoDuplicatePhrase(cs: string)
    ensures !Contains(InvalidCharactersError(cs), "Duplicate header")
  {
    var prefix := "Invalid characters found: ";
    ListingPairs(cs, 'D', 'u');
    assert !HasPair(prefix, 'D', 'u') by {
      assert 'D' !in prefix;
    }
    NoPairAppend(prefix, Join(Singletons(cs), ", "), 'D', 'u');
    NotContainsPair(InvalidCharactersError(cs), "Duplicate header");
  }

  lemma {:induction false} TooShortNoDuplicatePhrase(n: nat, m: nat)
    ensures !Contains(TooShortError(n, m), "Duplicate header")
  {
    assert 'D' !in TooShortError(n, m);
    NotContainsChar(TooShortError(n, m), "Duplicate header", 'D');
  }

  lemma {:induction false} EmptyNoDuplicatePhrase()
    ensures !Contains(EmptySequenceError, "Duplicate header")
  {
    NotContainsChar(EmptySequenceError, "Duplicate header", 'D');
  }

  // ------------------------------------------------------ error classification

  datatype ErrorKind = InvalidCharacters | TooShort | DuplicateHeader | EmptySequence | Other

  /** The first phrase an error message contains, in the fixed order of precedence. */
  function KindOf(error: string): ErrorKind {
    if Contains(error, "Invalid characters") then InvalidCharacters
    else if Contains(error, "too short") then TooShort
    else if Contains(error, "Duplicate header") then DuplicateHeader
    else if Contains(error, "Empty sequence") then EmptySequence
    else Other
  }

  /** The keys of `error_types` in the validation summary. */
  function SummaryLabel(kind: ErrorKind): string {
    match kind
    case InvalidCharacters => "Invalid characters"
    case TooShort => "Too short"
    case DuplicateHeader => "Duplicate headers"
    case EmptySequence => "Empty sequence"
    case Other => "Other"
  }

  lemma {:induction false} SummaryLabelInjective(k1: ErrorKind, k2: ErrorKind)
    ensures SummaryLabel(k1) == SummaryLabel(k2) <==> k1 == k2
  {
    if k1 != k2 {
      assert SummaryLabel(k1)[0] != SummaryLabel(k2)[0] || |SummaryLabel(k1)| != |SummaryLabel(k2)|;
    }
  }

  /** Each message the validators emit falls in its own class. */
  lemma {:induction false} KindOfInvalidCharacters(cs: string)
    ensures KindOf(InvalidCharactersError(cs)) == InvalidCharacters
  {
    var listing := Join(Singletons(cs), ", ");
    assert InvalidCharactersError(cs) == "Invalid characters" + (" found: " + listing);
    ContainsPrefix("Invalid characters", " found: " + listing);
  }

  lemma {:induction false} KindOfTooShort(n: nat, m: nat)
    ensures KindOf(TooShortError(n, m)) == TooShort
  {
    TooShortPhrase(n, m);
    TooShortNotInvalid(n, m);
  }

  lemma {:induction false} TooShortPhrase(n: nat, m: nat)
    ensures Contains(TooShortError(n, m), "too short")
  {
    var rest := ": " + NatToString(n) + " bp (minimum: " + NatToString(m) + " bp)";
    assert TooShortError(n, m) == "Sequence " + ("too short" + rest);
    ContainsPrefix("too short", rest);
    ContainsExtend("Sequence ", "too short" + rest, "too short");
  }

  lemma {:induction false} TooShortNotInvalid(n: nat, m: nat)
    ensures !Contains(TooShortError(n, m), "Invalid characters")
  {
    NotContainsChar(TooShortError(n, m), "Invalid characters", 'I');
  }

  /** The duplicate-header message has no `t` followed by `o`, so it never reads "too short". */
  lemma {:induction false} DuplicateHeaderPairs(k: nat)
    ensures !HasPair(DuplicateHeaderError(k), 't', 'o')
  {
    var digits := NatToString(k);
    var front := "Duplicate header found (" + digits;
    assert !HasPair("Duplicate header found (", 't', 'o');
    assert !HasPair(digits, 't', 'o');
    NoPairAppend("Duplicate header found (", digits, 't', 'o');
    assert !HasPair(" occurrences)", 't', 'o');
    NoPairAppend(front, " occurrences)", 't', 'o');
    assert DuplicateHeaderError(k) == front + " occurrences)";
  }

  lemma {:induction false} DuplicateHeaderPhrase(k: nat)
    ensures Contains(DuplicateHeaderError(k), "Duplicate header")
  {
    var rest := " found (" + NatToString(k) + " occurrences)";
    assert DuplicateHeaderError(k) == "Duplicate header" + rest;
    ContainsPrefix("Duplicate header", rest);
  }

  lemma {:induction false} KindOfDuplicateHeader(k: nat)
    ensures KindOf(DuplicateHeaderError(k)) == DuplicateHeader
  {
    var dup := DuplicateHeaderError(k);
    DuplicateHeaderPhrase(k);
    NotContainsChar(dup, "Invalid characters", 'I');
    DuplicateHeaderPairs(k);
    NotContainsPair(dup, "too short");
  }

  lemma {:induction false} KindOfEmptySequence()
    ensures KindOf(EmptySequenceError) == EmptySequence
  {
    assert EmptySequenceError + [] == EmptySequenceError;
    ContainsPrefix(EmptySequenceError, []);
    NotContainsChar(EmptySequenceError, "Invalid characters", 'I');
    NotContainsChar(EmptySequenceError, "too short", 'o');
    EmptyNoDuplicatePhrase();
  }

  /** No error of a single validation mentions a duplicate header. */
  lemma {:induction false} OwnErrorsNoDuplicatePhrase(header: string, sequence: string, minLength: int, sanitize: bool)
    ensures forall e :: e in ValidationOf(header, sequence, minLength, sanitize).errors ==> !Contains(e, "Duplicate header")
  {
    var norm := Normalize(sequence);
    EmptyNoDuplicatePhrase();
    InvalidCharactersNoDuplicatePhrase(Distinct(Offending(norm)));
    if |norm| < minLength {
      TooShortNoDuplicatePhrase(|norm|, minLength);
    }
  }

  // ---------------------------------------------------- validate_sequences

  predicate HasDuplicateError(r: ValidationResult) {
    exists e :: e in r.errors && Contains(e, "Duplicate header")
  }

  /** The duplicate-header check: a header seen more than once adds its count as a last error. */
  function Flagged(r: ValidationResult, occurrences: nat): ValidationResult {
    if occurrences > 1 then r.(errors := r.errors + [DuplicateHeaderError(occurrences)], isValid := false)
    else r
  }

  /** What `validate_sequences` returns: one result per record, in order, flagged for duplicates and indexed. */
  function BatchValidationOf(records: seq<SequenceRecord>, minLength: int, sanitize: bool): (results: seq<ValidationResult>)
    ensures |results| == |records|
    ensures forall i :: 0 <= i < |records| ==>
              results[i].sequenceIndex == Some(i) && results[i].header == records[i].header
              && (results[i].isValid <==> results[i].errors == [])
  {
    seq(|records|, i requires 0 <= i < |records| => BatchEntry(records, minLength, sanitize, i))
  }

  /** The batch result for record `i`. */
  function BatchEntry(records: seq<SequenceRecord>, minLength: int, sanitize: bool, i: nat): ValidationResult
    requires i < |records|
  {
    Flagged(ValidationOf(records[i].header, records[i].sequence, minLength, sanitize),
            Tally.Occurrences(Headers(records), records[i].header)).(sequenceIndex := Some(i))
  }

  /** `validate_sequences`: counts the headers first, then validates, flags and indexes record by record. */
  method ValidateSequences(records: seq<SequenceRecord>, minLength: int, sanitize: bool)
    returns (results: seq<ValidationResult>)
    ensures results == BatchValidationOf(records, minLength, sanitize)
  {
    var headers := Headers(records);
    var headerCounts := Tally.OfKeys(headers);
    Tally.OfKeysCounts(headers);
    var duplicateHeaders := set h | h in headers && Tally.Get(headerCounts, h) > 1;
    assert forall j :: 0 <= j < |records| ==>
             (records[j].header in duplicateHeaders <==> Tally.Occurrences(headers, records[j].header) > 1) by {
      forall j | 0 <= j < |records|
        ensures records[j].header in duplicateHeaders <==> Tally.Occurrences(headers, records[j].header) > 1
      {
        assert headers[j] == records[j].header;
      }
    }
    results := [];
    for i := 0 to |records|
      invariant results == BatchValidationOf(records, minLength, sanitize)[..i]
    {
      var result := ValidateSequence(records[i].header, records[i].sequence, minLength, sanitize);
      ghost var own := result;
      ghost var k := Tally.Occurrences(headers, records[i].header);
      if records[i].header in duplicateHeaders {
        var duplicateCount := Tally.Get(headerCounts, records[i].header);
        result := result.(errors := result.errors + [DuplicateHeaderError(duplicateCount)], isValid := false);
      }
      result := result.(sequenceIndex := Some(i));
      assert result == BatchEntry(records, minLength, sanitize, i);
      Seqs.PrefixStep(BatchValidationOf(records, minLength, sanitize), i);
      results := results + [result];
    }
  }

  /**
   * In a batch, a record whose header occurs k > 1 times gets "Duplicate header
   * found (k occurrences)" after its own errors and is invalid; a record whose header
   * occurs once keeps its own errors and validity. Exactly the former carry an error
   * mentioning a duplicate header. Warnings and corrections are untouched.
   */
  lemma {:induction false} DuplicateHeadersFlagged(records: seq<SequenceRecord>, minLength: int, sanitize: bool, i: nat)
    requires i < |records|
    ensures var r := BatchValidationOf(records, minLength, sanitize)[i];
            var own := ValidationOf(records[i].header, records[i].sequence, minLength, sanitize);
            var k := Tally.Occurrences(Headers(records), records[i].header);
            k >= 1
            && (k > 1 ==> r.errors == own.errors + [DuplicateHeaderError(k)] && !r.isValid)
            && (k == 1 ==> r.errors == own.errors && r.isValid == own.isValid)
            && (HasDuplicateError(r) <==> k > 1)
            && r.warnings == own.warnings && r.correctedSequence == own.correctedSequence
  {
    var r := BatchValidationOf(records, minLength, sanitize)[i];
    var k := Tally.Occurrences(Headers(records), records[i].header);
    assert Headers(records)[i] == records[i].header;
    Tally.OccurrencesMember(Headers(records), i);
    OwnErrorsNoDuplicatePhrase(records[i].header, records[i].sequence, minLength, sanitize);
    if k > 1 {
      DuplicateHeaderPhrase(k);
      assert DuplicateHeaderError(k) in r.errors;
    }
  }

  // ------------------------------------------------------------ aggregation

  /**
   * The sequence the aggregators analyse: `corrected_sequence` when it is non-empty,
   * otherwise `original_sequence`, where an absent original counts as "".
   */
  function AnalysedSequence(r: ValidationResult): string {
    if r.correctedSequence.Some? && r.correctedSequence.value != [] then r.correctedSequence.value
    else r.originalSequence.GetOr([])
  }

  /** Validity agrees with the error list in every result, as the validator guarantees. */
  predicate Consistent(results: seq<ValidationResult>) {
    forall i :: 0 <= i < |results| ==> (results[i].isValid <==> results[i].errors == [])
  }

  // ------------------------------------------------------------ counting

  /** `sum(1 for r in results if p(r))`. */
  function CountWhere(results: seq<ValidationResult>, p: ValidationResult -> bool): (n: nat)
    ensures n <= |results|
  {
    if results == [] then 0
    else CountWhere(results[..|results| - 1], p) + (if p(results[|results| - 1]) then 1 else 0)
  }

  predicate IsValidResult(r: ValidationResult) {
    r.isValid
  }

  /** A non-empty corrected sequence that differs from the original one (absent counts as ""). */
  predicate IsSanitized(r: ValidationResult) {
    r.correctedSequence.Some? && r.correctedSequence.value != []
    && r.correctedSequence.value != r.originalSequence.GetOr([])
  }

  /** How many of the headers `hs` occur more than once in `all`. */
  function RepeatedCount(hs: seq<string>, all: seq<string>): (n: nat)
    ensures n <= |hs|
  {
    if hs == [] then 0
    else RepeatedCount(hs[..|hs| - 1], all) + (if Tally.Occurrences(all, hs[|hs| - 1]) > 1 then 1 else 0)
  }

  lemma {:induction false} BatchDuplicateCountPrefix(records: seq<SequenceRecord>, minLength: int, sanitize: bool, n: nat)
    requires n <= |records|
    ensures var results := BatchValidationOf(records, minLength, sanitize);
            CountWhere(results[..n], HasDuplicateError) == RepeatedCount(Headers(records)[..n], Headers(records))
  {
    if n > 0 {
      var results := BatchValidationOf(records, minLength, sanitize);
      BatchDuplicateCountPrefix(records, minLength, sanitize, n - 1);
      assert results[..n][..n - 1] == results[..n - 1];
      assert Headers(records)[..n][..n - 1] == Headers(records)[..n - 1];
      DuplicateHeadersFlagged(records, minLength, sanitize, n - 1);
    }
  }

  /**
   * A batch has as many results with a duplicate-header error as records whose
   * header is repeated, and that is the summary's `duplicate_headers`.
   */
  lemma {:induction false} BatchDuplicateCount(records: seq<SequenceRecord>, minLength: int, sanitize: bool)
    ensures CountWhere(BatchValidationOf(records, minLength, sanitize), HasDuplicateError)
            == RepeatedCount(Headers(records), Headers(records))
    ensures records != [] ==>
              SummaryOf(BatchValidationOf(records, minLength, sanitize)).duplicateHeaders
              == RepeatedCount(Headers(records), Headers(records))
  {
    var results := BatchValidationOf(records, minLength, sanitize);
    BatchDuplicateCountPrefix(records, minLength, sanitize, |records|);
    assert results[..|records|] == results;
    assert Headers(records)[..|records|] == Headers(records);
  }

  // ------------------------------------------------------ filter_valid_sequences

  function FilterValid(results: seq<ValidationResult>): (valid: seq<ValidationResult>)
    ensures |valid| == CountWhere(results, IsValidResult)
    ensures forall r :: r in valid <==> r in results && r.isValid
  {
    if results == [] then []
    else
      var init := results[..|results| - 1];
      var last := results[|results| - 1];
      assert results == init + [last];
      FilterValid(init) + (if last.isValid then [last] else [])
  }

  /** Filtering one more result appends it exactly when it is valid. */
  lemma {:induction false} FilterValidSnoc(rs: seq<ValidationResult>, r: ValidationResult)
    ensures FilterValid(rs + [r]) == FilterValid(rs) + (if r.isValid then [r] else [])
  {
    assert (rs + [r])[..|rs + [r]| - 1] == rs;
  }

  /** Filtering keeps the input order: it distributes over concatenation. */
  lemma {:induction false} FilterValidAppend(a: seq<ValidationResult>, b: seq<ValidationResult>)
    ensures FilterValid(a + b) == FilterValid(a) + FilterValid(b)
    decreases |b|
  {
    if b == [] {
      assert a + b == a;
    } else {
      var init := b[..|b| - 1];
      var last := b[|b| - 1];
      Seqs.PrefixStep(b, |b| - 1);
      Seqs.PrefixAll(b);
      Seqs.AppendAssoc(a, init, [last]);
      FilterValidAppend(a, init);
      FilterValidSnoc(a + init, last);
      FilterValidSnoc(init, last);
      Seqs.AppendAssoc(FilterValid(a), FilterValid(init), if last.isValid then [last] else []);
    }
  }

  // ---------------------------------------------------- get_validation_summary

  /** The summary dictionary; `validityPercentage` is absent for an empty batch, as in the source. */
  datatype Summary = Summary(
    totalSequences: nat,
    validSequences: nat,
    invalidSequences: nat,
    sanitizedSequences: nat,
    duplicateHeaders: nat,
    totalErrors: nat,
    errorTypes: Tally.Counts,
    validityPercentage: Option<real>)

  /** All errors of all results, in order (`all_errors.extend(...)`). */
  function AllErrors(results: seq<ValidationResult>): seq<string> {
    if results == [] then []
    else AllErrors(results[..|results| - 1]) + results[|results| - 1].errors
  }

  /** The summary key of each error. */
  function SummaryLabels(errors: seq<string>): (labels: seq<string>)
    ensures |labels| == |errors|
  {
    if errors == [] then []
    else SummaryLabels(errors[..|errors| - 1]) + [SummaryLabel(KindOf(errors[|errors| - 1]))]
  }

  /** `sum(len(r["errors"]) for r in results)`. */
  function ErrorTotal(results: seq<ValidationResult>): nat {
    if results == [] then 0 else ErrorTotal(results[..|results| - 1]) + |results[|results| - 1].errors|
  }

  /** How many errors fall in class `kind`. */
  function KindCount(errors: seq<string>, kind: ErrorKind): (n: nat)
    ensures n <= |errors|
  {
    if errors == [] then 0
    else KindCount(errors[..|errors| - 1], kind) + (if KindOf(errors[|errors| - 1]) == kind then 1 else 0)
  }

  function SummaryOf(results: seq<ValidationResult>): (s: Summary)
    ensures s.totalSequences == |results| && s.validSequences + s.invalidSequences == |results|
    ensures s.validSequences == CountWhere(results, IsValidResult)
    ensures s.sanitizedSequences == CountWhere(results, IsSanitized)
    ensures s.duplicateHeaders == CountWhere(results, HasDuplicateError)
    ensures s.totalErrors == Tally.Total(s.errorTypes)
    ensures s.validityPercentage.None? <==> results == []
    ensures s.validityPercentage.Some? ==> 0.0 <= s.validityPercentage.value <= 100.0
    ensures results != [] ==> s.validityPercentage == Some(Ratio.Percent(s.validSequences, |results|))
    ensures results == [] ==> s == Summary(0, 0, 0, 0, 0, 0, [], None)
  {
    if results == [] then Summary(0, 0, 0, 0, 0, 0, [], None)
    else
      var valid := CountWhere(results, IsValidResult);
      var errors := AllErrors(results);
      Tally.OfKeysCounts(SummaryLabels(errors));
      Ratio.PercentBounds(valid, |results|);
      Summary(|results|, valid, |results| - valid, CountWhere(results, IsSanitized),
              CountWhere(results, HasDuplicateError), |errors|, Tally.OfKeys(SummaryLabels(errors)),
              Some(Ratio.Percent(valid, |results|)))
  }

  /** `get_validation_summary`: gathers all errors, then counts them by class in a counter. */
  method GetValidationSummary(results: seq<ValidationResult>) returns (summary: Summary)
    ensures summary == SummaryOf(results)
  {
    if results == [] {
      return Summary(0, 0, 0, 0, 0, 0, [], None);
    }
    var total := |results|;
    var valid := CountWhere(results, IsValidResult);
    var invalid := total - valid;
    var sanitized := CountWhere(results, IsSanitized);
    var duplicateHeaders := CountWhere(results, HasDuplicateError);
    var allErrors: seq<string> := [];
    for i := 0 to |results|
      invariant allErrors == AllErrors(results[..i])
    {
      assert results[..i + 1][..i] == results[..i];
      allErrors := allErrors + results[i].errors;
    }
    assert results[..|results|] == results;
    var errorTypeCounts: Tally.Counts := [];
    for j := 0 to |allErrors|
      invariant errorTypeCounts == Tally.OfKeys(SummaryLabels(allErrors[..j]))
    {
      assert allErrors[..j + 1][..j] == allErrors[..j];
      errorTypeCounts := Tally.Bump(errorTypeCounts, SummaryLabel(KindOf(allErrors[j])));
    }
    assert allErrors[..|allErrors|] == allErrors;
    summary := Summary(total, valid, invalid, sanitized, duplicateHeaders, |allErrors|, errorTypeCounts,
                       Some(Ratio.Percent(valid, total)));
  }

  lemma {:induction false} AllErrorsLength(results: seq<ValidationResult>)
    ensures |AllErrors(results)| == ErrorTotal(results)
  {
    if results != [] {
      AllErrorsLength(results[..|results| - 1]);
    }
  }

  lemma {:induction false} LabelsCountKinds(errors: seq<string>, kind: ErrorKind)
    ensures Tally.Occurrences(SummaryLabels(errors), SummaryLabel(kind)) == KindCount(errors, kind)
  {
    if errors != [] {
      var init := errors[..|errors| - 1];
      LabelsCountKinds(init, kind);
      SummaryLabelInjective(KindOf(errors[|errors| - 1]), kind);
      assert SummaryLabels(errors)[..|errors| - 1] == SummaryLabels(init);
    }
  }

  /** Every error is in exactly one class. */
  lemma {:induction false} KindCountsSum(errors: seq<string>)
    ensures KindCount(errors, InvalidCharacters) + KindCount(errors, TooShort) + KindCount(errors, DuplicateHeader)
            + KindCount(errors, EmptySequence) + KindCount(errors, Other) == |errors|
  {
    if errors != [] {
      KindCountsSum(errors[..|errors| - 1]);
    }
  }

  /**
   * The summary's `total_errors` is the number of errors over all results; each
   * class key counts the errors of that class, and the five class counts add up to
   * the total.
   */
  lemma {:induction false} SummaryErrorTypes(results: seq<ValidationResult>)
    ensures var s := SummaryOf(results);
            s.totalErrors == ErrorTotal(results)
            && (forall k :: Tally.Get(s.errorTypes, SummaryLabel(k)) == KindCount(AllErrors(results), k))
            && Tally.Get(s.errorTypes, "Invalid characters") + Tally.Get(s.errorTypes, "Too short")
               + Tally.Get(s.errorTypes, "Duplicate headers") + Tally.Get(s.errorTypes, "Empty sequence")
               + Tally.Get(s.errorTypes, "Other") == s.totalErrors
  {
    var errors := AllErrors(results);
    AllErrorsLength(results);
    KindCountsSum(errors);
    Tally.OfKeysCounts(SummaryLabels(errors));
    forall k ensures Tally.Get(SummaryOf(results).errorTypes, SummaryLabel(k)) == KindCount(errors, k) {
      LabelsCountKinds(errors, k);
    }
    assert SummaryLabel(InvalidCharacters) == "Invalid characters";
    assert SummaryLabel(TooShort) == "Too short";
    assert SummaryLabel(DuplicateHeader) == "Duplicate headers";
    assert SummaryLabel(EmptySequence) == "Empty sequence";
    assert SummaryLabel(Other) == "Other";
  }

  // ------------------------------------------- calculate_gc_content and stats

  /** `gc_count` of `calculate_gc_content`: the G and C after upper-casing. */
  function GcBases(s: string): nat {
    var u := UpperString(s);
    Count(u, 'G') + Count(u, 'C')
  }

  /** `valid_bases` of `calculate_gc_content`: the A, C, G and T after upper-casing. */
  function AcgtBases(s: string): (n: nat)
    ensures GcBases(s) <= n
  {
    var u := UpperString(s);
    Count(u, 'A') + Count(u, 'C') + Count(u, 'G') + Count(u, 'T')
  }

  /** `calculate_gc_content`: G and C as a percentage of A, C, G and T, ignoring case and every other character. */
  function GcContent(s: string): (gc: real)
    ensures 0.0 <= gc <= 100.0
  {
    if s == [] || AcgtBases(s) == 0 then 0.0
    else
      Ratio.PercentBounds(GcBases(s), AcgtBases(s));
      Ratio.Percent(GcBases(s), AcgtBases(s))
  }

  /**
   * GC content is 0 exactly when there is no G or C, 100 exactly when there is a
   * G or C and no A or T, and otherwise gc * (A+C+G+T) = 100 * (G+C).
   */
  lemma {:induction false} GcContentMeaning(s: string)
    ensures GcContent(s) == 0.0 <==> GcBases(s) == 0
    ensures GcContent(s) == 100.0 <==> GcBases(s) > 0 && GcBases(s) == AcgtBases(s)
    ensures GcContent(s) * AcgtBases(s) as real == 100.0 * GcBases(s) as real
  {
    if s == [] {
      assert UpperString(s) == [];
    } else if AcgtBases(s) > 0 {
      Ratio.PercentBounds(GcBases(s), AcgtBases(s));
    }
  }

  /** GC content does not depend on case. */
  lemma {:induction false} GcContentUpper(s: string)
    ensures GcContent(UpperString(s)) == GcContent(s)
  {
    var u := UpperString(s);
    assert UpperString(u) == u;
  }

  datatype SequenceStats = SequenceStats(
    length: nat, gcContent: real, aCount: nat, tCount: nat, gCount: nat, cCount: nat, nCount: nat, validChars: nat)

  lemma {:induction false} BaseCountsBounded(s: string)
    ensures Count(s, 'A') + Count(s, 'C') + Count(s, 'G') + Count(s, 'T') + Count(s, 'N') <= |s|
  {
    if s != [] {
      BaseCountsBounded(s[1..]);
    }
  }

  /** `calculate_sequence_stats`: base counts after upper-casing and the GC content. */
  function SequenceStatsOf(s: string): (st: SequenceStats)
    ensures st.length == |s|
    ensures st.validChars == st.aCount + st.tCount + st.gCount + st.cCount == AcgtBases(s)
    ensures st.gCount + st.cCount == GcBases(s)
    ensures var u := UpperString(s);
            st.aCount == Count(u, 'A') && st.tCount == Count(u, 'T') && st.gCount == Count(u, 'G')
            && st.cCount == Count(u, 'C') && st.nCount == Count(u, 'N')
    ensures st.validChars + st.nCount <= st.length
    ensures st.gcContent == GcContent(s)
  {
    var u := UpperString(s);
    if s == [] then
      assert u == [];
      SequenceStats(0, 0.0, 0, 0, 0, 0, 0, 0)
    else
      BaseCountsBounded(u);
      GcContentUpper(s);
      SequenceStats(|u|, GcContent(u), Count(u, 'A'), Count(u, 'T'), Count(u, 'G'), Count(u, 'C'),
                    Count(u, 'N'), Count(u, 'A') + Count(u, 'T') + Count(u, 'G') + Count(u, 'C'))
  }
}
