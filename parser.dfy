/**
 * The content-level FASTA and FASTQ parsers and the FASTA sniffer. Each works on
 * the lines of `content.strip().split('\n')`.
 */
module Parser {
  import opened Wrappers
  import opened Text
  import opened Records
  import Seqs

  /** `content.strip().split('\n')`: never empty. */
  function Lines(content: string): (ls: seq<string>)
    ensures |ls| >= 1
    ensures forall i :: 0 <= i < |ls| ==> '\n' !in ls[i]
  {
    Split(Strip(content), '\n')
  }

  /** Lines joined with line breaks split back into themselves when the text has no whitespace at either end. */
  lemma {:induction false} LinesOfJoin(ls: seq<string>)
    requires ls != [] && ls[0] != [] && !IsSpace(ls[0][0])
    requires ls[|ls| - 1] != [] && !IsSpace(ls[|ls| - 1][|ls[|ls| - 1]| - 1])
    requires forall i :: 0 <= i < |ls| ==> '\n' !in ls[i]
    ensures Lines(Join(ls, "\n")) == ls
  {
    var text := Join(ls, "\n");
    JoinEnds(ls, "\n");
    assert text[0] == ls[0][0];
    StripUnchanged(text);
    SplitJoin(ls, '\n');
  }

  // ------------------------------------------------------------ _is_fasta_format

  /** How many lines the sniffer looks at: the first ten. */
  function Window(lines: seq<string>): nat {
    if |lines| < 10 then |lines| else 10
  }

  /** The sniffer's verdict from line `i` on. */
  function VerdictFrom(lines: seq<string>, i: nat): bool
    decreases Window(lines) - i
  {
    if i >= Window(lines) then false
    else
      var line := Strip(lines[i]);
      if line == [] then VerdictFrom(lines, i + 1)
      else if StartsWith(line, '>') then true
      else if i > 0 then false
      else VerdictFrom(lines, i + 1)
  }

  /** `_is_fasta_format`. */
  function LooksLikeFasta(content: string): bool {
    VerdictFrom(Lines(content), 0)
  }

  predicate IsHeaderLine(line: string) {
    StartsWith(Strip(line), '>')
  }

  /** A line the sniffer passes over: blank, the first line, or a header. */
  predicate Passable(lines: seq<string>, k: nat)
    requires k < |lines|
  {
    Strip(lines[k]) == [] || k == 0 || IsHeaderLine(lines[k])
  }

  /** Some header line within the first ten lines is preceded, from `i` on, only by passable lines. */
  predicate HeaderReachable(lines: seq<string>, i: nat) {
    exists j :: i <= j < Window(lines) && IsHeaderLine(lines[j])
                && forall k :: i <= k < j ==> Passable(lines, k)
  }

  lemma {:induction false} VerdictFromMeaning(lines: seq<string>, i: nat)
    ensures VerdictFrom(lines, i) <==> HeaderReachable(lines, i)
    decreases Window(lines) - i
  {
    if i < Window(lines) {
      VerdictFromMeaning(lines, i + 1);
      var line := Strip(lines[i]);
      if IsHeaderLine(lines[i]) {
      } else if Passable(lines, i) {
        if HeaderReachable(lines, i + 1) {
          var j :| i + 1 <= j < Window(lines) && IsHeaderLine(lines[j])
                   && forall k :: i + 1 <= k < j ==> Passable(lines, k);
          assert forall k :: i <= k < j ==> Passable(lines, k);
        }
        if HeaderReachable(lines, i) {
          var j :| i <= j < Window(lines) && IsHeaderLine(lines[j])
                   && forall k :: i <= k < j ==> Passable(lines, k);
          assert j != i;
          assert forall k :: i + 1 <= k < j ==> Passable(lines, k);
        }
      } else {
        NotReachablePast(lines, i);
      }
    }
  }

  /** A line that is neither passable nor a header stops the search. */
  lemma {:induction false} NotReachablePast(lines: seq<string>, i: nat)
    requires i < |lines| && !Passable(lines, i) && !IsHeaderLine(lines[i])
    ensures !HeaderReachable(lines, i)
  {
    forall j | i <= j < Window(lines) && IsHeaderLine(lines[j])
      ensures !(forall k :: i <= k < j ==> Passable(lines, k))
    {
      assert j != i;
      assert i <= i < j && !Passable(lines, i);
    }
  }

  /**
   * The content is taken for FASTA exactly when, within its first ten lines, a
   * header line comes before any non-blank, non-header line other than the first.
   */
  lemma {:induction false} LooksLikeFastaMeaning(content: string)
    ensures LooksLikeFasta(content) <==> HeaderReachable(Lines(content), 0)
  {
    VerdictFromMeaning(Lines(content), 0);
  }

  /** `_is_fasta_format`: scans the first ten lines with early returns. */
  method IsFastaFormat(content: string) returns (isFasta: bool)
    ensures isFasta == LooksLikeFasta(content)
  {
    var lines := Lines(content);
    var i := 0;
    while i < |lines| && i < 10
      invariant 0 <= i <= Window(lines)
      invariant VerdictFrom(lines, i) == VerdictFrom(lines, 0)
      decreases Window(lines) - i
    {
      var line := Strip(lines[i]);
      if line == [] {
        i := i + 1;
        continue;
      }
      if StartsWith(line, '>') {
        return true;
      }
      if i > 0 {
        return false;
      }
      i := i + 1;
    }
    return false;
  }

  // ------------------------------------------------------------------ _parse_fasta

  /** The loop state of `_parse_fasta`: records so far, the current header, the current sequence lines. */
  datatype FastaState = FastaState(records: seq<SequenceRecord>, header: Option<string>, pending: seq<string>)

  const Initial := FastaState([], None, [])

  /** Saving the current record: only when there is a header and its joined sequence is non-empty. */
  function Flush(st: FastaState): seq<SequenceRecord> {
    if st.header.Some? && Concat(st.pending) != [] then st.records + [SequenceRecord(st.header.value, Concat(st.pending))]
    else st.records
  }

  /** One line of `_parse_fasta`. */
  function FeedLine(st: FastaState, raw: string): FastaState {
    var line := Strip(raw);
    if line == [] then st
    else if StartsWith(line, '>') then FastaState(Flush(st), Some(Strip(line[1..])), [])
    else st.(pending := st.pending + [line])
  }

  /** The state after feeding `lines` one after the other, starting from `st`. */
  function Feed(st: FastaState, lines: seq<string>): FastaState {
    if lines == [] then st else FeedLine(Feed(st, lines[..|lines| - 1]), lines[|lines| - 1])
  }

  /** What `_parse_fasta` returns. */
  function FastaRecordsOf(content: string): seq<SequenceRecord> {
    Flush(Feed(Initial, Lines(content)))
  }

  /** `_parse_fasta`: carries the current header and sequence lines across a loop over the lines. */
  method ParseFasta(content: string) returns (sequences: seq<SequenceRecord>)
    ensures sequences == FastaRecordsOf(content)
  {
    sequences := [];
    var lines := Lines(content);
    var currentHeader: Option<string> := None;
    var currentSequence: seq<string> := [];
    for i := 0 to |lines|
      invariant FastaState(sequences, currentHeader, currentSequence) == Feed(Initial, lines[..i])
    {
      assert lines[..i + 1][..i] == lines[..i];
      var line := Strip(lines[i]);
      if line == [] {
        continue;
      }
      if StartsWith(line, '>') {
        if currentHeader.Some? {
          var sequence := Concat(currentSequence);
          if sequence != [] {
            sequences := sequences + [SequenceRecord(currentHeader.value, sequence)];
          }
        }
        currentHeader := Some(Strip(line[1..]));
        currentSequence := [];
      } else {
        currentSequence := currentSequence + [line];
      }
    }
    assert lines[..|lines|] == lines;
    if currentHeader.Some? {
      var sequence := Concat(currentSequence);
      if sequence != [] {
        sequences := sequences + [SequenceRecord(currentHeader.value, sequence)];
      }
    }
  }

  lemma {:induction false} FeedAppend(st: FastaState, a: seq<string>, b: seq<string>)
    ensures Feed(st, a + b) == Feed(Feed(st, a), b)
  {
    if b == [] {
      assert a + b == a;
    } else {
      assert (a + b)[..|a + b| - 1] == a + b[..|b| - 1];
      FeedAppend(st, a, b[..|b| - 1]);
    }
  }

  /** The state keeps only records with non-empty sequences, and a pending line is never blank. */
  ghost predicate WellFormed(st: FastaState) {
    (forall r :: r in st.records ==> r.sequence != [])
    && (forall k :: 0 <= k < |st.pending| ==> st.pending[k] != [])
  }

  lemma {:induction false} FeedWellFormed(st: FastaState, lines: seq<string>)
    requires WellFormed(st)
    ensures WellFormed(Feed(st, lines))
  {
    if lines != [] {
      FeedWellFormed(st, lines[..|lines| - 1]);
    }
  }

  /** Every FASTA record has a non-empty sequence. */
  lemma {:induction false} FastaSequencesNonEmpty(content: string)
    ensures forall r :: r in FastaRecordsOf(content) ==> r.sequence != []
  {
    FeedWellFormed(Initial, Lines(content));
  }

  /** Lines before the first header line are discarded: they never reach a record. */
  lemma {:induction false} PreambleDiscarded(pre: seq<string>)
    requires forall k :: 0 <= k < |pre| ==> !IsHeaderLine(pre[k])
    ensures Feed(Initial, pre).records == [] && Feed(Initial, pre).header.None?
  {
    if pre != [] {
      PreambleDiscarded(pre[..|pre| - 1]);
    }
  }

  /**
   * After a preamble without header lines, parsing starts afresh at the first
   * header line: the preamble does not change the records.
   */
  lemma {:induction false} PreambleIgnored(pre: seq<string>, rest: seq<string>)
    requires forall k :: 0 <= k < |pre| ==> !IsHeaderLine(pre[k])
    requires rest != [] && IsHeaderLine(rest[0])
    ensures Flush(Feed(Initial, pre + rest)) == Flush(Feed(Initial, rest))
  {
    PreambleDiscarded(pre);
    FeedAppend(Initial, pre, rest);
    FeedAppend(Initial, [rest[0]], rest[1..]);
    FeedAppend(Feed(Initial, pre), [rest[0]], rest[1..]);
    assert [rest[0]] + rest[1..] == rest;
    assert Feed(Feed(Initial, pre), [rest[0]]) == Feed(Initial, [rest[0]]) by {
      assert [rest[0]][..0] == [];
    }
  }

  /*
   * A reference reading of `_parse_fasta` by blocks: the lines are a preamble
   * without header lines, then blocks made of a header line and the lines up to
   * the next header line. Each block whose stripped lines join to a non-empty
   * sequence gives one record, in block order.
   */

  datatype Block = Block(headerLine: string, body: seq<string>)

  predicate WellSplit(b: Block) {
    IsHeaderLine(b.headerLine) && forall k :: 0 <= k < |b.body| ==> !IsHeaderLine(b.body[k])
  }

  function BlockLines(bs: seq<Block>): seq<string> {
    if bs == [] then [] else [bs[0].headerLine] + bs[0].body + BlockLines(bs[1..])
  }

  /** The stripped, non-blank lines of a block body, in order. */
  function Kept(body: seq<string>): (kept: seq<string>)
    ensures |kept| <= |body|
  {
    if body == [] then []
    else
      var line := Strip(body[|body| - 1]);
      Kept(body[..|body| - 1]) + (if line == [] then [] else [line])
  }

  function BlockRecord(b: Block): seq<SequenceRecord>
    requires WellSplit(b)
  {
    var sequence := Concat(Kept(b.body));
    if sequence != [] then [SequenceRecord(Strip(Strip(b.headerLine)[1..]), sequence)] else []
  }

  function BlockRecords(bs: seq<Block>): seq<SequenceRecord>
    requires forall k :: 0 <= k < |bs| ==> WellSplit(bs[k])
  {
    if bs == [] then [] else BlockRecord(bs[0]) + BlockRecords(bs[1..])
  }

  /** The first header line at or after `i`, or the end. */
  function NextHeader(lines: seq<string>, i: nat): (j: nat)
    requires i <= |lines|
    ensures i <= j <= |lines|
    ensures j < |lines| ==> IsHeaderLine(lines[j])
    ensures forall k :: i <= k < j ==> !IsHeaderLine(lines[k])
    decreases |lines| - i
  {
    if i == |lines| || IsHeaderLine(lines[i]) then i else NextHeader(lines, i + 1)
  }

  /** The blocks of `lines` from a header line at `i` on. */
  function BlocksFrom(lines: seq<string>, i: nat): seq<Block>
    requires i <= |lines| && (i < |lines| ==> IsHeaderLine(lines[i]))
    decreases |lines| - i
  {
    if i == |lines| then []
    else
      var j := NextHeader(lines, i + 1);
      [Block(lines[i], lines[i + 1..j])] + BlocksFrom(lines, j)
  }

  /** Every list of lines is its preamble followed by its blocks. */
  lemma {:induction false} BlocksFromShape(lines: seq<string>, i: nat)
    requires i <= |lines| && (i < |lines| ==> IsHeaderLine(lines[i]))
    ensures BlockLines(BlocksFrom(lines, i)) == lines[i..]
    ensures forall k :: 0 <= k < |BlocksFrom(lines, i)| ==> WellSplit(BlocksFrom(lines, i)[k])
    decreases |lines| - i
  {
    if i < |lines| {
      var j := NextHeader(lines, i + 1);
      var b := Block(lines[i], lines[i + 1..j]);
      var rest := BlocksFrom(lines, j);
      BlocksFromShape(lines, j);
      assert ([b] + rest)[1..] == rest;
      assert lines[i..] == [lines[i]] + lines[i + 1..j] + lines[j..];
      assert forall k :: 0 <= k < |[b] + rest| ==> WellSplit(([b] + rest)[k]) by {
        assert WellSplit(b);
        assert forall k :: 1 <= k < |[b] + rest| ==> ([b] + rest)[k] == rest[k - 1];
      }
    }
  }

  /** Body lines only add their stripped, non-blank lines to the current sequence. */
  lemma {:induction false} FeedBody(st: FastaState, body: seq<string>)
    requires forall k :: 0 <= k < |body| ==> !IsHeaderLine(body[k])
    ensures Feed(st, body) == st.(pending := st.pending + Kept(body))
  {
    if body == [] {
      assert st.pending + [] == st.pending;
    } else {
      var init := body[..|body| - 1];
      var line := Strip(body[|body| - 1]);
      FeedBody(st, init);
      if line == [] {
        assert Kept(body) == Kept(init) + [];
      } else {
        Seqs.AppendAssoc(st.pending, Kept(init), [line]);
      }
    }
  }

  /** A block saves the record under way and starts a new one with its header and kept lines. */
  lemma {:induction false} FeedBlock(st: FastaState, b: Block)
    requires WellSplit(b)
    ensures Feed(st, [b.headerLine] + b.body) == FastaState(Flush(st), Some(Strip(Strip(b.headerLine)[1..])), Kept(b.body))
  {
    var head := [b.headerLine];
    FeedAppend(st, head, b.body);
    assert Feed(st, head) == FeedLine(st, b.headerLine) by {
      assert head[..0] == [];
    }
    FeedBody(Feed(st, head), b.body);
  }

  lemma {:induction false} FeedBlocks(st: FastaState, bs: seq<Block>)
    requires forall k :: 0 <= k < |bs| ==> WellSplit(bs[k])
    ensures Flush(Feed(st, BlockLines(bs))) == Flush(st) + BlockRecords(bs)
    decreases |bs|
  {
    if bs == [] {
      assert Flush(st) + [] == Flush(st);
    } else {
      var b := bs[0];
      var rest := BlockLines(bs[1..]);
      assert BlockLines(bs) == ([b.headerLine] + b.body) + rest;
      FeedAppend(st, [b.headerLine] + b.body, rest);
      assert WellSplit(b);
      FeedBlock(st, b);
      var next := Feed(st, [b.headerLine] + b.body);
      assert Flush(next) == Flush(st) + BlockRecord(b);
      assert forall k :: 0 <= k < |bs[1..]| ==> WellSplit(bs[1..][k]) by {
        assert forall k :: 0 <= k < |bs[1..]| ==> bs[1..][k] == bs[k + 1];
      }
      FeedBlocks(next, bs[1..]);
      Seqs.AppendAssoc(Flush(st), BlockRecord(b), BlockRecords(bs[1..]));
    }
  }

  /**
   * `_parse_fasta` by blocks: whenever the lines of `content` are a preamble
   * without header lines followed by well-split blocks, the records are those of
   * the blocks.
   */
  lemma {:induction false} FastaByBlocks(content: string, pre: seq<string>, bs: seq<Block>)
    requires Lines(content) == pre + BlockLines(bs)
    requires forall k :: 0 <= k < |pre| ==> !IsHeaderLine(pre[k])
    requires forall k :: 0 <= k < |bs| ==> WellSplit(bs[k])
    ensures FastaRecordsOf(content) == BlockRecords(bs)
  {
    FeedAppend(Initial, pre, BlockLines(bs));
    PreambleDiscarded(pre);
    FeedBlocks(Feed(Initial, pre), bs);
  }

  /** Every content has that shape: its records are those of the blocks after its preamble. */
  lemma {:induction false} FastaRecordsByBlocks(content: string)
    ensures var lines := Lines(content);
            var p := NextHeader(lines, 0);
            var bs := BlocksFrom(lines, p);
            lines == lines[..p] + BlockLines(bs)
            && (forall k :: 0 <= k < |bs| ==> WellSplit(bs[k]))
            && FastaRecordsOf(content) == BlockRecords(bs)
  {
    var lines := Lines(content);
    var p := NextHeader(lines, 0);
    BlocksFromShape(lines, p);
    assert lines == lines[..p] + lines[p..];
    FastaByBlocks(content, lines[..p], BlocksFrom(lines, p));
  }

  // ------------------------------------------------------------------ _parse_fastq

  /**
   * What `_parse_fastq` collects from line `i` on: an `@` line with a following
   * line gives (header, next line stripped) when that line is non-empty, and the
   * scan skips four lines when three more follow, else two; any other line is skipped.
   */
  function FastqFrom(lines: seq<string>, i: nat): seq<SequenceRecord>
    decreases |lines| - i
  {
    if i >= |lines| then []
    else
      var line := Strip(lines[i]);
      if StartsWith(line, '@') && i + 1 < |lines| then
        var sequence := Strip(lines[i + 1]);
        var next := if i + 3 < |lines| then i + 4 else i + 2;
        (if sequence != [] then [SequenceRecord(Strip(line[1..]), sequence)] else []) + FastqFrom(lines, next)
      else FastqFrom(lines, i + 1)
  }

  /** What `_parse_fastq` returns. */
  function FastqRecordsOf(content: string): seq<SequenceRecord> {
    FastqFrom(Lines(content), 0)
  }

  /** `_parse_fastq`: a while loop over a manual line index that grows by 1, 2 or 4. */
  method ParseFastq(content: string) returns (sequences: seq<SequenceRecord>)
    ensures sequences == FastqRecordsOf(content)
  {
    sequences := [];
    var lines := Lines(content);
    var i := 0;
    while i < |lines|
      invariant sequences + FastqFrom(lines, i) == FastqFrom(lines, 0)
      decreases |lines| - i
    {
      var line := Strip(lines[i]);
      if StartsWith(line, '@') {
        var header := Strip(line[1..]);
        if i + 1 < |lines| {
          var sequence := Strip(lines[i + 1]);
          var next := i;
          if i + 3 < |lines| {
            next := i + 4;
          } else {
            next := i + 2;
          }
          var found := if sequence != [] then [SequenceRecord(header, sequence)] else [];
          var rest := FastqFrom(lines, next);
          assert FastqFrom(lines, i) == found + rest;
          Seqs.AppendAssoc(sequences, found, rest);
          if sequence != [] {
            sequences := sequences + [SequenceRecord(header, sequence)];
          } else {
            assert sequences + found == sequences;
          }
          i := next;
        } else {
          assert FastqFrom(lines, i) == FastqFrom(lines, i + 1);
          i := i + 1;
        }
      } else {
        assert FastqFrom(lines, i) == FastqFrom(lines, i + 1);
        i := i + 1;
      }
    }
    assert sequences + [] == sequences;
  }

  /** An `@` line at `i` followed by line `i + 1`. */
  predicate FastqRecordAt(lines: seq<string>, i: nat, r: SequenceRecord) {
    i + 1 < |lines| && StartsWith(Strip(lines[i]), '@')
    && r.header == Strip(Strip(lines[i])[1..]) && r.sequence == Strip(lines[i + 1])
  }

  /** Every FASTQ record comes from an `@` line at or after `i` and the line after it, and has a non-empty sequence. */
  lemma {:induction false} FastqFromSound(lines: seq<string>, i: nat)
    ensures forall r :: r in FastqFrom(lines, i) ==>
              r.sequence != [] && exists j :: i <= j < |lines| && FastqRecordAt(lines, j, r)
    decreases |lines| - i
  {
    if i < |lines| {
      var line := Strip(lines[i]);
      if StartsWith(line, '@') && i + 1 < |lines| {
        var sequence := Strip(lines[i + 1]);
        var next := if i + 3 < |lines| then i + 4 else i + 2;
        var head := if sequence != [] then [SequenceRecord(Strip(line[1..]), sequence)] else [];
        assert FastqFrom(lines, i) == head + FastqFrom(lines, next);
        FastqFromSound(lines, next);
        forall r | r in FastqFrom(lines, i)
          ensures r.sequence != [] && exists j :: i <= j < |lines| && FastqRecordAt(lines, j, r)
        {
          if r in head {
            assert FastqRecordAt(lines, i, r);
          } else {
            assert r in FastqFrom(lines, next);
          }
        }
      } else {
        FastqFromSound(lines, i + 1);
      }
    }
  }

  /** A FASTQ entry as written: header, sequence, `+` separator and quality line. */
  datatype FastqEntry = FastqEntry(header: string, sequence: string, quality: string)

  function EntryLines(entries: seq<FastqEntry>): (ls: seq<string>)
    ensures |ls| == 4 * |entries|
  {
    if entries == [] then []
    else
      var e := entries[0];
      [['@'] + e.header, e.sequence, ['+'], e.quality] + EntryLines(entries[1..])
  }

  /** No whitespace at either end, and no line break. */
  predicate Trimmed(s: string) {
    (s != [] ==> !IsSpace(s[0]) && !IsSpace(s[|s| - 1])) && '\n' !in s
  }

  predicate WellWritten(e: FastqEntry) {
    Trimmed(e.header) && Trimmed(e.sequence) && e.sequence != [] && Trimmed(e.quality) && e.quality != []
  }

  /** The records the entries stand for. */
  function EntryRecords(entries: seq<FastqEntry>): (rs: seq<SequenceRecord>)
    ensures |rs| == |entries|
  {
    if entries == [] then [] else [SequenceRecord(entries[0].header, entries[0].sequence)] + EntryRecords(entries[1..])
  }

  lemma {:induction false} FastqEntryLines(entries: seq<FastqEntry>)
    requires forall k :: 0 <= k < |entries| ==> WellWritten(entries[k])
    ensures FastqFrom(EntryLines(entries), 0) == EntryRecords(entries)
  {
    if entries != [] {
      var e := entries[0];
      var head := [['@'] + e.header, e.sequence, ['+'], e.quality];
      var rest := EntryLines(entries[1..]);
      var rec := SequenceRecord(e.header, e.sequence);
      assert EntryLines(entries) == head + rest;
      assert FastqFrom(head + rest, 0) == [rec] + FastqFrom(rest, 0) by {
        assert WellWritten(e);
        FastqEntryHead(e, rest);
        FastqShift(rest, head, 0);
      }
      assert FastqFrom(rest, 0) == EntryRecords(entries[1..]) by {
        assert forall k :: 0 <= k < |entries[1..]| ==> WellWritten(entries[1..][k]) by {
          assert forall k :: 0 <= k < |entries[1..]| ==> entries[1..][k] == entries[k + 1];
        }
        FastqEntryLines(entries[1..]);
      }
      assert EntryRecords(entries) == [rec] + EntryRecords(entries[1..]);
    }
  }

  /** The four lines of a well-written entry give its record and move the scan on by four. */
  lemma {:induction false} FastqEntryHead(e: FastqEntry, rest: seq<string>)
    requires WellWritten(e)
    ensures var ls := [['@'] + e.header, e.sequence, ['+'], e.quality] + rest;
            FastqFrom(ls, 0) == [SequenceRecord(e.header, e.sequence)] + FastqFrom(ls, 4)
  {
    var ls := [['@'] + e.header, e.sequence, ['+'], e.quality] + rest;
    StripUnchanged(['@'] + e.header);
    StripUnchanged(e.header);
    StripUnchanged(e.sequence);
    assert (['@'] + e.header)[1..] == e.header;
    assert ls[0] == ['@'] + e.header && ls[1] == e.sequence;
  }

  /** Parsing after four lines already consumed is parsing the rest alone. */
  lemma {:induction false} FastqShift(rest: seq<string>, head: seq<string>, i: nat)
    requires |head| == 4
    ensures FastqFrom(head + rest, 4 + i) == FastqFrom(rest, i)
    decreases |rest| - i
  {
    var ls := head + rest;
    if i < |rest| {
      assert ls[4 + i] == rest[i];
      if i + 1 < |rest| {
        assert ls[4 + i + 1] == rest[i + 1];
      }
      var line := Strip(rest[i]);
      if StartsWith(line, '@') && i + 1 < |rest| {
        var next := if i + 3 < |rest| then i + 4 else i + 2;
        FastqShift(rest, head, next);
      } else {
        FastqShift(rest, head, i + 1);
      }
    }
  }

  /**
   * Round trip: writing well-formed FASTQ entries as lines and joining them with
   * line breaks parses back to their headers and sequences; the `+` and quality
   * lines are skipped unread.
   */
  lemma {:induction false} FastqRoundTrip(entries: seq<FastqEntry>)
    requires entries != []
    requires forall k :: 0 <= k < |entries| ==> WellWritten(entries[k])
    ensures FastqRecordsOf(Join(EntryLines(entries), "\n")) == EntryRecords(entries)
  {
    var ls := EntryLines(entries);
    EntryLinesLast(entries);
    assert ls[0] == ['@'] + entries[0].header;
    assert WellWritten(entries[|entries| - 1]);
    EntryLinesNoBreak(entries);
    LinesOfJoin(ls);
    FastqEntryLines(entries);
  }

  lemma {:induction false} EntryLinesLast(entries: seq<FastqEntry>)
    requires entries != []
    ensures EntryLines(entries)[|EntryLines(entries)| - 1] == entries[|entries| - 1].quality
  {
    if |entries| > 1 {
      EntryLinesLast(entries[1..]);
    }
  }

  lemma {:induction false} EntryLinesNoBreak(entries: seq<FastqEntry>)
    requires forall k :: 0 <= k < |entries| ==> WellWritten(entries[k])
    ensures forall i :: 0 <= i < |EntryLines(entries)| ==> '\n' !in EntryLines(entries)[i]
  {
    if entries != [] {
      EntryLinesNoBreak(entries[1..]);
      var e := entries[0];
      assert '\n' !in ['@'] + e.header;
      assert '\n' !in ['+'];
      var ls := EntryLines(entries);
      assert ls == [['@'] + e.header, e.sequence, ['+'], e.quality] + EntryLines(entries[1..]);
      forall i | 0 <= i < |ls| ensures '\n' !in ls[i] {
        if i >= 4 {
          assert ls[i] == EntryLines(entries[1..])[i - 4];
        }
      }
    }
  }
}
