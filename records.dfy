/** The (header, sequence) pairs that the parsers produce and the batch validator consumes. */
module Records {

  datatype SequenceRecord = SequenceRecord(header: string, sequence: string)

  function Headers(records: seq<SequenceRecord>): (hs: seq<string>)
    ensures |hs| == |records|
    ensures forall i :: 0 <= i < |records| ==> hs[i] == records[i].header
  {
    seq(|records|, i requires 0 <= i < |records| => records[i].header)
  }
}
