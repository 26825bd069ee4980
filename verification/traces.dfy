/**
  Sequences of reads on one stream: the byte count is conserved across any
  run of reads, end-of-stream is final, and repeated size-less reads drain
  the stream in full-buffer chunks.
 */
module Traces {
  import opened ReadResults
  import opened Streams

  /** One read request: the size (or none) and the random bytes offered for a
      regrowth. */
  datatype Call = Call(size: Option<nat>, randomBytes: seq<byte>)

  datatype Trace = Trace(outputs: seq<Option<seq<byte>>>, final: LargeStream)

  /** Every call of the run offers random bytes of the right length whenever
      it regenerates the buffer. */
  predicate Supplied(s: LargeStream, calls: seq<Call>)
    requires Valid(s)
    decreases |calls|
  {
    |calls| == 0 ||
    (RandomBytesFit(s, calls[0].size, calls[0].randomBytes) &&
     Supplied(Read(s, calls[0].size, calls[0].randomBytes).next, calls[1..]))
  }

  /** Total number of bytes handed out by a list of read results;
      end-of-stream contributes nothing. */
  function Consumed(outputs: seq<Option<seq<byte>>>): (total: nat)
  {
    if |outputs| == 0 then 0
    else (match outputs[0] case None => 0 case Some(c) => |c|) + Consumed(outputs[1..])
  }

  /** Performs the calls in order, collecting what each read returned. */
  function Run(s: LargeStream, calls: seq<Call>): (t: Trace)
    requires Valid(s) && Supplied(s, calls)
    ensures Valid(t.final) && |t.outputs| == |calls|
    // bytes handed out plus bytes left is what was left at the start
    ensures Consumed(t.outputs) + t.final.remaining == s.remaining
    // the buffer never shrinks over a run
    ensures t.final.baseDataLength >= s.baseDataLength
    // end-of-stream is final: after the first one, only end-of-stream follows
    ensures forall i, j :: 0 <= i <= j < |t.outputs| && t.outputs[i].None? ==> t.outputs[j].None?
    // once end-of-stream has been seen, everything has been handed out
    ensures (exists i :: 0 <= i < |t.outputs| && t.outputs[i].None?) ==> t.final.remaining == 0
    // on an exhausted stream, every read is end-of-stream
    ensures s.remaining == 0 ==> forall i :: 0 <= i < |t.outputs| ==> t.outputs[i].None?
    decreases |calls|
  {
    if |calls| == 0 then Trace([], s)
    else
      var r := Read(s, calls[0].size, calls[0].randomBytes);
      var rest := Run(r.next, calls[1..]);
      var t := Trace([r.chunk] + rest.outputs, rest.final);
      assert t.outputs[1..] == rest.outputs;
      t
  }

  /** On an exhausted stream, every read of a run is end-of-stream. */
  lemma {:induction false} NoneRunIsConstant(s: LargeStream, calls: seq<Call>)
    requires Valid(s) && s.remaining == 0
    ensures Supplied(s, calls)
    ensures Run(s, calls).outputs == seq(|calls|, _ => None)
    ensures Run(s, calls).final == s
    decreases |calls|
  {
    if |calls| > 0 {
      ExhaustedStaysExhausted(s, calls[0].size, calls[0].randomBytes);
      NoneRunIsConstant(s, calls[1..]);
    }
  }

  /** Conservation from construction: over any run of reads on a new stream
      of `length` bytes, the bytes handed out plus the bytes left equal
      `length`, and once end-of-stream is returned, exactly `length` bytes
      have been handed out. */
  lemma Conservation(length: nat, initialBufferLength: nat, randomBytes: seq<byte>, calls: seq<Call>)
    requires |randomBytes| == initialBufferLength
    requires Supplied(New(length, randomBytes, initialBufferLength), calls)
    ensures var t := Run(New(length, randomBytes, initialBufferLength), calls);
            && Consumed(t.outputs) + Remaining(t.final) == length
            && ((exists i :: 0 <= i < |t.outputs| && t.outputs[i].None?) ==> Consumed(t.outputs) == length)
  {
  }

  /** A stream of zero bytes reports end-of-stream on its first read. */
  lemma EmptyStreamEndsAtOnce(initialBufferLength: nat, randomBytes: seq<byte>, size: Option<nat>, otherBytes: seq<byte>)
    requires |randomBytes| == initialBufferLength
    ensures RandomBytesFit(New(0, randomBytes, initialBufferLength), size, otherBytes)
    ensures Read(New(0, randomBytes, initialBufferLength), size, otherBytes).chunk.None?
  {
  }

  /** Appending a read result adds its chunk's length, if any, to the total. */
  lemma {:induction false} ConsumedAppend(outputs: seq<Option<seq<byte>>>, o: Option<seq<byte>>)
    ensures Consumed(outputs + [o]) == Consumed(outputs) + (match o case None => 0 case Some(c) => |c|)
    decreases |outputs|
  {
    if |outputs| > 0 {
      assert (outputs + [o])[1..] == outputs[1..] + [o];
      ConsumedAppend(outputs[1..], o);
    }
  }

  /** Repeated size-less reads until end-of-stream, collecting every result.
      With a non-empty buffer this terminates (each read strictly lowers
      `remaining`), and the results are chunks followed by one end-of-stream.
      The buffer is never regenerated, every chunk is a non-empty prefix of
      the buffer, all chunks but the last fill the buffer, and the chunks add
      up to what was left at the start. */
  method Drain(s: LargeStream) returns (outputs: seq<Option<seq<byte>>>, final: LargeStream)
    requires Valid(s) && s.baseDataLength > 0
    ensures Valid(final) && final.remaining == 0 && final.baseData == s.baseData
    ensures |outputs| > 0 && outputs[|outputs| - 1].None?
    ensures Consumed(outputs) == s.remaining
    ensures forall i :: 0 <= i < |outputs| - 1 ==>
              outputs[i].Some? && 0 < |outputs[i].value| && outputs[i].value <= s.baseData
    ensures forall i :: 0 <= i < |outputs| - 2 ==> |outputs[i].value| == s.baseDataLength
    // the number of chunks is the ceiling of remaining / buffer length
    ensures var n := |outputs| - 1;
            (n - 1) * s.baseDataLength < s.remaining <= n * s.baseDataLength
  {
    var L := s.baseDataLength;
    outputs := [];
    final := s;
    while final.remaining > 0
      invariant Valid(final) && final.baseData == s.baseData && final.baseDataLength == L
      invariant Consumed(outputs) + final.remaining == s.remaining
      invariant forall i :: 0 <= i < |outputs| ==>
                  outputs[i].Some? && 0 < |outputs[i].value| && outputs[i].value <= s.baseData
      invariant forall i :: 0 <= i < |outputs| - 1 ==> |outputs[i].value| == L
      invariant final.remaining > 0 ==> forall i :: 0 <= i < |outputs| ==> |outputs[i].value| == L
      invariant final.remaining > 0 ==> Consumed(outputs) == |outputs| * L
      invariant |outputs| > 0 ==> (|outputs| - 1) * L < Consumed(outputs) <= |outputs| * L
      decreases final.remaining
    {
      DefaultReadKeepsBuffer(final, []);
      var r := Read(final, None, []);
      ConsumedAppend(outputs, r.chunk);
      outputs := outputs + [r.chunk];
      final := r.next;
    }
    var last := Read(final, None, []);
    ConsumedAppend(outputs, last.chunk);
    outputs := outputs + [last.chunk];
  }
}
