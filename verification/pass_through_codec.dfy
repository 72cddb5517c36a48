/** Model of `org.monte.media.PassThroughCodec.process`: the output buffer
    is a copy of the input, flagged DISCARD when it lies entirely before
    the start time or at or after the end time. A buffer that only partly
    overlaps the range passes untrimmed. */
module PassThroughCodec {
  import opened Wrappers
  import opened Rationals
  import opened Buffers

  /** The codec's time range; `None` is a `null` bound, which lets every
      buffer through on that side. */
  datatype Codec = Codec(startTime: Option<Rational>, endTime: Option<Rational>)

  /** The time just after a buffer: timeStamp + sampleDuration·sampleCount.
      The sum throws when exactly one of its terms is infinite. */
  function BufferEnd(b: Buffer): (r: Result<Rational, Exception>)
    ensures r.Failure? <==> IsFinite(b.timeStamp) != (IsFinite(b.sampleDuration) || b.sampleCount == 0)
    ensures r.Failure? ==> r.error == ArithmeticException
    ensures IsFinite(b.timeStamp) && IsFinite(b.sampleDuration) ==>
      r.Success? && IsFinite(r.value) && Val(r.value) == Val(b.timeStamp) + Val(b.sampleDuration) * b.sampleCount as real
  {
    Add(b.timeStamp, MultiplyInt(b.sampleDuration, b.sampleCount))
  }

  /** A buffer from `ts` to `end` lies entirely outside the range: it ends
      at or before the start time, or starts at or after the end time. */
  ghost predicate OutsideRange(c: Codec, ts: Rational, end: Rational) {
    || (c.startTime.Some? && !Less(c.startTime.value, end))
    || (c.endTime.Some? && !Less(ts, c.endTime.value))
  }

  /** `process(in, out)`. */
  function Process(c: Codec, input: Buffer): (r: Result<(CodecStatus, Buffer), Exception>)
    ensures r.Failure? <==> BufferEnd(input).Failure?
    ensures r.Failure? ==> r.error == ArithmeticException
    ensures r.Success? ==> r.value.0 == CodecOk
    ensures r.Success? ==>
      var out := r.value.1;
      && out == input.(flags := out.flags)
      && out.flags - {Discard} == input.flags - {Discard}
      && (Discard in out.flags <==>
            Discard in input.flags || OutsideRange(c, input.timeStamp, BufferEnd(input).value))
  {
    var out := input;
    var start := out.timeStamp;
    var end :- BufferEnd(out);
    var out :=
      if Discard !in out.flags && c.startTime.Some? && CompareTo(end, c.startTime.value) <= 0 then
        out.(flags := out.flags + {Discard})
      else
        out;
    var out :=
      if Discard !in out.flags && c.endTime.Some? && CompareTo(start, c.endTime.value) >= 0 then
        out.(flags := out.flags + {Discard})
      else
        out;
    Success((CodecOk, out))
  }

  /** Without a start and an end time the output equals the input. */
  lemma ProcessWithoutRange(input: Buffer)
    requires BufferEnd(input).Success?
    ensures Process(Codec(None, None), input) == Success((CodecOk, input))
  {
  }

  /** Processing the output again changes nothing: the flag is only ever
      added, and the times it is decided on are copied. */
  lemma ProcessIdempotent(c: Codec, input: Buffer)
    requires Process(c, input).Success?
    ensures var out := Process(c, input).value.1;
      Process(c, out) == Success((CodecOk, out))
  {
    var out := Process(c, input).value.1;
    assert BufferEnd(out) == BufferEnd(input);
  }

  /** A finite buffer that overlaps a finite range is passed on with its
      own flags. */
  lemma ProcessKeepsOverlap(c: Codec, input: Buffer)
    requires c.startTime.Some? && c.endTime.Some?
    requires IsFinite(input.timeStamp) && IsFinite(input.sampleDuration)
    requires IsFinite(c.startTime.value) && IsFinite(c.endTime.value)
    requires var end := Val(input.timeStamp) + Val(input.sampleDuration) * input.sampleCount as real;
      Val(c.startTime.value) < end && Val(input.timeStamp) < Val(c.endTime.value)
    ensures Process(c, input) == Success((CodecOk, input))
  {
  }
}
