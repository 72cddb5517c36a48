/** Model of the metadata of `org.monte.media.Buffer`, the unit of media
    data that readers, codecs and writers hand to each other, and of the
    codec status codes. `Buffer.java`, `BufferFlag.java` and `Codec.java`
    are not part of this model: the fields here are exactly the ones the
    reader, the pass-through codec and the recorder assign or test. */
module Buffers {
  import opened Wrappers
  import opened Rationals
  import opened Formats

  /** `BufferFlag`: the flags the modelled code sets or tests. */
  datatype BufferFlag = Discard | EndOfMedia | Keyframe | SameData

  /** What the `data` and `header` fields refer to. The bytes are not
      modelled: a byte array is known only by its length, a captured video
      image only by being one. */
  datatype Payload = NoPayload | Bytes(capacity: nat) | Image

  datatype Buffer = Buffer(
    flags: set<BufferFlag>,
    track: int,
    timeStamp: Rational,
    sampleDuration: Rational,
    sampleCount: int,
    format: Option<Format>,
    data: Payload,
    header: Payload,
    offset: int,
    length: int)

  /** The status a codec's `process` returns; the recorder only
      distinguishes `CODEC_OK` from every other code. */
  datatype CodecStatus = CodecOk | CodecFailed
}
