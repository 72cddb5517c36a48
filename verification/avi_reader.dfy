/** Model of the index arithmetic of `org.monte.media.avi.AVIReader`: the
    metadata a read fills in, the interleaving order of tracks, the
    conversions between time and sample index, seeking and the movie
    duration.

    A track is the stream header's time base (`scale`, `rate`, `startTime`,
    the `dwScale`, `dwRate` and `dwStart` fields of an AVI stream header,
    and `length`, its `dwLength`) plus the sample index parsed from the
    file; `AVIInputStream`, which parses it, is not part of this model, so
    the sample table is taken as given. Sample times are in units of
    scale/rate seconds. The bytes of a sample are not transferred. */
module AviReader {
  import opened Wrappers
  import opened Divisibility
  import opened IntMath
  import opened Rationals
  import opened Formats
  import opened Buffers

  /** `AVIMediaType`. */
  datatype MediaType = Audio | Video | Midi | Text

  /** One entry of a track's sample index. `length` is the chunk size in
      bytes; `timeStamp` and `duration` are in units of scale/rate. */
  datatype Sample = Sample(offset: int, length: nat, timeStamp: int, duration: int, isKeyframe: bool)

  datatype Track = Track(
    mediaType: MediaType,
    format: Format,
    samples: seq<Sample>,
    readIndex: int,
    scale: int,
    rate: int,
    startTime: int,
    length: int)

  /** The reader: its tracks and the cached movie duration (`null` until
      first asked for). */
  datatype Reader = Reader(tracks: seq<Track>, movieDuration: Option<Rational>)

  /** The time in seconds `read` reports for sample i of a track. */
  function SampleTime(tr: Track, i: int): Rational
    requires 0 <= i < |tr.samples|
  {
    Make((tr.samples[i].timeStamp + tr.startTime) * tr.scale, tr.rate)
  }

  /** The time just after the last sample: its time plus its duration. */
  function EndTime(tr: Track): Rational
    requires |tr.samples| > 0
  {
    var s := tr.samples[|tr.samples| - 1];
    Make((tr.startTime + s.timeStamp) * tr.scale + s.duration * tr.scale, tr.rate)
  }

  /** The cursor points at a sample still to be read. */
  predicate Pending(tr: Track) {
    0 <= tr.readIndex < |tr.samples|
  }

  function PendingTime(tr: Track): Rational
    requires Pending(tr)
  {
    SampleTime(tr, tr.readIndex)
  }

  /** The range the reader's own operations keep the cursor in: from -1,
      where seeking may leave it, to one past the last sample. */
  predicate CursorInRange(tr: Track) {
    -1 <= tr.readIndex <= |tr.samples|
  }

  function IntMin(a: int, b: int): int {
    if a <= b then a else b
  }

  /** Java's `max(0, min(x, n))`. */
  function Clamp(x: int, n: int): int {
    var m := IntMin(x, n);
    if m < 0 then 0 else m
  }

  // ---------------------------------------------------------------------
  // read and getReadTime
  // ---------------------------------------------------------------------

  /** The frame size an audio format declares; reading an absent one
      unboxes `null`. */
  function FrameSize(f: Format): Option<int> {
    match Get(f, FrameSizeKey)
    case Some(IntegerValue(n)) => Some(n)
    case _ => None
  }

  /** The sample count of a chunk of `length` bytes: whole audio frames,
      one video frame, and an exception for any other media type. */
  function SampleCountOf(tr: Track, length: int): Result<int, Exception> {
    match tr.mediaType
    case Audio =>
      (match FrameSize(tr.format)
       case None => Failure(NullPointer)
       case Some(n) => JavaDiv(length, n))
    case Video => Success(1)
    case _ => Failure(UnsupportedOperation)
  }

  /** The buffer `b` describes sample `tr.readIndex` of track number
      `track`, read into the buffer that was `prior`. */
  ghost predicate DescribesSample(tr: Track, track: int, prior: Buffer, b: Buffer)
    requires Pending(tr)
  {
    var s := tr.samples[tr.readIndex];
    && b.length == s.length && b.offset == 0 && b.header == NoPayload
    && b.data.Bytes? && b.data.capacity >= s.length
    && (prior.data.Bytes? && prior.data.capacity >= s.length ==> b.data == prior.data)
    && b.format == Some(tr.format) && b.track == track
    && b.sampleDuration == Make(tr.scale, tr.rate)
    && b.timeStamp == SampleTime(tr, tr.readIndex)
    && (Keyframe in b.flags <==> s.isKeyframe) && b.flags <= {Keyframe}
    && (tr.mediaType == Video ==> b.sampleCount == 1)
    && (tr.mediaType == Audio ==>
          FrameSize(tr.format).Some? && FrameSize(tr.format).value != 0
          && b.sampleCount == JDiv(s.length, FrameSize(tr.format).value))
  }

  /** `read(track, buffer)`: an exhausted track yields an empty buffer
      flagged END_OF_MEDIA and DISCARD; otherwise the buffer describes the
      pending sample and the cursor moves on by one. */
  function Read(rd: Reader, track: int, buf: Buffer): (r: Result<(Reader, Buffer), Exception>)
    ensures !(0 <= track < |rd.tracks|) ==> r == Failure(IndexOutOfBounds)
    ensures 0 <= track < |rd.tracks| && rd.tracks[track].readIndex >= |rd.tracks[track].samples| ==>
      r == Success((rd, buf.(flags := {EndOfMedia, Discard}, length := 0)))
    ensures 0 <= track < |rd.tracks| && rd.tracks[track].readIndex < 0 ==> r == Failure(IndexOutOfBounds)
    ensures 0 <= track < |rd.tracks| && Pending(rd.tracks[track]) ==>
      var tr := rd.tracks[track];
      && (r.Failure? <==> tr.mediaType in {Midi, Text} || (tr.mediaType == Audio && FrameSize(tr.format) in {None, Some(0)}))
      && (r.Failure? ==> r.error == (if tr.mediaType != Audio then UnsupportedOperation
                                      else if FrameSize(tr.format).None? then NullPointer
                                      else ArithmeticException))
      && (r.Success? ==> DescribesSample(tr, track, buf, r.value.1)
                         && r.value.0 == rd.(tracks := rd.tracks[track := tr.(readIndex := tr.readIndex + 1)]))
  {
    if !(0 <= track < |rd.tracks|) then
      Failure(IndexOutOfBounds)
    else
      var tr := rd.tracks[track];
      if tr.readIndex >= |tr.samples| then
        Success((rd, buf.(flags := {EndOfMedia, Discard}, length := 0)))
      else if tr.readIndex < 0 then
        Failure(IndexOutOfBounds)
      else
        var s := tr.samples[tr.readIndex];
        // the byte array is reused when it is large enough
        var data := if buf.data.Bytes? && buf.data.capacity >= s.length then buf.data else Bytes(s.length);
        var count :- SampleCountOf(tr, s.length);
        var b := buf.(data := data, offset := 0, length := s.length, header := NoPayload,
                      sampleCount := count, format := Some(tr.format), track := track,
                      sampleDuration := Make(tr.scale, tr.rate),
                      timeStamp := SampleTime(tr, tr.readIndex),
                      flags := if s.isKeyframe then {Keyframe} else {});
        Success((rd.(tracks := rd.tracks[track := tr.(readIndex := tr.readIndex + 1)]), b))
  }

  /** `getReadTime(track)`: the time of the pending sample, 0 once the
      track is exhausted. A cursor left at -1 indexes the list at -1. */
  function GetReadTime(rd: Reader, track: int): (r: Result<Rational, Exception>)
    ensures r.Failure? <==> !(0 <= track < |rd.tracks|) || rd.tracks[track].readIndex < 0
    ensures r.Failure? ==> r.error == IndexOutOfBounds
    ensures r.Success? && Pending(rd.tracks[track]) ==> r.value == PendingTime(rd.tracks[track])
    ensures r.Success? && !Pending(rd.tracks[track]) ==> r.value == Zero
  {
    if !(0 <= track < |rd.tracks|) then
      Failure(IndexOutOfBounds)
    else
      var tr := rd.tracks[track];
      if |tr.samples| > tr.readIndex then
        if tr.readIndex < 0 then Failure(IndexOutOfBounds)
        else Success(SampleTime(tr, tr.readIndex))
      else
        Success(Make(0, 1))
  }

  /** A successful read of a pending sample reports the time `getReadTime`
      announced, and afterwards `getReadTime` announces the next sample,
      or 0 when there is none. */
  lemma ReadReportsReadTime(rd: Reader, track: int, buf: Buffer)
    requires 0 <= track < |rd.tracks| && Pending(rd.tracks[track])
    requires Read(rd, track, buf).Success?
    ensures var (rd', b) := Read(rd, track, buf).value;
      && GetReadTime(rd, track) == Success(b.timeStamp)
      && (Pending(rd'.tracks[track]) ==> GetReadTime(rd', track) == Success(SampleTime(rd.tracks[track], rd.tracks[track].readIndex + 1)))
      && (!Pending(rd'.tracks[track]) ==> GetReadTime(rd', track) == Success(Zero))
  {
    var (rd', b) := Read(rd, track, buf).value;
    assert rd'.tracks[track] == rd.tracks[track].(readIndex := rd.tracks[track].readIndex + 1);
  }

  /** Reading keeps the cursor in range. */
  lemma ReadKeepsCursorInRange(rd: Reader, track: int, buf: Buffer, u: int)
    requires 0 <= u < |rd.tracks| && CursorInRange(rd.tracks[u])
    requires Read(rd, track, buf).Success?
    ensures |Read(rd, track, buf).value.0.tracks| == |rd.tracks|
    ensures CursorInRange(Read(rd, track, buf).value.0.tracks[u])
  {
  }

  // ---------------------------------------------------------------------
  // nextTrack
  // ---------------------------------------------------------------------

  /** The time `nextTrack` starts from, Integer.MAX_VALUE seconds; a
      pending sample at or after it is never chosen. */
  const Horizon: Rational := Make(Int32Max, 1)

  /** A non-empty track whose cursor is negative: `nextTrack` indexes its
      sample list at that position and throws. */
  predicate Stranded(tr: Track) {
    |tr.samples| > 0 && tr.readIndex < 0
  }

  /** Track i can be chosen: it has a pending sample before the horizon. */
  ghost predicate Candidate(tracks: seq<Track>, i: int)
    requires 0 <= i < |tracks|
  {
    Pending(tracks[i]) && Less(PendingTime(tracks[i]), Horizon)
  }

  /** x is below y when x is below a bound that y is not below. */
  lemma Undercut(x: Rational, bound: Rational, y: Rational)
    requires Less(x, bound) && !Less(y, bound)
    ensures Less(x, y)
  {
    LessTotal(y, bound);
    if y != bound {
      LessTransitive(x, bound, y);
    }
  }

  /** The loop of `nextTrack` has looked at the first i tracks: none is
      stranded, and `next` (or -1) is the first candidate among them whose
      pending time `ts` (or the horizon) nothing before i undercuts. */
  ghost predicate Scanned(tracks: seq<Track>, i: int, next: int, ts: Rational) {
    && 0 <= i <= |tracks|
    && (forall k :: 0 <= k < i ==> !Stranded(tracks[k]))
    && -1 <= next < i
    && (next == -1 ==> ts == Horizon)
    && (next >= 0 ==> Candidate(tracks, next) && ts == PendingTime(tracks[next]))
    && (forall k :: 0 <= k < i && Pending(tracks[k]) ==> !Less(PendingTime(tracks[k]), ts))
    && (forall k :: 0 <= k < next && Pending(tracks[k]) ==> Less(ts, PendingTime(tracks[k])))
  }

  /** A track whose pending time is below the best so far becomes the
      best. */
  lemma ScanTakes(tracks: seq<Track>, i: int, next: int, ts: Rational)
    requires Scanned(tracks, i, next, ts) && i < |tracks|
    requires Pending(tracks[i]) && Less(PendingTime(tracks[i]), ts)
    ensures Scanned(tracks, i + 1, i, PendingTime(tracks[i]))
  {
    var trts := PendingTime(tracks[i]);
    forall k | 0 <= k < i && Pending(tracks[k])
      ensures Less(trts, PendingTime(tracks[k])) && !Less(PendingTime(tracks[k]), trts)
    {
      Undercut(trts, ts, PendingTime(tracks[k]));
      LessTotal(trts, PendingTime(tracks[k]));
    }
    if next >= 0 {
      LessTransitive(trts, ts, Horizon);
    }
    assert Candidate(tracks, i);
    LessTotal(trts, trts);
  }

  /** A track that is not stranded and not below the best so far leaves
      the best as it is. */
  lemma ScanSkips(tracks: seq<Track>, i: int, next: int, ts: Rational)
    requires Scanned(tracks, i, next, ts) && i < |tracks| && !Stranded(tracks[i])
    requires Pending(tracks[i]) ==> !Less(PendingTime(tracks[i]), ts)
    ensures Scanned(tracks, i + 1, next, ts)
  {
  }

  /** `nextTrack()`: the track whose pending sample comes first, the lowest
      index on a tie, or -1 when no track has a pending sample. */
  method NextTrack(rd: Reader) returns (r: Result<int, Exception>)
    ensures r.Failure? <==> exists i :: 0 <= i < |rd.tracks| && Stranded(rd.tracks[i])
    ensures r.Failure? ==> r.error == IndexOutOfBounds
    ensures r.Success? ==> -1 <= r.value < |rd.tracks|
    ensures r == Success(-1) ==> forall i :: 0 <= i < |rd.tracks| ==> !Candidate(rd.tracks, i)
    ensures r.Success? && r.value >= 0 ==>
      && Candidate(rd.tracks, r.value)
      && (forall j :: 0 <= j < r.value && Pending(rd.tracks[j]) ==>
            Less(PendingTime(rd.tracks[r.value]), PendingTime(rd.tracks[j])))
      && (forall j :: r.value < j < |rd.tracks| && Pending(rd.tracks[j]) ==>
            !Less(PendingTime(rd.tracks[j]), PendingTime(rd.tracks[r.value])))
  {
    var ts := Make(Int32Max, 1);
    var next := -1;
    var i := 0;
    while i < |rd.tracks|
      invariant Scanned(rd.tracks, i, next, ts)
    {
      var tr := rd.tracks[i];
      if |tr.samples| > 0 {
        if tr.readIndex < 0 {
          return Failure(IndexOutOfBounds);
        }
        var current := if tr.readIndex < |tr.samples| then tr.samples[tr.readIndex] else tr.samples[|tr.samples| - 1];
        var readTimeStamp := current.timeStamp;
        if tr.readIndex >= |tr.samples| {
          readTimeStamp := readTimeStamp + current.duration;
        }
        var trts := Make((readTimeStamp + tr.startTime) * tr.scale, tr.rate);
        if CompareTo(trts, ts) < 0 && tr.readIndex < |tr.samples| {
          ScanTakes(rd.tracks, i, next, ts);
          ts := trts;
          next := i;
        } else {
          ScanSkips(rd.tracks, i, next, ts);
        }
      } else {
        ScanSkips(rd.tracks, i, next, ts);
      }
      i := i + 1;
    }
    return Success(next);
  }

  // ---------------------------------------------------------------------
  // getMovieDuration
  // ---------------------------------------------------------------------

  /** The length of a track as `getMovieDuration` computes it:
      (length·scale + startTime)/rate. The start time is added in stream
      units without being multiplied by scale, unlike in `read`. */
  function TrackDuration(tr: Track): (r: Rational)
    ensures tr.rate != 0 ==> IsFinite(r) && Val(r) == (tr.length * tr.scale + tr.startTime) as real / tr.rate as real
    ensures tr.rate == 0 ==> r == (if tr.length * tr.scale + tr.startTime == 0 then Zero
                                   else if tr.length * tr.scale + tr.startTime > 0 then PosInf else NegInf)
  {
    assert tr.rate != 0 ==> Val(Make(tr.length * tr.scale + tr.startTime, tr.rate))
                            == (tr.length * tr.scale + tr.startTime) as real / tr.rate as real by {
      if tr.rate != 0 {
        MakeValue(tr.length * tr.scale + tr.startTime, tr.rate);
      }
    }
    Make(tr.length * tr.scale + tr.startTime, tr.rate)
  }

  /** The loop of `getMovieDuration`: starting from 0, a track replaces
      the maximum so far when it is strictly longer. */
  function MaxDuration(tracks: seq<Track>): (r: Rational)
    ensures !Less(r, Zero)
    ensures forall i :: 0 <= i < |tracks| ==> !Less(r, TrackDuration(tracks[i]))
    ensures r == Zero || exists i :: 0 <= i < |tracks| && r == TrackDuration(tracks[i])
  {
    if |tracks| == 0 then
      Make(0, 1)
    else
      var m := MaxDuration(tracks[..|tracks| - 1]);
      var d := TrackDuration(tracks[|tracks| - 1]);
      assert forall i :: 0 <= i < |tracks| - 1 ==> tracks[..|tracks| - 1][i] == tracks[i];
      LessTotal(m, d);
      if CompareTo(m, d) < 0 then d else m
  }

  /** `getMovieDuration()`: computed once over all tracks, then cached. */
  function GetMovieDuration(rd: Reader): (r: (Reader, Rational))
    ensures rd.movieDuration.Some? ==> r == (rd, rd.movieDuration.value)
    ensures r.0 == rd.(movieDuration := Some(r.1))
    ensures rd.movieDuration.None? ==>
      && !Less(r.1, Zero)
      && (forall i :: 0 <= i < |rd.tracks| ==> !Less(r.1, TrackDuration(rd.tracks[i])))
      && (r.1 == Zero || exists i :: 0 <= i < |rd.tracks| && r.1 == TrackDuration(rd.tracks[i]))
  {
    match rd.movieDuration
    case Some(d) => (rd, d)
    case None =>
      var d := MaxDuration(rd.tracks);
      (rd.(movieDuration := Some(d)), d)
  }

  /** The duration of a track with its start time in stream units, as
      `read` and `sampleToTime` treat it: (length + startTime)·scale/rate. */
  function TrackDurationCorrected(tr: Track): (r: Rational)
    ensures |tr.samples| > 0 && tr.rate != 0 &&
            tr.samples[|tr.samples| - 1].timeStamp + tr.samples[|tr.samples| - 1].duration == tr.length ==>
            r == EndTime(tr)
  {
    var s := tr.samples;
    if |s| > 0 && tr.rate != 0 && s[|s| - 1].timeStamp + s[|s| - 1].duration == tr.length then
      var last := s[|s| - 1];
      assert (tr.length + tr.startTime) * tr.scale
          == (tr.startTime + last.timeStamp) * tr.scale + last.duration * tr.scale;
      Make((tr.length + tr.startTime) * tr.scale, tr.rate)
    else
      Make((tr.length + tr.startTime) * tr.scale, tr.rate)
  }

  /** `getMovieDuration` with the start time scaled like in `read`. */
  function MaxDurationCorrected(tracks: seq<Track>): (r: Rational)
    ensures !Less(r, Zero)
    ensures forall i :: 0 <= i < |tracks| ==> !Less(r, TrackDurationCorrected(tracks[i]))
    ensures r == Zero || exists i :: 0 <= i < |tracks| && r == TrackDurationCorrected(tracks[i])
  {
    if |tracks| == 0 then
      Make(0, 1)
    else
      var m := MaxDurationCorrected(tracks[..|tracks| - 1]);
      var d := TrackDurationCorrected(tracks[|tracks| - 1]);
      assert forall i :: 0 <= i < |tracks| - 1 ==> tracks[..|tracks| - 1][i] == tracks[i];
      LessTotal(m, d);
      if CompareTo(m, d) < 0 then d else m
  }

  /** A track of one sample lasting one unit, with scale 2 and start time
      1: `getMovieDuration` says 3 seconds, but the sample ends at 4
      seconds by the times `read` and `sampleToTime` report. */
  lemma MovieDurationIgnoresScale()
    ensures var tr := Track(Video, map[], [Sample(0, 0, 0, 1, true)], 0, 2, 1, 1, 1);
      && TrackDuration(tr) == Make(3, 1)
      && EndTime(tr) == Make(4, 1)
      && MaxDuration([tr]) != EndTime(tr)
      && MaxDurationCorrected([tr]) == EndTime(tr)
  {
    var tr := Track(Video, map[], [Sample(0, 0, 0, 1, true)], 0, 2, 1, 1, 1);
    MakeValue(3, 1);
    MakeValue(4, 1);
    assert MaxDuration([tr][..0]) == Zero;
    assert MaxDurationCorrected([tr][..0]) == Zero;
  }

  // ---------------------------------------------------------------------
  // timeToSample and sampleToTime
  // ---------------------------------------------------------------------

  /** ((num·rate)/den)/scale − startTime with Java's truncating division:
      the time in stream units. An infinite time or a zero scale divides
      by zero. */
  function BaseIndex(tr: Track, time: Rational): (r: Result<int, Exception>)
    ensures r.Failure? <==> !IsFinite(time) || tr.scale == 0
    ensures r.Failure? ==> r.error == ArithmeticException
  {
    var q :- JavaDiv(time.num * tr.rate, time.den);
    var u :- JavaDiv(q, tr.scale);
    Success(u - tr.startTime)
  }

  /** The `count` of the audio loop of `timeToSample` after i samples:
      an `int`, so each `count += d` narrows the long sum to 32 bits. */
  function Accum(samples: seq<Sample>, scale: int, i: nat): (r: int)
    requires i <= |samples|
    ensures IsInt32(r)
  {
    if i == 0 then 0 else ToInt32(Accum(samples, scale, i - 1) + samples[i - 1].duration * scale)
  }

  /** The sum of duration·scale over the first i samples, without the
      narrowing. */
  ghost function StreamTime(samples: seq<Sample>, scale: int, i: nat): int
    requires i <= |samples|
  {
    if i == 0 then 0 else StreamTime(samples, scale, i - 1) + samples[i - 1].duration * scale
  }

  /** While every partial sum fits an `int`, `count` is the plain sum of
      the durations before it. */
  lemma {:induction false} AccumNoWrap(samples: seq<Sample>, scale: int, i: nat)
    requires i <= |samples|
    requires forall j :: 0 <= j <= i ==> IsInt32(StreamTime(samples, scale, j))
    ensures Accum(samples, scale, i) == StreamTime(samples, scale, i)
  {
    if i > 0 {
      AccumNoWrap(samples, scale, i - 1);
      assert IsInt32(StreamTime(samples, scale, i));
    }
  }

  /** Sample k ends after stream time `index`: the test is made in `long`
      on `count + d`, before the narrowing. */
  predicate Exceeds(samples: seq<Sample>, scale: int, index: int, k: int)
    requires 0 <= k < |samples|
  {
    Accum(samples, scale, k) + samples[k].duration * scale > index
  }

  /** The audio loop of `timeToSample` from sample i on: the first sample
      that ends after `index`, or `index` itself when none does. */
  function AudioSearch(samples: seq<Sample>, scale: int, index: int, i: nat, count: int): (r: int)
    requires i <= |samples| && count == Accum(samples, scale, i)
    decreases |samples| - i
    ensures (exists k :: i <= k < |samples| && Exceeds(samples, scale, index, k)) ==>
      && i <= r < |samples| && Exceeds(samples, scale, index, r)
      && forall k :: i <= k < r ==> !Exceeds(samples, scale, index, k)
    ensures (forall k :: i <= k < |samples| ==> !Exceeds(samples, scale, index, k)) ==> r == index
  {
    if i == |samples| then
      index
    else
      var d := samples[i].duration * scale;
      if count + d > index then
        assert Exceeds(samples, scale, index, i);
        i
      else
        assert Accum(samples, scale, i + 1) == ToInt32(count + d);
        AudioSearch(samples, scale, index, i + 1, ToInt32(count + d))
  }

  /** `timeToSample` on one track: the stream time as an index for video,
      the first sample ending after it for audio, clamped to
      [0, sample count]. */
  function TrackTimeToSample(tr: Track, time: Rational): (r: Result<int, Exception>)
    ensures r.Failure? <==> !IsFinite(time) || tr.scale == 0
    ensures r.Failure? ==> r.error == ArithmeticException
    ensures r.Success? ==> 0 <= r.value <= |tr.samples|
    ensures r.Success? && tr.mediaType != Audio ==> r.value == Clamp(BaseIndex(tr, time).value, |tr.samples|)
    ensures r.Success? && tr.mediaType == Audio ==>
      var index := BaseIndex(tr, time).value;
      && ((exists k :: 0 <= k < |tr.samples| && Exceeds(tr.samples, tr.scale, index, k)) ==>
            && r.value < |tr.samples| && Exceeds(tr.samples, tr.scale, index, r.value)
            && forall k :: 0 <= k < r.value ==> !Exceeds(tr.samples, tr.scale, index, k))
      && ((forall k :: 0 <= k < |tr.samples| ==> !Exceeds(tr.samples, tr.scale, index, k)) ==>
            r.value == Clamp(index, |tr.samples|))
  {
    var index :- BaseIndex(tr, time);
    var found := if tr.mediaType == Audio then AudioSearch(tr.samples, tr.scale, index, 0, 0) else index;
    Success(Clamp(found, |tr.samples|))
  }

  /** `timeToSample(track, time)`. */
  function TimeToSample(rd: Reader, track: int, time: Rational): (r: Result<int, Exception>)
    ensures !(0 <= track < |rd.tracks|) ==> r == Failure(IndexOutOfBounds)
    ensures 0 <= track < |rd.tracks| ==> r == TrackTimeToSample(rd.tracks[track], time)
  {
    if 0 <= track < |rd.tracks| then TrackTimeToSample(rd.tracks[track], time)
    else Failure(IndexOutOfBounds)
  }

  /** `sampleToTime(track, index)`: the time `read` reports for the sample
      at the clamped index, and the end of the last sample for an index
      at or past the end. An empty track indexes its list at 0. */
  function SampleToTime(rd: Reader, track: int, sampleIndex: int): (r: Result<Rational, Exception>)
    ensures r.Failure? <==> !(0 <= track < |rd.tracks|) || |rd.tracks[track].samples| == 0
    ensures r.Failure? ==> r.error == IndexOutOfBounds
    ensures r.Success? ==>
      var tr := rd.tracks[track];
      && (0 <= sampleIndex < |tr.samples| ==> r.value == SampleTime(tr, sampleIndex))
      && (sampleIndex < 0 ==> r.value == SampleTime(tr, 0))
      && (sampleIndex >= |tr.samples| ==> r.value == EndTime(tr))
  {
    if !(0 <= track < |rd.tracks|) then
      Failure(IndexOutOfBounds)
    else
      var tr := rd.tracks[track];
      var n := |tr.samples|;
      var i := Clamp(sampleIndex, n - 1);
      if i >= n then
        Failure(IndexOutOfBounds)
      else
        var s := tr.samples[i];
        var time := (tr.startTime + s.timeStamp) * tr.scale;
        var time := if sampleIndex >= n then time + s.duration * tr.scale else time;
        SwapScaled(tr.startTime, s.timeStamp, tr.scale);
        Success(Make(time, tr.rate))
  }

  lemma SwapScaled(a: int, b: int, c: int)
    ensures (a + b) * c == (b + a) * c
  {
  }

  /** Sample k starts at stream time k and lasts one unit: one frame per
      sample, as in a video stream without dropped frames. */
  predicate UnitSamples(tr: Track) {
    forall k :: 0 <= k < |tr.samples| ==> tr.samples[k].timeStamp == k && tr.samples[k].duration == 1
  }

  lemma JDivOfMultiple(x: int, b: int)
    requires b != 0
    ensures JDiv(x * b, b) == x
  {
    DividesByWitness(Abs(b), x * b, if b > 0 then x else -x);
    JDivExact(x * b, b);
    MulCancel(b, JDiv(x * b, b), x);
  }

  /** The constructor keeps n/d: numerator times d is n times denominator. */
  lemma MakeCross(n: int, d: int)
    requires d > 0
    ensures Make(n, d).num * d == n * Make(n, d).den
  {
    var t := Make(n, d);
    MakeValue(n, d);
    RealCross(t.num, t.den, n, d);
  }

  /** `timeToSample`'s arithmetic recovers m from the time of stream
      position m. */
  lemma BaseIndexOfTime(tr: Track, m: int)
    requires tr.scale != 0 && tr.rate > 0
    ensures BaseIndex(tr, Make((tr.startTime + m) * tr.scale, tr.rate)) == Success(m)
  {
    var x := (tr.startTime + m) * tr.scale;
    var t := Make(x, tr.rate);
    MakeCross(x, tr.rate);
    assert t.num * tr.rate == x * t.den;
    JDivOfMultiple(x, t.den);
    JDivOfMultiple(tr.startTime + m, tr.scale);
  }

  /** On a track of unit samples, `sampleToTime(k)` is the time of stream
      position k, for k up to the sample count. */
  lemma SampleToTimeOfUnit(rd: Reader, track: int, k: int)
    requires 0 <= track < |rd.tracks| && UnitSamples(rd.tracks[track])
    requires 0 <= k <= |rd.tracks[track].samples| && |rd.tracks[track].samples| > 0
    ensures SampleToTime(rd, track, k)
         == Success(Make((rd.tracks[track].startTime + k) * rd.tracks[track].scale, rd.tracks[track].rate))
  {
    var tr := rd.tracks[track];
    if k < |tr.samples| {
      UnitSampleTime(tr, k);
    } else {
      UnitEndTime(tr);
    }
  }

  lemma UnitSampleTime(tr: Track, k: int)
    requires UnitSamples(tr) && 0 <= k < |tr.samples|
    ensures SampleTime(tr, k) == Make((tr.startTime + k) * tr.scale, tr.rate)
  {
    assert tr.samples[k].timeStamp == k;
  }

  lemma UnitEndTime(tr: Track)
    requires UnitSamples(tr) && |tr.samples| > 0
    ensures EndTime(tr) == Make((tr.startTime + |tr.samples|) * tr.scale, tr.rate)
  {
    var n := |tr.samples|;
    var s := tr.samples[n - 1];
    assert s.timeStamp == n - 1 && s.duration == 1;
    LastStep(tr.startTime, n, tr.scale);
  }

  lemma LastStep(t: int, n: int, c: int)
    ensures (t + (n - 1)) * c + 1 * c == (t + n) * c
  {
  }

  /** On a video track of unit samples with positive scale and rate,
      `timeToSample` inverts `sampleToTime` for every index from 0 to the
      sample count. */
  lemma TimeSampleRoundTrip(rd: Reader, track: int, k: int)
    requires 0 <= track < |rd.tracks|
    requires rd.tracks[track].mediaType != Audio && UnitSamples(rd.tracks[track])
    requires rd.tracks[track].scale > 0 && rd.tracks[track].rate > 0
    requires 0 <= k <= |rd.tracks[track].samples| && |rd.tracks[track].samples| > 0
    ensures SampleToTime(rd, track, k).Success?
    ensures TimeToSample(rd, track, SampleToTime(rd, track, k).value) == Success(k)
  {
    SampleToTimeOfUnit(rd, track, k);
    BaseIndexOfTime(rd.tracks[track], k);
  }

  // ---------------------------------------------------------------------
  // setMovieReadTime
  // ---------------------------------------------------------------------

  /** The backward scan of `setMovieReadTime`: step down from `sample`
      while it is not negative, lies above `floor` and is no keyframe. */
  function WalkBack(samples: seq<Sample>, sample: int, floor: int): (r: int)
    requires sample < |samples|
    decreases sample + 1
    ensures r <= sample
    ensures sample >= -1 ==> r >= -1
    ensures sample >= floor ==> r >= floor
    ensures r < 0 || r <= floor || samples[r].isKeyframe
    ensures forall s :: r < s <= sample && s >= 0 ==> s > floor && !samples[s].isKeyframe
  {
    if sample >= 0 && sample > floor && !samples[sample].isKeyframe then
      WalkBack(samples, sample - 1, floor)
    else
      sample
  }

  /** `setMovieReadTime` on one track. The target is the sample at the
      time, capped at the last sample. A cursor past the target is first
      reset to -1; then the cursor moves to the nearest keyframe at or
      before the target, stopping early at a cursor already at or before
      the target and at -1 when there is no keyframe. */
  function SeekTrack(tr: Track, time: Rational): (r: Result<Track, Exception>)
    ensures r.Failure? <==> !IsFinite(time) || tr.scale == 0
    ensures r.Failure? ==> r.error == ArithmeticException
    ensures r.Success? ==>
      var target := IntMin(TrackTimeToSample(tr, time).value, |tr.samples| - 1);
      var ri := r.value.readIndex;
      && r.value == tr.(readIndex := ri)
      && CursorInRange(r.value)
      && -1 <= ri <= target
      && (forall s :: ri < s <= target ==> !tr.samples[s].isKeyframe)
      && (ri == -1 || tr.samples[ri].isKeyframe || ri == tr.readIndex)
      && (-1 <= tr.readIndex <= target ==> ri >= tr.readIndex)
  {
    var tts :- TrackTimeToSample(tr, time);
    var sample := IntMin(tts, |tr.samples| - 1);
    var floor := if tr.readIndex > sample then -1 else tr.readIndex;
    Success(tr.(readIndex := WalkBack(tr.samples, sample, floor)))
  }

  /** Seeking stopped at track f with exception e: the tracks before f
      were moved, track f throws e, and f and the tracks after it are as
      they were. */
  ghost predicate StoppedAt(rd: Reader, r: Reader, time: Rational, f: int, e: Exception)
    requires 0 <= f < |rd.tracks| && |r.tracks| == |rd.tracks|
  {
    && SeekTrack(rd.tracks[f], time) == Failure(e)
    && (forall t :: 0 <= t < f ==> SeekTrack(rd.tracks[t], time) == Success(r.tracks[t]))
    && (forall t :: f <= t < |rd.tracks| ==> r.tracks[t] == rd.tracks[t])
  }

  /** `setMovieReadTime(time)`: every track in turn. An exception from
      `timeToSample` leaves the tracks before it moved and the rest as
      they were. */
  method SetMovieReadTime(rd: Reader, time: Rational) returns (r: Reader, err: Option<Exception>)
    ensures |r.tracks| == |rd.tracks| && r.movieDuration == rd.movieDuration
    ensures err.None? ==> forall t :: 0 <= t < |rd.tracks| ==> SeekTrack(rd.tracks[t], time) == Success(r.tracks[t])
    ensures err.Some? ==> exists f :: 0 <= f < |rd.tracks| && StoppedAt(rd, r, time, f, err.value)
  {
    r, err := rd, None;
    var t := 0;
    while t < |rd.tracks|
      invariant 0 <= t <= |rd.tracks|
      invariant |r.tracks| == |rd.tracks| && r.movieDuration == rd.movieDuration
      invariant forall u :: 0 <= u < t ==> SeekTrack(rd.tracks[u], time) == Success(r.tracks[u])
      invariant forall u :: t <= u < |rd.tracks| ==> r.tracks[u] == rd.tracks[u]
    {
      var s := SeekTrack(r.tracks[t], time);
      if s.Failure? {
        err := Some(s.error);
        assert StoppedAt(rd, r, time, t, s.error);
        return;
      }
      r := r.(tracks := r.tracks[t := s.value]);
      t := t + 1;
    }
  }

  /** Seeking an exhausted track without keyframes leaves its cursor at
      -1, after which `read` and `getReadTime` on it throw. */
  lemma SeekStrandsCursor(rd: Reader, track: int, time: Rational, buf: Buffer)
    requires 0 <= track < |rd.tracks|
    requires var tr := rd.tracks[track];
      && IsFinite(time) && tr.scale != 0 && tr.readIndex >= |tr.samples|
      && forall s :: 0 <= s < |tr.samples| ==> !tr.samples[s].isKeyframe
    ensures var tr := rd.tracks[track];
      && SeekTrack(tr, time) == Success(tr.(readIndex := -1))
      && Read(rd.(tracks := rd.tracks[track := tr.(readIndex := -1)]), track, buf) == Failure(IndexOutOfBounds)
      && GetReadTime(rd.(tracks := rd.tracks[track := tr.(readIndex := -1)]), track) == Failure(IndexOutOfBounds)
  {
  }
}
