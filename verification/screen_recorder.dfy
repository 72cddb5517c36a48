/** Model of the sequential timing logic of
    `org.monte.screenrecorder.ScreenRecorder`: the fixed frame duration
    derived from the frame rates, the recorder's state machine, the
    replay of variable-rate frames at a fixed rate, the rollover to a new
    movie file and the rule that turns cursor captures into video frames.

    Wall-clock readings (`System.currentTimeMillis`) are parameters. The
    threads, timers, queues, the AWT robot and the images are not
    modelled; the movie writer is known only by whether it is open, and
    the frame encoder only by the status its `process` returns. */
module ScreenRecorder {
  import opened Wrappers
  import opened IntMath
  import opened Rationals
  import opened Formats
  import opened Buffers

  /** `ScreenRecorder.State`. */
  datatype State = Done | Failed | Recording

  /** `maxFrameDuration`: the longest gap between cursor frames, in ms. */
  const MaxFrameDuration: int := 1000

  /** A movie file is closed and a new one begun after an hour. */
  const RolloverMillis: int := 60 * 60 * 1000

  datatype Point = Point(x: int, y: int)

  /** `MouseCapture`: a cursor position and the time it was taken. */
  datatype MouseCapture = MouseCapture(time: int, p: Point)

  /** The recorder's sequential state. `outputTime` is `null` until the
      first start; `writerOpen` says whether the movie writer `w` is set;
      `files` counts the movie files begun. */
  datatype Recorder = Recorder(
    state: State,
    screenFormat: Format,
    mouseFormat: Format,
    ffrDuration: Rational,
    startTime: int,
    stopTime: int,
    prevScreenCaptureTime: int,
    outputTime: Option<Rational>,
    writerOpen: bool,
    files: nat)

  // ---------------------------------------------------------------------
  // Construction and the fixed frame duration
  // ---------------------------------------------------------------------

  /** The mouse format used when none is given: frame rate 0/0, which the
      constructor of `Rational` turns into 0, and the black cursor. */
  const DefaultMouseFormat: Format :=
    map[FrameRateKey := RationalValue(Make(0, 0)), EncodingKey := StringValue("black")]

  /** The default mouse format captures no cursor: its rate 0/0 becomes
      0, whose `intValue` is not positive. */
  lemma DefaultMouseFormatOff()
    ensures FrameRate(DefaultMouseFormat) == Some(Zero)
    ensures CapturesMouse(DefaultMouseFormat) == Success(false)
    ensures Get(DefaultMouseFormat, EncodingKey) == Some(StringValue("black"))
  {
    assert FrameRate(DefaultMouseFormat) == Some(Zero);
  }

  /** The frame rate a format declares. */
  function FrameRate(f: Format): Option<Rational> {
    match Get(f, FrameRateKey)
    case Some(RationalValue(r)) => Some(r)
    case _ => None
  }

  /** `ffrDuration`, set in `createMovieWriter`: the inverse of the larger
      of the screen's and the mouse's frame rates. `Rational.max`
      dereferences both, so a missing rate throws. */
  function FixedFrameDuration(screenFormat: Format, mouseFormat: Format): (r: Result<Rational, Exception>)
    ensures r.Failure? <==> FrameRate(screenFormat).None? || FrameRate(mouseFormat).None?
    ensures r.Failure? ==> r.error == NullPointer
    ensures r.Success? ==>
      var s, m := FrameRate(screenFormat).value, FrameRate(mouseFormat).value;
      && (Less(s, m) ==> r.value == Inverse(m))
      && (!Less(s, m) ==> r.value == Inverse(s))
  {
    match (FrameRate(screenFormat), FrameRate(mouseFormat))
    case (Some(s), Some(m)) => Success(Inverse(Max(s, m)))
    case _ => Failure(NullPointer)
  }

  /** With a positive finite screen rate and a finite mouse rate, the
      fixed frame duration is a positive finite time. */
  lemma FixedFrameDurationPositive(screenFormat: Format, mouseFormat: Format)
    requires FrameRate(screenFormat).Some? && FrameRate(mouseFormat).Some?
    requires IsFinite(FrameRate(screenFormat).value) && IsFinite(FrameRate(mouseFormat).value)
    requires Less(Zero, FrameRate(screenFormat).value)
    ensures var d := FixedFrameDuration(screenFormat, mouseFormat).value;
      IsFinite(d) && Less(Zero, d)
  {
    InverseOfMaxPositive(FrameRate(screenFormat).value, FrameRate(mouseFormat).value);
  }

  lemma InverseOfMaxPositive(s: Rational, m: Rational)
    requires IsFinite(s) && IsFinite(m) && Less(Zero, s)
    ensures IsFinite(Inverse(Max(s, m))) && Less(Zero, Inverse(Max(s, m)))
  {
    var v := Max(s, m);
    LessTotal(v, s);
    if v != s {
      LessTransitive(Zero, s, v);
    }
    PositiveInverse(v);
  }

  lemma PositiveInverse(v: Rational)
    requires IsFinite(v) && Less(Zero, v)
    ensures IsFinite(Inverse(v)) && Less(Zero, Inverse(v))
  {
    RealSign(v.num, v.den);
    var d := Inverse(v);
    RealSign(d.num, d.den);
  }

  /** Without a mouse format the fixed frame duration is the inverse of
      the screen's frame rate. */
  lemma FixedFrameDurationWithoutMouse(screenFormat: Format)
    requires FrameRate(screenFormat).Some? && Less(Zero, FrameRate(screenFormat).value)
    ensures FixedFrameDuration(screenFormat, DefaultMouseFormat) == Success(Inverse(FrameRate(screenFormat).value))
  {
    assert FrameRate(DefaultMouseFormat) == Some(Zero);
  }

  /** `mouseFormat.get(FrameRateKey).intValue() > 0`: whether the cursor
      is captured. */
  function CapturesMouse(mouseFormat: Format): (r: Result<bool, Exception>)
    ensures r.Failure? <==> FrameRate(mouseFormat).None? || !IsFinite(FrameRate(mouseFormat).value)
    ensures r.Failure? ==> r.error == (if FrameRate(mouseFormat).None? then NullPointer else ArithmeticException)
    ensures r.Success? && IsInt32(Rationals.LongValue(FrameRate(mouseFormat).value).value) ==>
      (r.value <==> Val(FrameRate(mouseFormat).value) >= 1.0)
  {
    match FrameRate(mouseFormat)
    case None => Failure(NullPointer)
    case Some(rate) =>
      var n :- IntValue(rate);
      Success(n > 0)
  }

  /** The screen depths the recorder supports: 24, 16 and 8 bits. */
  predicate SupportedDepth(v: Value) {
    v == IntegerValue(24) || v == IntegerValue(16) || v == IntegerValue(8)
  }

  /** Whether the constructor accepts a mouse format it is given: the
      cursor rate's `intValue` can be read, and a format whose cursor is
      captured names its cursor encoding, which the constructor compares
      with the black cursor's. */
  predicate MouseFormatUsable(mouseFormat: Format) {
    CapturesMouse(mouseFormat).Success? && (CapturesMouse(mouseFormat).value ==> ContainsKey(mouseFormat, EncodingKey))
  }

  /** The constructor, from the colour depth check on: a screen depth
      other than 24, 16 or 8 bits is rejected, a mouse format whose cursor
      is captured must name its encoding, a missing mouse format is
      replaced by the default, and the fixed frame duration is derived.
      The recorder starts in state DONE with one movie file open. */
  function Create(screenFormat: Format, mouseFormat: Option<Format>): (r: Result<Recorder, Exception>)
    ensures r.Success? <==>
      && Get(screenFormat, DepthKey).Some? && SupportedDepth(Get(screenFormat, DepthKey).value)
      && (mouseFormat.Some? ==> MouseFormatUsable(mouseFormat.value))
      && FixedFrameDuration(screenFormat, mouseFormat.GetOr(DefaultMouseFormat)).Success?
    ensures r.Success? ==> r.value.state == Done && r.value.writerOpen && r.value.outputTime.None?
    ensures r.Success? ==> r.value.mouseFormat == mouseFormat.GetOr(DefaultMouseFormat)
    ensures r.Success? ==> FixedFrameDuration(screenFormat, r.value.mouseFormat) == Success(r.value.ffrDuration)
    ensures Get(screenFormat, DepthKey).None? ==> r == Failure(NullPointer)
    ensures Get(screenFormat, DepthKey).Some? && !SupportedDepth(Get(screenFormat, DepthKey).value) ==>
      r == Failure(IOException)
    ensures Get(screenFormat, DepthKey).Some? && SupportedDepth(Get(screenFormat, DepthKey).value) && mouseFormat.Some? ==>
      && (CapturesMouse(mouseFormat.value).Failure? ==> r == Failure(CapturesMouse(mouseFormat.value).error))
      && (CapturesMouse(mouseFormat.value) == Success(true) && !ContainsKey(mouseFormat.value, EncodingKey) ==>
            r == Failure(NullPointer))
    ensures (&& r.Failure? && Get(screenFormat, DepthKey).Some? && SupportedDepth(Get(screenFormat, DepthKey).value)
             && (mouseFormat.Some? ==> MouseFormatUsable(mouseFormat.value))) ==> r == Failure(NullPointer)
  {
    var mf := mouseFormat.GetOr(DefaultMouseFormat);
    match Get(screenFormat, DepthKey)
    case Some(IntegerValue(depth)) =>
      if depth != 24 && depth != 16 && depth != 8 then
        Failure(IOException)
      else
        var captures :- if mouseFormat.Some? then CapturesMouse(mouseFormat.value) else Success(false);
        if captures && !ContainsKey(mf, EncodingKey) then
          Failure(NullPointer)
        else
          var f :- FixedFrameDuration(screenFormat, mf);
          Success(Recorder(Done, screenFormat, mf, f, 0, 0, 0, None, true, 1))
    case _ => Failure(NullPointer)
  }

  // ---------------------------------------------------------------------
  // State machine
  // ---------------------------------------------------------------------

  /** The capacity of the writer queue `startWriter` creates: the screen's
      frame rate as an int, plus one in 32-bit arithmetic. A missing rate
      throws NullPointer, an infinite one ArithmeticException, and a
      capacity below one IllegalArgument. */
  function WriterQueueCapacity(screenFormat: Format): (r: Result<int, Exception>)
    ensures r.Success? <==>
      FrameRate(screenFormat).Some? && IsFinite(FrameRate(screenFormat).value)
      && 0 <= IntValue(FrameRate(screenFormat).value).value < Int32Max
    ensures r.Success? ==> r.value == IntValue(FrameRate(screenFormat).value).value + 1 && r.value > 0
    ensures r.Failure? ==>
      r.error == (if FrameRate(screenFormat).None? then NullPointer
                  else if !IsFinite(FrameRate(screenFormat).value) then ArithmeticException
                  else IllegalArgument)
  {
    match FrameRate(screenFormat)
    case None => Failure(NullPointer)
    case Some(rate) =>
      var n :- IntValue(rate);
      var capacity := ToInt32(n + 1);
      MaxPlusOneWraps();
      if capacity <= 0 then Failure(IllegalArgument) else Success(capacity)
  }

  /** `start()` at wall-clock time `now`: the start, previous-capture and
      stop times and the output time are set first; then `startWriter`
      sizes the writer queue and the cursor capture is started when its
      rate's `intValue` is positive. An exception thrown by either leaves
      the state as it was; otherwise the state becomes RECORDING. */
  function Start(rec: Recorder, now: int): (r: (Recorder, Option<Exception>))
    ensures r.0 == rec.(startTime := now, prevScreenCaptureTime := now, stopTime := Int64Max,
                        outputTime := Some(Zero), state := r.0.state)
    ensures r.1.None? <==> WriterQueueCapacity(rec.screenFormat).Success? && CapturesMouse(rec.mouseFormat).Success?
    ensures r.1.None? ==> r.0.state == Recording
    ensures r.1.Some? ==> r.0.state == rec.state
    ensures r.1.Some? ==>
      r.1.value == (if WriterQueueCapacity(rec.screenFormat).Failure? then WriterQueueCapacity(rec.screenFormat).error
                    else CapturesMouse(rec.mouseFormat).error)
  {
    var started := rec.(startTime := now, prevScreenCaptureTime := now, stopTime := Int64Max,
                        outputTime := Some(Make(0, 0)));
    match WriterQueueCapacity(rec.screenFormat)
    case Failure(e) => (started, Some(e))
    case Success(_) =>
      match CapturesMouse(rec.mouseFormat)
      case Failure(e) => (started, Some(e))
      case Success(_) => (started.(state := Recording), None)
  }

  /** `stop()` at wall-clock time `now`: the stop time is taken, the movie
      file closed and RECORDING becomes DONE; FAILED stays. A recorder
      whose writer is already closed dereferences it and throws, after
      taking the stop time. */
  function Stop(rec: Recorder, now: int): (r: (Recorder, Option<Exception>))
    ensures r.0.stopTime == now && !r.0.writerOpen
    ensures rec.writerOpen ==> r.1 == None && r.0.state == (if rec.state == Recording then Done else rec.state)
    ensures !rec.writerOpen ==> r.1 == Some(NullPointer) && r.0.state == rec.state
    ensures r.0 == rec.(stopTime := now, writerOpen := false, state := r.0.state)
  {
    var stopped := rec.(stopTime := now);
    if !rec.writerOpen then
      (stopped, Some(NullPointer))
    else
      var state := if rec.state == Recording then Done else rec.state;
      (stopped.(writerOpen := false, state := state), None)
  }

  /** `recordingFailed()`: the state becomes FAILED, then the recorder
      stops. */
  function RecordingFailed(rec: Recorder, now: int): (r: (Recorder, Option<Exception>))
    ensures r.0.state == Failed
    ensures r.0.stopTime == now && !r.0.writerOpen
  {
    Stop(rec.(state := Failed), now)
  }

  /** A created recorder whose writer queue can be sized starts; a
      recording that is started and stopped ends DONE; one that fails ends
      FAILED and stays FAILED when stopped again, which throws since the
      writer is closed by then. */
  lemma Lifecycle(screenFormat: Format, mouseFormat: Option<Format>, t0: int, t1: int, t2: int)
    requires Create(screenFormat, mouseFormat).Success?
    requires WriterQueueCapacity(screenFormat).Success?
    ensures Start(Create(screenFormat, mouseFormat).value, t0).1 == None
    ensures var rec := Start(Create(screenFormat, mouseFormat).value, t0).0;
      && Stop(rec, t1).0.state == Done && Stop(rec, t1).1 == None
      && RecordingFailed(rec, t1).0.state == Failed
      && Stop(RecordingFailed(rec, t1).0, t2) == (RecordingFailed(rec, t1).0.(stopTime := t2), Some(NullPointer))
  {
  }

  // ---------------------------------------------------------------------
  // write: variable to fixed frame rate
  // ---------------------------------------------------------------------

  /** The output time after k frames of duration f from o. */
  function TimeAt(o: Rational, f: Rational, k: nat): (r: Rational)
    requires IsFinite(o) && (IsFinite(f) || k == 0)
    ensures IsFinite(r)
  {
    if k == 0 then o else Add(TimeAt(o, f, k - 1), f).value
  }

  /** k·x as a sum of k terms x. */
  ghost function Times(k: nat, x: real): real {
    if k == 0 then 0.0 else Times(k - 1, x) + x
  }

  lemma {:induction false} TimesIsProduct(k: nat, x: real)
    ensures Times(k, x) == k as real * x
  {
    if k > 0 {
      TimesIsProduct(k - 1, x);
    }
  }

  /** After k frames the output time has advanced by k·f. */
  lemma {:induction false} TimeAtValue(o: Rational, f: Rational, k: nat)
    requires IsFinite(o) && IsFinite(f)
    ensures Val(TimeAt(o, f, k)) == Val(o) + Times(k, Val(f))
  {
    if k > 0 {
      TimeAtValue(o, f, k - 1);
    }
  }

  /** Frame k of a replay of `buf` from output time o at duration f: the
      frames after the first are marked as repeating the same data. */
  function Frame(buf: Buffer, o: Rational, f: Rational, k: nat): (r: Buffer)
    requires IsFinite(o) && (IsFinite(f) || k == 0)
    ensures r == buf.(timeStamp := r.timeStamp, sampleDuration := f, flags := r.flags)
    ensures IsFinite(r.timeStamp) && (IsFinite(f) ==> Val(r.timeStamp) == Val(o) + Times(k, Val(f)))
    ensures SameData in r.flags <==> k > 0 || SameData in buf.flags
    ensures r.flags - {SameData} == buf.flags - {SameData}
  {
    assert IsFinite(f) ==> Val(TimeAt(o, f, k)) == Val(o) + Times(k, Val(f)) by {
      if IsFinite(f) {
        TimeAtValue(o, f, k);
      }
    }
    buf.(timeStamp := TimeAt(o, f, k), sampleDuration := f,
         flags := if k == 0 then buf.flags else buf.flags + {SameData})
  }

  /** The replay of `buf` from output time o at duration f ended with
      output time `t`, the frames queued and the exception thrown. The
      input ends at timeStamp + sampleDuration; frames are handed to the
      encoder while the output time is before that end, and an encoder
      status other than OK throws before the frame is queued. An infinite
      duration f makes the first `add` after a queued frame throw, since
      `add` fails when exactly one operand is infinite. */
  ghost predicate Replayed(o: Rational, f: Rational, buf: Buffer, encode: Buffer -> CodecStatus,
                           t: Rational, frames: seq<Buffer>, err: Option<Exception>)
    requires IsFinite(o)
  {
    var input := Add(buf.timeStamp, buf.sampleDuration);
    var n := |frames|;
    && (input.Failure? ==> frames == [] && t == o && err == Some(ArithmeticException))
    && (input.Success? && !IsFinite(f) ==>
          && t == o
          && (!Less(o, input.value) ==> frames == [] && err == None)
          && (Less(o, input.value) && encode(Frame(buf, o, f, 0)) != CodecOk ==>
                frames == [] && err == Some(IOException))
          && (Less(o, input.value) && encode(Frame(buf, o, f, 0)) == CodecOk ==>
                frames == [Frame(buf, o, f, 0)] && err == Some(ArithmeticException)))
    && (input.Success? && IsFinite(f) ==>
          && t == TimeAt(o, f, n)
          && Queued(o, f, buf, encode, frames, input.value)
          && (err.None? ==> !Less(t, input.value))
          && (err.Some? ==> err == Some(IOException) && Less(t, input.value)
                              && encode(Frame(buf, o, f, n)) != CodecOk))
  }

  /** Frame k of the replay: accepted by the encoder and beginning before
      the input's end. */
  ghost predicate QueuedAt(o: Rational, f: Rational, buf: Buffer, encode: Buffer -> CodecStatus,
                           b: Buffer, k: nat, input: Rational)
    requires IsFinite(o) && IsFinite(f)
  {
    b == Frame(buf, o, f, k) && encode(b) == CodecOk && Less(TimeAt(o, f, k), input)
  }

  /** The frames are the first ones of the replay, each accepted by the
      encoder and each beginning before the input's end. */
  ghost predicate Queued(o: Rational, f: Rational, buf: Buffer, encode: Buffer -> CodecStatus,
                         frames: seq<Buffer>, input: Rational)
    requires IsFinite(o) && IsFinite(f)
  {
    forall k :: 0 <= k < |frames| ==> QueuedAt(o, f, buf, encode, frames[k], k, input)
  }

  lemma QueuedExtend(o: Rational, f: Rational, buf: Buffer, encode: Buffer -> CodecStatus,
                     frames: seq<Buffer>, input: Rational, cur: Buffer)
    requires IsFinite(o) && IsFinite(f)
    requires Queued(o, f, buf, encode, frames, input)
    requires QueuedAt(o, f, buf, encode, cur, |frames|, input)
    ensures Queued(o, f, buf, encode, frames + [cur], input)
  {
    var longer := frames + [cur];
    forall k | 0 <= k < |longer|
      ensures QueuedAt(o, f, buf, encode, longer[k], k, input)
    {
      if k < |frames| {
        assert longer[k] == frames[k];
      }
    }
  }

  /** The loop runs at most this many more times. */
  ghost function Remaining(o: Rational, input: Rational, f: Rational): nat
    requires IsFinite(o) && IsFinite(f) && Less(Zero, f)
  {
    if IsFinite(input) && Val(o) < Val(input) then Steps(Val(input), Val(o), Val(f)) else 0
  }

  /** One more than the whole number of steps f from o below e. */
  ghost function Steps(e: real, o: real, f: real): nat
    requires f > 0.0 && o < e
  {
    var y := (e - o) / f;
    assert y > 0.0;
    y.Floor + 1
  }

  lemma StepsDecrease(e: real, o: real, f: real)
    requires f > 0.0 && o < e
    ensures o + f < e ==> Steps(e, o + f, f) < Steps(e, o, f)
  {
    if o + f < e {
      var y := (e - o) / f;
      var y' := (e - (o + f)) / f;
      assert y * f == e - o;
      assert y' * f == e - o - f;
      assert (y - 1.0) * f == y * f - f;
      CancelPositive(y', y - 1.0, f);
    }
  }

  lemma CancelPositive(a: real, b: real, f: real)
    requires f > 0.0 && a * f == b * f
    ensures a == b
  {
  }

  /** While the output time is before the input's end, which is not
      +∞, one more frame brings the loop closer to its end. */
  lemma RemainingDecreases(o: Rational, input: Rational, f: Rational)
    requires IsFinite(o) && IsFinite(f) && Less(Zero, f)
    requires input != PosInf && Less(o, input)
    ensures Remaining(Add(o, f).value, input, f) < Remaining(o, input, f)
  {
    assert IsFinite(input);
    StepsDecrease(Val(input), Val(o), Val(f));
  }

  /** The replay loop of `write` ends: it is not entered, or the
      duration is infinite, or it is positive and finite and the input's
      end is not 1/0, or else the encoder rejects some frame. */
  ghost predicate ReplayEnds(o: Rational, f: Rational, buf: Buffer, encode: Buffer -> CodecStatus) {
    var input := Add(buf.timeStamp, buf.sampleDuration);
    input.Success? && Less(o, input.value) && IsFinite(f) ==>
      || (Less(Zero, f) && input.value != PosInf)
      || exists k: nat :: RejectsAt(o, f, buf, encode, k)
  }

  /** The encoder rejects frame k of the replay. */
  ghost predicate RejectsAt(o: Rational, f: Rational, buf: Buffer, encode: Buffer -> CodecStatus, k: nat) {
    IsFinite(o) && IsFinite(f) && encode(Frame(buf, o, f, k)) != CodecOk
  }


  /** Where the replay does not end, every frame begins before the input's
      end and is accepted by the encoder, so the loop of `write` runs for
      ever. */
  lemma ReplayNeverEnds(o: Rational, f: Rational, buf: Buffer, encode: Buffer -> CodecStatus, k: nat)
    requires IsFinite(o) && !ReplayEnds(o, f, buf, encode)
    ensures IsFinite(f) && Add(buf.timeStamp, buf.sampleDuration).Success?
    ensures Less(TimeAt(o, f, k), Add(buf.timeStamp, buf.sampleDuration).value)
    ensures encode(Frame(buf, o, f, k)) == CodecOk
  {
    var input := Add(buf.timeStamp, buf.sampleDuration).value;
    assert Less(o, input) && IsFinite(f);
    assert !RejectsAt(o, f, buf, encode, k);
    if input != PosInf {
      assert IsFinite(input) && Val(o) < Val(input);
      TimeAtNotLater(o, f, k);
    }
  }

  /** A duration of 0 or below never moves the output time forward. */
  lemma TimeAtNotLater(o: Rational, f: Rational, k: nat)
    requires IsFinite(o) && IsFinite(f) && !Less(Zero, f)
    ensures Val(TimeAt(o, f, k)) <= Val(o)
  {
    TimeAtValue(o, f, k);
    TimesIsProduct(k, Val(f));
    assert k as real * Val(f) <= 0.0;
  }

  /** The fixed-rate branch of `write`: the input buffer is replayed
      from the output time at the fixed frame duration until the output
      time reaches the input's end. */
  method FixedRateFrames(o: Rational, f: Rational, buf: Buffer, encode: Buffer -> CodecStatus)
    returns (t: Rational, frames: seq<Buffer>, err: Option<Exception>)
    requires IsFinite(o) && ReplayEnds(o, f, buf, encode)
    ensures Replayed(o, f, buf, encode, t, frames, err)
  {
    var input := Add(buf.timeStamp, buf.sampleDuration);
    if input.Failure? {
      return o, [], Some(input.error);
    }
    var inputTime := input.value;
    t, frames, err := o, [], None;
    var cur := buf;
    var isFirst := true;
    // where the output time never reaches the input's end, the loop ends
    // at the first rejected frame, at index K or before
    ghost var endless := IsFinite(f) && Less(o, inputTime) && !(Less(Zero, f) && inputTime != PosInf);
    ghost var K: nat := 0;
    if endless {
      K :| RejectsAt(o, f, buf, encode, K);
    }
    while CompareTo(t, inputTime) < 0
      invariant IsFinite(t)
      invariant !IsFinite(f) ==> |frames| == 0 && t == o
      invariant IsFinite(f) ==> t == TimeAt(o, f, |frames|) && Queued(o, f, buf, encode, frames, inputTime)
      invariant |frames| > 0 ==> Less(o, inputTime)
      invariant isFirst <==> |frames| == 0
      invariant cur.flags == if |frames| < 2 then buf.flags else buf.flags + {SameData}
      invariant cur == buf.(timeStamp := cur.timeStamp, sampleDuration := cur.sampleDuration, flags := cur.flags)
      invariant endless ==> RejectsAt(o, f, buf, encode, K) && |frames| <= K
      decreases if endless then K - |frames| else if IsFinite(f) && Less(Zero, f) then Remaining(t, inputTime, f) else 0
    {
      cur := cur.(timeStamp := t, sampleDuration := f);
      if isFirst {
        isFirst := false;
      } else {
        cur := cur.(flags := cur.flags + {SameData});
      }
      assert cur == Frame(buf, o, f, |frames|);
      if encode(cur) != CodecOk {
        err := Some(IOException);
        return;
      }
      var next := Add(t, f);
      if next.Failure? {
        frames := frames + [cur];
        err := Some(next.error);
        return;
      }
      if endless {
        assert |frames| != K;
      } else {
        RemainingDecreases(t, inputTime, f);
      }
      assert QueuedAt(o, f, buf, encode, cur, |frames|, inputTime);
      QueuedExtend(o, f, buf, encode, frames, inputTime, cur);
      assert next.value == TimeAt(o, f, |frames| + 1);
      frames := frames + [cur];
      t := next.value;
    }
  }

  /** x rounded up. */
  ghost function CeilReal(x: real): int {
    -((-x).Floor)
  }

  /** A replay that ends normally queues ceil((end − o)/f) frames when the
      output time o is before the input's end, and none otherwise. */
  lemma ReplayCount(o: Rational, f: Rational, buf: Buffer, encode: Buffer -> CodecStatus,
                    t: Rational, frames: seq<Buffer>)
    requires IsFinite(o) && IsFinite(f) && Less(Zero, f)
    requires Replayed(o, f, buf, encode, t, frames, None)
    requires Add(buf.timeStamp, buf.sampleDuration).Success?
    requires IsFinite(Add(buf.timeStamp, buf.sampleDuration).value)
    ensures var e := Val(Add(buf.timeStamp, buf.sampleDuration).value);
      && (Val(o) < e ==> |frames| == CeilReal((e - Val(o)) / Val(f)))
      && (e <= Val(o) ==> |frames| == 0)
  {
    var input := Add(buf.timeStamp, buf.sampleDuration).value;
    var n := |frames|;
    assert t == TimeAt(o, f, n) && !Less(t, input) && Queued(o, f, buf, encode, frames, input);
    if n > 0 {
      assert QueuedAt(o, f, buf, encode, frames[n - 1], n - 1, input);
    }
    CountFromBounds(o, f, input, n);
  }

  lemma CountFromBounds(o: Rational, f: Rational, input: Rational, n: nat)
    requires IsFinite(o) && IsFinite(f) && Less(Zero, f) && IsFinite(input)
    requires n > 0 ==> Less(TimeAt(o, f, n - 1), input)
    requires !Less(TimeAt(o, f, n), input)
    ensures Val(o) < Val(input) ==> n == CeilReal((Val(input) - Val(o)) / Val(f))
    ensures Val(input) <= Val(o) ==> n == 0
  {
    TimeAtValue(o, f, n);
    if n > 0 {
      TimeAtValue(o, f, n - 1);
      CountReal(Val(input), Val(o), Val(f), n, Val(TimeAt(o, f, n - 1)), Val(TimeAt(o, f, n)));
    } else {
      CountReal(Val(input), Val(o), Val(f), n, 0.0, Val(TimeAt(o, f, n)));
    }
  }

  lemma CountReal(e: real, o: real, f: real, n: nat, a: real, b: real)
    requires f > 0.0 && b == o + Times(n, f) && e <= b
    requires n > 0 ==> a == o + Times(n - 1, f) && a < e
    ensures o < e ==> n == CeilReal((e - o) / f)
    ensures e <= o ==> n == 0
  {
    TimesIsProduct(n, f);
    if n > 0 {
      TimesIsProduct(n - 1, f);
      CeilBracket(e, o, f, n);
    }
  }

  lemma CeilBracket(e: real, o: real, f: real, n: nat)
    requires f > 0.0 && n > 0
    requires o + (n - 1) as real * f < e <= o + n as real * f
    ensures o < e && CeilReal((e - o) / f) == n
  {
    var y := (e - o) / f;
    assert y * f == e - o;
    assert (n - 1) as real * f < y * f <= n as real * f;
  }

  /** Replayed frames follow each other without gaps: each one ends where
      the next begins, and the last ends at the new output time. */
  lemma ReplayContiguous(o: Rational, f: Rational, buf: Buffer, encode: Buffer -> CodecStatus,
                         t: Rational, frames: seq<Buffer>, err: Option<Exception>, k: int)
    requires IsFinite(o) && IsFinite(f)
    requires Replayed(o, f, buf, encode, t, frames, err)
    requires 0 <= k < |frames|
    ensures Add(frames[k].timeStamp, frames[k].sampleDuration)
         == Success(if k + 1 < |frames| then frames[k + 1].timeStamp else t)
  {
    assert frames[k] == Frame(buf, o, f, k);
    if k + 1 < |frames| {
      assert frames[k + 1] == Frame(buf, o, f, k + 1);
    }
  }

  /** The output time is finite once set. */
  predicate OutputTimeFinite(rec: Recorder) {
    rec.outputTime.Some? ==> IsFinite(rec.outputTime.value)
  }

  /** `write(buf)`: nothing once the writer is closed; an audio buffer,
      or a video buffer for a writer with variable frame rates, is queued
      as it is; otherwise the video buffer is replayed at the fixed rate. */
  method Write(rec: Recorder, buf: Buffer, vfrSupported: bool, encode: Buffer -> CodecStatus)
    returns (r: Recorder, queued: seq<Buffer>, err: Option<Exception>)
    requires OutputTimeFinite(rec)
    requires rec.writerOpen && buf.track == 0 && !vfrSupported && rec.outputTime.Some? ==>
      ReplayEnds(rec.outputTime.value, rec.ffrDuration, buf, encode)
    ensures OutputTimeFinite(r)
    ensures !rec.writerOpen ==> r == rec && queued == [] && err == None
    ensures rec.writerOpen && (buf.track != 0 || vfrSupported) ==> r == rec && queued == [buf] && err == None
    ensures rec.writerOpen && buf.track == 0 && !vfrSupported && rec.outputTime.None? ==>
      && r == rec && queued == []
      && err == Some(if Add(buf.timeStamp, buf.sampleDuration).Failure? then ArithmeticException else NullPointer)
    ensures rec.writerOpen && buf.track == 0 && !vfrSupported && rec.outputTime.Some? ==>
      && r == rec.(outputTime := r.outputTime) && r.outputTime.Some?
      && Replayed(rec.outputTime.value, rec.ffrDuration, buf, encode, r.outputTime.value, queued, err)
  {
    if !rec.writerOpen {
      return rec, [], None;
    }
    if buf.track != 0 || vfrSupported {
      return rec, [buf], None;
    }
    if rec.outputTime.None? {
      // the input's end is computed before the output time is dereferenced
      var input := Add(buf.timeStamp, buf.sampleDuration);
      return rec, [], Some(if input.Failure? then input.error else NullPointer);
    }
    var t;
    t, queued, err := FixedRateFrames(rec.outputTime.value, rec.ffrDuration, buf, encode);
    r := rec.(outputTime := Some(t));
  }

  // ---------------------------------------------------------------------
  // doWrite: rollover
  // ---------------------------------------------------------------------

  /** After a write the movie file is replaced when the writer reports its
      data limit or more than an hour has passed since the start time. */
  predicate RollsOver(dataLimitReached: bool, now: int, startTime: int) {
    dataLimitReached || now - startTime > RolloverMillis
  }

  /** `doWrite(buf)` at wall-clock time `now`: after the write, a rollover
      begins a new movie file, derives the fixed frame duration again and
      restarts the hour from `now`. The buffer is written to the writer,
      which dereferences a closed one. */
  function DoWrite(rec: Recorder, dataLimitReached: bool, now: int): (r: Result<Recorder, Exception>)
    ensures !rec.writerOpen ==> r == Failure(NullPointer)
    ensures rec.writerOpen && !RollsOver(dataLimitReached, now, rec.startTime) ==> r == Success(rec)
    ensures rec.writerOpen && RollsOver(dataLimitReached, now, rec.startTime) ==>
      (r.Success? <==> FixedFrameDuration(rec.screenFormat, rec.mouseFormat).Success?)
      && (r.Success? ==> r.value == rec.(startTime := now, files := rec.files + 1, ffrDuration := r.value.ffrDuration)
                         && FixedFrameDuration(rec.screenFormat, rec.mouseFormat) == Success(r.value.ffrDuration))
  {
    if !rec.writerOpen then
      Failure(NullPointer)
    else if RollsOver(dataLimitReached, now, rec.startTime) then
      var f :- FixedFrameDuration(rec.screenFormat, rec.mouseFormat);
      Success(rec.(ffrDuration := f, files := rec.files + 1, startTime := now))
    else
      Success(rec)
  }

  /** A rollover keeps the fixed frame duration of a recorder that was
      created with it, and the next write within the hour does not roll
      over again unless the data limit is reached. */
  lemma RolloverRestartsHour(rec: Recorder, now: int, later: int)
    requires rec.writerOpen
    requires FixedFrameDuration(rec.screenFormat, rec.mouseFormat) == Success(rec.ffrDuration)
    requires now <= later <= now + RolloverMillis
    ensures DoWrite(rec, true, now).Success?
    ensures var r := DoWrite(rec, true, now).value;
      && r.ffrDuration == rec.ffrDuration && r.startTime == now
      && DoWrite(r, false, later) == Success(r)
  {
  }

  // ---------------------------------------------------------------------
  // grabScreen: cursor frames
  // ---------------------------------------------------------------------

  /** A video frame `grabScreen` writes, from `from` to `to` in wall-clock
      milliseconds, with the cursor position drawn into it when it comes
      from a cursor capture. */
  datatype Span = Span(from: int, to: int, cursor: Option<Point>)

  /** The outcome of draining the cursor queue: the frames written, the
      new previous capture time, the captures left in the queue and
      whether a capture after the previous frame was seen. */
  datatype Drained = Drained(frames: seq<Span>, prev: int, remaining: seq<MouseCapture>, seen: bool)

  /** The spans follow each other without gaps from `start` to `end`. */
  predicate Chain(spans: seq<Span>, start: int, end: int) {
    && (|spans| == 0 ==> start == end)
    && (|spans| > 0 ==> spans[0].from == start && spans[|spans| - 1].to == end)
    && (forall k :: 0 <= k < |spans| - 1 ==> spans[k].to == spans[k + 1].from)
  }

  /** A span's cursor was drawn because it moved away from the one drawn
      before, or because the previous frame is older than the maximum
      frame duration. */
  predicate CursorRule(s: Span, previous: Point)
    requires s.cursor.Some?
  {
    s.cursor.value != previous || s.to - s.from > MaxFrameDuration
  }

  /** The loop of `grabScreen` over the pending cursor captures taken
      before `timeAfter`. A capture not after the previous frame time is
      dropped; one after the stop time ends the loop; otherwise a frame
      ending at the capture is written when the cursor rule holds. */
  function Drain(q: seq<MouseCapture>, timeAfter: int, stopTime: int, origin: Point,
                 prev: int, previous: Point, seen: bool): (g: Drained)
    decreases |q|
    ensures g.prev >= prev
    ensures Chain(g.frames, prev, g.prev)
    ensures forall k :: 0 <= k < |g.frames| ==>
      && g.frames[k].from < g.frames[k].to <= stopTime && g.frames[k].to < timeAfter
      && g.frames[k].cursor.Some?
    ensures seen ==> g.seen
    ensures |g.frames| > 0 ==> g.seen
    ensures |g.remaining| <= |q|
    ensures |q| > 0 && q[0].time < timeAfter ==> |g.remaining| < |q|
  {
    if |q| == 0 || q[0].time >= timeAfter then
      Drained([], prev, q, seen)
    else
      var c := q[0];
      if c.time <= prev then
        Drain(q[1..], timeAfter, stopTime, origin, prev, previous, seen)
      else
        var p := Relative(c.p, origin);
        if c.time > stopTime then
          Drained([], prev, q[1..], true)
        else if p != previous || c.time - prev > MaxFrameDuration then
          var after := Drain(q[1..], timeAfter, stopTime, origin, c.time, p, true);
          var frames := [Span(prev, c.time, Some(p))] + after.frames;
          assert frames[1..] == after.frames;
          Drained(frames, after.prev, after.remaining, true)
        else
          Drain(q[1..], timeAfter, stopTime, origin, prev, previous, true)
  }

  /** Every frame drawn from the cursor queue obeys the cursor rule: its
      cursor moved away from the one drawn before, or too long has passed. */
  lemma {:induction false} DrainFollowsCursorRule(q: seq<MouseCapture>, timeAfter: int, stopTime: int, origin: Point,
                                                  prev: int, previous: Point, seen: bool)
    decreases |q|
    ensures var g := Drain(q, timeAfter, stopTime, origin, prev, previous, seen);
      && (|g.frames| > 0 ==> CursorRule(g.frames[0], previous))
      && (forall k :: 0 < k < |g.frames| ==> CursorRule(g.frames[k], g.frames[k - 1].cursor.value))
  {
    if |q| > 0 && q[0].time < timeAfter {
      var c := q[0];
      var p := Relative(c.p, origin);
      if c.time <= prev {
        DrainFollowsCursorRule(q[1..], timeAfter, stopTime, origin, prev, previous, seen);
      } else if c.time <= stopTime {
        if p != previous || c.time - prev > MaxFrameDuration {
          DrainFollowsCursorRule(q[1..], timeAfter, stopTime, origin, c.time, p, true);
          var after := Drain(q[1..], timeAfter, stopTime, origin, c.time, p, true);
          var g := Drain(q, timeAfter, stopTime, origin, prev, previous, seen);
          assert g.frames == [Span(prev, c.time, Some(p))] + after.frames;
          forall k | 0 < k < |g.frames|
            ensures CursorRule(g.frames[k], g.frames[k - 1].cursor.value)
          {
            assert g.frames[k] == after.frames[k - 1];
            if k > 1 {
              assert g.frames[k - 1] == after.frames[k - 2];
            }
          }
        } else {
          DrainFollowsCursorRule(q[1..], timeAfter, stopTime, origin, prev, previous, true);
        }
      }
    }
  }

  /** Every frame drawn from the cursor queue ends at a capture in the
      queue and shows that capture's cursor. */
  lemma {:induction false} DrainFramesAreCaptures(q: seq<MouseCapture>, timeAfter: int, stopTime: int, origin: Point,
                                                  prev: int, previous: Point, seen: bool)
    decreases |q|
    ensures AllCaptured(q, origin, Drain(q, timeAfter, stopTime, origin, prev, previous, seen).frames)
  {
    if |q| > 0 && q[0].time < timeAfter {
      var c := q[0];
      var p := Relative(c.p, origin);
      if c.time <= prev {
        DrainFramesAreCaptures(q[1..], timeAfter, stopTime, origin, prev, previous, seen);
        var rest := Drain(q[1..], timeAfter, stopTime, origin, prev, previous, seen);
        DrainShift(q, rest.frames, origin);
      } else if c.time <= stopTime {
        if p != previous || c.time - prev > MaxFrameDuration {
          DrainFramesAreCaptures(q[1..], timeAfter, stopTime, origin, c.time, p, true);
          var after := Drain(q[1..], timeAfter, stopTime, origin, c.time, p, true);
          DrainShift(q, after.frames, origin);
          var g := Drain(q, timeAfter, stopTime, origin, prev, previous, seen);
          assert g.frames == [Span(prev, c.time, Some(p))] + after.frames;
          forall k | 0 <= k < |g.frames|
            ensures CapturedIn(q, origin, g.frames[k])
          {
            if k == 0 {
              assert q[0].time == g.frames[0].to;
            } else {
              assert g.frames[k] == after.frames[k - 1];
            }
          }
        } else {
          DrainFramesAreCaptures(q[1..], timeAfter, stopTime, origin, prev, previous, true);
          DrainShift(q, Drain(q[1..], timeAfter, stopTime, origin, prev, previous, true).frames, origin);
        }
      }
    }
  }

  /** Draining polls captures from the front of the queue: what is left
      is a suffix of it. */
  lemma {:induction false} DrainLeavesSuffix(q: seq<MouseCapture>, timeAfter: int, stopTime: int, origin: Point,
                                             prev: int, previous: Point, seen: bool)
    decreases |q|
    ensures var g := Drain(q, timeAfter, stopTime, origin, prev, previous, seen);
      |g.remaining| <= |q| && g.remaining == q[|q| - |g.remaining|..]
  {
    if |q| > 0 && q[0].time < timeAfter {
      var c := q[0];
      var p := Relative(c.p, origin);
      if prev < c.time <= stopTime {
        var draws := p != previous || c.time - prev > MaxFrameDuration;
        var prev', previous' := if draws then c.time else prev, if draws then p else previous;
        DrainLeavesSuffix(q[1..], timeAfter, stopTime, origin, prev', previous', true);
        var t := Drain(q[1..], timeAfter, stopTime, origin, prev', previous', true);
        assert Drain(q, timeAfter, stopTime, origin, prev, previous, seen).remaining == t.remaining;
        assert q[1..][|q| - 1 - |t.remaining|..] == q[|q| - |t.remaining|..];
      } else if c.time <= prev {
        DrainLeavesSuffix(q[1..], timeAfter, stopTime, origin, prev, previous, seen);
        var t := Drain(q[1..], timeAfter, stopTime, origin, prev, previous, seen);
        assert q[1..][|q| - 1 - |t.remaining|..] == q[|q| - |t.remaining|..];
      }
    }
  }


  // ---------------------------------------------------------------------
  // The captures that become frames
  // ---------------------------------------------------------------------

  /** Capture c, met when the previous frame ended at `prev` with the
      cursor at `previous`, becomes a frame: it comes after that frame and
      not after the stop time, and the frame it ends obeys the cursor
      rule. */
  predicate Draws(c: MouseCapture, origin: Point, stopTime: int, prev: int, previous: Point) {
    prev < c.time <= stopTime && CursorRule(Span(prev, c.time, Some(Relative(c.p, origin))), previous)
  }

  /** Capture c, met in that state, ends the loop: it comes after the
      previous frame and after the stop time. */
  predicate Halts(c: MouseCapture, stopTime: int, prev: int) {
    prev < c.time && stopTime < c.time
  }

  /** The end and the cursor of the previous frame once the first i frames
      are written; before any, the initial ones. */
  function PrevAt(prev: int, frames: seq<Span>, i: int): int
    requires 0 <= i <= |frames|
  {
    if i == 0 then prev else frames[i - 1].to
  }

  function CursorAt(previous: Point, frames: seq<Span>, i: int): Point
    requires 0 <= i <= |frames|
  {
    if i == 0 then previous else frames[i - 1].cursor.GetOr(previous)
  }

  /** The captures polled after frame i - 1 and before frame i (after the
      last frame, for i = |picks|) are those from `SegmentStart` up to
      `SegmentEnd`, exclusive. */
  function SegmentStart(picks: seq<int>, i: int): int
    requires 0 <= i <= |picks|
  {
    if i == 0 then 0 else picks[i - 1] + 1
  }

  function SegmentEnd(picks: seq<int>, n: int, i: int): int
    requires 0 <= i <= |picks|
  {
    if i < |picks| then picks[i] else n
  }

  /** The capture at index `picks[i]` ends frame i, drawn in the state the
      frames before it leave. */
  ghost predicate PicksFrame(q: seq<MouseCapture>, n: int, origin: Point, stopTime: int, prev: int, previous: Point,
                             picks: seq<int>, frames: seq<Span>, i: int)
    requires 0 <= i < |picks| == |frames|
  {
    var P, C := PrevAt(prev, frames, i), CursorAt(previous, frames, i);
    && 0 <= picks[i] < n <= |q|
    && frames[i] == Span(P, q[picks[i]].time, Some(Relative(q[picks[i]].p, origin)))
    && Draws(q[picks[i]], origin, stopTime, P, C)
  }

  /** The capture at index j, polled in state (P, C), does not become a
      frame, and ends the loop only if it is the last one polled. */
  predicate Passes(q: seq<MouseCapture>, n: int, j: int, origin: Point, stopTime: int, P: int, C: Point)
    requires 0 <= j < |q|
  {
    !Draws(q[j], origin, stopTime, P, C) && (Halts(q[j], stopTime, P) ==> j == n - 1)
  }

  /** A description of draining that does not follow the loop: the first
      n captures of q are polled, all taken before `timeAfter`; those at
      the increasing indices `picks` become the frames, each drawn in the
      state the frames before it leave; every other polled capture does
      not draw in the state it meets; and polling ends at the end of the
      queue, at a capture not before `timeAfter`, or after a capture past
      the stop time. */
  ghost predicate Selects(q: seq<MouseCapture>, n: int, timeAfter: int, stopTime: int, origin: Point,
                          prev: int, previous: Point, picks: seq<int>, frames: seq<Span>) {
    && 0 <= n <= |q| && |picks| == |frames|
    && (forall j :: 0 <= j < n ==> q[j].time < timeAfter)
    && (n == |q| || timeAfter <= q[n].time || (0 < n && Halts(q[n - 1], stopTime, PrevAt(prev, frames, |frames|))))
    && PicksFrames(q, n, origin, stopTime, prev, previous, picks, frames)
    && PassesOthers(q, n, origin, stopTime, prev, previous, picks, frames)
  }

  /** The picks increase, and each one draws its frame. */
  ghost predicate PicksFrames(q: seq<MouseCapture>, n: int, origin: Point, stopTime: int, prev: int, previous: Point,
                              picks: seq<int>, frames: seq<Span>)
    requires |picks| == |frames|
  {
    && (forall i :: 0 < i < |picks| ==> picks[i - 1] < picks[i])
    && (forall i :: 0 <= i < |picks| ==> PicksFrame(q, n, origin, stopTime, prev, previous, picks, frames, i))
  }

  /** Every polled capture between two picks passes in the state the
      frames before it leave. */
  ghost predicate PassesOthers(q: seq<MouseCapture>, n: int, origin: Point, stopTime: int, prev: int, previous: Point,
                               picks: seq<int>, frames: seq<Span>)
    requires |picks| == |frames|
  {
    forall i, j :: 0 <= i <= |picks| && SegmentStart(picks, i) <= j < SegmentEnd(picks, n, i) && 0 <= j < |q| ==>
      Passes(q, n, j, origin, stopTime, PrevAt(prev, frames, i), CursorAt(previous, frames, i))
  }

  /** Every index one higher. */
  function Shift(picks: seq<int>): (r: seq<int>)
    ensures |r| == |picks| && forall i :: 0 <= i < |r| ==> r[i] == picks[i] + 1
  {
    seq(|picks|, i requires 0 <= i < |picks| => picks[i] + 1)
  }

  /** The polled captures of q[1..] are, one index higher, polled
      captures of q, and the loop ends at the same capture. */
  lemma PolledShift(q: seq<MouseCapture>, n: int, timeAfter: int, stopTime: int, P: int, P': int)
    requires |q| > 0 && q[0].time < timeAfter && 0 <= n <= |q| - 1
    requires forall j :: 0 <= j < n ==> q[1..][j].time < timeAfter
    requires n == |q| - 1 || timeAfter <= q[1..][n].time || (0 < n && Halts(q[1..][n - 1], stopTime, P))
    requires 0 < n ==> P' == P
    ensures forall j :: 0 <= j < n + 1 ==> q[j].time < timeAfter
    ensures n + 1 == |q| || timeAfter <= q[n + 1].time || Halts(q[n], stopTime, P')
  {
    forall j | 0 <= j < n + 1
      ensures q[j].time < timeAfter
    {
      if j > 0 {
        assert q[j] == q[1..][j - 1];
      }
    }
    if n < |q| - 1 {
      assert q[n + 1] == q[1..][n];
    }
    if 0 < n {
      assert q[n] == q[1..][n - 1];
    }
  }

  /** The picks of a description of q[1..] are not negative, and shifted
      by one they pick the same frames from q. */
  lemma PicksShift(q: seq<MouseCapture>, n: int, origin: Point, stopTime: int, prev: int, previous: Point,
                   picks: seq<int>, frames: seq<Span>)
    requires |q| > 0 && |picks| == |frames|
    requires PicksFrames(q[1..], n, origin, stopTime, prev, previous, picks, frames)
    ensures forall i :: 0 <= i < |picks| ==> 0 <= picks[i]
    ensures PicksFrames(q, n + 1, origin, stopTime, prev, previous, Shift(picks), frames)
  {
    var q', picks', N := q[1..], Shift(picks), n + 1;
    forall i | 0 <= i < |picks|
      ensures 0 <= picks[i]
    {
      assert PicksFrame(q', n, origin, stopTime, prev, previous, picks, frames, i);
    }
    forall i | 0 <= i < |picks'|
      ensures PicksFrame(q, N, origin, stopTime, prev, previous, picks', frames, i)
    {
      assert PicksFrame(q', n, origin, stopTime, prev, previous, picks, frames, i);
      assert q[picks'[i]] == q'[picks[i]];
    }
  }

  /** A capture that is polled and passed in front of a queue adds
      nothing but itself to the description. */
  lemma SelectsPass(q: seq<MouseCapture>, n: int, timeAfter: int, stopTime: int, origin: Point,
                    prev: int, previous: Point, picks: seq<int>, frames: seq<Span>)
    requires |q| > 0 && q[0].time < timeAfter
    requires !Draws(q[0], origin, stopTime, prev, previous) && !Halts(q[0], stopTime, prev)
    requires Selects(q[1..], n, timeAfter, stopTime, origin, prev, previous, picks, frames)
    ensures Selects(q, n + 1, timeAfter, stopTime, origin, prev, previous, Shift(picks), frames)
  {
    PicksShift(q, n, origin, stopTime, prev, previous, picks, frames);
    PassesShift(q, n, origin, stopTime, prev, previous, picks, frames);
    PolledShift(q, n, timeAfter, stopTime, PrevAt(prev, frames, |frames|), PrevAt(prev, frames, |frames|));
  }

  lemma PassesShift(q: seq<MouseCapture>, n: int, origin: Point, stopTime: int, prev: int, previous: Point,
                    picks: seq<int>, frames: seq<Span>)
    requires |q| > 0 && |picks| == |frames|
    requires !Draws(q[0], origin, stopTime, prev, previous) && !Halts(q[0], stopTime, prev)
    requires forall i :: 0 <= i < |picks| ==> 0 <= picks[i]
    requires PassesOthers(q[1..], n, origin, stopTime, prev, previous, picks, frames)
    ensures PassesOthers(q, n + 1, origin, stopTime, prev, previous, Shift(picks), frames)
  {
    var q', picks', N := q[1..], Shift(picks), n + 1;
    forall i, j | 0 <= i <= |picks'| && SegmentStart(picks', i) <= j < SegmentEnd(picks', N, i) && 0 <= j < |q|
      ensures Passes(q, N, j, origin, stopTime, PrevAt(prev, frames, i), CursorAt(previous, frames, i))
    {
      assert i > 0 ==> picks[i - 1] >= 0;
      if j > 0 {
        assert q[j] == q'[j - 1];
        assert SegmentStart(picks, i) <= j - 1 < SegmentEnd(picks, n, i);
        assert Passes(q', n, j - 1, origin, stopTime, PrevAt(prev, frames, i), CursorAt(previous, frames, i));
      }
    }
  }

  /** After a frame drawn at capture c, the state the first i frames leave
      is the one the first i − 1 frames after it leave from c. */
  lemma DrawState(n: int, q': seq<MouseCapture>, origin: Point, stopTime: int, prev: int, previous: Point,
                  c: MouseCapture, picks: seq<int>, after: seq<Span>)
    requires |picks| == |after|
    requires PicksFrames(q', n, origin, stopTime, c.time, Relative(c.p, origin), picks, after)
    ensures var frames := [Span(prev, c.time, Some(Relative(c.p, origin)))] + after;
      forall i :: 1 <= i <= |frames| ==>
        && PrevAt(prev, frames, i) == PrevAt(c.time, after, i - 1)
        && CursorAt(previous, frames, i) == CursorAt(Relative(c.p, origin), after, i - 1)
  {
    var p := Relative(c.p, origin);
    var frames := [Span(prev, c.time, Some(p))] + after;
    forall i | 1 <= i <= |frames|
      ensures PrevAt(prev, frames, i) == PrevAt(c.time, after, i - 1)
      ensures CursorAt(previous, frames, i) == CursorAt(p, after, i - 1)
    {
      if i > 1 {
        assert frames[i - 1] == after[i - 2];
        assert PicksFrame(q', n, origin, stopTime, c.time, p, picks, after, i - 2);
      }
    }
  }

  /** A capture that draws in front of a queue adds its frame before the
      description of the rest, which starts from that frame. */
  lemma SelectsDraw(q: seq<MouseCapture>, n: int, timeAfter: int, stopTime: int, origin: Point,
                    prev: int, previous: Point, picks: seq<int>, after: seq<Span>)
    requires |q| > 0 && q[0].time < timeAfter && Draws(q[0], origin, stopTime, prev, previous)
    requires Selects(q[1..], n, timeAfter, stopTime, origin, q[0].time, Relative(q[0].p, origin), picks, after)
    ensures Selects(q, n + 1, timeAfter, stopTime, origin, prev, previous, [0] + Shift(picks),
                    [Span(prev, q[0].time, Some(Relative(q[0].p, origin)))] + after)
  {
    var frames := [Span(prev, q[0].time, Some(Relative(q[0].p, origin)))] + after;
    DrawState(n, q[1..], origin, stopTime, prev, previous, q[0], picks, after);
    DrawPicks(q, n, origin, stopTime, prev, previous, picks, after);
    DrawPasses(q, n, origin, stopTime, prev, previous, picks, after);
    PolledShift(q, n, timeAfter, stopTime, PrevAt(q[0].time, after, |after|), PrevAt(prev, frames, |frames|));
  }

  lemma DrawPicks(q: seq<MouseCapture>, n: int, origin: Point, stopTime: int, prev: int, previous: Point,
                  picks: seq<int>, after: seq<Span>)
    requires |q| > 0 && Draws(q[0], origin, stopTime, prev, previous) && |picks| == |after|
    requires PicksFrames(q[1..], n, origin, stopTime, q[0].time, Relative(q[0].p, origin), picks, after)
    requires 0 <= n <= |q| - 1
    ensures forall i :: 0 <= i < |picks| ==> 0 <= picks[i]
    ensures PicksFrames(q, n + 1, origin, stopTime, prev, previous, [0] + Shift(picks),
                        [Span(prev, q[0].time, Some(Relative(q[0].p, origin)))] + after)
  {
    var q', c, p := q[1..], q[0], Relative(q[0].p, origin);
    var picks', frames, N := [0] + Shift(picks), [Span(prev, c.time, Some(p))] + after, n + 1;
    DrawState(n, q', origin, stopTime, prev, previous, c, picks, after);
    forall i | 0 <= i < |picks|
      ensures 0 <= picks[i]
    {
      assert PicksFrame(q', n, origin, stopTime, c.time, p, picks, after, i);
    }
    forall i | 0 <= i < |picks'|
      ensures PicksFrame(q, N, origin, stopTime, prev, previous, picks', frames, i)
    {
      if i > 0 {
        assert PicksFrame(q', n, origin, stopTime, c.time, p, picks, after, i - 1);
        assert q[picks'[i]] == q'[picks[i - 1]];
        assert frames[i] == after[i - 1];
        assert PrevAt(prev, frames, i) == PrevAt(c.time, after, i - 1);
        assert CursorAt(previous, frames, i) == CursorAt(p, after, i - 1);
      } else {
        assert picks'[0] == 0 && frames[0] == Span(prev, c.time, Some(p));
      }
    }
    forall i | 0 < i < |picks'|
      ensures picks'[i - 1] < picks'[i]
    {
      if i > 1 {
        assert picks[i - 2] < picks[i - 1];
      } else {
        assert PicksFrame(q', n, origin, stopTime, c.time, p, picks, after, 0);
      }
    }
  }

  lemma DrawPasses(q: seq<MouseCapture>, n: int, origin: Point, stopTime: int, prev: int, previous: Point,
                   picks: seq<int>, after: seq<Span>)
    requires |q| > 0 && |picks| == |after|
    requires forall i :: 0 <= i < |picks| ==> 0 <= picks[i]
    requires PicksFrames(q[1..], n, origin, stopTime, q[0].time, Relative(q[0].p, origin), picks, after)
    requires PassesOthers(q[1..], n, origin, stopTime, q[0].time, Relative(q[0].p, origin), picks, after)
    ensures PassesOthers(q, n + 1, origin, stopTime, prev, previous, [0] + Shift(picks),
                         [Span(prev, q[0].time, Some(Relative(q[0].p, origin)))] + after)
  {
    var q', c, p := q[1..], q[0], Relative(q[0].p, origin);
    var picks', frames, N := [0] + Shift(picks), [Span(prev, c.time, Some(p))] + after, n + 1;
    DrawState(n, q', origin, stopTime, prev, previous, c, picks, after);
    forall i, j | 0 <= i <= |picks'| && SegmentStart(picks', i) <= j < SegmentEnd(picks', N, i) && 0 <= j < |q|
      ensures Passes(q, N, j, origin, stopTime, PrevAt(prev, frames, i), CursorAt(previous, frames, i))
    {
      assert i > 0;
      assert i > 1 ==> picks[i - 2] >= 0;
      assert q[j] == q'[j - 1];
      assert SegmentStart(picks, i - 1) <= j - 1 < SegmentEnd(picks, n, i - 1);
      assert Passes(q', n, j - 1, origin, stopTime, PrevAt(c.time, after, i - 1), CursorAt(p, after, i - 1));
    }
  }

  /** Draining the queue is the selection `Selects` describes: every
      capture that is after the previous frame, before the screen capture
      and not after the stop time, and that obeys the cursor rule in the
      state it meets, becomes a frame, and no other does. */
  lemma {:induction false} DrainSelects(q: seq<MouseCapture>, timeAfter: int, stopTime: int, origin: Point,
                                        prev: int, previous: Point, seen: bool)
    returns (picks: seq<int>)
    decreases |q|
    ensures var g := Drain(q, timeAfter, stopTime, origin, prev, previous, seen);
      Selects(q, |q| - |g.remaining|, timeAfter, stopTime, origin, prev, previous, picks, g.frames)
  {
    if |q| == 0 || q[0].time >= timeAfter {
      assert Drain(q, timeAfter, stopTime, origin, prev, previous, seen) == Drained([], prev, q, seen);
      SelectsNone(q, 0, timeAfter, stopTime, origin, prev, previous);
      return [];
    }
    var c := q[0];
    if Halts(c, stopTime, prev) {
      assert Drain(q, timeAfter, stopTime, origin, prev, previous, seen) == Drained([], prev, q[1..], true);
      SelectsNone(q, 1, timeAfter, stopTime, origin, prev, previous);
      return [];
    }
    var draws := Draws(c, origin, stopTime, prev, previous);
    var prev', previous' := if draws then c.time else prev, if draws then Relative(c.p, origin) else previous;
    var seen' := if c.time <= prev then seen else true;
    var rest := DrainSelects(q[1..], timeAfter, stopTime, origin, prev', previous', seen');
    picks := DrainSelectsStep(q, timeAfter, stopTime, origin, prev, previous, seen, rest);
  }

  /** No frame: the loop ends before the first capture, or at it because
      it is past the stop time. */
  lemma SelectsNone(q: seq<MouseCapture>, n: int, timeAfter: int, stopTime: int, origin: Point,
                    prev: int, previous: Point)
    requires n == 0 || n == 1
    requires n == 0 ==> |q| == 0 || timeAfter <= q[0].time
    requires n == 1 ==> |q| > 0 && q[0].time < timeAfter && Halts(q[0], stopTime, prev)
    ensures Selects(q, n, timeAfter, stopTime, origin, prev, previous, [], [])
  {
    if n == 1 {
      assert Passes(q, 1, 0, origin, stopTime, prev, previous);
    }
  }

  /** One step of `DrainSelects`: the description of the rest of the queue,
      after a first capture that does not end the loop, extends to the
      whole queue. */
  lemma DrainSelectsStep(q: seq<MouseCapture>, timeAfter: int, stopTime: int, origin: Point,
                         prev: int, previous: Point, seen: bool, rest: seq<int>)
    returns (picks: seq<int>)
    requires |q| > 0 && q[0].time < timeAfter && !Halts(q[0], stopTime, prev)
    requires var draws := Draws(q[0], origin, stopTime, prev, previous);
      var tail := Drain(q[1..], timeAfter, stopTime, origin, if draws then q[0].time else prev,
                        if draws then Relative(q[0].p, origin) else previous, if q[0].time <= prev then seen else true);
      && |tail.remaining| <= |q| - 1
      && Selects(q[1..], |q| - 1 - |tail.remaining|, timeAfter, stopTime, origin, if draws then q[0].time else prev,
                 if draws then Relative(q[0].p, origin) else previous, rest, tail.frames)
    ensures var g := Drain(q, timeAfter, stopTime, origin, prev, previous, seen);
      Selects(q, |q| - |g.remaining|, timeAfter, stopTime, origin, prev, previous, picks, g.frames)
  {
    var c, p := q[0], Relative(q[0].p, origin);
    var draws := Draws(c, origin, stopTime, prev, previous);
    var prev', previous' := if draws then c.time else prev, if draws then p else previous;
    var seen' := if c.time <= prev then seen else true;
    var tail := Drain(q[1..], timeAfter, stopTime, origin, prev', previous', seen');
    var n := |q| - 1 - |tail.remaining|;
    if draws {
      assert Drain(q, timeAfter, stopTime, origin, prev, previous, seen)
        == Drained([Span(prev, c.time, Some(p))] + tail.frames, tail.prev, tail.remaining, true);
      SelectsDraw(q, n, timeAfter, stopTime, origin, prev, previous, rest, tail.frames);
      picks := [0] + Shift(rest);
    } else {
      assert Drain(q, timeAfter, stopTime, origin, prev, previous, seen) == tail;
      SelectsPass(q, n, timeAfter, stopTime, origin, prev, previous, rest, tail.frames);
      picks := Shift(rest);
    }
  }

  /** Some capture among the first n of q comes after `prev`. */
  ghost predicate SeesCapture(q: seq<MouseCapture>, n: int, prev: int) {
    exists j :: 0 <= j < n && j < |q| && prev < q[j].time
  }

  /** The drain reports a capture seen exactly when one was seen before or
      some polled capture comes after the previous frame time. */
  lemma {:induction false} DrainSeen(q: seq<MouseCapture>, timeAfter: int, stopTime: int, origin: Point,
                                     prev: int, previous: Point, seen: bool)
    decreases |q|
    ensures var g := Drain(q, timeAfter, stopTime, origin, prev, previous, seen);
      g.seen <==> seen || SeesCapture(q, |q| - |g.remaining|, prev)
  {
    DrainLeavesSuffix(q, timeAfter, stopTime, origin, prev, previous, seen);
    if |q| > 0 && q[0].time < timeAfter {
      var c := q[0];
      if c.time <= prev {
        DrainSeen(q[1..], timeAfter, stopTime, origin, prev, previous, seen);
        var rest := Drain(q[1..], timeAfter, stopTime, origin, prev, previous, seen);
        var n := |q| - |rest.remaining|;
        if SeesCapture(q, n, prev) {
          var j :| 0 <= j < n && j < |q| && prev < q[j].time;
          assert q[1..][j - 1] == q[j];
        }
        if SeesCapture(q[1..], n - 1, prev) {
          var j :| 0 <= j < n - 1 && j < |q[1..]| && prev < q[1..][j].time;
          assert q[j + 1] == q[1..][j];
        }
      } else {
        assert prev < q[0].time;
      }
    }
  }

  /** Some capture in the queue ends the span and holds its cursor,
      relative to the capture area's origin. */
  predicate CapturedIn(q: seq<MouseCapture>, origin: Point, s: Span) {
    && s.cursor.Some?
    && exists j :: 0 <= j < |q| && q[j].time == s.to && Relative(q[j].p, origin) == s.cursor.value
  }

  function Relative(p: Point, origin: Point): Point {
    Point(p.x - origin.x, p.y - origin.y)
  }

  predicate AllCaptured(q: seq<MouseCapture>, origin: Point, frames: seq<Span>) {
    forall k :: 0 <= k < |frames| ==> CapturedIn(q, origin, frames[k])
  }

  /** Witnesses found in the tail of the queue are witnesses in the queue. */
  lemma DrainShift(q: seq<MouseCapture>, frames: seq<Span>, origin: Point)
    requires |q| > 0
    requires AllCaptured(q[1..], origin, frames)
    ensures AllCaptured(q, origin, frames)
  {
    forall k | 0 <= k < |frames|
      ensures CapturedIn(q, origin, frames[k])
    {
      assert CapturedIn(q[1..], origin, frames[k]);
      var j :| 0 <= j < |q[1..]| && q[1..][j].time == frames[k].to && Relative(q[1..][j].p, origin) == frames[k].cursor.value;
      assert q[j + 1] == q[1..][j];
    }
  }

  /** The frame-producing part of `grabScreen(timeAfterCapture)`, for a
      queue of cursor captures and the capture area's origin. With cursor
      capture on, the queue is drained; when no capture after the previous
      frame was seen, one frame up to `timeAfter` is written instead, as it
      is when cursor capture is off. */
  function GrabScreen(rec: Recorder, q: seq<MouseCapture>, timeAfter: int, origin: Point)
    : (r: Result<(Recorder, seq<Span>, seq<MouseCapture>), Exception>)
    ensures r.Failure? <==> CapturesMouse(rec.mouseFormat).Failure?
    ensures r.Success? ==>
      var (rec', frames, remaining) := r.value;
      && rec' == rec.(prevScreenCaptureTime := rec'.prevScreenCaptureTime)
      && Chain(frames, rec.prevScreenCaptureTime, rec'.prevScreenCaptureTime)
      && (forall k :: 0 <= k < |frames| && frames[k].cursor.None? ==> k == |frames| - 1 && frames[k].to == timeAfter)
      && |remaining| <= |q|
    ensures CapturesMouse(rec.mouseFormat) == Success(false) ==>
      r == Success((rec.(prevScreenCaptureTime := timeAfter), [Span(rec.prevScreenCaptureTime, timeAfter, None)], q))
    ensures CapturesMouse(rec.mouseFormat) == Success(true) ==>
      var g := Drain(q, timeAfter, rec.stopTime, origin, rec.prevScreenCaptureTime, Point(Int32Max, Int32Max), false);
      var (rec', frames, remaining) := r.value;
      && remaining == g.remaining
      && (if SeesCapture(q, |q| - |g.remaining|, rec.prevScreenCaptureTime)
          then frames == g.frames && rec'.prevScreenCaptureTime == g.prev
          else frames == [Span(rec.prevScreenCaptureTime, timeAfter, None)] && rec'.prevScreenCaptureTime == timeAfter)
  {
    var mouse :- CapturesMouse(rec.mouseFormat);
    if mouse then
      var g := Drain(q, timeAfter, rec.stopTime, origin, rec.prevScreenCaptureTime, Point(Int32Max, Int32Max), false);
      DrainSeen(q, timeAfter, rec.stopTime, origin, rec.prevScreenCaptureTime, Point(Int32Max, Int32Max), false);
      if !g.seen then
        DrainLeavesSuffix(q, timeAfter, rec.stopTime, origin, rec.prevScreenCaptureTime, Point(Int32Max, Int32Max), false);
        Success((rec.(prevScreenCaptureTime := timeAfter), [Span(g.prev, timeAfter, None)], g.remaining))
      else
        DrainLeavesSuffix(q, timeAfter, rec.stopTime, origin, rec.prevScreenCaptureTime, Point(Int32Max, Int32Max), false);
        Success((rec.(prevScreenCaptureTime := g.prev), g.frames, g.remaining))
    else
      var frames := [Span(rec.prevScreenCaptureTime, timeAfter, None)];
      Success((rec.(prevScreenCaptureTime := timeAfter), frames, q))
  }

  /** With cursor capture on and some capture after the previous frame
      polled, the frames grabbed are the captures `Selects` describes:
      each capture before the screen capture, after the previous frame
      and not after the stop time becomes a frame exactly when it obeys
      the cursor rule in the state it meets. */
  lemma GrabScreenSelects(rec: Recorder, q: seq<MouseCapture>, timeAfter: int, origin: Point)
    returns (picks: seq<int>)
    requires CapturesMouse(rec.mouseFormat) == Success(true)
    ensures var (_, frames, remaining) := GrabScreen(rec, q, timeAfter, origin).value;
      var n := |q| - |remaining|;
      && |remaining| <= |q| && remaining == q[n..]
      && (SeesCapture(q, n, rec.prevScreenCaptureTime) ==>
            Selects(q, n, timeAfter, rec.stopTime, origin, rec.prevScreenCaptureTime, Point(Int32Max, Int32Max),
                    picks, frames))
  {
    DrainLeavesSuffix(q, timeAfter, rec.stopTime, origin, rec.prevScreenCaptureTime, Point(Int32Max, Int32Max), false);
    picks := DrainSelects(q, timeAfter, rec.stopTime, origin, rec.prevScreenCaptureTime, Point(Int32Max, Int32Max), false);
  }

  /** The times of the buffer written for a span, in seconds since the
      start of the recording: timeStamp (from − startTime)/1000 and
      sampleDuration (to − from)/1000. */
  function SpanTimeStamp(startTime: int, s: Span): (r: Rational)
    ensures IsFinite(r) && Val(r) == (s.from - startTime) as real / 1000.0
  {
    MakeValue(s.from - startTime, 1000);
    Make(s.from - startTime, 1000)
  }

  function SpanDuration(s: Span): (r: Rational)
    ensures IsFinite(r) && Val(r) == (s.to - s.from) as real / 1000.0
  {
    MakeValue(s.to - s.from, 1000);
    Make(s.to - s.from, 1000)
  }

  lemma MillisAdd(a: int, b: int)
    ensures Add(Make(a, 1000), Make(b, 1000)) == Success(Make(a + b, 1000))
  {
    var x, y, z := Make(a, 1000), Make(b, 1000), Make(a + b, 1000);
    MakeValue(a, 1000);
    MakeValue(b, 1000);
    MakeValue(a + b, 1000);
    var s := Add(x, y).value;
    SameDenominator(a, b, 1000, Val(x), Val(y), Val(z));
    CanonicalUnique(s, z);
  }

  lemma SameDenominator(a: int, b: int, d: int, x: real, y: real, z: real)
    requires d > 0
    requires x == a as real / d as real && y == b as real / d as real && z == (a + b) as real / d as real
    ensures x + y == z
  {
  }

  /** The buffers written for a chain of spans are contiguous: each one's
      timeStamp plus sampleDuration is the next one's timeStamp. */
  lemma SpanBuffersContiguous(startTime: int, spans: seq<Span>, a: int, b: int, k: int)
    requires Chain(spans, a, b) && 0 <= k < |spans| - 1
    ensures Add(SpanTimeStamp(startTime, spans[k]), SpanDuration(spans[k])) == Success(SpanTimeStamp(startTime, spans[k + 1]))
  {
    var s, t := spans[k], spans[k + 1];
    assert s.to == t.from;
    AdjacentSpans(startTime, s, t);
  }

  /** Two spans that meet give buffers that meet. */
  lemma AdjacentSpans(startTime: int, s: Span, t: Span)
    requires s.to == t.from
    ensures Add(SpanTimeStamp(startTime, s), SpanDuration(s)) == Success(SpanTimeStamp(startTime, t))
  {
    var a, b := s.from - startTime, s.to - s.from;
    MillisAdd(a, b);
    assert a + b == t.from - startTime;
  }
}
