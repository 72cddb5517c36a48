# A Dafny model of the Monte Media Library's timing core

The Monte Media Library reads and writes movie files; its screen recorder
captures the screen and the cursor into a movie. This project models the
parts of it that decide *when* things happen and *what* gets written, and
proves properties of them:

- `Rational` (module `Rationals`, with `RationalRounding` for
  `floor`/`ceil`/`round`): exact fractions with the two infinities 1/0
  and -1/0. The constructor's canonical form, the arithmetic including
  its `ArithmeticException`s, the order `compareTo` defines, and the
  narrowing `intValue`.
- `IntMath` (module `IntMath`, resting on the number theory of
  `Divisibility`): the `gcd` and `scm` loops, Java's truncating `/`, and
  `reverseBits`.
- `Format` (module `Formats`): an immutable map from typed keys to
  values, with both constructors and their `ClassCastException`,
  `get`, `get` with a default, `containsKey`, `matches`, `append`,
  `intersectKeys`, `removeKeys` and `containsKeys`. As written,
  `containsKeys` builds the same format as `removeKeys`.
- `AVIReader` (module `AviReader`). The metadata `read` fills in, and
  `getReadTime`. `nextTrack`, which chooses the next track of an
  interleaved read. `getMovieDuration`, `timeToSample`, `sampleToTime`,
  and seeking with `setMovieReadTime`.
- `PassThroughCodec.process` (module `PassThroughCodec`): the DISCARD
  flag for buffers outside the start/end time range.
- `ScreenRecorder`, sequential parts only (module `ScreenRecorder`):
  - the fixed frame duration, the inverse of the larger of the screen and
    cursor frame rates;
  - the DONE/RECORDING/FAILED state machine;
  - the conversion of variable-rate frames to fixed-rate frames in
    `write`;
  - the rollover to a new movie file after an hour or at the writer's
    data limit;
  - the rule that decides which cursor captures become video frames.
- `Colors.createMacColors` (module `Colors`): the 256-entry Macintosh
  palette.

Java `long` and `int` values are unbounded integers here, and `long`
overflow is not modelled. Where the source works in 32 bits (`intValue`,
`Math.abs` of `Integer.MIN_VALUE`, the counters of the `int` scm loop, the
`+ 1` on a queue capacity, the `int` sample count of the audio search in
`timeToSample`) the model narrows explicitly. Java exceptions are `Failure` values of a
`Result`, and `null` is `None`. `Buffers` holds the buffer metadata the
modelled code assigns and tests. The ghost functions `Val` (the real value
of a finite rational) and `Less` (the order of the extended reals) give
the contracts their meaning.

## Model

| member | source | states |
|---|---|---|
| IntMath.JDiv | src/main/java/org/monte/media/math/Rational.java:60-61 | Java's `/` truncates toward zero: the quotient's magnitude is the floor of the magnitudes' quotient, and a non-zero quotient is negative exactly when the operands' signs differ |
| IntMath.JavaDiv | src/main/java/org/monte/media/math/Rational.java:206 | division throws ArithmeticException exactly for a zero divisor; otherwise the truncated quotient, whose magnitude times the divisor's brackets the dividend's |
| IntMath.ToInt32 | src/main/java/org/monte/media/math/Rational.java:200-202 | the `(int)` cast yields a 32-bit value congruent to its argument modulo 2^32, and keeps every value already in range |
| IntMath.GcdLong | src/main/java/org/monte/media/math/IntMath.java:61-75 | the alternating remainder loop returns the greatest common divisor of the magnitudes, and \|a\| when b is 0 |
| IntMath.GcdNatRem | src/main/java/org/monte/media/math/IntMath.java:70-73 | one remainder step of the loop keeps the gcd |
| IntMath.Abs32 | src/main/java/org/monte/media/math/IntMath.java:43-44 | `Math.abs` on an int is the magnitude except at Integer.MIN_VALUE, which stays negative |
| IntMath.GcdInt | src/main/java/org/monte/media/math/IntMath.java:37-51 | the int loop returns the gcd away from Integer.MIN_VALUE, and with it the narrowed sum of the two `Math.abs` results |
| IntMath.Scm | src/main/java/org/monte/media/math/IntMath.java:86-113 | the smallest common multiple: 0 exactly when an argument is 0, a multiple of both magnitudes, and no larger than any positive common multiple |
| IntMath.ScmOne | src/main/java/org/monte/media/math/IntMath.java:133 | scm(a, ±1) is \|a\|, so the early return of the long version changes nothing |
| IntMath.ScmStep | src/main/java/org/monte/media/math/IntMath.java:139-147 | each subtraction step of the scm loop keeps x·v + y·u |
| IntMath.ScmLoopResult | src/main/java/org/monte/media/math/IntMath.java:151 | once the counters meet at the gcd, (u + v)/2 is the lcm |
| IntMath.ScmLong | src/main/java/org/monte/media/math/IntMath.java:123-152 | the long subtraction loop, early return included, returns the smallest common multiple |
| IntMath.ScmInt | src/main/java/org/monte/media/math/IntMath.java:86-113 | the int loop returns 0 when an argument is 0 and for two MIN_VALUE arguments; otherwise its counters wrap but do not steer the loop, so it returns twice the smallest common multiple wrapped to 32 bits and halved with truncation, which is the smallest common multiple whenever its double fits an int |
| IntMath.ScmIntCycles | src/main/java/org/monte/media/math/IntMath.java:94-108 | with MIN_VALUE beside a positive magnitude b, two passes of the loop lead back to the pair they started from and the two values never meet, so the loop does not end |
| IntMath.WrapAdd | src/main/java/org/monte/media/math/IntMath.java:102-106 | the counter update `v += u` in 32 bits stays congruent to the unbounded sum |
| IntMath.MaxPlusOneWraps | src/main/java/org/monte/screenrecorder/ScreenRecorder.java:465 | Integer.MAX_VALUE + 1 wraps to Integer.MIN_VALUE |
| IntMath.LcmLeast | src/main/java/org/monte/media/math/IntMath.java:112 | the lcm of two positive numbers is at most any positive common multiple |
| IntMath.ReverseBits | src/main/java/org/monte/media/math/IntMath.java:165-174 | for 0..32 bits, the result holds the low numBits bits of the argument in reverse order and nothing above them; it always fits 32 bits |
| IntMath.ShiftInBit | src/main/java/org/monte/media/math/IntMath.java:168-169 | shifting left and or-ing in the argument's low bit extends the reversal by one bit |
| IntMath.ShiftOutBit | src/main/java/org/monte/media/math/IntMath.java:170 | the unsigned shift moves the next bit of the argument into place |
| IntMath.ReverseAllBits | src/main/java/org/monte/media/math/IntMath.java:157-159 | `reverseBits(a)` reverses all 32 bits |
| IntMath.ReverseTwice | src/main/java/org/monte/media/math/IntMath.java:165-174 | reversing n bits twice gives back the argument's low n bits |
| IntMath.BitsDetermine | src/main/java/org/monte/media/math/IntMath.java:165-174 | two numbers below 2^n with the same low n bits are equal |
| Rationals.Make | src/main/java/org/monte/media/math/Rational.java:44-62 | the constructor maps every zero numerator to 0/1 and every zero denominator with a non-zero numerator to the infinity of its sign; a non-zero denominator gives a finite value |
| Rationals.MakeValue | src/main/java/org/monte/media/math/Rational.java:53-61 | for a non-zero denominator the constructor keeps the value n/d, and its denominator divides \|d\| |
| Rationals.Reduce | src/main/java/org/monte/media/math/Rational.java:59-61 | dividing by the gcd keeps a positive denominator positive and leaves an infinity as ±1/0 |
| Rationals.ReduceCoprime | src/main/java/org/monte/media/math/Rational.java:59-61 | a fraction already in lowest terms is left unchanged |
| Rationals.MakeCanonical | src/main/java/org/monte/media/math/Rational.java:64-66 | the copy constructor returns the same value |
| Rationals.MakeNegateBoth | src/main/java/org/monte/media/math/Rational.java:53-57 | negating numerator and denominator of a finite fraction constructs the same value |
| Rationals.CanonicalUnique | src/main/java/org/monte/media/math/Rational.java:44-62 | two finite canonical fractions with the same value are identical, so value equality is structural equality |
| Rationals.MakeEqualValues | src/main/java/org/monte/media/math/Rational.java:44-62 | fractions with equal cross products construct the same rational, which `equals` accepts |
| Rationals.MakeSign | src/main/java/org/monte/media/math/Rational.java:44-62 | with a non-negative denominator the result has the numerator's sign |
| Rationals.Negate | src/main/java/org/monte/media/math/Rational.java:112-114 | negation keeps the denominator, flips the numerator, and negates a finite value |
| Rationals.NegateNegate | src/main/java/org/monte/media/math/Rational.java:112-114 | negating twice gives back every value |
| Rationals.Inverse | src/main/java/org/monte/media/math/Rational.java:116-118 | 0 inverts to 1/0 and both infinities to 0; otherwise numerator and denominator swap, the sign kept on the numerator, and the product of a value and its inverse is 1 |
| Rationals.InverseInverse | src/main/java/org/monte/media/math/Rational.java:116-118 | inverting twice gives back every value except -1/0, which comes back as 1/0 |
| Rationals.Add | src/main/java/org/monte/media/math/Rational.java:76-89 | the sum throws ArithmeticException exactly when one operand is infinite and the other is not; two finite operands add as reals; two infinities give that infinity when equal and 0 when opposite |
| Rationals.Subtract | src/main/java/org/monte/media/math/Rational.java:108-110 | the difference throws in the same cases; finite operands subtract as reals; two equal infinities give 0 |
| Rationals.AddCommutes | src/main/java/org/monte/media/math/Rational.java:76-89 | addition commutes, failures included |
| Rationals.SubtractAfterAdd | src/main/java/org/monte/media/math/Rational.java:76-110 | for finite operands, subtracting what was added gives back the first operand |
| Rationals.AddNegate | src/main/java/org/monte/media/math/Rational.java:76-114 | a value plus its negation is 0, infinities included |
| Rationals.Multiply | src/main/java/org/monte/media/math/Rational.java:157-161 | finite operands multiply as reals; the sign is the product of the signs; with an infinite operand the product is finite only when it is 0 |
| Rationals.MultiplyInt | src/main/java/org/monte/media/math/Rational.java:162-166 | a finite value times an integer multiplies as reals; an infinity times k is finite only for k = 0 |
| Rationals.MultiplyIntIsMultiply | src/main/java/org/monte/media/math/Rational.java:157-166 | multiplying by k is multiplying by k/1 |
| Rationals.Divide | src/main/java/org/monte/media/math/Rational.java:168-172 | for finite operands and a non-zero divisor, the quotient times the divisor is the dividend; dividing by 0 gives the dividend's sign; dividing by an infinity gives 0; an infinite dividend over a finite divisor is returned as it is |
| Rationals.DivideIsMultiplyInverse | src/main/java/org/monte/media/math/Rational.java:116-172 | for a finite dividend, dividing is multiplying by the inverse |
| Rationals.DivideInfinityKeepsSign | src/main/java/org/monte/media/math/Rational.java:168-172 | 1/0 divided by -2 is 1/0, but 1/0 times the inverse of -2 is -1/0 |
| Rationals.CompareTo | src/main/java/org/monte/media/math/Rational.java:233-254 | the answer is -1, 0 or 1, and is -1 exactly when the first value is below the second in the extended order, 0 exactly when they are equal |
| Rationals.CrossOrder | src/main/java/org/monte/media/math/Rational.java:241-244 | unless both values are infinite, cross products order them as the extended reals do |
| Rationals.LessTotal | src/main/java/org/monte/media/math/Rational.java:233-254 | the order `compareTo` defines is irreflexive, total and asymmetric |
| Rationals.LessTransitive | src/main/java/org/monte/media/math/Rational.java:233-254 | the order is transitive |
| Rationals.Equals | src/main/java/org/monte/media/math/Rational.java:219-230 | `equals` holds exactly for identical rationals |
| Rationals.Max | src/main/java/org/monte/media/math/Rational.java:263-265 | `max` returns one of its arguments, below neither of them, and the first on a tie |
| Rationals.Min | src/main/java/org/monte/media/math/Rational.java:267-269 | `min` returns one of its arguments, above neither of them, and the first on a tie |
| Rationals.IsZero | src/main/java/org/monte/media/math/Rational.java:271-273 | true exactly for 0 |
| Rationals.IsLessOrEqualZero | src/main/java/org/monte/media/math/Rational.java:274-276 | true exactly for values not above 0, -1/0 included |
| Rationals.IsNegative | src/main/java/org/monte/media/math/Rational.java:339-341 | true exactly for values below 0 |
| Rationals.LongValue | src/main/java/org/monte/media/math/Rational.java:205-207 | throws exactly for an infinity; otherwise the value truncated toward zero, within 1 of the value |
| Rationals.IntValue | src/main/java/org/monte/media/math/Rational.java:200-202 | throws exactly for an infinity; otherwise a 32-bit value congruent to `longValue` modulo 2^32, equal to it when it fits |
| RationalRounding.Floor | src/main/java/org/monte/media/math/Rational.java:122-133 | `floor(d)` returns the value itself when d is its denominator, throws exactly for an infinity otherwise, and lands on the grid of step 1/\|d\| |
| RationalRounding.Ceil | src/main/java/org/monte/media/math/Rational.java:137-148 | `ceil(d)` returns the value itself when d is its denominator, throws exactly for an infinity otherwise, and lands on the grid of step 1/\|d\| |
| RationalRounding.Round | src/main/java/org/monte/media/math/Rational.java:322-337 | `round(d)` returns the value itself when d is its denominator, throws exactly for an infinity otherwise, lands on the grid, and is `floor(d)` when that is no farther from the value than `ceil(d)`, else `ceil(d)`; so it is no farther than either, and a tie goes to the floor |
| RationalRounding.Nearer | src/main/java/org/monte/media/math/Rational.java:334-336 | the candidate at the smaller distance from the value, the floor on a tie |
| RationalRounding.FloorCorrected | src/main/java/org/monte/media/math/Rational.java:122-133 | the greatest grid value not above the value |
| RationalRounding.CeilCorrected | src/main/java/org/monte/media/math/Rational.java:137-148 | the least grid value not below the value |
| RationalRounding.RoundCorrected | src/main/java/org/monte/media/math/Rational.java:322-337 | the nearer of the corrected floor and ceiling, on the grid |
| RationalRounding.FloorCorrectedGreatest | src/main/java/org/monte/media/math/Rational.java:122-133 | no grid value between the corrected floor and the value |
| RationalRounding.CeilCorrectedLeast | src/main/java/org/monte/media/math/Rational.java:137-148 | no grid value between the value and the corrected ceiling |
| RationalRounding.RoundCorrectedNearest | src/main/java/org/monte/media/math/Rational.java:322-337 | no grid value is nearer to the value than the corrected round |
| RationalRounding.FloorAgrees | src/main/java/org/monte/media/math/Rational.java:122-133 | for a value that is not negative, the source's floor is the true floor |
| RationalRounding.CeilAgrees | src/main/java/org/monte/media/math/Rational.java:137-148 | for a value and a d that are not negative, the source's ceiling is the true ceiling |
| RationalRounding.RoundAgrees | src/main/java/org/monte/media/math/Rational.java:322-337 | on the same inputs the source's round is the true nearest grid value |
| RationalRounding.FloorOfNegative | src/main/java/org/monte/media/math/Rational.java:127-131 | floor(-1/2, 1) is 0, above the value; the true floor is -1 |
| RationalRounding.CeilOfNegative | src/main/java/org/monte/media/math/Rational.java:142-146 | ceil(-4/3, 1) is 0, while -1 is the least integer not below the value |
| RationalRounding.CeilNegativeStep | src/main/java/org/monte/media/math/Rational.java:142-146 | with d = -1, ceil(1/2) is 0, below the value |
| RationalRounding.RoundOfNegative | src/main/java/org/monte/media/math/Rational.java:322-337 | round(-5/3, 1) is -1, while -2 is nearer |
| Formats.FromMap | src/main/java/org/monte/media/Format.java:33-40 | the map constructor succeeds exactly when every value has its key's class, keeps the map as it is, and otherwise throws ClassCastException |
| Formats.FromPairs | src/main/java/org/monte/media/Format.java:45-54 | the varargs constructor succeeds exactly for an even list of key/value pairs whose values fit their keys; its keys are those listed, each holding the value of its last pair; a failure is the error of the first bad pair: IndexOutOfBounds for a key in the last position, ClassCast otherwise |
| Formats.BuiltDescribes | src/main/java/org/monte/media/Format.java:47-53 | the map put together from the first n pairs holds exactly their keys, each with the value of its last occurrence |
| Formats.LastPairWins | src/main/java/org/monte/media/Format.java:52 | a key listed several times keeps the value of its last pair |
| Formats.Get | src/main/java/org/monte/media/Format.java:56-58 | `get` returns the stored value, which has the key's class, and null exactly for an absent key |
| Formats.GetOr | src/main/java/org/monte/media/Format.java:59-61 | `get` with a default returns the stored value for a present key and the default for an absent one |
| Formats.GetOrIsGet | src/main/java/org/monte/media/Format.java:56-61 | the defaulted `get` is the plain `get` with the default in place of null |
| Formats.ContainsKey | src/main/java/org/monte/media/Format.java:62-64 | `containsKey` holds exactly when `get` does not return null |
| Formats.Matches | src/main/java/org/monte/media/Format.java:83-95 | `matches` holds exactly when the formats agree on every key both define |
| Formats.AgreeProperties | src/main/java/org/monte/media/Format.java:83-95 | agreement is reflexive and symmetric, and the empty format matches every format |
| Formats.Append | src/main/java/org/monte/media/Format.java:110-118 | the keys of both formats; this format's values win, the other's fill in the keys this one lacks; the result matches this format, and matches the other when the two match |
| Formats.IntersectKeys | src/main/java/org/monte/media/Format.java:124-130 | exactly the listed keys this format has, with this format's values |
| Formats.RemoveKeys | src/main/java/org/monte/media/Format.java:135-141 | this format without the listed keys, every other entry unchanged |
| Formats.ContainsKeys | src/main/java/org/monte/media/Format.java:144-150 | like `removeKeys`: this format without the listed keys, every other entry unchanged |
| Formats.RemovalUnique | src/main/java/org/monte/media/Format.java:135-150 | a removal is determined by the format and the keys, so `containsKeys` and `removeKeys` return the same format |
| Formats.RemovalAgrees | src/main/java/org/monte/media/Format.java:135-141 | a removal matches the original and holds none of the removed keys |
| AviReader.Read | src/main/java/org/monte/media/avi/AVIReader.java:60-107 | an exhausted track gives an END_OF_MEDIA, DISCARD buffer of length 0 with the reader unchanged; a negative cursor or missing track throws IndexOutOfBounds; MIDI and text tracks throw UnsupportedOperation, an audio track without a frame size throws; otherwise the buffer describes the pending sample (its time, duration scale/rate, length, keyframe flag, format, track) and the cursor advances by one |
| AviReader.GetReadTime | src/main/java/org/monte/media/avi/AVIReader.java:109-117 | the time of the pending sample, 0 once the track is exhausted; a negative cursor or missing track throws |
| AviReader.ReadReportsReadTime | src/main/java/org/monte/media/avi/AVIReader.java:102-116 | a read stamps its buffer with the time `getReadTime` reported before it, and afterwards `getReadTime` reports the next sample's time, or 0 at the end |
| AviReader.ReadKeepsCursorInRange | src/main/java/org/monte/media/avi/AVIReader.java:105 | reading keeps every track's cursor between -1 and the sample count |
| AviReader.ScanTakes | src/main/java/org/monte/media/avi/AVIReader.java:135-138 | a pending track below the best time so far becomes the best, and the scan's invariant holds one track further |
| AviReader.ScanSkips | src/main/java/org/monte/media/avi/AVIReader.java:126-135 | an empty, exhausted or later track leaves the best as it is and the invariant holds one track further |
| AviReader.NextTrack | src/main/java/org/monte/media/avi/AVIReader.java:119-141 | throws exactly when a non-empty track has a negative cursor; otherwise -1 when no pending sample comes before Integer.MAX_VALUE seconds, and else the track whose pending sample comes first, strictly before every earlier track's and not after any later track's |
| AviReader.MaxDuration | src/main/java/org/monte/media/avi/AVIReader.java:151-157 | the loop's maximum is not below 0 or below any track's duration, and is 0 or one of them |
| AviReader.TrackDuration | src/main/java/org/monte/media/avi/AVIReader.java:153 | a track lasts (length·scale + startTime)/rate seconds for a non-zero rate, and a zero rate gives 0 or the infinity of the numerator's sign |
| AviReader.GetMovieDuration | src/main/java/org/monte/media/avi/AVIReader.java:143-161 | a cached duration is returned as it is; otherwise the maximum over the tracks is computed and cached |
| AviReader.MovieDurationIgnoresScale | src/main/java/org/monte/media/avi/AVIReader.java:153 | a one-sample track with scale 2 and start time 1 gets duration 3 from the source while its sample ends at 4 |
| AviReader.TrackDurationCorrected | src/main/java/org/monte/media/avi/AVIReader.java:153 | when the track's length is where its last sample ends, the corrected duration is that sample's end time |
| AviReader.MaxDurationCorrected | src/main/java/org/monte/media/avi/AVIReader.java:150-160 | the maximum of the corrected durations, not below 0 or below any of them, and 0 or one of them |
| AviReader.BaseIndex | src/main/java/org/monte/media/avi/AVIReader.java:175 | the truncating index arithmetic throws exactly for an infinite time or a zero scale |
| AviReader.Accum | src/main/java/org/monte/media/avi/AVIReader.java:177-186 | the `int` count of the audio search: each `count += d` narrows the long sum back to 32 bits, so the count always fits an int |
| AviReader.AccumNoWrap | src/main/java/org/monte/media/avi/AVIReader.java:177-186 | while every partial sum of duration·scale fits an int, the count is the plain sum of the durations before it |
| AviReader.AudioSearch | src/main/java/org/monte/media/avi/AVIReader.java:177-188 | the first sample for which the count plus its duration (compared in long, before the narrowing) exceeds the index, or the index itself when none does |
| AviReader.TrackTimeToSample | src/main/java/org/monte/media/avi/AVIReader.java:169-192 | throws exactly for an infinite time or a zero scale; otherwise an index from 0 to the sample count: the clamped stream index for video, the first sample ending after it for audio |
| AviReader.TimeToSample | src/main/java/org/monte/media/avi/AVIReader.java:168-192 | a missing track throws; otherwise the track's answer |
| AviReader.SampleToTime | src/main/java/org/monte/media/avi/AVIReader.java:194-203 | a missing or empty track throws; otherwise the time `read` reports for the clamped index, and the end of the last sample for an index at or past the end |
| AviReader.BaseIndexOfTime | src/main/java/org/monte/media/avi/AVIReader.java:175 | the index arithmetic recovers m from the time of stream position m |
| AviReader.SampleToTimeOfUnit | src/main/java/org/monte/media/avi/AVIReader.java:194-203 | on a track whose samples last one unit each, sample k maps to (startTime + k)·scale/rate |
| AviReader.TimeSampleRoundTrip | src/main/java/org/monte/media/avi/AVIReader.java:168-203 | on a video track of unit samples with positive scale and rate, `timeToSample(sampleToTime(k))` is k, for every k up to the sample count |
| AviReader.WalkBack | src/main/java/org/monte/media/avi/AVIReader.java:213 | the backward scan stops at a keyframe, at the cursor or at -1, and passes only non-keyframes above the cursor |
| AviReader.SeekTrack | src/main/java/org/monte/media/avi/AVIReader.java:207-214 | throws exactly when `timeToSample` does; otherwise only the cursor changes, to at most the target sample: the nearest keyframe at or before it, or the old cursor when that is not past the target, or -1 |
| AviReader.SetMovieReadTime | src/main/java/org/monte/media/avi/AVIReader.java:205-216 | every track is sought in turn; an exception stops the loop, leaving the earlier tracks sought and the rest untouched |
| AviReader.SeekStrandsCursor | src/main/java/org/monte/media/avi/AVIReader.java:209-214 | seeking an exhausted track without keyframes sets its cursor to -1, after which `read` and `getReadTime` throw |
| PassThroughCodec.Process | src/main/java/org/monte/media/PassThroughCodec.java:61-95 | the output copies the input except that DISCARD is added exactly when the buffer ends at or before the start time or begins at or after the end time; the end time throws when exactly one term of timeStamp + sampleDuration·sampleCount is infinite |
| PassThroughCodec.BufferEnd | src/main/java/org/monte/media/PassThroughCodec.java:67 | the end is timeStamp + sampleDuration·sampleCount as reals when both are finite, and throws ArithmeticException exactly when one term is infinite and the other not |
| PassThroughCodec.OutsideRange | src/main/java/org/monte/media/PassThroughCodec.java:69-92 | a buffer lies outside the range when it ends at or before the start time or begins at or after the end time |
| PassThroughCodec.ProcessWithoutRange | src/main/java/org/monte/media/PassThroughCodec.java:61-95 | without start and end time the output is the input |
| PassThroughCodec.ProcessIdempotent | src/main/java/org/monte/media/PassThroughCodec.java:61-95 | processing the output again changes nothing |
| PassThroughCodec.ProcessKeepsOverlap | src/main/java/org/monte/media/PassThroughCodec.java:69-92 | a finite buffer that overlaps a finite range passes unchanged, even when it only partly overlaps |
| ScreenRecorder.FixedFrameDuration | src/main/java/org/monte/screenrecorder/ScreenRecorder.java:273-274 | throws NullPointer exactly when a frame rate is missing; otherwise the inverse of the larger rate, the screen's on a tie |
| ScreenRecorder.FixedFrameDurationPositive | src/main/java/org/monte/screenrecorder/ScreenRecorder.java:273-274 | with a positive finite screen rate and a finite cursor rate the duration is finite and positive |
| ScreenRecorder.FixedFrameDurationWithoutMouse | src/main/java/org/monte/screenrecorder/ScreenRecorder.java:228-230 | without a mouse format the cursor rate is 0 and the duration is the inverse of a positive screen rate |
| ScreenRecorder.CapturesMouse | src/main/java/org/monte/screenrecorder/ScreenRecorder.java:248 | the cursor is captured when its rate's `intValue` is positive, which for a rate whose truncation fits an int means a rate of at least 1; a missing rate throws NullPointer and an infinite one ArithmeticException |
| ScreenRecorder.MouseFormatUsable | src/main/java/org/monte/screenrecorder/ScreenRecorder.java:248-250 | a given mouse format is accepted when its rate's `intValue` can be read and, when the cursor is captured, it names an encoding |
| ScreenRecorder.DefaultMouseFormatOff | src/main/java/org/monte/screenrecorder/ScreenRecorder.java:229 | the default mouse format has rate 0 (from 0/0) and the black cursor, and captures no cursor |
| ScreenRecorder.Create | src/main/java/org/monte/screenrecorder/ScreenRecorder.java:219-257 | succeeds exactly for a supported depth, a usable mouse format or none, and readable frame rates; a missing depth throws NullPointer and a depth other than 24, 16 or 8 throws IOException; a given mouse format whose rate cannot be read throws its error, and one whose cursor is captured without an encoding throws NullPointer; on success the recorder is DONE with a movie writer open, the default mouse format stands in for a missing one, and the fixed frame duration is derived from the two rates |
| ScreenRecorder.Start | src/main/java/org/monte/screenrecorder/ScreenRecorder.java:336-351 | the start and previous-capture times become now, the stop time Long.MAX_VALUE and the output time 0; then the writer queue is sized and the cursor rate read: an error from either is thrown with the state kept, and otherwise the state becomes RECORDING; nothing else changes |
| ScreenRecorder.WriterQueueCapacity | src/main/java/org/monte/screenrecorder/ScreenRecorder.java:465 | the queue capacity is the screen rate's `intValue` plus one, positive; a missing rate throws NullPointer, an infinite one ArithmeticException, and a capacity that wraps or falls below one IllegalArgument |
| ScreenRecorder.Stop | src/main/java/org/monte/screenrecorder/ScreenRecorder.java:505-564 | the stop time is taken and the writer closed; RECORDING becomes DONE while FAILED and DONE stay; with no writer open the close throws NullPointer and the state is kept |
| ScreenRecorder.RecordingFailed | src/main/java/org/monte/screenrecorder/ScreenRecorder.java:489-502 | the state becomes FAILED and stays so through the stop that follows |
| ScreenRecorder.Lifecycle | src/main/java/org/monte/screenrecorder/ScreenRecorder.java:336-564 | a created recorder that is started and stopped ends DONE; one that fails ends FAILED, and stopping it again throws |
| ScreenRecorder.TimeAtValue | src/main/java/org/monte/screenrecorder/ScreenRecorder.java:739 | after k additions of the frame duration the output time has advanced by k times it |
| ScreenRecorder.Frame | src/main/java/org/monte/screenrecorder/ScreenRecorder.java:727-733 | frame k carries timeStamp o + k·f and duration f, SAME_DATA from the second frame on, and is otherwise the input buffer |
| ScreenRecorder.RemainingDecreases | src/main/java/org/monte/screenrecorder/ScreenRecorder.java:726-740 | with a positive frame duration and an input end that is not 1/0, each iteration brings the loop closer to its end |
| ScreenRecorder.FixedRateFrames | src/main/java/org/monte/screenrecorder/ScreenRecorder.java:724-740 | the fixed-rate loop queues frame k at output time o + k·f with duration f, SAME_DATA from the second frame on, while the output time is before the input's end; a codec status other than OK throws IOException before the frame is queued; an input end that cannot be computed throws ArithmeticException; an infinite duration queues the first frame and then throws ArithmeticException at the `add` |
| ScreenRecorder.ReplayEnds | src/main/java/org/monte/screenrecorder/ScreenRecorder.java:726-740 | the loop ends: it is not entered, the duration is infinite, the duration is positive and the input's end is not 1/0, or else the encoder rejects some frame (IOException at :735-736) |
| ScreenRecorder.ReplayNeverEnds | src/main/java/org/monte/screenrecorder/ScreenRecorder.java:726-740 | where `ReplayEnds` fails, every frame k begins before the input's end and is accepted by the encoder, so no exit of the loop is ever taken |
| ScreenRecorder.QueuedExtend | src/main/java/org/monte/screenrecorder/ScreenRecorder.java:734-739 | a frame the codec accepts before the input's end extends the queued replay by one |
| ScreenRecorder.ReplayCount | src/main/java/org/monte/screenrecorder/ScreenRecorder.java:724-740 | a replay that ends normally queues ceil((end − o)/f) frames when the output time o is before the input's end, and none otherwise |
| ScreenRecorder.CountFromBounds | src/main/java/org/monte/screenrecorder/ScreenRecorder.java:726 | the number of iterations is the one whose last output time is before the end and whose next is not |
| ScreenRecorder.ReplayContiguous | src/main/java/org/monte/screenrecorder/ScreenRecorder.java:727-739 | each replayed frame ends where the next begins |
| ScreenRecorder.Write | src/main/java/org/monte/screenrecorder/ScreenRecorder.java:707-750 | nothing happens once the writer is closed; audio buffers and video buffers for a variable-rate writer are queued as they are; otherwise the input's end is computed first (an infinite term against a finite one throws ArithmeticException), a null output time then throws NullPointer, and else the fixed-rate replay runs from the output time, which is the only field that changes |
| ScreenRecorder.DoWrite | src/main/java/org/monte/screenrecorder/ScreenRecorder.java:760-786 | a closed writer throws; a write without data limit within the hour changes nothing; otherwise a new movie file is begun, the fixed frame duration is derived again and the hour restarts from now |
| ScreenRecorder.RollsOver | src/main/java/org/monte/screenrecorder/ScreenRecorder.java:767 | a new movie file is begun when the writer reports its data limit or more than an hour has passed since the start |
| ScreenRecorder.RolloverRestartsHour | src/main/java/org/monte/screenrecorder/ScreenRecorder.java:767-783 | a rollover keeps the fixed frame duration the recorder was created with, and a write within the next hour without data limit does not roll over again |
| ScreenRecorder.Drain | src/main/java/org/monte/screenrecorder/ScreenRecorder.java:589-639 | the cursor frames written form a gapless chain from the previous capture time, each one ending at or before the stop time and before the screen capture, each with a cursor drawn; a frame implies a capture was seen; a capture before the screen capture leaves the queue shorter |
| ScreenRecorder.CursorRule | src/main/java/org/monte/screenrecorder/ScreenRecorder.java:607 | a frame ending at a capture is written when the cursor moved from the one drawn before, or more than maxFrameDuration passed since the previous frame |
| ScreenRecorder.Selects | src/main/java/org/monte/screenrecorder/ScreenRecorder.java:589-639 | a description of the loop by the captures it picks: the first n are polled, all before the screen capture; the picked ones become the frames, in order, each after the previous frame, not after the stop time and obeying the cursor rule in the state the frames before leave; every other polled capture does not draw in the state it meets, and only the last polled can be past the stop time |
| ScreenRecorder.DrainSelects | src/main/java/org/monte/screenrecorder/ScreenRecorder.java:589-639 | draining is that description: a capture becomes a frame if and only if it is after the previous frame, before the screen capture, not after the stop time and obeys the cursor rule |
| ScreenRecorder.DrainSelectsStep | src/main/java/org/monte/screenrecorder/ScreenRecorder.java:590-626 | a first capture that does not end the loop extends the description of the rest to the whole queue |
| ScreenRecorder.SelectsNone | src/main/java/org/monte/screenrecorder/ScreenRecorder.java:590-604 | no frame is written when the loop ends before the first capture, or at it because it is past the stop time |
| ScreenRecorder.SelectsPass | src/main/java/org/monte/screenrecorder/ScreenRecorder.java:592-607 | a capture that is polled and not drawn adds only itself to the description |
| ScreenRecorder.SelectsDraw | src/main/java/org/monte/screenrecorder/ScreenRecorder.java:607-626 | a capture that draws adds its frame in front of the description of the rest, which starts from that frame and cursor |
| ScreenRecorder.DrainSeen | src/main/java/org/monte/screenrecorder/ScreenRecorder.java:592-598 | the loop reports a capture seen exactly when one was seen before or some polled capture is after the previous frame |
| ScreenRecorder.DrainFollowsCursorRule | src/main/java/org/monte/screenrecorder/ScreenRecorder.java:607 | every cursor frame moved away from the cursor drawn before it, or comes more than maxFrameDuration (1000 ms) after the previous frame |
| ScreenRecorder.DrainFramesAreCaptures | src/main/java/org/monte/screenrecorder/ScreenRecorder.java:590-626 | every cursor frame ends at a capture in the queue and shows that capture's position relative to the capture area |
| ScreenRecorder.DrainLeavesSuffix | src/main/java/org/monte/screenrecorder/ScreenRecorder.java:590-591 | draining polls from the front: what is left is a suffix of the queue |
| ScreenRecorder.DrainShift | src/main/java/org/monte/screenrecorder/ScreenRecorder.java:591 | captures found in the queue's tail are captures in the queue |
| ScreenRecorder.GrabScreen | src/main/java/org/monte/screenrecorder/ScreenRecorder.java:571-672 | throws when the cursor rate cannot be read; with the cursor off, one frame without cursor up to the screen capture and the queue untouched; with it on, the drained frames when some polled capture is after the previous frame and the single fallback frame up to the screen capture otherwise, with the drained queue; the frames always form a gapless chain and nothing but the previous capture time changes |
| ScreenRecorder.GrabScreenSelects | src/main/java/org/monte/screenrecorder/ScreenRecorder.java:589-652 | with the cursor on and a capture seen, the frames are exactly the captures the loop description picks |
| ScreenRecorder.SpanTimeStamp | src/main/java/org/monte/screenrecorder/ScreenRecorder.java:617 | a frame's timeStamp is (from − startTime)/1000 seconds |
| ScreenRecorder.SpanDuration | src/main/java/org/monte/screenrecorder/ScreenRecorder.java:616 | a frame's sampleDuration is (to − from)/1000 seconds |
| ScreenRecorder.SpanBuffersContiguous | src/main/java/org/monte/screenrecorder/ScreenRecorder.java:616-617 | the buffers written for a chain of frames are contiguous: each one's timeStamp plus sampleDuration is the next one's timeStamp |
| ScreenRecorder.AdjacentSpans | src/main/java/org/monte/screenrecorder/ScreenRecorder.java:616-617 | two frames that meet give buffers that meet |
| ScreenRecorder.MillisAdd | src/main/java/org/monte/screenrecorder/ScreenRecorder.java:616-617 | a/1000 + b/1000 is (a + b)/1000 under `add` |
| Colors.CreateMacColors | src/main/java/org/monte/media/color/Colors.java:41-100 | 256 entries per channel: the colour cube for the first 215, ramps of ten shades of red, green, blue and grey for the next 40, and black last |
| Colors.FillCube | src/main/java/org/monte/media/color/Colors.java:47-57 | the nested loops write 216 cube colours from index 0 and leave the rest untouched |
| Colors.FillRamp | src/main/java/org/monte/media/color/Colors.java:62-89 | one ramp loop writes ten shades from its start index and leaves every other entry untouched |
| Colors.CubeIndex | src/main/java/org/monte/media/color/Colors.java:48-54 | position 36·i + 6·j + k of the cube names its three steps |
| Colors.RampEntry | src/main/java/org/monte/media/color/Colors.java:59-89 | entry 215 + 10·c + i is shade i of ramp c |
| Colors.MacColorsAreBytes | src/main/java/org/monte/media/color/Colors.java:51-53 | every channel value is an unsigned byte |
| Colors.CubeIsSampled | src/main/java/org/monte/media/color/Colors.java:48-59 | every combination of the six levels per channel except black is a palette entry |
| Colors.RampDecreasing | src/main/java/org/monte/media/color/Colors.java:62 | each ramp darkens strictly and never reaches 0 |
| Colors.RampOffCube | src/main/java/org/monte/media/color/Colors.java:51-62 | no ramp shade is a cube level |
| Colors.MacColorsDistinct | src/main/java/org/monte/media/color/Colors.java:41-100 | the 256 palette entries are pairwise distinct |

## Left out

- Byte transfer, file and stream I/O, the AVI parser (`AVIInputStream`, which builds the track table), `ensureRealized`, `getFormat`, `getFileFormat` and `getTimeScale`: they carry no logic of their own.
- Threads, timers, `synchronized` blocks, the capture and writer queues and the robot are not modelled. Wall-clock times are parameters, and the recorder's operations are sequential functions of its state. A queue that drops buffers when it is full is not modelled.
- Images and drawing: the captured screen, the cursor image and its erasing, and `MouseInfo` for the fallback frame. A frame's picture is known only by whether a cursor was drawn into it and where.
- `System.exit` when a cursor frame cannot be written, and printing.
- `createMovieWriter`'s choice of file, writer and encoder: the model records that a writer is open and counts the movie files begun. The encoder is the `encode` parameter, a function from buffer to status; what it writes into its output buffer is not modelled.
- `toString`, `toDescriptiveString`, `hashCode`, `floatValue`, `doubleValue`, `valueOf(double)` and `main`: floating point and text.
- Overflow of Java `long` arithmetic, since integers are unbounded. The `(int)` casts of AVIReader and ScreenRecorder are omitted too, because the values involved are sample counts and times; the implicit narrowing of the `int` count in `timeToSample` (AVIReader.java:177, :186) is modelled in `AviReader.Accum`.
- A Java exception can leave a buffer partly updated, as `write` leaves the caller's buffer with the last frame's time and flags. The model returns only the error and the frames queued. `start` is modelled up to its exception: the times it set are kept, as the recorder it returns shows.
- Null values inside a `Format` are not modelled, because values are typed.
- ScreenRecorder.FixedRateFrames: requires `ReplayEnds`, that the Java loop ends. When it is entered with a finite duration of 0 or below, or with an input end of 1/0, the output time never reaches the input end, so the loop ends only when the encoder rejects a frame (IOException); that exit is modelled, and the requires excludes only an encoder that accepts every frame, where the loop runs for ever (`ReplayNeverEnds`). An infinite duration is modelled (one frame, then ArithmeticException).
- ScreenRecorder.Write: carries the same requirement for the fixed-rate branch, for the same reason.
- IntMath.ScmInt: requires that Integer.MIN_VALUE appears only beside 0 or itself. With any other argument the Java loop never ends (`ScmIntCycles`).
- ScreenRecorder.CapturesMouse: states the result only when the truncated rate fits 32 bits, because `intValue` wraps around beyond that.
- ScreenRecorder.GrabScreen: models the frames written and the queue, not the draw calls between them. An exception thrown by `write` inside it is not modelled.
- IntMath.ReverseBits: states the result for 0 to 32 bits only. Past 32 bits the Java loop keeps shifting the result left, pushing reversed bits out of the int; below 0 it returns 0.
- The audio capture thread and the screen and cursor timer callbacks are not modelled (they schedule the modelled operations).

## Findings

| source | as written | input that shows it | evidently intended | confidence | as-written member | corrected member |
|---|---|---|---|---|---|---|
| src/main/java/org/monte/media/math/Rational.java:122-133 | `floor` divides with Java's truncating `/`, which rounds a negative quotient up | floor(-1/2, 1) gives 0 | the greatest multiple of 1/\|d\| not above the value, -1 here | not executed | RationalRounding.FloorOfNegative | RationalRounding.FloorCorrectedGreatest |
| src/main/java/org/monte/media/math/Rational.java:137-148 | `ceil` adds den − 1 before a truncating `/`, which is a ceiling only for a non-negative numerator and d | ceil(-4/3, 1) gives 0; ceil(1/2, -1) gives 0 | the least multiple of 1/\|d\| not below the value: -1 and 1 | not executed | RationalRounding.CeilOfNegative | RationalRounding.CeilCorrectedLeast |
| src/main/java/org/monte/media/math/Rational.java:322-337 | `round` picks between the faulty floor and ceiling | round(-5/3, 1) gives -1, at distance 2/3 | the nearest integer, -2, at distance 1/3 | not executed | RationalRounding.RoundOfNegative | RationalRounding.RoundCorrectedNearest |
| src/main/java/org/monte/media/math/IntMath.java:86-113 | `Math.abs(Integer.MIN_VALUE)` stays MIN_VALUE, and beside it the subtraction loop cycles through the same two pairs for ever | scm(Integer.MIN_VALUE, 1) does not return | the smallest common multiple of the magnitudes, 2^31, as `scm(long, long)` computes it | not executed | IntMath.ScmIntCycles | IntMath.ScmLong |
| src/main/java/org/monte/media/avi/AVIReader.java:153 | the track duration adds `startTime` without multiplying it by `scale` | one sample of one unit, scale 2, rate 1, start time 1: duration 3 s, sample end 4 s | (length + startTime)·scale/rate, as `read` and `sampleToTime` compute times | not executed | AviReader.MovieDurationIgnoresScale | AviReader.MaxDurationCorrected |
