/**
 * Index arithmetic of the delay line: the capacity chosen by prepareToPlay,
 * the fixed lookbehind of getFromDelayBuffer, the read position derived from
 * the write cursor, and the cursor advance at the end of processBlock.
 * All of it is `int` arithmetic with C++ division and remainder.
 */
module DelayMath {
  import CppInt

  /** Gain of every copyFromWithRamp call in fillDelayBuffer (start and end gain alike). */
  const WriteGain: real := 0.8

  /** Delay time in milliseconds, a local constant of getFromDelayBuffer. */
  const DelayTimeMs: int := 500

  /**
   * Number of samples the read position trails the write cursor:
   * `mSampleRate * delayTime / 1000` in C++ integer arithmetic.
   */
  function LookbehindSamples(sampleRate: int): (l: int)
    ensures sampleRate >= 0 ==> l == sampleRate / 2
  {
    var l := CppInt.Div(sampleRate * DelayTimeMs, 1000);
    if sampleRate >= 0 then
      HalfSecondIsHalfTheRate(sampleRate);
      l
    else
      l
  }

  lemma HalfSecondIsHalfTheRate(sampleRate: int)
    requires sampleRate >= 0
    ensures CppInt.Div(sampleRate * DelayTimeMs, 1000) == sampleRate / 2
  {
  }

  /** Euclidean division has one quotient/remainder pair. */
  lemma DivUnique(a: int, b: int, q: int, r: int)
    requires b > 0 && 0 <= r < b && a == q * b + r
    ensures a / b == q && a % b == r
  {
    var q', r' := a / b, a % b;
    assert a == q' * b + r';
    assert (q - q') * b == r' - r;
    MulSign(q - q', b);
  }

  lemma MulSign(x: int, b: int)
    requires b > 0
    ensures x >= 1 ==> x * b >= b
    ensures x <= -1 ==> x * b <= -b
  {
  }

  /**
   * Capacity prepareToPlay gives each channel of the delay buffer:
   * `2 * (sampleRate + samplesPerBlock)`.  It always exceeds the fixed
   * lookbehind plus one block, so a block read never runs into the block
   * being written.
   */
  function DelayBufferSize(sampleRate: int, samplesPerBlock: int): (d: int)
    requires sampleRate >= 0 && samplesPerBlock >= 0
    ensures d >= LookbehindSamples(sampleRate) + samplesPerBlock
    ensures sampleRate + samplesPerBlock > 0 ==> d > LookbehindSamples(sampleRate) + samplesPerBlock
    ensures sampleRate + samplesPerBlock > 0 ==> d > samplesPerBlock && d > 0
  {
    2 * (sampleRate + samplesPerBlock)
  }

  /**
   * Read position of getFromDelayBuffer:
   * `(delayBufferLength + writePosition - lookbehind) % delayBufferLength`
   * with C++ `%`.  It is a valid index whenever the dividend is not negative.
   */
  function ReadPosition(d: int, w: int, sampleRate: int): (r: int)
    requires d > 0
    ensures 0 <= w && LookbehindSamples(sampleRate) <= d ==> 0 <= r < d
  {
    CppInt.Rem(d + w - LookbehindSamples(sampleRate), d)
  }

  /**
   * With the cursor in range and a lookbehind of at most one buffer, the
   * read position is the cursor moved back by the lookbehind around the
   * ring: `lookbehind` steps forward from it come back to the cursor.
   */
  lemma ReadPositionTrailsCursor(d: int, w: int, sampleRate: int)
    requires 0 <= w < d
    requires 0 <= LookbehindSamples(sampleRate) <= d
    ensures var r, l := ReadPosition(d, w, sampleRate), LookbehindSamples(sampleRate);
      && 0 <= r < d
      && r == (if w >= l then w - l else w - l + d)
      && (r + l) % d == w
  {
    var l := LookbehindSamples(sampleRate);
    CppInt.AgreeOnNonNegative(d + w - l, d);
    if w >= l {
      DivUnique(d + w - l, d, 1, w - l);
      DivUnique(w - l + l, d, 0, w);
    } else {
      DivUnique(d + w - l, d, 0, d + w - l);
      DivUnique(w - l + d + l, d, 1, w);
    }
  }

  /**
   * Cursor after processBlock: `(writePosition + bufferLength) % delayBufferLength`.
   */
  function AdvancedCursor(w: int, len: int, d: int): (w': int)
    requires d > 0
    ensures 0 <= w + len ==> 0 <= w' < d
  {
    CppInt.Rem(w + len, d)
  }

  /**
   * The cursor stays in `[0, d)` and moves forward by exactly one block
   * around the ring: it wraps at most once when the block fits the buffer.
   */
  lemma AdvancedCursorWrapsOnce(w: int, len: int, d: int)
    requires 0 <= w < d && 0 <= len <= d
    ensures var w' := AdvancedCursor(w, len, d);
      && 0 <= w' < d
      && w' == (if w + len < d then w + len else w + len - d)
  {
    CppInt.AgreeOnNonNegative(w + len, d);
    if w + len < d {
      DivUnique(w + len, d, 0, w + len);
    } else {
      DivUnique(w + len, d, 1, w + len - d);
    }
  }
}
