/**
 * The three operations of a JUCE `AudioBuffer<float>` that the processor
 * calls, on a buffer modelled as an `array2<real>` (channel, sample).  A
 * C++ `const float*` into a buffer is modelled as the buffer, a channel and
 * a start sample.
 */
module AudioBuffer {

  /** One channel of a buffer, as a sequence of samples. */
  ghost function Row(a: array2<real>, ch: int): (s: seq<real>)
    reads a
    requires 0 <= ch < a.Length0
    ensures |s| == a.Length1
    ensures forall j :: 0 <= j < a.Length1 ==> s[j] == a[ch, j]
  {
    seq(a.Length1, j requires 0 <= j < a.Length1 reads a => a[ch, j])
  }

  /**
   * Gain applied to the `i`-th of `numSamples` samples by a ramp from
   * `startGain` to `endGain`: the start gain plus `i` equal increments.
   */
  function RampGain(startGain: real, endGain: real, numSamples: int, i: int): (g: real)
    requires 0 <= i < numSamples
    ensures startGain == endGain ==> g == startGain
    ensures i == 0 ==> g == startGain
  {
    startGain + (i as real) * ((endGain - startGain) / (numSamples as real))
  }

  /**
   * `dest.copyFromWithRamp(destChannel, destStart, source, numSamples,
   * startGain, endGain)`: overwrites `numSamples` samples of one channel
   * from `destStart` on with the source samples times a linear gain ramp.
   */
  method CopyFromWithRamp(dest: array2<real>, destChannel: int, destStart: int,
                          source: array2<real>, sourceChannel: int, sourceStart: int,
                          numSamples: int, startGain: real, endGain: real)
    requires dest != source
    requires 0 <= destChannel < dest.Length0 && 0 <= sourceChannel < source.Length0
    requires 0 <= numSamples && 0 <= destStart && destStart + numSamples <= dest.Length1
    requires 0 <= sourceStart && sourceStart + numSamples <= source.Length1
    modifies dest
    ensures forall c, j :: 0 <= c < dest.Length0 && 0 <= j < dest.Length1 ==>
      dest[c, j] == if c == destChannel && destStart <= j < destStart + numSamples
                    then RampGain(startGain, endGain, numSamples, j - destStart) * source[sourceChannel, sourceStart + j - destStart]
                    else old(dest[c, j])
  {
    var increment := if numSamples > 0 then (endGain - startGain) / (numSamples as real) else 0.0;
    var gain := startGain;
    var i := 0;
    while i < numSamples
      invariant 0 <= i <= numSamples
      invariant gain == startGain + (i as real) * increment
      invariant forall c, j :: 0 <= c < dest.Length0 && 0 <= j < dest.Length1 ==>
        dest[c, j] == if c == destChannel && destStart <= j < destStart + i
                      then RampGain(startGain, endGain, numSamples, j - destStart) * source[sourceChannel, sourceStart + j - destStart]
                      else old(dest[c, j])
    {
      dest[destChannel, destStart + i] := gain * source[sourceChannel, sourceStart + i];
      gain := gain + increment;
      i := i + 1;
    }
  }

  /**
   * `dest.addFrom(destChannel, destStart, source, numSamples)`: adds
   * `numSamples` source samples to one channel from `destStart` on.
   */
  method AddFrom(dest: array2<real>, destChannel: int, destStart: int,
                 source: array2<real>, sourceChannel: int, sourceStart: int, numSamples: int)
    requires dest != source
    requires 0 <= destChannel < dest.Length0 && 0 <= sourceChannel < source.Length0
    requires 0 <= numSamples && 0 <= destStart && destStart + numSamples <= dest.Length1
    requires 0 <= sourceStart && sourceStart + numSamples <= source.Length1
    modifies dest
    ensures forall c, j :: 0 <= c < dest.Length0 && 0 <= j < dest.Length1 ==>
      dest[c, j] == if c == destChannel && destStart <= j < destStart + numSamples
                    then old(dest[c, j]) + source[sourceChannel, sourceStart + j - destStart]
                    else old(dest[c, j])
  {
    var i := 0;
    while i < numSamples
      invariant 0 <= i <= numSamples
      invariant forall c, j :: 0 <= c < dest.Length0 && 0 <= j < dest.Length1 ==>
        dest[c, j] == if c == destChannel && destStart <= j < destStart + i
                      then old(dest[c, j]) + source[sourceChannel, sourceStart + j - destStart]
                      else old(dest[c, j])
    {
      dest[destChannel, destStart + i] := dest[destChannel, destStart + i] + source[sourceChannel, sourceStart + i];
      i := i + 1;
    }
  }

  /** `dest.clear(channel, start, numSamples)`: sets that stretch of one channel to silence. */
  method Clear(dest: array2<real>, channel: int, start: int, numSamples: int)
    requires 0 <= channel < dest.Length0
    requires 0 <= numSamples && 0 <= start && start + numSamples <= dest.Length1
    modifies dest
    ensures forall c, j :: 0 <= c < dest.Length0 && 0 <= j < dest.Length1 ==>
      dest[c, j] == if c == channel && start <= j < start + numSamples then 0.0 else old(dest[c, j])
  {
    var i := 0;
    while i < numSamples
      invariant 0 <= i <= numSamples
      invariant forall c, j :: 0 <= c < dest.Length0 && 0 <= j < dest.Length1 ==>
        dest[c, j] == if c == channel && start <= j < start + i then 0.0 else old(dest[c, j])
    {
      dest[channel, start + i] := 0.0;
      i := i + 1;
    }
  }
}
