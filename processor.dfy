/**
 * The audio processor of the circular-buffer delay: a delay buffer with one
 * ring per input channel, a write cursor shared by all channels, and the
 * sample rate stored as an integer.  Each block is written into the ring at
 * the cursor (times 0.8), the samples half a second behind the cursor are
 * added to the output, and the cursor advances by one block.
 */
module Processor {
  import opened DelayMath
  import opened RingSpec
  import opened AudioBuffer

  class DelayProcessor {
    /** The delay buffer: one row per input channel, one column per ring slot. */
    var delay: array2<real>
    /** Where the next block is written, shared by every channel. */
    var writePos: int
    /** The sample rate, truncated to an integer. */
    var sampleRate: int

    /**
     * The state processBlock needs: the cursor is a slot of the ring (so
     * the ring is not empty) and the lookbehind is at most one ring, so the
     * read position is computed from a non-negative dividend.
     */
    ghost predicate Valid()
      reads this
    {
      0 <= writePos < delay.Length1 && LookbehindSamples(sampleRate) <= delay.Length1
    }

    /** A new processor: an empty delay buffer, cursor 0, sample rate 44100. */
    constructor ()
      ensures delay.Length0 == 0 && delay.Length1 == 0
      ensures writePos == 0 && sampleRate == 44100
      ensures !Valid()
    {
      delay := new real[0, 0];
      writePos := 0;
      sampleRate := 44100;
    }

    /**
     * prepareToPlay: stores the sample rate and sizes the delay buffer to
     * `2 * (sampleRate + samplesPerBlock)` slots per input channel.  The
     * buffer keeps its storage and contents when the size is unchanged, and
     * gets new storage with unspecified contents otherwise.  The cursor is
     * not reset, so the processor is ready exactly when the old cursor is a
     * slot of the new ring.
     */
    method PrepareToPlay(rate: int, samplesPerBlock: int, numInputChannels: int)
      requires rate >= 0 && samplesPerBlock >= 0 && numInputChannels >= 0
      modifies this
      ensures delay.Length0 == numInputChannels
      ensures delay.Length1 == DelayBufferSize(rate, samplesPerBlock)
      ensures old(delay.Length0) == numInputChannels && old(delay.Length1) == delay.Length1
        ==> delay == old(delay) && unchanged(delay)
      ensures old(delay.Length0) != numInputChannels || old(delay.Length1) != delay.Length1
        ==> fresh(delay)
      ensures sampleRate == rate && writePos == old(writePos)
      ensures Valid() <==> 0 <= old(writePos) < delay.Length1
    {
      var delayBufferSize := DelayBufferSize(rate, samplesPerBlock);
      sampleRate := rate;
      if delay.Length0 != numInputChannels || delay.Length1 != delayBufferSize {
        delay := new real[numInputChannels, delayBufferSize];
      }
    }

    /**
     * prepareToPlay as it evidently should be: as above, and the cursor is
     * reset to the start of the new ring, so the processor is always ready.
     */
    method PrepareToPlayResettingCursor(rate: int, samplesPerBlock: int, numInputChannels: int)
      requires rate >= 0 && samplesPerBlock >= 0 && numInputChannels >= 0
      requires rate + samplesPerBlock > 0
      modifies this
      ensures delay.Length0 == numInputChannels
      ensures delay.Length1 == DelayBufferSize(rate, samplesPerBlock)
      ensures sampleRate == rate && writePos == 0
      ensures Valid()
    {
      PrepareToPlay(rate, samplesPerBlock, numInputChannels);
      writePos := 0;
    }

    /**
     * fillDelayBuffer: copies one channel of the block into that channel's
     * ring at the cursor, times 0.8.  When the block does not end before the
     * ring does, the copy is split in two, and the second part starts again
     * at the first sample of the block.
     */
    method FillDelayBuffer(channel: int, bufferLength: int, delayBufferLength: int, buffer: array2<real>)
      requires buffer != delay
      requires 0 <= channel < delay.Length0 && channel < buffer.Length0
      requires delayBufferLength == delay.Length1 && 0 <= writePos < delayBufferLength
      requires 0 <= bufferLength <= delayBufferLength && bufferLength <= buffer.Length1
      modifies delay
      ensures Row(delay, channel) == FilledAsWritten(old(Row(delay, channel)), writePos, Row(buffer, channel)[..bufferLength])
      ensures forall c, j :: 0 <= c < delay.Length0 && c != channel && 0 <= j < delay.Length1 ==>
        delay[c, j] == old(delay[c, j])
    {
      if delayBufferLength > bufferLength + writePos {
        CopyFromWithRamp(delay, channel, writePos, buffer, channel, 0, bufferLength, WriteGain, WriteGain);
      } else {
        var bufferRemaining := delayBufferLength - writePos;
        CopyFromWithRamp(delay, channel, writePos, buffer, channel, 0, bufferRemaining, WriteGain, WriteGain);
        CopyFromWithRamp(delay, channel, 0, buffer, channel, 0, bufferLength - bufferRemaining, WriteGain, WriteGain);
      }
      ghost var input := Row(buffer, channel)[..bufferLength];
      assert forall j :: 0 <= j < delayBufferLength ==>
        Row(delay, channel)[j] == FilledAsWritten(old(Row(delay, channel)), writePos, input)[j];
    }

    /**
     * fillDelayBuffer as it evidently should be: the second part of a split
     * copy continues with the block sample after the last one the first
     * part took, so the whole block lands on the ring.
     */
    method FillDelayBufferIntended(channel: int, bufferLength: int, delayBufferLength: int, buffer: array2<real>)
      requires buffer != delay
      requires 0 <= channel < delay.Length0 && channel < buffer.Length0
      requires delayBufferLength == delay.Length1 && 0 <= writePos < delayBufferLength
      requires 0 <= bufferLength <= delayBufferLength && bufferLength <= buffer.Length1
      modifies delay
      ensures Row(delay, channel) == FilledIntended(old(Row(delay, channel)), writePos, Row(buffer, channel)[..bufferLength])
      ensures forall c, j :: 0 <= c < delay.Length0 && c != channel && 0 <= j < delay.Length1 ==>
        delay[c, j] == old(delay[c, j])
    {
      if delayBufferLength > bufferLength + writePos {
        CopyFromWithRamp(delay, channel, writePos, buffer, channel, 0, bufferLength, WriteGain, WriteGain);
      } else {
        var bufferRemaining := delayBufferLength - writePos;
        CopyFromWithRamp(delay, channel, writePos, buffer, channel, 0, bufferRemaining, WriteGain, WriteGain);
        CopyFromWithRamp(delay, channel, 0, buffer, channel, bufferRemaining, bufferLength - bufferRemaining, WriteGain, WriteGain);
      }
      ghost var input := Row(buffer, channel)[..bufferLength];
      assert forall j :: 0 <= j < delayBufferLength ==>
        Row(delay, channel)[j] == FilledIntended(old(Row(delay, channel)), writePos, input)[j];
    }

    /**
     * getFromDelayBuffer: adds to one channel of the block the ring samples
     * that start half a second behind the cursor, reading around the end of
     * the ring when needed.  The ring and the rest of the block are untouched.
     */
    method GetFromDelayBuffer(buffer: array2<real>, channel: int, bufferLength: int, delayBufferLength: int)
      requires Valid() && buffer != delay
      requires 0 <= channel < delay.Length0 && channel < buffer.Length0
      requires delayBufferLength == delay.Length1
      requires 0 <= bufferLength <= delayBufferLength && bufferLength <= buffer.Length1
      modifies buffer
      ensures var r := ReadPosition(delayBufferLength, writePos, sampleRate);
        Row(buffer, channel)[..bufferLength]
        == Added(old(Row(buffer, channel))[..bufferLength], ReadWindow(Row(delay, channel), r, bufferLength))
      ensures forall c, i :: 0 <= c < buffer.Length0 && 0 <= i < buffer.Length1 && (c != channel || i >= bufferLength) ==>
        buffer[c, i] == old(buffer[c, i])
    {
      var readPosition := ReadPosition(delayBufferLength, writePos, sampleRate);
      if delayBufferLength > bufferLength + readPosition {
        AddFrom(buffer, channel, 0, delay, channel, readPosition, bufferLength);
      } else {
        var bufferRemaining := delayBufferLength - readPosition;
        AddFrom(buffer, channel, 0, delay, channel, readPosition, bufferRemaining);
        AddFrom(buffer, channel, bufferRemaining, delay, channel, 0, bufferLength - bufferRemaining);
      }
      ghost var window := ReadWindow(Row(delay, channel), readPosition, bufferLength);
      ReadWindowSplit(Row(delay, channel), readPosition, bufferLength);
      assert forall i :: 0 <= i < bufferLength ==>
        Row(buffer, channel)[..bufferLength][i] == Added(old(Row(buffer, channel))[..bufferLength], window)[i];
    }

    /**
     * The first step of processBlock: every output channel that has no
     * input channel is set to silence over the whole block.
     */
    static method ClearSurplusOutputs(buffer: array2<real>, totalNumInputChannels: int, totalNumOutputChannels: int)
      requires 0 <= totalNumInputChannels && totalNumOutputChannels <= buffer.Length0
      modifies buffer
      ensures forall c, j :: 0 <= c < buffer.Length0 && 0 <= j < buffer.Length1 ==>
        buffer[c, j] == if totalNumInputChannels <= c < totalNumOutputChannels then 0.0 else old(buffer[c, j])
    {
      var i := totalNumInputChannels;
      while i < totalNumOutputChannels
        invariant totalNumInputChannels <= i
        invariant i <= totalNumOutputChannels || i == totalNumInputChannels
        invariant forall c, j :: 0 <= c < buffer.Length0 && 0 <= j < buffer.Length1 ==>
          buffer[c, j] == if totalNumInputChannels <= c < i then 0.0 else old(buffer[c, j])
      {
        Clear(buffer, i, 0, buffer.Length1);
        i := i + 1;
      }
    }

    /**
     * processBlock: silences the output channels that have no input, then,
     * channel by channel, writes the block into the ring and adds the
     * delayed samples to it, every channel against the same cursor; finally
     * the cursor advances by one block around the ring.
     */
    method ProcessBlock(buffer: array2<real>, totalNumInputChannels: int, totalNumOutputChannels: int)
      requires Valid() && buffer != delay
      requires 0 <= totalNumInputChannels <= delay.Length0 && totalNumInputChannels <= buffer.Length0
      requires totalNumOutputChannels <= buffer.Length0
      requires buffer.Length1 <= delay.Length1
      modifies this, delay, buffer
      ensures Valid() && delay == old(delay) && sampleRate == old(sampleRate)
      ensures writePos == AdvancedCursor(old(writePos), buffer.Length1, delay.Length1)
      ensures forall ch :: 0 <= ch < totalNumInputChannels ==>
        Row(delay, ch) == FilledAsWritten(old(Row(delay, ch)), old(writePos), old(Row(buffer, ch)))
      ensures forall ch :: 0 <= ch < totalNumInputChannels ==>
        Row(buffer, ch) == Added(old(Row(buffer, ch)),
          ReadWindow(Row(delay, ch), ReadPosition(delay.Length1, old(writePos), sampleRate), buffer.Length1))
      ensures forall ch, i :: totalNumInputChannels <= ch < totalNumOutputChannels && 0 <= i < buffer.Length1 ==>
        buffer[ch, i] == 0.0
      ensures forall ch, i ::
        0 <= ch < buffer.Length0 && 0 <= i < buffer.Length1 && ch >= totalNumInputChannels && ch >= totalNumOutputChannels
        ==> buffer[ch, i] == old(buffer[ch, i])
      ensures forall ch, j :: totalNumInputChannels <= ch < delay.Length0 && 0 <= j < delay.Length1 ==>
        delay[ch, j] == old(delay[ch, j])
    {
      ClearSurplusOutputs(buffer, totalNumInputChannels, totalNumOutputChannels);

      var bufferLength := buffer.Length1;
      var delayBufferLength := delay.Length1;

      var channel := 0;
      while channel < totalNumInputChannels
        modifies delay, buffer
        invariant 0 <= channel <= totalNumInputChannels
        invariant Valid() && delayBufferLength == delay.Length1 && bufferLength == buffer.Length1
        invariant forall c :: 0 <= c < channel ==>
          Row(delay, c) == FilledAsWritten(old(Row(delay, c)), old(writePos), old(Row(buffer, c)))
        invariant forall c :: 0 <= c < channel ==>
          Row(buffer, c) == Added(old(Row(buffer, c)),
            ReadWindow(Row(delay, c), ReadPosition(delayBufferLength, old(writePos), sampleRate), bufferLength))
        invariant forall c, j :: channel <= c < delay.Length0 && 0 <= j < delayBufferLength ==>
          delay[c, j] == old(delay[c, j])
        invariant forall c, j :: 0 <= c < buffer.Length0 && 0 <= j < bufferLength && channel <= c ==>
          buffer[c, j] == if totalNumInputChannels <= c < totalNumOutputChannels then 0.0 else old(buffer[c, j])
      {
        assert Row(buffer, channel)[..bufferLength] == old(Row(buffer, channel));
        FillDelayBuffer(channel, bufferLength, delayBufferLength, buffer);
        GetFromDelayBuffer(buffer, channel, bufferLength, delayBufferLength);
        assert Row(buffer, channel) == Row(buffer, channel)[..bufferLength];
        channel := channel + 1;
      }

      writePos := AdvancedCursor(writePos, bufferLength, delayBufferLength);
    }
  }

  /**
   * Processor lifecycle showing that prepareToPlay does not reset the cursor:
   * a session at 192000 Hz with blocks of 2048 samples runs 44 blocks, then
   * the host prepares again at 44100 Hz with blocks of 512.  The new ring has
   * 89224 slots and the cursor is left at 90112, outside it.
   */
  method StaleCursorAfterReprepare() returns (writePos: int, delayBufferLength: int)
    ensures writePos == 90112 && delayBufferLength == 89224
    ensures writePos >= delayBufferLength
  {
    var p := new DelayProcessor();
    p.PrepareToPlay(192000, 2048, 1);
    var buffer := new real[1, 2048];
    var blocks := 0;
    while blocks < 44
      invariant 0 <= blocks <= 44
      invariant p.Valid() && p.delay.Length0 == 1 && p.delay.Length1 == 388096 && p.sampleRate == 192000
      invariant p.writePos == 2048 * blocks
      invariant fresh(p.delay) && buffer != p.delay
    {
      AdvancedCursorWrapsOnce(p.writePos, 2048, 388096);
      p.ProcessBlock(buffer, 1, 1);
      blocks := blocks + 1;
    }
    p.PrepareToPlay(44100, 512, 1);
    writePos, delayBufferLength := p.writePos, p.delay.Length1;
  }
}
