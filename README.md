# Circular-buffer delay: a Dafny model

This project models the audio engine of a small JUCE delay plugin
(`CircularBufferTutorialAudioProcessor`). The plugin keeps a delay buffer
with one ring of samples per input channel. All channels share one write
cursor. The sample rate is stored as an integer. For every audio block the
processor does four things:

1. It silences the output channels that have no input channel.
2. For each input channel, it copies the block into that channel's ring at
   the cursor, times a fixed gain of 0.8 (`fillDelayBuffer`).
3. It then adds to the block the ring samples that start a fixed 500 ms
   (`sampleRate * 500 / 1000` samples) behind the cursor, wrapping around
   the end of the ring (`getFromDelayBuffer`).
4. After all channels, it advances the cursor by one block modulo the ring
   size.

`prepareToPlay` sizes every ring to `2 * (sampleRate + samplesPerBlock)`
samples.

Modules:

- `CppInt`: C++ integer `/` and `%`, which truncate toward zero. Dafny's
  own operators are Euclidean.
- `DelayMath`: the index arithmetic. It covers the ring size, the
  lookbehind, the read position and the cursor advance.
- `RingSpec`: one channel's ring as a `seq<real>`. It defines what one
  block write and one block read do to it, and proves lemmas about them.
  It gives the write twice: as the code does it (`FilledAsWritten`) and as
  it is evidently meant (`FilledIntended`).
- `AudioBuffer`: the three JUCE buffer operations the processor calls
  (`copyFromWithRamp`, `addFrom`, `clear`). Each is a loop over an
  `array2<real>` indexed by channel and sample.
- `Processor`: the class `DelayProcessor`. Its fields are `delay`
  (`nDelayBuffer`), `writePos` (`nWritePosition`) and `sampleRate`
  (`mSampleRate`). Its methods mirror `prepareToPlay`, `fillDelayBuffer`,
  `getFromDelayBuffer` and `processBlock`. Each method's `ensures` ties the
  new contents of the arrays to the `RingSpec` functions of the old
  contents.

`processBlock` models the source as written. Its write is `FilledAsWritten`,
including the wrapped-write defect described under "## Findings". The
corrected write, `FillDelayBufferIntended`, stands next to it with its
round-trip property proved. Swapping it into `ProcessBlock` would no longer
model the plugin.

## Model

| member | source | states |
|---|---|---|
| CppInt.Div | Source/PluginProcessor.cpp:185 | C++ `/`: the quotient's magnitude is the quotient of the magnitudes, and it is negative only when the operand signs differ |
| CppInt.Rem | Source/PluginProcessor.cpp:185 | C++ `%`: the remainder's magnitude is the remainder of the magnitudes, and it takes the dividend's sign, so a negative dividend gives a remainder in `(-|b|, 0]` |
| CppInt.AgreeOnNonNegative | Source/PluginProcessor.cpp:160 | on a non-negative dividend and a positive divisor, C++ `/` and `%` equal Dafny's |
| DelayMath.LookbehindSamples | Source/PluginProcessor.cpp:184-185 | `mSampleRate * 500 / 1000` is half the sample rate, rounded down, for a non-negative rate |
| DelayMath.HalfSecondIsHalfTheRate | Source/PluginProcessor.cpp:184-185 | the C++ integer expression for 500 ms of samples equals `sampleRate / 2` |
| DelayMath.DelayBufferSize | Source/PluginProcessor.cpp:97 | the capacity `2 * (sampleRate + samplesPerBlock)` is at least the lookbehind plus one block, and strictly more (and positive) when rate plus block size is positive |
| DelayMath.ReadPosition | Source/PluginProcessor.cpp:185 | the read position is a valid ring index whenever the cursor is non-negative and the lookbehind is at most one ring |
| DelayMath.ReadPositionTrailsCursor | Source/PluginProcessor.cpp:184-185 | with `0 <= W < D` and `0 <= L <= D`, the read position is `W - L` if that is non-negative and `W - L + D` otherwise; moving `L` forward from it returns to the cursor |
| DelayMath.AdvancedCursor | Source/PluginProcessor.cpp:159-160 | the advanced cursor lies in `[0, D)` whenever `W + len` is non-negative |
| DelayMath.AdvancedCursorWrapsOnce | Source/PluginProcessor.cpp:159-160 | with `0 <= W < D` and `len <= D`, the new cursor is `W + len`, or `W + len - D` when that reaches the end |
| RingSpec.FilledAsWrittenWithoutWrap | Source/PluginProcessor.cpp:167-170 | when `D > len + W`, the ring after the write is the old prefix, then the scaled block, then the old suffix; every other slot is unchanged |
| RingSpec.FilledAsWrittenWithWrap | Source/PluginProcessor.cpp:172-177 | when `W + len >= D`, the ring becomes `0.8*input[..len-(D-W)]`, then the old slots `[len-(D-W), W)`, then `0.8*input[..D-W]`; the head copy starts again at input sample 0 |
| RingSpec.FilledAsWrittenAtBoundary | Source/PluginProcessor.cpp:167-177 | when `W + len == D`, the wrapping branch gives the non-wrapping result `old[..W] + 0.8*input` |
| RingSpec.ReadBackAsWritten | Source/PluginProcessor.cpp:172-177 | reading `len` samples back from `W` after the code's write gives `0.8*input[i]` for `i < D-W`, and `0.8*input[i-(D-W)]` after that |
| RingSpec.FilledAsWrittenRoundTripIff | Source/PluginProcessor.cpp:164-180 | reading the block back from the cursor gives the scaled input if and only if `input[j] == input[j + D - W]` for every `j < len - (D - W)` |
| RingSpec.FilledIntendedWithWrap | Source/PluginProcessor.cpp:172-177 | the corrected wrapped write leaves `0.8*input[D-W..]`, then the old slots `[len-(D-W), W)`, then `0.8*input[..D-W]` |
| RingSpec.FilledIntendedRoundTrip | Source/PluginProcessor.cpp:172-177 | after the corrected write, reading `len` samples from the cursor around the ring always gives exactly the scaled block |
| RingSpec.FilledIntendedKeepsRest | Source/PluginProcessor.cpp:172-177 | the corrected write changes no slot outside the block's window `[W, W + len)` taken around the ring |
| RingSpec.AsWrittenIsIntendedWithoutWrap | Source/PluginProcessor.cpp:167-177 | when `W + len <= D`, the code's write and the corrected write agree |
| RingSpec.IntendedWrapAtMidpoint | Source/PluginProcessor.cpp:172-177 | ring of 4, cursor 2, block `[1,2,3,4]`: the corrected write leaves `0.8*[3,4,1,2]`, which reads back from 2 as `0.8*[1,2,3,4]` |
| RingSpec.AsWrittenWrapAtMidpoint | Source/PluginProcessor.cpp:176 | the same write as coded leaves `0.8*[1,2,1,2]`, which does not read back as the scaled block |
| RingSpec.ReadWindowSplit | Source/PluginProcessor.cpp:187-196 | the window read around the ring from `R` is `ring[R..R+len]` when `D > len + R`, and otherwise `ring[R..]` followed by `ring[..len-(D-R)]` |
| RingSpec.ReadMissesBlockJustWritten | Source/PluginProcessor.cpp:149-157 | if a block is no longer than the lookbehind `L` and `L + len <= D`, the window `L` samples behind the cursor is the same before and after the write, so writing before reading on a channel does not change what is read |
| AudioBuffer.CopyFromWithRamp | Source/PluginProcessor.cpp:169 | overwrites `numSamples` slots of one channel with source samples times a linear gain ramp; every other slot and channel is unchanged |
| AudioBuffer.AddFrom | Source/PluginProcessor.cpp:189-195 | adds `numSamples` source samples into one channel from the start slot on; everything else is unchanged |
| AudioBuffer.Clear | Source/PluginProcessor.cpp:142 | zeroes a stretch of one channel; everything else is unchanged |
| Processor.DelayProcessor.constructor | Source/PluginProcessor.h:72-77 | a new processor has an empty delay buffer, cursor 0 and sample rate 44100, so it cannot process yet |
| Processor.DelayProcessor.PrepareToPlay | Source/PluginProcessor.cpp:94-100 | the delay buffer gets one row per input channel and `2*(sampleRate+samplesPerBlock)` slots; it keeps its storage and contents when the size is unchanged and is freshly allocated otherwise; the sample rate is stored and the cursor kept, so the processor is ready exactly when the old cursor is inside the new ring |
| Processor.DelayProcessor.PrepareToPlayResettingCursor | Source/PluginProcessor.cpp:94-100 | corrected prepare: the same sizing, with the cursor reset to 0, so the processor is always ready afterwards |
| Processor.DelayProcessor.FillDelayBuffer | Source/PluginProcessor.cpp:164-180 | the channel's ring becomes `FilledAsWritten(old ring, W, block)`; other channels are unchanged |
| Processor.DelayProcessor.FillDelayBufferIntended | Source/PluginProcessor.cpp:172-177 | corrected write: the channel's ring becomes `FilledIntended(old ring, W, block)`; other channels are unchanged |
| Processor.DelayProcessor.GetFromDelayBuffer | Source/PluginProcessor.cpp:182-197 | the channel's block becomes `old block + ReadWindow(ring, R, len)`, with `R` the read position; the ring, other channels and samples past the block are unchanged |
| Processor.DelayProcessor.ClearSurplusOutputs | Source/PluginProcessor.cpp:141-142 | output channels in `[numIn, numOut)` become silent over the whole block; the other channels are unchanged |
| Processor.DelayProcessor.ProcessBlock | Source/PluginProcessor.cpp:134-162 | every input channel is written and then read against the old cursor; surplus outputs are silenced; untouched channels are unchanged; the cursor becomes `(oldW + len) % D`, and validity is kept |
| Processor.StaleCursorAfterReprepare | Source/PluginProcessor.cpp:94-100 | 44 blocks of 2048 at 192000 Hz, then a re-prepare at 44100 Hz with blocks of 512, leave the cursor at 90112 in a ring of 89224 slots |

## Left out

- Feedback, the wobble LFO, the dry/wet mixer and mix smoothing are not modelled. They are declared at Source/PluginProcessor.h:68-81 but never defined or used. The plugin has no such behaviour, so the model follows the code.
- Parameters are not modelled. The delay time is the constant 500 ms and the gain is the constant 0.8, both fixed in Source/PluginProcessor.cpp. The parameter tree is never read.
- Host wiring is not modelled: the constructor's bus setup, name, MIDI flags, tail length, programs, `releaseResources`, `hasEditor`, `createEditor` and `createPluginFilter`. These are constant returns or framework wiring.
- `isBusesLayoutSupported` is not modelled. It compares JUCE channel sets whose definitions are not part of this model.
- `getStateInformation` and `setStateInformation` are not modelled. Their bodies are empty.
- The editor is not modelled. It is user interface only.
- The MIDI buffer argument of `processBlock` is not modelled. It is unused.
- Samples are `real`, so float rounding, denormals (`ScopedNoDenormals`) and NaN are not modelled.
- `prepareToPlay` receives the sample rate as a `double` and truncates it to `int` at Source/PluginProcessor.cpp:97-98. The model takes the rate and the block size as integers, so it does not model that truncation.
- Integers are unbounded. 32-bit overflow of `mSampleRate * 500` (sample rates above about 4.29 MHz) and of the position sums is not modelled.
- The contents of a newly allocated delay buffer are left unspecified. JUCE does not clear them.
- The channel counts `getTotalNumInputChannels()` and `getTotalNumOutputChannels()` are modelled as parameters of `ProcessBlock`. They come from the host.
- `buffer != delay` is a precondition. The host's buffer and the delay buffer are distinct objects, so aliasing between them is not modelled.
- ProcessBlock: the block length must not exceed the ring size. JUCE hosts deliver at most `samplesPerBlock` samples, and the ring is larger than that. A longer block would make the code copy outside the ring.
- ProcessBlock: `Valid()` is required, meaning the cursor lies inside the ring. After a re-prepare this need not hold; see the findings.
- AudioBuffer.CopyFromWithRamp: JUCE's ramp is modelled as exact linear interpolation. The source only ever passes equal start and end gains (0.8 and 0.8).
- The engine's design description differs from the code in three places, and the model follows the code each time. The description has a gain ramp between blocks; the code uses a constant gain. The description rounds the read position; the code truncates it to an integer. The description resets the cursor on reconfiguration; the code keeps it.

## Findings

| source | as written | input that shows it | evidently intended | confidence | as-written member | corrected member |
|---|---|---|---|---|---|---|
| Source/PluginProcessor.cpp:176 | The second sub-copy of a wrapped write reads from `bufferData`, which is input sample 0. | Ring of 4 slots, cursor 2, block `[1,2,3,4]`: the ring becomes `0.8*[1,2,1,2]`, and samples 3 and 4 are lost. | Read from `bufferData + bufferRemaining`, so the ring becomes `0.8*[3,4,1,2]` and reads back as the scaled block. | high; not executed | RingSpec.AsWrittenWrapAtMidpoint | RingSpec.FilledIntendedRoundTrip |
| Source/PluginProcessor.cpp:94-100 | `prepareToPlay` resizes the ring but keeps `nWritePosition`. | 44 blocks of 2048 samples at 192000 Hz, then a re-prepare at 44100 Hz with blocks of 512: the cursor is 90112 but the ring has 89224 slots, so the next write computes a negative `bufferRemaining`. | Reset the cursor to 0 when the ring is resized. | medium; not executed | Processor.StaleCursorAfterReprepare | Processor.DelayProcessor.PrepareToPlayResettingCursor |
