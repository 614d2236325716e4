/**
 * The delay buffer of one channel as a sequence of samples, and what one
 * block write (fillDelayBuffer) and one block read (getFromDelayBuffer) do
 * to it.  These functions specify the methods of the processor; the lemmas
 * state what the write and the read mean on the ring.
 *
 * The write is given twice: FilledAsWritten is what the code does, where
 * the second sub-copy of a wrapped write starts again at the first input
 * sample; FilledIntended is the ring write the code evidently means, where
 * it continues with the input sample after the last one the first sub-copy
 * took.
 */
module RingSpec {
  import opened DelayMath

  /** The block as it is stored in the ring: every sample times the write gain. */
  function Scaled(input: seq<real>): (r: seq<real>)
    ensures |r| == |input|
    ensures forall i :: 0 <= i < |input| ==> r[i] == WriteGain * input[i]
  {
    seq(|input|, i requires 0 <= i < |input| => WriteGain * input[i])
  }

  /** A block may be written at cursor `w` of a ring of `d` samples. */
  ghost predicate Fits(w: int, d: int, len: int)
  {
    0 <= w < d && 0 <= len <= d
  }

  /**
   * Which input sample fillDelayBuffer, as written, stores at ring index
   * `j`; -1 when index `j` is left as it was.  Without a wrap
   * (`d > len + w`) the block lands on `[w, w + len)`; with a wrap the
   * first sub-copy fills `[w, d)` from input sample 0 on and the second
   * fills `[0, len - (d - w))` again from input sample 0 on.
   */
  function SourceIndexAsWritten(j: int, w: int, d: int, len: int): (k: int)
    requires Fits(w, d, len) && 0 <= j < d
    ensures -1 <= k < len
  {
    if d > len + w then
      if w <= j < w + len then j - w else -1
    else if w <= j then j - w
    else if j < len - (d - w) then j
    else -1
  }

  /**
   * Which input sample a ring write stores at index `j` when the second
   * sub-copy continues where the first one stopped.
   */
  function SourceIndexIntended(j: int, w: int, d: int, len: int): (k: int)
    requires Fits(w, d, len) && 0 <= j < d
    ensures -1 <= k < len
  {
    if d > len + w then
      if w <= j < w + len then j - w else -1
    else if w <= j then j - w
    else if j < len - (d - w) then j + (d - w)
    else -1
  }

  /** One channel of the delay buffer after fillDelayBuffer, as written. */
  function FilledAsWritten(row: seq<real>, w: int, input: seq<real>): (r: seq<real>)
    requires Fits(w, |row|, |input|)
    ensures |r| == |row|
  {
    seq(|row|, j requires 0 <= j < |row| =>
      var k := SourceIndexAsWritten(j, w, |row|, |input|);
      if k < 0 then row[j] else WriteGain * input[k])
  }

  /** One channel of the delay buffer after the intended ring write. */
  function FilledIntended(row: seq<real>, w: int, input: seq<real>): (r: seq<real>)
    requires Fits(w, |row|, |input|)
    ensures |r| == |row|
  {
    seq(|row|, j requires 0 <= j < |row| =>
      var k := SourceIndexIntended(j, w, |row|, |input|);
      if k < 0 then row[j] else WriteGain * input[k])
  }

  /**
   * A position at most one ring past the end, brought back into the ring:
   * `x % d` for `x` in `[0, 2 * d)`.
   */
  function RingIndex(x: int, d: int): (k: int)
    requires 0 <= x < 2 * d
    ensures 0 <= k < d && (k == x || k == x - d)
  {
    if x < d then x else x - d
  }

  /** `len` samples of the ring starting at index `r`, wrapping at the end. */
  function ReadWindow(row: seq<real>, r: int, len: int): (s: seq<real>)
    requires 0 <= r < |row| && 0 <= len <= |row|
    ensures |s| == len
  {
    seq(len, i requires 0 <= i < len => row[RingIndex(r + i, |row|)])
  }

  /** The output block after the delayed samples have been added to it. */
  function Added(out: seq<real>, delayed: seq<real>): (s: seq<real>)
    requires |out| == |delayed|
    ensures |s| == |out|
  {
    seq(|out|, i requires 0 <= i < |out| => out[i] + delayed[i])
  }

  // ---------------------------------------------------------------------
  // The write as the code does it
  // ---------------------------------------------------------------------

  /**
   * Without a wrap the block, scaled, replaces `[w, w + len)` and nothing
   * else changes.
   */
  lemma FilledAsWrittenWithoutWrap(row: seq<real>, w: int, input: seq<real>)
    requires Fits(w, |row|, |input|) && w + |input| < |row|
    ensures FilledAsWritten(row, w, input) == row[..w] + Scaled(input) + row[w + |input|..]
  {
  }

  /**
   * With a wrap the tail `[w, d)` receives the first `d - w` scaled input
   * samples, and the head `[0, len - (d - w))` receives the first
   * `len - (d - w)` scaled input samples once more; the input samples from
   * index `d - w` on are never stored.  The part in between is unchanged.
   */
  lemma FilledAsWrittenWithWrap(row: seq<real>, w: int, input: seq<real>)
    requires Fits(w, |row|, |input|) && w + |input| >= |row|
    ensures var tail, head := |row| - w, |input| - (|row| - w);
      FilledAsWritten(row, w, input) == Scaled(input)[..head] + row[head..w] + Scaled(input)[..tail]
  {
  }

  /**
   * At the boundary `w + len == d` the code takes the wrapping branch, but
   * its second sub-copy is empty, so the result is the non-wrapping one.
   */
  lemma FilledAsWrittenAtBoundary(row: seq<real>, w: int, input: seq<real>)
    requires Fits(w, |row|, |input|) && w + |input| == |row|
    ensures FilledAsWritten(row, w, input) == row[..w] + Scaled(input)
  {
  }

  /**
   * Reading the block back from the cursor after the code's write: the
   * first `d - w` samples are the scaled input, each later one is the scaled
   * input sample `d - w` places earlier.
   */
  lemma ReadBackAsWritten(row: seq<real>, w: int, input: seq<real>, i: int)
    requires Fits(w, |row|, |input|) && 0 <= i < |input|
    ensures var shift := |row| - w;
      ReadWindow(FilledAsWritten(row, w, input), w, |input|)[i]
      == if i < shift then WriteGain * input[i] else WriteGain * input[i - shift]
  {
    var j := RingIndex(w + i, |row|);
    if i < |row| - w {
      assert j == w + i;
    } else {
      assert j == w + i - |row|;
      assert SourceIndexAsWritten(j, w, |row|, |input|) == i - (|row| - w);
    }
  }

  /**
   * Reading the block back from the cursor returns the scaled input exactly
   * when every input sample the second sub-copy should have taken equals
   * the one it took instead, the sample `d - w` places earlier.  Without a
   * wrap (or at the boundary) the condition is empty.
   */
  lemma FilledAsWrittenRoundTripIff(row: seq<real>, w: int, input: seq<real>)
    requires Fits(w, |row|, |input|)
    ensures var shift := |row| - w;
      ReadWindow(FilledAsWritten(row, w, input), w, |input|) == Scaled(input)
      <==> (forall j :: 0 <= j < |input| - shift ==> input[j] == input[j + shift])
  {
    var len, shift := |input|, |row| - w;
    var back := ReadWindow(FilledAsWritten(row, w, input), w, len);
    var scaled := Scaled(input);
    if back == scaled {
      forall j | 0 <= j < len - shift ensures input[j] == input[j + shift] {
        ReadBackAsWritten(row, w, input, j + shift);
        assert back[j + shift] == scaled[j + shift];
      }
    }
    if forall j :: 0 <= j < len - shift ==> input[j] == input[j + shift] {
      forall i | 0 <= i < len ensures back[i] == scaled[i] {
        ReadBackAsWritten(row, w, input, i);
        if i >= shift {
          assert input[i - shift] == input[i - shift + shift];
        }
      }
    }
  }

  // ---------------------------------------------------------------------
  // The intended ring write
  // ---------------------------------------------------------------------

  /**
   * With a wrap the intended write puts the last `len - (d - w)` scaled
   * input samples at the head of the ring and the first `d - w` at the tail.
   */
  lemma FilledIntendedWithWrap(row: seq<real>, w: int, input: seq<real>)
    requires Fits(w, |row|, |input|) && w + |input| >= |row|
    ensures var tail, head := |row| - w, |input| - (|row| - w);
      FilledIntended(row, w, input) == Scaled(input)[tail..] + row[head..w] + Scaled(input)[..tail]
  {
  }

  /** Reading a block back from the cursor returns the block the intended write stored. */
  lemma FilledIntendedRoundTrip(row: seq<real>, w: int, input: seq<real>)
    requires Fits(w, |row|, |input|)
    ensures ReadWindow(FilledIntended(row, w, input), w, |input|) == Scaled(input)
  {
    var d, shift := |row|, |row| - w;
    var back := ReadWindow(FilledIntended(row, w, input), w, |input|);
    forall i | 0 <= i < |input| ensures back[i] == Scaled(input)[i] {
      var j := RingIndex(w + i, d);
      if i < shift {
        assert j == w + i;
      } else {
        assert j == w + i - d;
        assert SourceIndexIntended(j, w, d, |input|) == i;
      }
    }
  }

  /**
   * The intended write leaves every sample outside the block's window
   * `[w, w + len)` (taken around the ring) as it was.
   */
  lemma FilledIntendedKeepsRest(row: seq<real>, w: int, input: seq<real>, j: int)
    requires Fits(w, |row|, |input|) && 0 <= j < |row|
    requires RingIndex(j - w + |row|, |row|) >= |input|
    ensures FilledIntended(row, w, input)[j] == row[j]
  {
  }

  /** Where the code takes the non-wrapping branch, or wraps with an empty second copy, it does the intended write. */
  lemma AsWrittenIsIntendedWithoutWrap(row: seq<real>, w: int, input: seq<real>)
    requires Fits(w, |row|, |input|) && w + |input| <= |row|
    ensures FilledAsWritten(row, w, input) == FilledIntended(row, w, input)
  {
  }

  /**
   * Four samples `[1, 2, 3, 4]` written at index 2 of a ring of 4: the
   * intended write leaves `0.8 * [3, 4, 1, 2]`, which reads back from
   * index 2 as `0.8 * [1, 2, 3, 4]`.
   */
  lemma IntendedWrapAtMidpoint(row: seq<real>)
    requires |row| == 4
    ensures FilledIntended(row, 2, [1.0, 2.0, 3.0, 4.0]) == [2.4, 3.2, 0.8, 1.6]
    ensures ReadWindow(FilledIntended(row, 2, [1.0, 2.0, 3.0, 4.0]), 2, 4) == [0.8, 1.6, 2.4, 3.2]
  {
    var input := [1.0, 2.0, 3.0, 4.0];
    FilledIntendedWithWrap(row, 2, input);
    assert Scaled(input) == [0.8, 1.6, 2.4, 3.2];
    FilledIntendedRoundTrip(row, 2, input);
  }

  /**
   * The same write as the code does it leaves `0.8 * [1, 2, 1, 2]`, which
   * does not read back as the scaled input.
   */
  lemma AsWrittenWrapAtMidpoint(row: seq<real>)
    requires |row| == 4
    ensures FilledAsWritten(row, 2, [1.0, 2.0, 3.0, 4.0]) == [0.8, 1.6, 0.8, 1.6]
    ensures ReadWindow(FilledAsWritten(row, 2, [1.0, 2.0, 3.0, 4.0]), 2, 4) != Scaled([1.0, 2.0, 3.0, 4.0])
  {
    var input := [1.0, 2.0, 3.0, 4.0];
    FilledAsWrittenWithWrap(row, 2, input);
    assert Scaled(input) == [0.8, 1.6, 2.4, 3.2];
    FilledAsWrittenRoundTripIff(row, 2, input);
    assert input[0] != input[0 + 2];
  }

  // ---------------------------------------------------------------------
  // The read
  // ---------------------------------------------------------------------

  /**
   * getFromDelayBuffer reads the window in one piece when `d > len + r`,
   * and otherwise as the tail `[r, d)` followed by the head
   * `[0, len - (d - r))`; both are the window around the ring.
   */
  lemma ReadWindowSplit(row: seq<real>, r: int, len: int)
    requires 0 <= r < |row| && 0 <= len <= |row|
    ensures ReadWindow(row, r, len) ==
      if |row| > len + r then row[r..r + len] else row[r..] + row[..len - (|row| - r)]
  {
    var d := |row|;
    var lhs := ReadWindow(row, r, len);
    var rhs := if d > len + r then row[r..r + len] else row[r..] + row[..len - (d - r)];
    forall i | 0 <= i < len ensures lhs[i] == rhs[i] {
      var j := RingIndex(r + i, d);
      if r + i < d {
        assert j == r + i;
      } else {
        assert j == r + i - d;
        assert rhs[i] == row[..len - (d - r)][i - (d - r)];
      }
    }
  }

  /**
   * When a block is no longer than the lookbehind `l` and the lookbehind
   * plus one block fits the ring, the window read `l` samples behind the
   * cursor does not meet the window fillDelayBuffer has just written: the
   * read returns what the ring held before the write.
   */
  lemma ReadMissesBlockJustWritten(row: seq<real>, w: int, input: seq<real>, l: int)
    requires Fits(w, |row|, |input|)
    requires |input| <= l && l + |input| <= |row|
    ensures var r := if w >= l then w - l else w - l + |row|;
      && 0 <= r < |row|
      && ReadWindow(FilledAsWritten(row, w, input), r, |input|) == ReadWindow(row, r, |input|)
  {
    var d, len := |row|, |input|;
    var r := if w >= l then w - l else w - l + d;
    var written := FilledAsWritten(row, w, input);
    forall i | 0 <= i < len
      ensures ReadWindow(written, r, len)[i] == ReadWindow(row, r, len)[i]
    {
      var j := RingIndex(r + i, d);
      if r + i < d {
        assert j == r + i;
      } else {
        assert j == r + i - d;
      }
      assert SourceIndexAsWritten(j, w, d, len) == -1;
    }
  }
}
