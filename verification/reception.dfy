/**
 * The receive loop of the console as a state machine over values.  One step
 * is one non-empty read from the receive port: the chunk is decoded, the
 * accumulation buffer grows by every prefix of the decoded values, the value
 * at index 6 is compared with the sentinel, and the buffer is emptied once
 * it holds 200 values or more.
 *
 * Two faults end the loop: a pair that is not hexadecimal (the parse raises
 * part-way through the pair loop, after the buffer has already grown by the
 * prefixes decoded before it) and a chunk of fewer than seven values (the
 * unconditional read of index 6 raises before the sentinel test).  In both
 * cases the buffer reset is skipped and no frame is triggered.
 */
module Reception {
  import opened Wrappers
  import opened Decoding

  /** Value that marks a frame, and where it must stand. */
  const Sentinel: byte := 0xAB
  const SentinelIndex: nat := 6
  /** The buffer is emptied when it reaches this many values. */
  const BufferLimit: nat := 200

  /** `data_buffer`, whether the loop is still running, and the frames
      handed to `process_hex_values` so far (one thread each). */
  datatype RxState = RxState(buffer: seq<byte>, running: bool, frames: seq<seq<byte>>)

  predicate IsSentinelFrame(frame: seq<byte>) {
    |frame| > SentinelIndex && frame[SentinelIndex] == Sentinel
  }

  /** What the loop keeps true while it runs: every triggered frame carries
      the sentinel, and a running loop has a buffer below the limit. */
  predicate Inv(s: RxState) {
    && (forall i :: 0 <= i < |s.frames| ==> IsSentinelFrame(s.frames[i]))
    && (s.running ==> |s.buffer| < BufferLimit)
  }

  /** One pass of the loop body for the chunk `data` returned by a read. */
  function Step(s: RxState, data: seq<byte>): (t: RxState)
    ensures data == [] ==> t == s
    ensures s.frames <= t.frames && |t.frames| <= |s.frames| + 1
    ensures t.running ==> s.running || data == []
    ensures s.buffer <= t.buffer || t.buffer == []
  {
    if data == [] then s  // `if data:` skips an empty read
    else
      var d := DecodeChunk(data);
      var grown := s.buffer + Prefixes(d.values);
      if !d.complete then
        s.(buffer := grown, running := false)          // int(pair, 16) raised
      else if |d.values| <= SentinelIndex then
        s.(buffer := grown, running := false)          // hex_values[6] raised
      else
        var frames :=
          if |d.values| > 5 && d.values[SentinelIndex] == Sentinel
          then s.frames + [d.values] else s.frames;
        s.(buffer := if |grown| >= BufferLimit then [] else grown, frames := frames)
  }

  /** Step by cases on the decode of a non-empty chunk. */
  lemma StepCases(s: RxState, data: seq<byte>, values: seq<byte>, complete: bool)
    requires data != [] && DecodeChunk(data) == Decoded(values, complete)
    ensures !complete || |values| <= SentinelIndex ==>
      Step(s, data) == s.(buffer := s.buffer + Prefixes(values), running := false)
    ensures complete && |values| > SentinelIndex ==>
      var grown := s.buffer + Prefixes(values);
      Step(s, data) == s.(buffer := if |grown| >= BufferLimit then [] else grown,
                          frames := if values[SentinelIndex] == Sentinel then s.frames + [values] else s.frames)
  {
  }

  /** The loop over the successive reads, until it stops or the reads end. */
  function Run(s: RxState, chunks: seq<seq<byte>>): (t: RxState)
    ensures s.frames <= t.frames
    ensures !s.running ==> t == s
    decreases |chunks|
  {
    if chunks == [] || !s.running then s else Run(Step(s, chunks[0]), chunks[1..])
  }

  /** Buffer growth for one chunk of k values: k(k+1)/2 values are added
      after the old contents.  A loop that survives the chunk has fewer than
      200 values: either the grown buffer, if short enough, or nothing. */
  lemma StepBuffer(s: RxState, data: seq<byte>)
    requires s.running && data != []
    ensures var d := DecodeChunk(data); var k := |d.values|; var t := Step(s, data);
      && (!t.running ==>
            && t.buffer == s.buffer + Prefixes(d.values)
            && 2 * (|t.buffer| - |s.buffer|) == k * (k + 1))
      && (t.running ==>
            && |t.buffer| < BufferLimit
            && (2 * |s.buffer| + k * (k + 1) >= 2 * BufferLimit ==> t.buffer == [])
            && (2 * |s.buffer| + k * (k + 1) < 2 * BufferLimit ==> t.buffer == s.buffer + Prefixes(d.values)))
  {
    TriangleClosedForm(|DecodeChunk(data).values|);
  }

  /** The loop stops exactly when a pair is not hexadecimal or the chunk has
      fewer than seven pairs; when it stops nothing is triggered and the old
      buffer contents are kept, not reset. */
  lemma StepStops(s: RxState, data: seq<byte>)
    requires s.running && data != []
    ensures var chars := RemoveSpaces(AsciiDecode(data)); var t := Step(s, data);
      !t.running <==>
        (|chars| / 2 <= SentinelIndex
         || exists i :: 0 <= i < |chars| / 2 && ParsePair(chars[2 * i .. 2 * i + 2]).None?)
    ensures var t := Step(s, data);
      !t.running ==> t.frames == s.frames && s.buffer <= t.buffer
  {
    DecodeChunkFault(data);
  }

  /** A frame is triggered, once and with the decoded values of the chunk,
      exactly when every pair is hexadecimal, there are at least seven of
      them, and the seventh pair reads 0xAB. */
  lemma StepTriggers(s: RxState, data: seq<byte>)
    ensures var chars := RemoveSpaces(AsciiDecode(data)); var t := Step(s, data);
      && (t.frames == s.frames || t.frames == s.frames + [DecodeChunk(data).values])
      && (|t.frames| == |s.frames| + 1 <==>
            && |chars| / 2 > SentinelIndex
            && (forall i :: 0 <= i < |chars| / 2 ==> ParsePair(chars[2 * i .. 2 * i + 2]).Some?)
            && ParsePair(chars[2 * SentinelIndex .. 2 * SentinelIndex + 2]) == Some(Sentinel))
  {
    DecodeChunkFault(data);
  }

  /** End to end: a chunk carrying the space-separated hex text of a frame
      with the sentinel at index 6 keeps the loop running and triggers
      exactly that frame. */
  lemma EncodedFrameTriggers(s: RxState, frame: seq<byte>)
    requires s.running && IsSentinelFrame(frame)
    ensures var t := Step(s, AsciiEncode(HexText(frame)));
      t.running && t.frames == s.frames + [frame]
  {
    var data := AsciiEncode(HexText(frame));
    ChunkRoundTrip(frame);
    StepCases(s, data, frame, true);
  }

  lemma StepKeepsInv(s: RxState, data: seq<byte>)
    requires Inv(s) && s.running
    ensures Inv(Step(s, data))
  {
    var t := Step(s, data);
    if data == [] {
      return;
    }
    var d := DecodeChunk(data);
    StepCases(s, data, d.values, d.complete);
    var grown := s.buffer + Prefixes(d.values);
    assert t.buffer == grown || t.buffer == [] || !t.running;
    assert t.frames == s.frames || (t.frames == s.frames + [d.values] && IsSentinelFrame(d.values));
    forall i | 0 <= i < |t.frames|
      ensures IsSentinelFrame(t.frames[i])
    {
      if i < |s.frames| {
        assert t.frames[i] == s.frames[i];
      }
    }
  }

  /** The loop keeps its invariant over any sequence of reads. */
  lemma {:induction false} RunKeepsInv(s: RxState, chunks: seq<seq<byte>>)
    requires Inv(s)
    ensures Inv(Run(s, chunks))
    decreases |chunks|
  {
    if chunks != [] && s.running {
      StepKeepsInv(s, chunks[0]);
      RunKeepsInv(Step(s, chunks[0]), chunks[1..]);
    }
  }
}
