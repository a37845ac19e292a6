/**
 * The receive side of `ComPortApp`: the fields the receive thread and the
 * processing threads update, one pass of the receive loop, the loop itself,
 * and the payload processor.  A spawned processing thread is stood for by
 * the list `triggered` of frames handed to it.
 */
module ComPort {
  import opened Wrappers
  import opened Decoding
  import opened Reception
  import opened Payload

  class ComPortApp {
    /** `self.data_buffer` */
    var dataBuffer: seq<byte>
    /** The receive loop is still running (port open, no exception yet). */
    var receiving: bool
    /** Frames passed to a `process_hex_values` thread, in order. */
    var triggered: seq<seq<byte>>
    /** `self.graph_data_list`: the plotted sample series. */
    var graphDataList: seq<byte>
    /** The text of the voltage display. */
    var voltageLabel: string

    function State(): RxState
      reads this
    {
      RxState(dataBuffer, receiving, triggered)
    }

    ghost predicate Valid()
      reads this
    {
      Inv(State())
    }

    /** `__init__`, which empties `data_buffer`, followed by a successful
        `connect_to_receive_port`, which starts the receive thread.  The
        series `graph_data_list` is created empty on first use. */
    constructor ()
      ensures Valid()
      ensures State() == RxState([], true, [])
      ensures graphDataList == [] && voltageLabel == ""
    {
      dataBuffer := [];
      receiving := true;
      triggered := [];
      graphDataList := [];
      voltageLabel := "";
    }

    /** One pass of the body of the receive loop, for the bytes one read
        returned. */
    method ReceiveChunk(data: seq<byte>)
      requires Valid() && receiving
      modifies this`dataBuffer, this`receiving, this`triggered
      ensures Valid()
      ensures State() == Step(old(State()), data)
    {
      if data == [] {
        return;
      }
      var asciiData := AsciiDecode(data);
      var asciiChars := RemoveSpaces(asciiData);
      var concatenatedAscii := ConcatenatePairs(asciiChars);
      ghost var s0 := State();
      var hexValues, parsed := ExtendWithPairs(concatenatedAscii);
      DecodingUnique(concatenatedAscii, DecodeChunk(data), Decoded(hexValues, parsed));
      StepCases(s0, data, hexValues, parsed);
      if !parsed {
        // int(pair, 16) raised: the loop ends, the buffer keeps what it has
        receiving := false;
        return;
      }
      if |hexValues| <= SentinelIndex {
        // hex_values[6] raises before the sentinel test
        receiving := false;
        return;
      }
      if |hexValues| > 5 && hexValues[SentinelIndex] == Sentinel {
        triggered := triggered + [hexValues];
      }
      if |dataBuffer| >= BufferLimit {
        dataBuffer := [];
      }
    }

    /** The pair loop of one pass: each pair is parsed and appended to the
        chunk's values, and after each pair the values so far are appended
        to the buffer.  `parsed` is false when a pair raised. */
    method ExtendWithPairs(concatenatedAscii: seq<string>) returns (hexValues: seq<byte>, parsed: bool)
      modifies this`dataBuffer
      ensures IsDecodingOf(concatenatedAscii, Decoded(hexValues, parsed))
      ensures dataBuffer == old(dataBuffer) + Prefixes(hexValues)
    {
      hexValues := [];
      var i := 0;
      while i < |concatenatedAscii|
        invariant i <= |concatenatedAscii| && |hexValues| == i
        invariant forall j :: 0 <= j < i ==> ParsePair(concatenatedAscii[j]) == Some(hexValues[j])
        invariant dataBuffer == old(dataBuffer) + Prefixes(hexValues)
      {
        var hexValue := ParsePair(concatenatedAscii[i]);
        if hexValue.None? {
          return hexValues, false;
        }
        PrefixesSnoc(hexValues, hexValue.value);
        hexValues := hexValues + [hexValue.value];
        dataBuffer := dataBuffer + hexValues;
        i := i + 1;
      }
      parsed := true;
    }

    /** `receive_data`: read chunk after chunk while the loop runs.  The
        reads are given as `chunks`; `consumed` says how many were taken. */
    method ReceiveData(chunks: seq<seq<byte>>) returns (consumed: nat)
      requires Valid()
      modifies this`dataBuffer, this`receiving, this`triggered
      ensures Valid()
      ensures State() == Run(old(State()), chunks)
      ensures consumed <= |chunks| && (consumed < |chunks| ==> !receiving)
    {
      consumed := 0;
      while receiving && consumed < |chunks|
        invariant consumed <= |chunks| && Valid()
        invariant Run(State(), chunks[consumed..]) == Run(old(State()), chunks)
      {
        assert chunks[consumed..][1..] == chunks[consumed + 1..];
        ReceiveChunk(chunks[consumed]);
        consumed := consumed + 1;
      }
    }

    /** `process_hex_values`: a frame longer than 11 values contributes its
        value at index 11 to the series and to the display; every frame is
        split at its middle. */
    method ProcessHexValues(hexValues: seq<byte>) returns (firstPart: seq<byte>, secondPart: seq<byte>)
      modifies this`graphDataList, this`voltageLabel
      ensures |hexValues| > SampleIndex ==>
        && graphDataList == old(graphDataList) + [hexValues[SampleIndex]]
        && voltageLabel == VoltageLabel(hexValues[SampleIndex])
      ensures |hexValues| <= SampleIndex ==>
        graphDataList == old(graphDataList) && voltageLabel == old(voltageLabel)
      ensures firstPart + secondPart == hexValues && |firstPart| == |hexValues| / 2
    {
      if |hexValues| > SampleIndex {
        graphDataList := graphDataList + [hexValues[SampleIndex]];
        voltageLabel := VoltageLabel(hexValues[SampleIndex]);
      }
      var halves := SplitMiddle(hexValues);
      firstPart, secondPart := halves.0, halves.1;
    }
  }
}
