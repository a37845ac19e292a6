/**
 * The pure parts of `process_hex_values`: the display text for a telemetry
 * sample and the split of a frame at its middle.
 */
module Payload {
  import opened Wrappers
  import opened Decoding
  import opened Numerals

  /** Offset of the telemetry sample in a frame. */
  const SampleIndex: nat := 11

  /** `f"{v} V"`: the sample in decimal, a space and the unit. */
  function VoltageLabel(v: byte): (text: string)
    ensures |text| >= 3 && text[|text| - 2..] == " V"
    ensures AllDigits(text[..|text| - 2])
  {
    DecimalString(v as nat) + " V"
  }

  /** Reads the sample back from a label of the form "<digits> V". */
  function ReadVoltageLabel(text: string): Option<nat> {
    if |text| >= 3 && text[|text| - 2..] == " V" && AllDigits(text[..|text| - 2])
    then Some(DecimalValue(text[..|text| - 2]))
    else None
  }

  /** The label shows exactly the sample: reading it back gives the value. */
  lemma VoltageLabelRoundTrip(v: byte)
    ensures ReadVoltageLabel(VoltageLabel(v)) == Some(v as nat)
  {
    var text := VoltageLabel(v);
    assert text[..|text| - 2] == DecimalString(v as nat);
    DecimalRoundTrip(v as nat);
  }

  /** `hex_values[:len // 2]` and `hex_values[len // 2:]`. */
  function SplitMiddle(values: seq<byte>): (halves: (seq<byte>, seq<byte>))
    ensures halves.0 + halves.1 == values
    ensures |halves.0| == |values| / 2
    ensures |halves.1| == |halves.0| || |halves.1| == |halves.0| + 1
  {
    (values[..|values| / 2], values[|values| / 2..])
  }
}
