/**
 * The byte-pair decoder of the receive path: one raw chunk read from the
 * receive port becomes a sequence of byte values.  The chunk is decoded as
 * ASCII (bytes of 128 and above are dropped), spaces are removed, the
 * remaining characters are taken two at a time (a trailing odd character is
 * dropped) and each pair is read as a base-16 number.  Parsing stops at the
 * first pair that is not two hexadecimal digits: in the console that raises
 * an exception.
 *
 * The module also defines how the receive loop grows its accumulation
 * buffer: after the i-th pair it appends the whole prefix decoded so far.
 */
module Decoding {
  import opened Wrappers

  newtype byte = x: int | 0 <= x < 256

  // ---------------------------------------------------------------------
  // ASCII decoding with errors='ignore'

  predicate IsAscii(c: char) {
    c as int < 128
  }

  predicate AllAscii(s: string) {
    forall i :: 0 <= i < |s| ==> IsAscii(s[i])
  }

  /** `data.decode('ascii', errors='ignore')`: every byte below 128 becomes
      the character with that code, every other byte is dropped. */
  function AsciiDecode(data: seq<byte>): (text: string)
    ensures |text| <= |data|
    ensures AllAscii(text)
    ensures |data| == 1 ==> text == (if data[0] < 128 then [(data[0] as int) as char] else "")
  {
    if data == [] then ""
    else (if data[0] < 128 then [(data[0] as int) as char] else []) + AsciiDecode(data[1..])
  }

  /** The decoder works byte by byte: decoding a concatenation is the
      concatenation of the decodings, so the kept characters stay in order. */
  lemma {:induction false} AsciiDecodeAppend(a: seq<byte>, b: seq<byte>)
    ensures AsciiDecode(a + b) == AsciiDecode(a) + AsciiDecode(b)
  {
    if a != [] {
      assert (a + b)[0] == a[0] && (a + b)[1..] == a[1..] + b;
      AsciiDecodeAppend(a[1..], b);
    } else {
      assert a + b == b;
    }
  }

  /** The bytes of an ASCII text, as a sender puts them on the line. */
  function AsciiEncode(text: string): (data: seq<byte>)
    requires AllAscii(text)
    ensures |data| == |text|
    ensures forall i :: 0 <= i < |data| ==> data[i] < 128
  {
    if text == [] then [] else [(text[0] as int) as byte] + AsciiEncode(text[1..])
  }

  lemma {:induction false} AsciiRoundTrip(text: string)
    requires AllAscii(text)
    ensures AsciiDecode(AsciiEncode(text)) == text
  {
    if text != [] {
      var data := AsciiEncode(text);
      assert data[1..] == AsciiEncode(text[1..]);
      AsciiRoundTrip(text[1..]);
    }
  }

  // ---------------------------------------------------------------------
  // Space filter

  /** The characters of `chars` other than ' ', in their order. */
  function RemoveSpaces(chars: string): (kept: string)
    ensures |kept| <= |chars|
    ensures forall i :: 0 <= i < |kept| ==> kept[i] != ' '
    ensures forall c :: c != ' ' ==> multiset(kept)[c] == multiset(chars)[c]
  {
    if chars == [] then ""
    else
      assert chars == [chars[0]] + chars[1..];
      (if chars[0] == ' ' then "" else [chars[0]]) + RemoveSpaces(chars[1..])
  }

  /** Removing spaces keeps the order: it works piece by piece. */
  lemma {:induction false} RemoveSpacesAppend(a: string, b: string)
    ensures RemoveSpaces(a + b) == RemoveSpaces(a) + RemoveSpaces(b)
  {
    if a != [] {
      assert (a + b)[0] == a[0] && (a + b)[1..] == a[1..] + b;
      RemoveSpacesAppend(a[1..], b);
    } else {
      assert a + b == b;
    }
  }

  /** A text without spaces passes through unchanged. */
  lemma {:induction false} RemoveSpacesNoSpace(chars: string)
    requires forall i :: 0 <= i < |chars| ==> chars[i] != ' '
    ensures RemoveSpaces(chars) == chars
  {
    if chars != [] {
      RemoveSpacesNoSpace(chars[1..]);
    }
  }

  // ---------------------------------------------------------------------
  // Pairing

  /** Consecutive non-overlapping pairs of characters; a final unpaired
      character is dropped. */
  function Pairs(chars: string): (pairs: seq<string>)
    ensures |pairs| == |chars| / 2
    ensures forall i :: 0 <= i < |pairs| ==> pairs[i] == chars[2 * i .. 2 * i + 2]
  {
    if |chars| < 2 then [] else [chars[..2]] + Pairs(chars[2..])
  }

  /** The loop that builds `concatenated_ascii`: it steps `i` through
      0, 2, 4, ... while `i < len(chars) - 1`. */
  method ConcatenatePairs(chars: string) returns (pairs: seq<string>)
    ensures pairs == Pairs(chars)
  {
    pairs := [];
    var i := 0;
    while i < |chars| - 1
      invariant i % 2 == 0 && i <= |chars|
      invariant |pairs| == i / 2
      invariant forall j :: 0 <= j < |pairs| ==> pairs[j] == chars[2 * j .. 2 * j + 2]
    {
      var concatenatedPair := [chars[i]] + [chars[i + 1]];
      assert concatenatedPair == chars[2 * (i / 2) .. 2 * (i / 2) + 2];
      pairs := pairs + [concatenatedPair];
      i := i + 2;
    }
    assert |pairs| == |Pairs(chars)|;
  }

  // ---------------------------------------------------------------------
  // Hexadecimal digits and pairs

  predicate IsHexDigit(c: char) {
    '0' <= c <= '9' || 'a' <= c <= 'f' || 'A' <= c <= 'F'
  }

  function HexDigitValue(c: char): (d: nat)
    requires IsHexDigit(c)
    ensures d < 16
  {
    if '0' <= c <= '9' then c as int - '0' as int
    else if 'a' <= c <= 'f' then c as int - 'a' as int + 10
    else c as int - 'A' as int + 10
  }

  /** The upper-case digit for `d`, as the `02X` format writes it. */
  function HexDigitChar(d: nat): (c: char)
    requires d < 16
    ensures IsHexDigit(c) && HexDigitValue(c) == d
    ensures !('a' <= c <= 'f')
  {
    if d < 10 then ('0' as int + d) as char else ('A' as int + d - 10) as char
  }

  /** `int(pair, 16)` for a pair of characters: a value when both are
      hexadecimal digits (either case), None where Python raises. */
  function ParsePair(pair: string): (r: Option<byte>)
    ensures r.Some? <==> |pair| == 2 && IsHexDigit(pair[0]) && IsHexDigit(pair[1])
  {
    if |pair| == 2 && IsHexDigit(pair[0]) && IsHexDigit(pair[1])
    then Some((16 * HexDigitValue(pair[0]) + HexDigitValue(pair[1])) as byte)
    else None
  }

  /** `f"{v:02X}"`: two upper-case hexadecimal digits. */
  function HexPair(v: byte): (pair: string)
    ensures |pair| == 2 && IsHexDigit(pair[0]) && IsHexDigit(pair[1])
  {
    [HexDigitChar(v as int / 16), HexDigitChar(v as int % 16)]
  }

  function UpperCase(c: char): char {
    if 'a' <= c <= 'f' then (c as int - 'a' as int + 'A' as int) as char else c
  }

  /** Parsing undoes printing, and printing undoes parsing up to letter case. */
  lemma HexPairRoundTrip(v: byte, pair: string)
    ensures ParsePair(HexPair(v)) == Some(v)
    ensures ParsePair(pair) == Some(v) ==> HexPair(v) == [UpperCase(pair[0]), UpperCase(pair[1])]
  {
    if ParsePair(pair) == Some(v) {
      var hi, lo := HexDigitValue(pair[0]), HexDigitValue(pair[1]);
      assert v as int / 16 == hi && v as int % 16 == lo;
    }
  }

  // ---------------------------------------------------------------------
  // Decoding a sequence of pairs

  /** The values of the longest prefix of valid pairs, and whether that
      prefix is the whole input (no pair raised). */
  datatype Decoded = Decoded(values: seq<byte>, complete: bool)

  /** The properties that determine the decoding of `pairs`. */
  predicate IsDecodingOf(pairs: seq<string>, d: Decoded) {
    && |d.values| <= |pairs|
    && (d.complete <==> |d.values| == |pairs|)
    && (!d.complete ==> ParsePair(pairs[|d.values|]).None?)
    && (forall i :: 0 <= i < |d.values| ==> ParsePair(pairs[i]) == Some(d.values[i]))
  }

  /** The loop `for pair in concatenated_ascii: hex_values.append(int(pair, 16))`. */
  function DecodePairs(pairs: seq<string>): (d: Decoded)
    ensures IsDecodingOf(pairs, d)
  {
    if pairs == [] then Decoded([], true)
    else
      var prior := DecodePairs(pairs[..|pairs| - 1]);
      if !prior.complete then prior
      else match ParsePair(pairs[|pairs| - 1])
        case None => Decoded(prior.values, false)
        case Some(v) => Decoded(prior.values + [v], true)
  }

  /** There is only one decoding: the first invalid pair ends it. */
  lemma DecodingUnique(pairs: seq<string>, d1: Decoded, d2: Decoded)
    requires IsDecodingOf(pairs, d1) && IsDecodingOf(pairs, d2)
    ensures d1 == d2
  {
    assert |d1.values| == |d2.values|;
    assert forall i :: 0 <= i < |d1.values| ==> Some(d1.values[i]) == Some(d2.values[i]);
  }

  /** The whole per-chunk decode: ASCII, without spaces, paired, parsed.
      Value i comes from the characters 2i and 2i+1 that survive the filter. */
  function DecodeChunk(data: seq<byte>): (d: Decoded)
    ensures var chars := RemoveSpaces(AsciiDecode(data));
      && |d.values| <= |chars| / 2
      && (d.complete <==> |d.values| == |chars| / 2)
      && (forall i :: 0 <= i < |d.values| ==> ParsePair(chars[2 * i .. 2 * i + 2]) == Some(d.values[i]))
  {
    DecodePairs(Pairs(RemoveSpaces(AsciiDecode(data))))
  }

  /** A chunk decodes without a fault exactly when every pair of surviving
      characters is two hexadecimal digits. */
  lemma DecodeChunkFault(data: seq<byte>)
    ensures var chars := RemoveSpaces(AsciiDecode(data));
      !DecodeChunk(data).complete <==>
        exists i :: 0 <= i < |chars| / 2 && ParsePair(chars[2 * i .. 2 * i + 2]).None?
  {
    var chars := RemoveSpaces(AsciiDecode(data));
    var pairs := Pairs(chars);
    var d := DecodePairs(pairs);
    if d.complete {
      forall i | 0 <= i < |chars| / 2
        ensures ParsePair(chars[2 * i .. 2 * i + 2]).Some?
      {
        assert pairs[i] == chars[2 * i .. 2 * i + 2];
        assert ParsePair(pairs[i]) == Some(d.values[i]);
      }
    } else {
      var m := |d.values|;
      assert pairs[m] == chars[2 * m .. 2 * m + 2];
    }
  }

  // ---------------------------------------------------------------------
  // The sending side: space-separated hex text, as on the command line

  /** `"FA F3 20 "`: each value as two upper-case digits and a space. */
  function HexText(values: seq<byte>): (text: string)
    ensures |text| == 3 * |values|
    ensures AllAscii(text)
  {
    if values == [] then "" else HexPair(values[0]) + " " + HexText(values[1..])
  }

  /** The hex digits of `values` without separators. */
  function HexDigits(values: seq<byte>): (text: string)
    ensures |text| == 2 * |values|
    ensures forall i :: 0 <= i < |text| ==> text[i] != ' '
  {
    if values == [] then "" else HexPair(values[0]) + HexDigits(values[1..])
  }

  lemma {:induction false} HexTextWithoutSpaces(values: seq<byte>)
    ensures RemoveSpaces(HexText(values)) == HexDigits(values)
  {
    if values != [] {
      var p := HexPair(values[0]);
      calc {
        RemoveSpaces(HexText(values));
        { assert HexText(values) == p + (" " + HexText(values[1..])); }
        RemoveSpaces(p + (" " + HexText(values[1..])));
        { RemoveSpacesAppend(p, " " + HexText(values[1..])); }
        RemoveSpaces(p) + RemoveSpaces(" " + HexText(values[1..]));
        { RemoveSpacesNoSpace(p); }
        p + RemoveSpaces(HexText(values[1..]));
        { HexTextWithoutSpaces(values[1..]); }
        HexDigits(values);
      }
    }
  }

  lemma {:induction false} HexDigitsAt(values: seq<byte>, i: nat)
    requires i < |values|
    ensures HexDigits(values)[2 * i .. 2 * i + 2] == HexPair(values[i])
  {
    if i > 0 {
      HexDigitsAt(values[1..], i - 1);
      assert HexDigits(values)[2 * i .. 2 * i + 2] == HexDigits(values[1..])[2 * (i - 1) .. 2 * (i - 1) + 2];
    }
  }

  /** The inbound format round-trips: a chunk holding the space-separated
      hex text of `values` decodes to exactly `values`. */
  lemma ChunkRoundTrip(values: seq<byte>)
    ensures DecodeChunk(AsciiEncode(HexText(values))) == Decoded(values, true)
  {
    var text := HexText(values);
    AsciiRoundTrip(text);
    HexTextWithoutSpaces(values);
    var pairs := Pairs(HexDigits(values));
    forall i | 0 <= i < |values|
      ensures ParsePair(pairs[i]) == Some(values[i])
    {
      HexDigitsAt(values, i);
      HexPairRoundTrip(values[i], pairs[i]);
    }
    DecodingUnique(pairs, DecodePairs(pairs), Decoded(values, true));
  }

  // ---------------------------------------------------------------------
  // Growth of the accumulation buffer

  /** 0 + 1 + ... + n. */
  function Triangle(n: nat): nat {
    if n == 0 then 0 else Triangle(n - 1) + n
  }

  lemma {:induction false} TriangleClosedForm(n: nat)
    ensures 2 * Triangle(n) == n * (n + 1)
  {
    if n > 0 {
      TriangleClosedForm(n - 1);
    }
  }

  lemma {:induction false} TriangleMonotone(m: nat, n: nat)
    requires m <= n
    ensures Triangle(m) <= Triangle(n)
  {
    if m < n {
      TriangleMonotone(m, n - 1);
    }
  }

  /** What `self.data_buffer.extend(hex_values)` inside the pair loop adds
      over a chunk whose values are `values`: the prefix of length 1, then
      the prefix of length 2, ..., then all of `values`. */
  function Prefixes(values: seq<byte>): (added: seq<byte>)
    ensures |added| == Triangle(|values|)
  {
    if values == [] then [] else Prefixes(values[..|values| - 1]) + values
  }

  /** One more value adds one more prefix: the whole sequence. */
  lemma PrefixesSnoc(values: seq<byte>, v: byte)
    ensures Prefixes(values + [v]) == Prefixes(values) + (values + [v])
  {
    assert (values + [v])[..|values|] == values;
  }

  /** The i-th addition sits at offset Triangle(i) and is the prefix of
      length i + 1. */
  lemma {:induction false} PrefixesAt(values: seq<byte>, i: nat)
    requires i < |values|
    ensures Triangle(i + 1) <= Triangle(|values|)
    ensures Prefixes(values)[Triangle(i) .. Triangle(i + 1)] == values[..i + 1]
  {
    var n := |values|;
    var init := values[..n - 1];
    TriangleMonotone(i + 1, n);
    var p := Prefixes(values);
    assert p == Prefixes(init) + values;
    if i < n - 1 {
      PrefixesAt(init, i);
      TriangleMonotone(i + 1, n - 1);
      assert p[Triangle(i) .. Triangle(i + 1)] == Prefixes(init)[Triangle(i) .. Triangle(i + 1)];
      assert init[..i + 1] == values[..i + 1];
    } else {
      assert Triangle(i) == |Prefixes(init)|;
      assert p[Triangle(i) .. Triangle(i + 1)] == values;
      assert values[..i + 1] == values;
    }
  }
}
