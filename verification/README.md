# VERTECS ground-station console: receive-side decoding, in Dafny

This project models the logic core of `ComPortApp`, the operator console of
the VERTECS ground station (`VERTECS/main.py`). The console sends hex
command strings on one serial port and reads telemetry from another. The
model covers:

- **The receive loop** (`receive_data`). Each read returns a raw chunk. The
  chunk is decoded as ASCII; bytes of 128 and above are ignored. Spaces are
  removed. The characters are paired, and a trailing odd one is dropped.
  Each pair is parsed as base 16.
- **The accumulation buffer** (`data_buffer`). After each parsed pair the
  values decoded so far are appended to it. So a chunk of k values adds
  k(k+1)/2 entries. The buffer is emptied once it holds 200 or more.
- **The sentinel test.** Value 0xAB at index 6 of the chunk's values hands
  the values to `process_hex_values`.
- **The payload processor** (`process_hex_values`). It appends the value at
  index 11 to the plotted series, shows it as `"<v> V"` and splits the
  frame at its middle.
- **The search for a free export file name** (`initialize_excel_file`).
- **The command-history bookkeeping.** This is the Count and Serial of a
  sent command (`send_data_to_comport`) and the serial renumbering on save
  (`save_data_to_excel`).

Files and modules:

- `wrappers.dfy` (`Wrappers`): Option and Result.
- `numerals.dfy` (`Numerals`): decimal text of a natural number and its inverse.
- `decoding.dfy` (`Decoding`): the byte-pair decoder. It also holds the
  function `Prefixes`, which gives what the pair loop appends to the buffer.
- `reception.dfy` (`Reception`): the receive loop as a state machine over
  values. `RxState` holds the buffer, a running flag and the triggered
  frames. `Step` is one pass of the loop body; `Run` is the loop.
- `payload.dfy` (`Payload`): the voltage label and the split at the middle.
- `com_port.dfy` (`ComPort`): the class `ComPortApp`. Its fields are the
  ones the receive thread and the processing threads update. Its methods
  are proved against `Step` and `Run`.
- `export_naming.dfy` (`ExportNaming`): the name search, as a method with
  its `while` loop.
- `command_history.dfy` (`CommandHistory`): history rows as records and
  tables as sequences of rows.

A processing thread is not modelled as a thread. The list `triggered`
records, in order, each frame handed to one. `ProcessHexValues` is the body
such a thread runs.

### Behaviour kept as the code has it

- **A chunk with fewer than seven values** ends the receive loop. The
  code reads `hex_values[6]` unconditionally (main.py:521) before the
  sentinel test. That read raises, and the handler at main.py:539-542
  breaks out of the loop. No frame is triggered and the buffer is not reset.
- **A pair that is not two hexadecimal digits** ends the receive loop too.
  `int(pair, 16)` raises inside the pair loop (main.py:491). The buffer
  keeps the prefixes already appended for the earlier pairs of that chunk.
- **Buffer growth.** `data_buffer.extend(hex_values)` sits inside the pair
  loop (main.py:494). So after the i-th pair the whole prefix decoded so far
  is appended, and a chunk of k values adds k(k+1)/2 entries.
- **The Count of a sent command** is the largest earlier Count for the same
  text, plus one (main.py:247). It is not the number of earlier rows with
  that text.

## Model

| member | source | states |
|---|---|---|
| `Decoding.AsciiDecode` | VERTECS/main.py:469 | ASCII decode ignoring errors: the text is no longer than the chunk and all ASCII; a single byte below 128 becomes the character with that code, and a byte of 128 or more becomes nothing |
| `Decoding.AsciiDecodeAppend` | VERTECS/main.py:469 | decoding works byte by byte: the decoding of a concatenation is the concatenation of the decodings, so kept characters stay in order and bytes of 128 or more are dropped wherever they stand |
| `Decoding.AsciiRoundTrip` | VERTECS/main.py:469 | decoding the bytes of an ASCII text gives back the text: no ASCII byte is lost or changed |
| `Decoding.RemoveSpaces` | VERTECS/main.py:475 | the result has no space, and every other character keeps its number of occurrences |
| `Decoding.RemoveSpacesAppend` | VERTECS/main.py:475 | the filter works piece by piece, so it keeps the order of the characters |
| `Decoding.RemoveSpacesNoSpace` | VERTECS/main.py:475 | a text without spaces passes through unchanged |
| `Decoding.Pairs` | VERTECS/main.py:477-480 | there are floor(n/2) pairs, and pair i is characters 2i and 2i+1 |
| `Decoding.ConcatenatePairs` | VERTECS/main.py:477-480 | the loop over `range(0, len - 1, 2)` builds exactly those pairs, dropping a trailing odd character |
| `Decoding.ParsePair` | VERTECS/main.py:491 | a pair parses exactly when it is two hexadecimal digits in either case; otherwise it is the error case |
| `Decoding.HexPairRoundTrip` | VERTECS/main.py:491 | parsing the `02X` text of a byte gives the byte; a pair that parses to v is the `02X` text of v up to letter case |
| `Decoding.DecodePairs` | VERTECS/main.py:488-492 | the values are the parses of the longest valid prefix of pairs; decoding is complete iff all pairs parse, and otherwise the next pair is invalid |
| `Decoding.DecodingUnique` | VERTECS/main.py:488-492 | those properties determine the decoding: it stops at the first invalid pair |
| `Decoding.DecodeChunk` | VERTECS/main.py:469-492 | at most floor(n/2) values for n surviving characters, exactly floor(n/2) when complete; value i is the parse of characters 2i and 2i+1 |
| `Decoding.DecodeChunkFault` | VERTECS/main.py:489-492 | a chunk fails to decode iff some pair of surviving characters is not hexadecimal |
| `Decoding.ChunkRoundTrip` | VERTECS/main.py:466-492 | a chunk holding the space-separated hex text of any byte sequence decodes completely to that sequence |
| `Decoding.Prefixes` | VERTECS/main.py:489-494 | the pair loop adds Triangle(k) = 0+1+…+k values to the buffer for k pairs |
| `Decoding.PrefixesAt` | VERTECS/main.py:489-494 | the i-th addition sits at offset Triangle(i) and is the prefix of length i+1 of the chunk's values |
| `Decoding.TriangleClosedForm` | VERTECS/main.py:494 | 2 * Triangle(k) = k(k+1) |
| `Reception.Step` | VERTECS/main.py:463-537 | one pass of the loop body: an empty read changes nothing; frames are only extended, by at most one; a stopped loop stays stopped; the buffer only grows or is emptied |
| `Reception.Run` | VERTECS/main.py:462-544 | the loop only ever appends frames, and once stopped it changes nothing |
| `Reception.StepBuffer` | VERTECS/main.py:488-494 | a chunk of k values grows the buffer by k(k+1)/2 after its old contents; if the loop survives, the buffer is below 200, and is empty exactly when the grown length reached 200 (lines 529-531) |
| `Reception.StepStops` | VERTECS/main.py:521-542 | the loop stops iff a pair is not hexadecimal or there are fewer than seven pairs; then no frame is triggered and the buffer is not reset |
| `Reception.StepTriggers` | VERTECS/main.py:521-527 | at most one frame per chunk, the chunk's values; triggered iff all pairs are hexadecimal, there are at least seven, and the seventh reads 0xAB |
| `Reception.EncodedFrameTriggers` | VERTECS/main.py:466-527 | a chunk carrying the hex text of a frame with 0xAB at index 6 keeps the loop running and triggers exactly that frame |
| `Reception.StepKeepsInv` | VERTECS/main.py:521-531 | one pass keeps the invariant: every triggered frame has 0xAB at index 6, and a running loop has fewer than 200 buffered values |
| `Reception.RunKeepsInv` | VERTECS/main.py:462-544 | the loop keeps that invariant over any sequence of reads |
| `ComPort.ComPortApp.constructor` | VERTECS/main.py:83-88 | `__init__` (empty `data_buffer`) followed by a successful `connect_to_receive_port`, which starts the receive loop (lines 329-330): empty buffer, no frames, loop running; the series `graph_data_list`, created on first use (lines 554-555), starts empty |
| `ComPort.ComPortApp.ReceiveChunk` | VERTECS/main.py:463-537 | one pass of the loop body, by decoding, pair loop, sentinel test and reset, leaves exactly the state `Step` gives and keeps the invariant |
| `ComPort.ComPortApp.ExtendWithPairs` | VERTECS/main.py:488-494 | the pair loop returns the decoding of the pairs and appends `Prefixes` of the values to the buffer |
| `ComPort.ComPortApp.ReceiveData` | VERTECS/main.py:462-544 | reading chunk after chunk while running leaves the state `Run` gives; it stops early only when the loop has stopped |
| `ComPort.ComPortApp.ProcessHexValues` | VERTECS/main.py:546-578 | a frame longer than 11 appends its value at index 11 to the series and shows it as a label; a shorter one changes neither; the halves concatenate to the frame and the first has floor(len/2) values |
| `Payload.VoltageLabel` | VERTECS/main.py:565 | the label is decimal digits followed by " V" |
| `Payload.VoltageLabelRoundTrip` | VERTECS/main.py:565 | reading the label back gives exactly the sample |
| `Payload.SplitMiddle` | VERTECS/main.py:570-572 | first + second is the frame, the first half has floor(len/2) values, and the second has the same number or one more |
| `Numerals.DecimalString` | VERTECS/main.py:152 | decimal text: at least one digit, all digits, and a leading zero only for 0 |
| `Numerals.DecimalRoundTrip` | VERTECS/main.py:152 | the value of the decimal text of n is n |
| `Numerals.DecimalStringInjective` | VERTECS/main.py:152 | different numbers have different decimal texts |
| `ExportNaming.ExportName` | VERTECS/main.py:148-152 | the k-th candidate name: exactly 5 characters longer than the base (`.xlsx`) iff k = 0, longer for every k >= 1 |
| `ExportNaming.ExportNameReadBack` | VERTECS/main.py:148-152 | every candidate is the base followed by `.xlsx`; for k >= 1 the text between ` (` and `).xlsx` is the decimal digits of k, whose value is k |
| `ExportNaming.ExportNameInjective` | VERTECS/main.py:148-152 | the candidate names `base.xlsx`, `base (1).xlsx`, … are pairwise different |
| `ExportNaming.AttemptsBounded` | VERTECS/main.py:151-153 | if the first n candidates all exist then at least n names exist (the candidates are distinct), so the search ends for any finite set |
| `ExportNaming.InitializeExcelFile` | VERTECS/main.py:145-154 | the chosen name is free and is the first free candidate: `base.xlsx` if free, else `base (k).xlsx` with all earlier candidates taken |
| `CommandHistory.IsSpace` | VERTECS/main.py:223 | the whitespace set of Python's `str.isspace`, the characters `.strip()` removes |
| `CommandHistory.IsSpaceAscii` | VERTECS/main.py:223 | on the ASCII range that set is exactly tab, line feed, vertical tab, form feed, carriage return, the separators 0x1C-0x1F and space |
| `CommandHistory.StripLeading` | VERTECS/main.py:223 | removes exactly the leading whitespace |
| `CommandHistory.StripTrailing` | VERTECS/main.py:223 | removes exactly the trailing whitespace |
| `CommandHistory.Strip` | VERTECS/main.py:223 | the result is a slice of the input with only whitespace cut at both ends, and it neither starts nor ends with whitespace |
| `CommandHistory.MaxCount` | VERTECS/main.py:243-247 | None iff no row has the text; otherwise the largest Count among rows with that text |
| `CommandHistory.NextCount` | VERTECS/main.py:243-249 | 1 for a new text; otherwise greater than every earlier Count for it and equal to one more than one of them |
| `CommandHistory.NextCountAfterSend` | VERTECS/main.py:243-261 | sending the same text again gives a Count one higher |
| `CommandHistory.SendDataToComport` | VERTECS/main.py:215-280 | fails exactly when the port is closed, the stripped command is empty, or the write fails; otherwise the old rows stay and one row with Serial = old length + 1, the stripped text and the Count rule is added; a missing file gives the single row {1, …, 1} |
| `CommandHistory.SendKeepsNumbering` | VERTECS/main.py:254-272 | a send keeps serials 1..n on a table that had them |
| `CommandHistory.Renumber` | VERTECS/main.py:178 | serials become 1..len and every other field is kept |
| `CommandHistory.RenumberWellNumbered` | VERTECS/main.py:178 | renumbering a table already numbered 1..n changes nothing |
| `CommandHistory.SaveDataToExcel` | VERTECS/main.py:159-180 | no file gives a warning; otherwise pending rows are appended after the existing ones (none when `initial`), serials are renumbered 1..len, and the pending list is cleared |

## Left out

- The graphical interface: widgets, dialogs, the status label, the text
  area `receivdata`, and the table view (`load_excel_data`,
  `populate_table`, `display_selected_data`, `display_text`,
  `save_qtextedit_to_excel`, `init_ui`, `GraphViewer`). Only the text of the
  voltage label is modelled. Its initial text comes from the UI file and is
  taken as empty.
- Serial ports: listing, opening, reading, writing and closing
  (`populate_com_ports`, `populate_baudrate`, `connect_to_comport`,
  `connect_to_receive_port`, `closeEvent`).
  - Reads are given to `ReceiveData` as a sequence of chunks. Chunks may be
    of any length; the 1024-byte read cap is not needed for any property.
  - Closing the port ends the loop only through the reads running out.
  - A second connect would restart the loop on the old buffer, which may
    hold 200 or more values after a fault. That restart is not modelled.
- Threads and `time.sleep`. A spawned `process_hex_values` thread is stood
  for by its frame in `triggered`; `ProcessHexValues` is run on frames one
  at a time. Concurrent runs that interleave appends to the series are not
  modelled.
- Spreadsheet reads and writes, matplotlib redraws, `subprocess.Popen`,
  log-file appends, `print` output and `datetime` formatting. Tables are
  passed in and returned as values, and timestamps are text parameters.
  The log line written per chunk is left out.
- `int(pair, 16)` accepts some pairs the model treats as errors: a sign
  with one digit (`"-F"`) and a digit next to a whitespace character other
  than space (`"\n7"`). The model accepts exactly two hexadecimal digits.
- The commented-out earlier versions of `receive_data` (main.py:335-455)
  are dead code.
- `os.path.exists(None)` raises when no history file was initialised
  (main.py:239). This library behaviour is not modelled.
- In that same no-file branch, the code moves `excel_file_path` to a new
  timestamped name (main.py:273). That name change is not modelled.
- CommandHistory.SendDataToComport: one flag `sendOk` stands for every
  exception in the `try` block. So it does not tell apart a command that
  was written to the port but whose row could not be saved.
- `graph_data_list` is created on first use (main.py:554-555). It is
  modelled as a list that starts empty.
