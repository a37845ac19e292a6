/**
 * The sent-command history kept in a spreadsheet: one row per command sent,
 * with a serial number, the date and time of sending, the command text and
 * how many times that text has been sent.  Tables are sequences of rows;
 * reading and writing the spreadsheet file is left to the caller.
 */
module CommandHistory {
  import opened Wrappers

  /** One row: Serial, Date, Time, Sent Data, Count. */
  datatype Row = Row(serial: int, date: string, time: string, sentData: string, count: int)

  // ---------------------------------------------------------------------
  // The command text: str.strip()

  /** The whitespace characters of the ASCII range: tab, line feed,
      vertical tab, form feed, carriage return, the four information
      separators 0x1C to 0x1F, and space. */
  const AsciiWhitespace: string := "\t\n\U{B}\U{C}\r\U{1C}\U{1D}\U{1E}\U{1F} "

  /** Python's `str.isspace` for one character. */
  predicate IsSpace(c: char) {
    || '\t' <= c <= '\r'
    || '\U{1C}' <= c <= '\U{1F}'
    || c == ' ' || c == '\U{85}' || c == '\U{A0}' || c == '\U{1680}'
    || '\U{2000}' <= c <= '\U{200A}'
    || c == '\U{2028}' || c == '\U{2029}' || c == '\U{202F}' || c == '\U{205F}' || c == '\U{3000}'
  }

  /** On the ASCII range `IsSpace` is exactly `AsciiWhitespace`. */
  lemma IsSpaceAscii(c: char)
    requires c as int < 128
    ensures IsSpace(c) <==> c in AsciiWhitespace
  {
  }

  function StripLeading(s: string): (r: string)
    ensures |r| <= |s| && r == s[|s| - |r|..]
    ensures forall i :: 0 <= i < |s| - |r| ==> IsSpace(s[i])
    ensures r != [] ==> !IsSpace(r[0])
  {
    if s != [] && IsSpace(s[0]) then StripLeading(s[1..]) else s
  }

  function StripTrailing(s: string): (r: string)
    ensures |r| <= |s| && r == s[..|r|]
    ensures forall i :: |r| <= i < |s| ==> IsSpace(s[i])
    ensures r != [] ==> !IsSpace(r[|r| - 1])
  {
    if s != [] && IsSpace(s[|s| - 1]) then StripTrailing(s[..|s| - 1]) else s
  }

  /** `s.strip()`: the middle of `s` left after removing whitespace at both
      ends; it neither starts nor ends with whitespace. */
  function Strip(s: string): (r: string)
    ensures exists i, j ::
      && 0 <= i <= j <= |s| && r == s[i..j]
      && (forall k :: 0 <= k < i ==> IsSpace(s[k]))
      && (forall k :: j <= k < |s| ==> IsSpace(s[k]))
    ensures r != [] ==> !IsSpace(r[0]) && !IsSpace(r[|r| - 1])
  {
    var lead := StripLeading(s);
    var r := StripTrailing(lead);
    var i := |s| - |lead|;
    assert r == s[i .. i + |r|];
    r
  }

  // ---------------------------------------------------------------------
  // Count and Serial of a new row

  /** `existing_data[existing_data["Sent Data"] == text]["Count"].max()`,
      None when no row has that text. */
  function MaxCount(rows: seq<Row>, text: string): (m: Option<int>)
    ensures m.None? <==> forall i :: 0 <= i < |rows| ==> rows[i].sentData != text
    ensures m.Some? ==> exists i :: 0 <= i < |rows| && rows[i].sentData == text && rows[i].count == m.value
    ensures m.Some? ==> forall i :: 0 <= i < |rows| && rows[i].sentData == text ==> rows[i].count <= m.value
  {
    if rows == [] then None
    else
      var last := rows[|rows| - 1];
      var m := MaxCount(rows[..|rows| - 1], text);
      if last.sentData != text then m
      else match m
        case None => Some(last.count)
        case Some(c) => Some(if last.count > c then last.count else c)
  }

  /** The Count of a new row for `text`: 1 for a text not sent before,
      otherwise one more than the largest earlier Count for it. */
  function NextCount(rows: seq<Row>, text: string): (c: int)
    ensures (forall i :: 0 <= i < |rows| ==> rows[i].sentData != text) ==> c == 1
    ensures forall i :: 0 <= i < |rows| && rows[i].sentData == text ==> rows[i].count < c
    ensures (exists i :: 0 <= i < |rows| && rows[i].sentData == text) ==>
      exists i :: 0 <= i < |rows| && rows[i].sentData == text && rows[i].count == c - 1
  {
    match MaxCount(rows, text)
    case None => 1
    case Some(m) => m + 1
  }

  /** Sending the same text again gives it a Count one higher. */
  lemma NextCountAfterSend(rows: seq<Row>, row: Row)
    requires row.count == NextCount(rows, row.sentData)
    ensures NextCount(rows + [row], row.sentData) == row.count + 1
  {
    assert (rows + [row])[..|rows|] == rows;
  }

  datatype SendError = NotConnected | EmptyCommand | SendFailed

  /** `send_data_to_comport`: the command history after sending `input`.
      `connected` is whether the command port is open, `sendOk` whether the
      write and the spreadsheet update went through, `saved` the rows of the
      history file (None when no such file exists yet). */
  function SendDataToComport(connected: bool, input: string, sendOk: bool,
                             saved: Option<seq<Row>>, date: string, time: string): (r: Result<seq<Row>, SendError>)
    ensures r == Err(NotConnected) <==> !connected
    ensures r == Err(EmptyCommand) <==> connected && Strip(input) == ""
    ensures r == Err(SendFailed) <==> connected && Strip(input) != "" && !sendOk
    ensures r.Ok? ==>
      var rows := if saved.Some? then saved.value else [];
      && |r.value| == |rows| + 1
      && r.value[..|rows|] == rows
      && r.value[|rows|].serial == |rows| + 1
      && r.value[|rows|].date == date && r.value[|rows|].time == time
      && r.value[|rows|].sentData == Strip(input)
      && r.value[|rows|].count == NextCount(rows, Strip(input))
  {
    if !connected then Err(NotConnected)
    else
      var dataToSend := Strip(input);
      if dataToSend == "" then Err(EmptyCommand)
      else if !sendOk then Err(SendFailed)
      else match saved
        case Some(rows) => Ok(rows + [Row(|rows| + 1, date, time, dataToSend, NextCount(rows, dataToSend))])
        case None => Ok([Row(1, date, time, dataToSend, 1)])
  }

  // ---------------------------------------------------------------------
  // Serial numbers

  /** Serial numbers run 1, 2, ..., n. */
  predicate WellNumbered(rows: seq<Row>) {
    forall i :: 0 <= i < |rows| ==> rows[i].serial == i + 1
  }

  /** A send keeps a well-numbered history well numbered. */
  lemma SendKeepsNumbering(connected: bool, input: string, sendOk: bool,
                           saved: Option<seq<Row>>, date: string, time: string)
    requires saved.Some? ==> WellNumbered(saved.value)
    ensures var r := SendDataToComport(connected, input, sendOk, saved, date, time);
      r.Ok? ==> WellNumbered(r.value)
  {
    var r := SendDataToComport(connected, input, sendOk, saved, date, time);
    if r.Ok? {
      var rows := if saved.Some? then saved.value else [];
      forall i | 0 <= i < |r.value|
        ensures r.value[i].serial == i + 1
      {
        if i < |rows| {
          assert r.value[i] == r.value[..|rows|][i];
        }
      }
    }
  }

  /** `updated_data["Serial"] = range(1, len(updated_data) + 1)`. */
  function Renumber(rows: seq<Row>): (r: seq<Row>)
    ensures |r| == |rows| && WellNumbered(r)
    ensures forall i :: 0 <= i < |r| ==> r[i] == rows[i].(serial := i + 1)
  {
    if rows == [] then [] else Renumber(rows[..|rows| - 1]) + [rows[|rows| - 1].(serial := |rows|)]
  }

  /** Renumbering changes nothing in a well-numbered table. */
  lemma RenumberWellNumbered(rows: seq<Row>)
    requires WellNumbered(rows)
    ensures Renumber(rows) == rows
  {
    var r := Renumber(rows);
    assert forall i :: 0 <= i < |r| ==> r[i] == rows[i];
  }

  /** What `save_data_to_excel` leaves in the file and in `data_to_save`. */
  datatype SaveOutcome = NoSaveFile | Saved(fileRows: seq<Row>, pending: seq<Row>)

  /** `save_data_to_excel`: `pathSet` says whether a file was initialised;
      `initial` writes the file afresh with headers only; pending rows are
      appended and every serial renumbered. */
  function SaveDataToExcel(pathSet: bool, fileRows: seq<Row>, initial: bool, pending: seq<Row>): (r: SaveOutcome)
    ensures r.NoSaveFile? <==> !pathSet
    ensures r.Saved? ==>
      var before := if initial then [] else fileRows;
      && r.pending == []
      && (pending == [] ==> r.fileRows == before)
      && (pending != [] ==>
            && |r.fileRows| == |before| + |pending|
            && WellNumbered(r.fileRows)
            && (forall i :: 0 <= i < |before| ==> r.fileRows[i] == before[i].(serial := i + 1))
            && (forall i :: 0 <= i < |pending| ==>
                  r.fileRows[|before| + i] == pending[i].(serial := |before| + i + 1)))
  {
    if !pathSet then NoSaveFile
    else
      var existing := if initial then [] else fileRows;
      if pending == [] then Saved(existing, pending)
      else Saved(Renumber(existing + pending), [])
  }
}
