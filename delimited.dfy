/**
 * The delimited-text converter: `parseDelimited`, a character-level state
 * machine that turns CSV/TSV text into rows of fields, and `toCsv` with
 * `escapeCsv`, the serialiser it inverts.
 */
module Delimited {
  import opened Text

  /** The parser's state: finished rows, the fields of the current row, the current field, and whether inside quotes. */
  datatype ParseState = ParseState(rows: seq<seq<string>>, current: seq<string>, value: string, inQuotes: bool)

  const Start := ParseState([], [], "", false)

  /**
   * Running the state machine over `t` from state `st`: inside quotes `""`
   * yields one `"` and a lone `"` leaves quoted mode, everything else is kept;
   * outside quotes `"` enters quoted mode, the delimiter ends a field, `\n`
   * ends a row and `\r` is dropped.
   */
  function Scan(t: string, d: char, st: ParseState): ParseState
    decreases |t|
  {
    if t == [] then st
    else
      var c := t[0];
      if st.inQuotes then
        if c == '"' then
          if |t| > 1 && t[1] == '"' then Scan(t[2..], d, st.(value := st.value + ['"']))
          else Scan(t[1..], d, st.(inQuotes := false))
        else Scan(t[1..], d, st.(value := st.value + [c]))
      else if c == '"' then Scan(t[1..], d, st.(inQuotes := true))
      else if c == d then Scan(t[1..], d, st.(current := st.current + [st.value], value := ""))
      else if c == '\n' then Scan(t[1..], d, st.(rows := st.rows + [st.current + [st.value]], current := [], value := ""))
      else if c == '\r' then Scan(t[1..], d, st)
      else Scan(t[1..], d, st.(value := st.value + [c]))
  }

  /** Flushing the last field and row, then dropping a final row that is one empty field. */
  function Finish(st: ParseState): seq<seq<string>>
  {
    var rows := st.rows + [st.current + [st.value]];
    if rows[|rows| - 1] == [""] then rows[..|rows| - 1] else rows
  }

  function Parsed(text: string, d: char): seq<seq<string>>
  {
    Finish(Scan(text, d, Start))
  }

  /** `parseDelimited(text, delimiter)`: one pass over the text, sometimes consuming two characters. */
  method ParseDelimited(text: string, d: char) returns (rows: seq<seq<string>>)
    ensures rows == Parsed(text, d)
  {
    rows := [];
    var current: seq<string> := [];
    var value := "";
    var inQuotes := false;
    var i := 0;
    while i < |text|
      invariant 0 <= i <= |text|
      invariant Scan(text[i..], d, ParseState(rows, current, value, inQuotes)) == Scan(text, d, Start)
    {
      var c := text[i];
      if inQuotes {
        if c == '"' {
          if i + 1 < |text| && text[i + 1] == '"' {
            value := value + ['"'];
            i := i + 1;
          } else {
            inQuotes := false;
          }
        } else {
          value := value + [c];
        }
      } else {
        if c == '"' {
          inQuotes := true;
        } else if c == d {
          current := current + [value];
          value := "";
        } else if c == '\n' {
          current := current + [value];
          rows := rows + [current];
          current := [];
          value := "";
        } else if c == '\r' {
        } else {
          value := value + [c];
        }
      }
      i := i + 1;
    }
    current := current + [value];
    rows := rows + [current];
    if |rows| > 0 && |rows[|rows| - 1]| == 1 && rows[|rows| - 1][0] == "" {
      rows := rows[..|rows| - 1];
    }
  }

  /** The characters that make `escapeCsv` quote a field. */
  predicate IsSpecial(c: char)
  {
    c == '"' || c == '\n' || c == '\r' || c == ',' || c == '\t'
  }

  predicate NeedsQuotes(s: string)
  {
    exists k :: 0 <= k < |s| && IsSpecial(s[k])
  }

  /** `escapeCsv(value)` for a string value: quoted, with `s.replace(/"/g, '""')` inside, when special. */
  function EscapeCsv(s: string): string
  {
    if NeedsQuotes(s) then "\"" + ReplaceAll(s, '"', "\"\"") + "\"" else s
  }

  function EscapedFields(row: seq<string>): seq<string>
  {
    seq(|row|, k requires 0 <= k < |row| => EscapeCsv(row[k]))
  }

  function RowText(row: seq<string>, delimiter: string): string
  {
    Join(EscapedFields(row), delimiter)
  }

  function RowTexts(rows: seq<seq<string>>, delimiter: string): seq<string>
  {
    seq(|rows|, k requires 0 <= k < |rows| => RowText(rows[k], delimiter))
  }

  /** `toCsv(rows, delimiter, includeHeader)`. */
  function ToCsv(rows: seq<seq<string>>, delimiter: string, includeHeader: bool): string
  {
    if rows == [] then ""
    else
      var data := if includeHeader then rows else rows[1..];
      Join(RowTexts(data, delimiter), "\n")
  }
}
