/**
 * Properties of the delimited-text parser: its rows are never empty, empty
 * text gives no rows, and it inverts `toCsv` for tab and comma delimiters,
 * with `\n` or `\r\n` line ends.
 */
module DelimitedProperties {
  import opened Text
  import opened Delimited

  /** Every finished row has at least one field. */
  predicate RowsNonEmpty(rows: seq<seq<string>>)
  {
    forall k :: 0 <= k < |rows| ==> |rows[k]| >= 1
  }

  lemma {:induction false} ScanRowsNonEmpty(t: string, d: char, st: ParseState)
    requires RowsNonEmpty(st.rows)
    ensures RowsNonEmpty(Scan(t, d, st).rows)
    decreases |t|
  {
    if t != [] {
      var c := t[0];
      if st.inQuotes {
        if c == '"' && |t| > 1 && t[1] == '"' {
          ScanRowsNonEmpty(t[2..], d, st.(value := st.value + ['"']));
        } else if c == '"' {
          ScanRowsNonEmpty(t[1..], d, st.(inQuotes := false));
        } else {
          ScanRowsNonEmpty(t[1..], d, st.(value := st.value + [c]));
        }
      } else if c == '"' {
        ScanRowsNonEmpty(t[1..], d, st.(inQuotes := true));
      } else if c == d {
        ScanRowsNonEmpty(t[1..], d, st.(current := st.current + [st.value], value := ""));
      } else if c == '\n' {
        ScanRowsNonEmpty(t[1..], d, st.(rows := st.rows + [st.current + [st.value]], current := [], value := ""));
      } else if c == '\r' {
        ScanRowsNonEmpty(t[1..], d, st);
      } else {
        ScanRowsNonEmpty(t[1..], d, st.(value := st.value + [c]));
      }
    }
  }

  /** Every row `parseDelimited` returns has at least one field. */
  lemma ParsedRowsNonEmpty(text: string, d: char)
    ensures RowsNonEmpty(Parsed(text, d))
  {
    ScanRowsNonEmpty(text, d, Start);
  }

  /** Empty text yields no rows. */
  lemma EmptyTextNoRows(d: char)
    ensures Parsed("", d) == []
  {
  }

  /** A text with no delimiter, quote or line break is one row with that one field. */
  lemma SingleField(s: string, d: char)
    requires s != [] && forall k :: 0 <= k < |s| ==> !IsSpecial(s[k]) && s[k] != d
    ensures Parsed(s, d) == [[s]]
  {
    assert s + [] == s && "" + s == s;
    ScanRaw(s, [], d, Start);
    var st := ParseState([], [], s, false);
    assert Scan(s, d, Start) == st;
    assert [] + [s] == [s] && [s] != [""];
    assert Finish(st) == [[s]];
  }

  /** A field without special characters and without the delimiter is read character by character. */
  lemma {:induction false} ScanRaw(f: string, rest: string, d: char, st: ParseState)
    requires !st.inQuotes
    requires forall k :: 0 <= k < |f| ==> !IsSpecial(f[k]) && f[k] != d
    ensures Scan(f + rest, d, st) == Scan(rest, d, st.(value := st.value + f))
  {
    if f == [] {
      assert f + rest == rest && st.value + f == st.value;
    } else {
      var t := f + rest;
      assert t[0] == f[0] && t[1..] == f[1..] + rest;
      ScanRaw(f[1..], rest, d, st.(value := st.value + [f[0]]));
      assert st.value + [f[0]] + f[1..] == st.value + f;
    }
  }

  /**
   * Inside quotes, a doubled field body followed by the closing quote reads
   * back as the field, provided the next character is not another quote.
   */
  lemma {:induction false} ScanQuotedBody(f: string, rest: string, d: char, st: ParseState)
    requires st.inQuotes
    requires rest == [] || rest[0] != '"'
    ensures Scan(ReplaceAll(f, '"', "\"\"") + ['"'] + rest, d, st) == Scan(rest, d, st.(value := st.value + f, inQuotes := false))
  {
    var t := ReplaceAll(f, '"', "\"\"") + ['"'] + rest;
    if f == [] {
      assert t == ['"'] + rest;
      assert t[1..] == rest;
      assert st.value + f == st.value;
    } else if f[0] == '"' {
      assert t == "\"\"" + (ReplaceAll(f[1..], '"', "\"\"") + ['"'] + rest);
      assert t[2..] == ReplaceAll(f[1..], '"', "\"\"") + ['"'] + rest;
      ScanQuotedBody(f[1..], rest, d, st.(value := st.value + ['"']));
      assert st.value + ['"'] + f[1..] == st.value + f;
    } else {
      assert t == [f[0]] + (ReplaceAll(f[1..], '"', "\"\"") + ['"'] + rest);
      assert t[1..] == ReplaceAll(f[1..], '"', "\"\"") + ['"'] + rest;
      ScanQuotedBody(f[1..], rest, d, st.(value := st.value + [f[0]]));
      assert st.value + [f[0]] + f[1..] == st.value + f;
    }
  }

  /** Tab and comma, the delimiters the round trip holds for. */
  predicate IsRoundTripDelimiter(d: char)
  {
    d == '\t' || d == ','
  }

  /** An escaped field reads back as the field, whatever it contains. */
  lemma ScanField(f: string, rest: string, d: char, st: ParseState)
    requires !st.inQuotes && IsRoundTripDelimiter(d)
    requires rest == [] || rest[0] != '"'
    ensures Scan(EscapeCsv(f) + rest, d, st) == Scan(rest, d, st.(value := st.value + f))
  {
    if NeedsQuotes(f) {
      ScanQuotedField(f, rest, d, st);
    } else {
      assert EscapeCsv(f) == f;
      forall k | 0 <= k < |f|
        ensures !IsSpecial(f[k]) && f[k] != d
      {
      }
      ScanRaw(f, rest, d, st);
    }
  }

  /** A quoted field: the opening quote enters quoted mode, then the body reads back. */
  lemma ScanQuotedField(f: string, rest: string, d: char, st: ParseState)
    requires !st.inQuotes
    requires rest == [] || rest[0] != '"'
    ensures Scan("\"" + ReplaceAll(f, '"', "\"\"") + "\"" + rest, d, st) == Scan(rest, d, st.(value := st.value + f))
  {
    var q := ReplaceAll(f, '"', "\"\"");
    var t := "\"" + q + "\"" + rest;
    assert t == ['"'] + (q + ['"'] + rest);
    assert t[0] == '"' && t[1..] == q + ['"'] + rest;
    assert Scan(t, d, st) == Scan(t[1..], d, st.(inQuotes := true));
    ScanQuotedBody(f, rest, d, st.(inQuotes := true));
  }

  /** What ends a row in the serialised text: the end, `\n`, or `\r\n`. */
  predicate RowEnd(rest: string)
  {
    rest == [] || rest[0] == '\n' || rest[0] == '\r'
  }

  /** A serialised row reads back as its fields: all but the last finished, the last one pending. */
  lemma {:induction false} ScanRow(row: seq<string>, rest: string, d: char, st: ParseState)
    requires |row| >= 1 && !st.inQuotes && st.value == "" && IsRoundTripDelimiter(d)
    requires RowEnd(rest)
    ensures Scan(RowText(row, [d]) + rest, d, st)
         == Scan(rest, d, st.(current := st.current + row[..|row| - 1], value := row[|row| - 1]))
  {
    if |row| == 1 {
      assert RowText(row, [d]) == EscapeCsv(row[0]);
      ScanField(row[0], rest, d, st);
      assert st.current + row[..0] == st.current;
      assert st.value + row[0] == row[0];
    } else {
      var more := RowText(row[1..], [d]) + rest;
      RowTextCons(row, d);
      assert RowText(row, [d]) + rest == EscapeCsv(row[0]) + [d] + more;
      ScanFieldThenDelimiter(row[0], more, d, st);
      var st2 := st.(current := st.current + [row[0]], value := "");
      ScanRow(row[1..], rest, d, st2);
      FirstThenRest(row, st.current);
    }
  }

  lemma FirstThenRest<T>(row: seq<T>, cur: seq<T>)
    requires |row| >= 2
    ensures cur + [row[0]] + row[1..][..|row| - 2] == cur + row[..|row| - 1]
  {
    assert row[1..][..|row| - 2] == row[1..|row| - 1];
    assert [row[0]] + row[1..|row| - 1] == row[..|row| - 1];
  }

  lemma RowTextCons(row: seq<string>, d: char)
    requires |row| >= 2
    ensures RowText(row, [d]) == EscapeCsv(row[0]) + [d] + RowText(row[1..], [d])
  {
    assert EscapedFields(row[1..]) == EscapedFields(row)[1..];
  }

  /** A field followed by the delimiter is finished and a new one begins. */
  lemma ScanFieldThenDelimiter(f: string, more: string, d: char, st: ParseState)
    requires !st.inQuotes && st.value == "" && IsRoundTripDelimiter(d)
    ensures Scan(EscapeCsv(f) + [d] + more, d, st)
         == Scan(more, d, st.(current := st.current + [f], value := ""))
  {
    var tail := [d] + more;
    assert EscapeCsv(f) + [d] + more == EscapeCsv(f) + tail;
    ScanField(f, tail, d, st);
    var st1 := st.(value := st.value + f);
    assert st1.value == f;
    assert tail[1..] == more;
  }

  /** The line ends the round trip holds for. */
  predicate IsLineEnd(sep: string)
  {
    sep == "\n" || sep == "\r\n"
  }

  /** Outside quotes a line end finishes the pending row. */
  lemma ScanLineEnd(sep: string, rest: string, d: char, st: ParseState)
    requires IsLineEnd(sep) && !st.inQuotes && IsRoundTripDelimiter(d)
    ensures Scan(sep + rest, d, st)
         == Scan(rest, d, st.(rows := st.rows + [st.current + [st.value]], current := [], value := ""))
  {
    if sep == "\r\n" {
      assert (sep + rest)[1..] == "\n" + rest;
    }
    assert ("\n" + rest)[1..] == rest;
  }

  /** Serialised rows read back: all but the last finished, the last one pending. */
  lemma {:induction false} ScanRows(rows: seq<seq<string>>, sep: string, d: char, done: seq<seq<string>>)
    requires |rows| >= 1 && RowsNonEmpty(rows) && IsRoundTripDelimiter(d) && IsLineEnd(sep)
    ensures var last := rows[|rows| - 1];
      Scan(Join(RowTexts(rows, [d]), sep), d, ParseState(done, [], "", false))
        == ParseState(done + rows[..|rows| - 1], last[..|last| - 1], last[|last| - 1], false)
  {
    var texts := RowTexts(rows, [d]);
    var st := ParseState(done, [], "", false);
    if |rows| == 1 {
      assert Join(texts, sep) == RowText(rows[0], [d]) + [];
      ScanRow(rows[0], [], d, st);
      assert done + rows[..0] == done;
    } else {
      TailRowsNonEmpty(rows);
      ScanRows(rows[1..], sep, d, done + [rows[0]]);
      RowsStep(rows, sep, d, done);
    }
  }

  lemma TailRowsNonEmpty(rows: seq<seq<string>>)
    requires |rows| >= 1 && RowsNonEmpty(rows)
    ensures RowsNonEmpty(rows[1..])
  {
    forall k | 0 <= k < |rows| - 1
      ensures |rows[1..][k]| >= 1
    {
      assert rows[1..][k] == rows[k + 1];
    }
  }

  /** The first row read back, followed by what the remaining rows read back as. */
  lemma RowsStep(rows: seq<seq<string>>, sep: string, d: char, done: seq<seq<string>>)
    requires |rows| >= 2 && RowsNonEmpty(rows) && IsRoundTripDelimiter(d) && IsLineEnd(sep)
    requires var last := rows[|rows| - 1];
      Scan(Join(RowTexts(rows[1..], [d]), sep), d, ParseState(done + [rows[0]], [], "", false))
        == ParseState(done + [rows[0]] + rows[1..][..|rows| - 2], last[..|last| - 1], last[|last| - 1], false)
    ensures var last := rows[|rows| - 1];
      Scan(Join(RowTexts(rows, [d]), sep), d, ParseState(done, [], "", false))
        == ParseState(done + rows[..|rows| - 1], last[..|last| - 1], last[|last| - 1], false)
  {
    var later := Join(RowTexts(rows[1..], [d]), sep);
    JoinRows(rows, sep, d);
    RowThenLineEnd(rows[0], sep, later, d, done);
    FirstThenRest(rows, done);
  }

  /** A serialised row and its line end read back as one finished row. */
  lemma RowThenLineEnd(row: seq<string>, sep: string, later: string, d: char, done: seq<seq<string>>)
    requires |row| >= 1 && IsRoundTripDelimiter(d) && IsLineEnd(sep)
    ensures Scan(RowText(row, [d]) + (sep + later), d, ParseState(done, [], "", false))
         == Scan(later, d, ParseState(done + [row], [], "", false))
  {
    var st := ParseState(done, [], "", false);
    assert RowEnd(sep + later);
    ScanRow(row, sep + later, d, st);
    assert [] + row[..|row| - 1] == row[..|row| - 1];
    var st1 := ParseState(done, row[..|row| - 1], row[|row| - 1], false);
    ScanLineEnd(sep, later, d, st1);
    assert row[..|row| - 1] + [row[|row| - 1]] == row;
  }

  lemma JoinRows(rows: seq<seq<string>>, sep: string, d: char)
    requires |rows| >= 2
    ensures Join(RowTexts(rows, [d]), sep) == RowText(rows[0], [d]) + (sep + Join(RowTexts(rows[1..], [d]), sep))
  {
    var texts := RowTexts(rows, [d]);
    assert RowTexts(rows[1..], [d]) == texts[1..];
  }

  /**
   * The conditional round trip: with a tab or comma delimiter, rows that
   * each have a field and do not end in a row that is one empty field read
   * back from their serialisation, whether lines end in `\n` or `\r\n`.
   */
  lemma RowsRoundTrip(rows: seq<seq<string>>, sep: string, d: char)
    requires IsRoundTripDelimiter(d) && IsLineEnd(sep) && RowsNonEmpty(rows)
    requires rows == [] || rows[|rows| - 1] != [""]
    ensures Parsed(Join(RowTexts(rows, [d]), sep), d) == rows
  {
    if rows != [] {
      ScanRows(rows, sep, d, []);
      var last := rows[|rows| - 1];
      assert last[..|last| - 1] + [last[|last| - 1]] == last;
      assert [] + rows[..|rows| - 1] + [last] == rows;
    }
  }

  /** `parseDelimited(toCsv(rows, d, true), d) == rows` under the same conditions. */
  lemma ToCsvRoundTrip(rows: seq<seq<string>>, d: char)
    requires IsRoundTripDelimiter(d) && RowsNonEmpty(rows)
    requires rows == [] || rows[|rows| - 1] != [""]
    ensures Parsed(ToCsv(rows, [d], true), d) == rows
  {
    RowsRoundTrip(rows, "\n", d);
  }

  /** Without the header flag `toCsv` drops exactly the first row. */
  lemma ToCsvWithoutHeader(rows: seq<seq<string>>, delimiter: string)
    requires rows != []
    ensures ToCsv(rows, delimiter, false) == ToCsv(rows[1..], delimiter, true)
  {
  }

  /** `toCsv` on no rows is the empty text, and the empty text parses to no rows. */
  lemma NoRows(delimiter: string, includeHeader: bool, d: char)
    ensures ToCsv([], delimiter, includeHeader) == ""
    ensures Parsed(ToCsv([], delimiter, includeHeader), d) == []
  {
  }

  /** A field is left as it is exactly when it has none of `"`, `\n`, `\r`, `,`, tab. */
  lemma EscapeCsvUnchanged(s: string)
    ensures EscapeCsv(s) == s <==> !NeedsQuotes(s)
  {
    if NeedsQuotes(s) {
      DoubleQuotesLength(s);
      assert |EscapeCsv(s)| >= |s| + 2;
    }
  }

  lemma {:induction false} DoubleQuotesLength(s: string)
    ensures |ReplaceAll(s, '"', "\"\"")| >= |s|
  {
    if s != [] {
      DoubleQuotesLength(s[1..]);
    }
  }
}
