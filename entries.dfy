/**
 * Turning pasted text into the numbered list of amounts the combination
 * finder searches: one entry per non-blank line whose amount parses.
 */
module Entries {
  import opened Wrappers
  import opened Text
  import opened Money

  /** One parsed line: its position among the kept lines, its cents, its trimmed text. */
  datatype Entry = Entry(index: int, cents: int, text: string)

  function DropTrailingCr(s: string): string
  {
    if s != [] && s[|s| - 1] == '\r' then s[..|s| - 1] else s
  }

  /** `text.split(/\r?\n/)`: split at every '\n', together with a '\r' right before it. */
  function SplitLines(text: string): (lines: seq<string>)
    ensures |lines| == |Split(text, '\n')| >= 1
    ensures forall k :: 0 <= k < |lines| ==> '\n' !in lines[k]
  {
    var parts := Split(text, '\n');
    seq(|parts|, k requires 0 <= k < |parts| =>
      if k < |parts| - 1 then DropTrailingCr(parts[k]) else parts[k])
  }

  /**
   * What one line contributes: nothing when its trimmed text is blank or
   * does not parse, otherwise the trimmed text and its cents.
   */
  function LineAmount(line: string): Option<(string, int)>
  {
    var raw := Trim(line);
    if raw == [] then None
    else match ParseMoneyToCents(raw)
      case None => None
      case Some(cents) => Some((raw, cents))
  }

  /** The kept lines, in line order, with their amounts. */
  function KeptLines(lines: seq<string>): seq<(string, int)>
  {
    if lines == [] then []
    else
      var last := LineAmount(lines[|lines| - 1]);
      KeptLines(lines[..|lines| - 1]) + (if last.Some? then [last.value] else [])
  }

  /** The positions of the kept lines, in line order. */
  function KeptAt(lines: seq<string>): seq<nat>
  {
    if lines == [] then []
    else
      var n := |lines| - 1;
      KeptAt(lines[..n]) + (if LineAmount(lines[n]).Some? then [n] else [])
  }

  /** Numbering the kept lines densely from 0. */
  function Numbered(kept: seq<(string, int)>): (es: seq<Entry>)
    ensures |es| == |kept|
    ensures forall k :: 0 <= k < |es| ==> es[k] == Entry(k, kept[k].1, kept[k].0)
  {
    seq(|kept|, k requires 0 <= k < |kept| => Entry(k, kept[k].1, kept[k].0))
  }

  /** The entries of a pasted text. */
  function EntriesOf(text: string): seq<Entry>
  {
    Numbered(KeptLines(SplitLines(text)))
  }

  /**
   * `parseLinesToEntries`: one pass over the lines, skipping blank lines and
   * lines whose amount does not parse, numbering the rest as they are kept.
   */
  method ParseLinesToEntries(text: string) returns (out: seq<Entry>)
    ensures out == EntriesOf(text)
  {
    var lines := SplitLines(text);
    out := [];
    for i := 0 to |lines|
      invariant out == Numbered(KeptLines(lines[..i]))
    {
      KeptStep(lines, i);
      var raw := Trim(lines[i]);
      if raw == [] {
        continue;
      }
      var cents := ParseMoneyToCents(raw);
      if cents.None? {
        continue;
      }
      NumberedAppend(KeptLines(lines[..i]), (raw, cents.value));
      out := out + [Entry(|out|, cents.value, raw)];
    }
    assert lines[..|lines|] == lines;
  }

  lemma KeptStep(lines: seq<string>, i: nat)
    requires i < |lines|
    ensures KeptLines(lines[..i + 1]) == KeptLines(lines[..i]) +
      (if LineAmount(lines[i]).Some? then [LineAmount(lines[i]).value] else [])
  {
    assert lines[..i + 1][..i] == lines[..i];
  }

  lemma NumberedAppend(kept: seq<(string, int)>, x: (string, int))
    ensures Numbered(kept + [x]) == Numbered(kept) + [Entry(|kept|, x.1, x.0)]
  {
  }

  /** Every kept pair comes from some line: its text is that line trimmed, non-blank, and parses to its cents. */
  lemma {:induction false} KeptLinesSound(lines: seq<string>, k: nat)
    requires k < |KeptLines(lines)|
    ensures exists j :: 0 <= j < |lines| && LineAmount(lines[j]) == Some(KeptLines(lines)[k])
  {
    var n := |lines| - 1;
    var front := KeptLines(lines[..n]);
    if k < |front| {
      KeptLinesSound(lines[..n], k);
      var j :| 0 <= j < n && LineAmount(lines[..n][j]) == Some(front[k]);
      assert lines[..n][j] == lines[j];
    } else {
      assert LineAmount(lines[n]) == Some(KeptLines(lines)[k]);
    }
  }

  /** Every line that is non-blank and parses contributes its pair. */
  lemma {:induction false} KeptLinesComplete(lines: seq<string>, j: nat)
    requires j < |lines| && LineAmount(lines[j]).Some?
    ensures LineAmount(lines[j]).value in KeptLines(lines)
  {
    var n := |lines| - 1;
    if j < n {
      KeptLinesComplete(lines[..n], j);
      assert lines[..n][j] == lines[j];
    }
  }

  /**
   * The entries of a text: entry k is numbered k, its text is a non-blank
   * trimmed line of the input with no surrounding whitespace, and its cents
   * are what that text parses to.
   */
  lemma EntriesSound(text: string, k: nat)
    requires k < |EntriesOf(text)|
    ensures var e := EntriesOf(text)[k];
      && e.index == k && e.text != [] && Trim(e.text) == e.text
      && ParseMoneyToCents(e.text) == Some(e.cents)
      && exists j :: 0 <= j < |SplitLines(text)| && Trim(SplitLines(text)[j]) == e.text
  {
    var lines := SplitLines(text);
    KeptLinesSound(lines, k);
    var j :| 0 <= j < |lines| && LineAmount(lines[j]) == Some(KeptLines(lines)[k]);
    TrimProperties(lines[j]);
  }

  /** Every line whose trimmed text is non-blank and parses becomes an entry. */
  lemma EntriesComplete(text: string, j: nat)
    requires j < |SplitLines(text)|
    requires Trim(SplitLines(text)[j]) != [] && ParseMoneyToCents(Trim(SplitLines(text)[j])).Some?
    ensures exists k ::
      && 0 <= k < |EntriesOf(text)|
      && EntriesOf(text)[k].text == Trim(SplitLines(text)[j])
      && Some(EntriesOf(text)[k].cents) == ParseMoneyToCents(Trim(SplitLines(text)[j]))
  {
    var lines := SplitLines(text);
    KeptLinesComplete(lines, j);
    var kept := KeptLines(lines);
    var k :| 0 <= k < |kept| && kept[k] == LineAmount(lines[j]).value;
    assert EntriesOf(text)[k] == Entry(k, kept[k].1, kept[k].0);
  }

  /**
   * The kept lines are exactly the lines that contribute, one pair per such
   * line, in strictly increasing line order.
   */
  lemma KeptAtSpec(lines: seq<string>)
    ensures var js := KeptAt(lines);
      && |js| == |KeptLines(lines)|
      && (forall k :: 0 <= k < |js| ==> js[k] < |lines| && LineAmount(lines[js[k]]) == Some(KeptLines(lines)[k]))
      && (forall a, b :: 0 <= a < b < |js| ==> js[a] < js[b])
      && (forall j :: 0 <= j < |lines| ==> (LineAmount(lines[j]).Some? <==> j in js))
  {
    KeptAtOrdered(lines);
    KeptAtMatches(lines);
    KeptAtMembers(lines);
  }

  lemma KeptAtSnoc(lines: seq<string>)
    requires lines != []
    ensures var n := |lines| - 1; var last := LineAmount(lines[n]);
      && KeptAt(lines) == KeptAt(lines[..n]) + (if last.Some? then [n] else [])
      && KeptLines(lines) == KeptLines(lines[..n]) + (if last.Some? then [last.value] else [])
  {
  }

  lemma {:induction false} KeptAtOrdered(lines: seq<string>)
    ensures var js := KeptAt(lines);
      && |js| == |KeptLines(lines)|
      && (forall k :: 0 <= k < |js| ==> js[k] < |lines|)
      && (forall a, b :: 0 <= a < b < |js| ==> js[a] < js[b])
  {
    if lines != [] {
      KeptAtSnoc(lines);
      KeptAtOrdered(lines[..|lines| - 1]);
    }
  }

  lemma {:induction false} KeptAtMatches(lines: seq<string>)
    ensures var js := KeptAt(lines);
      |js| == |KeptLines(lines)| &&
      forall k :: 0 <= k < |js| ==> js[k] < |lines| && LineAmount(lines[js[k]]) == Some(KeptLines(lines)[k])
  {
    KeptAtOrdered(lines);
    if lines != [] {
      var n := |lines| - 1;
      var pre := lines[..n];
      KeptAtSnoc(lines);
      KeptAtMatches(pre);
      var jp, kp := KeptAt(pre), KeptLines(pre);
      var js, kept := KeptAt(lines), KeptLines(lines);
      forall k | 0 <= k < |js|
        ensures LineAmount(lines[js[k]]) == Some(kept[k])
      {
        if k < |jp| {
          assert js[k] == jp[k] && kept[k] == kp[k];
          assert pre[jp[k]] == lines[jp[k]];
        }
      }
    }
  }

  lemma {:induction false} KeptAtMembers(lines: seq<string>)
    ensures forall j :: 0 <= j < |lines| ==> (LineAmount(lines[j]).Some? <==> j in KeptAt(lines))
  {
    if lines != [] {
      var n := |lines| - 1;
      var pre := lines[..n];
      var some := LineAmount(lines[n]).Some?;
      KeptAtSnoc(lines);
      KeptAtOrdered(pre);
      KeptAtMembers(pre);
      forall j | 0 <= j < |lines|
        ensures LineAmount(lines[j]).Some? <==> j in KeptAt(lines)
      {
        SnocMembers(KeptAt(pre), n, some, j);
        if j < n {
          assert pre[j] == lines[j];
        }
      }
    }
  }

  /** Membership after appending `n` (when `b`) to positions all below `n`. */
  lemma SnocMembers(jp: seq<nat>, n: nat, b: bool, j: nat)
    requires forall k :: 0 <= k < |jp| ==> jp[k] < n
    ensures j in jp + (if b then [n] else []) <==> if j == n then b else j in jp
  {
  }

  /**
   * The entries follow the line order: entry k stands for line `js[k]`, the
   * positions are strictly increasing, and every non-blank line whose
   * amount parses is among them.
   */
  lemma EntriesInLineOrder(text: string)
    ensures var lines, es, js := SplitLines(text), EntriesOf(text), KeptAt(SplitLines(text));
      && |js| == |es|
      && (forall a, b :: 0 <= a < b < |js| ==> js[a] < js[b])
      && (forall k :: 0 <= k < |js| ==>
            js[k] < |lines| && es[k].index == k && es[k].text == Trim(lines[js[k]])
            && Some(es[k].cents) == ParseMoneyToCents(Trim(lines[js[k]])))
      && (forall j :: 0 <= j < |lines| ==>
            (Trim(lines[j]) != [] && ParseMoneyToCents(Trim(lines[j])).Some? <==> j in js))
  {
    var lines := SplitLines(text);
    KeptAtSpec(lines);
  }
}
