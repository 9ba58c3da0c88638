/**
 * The text `displayComboOutput` puts in the output box: a tab-separated
 * table with a header line, one line per member (its index and its plain
 * dollar amount) in index order, and a closing `sum` line.
 */
module ComboExport {
  import opened Wrappers
  import opened Text
  import opened Money
  import opened Ordering
  import opened Combos
  import MoneyProperties

  /** `${n}` for an integer. */
  function IntToString(i: int): string
  {
    if i < 0 then "-" + NatToString(-i) else NatToString(i)
  }

  const Header: string := "index\tamount"

  function MemberLine(it: Item): string
  {
    IntToString(it.index) + "\t" + FormatPlainDollars(it.cents)
  }

  function SumLine(sum: int): string
  {
    "sum\t" + FormatPlainDollars(sum)
  }

  /** `xs.map(f)`. */
  function Map<A, B>(f: A -> B, xs: seq<A>): seq<B>
  {
    seq(|xs|, k requires 0 <= k < |xs| => f(xs[k]))
  }

  lemma MapSnoc<A, B>(f: A -> B, xs: seq<A>, k: nat)
    requires k < |xs|
    ensures Map(f, xs[..k + 1]) == Map(f, xs[..k]) + [f(xs[k])]
  {
  }

  function MemberLines(items: seq<Item>): seq<string>
  {
    Map(MemberLine, items)
  }

  /** The lines of the export, before they are joined. */
  function ExportLines(combo: Combo): seq<string>
  {
    [Header] + MemberLines(Sort(ByIndex, combo.items)) + [SumLine(combo.sum)]
  }

  function ComboText(combo: Combo): string
  {
    Join(ExportLines(combo), "\n")
  }

  /** The string-building part of `displayComboOutput`. */
  method ComboOutput(combo: Combo) returns (text: string)
    ensures text == ComboText(combo)
  {
    var items := Sort(ByIndex, combo.items);
    var lines := [Header];
    for k := 0 to |items|
      invariant lines == [Header] + Map(MemberLine, items[..k])
    {
      MapSnoc(MemberLine, items, k);
      lines := lines + [MemberLine(items[k])];
    }
    assert items[..|items|] == items;
    lines := lines + [SumLine(combo.sum)];
    text := Join(lines, "\n");
  }

  /** A plain dollar rendering is made of '-', digits and '.' only. */
  lemma PlainChars(cents: int)
    ensures forall ch :: ch in FormatPlainDollars(cents) ==> ch == '-' || ch == '.' || IsDigit(ch)
  {
    var abs := Abs(cents);
    TwoDigits(abs % 100);
    var neg := if cents < 0 then "-" else "";
    var w := NatToString(abs / 100);
    var f := PadStart2(NatToString(abs % 100));
    assert FormatPlainDollars(cents) == neg + w + "." + f;
  }

  lemma IntToStringChars(i: int)
    ensures forall ch :: ch in IntToString(i) ==> ch == '-' || IsDigit(ch)
  {
  }

  /** The fields of a line, split at tabs. */
  lemma FieldsOfPair(a: string, b: string)
    requires '\t' !in a && '\t' !in b
    ensures Split(a + "\t" + b, '\t') == [a, b]
  {
    assert Join([a, b], "\t") == a + "\t" + b;
    SplitJoin([a, b], '\t');
  }

  lemma MemberLineFields(it: Item)
    ensures '\n' !in MemberLine(it)
    ensures Split(MemberLine(it), '\t') == [IntToString(it.index), FormatPlainDollars(it.cents)]
  {
    PlainChars(it.cents);
    IntToStringChars(it.index);
    FieldsOfPair(IntToString(it.index), FormatPlainDollars(it.cents));
  }

  lemma SumLineFields(sum: int)
    ensures '\n' !in SumLine(sum)
    ensures Split(SumLine(sum), '\t') == ["sum", FormatPlainDollars(sum)]
  {
    PlainChars(sum);
    assert SumLine(sum) == "sum" + "\t" + FormatPlainDollars(sum);
    FieldsOfPair("sum", FormatPlainDollars(sum));
  }

  lemma LinesSplitBack(combo: Combo)
    ensures Split(ComboText(combo), '\n') == ExportLines(combo)
  {
    var lines := ExportLines(combo);
    var mids := MemberLines(Sort(ByIndex, combo.items));
    MemberLinesFields(Sort(ByIndex, combo.items));
    SumLineFields(combo.sum);
    LinesWithoutNewline(mids, SumLine(combo.sum));
    SplitJoin(lines, '\n');
  }

  /** The header, lines without a newline, and a last line without one. */
  lemma LinesWithoutNewline(mids: seq<string>, last: string)
    requires forall k :: 0 <= k < |mids| ==> '\n' !in mids[k]
    requires '\n' !in last
    ensures var lines := [Header] + mids + [last];
      forall k :: 0 <= k < |lines| ==> '\n' !in lines[k]
  {
    var lines := [Header] + mids + [last];
    forall k | 0 <= k < |lines|
      ensures '\n' !in lines[k]
    {
      if 0 < k < |lines| - 1 {
        assert lines[k] == mids[k - 1];
      }
    }
  }

  /** Every member line is free of newlines and splits at its tab into index and amount. */
  lemma MemberLinesFields(items: seq<Item>)
    ensures forall k :: 0 <= k < |items| ==>
      && '\n' !in MemberLines(items)[k]
      && Split(MemberLines(items)[k], '\t') == [IntToString(items[k].index), FormatPlainDollars(items[k].cents)]
  {
    forall k | 0 <= k < |items|
      ensures '\n' !in MemberLines(items)[k]
      ensures Split(MemberLines(items)[k], '\t') == [IntToString(items[k].index), FormatPlainDollars(items[k].cents)]
    {
      MemberLineFields(items[k]);
    }
  }

  /**
   * Reading the export back: splitting at newlines gives the lines; the
   * first is the header; line `k + 1` splits at the tab into the member's
   * index and amount; the last line splits into `sum` and an amount that
   * parses back to the recorded sum.
   */
  lemma ExportReadsBack(combo: Combo)
    ensures var lines := Split(ComboText(combo), '\n');
      var items := Sort(ByIndex, combo.items);
      && |lines| == |items| + 2
      && lines[0] == Header
      && (forall k :: 0 <= k < |items| ==>
            Split(lines[k + 1], '\t') == [IntToString(items[k].index), FormatPlainDollars(items[k].cents)])
      && Split(lines[|lines| - 1], '\t') == ["sum", FormatPlainDollars(combo.sum)]
      && ParseMoneyToCents(FormatPlainDollars(combo.sum)) == Some(combo.sum)
  {
    LinesSplitBack(combo);
    LineFields(combo);
    MoneyProperties.FormatPlainDollarsRoundTrip(combo.sum);
  }

  lemma LineFields(combo: Combo)
    ensures var lines := ExportLines(combo);
      var items := Sort(ByIndex, combo.items);
      && |lines| == |items| + 2
      && lines[0] == Header
      && (forall k :: 0 <= k < |items| ==>
            Split(lines[k + 1], '\t') == [IntToString(items[k].index), FormatPlainDollars(items[k].cents)])
      && Split(lines[|lines| - 1], '\t') == ["sum", FormatPlainDollars(combo.sum)]
  {
    var items := Sort(ByIndex, combo.items);
    LinesLayout(MemberLines(items), SumLine(combo.sum));
    MemberLinesFields(items);
    SumLineFields(combo.sum);
  }

  lemma LinesLayout(mids: seq<string>, last: string)
    ensures var lines := [Header] + mids + [last];
      && |lines| == |mids| + 2 && lines[0] == Header && lines[|lines| - 1] == last
      && forall k :: 0 <= k < |mids| ==> lines[k + 1] == mids[k]
  {
  }

  /** Each member's amount field parses back to its cents, and a non-negative index field reads back as the index. */
  lemma MemberFieldsReadBack(it: Item)
    ensures ParseMoneyToCents(FormatPlainDollars(it.cents)) == Some(it.cents)
    ensures it.index >= 0 ==> AllDigits(IntToString(it.index)) && DigitsValue(IntToString(it.index)) == it.index
  {
    MoneyProperties.FormatPlainDollarsRoundTrip(it.cents);
    if it.index >= 0 {
      NatToStringValue(it.index);
    }
  }

  /** A combination the search returns is exported in its own member order. */
  lemma ExportKeepsOrder(combo: Combo)
    requires StrictlyOrdered(ByIndex, combo.items)
    ensures Sort(ByIndex, combo.items) == combo.items
  {
    SortOfOrdered(ByIndex, combo.items);
  }
}
