/**
 * The money helpers of the combination finder: reading a free-form amount
 * ("$1,234.56", "(12.00)", "-3") as signed integer cents, and rendering cents
 * as a plain decimal ("-1234.56") or for display ("-$1,234.56").
 */
module Money {
  import opened Wrappers
  import opened Text

  function Abs(x: int): nat
  {
    if x < 0 then -x else x
  }

  /** `/^\(.*\)$/.test(s)`: `.` matches anything but a line terminator. */
  predicate IsParenWrapped(s: string)
  {
    && |s| >= 2 && s[0] == '(' && s[|s| - 1] == ')'
    && forall k :: 1 <= k < |s| - 1 ==> !IsLineTerminator(s[k])
  }

  /** The sign marker, collected from the trimmed text before any cleaning. */
  predicate HasNegativeMarker(s: string)
  {
    IsParenWrapped(s) || (s != [] && s[0] == '-')
  }

  predicate IsNumericChar(c: char)
  {
    IsDigit(c) || c == '.'
  }

  predicate IsNumericText(t: string)
  {
    forall k :: 0 <= k < |t| ==> IsNumericChar(t[k])
  }

  /** `.replace(/[()]/g, '')` */
  function RemoveParens(s: string): (r: string)
    ensures forall k :: 0 <= k < |r| ==> r[k] != '(' && r[k] != ')'
  {
    if s == [] then []
    else (if s[0] == '(' || s[0] == ')' then [] else [s[0]]) + RemoveParens(s[1..])
  }

  /** `.replace(/[^0-9.]/g, '')` */
  function KeepNumeric(s: string): (r: string)
    ensures IsNumericText(r)
  {
    if s == [] then []
    else (if IsNumericChar(s[0]) then [s[0]] else []) + KeepNumeric(s[1..])
  }

  lemma {:induction false} KeepNumericAppend(a: string, b: string)
    ensures KeepNumeric(a + b) == KeepNumeric(a) + KeepNumeric(b)
  {
    if a != [] {
      assert (a + b)[1..] == a[1..] + b;
      KeepNumericAppend(a[1..], b);
    } else {
      assert a + b == b;
    }
  }

  lemma {:induction false} KeepNumericOfNumeric(t: string)
    requires IsNumericText(t)
    ensures KeepNumeric(t) == t
  {
    if t != [] {
      KeepNumericOfNumeric(t[1..]);
    }
  }

  lemma {:induction false} KeepNumericIgnoresParens(s: string)
    ensures KeepNumeric(RemoveParens(s)) == KeepNumeric(s)
  {
    if s != [] {
      var head := if s[0] == '(' || s[0] == ')' then [] else [s[0]];
      KeepNumericAppend(head, RemoveParens(s[1..]));
      KeepNumericIgnoresParens(s[1..]);
    }
  }

  /**
   * The cleaning chain: drop parentheses, keep digits and dots, trim. It
   * amounts to keeping the digits and dots of the text, in order.
   */
  function Clean(s: string): (r: string)
    ensures r == KeepNumeric(s)
  {
    CleanIsNumericFilter(s);
    Trim(KeepNumeric(RemoveParens(s)))
  }

  lemma CleanIsNumericFilter(s: string)
    ensures Trim(KeepNumeric(RemoveParens(s))) == KeepNumeric(s)
  {
    KeepNumericIgnoresParens(s);
    var t := KeepNumeric(s);
    if t != [] {
      assert IsNumericChar(t[0]) && IsNumericChar(t[|t| - 1]);
    }
    TrimOfTrimmed(t);
  }

  /** An exact decimal number: `mantissa / 10^scale`. */
  datatype Decimal = Decimal(mantissa: nat, scale: nat)

  function IndexOf(t: string, c: char): (i: nat)
    requires c in t
    ensures i < |t| && t[i] == c && c !in t[..i]
  {
    if t[0] == c then 0 else 1 + IndexOf(t[1..], c)
  }

  /**
   * `Number(t)` for a text of digits and dots: a digit string with at most one
   * dot, read exactly; "" reads as 0; "." and two dots are not a number.
   */
  function ParseDecimal(t: string): Option<Decimal>
    requires IsNumericText(t)
  {
    if '.' !in t then Some(Decimal(DigitsValue(t), 0))
    else
      var p := IndexOf(t, '.');
      var whole, frac := t[..p], t[p + 1..];
      if '.' in frac || (whole == [] && frac == []) then None
      else Some(Decimal(DigitsValue(whole + frac), |frac|))
  }

  /** `Math.round(num * 100)` for a non-negative number, computed exactly. */
  function RoundToCents(d: Decimal): nat
  {
    Quotient(d.mantissa * 200 + Pow10(d.scale), 2 * Pow10(d.scale))
  }

  function Quotient(x: nat, y: nat): nat
    requires y > 0
  {
    x / y
  }

  /** The rounding is to the nearest cent, halves going up. */
  lemma RoundToCentsNearest(d: Decimal)
    ensures var p, r := Pow10(d.scale), RoundToCents(d);
      2 * p * r <= 200 * d.mantissa + p < 2 * p * (r + 1)
  {
    var p := Pow10(d.scale);
    DivBounds(d.mantissa * 200 + p, 2 * p);
  }

  lemma DivBounds(x: nat, y: nat)
    requires y > 0
    ensures y * Quotient(x, y) <= x < y * (Quotient(x, y) + 1)
  {
  }

  function Signed(negative: bool, magnitude: nat): int
  {
    if negative then -(magnitude as int) else magnitude
  }

  /** `parseMoneyToCents`: signed integer cents, or None where the source yields NaN. */
  function ParseMoneyToCents(raw: string): Option<int>
  {
    var s := Trim(raw);
    if s == [] then None
    else
      var negative := HasNegativeMarker(s);
      var cleaned := Clean(s);
      if cleaned == [] then None
      else
        match ParseDecimal(cleaned)
        case None => None
        case Some(num) =>
          Some(Signed(negative, RoundToCents(num)))
  }

  /** `String(n).padStart(2, '0')` */
  function PadStart2(s: string): string
  {
    if |s| >= 2 then s else if |s| == 1 then ['0'] + s else "00"
  }

  lemma TwoDigits(n: nat)
    requires n < 100
    ensures var f := PadStart2(NatToString(n)); |f| == 2 && AllDigits(f) && DigitsValue(f) == n
  {
    NatToStringValue(n);
    var s := NatToString(n);
    if |s| == 1 {
      DigitsValueAppend("0", s);
    }
  }

  /** `formatPlainDollars`: an optional '-', the dollars, '.', two cent digits. */
  function FormatPlainDollars(cents: int): string
  {
    var neg := if cents < 0 then "-" else "";
    var abs := Abs(cents);
    var dollars := abs / 100;
    var rem := PadStart2(NatToString(abs % 100));
    neg + NatToString(dollars) + "." + rem
  }

  /**
   * The plain rendering is '-' exactly for a negative amount, then the
   * dollars, then '.', then exactly two digits holding the cents.
   */
  lemma FormatPlainDollarsShape(cents: int)
    ensures var r := FormatPlainDollars(cents); var lead := if cents < 0 then 1 else 0;
      && |r| >= lead + 4
      && (r[0] == '-' <==> cents < 0)
      && AllDigits(r[lead..|r| - 3]) && DigitsValue(r[lead..|r| - 3]) == Abs(cents) / 100
      && r[|r| - 3] == '.'
      && AllDigits(r[|r| - 2..]) && DigitsValue(r[|r| - 2..]) == Abs(cents) % 100
  {
    var neg := if cents < 0 then "-" else "";
    var abs := Abs(cents);
    TwoDigits(abs % 100);
    NatToStringValue(abs / 100);
    PlainShape(neg, NatToString(abs / 100), PadStart2(NatToString(abs % 100)));
  }

  lemma PlainShape(neg: string, w: string, f: string)
    requires |f| == 2 && |neg| <= 1
    ensures var r := neg + w + "." + f;
      && |r| == |neg| + |w| + 3
      && r[|neg|..|r| - 3] == w && r[|r| - 3] == '.' && r[|r| - 2..] == f
      && (neg != [] ==> r[0] == neg[0]) && (neg == [] && w != [] ==> r[0] == w[0])
  {
    var r := neg + w + "." + f;
    assert r[|neg|..|r| - 3] == w;
    assert r[|r| - 2..] == f;
  }

  /** `dollars.toLocaleString()` in the en-US locale: digits grouped by three with ','. */
  function GroupThousands(ds: string): (r: string)
    requires AllDigits(ds)
    ensures |ds| > 0 ==> |r| > 0 && IsDigit(r[0]) && IsDigit(r[|r| - 1])
  {
    if |ds| <= 3 then ds
    else GroupThousands(ds[..|ds| - 3]) + "," + ds[|ds| - 3..]
  }

  /** `formatCents`: sign, '$', grouped dollars, and the cents after '.'. */
  function FormatCents(cents: int): string
  {
    var sign := if cents < 0 then "-" else "";
    var abs := Abs(cents);
    var dollars := abs / 100;
    var remainder := abs % 100;
    var remStr := PadStart2(NatToString(remainder));
    sign + "$" + GroupThousands(NatToString(dollars)) + (if remainder != 0 then "." + remStr else ".00")
  }
}

module MoneyProperties {
  import opened Wrappers
  import opened Text
  import opened Money

  predicate HasDigit(t: string)
  {
    exists k :: 0 <= k < |t| && IsDigit(t[k])
  }

  predicate AtMostOneDot(t: string)
  {
    forall a, b :: 0 <= a < b < |t| && t[a] == '.' ==> t[b] != '.'
  }

  /** `Number` rejects a numeric text exactly when it has no digit or two dots. */
  lemma ParseDecimalFails(t: string)
    requires IsNumericText(t) && t != []
    ensures ParseDecimal(t).None? <==> !HasDigit(t) || !AtMostOneDot(t)
  {
    if '.' !in t {
      assert IsDigit(t[0]);
      forall a | 0 <= a < |t| ensures t[a] != '.' {
        assert t[a] in t;
      }
    } else {
      var p := IndexOf(t, '.');
      var whole, frac := t[..p], t[p + 1..];
      assert forall a :: 0 <= a < p ==> t[a] == whole[a];
      assert forall j :: 0 <= j < |frac| ==> t[p + 1 + j] == frac[j];
      if '.' in frac {
        var j :| 0 <= j < |frac| && frac[j] == '.';
        assert t[p] == '.' && t[p + 1 + j] == '.';
      } else if whole == [] && frac == [] {
        assert t == ['.'];
      } else {
        if whole != [] {
          assert t[0] == whole[0] && whole[0] in whole;
        } else {
          assert t[p + 1] == frac[0] && frac[0] in frac;
        }
        forall a, b | 0 <= a < b < |t| && t[a] == '.' ensures t[b] != '.' {
          if a == p {
            assert frac[b - p - 1] in frac;
          }
        }
      }
    }
  }

  /**
   * The text is rejected (NaN) exactly when it is blank, or when its digits
   * and dots do not form a number: no digit at all, or more than one dot.
   */
  lemma ParseMoneyFails(raw: string)
    ensures var s := Trim(raw); var t := KeepNumeric(s);
      ParseMoneyToCents(raw).None? <==> s == [] || !HasDigit(t) || !AtMostOneDot(t)
  {
    var s := Trim(raw);
    if s != [] {
      var t := KeepNumeric(s);
      if t != [] {
        ParseDecimalFails(t);
      }
    }
  }

  /** Up to two fractional digits as cents: "5" is 50 cents, "05" is 5. */
  function FractionCents(x: nat, k: nat): nat
    requires k <= 2
  {
    if k == 0 then x * 100 else if k == 1 then x * 10 else x
  }

  /** The cents written as `whole.frac`, with at most two fractional digits. */
  function WrittenCents(whole: string, frac: string): nat
    requires AllDigits(whole) && AllDigits(frac) && |frac| <= 2
  {
    DigitsValue(whole) * 100 + FractionCents(DigitsValue(frac), |frac|)
  }

  /** With at most two fractional digits the rounding is exact. */
  lemma RoundExact(m: nat, k: nat)
    requires k <= 2
    ensures RoundToCents(Decimal(m, k)) == FractionCents(m, k)
  {
    var p := Pow10(k);
    DivBounds(m * 200 + p, 2 * p);
    if k == 0 {
      assert p == 1;
    } else if k == 1 {
      assert p == 10;
    } else {
      assert p == 100;
    }
  }

  /**
   * A text whose digits and dots are `whole.frac` (or just `whole`), with at
   * most two fractional digits, reads as exactly that many cents, negative
   * exactly when the trimmed text starts with '-' or is wrapped in parentheses.
   */
  lemma ParseMoneyExact(raw: string, whole: string, frac: string, dot: bool)
    requires AllDigits(whole) && AllDigits(frac) && |frac| <= 2 && whole + frac != []
    requires !dot ==> frac == []
    requires KeepNumeric(Trim(raw)) == if dot then whole + "." + frac else whole
    ensures ParseMoneyToCents(raw) == Some(Signed(HasNegativeMarker(Trim(raw)), WrittenCents(whole, frac)))
  {
    var s := Trim(raw);
    var t := if dot then whole + "." + frac else whole;
    assert Clean(s) == t;
    ParseDecimalOfParts(whole, frac, dot);
    CentsOfParts(whole, frac);
    var d := Decimal(DigitsValue(whole + frac), |frac|);
    assert ParseDecimal(t) == Some(d);
    assert ParseMoneyToCents(raw) == Some(Signed(HasNegativeMarker(s), RoundToCents(d)));
  }

  lemma ParseDecimalOfParts(whole: string, frac: string, dot: bool)
    requires AllDigits(whole) && AllDigits(frac) && whole + frac != []
    requires !dot ==> frac == []
    ensures AllDigits(whole + frac)
    ensures var t := if dot then whole + "." + frac else whole;
      IsNumericText(t) && ParseDecimal(t) == Some(Decimal(DigitsValue(whole + frac), |frac|))
  {
    assert AllDigits(whole + frac);
    var t := if dot then whole + "." + frac else whole;
    if !dot {
      assert whole + frac == whole;
      assert '.' !in t by {
        forall a | 0 <= a < |t| ensures t[a] != '.' {
          assert IsDigit(whole[a]);
        }
      }
    } else {
      assert t[|whole|] == '.';
      assert '.' !in t[..|whole|] by {
        assert t[..|whole|] == whole;
        forall a | 0 <= a < |whole| ensures whole[a] != '.' {
          assert IsDigit(whole[a]);
        }
      }
      var p := IndexOf(t, '.');
      assert p == |whole|;
      assert t[..p] == whole && t[p + 1..] == frac;
      assert '.' !in frac by {
        forall a | 0 <= a < |frac| ensures frac[a] != '.' {
          assert IsDigit(frac[a]);
        }
      }
    }
  }

  lemma CentsOfParts(whole: string, frac: string)
    requires AllDigits(whole) && AllDigits(frac) && |frac| <= 2
    ensures AllDigits(whole + frac)
    ensures RoundToCents(Decimal(DigitsValue(whole + frac), |frac|)) == WrittenCents(whole, frac)
  {
    ShortFractionValue(whole, frac);
    RoundExact(DigitsValue(whole + frac), |frac|);
  }

  lemma ShortFractionValue(whole: string, frac: string)
    requires AllDigits(whole) && AllDigits(frac) && |frac| <= 2
    ensures AllDigits(whole + frac)
    ensures FractionCents(DigitsValue(whole + frac), |frac|)
      == DigitsValue(whole) * 100 + FractionCents(DigitsValue(frac), |frac|)
  {
    DigitsValueAppend(whole, frac);
    if |frac| == 0 {
      assert whole + frac == whole;
    } else if |frac| == 1 {
      assert Pow10(1) == 10;
    } else {
      assert Pow10(2) == 100;
    }
  }

  /**
   * A rendering that starts with neither whitespace nor '(' and ends with a
   * digit, whose digits and dots are `whole.ff`, reads back as those cents.
   */
  lemma ParseRendered(r: string, whole: string, frac: string)
    requires r != [] && !IsJsWhitespace(r[0]) && r[0] != '(' && IsDigit(r[|r| - 1])
    requires AllDigits(whole) && whole != [] && AllDigits(frac) && |frac| == 2
    requires KeepNumeric(r) == whole + "." + frac
    ensures ParseMoneyToCents(r) == Some(Signed(r[0] == '-', WrittenCents(whole, frac)))
  {
    TrimOfTrimmed(r);
    assert !IsParenWrapped(r);
    assert HasNegativeMarker(Trim(r)) == (r[0] == '-');
    ParseMoneyExact(r, whole, frac, true);
  }

  /** Keeping the digits and dots of `prefix mid . frac`, for a prefix without any. */
  lemma KeepNumericOfRendering(prefix: string, mid: string, frac: string)
    requires forall k :: 0 <= k < |prefix| ==> !IsNumericChar(prefix[k])
    requires IsNumericText(frac)
    ensures KeepNumeric(prefix + mid + "." + frac) == KeepNumeric(mid) + "." + frac
  {
    KeepNumericAppend(prefix + mid + ".", frac);
    KeepNumericAppend(prefix + mid, ".");
    KeepNumericAppend(prefix, mid);
    KeepNumericOfNumeric(frac);
    KeepNumericOfNone(prefix);
    assert KeepNumeric(".") == ".";
    calc {
      KeepNumeric(prefix + mid + "." + frac);
      KeepNumeric(prefix + mid + ".") + frac;
      KeepNumeric(prefix + mid) + "." + frac;
      { assert KeepNumeric(prefix + mid) == [] + KeepNumeric(mid) == KeepNumeric(mid); }
      KeepNumeric(mid) + "." + frac;
    }
  }

  lemma {:induction false} KeepNumericOfNone(s: string)
    requires forall k :: 0 <= k < |s| ==> !IsNumericChar(s[k])
    ensures KeepNumeric(s) == []
  {
    if s != [] {
      KeepNumericOfNone(s[1..]);
    }
  }

  lemma ParsePlainRendering(neg: bool, w: string, f: string)
    requires AllDigits(w) && w != [] && AllDigits(f) && |f| == 2
    ensures ParseMoneyToCents((if neg then "-" else "") + w + "." + f) == Some(Signed(neg, WrittenCents(w, f)))
  {
    var prefix := if neg then "-" else "";
    var r := prefix + w + "." + f;
    assert r[|r| - 1] == f[1];
    assert r[0] == (if neg then '-' else w[0]);
    KeepNumericOfRendering(prefix, w, f);
    KeepNumericOfNumeric(w);
    ParseRendered(r, w, f);
  }

  /** Reading back the plain rendering of any amount gives the amount. */
  lemma FormatPlainDollarsRoundTrip(cents: int)
    ensures ParseMoneyToCents(FormatPlainDollars(cents)) == Some(cents)
  {
    var abs := Abs(cents);
    var w := NatToString(abs / 100);
    var f := PadStart2(NatToString(abs % 100));
    TwoDigits(abs % 100);
    NatToStringValue(abs / 100);
    var r := FormatPlainDollars(cents);
    assert r == (if cents < 0 then "-" else "") + w + "." + f;
    ParsePlainRendering(cents < 0, w, f);
    assert WrittenCents(w, f) == abs;
    assert Signed(cents < 0, abs) == cents;
  }

  /** Dropping the group separators gives the digits back. */
  lemma {:induction false} KeepNumericOfGrouped(ds: string)
    requires AllDigits(ds)
    ensures KeepNumeric(GroupThousands(ds)) == ds
  {
    if |ds| > 3 {
      var hi, lo := ds[..|ds| - 3], ds[|ds| - 3..];
      KeepNumericOfGrouped(hi);
      KeepNumericOfGroup(GroupThousands(hi), hi, lo);
      assert hi + lo == ds;
    } else {
      KeepNumericOfNumeric(ds);
    }
  }

  lemma KeepNumericOfGroup(g: string, hi: string, lo: string)
    requires KeepNumeric(g) == hi && IsNumericText(lo)
    ensures KeepNumeric(g + "," + lo) == hi + lo
  {
    KeepNumericAppend(g + ",", lo);
    KeepNumericAppend(g, ",");
    KeepNumericOfNumeric(lo);
    assert KeepNumeric(",") == [];
    assert KeepNumeric(g + ",") == hi;
  }

  /** The display rendering always ends in '.' and two digits, the cents. */
  lemma FormatCentsEnding(cents: int)
    ensures var r := FormatCents(cents);
      && |r| >= 5 && r[|r| - 3] == '.'
      && AllDigits(r[|r| - 2..]) && DigitsValue(r[|r| - 2..]) == Abs(cents) % 100
      && (r[0] == '-' <==> cents < 0)
  {
    var abs := Abs(cents);
    var g := GroupThousands(NatToString(abs / 100));
    var f := PadStart2(NatToString(abs % 100));
    TwoDigits(abs % 100);
    var sign := if cents < 0 then "-" else "";
    var r := FormatCents(cents);
    assert r == sign + "$" + g + "." + f;
    assert r[|r| - 2..] == f;
  }

  /** The display rendering spelled out: sign, '$', grouped dollars, '.', two cent digits. */
  lemma FormatCentsParts(cents: int)
    ensures FormatCents(cents) == (if cents < 0 then "-" else "") + "$"
      + GroupThousands(NatToString(Abs(cents) / 100)) + "." + PadStart2(NatToString(Abs(cents) % 100))
  {
  }

  lemma ParseDisplayRendering(neg: bool, w: string, f: string)
    requires AllDigits(w) && w != [] && AllDigits(f) && |f| == 2
    ensures ParseMoneyToCents((if neg then "-" else "") + "$" + GroupThousands(w) + "." + f)
         == Some(Signed(neg, WrittenCents(w, f)))
  {
    var prefix := (if neg then "-" else "") + "$";
    var g := GroupThousands(w);
    var r := prefix + g + "." + f;
    assert r[|r| - 1] == f[1];
    assert r[0] == (if neg then '-' else '$');
    KeepNumericOfRendering(prefix, g, f);
    KeepNumericOfGrouped(w);
    ParseRendered(r, w, f);
  }

  /** Reading back the display rendering (en-US grouping) gives the amount. */
  lemma FormatCentsRoundTrip(cents: int)
    ensures ParseMoneyToCents(FormatCents(cents)) == Some(cents)
  {
    var abs := Abs(cents);
    var w := NatToString(abs / 100);
    var f := PadStart2(NatToString(abs % 100));
    TwoDigits(abs % 100);
    NatToStringValue(abs / 100);
    SplitCents(abs, w, f);
    FormatCentsParts(cents);
    ParseDisplayRendering(cents < 0, w, f);
    assert Signed(cents < 0, WrittenCents(w, f)) == cents;
  }

  lemma SplitCents(abs: nat, w: string, f: string)
    requires AllDigits(w) && AllDigits(f) && |f| == 2
    requires DigitsValue(w) == abs / 100 && DigitsValue(f) == abs % 100
    ensures WrittenCents(w, f) == abs
  {
  }
}
