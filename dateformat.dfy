/**
 * The two date-fns `format` patterns the calendar uses: "dd" for the cell
 * label and "yyyy-MM-dd" (the `full-date` form of section 5.6 of RFC 3339)
 * for the key that identifies a day everywhere in the widget.
 */
module DateFormat {
  import opened Options
  import opened Dates

  function DigitChar(n: int): char
    requires 0 <= n <= 9
  {
    ('0' as int + n) as char
  }

  predicate IsDigit(c: char)
  {
    '0' <= c <= '9'
  }

  function Pow10(k: nat): (p: nat)
    ensures p >= 1
  {
    if k == 0 then 1 else 10 * Pow10(k - 1)
  }

  /** Decimal digits of n, left-padded with zeros to at least `width` characters. */
  function Pad(n: nat, width: nat): string
    decreases n + width
  {
    if n < 10 && width <= 1 then [DigitChar(n)]
    else Pad(n / 10, if width == 0 then 0 else width - 1) + [DigitChar(n % 10)]
  }

  /** The number a string of decimal digits denotes. */
  function DigitsValue(s: string): int
  {
    if s == [] then 0
    else 10 * DigitsValue(s[..|s| - 1]) + (s[|s| - 1] as int - '0' as int)
  }

  /** Reading back a padded number gives the number; the string is all digits. */
  lemma {:induction false} PadValue(n: nat, width: nat)
    ensures |Pad(n, width)| >= 1
    ensures forall i :: 0 <= i < |Pad(n, width)| ==> IsDigit(Pad(n, width)[i])
    ensures DigitsValue(Pad(n, width)) == n
    decreases n + width
  {
    if !(n < 10 && width <= 1) {
      var w := if width == 0 then 0 else width - 1;
      PadValue(n / 10, w);
      var s := Pad(n, width);
      assert s[..|s| - 1] == Pad(n / 10, w);
    }
  }

  /** A number below 10^width fills exactly `width` characters. */
  lemma {:induction false} PadLength(n: nat, width: nat)
    requires width >= 1 && n < Pow10(width)
    ensures |Pad(n, width)| == width
    decreases width
  {
    if !(n < 10 && width <= 1) {
      PadLength(n / 10, width - 1);
    }
  }

  /** format(d, "dd"). */
  function DayLabel(d: Date): string
    requires ValidDate(d)
  {
    Pad(d.day, 2)
  }

  /** format(d, "yyyy-MM-dd"); years of five or more digits are written in full. */
  function Key(d: Date): string
    requires ValidDate(d)
  {
    Pad(d.year, 4) + ("-" + (Pad(d.month, 2) + ("-" + Pad(d.day, 2))))
  }

  /** Reads a `yyyy-MM-dd` string back into its three fields. */
  function ParseKey(s: string): Option<Date>
  {
    if |s| < 7 || s[|s| - 6] != '-' || s[|s| - 3] != '-' then None
    else Some(Date(DigitsValue(s[..|s| - 6]), DigitsValue(s[|s| - 5..|s| - 3]), DigitsValue(s[|s| - 2..])))
  }

  /** Parsing a key gives back the date it was formatted from. */
  lemma KeyRoundTrip(d: Date)
    requires ValidDate(d)
    ensures ParseKey(Key(d)) == Some(d)
  {
    PadValue(d.year, 4);
    PadValue(d.month, 2);
    PadValue(d.day, 2);
    PadLength(d.month, 2);
    PadLength(d.day, 2);
    var y, m, dd := Pad(d.year, 4), Pad(d.month, 2), Pad(d.day, 2);
    var s := Key(d);
    assert s[..|s| - 6] == y;
    assert s[|s| - 5..|s| - 3] == m;
    assert s[|s| - 2..] == dd;
  }

  /** Two dates share a key only if they are the same date. */
  lemma KeyInjective(a: Date, b: Date)
    requires ValidDate(a) && ValidDate(b)
    ensures Key(a) == Key(b) <==> a == b
  {
    KeyRoundTrip(a);
    KeyRoundTrip(b);
  }

  /** Every key has at least the ten characters of `yyyy-MM-dd`. */
  lemma KeyLength(d: Date)
    requires ValidDate(d)
    ensures |Key(d)| >= 10
    ensures d.year < 10000 ==> |Key(d)| == 10
  {
    PadValue(d.year, 4);
    PadValue(d.month, 2);
    PadValue(d.day, 2);
    PadLength(d.month, 2);
    PadLength(d.day, 2);
    if d.year < 10000 {
      PadLength(d.year, 4);
    } else {
      assert Pow10(4) == 10000;
      PadAtLeast(d.year, 4);
    }
  }

  lemma {:induction false} PadAtLeast(n: nat, width: nat)
    ensures |Pad(n, width)| >= width
    decreases n + width
  {
    if !(n < 10 && width <= 1) {
      PadAtLeast(n / 10, if width == 0 then 0 else width - 1);
    }
  }

  /** JavaScript's `<` on strings: lexicographic order of the characters. */
  predicate LexLess(a: string, b: string)
  {
    if a == [] then b != []
    else if b == [] then false
    else a[0] < b[0] || (a[0] == b[0] && LexLess(a[1..], b[1..]))
  }

  lemma {:induction false} LexLessAppend(a: string, b: string, c: string, d: string)
    requires |a| == |c|
    ensures LexLess(a + b, c + d) <==> LexLess(a, c) || (a == c && LexLess(b, d))
  {
    if a != [] {
      assert (a + b)[1..] == a[1..] + b;
      assert (c + d)[1..] == c[1..] + d;
      LexLessAppend(a[1..], b, c[1..], d);
      if a[0] == c[0] && a[1..] == c[1..] {
        assert a == c;
      }
    } else {
      assert a + b == b && c + d == d;
    }
  }

  /** Equal-width padded numbers sort lexicographically as the numbers do. */
  lemma {:induction false} PadOrder(n: nat, m: nat, width: nat)
    requires width >= 1 && n < Pow10(width) && m < Pow10(width)
    ensures LexLess(Pad(n, width), Pad(m, width)) <==> n < m
    decreases width
  {
    if width == 1 {
      assert Pad(n, width) == [DigitChar(n)];
      assert Pad(m, width) == [DigitChar(m)];
      assert [DigitChar(n)][1..] == [] == [DigitChar(m)][1..];
    } else {
      var p, q, x, y := n / 10, m / 10, n % 10, m % 10;
      assert p < Pow10(width - 1) && q < Pow10(width - 1);
      assert Pad(n, width) == Pad(p, width - 1) + [DigitChar(x)];
      assert Pad(m, width) == Pad(q, width - 1) + [DigitChar(y)];
      PadOrder(p, q, width - 1);
      PadLength(p, width - 1);
      PadLength(q, width - 1);
      PadValue(p, width - 1);
      PadValue(q, width - 1);
      LexLessAppend(Pad(p, width - 1), [DigitChar(x)], Pad(q, width - 1), [DigitChar(y)]);
      DigitOrder(x, y);
      DecimalOrder(n, m);
    }
  }

  /** One-digit strings compare as their digits do. */
  lemma DigitOrder(x: int, y: int)
    requires 0 <= x <= 9 && 0 <= y <= 9
    ensures LexLess([DigitChar(x)], [DigitChar(y)]) <==> x < y
  {
    assert [DigitChar(x)][1..] == [] == [DigitChar(y)][1..];
  }

  /** Numbers compare as their leading digits, then their last digit. */
  lemma DecimalOrder(n: nat, m: nat)
    ensures n < m <==> n / 10 < m / 10 || (n / 10 == m / 10 && n % 10 < m % 10)
  {
  }

  /**
   * For four-digit years, comparing keys as strings is comparing the dates:
   * the key order is the chronological order.
   */
  lemma KeyOrder(a: Date, b: Date)
    requires ValidDate(a) && ValidDate(b) && a.year <= 9999 && b.year <= 9999
    ensures LexLess(Key(a), Key(b)) <==> Before(a, b)
  {
    assert Pow10(4) == 10000 && Pow10(2) == 100;
    var ya, ma, da := Pad(a.year, 4), Pad(a.month, 2), Pad(a.day, 2);
    var yb, mb, db := Pad(b.year, 4), Pad(b.month, 2), Pad(b.day, 2);
    PadLength(a.year, 4);
    PadLength(b.year, 4);
    PadLength(a.month, 2);
    PadLength(b.month, 2);
    PadOrder(a.year, b.year, 4);
    PadOrder(a.month, b.month, 2);
    PadOrder(a.day, b.day, 2);
    PadValue(a.year, 4);
    PadValue(b.year, 4);
    PadValue(a.month, 2);
    PadValue(b.month, 2);
    LexLessAppend(ya, "-" + (ma + ("-" + da)), yb, "-" + (mb + ("-" + db)));
    LexLessAppend("-", ma + ("-" + da), "-", mb + ("-" + db));
    LexLessAppend(ma, "-" + da, mb, "-" + db);
    LexLessAppend("-", da, "-", db);
    assert !LexLess("-", "-");
  }
}
