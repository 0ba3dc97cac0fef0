/**
 * The filing timestamp as the script handles it: read with
 * `strptime(text, '%Y-%m-%d%H:%M:%S')`, written back with
 * `strftime('%Y-%m-%d %H:%M:%S')`, and later compared as a plain `str`.
 */
module Timestamp {
  import opened Wrappers
  import opened Text

  /** The six fields of a `datetime` the script uses. */
  datatype DateTime = DateTime(year: nat, month: nat, day: nat, hour: nat, minute: nat, second: nat)

  /** "YYYY-MM-DDHH:MM:SS", every field zero-padded: how the listing prints a time. */
  predicate CompactLayout(s: string) {
    && |s| == 18
    && s[4] == '-' && s[7] == '-' && s[12] == ':' && s[15] == ':'
    && AllDigits(s[0..4]) && AllDigits(s[5..7]) && AllDigits(s[8..10])
    && AllDigits(s[10..12]) && AllDigits(s[13..15]) && AllDigits(s[16..18])
  }

  /** "YYYY-MM-DD HH:MM:SS": what the script writes into a table row. */
  predicate CanonicalLayout(s: string) {
    && |s| == 19
    && s[4] == '-' && s[7] == '-' && s[10] == ' ' && s[13] == ':' && s[16] == ':'
    && AllDigits(s[0..4]) && AllDigits(s[5..7]) && AllDigits(s[8..10])
    && AllDigits(s[11..13]) && AllDigits(s[14..16]) && AllDigits(s[17..19])
  }

  function CompactFields(s: string): DateTime
    requires CompactLayout(s)
  {
    DateTime(DecimalValue(s[0..4]), DecimalValue(s[5..7]), DecimalValue(s[8..10]),
             DecimalValue(s[10..12]), DecimalValue(s[13..15]), DecimalValue(s[16..18]))
  }

  function CanonicalFields(s: string): DateTime
    requires CanonicalLayout(s)
  {
    DateTime(DecimalValue(s[0..4]), DecimalValue(s[5..7]), DecimalValue(s[8..10]),
             DecimalValue(s[11..13]), DecimalValue(s[14..16]), DecimalValue(s[17..19]))
  }

  predicate IsLeapYear(y: nat) {
    y % 4 == 0 && (y % 100 != 0 || y % 400 == 0)
  }

  function DaysInMonth(y: nat, m: nat): nat
    requires 1 <= m <= 12
  {
    if m == 2 then (if IsLeapYear(y) then 29 else 28)
    else if m == 4 || m == 6 || m == 9 || m == 11 then 30
    else 31
  }

  /** The ranges the `datetime` constructor accepts; anything else raises ValueError. */
  predicate ValidDateTime(d: DateTime) {
    && 1 <= d.year
    && 1 <= d.month <= 12
    && 1 <= d.day <= DaysInMonth(d.year, d.month)
    && d.hour < 24 && d.minute < 60 && d.second < 60
  }

  predicate ValidCompact(s: string) {
    CompactLayout(s) && ValidDateTime(CompactFields(s))
  }

  /**
   * `datetime.strptime(s, '%Y-%m-%d%H:%M:%S').strftime('%Y-%m-%d %H:%M:%S')`;
   * None where strptime raises ValueError.
   */
  function Reformat(s: string): Option<string> {
    if ValidCompact(s) then Some(s[..10] + " " + s[10..]) else None
  }

  /**
   * The reformatting succeeds exactly on the times strptime accepts, and
   * then gives the canonical layout of the same time: the compact text with
   * one space put in after the date.
   */
  lemma ReformatCanonical(s: string)
    ensures Reformat(s).Some? <==> ValidCompact(s)
    ensures Reformat(s).Some? ==>
      var t := Reformat(s).value;
      && CanonicalLayout(t) && CanonicalFields(t) == CompactFields(s)
      && t[10] == ' ' && t[..10] + t[11..] == s
  {
    if ValidCompact(s) {
      var t := s[..10] + " " + s[10..];
      assert t[0..4] == s[0..4] && t[5..7] == s[5..7] && t[8..10] == s[8..10];
      assert t[11..13] == s[10..12] && t[14..16] == s[13..15] && t[17..19] == s[16..18];
      assert t[..10] + t[11..] == s;
    }
  }

  /** A canonical timestamp holds no column separator and no line break. */
  lemma CanonicalIsPlain(s: string)
    requires CanonicalLayout(s)
    ensures '|' !in s && NoLineBreak(s)
  {
    forall i | 0 <= i < |s|
      ensures s[i] != '|' && !IsLineBreak(s[i])
    {
      if i < 4 { assert s[0..4][i] == s[i]; }
      else if 5 <= i < 7 { assert s[5..7][i - 5] == s[i]; }
      else if 8 <= i < 10 { assert s[8..10][i - 8] == s[i]; }
      else if 11 <= i < 13 { assert s[11..13][i - 11] == s[i]; }
      else if 14 <= i < 16 { assert s[14..16][i - 14] == s[i]; }
      else if 17 <= i { assert s[17..19][i - 17] == s[i]; }
    }
  }

  /** `d1` is earlier than `d2`: compare year, then month, day, hour, minute, second. */
  predicate Before(d1: DateTime, d2: DateTime) {
    || d1.year < d2.year
    || (d1.year == d2.year && d1.month < d2.month)
    || (d1.year == d2.year && d1.month == d2.month && d1.day < d2.day)
    || (d1.year == d2.year && d1.month == d2.month && d1.day == d2.day && d1.hour < d2.hour)
    || (d1.year == d2.year && d1.month == d2.month && d1.day == d2.day && d1.hour == d2.hour
        && d1.minute < d2.minute)
    || (d1.year == d2.year && d1.month == d2.month && d1.day == d2.day && d1.hour == d2.hour
        && d1.minute == d2.minute && d1.second < d2.second)
  }

  /** On digit strings of one length, string order is numeric order. */
  lemma {:induction false} DigitsOrder(x: string, y: string)
    requires |x| == |y| && AllDigits(x) && AllDigits(y)
    ensures Less(x, y) <==> DecimalValue(x) < DecimalValue(y)
    ensures x == y <==> DecimalValue(x) == DecimalValue(y)
  {
    if |x| > 0 {
      var n := |x| - 1;
      var x', y' := x[..n], y[..n];
      DigitsOrder(x', y');
      LessSplit(x, y, n);
      assert x[n..] == [x[n]] && y[n..] == [y[n]];
      var dx, dy := x[n] as int - '0' as int, y[n] as int - '0' as int;
      assert DecimalValue(x) == 10 * DecimalValue(x') + dx;
      assert DecimalValue(y) == 10 * DecimalValue(y') + dy;
      assert x == x' + [x[n]] && y == y' + [y[n]];
    }
  }

  /**
   * From index `i`, a digit field of width `w` followed by a separator the two
   * strings share: compare the fields as numbers, then what follows.
   */
  lemma PeelField(x: string, y: string, i: nat, w: nat)
    requires |x| == |y| && i + w < |x| && x[i + w] == y[i + w]
    requires AllDigits(x[i..i + w]) && AllDigits(y[i..i + w])
    ensures Less(x[i..], y[i..]) <==>
      || DecimalValue(x[i..i + w]) < DecimalValue(y[i..i + w])
      || (DecimalValue(x[i..i + w]) == DecimalValue(y[i..i + w]) && Less(x[i + w + 1..], y[i + w + 1..]))
  {
    var x', y' := x[i..], y[i..];
    LessSplit(x', y', w);
    assert x'[..w] == x[i..i + w] && y'[..w] == y[i..i + w];
    DigitsOrder(x[i..i + w], y[i..i + w]);
    assert x'[w..][1..] == x[i + w + 1..] && y'[w..][1..] == y[i + w + 1..];
  }

  /**
   * For canonical timestamps, Python's string comparison is chronological
   * order, which is what lets the merge compare timestamps as strings.
   */
  lemma CanonicalOrderIsChronological(a: string, b: string)
    requires CanonicalLayout(a) && CanonicalLayout(b)
    ensures Less(a, b) <==> Before(CanonicalFields(a), CanonicalFields(b))
  {
    assert a[0..] == a && b[0..] == b;
    PeelField(a, b, 0, 4);
    PeelField(a, b, 5, 2);
    PeelField(a, b, 8, 2);
    TimeOfDayOrder(a, b);
  }

  /** The same, restricted to the "HH:MM:SS" that follows the space. */
  lemma TimeOfDayOrder(a: string, b: string)
    requires CanonicalLayout(a) && CanonicalLayout(b)
    ensures Less(a[11..], b[11..]) <==>
      var d1, d2 := CanonicalFields(a), CanonicalFields(b);
      || d1.hour < d2.hour
      || (d1.hour == d2.hour && d1.minute < d2.minute)
      || (d1.hour == d2.hour && d1.minute == d2.minute && d1.second < d2.second)
  {
    PeelField(a, b, 11, 2);
    PeelField(a, b, 14, 2);
    assert a[17..] == a[17..19] && b[17..] == b[17..19];
    DigitsOrder(a[17..19], b[17..19]);
  }

  /** Two canonical timestamps are the same string exactly when they name the same time. */
  lemma CanonicalFieldsInjective(a: string, b: string)
    requires CanonicalLayout(a) && CanonicalLayout(b)
    ensures a == b <==> CanonicalFields(a) == CanonicalFields(b)
  {
    if CanonicalFields(a) == CanonicalFields(b) {
      DigitsOrder(a[0..4], b[0..4]);
      DigitsOrder(a[5..7], b[5..7]);
      DigitsOrder(a[8..10], b[8..10]);
      DigitsOrder(a[11..13], b[11..13]);
      DigitsOrder(a[14..16], b[14..16]);
      DigitsOrder(a[17..19], b[17..19]);
      forall k | 0 <= k < 19
        ensures a[k] == b[k]
      {
        if k < 4 { assert a[0..4][k] == a[k] && b[0..4][k] == b[k]; }
        else if 5 <= k < 7 { assert a[5..7][k - 5] == a[k] && b[5..7][k - 5] == b[k]; }
        else if 8 <= k < 10 { assert a[8..10][k - 8] == a[k] && b[8..10][k - 8] == b[k]; }
        else if 11 <= k < 13 { assert a[11..13][k - 11] == a[k] && b[11..13][k - 11] == b[k]; }
        else if 14 <= k < 16 { assert a[14..16][k - 14] == a[k] && b[14..16][k - 14] == b[k]; }
        else if 17 <= k { assert a[17..19][k - 17] == a[k] && b[17..19][k - 17] == b[k]; }
      }
    }
  }
}
