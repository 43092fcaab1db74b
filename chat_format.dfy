/**
  The number formatting of the chat page: the `pad` helper of
  `localTimeString`, the timestamp it builds, and the two-digit minute of a
  message legend, `(minutes + 100).toString().slice(1, 3)`.
*/
module ChatFormat {
  import opened JsString

  /** `pad(x)`: the rendering of `x`, with a '0' in front when it is a single character. */
  function Pad(x: nat): (r: string)
    ensures AllDigits(r) && |r| >= 2
    ensures x < 100 ==> |r| == 2
    ensures x >= 10 ==> r == NatToString(x)
  {
    var s := NatToString(x);
    if |s| > 1 then s else "0" + s
  }

  /** A padded field reads back as the number it renders. */
  lemma PadValue(x: nat)
    ensures DigitsValue(Pad(x)) == x
  {
    NatToStringRoundTrip(x);
    var s := NatToString(x);
    if x < 10 {
      var r := "0" + s;
      assert r[..|r| - 1] == "0";
      assert DigitsValue("0") == 0 by {
        assert "0"[..0] == [];
      }
      assert s[..0] == [];
    }
  }

  /** The calendar fields the host `Date` reports in local time; `month` counts from 0, as `getMonth()` does. */
  datatype DateParts = DateParts(year: nat, month: nat, day: nat, hours: nat, minutes: nat, seconds: nat)

  /** `localTimeString(d)`: "Y-MM-DD hh:mm:ss" with the year unpadded and the month counted from 1. */
  function LocalTimeString(d: DateParts): string
  {
    NatToString(d.year) + "-" + Pad(d.month + 1) + "-" + Pad(d.day)
      + " " + Pad(d.hours) + ":" + Pad(d.minutes) + ":" + Pad(d.seconds)
  }

  predicate InRange(d: DateParts) {
    d.month < 12 && d.day < 100 && d.hours < 100 && d.minutes < 100 && d.seconds < 100
  }

  /** Appending a separator and a two-character field to a prefix. */
  lemma AppendField(p: string, c: char, f: string)
    requires |f| == 2
    ensures var q := p + [c] + f;
      |q| == |p| + 3 && q[..|p|] == p && q[|p|] == c && q[|p| + 1..] == f
  {
    var q := p + [c] + f;
    assert q[..|p|] == p;
    assert q[|p| + 1..] == f;
  }

  /**
    For fields below 100 every padded field is exactly two digits, so the
    separators sit at fixed offsets after the year.
  */
  lemma LocalTimeStringLayout(d: DateParts)
    requires InRange(d)
    ensures var r, y := LocalTimeString(d), |NatToString(d.year)|;
      && |r| == y + 15
      && r[y] == '-' && r[y + 3] == '-' && r[y + 6] == ' ' && r[y + 9] == ':' && r[y + 12] == ':'
      && r[..y] == NatToString(d.year)
      && r[y + 1..y + 3] == Pad(d.month + 1)
      && r[y + 4..y + 6] == Pad(d.day)
      && r[y + 7..y + 9] == Pad(d.hours)
      && r[y + 10..y + 12] == Pad(d.minutes)
      && r[y + 13..] == Pad(d.seconds)
  {
    var mo, dd, hh, mi, ss := Pad(d.month + 1), Pad(d.day), Pad(d.hours), Pad(d.minutes), Pad(d.seconds);
    assert |mo| == 2 && |dd| == 2 && |hh| == 2 && |mi| == 2 && |ss| == 2;
    FieldsLayout(NatToString(d.year), mo, dd, hh, mi, ss);
  }

  /** Each field of `localTimeString` reads back as the value it came from. */
  lemma LocalTimeStringFields(d: DateParts)
    requires InRange(d)
    ensures var r, y := LocalTimeString(d), |NatToString(d.year)|;
      && |r| == y + 15
      && DigitsValue(r[..y]) == d.year
      && DigitsValue(r[y + 1..y + 3]) == d.month + 1
      && DigitsValue(r[y + 4..y + 6]) == d.day
      && DigitsValue(r[y + 7..y + 9]) == d.hours
      && DigitsValue(r[y + 10..y + 12]) == d.minutes
      && DigitsValue(r[y + 13..]) == d.seconds
  {
    LocalTimeStringLayout(d);
    NatToStringRoundTrip(d.year);
    PadValue(d.month + 1);
    PadValue(d.day);
    PadValue(d.hours);
    PadValue(d.minutes);
    PadValue(d.seconds);
  }

  /** Where the year and five two-character fields sit in "Y-mo-dd hh:mi:ss". */
  lemma FieldsLayout(Y: string, mo: string, dd: string, hh: string, mi: string, ss: string)
    requires |mo| == 2 && |dd| == 2 && |hh| == 2 && |mi| == 2 && |ss| == 2
    ensures var r, y := Y + "-" + mo + "-" + dd + " " + hh + ":" + mi + ":" + ss, |Y|;
      && |r| == y + 15
      && r[y] == '-' && r[y + 3] == '-' && r[y + 6] == ' ' && r[y + 9] == ':' && r[y + 12] == ':'
      && r[..y] == Y && r[y + 1..y + 3] == mo && r[y + 4..y + 6] == dd
      && r[y + 7..y + 9] == hh && r[y + 10..y + 12] == mi && r[y + 13..] == ss
  {
    var y := |Y|;
    var r1 := Y + "-" + mo;
    var r2 := r1 + "-" + dd;
    var r3 := r2 + " " + hh;
    var r4 := r3 + ":" + mi;
    var r := r4 + ":" + ss;
    AppendField(Y, '-', mo);
    AppendField(r1, '-', dd);
    AppendField(r2, ' ', hh);
    AppendField(r3, ':', mi);
    AppendField(r4, ':', ss);
    assert r[..y + 12] == r4 && r4[..y + 9] == r3 && r3[..y + 6] == r2 && r2[..y + 3] == r1;
    assert r[..y] == Y by {
      assert r[..y] == r4[..y] == r3[..y] == r2[..y] == r1[..y];
    }
    assert r[y + 1..y + 3] == r1[y + 1..];
    assert r[y + 4..y + 6] == r2[y + 4..];
    assert r[y + 7..y + 9] == r3[y + 7..];
    assert r[y + 10..y + 12] == r4[y + 10..];
  }

  /** The minute of a legend: characters 1 and 2 of the rendering of `minutes + 100`. */
  function TwoDigitMinute(minutes: nat): string
  {
    Slice(NatToString(minutes + 100), 1, 3)
  }

  /** For every minute below 100 the trick yields the same two digits as `pad`. */
  lemma TwoDigitMinuteIsPad(minutes: nat)
    requires minutes < 100
    ensures TwoDigitMinute(minutes) == Pad(minutes)
    ensures |TwoDigitMinute(minutes)| == 2 && DigitsValue(TwoDigitMinute(minutes)) == minutes
  {
    var n := minutes + 100;
    assert n / 10 == 10 + minutes / 10 && n % 10 == minutes % 10;
    var hi := NatToString(10 + minutes / 10);
    assert hi == NatToString(1) + [DigitChar(minutes / 10)];
    assert NatToString(n) == ['1', DigitChar(minutes / 10), DigitChar(minutes % 10)];
    assert TwoDigitMinute(minutes) == [DigitChar(minutes / 10), DigitChar(minutes % 10)];
    if minutes >= 10 {
      assert minutes / 10 < 10;
      assert NatToString(minutes) == [DigitChar(minutes / 10), DigitChar(minutes % 10)];
    } else {
      assert DigitChar(0) == '0';
    }
    PadValue(minutes);
  }
}
