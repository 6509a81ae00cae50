/**
 * `toLocalDatetimeString`: a point in time as the `YYYY-MM-DDThh:mm` text a
 * `datetime-local` input takes, built from its local-time components.
 *
 * The components are parameters: `month0` is the zero-based month that
 * `getMonth()` gives, the others are what `getFullYear()`, `getDate()`,
 * `getHours()` and `getMinutes()` give.
 */
module LocalDatetime {
  import opened JsBuiltins

  /** `pad(n)`: `String(n).padStart(2, '0')`. */
  function Pad(n: int): (r: string)
    ensures |r| >= 2
    ensures |IntToString(n)| >= 2 ==> r == IntToString(n)
  {
    PadStart(IntToString(n), 2, '0')
  }

  /** A one-digit number gets a leading zero; any other number is written as
      it is (a negative one keeps its `-`). */
  lemma PadShape(n: int)
    ensures 0 <= n < 10 ==> Pad(n) == ['0', DigitChar(n)]
    ensures (n >= 10 || n < 0) ==> Pad(n) == IntToString(n)
  {
    if n < 0 {
      assert |IntToString(n)| >= 2;
    } else if n >= 10 {
      assert |NatToString(n)| >= 2;
    }
  }

  /** A padded natural number reads back as itself. */
  lemma PadParses(n: nat)
    ensures AllDigits(Pad(n)) && ParseDecimal(Pad(n)) == n
  {
    var s := NatToString(n);
    ParseNatToString(n);
    if |s| < 2 {
      var z := seq(2 - |s|, _ => '0');
      assert Pad(n) == z + s;
      ParseLeadingZeros(z, s);
    }
  }

  /** Numbers below 100 are padded to exactly two digits. */
  lemma PadTwoDigits(n: nat)
    requires n < 100
    ensures |Pad(n)| == 2
  {
    if n >= 10 {
      assert NatToString(n) == NatToString(n / 10) + [DigitChar(n % 10)];
    }
  }

  /** A four-digit year is written with four digits. */
  lemma FourDigitYear(year: int)
    requires 1000 <= year <= 9999
    ensures |IntToString(year)| == 4 && AllDigits(IntToString(year))
  {
    var n: nat := year;
    assert |NatToString(n / 1000)| == 1;
    assert |NatToString(n / 100)| == 2;
    assert |NatToString(n / 10)| == 3;
  }

  /** The `datetime-local` value for the given local-time components. */
  function ToLocalDatetimeString(year: int, month0: int, day: int, hours: int, minutes: int): string {
    IntToString(year) + "-" + Pad(month0 + 1) + "-" + Pad(day) + "T" + Pad(hours) + ":" + Pad(minutes)
  }

  /** For a four-digit year and in-range components the text is 16
      characters, `YYYY-MM-DDThh:mm`, and each numeric field reads back as
      its component, the month one-based. */
  lemma DatetimeLayout(year: int, month0: int, day: int, hours: int, minutes: int)
    requires 1000 <= year <= 9999 && 0 <= month0 <= 11 && 1 <= day <= 31
    requires 0 <= hours <= 23 && 0 <= minutes <= 59
    ensures var r := ToLocalDatetimeString(year, month0, day, hours, minutes);
      && |r| == 16
      && r[4] == '-' && r[7] == '-' && r[10] == 'T' && r[13] == ':'
      && AllDigits(r[..4]) && ParseDecimal(r[..4]) == year
      && AllDigits(r[5..7]) && ParseDecimal(r[5..7]) == month0 + 1
      && AllDigits(r[8..10]) && ParseDecimal(r[8..10]) == day
      && AllDigits(r[11..13]) && ParseDecimal(r[11..13]) == hours
      && AllDigits(r[14..16]) && ParseDecimal(r[14..16]) == minutes
  {
    FourDigitYear(year);
    ParseNatToString(year);
    PadTwoDigits(month0 + 1);
    PadParses(month0 + 1);
    PadTwoDigits(day);
    PadParses(day);
    PadTwoDigits(hours);
    PadParses(hours);
    PadTwoDigits(minutes);
    PadParses(minutes);
    Fields(IntToString(year), Pad(month0 + 1), Pad(day), Pad(hours), Pad(minutes));
  }

  /** Where the five fields sit in the joined text. */
  lemma Fields(y: string, mo: string, d: string, h: string, mi: string)
    requires |y| == 4 && |mo| == 2 && |d| == 2 && |h| == 2 && |mi| == 2
    ensures var r := y + "-" + mo + "-" + d + "T" + h + ":" + mi;
      && |r| == 16
      && r[4] == '-' && r[7] == '-' && r[10] == 'T' && r[13] == ':'
      && r[..4] == y && r[5..7] == mo && r[8..10] == d && r[11..13] == h && r[14..16] == mi
  {
    var r := y + "-" + mo + "-" + d + "T" + h + ":" + mi;
    assert r[..4] == y;
    assert r[5..7] == mo;
    assert r[8..10] == d;
    assert r[11..13] == h;
    assert r[14..16] == mi;
  }
}
