/**
 * The date and time formatters of view/script/controllers/utils.js, used to
 * prefill the scheduling form. The `Date` getters are passed in as numbers:
 * `month0` is `getMonth()` (0 for January).
 */
module Dates {
  import opened Text

  /** `String(n).padStart(2, "0")`. */
  function Pad2(n: nat): string {
    var s := NatToString(n);
    if |s| < 2 then "0" + s else s
  }

  /** Decimal renderings have one digit below 10, two below 100, and more from 100 on. */
  lemma NatToStringLength(n: nat)
    ensures n < 10 ==> |NatToString(n)| == 1
    ensures 10 <= n < 100 ==> |NatToString(n)| == 2
    ensures 100 <= n < 1000 ==> |NatToString(n)| == 3
    ensures 1000 <= n < 10000 ==> |NatToString(n)| == 4
    ensures 10000 <= n ==> |NatToString(n)| > 4
    decreases n
  {
    if n >= 10 {
      NatToStringLength(n / 10);
    }
  }

  /**
   * Values 0-9 get exactly one leading "0", larger ones are left as they
   * are; below 100 the result has two characters, and it always reads back
   * as the value.
   */
  lemma Pad2Spec(n: nat)
    ensures AllDigits(Pad2(n)) && ParseNat(Pad2(n)) == n
    ensures n < 10 ==> Pad2(n) == ['0', DigitChar(n)]
    ensures n >= 10 ==> Pad2(n) == NatToString(n)
    ensures n < 100 <==> |Pad2(n)| == 2
  {
    NatToStringLength(n);
    NatToStringRoundTrip(n);
    if n < 10 {
      var p := Pad2(n);
      assert p[..1] == ['0'];
      assert ParseNat(p[..1]) == ParseNat([]) * 10 + DigitValue('0');
    }
  }

  /** `formatTime`: `HH:MM`. */
  function FormatTime(hours: nat, minutes: nat): string {
    Pad2(hours) + ":" + Pad2(minutes)
  }

  /** Any clock time has the five-character `HH:MM` shape and both numbers read back. */
  lemma FormatTimeSpec(hours: nat, minutes: nat)
    requires hours < 100 && minutes < 100
    ensures var r := FormatTime(hours, minutes);
      && |r| == 5 && r[2] == ':'
      && AllDigits(r[..2]) && ParseNat(r[..2]) == hours
      && AllDigits(r[3..]) && ParseNat(r[3..]) == minutes
  {
    Pad2Spec(hours);
    Pad2Spec(minutes);
    var r := FormatTime(hours, minutes);
    assert r[..2] == Pad2(hours) && r[3..] == Pad2(minutes);
  }

  /** `formatDate`: `YYYY-MM-DD` with the year unpadded. */
  function FormatDate(year: int, month0: nat, day: nat): string {
    IntToString(year) + "-" + Pad2(month0 + 1) + "-" + Pad2(day)
  }

  /**
   * The month and day always take two characters each and read back, and
   * what precedes the last six characters is the year, which reads back too.
   */
  lemma FormatDateSpec(year: int, month0: nat, day: nat)
    requires month0 < 12 && 1 <= day <= 31
    ensures var r := FormatDate(year, month0, day);
      && |r| == |IntToString(year)| + 6
      && r[|r| - 6] == '-' && r[|r| - 3] == '-'
      && AllDigits(r[|r| - 5..|r| - 3]) && ParseNat(r[|r| - 5..|r| - 3]) == month0 + 1
      && AllDigits(r[|r| - 2..]) && ParseNat(r[|r| - 2..]) == day
      && IsIntString(r[..|r| - 6]) && ParseInt(r[..|r| - 6]) == year
  {
    Pad2Spec(month0 + 1);
    Pad2Spec(day);
    IntToStringRoundTrip(year);
    var y := IntToString(year);
    var m := Pad2(month0 + 1);
    var d := Pad2(day);
    var r := FormatDate(year, month0, day);
    assert r == y + "-" + m + "-" + d;
    assert |m| == 2 && |d| == 2;
    var n := |y|;
    assert |r| == n + 6;
    assert r[..n] == y;
    assert r[n] == '-' && r[n + 3] == '-';
    assert r[n + 1..n + 3] == m;
    assert r[n + 4..] == d;
  }

  /** The year is not padded: four-digit years give ten characters, shorter years fewer. */
  lemma FormatDateLength(year: int, month0: nat, day: nat)
    requires month0 < 12 && 1 <= day <= 31
    ensures 1000 <= year < 10000 ==> |FormatDate(year, month0, day)| == 10
    ensures 0 <= year < 1000 ==> |FormatDate(year, month0, day)| < 10
    ensures year < 0 ==> |FormatDate(year, month0, day)| >= 8
  {
    Pad2Spec(month0 + 1);
    Pad2Spec(day);
    if year >= 0 {
      NatToStringLength(year);
    }
  }
}
