/** Python `datetime` values, reduced to what the archive uses: the `%Y-%m`
    partition key and the `str()` / `isoformat()` text. */
module Calendar {
  import opened Decimal

  datatype Moment = Moment(year: int, month: int, day: int,
                           hour: int, minute: int, second: int, microsecond: int)

  /** The ranges `datetime.datetime` enforces on its fields, except that the
      day is only bounded by 31, not by the length of its month. */
  predicate Valid(m: Moment) {
    && 1 <= m.year <= 9999
    && 1 <= m.month <= 12
    && 1 <= m.day <= 31
    && 0 <= m.hour < 24 && 0 <= m.minute < 60 && 0 <= m.second < 60
    && 0 <= m.microsecond < 1000000
  }

  type DateTime = m: Moment | Valid(m) witness Moment(1970, 1, 1, 0, 0, 0, 0)

  /** `dt.strftime('%Y-%m')`: four-digit year, dash, two-digit month. */
  function YearMonth(dt: DateTime): string {
    ZeroPad(dt.year, 4) + "-" + ZeroPad(dt.month, 2)
  }

  /** `dt.isoformat(sep)`; `str(dt)` is the same text with `sep == ' '`.
      The fraction is written only when the microseconds are not zero. */
  function IsoText(dt: DateTime, sep: char): string {
    ZeroPad(dt.year, 4) + "-" + ZeroPad(dt.month, 2) + "-" + ZeroPad(dt.day, 2)
    + [sep] + ClockText(dt)
  }

  /** The `HH:MM:SS[.ffffff]` part of `isoformat`. */
  function ClockText(dt: DateTime): string {
    ZeroPad(dt.hour, 2) + ":" + ZeroPad(dt.minute, 2) + ":" + ZeroPad(dt.second, 2)
    + (if dt.microsecond != 0 then "." + ZeroPad(dt.microsecond, 6) else "")
  }

  /** The partition key is seven characters: the year, a dash and the month,
      and both numbers can be read back from it. */
  lemma YearMonthShape(dt: DateTime)
    ensures var ym := YearMonth(dt);
      && |ym| == 7 && ym[4] == '-'
      && Value(ym[..4]) == dt.year && Value(ym[5..]) == dt.month
  {
    assert Pow10(4) == 10000 && Pow10(2) == 100;
    ZeroPadFacts(dt.year, 4);
    ZeroPadFacts(dt.month, 2);
    var ym := YearMonth(dt);
    assert ym[..4] == ZeroPad(dt.year, 4);
    assert ym[5..] == ZeroPad(dt.month, 2);
  }

  /** Two timestamps share a partition exactly when they share year and month. */
  lemma YearMonthInjective(a: DateTime, b: DateTime)
    ensures YearMonth(a) == YearMonth(b) <==> a.year == b.year && a.month == b.month
  {
    YearMonthShape(a);
    YearMonthShape(b);
  }

  /** The first seven characters of `str(dt)` (or of `dt.isoformat()`) are the
      `%Y-%m` partition key. */
  lemma IsoTextPrefix(dt: DateTime, sep: char)
    ensures |IsoText(dt, sep)| >= 19
    ensures IsoText(dt, sep)[..7] == YearMonth(dt)
  {
    assert Pow10(4) == 10000 && Pow10(2) == 100;
    ZeroPadFacts(dt.year, 4);
    ZeroPadFacts(dt.month, 2);
    var ym := YearMonth(dt);
    assert |ym| == 7;
    var t1 := ym + "-";
    var t2 := t1 + ZeroPad(dt.day, 2);
    var t3 := t2 + [sep];
    assert IsoText(dt, sep) == t3 + ClockText(dt);
    assert forall i :: 0 <= i < 7 ==> IsoText(dt, sep)[i] == t3[i] == t2[i] == t1[i] == ym[i];
  }
}
