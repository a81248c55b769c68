/**
  How `backup_world` names an archive: the wall-clock time rendered with
  `strftime("%Y-%m-%d_%H-%M-%S")` inside `mc_backup_<timestamp>.tar.gz`.
  The point of this module is that, for four-digit years, the string order
  of these names is the chronological order of their timestamps.
 */
module Naming {
  import opened Strings

  /** The literal the archive name starts with. */
  const ArchivePrefix: string := "mc_backup_"

  /** The literal the archive name ends with. */
  const ArchiveSuffix: string := ".tar.gz"

  /** Length of every archive name whose year has four digits. */
  const NameLength: nat := 36

  /** A wall-clock reading at second resolution: what the format keeps of a `datetime`; microseconds are dropped. */
  datatype Timestamp = Timestamp(year: int, month: int, day: int, hour: int, minute: int, second: int)

  predicate IsLeapYear(y: int)
  {
    y % 4 == 0 && (y % 100 != 0 || y % 400 == 0)
  }

  function DaysInMonth(y: int, m: int): int
    requires 1 <= m <= 12
  {
    if m == 2 then (if IsLeapYear(y) then 29 else 28)
    else if m == 4 || m == 6 || m == 9 || m == 11 then 30
    else 31
  }

  /** The readings a `datetime` can hold: years 1 to 9999, no leap second. */
  predicate ValidTimestamp(t: Timestamp)
  {
    && 1 <= t.year <= 9999
    && 1 <= t.month <= 12
    && 1 <= t.day <= DaysInMonth(t.year, t.month)
    && 0 <= t.hour < 24
    && 0 <= t.minute < 60
    && 0 <= t.second < 60
  }

  /** `a` is an earlier reading than `b`, to the second. */
  predicate Earlier(a: Timestamp, b: Timestamp)
  {
    a.year < b.year || (a.year == b.year &&
    (a.month < b.month || (a.month == b.month &&
    (a.day < b.day || (a.day == b.day &&
    (a.hour < b.hour || (a.hour == b.hour &&
    (a.minute < b.minute || (a.minute == b.minute &&
    a.second < b.second)))))))))
  }

  // ---------------------------------------------------------------------------
  // Decimal rendering

  /** The character of a decimal digit. */
  function Digit(d: int): char
    requires 0 <= d <= 9
  {
    ('0' as int + d) as char
  }

  function Pow10(w: nat): nat
  {
    if w == 0 then 1 else 10 * Pow10(w - 1)
  }

  /** The last `w` decimal digits of `n`, zero-padded: `%m`, `%d`, `%H`, `%M`, `%S` with `w` = 2. */
  function Padded(n: nat, w: nat): (r: string)
    ensures |r| == w
  {
    if w == 0 then [] else Padded(n / 10, w - 1) + [Digit(n % 10)]
  }

  /** The decimal digits of `n` without padding: `%Y` as the C library renders it. */
  function Decimal(n: nat): string
  {
    if n < 10 then [Digit(n)] else Decimal(n / 10) + [Digit(n % 10)]
  }

  /** The `%Y-%m-%d` part of a rendering. */
  function DatePart(t: Timestamp): string
    requires ValidTimestamp(t)
  {
    Decimal(t.year) + "-" + Padded(t.month, 2) + "-" + Padded(t.day, 2)
  }

  /** `timestamp.strftime("%Y-%m-%d_%H-%M-%S")`. */
  function Stamp(t: Timestamp): string
    requires ValidTimestamp(t)
  {
    DatePart(t) + "_" + Padded(t.hour, 2) + "-" + Padded(t.minute, 2) + "-" + Padded(t.second, 2)
  }

  /** `f"mc_backup_{timestamp}.tar.gz"`: the archive name for a backup taken at `t`. */
  function BackupFileName(t: Timestamp): (r: string)
    requires ValidTimestamp(t)
    ensures StartsWith(r, ArchivePrefix)
  {
    ArchivePrefix + Stamp(t) + ArchiveSuffix
  }

  // ---------------------------------------------------------------------------
  // Fixed-width digit strings compare like the numbers they render

  /** A four-digit year renders as its zero-padded four digits. */
  lemma YearIsPadded(n: nat)
    requires 1000 <= n <= 9999
    ensures Decimal(n) == Padded(n, 4)
  {
    var q := n / 10;
    assert 100 <= q <= 999;
    assert 10 <= q / 10 <= 99;
    assert 1 <= q / 10 / 10 <= 9;
    assert Decimal(q / 10 / 10) == [Digit(q / 10 / 10)] == Padded(q / 10 / 10 / 10, 0) + [Digit(q / 10 / 10 % 10)];
    assert Decimal(q / 10) == Padded(q / 10, 2);
    assert Decimal(q) == Padded(q, 3);
  }

  lemma DigitOrder(x: int, y: int)
    requires 0 <= x <= 9 && 0 <= y <= 9
    ensures Below([Digit(x)], [Digit(y)]) <==> x < y
    ensures [Digit(x)] == [Digit(y)] <==> x == y
  {
    assert [Digit(x)][1..] == [] && [Digit(y)][1..] == [];
    if [Digit(x)] == [Digit(y)] {
      assert Digit(x) == [Digit(x)][0] == [Digit(y)][0] == Digit(y);
    }
  }

  /** Zero-padded renderings of the same width compare like the numbers, and are equal only for equal numbers. */
  lemma {:induction false} PaddedOrder(x: nat, y: nat, w: nat)
    requires x < Pow10(w) && y < Pow10(w)
    ensures Below(Padded(x, w), Padded(y, w)) <==> x < y
    ensures Padded(x, w) == Padded(y, w) <==> x == y
  {
    if w == 0 {
      BelowIrreflexive([]);
    } else {
      PaddedOrder(x / 10, y / 10, w - 1);
      DigitOrder(x % 10, y % 10);
      CompareConcat(Padded(x / 10, w - 1), [Digit(x % 10)], Padded(y / 10, w - 1), [Digit(y % 10)]);
    }
  }

  /** The rendered same-width field `x` versus `y`, appended to prefixes `a` and `b` of equal length. */
  lemma AppendField(a: string, b: string, x: nat, y: nat)
    requires |a| == |b| && x < 100 && y < 100
    ensures Below(a + Padded(x, 2), b + Padded(y, 2)) <==> Below(a, b) || (a == b && x < y)
    ensures a + Padded(x, 2) == b + Padded(y, 2) <==> a == b && x == y
  {
    PaddedOrder(x, y, 2);
    CompareConcat(a, Padded(x, 2), b, Padded(y, 2));
  }

  /** A separator appended to prefixes of equal length changes neither order nor equality. */
  lemma AppendSeparator(a: string, b: string, sep: string)
    requires |a| == |b|
    ensures Below(a + sep, b + sep) <==> Below(a, b)
    ensures a + sep == b + sep <==> a == b
  {
    BelowIrreflexive(sep);
    CompareConcat(a, sep, b, sep);
  }

  /** For four-digit years, the date parts compare like the dates. */
  lemma DateOrder(a: Timestamp, b: Timestamp)
    requires ValidTimestamp(a) && ValidTimestamp(b)
    requires 1000 <= a.year && 1000 <= b.year
    ensures |DatePart(a)| == |DatePart(b)| == 10
    ensures Below(DatePart(a), DatePart(b)) <==>
      a.year < b.year || (a.year == b.year && (a.month < b.month || (a.month == b.month && a.day < b.day)))
    ensures DatePart(a) == DatePart(b) <==> a.year == b.year && a.month == b.month && a.day == b.day
  {
    YearIsPadded(a.year);
    YearIsPadded(b.year);
    PaddedOrder(a.year, b.year, 4);
    var a1, b1 := Padded(a.year, 4), Padded(b.year, 4);
    AppendSeparator(a1, b1, "-");
    var a2, b2 := a1 + "-", b1 + "-";
    AppendField(a2, b2, a.month, b.month);
    var a3, b3 := a2 + Padded(a.month, 2), b2 + Padded(b.month, 2);
    AppendSeparator(a3, b3, "-");
    var a4, b4 := a3 + "-", b3 + "-";
    AppendField(a4, b4, a.day, b.day);
  }

  /** For four-digit years, timestamps that render the same are the same, and string order is time order. */
  lemma StampOrder(a: Timestamp, b: Timestamp)
    requires ValidTimestamp(a) && ValidTimestamp(b)
    requires 1000 <= a.year && 1000 <= b.year
    ensures |Stamp(a)| == |Stamp(b)| == 19
    ensures Below(Stamp(a), Stamp(b)) <==> Earlier(a, b)
    ensures Stamp(a) == Stamp(b) <==> a == b
  {
    DateOrder(a, b);
    var a5, b5 := DatePart(a), DatePart(b);
    AppendSeparator(a5, b5, "_");
    var a6, b6 := a5 + "_", b5 + "_";
    AppendField(a6, b6, a.hour, b.hour);
    var a7, b7 := a6 + Padded(a.hour, 2), b6 + Padded(b.hour, 2);
    AppendSeparator(a7, b7, "-");
    var a8, b8 := a7 + "-", b7 + "-";
    AppendField(a8, b8, a.minute, b.minute);
    var a9, b9 := a8 + Padded(a.minute, 2), b8 + Padded(b.minute, 2);
    AppendSeparator(a9, b9, "-");
    var a10, b10 := a9 + "-", b9 + "-";
    AppendField(a10, b10, a.second, b.second);
    assert Stamp(a) == a10 + Padded(a.second, 2) && Stamp(b) == b10 + Padded(b.second, 2);
  }

  /**
    For four-digit years, archive names have one length, name one reading each,
    and their string order (the order `sorted` uses) is chronological order.
   */
  lemma {:induction false} NameOrderIsChronological(a: Timestamp, b: Timestamp)
    requires ValidTimestamp(a) && ValidTimestamp(b)
    requires 1000 <= a.year && 1000 <= b.year
    ensures |BackupFileName(a)| == |BackupFileName(b)| == NameLength
    ensures Below(BackupFileName(a), BackupFileName(b)) <==> Earlier(a, b)
    ensures BackupFileName(a) == BackupFileName(b) <==> a == b
  {
    StampOrder(a, b);
    CompareConcat(ArchivePrefix, Stamp(a), ArchivePrefix, Stamp(b));
    BelowIrreflexive(ArchivePrefix);
    AppendSeparator(ArchivePrefix + Stamp(a), ArchivePrefix + Stamp(b), ArchiveSuffix);
  }
}
