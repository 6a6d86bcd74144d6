/** `formatTimestampUtc`, `toISOString` and their parser: calendar arithmetic of ECMA-262 and the
    string order that every SQL comparison of timestamps relies on. */
module Timestamps {
  import opened Prelude

  const MS_PER_DAY := 86_400_000

  /** The largest magnitude a JavaScript `Date` can hold. */
  const MAX_TIME := 8_640_000_000_000_000

  /** 0000-01-01T00:00:00.000Z and 10000-01-01T00:00:00.000Z. */
  const YEAR_0 := -62_167_219_200_000
  const YEAR_10000 := 253_402_300_800_000

  /** What a `Date` can hold. */
  type Time = t: int | -MAX_TIME <= t <= MAX_TIME

  predicate FourDigitYear(t: int) { YEAR_0 <= t < YEAR_10000 }

  // ---- Calendar -----------------------------------------------------------

  datatype Fields = Fields(year: int, month: int, day: int, hour: int, minute: int, second: int, ms: int)

  predicate LeapYear(y: int) { y % 4 == 0 && (y % 100 != 0 || y % 400 == 0) }

  /** Days from the epoch to January 1st of year y. */
  function DayFromYear(y: int): (r: int) {
    365 * (y - 1970) + (y - 1969) / 4 - (y - 1901) / 100 + (y - 1601) / 400
  }

  function DaysInYear(y: int): (r: int) { if LeapYear(y) then 366 else 365 }

  lemma QuotientUnique(x: int, n: int, q: int, r: int)
    requires n > 0 && x == q * n + r && 0 <= r < n
    ensures x / n == q && x % n == r
  {
    var d := x / n - q;
    assert d >= 1 ==> d * n >= n;
    assert d <= -1 ==> d * n <= -n;
    assert x == (x / n) * n + x % n;
    assert d * n == (x / n) * n - q * n;
  }

  lemma QuotientStep(y: int, base: int, n: int)
    requires n > 1 && base % n == 0
    ensures (y - base) / n - (y - base - 1) / n == if y % n == 0 then 1 else 0
  {
    var q, r := y / n, y % n;
    var b := base / n;
    assert base == b * n;
    assert y - base == (q - b) * n + r by { assert y == q * n + r; assert (q - b) * n == q * n - b * n; }
    QuotientUnique(y - base, n, q - b, r);
    if r == 0 {
      assert y - base - 1 == (q - b - 1) * n + (n - 1) by { assert (q - b - 1) * n == (q - b) * n - n; }
      QuotientUnique(y - base - 1, n, q - b - 1, n - 1);
    } else {
      QuotientUnique(y - base - 1, n, q - b, r - 1);
    }
  }

  lemma YearStep(y: int)
    ensures DayFromYear(y + 1) == DayFromYear(y) + DaysInYear(y)
  {
    QuotientStep(y, 1968, 4);
    QuotientStep(y, 1900, 100);
    QuotientStep(y, 1600, 400);
  }

  function YearUp(day: int, y: int): (r: int)
    requires DayFromYear(y) <= day
    ensures DayFromYear(r) <= day < DayFromYear(r + 1)
    decreases day - DayFromYear(y)
  {
    YearStep(y);
    if DayFromYear(y + 1) <= day then YearUp(day, y + 1) else y
  }

  function YearDown(day: int, y: int): (r: int)
    requires day < DayFromYear(y)
    ensures DayFromYear(r) <= day < DayFromYear(r + 1)
    decreases DayFromYear(y) - day
  {
    YearStep(y - 1);
    if day < DayFromYear(y - 1) then YearDown(day, y - 1) else y - 1
  }

  /** The year that contains a day: the y with DayFromYear(y) <= day < DayFromYear(y + 1). */
  function YearFromDay(day: int): (y: int)
    ensures DayFromYear(y) <= day < DayFromYear(y + 1)
  {
    if day >= DayFromYear(1970) then YearUp(day, 1970) else YearDown(day, 1970)
  }

  /** Days before month m (1..13) within a year. */
  function DaysBeforeMonth(leap: bool, m: int): (r: int)
    requires 1 <= m <= 13
  {
    [0, 31, 59, 90, 120, 151, 181, 212, 243, 273, 304, 334, 365][m - 1] + if leap && m > 2 then 1 else 0
  }

  function MonthFrom(leap: bool, d: int, m: int): (r: int)
    requires 1 <= m <= 12 && DaysBeforeMonth(leap, m) <= d < DaysBeforeMonth(leap, 13)
    ensures m <= r <= 12 && DaysBeforeMonth(leap, r) <= d < DaysBeforeMonth(leap, r + 1)
    decreases 12 - m
  {
    if m == 12 || d < DaysBeforeMonth(leap, m + 1) then m else MonthFrom(leap, d, m + 1)
  }

  function ToFields(t: int): (r: Fields) {
    var day, time := t / MS_PER_DAY, t % MS_PER_DAY;
    var year := YearFromDay(day);
    YearStep(year);
    var dayInYear := day - DayFromYear(year);
    var month := MonthFrom(LeapYear(year), dayInYear, 1);
    Fields(year, month, dayInYear - DaysBeforeMonth(LeapYear(year), month) + 1,
           time / 3_600_000, time / 60_000 % 60, time / 1000 % 60, time % 1000)
  }

  predicate InRange(f: Fields) {
    1 <= f.month <= 12 && 1 <= f.day <= DaysBeforeMonth(LeapYear(f.year),
      f.month + 1) - DaysBeforeMonth(LeapYear(f.year), f.month) &&
    0 <= f.hour < 24 && 0 <= f.minute < 60 && 0 <= f.second < 60 && 0 <= f.ms < 1000
  }

  function FromFields(f: Fields): (r: int)
    requires 1 <= f.month <= 12
  {
    (DayFromYear(f.year) + DaysBeforeMonth(LeapYear(f.year), f.month) + f.day - 1) * MS_PER_DAY
      + f.hour * 3_600_000 + f.minute * 60_000 + f.second * 1000 + f.ms
  }

  lemma MonthLengths(leap: bool, m: int)
    requires 1 <= m <= 12
    ensures 28 <= DaysBeforeMonth(leap, m + 1) - DaysBeforeMonth(leap, m) <= 31
  {
  }

  lemma ClockParts(time: int)
    requires 0 <= time < MS_PER_DAY
    ensures time / 3_600_000 < 24
    ensures time == time / 3_600_000 * 3_600_000 + time / 60_000 % 60 * 60_000 + time / 1000 % 60 * 1000 + time % 1000
  {
    assert time / 60_000 == time / 1000 / 60;
    assert time / 3_600_000 == time / 60_000 / 60;
  }

  /** Breaking an instant into fields and putting it together again is the identity. */
  lemma FieldsRoundTrip(t: int)
    ensures InRange(ToFields(t)) && FromFields(ToFields(t)) == t
  {
    YearStep(YearFromDay(t / MS_PER_DAY));
    ClockParts(t % MS_PER_DAY);
  }

  // ---- Text ---------------------------------------------------------------

  function Digit(d: int): (r: char)
    requires 0 <= d < 10
  {
    "0123456789"[d]
  }

  function Pow10(w: nat): (p: int)
    ensures p >= 1
  {
    if w == 0 then 1 else 10 * Pow10(w - 1)
  }

  /** n in w decimal digits with leading zeros. */
  function Pad(n: nat, w: nat): (s: string)
    ensures |s| == w
  {
    if w == 0 then "" else Pad(n / 10, w - 1) + [Digit(n % 10)]
  }

  function YearText(y: int): (r: string) {
    if 0 <= y <= 9999 then Pad(y, 4)
    else if y > 9999 then "+" + Pad(y, 6)
    else "-" + Pad(-y, 6)
  }

  /** Everything after the year: `-MM-DDTHH:mm:ss.sss` followed by a tail. */
  function Rest(f: Fields, tail: string): (s: string)
    requires InRange(f)
    ensures |s| == 19 + |tail| && s[19..] == tail
  {
    MonthLengths(LeapYear(f.year), f.month);
    "-" + Pad(f.month, 2) + ("-" + Pad(f.day, 2) + ("T" + Pad(f.hour, 2) + (":" + Pad(f.minute, 2) +
    (":" + Pad(f.second, 2) + ("." + Pad(f.ms, 3) + tail)))))
  }

  /** `Date.prototype.toISOString`, including the expanded years outside 0..9999. */
  function ToIsoString(t: int): (r: string) {
    var f := ToFields(t);
    FieldsRoundTrip(t);
    YearText(f.year) + Rest(f, "Z")
  }

  predicate IsDigit(c: char) { '0' <= c <= '9' }

  /** Matches `\.(\d{3})Z$`. */
  predicate EndsInMillis(s: string) {
    var n := |s|;
    n >= 5 && s[n - 1] == 'Z' && s[n - 5] == '.' && IsDigit(s[n - 4]) && IsDigit(s[n - 3]) && IsDigit(s[n - 2])
  }

  /** `formatTimestampUtc`: six fractional digits, the last three always zero. */
  function FormatTimestampUtc(t: int): (r: string) {
    var iso := ToIsoString(t);
    if EndsInMillis(iso) then iso[..|iso| - 1] + "000Z" else iso
  }

  lemma {:induction false} DigitsOf(n: nat, w: nat)
    ensures forall k :: 0 <= k < w ==> IsDigit(Pad(n, w)[k])
  {
    if w == 0 {
    } else {
      DigitsOf(n / 10, w - 1);
    }
  }

  /** Zero-padded numbers compare like the numbers. */
  lemma {:induction false} PadOrder(a: nat, b: nat, w: nat)
    requires a < b < Pow10(w)
    ensures Less(Pad(a, w), Pad(b, w))
  {
    if a / 10 < b / 10 {
      PadOrder(a / 10, b / 10, w - 1);
      LessSuffix(Pad(a / 10, w - 1), Pad(b / 10, w - 1), [Digit(a % 10)], [Digit(b % 10)]);
    } else {
      LessPrefix(Pad(a / 10, w - 1), [Digit(a % 10)], [Digit(b % 10)]);
    }
  }

  predicate FieldsLess(f: Fields, g: Fields) {
    f.year < g.year || (f.year == g.year &&
    (f.month < g.month || (f.month == g.month &&
    (f.day < g.day || (f.day == g.day &&
    (f.hour < g.hour || (f.hour == g.hour &&
    (f.minute < g.minute || (f.minute == g.minute &&
    (f.second < g.second || (f.second == g.second && f.ms < g.ms)))))))))))
  }

  lemma {:induction false} DayFromYearMonotone(y: int, z: int)
    requires y < z
    ensures DayFromYear(y) + DaysInYear(y) <= DayFromYear(z)
    decreases z - y
  {
    YearStep(y);
    if y + 1 == z {
    } else {
      DayFromYearMonotone(y + 1, z);
    }
  }

  /** An earlier date is an earlier day number. */
  lemma DateOrder(f: Fields, g: Fields)
    requires InRange(f) && InRange(g)
    requires f.year < g.year || (f.year == g.year && (f.month < g.month || (f.month == g.month && f.day < g.day)))
    ensures DayFromYear(f.year) + DaysBeforeMonth(LeapYear(f.year), f.month) + f.day
         <  DayFromYear(g.year) + DaysBeforeMonth(LeapYear(g.year), g.month) + g.day
  {
    if f.year < g.year {
      DayFromYearMonotone(f.year, g.year);
    }
  }

  /** The field order is the order of instants. */
  lemma FieldsOrder(f: Fields, g: Fields)
    requires InRange(f) && InRange(g) && FieldsLess(f, g)
    ensures FromFields(f) < FromFields(g)
  {
    if f.year < g.year || (f.year == g.year && (f.month < g.month || (f.month == g.month && f.day < g.day))) {
      DateOrder(f, g);
    }
  }

  lemma LaterFields(s: int, t: int)
    requires s < t
    ensures FieldsLess(ToFields(s), ToFields(t))
  {
    FieldsRoundTrip(s);
    FieldsRoundTrip(t);
    var f, g := ToFields(s), ToFields(t);
    if !FieldsLess(f, g) && f != g {
      FieldsOrder(g, f);
    }
  }

  lemma PadSegment(a: nat, b: nat, w: nat, sep: string, x: string, y: string)
    requires a < Pow10(w) && b < Pow10(w)
    requires a < b || (a == b && Less(x, y))
    ensures Less(sep + Pad(a, w) + x, sep + Pad(b, w) + y)
  {
    if a < b {
      PadOrder(a, b, w);
      LessPrefix(sep, Pad(a, w), Pad(b, w));
      LessSuffix(sep + Pad(a, w), sep + Pad(b, w), x, y);
    } else {
      LessPrefix(sep + Pad(a, w), x, y);
    }
  }

  lemma PadFirst(a: nat, b: nat, w: nat, x: string, y: string)
    requires a < Pow10(w) && b < Pow10(w)
    requires a < b || (a == b && Less(x, y))
    ensures Less(Pad(a, w) + x, Pad(b, w) + y)
  {
    PadSegment(a, b, w, "", x, y);
    assert "" + Pad(a, w) == Pad(a, w) && "" + Pad(b, w) == Pad(b, w);
  }

  lemma ReplaceEnd(y: string, head: string, millis: string, short: string, long: string)
    requires |millis| == 3 && forall k :: 0 <= k < 3 ==> IsDigit(millis[k])
    requires short == head + "." + millis + "Z" && long == head + "." + millis + "000Z"
    ensures EndsInMillis(y + short)
    ensures (y + short)[..|y + short| - 1] + "000Z" == y + long
  {
    var iso := y + short;
    var n := |iso|;
    assert iso[n - 4] == millis[0] && iso[n - 3] == millis[1] && iso[n - 2] == millis[2];
    assert iso[..n - 1] == y + (head + "." + millis);
  }

  /** The tail is appended to a fixed 19-character body that ends in the milliseconds. */
  lemma RestEnd(f: Fields, tail: string)
    requires InRange(f)
    ensures |Rest(f, "Z")| == 20
    ensures Rest(f, tail) == Rest(f, "Z")[..15] + "." + Pad(f.ms, 3) + tail
  {
    MonthLengths(LeapYear(f.year), f.month);
    var a := "-" + Pad(f.month, 2);
    var b := "-" + Pad(f.day, 2);
    var c := "T" + Pad(f.hour, 2);
    var d := ":" + Pad(f.minute, 2);
    var e := ":" + Pad(f.second, 2);
    var z := "." + Pad(f.ms, 3);
    assert Rest(f, tail) == a + b + c + d + e + z + tail;
    assert Rest(f, "Z") == a + b + c + d + e + z + "Z";
    assert Rest(f, "Z")[..15] == a + b + c + d + e;
  }

  lemma ReplaceMillis(y: string, f: Fields)
    requires InRange(f)
    ensures var iso := y + Rest(f, "Z"); EndsInMillis(iso) && iso[..|iso| - 1] + "000Z" == y + Rest(f, "000Z")
  {
    DigitsOf(f.ms, 3);
    RestEnd(f, "Z");
    RestEnd(f, "000Z");
    ReplaceEnd(y, Rest(f, "Z")[..15], Pad(f.ms, 3), Rest(f, "Z"), Rest(f, "000Z"));
  }

  /** Replacing the last `Z` of an ISO string always happens, so the stored form has six digits. */
  lemma FormatShape(t: int)
    ensures InRange(ToFields(t))
    ensures ToIsoString(t) == YearText(ToFields(t).year) + Rest(ToFields(t), "Z")
    ensures FormatTimestampUtc(t) == YearText(ToFields(t).year) + Rest(ToFields(t), "000Z")
  {
    FieldsRoundTrip(t);
    ReplaceMillis(YearText(ToFields(t).year), ToFields(t));
  }

  lemma RestOrder(f: Fields, g: Fields, ft: string, gt: string)
    requires InRange(f) && InRange(g) && f.year == g.year
    requires FieldsLess(f, g) || (f == g && Less(ft, gt))
    ensures Less(Rest(f, ft), Rest(g, gt))
  {
    MonthLengths(LeapYear(f.year), f.month);
    MonthLengths(LeapYear(g.year), g.month);
    assert Pow10(2) == 100 && Pow10(3) == 1000;
    var fz, gz := "." + Pad(f.ms, 3) + ft, "." + Pad(g.ms, 3) + gt;
    var fs, gs := ":" + Pad(f.second, 2) + fz, ":" + Pad(g.second, 2) + gz;
    var fm, gm := ":" + Pad(f.minute, 2) + fs, ":" + Pad(g.minute, 2) + gs;
    var fh, gh := "T" + Pad(f.hour, 2) + fm, "T" + Pad(g.hour, 2) + gm;
    var fd, gd := "-" + Pad(f.day, 2) + fh, "-" + Pad(g.day, 2) + gh;
    if f.month == g.month {
      if f.day == g.day {
        if f.hour == g.hour {
          if f.minute == g.minute {
            if f.second == g.second {
              PadSegment(f.ms, g.ms, 3, ".", ft, gt);
            }
            PadSegment(f.second, g.second, 2, ":", fz, gz);
          }
          PadSegment(f.minute, g.minute, 2, ":", fs, gs);
        }
        PadSegment(f.hour, g.hour, 2, "T", fm, gm);
      }
      PadSegment(f.day, g.day, 2, "-", fh, gh);
    }
    PadSegment(f.month, g.month, 2, "-", fd, gd);
  }

  lemma YearOfDay(day: int, y: int)
    ensures day >= DayFromYear(y) <==> YearFromDay(day) >= y
  {
    var z := YearFromDay(day);
    YearStep(z);
    if z < y {
      DayFromYearMonotone(z, y);
    } else if y < z {
      DayFromYearMonotone(y, z);
    }
  }

  lemma YearOf(t: int)
    ensures ToFields(t).year == YearFromDay(t / MS_PER_DAY)
  {
  }

  lemma YearAfter(t: int, y: int, start: int)
    requires start == DayFromYear(y)
    ensures t >= start * MS_PER_DAY <==> ToFields(t).year >= y
  {
    YearOf(t);
    YearOfDay(t / MS_PER_DAY, y);
  }

  /** Every year a `Date` can hold has at most six digits, and the two bounds are where its form changes. */
  lemma YearSides(t: Time)
    ensures -1_000_000 < ToFields(t).year < 1_000_000
    ensures t < YEAR_0 <==> ToFields(t).year < 0
    ensures t >= YEAR_10000 <==> ToFields(t).year >= 10000
  {
    YearAfter(t, 0, -719_528);
    YearAfter(t, 10000, 2_932_897);
    YearAfter(t, 1_000_000, 364_522_972);
    YearAfter(t, -999_999, -365_961_662);
  }

  lemma FieldsTextOrder(f: Fields, g: Fields, ft: string, gt: string)
    requires InRange(f) && InRange(g) && 0 <= f.year <= 9999 && 0 <= g.year <= 9999
    requires FieldsLess(f, g) || (f == g && Less(ft, gt))
    ensures Less(YearText(f.year) + Rest(f, ft), YearText(g.year) + Rest(g, gt))
  {
    assert Pow10(4) == 10000;
    if f.year == g.year {
      RestOrder(f, g, ft, gt);
    }
    PadFirst(f.year, g.year, 4, Rest(f, ft), Rest(g, gt));
  }

  /** Two timestamp strings with any tails compare like the instants, and like the tails when the
      instants coincide. */
  lemma StampOrder(s: int, t: int, st: string, tt: string)
    requires FourDigitYear(s) && FourDigitYear(t)
    requires s < t || (s == t && Less(st, tt))
    requires InRange(ToFields(s)) && InRange(ToFields(t))
    ensures Less(YearText(ToFields(s).year) + Rest(ToFields(s), st), YearText(ToFields(t).year) + Rest(ToFields(t), tt))
  {
    YearSides(s);
    YearSides(t);
    if s < t {
      LaterFields(s, t);
    }
    FieldsTextOrder(ToFields(s), ToFields(t), st, tt);
  }

  /** Stored timestamps of years 0 to 9999 sort exactly as the instants they stand for. */
  lemma FormatPreservesOrder(s: int, t: int)
    requires FourDigitYear(s) && FourDigitYear(t)
    ensures Less(FormatTimestampUtc(s), FormatTimestampUtc(t)) <==> s < t
    ensures FormatTimestampUtc(s) == FormatTimestampUtc(t) <==> s == t
  {
    FormatShape(s);
    FormatShape(t);
    if s < t {
      StampOrder(s, t, "000Z", "000Z");
      LessAsymmetric(FormatTimestampUtc(s), FormatTimestampUtc(t));
    } else if t < s {
      StampOrder(t, s, "000Z", "000Z");
      LessAsymmetric(FormatTimestampUtc(t), FormatTimestampUtc(s));
    } else {
      LessIrreflexive(FormatTimestampUtc(s));
    }
  }

  /** A six-digit stored stamp is at or after a three-digit cutoff exactly when it is strictly later:
      on equal milliseconds `0` sorts before `Z`. */
  lemma CutoffIsStrict(stored: int, cutoff: int)
    requires FourDigitYear(stored) && FourDigitYear(cutoff)
    ensures Less(FormatTimestampUtc(stored), ToIsoString(cutoff)) <==> stored <= cutoff
  {
    FormatShape(stored);
    FormatShape(cutoff);
    if stored <= cutoff {
      assert Less("000Z", "Z");
      StampOrder(stored, cutoff, "000Z", "Z");
    } else {
      StampOrder(cutoff, stored, "Z", "000Z");
      LessAsymmetric(ToIsoString(cutoff), FormatTimestampUtc(stored));
    }
  }

  /** The earlier instant has the smaller string. */
  predicate OrderKept(s: Time, t: Time) {
    !(s < YEAR_10000 <= t) && (t < YEAR_0 ==> ToFields(s).year == ToFields(t).year)
  }

  lemma SignedOrder(f: Fields, g: Fields, sign: string)
    requires InRange(f) && InRange(g) && FieldsLess(f, g) && sign in {"+", "-"}
    requires if sign == "+" then 10000 <= f.year <= g.year < 1_000_000 else -1_000_000 < f.year <= g.year < 0
    ensures var a, b := YearText(f.year) + Rest(f, "000Z"), YearText(g.year) + Rest(g, "000Z");
            if sign == "+" || f.year == g.year then Less(a, b) else Less(b, a)
  {
    assert Pow10(6) == 1_000_000;
    var x, y := Rest(f, "000Z"), Rest(g, "000Z");
    if f.year == g.year {
      RestOrder(f, g, "000Z", "000Z");
      LessPrefix(YearText(f.year), x, y);
    } else if sign == "+" {
      PadSegment(f.year, g.year, 6, "+", x, y);
    } else {
      PadSegment(-g.year, -f.year, 6, "-", y, x);
    }
  }

  lemma FirstDecides(a: string, b: string)
    requires a != "" && b != "" && a[0] < b[0]
    ensures Less(a, b)
  {
  }

  /** The first character: a digit, or the sign of an expanded year. */
  lemma YearTextFirst(y: int)
    requires -1_000_000 < y < 1_000_000
    ensures var c := YearText(y);
            c != "" && if y < 0 then c[0] == '-' else if y >= 10000 then c[0] == '+' else c[0] >= '0'
  {
    if 0 <= y < 10000 {
      DigitsOf(y, 4);
      assert IsDigit(Pad(y, 4)[0]);
    }
  }

  lemma MixedOrder(s: Time, t: Time)
    requires s < t && (s < YEAR_0 <= t || s < YEAR_10000 <= t)
    ensures if t < YEAR_10000 then Less(FormatTimestampUtc(s), FormatTimestampUtc(t))
            else Less(FormatTimestampUtc(t), FormatTimestampUtc(s))
  {
    FormatShape(s);
    FormatShape(t);
    YearSides(s);
    YearSides(t);
    YearTextFirst(ToFields(s).year);
    YearTextFirst(ToFields(t).year);
    if t < YEAR_10000 {
      FirstDecides(FormatTimestampUtc(s), FormatTimestampUtc(t));
    } else {
      FirstDecides(FormatTimestampUtc(t), FormatTimestampUtc(s));
    }
  }

  lemma SameSideOrder(s: Time, t: Time)
    requires s < t && (t < YEAR_0 || YEAR_10000 <= s)
    ensures if OrderKept(s, t) then Less(FormatTimestampUtc(s), FormatTimestampUtc(t))
            else Less(FormatTimestampUtc(t), FormatTimestampUtc(s))
  {
    FormatShape(s);
    FormatShape(t);
    YearSides(s);
    YearSides(t);
    LaterFields(s, t);
    SignedOrder(ToFields(s), ToFields(t), if t < YEAR_0 then "-" else "+");
  }

  /** Over everything a `Date` can hold, the strings of two instants are in their order unless the later
      one alone is past year 9999, or both are before year 0 in different years; then they are reversed. */
  lemma OrderKeptIff(s: Time, t: Time)
    requires s < t
    ensures Less(FormatTimestampUtc(s), FormatTimestampUtc(t)) <==> OrderKept(s, t)
    ensures Less(FormatTimestampUtc(t), FormatTimestampUtc(s)) <==> !OrderKept(s, t)
  {
    if s < YEAR_0 <= t || s < YEAR_10000 <= t {
      MixedOrder(s, t);
    } else if FourDigitYear(s) {
      FormatPreservesOrder(s, t);
    } else {
      SameSideOrder(s, t);
    }
    if OrderKept(s, t) {
      LessAsymmetric(FormatTimestampUtc(s), FormatTimestampUtc(t));
    } else {
      LessAsymmetric(FormatTimestampUtc(t), FormatTimestampUtc(s));
    }
  }

  /** The instants around the start of year -1 sort in reverse. An import may carry such stamps: they are
      checked against the future only. */
  lemma OrderFailsBeforeYear0()
    ensures var t := YEAR_0 - 365 * MS_PER_DAY; Less(FormatTimestampUtc(t), FormatTimestampUtc(t - 1))
  {
    var t := YEAR_0 - 365 * MS_PER_DAY;
    YearAfter(t, -1, -719_893);
    YearAfter(t - 1, -1, -719_893);
    OrderKeptIff(t - 1, t);
  }

  /** So do those around year 10000, whose expanded form starts with `+`. */
  lemma OrderFailsAtYear10000()
    ensures Less(FormatTimestampUtc(YEAR_10000), FormatTimestampUtc(YEAR_10000 - 1))
  {
    OrderKeptIff(YEAR_10000 - 1, YEAR_10000);
  }

  // ---- Anchors ------------------------------------------------------------

  /** The lengths of the months. */
  lemma MonthLengthIs(leap: bool, m: int)
    requires 1 <= m <= 12
    ensures var days := DaysBeforeMonth(leap, m + 1) - DaysBeforeMonth(leap, m);
            days == if m == 2 then (if leap then 29 else 28) else if m in {4, 6, 9, 11} then 30 else 31
    ensures DaysBeforeMonth(leap, 1) == 0
  {
  }

  /** Every fourth year is a leap year, except centuries that are not divisible by 400. */
  lemma LeapYearIs(y: int)
    ensures LeapYear(y) <==> y % 400 == 0 || (y % 100 != 0 && y % 4 == 0)
    ensures DayFromYear(1970) == 0 && DayFromYear(y + 1) - DayFromYear(y) == if LeapYear(y) then 366 else 365
  {
    YearStep(y);
  }

  lemma PadTwo(n: nat)
    requires n < 100
    ensures Pad(n, 2) == [Digit(n / 10), Digit(n % 10)]
  {
    assert Pad(n / 100, 0) == "";
    assert Pad(n / 10, 1) == [Digit(n / 10)];
  }

  lemma EpochRest()
    ensures Rest(Fields(1970, 1, 1, 0, 0, 0, 0), "000Z") == "-01-01T00:00:00.000000Z"
  {
    PadTwo(0);
    PadTwo(1);
    assert Pad(0, 3) == Pad(0, 2) + [Digit(0)];
  }

  lemma EpochYear()
    ensures YearText(1970) == "1970"
  {
    PadTwo(19);
    assert Pad(1970, 4) == Pad(19, 2) + [Digit(7)] + [Digit(0)] by {
      assert Pad(197, 3) == Pad(19, 2) + [Digit(7)];
    }
  }

  lemma EpochFields(t: int)
    requires t == 0
    ensures ToFields(t) == Fields(1970, 1, 1, 0, 0, 0, 0)
  {
    YearOf(t);
    YearOfDay(t / MS_PER_DAY, 1970);
    YearOfDay(t / MS_PER_DAY, 1971);
  }

  /** The epoch is the first instant of 1970. */
  lemma EpochIs(t: int)
    requires t == 0
    ensures FormatTimestampUtc(t) == "1970" + "-01-01T00:00:00.000000Z"
  {
    EpochFields(t);
    FormatShape(t);
    EpochYear();
    EpochRest();
  }

  // ---- Parsing ------------------------------------------------------------

  function DigitsValue(s: string): (r: Option<nat>) {
    if s == "" then Some(0)
    else
      var init := DigitsValue(s[..|s| - 1]);
      if init.None? || !IsDigit(s[|s| - 1]) then None else Some(init.value * 10 + (s[|s| - 1] - '0') as nat)
  }

  lemma DigitIsCode(d: nat)
    requires d < 10
    ensures IsDigit(Digit(d)) && (Digit(d) - '0') as nat == d
  {
  }

  lemma DigitsValueAppend(s: string, v: nat, d: nat)
    requires DigitsValue(s) == Some(v) && d < 10
    ensures DigitsValue(s + [Digit(d)]) == Some(v * 10 + d)
  {
    DigitIsCode(d);
    assert (s + [Digit(d)])[..|s|] == s;
  }

  lemma Tenth(n: nat, p: nat)
    requires n < 10 * p
    ensures n / 10 < p && n == n / 10 * 10 + n % 10
  {
  }

  lemma {:induction false} DigitsValueOfPad(n: nat, w: nat)
    requires n < Pow10(w)
    ensures DigitsValue(Pad(n, w)) == Some(n)
  {
    if w == 0 {
    } else {
      Tenth(n, Pow10(w - 1));
      DigitsValueOfPad(n / 10, w - 1);
      DigitsValueAppend(Pad(n / 10, w - 1), n / 10, n % 10);
    }
  }

  /** The canonical 24-character form `YYYY-MM-DDTHH:mm:ss.sssZ`. */
  function ParseIso(s: string): (r: Option<int>) {
    if |s| != 24 || s[4] != '-' || s[7] != '-' || s[10] != 'T' || s[13] != ':' || s[16] != ':' || s[19] != '.' ||
      s[23] != 'Z' then None
    else
      var y, mo, d := DigitsValue(s[0..4]), DigitsValue(s[5..7]), DigitsValue(s[8..10]);
      var h, mi, se, ms := DigitsValue(s[11..13]), DigitsValue(s[14..16]), DigitsValue(s[17..19]),
        DigitsValue(s[20..23]);
      if y.None? || mo.None? || d.None? || h.None? || mi.None? || se.None? || ms.None? then None
      else
        var f := Fields(y.value, mo.value, d.value, h.value, mi.value, se.value, ms.value);
        if InRange(f) then Some(FromFields(f)) else None
  }

  /** `parseTimestampUtcMs`: drop three of six fractional digits, then parse. */
  function ParseTimestampUtcMs(ts: string): (r: Option<int>) {
    var n := |ts|;
    if n >= 8 && ts[n - 1] == 'Z' && ts[n - 8] == '.' && (forall k :: n - 7 <= k < n - 1 ==> IsDigit(ts[k]))
    then ParseIso(ts[..n - 4] + "Z")
    else ParseIso(ts)
  }

  function IsoOf(y: string, mo: string, d: string, h: string, mi: string, se: string, ms: string): (r: string) {
    y + ("-" + mo + ("-" + d + ("T" + h + (":" + mi + (":" + se + ("." + ms + "Z"))))))
  }

  lemma IsoText(f: Fields)
    requires InRange(f) && 0 <= f.year <= 9999
    ensures f.day >= 0
    ensures YearText(f.year) + Rest(f, "Z")
         == IsoOf(Pad(f.year, 4), Pad(f.month, 2), Pad(f.day, 2), Pad(f.hour, 2), Pad(f.minute, 2), Pad(f.second, 2),
           Pad(f.ms, 3))
  {
    MonthLengths(LeapYear(f.year), f.month);
  }

  /** From position `k` on the text is `r`. */
  ghost predicate At(s: string, k: nat, r: string) { k <= |s| && s[k..] == r }

  lemma Peel(s: string, k: nat, sep: char, part: string, tail: string)
    requires At(s, k, [sep] + part + tail)
    ensures k + 1 + |part| <= |s| && s[k] == sep && s[k + 1..k + 1 + |part|] == part
    ensures At(s, k + 1 + |part|, tail)
  {
    var r, n := [sep] + part + tail, 1 + |part|;
    assert s[k] == s[k..][0] == sep;
    assert s[k + 1..k + n] == s[k..][1..n] == part;
    assert s[k + n..] == s[k..][n..] == tail;
  }

  lemma SliceIso(y: string, mo: string, d: string, h: string, mi: string, se: string, ms: string)
    requires |y| == 4 && |mo| == 2 && |d| == 2 && |h| == 2 && |mi| == 2 && |se| == 2 && |ms| == 3
    ensures var s := IsoOf(y, mo, d, h, mi, se, ms);
            |s| == 24 && s[4] == '-' && s[7] == '-' && s[10] == 'T' && s[13] == ':' && s[16] == ':' && s[19] == '.' &&
              s[23] == 'Z' &&
            s[0..4] == y && s[5..7] == mo && s[8..10] == d && s[11..13] == h && s[14..16] == mi && s[17..19] == se &&
              s[20..23] == ms
  {
    var r6 := "." + ms + "Z";
    var r5 := ":" + se + r6;
    var r4 := ":" + mi + r5;
    var r3 := "T" + h + r4;
    var r2 := "-" + d + r3;
    var r1 := "-" + mo + r2;
    var s := y + r1;
    assert At(s, 4, r1) && s[0..4] == y;
    Peel(s, 4, '-', mo, r2);
    Peel(s, 7, '-', d, r3);
    Peel(s, 10, 'T', h, r4);
    Peel(s, 13, ':', mi, r5);
    Peel(s, 16, ':', se, r6);
    Peel(s, 19, '.', ms, "Z");
    assert s[23] == s[23..][0] == 'Z';
  }

  lemma ParseFields(f: Fields)
    requires InRange(f) && 0 <= f.year <= 9999
    ensures ParseIso(YearText(f.year) + Rest(f, "Z")) == Some(FromFields(f))
  {
    MonthLengths(LeapYear(f.year), f.month);
    IsoText(f);
    SliceIso(Pad(f.year, 4), Pad(f.month, 2), Pad(f.day, 2), Pad(f.hour, 2), Pad(f.minute, 2), Pad(f.second, 2),
      Pad(f.ms, 3));
    assert Pow10(2) == 100 && Pow10(3) == 1000 && Pow10(4) == 10000;
    DigitsValueOfPad(f.year, 4);
    DigitsValueOfPad(f.month, 2);
    DigitsValueOfPad(f.day, 2);
    DigitsValueOfPad(f.hour, 2);
    DigitsValueOfPad(f.minute, 2);
    DigitsValueOfPad(f.second, 2);
    DigitsValueOfPad(f.ms, 3);
  }

  lemma ParseIsoRoundTrip(t: int)
    requires FourDigitYear(t)
    ensures ParseIso(ToIsoString(t)) == Some(t)
  {
    FormatShape(t);
    YearSides(t);
    FieldsRoundTrip(t);
    ParseFields(ToFields(t));
  }

  lemma Regroup(y: string, a: string, ms: string, tail: string)
    ensures y + (a + "." + ms + tail) == y + a + "." + ms + tail
  {
  }

  lemma StoredForm(head: string, millis: string)
    requires |millis| == 3 && forall k :: 0 <= k < 3 ==> IsDigit(millis[k])
    ensures ParseTimestampUtcMs(head + "." + millis + "000Z") == ParseIso(head + "." + millis + "Z")
  {
    var ts := head + "." + millis + "000Z";
    var n := |ts|;
    assert ts[n - 7] == millis[0] && ts[n - 6] == millis[1] && ts[n - 5] == millis[2];
    assert ts[..n - 4] + "Z" == head + "." + millis + "Z";
  }

  /** Formatting and parsing back gives the same millisecond. */
  lemma ParseFormatRoundTrip(t: int)
    requires FourDigitYear(t)
    ensures ParseTimestampUtcMs(FormatTimestampUtc(t)) == Some(t)
  {
    FormatShape(t);
    var f, ts := ToFields(t), FormatTimestampUtc(t);
    RestEnd(f, "000Z");
    RestEnd(f, "Z");
    DigitsOf(f.ms, 3);
    var y, a, ms := YearText(f.year), Rest(f, "Z")[..15], Pad(f.ms, 3);
    Regroup(y, a, ms, "000Z");
    Regroup(y, a, ms, "Z");
    StoredForm(y + a, ms);
    ParseIsoRoundTrip(t);
  }
}
