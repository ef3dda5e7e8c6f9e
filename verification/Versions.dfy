/**
 Data version names `vYYYY.MM.DD[-rN]`: parsing, formatting, their order and
 the choice of the next free name. Years are at least 1000, as the formatting
 of shorter years is up to the platform.
 */
module Versions {
  import opened Wrappers

  datatype Day = Day(year: int, month: int, day: int)
  datatype Version = Version(day: Day, revision: nat)
  datatype VersionError = BadFormat | NoSuchDate | BadRevision

  predicate IsLeap(year: int) {
    year % 4 == 0 && (year % 100 != 0 || year % 400 == 0)
  }

  function DaysIn(year: int, month: int): int {
    if month == 2 then (if IsLeap(year) then 29 else 28)
    else if month in {4, 6, 9, 11} then 30 else 31
  }

  predicate IsDate(d: Day) {
    1 <= d.year <= 9999 && 1 <= d.month <= 12 && 1 <= d.day <= DaysIn(d.year, d.month)
  }

  /** The days of the Gregorian calendar in years of up to four digits. */
  lemma DatesExactly(d: Day)
    ensures IsDate(d) <==>
            && 1 <= d.year <= 9999 && 1 <= d.day
            && (|| (d.month in {1, 3, 5, 7, 8, 10, 12} && d.day <= 31)
                || (d.month in {4, 6, 9, 11} && d.day <= 30)
                || (d.month == 2 && d.day <= 28)
                || (d.month == 2 && d.day == 29
                    && ((d.year % 4 == 0 && d.year % 100 != 0) || d.year % 400 == 0)))
  {
  }

  predicate DayLe(a: Day, b: Day) {
    a.year < b.year || (a.year == b.year && (a.month < b.month || (a.month == b.month && a.day <= b.day)))
  }

  /** The order of the pairs (day, revision). */
  predicate VersionLe(a: Version, b: Version) {
    if a.day == b.day then a.revision <= b.revision else DayLe(a.day, b.day)
  }

  /** A number that grows from day to day. */
  function Ordinal(d: Day): int {
    372 * d.year + 31 * d.month + d.day
  }

  /** The order is that of the days, and within a day that of the revisions. */
  lemma OrderExactly(a: Version, b: Version)
    requires IsDate(a.day) && IsDate(b.day)
    ensures DayLe(a.day, b.day) <==> Ordinal(a.day) <= Ordinal(b.day)
    ensures VersionLe(a, b) <==>
            Ordinal(a.day) < Ordinal(b.day) || (a.day == b.day && a.revision <= b.revision)
  {
  }

  // ---- digits ------------------------------------------------------

  predicate IsDigit(c: char) {
    '0' <= c <= '9'
  }

  predicate AllDigits(s: string) {
    forall i :: 0 <= i < |s| ==> IsDigit(s[i])
  }

  function DigitOf(n: nat): (c: char)
    requires n < 10
    ensures IsDigit(c)
  {
    "0123456789"[n]
  }

  function ValueOfDigit(c: char): nat
    requires IsDigit(c)
  {
    c as int - '0' as int
  }

  function ToInt(s: string): nat
    requires AllDigits(s)
  {
    if s == "" then 0 else 10 * ToInt(s[..|s| - 1]) + ValueOfDigit(s[|s| - 1])
  }

  /** Zero-padded to `width` digits, the lowest ones. */
  function Padded(n: nat, width: nat): (s: string)
    ensures |s| == width && AllDigits(s)
  {
    if width == 0 then "" else Padded(n / 10, width - 1) + [DigitOf(n % 10)]
  }

  function Decimal(n: nat): (s: string)
    ensures |s| > 0 && AllDigits(s)
    ensures n > 0 ==> s[0] != '0'
  {
    if n < 10 then [DigitOf(n)] else Decimal(n / 10) + [DigitOf(n % 10)]
  }

  function Pow10(k: nat): (p: int)
    ensures p > 0
  {
    if k == 0 then 1 else 10 * Pow10(k - 1)
  }

  lemma OneDigitLess(n: nat, width: nat)
    requires width > 0 && n < Pow10(width)
    ensures n / 10 < Pow10(width - 1)
  {
  }

  lemma {:induction false} PaddedToInt(n: nat, width: nat)
    requires n < Pow10(width)
    ensures ToInt(Padded(n, width)) == n
  {
    if width > 0 {
      OneDigitLess(n, width);
      PaddedToInt(n / 10, width - 1);
      assert Padded(n, width)[..width - 1] == Padded(n / 10, width - 1);
    }
  }

  lemma {:induction false} ToIntPadded(s: string)
    requires AllDigits(s)
    ensures ToInt(s) < Pow10(|s|) && Padded(ToInt(s), |s|) == s
  {
    if s != "" {
      ToIntPadded(s[..|s| - 1]);
      assert s == s[..|s| - 1] + [s[|s| - 1]];
    }
  }

  lemma {:induction false} DecimalToInt(n: nat)
    ensures ToInt(Decimal(n)) == n
  {
    if n >= 10 {
      DecimalToInt(n / 10);
      assert Decimal(n)[..|Decimal(n)| - 1] == Decimal(n / 10);
    } else {
      assert Decimal(n)[..0] == "";
    }
  }

  lemma DecimalStep(n: nat, c: char)
    requires n > 0 && IsDigit(c)
    ensures Decimal(10 * n + ValueOfDigit(c)) == Decimal(n) + [c]
  {
    var m := 10 * n + ValueOfDigit(c);
    assert m / 10 == n && m % 10 == ValueOfDigit(c);
  }

  lemma {:induction false} ToIntDecimal(s: string)
    requires s != "" && AllDigits(s) && s[0] != '0'
    ensures ToInt(s) > 0 && Decimal(ToInt(s)) == s
  {
    var front, last := s[..|s| - 1], s[|s| - 1];
    assert s == front + [last];
    if front == "" {
      assert ToInt(front) == 0;
    } else {
      ToIntDecimal(front);
      DecimalStep(ToInt(front), last);
    }
  }

  // ---- digits of other scripts -------------------------------------

  /** The decimal digits beyond the ten of ASCII, with their values, that the platform knows. */
  type WideDigits = map<char, nat>

  predicate IsTable(wide: WideDigits) {
    forall c :: c in wide ==> c as int >= 128 && wide[c] < 10
  }

  predicate AllDecimal(wide: WideDigits, s: string) {
    forall i :: 0 <= i < |s| ==> IsDigit(s[i]) || s[i] in wide
  }

  /** No character is a digit of another script. */
  predicate AllNarrow(wide: WideDigits, s: string) {
    forall i :: 0 <= i < |s| ==> s[i] !in wide
  }

  /** The digits of the same values in ASCII. */
  function Narrowed(wide: WideDigits, s: string): (r: string)
    requires IsTable(wide) && AllDecimal(wide, s)
    ensures |r| == |s| && AllDigits(r)
  {
    seq(|s|, i requires 0 <= i < |s| => if s[i] in wide then DigitOf(wide[s[i]]) else s[i])
  }

  lemma NarrowStays(wide: WideDigits, s: string)
    requires IsTable(wide) && AllDecimal(wide, s) && AllNarrow(wide, s)
    ensures AllDigits(s) && Narrowed(wide, s) == s
  {
  }

  lemma AsciiIsNarrow(wide: WideDigits, s: string)
    requires IsTable(wide) && AllDigits(s)
    ensures AllDecimal(wide, s) && AllNarrow(wide, s) && Narrowed(wide, s) == s
  {
  }

  // ---- names -------------------------------------------------------

  /** `v`, four digits, `.`, two digits, `.`, two digits. */
  predicate IsBase(wide: WideDigits, s: string) {
    && |s| == 11 && s[0] == 'v' && s[5] == '.' && s[8] == '.'
    && AllDecimal(wide, s[1..5]) && AllDecimal(wide, s[6..8]) && AllDecimal(wide, s[9..11])
  }

  /** Nothing, or `-r` and a number that starts with an ASCII digit other than zero. */
  predicate IsSuffix(wide: WideDigits, s: string) {
    s == "" || (|s| > 2 && s[0] == '-' && s[1] == 'r' && IsDigit(s[2]) && s[2] != '0' && AllDecimal(wide, s[2..]))
  }

  function BaseDay(wide: WideDigits, b: string): Day
    requires IsTable(wide) && IsBase(wide, b)
  {
    Day(ToInt(Narrowed(wide, b[1..5])), ToInt(Narrowed(wide, b[6..8])), ToInt(Narrowed(wide, b[9..11])))
  }

  function Parse(wide: WideDigits, s: string): Result<Version, VersionError>
    requires IsTable(wide)
  {
    if |s| < 11 || !IsBase(wide, s[..11]) || !IsSuffix(wide, s[11..]) then Err(BadFormat)
    else
      var day, t := BaseDay(wide, s[..11]), s[11..];
      if !IsDate(day) then Err(NoSuchDate)
      else Ok(Version(day, if t == "" then 1 else ToInt(Narrowed(wide, t[2..]))))
  }

  /** A name that does not parse is refused for its form, or else for a day that is none. */
  lemma RefusedExactly(wide: WideDigits, s: string)
    requires IsTable(wide)
    ensures var form := |s| >= 11 && IsBase(wide, s[..11]) && IsSuffix(wide, s[11..]);
            && (Parse(wide, s) == Err(BadFormat) <==> !form)
            && (Parse(wide, s) == Err(NoSuchDate) <==> form && !IsDate(BaseDay(wide, s[..11])))
            && Parse(wide, s) != Err(BadRevision)
  {
  }

  function Base(d: Day): string
    requires IsDate(d)
  {
    "v" + Padded(d.year, 4) + "." + Padded(d.month, 2) + "." + Padded(d.day, 2)
  }

  function Format(v: Version): Result<string, VersionError>
    requires IsDate(v.day) && v.day.year >= 1000
  {
    if v.revision < 1 then Err(BadRevision)
    else Ok(if v.revision == 1 then Base(v.day) else Base(v.day) + "-r" + Decimal(v.revision))
  }

  lemma PartsOfName(y: string, m: string, d: string)
    requires |y| == 4 && |m| == 2 && |d| == 2
    ensures var s := "v" + y + "." + m + "." + d;
            && |s| == 11 && s[0] == 'v' && s[5] == '.' && s[8] == '.'
            && s[1..5] == y && s[6..8] == m && s[9..11] == d && s[..11] == s && s[11..] == ""
  {
  }

  lemma BaseParts(wide: WideDigits, d: Day)
    requires IsTable(wide) && IsDate(d)
    ensures IsBase(wide, Base(d)) && BaseDay(wide, Base(d)) == d
  {
    PartsOfName(Padded(d.year, 4), Padded(d.month, 2), Padded(d.day, 2));
    AsciiIsNarrow(wide, Padded(d.year, 4));
    AsciiIsNarrow(wide, Padded(d.month, 2));
    AsciiIsNarrow(wide, Padded(d.day, 2));
    PaddedParts(d);
  }

  lemma SmallPowers()
    ensures Pow10(2) == 100 && Pow10(4) == 10000
  {
    assert Pow10(2) == 10 * Pow10(1);
    assert Pow10(4) == 10 * Pow10(3);
  }

  lemma DateFits(d: Day)
    requires IsDate(d)
    ensures 0 <= d.year < 10000 && 0 <= d.month < 100 && 0 <= d.day < 100
  {
  }

  lemma PaddedParts(d: Day)
    requires IsDate(d)
    ensures ToInt(Padded(d.year, 4)) == d.year && ToInt(Padded(d.month, 2)) == d.month
    ensures ToInt(Padded(d.day, 2)) == d.day
  {
    DateFits(d);
    SmallPowers();
    PaddedToInt(d.year, 4);
    PaddedToInt(d.month, 2);
    PaddedToInt(d.day, 2);
  }

  lemma ParseName(wide: WideDigits, d: Day, suffix: string)
    requires IsTable(wide) && IsDate(d) && IsSuffix(wide, suffix)
    ensures Parse(wide, Base(d) + suffix)
            == Ok(Version(d, if suffix == "" then 1 else ToInt(Narrowed(wide, suffix[2..]))))
  {
    var s := Base(d) + suffix;
    BaseParts(wide, d);
    assert s[..11] == Base(d) && s[11..] == suffix;
  }

  /** Parsing undoes formatting, whatever other digits the platform knows. */
  lemma ParseFormat(wide: WideDigits, v: Version)
    requires IsTable(wide) && IsDate(v.day) && v.day.year >= 1000 && v.revision >= 1
    ensures Format(v).Ok? && Parse(wide, Format(v).value) == Ok(v)
  {
    if v.revision == 1 {
      assert Base(v.day) + "" == Base(v.day);
      ParseName(wide, v.day, "");
    } else {
      var suffix := "-r" + Decimal(v.revision);
      assert suffix[2..] == Decimal(v.revision);
      AsciiIsNarrow(wide, Decimal(v.revision));
      assert Base(v.day) + suffix == Base(v.day) + "-r" + Decimal(v.revision);
      DecimalToInt(v.revision);
      ParseName(wide, v.day, suffix);
    }
  }

  lemma PartBack(wide: WideDigits, s: string)
    requires IsTable(wide) && AllDecimal(wide, s) && AllNarrow(wide, s)
    ensures Padded(ToInt(Narrowed(wide, s)), |s|) == s
  {
    NarrowStays(wide, s);
    ToIntPadded(s);
  }

  lemma NarrowPart(wide: WideDigits, s: string, i: nat, j: nat)
    requires i <= j <= |s| && AllNarrow(wide, s)
    ensures AllNarrow(wide, s[i..j])
  {
  }

  lemma BaseInParts(b: string)
    requires |b| == 11 && b[0] == 'v' && b[5] == '.' && b[8] == '.'
    ensures b == "v" + b[1..5] + "." + b[6..8] + "." + b[9..11]
  {
    assert b == b[..1] + b[1..5] + b[5..6] + b[6..8] + b[8..9] + b[9..11];
    assert b[..1] == "v" && b[5..6] == "." && b[8..9] == ".";
  }

  lemma BaseOfParts(wide: WideDigits, b: string)
    requires IsTable(wide) && IsBase(wide, b) && AllNarrow(wide, b) && IsDate(BaseDay(wide, b))
    ensures Base(BaseDay(wide, b)) == b
  {
    NarrowPart(wide, b, 1, 5);
    NarrowPart(wide, b, 6, 8);
    NarrowPart(wide, b, 9, 11);
    PartBack(wide, b[1..5]);
    PartBack(wide, b[6..8]);
    PartBack(wide, b[9..11]);
    BaseInParts(b);
  }

  lemma OneIsOne(s: string)
    requires s != "" && AllDigits(s) && s[0] != '0'
    ensures ToInt(s) == 1 <==> s == "1"
    ensures ToInt(s) >= 1 && Decimal(ToInt(s)) == s
  {
    ToIntDecimal(s);
    assert Decimal(1) == "1";
    assert ToInt("1"[..0]) == 0;
  }

  /** A formatted name has ASCII characters only. */
  lemma FormatIsNarrow(wide: WideDigits, v: Version)
    requires IsTable(wide) && IsDate(v.day) && v.day.year >= 1000 && v.revision >= 1
    ensures AllNarrow(wide, Format(v).value)
  {
    var s := Format(v).value;
    forall i | 0 <= i < |s| ensures s[i] as int < 128 {
      if i >= 13 { assert s[i] == Decimal(v.revision)[i - 13]; }
    }
  }

  /** The revision of a name that has one starts with a digit other than zero, so it is one or more. */
  lemma RevisionIsPositive(wide: WideDigits, s: string)
    requires IsTable(wide) && Parse(wide, s).Ok?
    ensures Parse(wide, s).value.revision >= 1
    ensures s[11..] != "" ==>
              var t := Narrowed(wide, s[13..]); Parse(wide, s).value.revision == ToInt(t) && t != "" && t[0] != '0'
  {
    if s[11..] != "" {
      assert s[11..][2..] == s[13..];
      var t := Narrowed(wide, s[13..]);
      assert s[13] == s[11..][2] && IsDigit(s[13]) && s[13] !in wide;
      assert t[0] == s[13];
      OneIsOne(t);
    }
  }

  /** The suffix a formatted version gets is the one it was parsed from, unless that spelt out revision one. */
  lemma SuffixBack(t: string, revision: nat)
    requires |t| > 2 && t[0] == '-' && t[1] == 'r' && AllDigits(t[2..]) && t[2] != '0' && revision == ToInt(t[2..])
    ensures revision >= 1
    ensures (if revision == 1 then "" else "-r" + Decimal(revision)) == t <==> t != "-r1"
  {
    OneIsOne(t[2..]);
    assert t == "-r" + t[2..];
    assert t == "-r1" <==> t[2..] == "1";
  }

  lemma FormatIsBaseAndSuffix(v: Version)
    requires IsDate(v.day) && v.day.year >= 1000 && v.revision >= 1
    ensures Format(v) == Ok(Base(v.day) + if v.revision == 1 then "" else "-r" + Decimal(v.revision))
  {
    assert Base(v.day) + "" == Base(v.day);
    assert Base(v.day) + "-r" + Decimal(v.revision) == Base(v.day) + ("-r" + Decimal(v.revision));
  }

  lemma SameFront<T>(a: seq<T>, b: seq<T>, c: seq<T>)
    ensures a + b == a + c <==> b == c
  {
    assert b == (a + b)[|a|..] && c == (a + c)[|a|..];
  }

  lemma NarrowFormatParse(wide: WideDigits, s: string)
    requires IsTable(wide) && Parse(wide, s).Ok? && Parse(wide, s).value.day.year >= 1000 && AllNarrow(wide, s)
    ensures Parse(wide, s).value.revision >= 1
    ensures Format(Parse(wide, s).value) == Ok(s) <==> s[11..] != "-r1"
  {
    var b, t, v := s[..11], s[11..], Parse(wide, s).value;
    RevisionIsPositive(wide, s);
    BaseOfParts(wide, b);
    assert s == b + t;
    FormatIsBaseAndSuffix(v);
    SameFront(b, if v.revision == 1 then "" else "-r" + Decimal(v.revision), t);
    if t != "" {
      NarrowStays(wide, t[2..]);
      SuffixBack(t, v.revision);
    }
  }

  /**
   Formatting undoes parsing exactly for names that use no other script's digits and do not spell
   out revision one.
   */
  lemma FormatParse(wide: WideDigits, s: string)
    requires IsTable(wide) && Parse(wide, s).Ok? && Parse(wide, s).value.day.year >= 1000
    ensures Parse(wide, s).value.revision >= 1
    ensures Format(Parse(wide, s).value) == Ok(s) <==> AllNarrow(wide, s) && s[11..] != "-r1"
  {
    RevisionIsPositive(wide, s);
    if AllNarrow(wide, s) {
      NarrowFormatParse(wide, s);
    } else {
      FormatIsNarrow(wide, Parse(wide, s).value);
    }
  }

  lemma ToIntOne(s: string, c: char)
    requires AllDigits(s) && IsDigit(c)
    ensures ToInt(s + [c]) == 10 * ToInt(s) + ValueOfDigit(c)
  {
    assert (s + [c])[..|s|] == s;
  }

  lemma OneInDigits()
    ensures ToInt("1") == 1 && ToInt("01") == 1
  {
    ToIntOne("", '1');
    ToIntOne("", '0');
    ToIntOne("0", '1');
    assert "" + ['1'] == "1" && "" + ['0'] == "0" && "0" + ['1'] == "01";
  }

  lemma YearInDigits()
    ensures ToInt("2024") == 2024
  {
    ToIntOne("", '2');
    ToIntOne("2", '0');
    ToIntOne("20", '2');
    ToIntOne("202", '4');
    assert "" + ['2'] == "2" && "2" + ['0'] == "20" && "20" + ['2'] == "202" && "202" + ['4'] == "2024";
  }

  lemma DayName(y: string, m: string, d: string)
    requires |y| == 4 && |m| == 2 && |d| == 2 && AllDigits(y) && AllDigits(m) && AllDigits(d)
    requires IsDate(Day(ToInt(y), ToInt(m), ToInt(d)))
    ensures Base(Day(ToInt(y), ToInt(m), ToInt(d))) == "v" + y + "." + m + "." + d
  {
    ToIntPadded(y);
    ToIntPadded(m);
    ToIntPadded(d);
  }

  lemma NewYear2024()
    ensures Base(Day(2024, 1, 1)) == "v2024.01.01"
  {
    YearInDigits();
    OneInDigits();
    DayName("2024", "01", "01");
  }

  /** A name without a suffix is parsed by its three numbers, in whatever digits. */
  lemma ParseNumbers(wide: WideDigits, y: string, m: string, d: string)
    requires IsTable(wide) && |y| == 4 && |m| == 2 && |d| == 2
    requires AllDecimal(wide, y) && AllDecimal(wide, m) && AllDecimal(wide, d)
    requires IsDate(Day(ToInt(Narrowed(wide, y)), ToInt(Narrowed(wide, m)), ToInt(Narrowed(wide, d))))
    ensures Parse(wide, "v" + y + "." + m + "." + d)
            == Ok(Version(Day(ToInt(Narrowed(wide, y)), ToInt(Narrowed(wide, m)), ToInt(Narrowed(wide, d))), 1))
  {
    PartsOfName(y, m, d);
  }

  lemma WideName(wide: WideDigits)
    requires IsTable(wide) && '\U{FF12}' in wide && wide['\U{FF12}'] == 2
    ensures Parse(wide, "v\U{FF12}024.01.01") == Ok(Version(Day(2024, 1, 1), 1))
  {
    var y := "\U{FF12}024";
    assert Narrowed(wide, y) == "2024";
    AsciiIsNarrow(wide, "01");
    YearInDigits();
    OneInDigits();
    ParseNumbers(wide, y, "01", "01");
    assert "v" + y + "." + "01" + "." + "01" == "v\U{FF12}024.01.01";
  }

  lemma SpeltOutName(wide: WideDigits)
    requires IsTable(wide)
    ensures Parse(wide, "v2024.01.01-r1") == Ok(Version(Day(2024, 1, 1), 1))
  {
    NewYear2024();
    AsciiIsNarrow(wide, "1");
    OneInDigits();
    assert "-r1"[2..] == "1" && "v2024.01.01" + "-r1" == "v2024.01.01-r1";
    ParseName(wide, Day(2024, 1, 1), "-r1");
  }

  /** Two names of one version, neither of them the formatted one: a digit of another script, and `-r1` spelt out. */
  lemma UnformattedNames(wide: WideDigits)
    requires IsTable(wide) && '\U{FF12}' in wide && wide['\U{FF12}'] == 2
    ensures Parse(wide, "v\U{FF12}024.01.01") == Parse(wide, "v2024.01.01-r1") == Ok(Version(Day(2024, 1, 1), 1))
    ensures Format(Version(Day(2024, 1, 1), 1)) == Ok("v2024.01.01")
  {
    WideName(wide);
    SpeltOutName(wide);
    NewYear2024();
  }

  // ---- the next name -----------------------------------------------

  /** The names all parse, as the listing of a manifest directory demands. */
  predicate AllParse(wide: WideDigits, names: seq<string>)
    requires IsTable(wide)
  {
    forall i :: 0 <= i < |names| ==> Parse(wide, names[i]).Ok?
  }

  /** What the names are the names of, in their order; nothing if one does not parse. */
  method ParseAll(wide: WideDigits, names: seq<string>) returns (r: Result<seq<Version>, VersionError>)
    requires IsTable(wide)
    ensures r.Ok? <==> AllParse(wide, names)
    ensures r.Ok? ==> |r.value| == |names| && forall i :: 0 <= i < |names| ==> IsOf(wide, names[i], r.value[i])
  {
    var versions: seq<Version> := [];
    for i := 0 to |names|
      invariant |versions| == i && forall j :: 0 <= j < i ==> IsOf(wide, names[j], versions[j])
    {
      var p := Parse(wide, names[i]);
      if p.Err? {
        return Err(p.error);
      }
      versions := versions + [p.value];
    }
    assert forall i :: 0 <= i < |names| ==> IsOf(wide, names[i], versions[i]);
    r := Ok(versions);
  }

  predicate IsOf(wide: WideDigits, name: string, v: Version)
    requires IsTable(wide)
  {
    Parse(wide, name) == Ok(v)
  }

  /** The highest revision of the day, zero if it has none. */
  method HighestRevision(versions: seq<Version>, day: Day) returns (highest: nat)
    ensures forall i :: 0 <= i < |versions| && versions[i].day == day ==> versions[i].revision <= highest
    ensures highest > 0 ==> Version(day, highest) in versions
  {
    highest := 0;
    for i := 0 to |versions|
      invariant forall j :: 0 <= j < i && versions[j].day == day ==> versions[j].revision <= highest
      invariant highest > 0 ==> Version(day, highest) in versions
    {
      if versions[i].day == day && versions[i].revision > highest {
        highest := versions[i].revision;
      }
    }
  }

  /** Names the day's first free revision: unused, and above every name when no name is of a later day. */
  method NextDataVersion(wide: WideDigits, names: seq<string>, day: Day) returns (r: Result<string, VersionError>)
    requires IsTable(wide) && IsDate(day) && day.year >= 1000
    ensures r.Ok? <==> AllParse(wide, names)
    ensures r.Ok? ==>
              && r.value !in names
              && exists n: nat :: IsOf(wide, r.value, Version(day, n)) && IsFirstFree(wide, names, day, n)
  {
    var parsed := ParseAll(wide, names);
    if parsed.Err? {
      return Err(parsed.error);
    }
    var highest := HighestRevision(parsed.value, day);
    r := Format(Version(day, highest + 1));
    ParseFormat(wide, Version(day, highest + 1));
    assert IsOf(wide, r.value, Version(day, highest + 1));
    FirstFree(wide, names, parsed.value, day, highest);
    forall i | 0 <= i < |names| ensures names[i] != r.value {
      assert !IsOf(wide, names[i], Version(day, highest + 1));
    }
  }

  /** Above every name of the day or before it, and with the revision below it in use. */
  ghost predicate IsFirstFree(wide: WideDigits, names: seq<string>, day: Day, n: nat)
    requires IsTable(wide)
  {
    && n >= 1
    && (forall i, v :: 0 <= i < |names| && IsOf(wide, names[i], v) && DayLe(v.day, day) ==>
          VersionLe(v, Version(day, n)) && v != Version(day, n))
    && (n > 1 ==> exists i :: 0 <= i < |names| && IsOf(wide, names[i], Version(day, n - 1)))
  }

  lemma FirstFree(wide: WideDigits, names: seq<string>, versions: seq<Version>, day: Day, highest: nat)
    requires IsTable(wide) && |versions| == |names|
    requires forall i :: 0 <= i < |names| ==> IsOf(wide, names[i], versions[i])
    requires forall i :: 0 <= i < |versions| && versions[i].day == day ==> versions[i].revision <= highest
    requires highest > 0 ==> Version(day, highest) in versions
    ensures IsFirstFree(wide, names, day, highest + 1)
    ensures forall i :: 0 <= i < |names| ==> !IsOf(wide, names[i], Version(day, highest + 1))
  {
    forall i, v | 0 <= i < |names| && IsOf(wide, names[i], v)
      ensures v != Version(day, highest + 1) && (DayLe(v.day, day) ==> VersionLe(v, Version(day, highest + 1)))
    {
      assert v == versions[i];
    }
    if highest > 0 {
      var i :| 0 <= i < |versions| && versions[i] == Version(day, highest);
      assert IsOf(wide, names[i], Version(day, highest));
    }
  }
}
