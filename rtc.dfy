/** Inc/rtc_build_time_ll.h: setting the RTC of the FM33LC0xx to the build time once
    per firmware build. The compiler's `__DATE__` ("Mmm dd yyyy") and `__TIME__`
    ("hh:mm:ss") are parameters; `unsigned int` is 32 bits and wraps, `unsigned char`
    truncates to 8 bits. */
module RtcBuildTime {
  import opened Bytes
  import opened Text

  // ---------------------------------------------------------------------------
  // Digits.

  /** dec2: `(p[0] - '0') * 10 + (p[1] - '0')`, computed in unsigned int and cut to 8 bits. */
  function Dec2(a: byte, b: byte): (r: byte)
    ensures IsDigitIn(a, 10) && IsDigitIn(b, 10) ==> r == DigitValue(a) * 10 + DigitValue(b) <= 99
  {
    ((a - '0' as int) * 10 + (b - '0' as int)) % 256
  }

  /** Two decimal digits read as the number they spell, 0..99. */
  lemma Dec2Digits(a: byte, b: byte)
    requires IsDigitIn(a, 10) && IsDigitIn(b, 10)
    ensures Dec2(a, b) == ParseNumeral([a, b], 10) <= 99
  {
    var s: seq<byte> := [a, b];
    assert s[..1] == [a] && [a][..0] == [];
    assert ParseNumeral([a], 10) == DigitValue(a);
    assert ParseNumeral(s, 10) == DigitValue(a) * 10 + DigitValue(b);
  }

  // ---------------------------------------------------------------------------
  // month_from_abbr3.

  const MONTHS: seq<seq<byte>> := [
    Ascii("Jan"), Ascii("Feb"), Ascii("Mar"), Ascii("Apr"), Ascii("May"), Ascii("Jun"),
    Ascii("Jul"), Ascii("Aug"), Ascii("Sep"), Ascii("Oct"), Ascii("Nov"), Ascii("Dec")]

  /** The memcmp chain from month `i + 1` on. */
  function MonthFrom(m3: seq<byte>, i: nat): (r: nat)
    requires |m3| >= 3 && i <= 12
    decreases 12 - i
  {
    if i == 12 then 1
    else if m3[..3] == MONTHS[i] then i + 1
    else MonthFrom(m3, i + 1)
  }

  /** month_from_abbr3: 1 for "Jan" .. 12 for "Dec", and 1 as the fallback. */
  function MonthFromAbbr(m3: seq<byte>): (r: nat)
    requires |m3| >= 3
    ensures 1 <= r <= 12
  {
    MonthFromSpec(m3, 0);
    MonthFrom(m3, 0)
  }

  /** The first prefix that matches decides, and the fallback is 1. */
  lemma {:induction false} MonthFromSpec(m3: seq<byte>, i: nat)
    requires |m3| >= 3 && i <= 12
    ensures 1 <= MonthFrom(m3, i) <= 12
    ensures forall k :: i <= k < 12 && m3[..3] == MONTHS[k] && (forall j :: i <= j < k ==> m3[..3] != MONTHS[j]) ==>
      MonthFrom(m3, i) == k + 1
    ensures (forall k :: i <= k < 12 ==> m3[..3] != MONTHS[k]) ==> MonthFrom(m3, i) == 1
    decreases 12 - i
  {
    if i < 12 && m3[..3] != MONTHS[i] {
      MonthFromSpec(m3, i + 1);
    }
  }

  /** The twelve abbreviations are pairwise different. */
  lemma MonthsDistinct()
    ensures forall j, k :: 0 <= j < k < 12 ==> MONTHS[j] != MONTHS[k]
  {
    forall j, k | 0 <= j < k < 12
      ensures MONTHS[j] != MONTHS[k]
    {
      var a, b := MONTHS[j], MONTHS[k];
      assert a[0] != b[0] || a[1] != b[1] || a[2] != b[2];
    }
  }

  /** Every abbreviation maps to its month number; anything else maps to 1. */
  lemma MonthFromAbbrSpec(m3: seq<byte>)
    requires |m3| >= 3
    ensures 1 <= MonthFromAbbr(m3) <= 12
    ensures forall k :: 0 <= k < 12 && m3[..3] == MONTHS[k] ==> MonthFromAbbr(m3) == k + 1
    ensures (forall k :: 0 <= k < 12 ==> m3[..3] != MONTHS[k]) ==> MonthFromAbbr(m3) == 1
  {
    MonthFromSpec(m3, 0);
    MonthsDistinct();
  }

  // ---------------------------------------------------------------------------
  // weekday_iso_1_7.

  const SAKAMOTO: seq<nat> := [0, 3, 2, 5, 0, 3, 5, 1, 4, 6, 2, 4]

  /** `y + y/4 - y/100 + y/400`: days contributed by whole years, modulo 7. */
  function YearTerm(y: nat): nat
  {
    y + y / 4 - y / 100 + y / 400
  }

  /** Sakamoto's method as written: 0 = Sunday .. 6 = Saturday, with the unsigned
      decrement of `y` for January and February and the 32-bit wrap of the sum. */
  function SakamotoDow(y: u32, m: nat, d: u32): (dow: nat)
    requires 1 <= m <= 12
  {
    var y' := if m < 3 then (y - 1) % U32_MOD else y;
    ((YearTerm(y') + SAKAMOTO[m - 1] + d) % U32_MOD) % 7
  }

  /** weekday_iso_1_7: Monday = 1 .. Sunday = 7. */
  function WeekdayIso(y: u32, m: nat, d: u32): (r: nat)
    requires 1 <= m <= 12
    ensures 1 <= r <= 7
  {
    var dow := SakamotoDow(y, m, d);
    if dow == 0 then 7 else dow
  }

  /** The Gregorian calendar as an independent reference. */
  predicate Leap(y: nat)
  {
    y % 4 == 0 && (y % 100 != 0 || y % 400 == 0)
  }

  function DaysIn(y: nat, m: nat): nat
    requires 1 <= m <= 12
  {
    if m == 2 then (if Leap(y) then 29 else 28)
    else if m in {4, 6, 9, 11} then 30
    else 31
  }

  predicate ValidDate(y: nat, m: nat, d: nat)
  {
    1 <= y < 1_000_000 && 1 <= m <= 12 && 1 <= d <= DaysIn(y, m)
  }

  datatype Date = Date(y: nat, m: nat, d: nat)

  function NextDay(y: nat, m: nat, d: nat): (r: Date)
    requires ValidDate(y, m, d)
  {
    if d < DaysIn(y, m) then Date(y, m, d + 1)
    else if m < 12 then Date(y, m + 1, 1)
    else Date(y + 1, 1, 1)
  }

  /** The ISO weekday of the following day. */
  function IsoNext(w: nat): nat
  {
    w % 7 + 1
  }

  /** Without wrap-around, the weekday is the plain sum modulo 7. */
  lemma DowNoWrap(y: u32, m: nat, d: u32)
    requires 1 <= y <= 1_000_000 && 1 <= m <= 12 && d <= 32
    ensures SakamotoDow(y, m, d) == (YearTerm(if m < 3 then y - 1 else y) + SAKAMOTO[m - 1] + d) % 7
  {
    var y' := if m < 3 then (y - 1) % U32_MOD else y;
    assert y' == if m < 3 then y - 1 else y;
    var x := YearTerm(y') + SAKAMOTO[m - 1] + d;
    assert y' / 100 <= y' / 4;
    assert x < U32_MOD;
    assert x % U32_MOD == x;
    assert SakamotoDow(y, m, d) == (x % U32_MOD) % 7;
  }

  /** A year adds one weekday, and a leap year two. */
  lemma YearTermStep(y: nat)
    requires y >= 1
    ensures YearTerm(y) == YearTerm(y - 1) + 1 + (if Leap(y) then 1 else 0)
  {
    DivStep4(y);
    DivStep100(y);
    DivStep400(y);
    DivisorChain(y);
    var p := y - 1;
    var c4, c100, c400 := y % 4 == 0, y % 100 == 0, y % 400 == 0;
    assert Leap(y) == (c4 && (!c100 || c400));
    assert YearTerm(y) - YearTerm(p) == 1 + (if c4 then 1 else 0) - (if c100 then 1 else 0) + (if c400 then 1 else 0);
  }

  /** Multiples of 400 are multiples of 100, and those are multiples of 4. */
  lemma DivisorChain(y: nat)
    ensures y % 400 == 0 ==> y % 100 == 0
    ensures y % 100 == 0 ==> y % 4 == 0
  {
    if y % 400 == 0 {
      var q := y / 400;
      assert y == 100 * (4 * q);
    }
    if y % 100 == 0 {
      var q := y / 100;
      assert y == 4 * (25 * q);
    }
  }

  lemma DivStep4(y: nat)
    requires y >= 1
    ensures y / 4 == (y - 1) / 4 + (if y % 4 == 0 then 1 else 0)
  {
    var q := (y - 1) / 4;
    assert y - 1 == 4 * q + (y - 1) % 4;
  }

  lemma DivStep100(y: nat)
    requires y >= 1
    ensures y / 100 == (y - 1) / 100 + (if y % 100 == 0 then 1 else 0)
  {
    var q := (y - 1) / 100;
    assert y - 1 == 100 * q + (y - 1) % 100;
  }

  lemma DivStep400(y: nat)
    requires y >= 1
    ensures y / 400 == (y - 1) / 400 + (if y % 400 == 0 then 1 else 0)
  {
    var q := (y - 1) / 400;
    assert y - 1 == 400 * q + (y - 1) % 400;
  }

  /** Sakamoto's method agrees with the calendar: the day after any date falls on
      the next weekday. Together with one known date this fixes every weekday. */
  lemma WeekdayNextDay(y: nat, m: nat, d: nat)
    requires ValidDate(y, m, d)
    ensures var n := NextDay(y, m, d);
      WeekdayIso(n.y, n.m, n.d) == IsoNext(WeekdayIso(y, m, d))
  {
    var n := NextDay(y, m, d);
    DowNoWrap(y, m, d);
    DowNoWrap(n.y, n.m, n.d);
    var yt := YearTerm(if m < 3 then y - 1 else y);
    var x := yt + SAKAMOTO[m - 1] + d;
    var z := YearTerm(if n.m < 3 then n.y - 1 else n.y) + SAKAMOTO[n.m - 1] + n.d;
    if d < DaysIn(y, m) {
      IsoShift(x, z, 0);
    } else if m < 12 {
      if m == 2 {
        YearTermStep(y);
        assert z == yt + 1 + (if Leap(y) then 1 else 0) + 3 && x == yt + 3 + DaysIn(y, 2);
        IsoShift(x, z, 4);
      } else {
        TableStep(m);
        IsoShift(x, z, if m in {4, 7, 10} then 5 else 4);
      }
    } else {
      assert z == yt + 1 && x == yt + 4 + 31;
      IsoShift(x, z, 5);
    }
  }

  /** Outside February, the table advances by the length of the month, modulo 7. */
  lemma TableStep(m: nat)
    requires 1 <= m < 12 && m != 2
    ensures SAKAMOTO[m - 1] + DaysIn(1, m) == SAKAMOTO[m] + 7 * (if m in {4, 7, 10} then 5 else 4)
  {
  }

  lemma IsoShift(x: nat, z: nat, k: nat)
    requires x + 1 == z + 7 * k
    ensures (if z % 7 == 0 then 7 else z % 7) == IsoNext(if x % 7 == 0 then 7 else x % 7)
  {
  }

  /** 17 December 2025 is a Wednesday and 21 December 2025 a Sunday. */
  lemma WeekdayExamples()
    ensures WeekdayIso(2025, 12, 17) == 3 && WeekdayIso(2025, 12, 21) == 7
  {
  }

  // ---------------------------------------------------------------------------
  // RTC_ParseBuildDateTime.

  /** The values the parser writes through its six out-pointers. */
  datatype BuildTime = BuildTime(year: u32, month: nat, day: byte, hour: byte, minute: byte, second: byte)

  /** RTC_ParseBuildDateTime for `__DATE__` = d and `__TIME__` = t. */
  function ParseBuildDateTime(d: seq<byte>, t: seq<byte>): (r: BuildTime)
    requires |d| >= 11 && |t| >= 8
    ensures 1 <= r.month <= 12
  {
    MonthFromAbbrSpec(d);
    var z := '0' as int;
    var day := if d[4] == ' ' as int then (d[5] - z) % 256 else ((d[4] - z) * 10 + (d[5] - z)) % 256;
    var year := ((d[7] - z) * 1000 + (d[8] - z) * 100 + (d[9] - z) * 10 + (d[10] - z)) % U32_MOD;
    BuildTime(year, MonthFromAbbr(d), day, Dec2(t[0], t[1]), Dec2(t[3], t[4]), Dec2(t[6], t[7]))
  }

  /** "Mmm dd yyyy" with a space or a digit for the tens of the day. */
  predicate DateShape(d: seq<byte>)
  {
    |d| >= 11 && (d[4] == ' ' as int || IsDigitIn(d[4], 10)) && IsDigitIn(d[5], 10)
    && IsDigitIn(d[7], 10) && IsDigitIn(d[8], 10) && IsDigitIn(d[9], 10) && IsDigitIn(d[10], 10)
  }

  /** "hh:mm:ss" */
  predicate TimeShape(t: seq<byte>)
  {
    |t| >= 8 && IsDigitIn(t[0], 10) && IsDigitIn(t[1], 10) && IsDigitIn(t[3], 10) && IsDigitIn(t[4], 10) && IsDigitIn(t[6], 10) && IsDigitIn(t[7], 10)
  }

  /** On well-formed strings every field is the decimal number at its offsets: the
      year at 7..10, the day at 4..5 (just 5 after a leading space), and the hours,
      minutes and seconds at 0, 3 and 6. */
  lemma ParseFields(d: seq<byte>, t: seq<byte>)
    requires DateShape(d) && TimeShape(t)
    ensures var r := ParseBuildDateTime(d, t);
      && r.year == ParseNumeral(d[7..11], 10)
      && r.day == (if d[4] == ' ' as int then ParseNumeral(d[5..6], 10) else ParseNumeral(d[4..6], 10))
      && r.hour == ParseNumeral(t[0..2], 10) && r.minute == ParseNumeral(t[3..5], 10)
      && r.second == ParseNumeral(t[6..8], 10)
      && r.hour <= 99 && r.minute <= 99 && r.second <= 99
  {
    TimeFields(d, t);
    DayField(d, t);
    YearDigits(d[7..11]);
  }

  lemma TimeFields(d: seq<byte>, t: seq<byte>)
    requires |d| >= 11 && TimeShape(t)
    ensures var r := ParseBuildDateTime(d, t);
      && r.hour == ParseNumeral(t[0..2], 10) && r.minute == ParseNumeral(t[3..5], 10)
      && r.second == ParseNumeral(t[6..8], 10)
      && r.hour <= 99 && r.minute <= 99 && r.second <= 99
  {
    Dec2Digits(t[0], t[1]);
    Dec2Digits(t[3], t[4]);
    Dec2Digits(t[6], t[7]);
    assert t[0..2] == [t[0], t[1]] && t[3..5] == [t[3], t[4]] && t[6..8] == [t[6], t[7]];
  }

  lemma DayField(d: seq<byte>, t: seq<byte>)
    requires DateShape(d) && |t| >= 8
    ensures var r := ParseBuildDateTime(d, t);
      r.day == (if d[4] == ' ' as int then ParseNumeral(d[5..6], 10) else ParseNumeral(d[4..6], 10))
  {
    if d[4] == ' ' as int {
      assert d[5..6][..0] == [];
    } else {
      Dec2Digits(d[4], d[5]);
      assert d[4..6] == [d[4], d[5]];
    }
  }

  lemma YearDigits(s: seq<byte>)
    requires |s| == 4 && IsDigitIn(s[0], 10) && IsDigitIn(s[1], 10) && IsDigitIn(s[2], 10) && IsDigitIn(s[3], 10)
    ensures ParseNumeral(s, 10) == (s[0] - '0' as int) * 1000 + (s[1] - '0' as int) * 100
      + (s[2] - '0' as int) * 10 + (s[3] - '0' as int)
  {
    var z := '0' as int;
    assert s[..1][..0] == [] && s[..2][..1] == s[..1] && s[..3][..2] == s[..2] && s[..4][..3] == s[..3];
    assert ParseNumeral(s[..1], 10) == s[0] - z;
    assert ParseNumeral(s[..2], 10) == (s[0] - z) * 10 + (s[1] - z);
    assert ParseNumeral(s[..3], 10) == (s[0] - z) * 100 + (s[1] - z) * 10 + (s[2] - z);
    assert s[..4] == s;
  }

  const EXAMPLE_DATE: seq<byte> := Ascii("Dec 17 2025")
  const EXAMPLE_TIME: seq<byte> := Ascii("14:03:59")
  const EXAMPLE_SINGLE: seq<byte> := Ascii("Jan  5 2026")

  /** Both forms of the day. */
  lemma ParseExamples()
    ensures ParseBuildDateTime(EXAMPLE_DATE, EXAMPLE_TIME) == BuildTime(2025, 12, 17, 14, 3, 59)
    ensures ParseBuildDateTime(EXAMPLE_SINGLE, EXAMPLE_TIME).day == 5
    ensures ParseBuildDateTime(EXAMPLE_SINGLE, EXAMPLE_TIME).month == 1
  {
    MonthFromAbbrSpec(EXAMPLE_DATE);
    MonthFromAbbrSpec(EXAMPLE_SINGLE);
    assert EXAMPLE_DATE[..3] == MONTHS[11];
    assert EXAMPLE_SINGLE[..3] == MONTHS[0];
  }

  // ---------------------------------------------------------------------------
  // BCD.

  /** bcd2bin: `(v >> 4) * 10 + (v & 0x0F)`; at most 165, so the cast never cuts. */
  function Bcd2Bin(v: byte): (r: byte)
    ensures IsBcd(v) ==> r <= 99 && r / 10 == v / 16 && r % 10 == v % 16
  {
    (v / 16) * 10 + v % 16
  }

  /** bin2bcd: `(v / 10) << 4 | v % 10` cut to 8 bits; the two parts do not overlap,
      so the `|` is a sum. */
  function Bin2Bcd(v: byte): (r: byte)
    ensures v <= 99 ==> IsBcd(r) && r / 16 == v / 10 && r % 16 == v % 10
  {
    ((v / 10) * 16 + v % 10) % 256
  }

  predicate IsBcd(b: byte)
  {
    b / 16 <= 9 && b % 16 <= 9
  }

  /** Two decimal digits survive the trip to BCD and back, and their BCD form holds a
      decimal digit in each nibble. */
  lemma BcdRoundTrip(v: byte)
    requires v <= 99
    ensures IsBcd(Bin2Bcd(v)) && Bin2Bcd(v) / 16 == v / 10 && Bin2Bcd(v) % 16 == v % 10
    ensures Bcd2Bin(Bin2Bcd(v)) == v
  {
    var hi, lo := v / 10, v % 10;
    assert v == hi * 10 + lo && hi <= 9;
    var b := hi * 16 + lo;
    assert b < 256 && Bin2Bcd(v) == b;
    assert b / 16 == hi && b % 16 == lo;
  }

  /** Every BCD byte survives the trip to binary and back. */
  lemma BinRoundTrip(b: byte)
    requires IsBcd(b)
    ensures Bcd2Bin(b) <= 99 && Bin2Bcd(Bcd2Bin(b)) == b
  {
    var hi, lo := b / 16, b % 16;
    var v := hi * 10 + lo;
    assert v / 10 == hi && v % 10 == lo;
  }

  /** Above 99 the result is wrong. From 100 to 159 the tens still fit in the high
      nibble, which then holds 10..15 and is not BCD; from 160 on the shifted tens no
      longer fit in a byte and lose their top bit, leaving the BCD form of v - 160. */
  lemma Bin2BcdTruncates(v: byte)
    requires 100 <= v
    ensures Bin2Bcd(v) % 16 == v % 10
    ensures v < 160 ==> Bin2Bcd(v) / 16 == v / 10 && !IsBcd(Bin2Bcd(v))
    ensures 160 <= v ==> Bin2Bcd(v) / 16 == v / 10 - 16 && IsBcd(Bin2Bcd(v)) && Bcd2Bin(Bin2Bcd(v)) == v - 160
    ensures Bin2Bcd(160) == 0 && Bin2Bcd(255) == 0x95
  {
    var t, d := v / 10, v % 10;
    if v < 160 {
      assert 10 <= t <= 15 && Bin2Bcd(v) == t * 16 + d;
    } else {
      assert 16 <= t <= 25 && Bin2Bcd(v) == (t - 16) * 16 + d;
      assert v - 160 == (t - 16) * 10 + d;
    }
  }

  // ---------------------------------------------------------------------------
  // The build signature: FNV-1a over `__DATE__`, " " and `__TIME__`.

  const FNV_OFFSET: bv32 := 2166136261
  const FNV_PRIME: bv32 := 16777619
  const SIG_MAGIC: bv32 := 0x5254_4300

  /** One FNV-1a round: xor in the byte, then multiply modulo 2^32. */
  function FnvRound(h: bv32, c: byte): bv32
  {
    (h ^ (c as bv32)) * FNV_PRIME
  }

  /** The hash state after feeding every byte of `s`, first to last. */
  function Fnv(h: bv32, s: seq<byte>): bv32
    decreases |s|
  {
    if s == [] then h else Fnv(FnvRound(h, s[0]), s[1..])
  }

  /** Hashing two strings in turn is hashing their concatenation. */
  lemma {:induction false} FnvAppend(h: bv32, a: seq<byte>, b: seq<byte>)
    ensures Fnv(h, a + b) == Fnv(Fnv(h, a), b)
    decreases |a|
  {
    if a == [] {
      assert a + b == b;
    } else {
      assert (a + b)[0] == a[0] && (a + b)[1..] == a[1..] + b;
      FnvAppend(FnvRound(h, a[0]), a[1..], b);
    }
  }

  /** fnv1a32_step: feeds the C string held in `s` (up to its NUL) into `h`. */
  method Fnv1aStep(h: bv32, s: seq<byte>) returns (r: bv32)
    requires |CStr(s)| < |s|
    ensures r == Fnv(h, CStr(s))
  {
    ghost var c := CStr(s);
    r := h;
    var i := 0;
    while s[i] != 0
      invariant i <= |c| && c == s[..|c|]
      invariant Fnv(r, c[i..]) == Fnv(h, c)
      decreases |c| - i
    {
      assert c[i..][1..] == c[i + 1..];
      r := FnvRound(r, s[i]);
      i := i + 1;
    }
  }

  /** A string literal's characters contain no NUL. */
  predicate NoNul(s: seq<byte>)
  {
    forall i :: 0 <= i < |s| ==> s[i] != 0
  }

  const SPACE: seq<byte> := [' ' as int]

  /** RTC_BuildSignature for the given `__DATE__` and `__TIME__`. */
  function Signature(date: seq<byte>, time: seq<byte>): (sig: bv32)
  {
    SIG_MAGIC ^ Fnv(Fnv(Fnv(FNV_OFFSET, date), SPACE), time)
  }

  /** The signature is FNV-1a of the string "date time", masked with "RTC\0". */
  lemma SignatureOfJoined(date: seq<byte>, time: seq<byte>)
    ensures Signature(date, time) == SIG_MAGIC ^ Fnv(FNV_OFFSET, date + SPACE + time)
    ensures Signature(date, time) ^ SIG_MAGIC == Fnv(FNV_OFFSET, date + SPACE + time)
  {
    FnvAppend(FNV_OFFSET, date, SPACE);
    FnvAppend(FNV_OFFSET, date + SPACE, time);
  }

  /** The signature as the 32-bit word stored in backup register 0. */
  function SignatureWord(date: seq<byte>, time: seq<byte>): (w: u32)
  {
    Signature(date, time) as int
  }

  /** RTC_BuildSignature: the three literals are fed as C strings. */
  method BuildSignature(date: seq<byte>, time: seq<byte>) returns (sig: u32)
    requires NoNul(date) && NoNul(time)
    ensures sig == SignatureWord(date, time)
  {
    CStrTerminated(date);
    CStrTerminated(SPACE);
    CStrTerminated(time);
    var h := FNV_OFFSET;
    h := Fnv1aStep(h, date + [0]);
    h := Fnv1aStep(h, SPACE + [0]);
    h := Fnv1aStep(h, time + [0]);
    sig := (SIG_MAGIC ^ h) as int;
  }

  // ---------------------------------------------------------------------------
  // The RTC registers and RTC_SimpleInit_IfNeeded.

  /** The registers the initialisation writes: the write-enable register, the seven
      BCD calendar registers and backup register 0. */
  datatype Reg = Wer | BcdSec | BcdMin | BcdHour | BcdDay | BcdWeek | BcdMonth | BcdYear | Bkr0

  datatype RegWrite = RegWrite(reg: Reg, value: u32)

  const UNLOCK_KEY: u32 := 0xACAC_ACAC

  /** The seven values the calendar registers receive. */
  datatype BcdCalendar = BcdCalendar(sec: byte, min: byte, hour: byte, day: byte, week: byte, month: byte, year: byte)

  /** The parsed build time in BCD, with the weekday of the build date and the year
      cut to two digits. */
  function BcdOf(p: BuildTime): (c: BcdCalendar)
    requires 1 <= p.month <= 12
  {
    BcdCalendar(Bin2Bcd(p.second), Bin2Bcd(p.minute), Bin2Bcd(p.hour), Bin2Bcd(p.day),
      Bin2Bcd(WeekdayIso(p.year, p.month, p.day)), Bin2Bcd(p.month), Bin2Bcd(p.year % 100))
  }

  /** The seven BCD calendar stores, seconds first. */
  function CalendarWrites(c: BcdCalendar): (ws: seq<RegWrite>)
    ensures |ws| == 7
  {
    [RegWrite(BcdSec, c.sec), RegWrite(BcdMin, c.min), RegWrite(BcdHour, c.hour),
     RegWrite(BcdDay, c.day), RegWrite(BcdWeek, c.week), RegWrite(BcdMonth, c.month),
     RegWrite(BcdYear, c.year)]
  }

  /** The stores RTC_SimpleInit_IfNeeded makes when the signature differs: unlock,
      the calendar, lock, the signature. */
  function InitWrites(c: BcdCalendar, sig: u32): (ws: seq<RegWrite>)
    ensures |ws| == 10
  {
    [RegWrite(Wer, UNLOCK_KEY)] + CalendarWrites(c) + [RegWrite(Wer, 0), RegWrite(Bkr0, sig)]
  }

  /** The calendar registers are written only while the write-enable register holds
      the unlock key, the register is locked again after them, and the signature is
      stored last, once every calendar register holds its new value. */
  lemma InitWritesOrder(c: BcdCalendar, sig: u32)
    ensures var ws := InitWrites(c, sig);
      && ws[0] == RegWrite(Wer, UNLOCK_KEY) && ws[8] == RegWrite(Wer, 0)
      && (forall i :: 1 <= i < 8 ==> ws[i].reg !in {Wer, Bkr0})
      && (forall i :: 0 <= i < 9 ==> ws[i].reg != Bkr0)
      && ws[9] == RegWrite(Bkr0, sig)
  {
  }

  /** Every register has a value. */
  predicate Complete(regs: map<Reg, u32>)
  {
    && Wer in regs && BcdSec in regs && BcdMin in regs && BcdHour in regs && BcdDay in regs
    && BcdWeek in regs && BcdMonth in regs && BcdYear in regs && Bkr0 in regs
  }

  /** The calendar values for the given `__DATE__` and `__TIME__`. */
  function BuildCalendar(date: seq<byte>, time: seq<byte>): BcdCalendar
    requires |date| >= 11 && |time| >= 8
  {
    BcdOf(ParseBuildDateTime(date, time))
  }

  /** The BCD calendar registers hold `c`. */
  predicate CalendarHolds(regs: map<Reg, u32>, c: BcdCalendar)
    requires Complete(regs)
  {
    && regs[BcdSec] == c.sec && regs[BcdMin] == c.min && regs[BcdHour] == c.hour
    && regs[BcdDay] == c.day && regs[BcdWeek] == c.week && regs[BcdMonth] == c.month
    && regs[BcdYear] == c.year
  }

  /** The register file RTC_SimpleInit_IfNeeded leaves behind: the build time and
      date in BCD, the weekday of the build date, the two-digit year, the write-enable
      register locked and the signature in backup register 0. */
  predicate Initialised(regs: map<Reg, u32>, date: seq<byte>, time: seq<byte>)
    requires |date| >= 11 && |time| >= 8
  {
    && Complete(regs)
    && regs[Wer] == 0 && regs[Bkr0] == SignatureWord(date, time)
    && CalendarHolds(regs, BuildCalendar(date, time))
  }

  /** The time of day the BCD registers hold, as RTC_ReadTimeHMS converts it once two
      consecutive readings agree. */
  datatype Hms = Hms(hour: byte, minute: byte, second: byte)

  function ReadTimeHMS(regs: map<Reg, u32>): (t: Hms)
    requires BcdSec in regs && BcdMin in regs && BcdHour in regs
  {
    Hms(Bcd2Bin(regs[BcdHour] % 256), Bcd2Bin(regs[BcdMin] % 256), Bcd2Bin(regs[BcdSec] % 256))
  }

  /** With well-formed build strings, an initialised RTC reads back the build time. */
  lemma InitReadsBuildTime(regs: map<Reg, u32>, date: seq<byte>, time: seq<byte>)
    requires |date| >= 11 && TimeShape(time) && Initialised(regs, date, time)
    ensures var p := ParseBuildDateTime(date, time);
      ReadTimeHMS(regs) == Hms(p.hour, p.minute, p.second)
  {
    Dec2Digits(time[0], time[1]);
    Dec2Digits(time[3], time[4]);
    Dec2Digits(time[6], time[7]);
    var p := ParseBuildDateTime(date, time);
    ReadsTime(regs, p.hour, p.minute, p.second);
  }

  /** The BCD time registers read back the time of day they were set to. */
  lemma ReadsTime(regs: map<Reg, u32>, hh: byte, mm: byte, ss: byte)
    requires Complete(regs) && hh <= 99 && mm <= 99 && ss <= 99
    requires regs[BcdHour] == Bin2Bcd(hh) && regs[BcdMin] == Bin2Bcd(mm) && regs[BcdSec] == Bin2Bcd(ss)
    ensures ReadTimeHMS(regs) == Hms(hh, mm, ss)
  {
    BcdRoundTrip(hh);
    BcdRoundTrip(mm);
    BcdRoundTrip(ss);
  }

  /** ... and every calendar register holds valid BCD. */
  lemma InitHoldsBcd(regs: map<Reg, u32>, date: seq<byte>, time: seq<byte>)
    requires DateShape(date) && TimeShape(time) && Initialised(regs, date, time)
    ensures IsBcd(regs[BcdSec]) && IsBcd(regs[BcdMin]) && IsBcd(regs[BcdHour]) && IsBcd(regs[BcdDay])
    ensures IsBcd(regs[BcdWeek]) && IsBcd(regs[BcdMonth]) && IsBcd(regs[BcdYear])
  {
    var p := ParseBuildDateTime(date, time);
    ParseFields(date, time);
    assert p.day <= 99 by {
      if date[4] != ' ' as int {
        Dec2Digits(date[4], date[5]);
      }
    }
    BcdRoundTrip(p.second);
    BcdRoundTrip(p.minute);
    BcdRoundTrip(p.hour);
    BcdRoundTrip(p.day);
    BcdRoundTrip(WeekdayIso(p.year, p.month, p.day));
    BcdRoundTrip(p.month);
    BcdRoundTrip(p.year % 100);
  }

  /** The RTC peripheral as the initialisation sees it: its register file and the
      stores made to it so far. */
  class Rtc {
    var regs: map<Reg, u32>
    var log: seq<RegWrite>

    ghost predicate Valid()
      reads this
    {
      Complete(regs)
    }

    /** Registers as found at power-up; backup register 0 survives from before. */
    constructor(bkr0: u32)
      ensures Valid() && regs[Bkr0] == bkr0 && log == []
    {
      var z: u32 := 0;
      regs := map[Wer := z, BcdSec := z, BcdMin := z, BcdHour := z, BcdDay := z,
                  BcdWeek := z, BcdMonth := z, BcdYear := z, Bkr0 := bkr0];
      log := [];
    }

    /** A store to one register. */
    method Store(reg: Reg, v: u32)
      requires Valid()
      modifies this
      ensures Valid() && regs == old(regs)[reg := v] && log == old(log) + [RegWrite(reg, v)]
    {
      regs := regs[reg := v];
      log := log + [RegWrite(reg, v)];
    }

    /** RTC_SimpleInit_IfNeeded: nothing happens when backup register 0 already
        holds this build's signature; otherwise the calendar is set to the build time
        and the signature recorded, so that a second call changes nothing. */
    method SimpleInitIfNeeded(date: seq<byte>, time: seq<byte>)
      requires Valid() && |date| >= 11 && |time| >= 8 && NoNul(date) && NoNul(time)
      modifies this
      ensures Valid() && regs[Bkr0] == SignatureWord(date, time)
      ensures old(regs[Bkr0]) == SignatureWord(date, time) ==> regs == old(regs) && log == old(log)
      ensures old(regs[Bkr0]) != SignatureWord(date, time) ==>
        && Initialised(regs, date, time)
        && log == old(log) + InitWrites(BuildCalendar(date, time), SignatureWord(date, time))
    {
      var sig := BuildSignature(date, time);
      if regs[Bkr0] == sig {
        return;
      }
      var p := ParseBuildDateTime(date, time);
      var week := WeekdayIso(p.year, p.month, p.day);
      var c := BcdCalendar(Bin2Bcd(p.second), Bin2Bcd(p.minute), Bin2Bcd(p.hour), Bin2Bcd(p.day),
        Bin2Bcd(week), Bin2Bcd(p.month), Bin2Bcd(p.year % 100));
      assert c == BuildCalendar(date, time);
      SetCalendar(c, sig);
    }

    /** The stores after the signature check. */
    method SetCalendar(c: BcdCalendar, sig: u32)
      requires Valid()
      modifies this
      ensures Valid() && log == old(log) + InitWrites(c, sig)
      ensures regs[Wer] == 0 && regs[Bkr0] == sig && CalendarHolds(regs, c)
    {
      ghost var l0 := log;
      Store(Wer, UNLOCK_KEY);
      WriteCalendar(c);
      Store(Wer, 0);
      Store(Bkr0, sig);
      assert log == l0 + [RegWrite(Wer, UNLOCK_KEY)] + CalendarWrites(c) + [RegWrite(Wer, 0), RegWrite(Bkr0, sig)];
    }

    /** The seven BCD stores made while the registers are unlocked. */
    method WriteCalendar(c: BcdCalendar)
      requires Valid()
      modifies this
      ensures Valid() && log == old(log) + CalendarWrites(c) && CalendarHolds(regs, c)
      ensures regs[Wer] == old(regs[Wer]) && regs[Bkr0] == old(regs[Bkr0])
    {
      WriteTime(c);
      WriteDate(c);
      assert CalendarWrites(c) == CalendarWrites(c)[..3] + CalendarWrites(c)[3..];
    }

    /** Seconds, minutes and hours. */
    method WriteTime(c: BcdCalendar)
      requires Valid()
      modifies this
      ensures Valid() && log == old(log) + CalendarWrites(c)[..3]
      ensures regs == old(regs)[BcdSec := c.sec][BcdMin := c.min][BcdHour := c.hour]
    {
      Store(BcdSec, c.sec);
      Store(BcdMin, c.min);
      Store(BcdHour, c.hour);
    }

    /** Day, weekday, month and year. */
    method WriteDate(c: BcdCalendar)
      requires Valid()
      modifies this
      ensures Valid() && log == old(log) + CalendarWrites(c)[3..]
      ensures regs == old(regs)[BcdDay := c.day][BcdWeek := c.week][BcdMonth := c.month][BcdYear := c.year]
    {
      Store(BcdDay, c.day);
      Store(BcdWeek, c.week);
      Store(BcdMonth, c.month);
      Store(BcdYear, c.year);
    }
  }
}
