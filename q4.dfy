/** The Q4 fixed-point temperature text of Src/spi_flash.c: a signed 16-bit value in
    units of 1/16 degree, printed as `[-]<whole>.<4 digits> C` with an optional
    `hh:mm:ss  ` time stamp in front. */
module TempFormat {
  import opened Bytes
  import opened Text
  import RingLog

  type i16 = x: int | -0x8000 <= x < 0x8000
  type u8 = x: int | 0 <= x < 256

  /** The conversion of an `int` back to `int16_t` (two's-complement wrap). */
  function Wrap16(x: int): (r: i16)
    ensures -0x8000 <= x < 0x8000 ==> r == x
  {
    (x + 0x8000) % 0x1_0000 - 0x8000
  }

  /** `a = (int16_t)(sign ? -t : t)`: the magnitude, except that -32768 has none. */
  function Magnitude(t: i16): (a: i16)
    ensures t != -0x8000 ==> a == (if t < 0 then -t else t)
    ensures t == -0x8000 ==> a == -0x8000
  {
    Wrap16(if t < 0 then -(t as int) else t as int)
  }

  /** `a >> 4` (arithmetic shift, i.e. floor division) and `(a & 0x0F) * 625`. */
  function Whole(t: i16): int
  {
    Magnitude(t) / 16
  }

  function Frac4(t: i16): (f: nat)
    ensures f <= 9375 && f % 625 == 0
  {
    (Magnitude(t) % 16) * 625
  }

  /** `[-]%d.%04d` with whole = Whole(t) and the four-digit fraction Frac4(t). */
  function Number(t: i16): (r: seq<byte>)
  {
    (if t < 0 then ['-' as int] else []) + DecInt(Whole(t)) + ['.' as int] + DecPad(Frac4(t), 4)
  }

  const LABEL: seq<byte> := Ascii("Temperature: ")
  const UNIT: seq<byte> := Ascii(" C\r\n")
  const GAP: seq<byte> := Ascii("  ")

  /** The text of Flash_WriteTemperatureFile_Q4: "Temperature: [-]W.FFFF C\r\n". */
  function TempText(t: i16): (r: seq<byte>)
  {
    LABEL + Number(t) + UNIT
  }

  /** The text of Flash_LogTemperatureWithTime_Ring5_Q4: "%02u:%02u:%02u  " and then
      the temperature text. */
  function TimedTempText(t: i16, hh: u8, mm: u8, ss: u8): (r: seq<byte>)
  {
    Stamp(hh, mm, ss) + TempText(t)
  }

  function Stamp(hh: u8, mm: u8, ss: u8): (r: seq<byte>)
  {
    DecPad(hh, 2) + [':' as int] + DecPad(mm, 2) + [':' as int] + DecPad(ss, 2) + GAP
  }

  // ---------------------------------------------------------------------------
  // Reading the printed decimal back.

  /** Value times 10000 of an unsigned decimal "W.FFFF". */
  function ReadUnsigned(s: seq<byte>): int
  {
    var k := IndexOf(s, '.' as int);
    if k < |s| then ParseNumeral(s[..k], 10) * 10000 + ParseNumeral(s[k + 1..], 10) else -1
  }

  /** Value times 10000 of a signed decimal "[-]W.FFFF". */
  function ReadFixed4(s: seq<byte>): int
  {
    if |s| > 0 && s[0] == '-' as int then -ReadUnsigned(s[1..]) else ReadUnsigned(s)
  }

  /** A run of decimal digits followed by '.' is cut at that '.'. */
  lemma DotAfterDigits(d: seq<byte>, f: seq<byte>)
    requires forall i :: 0 <= i < |d| ==> IsDigitIn(d[i], 10)
    ensures var s := d + ['.' as int] + f;
      IndexOf(s, '.' as int) == |d| && s[..|d|] == d && s[|d| + 1..] == f
  {
    var s := d + ['.' as int] + f;
    assert s[|d|] == '.' as int;
    forall j | 0 <= j < |d|
      ensures s[j] != '.' as int
    {
      assert s[j] == d[j];
    }
    IndexOfUnique(s, '.' as int, |d|);
  }

  /** Four fraction digits are always printed. */
  lemma FracWidth(t: i16)
    ensures |DecPad(Frac4(t), 4)| == 4
  {
    assert Pow(10, 4) == 10000;
    NumeralLength(Frac4(t), 10, 4);
  }

  /** For every value the sensor path can produce (all of int16 but -32768), the
      printed decimal is exactly t/16: reading it back gives t * 625 ten-thousandths. */
  lemma NumberExact(t: i16)
    requires t != -0x8000
    ensures ReadFixed4(Number(t)) == t * 625
  {
    var m: nat := Magnitude(t);
    var u := Dec(m / 16) + ['.' as int] + DecPad((m % 16) * 625, 4);
    NumberUnsigned(t);
    UnsignedExact(m);
    if t < 0 {
      SignedRead(u, Number(t));
    } else {
      assert Dec(m / 16)[0] != '-' as int;
      assert u[0] == Dec(m / 16)[0];
      UnsignedRead(u, Number(t));
    }
  }

  lemma UnsignedRead(u: seq<byte>, s: seq<byte>)
    requires s == [] + u && |u| > 0 && u[0] != '-' as int
    ensures ReadFixed4(s) == ReadUnsigned(u)
  {
    assert s == u;
  }

  /** Below -32768 the text is a '-' and then the unsigned text of the magnitude. */
  lemma NumberUnsigned(t: i16)
    requires t != -0x8000
    ensures var m: nat := Magnitude(t);
      Number(t) == (if t < 0 then ['-' as int] else [])
        + (Dec(m / 16) + ['.' as int] + DecPad((m % 16) * 625, 4))
  {
    var m: nat := Magnitude(t);
    assert Whole(t) == m / 16 && DecInt(Whole(t)) == Dec(m / 16);
    assert Frac4(t) == (m % 16) * 625;
  }

  lemma SignedRead(u: seq<byte>, s: seq<byte>)
    requires s == ['-' as int] + u
    ensures ReadFixed4(s) == -ReadUnsigned(u)
  {
    assert s[1..] == u;
  }

  /** "W.FFFF" with W = m >> 4 and FFFF = (m & 15) * 625 reads back as m * 625. */
  lemma UnsignedExact(m: nat)
    ensures ReadUnsigned(Dec(m / 16) + ['.' as int] + DecPad((m % 16) * 625, 4)) == m * 625
  {
    var d := Dec(m / 16);
    var f := DecPad((m % 16) * 625, 4);
    NumeralRoundTrip(m / 16, 10);
    DotAfterDigits(d, f);
    MulDivMod(m, 16);
  }

  /** At -32768 the negation wraps: the magnitude stays negative, `a >> 4` is -2048
      and `%d` prints its own sign after the one the format adds. */
  lemma MinValueText()
    ensures Number(-0x8000) == Ascii("--2048.0000")
  {
    assert Whole(-0x8000) == -2048;
    assert Frac4(-0x8000) == 0;
    Dec2048();
    var minus: seq<byte> := ['-' as int];
    var dot: seq<byte> := ['.' as int];
    assert DecInt(-2048) == minus + Ascii("2048");
    assert DecPad(0, 4) == Ascii("0000");
    assert Number(-0x8000) == minus + (minus + Ascii("2048")) + dot + Ascii("0000");
  }

  lemma Dec2048()
    ensures Dec(2048) == Ascii("2048")
  {
    assert Numeral(2, 10) == Ascii("2");
    assert Numeral(20, 10) == Ascii("20");
    assert Numeral(204, 10) == Ascii("204");
  }

  // ---------------------------------------------------------------------------
  // The timed line is a well-formed ring-log line.

  /** Printable text: neither '\n' nor NUL occurs in it. */
  predicate NoNL(s: seq<byte>)
  {
    RingLog.NL !in s && 0 !in s
  }

  lemma AsciiNoNL(s: string)
    requires forall i :: 0 <= i < |s| ==> s[i] as int < 256 && s[i] != '\n' && s[i] != '\0'
    ensures NoNL(Ascii(s))
  {
  }

  lemma DigitsNoNL(s: seq<byte>)
    requires forall i :: 0 <= i < |s| ==> IsDigitIn(s[i], 10)
    ensures NoNL(s)
  {
  }

  lemma NoNLAppend(a: seq<byte>, b: seq<byte>)
    requires NoNL(a) && NoNL(b)
    ensures NoNL(a + b)
  {
    assert forall i :: 0 <= i < |b| ==> (a + b)[|a| + i] == b[i];
  }

  /** `%0<w>u`: digits only. */
  lemma DecPadDigits(n: nat, w: nat)
    ensures forall i :: 0 <= i < |DecPad(n, w)| ==> IsDigitIn(DecPad(n, w)[i], 10)
  {
    var d := Dec(n);
    var r := DecPad(n, w);
    if |d| < w {
      assert r == Repeat('0' as int, w - |d|) + d;
      forall i | 0 <= i < |r|
        ensures IsDigitIn(r[i], 10)
      {
        if i >= w - |d| {
          assert r[i] == d[i - (w - |d|)];
        }
      }
    }
  }

  /** `%0<w>u` of a byte value: digits only, at most three of them. */
  lemma DecPadByte(n: u8, w: nat)
    requires 1 <= w <= 3
    ensures var r := DecPad(n, w);
      1 <= |r| <= 3 && forall i :: 0 <= i < |r| ==> IsDigitIn(r[i], 10)
  {
    assert Pow(10, 3) == 1000;
    NumeralLength(n, 10, 3);
    DecPadDigits(n, w);
  }

  /** The `%d` of the whole part: no '\n', at most five bytes ("-2048"). */
  lemma WholeShape(t: i16)
    ensures NoNL(DecInt(Whole(t))) && |DecInt(Whole(t))| <= 5
  {
    var w := Whole(t);
    var m := if w < 0 then -w else w;
    assert m <= 2048;
    assert Pow(10, 4) == 10000;
    NumeralLength(m, 10, 4);
    DigitsNoNL(Dec(m));
    if w < 0 {
      assert DecInt(w) == ['-' as int] + Dec(m);
      NoNLAppend(['-' as int], Dec(m));
    }
  }

  /** The four fraction digits: no '\n'. */
  lemma FracShape(t: i16)
    ensures NoNL(DecPad(Frac4(t), 4)) && |DecPad(Frac4(t), 4)| == 4
  {
    FracWidth(t);
    DecPadDigits(Frac4(t), 4);
    DigitsNoNL(DecPad(Frac4(t), 4));
  }

  /** The number part: no '\n', and at most 11 bytes ("-", "-2048", ".", 4 digits). */
  lemma NumberShape(t: i16)
    ensures NoNL(Number(t)) && |Number(t)| <= 11
  {
    var sign: seq<byte> := if t < 0 then ['-' as int] else [];
    var di := DecInt(Whole(t));
    var f := DecPad(Frac4(t), 4);
    WholeShape(t);
    FracShape(t);
    assert Number(t) == sign + di + ['.' as int] + f;
    NoNLAppend(sign, di);
    NoNLAppend(sign + di, ['.' as int]);
    NoNLAppend(sign + di + ['.' as int], f);
  }

  /** Printable pieces followed by a piece that ends in its only '\n'. */
  lemma Terminated(a: seq<byte>, c: seq<byte>, l: seq<byte>)
    requires NoNL(a) && l == a + c
    requires |c| >= 1 && c[|c| - 1] == RingLog.NL && NoNL(c[..|c| - 1])
    ensures |l| == |a| + |c| && l[|l| - 1] == RingLog.NL && NoNL(l[..|l| - 1])
  {
    assert l[..|l| - 1] == a + c[..|c| - 1];
    NoNLAppend(a, c[..|c| - 1]);
  }

  lemma LiteralsShape()
    ensures |LABEL| == 13 && NoNL(LABEL)
    ensures |UNIT| == 4 && UNIT[3] == RingLog.NL && NoNL(UNIT[..3])
  {
    AsciiNoNL("Temperature: ");
  }

  /** The temperature text is at most 28 bytes and ends in its only '\n'. */
  lemma TempTextShape(t: i16)
    ensures var l := TempText(t);
      && |l| <= 28 && l[|l| - 1] == RingLog.NL && NoNL(l[..|l| - 1])
  {
    NumberShape(t);
    var head := LABEL;
    var tail := UNIT;
    LiteralsShape();
    var n := Number(t);
    NoNLAppend(head, n);
    Terminated(head + n, tail, TempText(t));
  }

  /** "%02u:%02u:%02u  ": printable, 8 to 13 bytes, starting with a digit. */
  lemma StampShape(hh: u8, mm: u8, ss: u8)
    ensures var p := Stamp(hh, mm, ss);
      && |p| <= 13 && p[0] != 0xFF && NoNL(p)
  {
    var h, m, s := DecPad(hh, 2), DecPad(mm, 2), DecPad(ss, 2);
    DecPadByte(hh, 2);
    DecPadByte(mm, 2);
    DecPadByte(ss, 2);
    DigitsNoNL(h);
    DigitsNoNL(m);
    DigitsNoNL(s);
    var colon: seq<byte> := [':' as int];
    var gap: seq<byte> := [' ' as int, ' ' as int];
    assert GAP == gap;
    NoNLAppend(h, colon);
    NoNLAppend(h + colon, m);
    NoNLAppend(h + colon + m, colon);
    NoNLAppend(h + colon + m + colon, s);
    NoNLAppend(h + colon + m + colon + s, gap);
    assert Stamp(hh, mm, ss)[0] == h[0];
  }

  /** Every timed temperature line is a well-formed ring-log line: at most 50 bytes,
      ending with its only '\n', and not starting with 0xFF. */
  lemma TimedTextIsGoodLine(t: i16, hh: u8, mm: u8, ss: u8)
    ensures RingLog.GoodLine(TimedTempText(t, hh, mm, ss))
  {
    StampShape(hh, mm, ss);
    TempTextShape(t);
    var p, tt := Stamp(hh, mm, ss), TempText(t);
    GoodJoin(p, tt);
  }

  /** The timed line is printable up to its final '\n'. */
  lemma TimedTextPrintable(t: i16, hh: u8, mm: u8, ss: u8)
    ensures var l := TimedTempText(t, hh, mm, ss);
      |l| >= 1 && l[|l| - 1] == RingLog.NL && NoNL(l[..|l| - 1])
  {
    StampShape(hh, mm, ss);
    TempTextShape(t);
    Terminated(Stamp(hh, mm, ss), TempText(t), TimedTempText(t, hh, mm, ss));
  }

  lemma GoodJoin(a: seq<byte>, c: seq<byte>)
    requires 1 <= |a| && a[0] != 0xFF && NoNL(a) && |a| + |c| <= 50
    requires |c| >= 1 && c[|c| - 1] == RingLog.NL && NoNL(c[..|c| - 1])
    ensures RingLog.GoodLine(a + c)
  {
    Terminated(a, c, a + c);
  }

  /** The C strings handed on (`strlen(buf)`) are the whole texts: they hold no NUL. */
  lemma TextsHaveNoNul(t: i16, hh: u8, mm: u8, ss: u8)
    ensures CStr(TempText(t) + [0]) == TempText(t)
    ensures CStr(TimedTempText(t, hh, mm, ss) + [0]) == TimedTempText(t, hh, mm, ss)
  {
    TempTextShape(t);
    TimedTextPrintable(t, hh, mm, ss);
    var a := TempText(t);
    var b := TimedTempText(t, hh, mm, ss);
    assert forall i :: 0 <= i < |a| ==> a[i] != 0 by {
      assert forall i :: 0 <= i < |a| - 1 ==> a[i] == a[..|a| - 1][i];
    }
    assert forall i :: 0 <= i < |b| ==> b[i] != 0 by {
      assert forall i :: 0 <= i < |b| - 1 ==> b[i] == b[..|b| - 1][i];
    }
    CStrTerminated(a);
    CStrTerminated(b);
  }
}
