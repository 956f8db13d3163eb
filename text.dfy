/** Text as the firmware produces it: ASCII literals, `toupper` in the C locale,
    and the integer conversions of `sprintf` (`%u`, `%d`, `%0Nu`, `%06lX`). */
module Text {
  import opened Bytes

  /** The bytes of an ASCII string literal. */
  function Ascii(s: string): (r: seq<byte>)
    requires forall i :: 0 <= i < |s| ==> s[i] as int < 256
    ensures |r| == |s|
    ensures forall i :: 0 <= i < |s| ==> r[i] == s[i] as int
  {
    seq(|s|, i requires 0 <= i < |s| => s[i] as int)
  }

  /** C `toupper` in the "C" locale. */
  function Upper(c: byte): (r: byte)
    ensures 'a' as int <= c <= 'z' as int ==> r == c - 32
    ensures !('a' as int <= c <= 'z' as int) ==> r == c
    ensures !('a' as int <= r <= 'z' as int)
  {
    if 'a' as int <= c <= 'z' as int then c - 32 else c
  }

  /** Upper-case digit character for 0..15, as `%X` prints it. */
  function DigitChar(d: nat): (c: byte)
    requires d < 16
  {
    if d < 10 then '0' as int + d else 'A' as int + d - 10
  }

  function DigitValue(c: byte): nat
  {
    if '0' as int <= c <= '9' as int then c - '0' as int
    else if 'A' as int <= c <= 'F' as int then c - 'A' as int + 10
    else 0
  }

  predicate IsDigitIn(c: byte, base: nat)
  {
    ('0' as int <= c <= '9' as int && c - '0' as int < base)
    || ('A' as int <= c <= 'F' as int && c - 'A' as int + 10 < base)
  }

  /** The digits of `n` in `base` without leading zeros ("0" for zero). */
  function Numeral(n: nat, base: nat): (r: seq<byte>)
    requires 2 <= base <= 16
    ensures 1 <= |r|
    ensures forall i :: 0 <= i < |r| ==> IsDigitIn(r[i], base)
    decreases n
  {
    if n < base then [DigitChar(n)] else Numeral(n / base, base) + [DigitChar(n % base)]
  }

  /** Reads a string of digits in `base`, most significant first. */
  function ParseNumeral(s: seq<byte>, base: nat): nat
  {
    if s == [] then 0 else ParseNumeral(s[..|s| - 1], base) * base + DigitValue(s[|s| - 1])
  }

  lemma {:induction false} NumeralRoundTrip(n: nat, base: nat)
    requires 2 <= base <= 16
    ensures ParseNumeral(Numeral(n, base), base) == n
    decreases n
  {
    if n < base {
      NumeralLastDigit(n, base);
    } else {
      NumeralRoundTrip(n / base, base);
      NumeralLastDigit(n, base);
    }
  }

  /** Reading back the last digit of `n` extends the reading of the digits of n / base. */
  lemma NumeralLastDigit(n: nat, base: nat)
    requires 2 <= base <= 16
    requires n >= base ==> ParseNumeral(Numeral(n / base, base), base) == n / base
    ensures ParseNumeral(Numeral(n, base), base) == n
  {
    var c := DigitChar(n % base);
    DigitRoundTrip(n % base);
    if n < base {
      var one: seq<byte> := [c];
      assert Numeral(n, base) == one;
      assert one[..0] == [];
    } else {
      var p := Numeral(n / base, base);
      assert Numeral(n, base) == p + [c];
      ParseSnoc(p, c, base);
      MulDivMod(n, base);
    }
  }

  lemma ParseSnoc(p: seq<byte>, c: byte, base: nat)
    ensures ParseNumeral(p + [c], base) == ParseNumeral(p, base) * base + DigitValue(c)
  {
    assert (p + [c])[..|p|] == p;
  }

  lemma MulDivMod(n: nat, base: nat)
    requires base >= 1
    ensures (n / base) * base + n % base == n
  {
  }

  lemma DigitRoundTrip(d: nat)
    requires d < 16
    ensures DigitValue(DigitChar(d)) == d
  {
  }

  function Pow(base: nat, k: nat): (r: nat)
    ensures base >= 1 ==> r >= 1
  {
    if k == 0 then 1 else base * Pow(base, k - 1)
  }

  /** `n` below base^k needs at most k digits. */
  lemma {:induction false} NumeralLength(n: nat, base: nat, k: nat)
    requires 2 <= base <= 16
    requires 1 <= k && n < Pow(base, k)
    ensures |Numeral(n, base)| <= k
    decreases k
  {
    if n >= base {
      var p := Pow(base, k - 1);
      assert n < base * p;
      DivBelow(n, base, p);
      NumeralLength(n / base, base, k - 1);
    }
  }

  lemma DivBelow(n: nat, b: nat, p: nat)
    requires b > 0 && n < b * p
    ensures n / b < p
  {
    assert b * (n / b) <= n;
    assert b * (p - n / b) > 0;
  }

  /** `%0<w>` conversions: left-pad with '0' up to width w (never truncates). */
  function ZeroPad(s: seq<byte>, w: nat): (r: seq<byte>)
    ensures |r| == if |s| < w then w else |s|
    ensures |s| < w ==> r == Repeat('0' as int, w - |s|) + s
    ensures w <= |s| ==> r == s
  {
    if |s| < w then Repeat('0' as int, w - |s|) + s else s
  }

  lemma {:induction false} ParseLeadingZeros(z: nat, s: seq<byte>, base: nat)
    requires 2 <= base
    ensures ParseNumeral(Repeat('0' as int, z) + s, base) == ParseNumeral(s, base)
    decreases |s|
  {
    var t := Repeat('0' as int, z) + s;
    if s == [] {
      assert t == Repeat('0' as int, z);
      ZerosParse(z, base);
    } else {
      assert t[..|t| - 1] == Repeat('0' as int, z) + s[..|s| - 1];
      ParseLeadingZeros(z, s[..|s| - 1], base);
    }
  }

  lemma {:induction false} ZerosParse(z: nat, base: nat)
    ensures ParseNumeral(Repeat('0' as int, z), base) == 0
  {
    if z > 0 {
      var t := Repeat('0' as int, z);
      assert t[..|t| - 1] == Repeat('0' as int, z - 1);
      ZerosParse(z - 1, base);
    }
  }

  /** `%u` */
  function Dec(n: nat): (r: seq<byte>)
  {
    Numeral(n, 10)
  }

  /** `%d` of a signed value. */
  function DecInt(n: int): (r: seq<byte>)
    ensures n < 0 <==> (|r| > 0 && r[0] == '-' as int)
  {
    if n < 0 then ['-' as int] + Dec(-n) else Dec(n)
  }

  /** `%0<w>u` */
  function DecPad(n: nat, w: nat): (r: seq<byte>)
    ensures ParseNumeral(r, 10) == n
  {
    NumeralRoundTrip(n, 10);
    var d := Dec(n);
    if |d| < w then ParseLeadingZeros(w - |d|, d, 10); ZeroPad(d, w) else ZeroPad(d, w)
  }

  /** `%06lX` of a 24-bit value: exactly six upper-case hex digits. */
  function Hex6(v: nat): (r: seq<byte>)
    requires v < 0x100_0000
    ensures |r| == 6
    ensures forall i :: 0 <= i < 6 ==> IsDigitIn(r[i], 16)
    ensures ParseNumeral(r, 16) == v
  {
    assert Pow(16, 6) == 0x100_0000;
    NumeralLength(v, 16, 6);
    NumeralRoundTrip(v, 16);
    var d := Numeral(v, 16);
    if |d| < 6 then ParseLeadingZeros(6 - |d|, d, 16); ZeroPad(d, 6) else ZeroPad(d, 6)
  }
}
