/** Byte-level vocabulary shared by the firmware model: bytes, 32-bit words,
    buffer overlays (memcpy/memset), C strings and little-endian fields. */
module Bytes {

  type byte = b: int | 0 <= b < 256
  type u16 = x: int | 0 <= x < 0x1_0000
  type u32 = x: int | 0 <= x < 0x1_0000_0000

  const U32_MOD: int := 0x1_0000_0000

  /** A C pointer that may be NULL, or a result that may be absent. */
  datatype Option<T> = None | Some(value: T)

  function Min(a: int, b: int): (r: int)
    ensures r <= a && r <= b && (r == a || r == b)
  {
    if a < b then a else b
  }

  function Repeat(v: byte, n: nat): (r: seq<byte>)
    ensures |r| == n
    ensures forall i :: 0 <= i < n ==> r[i] == v
  {
    seq(n, _ => v)
  }

  function Zeros(n: nat): (r: seq<byte>)
    ensures |r| == n
    ensures forall i :: 0 <= i < n ==> r[i] == 0
  {
    Repeat(0, n)
  }

  /** The buffer `s` after copying `b` to offset `off` (a memcpy). */
  function Put(s: seq<byte>, off: nat, b: seq<byte>): (r: seq<byte>)
    requires off + |b| <= |s|
    ensures |r| == |s|
    ensures forall i :: 0 <= i < |s| ==> r[i] == if off <= i < off + |b| then b[i - off] else s[i]
  {
    s[..off] + b + s[off + |b|..]
  }

  /** Writing a sub-buffer at `off + j` is writing into the sector image placed at `off`. */
  lemma PutPut(s: seq<byte>, off: nat, sec: seq<byte>, j: nat, b: seq<byte>)
    requires off + |sec| <= |s|
    requires j + |b| <= |sec|
    ensures Put(Put(s, off, sec), off + j, b) == Put(s, off, Put(sec, j, b))
  {
    var l := Put(Put(s, off, sec), off + j, b);
    var r := Put(s, off, Put(sec, j, b));
    assert forall i :: 0 <= i < |s| ==> l[i] == r[i];
  }

  /** A single byte store at `off + j` is a store into the sector image placed at `off`. */
  lemma PutStore(s: seq<byte>, off: nat, sec: seq<byte>, j: nat, v: byte)
    requires off + |sec| <= |s|
    requires j < |sec|
    ensures Put(s, off, sec)[off + j := v] == Put(s, off, sec[j := v])
  {
    var l := Put(s, off, sec)[off + j := v];
    var r := Put(s, off, sec[j := v]);
    assert forall i :: 0 <= i < |s| ==> l[i] == r[i];
  }

  /** Index of the first occurrence of `b` in `s`, or |s| when there is none. */
  function IndexOf(s: seq<byte>, b: byte): (k: nat)
    ensures k <= |s|
  {
    if |s| == 0 then 0
    else if s[0] == b then 0
    else 1 + IndexOf(s[1..], b)
  }

  /** `b` does not occur before the index found, and occurs at it unless none was found. */
  lemma {:induction false} IndexOfSpec(s: seq<byte>, b: byte)
    ensures var k := IndexOf(s, b);
      && (forall j :: 0 <= j < k ==> s[j] != b)
      && (k < |s| ==> s[k] == b)
  {
    if |s| > 0 && s[0] != b {
      IndexOfSpec(s[1..], b);
      var k := IndexOf(s, b);
      forall j | 0 <= j < k
        ensures s[j] != b
      {
        if j > 0 {
          assert s[j] == s[1..][j - 1];
        }
      }
    }
  }

  /** The first occurrence is the only index before which `b` does not occur. */
  lemma {:induction false} IndexOfUnique(s: seq<byte>, b: byte, k: nat)
    requires k < |s| && s[k] == b
    requires forall j :: 0 <= j < k ==> s[j] != b
    ensures IndexOf(s, b) == k
  {
    if k > 0 {
      assert s[1..][k - 1] == b;
      forall j | 0 <= j < k - 1
        ensures s[1..][j] != b
      {
        assert s[1..][j] == s[j + 1];
      }
      IndexOfUnique(s[1..], b, k - 1);
    }
  }

  /** The characters of a C string held in `s`: everything before the first NUL. */
  function CStr(s: seq<byte>): (r: seq<byte>)
    ensures |r| <= |s| && r == s[..|r|]
    ensures forall i :: 0 <= i < |r| ==> r[i] != 0
    ensures |r| < |s| ==> s[|r|] == 0
  {
    IndexOfSpec(s, 0);
    s[..IndexOf(s, 0)]
  }

  /** A string without NUL is its own C string ... */
  lemma CStrWhole(s: seq<byte>)
    requires forall i :: 0 <= i < |s| ==> s[i] != 0
    ensures CStr(s) == s
  {
  }

  /** ... and so is the buffer holding it with its terminator, as sprintf leaves it. */
  lemma CStrTerminated(s: seq<byte>)
    requires forall i :: 0 <= i < |s| ==> s[i] != 0
    ensures CStr(s + [0]) == s
  {
    IndexOfUnique(s + [0], 0, |s|);
  }

  /** The C string that starts `k` characters into another one is its tail. */
  lemma CStrFrom(s: seq<byte>, k: nat)
    requires k <= |CStr(s)|
    ensures CStr(s[k..]) == CStr(s)[k..]
  {
    var c := CStr(s);
    var t := s[k..];
    if |c| < |s| {
      assert t[|c| - k] == 0;
      forall j | 0 <= j < |c| - k
        ensures t[j] != 0
      {
        assert t[j] == c[k + j];
      }
      IndexOfUnique(t, 0, |c| - k);
    } else {
      assert forall j :: 0 <= j < |t| ==> t[j] == c[k + j];
      CStrWhole(t);
    }
  }

  /** memset(a + at, v, n) */
  method Memset(a: array<byte>, at: nat, v: byte, n: nat)
    requires at + n <= a.Length
    modifies a
    ensures a[..] == Put(old(a[..]), at, Repeat(v, n))
  {
    var i := 0;
    while i < n
      invariant 0 <= i <= n
      invariant a[..] == Put(old(a[..]), at, Repeat(v, i))
    {
      a[at + i] := v;
      i := i + 1;
    }
  }

  /** memcpy(a + at, src, |src|) */
  method Memcpy(a: array<byte>, at: nat, src: seq<byte>)
    requires at + |src| <= a.Length
    modifies a
    ensures a[..] == Put(old(a[..]), at, src)
  {
    var i := 0;
    while i < |src|
      invariant 0 <= i <= |src|
      invariant a[..] == Put(old(a[..]), at, src[..i])
    {
      a[at + i] := src[i];
      i := i + 1;
    }
    assert src[..i] == src;
  }

  /** The `n`-byte destination of `strncpy(dst, src, n)`: the characters of `src`
      up to its NUL or `n` of them, then NUL padding up to `n`. */
  function StrNCpy(src: seq<byte>, n: nat): (r: seq<byte>)
    ensures |r| == n
    ensures forall i :: 0 <= i < n ==> r[i] == if i < Min(|CStr(src)|, n) then src[i] else 0
  {
    var c := CStr(src);
    var k := Min(|c|, n);
    c[..k] + Zeros(n - k)
  }

  lemma {:induction false} StrNCpyCStr(src: seq<byte>, n: nat)
    requires |CStr(src)| < n
    ensures CStr(StrNCpy(src, n)) == CStr(src)
  {
    var r := StrNCpy(src, n);
    var c := CStr(src);
    assert r[|c|] == 0;
    assert forall i :: 0 <= i < |c| ==> r[i] == c[i] && r[i] != 0;
    IndexOfUnique(r, 0, |c|);
  }

  /** Little-endian encodings, as the Cortex-M core stores them and as FAT requires. */
  function Le16(v: u16): (r: seq<byte>)
    ensures |r| == 2
  {
    [v % 256, v / 256]
  }

  function Le32(v: u32): (r: seq<byte>)
    ensures |r| == 4
  {
    [v % 256, (v / 256) % 256, (v / 256 / 256) % 256, v / 256 / 256 / 256]
  }

  /** Value of a little-endian byte string. */
  function DecodeLe(s: seq<byte>): nat
  {
    if s == [] then 0 else s[0] + 256 * DecodeLe(s[1..])
  }

  lemma Le16RoundTrip(v: u16)
    ensures DecodeLe(Le16(v)) == v
  {
    var r := Le16(v);
    assert r[1..][1..] == [];
    assert DecodeLe(r[1..]) == v / 256;
  }

  lemma Le32RoundTrip(v: u32)
    ensures DecodeLe(Le32(v)) == v
  {
    var r := Le32(v);
    assert r[1..][1..][1..][1..] == [];
    var q1 := v / 256;
    var q2 := q1 / 256;
    var q3 := q2 / 256;
    DivMod256(q2);
    DivMod256(q1);
    DivMod256(v);
    assert DecodeLe(r[1..][1..][1..]) == q3;
    assert DecodeLe(r[1..][1..]) == q2;
    assert DecodeLe(r[1..]) == q1;
  }

  lemma DivMod256(v: nat)
    ensures v == v % 256 + 256 * (v / 256)
  {
  }

  lemma DigitSplit(a: nat, b: nat)
    requires a < 256
    ensures (a + 256 * b) % 256 == a && (a + 256 * b) / 256 == b
  {
  }

  /** Re-encoding a 4-byte little-endian field gives back its bytes. */
  lemma Le32OfDecode(s: seq<byte>)
    requires |s| == 4
    ensures DecodeLe(s) < U32_MOD
    ensures Le32(DecodeLe(s)) == s
  {
    assert s[1..][1..][1..][1..] == [];
    var b0, b1, b2, b3: nat := s[0], s[1], s[2], s[3];
    var c2 := b2 + 256 * b3;
    var c1 := b1 + 256 * c2;
    var d := b0 + 256 * c1;
    assert DecodeLe(s[1..][1..][1..]) == b3;
    assert DecodeLe(s[1..][1..]) == c2;
    assert DecodeLe(s[1..]) == c1;
    assert DecodeLe(s) == d;
    DigitSplit(b0, c1);
    DigitSplit(b1, c2);
    DigitSplit(b2, b3);
    assert c2 < 0x1_0000;
    assert c1 < 0x100_0000;
  }
}
