/** The USB mass-storage back end of Middleware/USB/App/src/msc_mem.c: the sector
    builders that fill a caller's 512-byte buffer, the loader that caches the file
    from SPI flash into RAM, and the storage callbacks the USB stack calls.
    A C pointer `p + k` into a buffer is an array together with the offset `k`. */
module Msc {
  import opened Bytes
  import opened Text
  import opened FileEntryLayout
  import opened Fat12
  import SpiFlash

  // ---------------------------------------------------------------------------
  // Byte stores.

  /** A single byte store `a[at] = v`. */
  method Poke(a: array<byte>, at: nat, v: byte)
    requires at < a.Length
    modifies a
    ensures a[..] == old(a[..])[at := v]
  {
    a[at] := v;
  }

  /** le16: the low byte first, then `(v >> 8) & 0xFF`. */
  method Le16At(p: array<byte>, at: nat, v: u16)
    requires at + 2 <= p.Length
    modifies p
    ensures p[..] == Put(old(p[..]), at, Le16(v))
  {
    p[at] := v % 256;
    p[at + 1] := (v / 256) % 256;
  }

  /** le32: the four bytes of `v`, least significant first. */
  method Le32At(p: array<byte>, at: nat, v: u32)
    requires at + 4 <= p.Length
    modifies p
    ensures p[..] == Put(old(p[..]), at, Le32(v))
  {
    p[at] := v % 256;
    p[at + 1] := (v / 256) % 256;
    p[at + 2] := (v / 0x1_0000) % 256;
    p[at + 3] := (v / 0x100_0000) % 256;
    assert v / 256 / 256 == v / 0x1_0000;
    assert v / 256 / 256 / 256 == v / 0x100_0000;
  }

  // ---------------------------------------------------------------------------
  // C strings.

  /** `strlen(s + from)` for a position inside the C string held in `s`. */
  method Strlen(s: seq<byte>, from: nat) returns (n: nat)
    requires from <= |CStr(s)| < |s|
    ensures n == |CStr(s)| - from
  {
    n := 0;
    while s[from + n] != 0
      invariant from + n <= |CStr(s)|
      decreases |CStr(s)| - from - n
    {
      n := n + 1;
    }
  }

  /** The copying half of strncpy: characters of `src` until its NUL, at most `n`. */
  method CopyUntilNul(dst: array<byte>, at: nat, src: seq<byte>, n: nat) returns (k: nat)
    requires at + n <= dst.Length
    modifies dst
    ensures k == Min(|CStr(src)|, n)
    ensures dst[..] == Put(old(dst[..]), at, src[..k])
  {
    ghost var c := CStr(src);
    k := 0;
    while k < n && k < |src| && src[k] != 0
      invariant k <= n && k <= |c|
      invariant dst[..] == Put(old(dst[..]), at, src[..k])
    {
      Poke(dst, at + k, src[k]);
      PutStep(old(dst[..]), at, src, k);
      k := k + 1;
    }
  }

  lemma PutStep(s: seq<byte>, at: nat, src: seq<byte>, k: nat)
    requires k < |src| && at + k < |s|
    ensures Put(s, at, src[..k])[at + k := src[k]] == Put(s, at, src[..k + 1])
  {
    var l := Put(s, at, src[..k])[at + k := src[k]];
    var r := Put(s, at, src[..k + 1]);
    assert forall i :: 0 <= i < |s| ==> l[i] == r[i];
  }

  /** Two adjacent copies are one copy of the concatenation. */
  lemma PutAppend(s: seq<byte>, at: nat, a: seq<byte>, b: seq<byte>)
    requires at + |a| + |b| <= |s|
    ensures Put(Put(s, at, a), at + |a|, b) == Put(s, at, a + b)
  {
    var l := Put(Put(s, at, a), at + |a|, b);
    var r := Put(s, at, a + b);
    assert forall i :: 0 <= i < |s| ==> l[i] == r[i];
  }

  /** `strncpy(dst + at, src, n)`: the characters of `src` up to its NUL or `n` of
      them, then NUL bytes up to `n`. */
  method StrNCpyAt(dst: array<byte>, at: nat, src: seq<byte>, n: nat)
    requires at + n <= dst.Length
    modifies dst
    ensures dst[..] == Put(old(dst[..]), at, StrNCpy(src, n))
  {
    var k := CopyUntilNul(dst, at, src, n);
    Memset(dst, at + k, 0, n - k);
    PutAppend(old(dst[..]), at, src[..k], Zeros(n - k));
    assert src[..k] == CStr(src)[..k];
  }

  // ---------------------------------------------------------------------------
  // make_83_name.

  /** The first '.' of a C string, searched up to its NUL as the pointer loop does. */
  method FindDot(s: seq<byte>) returns (dot: Option<nat>)
    requires |CStr(s)| < |s|
    ensures dot.Some? ==> dot.value == IndexOf(CStr(s), DOT) < |CStr(s)|
    ensures dot.None? ==> IndexOf(CStr(s), DOT) == |CStr(s)|
  {
    ghost var c := CStr(s);
    IndexOfSpec(c, DOT);
    var p := 0;
    dot := None;
    while s[p] != 0
      invariant p <= |c| && dot == None
      invariant forall j :: 0 <= j < p ==> c[j] != DOT
      decreases |c| - p
    {
      if s[p] == DOT {
        dot := Some(p);
        IndexOfUnique(c, DOT, p);
        break;
      }
      p := p + 1;
    }
  }

  /** make_83_name fills `out83` with the 11-byte short name of the C string `s`. */
  method Make83Name(s: seq<byte>, out83: array<byte>)
    requires out83.Length == 11 && |CStr(s)| < |s|
    modifies out83
    ensures out83[..] == Name83(s)
  {
    Memset(out83, 0, SPACE, 11);
    var dot := FindDot(s);
    var nlen, elen := 0, 0;
    if dot.Some? {
      nlen := dot.value;
      elen := Strlen(s, dot.value + 1);
    } else {
      nlen := Strlen(s, 0);
    }
    if nlen > 8 {
      nlen := 8;
    }
    if elen > 3 {
      elen := 3;
    }
    CopyBase(s, out83, nlen);
    if dot.Some? {
      CopyExt(s, out83, nlen, dot.value, elen);
    }
    Make83Agrees(s, out83[..], nlen, elen, dot.Some?);
  }

  /** The name part: `out83[i] = toupper(in[i])` for i < nlen. */
  method CopyBase(s: seq<byte>, out83: array<byte>, nlen: nat)
    requires out83.Length == 11 && nlen <= 8 && nlen <= |CStr(s)|
    requires forall j :: 0 <= j < 11 ==> out83[j] == SPACE
    modifies out83
    ensures forall j :: 0 <= j < nlen ==> out83[j] == Upper(CStr(s)[j])
    ensures forall j :: nlen <= j < 11 ==> out83[j] == SPACE
  {
    ghost var c := CStr(s);
    var i := 0;
    while i < nlen
      invariant i <= nlen
      invariant forall j :: 0 <= j < i ==> out83[j] == Upper(c[j])
      invariant forall j :: i <= j < 11 ==> out83[j] == SPACE
    {
      out83[i] := Upper(s[i]);
      i := i + 1;
    }
  }

  /** The extension: `out83[8 + i] = toupper(dot[1 + i])` for i < elen. */
  method CopyExt(s: seq<byte>, out83: array<byte>, nlen: nat, d: nat, elen: nat)
    requires out83.Length == 11 && nlen <= 8 && elen <= 3 && d + elen < |CStr(s)|
    requires forall j :: 8 <= j < 11 ==> out83[j] == SPACE
    modifies out83
    ensures forall j :: 0 <= j < 8 ==> out83[j] == old(out83[j])
    ensures forall j :: 8 <= j < 8 + elen ==> out83[j] == Upper(CStr(s)[d + j - 7])
    ensures forall j :: 8 + elen <= j < 11 ==> out83[j] == SPACE
  {
    ghost var c := CStr(s);
    var i := 0;
    while i < elen
      invariant i <= elen
      invariant forall j :: 0 <= j < 8 ==> out83[j] == old(out83[j])
      invariant forall j :: 8 <= j < 8 + i ==> out83[j] == Upper(c[d + j - 7])
      invariant forall j :: 8 + i <= j < 11 ==> out83[j] == SPACE
    {
      out83[8 + i] := Upper(s[d + 1 + i]);
      i := i + 1;
    }
  }

  lemma Make83Agrees(s: seq<byte>, r: seq<byte>, nlen: nat, elen: nat, hasDot: bool)
    requires |r| == 11
    requires var c := CStr(s); var d := IndexOf(c, DOT);
      && (hasDot <==> d < |c|)
      && nlen == Min(d, 8) && elen == (if hasDot then Min(|c| - d - 1, 3) else 0)
      && (forall j :: 0 <= j < nlen ==> r[j] == Upper(c[j]))
      && (forall j :: nlen <= j < 8 ==> r[j] == SPACE)
      && (forall j :: 8 <= j < 8 + elen ==> r[j] == Upper(c[d + j - 7]))
      && (forall j :: 8 + elen <= j < 11 ==> r[j] == SPACE)
    ensures r == Name83(s)
  {
    Name83Spec(s);
  }

  // ---------------------------------------------------------------------------
  // Writing into a sector image placed at `off`: each store into the buffer is
  // the same store into the image `img` the buffer holds at `off`.

  predicate Holds(a: seq<byte>, base: seq<byte>, off: nat, img: seq<byte>)
  {
    |img| == SECTOR_SIZE && off + SECTOR_SIZE <= |base| && a == Put(base, off, img)
  }

  method PokeIn(sec: array<byte>, off: nat, ghost base: seq<byte>, ghost img: seq<byte>, j: nat, v: byte)
    requires Holds(sec[..], base, off, img) && j < SECTOR_SIZE
    modifies sec
    ensures Holds(sec[..], base, off, img[j := v])
  {
    Poke(sec, off + j, v);
    PutStore(base, off, img, j, v);
  }

  method CopyIn(sec: array<byte>, off: nat, ghost base: seq<byte>, ghost img: seq<byte>, j: nat, b: seq<byte>)
    requires Holds(sec[..], base, off, img) && j + |b| <= SECTOR_SIZE
    modifies sec
    ensures Holds(sec[..], base, off, Put(img, j, b))
  {
    Memcpy(sec, off + j, b);
    PutPut(base, off, img, j, b);
  }

  method Le16In(sec: array<byte>, off: nat, ghost base: seq<byte>, ghost img: seq<byte>, j: nat, v: u16)
    requires Holds(sec[..], base, off, img) && j + 2 <= SECTOR_SIZE
    modifies sec
    ensures Holds(sec[..], base, off, Put(img, j, Le16(v)))
  {
    Le16At(sec, off + j, v);
    PutPut(base, off, img, j, Le16(v));
  }

  method Le32In(sec: array<byte>, off: nat, ghost base: seq<byte>, ghost img: seq<byte>, j: nat, v: u32)
    requires Holds(sec[..], base, off, img) && j + 4 <= SECTOR_SIZE
    modifies sec
    ensures Holds(sec[..], base, off, Put(img, j, Le32(v)))
  {
    Le32At(sec, off + j, v);
    PutPut(base, off, img, j, Le32(v));
  }

  /** `memset(sec, 0, SECTOR_SIZE)`, the first step of every builder. */
  method ClearSector(sec: array<byte>, off: nat)
    requires off + SECTOR_SIZE <= sec.Length
    modifies sec
    ensures Holds(sec[..], old(sec[..]), off, Zeros(SECTOR_SIZE))
  {
    Memset(sec, off, 0, SECTOR_SIZE);
  }

  // ---------------------------------------------------------------------------
  // build_boot_sector and build_fat_sector.

  method StampJump(sec: array<byte>, off: nat, ghost base: seq<byte>, ghost img: seq<byte>)
    requires Holds(sec[..], base, off, img)
    modifies sec
    ensures Holds(sec[..], base, off, BootJump(img))
  {
    PokeIn(sec, off, base, img, 0, 0xEB);
    PokeIn(sec, off, base, img[0 := 0xEB], 1, 0x3C);
    PokeIn(sec, off, base, img[0 := 0xEB][1 := 0x3C], 2, 0x90);
    CopyIn(sec, off, base, img[0 := 0xEB][1 := 0x3C][2 := 0x90], 3, OEM_NAME);
  }

  method StampBpb(sec: array<byte>, off: nat, ghost base: seq<byte>, ghost img: seq<byte>)
    requires Holds(sec[..], base, off, img)
    modifies sec
    ensures Holds(sec[..], base, off, BootBpb(img))
  {
    ghost var g := img;
    Le16In(sec, off, base, g, 11, SECTOR_SIZE);
    g := Put(g, 11, Le16(SECTOR_SIZE));
    PokeIn(sec, off, base, g, 13, 1);
    g := g[13 := 1];
    Le16In(sec, off, base, g, 14, 1);
    g := Put(g, 14, Le16(1));
    PokeIn(sec, off, base, g, 16, 2);
    g := g[16 := 2];
    Le16In(sec, off, base, g, 17, 16);
    g := Put(g, 17, Le16(16));
    Le16In(sec, off, base, g, 19, VOL_SECTORS);
    g := Put(g, 19, Le16(VOL_SECTORS));
    PokeIn(sec, off, base, g, 21, 0xF8);
    g := g[21 := 0xF8];
    Le16In(sec, off, base, g, 22, 1);
    g := Put(g, 22, Le16(1));
    Le16In(sec, off, base, g, 24, 63);
    g := Put(g, 24, Le16(63));
    Le16In(sec, off, base, g, 26, 255);
    g := Put(g, 26, Le16(255));
    Le32In(sec, off, base, g, 28, 0);
    g := Put(g, 28, Le32(0));
    Le32In(sec, off, base, g, 32, 0);
    g := Put(g, 32, Le32(0));
    assert g == BootBpb(img);
  }

  method StampExt(sec: array<byte>, off: nat, ghost base: seq<byte>, ghost img: seq<byte>)
    requires Holds(sec[..], base, off, img)
    modifies sec
    ensures Holds(sec[..], base, off, BootExt(img))
  {
    ghost var g := img;
    PokeIn(sec, off, base, g, 36, 0x80);
    g := g[36 := 0x80];
    PokeIn(sec, off, base, g, 38, 0x29);
    g := g[38 := 0x29];
    Le32In(sec, off, base, g, 39, VOLUME_ID);
    g := Put(g, 39, Le32(VOLUME_ID));
    CopyIn(sec, off, base, g, 43, VOLUME_LABEL);
    g := Put(g, 43, VOLUME_LABEL);
    CopyIn(sec, off, base, g, 54, FS_TYPE);
    g := Put(g, 54, FS_TYPE);
    PokeIn(sec, off, base, g, 510, 0x55);
    g := g[510 := 0x55];
    PokeIn(sec, off, base, g, 511, 0xAA);
    g := g[511 := 0xAA];
    assert g == BootExt(img);
  }

  /** build_boot_sector(buf + off) */
  method BuildBootSector(sec: array<byte>, off: nat)
    requires off + SECTOR_SIZE <= sec.Length
    modifies sec
    ensures sec[..] == Put(old(sec[..]), off, BootSector())
  {
    ghost var base := sec[..];
    ClearSector(sec, off);
    StampJump(sec, off, base, Zeros(SECTOR_SIZE));
    StampBpb(sec, off, base, BootJump(Zeros(SECTOR_SIZE)));
    StampExt(sec, off, base, BootBpb(BootJump(Zeros(SECTOR_SIZE))));
  }

  /** build_fat_sector(buf + off) */
  method BuildFatSector(sec: array<byte>, off: nat)
    requires off + SECTOR_SIZE <= sec.Length
    modifies sec
    ensures sec[..] == Put(old(sec[..]), off, FatSector())
  {
    ghost var base := sec[..];
    ghost var g := Zeros(SECTOR_SIZE);
    ClearSector(sec, off);
    PokeIn(sec, off, base, g, 0, 0xF8);
    g := g[0 := 0xF8];
    PokeIn(sec, off, base, g, 1, 0xFF);
    g := g[1 := 0xFF];
    PokeIn(sec, off, base, g, 2, 0xFF);
    g := g[2 := 0xFF];
    PokeIn(sec, off, base, g, 3, 0xFF);
    g := g[3 := 0xFF];
    PokeIn(sec, off, base, g, 4, 0x0F);
    g := g[4 := 0x0F];
    PokeIn(sec, off, base, g, 5, 0);
  }

  // ---------------------------------------------------------------------------
  // What the loader leaves in g_file_name, g_file_buf and g_file_len.

  /** MSC_FILE_CONTENT, the default content of the file. */
  const DEFAULT_CONTENT: seq<byte> := Ascii("Hello 2 World!")
  const NOFLASH_NAME: seq<byte> := Ascii("NOFLASH.TXT")
  const JEDEC_NAME: seq<byte> := Ascii("JEDEC.TXT")
  const BADFILE_NAME: seq<byte> := Ascii("BADFILE.TXT")
  const BAD_ENTRY_TEXT: seq<byte> := Ascii("ERR: Bad FileEntry")
  const NO_RESP_HEAD: seq<byte> := Ascii("SPI NO RESP, JEDEC=0x")
  const CRLF: seq<byte> := Ascii("\r\n")
  const JEDEC_HEAD: seq<byte> := Ascii("JEDEC=0x")
  const JEDEC_TAIL: seq<byte> := Ascii(" (update Flash_CheckID)\r\n")

  /** The id the chip answers when nothing drives MISO (all zeros or all ones). */
  predicate NoResponse(id: nat)
  {
    id == 0 || id == 0xFF_FFFF
  }

  /** sprintf "SPI NO RESP, JEDEC=0x%06lX\r\n" */
  function NoFlashText(id: nat): (r: seq<byte>)
    requires id < 0x100_0000
    ensures |r| == 29
    ensures r[..21] == NO_RESP_HEAD && ParseNumeral(r[21..27], 16) == id && r[27..] == CRLF
  {
    var r := NO_RESP_HEAD + Hex6(id) + CRLF;
    assert r[21..27] == Hex6(id);
    r
  }

  /** sprintf "JEDEC=0x%06lX (update Flash_CheckID)\r\n" */
  function JedecText(id: nat): (r: seq<byte>)
    requires id < 0x100_0000
    ensures |r| == 39
    ensures r[..8] == JEDEC_HEAD && ParseNumeral(r[8..14], 16) == id && r[14..] == JEDEC_TAIL
  {
    var r := JEDEC_HEAD + Hex6(id) + JEDEC_TAIL;
    assert r[8..14] == Hex6(id);
    r
  }

  /** g_file_name after `memset(g_file_name, 0, 32); strncpy(g_file_name, src, 31)`. */
  function NameField(src: seq<byte>): (r: seq<byte>)
    ensures |r| == 32
  {
    Put(Zeros(32), 0, StrNCpy(src, 31))
  }

  /** The name field holds the first 31 characters of `src` as a C string. */
  lemma NameFieldSpec(src: seq<byte>)
    ensures var r := NameField(src);
      r[31] == 0 && CStr(r) == CStr(src)[..Min(|CStr(src)|, 31)]
  {
    var r := NameField(src);
    var c := CStr(src);
    var k := Min(|c|, 31);
    assert r[k] == 0;
    forall j | 0 <= j < k
      ensures r[j] == c[j] && r[j] != 0
    {
    }
    IndexOfUnique(r, 0, k);
  }

  /** g_file_buf after `memset(g_file_buf, 0, 256)` and a copy of `text` to its start. */
  function TextField(text: seq<byte>): (r: seq<byte>)
    requires |text| <= 256
    ensures |r| == 256
  {
    Put(Zeros(256), 0, text)
  }

  /** The terminator sprintf writes after the text changes nothing in a zeroed buffer. */
  lemma TextFieldNul(text: seq<byte>)
    requires |text| < 256
    ensures TextField(text + [0]) == TextField(text)
  {
    var l := TextField(text + [0]);
    var r := TextField(text);
    assert forall i :: 0 <= i < 256 ==> l[i] == r[i];
  }

  /** A diagnostic file: its name, the text as its content, the text's length. */
  function Diagnostic(name: seq<byte>, text: seq<byte>): (s: Snapshot)
    requires |text| <= 256
  {
    Snapshot(NameField(name), TextField(text), |text|)
  }

  /** set_default_file_to_ram */
  function DefaultSnapshot(): (s: Snapshot)
  {
    Snapshot(NameField(DefaultName()), TextField(DEFAULT_CONTENT), |DEFAULT_CONTENT|)
  }

  /** load_file_from_flash_to_ram, given the JEDEC id and the 296 bytes at FILE_ADDRESS. */
  function Loaded(id: nat, slot: seq<byte>): (s: Snapshot)
    requires id < 0x100_0000 && |slot| == ENTRY_LEN
  {
    if NoResponse(id) then Diagnostic(NOFLASH_NAME, NoFlashText(id))
    else if !SpiFlash.IdOk(id) then Diagnostic(JEDEC_NAME, JedecText(id))
    else
      var e := Decode(slot);
      if !Valid(e) then Diagnostic(BADFILE_NAME, BAD_ENTRY_TEXT)
      else EntrySnapshot(e)
  }

  /** A valid entry copied over the default file: its name, `min(size, 256)` of its
      data bytes, and that length. */
  function EntrySnapshot(e: FileEntry): (s: Snapshot)
    requires e.WellFormed()
  {
    var n := Min(e.size, DATA_LEN);
    Snapshot(NameField(e.filename), Put(TextField(DEFAULT_CONTENT), 0, e.data[..n]), n)
  }

  /** Every outcome is a well-formed snapshot with a non-empty name and content. */
  lemma LoadedOk(id: nat, slot: seq<byte>)
    requires id < 0x100_0000 && |slot| == ENTRY_LEN
    ensures var s := Loaded(id, slot);
      s.Ok() && s.name[0] != 0 && 1 <= s.len
  {
    var s := Loaded(id, slot);
    var e := Decode(slot);
    if !NoResponse(id) && SpiFlash.IdOk(id) && Valid(e) {
      NameFieldSpec(e.filename);
      assert e.filename[0] != 0;
      assert s.name[0] == e.filename[0];
    }
  }

  /** No answer from the chip: NOFLASH.TXT holding the id in hex. */
  lemma LoadedNoFlash(id: nat, slot: seq<byte>)
    requires id < 0x100_0000 && |slot| == ENTRY_LEN && NoResponse(id)
    ensures var s := Loaded(id, slot);
      CStr(s.name) == NOFLASH_NAME && s.data[..s.len] == NoFlashText(id)
  {
    DiagnosticSpec(NOFLASH_NAME, NoFlashText(id));
  }

  /** A foreign manufacturer: JEDEC.TXT holding the id in hex. */
  lemma LoadedForeign(id: nat, slot: seq<byte>)
    requires id < 0x100_0000 && |slot| == ENTRY_LEN && !NoResponse(id) && !SpiFlash.IdOk(id)
    ensures var s := Loaded(id, slot);
      CStr(s.name) == JEDEC_NAME && s.data[..s.len] == JedecText(id)
  {
    DiagnosticSpec(JEDEC_NAME, JedecText(id));
  }

  /** A slot that fails the validity heuristic: BADFILE.TXT with an 18-byte message. */
  lemma LoadedBadEntry(id: nat, slot: seq<byte>)
    requires id < 0x100_0000 && |slot| == ENTRY_LEN && !NoResponse(id) && SpiFlash.IdOk(id)
    requires !Valid(Decode(slot))
    ensures var s := Loaded(id, slot);
      CStr(s.name) == BADFILE_NAME && s.len == 18 && s.data[..s.len] == BAD_ENTRY_TEXT
  {
    DiagnosticSpec(BADFILE_NAME, BAD_ENTRY_TEXT);
  }

  lemma DiagnosticSpec(name: seq<byte>, text: seq<byte>)
    requires |text| <= 256 && |name| <= 31
    requires forall i :: 0 <= i < |name| ==> name[i] != 0
    ensures var s := Diagnostic(name, text);
      CStr(s.name) == name && s.data[..s.len] == text
  {
    CStrWhole(name);
    NameFieldSpec(name);
    assert Diagnostic(name, text).data[..|text|] == text;
  }

  /** A valid entry: the file takes the entry's name (up to 31 characters), its size
      clamped to 256 and its first `size` data bytes; the rest of the buffer still
      holds the default content. */
  lemma LoadedEntry(id: nat, slot: seq<byte>)
    requires id < 0x100_0000 && |slot| == ENTRY_LEN
    requires !NoResponse(id) && SpiFlash.IdOk(id) && Valid(Decode(slot))
    ensures var s := Loaded(id, slot); var e := Decode(slot);
      && s.len == Min(e.size, DATA_LEN) && s.len == e.size
      && s.data[..s.len] == e.data[..s.len]
      && s.data[s.len..] == TextField(DEFAULT_CONTENT)[s.len..]
      && CStr(s.name) == CStr(e.filename)[..Min(|CStr(e.filename)|, 31)]
  {
    var e := Decode(slot);
    NameFieldSpec(e.filename);
    var s := Loaded(id, slot);
    assert s.data[..s.len] == e.data[..s.len];
  }

  /** When the chip does not answer or is foreign, the slot is never consulted. */
  lemma LoadedIgnoresSlot(id: nat, slot: seq<byte>, other: seq<byte>)
    requires id < 0x100_0000 && |slot| == ENTRY_LEN && |other| == ENTRY_LEN
    requires NoResponse(id) || !SpiFlash.IdOk(id)
    ensures Loaded(id, slot) == Loaded(id, other)
  {
  }

  /** What a FAT driver sees of a loaded snapshot: the directory entry carries the
      short name of the snapshot's own name and its length, and the first `len`
      bytes of cluster 2 are the snapshot's content. */
  lemma VolumeServesSnapshot(snap: Snapshot)
    requires snap.Ok() && snap.name[0] != 0
    ensures var root := Sector(LBA_ROOT, snap); var data := Sector(LBA_DATA, snap);
      && root[32..43] == Name83(snap.name) && DecodeLe(root[60..64]) == snap.len
      && data[..snap.len] == snap.data[..snap.len]
  {
    RootDirSpec(snap.name, snap.len);
    DataSectorSpec(snap.data, snap.len);
    var data := Sector(LBA_DATA, snap);
    assert data[..snap.len] == snap.data[..snap.len];
  }

  // ---------------------------------------------------------------------------
  // The storage callbacks and the globals behind them.

  /** The frames the loader sends: Flash_ReadID, then Flash_CheckID (which reads the
      id again) unless the chip did not answer, then the read of the FileEntry slot
      unless the id check failed. */
  function LoadFrames(id: nat): (r: seq<SpiFlash.Frame>)
  {
    if NoResponse(id) then [SpiFlash.IdFrame()]
    else if !SpiFlash.IdOk(id) then [SpiFlash.IdFrame(), SpiFlash.IdFrame()]
    else [SpiFlash.IdFrame(), SpiFlash.IdFrame(), SpiFlash.ReadFrame(FILE_ADDRESS, ENTRY_LEN)]
  }

  /** Caching the image never erases, programs or write-enables the flash. */
  lemma LoadFramesQuiet(id: nat)
    ensures SpiFlash.Quiet(LoadFrames(id))
    ensures 1 <= |LoadFrames(id)| <= 3
  {
    var r := LoadFrames(id);
    assert SpiFlash.IdFrame().out[0] == SpiFlash.CMD_READ_ID;
    assert SpiFlash.ReadFrame(FILE_ADDRESS, ENTRY_LEN).out[0] == SpiFlash.CMD_READ_DATA;
  }

  /** The range check of STORAGE_Read, with the uint32 sum `blk_addr + blk_len`. */
  predicate RangeOk(blkAddr: u32, blkLen: u16)
  {
    (blkAddr + blkLen) % U32_MOD <= VOL_SECTORS
  }

  /** The check bounds every request that starts on the disk; because the sum wraps,
      a request starting within 0xFFFF blocks of 2^32 can pass it too, and then reads
      zero blocks followed by the start of the disk. */
  lemma RangeOkMeaning(blkAddr: u32, blkLen: u16)
    ensures blkAddr + blkLen < U32_MOD ==> (RangeOk(blkAddr, blkLen) <==> blkAddr + blkLen <= VOL_SECTORS)
    ensures RangeOk(0xFFFF_FFFF, 1) && RangeOk(0xFFFF_FFF0, 0x20)
  {
  }

  lemma PutWhole(s: seq<byte>, b: seq<byte>)
    requires |b| == |s|
    ensures Put(s, 0, b) == b
  {
  }

  /** The module's globals: g_storage_ready, g_prepared, g_file_buf[256], g_file_len
      and g_file_name[32]. */
  class MscStorage {
    var ready: bool
    var prepared: bool
    const fileBuf: array<byte>
    var fileLen: u32
    const fileName: array<byte>

    ghost predicate Valid()
      reads this, fileBuf, fileName
    {
      fileBuf.Length == DATA_LEN && fileName.Length == NAME_LEN && fileBuf != fileName
      && Snap().Ok()
    }

    /** The snapshot the volume is rendered from. */
    function Snap(): Snapshot
      reads this, fileBuf, fileName
    {
      Snapshot(fileName[..], fileBuf[..], fileLen)
    }

    /** Static storage starts zeroed. */
    constructor ()
      ensures Valid() && fresh(fileBuf) && fresh(fileName)
      ensures !ready && !prepared && Snap() == Snapshot(Zeros(NAME_LEN), Zeros(DATA_LEN), 0)
    {
      ready := false;
      prepared := false;
      fileBuf := new byte[DATA_LEN](_ => 0);
      fileLen := 0;
      fileName := new byte[NAME_LEN](_ => 0);
      new;
      assert fileBuf[..] == Zeros(DATA_LEN);
      assert fileName[..] == Zeros(NAME_LEN);
    }

    /** STORAGE_Init: only raises the ready flag (no SPI traffic). */
    method Init() returns (r: int)
      modifies this
      ensures r == 0 && ready && prepared == old(prepared) && fileLen == old(fileLen)
    {
      ready := true;
      r := 0;
    }

    /** STORAGE_GetCapacity: 64 blocks of 512 bytes, or -1 for a NULL pointer. */
    method GetCapacity(blockNum: array?<u32>, blockSize: array?<u32>) returns (r: int)
      requires blockNum != null ==> blockNum.Length >= 1
      requires blockSize != null ==> blockSize.Length >= 1
      modifies blockNum, blockSize
      ensures blockNum == null || blockSize == null ==> r == -1
      ensures blockNum != null && (r == -1 || blockNum == blockSize) ==> blockNum[1..] == old(blockNum[1..])
      ensures blockNum != null && blockSize != null ==> r == 0 && blockNum[0] == VOL_SECTORS
      ensures blockSize != null && blockNum != null && blockSize != blockNum ==>
        blockSize[0] == SECTOR_SIZE && blockSize[1..] == old(blockSize[1..]) && blockNum[1..] == old(blockNum[1..])
      ensures blockSize != null && r == -1 ==> blockSize[..] == old(blockSize[..])
      ensures blockNum != null && r == -1 ==> blockNum[..] == old(blockNum[..])
    {
      if blockNum == null || blockSize == null {
        return -1;
      }
      blockSize[0] := SECTOR_SIZE;
      blockNum[0] := VOL_SECTORS;
      r := 0;
    }

    /** STORAGE_IsReady */
    function IsReady(): (r: int)
      reads this
      ensures r == 0 || r == -1
      ensures r == 0 <==> ready
    {
      if ready then 0 else -1
    }

    /** STORAGE_IsWriteProtected: the medium is always read-only. */
    function IsWriteProtected(): (r: int)
      ensures r != 0
    {
      1
    }

    /** STORAGE_Write: every write is refused and nothing changes. */
    method Write(buf: array?<byte>, blkAddr: u32, blkLen: u16) returns (r: int)
      ensures r == -1
    {
      r := -1;
    }

    /** build_root_dir_sector(buf + off) */
    method BuildRootDirSector(sec: array<byte>, off: nat)
      requires Valid() && sec != fileBuf && sec != fileName
      requires off + SECTOR_SIZE <= sec.Length
      modifies sec
      ensures sec[..] == Put(old(sec[..]), off, RootDirSector(fileName[..], fileLen))
    {
      ghost var base := sec[..];
      ghost var g := Zeros(SECTOR_SIZE);
      ClearSector(sec, off);
      CopyIn(sec, off, base, g, 0, VOLUME_LABEL);
      g := Put(g, 0, VOLUME_LABEL);
      PokeIn(sec, off, base, g, 11, ATTR_VOLUME_ID);
      g := g[11 := ATTR_VOLUME_ID];
      var n83 := ShortName();
      CopyIn(sec, off, base, g, 32, n83);
      g := Put(g, 32, n83);
      PokeIn(sec, off, base, g, 32 + 11, ATTR_ARCHIVE);
      g := g[32 + 11 := ATTR_ARCHIVE];
      Le16In(sec, off, base, g, 32 + 26, 2);
      g := Put(g, 32 + 26, Le16(2));
      Le32In(sec, off, base, g, 32 + 28, fileLen);
    }

    /** The local `n83` of build_root_dir_sector: the short name of g_file_name, or
        of FILE_NAME when g_file_name is empty. */
    method ShortName() returns (n83: seq<byte>)
      requires Valid()
      ensures n83 == Name83(ShownName(fileName[..]))
    {
      var out83 := new byte[11];
      var nameSrc := if fileName[0] != 0 then fileName[..] else DefaultName() + [0];
      ShownNameTerminated(fileName[..]);
      Make83Name(nameSrc, out83);
      n83 := out83[..];
    }

    /** build_data_sector_cluster2(buf + off) */
    method BuildDataSector(sec: array<byte>, off: nat)
      requires Valid() && sec != fileBuf && sec != fileName
      requires off + SECTOR_SIZE <= sec.Length
      modifies sec
      ensures sec[..] == Put(old(sec[..]), off, DataSector(fileBuf[..], fileLen))
    {
      ghost var base := sec[..];
      ClearSector(sec, off);
      if fileLen > 0 {
        var n := if fileLen > SECTOR_SIZE then SECTOR_SIZE else fileLen;
        CopyIn(sec, off, base, Zeros(SECTOR_SIZE), 0, fileBuf[..n]);
      }
    }

    /** build_sector(lba, buf + off) */
    method BuildSector(lba: u32, sec: array<byte>, off: nat)
      requires Valid() && sec != fileBuf && sec != fileName
      requires off + SECTOR_SIZE <= sec.Length
      modifies sec
      ensures sec[..] == Put(old(sec[..]), off, Sector(lba, Snap()))
    {
      if lba == LBA_BOOT {
        BuildBootSector(sec, off);
      } else if lba == LBA_FAT1 || lba == LBA_FAT2 {
        BuildFatSector(sec, off);
      } else if lba == LBA_ROOT {
        BuildRootDirSector(sec, off);
      } else if lba == LBA_DATA {
        BuildDataSector(sec, off);
      } else {
        Memset(sec, off, 0, SECTOR_SIZE);
      }
    }

    /** STORAGE_Read: -1 unless the medium is ready, the buffer is not NULL and the
        range check passes; otherwise block i of the buffer is the image of block
        `blk_addr + i` (mod 2^32). */
    method Read(buf: array?<byte>, blkAddr: u32, blkLen: u16) returns (r: int)
      requires Valid()
      requires buf != null ==> buf != fileBuf && buf != fileName
      requires buf != null && ready && RangeOk(blkAddr, blkLen) ==> blkLen * SECTOR_SIZE <= buf.Length
      modifies buf
      ensures r == 0 || r == -1
      ensures r == 0 <==> ready && buf != null && RangeOk(blkAddr, blkLen)
      ensures r == -1 && buf != null ==> buf[..] == old(buf[..])
      ensures r == 0 && buf != null ==> buf[..] == Put(old(buf[..]), 0, Blocks(blkAddr, blkLen, Snap()))
    {
      if !ready || buf == null {
        return -1;
      }
      if (blkAddr + blkLen) % U32_MOD > VOL_SECTORS {
        return -1;
      }
      ReadBlocks(buf, blkAddr, blkLen);
      r := 0;
    }

    /** The loop of STORAGE_Read: build_sector(blk_addr + i, buf + i * 512). */
    method ReadBlocks(buf: array<byte>, blkAddr: u32, blkLen: u16)
      requires Valid() && buf != fileBuf && buf != fileName
      requires blkLen * SECTOR_SIZE <= buf.Length
      modifies buf
      ensures buf[..] == Put(old(buf[..]), 0, Blocks(blkAddr, blkLen, Snap()))
    {
      ghost var snap := Snap();
      ghost var base := buf[..];
      var i: nat := 0;
      while i < blkLen
        invariant i <= blkLen && Snap() == snap && |base| == buf.Length
        invariant i * SECTOR_SIZE <= buf.Length
        invariant buf[..] == Put(base, 0, Blocks(blkAddr, i, snap))
      {
        BlockBound(i, blkLen);
        ReadOne(buf, blkAddr, i, blkLen, base);
        i := i + 1;
      }
      assert i == blkLen as nat;
    }

    /** One iteration: block i goes to `buf + i * 512`, after the blocks before it. */
    method ReadOne(buf: array<byte>, blkAddr: u32, i: nat, blkLen: u16, ghost base: seq<byte>)
      requires Valid() && buf != fileBuf && buf != fileName
      requires i < blkLen && blkLen * SECTOR_SIZE <= buf.Length == |base|
      requires buf[..] == Put(base, 0, Blocks(blkAddr, i, Snap()))
      modifies buf
      ensures buf[..] == Put(base, 0, Blocks(blkAddr, i + 1, Snap()))
    {
      ghost var prev := Blocks(blkAddr, i, Snap());
      ghost var next := Sector((blkAddr + i) % U32_MOD, Snap());
      BlockBound(i, blkLen);
      BuildSector((blkAddr + i) % U32_MOD, buf, i * SECTOR_SIZE);
      PutAppend(base, 0, prev, next);
      BlocksSnoc(blkAddr, i, Snap());
    }

    /** set_default_file_to_ram */
    method SetDefaultFile()
      requires Valid()
      modifies this, fileBuf, fileName
      ensures Valid() && Snap() == DefaultSnapshot()
      ensures ready == old(ready) && prepared == old(prepared)
    {
      ShowText(DEFAULT_CONTENT, |DEFAULT_CONTENT|);
      ShowName(DefaultName());
    }

    /** `memset(g_file_buf, 0, 256)`, a copy of `bytes` to its start, and the length. */
    method ShowText(bytes: seq<byte>, len: u32)
      requires Valid() && |bytes| <= DATA_LEN && len <= DATA_LEN
      modifies this, fileBuf
      ensures Valid() && fileBuf[..] == TextField(bytes) && fileLen == len
      ensures fileName[..] == old(fileName[..]) && ready == old(ready) && prepared == old(prepared)
    {
      Memset(fileBuf, 0, 0, DATA_LEN);
      PutWhole(old(fileBuf[..]), Zeros(DATA_LEN));
      Memcpy(fileBuf, 0, bytes);
      fileLen := len;
    }

    /** `memset(g_file_name, 0, 32); strncpy(g_file_name, src, 31)` */
    method ShowName(src: seq<byte>)
      requires Valid()
      modifies fileName
      ensures Valid() && fileName[..] == NameField(src)
    {
      Memset(fileName, 0, 0, NAME_LEN);
      PutWhole(old(fileName[..]), Zeros(NAME_LEN));
      StrNCpyAt(fileName, 0, src, 31);
      NameFieldSpec(src);
    }

    /** A diagnostic written with sprintf (which also stores the terminator). */
    method ShowDiagnostic(name: seq<byte>, text: seq<byte>)
      requires Valid() && |text| < DATA_LEN
      modifies this, fileBuf, fileName
      ensures Valid() && Snap() == Diagnostic(name, text)
      ensures ready == old(ready) && prepared == old(prepared)
    {
      ShowText(text + [0], |text|);
      TextFieldNul(text);
      ShowName(name);
    }

    /** Step 3 of the loader: the entry's data, clamped length and name. */
    method ShowEntry(fe: FileEntry)
      requires Valid() && Snap() == DefaultSnapshot() && fe.WellFormed()
      modifies this, fileBuf, fileName
      ensures Valid() && Snap() == EntrySnapshot(fe)
      ensures ready == old(ready) && prepared == old(prepared)
    {
      var n := fe.size;
      if n > DATA_LEN {
        n := DATA_LEN;
      }
      Memcpy(fileBuf, 0, fe.data[..n]);
      fileLen := n;
      ShowName(fe.filename);
    }

    /** Steps 1 and 2 of the loader: the slot at FILE_ADDRESS, read into a local
        FileEntry. */
    static method ReadSlot(dev: SpiFlash.FlashDevice) returns (fe: FileEntry)
      modifies dev
      ensures fe.WellFormed() && fe == Decode(SpiFlash.Contents(old(dev.mem), FILE_ADDRESS, ENTRY_LEN))
      ensures dev.mem == old(dev.mem)
      ensures dev.trace == old(dev.trace) + [SpiFlash.ReadFrame(FILE_ADDRESS, ENTRY_LEN)]
    {
      var raw := new byte[ENTRY_LEN];
      dev.ReadData(FILE_ADDRESS, raw, ENTRY_LEN);
      assert raw[..] == raw[..ENTRY_LEN];
      fe := Decode(raw[..]);
    }

    /** load_file_from_flash_to_ram */
    method LoadFromFlash(dev: SpiFlash.FlashDevice)
      requires Valid()
      modifies this, fileBuf, fileName, dev
      ensures Valid() && Snap() == Loaded(dev.Id(), SpiFlash.Contents(old(dev.mem), FILE_ADDRESS, ENTRY_LEN))
      ensures dev.mem == old(dev.mem) && dev.trace == old(dev.trace) + LoadFrames(dev.Id())
      ensures ready == old(ready) && prepared == old(prepared)
    {
      ghost var slot := SpiFlash.Contents(dev.mem, FILE_ADDRESS, ENTRY_LEN);
      ghost var t0 := dev.trace;
      SetDefaultFile();
      var id := dev.ReadId();
      if id == 0 || id == 0xFF_FFFF {
        ShowDiagnostic(NOFLASH_NAME, NoFlashText(id));
        return;
      }
      LoadIdentified(dev, id, slot);
      LoadFramesAfterId(t0, id);
    }

    /** The loader once the chip has answered: the id check, then the slot. */
    method LoadIdentified(dev: SpiFlash.FlashDevice, id: u32, ghost slot: seq<byte>)
      requires Valid() && Snap() == DefaultSnapshot()
      requires id == dev.Id() && !NoResponse(id)
      requires slot == SpiFlash.Contents(dev.mem, FILE_ADDRESS, ENTRY_LEN)
      modifies this, fileBuf, fileName, dev
      ensures Valid() && Snap() == Loaded(id, slot)
      ensures dev.mem == old(dev.mem) && dev.trace == old(dev.trace) + LoadFrames(id)[1..]
      ensures ready == old(ready) && prepared == old(prepared)
    {
      var ok := dev.CheckId();
      if !ok {
        ShowDiagnostic(JEDEC_NAME, JedecText(id));
        return;
      }
      var fe := ReadSlot(dev);
      FramesAppend(old(dev.trace), SpiFlash.IdFrame(), SpiFlash.ReadFrame(FILE_ADDRESS, ENTRY_LEN));
      if !FileEntryLayout.Valid(fe) {
        ShowText(BAD_ENTRY_TEXT, 18);
        ShowName(BADFILE_NAME);
        return;
      }
      ShowEntry(fe);
    }

    /** MSC_PrepareImage: reload the file from flash, then mark the image prepared. */
    method PrepareImage(dev: SpiFlash.FlashDevice)
      requires Valid()
      modifies this, fileBuf, fileName, dev
      ensures Valid() && prepared && ready == old(ready)
      ensures Snap() == Loaded(dev.Id(), SpiFlash.Contents(old(dev.mem), FILE_ADDRESS, ENTRY_LEN))
      ensures dev.mem == old(dev.mem) && dev.trace == old(dev.trace) + LoadFrames(dev.Id())
    {
      LoadFromFlash(dev);
      prepared := true;
    }
  }

  lemma FramesAppend(t: seq<SpiFlash.Frame>, a: SpiFlash.Frame, b: SpiFlash.Frame)
    ensures t + [a] + [b] == t + [a, b]
  {
  }

  lemma LoadFramesAfterId(t: seq<SpiFlash.Frame>, id: nat)
    requires !NoResponse(id)
    ensures t + [SpiFlash.IdFrame()] + LoadFrames(id)[1..] == t + LoadFrames(id)
  {
    assert LoadFrames(id) == [SpiFlash.IdFrame()] + LoadFrames(id)[1..];
  }

  lemma BlockBound(i: nat, n: nat)
    requires i < n
    ensures i * SECTOR_SIZE + SECTOR_SIZE <= n * SECTOR_SIZE
  {
  }

  lemma BlocksSnoc(lba: nat, i: nat, snap: Snapshot)
    requires snap.Ok()
    ensures Blocks(lba, i + 1, snap) == Blocks(lba, i, snap) + Sector((lba + i) % U32_MOD, snap)
  {
  }

  /** The name that build_root_dir_sector hands to make_83_name is a C string. */
  lemma ShownNameTerminated(name: seq<byte>)
    requires |name| == NAME_LEN && name[31] == 0
    ensures |CStr(ShownName(name))| < |ShownName(name)|
  {
    if name[0] == 0 {
      CStrTerminated(DefaultName());
    }
  }
}
