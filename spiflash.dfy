/** The NOR flash record store of Src/spi_flash.c: the P25Q16SH command sequences as an
    SPI frame trace, the flash array as a byte map, the page-safe chunked write,
    whole-entry replacement and the five-line ring log. */
module SpiFlash {
  import opened Bytes
  import opened Text
  import opened FileEntryLayout
  import opened RingLog
  import TempFormat

  const CMD_WRITE_ENABLE: byte := 0x06
  const CMD_PAGE_PROGRAM: byte := 0x02
  const CMD_READ_DATA: byte := 0x03
  const CMD_SECTOR_ERASE: byte := 0x20
  const CMD_READ_ID: byte := 0x9F
  const MANUFACTURER_PUYA: byte := 0x85
  const PAGE_SIZE: nat := 256
  const SECTOR_SIZE: nat := 4096
  const ADDR_SPACE: nat := 0x100_0000

  /** One chip-select frame: the bytes the MCU clocks out while CS is low; or one
      completed Flash_WaitForReady (its status poll is not modelled). */
  datatype Frame = Cmd(out: seq<byte>) | Ready

  /** The three address bytes, most significant first: (a>>16)&0xFF, (a>>8)&0xFF, a&0xFF. */
  function Addr3(a: u32): (r: seq<byte>)
    ensures |r| == 3
  {
    [(a / 0x1_0000) % 256, (a / 256) % 256, a % 256]
  }

  /** The address the chip sees: the 24 bits that are sent. */
  function Dev(a: u32): nat
  {
    a % ADDR_SPACE
  }

  lemma Addr3Decode(a: u32)
    ensures var b := Addr3(a); b[0] as int * 0x1_0000 + b[1] as int * 256 + b[2] as int == Dev(a)
    ensures a < ADDR_SPACE ==> Dev(a) == a
  {
    var q := a / 256;
    var r := q / 256;
    var a0: nat, a1: nat, a2: nat := a % 256, q % 256, r % 256;
    DivMod256(a);
    DivMod256(q);
    DivMod256(r);
    assert a / 0x1_0000 == r;
    var low := a0 + 256 * a1 + 0x1_0000 * a2;
    assert a == low + ADDR_SPACE * (r / 256);
    Split24(low, r / 256);
  }

  lemma Split24(x: nat, y: nat)
    requires x < ADDR_SPACE
    ensures (x + ADDR_SPACE * y) % ADDR_SPACE == x
  {
  }

  function EraseFrames(a: u32): (r: seq<Frame>)
  {
    [Cmd([CMD_WRITE_ENABLE]), Ready, Cmd([CMD_SECTOR_ERASE] + Addr3(a)), Ready]
  }

  function ProgramFrames(a: u32, d: seq<byte>): (r: seq<Frame>)
  {
    [Cmd([CMD_WRITE_ENABLE]), Ready, Cmd([CMD_PAGE_PROGRAM] + Addr3(a) + d), Ready]
  }

  /** Flash_ReadData clocks out 0xFF while it samples the `n` data bytes. */
  function ReadFrame(a: u32, n: nat): Frame
  {
    Cmd([CMD_READ_DATA] + Addr3(a) + Repeat(0xFF, n))
  }

  /** Flash_ReadID clocks out 0x00 while it samples the three id bytes. */
  function IdFrame(): Frame
  {
    Cmd([CMD_READ_ID, 0, 0, 0])
  }

  /** A frame that changes the array or arms a change: write enable, erase, program. */
  predicate Mutating(f: Frame)
  {
    f.Cmd? && |f.out| > 0 && f.out[0] in {CMD_WRITE_ENABLE, CMD_SECTOR_ERASE, CMD_PAGE_PROGRAM}
  }

  predicate Quiet(fs: seq<Frame>)
  {
    forall i :: 0 <= i < |fs| ==> !Mutating(fs[i])
  }

  /** Erase and program both send write enable, wait, then their opcode and a
      big-endian 24-bit address; a read or an id query arms nothing. */
  lemma CommandSequences(a: u32, d: seq<byte>, n: nat)
    ensures var e := EraseFrames(a);
      && e[0] == Cmd([CMD_WRITE_ENABLE]) && e[1] == Ready && e[3] == Ready
      && e[2].out[0] == CMD_SECTOR_ERASE && e[2].out[1..4] == Addr3(a) && |e[2].out| == 4
    ensures var p := ProgramFrames(a, d);
      && p[0] == Cmd([CMD_WRITE_ENABLE]) && p[1] == Ready && p[3] == Ready
      && p[2].out[0] == CMD_PAGE_PROGRAM && p[2].out[1..4] == Addr3(a) && p[2].out[4..] == d
    ensures Quiet([ReadFrame(a, n), IdFrame()])
  {
    var p := ProgramFrames(a, d);
    assert p[2].out == [CMD_PAGE_PROGRAM] + Addr3(a) + d;
    assert ReadFrame(a, n).out[0] == CMD_READ_DATA;
  }

  // ---------------------------------------------------------------------------
  // The JEDEC id.

  /** `b0 << 16 | b1 << 8 | b2`: the three id bytes, first byte most significant. */
  function IdOf(b0: byte, b1: byte, b2: byte): (id: nat)
    ensures id < ADDR_SPACE
  {
    b0 as int * 0x1_0000 + b1 as int * 256 + b2 as int
  }

  /** Flash_CheckID: the manufacturer byte `id >> 16` is Puya's. */
  predicate IdOk(id: nat)
  {
    id / 0x1_0000 == MANUFACTURER_PUYA
  }

  /** The id splits back into its three bytes; in particular the check looks at the
      first byte the chip sends and only at it. */
  lemma IdBytes(b0: byte, b1: byte, b2: byte)
    ensures IdOf(b0, b1, b2) / 0x1_0000 == b0
    ensures (IdOf(b0, b1, b2) / 256) % 256 == b1 && IdOf(b0, b1, b2) % 256 == b2
    ensures IdOk(IdOf(b0, b1, b2)) <==> b0 == MANUFACTURER_PUYA
  {
    var n0: nat, n1: nat, n2: nat := b0, b1, b2;
    var c := n1 + 256 * n0;
    DigitSplit(n2, c);
    DigitSplit(n1, n0);
    assert IdOf(b0, b1, b2) == n2 + 256 * c;
    assert IdOf(b0, b1, b2) / 0x1_0000 == (IdOf(b0, b1, b2) / 256) / 256;
  }

  // ---------------------------------------------------------------------------
  // The flash array.

  type Mem = map<nat, byte>

  /** An address never programmed since its last erase reads as 0xFF. */
  function Read(m: Mem, a: nat): byte
  {
    if a in m then m[a] else 0xFF
  }

  function Contents(m: Mem, a: nat, n: nat): (r: seq<byte>)
    ensures |r| == n
    ensures forall i :: 0 <= i < n ==> r[i] == Read(m, a + i)
  {
    var r := seq<byte>(n, (i: int) requires 0 <= i => Read(m, a + i));
    r
  }

  /** Sector erase: every byte of the 4 KB sector holding `a` reads 0xFF again. */
  function Erase(m: Mem, a: nat): (r: Mem)
  {
    var base := a - a % SECTOR_SIZE;
    map k | k in m && !(base <= k < base + SECTOR_SIZE) :: m[k]
  }

  lemma ReadErase(m: Mem, a: nat, k: nat)
    ensures var base := a - a % SECTOR_SIZE;
      Read(Erase(m, a), k) == if base <= k < base + SECTOR_SIZE then 0xFF else Read(m, k)
  {
  }

  /** Page program after erase: the bytes are stored from `a` on. */
  function Store(m: Mem, a: nat, d: seq<byte>): Mem
    decreases |d|
  {
    if d == [] then m else Store(m[a := d[0]], a + 1, d[1..])
  }

  lemma {:induction false} ReadStore(m: Mem, a: nat, d: seq<byte>, k: nat)
    ensures Read(Store(m, a, d), k) == if a <= k < a + |d| then d[k - a] else Read(m, k)
    decreases |d|
  {
    if d != [] {
      ReadStore(m[a := d[0]], a + 1, d[1..], k);
      if a + 1 <= k < a + |d| {
        assert d[1..][k - (a + 1)] == d[k - a];
      }
    }
  }

  // ---------------------------------------------------------------------------
  // Flash_WriteBytes: the page-safe split.

  datatype Chunk = Chunk(addr: u32, bytes: seq<byte>)

  /** The chunks Flash_WriteBytes programs: as much as fits in the current page,
      then on from the next address (a 32-bit add). */
  function Chunks(addr: u32, data: seq<byte>): (cs: seq<Chunk>)
    decreases |data|
  {
    if data == [] then []
    else
      var c := Min(|data|, PAGE_SIZE - addr % PAGE_SIZE);
      [Chunk(addr, data[..c])] + Chunks((addr + c) % U32_MOD, data[c..])
  }

  function Flatten(cs: seq<Chunk>): seq<byte>
  {
    if cs == [] then [] else cs[0].bytes + Flatten(cs[1..])
  }

  /** No chunk is empty or crosses a page; all but the first start on a page. */
  predicate PageSafe(cs: seq<Chunk>)
  {
    forall i :: 0 <= i < |cs| ==>
      && 1 <= |cs[i].bytes|
      && cs[i].addr % PAGE_SIZE + |cs[i].bytes| <= PAGE_SIZE
      && (i > 0 ==> cs[i].addr % PAGE_SIZE == 0)
  }

  /** Each chunk starts where the previous one ended. */
  predicate Consecutive(addr: nat, cs: seq<Chunk>)
  {
    forall i :: 0 <= i < |cs| ==> cs[i].addr == addr + |Flatten(cs[..i])|
  }

  /** The chunks concatenate back to the data. */
  lemma {:induction false} ChunksFlatten(addr: u32, data: seq<byte>)
    ensures Flatten(Chunks(addr, data)) == data
    decreases |data|
  {
    if data != [] {
      var c := Min(|data|, PAGE_SIZE - addr % PAGE_SIZE);
      var a' := (addr + c) % U32_MOD;
      ChunksFlatten(a', data[c..]);
      var cs := Chunks(addr, data);
      assert cs[1..] == Chunks(a', data[c..]);
      assert data[..c] + data[c..] == data;
    }
  }

  /** The first chunk starts at `addr` and runs to the end of its page or of the data. */
  lemma ChunksFirst(addr: u32, data: seq<byte>)
    requires data != []
    ensures var cs := Chunks(addr, data);
      |cs| > 0 && cs[0].addr == addr && |cs[0].bytes| == Min(|data|, PAGE_SIZE - addr % PAGE_SIZE)
  {
  }

  lemma {:induction false} ChunksPageSafe(addr: u32, data: seq<byte>)
    ensures PageSafe(Chunks(addr, data))
    decreases |data|
  {
    if data != [] {
      var c := Min(|data|, PAGE_SIZE - addr % PAGE_SIZE);
      var a' := (addr + c) % U32_MOD;
      var rest := Chunks(a', data[c..]);
      ChunksPageSafe(a', data[c..]);
      if rest != [] {
        ChunksFirst(a', data[c..]);
      }
      assert Chunks(addr, data) == [Chunk(addr, data[..c])] + rest;
      PageSafeCons(addr, c, data[..c], a', rest);
    }
  }

  /** Without 32-bit wrap-around each chunk starts where the previous one ended. */
  lemma {:induction false} ChunksConsecutive(addr: u32, data: seq<byte>)
    requires addr + |data| <= U32_MOD
    ensures Consecutive(addr, Chunks(addr, data))
    decreases |data|
  {
    if data != [] {
      var c := Min(|data|, PAGE_SIZE - addr % PAGE_SIZE);
      var a' := addr + c;
      assert (addr + c) % U32_MOD == a' || data[c..] == [];
      if data[c..] == [] {
        assert Chunks(addr, data) == [Chunk(addr, data[..c])];
        assert Chunks(addr, data)[..0] == [];
      } else {
        var rest := Chunks(a', data[c..]);
        ChunksConsecutive(a', data[c..]);
        assert Chunks(addr, data) == [Chunk(addr, data[..c])] + rest;
        ConsecutiveCons(addr, data[..c], rest);
      }
    }
  }

  lemma PageSafeCons(addr: u32, c: nat, head: seq<byte>, a': u32, rest: seq<Chunk>)
    requires 1 <= c == |head| && addr % PAGE_SIZE + c <= PAGE_SIZE
    requires a' == (addr + c) % U32_MOD
    requires rest != [] ==> rest[0].addr == a' && addr % PAGE_SIZE + c == PAGE_SIZE
    requires PageSafe(rest)
    ensures PageSafe([Chunk(addr, head)] + rest)
  {
    var cs := [Chunk(addr, head)] + rest;
    if rest != [] {
      assert (addr + c) % PAGE_SIZE == 0;
      assert addr + c <= U32_MOD;
      assert a' % PAGE_SIZE == 0 by {
        if addr + c < U32_MOD {
          assert a' == addr + c;
        } else {
          assert a' == 0;
        }
      }
    }
    forall i | 0 < i < |cs|
      ensures cs[i] == rest[i - 1]
    {
    }
  }

  lemma ConsecutiveCons(addr: nat, head: seq<byte>, rest: seq<Chunk>)
    requires Consecutive(addr + |head|, rest)
    requires 0 <= addr < U32_MOD
    ensures Consecutive(addr, [Chunk(addr, head)] + rest)
  {
    var cs := [Chunk(addr, head)] + rest;
    assert cs[..0] == [];
    forall i | 0 < i < |cs|
      ensures cs[i].addr == addr + |Flatten(cs[..i])|
    {
      assert cs[..i] == [Chunk(addr, head)] + rest[..i - 1];
      assert Flatten(cs[..i]) == head + Flatten(rest[..i - 1]);
      assert cs[i] == rest[i - 1];
    }
  }

  /** The frames of all the page programs, in order. */
  function WriteFrames(cs: seq<Chunk>): seq<Frame>
  {
    if cs == [] then [] else ProgramFrames(cs[0].addr, cs[0].bytes) + WriteFrames(cs[1..])
  }

  /** The array after all the page programs. */
  function ProgramAll(m: Mem, cs: seq<Chunk>): Mem
    decreases |cs|
  {
    if cs == [] then m else ProgramAll(Store(m, Dev(cs[0].addr), cs[0].bytes), cs[1..])
  }

  /** One turn of the Flash_WriteBytes loop: the first chunk's program, then the rest. */
  lemma WriteStep(m: Mem, a: u32, rest: seq<byte>, c: nat)
    requires rest != [] && c == Min(|rest|, PAGE_SIZE - a % PAGE_SIZE)
    ensures var cs := Chunks((a + c) % U32_MOD, rest[c..]);
      && WriteFrames(Chunks(a, rest)) == ProgramFrames(a, rest[..c]) + WriteFrames(cs)
      && ProgramAll(m, Chunks(a, rest)) == ProgramAll(Store(m, Dev(a), rest[..c]), cs)
  {
    var cs := Chunks((a + c) % U32_MOD, rest[c..]);
    assert Chunks(a, rest) == [Chunk(a, rest[..c])] + cs;
    assert Chunks(a, rest)[1..] == cs;
  }

  /** The Flash_WriteBytes loop invariant survives one turn: what is still to be sent
      and stored is the first chunk's program followed by the rest. */
  lemma WriteLoopStep(tt: seq<Frame>, mm: Mem, t: seq<Frame>, m: Mem, a: u32, rest: seq<byte>, c: nat)
    requires rest != [] && c == Min(|rest|, PAGE_SIZE - a % PAGE_SIZE)
    requires tt == t + WriteFrames(Chunks(a, rest))
    requires mm == ProgramAll(m, Chunks(a, rest))
    ensures var cs := Chunks((a + c) % U32_MOD, rest[c..]);
      && tt == (t + ProgramFrames(a, rest[..c])) + WriteFrames(cs)
      && mm == ProgramAll(Store(m, Dev(a), rest[..c]), cs)
  {
    WriteStep(m, a, rest, c);
    Assoc(t, ProgramFrames(a, rest[..c]), WriteFrames(Chunks((a + c) % U32_MOD, rest[c..])));
  }

  /** Programming the chunks of `data` stores exactly `data` from `addr` on, as long
      as the range lies inside the 24-bit address space. */
  lemma {:induction false} ReadBackChunks(m: Mem, addr: u32, data: seq<byte>, k: nat)
    requires addr + |data| <= ADDR_SPACE
    ensures Read(ProgramAll(m, Chunks(addr, data)), k)
      == if addr <= k < addr + |data| then data[k - addr] else Read(m, k)
    decreases |data|
  {
    if data != [] {
      var c := Min(|data|, PAGE_SIZE - addr % PAGE_SIZE);
      var a' := addr + c;
      assert (addr + c) % U32_MOD == a';
      var m' := Store(m, Dev(addr), data[..c]);
      assert Chunks(addr, data)[1..] == Chunks(a', data[c..]);
      assert ProgramAll(m, Chunks(addr, data)) == ProgramAll(m', Chunks(a', data[c..]));
      ReadBackChunks(m', a', data[c..], k);
      Addr3Decode(addr);
      ReadStore(m, addr, data[..c], k);
      if a' <= k < addr + |data| {
        assert data[c..][k - a'] == data[k - addr];
      }
    }
  }

  /** Reading back after erasing sector 0 and writing an entry gives the entry. */
  lemma ReadBackEntry(m: Mem, bytes: seq<byte>)
    requires |bytes| == ENTRY_LEN
    ensures Contents(ProgramAll(Erase(m, FILE_ADDRESS), Chunks(FILE_ADDRESS, bytes)), FILE_ADDRESS, ENTRY_LEN)
      == bytes
  {
    var m' := ProgramAll(Erase(m, FILE_ADDRESS), Chunks(FILE_ADDRESS, bytes));
    forall i | 0 <= i < ENTRY_LEN
      ensures Read(m', i) == bytes[i]
    {
      ReadBackChunks(Erase(m, FILE_ADDRESS), FILE_ADDRESS, bytes, i);
    }
  }

  // ---------------------------------------------------------------------------
  // Flash_WriteFileEntry's record.

  /** The name strncpy'd into the 32-byte field: the argument when it is a
      non-empty string, FILE_NAME otherwise. */
  function NameArg(filename: Option<seq<byte>>): seq<byte>
  {
    if filename.Some? && filename.value != [] && filename.value[0] != 0 then filename.value else DefaultName()
  }

  /** The entry Flash_WriteFileEntry builds: zeroed, the name strncpy'd to at most 31
      characters, the size clamped to 256, timestamp 0 and the payload copied when
      there is one. */
  function EntryFor(filename: Option<seq<byte>>, data: Option<seq<byte>>, size: u32): (e: FileEntry)
    requires data.Some? ==> Min(size, DATA_LEN) <= |data.value|
    ensures e.WellFormed()
  {
    var n := Min(size, DATA_LEN);
    var payload := if data.Some? && n != 0 then data.value[..n] + Zeros(DATA_LEN - n) else Zeros(DATA_LEN);
    FileEntry(StrNCpy(NameArg(filename), NAME_LEN - 1) + [0], n, 0, payload)
  }

  /** What the stored entry holds. */
  lemma EntryForSpec(filename: Option<seq<byte>>, data: Option<seq<byte>>, size: u32)
    requires data.Some? ==> Min(size, DATA_LEN) <= |data.value|
    ensures var e := EntryFor(filename, data, size);
      var c := CStr(NameArg(filename));
      && CStr(e.filename) == c[..Min(|c|, NAME_LEN - 1)]
      && e.filename[NAME_LEN - 1] == 0
      && e.size == Min(size, DATA_LEN) && e.timestamp == 0
      && (forall i :: e.size <= i < DATA_LEN ==> e.data[i] == 0)
      && (data.Some? ==> e.data[..e.size] == data.value[..e.size])
      && (data.None? ==> e.data == Zeros(DATA_LEN))
  {
    var e := EntryFor(filename, data, size);
    CStrOfField(NameArg(filename), NAME_LEN - 1);
    var n := Min(size, DATA_LEN);
    if data.Some? && n != 0 {
      assert e.data[..n] == data.value[..n];
    }
  }

  /** An empty or absent name stores "file.txt". */
  lemma EntryForDefaultName(filename: Option<seq<byte>>, data: Option<seq<byte>>, size: u32)
    requires data.Some? ==> Min(size, DATA_LEN) <= |data.value|
    requires filename.None? || filename.value == [] || filename.value[0] == 0
    ensures CStr(EntryFor(filename, data, size).filename) == DefaultName()
  {
    CStrOfField(DefaultName(), NAME_LEN - 1);
    CStrWhole(DefaultName());
  }


  /** A string copied with strncpy(dst, src, n) into a field whose byte n stays 0
      reads back as its first n characters. */
  lemma CStrOfField(src: seq<byte>, n: nat)
    ensures var c := CStr(src);
      CStr(StrNCpy(src, n) + [0]) == c[..Min(|c|, n)]
  {
    var c := CStr(src);
    var k := Min(|c|, n);
    var f := StrNCpy(src, n) + [0];
    assert f[k] == 0;
    forall j | 0 <= j < k
      ensures f[j] != 0
    {
      assert f[j] == src[j] == c[j];
    }
    IndexOfUnique(f, 0, k);
    assert CStr(f) == f[..k];
  }

  /** The array after the entry at FILE_ADDRESS is replaced by `e`. */
  function Replaced(m: Mem, e: FileEntry): Mem
    requires e.WellFormed()
  {
    ProgramAll(Erase(m, FILE_ADDRESS), Chunks(FILE_ADDRESS, Encode(e)))
  }

  /** The frames of a whole-entry replacement. */
  function ReplaceFrames(e: FileEntry): seq<Frame>
    requires e.WellFormed()
  {
    EraseFrames(FILE_ADDRESS) + WriteFrames(Chunks(FILE_ADDRESS, Encode(e)))
  }

  /** Reading the entry back after a replacement gives exactly the entry. */
  lemma ReplacedReadsBack(m: Mem, e: FileEntry)
    requires e.WellFormed()
    ensures Decode(Contents(Replaced(m, e), FILE_ADDRESS, ENTRY_LEN)) == e
  {
    ReadBackEntry(m, Encode(e));
    DecodeEncode(e);
  }

  /** The replacement erases once and then programs page after page: two pages for
      the 296-byte entry, 256 bytes and then 40. */
  lemma ReplaceFramesShape(e: FileEntry)
    requires e.WellFormed()
    ensures var b := Encode(e);
      Chunks(FILE_ADDRESS, b) == [Chunk(0, b[..256]), Chunk(256, b[256..])]
  {
    var b := Encode(e);
    var t := b[256..];
    assert Chunks(0, b) == [Chunk(0, b[..256])] + Chunks(256, t);
    assert t[..40] == t && t[40..] == [];
    assert Chunks(256, t) == [Chunk(256, t)] + Chunks(296, []);
  }

  /** FILE_CONTENT, the text WriteFileToFlash stores. */
  function FileContent(): (r: seq<byte>)
    ensures |r| == 12
  {
    Ascii("Hello world!")
  }

  // ---------------------------------------------------------------------------
  // Flash_LogLine_Ring5's record.

  /** The payload the ring log continues from: the stored bytes when the slot image
      `b` passes fileentry_valid_local, none otherwise. */
  function PrevPayload(b: seq<byte>): (p: Option<seq<byte>>)
    requires |b| == ENTRY_LEN
    ensures p.Some? ==> 1 <= |p.value| <= DATA_LEN
    ensures p.Some? <==> Valid(Decode(b))
  {
    var e := Decode(b);
    if Valid(e) then Some(e.data[..e.size]) else None
  }

  /** The entry Flash_LogLine_Ring5 stores over the slot image `b` for a clamped line. */
  function LogEntry(b: seq<byte>, line: seq<byte>): (e: FileEntry)
    requires |b| == ENTRY_LEN && |line| <= DATA_LEN
    ensures e.WellFormed()
  {
    RingPayloadBound(line, PrevPayload(b));
    var p := RingPayload(line, PrevPayload(b));
    EntryFor(Some(DefaultName()), Some(p), |p|)
  }

  /** Segment j of the line table is src[starts[j] .. starts[j] + lens[j]). */
  ghost predicate SegTable(src: seq<byte>, starts: seq<u32>, lens: seq<u32>, n: nat, segs: seq<seq<byte>>)
  {
    && n == |segs| && n <= |starts| && n <= |lens|
    && forall j :: 0 <= j < n ==> starts[j] as int + lens[j] as int <= |src| && src[starts[j]..starts[j] as int + lens[j] as int] == segs[j]
  }

  lemma SegTableSnoc(src: seq<byte>, starts: seq<u32>, lens: seq<u32>, n: nat, segs: seq<seq<byte>>, st: u32, ln: u32)
    requires SegTable(src, starts, lens, n, segs)
    requires n < |starts| && n < |lens| && st as int + ln as int <= |src|
    ensures SegTable(src, starts[n := st], lens[n := ln], n + 1, segs + [src[st..st as int + ln as int]])
  {
  }

  /** The state of the scan loop after index i: the table holds the complete lines
      before lineStart, and no '\n' has been seen since. */
  ghost predicate ScanInv(src: seq<byte>, starts: seq<u32>, lens: seq<u32>, n: nat, segs: seq<seq<byte>>,
                          lineStart: nat, i: nat)
  {
    && lineStart <= i <= |src| && n <= LOG_RING_LINES
    && SegTable(src, starts, lens, n, segs)
    && (forall j :: 0 <= j < |segs| ==> IsLineSeg(segs[j]))
    && Concat(segs) == src[..lineStart]
    && NL !in src[lineStart..i]
  }

  lemma ScanNewline(src: seq<byte>, starts: seq<u32>, lens: seq<u32>, n: nat, segs: seq<seq<byte>>,
                    lineStart: u32, i: u32)
    requires ScanInv(src, starts, lens, n, segs, lineStart, i)
    requires i < |src| && src[i] == NL && n < LOG_RING_LINES && n < |starts| && n < |lens| && i + 1 < U32_MOD
    ensures ScanInv(src, starts[n := lineStart], lens[n := i + 1 - lineStart], n + 1,
                    segs + [src[lineStart..i + 1]], i + 1, i + 1)
  {
    SegTableSnoc(src, starts, lens, n, segs, lineStart, i + 1 - lineStart);
    ScanLine(src, lineStart, i, segs);
    assert src[i + 1..i + 1] == [];
  }

  lemma ScanOther(src: seq<byte>, starts: seq<u32>, lens: seq<u32>, n: nat, segs: seq<seq<byte>>,
                  lineStart: nat, i: nat)
    requires ScanInv(src, starts, lens, n, segs, lineStart, i)
    requires i < |src| && src[i] != NL
    ensures ScanInv(src, starts, lens, n, segs, lineStart, i + 1)
  {
    assert src[lineStart..i + 1] == src[lineStart..i] + [src[i]];
  }

  lemma ScanRestart(src: seq<byte>, starts: seq<u32>, lens: seq<u32>, n: nat, segs: seq<seq<byte>>,
                    lineStart: nat, i: nat)
    requires ScanInv(src, starts, lens, n, segs, lineStart, i)
    ensures ScanInv(src, starts, lens, n, segs, lineStart, lineStart)
  {
    assert src[lineStart..lineStart] == [];
  }

  /** A '\n' at index i closes the line that began at lineStart. */
  lemma ScanLine(src: seq<byte>, lineStart: nat, i: nat, segs: seq<seq<byte>>)
    requires lineStart <= i < |src| && src[i] == NL && NL !in src[lineStart..i]
    requires Concat(segs) == src[..lineStart]
    ensures IsLineSeg(src[lineStart..i + 1])
    ensures Concat(segs + [src[lineStart..i + 1]]) == src[..i + 1]
  {
    var l := src[lineStart..i + 1];
    assert l[..|l| - 1] == src[lineStart..i];
    ConcatAppend(segs, [l]);
    var one: seq<seq<byte>> := [l];
    assert one[1..] == [];
    assert src[..lineStart] + l == src[..i + 1];
  }

  /** When the scan stops, the table holds the payload's segments, up to the final
      fragment that the code adds after the loop. */
  lemma ScanEnd(d: seq<byte>, segs: seq<seq<byte>>, lineStart: nat)
    requires lineStart <= |d| && Concat(segs) == d[..lineStart]
    requires forall j :: 0 <= j < |segs| ==> IsLineSeg(segs[j])
    requires |segs| <= LOG_RING_LINES
    requires |segs| < LOG_RING_LINES ==> NL !in d[lineStart..]
    ensures Segments(d, LOG_RING_LINES)
      == segs + if lineStart < |d| && |segs| < LOG_RING_LINES then [d[lineStart..]] else []
  {
    var rest := d[lineStart..];
    assert d == Concat(segs) + rest;
    SegmentsOfLines(segs, rest, LOG_RING_LINES);
    if |segs| < LOG_RING_LINES && rest != [] {
      IndexOfSpec(rest, NL);
    }
  }

  /** The copy loop keeps one more segment when it fits ... */
  lemma KeptStep(used: nat, len: nat, segs: seq<seq<byte>>, i: nat, k: nat)
    requires i < |segs| && k > 0 && len == |segs[i]| && used + len <= OUT_CAP
    ensures Kept(used, segs[i..], k) == 1 + Kept(used + len, segs[i + 1..], k - 1)
  {
    assert segs[i..][0] == segs[i] && segs[i..][1..] == segs[i + 1..];
  }

  /** ... and stops at the first one that does not. */
  lemma KeptStops(used: nat, segs: seq<seq<byte>>, i: nat, k: nat)
    requires i < |segs| && used + |segs[i]| > OUT_CAP
    ensures Kept(used, segs[i..], k) == 0
  {
    assert segs[i..][0] == segs[i];
  }

  /** memcpy(&out[at], &src[st], len) appends the segment src[st..st+len) to out[..at]. */
  lemma CopyBlock(o0: seq<byte>, o1: seq<byte>, at: nat, src: seq<byte>, st: nat, len: nat, seg: seq<byte>)
    requires |o1| == |o0| && at + len <= |o0| && st + len <= |src| && seg == src[st..st + len]
    requires forall k :: 0 <= k < at ==> o1[k] == o0[k]
    requires forall k :: at <= k < at + len ==> o1[k] == src[st + (k - at)]
    ensures o1[..at + len] == o0[..at] + seg
  {
  }

  /** One turn of the output loop: appending segment i keeps the output the line
      plus the first i + 1 segments, and one more segment is counted as kept. */
  lemma OutLoopStep(line: seq<byte>, segs: seq<seq<byte>>, i: nat, used: nat, len: nat, k: nat, kept: nat,
                    pre: seq<byte>, post: seq<byte>)
    requires i < |segs| && k > 0 && len == |segs[i]| && used + len <= OUT_CAP
    requires pre == line + Concat(segs[..i]) && post == pre + segs[i]
    requires i + Kept(used, segs[i..], k) == kept
    ensures post == line + Concat(segs[..i + 1])
    ensures segs[i..][1..] == segs[i + 1..]
    ensures (i + 1) + Kept(used + len, segs[i..][1..], k - 1) == kept
  {
    ConcatSnoc(segs, i);
    KeptStep(used, len, segs, i, k);
  }

  /** After the loop, without a fragment to add, the table is the segment list of
      the payload ... */
  lemma ScanNoFragment(src: seq<byte>, oldLen: nat, starts: seq<u32>, lens: seq<u32>, n: nat,
                       segs: seq<seq<byte>>, lineStart: nat)
    requires oldLen <= |src| <= DATA_LEN && lineStart <= oldLen
    requires ScanInv(src, starts, lens, n, segs, lineStart, lineStart)
    requires n < LOG_RING_LINES ==> NL !in src[..oldLen][lineStart..]
    requires !(lineStart < oldLen && n < LOG_RING_LINES)
    ensures SegTable(src, starts, lens, n, Segments(src[..oldLen], LOG_RING_LINES))
  {
    var d := src[..oldLen];
    assert d[..lineStart] == src[..lineStart];
    ScanEnd(d, segs, lineStart);
    assert segs + [] == segs;
  }

  /** ... and otherwise it is, once the final fragment is added. */
  lemma ScanFragment(src: seq<byte>, oldLen: nat, starts: seq<u32>, lens: seq<u32>, n: nat,
                     segs: seq<seq<byte>>, lineStart: u32)
    requires oldLen <= |src| <= DATA_LEN && lineStart < oldLen
    requires ScanInv(src, starts, lens, n, segs, lineStart, lineStart)
    requires n < LOG_RING_LINES && n < |starts| && n < |lens|
    requires NL !in src[..oldLen][lineStart..]
    ensures SegTable(src, starts[n := lineStart], lens[n := (oldLen - lineStart) as u32], n + 1,
                     Segments(src[..oldLen], LOG_RING_LINES))
  {
    var d := src[..oldLen];
    assert d[..lineStart] == src[..lineStart];
    ScanEnd(d, segs, lineStart);
    SegTableSnoc(src, starts, lens, n, segs, lineStart, (oldLen - lineStart) as u32);
    assert src[lineStart..oldLen] == d[lineStart..];
  }

  lemma ConcatSnoc(segs: seq<seq<byte>>, i: nat)
    requires i < |segs|
    ensures Concat(segs[..i + 1]) == Concat(segs[..i]) + segs[i]
  {
    assert segs[..i + 1] == segs[..i] + [segs[i]];
    ConcatAppend(segs[..i], [segs[i]]);
    var one: seq<seq<byte>> := [segs[i]];
    assert one[1..] == [];
  }

  /** The stored entry is LogEntry: only the copied prefix of the buffer matters. */
  lemma LogEntryIs(b: seq<byte>, line: seq<byte>, out: seq<byte>, outLen: nat)
    requires |b| == ENTRY_LEN && |line| <= DATA_LEN && outLen <= |out| && outLen < U32_MOD
    requires out[..outLen] == RingPayload(line, PrevPayload(b))
    ensures Min(outLen, DATA_LEN) <= |out|
    ensures EntryFor(Some(DefaultName()), Some(out), outLen) == LogEntry(b, line)
  {
    RingPayloadBound(line, PrevPayload(b));
    var p := out[..outLen];
    assert p[..outLen] == out[..outLen];
  }

  /** The logged entry is "file.txt" holding the new payload; it is valid whenever the
      line is non-empty and does not start with 0xFF, so the next call continues
      from exactly this payload. */
  lemma LogEntrySpec(b: seq<byte>, line: seq<byte>)
    requires |b| == ENTRY_LEN && |line| <= DATA_LEN
    ensures var e := LogEntry(b, line);
      var p := RingPayload(line, PrevPayload(b));
      && CStr(e.filename) == DefaultName()
      && e.size == |p| && e.data[..e.size] == p && e.timestamp == 0
      && (1 <= |line| && line[0] != 0xFF ==> Valid(e) && PrevPayload(Encode(e)) == Some(p))
  {
    var p := RingPayload(line, PrevPayload(b));
    RingPayloadShape(line, PrevPayload(b));
    var e := LogEntry(b, line);
    EntryForSpec(Some(DefaultName()), Some(p), |p|);
    CStrWhole(DefaultName());
    assert DefaultName()[..Min(|DefaultName()|, NAME_LEN - 1)] == DefaultName();
    if 1 <= |line| && line[0] != 0xFF {
      assert e.data[0] == e.data[..e.size][0] == p[0] == line[0];
      assert e.filename[0] == CStr(e.filename)[0] == 'f' as int;
      DecodeEncode(e);
    }
  }

  /** The slot image after Flash_LogLine_Ring5 has stored each of the (clamped)
      `lines` in turn, starting from the image `b`. */
  function LogImage(b: seq<byte>, lines: seq<seq<byte>>): (r: seq<byte>)
    requires |b| == ENTRY_LEN
    requires forall i :: 0 <= i < |lines| ==> |lines[i]| <= DATA_LEN
    ensures |r| == ENTRY_LEN
    decreases |lines|
  {
    if lines == [] then b
    else Encode(LogEntry(LogImage(b, lines[..|lines| - 1]), lines[|lines| - 1]))
  }

  /** One more successful call extends the image by one line. */
  lemma LogStep(m: Mem, b: seq<byte>, lines: seq<seq<byte>>, line: seq<byte>)
    requires |b| == ENTRY_LEN && |line| <= DATA_LEN
    requires forall i :: 0 <= i < |lines| ==> |lines[i]| <= DATA_LEN
    requires Contents(m, FILE_ADDRESS, ENTRY_LEN) == LogImage(b, lines)
    ensures forall i :: 0 <= i < |lines + [line]| ==> |(lines + [line])[i]| <= DATA_LEN
    ensures Contents(Replaced(m, LogEntry(Contents(m, FILE_ADDRESS, ENTRY_LEN), line)), FILE_ADDRESS, ENTRY_LEN)
      == LogImage(b, lines + [line])
  {
    var e := LogEntry(LogImage(b, lines), line);
    ReadBackEntry(m, Encode(e));
    assert (lines + [line])[..|lines|] == lines;
  }

  /** The payload stored after logging well-formed lines is the ring log's replay of
      them onto the payload the slot held before. */
  lemma {:induction false} LogImageReplay(b: seq<byte>, lines: seq<seq<byte>>)
    requires |b| == ENTRY_LEN && |lines| >= 1
    requires forall i :: 0 <= i < |lines| ==> GoodLine(lines[i])
    ensures forall i :: 0 <= i < |lines| ==> |lines[i]| <= DATA_LEN
    ensures PrevPayload(LogImage(b, lines)) == Some(Replay(PrevPayload(b), lines))
    decreases |lines|
  {
    var n := |lines|;
    var front := lines[..n - 1];
    var last := lines[n - 1];
    assert forall i :: 0 <= i < |front| ==> front[i] == lines[i];
    var img := LogImage(b, front);
    LogEntrySpec(img, last);
    if n == 1 {
      assert front == [];
    } else {
      LogImageReplay(b, front);
    }
  }

  /** After five or more well-formed lines the file holds exactly the five newest,
      newest first, whatever the slot held before. */
  lemma LogKeepsFiveNewest(b: seq<byte>, lines: seq<seq<byte>>)
    requires |b| == ENTRY_LEN && |lines| >= LOG_RING_LINES
    requires forall i :: 0 <= i < |lines| ==> GoodLine(lines[i])
    ensures forall i :: 0 <= i < |lines| ==> |lines[i]| <= DATA_LEN
    ensures PrevPayload(LogImage(b, lines)) == Some(Concat(Newest(lines, LOG_RING_LINES)))
    ensures Segments(Concat(Newest(lines, LOG_RING_LINES)), LOG_RING_LINES) == Newest(lines, LOG_RING_LINES)
  {
    LogImageReplay(b, lines);
    FiveNewestLines(PrevPayload(b), lines);
  }

  /** Only the first `size` bytes of the data argument reach the entry. */
  lemma EntryForPrefix(filename: Option<seq<byte>>, d: seq<byte>, text: seq<byte>, size: u32)
    requires size == |text| <= DATA_LEN && size <= |d| && d[..size] == text
    ensures EntryFor(filename, Some(d), size) == EntryFor(filename, Some(text), size)
  {
    assert text[..size] == text;
  }

  /** The entry Flash_WriteTemperatureFile_Q4 stores. */
  function TempEntry(t: TempFormat.i16): (e: FileEntry)
    ensures e.WellFormed()
  {
    TempFormat.TempTextShape(t);
    EntryFor(Some(DefaultName()), Some(TempFormat.TempText(t)), |TempFormat.TempText(t)|)
  }

  /** It is a valid "file.txt" entry whose bytes are the temperature text. */
  lemma TempEntrySpec(t: TempFormat.i16)
    ensures var e := TempEntry(t);
      && Valid(e) && CStr(e.filename) == DefaultName()
      && e.data[..e.size] == TempFormat.TempText(t)
  {
    var text := TempFormat.TempText(t);
    TempFormat.TempTextShape(t);
    var e := TempEntry(t);
    EntryForSpec(Some(DefaultName()), Some(text), |text|);
    CStrWhole(DefaultName());
    assert DefaultName()[..Min(|DefaultName()|, NAME_LEN - 1)] == DefaultName();
    assert e.filename[0] == CStr(e.filename)[0] == 'f' as int;
    assert e.data[0] == text[0] == 'T' as int;
  }

  // ---------------------------------------------------------------------------
  // The device and the driver.

  /** The P25Q16SH as the driver sees it: its array, its id bytes, and the frames
      the driver has sent it so far. */
  class FlashDevice {
    var mem: Mem
    var trace: seq<Frame>
    const manufacturer: byte
    const memoryType: byte
    const capacity: byte

    constructor (manufacturer: byte, memoryType: byte, capacity: byte, mem: Mem)
      ensures this.manufacturer == manufacturer && this.memoryType == memoryType
      ensures this.capacity == capacity && this.mem == mem && trace == []
    {
      this.manufacturer := manufacturer;
      this.memoryType := memoryType;
      this.capacity := capacity;
      this.mem := mem;
      trace := [];
    }

    function Id(): nat
    {
      IdOf(manufacturer, memoryType, capacity)
    }

    /** Flash_WaitForReady: the status poll, as one abstract step. */
    method WaitForReady()
      modifies this
      ensures trace == old(trace) + [Ready] && mem == old(mem)
    {
      trace := trace + [Ready];
    }

    method WriteEnable()
      modifies this
      ensures trace == old(trace) + [Cmd([CMD_WRITE_ENABLE])] && mem == old(mem)
    {
      trace := trace + [Cmd([CMD_WRITE_ENABLE])];
    }

    method SectorErase(address: u32)
      modifies this
      ensures trace == old(trace) + EraseFrames(address)
      ensures mem == Erase(old(mem), Dev(address))
    {
      WriteEnable();
      WaitForReady();
      trace := trace + [Cmd([CMD_SECTOR_ERASE] + Addr3(address))];
      mem := Erase(mem, Dev(address));
      WaitForReady();
    }

    /** Flash_PageProgram: at most 256 bytes are sent and stored. */
    method PageProgram(address: u32, data: seq<byte>, size: u16)
      requires Min(size, PAGE_SIZE) <= |data|
      modifies this
      ensures var n := Min(size, PAGE_SIZE);
        && trace == old(trace) + ProgramFrames(address, data[..n])
        && mem == Store(old(mem), Dev(address), data[..n])
    {
      var n := size;
      if n > 256 {
        n := 256;
      }
      WriteEnable();
      WaitForReady();
      trace := trace + [Cmd([CMD_PAGE_PROGRAM] + Addr3(address) + data[..n])];
      mem := Store(mem, Dev(address), data[..n]);
      WaitForReady();
    }

    /** Flash_ReadData: fills buffer[0..size) from the array; erases and programs nothing. */
    method ReadData(address: u32, buffer: array<byte>, size: u32)
      requires size <= buffer.Length
      modifies this, buffer
      ensures buffer[..size] == Contents(mem, Dev(address), size)
      ensures buffer[size..] == old(buffer[size..])
      ensures mem == old(mem) && trace == old(trace) + [ReadFrame(address, size)]
    {
      var i := 0;
      while i < size
        invariant 0 <= i <= size
        invariant mem == old(mem) && trace == old(trace)
        invariant buffer[..i] == Contents(mem, Dev(address), i)
        invariant buffer[size..] == old(buffer[size..])
      {
        buffer[i] := Read(mem, Dev(address) + i);
        i := i + 1;
      }
      trace := trace + [ReadFrame(address, size)];
    }

    method ReadId() returns (id: u32)
      modifies this
      ensures id == Id() && trace == old(trace) + [IdFrame()] && mem == old(mem)
    {
      id := manufacturer as int * 0x1_0000 + memoryType as int * 256 + capacity as int;
      trace := trace + [IdFrame()];
    }

    method CheckId() returns (ok: bool)
      modifies this
      ensures ok == IdOk(Id()) && trace == old(trace) + [IdFrame()] && mem == old(mem)
    {
      var id := ReadId();
      ok := id / 0x1_0000 == MANUFACTURER_PUYA as int;
    }

    /** Flash_WriteBytes: programs `data[..size]` page by page. */
    method WriteBytes(addr: u32, data: seq<byte>, size: u32)
      requires size <= |data|
      modifies this
      ensures trace == old(trace) + WriteFrames(Chunks(addr, data[..size]))
      ensures mem == ProgramAll(old(mem), Chunks(addr, data[..size]))
    {
      var a: u32, off: nat, n: nat := addr, 0, size;
      ghost var tt := old(trace) + WriteFrames(Chunks(addr, data[..size]));
      ghost var mm := ProgramAll(old(mem), Chunks(addr, data[..size]));
      assert data[..size] == data[0..size];
      while n > 0
        invariant off + n == size
        invariant tt == trace + WriteFrames(Chunks(a, data[off..size]))
        invariant mm == ProgramAll(mem, Chunks(a, data[off..size]))
        decreases n
      {
        var pageOff := a % 256;
        var space := 256 - pageOff;
        var chunk := if n < space then n else space;
        var rest := data[off..size];
        WriteLoopStep(tt, mm, trace, mem, a, rest, chunk);
        ghost var t0, m0 := trace, mem;
        PageProgram(a, rest, chunk);
        assert Min(chunk, PAGE_SIZE) == chunk;
        assert trace == t0 + ProgramFrames(a, rest[..chunk]);
        assert mem == Store(m0, Dev(a), rest[..chunk]);
        a := (a + chunk) % U32_MOD;
        off := off + chunk;
        n := n - chunk;
        assert data[off..size] == rest[chunk..];
      }
    }

    /** Flash_WriteFileEntry: fail closed on a foreign id, otherwise replace the entry. */
    method WriteFileEntry(filename: Option<seq<byte>>, data: Option<seq<byte>>, size: u32) returns (r: byte)
      requires data.Some? ==> Min(size, DATA_LEN) <= |data.value|
      modifies this
      ensures r == if IdOk(Id()) then 1 else 0
      ensures r == 0 ==> mem == old(mem) && trace == old(trace) + [IdFrame()]
      ensures r == 1 ==> (mem == Replaced(old(mem), EntryFor(filename, data, size))
        && trace == old(trace) + [IdFrame()] + ReplaceFrames(EntryFor(filename, data, size)))
    {
      var ok := CheckId();
      if !ok {
        return 0;
      }
      var fe := BuildEntry(filename, data, size);
      ReplaceEntry(fe);
      return 1;
    }

    /** The entry is built in a zeroed struct, field by field. */
    static method BuildEntry(filename: Option<seq<byte>>, data: Option<seq<byte>>, size: u32) returns (fe: FileEntry)
      requires data.Some? ==> Min(size, DATA_LEN) <= |data.value|
      ensures fe == EntryFor(filename, data, size)
    {
      fe := FileEntry(Zeros(NAME_LEN), 0, 0, Zeros(DATA_LEN));
      ghost var want := EntryFor(filename, data, size);
      assert fe.filename[NAME_LEN - 1..] == [0];
      if filename.Some? && filename.value != [] && filename.value[0] != 0 {
        fe := fe.(filename := StrNCpy(filename.value, NAME_LEN - 1) + fe.filename[NAME_LEN - 1..]);
      } else {
        fe := fe.(filename := StrNCpy(DefaultName(), NAME_LEN - 1) + fe.filename[NAME_LEN - 1..]);
      }
      assert fe.filename == want.filename;
      var n := size;
      if n > 256 {
        n := 256;
      }
      fe := fe.(size := n, timestamp := 0);
      if data.Some? && n != 0 {
        assert fe.data[n..] == Zeros(DATA_LEN - n);
        fe := fe.(data := data.value[..n] + fe.data[n..]);
      }
      assert fe.data == want.data;
    }

    /** Flash_SectorErase(FILE_ADDRESS), then Flash_WriteBytes of the whole struct. */
    method ReplaceEntry(fe: FileEntry)
      requires fe.WellFormed()
      modifies this
      ensures mem == Replaced(old(mem), fe)
      ensures trace == old(trace) + ReplaceFrames(fe)
    {
      SectorErase(FILE_ADDRESS);
      WriteBytes(FILE_ADDRESS, Encode(fe), ENTRY_LEN);
      assert Encode(fe)[..ENTRY_LEN] == Encode(fe);
      Assoc(old(trace), EraseFrames(FILE_ADDRESS), WriteFrames(Chunks(FILE_ADDRESS, Encode(fe))));
    }

    /** WriteFileToFlash: stores "file.txt" holding "Hello world!" and returns 2. */
    method WriteFileToFlash() returns (r: byte)
      modifies this
      ensures r == if IdOk(Id()) then 2 else 0
      ensures r == 0 ==> mem == old(mem) && trace == old(trace) + [IdFrame()]
      ensures r == 2 ==> (mem == Replaced(old(mem), EntryFor(None, Some(FileContent()), 12))
        && trace == old(trace) + [IdFrame()] + ReplaceFrames(EntryFor(None, Some(FileContent()), 12)))
    {
      var file := FileEntry(Zeros(NAME_LEN), 0, 0, Zeros(DATA_LEN));
      file := file.(filename := StrNCpy(DefaultName(), NAME_LEN - 1) + file.filename[NAME_LEN - 1..]);
      file := file.(size := |FileContent()|, timestamp := 0);
      file := file.(data := FileContent() + file.data[12..]);
      assert file == EntryFor(None, Some(FileContent()), 12);
      var ok := CheckId();
      if !ok {
        return 0;
      }
      ReplaceEntry(file);
      return 2;
    }

    /** Flash_LogLine_Ring5: prepend `line` (clamped to 256 bytes) to the kept old
        lines and store the result as "file.txt". */
    method LogLineRing5(line: Option<seq<byte>>, size: u32) returns (r: byte)
      requires line.Some? ==> Min(size, DATA_LEN) <= |line.value|
      modifies this
      ensures r == if IdOk(Id()) && line.Some? && size != 0 then 1 else 0
      ensures r == 0 ==> mem == old(mem) && trace == old(trace) + [IdFrame()]
      ensures r == 1 ==> (
        var e := LogEntry(Contents(old(mem), FILE_ADDRESS, ENTRY_LEN), line.value[..Min(size, DATA_LEN)]);
        && mem == Replaced(old(mem), e)
        && trace == old(trace) + [IdFrame()] + [ReadFrame(FILE_ADDRESS, ENTRY_LEN)] + [IdFrame()] + ReplaceFrames(e))
    {
      var ok := CheckId();
      if !ok {
        return 0;
      }
      if line.None? || size == 0 {
        return 0;
      }
      var n := size;
      if n > 256 {
        n := 256;
      }
      var buf := new byte[ENTRY_LEN](_ => 0);
      ghost var m0, t0 := mem, trace;
      ReadData(FILE_ADDRESS, buf, ENTRY_LEN);
      ghost var b := buf[..];
      assert b == buf[..ENTRY_LEN] == Contents(m0, FILE_ADDRESS, ENTRY_LEN);
      var feOld := Decode(buf[..]);
      var oldLen: nat := 0;
      if Valid(feOld) {
        oldLen := feOld.size;
        if oldLen > 256 {
          oldLen := 256;
        }
      }
      var starts, lens, nlines := SplitLines(feOld.data, oldLen);
      ghost var segs := Segments(feOld.data[..oldLen], LOG_RING_LINES);
      assert segs == OldSegments(PrevPayload(b)) by {
        if !Valid(feOld) {
          assert feOld.data[..0] == [];
        }
      }
      var out, outLen := AssembleOut(line.value, n, feOld.data, starts[..], lens[..], nlines, segs);
      ghost var p := RingPayload(line.value[..n], PrevPayload(b));
      assert out[..outLen] == p;
      assert out[..][..outLen] == p;
      LogEntryIs(b, line.value[..n], out[..], outLen);
      ghost var e := LogEntry(b, line.value[..n]);
      r := WriteFileEntry(Some(DefaultName()), Some(out[..]), outLen);
      assert n == Min(size, DATA_LEN);
    }

    /** The scan of the old payload (the first `oldLen` bytes of `src`): segment j is
        src[starts[j] .. starts[j] + lens[j]). */
    static method SplitLines(src: seq<byte>, oldLen: nat) returns (starts: array<u32>, lens: array<u32>, nlines: nat)
      requires oldLen <= |src| <= DATA_LEN
      ensures fresh(starts) && fresh(lens) && starts.Length == LOG_RING_LINES && lens.Length == LOG_RING_LINES
      ensures SegTable(src, starts[..], lens[..], nlines, Segments(src[..oldLen], LOG_RING_LINES))
    {
      starts := new u32[LOG_RING_LINES];
      lens := new u32[LOG_RING_LINES];
      if oldLen == 0 {
        assert Segments(src[..0], LOG_RING_LINES) == [];
        return starts, lens, 0;
      }
      var lineStart: u32;
      ghost var segs;
      nlines, lineStart, segs := ScanLines(src, oldLen, starts, lens);
      if lineStart < oldLen && nlines < LOG_RING_LINES {
        ScanFragment(src, oldLen, starts[..], lens[..], nlines, segs, lineStart);
        ghost var st, ln := starts[..], lens[..];
        var len: u32 := oldLen - lineStart;
        starts[nlines] := lineStart;
        lens[nlines] := len;
        assert starts[..] == st[nlines := lineStart] && lens[..] == ln[nlines := len];
        nlines := nlines + 1;
      } else {
        ScanNoFragment(src, oldLen, starts[..], lens[..], nlines, segs, lineStart);
      }
    }

    /** The for loop of the scan: a table entry for every '\n' until five are found. */
    static method ScanLines(src: seq<byte>, oldLen: nat, starts: array<u32>, lens: array<u32>)
      returns (nlines: nat, lineStart: u32, ghost segs: seq<seq<byte>>)
      requires 0 < oldLen <= |src| <= DATA_LEN
      requires starts.Length == LOG_RING_LINES && lens.Length == LOG_RING_LINES && starts != lens
      modifies starts, lens
      ensures lineStart <= oldLen && ScanInv(src, starts[..], lens[..], nlines, segs, lineStart, lineStart)
      ensures nlines < LOG_RING_LINES ==> NL !in src[..oldLen][lineStart..]
    {
      nlines, lineStart, segs := 0, 0, [];
      var i: u32 := 0;
      while i < oldLen && nlines < LOG_RING_LINES
        invariant lineStart <= i <= oldLen
        invariant ScanInv(src, starts[..], lens[..], nlines, segs, lineStart, i)
      {
        if src[i] == NL {
          ghost var st, ln := starts[..], lens[..];
          var len: u32 := i + 1 - lineStart;
          starts[nlines] := lineStart;
          lens[nlines] := len;
          assert starts[..] == st[nlines := lineStart] && lens[..] == ln[nlines := len];
          ScanNewline(src, st, ln, nlines, segs, lineStart, i);
          segs := segs + [src[lineStart..i + 1]];
          nlines := nlines + 1;
          lineStart := i + 1;
        } else {
          ScanOther(src, starts[..], lens[..], nlines, segs, lineStart, i);
        }
        i := i + 1;
      }
      if nlines < LOG_RING_LINES {
        assert src[..oldLen][lineStart..] == src[lineStart..i];
      }
      ScanRestart(src, starts[..], lens[..], nlines, segs, lineStart, i);
    }

    /** memcpy(&out[at], &src[st], len) */
    static method CopyInto(out: array<byte>, at: nat, src: seq<byte>, st: nat, len: nat)
      requires at + len <= out.Length && st + len <= |src|
      modifies out
      ensures out[..at + len] == old(out[..at]) + src[st..st + len]
    {
      ghost var o0 := out[..];
      forall k | at <= k < at + len {
        out[k] := src[st + (k - at)];
      }
      CopyBlock(o0, out[..], at, src, st, len, src[st..st + len]);
    }

    /** The output loop: the line, then old segments while they fit, at most four. */
    static method AssembleOut(line: seq<byte>, n: nat, src: seq<byte>, starts: seq<u32>, lens: seq<u32>,
                              nlines: nat, ghost segs: seq<seq<byte>>)
      returns (out: array<byte>, outLen: nat)
      requires 1 <= n <= |line| && n <= DATA_LEN && |src| <= DATA_LEN
      requires SegTable(src, starts, lens, nlines, segs)
      ensures fresh(out) && out.Length == OUT_CAP
      ensures outLen <= OUT_CAP && out[..outLen] == Compose(line[..n], segs)
    {
      out := new byte[OUT_CAP](_ => 0);
      CopyInto(out, 0, line, 0, n);
      var i;
      outLen, i := AppendOld(out, n, line[..n], src, starts, lens, nlines, segs);
      ComposeUnfold(line[..n], segs, i);
    }

    /** The for loop that appends old segments after the `used` bytes of the line. */
    static method AppendOld(out: array<byte>, used: nat, ghost line: seq<byte>, src: seq<byte>,
                            starts: seq<u32>, lens: seq<u32>, nlines: nat, ghost segs: seq<seq<byte>>)
      returns (outLen: nat, i: nat)
      requires out.Length == OUT_CAP && used == |line| <= OUT_CAP && out[..used] == line
      requires SegTable(src, starts, lens, nlines, segs)
      modifies out
      ensures outLen <= OUT_CAP && i == Kept(used, segs, LOG_RING_LINES - 1)
      ensures out[..outLen] == line + Concat(segs[..i])
    {
      outLen, i := used, 0;
      ghost var rest, k := segs, LOG_RING_LINES - 1;
      assert segs[..0] == [];
      while i < nlines && i < LOG_RING_LINES - 1
        invariant 0 <= i <= nlines && i <= LOG_RING_LINES - 1
        invariant outLen <= OUT_CAP
        invariant out[..outLen] == line + Concat(segs[..i])
        invariant rest == segs[i..] && k == LOG_RING_LINES - 1 - i
        invariant i + Kept(outLen, rest, k) == Kept(used, segs, LOG_RING_LINES - 1)
      {
        assert src[starts[i]..starts[i] as int + lens[i] as int] == segs[i];
        if outLen + lens[i] > OUT_CAP {
          KeptStops(outLen, segs, i, k);
          break;
        }
        ghost var pre := out[..outLen];
        CopyInto(out, outLen, src, starts[i], lens[i]);
        OutLoopStep(line, segs, i, outLen, lens[i], k, Kept(used, segs, LOG_RING_LINES - 1), pre, out[..outLen + lens[i]]);
        outLen := outLen + lens[i];
        i := i + 1;
        rest, k := rest[1..], k - 1;
      }
      if i == nlines {
        assert rest == [];
      }
      assert Kept(outLen, rest, k) == 0;
    }

    /** Flash_WriteTemperatureFile_Q4: store "Temperature: W.FFFF C\r\n" as the file. */
    method WriteTemperatureFileQ4(temp: TempFormat.i16) returns (r: byte)
      modifies this
      ensures r == if IdOk(Id()) then 1 else 0
      ensures r == 0 ==> mem == old(mem) && trace == old(trace) + [IdFrame()]
      ensures r == 1 ==> (mem == Replaced(old(mem), TempEntry(temp))
        && trace == old(trace) + [IdFrame()] + ReplaceFrames(TempEntry(temp)))
    {
      var text := TempFormat.TempText(temp);
      TempFormat.TempTextShape(temp);
      TempFormat.TextsHaveNoNul(temp, 0, 0, 0);
      var buf := text + [0];
      var len := |CStr(buf)|;
      EntryForPrefix(Some(DefaultName()), buf, text, len);
      r := WriteFileEntry(Some(DefaultName()), Some(buf), len);
    }

    /** Flash_LogTemperatureWithTime_Ring5_Q4: log "HH:MM:SS  Temperature: ..." as the
        newest ring-log line. */
    method LogTemperatureWithTimeRing5Q4(temp: TempFormat.i16, hh: TempFormat.u8, mm: TempFormat.u8,
                                         ss: TempFormat.u8) returns (r: byte)
      modifies this
      ensures r == if IdOk(Id()) then 1 else 0
      ensures r == 0 ==> mem == old(mem) && trace == old(trace) + [IdFrame()]
      ensures r == 1 ==> (
        TempFormat.TimedTextIsGoodLine(temp, hh, mm, ss);
        var e := LogEntry(Contents(old(mem), FILE_ADDRESS, ENTRY_LEN), TempFormat.TimedTempText(temp, hh, mm, ss));
        && mem == Replaced(old(mem), e)
        && trace == old(trace) + [IdFrame()] + [ReadFrame(FILE_ADDRESS, ENTRY_LEN)] + [IdFrame()] + ReplaceFrames(e))
    {
      var text := TempFormat.TimedTempText(temp, hh, mm, ss);
      TempFormat.TimedTextIsGoodLine(temp, hh, mm, ss);
      TempFormat.TextsHaveNoNul(temp, hh, mm, ss);
      var buf := text + [0];
      var len := |CStr(buf)|;
      assert buf[..len] == text;
      r := LogLineRing5(Some(buf), len);
    }

    /** Flash_WriteTemperatureWithTimeFile_Q4: the ring log under its older name. */
    method WriteTemperatureWithTimeFileQ4(temp: TempFormat.i16, hh: TempFormat.u8, mm: TempFormat.u8,
                                          ss: TempFormat.u8) returns (r: byte)
      modifies this
      ensures r == if IdOk(Id()) then 1 else 0
      ensures r == 0 ==> mem == old(mem) && trace == old(trace) + [IdFrame()]
      ensures r == 1 ==> (
        TempFormat.TimedTextIsGoodLine(temp, hh, mm, ss);
        var e := LogEntry(Contents(old(mem), FILE_ADDRESS, ENTRY_LEN), TempFormat.TimedTempText(temp, hh, mm, ss));
        && mem == Replaced(old(mem), e)
        && trace == old(trace) + [IdFrame()] + [ReadFrame(FILE_ADDRESS, ENTRY_LEN)] + [IdFrame()] + ReplaceFrames(e))
    {
      r := LogTemperatureWithTimeRing5Q4(temp, hh, mm, ss);
    }
  }
}
