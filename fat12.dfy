/** The read-only FAT12 volume of Middleware/USB/App/src/msc_mem.c as pure sector images:
    a 64-sector disk of 512-byte sectors with one boot sector, two one-sector FATs, a
    one-sector root directory and the single file in cluster 2 (LBA 4). The layout
    follows the Microsoft FAT specification (fatgen103): the BPB at the head of the boot
    sector, 12-bit FAT entries at byte offset N + N/2, and 32-byte directory entries
    with an 8.3 short name, an attribute, a first cluster and a file size. */
module Fat12 {
  import opened Bytes
  import opened Text
  import FileEntryLayout

  const SECTOR_SIZE: nat := 512
  const VOL_SECTORS: nat := 64

  const LBA_BOOT: nat := 0
  const LBA_FAT1: nat := 1
  const LBA_FAT2: nat := 2
  const LBA_ROOT: nat := 3
  const LBA_DATA: nat := 4

  const ATTR_VOLUME_ID: byte := 0x08
  const ATTR_ARCHIVE: byte := 0x20
  const SPACE: byte := 0x20
  const DOT: byte := 0x2E

  /** The 11 bytes memcpy'd from the 12-character literal "FM33FLASH   ". */
  const VOLUME_LABEL: seq<byte> := Ascii("FM33FLASH   ")[..11]
  const OEM_NAME: seq<byte> := Ascii("MSDOS5.0")
  const FS_TYPE: seq<byte> := Ascii("FAT12   ")
  const VOLUME_ID: u32 := 0x2025_1217

  /** What the volume is rendered from: the cached file (g_file_name[32],
      g_file_buf[256], g_file_len). */
  datatype Snapshot = Snapshot(name: seq<byte>, data: seq<byte>, len: nat)
  {
    /** The array sizes of the globals, the length within the buffer, and the name
        NUL-terminated within its 32 bytes (strncpy of at most 31 characters). */
    predicate Ok()
    {
      |name| == 32 && |data| == 256 && len <= 256 && name[31] == 0
    }
  }

  // ---------------------------------------------------------------------------
  // 8.3 short names.

  function UpperAll(s: seq<byte>): (r: seq<byte>)
    ensures |r| == |s| && forall i :: 0 <= i < |s| ==> r[i] == Upper(s[i])
  {
    seq(|s|, i requires 0 <= i < |s| => Upper(s[i]))
  }

  /** make_83_name: the C string `s` as an 11-byte space-padded short name; the part
      before the first '.' (at most 8 characters) and the part after it (at most 3),
      both upper-cased. */
  function Name83(s: seq<byte>): (r: seq<byte>)
    ensures |r| == 11
  {
    var c := CStr(s);
    var d := IndexOf(c, DOT);
    var base := c[..Min(d, 8)];
    var ext := if d < |c| then c[d + 1..][..Min(|c| - d - 1, 3)] else [];
    Put(Put(Repeat(SPACE, 11), 0, UpperAll(base)), 8, UpperAll(ext))
  }

  /** Byte by byte: the name positions hold the upper-cased characters before the
      first '.', the extension positions those after it, and every other position is
      a space. */
  lemma Name83Spec(s: seq<byte>)
    ensures var c := CStr(s);
      var d := IndexOf(c, DOT);
      var r := Name83(s);
      && (forall j :: 0 <= j < d ==> c[j] != DOT)
      && (d < |c| ==> c[d] == DOT)
      && (forall i :: 0 <= i < 8 ==> r[i] == if i < d then Upper(c[i]) else SPACE)
      && (forall i :: 8 <= i < 11 ==>
            r[i] == if d < |c| && d + i - 7 < |c| then Upper(c[d + i - 7]) else SPACE)
  {
    IndexOfSpec(CStr(s), DOT);
    Name83Base(s);
    Name83Ext(s);
  }

  lemma Name83Base(s: seq<byte>)
    ensures var c := CStr(s);
      var d := IndexOf(c, DOT);
      forall i :: 0 <= i < 8 ==> Name83(s)[i] == if i < d then Upper(c[i]) else SPACE
  {
    var c := CStr(s);
    var d := IndexOf(c, DOT);
    var base := c[..Min(d, 8)];
    var ext := if d < |c| then c[d + 1..][..Min(|c| - d - 1, 3)] else [];
    var q := Put(Repeat(SPACE, 11), 0, UpperAll(base));
    var r := Put(q, 8, UpperAll(ext));
    assert Name83(s) == r;
    forall i | 0 <= i < 8
      ensures r[i] == if i < d then Upper(c[i]) else SPACE
    {
      assert r[i] == q[i];
      if i < d {
        assert base[i] == c[i];
      }
    }
  }

  lemma Name83Ext(s: seq<byte>)
    ensures var c := CStr(s);
      var d := IndexOf(c, DOT);
      forall i :: 8 <= i < 11 ==>
        Name83(s)[i] == if d < |c| && d + i - 7 < |c| then Upper(c[d + i - 7]) else SPACE
  {
    forall i | 8 <= i < 11
      ensures var c := CStr(s);
        var d := IndexOf(c, DOT);
        Name83(s)[i] == if d < |c| && d + i - 7 < |c| then Upper(c[d + i - 7]) else SPACE
    {
      Name83ExtAt(s, i);
    }
  }

  lemma Name83ExtAt(s: seq<byte>, i: nat)
    requires 8 <= i < 11
    ensures var c := CStr(s);
      var d := IndexOf(c, DOT);
      Name83(s)[i] == if d < |c| && d + i - 7 < |c| then Upper(c[d + i - 7]) else SPACE
  {
    var c := CStr(s);
    var d := IndexOf(c, DOT);
    var base := c[..Min(d, 8)];
    var ext := if d < |c| then c[d + 1..][..Min(|c| - d - 1, 3)] else [];
    var q := Put(Repeat(SPACE, 11), 0, UpperAll(base));
    assert Name83(s) == Put(q, 8, UpperAll(ext));
    assert q[i] == SPACE;
    ExtAt(c, d, ext, i);
  }

  /** Extension position i holds the character i - 7 past the dot, if there is one. */
  lemma ExtAt(c: seq<byte>, d: nat, ext: seq<byte>, i: nat)
    requires 8 <= i < 11 && d <= |c|
    requires ext == if d < |c| then c[d + 1..][..Min(|c| - d - 1, 3)] else []
    ensures (8 <= i < 8 + |ext|) == (d < |c| && d + i - 7 < |c|)
    ensures 8 <= i < 8 + |ext| ==> ext[i - 8] == c[d + i - 7]
  {
  }

  /** FILE_NAME "file.txt" becomes "FILE    TXT". */
  lemma Name83Default()
    ensures Name83(FileEntryLayout.DefaultName() + [0]) == Ascii("FILE    TXT")
  {
    var s := FileEntryLayout.DefaultName() + [0];
    CStrTerminated(FileEntryLayout.DefaultName());
    var c := CStr(s);
    assert c == Ascii("file.txt");
    IndexOfUnique(c, DOT, 4);
    assert c[..4] == Ascii("file");
    assert c[5..][..3] == Ascii("txt");
  }

  // ---------------------------------------------------------------------------
  // The boot sector.

  /** Jump instruction and OEM name (bytes 0..10). */
  function BootJump(s: seq<byte>): (r: seq<byte>)
    requires |s| == SECTOR_SIZE
    ensures |r| == SECTOR_SIZE
  {
    Put(s[0 := 0xEB][1 := 0x3C][2 := 0x90], 3, OEM_NAME)
  }

  /** The BIOS parameter block (bytes 11..35). */
  function BootBpb(s: seq<byte>): (r: seq<byte>)
    requires |s| == SECTOR_SIZE
    ensures |r| == SECTOR_SIZE
  {
    var a := Put(s, 11, Le16(SECTOR_SIZE))[13 := 1];
    var b := Put(a, 14, Le16(1))[16 := 2];
    var c := Put(Put(b, 17, Le16(16)), 19, Le16(VOL_SECTORS))[21 := 0xF8];
    var d := Put(Put(Put(c, 22, Le16(1)), 24, Le16(63)), 26, Le16(255));
    Put(Put(d, 28, Le32(0)), 32, Le32(0))
  }

  /** The extended boot record and the signature (bytes 36..61, 510, 511). */
  function BootExt(s: seq<byte>): (r: seq<byte>)
    requires |s| == SECTOR_SIZE
    ensures |r| == SECTOR_SIZE
  {
    var a := s[36 := 0x80][38 := 0x29];
    var b := Put(Put(Put(a, 39, Le32(VOLUME_ID)), 43, VOLUME_LABEL), 54, FS_TYPE);
    b[510 := 0x55][511 := 0xAA]
  }

  /** build_boot_sector */
  function BootSector(): (r: seq<byte>)
    ensures |r| == SECTOR_SIZE
  {
    BootExt(BootBpb(BootJump(Zeros(SECTOR_SIZE))))
  }

  lemma JumpSpec(z: seq<byte>)
    requires |z| == SECTOR_SIZE
    ensures var j := BootJump(z);
      && j[0] == 0xEB && j[1] == 0x3C && j[2] == 0x90 && j[3..11] == OEM_NAME
      && forall i :: 11 <= i < SECTOR_SIZE ==> j[i] == z[i]
  {
    var j := BootJump(z);
    assert j[3..11] == OEM_NAME;
  }

  lemma BpbSpec(j: seq<byte>)
    requires |j| == SECTOR_SIZE
    ensures var p := BootBpb(j);
      && p[11..13] == Le16(SECTOR_SIZE) && p[13] == 1 && p[14..16] == Le16(1)
      && p[16] == 2 && p[17..19] == Le16(16) && p[19..21] == Le16(VOL_SECTORS)
      && p[21] == 0xF8 && p[22..24] == Le16(1)
      && p[24..26] == Le16(63) && p[26..28] == Le16(255)
      && p[28..32] == Le32(0) && p[32..36] == Le32(0)
      && forall i :: 0 <= i < SECTOR_SIZE && !(11 <= i < 36) ==> p[i] == j[i]
  {
    var p := BootBpb(j);
    assert p[11] == 0 && p[12] == 2;
    assert p[11..13] == Le16(SECTOR_SIZE);
    assert p[14] == 1 && p[15] == 0;
    assert p[14..16] == Le16(1);
    assert p[17] == 16 && p[18] == 0;
    assert p[17..19] == Le16(16);
    assert p[19] == VOL_SECTORS % 256 && p[20] == VOL_SECTORS / 256;
    assert p[19..21] == Le16(VOL_SECTORS);
    assert p[22..24] == Le16(1);
    assert p[24..26] == Le16(63);
    assert p[26..28] == Le16(255);
    assert p[28..32] == Le32(0);
    assert p[32..36] == Le32(0);
  }

  lemma ExtSpec(p: seq<byte>)
    requires |p| == SECTOR_SIZE
    ensures var s := BootExt(p);
      && s[36] == 0x80 && s[38] == 0x29 && s[39..43] == Le32(VOLUME_ID)
      && s[43..54] == VOLUME_LABEL && s[54..62] == FS_TYPE
      && s[510] == 0x55 && s[511] == 0xAA
      && forall i :: (0 <= i < 510 && !(36 <= i < 62)) || i == 37 ==> s[i] == p[i]
  {
    var s := BootExt(p);
    assert s[39..43] == Le32(VOLUME_ID);
    assert s[43..54] == VOLUME_LABEL;
    assert s[54..62] == FS_TYPE;
  }

  /** The boot sector opens with the x86 jump EB 3C 90 and the OEM name. */
  lemma BootJumpFields()
    ensures var s := BootSector();
      s[0] == 0xEB && s[1] == 0x3C && s[2] == 0x90 && s[3..11] == OEM_NAME
  {
    var z := Zeros(SECTOR_SIZE);
    var j := BootJump(z);
    var p := BootBpb(j);
    var s := BootExt(p);
    JumpSpec(z);
    BpbSpec(j);
    ExtSpec(p);
    assert s[3..11] == p[3..11] == j[3..11];
  }

  /** The BIOS parameter block as a FAT driver decodes it: 512 bytes per sector, one
      sector per cluster, one reserved sector, two FATs, 16 root entries, 64 sectors,
      media 0xF8, one sector per FAT, 63 sectors per track, 255 heads, no hidden
      sectors and no 32-bit sector count. */
  lemma BootBpbFields()
    ensures var s := BootSector();
      && DecodeLe(s[11..13]) == 512 && s[13] == 1 && DecodeLe(s[14..16]) == 1
      && s[16] == 2 && DecodeLe(s[17..19]) == 16 && DecodeLe(s[19..21]) == 64
      && s[21] == 0xF8 && DecodeLe(s[22..24]) == 1
      && DecodeLe(s[24..26]) == 63 && DecodeLe(s[26..28]) == 255
      && DecodeLe(s[28..32]) == 0 && DecodeLe(s[32..36]) == 0
  {
    var j := BootJump(Zeros(SECTOR_SIZE));
    var p := BootBpb(j);
    var s := BootExt(p);
    BpbSpec(j);
    ExtSpec(p);
    assert s[11..36] == p[11..36];
    BootBpbDecoded(s, p);
  }

  /** The extended boot record: drive 0x80, signature 0x29, the volume id, the label
      and the file-system type, and the 0x55 0xAA sector signature. */
  lemma BootExtFields()
    ensures var s := BootSector();
      && s[36] == 0x80 && s[38] == 0x29 && DecodeLe(s[39..43]) == VOLUME_ID
      && s[43..54] == VOLUME_LABEL && s[54..62] == FS_TYPE
      && s[510] == 0x55 && s[511] == 0xAA
  {
    ExtSpec(BootBpb(BootJump(Zeros(SECTOR_SIZE))));
    Le32RoundTrip(VOLUME_ID);
  }

  lemma BootBpbDecoded(s: seq<byte>, p: seq<byte>)
    requires |s| == |p| == SECTOR_SIZE && s[11..36] == p[11..36]
    requires p[11..13] == Le16(SECTOR_SIZE) && p[14..16] == Le16(1)
    requires p[17..19] == Le16(16) && p[19..21] == Le16(VOL_SECTORS) && p[22..24] == Le16(1)
    requires p[24..26] == Le16(63) && p[26..28] == Le16(255)
    requires p[28..32] == Le32(0) && p[32..36] == Le32(0)
    ensures DecodeLe(s[11..13]) == 512 && DecodeLe(s[14..16]) == 1
    ensures DecodeLe(s[17..19]) == 16 && DecodeLe(s[19..21]) == 64 && DecodeLe(s[22..24]) == 1
    ensures DecodeLe(s[24..26]) == 63 && DecodeLe(s[26..28]) == 255
    ensures DecodeLe(s[28..32]) == 0 && DecodeLe(s[32..36]) == 0
  {
    assert forall i :: 11 <= i < 36 ==> s[i] == s[11..36][i - 11] == p[i];
    assert s[11..13] == p[11..13] && s[14..16] == p[14..16];
    assert s[17..19] == p[17..19] && s[19..21] == p[19..21] && s[22..24] == p[22..24];
    assert s[24..26] == p[24..26] && s[26..28] == p[26..28];
    assert s[28..32] == p[28..32] && s[32..36] == p[32..36];
    Le16RoundTrip(SECTOR_SIZE);
    Le16RoundTrip(1);
    Le16RoundTrip(16);
    Le16RoundTrip(VOL_SECTORS);
    Le16RoundTrip(63);
    Le16RoundTrip(255);
    Le32RoundTrip(0);
  }

  /** Every byte the builder does not set explicitly is zero. */
  lemma BootSectorZeros()
    ensures var s := BootSector();
      s[37] == 0 && forall i :: 62 <= i < 510 ==> s[i] == 0
  {
    var z := Zeros(SECTOR_SIZE);
    JumpSpec(z);
    BpbSpec(BootJump(z));
    ExtSpec(BootBpb(BootJump(z)));
  }

  // ---------------------------------------------------------------------------
  // The FAT.

  /** build_fat_sector: media descriptor in entry 0, an end-of-chain mark in entry 1
      and in entry 2 (the file's only cluster); every other entry free. */
  function FatSector(): (r: seq<byte>)
    ensures |r| == SECTOR_SIZE
  {
    Zeros(SECTOR_SIZE)[0 := 0xF8][1 := 0xFF][2 := 0xFF][3 := 0xFF][4 := 0x0F][5 := 0]
  }

  /** The 12-bit FAT entry of cluster n: two bytes at offset n + n/2, the low twelve
      bits for an even n and the high twelve bits for an odd n. */
  function FatEntry(fat: seq<byte>, n: nat): (v: nat)
    requires n + n / 2 + 1 < |fat|
    ensures v < 0x1000
  {
    var o := n + n / 2;
    var w := fat[o] as int + 256 * fat[o + 1] as int;
    if n % 2 == 0 then w % 0x1000 else w / 16
  }

  /** The FAT bytes start F8 FF FF FF 0F 00, the rest is zero, and the chain of the
      file is the single cluster 2; cluster 3 and every later cluster are free. */
  lemma FatSectorSpec()
    ensures var f := FatSector();
      && f[..6] == [0xF8, 0xFF, 0xFF, 0xFF, 0x0F, 0x00]
      && (forall i :: 6 <= i < SECTOR_SIZE ==> f[i] == 0)
      && FatEntry(f, 0) == 0xFF8 && FatEntry(f, 1) == 0xFFF
      && FatEntry(f, 2) == 0xFFF && FatEntry(f, 3) == 0
      && (forall n :: 3 <= n <= 340 ==> FatEntry(f, n) == 0)
  {
    var f := FatSector();
    forall n | 3 <= n <= 340
      ensures FatEntry(f, n) == 0
    {
      var o := n + n / 2;
      assert o >= 4;
      if o == 4 {
        assert n == 3 && f[4] == 0x0F && f[5] == 0;
      } else {
        assert f[o] == 0 && f[o + 1] == 0;
      }
    }
  }

  // ---------------------------------------------------------------------------
  // The root directory and the data cluster.

  /** The name shown for the file: g_file_name when it is non-empty, else FILE_NAME. */
  function ShownName(name: seq<byte>): (r: seq<byte>)
    requires |name| >= 1
  {
    if name[0] != 0 then name else FileEntryLayout.DefaultName() + [0]
  }

  /** build_root_dir_sector: entry 0 is the volume label, entry 1 the file. */
  function RootDirSector(name: seq<byte>, len: u32): (r: seq<byte>)
    requires |name| >= 1
    ensures |r| == SECTOR_SIZE
  {
    var a := Put(Zeros(SECTOR_SIZE), 0, VOLUME_LABEL)[11 := ATTR_VOLUME_ID];
    var b := Put(a, 32, Name83(ShownName(name)))[32 + 11 := ATTR_ARCHIVE];
    Put(Put(b, 32 + 26, Le16(2)), 32 + 28, Le32(len))
  }

  /** The two directory entries as a FAT driver reads them, and zeros elsewhere. */
  lemma RootDirSpec(name: seq<byte>, len: u32)
    requires |name| >= 1
    ensures var s := RootDirSector(name, len);
      && s[..11] == VOLUME_LABEL && s[11] == ATTR_VOLUME_ID
      && s[32..43] == Name83(ShownName(name)) && s[43] == ATTR_ARCHIVE
      && DecodeLe(s[58..60]) == 2 && DecodeLe(s[60..64]) == len
      && (forall i :: 12 <= i < 32 ==> s[i] == 0)
      && (forall i :: 44 <= i < 58 ==> s[i] == 0)
      && (forall i :: 64 <= i < SECTOR_SIZE ==> s[i] == 0)
  {
    var s := RootDirSector(name, len);
    assert s[..11] == VOLUME_LABEL;
    assert s[32..43] == Name83(ShownName(name));
    assert s[58..60] == Le16(2);
    assert s[60..64] == Le32(len);
    Le16RoundTrip(2);
    Le32RoundTrip(len);
  }

  /** build_data_sector_cluster2: the first min(len, 512) bytes of the file. */
  function DataSector(data: seq<byte>, len: nat): (r: seq<byte>)
    requires Min(len, SECTOR_SIZE) <= |data|
    ensures |r| == SECTOR_SIZE
  {
    if len > 0 then Put(Zeros(SECTOR_SIZE), 0, data[..Min(len, SECTOR_SIZE)]) else Zeros(SECTOR_SIZE)
  }

  lemma DataSectorSpec(data: seq<byte>, len: nat)
    requires Min(len, SECTOR_SIZE) <= |data|
    ensures var s := DataSector(data, len);
      forall i :: 0 <= i < SECTOR_SIZE ==> s[i] == if i < Min(len, SECTOR_SIZE) then data[i] else 0
  {
  }

  // ---------------------------------------------------------------------------
  // The whole volume.

  /** build_sector: the image of logical block `lba`. */
  function Sector(lba: nat, snap: Snapshot): (r: seq<byte>)
    requires snap.Ok()
    ensures |r| == SECTOR_SIZE
  {
    if lba == LBA_BOOT then BootSector()
    else if lba == LBA_FAT1 || lba == LBA_FAT2 then FatSector()
    else if lba == LBA_ROOT then RootDirSector(snap.name, snap.len)
    else if lba == LBA_DATA then DataSector(snap.data, snap.len)
    else Zeros(SECTOR_SIZE)
  }

  /** The two FAT copies agree, and every block past the data sector reads as zeros;
      the boot, FAT and padding blocks do not depend on the snapshot. */
  lemma SectorLayout(lba: nat, snap: Snapshot, other: Snapshot)
    requires snap.Ok() && other.Ok()
    ensures Sector(LBA_FAT1, snap) == Sector(LBA_FAT2, snap) == FatSector()
    ensures Sector(LBA_BOOT, snap) == BootSector()
    ensures lba > LBA_DATA ==> Sector(lba, snap) == Zeros(SECTOR_SIZE)
    ensures lba !in {LBA_ROOT, LBA_DATA} ==> Sector(lba, snap) == Sector(lba, other)
  {
  }

  /** `n` consecutive blocks from `lba`, the block number wrapping at 2^32 as the
      uint32 sum `blk_addr + i` does. */
  function Blocks(lba: nat, n: nat, snap: Snapshot): (r: seq<byte>)
    requires snap.Ok()
    ensures |r| == n * SECTOR_SIZE
  {
    if n == 0 then [] else Blocks(lba, n - 1, snap) + Sector((lba + n - 1) % U32_MOD, snap)
  }

  /** Block i of a run of blocks. */
  function Block(s: seq<byte>, i: nat): (r: seq<byte>)
    requires (i + 1) * SECTOR_SIZE <= |s|
    ensures |r| == SECTOR_SIZE
  {
    s[i * SECTOR_SIZE..(i + 1) * SECTOR_SIZE]
  }

  /** Block i of the transfer is the image of block lba + i. */
  lemma {:induction false} BlocksAt(lba: nat, n: nat, snap: Snapshot, i: nat)
    requires snap.Ok() && i < n
    ensures (i + 1) * SECTOR_SIZE <= |Blocks(lba, n, snap)|
    ensures Block(Blocks(lba, n, snap), i) == Sector((lba + i) % U32_MOD, snap)
  {
    SectorsFit(i, n);
    if i < n - 1 {
      BlocksKeep(lba, n, snap, i);
      BlocksAt(lba, n - 1, snap, i);
    } else {
      BlocksLast(lba, n, snap);
    }
  }

  lemma SectorsFit(i: nat, n: nat)
    requires i < n
    ensures (i + 1) * SECTOR_SIZE <= n * SECTOR_SIZE
  {
    assert (i + 1) * 512 <= n * 512;
  }

  /** Appending a block leaves the earlier ones in place ... */
  lemma BlocksKeep(lba: nat, n: nat, snap: Snapshot, i: nat)
    requires snap.Ok() && i < n - 1
    ensures (i + 1) * SECTOR_SIZE <= |Blocks(lba, n - 1, snap)|
    ensures Block(Blocks(lba, n, snap), i) == Block(Blocks(lba, n - 1, snap), i)
  {
    var front := Blocks(lba, n - 1, snap);
    var last := Sector((lba + n - 1) % U32_MOD, snap);
    assert Blocks(lba, n, snap) == front + last;
    BlockSlice(front, last, n - 1, i);
  }

  /** ... and the appended block is the last one. */
  lemma BlocksLast(lba: nat, n: nat, snap: Snapshot)
    requires snap.Ok() && n > 0
    ensures Block(Blocks(lba, n, snap), n - 1) == Sector((lba + n - 1) % U32_MOD, snap)
  {
    var front := Blocks(lba, n - 1, snap);
    var last := Sector((lba + n - 1) % U32_MOD, snap);
    assert Blocks(lba, n, snap) == front + last;
    BlockSlice(front, last, n - 1, n - 1);
  }

  /** Slicing block i out of k blocks followed by one more. */
  lemma BlockSlice(front: seq<byte>, last: seq<byte>, k: nat, i: nat)
    requires |front| == k * SECTOR_SIZE && |last| == SECTOR_SIZE && i <= k
    ensures (i + 1) * SECTOR_SIZE <= |front + last|
    ensures i < k ==> (i + 1) * SECTOR_SIZE <= |front| && Block(front + last, i) == Block(front, i)
    ensures i == k ==> Block(front + last, i) == last
  {
    var lo, hi := i * 512, (i + 1) * 512;
    assert hi <= |front| + 512;
    if i < k {
      assert hi <= |front|;
      assert forall j :: lo <= j < hi ==> (front + last)[j] == front[j];
    } else {
      assert lo == |front| && hi == |front| + |last|;
    }
  }
}
