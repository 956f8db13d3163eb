/** The one persisted record: `FileEntry` at FILE_ADDRESS of the external NOR flash,
    its byte layout (filename[32], size, timestamp, data[256] = 296 bytes, little-endian
    words) and the sentinel-byte validity heuristic shared by the loader and the ring log. */
module FileEntryLayout {
  import opened Bytes
  import opened Text

  const NAME_LEN: nat := 32
  const DATA_LEN: nat := 256
  const ENTRY_LEN: nat := 296
  const FILE_ADDRESS: nat := 0

  /** FILE_NAME, the default name of the single file. */
  function DefaultName(): (r: seq<byte>)
    ensures |r| == 8 && r == Ascii("file.txt")
    ensures forall i :: 0 <= i < |r| ==> r[i] != 0 && r[i] != 0xFF
  {
    Ascii("file.txt")
  }

  datatype FileEntry = FileEntry(filename: seq<byte>, size: u32, timestamp: u32, data: seq<byte>)
  {
    /** The fixed array sizes of the C struct. */
    predicate WellFormed()
    {
      |filename| == NAME_LEN && |data| == DATA_LEN
    }
  }

  /** The struct's bytes as it sits in RAM and on flash. */
  function Encode(e: FileEntry): (r: seq<byte>)
    requires e.WellFormed()
    ensures |r| == ENTRY_LEN
    ensures r[..32] == e.filename && r[40..] == e.data
  {
    e.filename + Le32(e.size) + Le32(e.timestamp) + e.data
  }

  /** Reading the struct back from its 296 bytes. */
  function Decode(b: seq<byte>): (e: FileEntry)
    requires |b| == ENTRY_LEN
    ensures e.WellFormed()
    ensures e.filename == b[..32] && e.data == b[40..]
  {
    Le32OfDecode(b[32..36]);
    Le32OfDecode(b[36..40]);
    FileEntry(b[..32], DecodeLe(b[32..36]), DecodeLe(b[36..40]), b[40..])
  }

  lemma DecodeEncode(e: FileEntry)
    requires e.WellFormed()
    ensures Decode(Encode(e)) == e
  {
    var b := Encode(e);
    assert b[32..36] == Le32(e.size);
    assert b[36..40] == Le32(e.timestamp);
    Le32RoundTrip(e.size);
    Le32RoundTrip(e.timestamp);
  }

  lemma EncodeDecode(b: seq<byte>)
    requires |b| == ENTRY_LEN
    ensures Encode(Decode(b)) == b
  {
    Le32OfDecode(b[32..36]);
    Le32OfDecode(b[36..40]);
    assert b == b[..32] + b[32..36] + b[36..40] + b[40..];
  }

  /** fileentry_valid / fileentry_valid_local: the sentinel heuristic, in the
      order the C code tests it. */
  predicate Valid(e: FileEntry)
    requires e.WellFormed()
  {
    if e.size == 0 || e.size > DATA_LEN || e.size == 0xFFFF_FFFF then false
    else if e.filename[0] == 0xFF || e.filename[0] == 0 then false
    else if e.data[0] == 0xFF then false
    else true
  }

  /** Each rejection reason on its own makes an entry invalid, and nothing else does. */
  lemma ValidIff(e: FileEntry)
    requires e.WellFormed()
    ensures Valid(e) <==>
      (0 < e.size <= 256 && e.filename[0] !in {0, 0xFF} && e.data[0] != 0xFF)
  {
  }

  /** An erased slot (all 0xFF) and an all-zero slot are never read as a file. */
  lemma BlankSlotsInvalid()
    ensures !Valid(Decode(Repeat(0xFF, ENTRY_LEN)))
    ensures !Valid(Decode(Zeros(ENTRY_LEN)))
  {
    var ff := Repeat(0xFF, ENTRY_LEN);
    assert Decode(ff).filename[0] == 0xFF;
    var zz := Zeros(ENTRY_LEN);
    assert Decode(zz).filename[0] == 0;
  }
}
