/** The Palm database container: the 78-byte header and the 8-byte record
    information entries that follow it, and the rule that derives a record's
    size from the offsets. */
module Pdb {
  import opened Common
  import opened Buffer

  const PALMDB_HEADER_LEN: nat := 78
  const PALMDB_NAME_SIZE_MAX: nat := 32
  const PALMDB_RECORD_INFO_SIZE: nat := 8

  /** `MOBIPdbHeader`. The three strings hold the bytes read, without the
      terminating NUL that the library appends. */
  datatype PdbHeader = PdbHeader(
    name: seq<u8>,
    attributes: u16,
    version: u16,
    ctime: u32,
    mtime: u32,
    btime: u32,
    modNum: u32,
    appinfoOffset: u32,
    sortinfoOffset: u32,
    dbType: seq<u8>,
    creator: seq<u8>,
    uid: u32,
    nextRec: u32,
    recCount: u16)
  {
    predicate WellFormed()
    {
      |name| == PALMDB_NAME_SIZE_MAX && |dbType| == 4 && |creator| == 4
    }
  }

  /** The header fields at their positions in the first 78 bytes of the file. */
  function DecodePdbHeader(b: seq<u8>): (h: PdbHeader)
    requires |b| == PALMDB_HEADER_LEN
    ensures h.WellFormed()
  {
    PdbHeader(
      b[0..32], BE16(b[32..34]), BE16(b[34..36]),
      BE32(b[36..40]), BE32(b[40..44]), BE32(b[44..48]), BE32(b[48..52]),
      BE32(b[52..56]), BE32(b[56..60]),
      b[60..64], b[64..68],
      BE32(b[68..72]), BE32(b[72..76]), BE16(b[76..78]))
  }

  /** The bytes a writer puts in the header. */
  function EncodePdbHeader(h: PdbHeader): (b: seq<u8>)
    requires h.WellFormed()
    ensures |b| == PALMDB_HEADER_LEN
  {
    h.name + BytesBE16(h.attributes) + BytesBE16(h.version)
    + BytesBE32(h.ctime) + BytesBE32(h.mtime) + BytesBE32(h.btime) + BytesBE32(h.modNum)
    + BytesBE32(h.appinfoOffset) + BytesBE32(h.sortinfoOffset)
    + h.dbType + h.creator
    + BytesBE32(h.uid) + BytesBE32(h.nextRec) + BytesBE16(h.recCount)
  }

  lemma PdbHeaderRoundTrip(h: PdbHeader)
    requires h.WellFormed()
    ensures DecodePdbHeader(EncodePdbHeader(h)) == h
  {
    var b := EncodePdbHeader(h);
    var p2 := h.name + BytesBE16(h.attributes);
    var p3 := p2 + BytesBE16(h.version);
    var p4 := p3 + BytesBE32(h.ctime);
    var p5 := p4 + BytesBE32(h.mtime);
    var p6 := p5 + BytesBE32(h.btime);
    var p7 := p6 + BytesBE32(h.modNum);
    var p8 := p7 + BytesBE32(h.appinfoOffset);
    var p9 := p8 + BytesBE32(h.sortinfoOffset);
    var p10 := p9 + h.dbType;
    var p11 := p10 + h.creator;
    var p12 := p11 + BytesBE32(h.uid);
    var p13 := p12 + BytesBE32(h.nextRec);
    assert b[0..|b|] == p13 + BytesBE16(h.recCount);
    // Peel the fields off from the end, each time keeping the prefix.
    SplitSlice(b, 0, p13, BytesBE16(h.recCount));
    SplitSlice(b, 0, p12, BytesBE32(h.nextRec));
    SplitSlice(b, 0, p11, BytesBE32(h.uid));
    SplitSlice(b, 0, p10, h.creator);
    SplitSlice(b, 0, p9, h.dbType);
    SplitSlice(b, 0, p8, BytesBE32(h.sortinfoOffset));
    SplitSlice(b, 0, p7, BytesBE32(h.appinfoOffset));
    SplitSlice(b, 0, p6, BytesBE32(h.modNum));
    SplitSlice(b, 0, p5, BytesBE32(h.btime));
    SplitSlice(b, 0, p4, BytesBE32(h.mtime));
    SplitSlice(b, 0, p3, BytesBE32(h.ctime));
    SplitSlice(b, 0, p2, BytesBE16(h.version));
    SplitSlice(b, 0, h.name, BytesBE16(h.attributes));
    BE16RoundTrip(h.attributes);
    BE16RoundTrip(h.version);
    BE32RoundTrip(h.ctime);
    BE32RoundTrip(h.mtime);
    BE32RoundTrip(h.btime);
    BE32RoundTrip(h.modNum);
    BE32RoundTrip(h.appinfoOffset);
    BE32RoundTrip(h.sortinfoOffset);
    BE32RoundTrip(h.uid);
    BE32RoundTrip(h.nextRec);
    BE16RoundTrip(h.recCount);
  }

  lemma PdbHeaderEncodes(b: seq<u8>)
    requires |b| == PALMDB_HEADER_LEN
    ensures EncodePdbHeader(DecodePdbHeader(b)) == b
  {
    BE16Encodes(b[32..34]);
    BE16Encodes(b[34..36]);
    BE32Encodes(b[36..40]);
    BE32Encodes(b[40..44]);
    BE32Encodes(b[44..48]);
    BE32Encodes(b[48..52]);
    BE32Encodes(b[52..56]);
    BE32Encodes(b[56..60]);
    BE32Encodes(b[68..72]);
    BE32Encodes(b[72..76]);
    BE16Encodes(b[76..78]);
    assert b == b[0..32] + b[32..34] + b[34..36] + b[36..40] + b[40..44] + b[44..48]
      + b[48..52] + b[52..56] + b[56..60] + b[60..64] + b[64..68] + b[68..72]
      + b[72..76] + b[76..78];
  }

  /** One record information entry: offset, attributes and a 24-bit uid. */
  datatype RecordInfo = RecordInfo(offset: u32, attributes: u8, uid: nat)

  /** The uid `(uint32_t)h << 16 | l` of the high byte h and the low word l. */
  function Uid24(h: u8, l: u16): (uid: nat)
    ensures uid < 0x100_0000
    ensures uid / 0x1_0000 == h && uid % 0x1_0000 == l
  {
    h * 0x1_0000 + l
  }

  function DecodeRecordInfo(b: seq<u8>): (r: RecordInfo)
    requires |b| == PALMDB_RECORD_INFO_SIZE
    ensures r.uid < 0x100_0000
  {
    RecordInfo(BE32(b[0..4]), b[4], Uid24(b[5], BE16(b[6..8])))
  }

  function EncodeRecordInfo(r: RecordInfo): (b: seq<u8>)
    requires r.uid < 0x100_0000
    ensures |b| == PALMDB_RECORD_INFO_SIZE
  {
    BytesBE32(r.offset) + [r.attributes, r.uid / 0x1_0000] + BytesBE16(r.uid % 0x1_0000)
  }

  lemma RecordInfoRoundTrip(r: RecordInfo)
    requires r.uid < 0x100_0000
    ensures DecodeRecordInfo(EncodeRecordInfo(r)) == r
  {
    var b := EncodeRecordInfo(r);
    assert b[0..4] == BytesBE32(r.offset);
    assert b[6..8] == BytesBE16(r.uid % 0x1_0000);
    BE32RoundTrip(r.offset);
    BE16RoundTrip(r.uid % 0x1_0000);
  }

  lemma RecordInfoEncodes(b: seq<u8>)
    requires |b| == PALMDB_RECORD_INFO_SIZE
    ensures EncodeRecordInfo(DecodeRecordInfo(b)) == b
  {
    BE32Encodes(b[0..4]);
    BE16Encodes(b[6..8]);
    assert b == b[0..4] + [b[4], b[5]] + b[6..8];
  }

  /** The size of a record that is followed by another:
      `next->offset - curr->offset` in 32-bit unsigned arithmetic. */
  function GapSize(curr: u32, next: u32): (size: u32)
    ensures curr <= next ==> size == next - curr
    ensures next < curr ==> size == next - curr + U32_MOD
  {
    (next - curr) % U32_MOD
  }
}
