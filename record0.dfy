/** Record 0 of a MOBI file (`mobi_parse_record0`, src/read.c): a 16-byte
    PalmDOC header, then, in Mobipocket files, the MOBI header and an
    optional EXTH header. */
module Record0 {
  import opened Common
  import opened Buffer
  import opened MobiHeader
  import opened Exth

  const RECORD0_HEADER_LEN: nat := 16
  const MOBI_COMPRESSION_NONE: nat := 1
  const MOBI_COMPRESSION_PALMDOC: nat := 2
  const MOBI_COMPRESSION_HUFFCDIC: nat := 17480

  /** `MOBIRecord0Header`. */
  datatype Record0Header = Record0Header(
    compressionType: u16, textLength: u32, textRecordCount: u16,
    textRecordSize: u16, encryptionType: u16, unknown1: u16)

  /** What the parser leaves in `MOBIData`: the return code and the three headers. */
  datatype Record0Parse = Record0Parse(
    ret: MobiRet, rh: Option<Record0Header>, mh: Option<MobiHeader>, eh: Option<seq<ExthRecord>>)

  const Corrupt: Record0Parse := Record0Parse(DataCorrupt, None, None, None)

  /** The compression types the parser accepts. */
  predicate KnownCompression(c: u16)
  {
    c == MOBI_COMPRESSION_NONE || c == MOBI_COMPRESSION_PALMDOC || c == MOBI_COMPRESSION_HUFFCDIC
  }

  /** The PalmDOC header in the first 16 bytes; bytes 2 and 3 are unused. */
  function Record0HeaderAt(d: seq<u8>): Record0Header
    requires |d| >= RECORD0_HEADER_LEN
  {
    Record0Header(BE16(d[0..2]), BE32(d[4..8]), BE16(d[8..10]),
      BE16(d[10..12]), BE16(d[12..14]), BE16(d[14..16]))
  }

  /** The MOBI header and, once it parsed, the EXTH header, read after the
      PalmDOC header. A header that fails to parse is left unset. */
  function HeadersAfter(d: seq<u8>): (r: (Option<MobiHeader>, Option<seq<ExthRecord>>))
    requires |d| >= RECORD0_HEADER_LEN
    ensures r.1.Some? ==> r.0.Some?
  {
    var p := ParseMobiSpec(d, BufState(RECORD0_HEADER_LEN, |d|, false));
    if p.ret != Success then (None, None)
    else (p.mh, ParseExthSpec(d, p.st).eh)
  }

  /** `mobi_parse_record0` on the record found at the requested sequence
      number (None when there is none). `isMobipocket` is the answer of
      `mobi_is_mobipocket`, which looks at the PalmDB header. */
  function ParseRecord0Spec(record: Option<seq<u8>>, isMobipocket: bool): (r: Record0Parse)
    ensures r.ret == Success || r.ret == DataCorrupt
    ensures r.ret == Success <==>
      record.Some? && |record.value| >= RECORD0_HEADER_LEN && KnownCompression(BE16(record.value[0..2]))
    ensures r.ret == DataCorrupt ==> r == Corrupt
    ensures r.ret == Success ==> r.rh == Some(Record0HeaderAt(record.value))
    ensures r.ret == Success && isMobipocket ==> (r.mh, r.eh) == HeadersAfter(record.value)
    ensures !isMobipocket ==> r.mh.None? && r.eh.None?
  {
    if record.None? || |record.value| < RECORD0_HEADER_LEN then Corrupt
    else
      var d := record.value;
      if !KnownCompression(BE16(d[0..2])) then Corrupt
      else if !isMobipocket then Record0Parse(Success, Some(Record0HeaderAt(d)), None, None)
      else
        var (mh, eh) := HeadersAfter(d);
        Record0Parse(Success, Some(Record0HeaderAt(d)), mh, eh)
  }

  /** `mobi_parse_record0`. */
  method ParseRecord0(record: Option<seq<u8>>, isMobipocket: bool) returns (r: Record0Parse)
    ensures r == ParseRecord0Spec(record, isMobipocket)
  {
    if record.None? {
      return Corrupt;
    }
    var d := record.value;
    if |d| < RECORD0_HEADER_LEN {
      return Corrupt;
    }
    var buf := new MobiBuffer.InitNull(d);
    var compression := buf.Get16();
    buf.Seek(2);
    if !KnownCompression(compression) {
      return Corrupt;
    }
    var textLength := buf.Get32();
    var textRecordCount := buf.Get16();
    var textRecordSize := buf.Get16();
    var encryptionType := buf.Get16();
    var unknown1 := buf.Get16();
    var rh := Record0Header(compression, textLength, textRecordCount, textRecordSize, encryptionType, unknown1);
    assert rh == Record0HeaderAt(d);
    if !isMobipocket {
      return Record0Parse(Success, Some(rh), None, None);
    }
    assert buf.State() == BufState(RECORD0_HEADER_LEN, |d|, false);
    var ret, mh := ParseMobiHeader(buf);
    if ret != Success {
      return Record0Parse(Success, Some(rh), None, None);
    }
    var exthRet, eh := ParseExtHeader(buf);
    return Record0Parse(Success, Some(rh), mh, eh);
  }

  /** The bytes a writer puts in the PalmDOC header, with zeroes in the unused word. */
  function EncodeRecord0Header(h: Record0Header): (b: seq<u8>)
    ensures |b| == RECORD0_HEADER_LEN
  {
    BytesBE16(h.compressionType) + [0, 0] + BytesBE32(h.textLength) + BytesBE16(h.textRecordCount)
    + BytesBE16(h.textRecordSize) + BytesBE16(h.encryptionType) + BytesBE16(h.unknown1)
  }

  /** A written header is read back, whatever follows it. */
  lemma {:induction false} Record0HeaderRoundTrip(h: Record0Header, rest: seq<u8>)
    ensures Record0HeaderAt(EncodeRecord0Header(h) + rest) == h
  {
    var b := EncodeRecord0Header(h) + rest;
    assert b[0..2] == BytesBE16(h.compressionType);
    assert b[4..8] == BytesBE32(h.textLength);
    assert b[8..10] == BytesBE16(h.textRecordCount);
    assert b[10..12] == BytesBE16(h.textRecordSize);
    assert b[12..14] == BytesBE16(h.encryptionType);
    assert b[14..16] == BytesBE16(h.unknown1);
    BE16RoundTrip(h.compressionType);
    BE32RoundTrip(h.textLength);
    BE16RoundTrip(h.textRecordCount);
    BE16RoundTrip(h.textRecordSize);
    BE16RoundTrip(h.encryptionType);
    BE16RoundTrip(h.unknown1);
  }

  /** A record that starts with a written header of a known compression
      parses into that header. */
  lemma {:induction false} Record0Parses(h: Record0Header, rest: seq<u8>, isMobipocket: bool)
    requires KnownCompression(h.compressionType)
    ensures var r := ParseRecord0Spec(Some(EncodeRecord0Header(h) + rest), isMobipocket);
      r.ret == Success && r.rh == Some(h)
  {
    var b := EncodeRecord0Header(h) + rest;
    Record0HeaderRoundTrip(h, rest);
    assert b[0..2] == BytesBE16(h.compressionType);
    BE16RoundTrip(h.compressionType);
  }

  /** A Mobipocket record 0 without a MOBI header after its PalmDOC header
      still parses, with neither a MOBI nor an EXTH header. */
  lemma {:induction false} MissingMobiHeaderIgnored(d: seq<u8>)
    requires |d| >= RECORD0_HEADER_LEN && KnownCompression(BE16(d[0..2]))
    requires |d| < RECORD0_HEADER_LEN + 8 || d[16..20] != MOBI_MAGIC
    ensures ParseRecord0Spec(Some(d), true) == Record0Parse(Success, Some(Record0HeaderAt(d)), None, None)
  {
    var p := ParseMobiSpec(d, BufState(RECORD0_HEADER_LEN, |d|, false));
    assert p.ret == DataCorrupt;
  }
}
