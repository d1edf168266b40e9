/** The MOBI header of record 0 (`mobi_parse_mobiheader`, src/read.c): the
    magic "MOBI", a declared header length, and then a fixed sequence of
    32- and 16-bit fields, each of which is present only when it lies inside
    the declared header. KF8 headers (version 8, at least 228 bytes) put
    different fields in a few places. The full name of the book lies
    elsewhere in the record, at an offset the header gives. */
module MobiHeader {
  import opened Common
  import opened Buffer

  const MOBI_MAGIC: seq<u8> := [0x4d, 0x4f, 0x42, 0x49]  // "MOBI"
  const MOBI_HEADER_V7_SIZE: nat := 228
  const MOBI_TITLE_SIZEMAX: nat := 1024
  /** The length assumed for the old files that declare a zero length. */
  const MOBI_HEADER_MIN_LEN: nat := 24
  const MOBI_ENCODING_CP1252: nat := 1252
  const MOBI_ENCODING_UTF8: nat := 65001

  /** `MOBIEncoding`. An unknown encoding leaves the field unset. */
  datatype Encoding = CP1252 | UTF8

  /** The word read at the encoding field, as the parser interprets it. */
  function EncodingOf(code: u32): (e: Option<Encoding>)
  {
    if code == MOBI_ENCODING_CP1252 then Some(CP1252)
    else if code == MOBI_ENCODING_UTF8 then Some(UTF8)
    else None
  }

  /** The fields after the header length up to the version. */
  datatype Leading = Leading(mobiType: Option<u32>, textEncoding: Option<Encoding>, uid: Option<u32>, version: Option<u32>)

  /** Where the text lies: a FDST index in KF8 headers, a first and last
      text record in the others. */
  datatype TextRange = TextRange(fdstIndex: Option<u32>, firstTextIndex: Option<u16>, lastTextIndex: Option<u16>)

  /** `MOBIMobiHeader`. Every field read with `dup32`/`dup16` is None (NULL)
      when it did not fit; `headerLength` is always present. The runs of
      32-bit fields are kept in their on-disk order:
      - `indices`: the 23 fields from `orth_index` to `exth_flags`;
      - `drm`: `unknown6`, `drm_offset`, `drm_count`, `drm_size`, `drm_flags`;
      - `sections`: the 11 fields from `fdst_section_count` to `unknown13`;
      - `tail`: `ncx_index`, then `fragment_index` and `skeleton_index` (KF8) or
        `unknown14` and `unknown15`, `datp_index`, `guide_index` (KF8) or
        `unknown16`, and `unknown17` to `unknown20`.
      The accessors below name the fields the rest of the library uses. */
  datatype MobiHeader = MobiHeader(
    magic: seq<u8>, headerLength: u32, leading: Leading, indices: Fields, drm: Fields,
    textRange: TextRange, sections: Fields, extraFlags: Option<u16>, tail: Fields,
    fullName: Option<seq<u8>>)

  /** The result of the parser with the buffer it leaves behind. */
  datatype MobiParse = MobiParse(ret: MobiRet, mh: Option<MobiHeader>, st: BufState)

  const FULL_NAME_OFFSET: nat := 11
  const FULL_NAME_LENGTH: nat := 12
  const HUFF_REC_INDEX: nat := 18
  const HUFF_REC_COUNT: nat := 19
  const EXTH_FLAGS: nat := 22
  const FDST_SECTION_COUNT: nat := 0

  function FullNameOffset(h: MobiHeader): Option<u32> { Nth(h.indices, FULL_NAME_OFFSET) }
  function FullNameLength(h: MobiHeader): Option<u32> { Nth(h.indices, FULL_NAME_LENGTH) }
  function HuffRecIndex(h: MobiHeader): Option<u32> { Nth(h.indices, HUFF_REC_INDEX) }
  function HuffRecCount(h: MobiHeader): Option<u32> { Nth(h.indices, HUFF_REC_COUNT) }
  function ExthFlags(h: MobiHeader): Option<u32> { Nth(h.indices, EXTH_FLAGS) }
  function FdstSectionCount(h: MobiHeader): Option<u32> { Nth(h.sections, FDST_SECTION_COUNT) }

  /** The length the parser works with: the declared one, or 24 when zero. */
  function HeaderLength(declared: u32): (n: nat)
    ensures n > 0 && (declared > 0 ==> n == declared)
  {
    if declared > 0 then declared else MOBI_HEADER_MIN_LEN
  }

  /** The end of the declared header, `header_length + offset - 8` in
      size_t, where `offset` is 8 bytes past the magic. */
  function LeftLength(length: nat, offset: nat): (r: nat)
    ensures r < SIZE_MOD
    ensures length + offset - 8 < SIZE_MOD && offset >= 8 ==> r == length + offset - 8
  {
    (length + offset - 8) % SIZE_MOD
  }

  /** Whether the header is a KF8 one. */
  predicate IsKF8(length: nat, version: Option<u32>)
  {
    length >= MOBI_HEADER_V7_SIZE && version == Some(8)
  }

  /** Whether a parsed header is a KF8 one. */
  predicate HeaderIsKF8(h: MobiHeader)
  {
    IsKF8(HeaderLength(h.headerLength), h.leading.version)
  }

  /** `fragment_index`, `skeleton_index` and `guide_index` are set only in KF8 headers. */
  function FragmentIndex(h: MobiHeader): Option<u32> { if HeaderIsKF8(h) then Nth(h.tail, 1) else None }
  function SkeletonIndex(h: MobiHeader): Option<u32> { if HeaderIsKF8(h) then Nth(h.tail, 2) else None }
  function GuideIndex(h: MobiHeader): Option<u32> { if HeaderIsKF8(h) then Nth(h.tail, 4) else None }

  /** The type, the encoding, the uid and the version. */
  function LeadingOf(d: seq<u8>, s: BufState): (r: Read<Leading>)
    requires s.Valid(d)
    ensures r.st.Valid(d) && r.st.maxlen == s.maxlen
  {
    var t := Dup32Of(d, s);
    var e := Take32(d, t.st);
    var u := Dup32Of(d, e.st);
    var v := Dup32Of(d, u.st);
    Read(v.st, Leading(t.val, EncodingOf(e.val), u.val, v.val))
  }

  /** 32 unknown bytes skipped, the five DRM fields, 8 unknown bytes skipped. */
  function DrmOf(d: seq<u8>, s: BufState): (r: Read<Fields>)
    requires s.Valid(d)
    ensures r.st.Valid(d) && r.st.maxlen == s.maxlen
  {
    var f := Dups(d, Moved(d, s, 32), 5);
    Read(Moved(d, f.st, 8), f.val)
  }

  /** The FDST index (KF8), or the first and last text record (16 bits each). */
  function TextRangeOf(d: seq<u8>, s: BufState, kf8: bool): (r: Read<TextRange>)
    requires s.Valid(d)
    ensures r.st.Valid(d) && r.st.maxlen == s.maxlen
    ensures kf8 ==> r.val.firstTextIndex.None? && r.val.lastTextIndex.None?
    ensures !kf8 ==> r.val.fdstIndex.None?
    ensures Fits(s, 4) ==> r.st.offset == s.offset + 4
  {
    if kf8 then
      var f := Dup32Of(d, s);
      Read(f.st, TextRange(f.val, None, None))
    else
      var a := Dup16Of(d, s);
      var b := Dup16Of(d, a.st);
      Read(b.st, TextRange(None, a.val, b.val))
  }

  /** A 2-byte fill, the 16-bit trailing-entry flags and the nine tail fields. */
  function TailOf(d: seq<u8>, s: BufState): (r: Read<(Option<u16>, Fields)>)
    requires s.Valid(d)
    ensures r.st.Valid(d) && r.st.maxlen == s.maxlen
  {
    var x := Dup16Of(d, Moved(d, s, 2));
    var f := Dups(d, x.st, 9);
    Read(f.st, (x.val, f.val))
  }

  /** The full name: present when both its offset and its length are, and
      then at most 1024 bytes read at the offset (none when they do not
      fit), with the buffer's offset restored afterwards. */
  function FullNameOf(d: seq<u8>, s: BufState, offset: Option<u32>, length: Option<u32>): (r: Read<Option<seq<u8>>>)
    requires s.Valid(d)
    ensures r.st.Valid(d) && r.st.maxlen == s.maxlen
    ensures s.offset <= s.maxlen ==> r.st.offset == s.offset
    ensures r.val.Some? <==> offset.Some? && length.Some?
    ensures r.val.Some? ==> |r.val.value| <= MOBI_TITLE_SIZEMAX
  {
    if offset.None? || length.None? then Read(s, None)
    else
      var n := Min(length.value, MOBI_TITLE_SIZEMAX);
      var p := Positioned(d, s, offset.value);
      var name := if n > 0 then TakeBytes(d, p, n) else Read(p, []);
      Read(Positioned(d, name.st, s.offset), Some(name.val))
  }

  /** The leading fields, the indices and the DRM fields. */
  function FrontOf(d: seq<u8>, s: BufState): (r: Read<(Leading, Fields, Fields)>)
    requires s.Valid(d)
    ensures r.st.Valid(d) && r.st.maxlen == s.maxlen
  {
    var a := LeadingOf(d, s);
    var b := Dups(d, a.st, 23);
    var c := DrmOf(d, b.st);
    Read(c.st, (a.val, b.val, c.val))
  }

  /** The text range, the sections, the flags and the tail fields. */
  function BackOf(d: seq<u8>, s: BufState, kf8: bool): (r: Read<(TextRange, Fields, Option<u16>, Fields)>)
    requires s.Valid(d)
    ensures r.st.Valid(d) && r.st.maxlen == s.maxlen
  {
    var e := TextRangeOf(d, s, kf8);
    var f := Dups(d, e.st, 11);
    var g := TailOf(d, f.st);
    Read(g.st, (e.val, f.val, g.val.0, g.val.1))
  }

  /** The fields of the declared header, read with `maxlen` narrowed to its
      end; the buffer afterwards is at that end unless it already is past it. */
  function FieldsOf(d: seq<u8>, w: BufState, length: nat, magic: seq<u8>, declared: u32): (r: Read<MobiHeader>)
    requires w.Valid(d)
    ensures r.st.Valid(d) && r.st.maxlen == w.maxlen
  {
    var a := FrontOf(d, w);
    var b := BackOf(d, a.st, IsKF8(length, a.val.0.version));
    var end := if b.st.maxlen > b.st.offset then Positioned(d, b.st, b.st.maxlen) else b.st;
    Read(end, MobiHeader(magic, declared, a.val.0, a.val.1, a.val.2, b.val.0, b.val.1, b.val.2, b.val.3, None))
  }

  /** The window the parser reads a header's fields in, once the magic and
      the length are read: up to the end of the declared header, or of the
      buffer when that comes first. */
  function Window(h: BufState, declared: u32): (w: BufState)
    ensures w.offset == h.offset && w.failed == h.failed && w.maxlen <= h.maxlen
  {
    h.(maxlen := Min(h.maxlen, LeftLength(HeaderLength(declared), h.offset)))
  }

  /** What follows a header whose magic and length were read: the fields
      inside the declared header, `maxlen` restored, and the full name,
      read without moving the buffer from where the fields left it. */
  function MobiBodyOf(d: seq<u8>, h: BufState, magic: seq<u8>, declared: u32): (r: MobiParse)
    requires h.Valid(d)
    ensures r.st.Valid(d) && r.st.maxlen == h.maxlen
    ensures r.ret == Success && r.mh.Some?
    ensures var fields := FieldsOf(d, Window(h, declared), HeaderLength(declared), magic, declared);
      && r.mh.value.(fullName := None) == fields.val
      && (r.mh.value.fullName.Some? <==> FullNameOffset(fields.val).Some? && FullNameLength(fields.val).Some?)
      && (fields.st.offset <= h.maxlen ==> r.st.offset == fields.st.offset)
  {
    var fields := FieldsOf(d, Window(h, declared), HeaderLength(declared), magic, declared);
    var name := FullNameOf(d, fields.st.(maxlen := h.maxlen),
      FullNameOffset(fields.val), FullNameLength(fields.val));
    MobiParse(Success, Some(fields.val.(fullName := name.val)), name.st)
  }

  /** `mobi_parse_mobiheader` on a buffer value. */
  function ParseMobiSpec(d: seq<u8>, s: BufState): (r: MobiParse)
    requires s.Valid(d)
    ensures r.st.Valid(d) && r.st.maxlen == s.maxlen
    ensures r.ret == Success || r.ret == DataCorrupt
    ensures r.ret == Success <==> Fits(s, 8) && d[s.offset..s.offset + 4] == MOBI_MAGIC
    ensures r.mh.Some? <==> r.ret == Success
    ensures r.ret == Success ==>
      r.mh.value.magic == MOBI_MAGIC && r.mh.value.headerLength == BE32(d[s.offset + 4..s.offset + 8])
  {
    var m := TakeBytes(d, s, 4);
    var h := Dup32Of(d, m.st);
    if m.val != MOBI_MAGIC || h.val.None? then MobiParse(DataCorrupt, None, h.st)
    else MobiBodyOf(d, h.st, m.val, h.val.value)
  }

  method ReadLeading(buf: MobiBuffer) returns (f: Leading)
    requires buf.Valid()
    modifies buf
    ensures buf.Valid() && Read(buf.State(), f) == LeadingOf(buf.data, old(buf.State()))
  {
    var mobiType := buf.Dup32();
    var encoding := buf.Get32();
    var uid := buf.Dup32();
    var version := buf.Dup32();
    f := Leading(mobiType, EncodingOf(encoding), uid, version);
  }

  /** The 23 fields from `orth_index` to `exth_flags`. */
  method ReadIndices(buf: MobiBuffer) returns (f: Fields)
    requires buf.Valid()
    modifies buf
    ensures buf.Valid() && Read(buf.State(), f) == Dups(buf.data, old(buf.State()), 23)
  {
    DupsNext(buf.data, buf.State(), 23);
    var orth := buf.Dup32();
    DupsNext(buf.data, buf.State(), 22);
    var infl := buf.Dup32();
    DupsNext(buf.data, buf.State(), 21);
    var names := buf.Dup32();
    DupsNext(buf.data, buf.State(), 20);
    var keys := buf.Dup32();
    DupsNext(buf.data, buf.State(), 19);
    var extra0 := buf.Dup32();
    DupsNext(buf.data, buf.State(), 18);
    var extra1 := buf.Dup32();
    DupsNext(buf.data, buf.State(), 17);
    var extra2 := buf.Dup32();
    DupsNext(buf.data, buf.State(), 16);
    var extra3 := buf.Dup32();
    DupsNext(buf.data, buf.State(), 15);
    var extra4 := buf.Dup32();
    DupsNext(buf.data, buf.State(), 14);
    var extra5 := buf.Dup32();
    DupsNext(buf.data, buf.State(), 13);
    var nonText := buf.Dup32();
    DupsNext(buf.data, buf.State(), 12);
    var fullNameOffset := buf.Dup32();
    DupsNext(buf.data, buf.State(), 11);
    var fullNameLength := buf.Dup32();
    DupsNext(buf.data, buf.State(), 10);
    var locale := buf.Dup32();
    DupsNext(buf.data, buf.State(), 9);
    var dictInput := buf.Dup32();
    DupsNext(buf.data, buf.State(), 8);
    var dictOutput := buf.Dup32();
    DupsNext(buf.data, buf.State(), 7);
    var minVersion := buf.Dup32();
    DupsNext(buf.data, buf.State(), 6);
    var image := buf.Dup32();
    DupsNext(buf.data, buf.State(), 5);
    var huffRecIndex := buf.Dup32();
    DupsNext(buf.data, buf.State(), 4);
    var huffRecCount := buf.Dup32();
    DupsNext(buf.data, buf.State(), 3);
    var datpRecIndex := buf.Dup32();
    DupsNext(buf.data, buf.State(), 2);
    var datpRecCount := buf.Dup32();
    DupsNext(buf.data, buf.State(), 1);
    var exthFlags := buf.Dup32();
    f :=
      Field(orth, Field(infl, Field(names, Field(keys, Field(extra0, Field(extra1,
      Field(extra2, Field(extra3, Field(extra4, Field(extra5, Field(nonText, Field(fullNameOffset,
      Field(fullNameLength, Field(locale, Field(dictInput, Field(dictOutput, Field(minVersion, Field(image,
      Field(huffRecIndex, Field(huffRecCount, Field(datpRecIndex, Field(datpRecCount, Field(exthFlags, Done)))))))))))))))))))))));
  }

  method ReadDrm(buf: MobiBuffer) returns (f: Fields)
    requires buf.Valid()
    modifies buf
    ensures buf.Valid() && Read(buf.State(), f) == DrmOf(buf.data, old(buf.State()))
  {
    buf.Seek(32);
    DupsNext(buf.data, buf.State(), 5);
    var unknown6 := buf.Dup32();
    DupsNext(buf.data, buf.State(), 4);
    var drmOffset := buf.Dup32();
    DupsNext(buf.data, buf.State(), 3);
    var drmCount := buf.Dup32();
    DupsNext(buf.data, buf.State(), 2);
    var drmSize := buf.Dup32();
    DupsNext(buf.data, buf.State(), 1);
    var drmFlags := buf.Dup32();
    buf.Seek(8);
    f := Field(unknown6, Field(drmOffset, Field(drmCount, Field(drmSize, Field(drmFlags, Done)))));
  }

  method ReadTextRange(buf: MobiBuffer, kf8: bool) returns (f: TextRange)
    requires buf.Valid()
    modifies buf
    ensures buf.Valid() && Read(buf.State(), f) == TextRangeOf(buf.data, old(buf.State()), kf8)
  {
    if kf8 {
      var fdst := buf.Dup32();
      f := TextRange(fdst, None, None);
    } else {
      var first := buf.Dup16();
      var last := buf.Dup16();
      f := TextRange(None, first, last);
    }
  }

  /** The 11 fields from `fdst_section_count` to `unknown13`. */
  method ReadSections(buf: MobiBuffer) returns (f: Fields)
    requires buf.Valid()
    modifies buf
    ensures buf.Valid() && Read(buf.State(), f) == Dups(buf.data, old(buf.State()), 11)
  {
    DupsNext(buf.data, buf.State(), 11);
    var fdstSectionCount := buf.Dup32();
    DupsNext(buf.data, buf.State(), 10);
    var fcisIndex := buf.Dup32();
    DupsNext(buf.data, buf.State(), 9);
    var fcisCount := buf.Dup32();
    DupsNext(buf.data, buf.State(), 8);
    var flisIndex := buf.Dup32();
    DupsNext(buf.data, buf.State(), 7);
    var flisCount := buf.Dup32();
    DupsNext(buf.data, buf.State(), 6);
    var unknown10 := buf.Dup32();
    DupsNext(buf.data, buf.State(), 5);
    var unknown11 := buf.Dup32();
    DupsNext(buf.data, buf.State(), 4);
    var srcsIndex := buf.Dup32();
    DupsNext(buf.data, buf.State(), 3);
    var srcsCount := buf.Dup32();
    DupsNext(buf.data, buf.State(), 2);
    var unknown12 := buf.Dup32();
    DupsNext(buf.data, buf.State(), 1);
    var unknown13 := buf.Dup32();
    f :=
      Field(fdstSectionCount, Field(fcisIndex, Field(fcisCount, Field(flisIndex, Field(flisCount, Field(unknown10,
      Field(unknown11, Field(srcsIndex, Field(srcsCount, Field(unknown12, Field(unknown13, Done)))))))))));
  }

  /** The flags and the nine tail fields. The KF8 and the older layouts
      read the same words and only name them differently, so the choice is
      left to the accessors. */
  method ReadTail(buf: MobiBuffer) returns (flags: Option<u16>, f: Fields)
    requires buf.Valid()
    modifies buf
    ensures buf.Valid() && Read(buf.State(), (flags, f)) == TailOf(buf.data, old(buf.State()))
  {
    buf.Seek(2);
    flags := buf.Dup16();
    DupsNext(buf.data, buf.State(), 9);
    var ncxIndex := buf.Dup32();
    DupsNext(buf.data, buf.State(), 8);
    var fragmentOrUnknown14 := buf.Dup32();
    DupsNext(buf.data, buf.State(), 7);
    var skeletonOrUnknown15 := buf.Dup32();
    DupsNext(buf.data, buf.State(), 6);
    var datpIndex := buf.Dup32();
    DupsNext(buf.data, buf.State(), 5);
    var guideOrUnknown16 := buf.Dup32();
    DupsNext(buf.data, buf.State(), 4);
    var unknown17 := buf.Dup32();
    DupsNext(buf.data, buf.State(), 3);
    var unknown18 := buf.Dup32();
    DupsNext(buf.data, buf.State(), 2);
    var unknown19 := buf.Dup32();
    DupsNext(buf.data, buf.State(), 1);
    var unknown20 := buf.Dup32();
    f :=
      Field(ncxIndex, Field(fragmentOrUnknown14, Field(skeletonOrUnknown15, Field(datpIndex, Field(guideOrUnknown16,
      Field(unknown17, Field(unknown18, Field(unknown19, Field(unknown20, Done)))))))));
  }

  method ReadFullName(buf: MobiBuffer, offset: Option<u32>, length: Option<u32>) returns (name: Option<seq<u8>>)
    requires buf.Valid()
    modifies buf
    ensures buf.Valid() && Read(buf.State(), name) == FullNameOf(buf.data, old(buf.State()), offset, length)
  {
    if offset.None? || length.None? {
      return None;
    }
    var savedOffset := buf.offset;
    var n := Min(length.value, MOBI_TITLE_SIZEMAX);
    buf.SetPos(offset.value);
    var bytes: seq<u8> := [];
    if n > 0 {
      bytes := buf.GetBytes(n);
    }
    buf.SetPos(savedOffset);
    name := Some(bytes);
  }

  /** The part of `mobi_parse_mobiheader` that reads inside the declared header. */
  method ReadFields(buf: MobiBuffer, length: nat, magic: seq<u8>, declared: u32) returns (header: MobiHeader)
    requires buf.Valid()
    modifies buf
    ensures buf.Valid()
    ensures Read(buf.State(), header) == FieldsOf(buf.data, old(buf.State()), length, magic, declared)
  {
    var a := ReadLeading(buf);
    var kf8 := length >= MOBI_HEADER_V7_SIZE && a.version == Some(8);
    var b := ReadIndices(buf);
    var c := ReadDrm(buf);
    var e := ReadTextRange(buf, kf8);
    var f := ReadSections(buf);
    var flags, g := ReadTail(buf);
    if buf.maxlen > buf.offset {
      buf.SetPos(buf.maxlen);
    }
    header := MobiHeader(magic, declared, a, b, c, e, f, flags, g, None);
  }

  /** `mobi_parse_mobiheader`: the header at the buffer's offset, or
      DataCorrupt without a header when the magic or the length is missing. */
  method ParseMobiHeader(buf: MobiBuffer) returns (ret: MobiRet, mh: Option<MobiHeader>)
    requires buf.Valid()
    modifies buf
    ensures buf.Valid()
    ensures ParseMobiSpec(buf.data, old(buf.State())) == MobiParse(ret, mh, buf.State())
  {
    var magic := buf.GetBytes(4);
    var declared := buf.Dup32();
    if magic != MOBI_MAGIC || declared.None? {
      return DataCorrupt, None;
    }
    mh := ParseMobiBody(buf, magic, declared.value);
    ret := Success;
  }

  /** The rest of `mobi_parse_mobiheader` once the magic and the length are known. */
  method ParseMobiBody(buf: MobiBuffer, magic: seq<u8>, declared: u32) returns (mh: Option<MobiHeader>)
    requires buf.Valid()
    modifies buf
    ensures buf.Valid()
    ensures MobiBodyOf(buf.data, old(buf.State()), magic, declared) == MobiParse(Success, mh, buf.State())
  {
    var savedMaxlen := buf.maxlen;
    var headerLength := HeaderLength(declared);
    var leftLength := (headerLength + buf.offset - 8) % SIZE_MOD;
    buf.SetMaxlen(if savedMaxlen < leftLength then savedMaxlen else leftLength);
    assert buf.State() == Window(old(buf.State()), declared);
    var header := ReadFields(buf, headerLength, magic, declared);
    ghost var fieldsEnd := buf.State();
    buf.SetMaxlen(savedMaxlen);
    var name := ReadFullName(buf, FullNameOffset(header), FullNameLength(header));
    assert FullNameOf(buf.data, fieldsEnd.(maxlen := savedMaxlen), FullNameOffset(header),
      FullNameLength(header)) == Read(buf.State(), name);
    return Some(header.(fullName := name));
  }

  /** The documented layout: the 16-bit word at byte o. */
  function Word16(d: seq<u8>, o: nat): Option<u16>
    requires o + 2 <= |d|
  {
    Some(BE16(d[o..o + 2]))
  }

  /** The 32-bit word at byte o. */
  function Word32(d: seq<u8>, o: nat): Option<u32>
    requires o + 4 <= |d|
  {
    Some(BE32(d[o..o + 4]))
  }

  /** The leading fields at bytes 8..24 of the header, which starts at o - 8. */
  function LeadingAt(d: seq<u8>, o: nat): Leading
    requires o + 16 <= |d|
  {
    Leading(Word32(d, o), EncodingOf(BE32(d[o + 4..o + 8])), Word32(d, o + 8), Word32(d, o + 12))
  }

  /** The text range at bytes 176..180 of the header. */
  function TextRangeAt(d: seq<u8>, o: nat, kf8: bool): TextRange
    requires o + 4 <= |d|
  {
    if kf8 then TextRange(Word32(d, o), None, None) else TextRange(None, Word16(d, o), Word16(d, o + 2))
  }

  const NoTextRange: TextRange := TextRange(None, None, None)

  /** The fields of a complete header, whose bytes 8..264 lie from o on:
      the leading fields at 8, the indices at 24, the DRM fields at 148,
      the text range at 176, the sections at 180, the flags at 226 and the
      tail fields at 228. */
  function HeaderAt(d: seq<u8>, o: nat, magic: seq<u8>, declared: u32): (mh: MobiHeader)
    requires o + 256 <= |d|
  {
    var leading := LeadingAt(d, o);
    var kf8 := IsKF8(HeaderLength(declared), leading.version);
    MobiHeader(magic, declared, leading, Words(d, o + 16, 23), Words(d, o + 140, 5),
      TextRangeAt(d, o + 168, kf8), Words(d, o + 172, 11), Word16(d, o + 218), Words(d, o + 220, 9), None)
  }

  lemma {:induction false} LeadingPresent(d: seq<u8>, s: BufState)
    requires s.Valid(d) && Fits(s, 16)
    ensures LeadingOf(d, s) == Read(s.(offset := s.offset + 16), LeadingAt(d, s.offset))
  {
  }

  lemma {:induction false} DrmPresent(d: seq<u8>, s: BufState)
    requires s.Valid(d) && Fits(s, 60)
    ensures DrmOf(d, s) == Read(s.(offset := s.offset + 60), Words(d, s.offset + 32, 5))
  {
    DupsPresent(d, Moved(d, s, 32), 5);
  }

  lemma {:induction false} TextRangePresent(d: seq<u8>, s: BufState, kf8: bool)
    requires s.Valid(d) && Fits(s, 4)
    ensures TextRangeOf(d, s, kf8) == Read(s.(offset := s.offset + 4), TextRangeAt(d, s.offset, kf8))
  {
  }

  lemma {:induction false} TailPresent(d: seq<u8>, s: BufState)
    requires s.Valid(d) && Fits(s, 40)
    ensures TailOf(d, s) == Read(s.(offset := s.offset + 40), (Word16(d, s.offset + 2), Words(d, s.offset + 4, 9)))
  {
    var x := Dup16Of(d, Moved(d, s, 2));
    DupsPresent(d, x.st, 9);
  }

  lemma {:induction false} FrontPresent(d: seq<u8>, s: BufState)
    requires s.Valid(d) && Fits(s, 168)
    ensures FrontOf(d, s)
      == Read(s.(offset := s.offset + 168), (LeadingAt(d, s.offset), Words(d, s.offset + 16, 23), Words(d, s.offset + 140, 5)))
  {
    var a := LeadingOf(d, s);
    LeadingPresent(d, s);
    var b := Dups(d, a.st, 23);
    DupsPresent(d, a.st, 23);
    DrmPresent(d, b.st);
  }

  /** Where the front fields of a complete header end. */
  lemma {:induction false} FrontEnd(d: seq<u8>, s: BufState)
    requires s.Valid(d) && Fits(s, 168)
    ensures FrontOf(d, s).st == s.(offset := s.offset + 168)
  {
    FrontPresent(d, s);
  }

  lemma {:induction false} BackPresent(d: seq<u8>, s: BufState, kf8: bool)
    requires s.Valid(d) && Fits(s, 88)
    ensures BackOf(d, s, kf8) == Read(s.(offset := s.offset + 88),
      (TextRangeAt(d, s.offset, kf8), Words(d, s.offset + 4, 11), Word16(d, s.offset + 50), Words(d, s.offset + 52, 9)))
  {
    var e := TextRangeOf(d, s, kf8);
    TextRangePresent(d, s, kf8);
    var f := Dups(d, e.st, 11);
    DupsPresent(d, e.st, 11);
    TailPresent(d, f.st);
  }

  /** A window holding all 256 bytes of fields is read at the documented
      offsets: the leading fields at byte 8 of the header, the indices at
      24 and the DRM fields at 148 (the window starts at byte 8). */
  lemma {:induction false} FieldsPresentFront(d: seq<u8>, w: BufState, magic: seq<u8>, declared: u32)
    requires w.Valid(d) && Fits(w, 256)
    ensures var r := FieldsOf(d, w, HeaderLength(declared), magic, declared);
      var o := w.offset;
      && r.val.magic == magic && r.val.headerLength == declared
      && r.val.leading == LeadingAt(d, o)
      && r.val.indices == Words(d, o + 16, 23)
      && r.val.drm == Words(d, o + 140, 5)
      && r.val.fullName.None?
  {
    FrontPresent(d, w);
  }

  /** The text range at byte 176 of the header, the sections at 180, the
      flags at 226 and the tail fields at 228; the window is left at its end. */
  lemma {:induction false} FieldsPresentBack(d: seq<u8>, w: BufState, magic: seq<u8>, declared: u32)
    requires w.Valid(d) && Fits(w, 256)
    ensures var r := FieldsOf(d, w, HeaderLength(declared), magic, declared);
      var o := w.offset;
      && r.st == w.(offset := w.maxlen)
      && r.val.textRange == TextRangeAt(d, o + 168, HeaderIsKF8(r.val))
      && r.val.sections == Words(d, o + 172, 11)
      && r.val.extraFlags == Word16(d, o + 218)
      && r.val.tail == Words(d, o + 220, 9)
  {
    var a := FrontOf(d, w);
    FrontEnd(d, w);
    var kf8 := IsKF8(HeaderLength(declared), a.val.0.version);
    var b := BackOf(d, a.st, kf8);
    BackPresent(d, a.st, kf8);
  }

  /** The window ends at the end of the declared header, or of the buffer
      when that comes first. */
  lemma WindowEnd(h: BufState, declared: u32)
    requires h.offset >= 8 && h.offset < U32_MOD
    ensures Window(h, declared).maxlen == Min(h.maxlen, h.offset - 8 + HeaderLength(declared))
  {
  }

  /** A header with its magic and its length is parsed by reading its
      fields inside the window after the length (FieldsPresentFront and
      FieldsPresentBack lay them out) and then the full name. */
  lemma {:induction false} ParseAfterMagic(d: seq<u8>, s: BufState)
    requires s.Valid(d) && Fits(s, 8)
    requires d[s.offset..s.offset + 4] == MOBI_MAGIC
    ensures ParseMobiSpec(d, s) == MobiBodyOf(d, s.(offset := s.offset + 8), MOBI_MAGIC, BE32(d[s.offset + 4..s.offset + 8]))
  {
    var o := s.offset;
    var m := TakeBytes(d, s, 4);
    assert m == Read(s.(offset := o + 4), MOBI_MAGIC);
    assert Dup32Of(d, m.st) == Read(s.(offset := o + 8), Some(BE32(d[o + 4..o + 8])));
  }
}
