/** The FDST record of a KF8 file (`mobi_parse_fdst`, src/read.c): the magic
    "FDST", the offset of the section table (always 12), the number of
    sections, then one big-endian start and end offset per section of the
    reconstructed markup. */
module Fdst {
  import opened Common
  import opened Buffer
  import opened MobiHeader

  const FDST_MAGIC: seq<u8> := [0x46, 0x44, 0x53, 0x54]  // "FDST"
  const FDST_DATA_OFFSET: nat := 12

  /** One entry of the section table. */
  datatype FdstSection = FdstSection(start: u32, end: u32)

  /** What the parser leaves in `rawml->fdst`: the return code and, on
      success, the sections in table order. */
  datatype FdstParse = FdstParse(ret: MobiRet, sections: Option<seq<FdstSection>>)

  /** The table entry at byte `o`. */
  function SectionAt(d: seq<u8>, o: nat): FdstSection
    requires o + 8 <= |d|
  {
    FdstSection(BE32(d[o..o + 4]), BE32(d[o + 4..o + 8]))
  }

  /** The first `k` table entries from byte `o`. */
  function SectionsAt(d: seq<u8>, o: nat, k: nat): (r: seq<FdstSection>)
    requires o + 8 * k <= |d|
    ensures |r| == k
    decreases k
  {
    if k == 0 then [] else SectionsAt(d, o, k - 1) + [SectionAt(d, o + 8 * (k - 1))]
  }

  /** Entry j of the table is the eight bytes at `o + 8 * j`. */
  lemma {:induction false} SectionsAtIndex(d: seq<u8>, o: nat, k: nat)
    requires o + 8 * k <= |d|
    ensures forall j :: 0 <= j < k ==> SectionsAt(d, o, k)[j] == SectionAt(d, o + 8 * j)
    decreases k
  {
    if k > 0 {
      SectionsAtIndex(d, o, k - 1);
    }
  }

  /** `mobi_parse_fdst`. `record` is the record that `mobi_get_fdst_record_number`
      and `mobi_get_record_by_seqnumber` find, None when the number is not set
      or no record has it; `declared` is the MOBI header's section count,
      which the code reads without checking that it is present. */
  function FdstSpec(record: Option<seq<u8>>, declared: u32): (r: FdstParse)
    ensures r.ret == Success || r.ret == DataCorrupt
    ensures r.ret == Success <==> r.sections.Some?
    ensures r.ret == Success ==> record.Some?
    ensures r.ret == Success ==>
      var d := record.value;
      |d| >= FDST_DATA_OFFSET && d[0..4] == FDST_MAGIC && BE32(d[4..8]) == FDST_DATA_OFFSET &&
      BE32(d[8..12]) == declared && declared > 1 &&
      FDST_DATA_OFFSET + 8 * declared <= |d| &&
      r.sections == Some(SectionsAt(d, FDST_DATA_OFFSET, declared))
  {
    if record.None? then FdstParse(DataCorrupt, None)
    else
      var d := record.value;
      var m := TakeBytes(d, Over(d), 4);
      var off := Take32(d, m.st);
      var cnt := Take32(d, off.st);
      if m.val != FDST_MAGIC || cnt.val <= 1 || cnt.val != declared || off.val != FDST_DATA_OFFSET then
        FdstParse(DataCorrupt, None)
      else if cnt.st.maxlen - cnt.st.offset < 8 * (cnt.val as nat) then FdstParse(DataCorrupt, None)
      else FdstParse(Success, Some(SectionsAt(d, cnt.st.offset, cnt.val as nat)))
  }

  /** The same, with the record found in the file's record list and the
      count taken from the MOBI header. */
  function FdstOfFile(records: seq<seq<u8>>, fdstRecord: Option<nat>, mh: MobiHeader): (r: FdstParse)
    requires FdstSectionCount(mh).Some?
    ensures fdstRecord.None? || fdstRecord.value >= |records| ==> r == FdstParse(DataCorrupt, None)
    ensures fdstRecord.Some? && fdstRecord.value < |records| ==>
      r == FdstSpec(Some(records[fdstRecord.value]), FdstSectionCount(mh).value)
  {
    var rec := if fdstRecord.Some? && fdstRecord.value < |records| then Some(records[fdstRecord.value]) else None;
    FdstSpec(rec, FdstSectionCount(mh).value)
  }

  /** The loop that reads a start and an end offset per section into the
      two arrays. */
  method ReadSections(starts: array<u32>, ends: array<u32>, buf: MobiBuffer)
    requires starts != ends && starts.Length == ends.Length && buf.Valid()
    requires buf.offset + 8 * starts.Length <= buf.maxlen
    modifies starts, ends, buf
    ensures forall j :: 0 <= j < starts.Length ==>
      FdstSection(starts[j], ends[j]) == SectionAt(buf.data, old(buf.offset) + 8 * j)
  {
    ghost var o := buf.offset;
    var i := 0;
    while i < starts.Length
      invariant 0 <= i <= starts.Length && buf.Valid() && buf.offset == o + 8 * i
      invariant buf.maxlen == old(buf.maxlen)
      invariant forall j :: 0 <= j < i ==> FdstSection(starts[j], ends[j]) == SectionAt(buf.data, o + 8 * j)
    {
      starts[i] := buf.Get32();
      ends[i] := buf.Get32();
      i := i + 1;
    }
  }

  /** `mobi_parse_fdst`, returning the two arrays it fills (left empty on failure). */
  method ParseFdst(record: Option<seq<u8>>, declared: u32) returns (ret: MobiRet, starts: array<u32>, ends: array<u32>)
    ensures var r := FdstSpec(record, declared);
      ret == r.ret && starts.Length == ends.Length &&
      (ret == Success ==> starts[..] == Starts(r.sections.value) && ends[..] == Ends(r.sections.value))
  {
    starts, ends := new u32[0], new u32[0];
    if record.None? {
      return DataCorrupt, starts, ends;
    }
    var d := record.value;
    var buf := new MobiBuffer.InitNull(d);
    var magic := buf.GetBytes(4);
    var dataOffset := buf.Get32();
    var sectionCount := buf.Get32();
    if magic != FDST_MAGIC || sectionCount <= 1 || sectionCount != declared || dataOffset != FDST_DATA_OFFSET as u32 {
      return DataCorrupt, starts, ends;
    }
    if buf.maxlen - buf.offset < 8 * (sectionCount as nat) {
      return DataCorrupt, starts, ends;
    }
    ghost var o := buf.offset;
    starts := new u32[sectionCount];
    ends := new u32[sectionCount];
    ReadSections(starts, ends, buf);
    ret := Success;
    ghost var secs := SectionsAt(d, o, sectionCount as nat);
    SectionsAtIndex(d, o, sectionCount as nat);
    SplitSections(secs, starts[..], ends[..]);
  }

  /** The start offsets of the sections. */
  function Starts(secs: seq<FdstSection>): (r: seq<u32>)
    ensures |r| == |secs| && forall j :: 0 <= j < |secs| ==> r[j] == secs[j].start
    decreases |secs|
  {
    if secs == [] then [] else Starts(secs[..|secs| - 1]) + [secs[|secs| - 1].start]
  }

  /** The end offsets of the sections. */
  function Ends(secs: seq<FdstSection>): (r: seq<u32>)
    ensures |r| == |secs| && forall j :: 0 <= j < |secs| ==> r[j] == secs[j].end
    decreases |secs|
  {
    if secs == [] then [] else Ends(secs[..|secs| - 1]) + [secs[|secs| - 1].end]
  }

  /** Two arrays that hold the sections' starts and ends pointwise are their
      `Starts` and `Ends`. */
  lemma SplitSections(secs: seq<FdstSection>, s: seq<u32>, e: seq<u32>)
    requires |s| == |e| == |secs| && forall j :: 0 <= j < |secs| ==> FdstSection(s[j], e[j]) == secs[j]
    ensures s == Starts(secs) && e == Ends(secs)
  {
    assert forall j :: 0 <= j < |secs| ==> s[j] == secs[j].start && e[j] == secs[j].end;
  }

  /** The bytes of a section table entry. */
  function EncodeSection(x: FdstSection): (b: seq<u8>)
    ensures |b| == 8
  {
    BytesBE32(x.start) + BytesBE32(x.end)
  }

  /** The section table as a writer lays it out. */
  function EncodeSections(secs: seq<FdstSection>): (b: seq<u8>)
    ensures |b| == 8 * |secs|
    decreases |secs|
  {
    if secs == [] then [] else EncodeSections(secs[..|secs| - 1]) + EncodeSection(secs[|secs| - 1])
  }

  /** A whole FDST record for the sections `secs`. */
  function EncodeFdst(secs: seq<FdstSection>): (b: seq<u8>)
    requires |secs| < U32_MOD
    ensures |b| == FDST_DATA_OFFSET + 8 * |secs|
  {
    FDST_MAGIC + BytesBE32(FDST_DATA_OFFSET as u32) + BytesBE32(|secs| as u32) + EncodeSections(secs)
  }

  /** The table entries are read back from a laid-out table. */
  lemma {:induction false} SectionsRoundTrip(d: seq<u8>, o: nat, secs: seq<FdstSection>)
    requires o + 8 * |secs| <= |d| && d[o..o + 8 * |secs|] == EncodeSections(secs)
    ensures SectionsAt(d, o, |secs|) == secs
    decreases |secs|
  {
    if secs != [] {
      var k := |secs|;
      var front, last := secs[..k - 1], secs[k - 1];
      var a := o + 8 * (k - 1);
      assert EncodeSections(secs) == EncodeSections(front) + EncodeSection(last);
      SplitSlice(d, o, EncodeSections(front), EncodeSection(last));
      SectionsRoundTrip(d, o, front);
      SplitSlice(d, a, BytesBE32(last.start), BytesBE32(last.end));
      BE32RoundTrip(last.start);
      BE32RoundTrip(last.end);
    }
  }

  /** A record laid out for at least two sections, whose count the MOBI
      header announces, parses back into those sections. */
  lemma {:induction false} FdstRoundTrip(secs: seq<FdstSection>)
    requires 1 < |secs| < U32_MOD
    ensures FdstSpec(Some(EncodeFdst(secs)), |secs| as u32) == FdstParse(Success, Some(secs))
  {
    var d := EncodeFdst(secs);
    var n := |secs|;
    var p1 := FDST_MAGIC + BytesBE32(FDST_DATA_OFFSET as u32);
    var p2 := p1 + BytesBE32(n as u32);
    assert d[0..|d|] == p2 + EncodeSections(secs);
    SplitSlice(d, 0, p2, EncodeSections(secs));
    SplitSlice(d, 0, p1, BytesBE32(n as u32));
    SplitSlice(d, 0, FDST_MAGIC, BytesBE32(FDST_DATA_OFFSET as u32));
    TakeBytesEncoded(d, Over(d), FDST_MAGIC);
    var m := TakeBytes(d, Over(d), 4);
    Take32Encoded(d, m.st, FDST_DATA_OFFSET as u32);
    var off := Take32(d, m.st);
    Take32Encoded(d, off.st, n as u32);
    SectionsRoundTrip(d, FDST_DATA_OFFSET, secs);
  }

  /** A record whose count disagrees with the MOBI header's is refused. */
  lemma FdstRejectsCount(d: seq<u8>, declared: u32)
    requires |d| >= FDST_DATA_OFFSET && BE32(d[8..12]) != declared
    ensures FdstSpec(Some(d), declared) == FdstParse(DataCorrupt, None)
  {
  }
}
