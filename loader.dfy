/** Loading a whole book from memory (src/read.c): the Palm database
    header, the record list, each record's bytes, then record 0 of the
    KF7 part and, in a hybrid file, record 0 of the KF8 part. The loaders
    read through a `MEMORY_FILE` and fill a `MOBIData`. */
module Loader {
  import opened Common
  import opened MemFile
  import opened Pdb
  import opened MobiHeader
  import opened Exth
  import opened Record0

  const BOOK_TYPE: seq<u8> := [0x42, 0x4F, 0x4F, 0x4B]  // "BOOK"
  const TEXT_TYPE: seq<u8> := [0x54, 0x45, 0x58, 0x74]  // "TEXt"

  /** `MOBIPdbRecord`: the record information entry, then the size and the
      bytes that `mobi_load_rec_memory` fills in (None until loaded). */
  datatype PdbRecord = PdbRecord(offset: u32, attributes: u8, uid: nat, size: nat, data: Option<seq<u8>>)

  /** The zeroed record that calloc provides. */
  const EmptyRecord: PdbRecord := PdbRecord(0, 0, 0, 0, None)

  /** The headers that record 0 of the KF8 part of a hybrid file gives `m->next`. */
  datatype Kf8Part = Kf8Part(rh: Option<Record0Header>, mh: Option<MobiHeader>, eh: Option<seq<ExthRecord>>)

  /** The fields of a `MOBIData` that loading fills: the PalmDB header, the
      record list, the three headers of record 0, the KF8 boundary and the
      KF8 part. */
  datatype MobiState = MobiState(
    ph: Option<PdbHeader>, rec: seq<PdbRecord>,
    rh: Option<Record0Header>, mh: Option<MobiHeader>, eh: Option<seq<ExthRecord>>,
    kf8Boundary: Option<u32>, next: Option<Kf8Part>)

  /** A loader's return code and the resulting state. */
  datatype Loaded = Loaded(ret: MobiRet, st: MobiState)

  /** `MOBIData`. */
  class MobiData {
    var ph: Option<PdbHeader>
    var rec: seq<PdbRecord>
    var rh: Option<Record0Header>
    var mh: Option<MobiHeader>
    var eh: Option<seq<ExthRecord>>
    var kf8Boundary: Option<u32>
    var next: Option<Kf8Part>

    /** The structure `mobi_init` returns, assumed to hold nothing loaded:
        util.c is not part of this model. */
    constructor Init()
      ensures State() == MobiState(None, [], None, None, None, None, None)
    {
      ph, rec, rh, mh, eh, kf8Boundary, next := None, [], None, None, None, None, None;
    }

    function State(): MobiState
      reads this
    {
      MobiState(ph, rec, rh, mh, eh, kf8Boundary, next)
    }
  }

  // ---------------------------------------------------------------- PalmDB header

  /** The header that a 78-byte read at `pos` yields, None when fewer bytes remain. */
  function PdbHeaderAt(b: seq<u8>, pos: nat): (h: Option<PdbHeader>)
    ensures h.Some? <==> pos + PALMDB_HEADER_LEN <= |b|
    ensures h.Some? ==> h.value == DecodePdbHeader(b[pos..pos + PALMDB_HEADER_LEN]) && h.value.WellFormed()
  {
    if pos + PALMDB_HEADER_LEN <= |b| then Some(DecodePdbHeader(b[pos..pos + PALMDB_HEADER_LEN])) else None
  }

  /** `mobi_load_pdbheader_memory`. */
  method LoadPdbHeader(m: MobiData, file: MemoryFile) returns (ret: MobiRet)
    requires file.Valid()
    modifies m, file
    ensures file.Valid()
    ensures file.currentFilePosition == Min(old(file.currentFilePosition) + PALMDB_HEADER_LEN, file.fileLength)
    ensures var h := PdbHeaderAt(file.fileBuffer, old(file.currentFilePosition));
      (ret == Success <==> h.Some?) && (ret != Success ==> ret == DataCorrupt) &&
      m.State() == (if h.Some? then old(m.State()).(ph := h) else old(m.State()))
  {
    var data, len := file.Read(PALMDB_HEADER_LEN);
    if len != PALMDB_HEADER_LEN {
      return DataCorrupt;
    }
    m.ph := Some(DecodePdbHeader(data));
    return Success;
  }

  // ---------------------------------------------------------------- record list

  /** The record of an information entry, before its data is loaded. */
  function RecordOf(info: RecordInfo): (r: PdbRecord)
    ensures r.size == 0 && r.data.None?
  {
    PdbRecord(info.offset, info.attributes, info.uid, 0, None)
  }

  /** The first `k` entries of the record list at `pos`. */
  function InfoRecords(b: seq<u8>, pos: nat, k: nat): (r: seq<PdbRecord>)
    requires pos + PALMDB_RECORD_INFO_SIZE * k <= |b|
    ensures |r| == k
    decreases k
  {
    if k == 0 then []
    else
      var a := pos + PALMDB_RECORD_INFO_SIZE * (k - 1);
      InfoRecords(b, pos, k - 1) + [RecordOf(DecodeRecordInfo(b[a..a + PALMDB_RECORD_INFO_SIZE]))]
  }

  /** The list as the loop leaves it after `k` entries were read: the
      calloc'd first record stays zeroed until an entry fills it. */
  function ListAfter(b: seq<u8>, pos: nat, k: nat): (r: seq<PdbRecord>)
    requires pos + PALMDB_RECORD_INFO_SIZE * k <= |b|
    ensures |r| == Max(k, 1)
  {
    if k == 0 then [EmptyRecord] else InfoRecords(b, pos, k)
  }

  /** What `mobi_load_reclist_memory` leaves for `count` entries read from
      position `pos`: the return code, the list and the stream position.
      A short read stops the loop at the end of the stream. */
  datatype RecList = RecList(ret: MobiRet, recs: seq<PdbRecord>, pos: nat)

  function RecListSpec(b: seq<u8>, pos: nat, count: nat): (r: RecList)
    requires pos <= |b|
    ensures r.ret == Success <==> pos + PALMDB_RECORD_INFO_SIZE * count <= |b|
    ensures r.ret != Success ==> r.ret == DataCorrupt && r.pos == |b|
    ensures r.ret == Success ==> r.pos == pos + PALMDB_RECORD_INFO_SIZE * count && r.recs == ListAfter(b, pos, count)
    ensures 1 <= |r.recs| <= Max(count, 1)
  {
    if pos + PALMDB_RECORD_INFO_SIZE * count <= |b| then
      RecList(Success, ListAfter(b, pos, count), pos + PALMDB_RECORD_INFO_SIZE * count)
    else
      var fit := (|b| - pos) / PALMDB_RECORD_INFO_SIZE;
      RecList(DataCorrupt, ListAfter(b, pos, fit), |b|)
  }

  /** `mobi_load_reclist_memory` for the `count` entries the header announces. */
  method LoadRecList(m: MobiData, file: MemoryFile, count: u16) returns (ret: MobiRet)
    requires file.Valid()
    modifies m, file
    ensures file.Valid()
    ensures var r := RecListSpec(file.fileBuffer, old(file.currentFilePosition), count as nat);
      ret == r.ret && file.currentFilePosition == r.pos && m.State() == old(m.State()).(rec := r.recs)
  {
    ghost var b, p0 := file.fileBuffer, file.currentFilePosition;
    m.rec := [EmptyRecord];
    var i := 0;
    while i < count as nat
      invariant 0 <= i <= count as nat && file.Valid() && file.fileBuffer == b
      invariant file.currentFilePosition == p0 + PALMDB_RECORD_INFO_SIZE * i
      invariant m.State() == old(m.State()).(rec := ListAfter(b, p0, i))
    {
      var data, len := file.Read(PALMDB_RECORD_INFO_SIZE);
      if len != PALMDB_RECORD_INFO_SIZE {
        FitCount(|b| - p0, i);
        return DataCorrupt;
      }
      ListAfterNext(b, p0, i);
      var r := RecordOf(DecodeRecordInfo(data));
      if i > 0 {
        m.rec := m.rec + [r];
      } else {
        m.rec := [r];
      }
      i := i + 1;
    }
    return Success;
  }

  /** Reading one more entry appends it, or fills the calloc'd first record. */
  lemma ListAfterNext(b: seq<u8>, pos: nat, i: nat)
    requires pos + PALMDB_RECORD_INFO_SIZE * (i + 1) <= |b|
    ensures var a := pos + PALMDB_RECORD_INFO_SIZE * i;
      ListAfter(b, pos, i + 1) ==
      (if i == 0 then [] else ListAfter(b, pos, i)) + [RecordOf(DecodeRecordInfo(b[a..a + PALMDB_RECORD_INFO_SIZE]))]
  {
  }

  /** The number of whole entries in `room` bytes is `i` when the i-th does not fit. */
  lemma FitCount(room: nat, i: nat)
    requires PALMDB_RECORD_INFO_SIZE * i <= room < PALMDB_RECORD_INFO_SIZE * (i + 1)
    ensures room / PALMDB_RECORD_INFO_SIZE == i
  {
  }

  /** Each entry's uid is below 2^24. */
  lemma {:induction false} RecordUidsBounded(b: seq<u8>, pos: nat, k: nat)
    requires pos + PALMDB_RECORD_INFO_SIZE * k <= |b|
    ensures forall j :: 0 <= j < k ==> InfoRecords(b, pos, k)[j].uid < 0x100_0000
    decreases k
  {
    if k > 0 {
      RecordUidsBounded(b, pos, k - 1);
    }
  }

  /** Entry j of the list is decoded from the eight bytes at `pos + 8 * j`. */
  lemma {:induction false} InfoRecordsAt(b: seq<u8>, pos: nat, k: nat)
    requires pos + PALMDB_RECORD_INFO_SIZE * k <= |b|
    ensures forall j :: 0 <= j < k ==>
      var a := pos + PALMDB_RECORD_INFO_SIZE * j;
      InfoRecords(b, pos, k)[j] == RecordOf(DecodeRecordInfo(b[a..a + PALMDB_RECORD_INFO_SIZE]))
    decreases k
  {
    if k > 0 {
      InfoRecordsAt(b, pos, k - 1);
    }
  }

  // ---------------------------------------------------------------- record data

  /** The size of record `i`: the distance to the next record's offset in
      32-bit arithmetic, or for the last record the distance to the end of
      the stream, None when that is not positive. */
  function RecordSize(b: seq<u8>, recs: seq<PdbRecord>, i: nat): (r: Option<nat>)
    requires i < |recs|
    ensures i + 1 < |recs| ==> r == Some(GapSize(recs[i].offset, recs[i + 1].offset) as nat)
    ensures i + 1 == |recs| ==> (r.Some? <==> recs[i].offset < |b|)
    ensures i + 1 == |recs| && r.Some? ==> r.value == |b| - recs[i].offset
  {
    if i + 1 < |recs| then Some(GapSize(recs[i].offset, recs[i + 1].offset) as nat)
    else if |b| - recs[i].offset > 0 then Some(|b| - recs[i].offset)
    else None
  }

  /** What the record loop leaves: the return code, the list (emptied when
      `mobi_free_rec` released it) and the stream position. */
  datatype RecLoad = RecLoad(ret: MobiRet, recs: seq<PdbRecord>, pos: nat)

  /** `mobi_load_recdata_memory` for a record of `size` bytes at `offset`:
      the seek fails past the end, and a short read leaves the data truncated. */
  function RecDataSpec(b: seq<u8>, pos: nat, offset: nat, size: nat): (r: Read<Option<seq<u8>>>)
    ensures r.val.Some? <==> offset + size <= |b|
    ensures r.val.Some? ==> r.val.value == b[offset..offset + size] && r.pos == offset + size
    ensures r.pos <= Max(pos, |b|)
  {
    if offset > |b| then Read(None, pos)
    else if offset + size > |b| then Read(None, |b|)
    else Read(Some(b[offset..offset + size]), offset + size)
  }

  /** A value together with the stream position after it was produced. */
  datatype Read<T> = Read(val: T, pos: nat)

  /** One turn of the loop of `mobi_load_rec_memory`, for record `i`, from
      the stream position `pos`. Before the last record the stream is
      moved to its end to learn its length. */
  function LoadStep(b: seq<u8>, recs: seq<PdbRecord>, i: nat, pos: nat): (r: RecLoad)
    requires i < |recs| && pos <= |b|
    ensures r.pos <= |b|
    ensures r.ret == Success || r.ret == DataCorrupt
    ensures r.ret == Success ==> |r.recs| == |recs|
  {
    var size := RecordSize(b, recs, i);
    var p := if i + 1 < |recs| then pos else |b|;
    if size.None? then RecLoad(DataCorrupt, recs, p)
    else
      var d := RecDataSpec(b, p, recs[i].offset as nat, size.value);
      if d.val.None? then RecLoad(DataCorrupt, [], d.pos)
      else RecLoad(Success, recs[i := recs[i].(size := size.value, data := d.val)], d.pos)
  }

  /** The first `k` turns of the loop, stopping at the first that fails. */
  function LoadRecs(b: seq<u8>, recs: seq<PdbRecord>, k: nat, pos: nat): (r: RecLoad)
    requires k <= |recs| && pos <= |b|
    ensures r.pos <= |b|
    ensures r.ret == Success || r.ret == DataCorrupt
    ensures r.ret == Success ==> |r.recs| == |recs|
    decreases k
  {
    if k == 0 then RecLoad(Success, recs, pos)
    else
      var p := LoadRecs(b, recs, k - 1, pos);
      if p.ret != Success then p else LoadStep(b, p.recs, k - 1, p.pos)
  }

  /** `mobi_load_recdata_memory`. */
  method LoadRecData(file: MemoryFile, offset: u32, size: nat) returns (data: Option<seq<u8>>)
    requires file.Valid()
    modifies file
    ensures file.Valid()
    ensures var r := RecDataSpec(file.fileBuffer, old(file.currentFilePosition), offset as nat, size);
      data == r.val && file.currentFilePosition == r.pos
  {
    var ret := file.Seek(offset as int, SEEK_SET);
    if ret != 0 {
      return None;
    }
    var bytes, len := file.Read(size);
    if len < size {
      return None;
    }
    return Some(bytes);
  }

  /** One turn of the loop of `mobi_load_rec_memory`. */
  method LoadOne(m: MobiData, file: MemoryFile, i: nat) returns (ret: MobiRet)
    requires file.Valid() && i < |m.rec|
    modifies m, file
    ensures file.Valid()
    ensures var r := LoadStep(file.fileBuffer, old(m.rec), i, old(file.currentFilePosition));
      ret == r.ret && file.currentFilePosition == r.pos && m.State() == old(m.State()).(rec := r.recs)
  {
    var size: nat;
    if i + 1 < |m.rec| {
      size := GapSize(m.rec[i].offset, m.rec[i + 1].offset) as nat;
    } else {
      var ignored := file.Seek(0, SEEK_END);
      var end := file.Tell();
      var diff := end - m.rec[i].offset as int;
      if diff <= 0 {
        return DataCorrupt;
      }
      size := diff;
    }
    var data := LoadRecData(file, m.rec[i].offset, size);
    if data.None? {
      m.rec := [];
      return DataCorrupt;
    }
    m.rec := m.rec[i := m.rec[i].(size := size, data := data)];
    return Success;
  }

  /** `mobi_load_rec_memory`. */
  method LoadRec(m: MobiData, file: MemoryFile) returns (ret: MobiRet)
    requires file.Valid()
    modifies m, file
    ensures file.Valid()
    ensures var r := LoadRecs(file.fileBuffer, old(m.rec), |old(m.rec)|, old(file.currentFilePosition));
      ret == r.ret && file.currentFilePosition == r.pos && m.State() == old(m.State()).(rec := r.recs)
  {
    ghost var recs, b, p0 := m.rec, file.fileBuffer, file.currentFilePosition;
    var n := |m.rec|;
    var i := 0;
    ret := Success;
    while i < n && ret == Success
      invariant n == |recs| && 0 <= i <= n && file.Valid() && file.fileBuffer == b
      invariant LoadRecs(b, recs, i, p0) == RecLoad(ret, m.rec, file.currentFilePosition)
      invariant m.State() == old(m.State()).(rec := m.rec)
      invariant ret == Success ==> |m.rec| == |recs|
      decreases |recs| - i
    {
      ret := LoadOne(m, file, i);
      i := i + 1;
    }
    if ret != Success {
      LoadRecsStop(b, recs, i, |recs|, p0);
    }
  }

  /** Once a turn fails, the later ones do not run. */
  lemma {:induction false} LoadRecsStop(b: seq<u8>, recs: seq<PdbRecord>, k: nat, n: nat, pos: nat)
    requires k <= n <= |recs| && pos <= |b|
    requires LoadRecs(b, recs, k, pos).ret != Success
    ensures LoadRecs(b, recs, n, pos) == LoadRecs(b, recs, k, pos)
    decreases n - k
  {
    if n > k {
      LoadRecsStop(b, recs, k, n - 1, pos);
    }
  }

  /** Record `j` of `out` holds the information of record `j` of `recs`,
      its size and the bytes of the stream it covers. */
  predicate LoadedAt(b: seq<u8>, recs: seq<PdbRecord>, out: seq<PdbRecord>, j: nat)
    requires j < |recs| && j < |out|
  {
    RecordSize(b, recs, j) == Some(out[j].size) &&
    out[j] == recs[j].(size := out[j].size, data := out[j].data) &&
    recs[j].offset as nat + out[j].size <= |b| &&
    out[j].data == Some(b[recs[j].offset..recs[j].offset as nat + out[j].size])
  }

  /** The records below `k` are loaded and those from `k` on untouched. */
  predicate LoadedBelow(b: seq<u8>, recs: seq<PdbRecord>, out: seq<PdbRecord>, k: nat)
  {
    |out| == |recs| && k <= |recs| &&
    (forall j :: 0 <= j < k ==> LoadedAt(b, recs, out, j)) &&
    (forall j :: k <= j < |recs| ==> out[j] == recs[j])
  }

  /** After `k` successful turns, the first `k` records are loaded. */
  lemma {:induction false} LoadRecsLoaded(b: seq<u8>, recs: seq<PdbRecord>, k: nat, pos: nat)
    requires k <= |recs| && pos <= |b|
    ensures var r := LoadRecs(b, recs, k, pos);
      r.ret == Success ==> LoadedBelow(b, recs, r.recs, k)
    decreases k
  {
    var r := LoadRecs(b, recs, k, pos);
    if k > 0 && r.ret == Success {
      var p := LoadRecs(b, recs, k - 1, pos);
      LoadRecsLoaded(b, recs, k - 1, pos);
      assert p.ret == Success && r == LoadStep(b, p.recs, k - 1, p.pos);
      LoadStepLoads(b, recs, p.recs, k - 1, p.pos);
    }
  }

  /** A successful turn loads record `i` and nothing else. */
  lemma LoadStepLoads(b: seq<u8>, recs: seq<PdbRecord>, cur: seq<PdbRecord>, i: nat, pos: nat)
    requires i < |recs| && pos <= |b| && LoadedBelow(b, recs, cur, i)
    ensures var r := LoadStep(b, cur, i, pos);
      r.ret == Success ==> LoadedBelow(b, recs, r.recs, i + 1)
  {
    var r := LoadStep(b, cur, i, pos);
    if r.ret == Success {
      assert cur[i] == recs[i];
      assert RecordSize(b, cur, i) == RecordSize(b, recs, i) by {
        if i + 1 < |recs| {
          assert cur[i + 1] == recs[i + 1];
        }
      }
      forall j | 0 <= j < i + 1
        ensures LoadedAt(b, recs, r.recs, j)
      {
        if j < i {
          assert r.recs[j] == cur[j];
          assert LoadedAt(b, recs, cur, j);
        }
      }
      forall j | i + 1 <= j < |recs|
        ensures r.recs[j] == recs[j]
      {
        assert r.recs[j] == cur[j];
      }
    }
  }

  // ---------------------------------------------------------------- whole file

  /** The data of the record at sequence number `n`, as
      `mobi_get_record_by_seqnumber` finds it; None when there is none. */
  function RecordData(recs: seq<PdbRecord>, n: nat): Option<seq<u8>>
  {
    if n < |recs| then recs[n].data else None
  }

  /** Whether the PalmDB type names a book the library reads. */
  predicate SupportedType(h: PdbHeader)
  {
    h.dbType == BOOK_TYPE || h.dbType == TEXT_TYPE
  }

  /** `mobi_load_file_memory` on the stream `b` from its start, from the
      state `s`. `isMobipocket` is what `mobi_is_mobipocket` answers for the
      header and `boundary` what `mobi_get_kf8boundary_seqnumber` answers
      for the EXTH header (None for MOBI_NOTSET). */
  function LoadFileSpec(b: seq<u8>, isMobipocket: bool, boundary: Option<nat>, s: MobiState): (r: Loaded)
    ensures r.ret == Success || r.ret == DataCorrupt || r.ret == FileUnsupported
    ensures |b| < PALMDB_HEADER_LEN ==> r == Loaded(DataCorrupt, s)
    ensures |b| >= PALMDB_HEADER_LEN ==> r.st.ph == PdbHeaderAt(b, 0)
    ensures r.ret == FileUnsupported <==> |b| >= PALMDB_HEADER_LEN && !SupportedType(PdbHeaderAt(b, 0).value)
    ensures |b| >= PALMDB_HEADER_LEN && SupportedType(PdbHeaderAt(b, 0).value) && PdbHeaderAt(b, 0).value.recCount == 0 ==>
      r.ret == DataCorrupt
  {
    var h := PdbHeaderAt(b, 0);
    if h.None? then Loaded(DataCorrupt, s)
    else
      var s1 := s.(ph := h);
      if !SupportedType(h.value) then Loaded(FileUnsupported, s1)
      else if h.value.recCount == 0 then Loaded(DataCorrupt, s1)
      else
        var l := RecListSpec(b, PALMDB_HEADER_LEN, h.value.recCount as nat);
        if l.ret != Success then Loaded(l.ret, s1.(rec := l.recs))
        else
          var d := LoadRecs(b, l.recs, |l.recs|, l.pos);
          if d.ret != Success then Loaded(d.ret, s1.(rec := d.recs))
          else ParseHeaders(s1.(rec := d.recs), isMobipocket, boundary)
  }

  /** Whether the file is a hybrid one whose KF8 part is loaded: record 0
      has an EXTH header and the boundary record number is set and not at the
      top of the 32-bit range. */
  predicate Hybrid(p: Record0Parse, boundary: Option<nat>)
  {
    p.eh.Some? && boundary.Some? && boundary.value < U32_MOD - 1
  }

  /** The record 0 of the KF8 part, the record after the boundary. */
  function Kf8Record(recs: seq<PdbRecord>, boundary: Option<nat>): Option<seq<u8>>
  {
    if boundary.Some? then RecordData(recs, boundary.value + 1) else None
  }

  /** The headers stored from the parse `p` of record 0 and the parse `k` of
      the KF8 part's record 0, which only a hybrid file uses. */
  function StoreHeaders(s: MobiState, p: Record0Parse, boundary: Option<nat>, k: Record0Parse): Loaded
  {
    if p.ret != Success then Loaded(p.ret, s)
    else
      var s2 := s.(rh := p.rh, mh := p.mh, eh := p.eh);
      if !Hybrid(p, boundary) then Loaded(Success, s2)
      else Loaded(k.ret, s2.(kf8Boundary := Some(boundary.value as u32), next := Some(Kf8Part(k.rh, k.mh, k.eh))))
  }

  /** The part of `mobi_load_file_memory` after the records are loaded:
      record 0, then for a hybrid file the KF8 part's record 0, which
      follows the boundary record. */
  function ParseHeaders(s: MobiState, isMobipocket: bool, boundary: Option<nat>): (r: Loaded)
    ensures r.ret == Success || r.ret == DataCorrupt
    ensures r.st.ph == s.ph && r.st.rec == s.rec
    ensures var p := ParseRecord0Spec(RecordData(s.rec, 0), isMobipocket);
      p.ret != Success ==> r == Loaded(p.ret, s)
    ensures var p := ParseRecord0Spec(RecordData(s.rec, 0), isMobipocket);
      p.ret == Success ==> (r.st.rh, r.st.mh, r.st.eh) == (p.rh, p.mh, p.eh)
    ensures var p := ParseRecord0Spec(RecordData(s.rec, 0), isMobipocket);
      p.ret == Success && !Hybrid(p, boundary) ==> r.ret == Success && r.st.kf8Boundary == s.kf8Boundary && r.st.next == s.next
    ensures var p := ParseRecord0Spec(RecordData(s.rec, 0), isMobipocket);
      p.ret == Success && Hybrid(p, boundary) ==>
        var k := ParseRecord0Spec(RecordData(s.rec, boundary.value + 1), isMobipocket);
        r.ret == k.ret && r.st.kf8Boundary == Some(boundary.value as u32) && r.st.next == Some(Kf8Part(k.rh, k.mh, k.eh))
  {
    StoreHeaders(s, ParseRecord0Spec(RecordData(s.rec, 0), isMobipocket), boundary,
                 ParseRecord0Spec(Kf8Record(s.rec, boundary), isMobipocket))
  }

  /** `mobi_load_file_memory` on a stream at its start. */
  method LoadFileMemory(m: MobiData, file: MemoryFile, isMobipocket: bool, boundary: Option<nat>) returns (ret: MobiRet)
    requires file.Valid() && file.currentFilePosition == 0
    modifies m, file
    ensures Loaded(ret, m.State()) == LoadFileSpec(file.fileBuffer, isMobipocket, boundary, old(m.State()))
  {
    ret := LoadPdbHeader(m, file);
    if ret != Success {
      return;
    }
    var h := m.ph.value;
    if !SupportedType(h) {
      return FileUnsupported;
    }
    if h.recCount == 0 {
      return DataCorrupt;
    }
    ret := LoadRecList(m, file, h.recCount);
    if ret != Success {
      return;
    }
    ret := LoadRec(m, file);
    if ret != Success {
      return;
    }
    ret := LoadHeaders(m, isMobipocket, boundary);
  }

  /** The end of `mobi_load_file_memory`: record 0 and, for a hybrid file,
      the KF8 part's record 0. */
  method LoadHeaders(m: MobiData, isMobipocket: bool, boundary: Option<nat>) returns (ret: MobiRet)
    modifies m
    ensures Loaded(ret, m.State()) == ParseHeaders(old(m.State()), isMobipocket, boundary)
  {
    ghost var s := m.State();
    var recs := m.rec;
    var p := ParseRecord0(RecordData(recs, 0), isMobipocket);
    ghost var kf8 := ParseRecord0Spec(Kf8Record(recs, boundary), isMobipocket);
    assert ParseHeaders(s, isMobipocket, boundary) == StoreHeaders(s, p, boundary, kf8);
    if p.ret != Success {
      return p.ret;
    }
    m.rh, m.mh, m.eh := p.rh, p.mh, p.eh;
    if p.eh.Some? && boundary.Some? && boundary.value < U32_MOD - 1 {
      m.kf8Boundary := Some(boundary.value as u32);
      var k := ParseRecord0(RecordData(recs, boundary.value + 1), isMobipocket);
      assert k == kf8;
      m.next := Some(Kf8Part(k.rh, k.mh, k.eh));
      return k.ret;
    }
    return Success;
  }

  /** A file that loads has one record per entry the header announces, each
      holding the bytes from its offset up to the next record's offset (or
      the end of the file), all inside the file, and a parsed record 0. */
  lemma LoadFileRecords(b: seq<u8>, isMobipocket: bool, boundary: Option<nat>, s: MobiState)
    requires LoadFileSpec(b, isMobipocket, boundary, s).ret == Success
    ensures var r := LoadFileSpec(b, isMobipocket, boundary, s);
      var h := PdbHeaderAt(b, 0).value;
      var info := InfoRecords(b, PALMDB_HEADER_LEN, h.recCount as nat);
      SupportedType(h) && h.recCount > 0 &&
      PALMDB_HEADER_LEN + PALMDB_RECORD_INFO_SIZE * h.recCount as nat <= |b| &&
      LoadedBelow(b, info, r.st.rec, |info|) &&
      ParseRecord0Spec(RecordData(r.st.rec, 0), isMobipocket).ret == Success
  {
    var h := PdbHeaderAt(b, 0).value;
    var l := RecListSpec(b, PALMDB_HEADER_LEN, h.recCount as nat);
    LoadRecsLoaded(b, l.recs, |l.recs|, l.pos);
  }

  /** A file whose record list runs past its end does not load. */
  lemma TruncatedListRejected(b: seq<u8>, isMobipocket: bool, boundary: Option<nat>, s: MobiState)
    requires |b| >= PALMDB_HEADER_LEN && SupportedType(PdbHeaderAt(b, 0).value)
    requires PALMDB_HEADER_LEN + PALMDB_RECORD_INFO_SIZE * PdbHeaderAt(b, 0).value.recCount as nat > |b|
    ensures LoadFileSpec(b, isMobipocket, boundary, s).ret == DataCorrupt
  {
  }

  /** A record whose offset lies at or beyond the end of the file cannot be
      the last one. */
  lemma LastRecordInside(b: seq<u8>, recs: seq<PdbRecord>, pos: nat)
    requires recs != [] && pos <= |b| && recs[|recs| - 1].offset as nat >= |b|
    ensures LoadRecs(b, recs, |recs|, pos).ret == DataCorrupt
  {
    var n := |recs|;
    var p := LoadRecs(b, recs, n - 1, pos);
    if p.ret == Success {
      assert p.recs[n - 1] == recs[n - 1] by {
        LoadRecsLoaded(b, recs, n - 1, pos);
      }
    }
  }
}
