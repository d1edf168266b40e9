/** The EXTH header of record 0 (`mobi_parse_extheader`, src/read.c): the
    magic "EXTH", a declared length, a record count and then records of a
    tag, a size that counts its own eight bytes, and data. */
module Exth {
  import opened Common
  import opened Buffer

  const EXTH_MAGIC: seq<u8> := [0x45, 0x58, 0x54, 0x48]  // "EXTH"
  const EXTH_HEADER_LEN: nat := 12
  const MOBI_EXTH_MAXCNT: nat := 1024

  /** `MOBIExthHeader`, one node of the list. */
  datatype ExthRecord = ExthRecord(tag: u32, size: u32, data: seq<u8>)

  /** The zeroed node that calloc provides. */
  const EmptyExth: ExthRecord := ExthRecord(0, 0, [])

  /** The outcome of the parser, with the buffer it leaves behind. */
  datatype ExthParse = ExthParse(ret: MobiRet, eh: Option<seq<ExthRecord>>, st: BufState)

  /** The end of the EXTH data that the sanity check compares with `maxlen`:
      `(size_t)(declared - 12) + offset`, which wraps when `declared < 12`. */
  function ExthLimit(declared: u32, offset: nat): (limit: nat)
    ensures limit < SIZE_MOD
    ensures declared >= EXTH_HEADER_LEN && declared - EXTH_HEADER_LEN + offset < SIZE_MOD
      ==> limit == declared - EXTH_HEADER_LEN + offset
    ensures declared < EXTH_HEADER_LEN && EXTH_HEADER_LEN - declared <= offset < SIZE_MOD
      ==> limit == offset - (EXTH_HEADER_LEN - declared)
  {
    var length := if declared >= EXTH_HEADER_LEN then declared - EXTH_HEADER_LEN
      else declared + SIZE_MOD - EXTH_HEADER_LEN;
    (length + offset) % SIZE_MOD
  }

  /** `curr->size = get32 - 8` in 32-bit unsigned arithmetic. */
  function DataSize(declared: u32): (size: u32)
    ensures size == (declared - 8) % U32_MOD
  {
    if declared >= 8 then declared - 8 else declared + U32_MOD - 8
  }

  function Last(s: seq<ExthRecord>): ExthRecord
    requires |s| > 0
  {
    s[|s| - 1]
  }

  /** The nodes that stay in the list when the next record is read: all of
      them when the last one holds data (`curr->data` is set, which happens
      exactly when its size is not 0), otherwise all but the last, which the
      next record reuses. */
  function Kept(acc: seq<ExthRecord>): (k: seq<ExthRecord>)
    requires |acc| > 0
    ensures k == acc || k == acc[..|acc| - 1]
  {
    if Last(acc).size != 0 then acc else acc[..|acc| - 1]
  }

  /** What one pass of the loop reads: a record, or Broken when its data
      would cross `maxlen`. */
  datatype RecordRead = Broken(st: BufState) | Record(rec: ExthRecord, st: BufState)

  /** One record: a tag and a size read with two `get32`, then as many
      bytes as the size says less its own eight. A record of data size 0 has
      no data. When the two words do not fit, the size reads as 0 and wraps
      to a data size that cannot fit either. */
  function ReadRecord(d: seq<u8>, s: BufState): (r: RecordRead)
    requires s.Valid(d)
    ensures r.st.Valid(d) && r.st.maxlen == s.maxlen
  {
    if s.offset + 8 > s.maxlen then Broken(if s.offset + 4 > s.maxlen then s.(failed := true) else s.(offset := s.offset + 4, failed := true))
    else
      var tag := BE32(d[s.offset..s.offset+4]);
      var size := DataSize(BE32(d[s.offset+4..s.offset+8]));
      if size == 0 then Record(ExthRecord(tag, 0, []), s.(offset := s.offset+8))
      else if s.offset+8+size > s.maxlen then Broken(s.(offset := s.offset+8))
      else Record(ExthRecord(tag, size, d[s.offset+8..s.offset+8+size]), s.(offset := s.offset+8+size))
  }

  /** The record read is what two `get32` and a `getraw` yield. */
  lemma {:induction false} ReadRecordByTakes(d: seq<u8>, s: BufState)
    requires s.Valid(d)
    ensures var t := Take32(d, s);
      var z := Take32(d, t.st);
      var size := DataSize(z.val);
      ReadRecord(d, s) ==
        if size == 0 then Record(ExthRecord(t.val, 0, []), z.st)
        else if z.st.offset + size > z.st.maxlen then Broken(z.st)
        else Record(ExthRecord(t.val, size, TakeBytes(d, z.st, size).val), TakeBytes(d, z.st, size).st)
  {
  }

  /** The list and buffer after reading `k` more records into list `acc`,
      or None when a record's data would cross `maxlen`. */
  function ExthRecordsFrom(d: seq<u8>, s: BufState, k: nat, acc: seq<ExthRecord>): (r: (Option<seq<ExthRecord>>, BufState))
    requires s.Valid(d) && |acc| > 0
    ensures r.1.Valid(d) && r.1.maxlen == s.maxlen
    decreases k, 1
  {
    if k == 0 then (Some(acc), s) else ExthPass(d, s, k, acc)
  }

  /** One pass of the loop, followed by the remaining `k - 1`. */
  function ExthPass(d: seq<u8>, s: BufState, k: nat, acc: seq<ExthRecord>): (r: (Option<seq<ExthRecord>>, BufState))
    requires s.Valid(d) && |acc| > 0 && k > 0
    ensures r.1.Valid(d) && r.1.maxlen == s.maxlen
    decreases k, 0
  {
    match ReadRecord(d, s)
    case Broken(st) => (None, st)
    case Record(rec, st) => ExthRecordsFrom(d, st, k - 1, Kept(acc) + [rec])
  }

  /** The twelve header bytes as the sanity check sees them: the magic, the
      declared length, the record count, and the buffer after them. */
  datatype ExthHead = ExthHead(magic: seq<u8>, declared: u32, count: u32, h: BufState)

  function ReadExthHead(d: seq<u8>, s: BufState): (r: ExthHead)
    requires s.Valid(d)
    ensures r.h.Valid(d) && r.h.maxlen == s.maxlen
  {
    var m := TakeBytes(d, s, 4);
    var n := Take32(d, m.st);
    var c := Take32(d, n.st);
    ExthHead(m.val, n.val, c.val, c.st)
  }

  /** The sanity check on the header. */
  predicate HeadPasses(hd: ExthHead)
  {
    hd.magic == EXTH_MAGIC && ExthLimit(hd.declared, hd.h.offset) <= hd.h.maxlen
    && 0 < hd.count <= MOBI_EXTH_MAXCNT
  }

  /** The records read with `maxlen` narrowed to `limit`, and `maxlen`
      restored when all of them were read. */
  function ExthBody(d: seq<u8>, h: BufState, limit: nat, count: nat): (r: ExthParse)
    requires h.Valid(d) && limit <= h.maxlen
    ensures r.st.Valid(d)
    ensures r.ret == Success <==> r.eh.Some?
    ensures r.ret == Success ==> r.st.maxlen == h.maxlen
  {
    var recs := ExthRecordsFrom(d, h.(maxlen := limit), count, [EmptyExth]);
    if recs.0.Some? then ExthParse(Success, recs.0, recs.1.(maxlen := h.maxlen))
    else ExthParse(DataCorrupt, None, recs.1)
  }

  /** `mobi_parse_extheader` on a buffer value. */
  function ParseExthSpec(d: seq<u8>, s: BufState): (r: ExthParse)
    requires s.Valid(d)
    ensures r.st.Valid(d)
    ensures r.ret == Success <==> r.eh.Some?
    ensures r.ret == Success || r.ret == DataCorrupt
    ensures r.ret == Success ==> r.st.maxlen == s.maxlen
  {
    var hd := ReadExthHead(d, s);
    if !HeadPasses(hd) then ExthParse(DataCorrupt, None, hd.h)
    else ExthBody(d, hd.h, ExthLimit(hd.declared, hd.h.offset), hd.count)
  }

  /** `mobi_parse_extheader`: reads the header at the buffer's offset into a
      list of records, or DataCorrupt. */
  method ParseExtHeader(buf: MobiBuffer) returns (ret: MobiRet, eh: Option<seq<ExthRecord>>)
    requires buf.Valid()
    modifies buf
    ensures buf.Valid()
    ensures ParseExthSpec(buf.data, old(buf.State())) == ExthParse(ret, eh, buf.State())
  {
    ghost var s0 := buf.State();
    var magic := buf.GetBytes(4);
    var declared := buf.Get32();
    var recCount := buf.Get32();
    ghost var hd := ExthHead(magic, declared, recCount, buf.State());
    assert hd == ReadExthHead(buf.data, s0);
    var exthLength := if declared >= EXTH_HEADER_LEN then declared - EXTH_HEADER_LEN
      else declared + SIZE_MOD - EXTH_HEADER_LEN;
    ghost var limit := ExthLimit(declared, buf.offset);
    assert (exthLength + buf.offset) % SIZE_MOD == limit;
    if magic != EXTH_MAGIC || (exthLength + buf.offset) % SIZE_MOD > buf.maxlen
      || recCount == 0 || recCount > MOBI_EXTH_MAXCNT
    {
      assert ParseExthSpec(buf.data, s0) == ExthParse(DataCorrupt, None, hd.h);
      return DataCorrupt, None;
    }
    assert ParseExthSpec(buf.data, s0) == ExthBody(buf.data, hd.h, limit, recCount);
    var savedMaxlen := buf.maxlen;
    buf.SetMaxlen((exthLength + buf.offset) % SIZE_MOD);
    eh := ReadExthRecords(buf, recCount);
    ghost var recs := ExthRecordsFrom(buf.data, hd.h.(maxlen := limit), recCount, [EmptyExth]);
    assert recs.0 == eh && recs.1 == buf.State();
    if eh.None? {
      assert ExthBody(buf.data, hd.h, limit, recCount) == ExthParse(DataCorrupt, None, recs.1);
      return DataCorrupt, None;
    }
    assert ExthBody(buf.data, hd.h, limit, recCount) == ExthParse(Success, eh, recs.1.(maxlen := savedMaxlen));
    buf.SetMaxlen(savedMaxlen);
    return Success, eh;
  }

  /** The loop of `mobi_parse_extheader`: `count` records read into a list
      that starts as one zeroed node, or None when a record is too long. */
  method ReadExthRecords(buf: MobiBuffer, count: nat) returns (list: Option<seq<ExthRecord>>)
    requires buf.Valid()
    modifies buf
    ensures buf.Valid()
    ensures ExthRecordsFrom(buf.data, old(buf.State()), count, [EmptyExth]).0 == list
    ensures ExthRecordsFrom(buf.data, old(buf.State()), count, [EmptyExth]).1 == buf.State()
  {
    ghost var s0 := buf.State();
    var l: seq<ExthRecord> := [EmptyExth];
    var i := 0;
    while i < count
      invariant i <= count && |l| > 0 && buf.Valid()
      invariant ExthRecordsFrom(buf.data, buf.State(), count - i, l) == ExthRecordsFrom(buf.data, s0, count, [EmptyExth])
    {
      ghost var pre := buf.State();
      ReadRecordByTakes(buf.data, pre);
      if Last(l).size != 0 {
        l := l + [EmptyExth];
      }
      var tag := buf.Get32();
      var rawSize := buf.Get32();
      var size := DataSize(rawSize);
      if size == 0 {
        l := l[..|l| - 1] + [ExthRecord(tag, 0, [])];
        i := i + 1;
        continue;
      }
      if buf.offset + size > buf.maxlen {
        return None;
      }
      var data := buf.GetBytes(size);
      l := l[..|l| - 1] + [ExthRecord(tag, size, data)];
      i := i + 1;
    }
    return Some(l);
  }

  /** What the library promises of a parsed list: every node holds exactly
      its data size in bytes, and only the last node may be an empty one. */
  predicate WellFormedList(l: seq<ExthRecord>)
  {
    forall i :: 0 <= i < |l| ==> |l[i].data| == l[i].size && (i < |l| - 1 ==> l[i].size != 0)
  }

  /** Every node holds data of its size, and none is empty. */
  predicate FilledList(l: seq<ExthRecord>)
  {
    forall i :: 0 <= i < |l| ==> |l[i].data| == l[i].size && l[i].size != 0
  }

  lemma {:induction false} AppendShape(k: seq<ExthRecord>, r: ExthRecord)
    ensures FilledList(k) && |r.data| == r.size ==> WellFormedList(k + [r])
  {
    if FilledList(k) && |r.data| == r.size {
      forall i | 0 <= i < |k| + 1
        ensures |(k + [r])[i].data| == (k + [r])[i].size && (i < |k| ==> (k + [r])[i].size != 0)
      {
        if i < |k| {
          assert (k + [r])[i] == k[i];
        }
      }
    }
  }

  /** Kept nodes of a well-formed list all hold data. */
  lemma {:induction false} KeptFilled(acc: seq<ExthRecord>)
    requires |acc| > 0 && WellFormedList(acc)
    ensures FilledList(Kept(acc))
  {
  }

  /** A record read holds as many bytes as its size says. */
  lemma {:induction false} ReadRecordShape(d: seq<u8>, s: BufState)
    requires s.Valid(d)
    ensures ReadRecord(d, s).Record? ==> |ReadRecord(d, s).rec.data| == ReadRecord(d, s).rec.size
  {
  }

  /** The loop builds a well-formed list, one node per record at most: the
      first record fills the last node when that one is empty. */
  lemma {:induction false} RecordsFromShape(d: seq<u8>, s: BufState, k: nat, acc: seq<ExthRecord>)
    requires s.Valid(d) && |acc| > 0 && WellFormedList(acc)
    ensures var r := ExthRecordsFrom(d, s, k, acc);
      r.0.Some? ==>
        WellFormedList(r.0.value) && |acc| <= |r.0.value|
        && |r.0.value| <= if k == 0 then |acc| else |Kept(acc)| + k
    decreases k, 1
  {
    if k > 0 {
      PassShape(d, s, k, acc);
    }
  }

  lemma {:induction false} PassShape(d: seq<u8>, s: BufState, k: nat, acc: seq<ExthRecord>)
    requires s.Valid(d) && |acc| > 0 && k > 0 && WellFormedList(acc)
    ensures var r := ExthPass(d, s, k, acc);
      r.0.Some? ==>
        WellFormedList(r.0.value) && |acc| <= |r.0.value|
        && |r.0.value| <= if k == 0 then |acc| else |Kept(acc)| + k
    decreases k, 0
  {
    match ReadRecord(d, s)
    case Broken(st) =>
    case Record(rec, st) =>
      ReadRecordShape(d, s);
      KeptFilled(acc);
      AppendShape(Kept(acc), rec);
      RecordsFromShape(d, st, k - 1, Kept(acc) + [rec]);
  }

  /** A successful parse saw the magic, a declared length whose end fits
      the buffer and a count in 1..1024, and produced at most that many
      well-formed records. */
  lemma {:induction false} ParseExthSuccess(d: seq<u8>, s: BufState)
    requires s.Valid(d) && ParseExthSpec(d, s).ret == Success
    ensures Fits(s, EXTH_HEADER_LEN) && d[s.offset..s.offset + 4] == EXTH_MAGIC
    ensures ExthLimit(BE32(d[s.offset + 4..s.offset + 8]), s.offset + EXTH_HEADER_LEN) <= s.maxlen
    ensures var count := BE32(d[s.offset + 8..s.offset + 12]);
      1 <= count <= MOBI_EXTH_MAXCNT
      && 1 <= |ParseExthSpec(d, s).eh.value| <= count
      && WellFormedList(ParseExthSpec(d, s).eh.value)
  {
    var hd := ReadExthHead(d, s);
    assert HeadPasses(hd);
    assert Fits(s, 4);
    assert Fits(s, 12);
    var w := hd.h.(maxlen := ExthLimit(hd.declared, hd.h.offset));
    RecordsFromShape(d, w, hd.count, [EmptyExth]);
  }

  /** A declared length below the header's own 12 bytes wraps around in
      size_t and can pass the sanity check, but the parse then fails. */
  lemma {:induction false} ShortDeclaredLengthFails(d: seq<u8>, s: BufState)
    requires s.Valid(d) && |d| < SIZE_MOD && Fits(s, EXTH_HEADER_LEN)
    requires BE32(d[s.offset + 4..s.offset + 8]) < EXTH_HEADER_LEN
    ensures ParseExthSpec(d, s).ret == DataCorrupt
  {
    var hd := ReadExthHead(d, s);
    assert ExthLimit(hd.declared, hd.h.offset) < hd.h.offset;
    if HeadPasses(hd) {
      var w := hd.h.(maxlen := ExthLimit(hd.declared, hd.h.offset));
      assert ReadRecord(d, w).Broken?;
      assert ExthRecordsFrom(d, w, hd.count, [EmptyExth]).0 == None;
    }
  }

  /** A record as a writer lays it out: tag, size including the eight
      header bytes, data. */
  predicate Storable(r: ExthRecord)
  {
    0 < r.size && r.size + 8 < U32_MOD && |r.data| == r.size
  }

  /** Every record of the list is storable. */
  predicate AllStorable(recs: seq<ExthRecord>)
  {
    |recs| == 0 || (Storable(recs[0]) && AllStorable(recs[1..]))
  }

  /** The number of bytes the records take up. */
  function Span(recs: seq<ExthRecord>): nat
  {
    if |recs| == 0 then 0 else 8 + recs[0].size + Span(recs[1..])
  }

  /** The bytes of one record. */
  function EncodeRecord(r: ExthRecord): (b: seq<u8>)
    requires Storable(r)
    ensures |b| == 8 + r.size
  {
    BytesBE32(r.tag) + BytesBE32(r.size + 8) + r.data
  }

  /** The bytes of the records, one after another. */
  function EncodeRecords(recs: seq<ExthRecord>): (b: seq<u8>)
    requires AllStorable(recs)
    ensures |b| == Span(recs)
  {
    if |recs| == 0 then [] else EncodeRecord(recs[0]) + EncodeRecords(recs[1..])
  }

  /** An EXTH block holding the given records. */
  function EncodeExth(recs: seq<ExthRecord>): (b: seq<u8>)
    requires 1 <= |recs| <= MOBI_EXTH_MAXCNT
    requires AllStorable(recs)
    requires EXTH_HEADER_LEN + Span(recs) < U32_MOD
    ensures |b| == EXTH_HEADER_LEN + Span(recs)
  {
    EXTH_MAGIC + (BytesBE32(EXTH_HEADER_LEN + Span(recs)) + (BytesBE32(|recs|) + EncodeRecords(recs)))
  }

  /** The encoding of record r lies at position a of d. */
  predicate RecordAt(d: seq<u8>, a: nat, r: ExthRecord)
  {
    Storable(r) && a + 8 + r.size <= |d|
    && BE32(d[a..a + 4]) == r.tag && BE32(d[a + 4..a + 8]) == r.size + 8
    && d[a + 8..a + 8 + r.size] == r.data
  }

  /** The encodings of the records lie one after another from the offset,
      all of them before `maxlen`. */
  predicate LaidOut(d: seq<u8>, s: BufState, recs: seq<ExthRecord>)
    decreases |recs|
  {
    |recs| == 0 ||
    (RecordAt(d, s.offset, recs[0]) && s.offset + 8 + recs[0].size <= s.maxlen
     && LaidOut(d, s.(offset := s.offset + 8 + recs[0].size), recs[1..]))
  }

  lemma {:induction false} RecordAtFromBytes(d: seq<u8>, a: nat, r: ExthRecord)
    requires Storable(r) && a + 8 + r.size <= |d| && d[a..a + 8 + r.size] == EncodeRecord(r)
    ensures RecordAt(d, a, r)
  {
    var e := EncodeRecord(r);
    SliceOfSlice(d, a, e, 0, 4);
    assert e[0..4] == BytesBE32(r.tag);
    BE32RoundTrip(r.tag);
    SliceOfSlice(d, a, e, 4, 8);
    assert e[4..8] == BytesBE32(r.size + 8);
    BE32RoundTrip(r.size + 8);
    SliceOfSlice(d, a, e, 8, 8 + r.size);
  }

  lemma {:induction false} EncodedLaidOut(d: seq<u8>, s: BufState, recs: seq<ExthRecord>)
    requires AllStorable(recs) && s.offset + Span(recs) <= s.maxlen <= |d|
    requires d[s.offset..s.offset + Span(recs)] == EncodeRecords(recs)
    ensures LaidOut(d, s, recs)
    decreases |recs|
  {
    if |recs| > 0 {
      var e := EncodeRecords(recs);
      var h := EncodeRecord(recs[0]);
      SliceOfSlice(d, s.offset, e, 0, |h|);
      assert e[0..|h|] == h;
      RecordAtFromBytes(d, s.offset, recs[0]);
      SliceOfSlice(d, s.offset, e, |h|, |e|);
      assert e[|h|..|e|] == EncodeRecords(recs[1..]);
      EncodedLaidOut(d, s.(offset := s.offset + 8 + recs[0].size), recs[1..]);
    }
  }

  /** A record laid out at the offset is read whole. */
  lemma {:induction false} ReadLaidOut(d: seq<u8>, s: BufState, r: ExthRecord)
    requires s.Valid(d) && RecordAt(d, s.offset, r) && s.offset + 8 + r.size <= s.maxlen
    ensures ReadRecord(d, s) == Record(r, s.(offset := s.offset + 8 + r.size))
  {
    TakeBytesEncoded(d, s.(offset := s.offset + 8), r.data);
  }

  /** One pass of the loop over a record laid out at the offset reads it
      whole and moves past it. */
  lemma {:induction false} StepLaidOut(d: seq<u8>, s: BufState, k: nat, r: ExthRecord, acc: seq<ExthRecord>)
    requires s.Valid(d) && |acc| > 0 && k > 0
    requires RecordAt(d, s.offset, r) && s.offset + 8 + r.size <= s.maxlen
    ensures ExthRecordsFrom(d, s, k, acc) == ExthRecordsFrom(d, s.(offset := s.offset + 8 + r.size), k - 1, Kept(acc) + [r])
  {
    ReadLaidOut(d, s, r);
  }

  lemma {:induction false} RecordsFromLaidOut(d: seq<u8>, s: BufState, acc: seq<ExthRecord>, recs: seq<ExthRecord>)
    requires s.Valid(d) && |acc| > 0 && Last(acc).size != 0 && LaidOut(d, s, recs)
    ensures ExthRecordsFrom(d, s, |recs|, acc).0 == Some(acc + recs)
    ensures ExthRecordsFrom(d, s, |recs|, acc).1 == s.(offset := s.offset + Span(recs))
    decreases |recs|
  {
    if |recs| == 0 {
      assert acc + recs == acc;
    } else {
      var next := s.(offset := s.offset + 8 + recs[0].size);
      StepLaidOut(d, s, |recs|, recs[0], acc);
      assert Kept(acc) == acc && |recs[1..]| == |recs| - 1;
      assert ExthRecordsFrom(d, s, |recs|, acc) == ExthRecordsFrom(d, next, |recs[1..]|, acc + [recs[0]]);
      RecordsFromLaidOut(d, next, acc + [recs[0]], recs[1..]);
      assert (acc + [recs[0]]) + recs[1..] == acc + recs;
      assert next.(offset := next.offset + Span(recs[1..])) == s.(offset := s.offset + Span(recs));
    }
  }

  /** The first record fills the zeroed node the list starts with. */
  lemma {:induction false} FirstRecordFills(d: seq<u8>, w: BufState, recs: seq<ExthRecord>)
    requires w.Valid(d) && |recs| > 0 && LaidOut(d, w, recs)
    ensures ExthRecordsFrom(d, w, |recs|, [EmptyExth]).0 == Some(recs)
    ensures ExthRecordsFrom(d, w, |recs|, [EmptyExth]).1 == w.(offset := w.offset + Span(recs))
  {
    var next := w.(offset := w.offset + 8 + recs[0].size);
    StepLaidOut(d, w, |recs|, recs[0], [EmptyExth]);
    assert Kept([EmptyExth]) + [recs[0]] == [recs[0]] && |recs[1..]| == |recs| - 1;
    assert ExthRecordsFrom(d, w, |recs|, [EmptyExth]) == ExthRecordsFrom(d, next, |recs[1..]|, [recs[0]]);
    RecordsFromLaidOut(d, next, [recs[0]], recs[1..]);
    assert [recs[0]] + recs[1..] == recs;
    assert next.(offset := next.offset + Span(recs[1..])) == w.(offset := w.offset + Span(recs));
  }

  /** An EXTH block holding `recs` lies at the offset, part by part: the
      magic, the block's length, the number of records and the records. */
  predicate ExthLaid(d: seq<u8>, s: BufState, recs: seq<ExthRecord>)
  {
    s.Valid(d) && |d| < SIZE_MOD
    && 1 <= |recs| <= MOBI_EXTH_MAXCNT && AllStorable(recs)
    && EXTH_HEADER_LEN + Span(recs) < U32_MOD
    && s.offset + EXTH_HEADER_LEN + Span(recs) <= s.maxlen
    && d[s.offset..s.offset + 4] == EXTH_MAGIC
    && d[s.offset + 4..s.offset + 8] == BytesBE32(EXTH_HEADER_LEN + Span(recs))
    && d[s.offset + 8..s.offset + 12] == BytesBE32(|recs|)
    && d[s.offset + 12..s.offset + 12 + Span(recs)] == EncodeRecords(recs)
  }

  /** A header holding the magic, a length and a count reads as them. */
  lemma {:induction false} ExthHeadEncoded(d: seq<u8>, s: BufState, total: u32, count: u32)
    requires s.Valid(d) && Fits(s, EXTH_HEADER_LEN)
    requires d[s.offset..s.offset + 4] == EXTH_MAGIC
    requires d[s.offset + 4..s.offset + 8] == BytesBE32(total)
    requires d[s.offset + 8..s.offset + 12] == BytesBE32(count)
    ensures ReadExthHead(d, s) == ExthHead(EXTH_MAGIC, total, count, s.(offset := s.offset + EXTH_HEADER_LEN))
  {
    TakeBytesEncoded(d, s, EXTH_MAGIC);
    Take32Encoded(d, s.(offset := s.offset + 4), total);
    Take32Encoded(d, s.(offset := s.offset + 8), count);
  }

  /** The bytes of `EncodeExth`, part by part. */
  lemma {:induction false} ExthBlockParts(d: seq<u8>, s: BufState, recs: seq<ExthRecord>)
    requires s.Valid(d) && |d| < SIZE_MOD
    requires 1 <= |recs| <= MOBI_EXTH_MAXCNT && AllStorable(recs)
    requires EXTH_HEADER_LEN + Span(recs) < U32_MOD
    requires s.offset + EXTH_HEADER_LEN + Span(recs) <= s.maxlen
    requires d[s.offset..s.offset + EXTH_HEADER_LEN + Span(recs)] == EncodeExth(recs)
    ensures ExthLaid(d, s, recs)
  {
    var r2 := BytesBE32(|recs|) + EncodeRecords(recs);
    var r1 := BytesBE32(EXTH_HEADER_LEN + Span(recs)) + r2;
    assert |EXTH_MAGIC| == 4 && |r1| == 8 + Span(recs) && |r2| == 4 + Span(recs);
    SplitSlice(d, s.offset, EXTH_MAGIC, r1);
    assert d[s.offset + 4..s.offset + 12 + Span(recs)] == r1;
    SplitSlice(d, s.offset + 4, BytesBE32(EXTH_HEADER_LEN + Span(recs)), r2);
    assert d[s.offset + 8..s.offset + 12 + Span(recs)] == r2;
    SplitSlice(d, s.offset + 8, BytesBE32(|recs|), EncodeRecords(recs));
  }

  /** Parsing a laid-out EXTH block gives back its records. */
  lemma {:induction false} ExthLaidParses(d: seq<u8>, s: BufState, recs: seq<ExthRecord>)
    requires ExthLaid(d, s, recs)
    ensures ParseExthSpec(d, s) == ExthParse(Success, Some(recs), s.(offset := s.offset + EXTH_HEADER_LEN + Span(recs)))
  {
    var h := s.(offset := s.offset + EXTH_HEADER_LEN);
    var w := h.(maxlen := s.offset + EXTH_HEADER_LEN + Span(recs));
    ExthHeadEncoded(d, s, EXTH_HEADER_LEN + Span(recs), |recs|);
    assert ExthLimit(EXTH_HEADER_LEN + Span(recs), h.offset) == w.maxlen;
    assert ParseExthSpec(d, s) == ExthBody(d, h, w.maxlen, |recs|);
    EncodedLaidOut(d, w, recs);
    FirstRecordFills(d, w, recs);
    assert w.(offset := w.offset + Span(recs)).(maxlen := h.maxlen) == s.(offset := s.offset + EXTH_HEADER_LEN + Span(recs));
  }

  /** Parsing an encoded EXTH block gives back its records and leaves the
      offset after the block, with `maxlen` restored. */
  lemma {:induction false} ExthRoundTrip(d: seq<u8>, s: BufState, recs: seq<ExthRecord>)
    requires s.Valid(d) && |d| < SIZE_MOD
    requires 1 <= |recs| <= MOBI_EXTH_MAXCNT && AllStorable(recs)
    requires EXTH_HEADER_LEN + Span(recs) < U32_MOD
    requires s.offset + EXTH_HEADER_LEN + Span(recs) <= s.maxlen
    requires d[s.offset..s.offset + EXTH_HEADER_LEN + Span(recs)] == EncodeExth(recs)
    ensures ParseExthSpec(d, s) == ExthParse(Success, Some(recs), s.(offset := s.offset + EXTH_HEADER_LEN + Span(recs)))
  {
    ExthBlockParts(d, s, recs);
    ExthLaidParses(d, s, recs);
  }
}
