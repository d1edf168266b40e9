/** The HUFF/CDIC dictionary of Huffman-compressed text (`mobi_parse_huff`,
    `mobi_parse_cdic` and `mobi_parse_huffdic`, src/read.c). A HUFF record
    holds a 256-entry lookup table and 32 pairs of minimum and maximum codes;
    the CDIC records that follow it hold the symbol offsets and the symbol
    data. The results go into one `MOBIHuffCdic`, which the parsers update
    in place. The sizes and magics below are those of libmobi's
    compression.h. */
module HuffCdic {
  import opened Common
  import opened Buffer
  import opened MobiHeader

  const HUFF_MAGIC: seq<u8> := [0x48, 0x55, 0x46, 0x46]  // "HUFF"
  const CDIC_MAGIC: seq<u8> := [0x43, 0x44, 0x49, 0x43]  // "CDIC"
  const HUFF_HEADER_LEN: nat := 24
  const CDIC_HEADER_LEN: nat := 16
  const HUFF_CODELEN_MAX: nat := 16
  const HUFF_CODETABLE_SIZE: nat := 33
  const HUFF_RECORD_MINSIZE: nat := 2584
  const HUFF_RECORD_MAXCNT: nat := 1024
  const CDIC_RECORD_MAXCNT: nat := 1024
  const TABLE1_SIZE: nat := 256
  /** `(1 << HUFF_CODELEN_MAX) * CDIC_RECORD_MAXCNT`, the most symbol offsets
      a dictionary may announce. */
  const CDIC_INDEX_MAX: nat := 0x1_0000 * 1024

  /** The tables of a `MOBIHuffCdic`. */
  datatype HuffTables = HuffTables(table1: seq<u32>, mincode: seq<u32>, maxcode: seq<u32>)

  /** What `mobi_parse_huff` writes: the lookup table once the data1 check
      passes, the code tables once the data2 check passes as well. */
  datatype HuffParse = HuffParse(ret: MobiRet, table1: Option<seq<u32>>, codes: Option<(seq<u32>, seq<u32>)>)

  /** The 256 big-endian words of the lookup table at `o`. */
  function Table1At(d: seq<u8>, o: nat): (t: seq<u32>)
    requires o + 4 * TABLE1_SIZE <= |d|
    ensures |t| == TABLE1_SIZE
  {
    seq(TABLE1_SIZE, j requires 0 <= j < TABLE1_SIZE => BE32(d[o + 4 * j..o + 4 * j + 4]))
  }

  /** `x << k` on a uint32_t. */
  function Shl32(x: nat, k: nat): u32
  {
    (x * Pow2(k)) % U32_MOD
  }

  /** Entry i, for 1 <= i <= 32, of the minimum-code table: the i-th stored
      minimum shifted left by 32 - i. */
  function MinCodeAt(d: seq<u8>, o: nat, i: nat): u32
    requires 1 <= i < HUFF_CODETABLE_SIZE && o + 8 * i <= |d|
  {
    ShiftedMin(BE32(d[o + 8 * (i - 1)..o + 8 * (i - 1) + 4]), 32 - i)
  }

  /** Entry i of the maximum-code table: the successor of the i-th stored
      maximum, shifted left by 32 - i, less one, all in 32 bits. */
  function MaxCodeAt(d: seq<u8>, o: nat, i: nat): u32
    requires 1 <= i < HUFF_CODETABLE_SIZE && o + 8 * i <= |d|
  {
    ShiftedMax(BE32(d[o + 8 * (i - 1) + 4..o + 8 * i]), 32 - i)
  }

  /** `mincode << k`. */
  function ShiftedMin(x: u32, k: nat): u32
  {
    Shl32(x, k)
  }

  /** `((maxcode + 1) << k) - 1`. */
  function ShiftedMax(x: u32, k: nat): u32
  {
    (Shl32((x + 1) % U32_MOD, k) - 1) % U32_MOD
  }

  /** The minimum-code table read at `o`, with entry 0 fixed to 0. */
  function MinCodes(d: seq<u8>, o: nat): (t: seq<u32>)
    requires o + 8 * (HUFF_CODETABLE_SIZE - 1) <= |d|
    ensures |t| == HUFF_CODETABLE_SIZE
  {
    seq(HUFF_CODETABLE_SIZE, i requires 0 <= i < HUFF_CODETABLE_SIZE => if i == 0 then 0 else MinCodeAt(d, o, i))
  }

  /** The maximum-code table read at `o`, with entry 0 fixed to 0xFFFFFFFF. */
  function MaxCodes(d: seq<u8>, o: nat): (t: seq<u32>)
    requires o + 8 * (HUFF_CODETABLE_SIZE - 1) <= |d|
    ensures |t| == HUFF_CODETABLE_SIZE
  {
    seq(HUFF_CODETABLE_SIZE, i requires 0 <= i < HUFF_CODETABLE_SIZE => if i == 0 then 0xFFFF_FFFF else MaxCodeAt(d, o, i))
  }

  /** Whatever the stored words, every entry i >= 1 of the minimum-code table
      has its low 32 - i bits clear and every entry of the maximum-code table
      has them set, so that the codes of length i are bounded by whole
      blocks of 2^(32 - i) code words. */
  lemma {:induction false} CodeTablesLowBits(d: seq<u8>, o: nat)
    requires o + 8 * (HUFF_CODETABLE_SIZE - 1) <= |d|
    ensures forall i :: 1 <= i < HUFF_CODETABLE_SIZE ==>
      MinCodes(d, o)[i] % Pow2(32 - i) == 0 &&
      MaxCodes(d, o)[i] % Pow2(32 - i) == Pow2(32 - i) - 1
  {
    forall i | 1 <= i < HUFF_CODETABLE_SIZE
      ensures MinCodes(d, o)[i] % Pow2(32 - i) == 0 &&
        MaxCodes(d, o)[i] % Pow2(32 - i) == Pow2(32 - i) - 1
    {
      CodeLowBits(BE32(d[o + 8 * (i - 1)..o + 8 * (i - 1) + 4]), 32 - i);
      CodeLowBits(BE32(d[o + 8 * (i - 1) + 4..o + 8 * i]), 32 - i);
    }
  }

  /** `mobi_parse_huff` on the bytes of a record. As in the code, a data1 or
      data2 offset past the end leaves the cursor where it was and only the
      room left after the cursor is checked. */
  function HuffSpec(d: seq<u8>): (r: HuffParse)
    ensures r.ret == Success || r.ret == DataCorrupt
    ensures r.ret == Success <==> r.codes.Some?
    ensures r.codes.Some? ==> r.table1.Some?
    ensures r.table1.Some? ==> |r.table1.value| == TABLE1_SIZE
    ensures r.ret == Success ==>
      |d| >= 16 && d[0..4] == HUFF_MAGIC && BE32(d[4..8]) >= HUFF_HEADER_LEN &&
      |r.codes.value.0| == |r.codes.value.1| == HUFF_CODETABLE_SIZE &&
      r.codes.value.0[0] == 0 && r.codes.value.1[0] == 0xFFFF_FFFF
    ensures |d| < 8 || d[0..4] != HUFF_MAGIC || BE32(d[4..8]) < HUFF_HEADER_LEN ==>
      r == HuffParse(DataCorrupt, None, None)
  {
    var m := TakeBytes(d, Over(d), 4);
    var hl := Take32(d, m.st);
    if m.val != HUFF_MAGIC || hl.val < HUFF_HEADER_LEN then HuffParse(DataCorrupt, None, None)
    else
      var d1 := Take32(d, hl.st);
      var d2 := Take32(d, d1.st);
      var p1 := Positioned(d, d2.st, d1.val);
      if p1.offset + 4 * TABLE1_SIZE > p1.maxlen then HuffParse(DataCorrupt, None, None)
      else
        var t := Table1At(d, p1.offset);
        var p2 := Positioned(d, p1.(offset := p1.offset + 4 * TABLE1_SIZE), d2.val);
        if p2.offset + 8 * (HUFF_CODETABLE_SIZE - 1) > p2.maxlen then HuffParse(DataCorrupt, Some(t), None)
        else HuffParse(Success, Some(t), Some((MinCodes(d, p2.offset), MaxCodes(d, p2.offset))))
  }

  /** The tables after a HUFF parse: what it wrote, and the rest as before. */
  function ApplyHuff(t: HuffTables, p: HuffParse): HuffTables
  {
    HuffTables(
      if p.table1.Some? then p.table1.value else t.table1,
      if p.codes.Some? then p.codes.value.0 else t.mincode,
      if p.codes.Some? then p.codes.value.1 else t.maxcode)
  }

  /** A minimum code has its low k bits clear and a maximum code has them
      set, whatever the stored word. */
  lemma CodeLowBits(x: u32, k: nat)
    requires k <= 32
    ensures ShiftedMin(x, k) % Pow2(k) == 0
    ensures ShiftedMax(x, k) % Pow2(k) == Pow2(k) - 1
  {
    Pow2Add(k, 32 - k);
    Pow2Of32();
    var a, n := Pow2(k), Pow2(32 - k);
    LowClear(x, a, n);
    var y := (x + 1) % U32_MOD;
    LowSet(y, a, n);
    assert ShiftedMax(x, k) == ((y * a) % (a * n) - 1) % (a * n);
  }

  lemma Pow2Of32()
    ensures Pow2(32) == U32_MOD
  {
    assert Pow2(8) == 0x100;
    Pow2Add(8, 8);
    Pow2Add(16, 16);
  }

  lemma MulGe(k: int, a: int)
    requires k >= 1 && a > 0
    ensures k * a >= a
  {
    assert k * a == (k - 1) * a + a;
    assert (k - 1) * a >= 0;
  }

  /** The quotient and remainder of x by a are the only ones in range. */
  lemma DivModUnique(x: int, a: int, q: int, r: int)
    requires a > 0 && x == q * a + r && 0 <= r < a
    ensures x / a == q && x % a == r
  {
    var q', r' := x / a, x % a;
    assert x == q' * a + r';
    assert (q - q') * a == r' - r;
    if q > q' {
      MulGe(q - q', a);
    } else if q < q' {
      MulGe(q' - q, a);
    }
  }

  /** (y * a) % (a * n) is a multiple of a below a * n. */
  lemma ModMultiple(y: nat, a: int, n: int) returns (t: nat)
    requires a > 0 && n > 0
    ensures (y * a) % (a * n) == t * a && t < n
  {
    var m := a * n;
    var q := (y * a) / m;
    var r := (y * a) % m;
    assert y * a == q * m + r;
    assert r == (y - n * q) * a;
    var t' := y - n * q;
    if t' < 0 {
      assert r == -((-t') * a);
      MulGe(-t', a);
    }
    if t' >= n {
      assert r == (t' - n + 1) * a + (n - 1) * a;
      MulGe(t' - n + 1, a);
      MulGe(n, a);
    }
    t := t';
  }

  /** Shifting left clears the low bits. */
  lemma LowClear(y: nat, a: int, n: int)
    requires a > 0 && n > 0
    ensures ((y * a) % (a * n)) % a == 0
  {
    var t := ModMultiple(y, a, n);
    DivModUnique(t * a, a, t, 0);
  }

  /** Shifting left and subtracting one sets the low bits. */
  lemma LowSet(y: nat, a: int, n: int)
    requires a > 0 && n > 0
    ensures ((y * a) % (a * n) - 1) % (a * n) % a == a - 1
  {
    var t := ModMultiple(y, a, n);
    var z := t * a;
    if t == 0 {
      assert (z - 1) % (a * n) == a * n - 1 by { DivModUnique(z - 1, a * n, -1, a * n - 1); }
      assert a * n - 1 == (n - 1) * a + (a - 1);
      DivModUnique(a * n - 1, a, n - 1, a - 1);
    } else {
      MulGe(n - t, a);
      assert (n - t) * a == a * n - z;
      DivModUnique(z - 1, a * n, 0, z - 1);
      assert z - 1 == (t - 1) * a + (a - 1);
      DivModUnique(z - 1, a, t - 1, a - 1);
    }
  }

  /** `MOBIHuffCdic`: the tables, the dictionary counters and the two
      arrays the CDIC records fill. */
  class HuffCdic {
    var table1: array<u32>
    var mincode: array<u32>
    var maxcode: array<u32>
    var codeLength: nat
    var indexCount: nat
    var indexRead: nat
    var symbolOffsets: seq<u16>
    var symbols: seq<seq<u8>>

    /** `mobi_init_huffcdic`: the zeroed structure that calloc provides. */
    constructor Init()
      ensures Valid() && fresh(table1) && fresh(mincode) && fresh(maxcode)
      ensures Dict() == DictState(0, 0, 0, [], [])
    {
      table1 := new u32[TABLE1_SIZE](_ => 0);
      mincode := new u32[HUFF_CODETABLE_SIZE](_ => 0);
      maxcode := new u32[HUFF_CODETABLE_SIZE](_ => 0);
      codeLength, indexCount, indexRead := 0, 0, 0;
      symbolOffsets := [];
      symbols := [];
    }

    predicate Valid()
      reads this
    {
      table1.Length == TABLE1_SIZE && mincode.Length == HUFF_CODETABLE_SIZE &&
      maxcode.Length == HUFF_CODETABLE_SIZE && mincode != maxcode &&
      indexRead <= indexCount
    }

    function Tables(): HuffTables
      reads this, table1, mincode, maxcode
    {
      HuffTables(table1[..], mincode[..], maxcode[..])
    }

    function Dict(): DictState
      reads this
    {
      DictState(codeLength, indexCount, indexRead, symbolOffsets, symbols)
    }
  }

  /** The dictionary part of a `MOBIHuffCdic`: the code length and the index
      count announced by the CDIC records, how many symbol offsets have been
      read, the symbol offset array and the symbol data of each CDIC record. */
  datatype DictState = DictState(codeLength: nat, indexCount: nat, indexRead: nat, offsets: seq<u16>, symbols: seq<seq<u8>>)
  {
    /** What `mobi_parse_cdic` needs before it parses CDIC record `num`: a
        slot for its symbols and, after the first record, the offset array
        the first record allocated. */
    predicate Ready(num: nat)
    {
      indexRead <= indexCount && num < |symbols| &&
      (num > 0 ==> indexCount > 0 && |offsets| == indexCount)
    }
  }

  /** What a CDIC parse leaves: the return code and the dictionary fields,
      which keep whatever was written before a failure. */
  datatype CdicParse = CdicParse(ret: MobiRet, dict: DictState)

  /** The index loop's outcome: whether every entry checked out, the cursor,
      and the dictionary with the offsets read so far. */
  datatype EntryRun = EntryRun(ok: bool, st: BufState, dict: DictState)

  /** The symbol at offset `o` of a CDIC record's data (which starts after
      the 16-byte header) has its length word, and the bytes that word
      announces, inside the record. */
  predicate SymbolFits(d: seq<u8>, o: nat)
  {
    o + CDIC_HEADER_LEN + 2 <= |d| && o + CDIC_HEADER_LEN + 2 + WordAt(d, o + CDIC_HEADER_LEN) % 0x8000 <= |d|
  }

  /** The big-endian 16-bit word at position `a`. */
  function WordAt(d: seq<u8>, a: nat): u16
    requires a + 2 <= |d|
  {
    BE16(d[a..a + 2])
  }

  /** One turn of the index loop of `mobi_parse_cdic` from the cursor `s`:
      it reads a 16-bit symbol offset, jumps to the symbol to check that
      its length word (top bit masked off) and its bytes are in the
      record, comes back and stores the offset at `indexRead`. A turn that
      fails ends the parse, and its cursor is not used again; the model
      leaves it where it was. `EntryStepByTakes` shows that this is what
      the buffer reads compute. */
  function EntryStep(d: seq<u8>, s: BufState, v: DictState): (r: EntryRun)
    requires s.Valid(d) && s.maxlen == |d| && v.indexRead < |v.offsets|
    ensures r.st.Valid(d) && r.st.maxlen == s.maxlen && r.st.failed == s.failed
    ensures r.ok ==>
      s.offset + 2 <= |d| && r.st.offset == s.offset + 2 && SymbolFits(d, WordAt(d, s.offset) as nat) &&
      r.dict == v.(offsets := v.offsets[v.indexRead := WordAt(d, s.offset)], indexRead := v.indexRead + 1)
    ensures !r.ok ==> r.dict == v
  {
    if s.offset + 2 <= |d| && SymbolFits(d, WordAt(d, s.offset) as nat) then
      EntryRun(true, s.(offset := s.offset + 2),
        v.(offsets := v.offsets[v.indexRead := WordAt(d, s.offset)], indexRead := v.indexRead + 1))
    else EntryRun(false, s, v)
  }

  /** The buffer reads of one turn: the offset word, the jump, the length
      word and the check on the error flag and the symbol's end. */
  lemma EntryStepByTakes(d: seq<u8>, s: BufState, v: DictState)
    requires s.Valid(d) && s.maxlen == |d| && !s.failed && v.indexRead < |v.offsets|
    ensures var o := Take16(d, s);
      var l := Take16(d, Positioned(d, o.st, o.val as nat + CDIC_HEADER_LEN));
      var ok := !(l.st.failed || l.st.offset + l.val % 0x8000 > l.st.maxlen);
      var e := EntryStep(d, s, v);
      ok == e.ok && (ok ==> Positioned(d, l.st, o.st.offset) == e.st && o.val == WordAt(d, s.offset))
  {
  }

  /** `count` turns of the index loop, stopping at the first that fails. */
  function CdicEntries(d: seq<u8>, s: BufState, count: nat, v: DictState): (r: EntryRun)
    requires s.Valid(d) && s.maxlen == |d| && v.indexRead + count <= |v.offsets|
    ensures r.st.Valid(d) && r.st.maxlen == s.maxlen && r.st.failed == s.failed
    ensures v.indexRead <= r.dict.indexRead <= v.indexRead + count
    ensures r.ok ==> r.dict.indexRead == v.indexRead + count && r.st.offset == s.offset + 2 * count
    ensures |r.dict.offsets| == |v.offsets|
    ensures r.dict == v.(offsets := r.dict.offsets, indexRead := r.dict.indexRead)
    decreases count
  {
    if count == 0 then EntryRun(true, s, v)
    else
      var e := EntryStep(d, s, v);
      if !e.ok then e else CdicEntries(d, e.st, count - 1, e.dict)
  }

  /** `mobi_parse_cdic` on the bytes `d` of CDIC record `num`, from the
      dictionary state `v`. A record whose code length or index count
      disagrees with the earlier records' is refused before anything is
      written. The first record allocates an offset array of the announced
      size, which malloc leaves undefined and the model fills with zeroes.
      Each record reads at most 2^codeLength offsets. */
  function CdicSpec(d: seq<u8>, v: DictState, num: nat): (r: CdicParse)
    requires v.Ready(num)
    ensures r.ret == Success || r.ret == DataCorrupt
    ensures |r.dict.symbols| == |v.symbols| && r.dict.indexRead <= r.dict.indexCount
    ensures r.ret != Success ==> r.dict.symbols == v.symbols
    ensures r.ret == Success ==>
      |d| >= CDIC_HEADER_LEN && d[0..4] == CDIC_MAGIC &&
      r.dict.codeLength == BE32(d[12..16]) as nat && r.dict.indexCount == BE32(d[8..12]) as nat &&
      1 <= r.dict.codeLength <= HUFF_CODELEN_MAX &&
      (v.codeLength != 0 ==> r.dict.codeLength == v.codeLength) &&
      r.dict.indexCount > 0 && |r.dict.offsets| == r.dict.indexCount &&
      (v.indexCount != 0 ==> r.dict.indexCount == v.indexCount) &&
      r.dict.indexRead == v.indexRead + Min(r.dict.indexCount - v.indexRead, Pow2(r.dict.codeLength)) &&
      r.dict.symbols == v.symbols[num := d[CDIC_HEADER_LEN..]]
    ensures |d| < 8 || d[0..4] != CDIC_MAGIC || BE32(d[4..8]) < CDIC_HEADER_LEN ==> r == CdicParse(DataCorrupt, v)
  {
    var m := TakeBytes(d, Over(d), 4);
    var hl := Take32(d, m.st);
    if m.val != CDIC_MAGIC || hl.val < CDIC_HEADER_LEN then CdicParse(DataCorrupt, v)
    else
      var ic := Take32(d, hl.st);
      var cl := Take32(d, ic.st);
      if (v.codeLength != 0 && v.codeLength != cl.val) || (v.indexCount != 0 && v.indexCount != ic.val) then
        CdicParse(DataCorrupt, v)
      else if cl.val == 0 || cl.val > HUFF_CODELEN_MAX then CdicParse(DataCorrupt, v)
      else
        CdicIndex(d, cl.st, v.(codeLength := cl.val as nat, indexCount := ic.val as nat), num)
  }

  /** A freshly allocated offset array; malloc leaves it undefined, the
      model fills it with zeroes. */
  function Zeroes(n: nat): (z: seq<u16>)
    ensures |z| == n
  {
    seq(n, _ => 0)
  }

  /** The rest of `mobi_parse_cdic`, once the header passed its checks:
      `v` already holds the record's code length and index count, and the
      cursor `s` is at the index. */
  function CdicIndex(d: seq<u8>, s: BufState, v: DictState, num: nat): (r: CdicParse)
    requires s.Valid(d) && s.offset == CDIC_HEADER_LEN && s.maxlen == |d|
    requires v.indexRead <= v.indexCount && num < |v.symbols| && 1 <= v.codeLength <= HUFF_CODELEN_MAX
    requires num > 0 ==> v.indexCount > 0 && |v.offsets| == v.indexCount
    ensures r.ret == Success || r.ret == DataCorrupt
    ensures |r.dict.symbols| == |v.symbols| && r.dict.indexRead <= r.dict.indexCount
    ensures r.ret != Success ==> r.dict.symbols == v.symbols
    ensures r.dict.codeLength == v.codeLength && r.dict.indexCount == v.indexCount
    ensures r.ret == Success ==>
      v.indexCount > 0 && |r.dict.offsets| == v.indexCount &&
      r.dict.indexRead == v.indexRead + Min(v.indexCount - v.indexRead, Pow2(v.codeLength)) &&
      r.dict.symbols == v.symbols[num := d[CDIC_HEADER_LEN..]]
  {
    if v.indexCount == 0 then CdicParse(DataCorrupt, v)
    else if num == 0 && v.indexCount > CDIC_INDEX_MAX then CdicParse(DataCorrupt, v)
    else
      var v2 := if num == 0 then v.(offsets := Zeroes(v.indexCount)) else v;
      var count := Min(v.indexCount - v.indexRead, Pow2(v.codeLength));
      if s.offset + 2 * count > s.maxlen then CdicParse(DataCorrupt, v2)
      else
        var e := CdicEntries(d, s, count, v2);
        if !e.ok || e.st.offset + v.codeLength > e.st.maxlen then CdicParse(DataCorrupt, e.dict)
        else CdicParse(Success, e.dict.(symbols := e.dict.symbols[num := d[CDIC_HEADER_LEN..]]))
  }

  /** The loop that reads the 256 big-endian words of the lookup table. */
  method ReadTable1(table1: array<u32>, buf: MobiBuffer)
    requires table1.Length == TABLE1_SIZE && buf.Valid() && Fits(buf.State(), 4 * TABLE1_SIZE)
    modifies table1, buf
    ensures buf.Valid() && buf.State() == old(buf.State()).(offset := old(buf.offset) + 4 * TABLE1_SIZE)
    ensures table1[..] == Table1At(buf.data, old(buf.offset))
  {
    ghost var s1 := buf.State();
    for i := 0 to TABLE1_SIZE
      invariant buf.Valid() && buf.State() == s1.(offset := s1.offset + 4 * i)
      invariant forall j :: 0 <= j < i ==> table1[j] == BE32(buf.data[s1.offset + 4 * j..s1.offset + 4 * j + 4])
    {
      table1[i] := buf.Get32();
    }
    assert table1[..] == Table1At(buf.data, s1.offset);
  }

  /** One pair of stored codes, for codes of length i, shifted into place. */
  method ReadCodePair(buf: MobiBuffer, ghost o: nat, i: nat) returns (mn: u32, mx: u32)
    requires 1 <= i < HUFF_CODETABLE_SIZE && buf.Valid() && o + 8 * (HUFF_CODETABLE_SIZE - 1) <= buf.maxlen
    requires buf.offset == o + 8 * (i - 1)
    modifies buf
    ensures buf.Valid() && buf.State() == old(buf.State()).(offset := o + 8 * i)
    ensures mn == MinCodeAt(buf.data, o, i) && mx == MaxCodeAt(buf.data, o, i)
  {
    var a := buf.Get32();
    var b := buf.Get32();
    mn := ShiftedMin(a, 32 - i);
    mx := ShiftedMax(b, 32 - i);
  }

  /** The loop that reads the 32 pairs of stored codes into the two tables. */
  method ReadCodes(mincode: array<u32>, maxcode: array<u32>, buf: MobiBuffer)
    requires mincode.Length == HUFF_CODETABLE_SIZE && maxcode.Length == HUFF_CODETABLE_SIZE && mincode != maxcode
    requires buf.Valid() && Fits(buf.State(), 8 * (HUFF_CODETABLE_SIZE - 1))
    modifies mincode, maxcode, buf
    ensures mincode[..] == MinCodes(buf.data, old(buf.offset)) && maxcode[..] == MaxCodes(buf.data, old(buf.offset))
  {
    ghost var s2 := buf.State();
    mincode[0] := 0;
    maxcode[0] := 0xFFFF_FFFF;
    for i := 1 to HUFF_CODETABLE_SIZE
      invariant buf.Valid() && buf.State() == s2.(offset := s2.offset + 8 * (i - 1))
      invariant mincode[0] == 0 && maxcode[0] == 0xFFFF_FFFF
      invariant forall j :: 1 <= j < i ==> mincode[j] == MinCodeAt(buf.data, s2.offset, j)
      invariant forall j :: 1 <= j < i ==> maxcode[j] == MaxCodeAt(buf.data, s2.offset, j)
    {
      var mn, mx := ReadCodePair(buf, s2.offset, i);
      mincode[i] := mn;
      maxcode[i] := mx;
    }
    assert mincode[..] == MinCodes(buf.data, s2.offset);
    assert maxcode[..] == MaxCodes(buf.data, s2.offset);
  }

  /** `mobi_parse_huff`. */
  method ParseHuff(h: HuffCdic, d: seq<u8>) returns (ret: MobiRet)
    requires h.Valid()
    modifies h.table1, h.mincode, h.maxcode
    ensures ret == HuffSpec(d).ret && h.Tables() == ApplyHuff(old(h.Tables()), HuffSpec(d))
  {
    var buf := new MobiBuffer.InitNull(d);
    var magic := buf.GetBytes(4);
    var headerLength := buf.Get32();
    if magic != HUFF_MAGIC || headerLength < HUFF_HEADER_LEN {
      return DataCorrupt;
    }
    var data1 := buf.Get32();
    var data2 := buf.Get32();
    buf.SetPos(data1);
    if buf.offset + 4 * TABLE1_SIZE > buf.maxlen {
      return DataCorrupt;
    }
    ghost var o1 := buf.offset;
    ReadTable1(h.table1, buf);
    buf.SetPos(data2);
    if buf.offset + 8 * (HUFF_CODETABLE_SIZE - 1) > buf.maxlen {
      return DataCorrupt;
    }
    ReadCodes(h.mincode, h.maxcode, buf);
    return Success;
  }

  /** One turn of the index loop of `mobi_parse_cdic`. */
  method ReadEntry(h: HuffCdic, buf: MobiBuffer) returns (ok: bool)
    requires h.Valid() && buf.Valid() && h.indexRead < h.indexCount == |h.symbolOffsets|
    requires !buf.failed && buf.maxlen == |buf.data|
    modifies h, buf
    ensures h.Valid() && buf.Valid() && h.indexCount == |h.symbolOffsets|
    ensures h.table1 == old(h.table1) && h.mincode == old(h.mincode) && h.maxcode == old(h.maxcode)
    ensures var e := EntryStep(buf.data, old(buf.State()), old(h.Dict()));
      ok == e.ok && (ok ==> buf.State() == e.st) && h.Dict() == e.dict
  {
    EntryStepByTakes(buf.data, buf.State(), h.Dict());
    var o := buf.Get16();
    var saved := buf.offset;
    buf.SetPos(o as nat + CDIC_HEADER_LEN);
    var l := buf.Get16();
    var len := l % 0x8000;
    if buf.failed || buf.offset + len > buf.maxlen {
      return false;
    }
    buf.SetPos(saved);
    h.symbolOffsets := h.symbolOffsets[h.indexRead := o];
    h.indexRead := h.indexRead + 1;
    return true;
  }

  /** The index loop of `mobi_parse_cdic`, `count` turns. */
  method ReadEntries(h: HuffCdic, buf: MobiBuffer, count: nat) returns (ok: bool)
    requires h.Valid() && buf.Valid() && h.indexCount == |h.symbolOffsets| && h.indexRead + count <= h.indexCount
    requires !buf.failed && buf.maxlen == |buf.data|
    modifies h, buf
    ensures h.Valid() && buf.Valid() && h.indexCount == |h.symbolOffsets|
    ensures h.table1 == old(h.table1) && h.mincode == old(h.mincode) && h.maxcode == old(h.maxcode)
    ensures var e := CdicEntries(buf.data, old(buf.State()), count, old(h.Dict()));
      ok == e.ok && (ok ==> buf.State() == e.st) && h.Dict() == e.dict
  {
    ghost var e := CdicEntries(buf.data, buf.State(), count, h.Dict());
    var k := count;
    while k > 0
      invariant buf.Valid() && h.Valid() && h.indexCount == |h.symbolOffsets|
      invariant !buf.failed && buf.maxlen == |buf.data|
      invariant h.table1 == old(h.table1) && h.mincode == old(h.mincode) && h.maxcode == old(h.maxcode)
      invariant h.indexRead + k <= h.indexCount
      invariant CdicEntries(buf.data, buf.State(), k, h.Dict()) == e
      decreases k
    {
      ok := ReadEntry(h, buf);
      if !ok {
        return;
      }
      k := k - 1;
    }
    return true;
  }

  /** The index part of `mobi_parse_cdic`, as `CdicIndex` describes it. */
  method ReadIndex(h: HuffCdic, buf: MobiBuffer, d: seq<u8>, num: nat) returns (ret: MobiRet)
    requires h.Valid() && buf.Valid() && buf.data == d
    requires buf.State() == BufState(CDIC_HEADER_LEN, |d|, false)
    requires num < |h.symbols| && 1 <= h.codeLength <= HUFF_CODELEN_MAX
    requires num > 0 ==> h.indexCount > 0 && |h.symbolOffsets| == h.indexCount
    modifies h, buf
    ensures h.Valid()
    ensures h.table1 == old(h.table1) && h.mincode == old(h.mincode) && h.maxcode == old(h.maxcode)
    ensures var r := CdicIndex(d, old(buf.State()), old(h.Dict()), num); ret == r.ret && h.Dict() == r.dict
  {
    if h.indexCount == 0 {
      return DataCorrupt;
    }
    if num == 0 {
      if h.indexCount > CDIC_INDEX_MAX {
        return DataCorrupt;
      }
      h.symbolOffsets := Zeroes(h.indexCount);
    }
    var count: nat := h.indexCount - h.indexRead;
    if count >= Pow2(h.codeLength) {
      count := Pow2(h.codeLength);
    }
    if buf.offset + 2 * count > buf.maxlen {
      return DataCorrupt;
    }
    var ok := ReadEntries(h, buf, count);
    if !ok {
      return DataCorrupt;
    }
    if buf.offset + h.codeLength > buf.maxlen {
      return DataCorrupt;
    }
    h.symbols := h.symbols[num := d[CDIC_HEADER_LEN..]];
    return Success;
  }

  /** `mobi_parse_cdic`, updating `h` in place. */
  method ParseCdic(h: HuffCdic, d: seq<u8>, num: nat) returns (ret: MobiRet)
    requires h.Valid() && h.Dict().Ready(num)
    modifies h
    ensures h.Valid()
    ensures h.table1 == old(h.table1) && h.mincode == old(h.mincode) && h.maxcode == old(h.maxcode)
    ensures var r := CdicSpec(d, old(h.Dict()), num); ret == r.ret && h.Dict() == r.dict
  {
    ghost var v := h.Dict();
    var buf := new MobiBuffer.InitNull(d);
    var magic := buf.GetBytes(4);
    var headerLength := buf.Get32();
    if magic != CDIC_MAGIC || headerLength < CDIC_HEADER_LEN {
      return DataCorrupt;
    }
    var indexCount := buf.Get32();
    var codeLength := buf.Get32();
    if h.codeLength != 0 && h.codeLength != codeLength as nat {
      return DataCorrupt;
    }
    if h.indexCount != 0 && h.indexCount != indexCount as nat {
      return DataCorrupt;
    }
    if codeLength == 0 || codeLength as nat > HUFF_CODELEN_MAX {
      return DataCorrupt;
    }
    h.codeLength := codeLength as nat;
    h.indexCount := indexCount as nat;
    ret := ReadIndex(h, buf, d, num);
  }

  /** The `count` offsets from slot `ir` of `offs` are the 16-bit words of
      the index at `start`, and each points at a symbol inside the record. */
  predicate IndexWords(d: seq<u8>, start: nat, offs: seq<u16>, ir: nat, count: nat)
    decreases count
  {
    start + 2 * count <= |d| && ir + count <= |offs| &&
    (count > 0 ==> OffsetRead(d, offs[ir], start) && IndexWords(d, start + 2, offs, ir + 1, count - 1))
  }

  /** Offset `ir + j` is the j-th word of the index. */
  lemma {:induction false} IndexWordsAt(d: seq<u8>, start: nat, offs: seq<u16>, ir: nat, count: nat)
    requires IndexWords(d, start, offs, ir, count)
    ensures forall j :: 0 <= j < count ==> OffsetRead(d, offs[ir + j], start + 2 * j)
    decreases count
  {
    if count > 0 {
      IndexWordsAt(d, start + 2, offs, ir + 1, count - 1);
      forall j | 0 <= j < count
        ensures OffsetRead(d, offs[ir + j], start + 2 * j)
      {
        if j > 0 {
          assert ir + j == (ir + 1) + (j - 1);
          assert start + 2 * j == (start + 2) + 2 * (j - 1);
        }
      }
    }
  }

  /** The offset `o` is the word at position `a` and points at a symbol inside the record. */
  predicate OffsetRead(d: seq<u8>, o: u16, a: nat)
  {
    a + 2 <= |d| && o == WordAt(d, a) && SymbolFits(d, o as nat)
  }

  /** The index loop writes only the slots it reads. */
  lemma {:induction false} EntriesKeep(d: seq<u8>, s: BufState, count: nat, v: DictState)
    requires s.Valid(d) && s.maxlen == |d| && v.indexRead + count <= |v.offsets|
    ensures var r := CdicEntries(d, s, count, v);
      forall j :: 0 <= j < |v.offsets| && !(v.indexRead <= j < r.dict.indexRead) ==> r.dict.offsets[j] == v.offsets[j]
    decreases count
  {
    if count > 0 {
      var e := EntryStep(d, s, v);
      if e.ok {
        var r := CdicEntries(d, e.st, count - 1, e.dict);
        assert CdicEntries(d, s, count, v) == r;
        EntriesKeep(d, e.st, count - 1, e.dict);
        forall j | 0 <= j < |v.offsets| && !(v.indexRead <= j < r.dict.indexRead)
          ensures r.dict.offsets[j] == v.offsets[j]
        {
          assert j != v.indexRead;
          assert r.dict.offsets[j] == e.dict.offsets[j];
        }
      }
    }
  }

  /** Every turn of a completed index loop read the next word of the index. */
  lemma {:induction false} EntriesRead(d: seq<u8>, s: BufState, count: nat, v: DictState)
    requires s.Valid(d) && s.maxlen == |d| && v.indexRead + count <= |v.offsets|
    ensures var r := CdicEntries(d, s, count, v);
      r.ok ==> IndexWords(d, s.offset, r.dict.offsets, v.indexRead, count)
    decreases count
  {
    var r := CdicEntries(d, s, count, v);
    if count > 0 && r.ok {
      var e := EntryStep(d, s, v);
      var r1 := CdicEntries(d, e.st, count - 1, e.dict);
      assert e.ok && r == r1;
      EntriesRead(d, e.st, count - 1, e.dict);
      EntriesKeep(d, e.st, count - 1, e.dict);
      assert r.dict.offsets[v.indexRead] == e.dict.offsets[v.indexRead];
    }
  }

  /** The index part of a parse that succeeds read its offsets from the
      index at the cursor and kept, after the first record, those before. */
  lemma {:induction false} IndexReadsWords(d: seq<u8>, s: BufState, v: DictState, num: nat)
    requires s.Valid(d) && s.offset == CDIC_HEADER_LEN && s.maxlen == |d|
    requires v.indexRead <= v.indexCount && num < |v.symbols| && 1 <= v.codeLength <= HUFF_CODELEN_MAX
    requires num > 0 ==> v.indexCount > 0 && |v.offsets| == v.indexCount
    ensures var r := CdicIndex(d, s, v, num);
      r.ret == Success ==>
        IndexWords(d, CDIC_HEADER_LEN, r.dict.offsets, v.indexRead, r.dict.indexRead - v.indexRead) &&
        (num > 0 ==> forall j :: 0 <= j < v.indexRead ==> r.dict.offsets[j] == v.offsets[j])
  {
    var r := CdicIndex(d, s, v, num);
    if r.ret == Success {
      var v2 := if num == 0 then v.(offsets := Zeroes(v.indexCount)) else v;
      var count := Min(v.indexCount - v.indexRead, Pow2(v.codeLength));
      var e := CdicEntries(d, s, count, v2);
      assert e.ok && r.dict == e.dict.(symbols := r.dict.symbols);
      EntriesRead(d, s, count, v2);
      EntriesKeep(d, s, count, v2);
    }
  }

  /** A parsed CDIC record's offsets are the 16-bit words of its index,
      which starts right after the 16-byte header, and each points at a
      symbol inside the record. Offsets read from earlier records stay. */
  lemma {:induction false} CdicReadsIndex(d: seq<u8>, v: DictState, num: nat)
    requires v.Ready(num)
    ensures var r := CdicSpec(d, v, num);
      r.ret == Success ==>
        IndexWords(d, CDIC_HEADER_LEN, r.dict.offsets, v.indexRead, r.dict.indexRead - v.indexRead) &&
        (num > 0 ==> forall j :: 0 <= j < v.indexRead ==> r.dict.offsets[j] == v.offsets[j])
  {
    var r := CdicSpec(d, v, num);
    if r.ret == Success {
      var m := TakeBytes(d, Over(d), 4);
      var hl := Take32(d, m.st);
      var ic := Take32(d, hl.st);
      var cl := Take32(d, ic.st);
      var v1 := v.(codeLength := cl.val as nat, indexCount := ic.val as nat);
      assert r == CdicIndex(d, cl.st, v1, num);
      IndexReadsWords(d, cl.st, v1, num);
    }
  }

  /** A CDIC record whose code length or index count differs from the one
      the earlier records announced is refused and changes nothing. */
  lemma CdicRejectsMismatch(d: seq<u8>, v: DictState, num: nat)
    requires v.Ready(num) && |d| >= CDIC_HEADER_LEN && d[0..4] == CDIC_MAGIC && BE32(d[4..8]) >= CDIC_HEADER_LEN
    requires (v.codeLength != 0 && v.codeLength != BE32(d[12..16]) as nat) ||
      (v.indexCount != 0 && v.indexCount != BE32(d[8..12]) as nat)
    ensures CdicSpec(d, v, num) == CdicParse(DataCorrupt, v)
  {
  }

  /** The first CDIC record is refused when its code length lies outside
      1..HUFF_CODELEN_MAX or its index count is zero. A bad code length
      changes nothing; a zero count is caught after both values are stored. */
  lemma CdicRejectsBadHeader(d: seq<u8>, v: DictState, num: nat)
    requires v.Ready(num) && v.codeLength == 0 && v.indexCount == 0
    requires |d| >= CDIC_HEADER_LEN && d[0..4] == CDIC_MAGIC && BE32(d[4..8]) >= CDIC_HEADER_LEN
    requires BE32(d[12..16]) == 0 || BE32(d[12..16]) as nat > HUFF_CODELEN_MAX || BE32(d[8..12]) == 0
    ensures CdicSpec(d, v, num).ret == DataCorrupt && CdicSpec(d, v, num).dict.symbols == v.symbols
    ensures BE32(d[12..16]) == 0 || BE32(d[12..16]) as nat > HUFF_CODELEN_MAX ==> CdicSpec(d, v, num) == CdicParse(DataCorrupt, v)
  {
    var m := TakeBytes(d, Over(d), 4);
    var hl := Take32(d, m.st);
    var ic := Take32(d, hl.st);
    var cl := Take32(d, ic.st);
    assert m.val == CDIC_MAGIC && ic.val == BE32(d[8..12]) && cl.val == BE32(d[12..16]);
    if cl.val != 0 && cl.val as nat <= HUFF_CODELEN_MAX {
      assert CdicSpec(d, v, num) == CdicIndex(d, cl.st, v.(codeLength := cl.val as nat, indexCount := ic.val as nat), num);
    }
  }

  /** The symbol slots `mobi_parse_huffdic` allocates, one per CDIC record;
      malloc leaves them undefined, the model empty. */
  function Empties(n: nat): (z: seq<seq<u8>>)
    ensures |z| == n
  {
    seq(n, _ => [])
  }

  /** The first `k` CDIC records, the j-th being record `first + j` of the
      file, parsed in turn; the parse stops at the first one that is
      missing or fails. */
  function CdicRecords(records: seq<seq<u8>>, first: nat, k: nat, v: DictState): (r: CdicParse)
    requires k <= |v.symbols| && v.indexRead <= v.indexCount
    ensures r.ret == Success || r.ret == DataCorrupt
    ensures |r.dict.symbols| == |v.symbols| && r.dict.indexRead <= r.dict.indexCount
    ensures r.ret == Success && k > 0 ==>
      first + k <= |records| && r.dict.indexCount > 0 && |r.dict.offsets| == r.dict.indexCount &&
      1 <= r.dict.codeLength <= HUFF_CODELEN_MAX
    decreases k
  {
    if k == 0 then CdicParse(Success, v)
    else
      var p := CdicRecords(records, first, k - 1, v);
      if p.ret != Success then p
      else if first + k - 1 >= |records| then CdicParse(DataCorrupt, p.dict)
      else CdicSpec(records[first + k - 1], p.dict, k - 1)
  }

  /** Once a CDIC record fails, the records after it are not parsed. */
  lemma {:induction false} CdicRecordsStop(records: seq<seq<u8>>, first: nat, k: nat, m: nat, v: DictState)
    requires k <= m <= |v.symbols| && v.indexRead <= v.indexCount
    requires CdicRecords(records, first, k, v).ret != Success
    ensures CdicRecords(records, first, m, v) == CdicRecords(records, first, k, v)
    decreases m - k
  {
    if m > k {
      CdicRecordsStop(records, first, k, m - 1, v);
    }
  }

  /** `sym` is the data of record `first + j` after its 16-byte CDIC header. */
  predicate SymbolOf(records: seq<seq<u8>>, first: nat, sym: seq<u8>, j: nat)
  {
    first + j < |records| && |records[first + j]| >= CDIC_HEADER_LEN &&
    sym == records[first + j][CDIC_HEADER_LEN..]
  }

  /** Slot j below `k` of `syms` holds the data of record `first + j`. */
  predicate SymbolsFrom(records: seq<seq<u8>>, first: nat, syms: seq<seq<u8>>, k: nat)
  {
    k <= |syms| && forall j :: 0 <= j < k ==> SymbolOf(records, first, syms[j], j)
  }

  lemma SymbolsFromStep(records: seq<seq<u8>>, first: nat, syms: seq<seq<u8>>, k: nat)
    requires 0 < k <= |syms| && first + k - 1 < |records| && |records[first + k - 1]| >= CDIC_HEADER_LEN
    requires SymbolsFrom(records, first, syms, k - 1)
    ensures SymbolsFrom(records, first, syms[k - 1 := records[first + k - 1][CDIC_HEADER_LEN..]], k)
  {
    var t := syms[k - 1 := records[first + k - 1][CDIC_HEADER_LEN..]];
    forall j | 0 <= j < k
      ensures SymbolOf(records, first, t[j], j)
    {
      if j < k - 1 {
        assert t[j] == syms[j];
      }
    }
  }

  /** When the first `k` CDIC records parse, slot j below `k` of the
      symbols holds the data of CDIC record j after its header. */
  lemma {:induction false} CdicRecordsSymbols(records: seq<seq<u8>>, first: nat, k: nat, v: DictState)
    requires k <= |v.symbols| && v.indexRead <= v.indexCount
    ensures var r := CdicRecords(records, first, k, v);
      r.ret == Success ==> SymbolsFrom(records, first, r.dict.symbols, k)
    decreases k
  {
    var r := CdicRecords(records, first, k, v);
    if k > 0 && r.ret == Success {
      var p := CdicRecords(records, first, k - 1, v);
      CdicRecordsSymbols(records, first, k - 1, v);
      assert p.ret == Success && first + k - 1 < |records|;
      var d := records[first + k - 1];
      var c := CdicSpec(d, p.dict, k - 1);
      assert r == c;
      assert |d| >= CDIC_HEADER_LEN && c.dict.symbols == p.dict.symbols[k - 1 := d[CDIC_HEADER_LEN..]];
      SymbolsFromStep(records, first, p.dict.symbols, k);
    }
  }

  /** The slots from `k` on are left as they were. */
  lemma {:induction false} CdicRecordsKeep(records: seq<seq<u8>>, first: nat, k: nat, v: DictState)
    requires k <= |v.symbols| && v.indexRead <= v.indexCount
    ensures var r := CdicRecords(records, first, k, v);
      forall j :: k <= j < |v.symbols| ==> r.dict.symbols[j] == v.symbols[j]
    decreases k
  {
    if k > 0 {
      CdicRecordsKeep(records, first, k - 1, v);
      var p := CdicRecords(records, first, k - 1, v);
      if p.ret == Success && first + k - 1 < |records| {
        var c := CdicSpec(records[first + k - 1], p.dict, k - 1);
        assert CdicRecords(records, first, k, v) == c;
        forall j | k <= j < |v.symbols|
          ensures c.dict.symbols[j] == p.dict.symbols[j]
        {
        }
      }
    }
  }

  /** What `mobi_parse_huffdic` leaves: the return code, the tables and the dictionary fields. */
  datatype HuffDicParse = HuffDicParse(ret: MobiRet, tables: HuffTables, dict: DictState)

  /** `mobi_parse_huffdic` on the file's records, from the tables `t` and
      the dictionary `v` of a `MOBIHuffCdic`. The HUFF record is the one at
      `huff_rec_index` plus `kf8Offset` (what `mobi_get_kf8offset` returns);
      the `huff_rec_count - 1` records after it are CDIC records. */
  function HuffDicSpec(records: seq<seq<u8>>, mh: Option<MobiHeader>, kf8Offset: nat, t: HuffTables, v: DictState): (r: HuffDicParse)
    requires v.indexRead <= v.indexCount
    ensures r.ret == Success || r.ret == DataCorrupt
    ensures r.ret == Success ==>
      mh.Some? && HuffRecIndex(mh.value).Some? && HuffRecCount(mh.value).Some? &&
      r == HuffDicAt(records, HuffRecIndex(mh.value).value as nat + kf8Offset, HuffRecCount(mh.value).value as nat, t, v)
    ensures mh.None? || HuffRecIndex(mh.value).None? || HuffRecCount(mh.value).None? ==>
      r == HuffDicParse(DataCorrupt, t, v)
  {
    if mh.None? || HuffRecIndex(mh.value).None? || HuffRecCount(mh.value).None? then HuffDicParse(DataCorrupt, t, v)
    else HuffDicAt(records, HuffRecIndex(mh.value).value as nat + kf8Offset, HuffRecCount(mh.value).value as nat, t, v)
  }

  /** The rest of `mobi_parse_huffdic`, for the HUFF record at `index` and
      `count` HUFF and CDIC records in all. */
  function HuffDicAt(records: seq<seq<u8>>, index: nat, count: nat, t: HuffTables, v: DictState): (r: HuffDicParse)
    requires v.indexRead <= v.indexCount
    ensures r.ret == Success || r.ret == DataCorrupt
    ensures r.ret == Success ==>
      2 <= count <= HUFF_RECORD_MAXCNT && index + count <= |records| &&
      |records[index]| >= HUFF_RECORD_MINSIZE && HuffSpec(records[index]).ret == Success &&
      r.tables == ApplyHuff(t, HuffSpec(records[index])) &&
      |r.dict.symbols| == count - 1 && 0 < r.dict.indexRead == r.dict.indexCount == |r.dict.offsets| &&
      1 <= r.dict.codeLength <= HUFF_CODELEN_MAX
  {
    if count > HUFF_RECORD_MAXCNT then HuffDicParse(DataCorrupt, t, v)
    else if index >= |records| || count < 2 then HuffDicParse(DataCorrupt, t, v)
    else if |records[index]| < HUFF_RECORD_MINSIZE then HuffDicParse(DataCorrupt, t, v)
    else
      var hp := HuffSpec(records[index]);
      if hp.ret != Success then HuffDicParse(hp.ret, ApplyHuff(t, hp), v)
      else
        var c := CdicRecords(records, index + 1, count - 1, v.(symbols := Empties(count - 1)));
        if c.ret != Success then HuffDicParse(c.ret, ApplyHuff(t, hp), c.dict)
        else if c.dict.indexCount != c.dict.indexRead then HuffDicParse(DataCorrupt, ApplyHuff(t, hp), c.dict)
        else HuffDicParse(Success, ApplyHuff(t, hp), c.dict)
  }

  /** After a successful `mobi_parse_huffdic`, symbol slot j holds the data
      of the j-th CDIC record after the HUFF record, past its header. */
  lemma HuffDicSymbols(records: seq<seq<u8>>, index: nat, count: nat, t: HuffTables, v: DictState)
    requires v.indexRead <= v.indexCount
    ensures var r := HuffDicAt(records, index, count, t, v);
      r.ret == Success ==> SymbolsFrom(records, index + 1, r.dict.symbols, count - 1)
  {
    var r := HuffDicAt(records, index, count, t, v);
    if r.ret == Success {
      CdicRecordsSymbols(records, index + 1, count - 1, v.(symbols := Empties(count - 1)));
    }
  }

  /** `mobi_parse_huffdic`, filling `h` in place. */
  method ParseHuffDic(h: HuffCdic, records: seq<seq<u8>>, mh: Option<MobiHeader>, kf8Offset: nat) returns (ret: MobiRet)
    requires h.Valid()
    modifies h, h.table1, h.mincode, h.maxcode
    ensures h.Valid()
    ensures h.table1 == old(h.table1) && h.mincode == old(h.mincode) && h.maxcode == old(h.maxcode)
    ensures var r := HuffDicSpec(records, mh, kf8Offset, old(h.Tables()), old(h.Dict()));
      ret == r.ret && h.Tables() == r.tables && h.Dict() == r.dict
  {
    if mh.None? || HuffRecIndex(mh.value).None? || HuffRecCount(mh.value).None? {
      return DataCorrupt;
    }
    ret := ParseHuffDicAt(h, records, HuffRecIndex(mh.value).value as nat + kf8Offset, HuffRecCount(mh.value).value as nat);
  }

  /** The part of `mobi_parse_huffdic` after the MOBI header fields are found. */
  method ParseHuffDicAt(h: HuffCdic, records: seq<seq<u8>>, index: nat, count: nat) returns (ret: MobiRet)
    requires h.Valid()
    modifies h, h.table1, h.mincode, h.maxcode
    ensures h.Valid()
    ensures h.table1 == old(h.table1) && h.mincode == old(h.mincode) && h.maxcode == old(h.maxcode)
    ensures var r := HuffDicAt(records, index, count, old(h.Tables()), old(h.Dict()));
      ret == r.ret && h.Tables() == r.tables && h.Dict() == r.dict
  {
    if count > HUFF_RECORD_MAXCNT {
      return DataCorrupt;
    }
    if index >= |records| || count < 2 {
      return DataCorrupt;
    }
    if |records[index]| < HUFF_RECORD_MINSIZE {
      return DataCorrupt;
    }
    ret := ParseHuff(h, records[index]);
    if ret != Success {
      return;
    }
    h.symbols := Empties(count - 1);
    ret := ParseCdics(h, records, index + 1, count - 1);
    if ret != Success {
      return;
    }
    if h.indexCount != h.indexRead {
      return DataCorrupt;
    }
    return Success;
  }

  /** The loop of `mobi_parse_huffdic` over the `n` CDIC records from `first`. */
  method ParseCdics(h: HuffCdic, records: seq<seq<u8>>, first: nat, n: nat) returns (ret: MobiRet)
    requires h.Valid() && |h.symbols| == n
    modifies h
    ensures h.Valid()
    ensures h.table1 == old(h.table1) && h.mincode == old(h.mincode) && h.maxcode == old(h.maxcode)
    ensures var r := CdicRecords(records, first, n, old(h.Dict()));
      ret == r.ret && h.Dict() == r.dict
  {
    ghost var v := h.Dict();
    var i := 0;
    ret := Success;
    while i < n && ret == Success
      invariant i <= n && h.Valid() && |h.symbols| == n
      invariant h.table1 == old(h.table1) && h.mincode == old(h.mincode) && h.maxcode == old(h.maxcode)
      invariant CdicRecords(records, first, i, v) == CdicParse(ret, h.Dict())
      decreases n - i
    {
      ret := ParseNextCdic(h, records, first, i, v);
      i := i + 1;
    }
    if ret != Success {
      CdicRecordsStop(records, first, i, n, v);
    }
  }

  /** One turn of the loop of `mobi_parse_huffdic`: CDIC record `first + i`
      after the `i` before it parsed. */
  method ParseNextCdic(h: HuffCdic, records: seq<seq<u8>>, first: nat, i: nat, ghost v: DictState) returns (ret: MobiRet)
    requires h.Valid() && i < |v.symbols| && v.indexRead <= v.indexCount
    requires CdicRecords(records, first, i, v) == CdicParse(Success, h.Dict())
    modifies h
    ensures h.Valid()
    ensures h.table1 == old(h.table1) && h.mincode == old(h.mincode) && h.maxcode == old(h.maxcode)
    ensures CdicRecords(records, first, i + 1, v) == CdicParse(ret, h.Dict())
  {
    if first + i >= |records| {
      return DataCorrupt;
    }
    CdicRecordsNext(records, first, i, v);
    ret := ParseCdic(h, records[first + i], i);
  }

  /** One more CDIC record, after the first `i` parsed. */
  lemma CdicRecordsNext(records: seq<seq<u8>>, first: nat, i: nat, v: DictState)
    requires i < |v.symbols| && v.indexRead <= v.indexCount && first + i < |records|
    requires CdicRecords(records, first, i, v).ret == Success
    ensures CdicRecords(records, first, i + 1, v) == CdicSpec(records[first + i], CdicRecords(records, first, i, v).dict, i)
  {
  }
}
