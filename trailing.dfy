/** The trailing entries at the end of a text record (`mobi_get_record_extrasize`
    and `mobi_get_record_mb_extrasize`, src/read.c). Each bit 1..15 of the MOBI
    header's `extra_flags` announces one entry; the entries are read from the
    end of the record backwards, highest bit first, each ending in its own size
    as a backward variable-length integer. Bit 0 announces the multibyte entry,
    whose size is held in the two low bits of its last byte. */
module Trailing {
  import opened Common
  import opened Buffer

  /** The highest flag bit that announces a trailing entry. */
  const TOP_BIT: nat := 15

  /** `mobi_buffer_setpos(buf, buf->maxlen - 1)`: the size_t subtraction wraps
      for an empty record, and the position is then refused. */
  function AtLastByte(d: seq<u8>): (s: BufState)
    ensures BackwardReady(d, s)
    ensures |d| > 0 ==> s == BufState(|d| - 1, |d|, false)
  {
    Positioned(d, Over(d), if |d| == 0 then SIZE_MOD - 1 else |d| - 1)
  }

  /** One trailing entry skipped backwards from the cursor `s`: its size is
      read backwards, then the cursor moves by the number of bytes that read
      consumed minus the size. In C that move is `-(int)(size - len)`, which
      is `len - size` also when `size < len`. The result is the entry's size. */
  function SkipEntry(d: seq<u8>, s: BufState): (r: Read<nat>)
    requires BackwardReady(d, s)
    ensures BackwardReady(d, r.st) && r.st.maxlen == s.maxlen
    ensures r.st.offset <= s.offset
  {
    var v := VarlenDec(d, s);
    Read(Moved(d, v.st, v.val.1 - v.val.0), v.val.0)
  }

  /** The entries announced by bits `bit` down to 1, skipped from the cursor
      `s`: the cursor afterwards and the sum of the entries' sizes. */
  function Skips(d: seq<u8>, s: BufState, flags: u16, bit: nat): (r: Read<nat>)
    requires BackwardReady(d, s) && bit <= TOP_BIT
    ensures BackwardReady(d, r.st) && r.st.maxlen == s.maxlen
    ensures r.st.offset <= s.offset
    decreases bit
  {
    if bit == 0 then Read(s, 0)
    else if BitSet(flags, bit) then
      var e := SkipEntry(d, s);
      var rest := Skips(d, e.st, flags, bit - 1);
      Read(rest.st, e.val + rest.val)
    else Skips(d, s, flags, bit - 1)
  }

  /** The body of the loop over the flag bits, for one announced entry. */
  method SkipOne(buf: MobiBuffer) returns (size: nat)
    requires BackwardReady(buf.data, buf.State())
    modifies buf
    ensures BackwardReady(buf.data, buf.State())
    ensures (buf.State(), size) == (SkipEntry(buf.data, old(buf.State())).st, SkipEntry(buf.data, old(buf.State())).val)
  {
    var v, len := buf.GetVarlenDec();
    buf.Seek(len - v);
    size := v;
  }

  /** The size of the multibyte entry, `(b & 3) + 1`, from the byte at the cursor. */
  function MultibyteSize(d: seq<u8>, s: BufState): (n: nat)
    requires s.Valid(d)
    ensures 1 <= n <= 4
  {
    Take8(d, s).val % 4 + 1
  }

  /** `mobi_get_record_extrasize`: the number of trailing bytes, all entries included. */
  function ExtraSizeSpec(d: seq<u8>, flags: u16): (n: nat)
    ensures n >= Skips(d, AtLastByte(d), flags, TOP_BIT).val
    ensures !BitSet(flags, 0) ==> n == Skips(d, AtLastByte(d), flags, TOP_BIT).val
  {
    var e := Skips(d, AtLastByte(d), flags, TOP_BIT);
    e.val + (if BitSet(flags, 0) then MultibyteSize(d, e.st) else 0)
  }

  /** `mobi_get_record_mb_extrasize`: the size of the multibyte entry alone,
      0 when bit 0 of the flags is clear. */
  function MbExtraSizeSpec(d: seq<u8>, flags: u16): (n: nat)
    ensures BitSet(flags, 0) <==> n > 0
    ensures n <= 4
  {
    if BitSet(flags, 0) then MultibyteSize(d, Skips(d, AtLastByte(d), flags, TOP_BIT).st) else 0
  }

  /** The loop over bits 15..1 that both functions share; only
      `mobi_get_record_extrasize` uses the sum. */
  method SkipEntries(buf: MobiBuffer, flags: u16) returns (extra: nat)
    requires BackwardReady(buf.data, buf.State())
    modifies buf
    ensures BackwardReady(buf.data, buf.State())
    ensures var e := Skips(buf.data, old(buf.State()), flags, TOP_BIT);
      buf.State() == e.st && extra == e.val
  {
    ghost var s0 := buf.State();
    extra := 0;
    var bit: nat := TOP_BIT;
    while bit > 0
      invariant bit <= TOP_BIT && BackwardReady(buf.data, buf.State())
      invariant var e := Skips(buf.data, buf.State(), flags, bit);
        var all := Skips(buf.data, s0, flags, TOP_BIT);
        e.st == all.st && extra + e.val == all.val
      decreases bit
    {
      if BitSet(flags, bit) {
        var size := SkipOne(buf);
        extra := extra + size;
      }
      bit := bit - 1;
    }
  }

  /** `mobi_get_record_extrasize`. */
  method ExtraSize(record: seq<u8>, flags: u16) returns (extra: nat)
    ensures extra == ExtraSizeSpec(record, flags)
  {
    var buf := new MobiBuffer.InitNull(record);
    buf.SetPos(if buf.maxlen == 0 then SIZE_MOD - 1 else buf.maxlen - 1);
    extra := SkipEntries(buf, flags);
    if BitSet(flags, 0) {
      var b := buf.Get8();
      extra := extra + b % 4 + 1;
    }
  }

  /** `mobi_get_record_mb_extrasize`. */
  method MbExtraSize(record: seq<u8>, flags: u16) returns (extra: nat)
    ensures extra == MbExtraSizeSpec(record, flags)
  {
    extra := 0;
    if BitSet(flags, 0) {
      var buf := new MobiBuffer.InitNull(record);
      buf.SetPos(if buf.maxlen == 0 then SIZE_MOD - 1 else buf.maxlen - 1);
      var ignored := SkipEntries(buf, flags);
      var b := buf.Get8();
      extra := extra + b % 4 + 1;
    }
  }

  /** The total trailing size is the sizes of the announced entries plus the
      multibyte entry that `mobi_get_record_mb_extrasize` reports. */
  lemma ExtraSizeSplits(d: seq<u8>, flags: u16)
    ensures ExtraSizeSpec(d, flags) == Skips(d, AtLastByte(d), flags, TOP_BIT).val + MbExtraSizeSpec(d, flags)
  {
  }

  /** A trailing entry with payload `p`, ended by its size (the payload and the
      size byte itself) in one byte, as a writer lays it out. */
  function Entry(p: seq<u8>): (e: seq<u8>)
    requires |p| < 0x7f
    ensures |e| == |p| + 1
  {
    p + [0x80 + |p| + 1]
  }

  predicate Small(ps: seq<seq<u8>>)
  {
    forall i :: 0 <= i < |ps| ==> |ps[i]| < 0x7f
  }

  /** The entries in the order they are read: `ps[0]` is the last one in the record. */
  function Entries(ps: seq<seq<u8>>): (b: seq<u8>)
    requires Small(ps)
  {
    if ps == [] then [] else Entries(ps[1..]) + Entry(ps[0])
  }

  /** The sizes of the entries, payloads and size bytes. */
  function SizeSum(ps: seq<seq<u8>>): nat
  {
    if ps == [] then 0 else |ps[0]| + 1 + SizeSum(ps[1..])
  }

  /** The number of flag bits among 1..bit. */
  function SetBitCount(flags: u16, bit: nat): nat
  {
    if bit == 0 then 0 else (if BitSet(flags, bit) then 1 else 0) + SetBitCount(flags, bit - 1)
  }

  /** One entry whose size byte is at the cursor is skipped whole. */
  lemma EntrySkipped(d: seq<u8>, s: BufState, p: seq<u8>)
    requires s.Valid(d) && s.maxlen == |d| && |p| < 0x7f && |p| + 1 <= s.offset < |d|
    requires d[s.offset] == 0x80 + |p| + 1
    ensures SkipEntry(d, s) == Read(s.(offset := s.offset - 1 - |p|), |p| + 1)
  {
    VarlenBackStep(d, s.offset, 0, 0);
  }

  /** Skipping entries laid out after a nonempty prefix stops at the prefix's
      last byte, having summed the entries' sizes. */
  lemma {:induction false} SkipsEntries(d: seq<u8>, prefix: seq<u8>, ps: seq<seq<u8>>, flags: u16, bit: nat, s: BufState)
    requires Small(ps) && bit <= TOP_BIT && |ps| == SetBitCount(flags, bit)
    requires |prefix| >= 1 && |prefix| + |Entries(ps)| <= |d|
    requires d[..|prefix| + |Entries(ps)|] == prefix + Entries(ps)
    requires s.Valid(d) && s.maxlen == |d| && s.offset == |prefix| + |Entries(ps)| - 1
    ensures Skips(d, s, flags, bit) == Read(s.(offset := |prefix| - 1), SizeSum(ps))
    decreases bit
  {
    if bit == 0 {
      assert ps == [];
    } else if BitSet(flags, bit) {
      var p, rest := ps[0], ps[1..];
      assert Small(rest) by {
        forall i | 0 <= i < |rest| ensures |rest[i]| < 0x7f {
          assert rest[i] == ps[i + 1];
        }
      }
      var front := |prefix| + |Entries(rest)|;
      assert Entries(ps) == Entries(rest) + Entry(p);
      assert d[s.offset] == 0x80 + |p| + 1 by {
        assert d[s.offset] == (prefix + Entries(ps))[s.offset];
      }
      assert s.offset == front + |p|;
      EntrySkipped(d, s, p);
      var skipped := SkipEntry(d, s).st;
      assert d[..front] == prefix + Entries(rest) by {
        assert d[..front] == d[..|prefix| + |Entries(ps)|][..front];
        assert (prefix + Entries(ps))[..front] == prefix + Entries(rest);
      }
      SkipsEntries(d, prefix, rest, flags, bit - 1, skipped);
    } else {
      SkipsEntries(d, prefix, ps, flags, bit - 1, s);
    }
  }

  /** A record made of text, a multibyte byte `mb` and one entry per flag bit
      among 1..15 has as trailing size the entries' sizes plus, when bit 0 is
      set, the multibyte size `(mb & 3) + 1`. */
  lemma {:induction false} ExtraSizeOfLayout(text: seq<u8>, mb: u8, ps: seq<seq<u8>>, flags: u16)
    requires Small(ps) && |ps| == SetBitCount(flags, TOP_BIT)
    ensures var d := text + [mb] + Entries(ps);
      ExtraSizeSpec(d, flags) == SizeSum(ps) + (if BitSet(flags, 0) then mb % 4 + 1 else 0) &&
      MbExtraSizeSpec(d, flags) == (if BitSet(flags, 0) then mb % 4 + 1 else 0)
  {
    var prefix := text + [mb];
    var d := prefix + Entries(ps);
    assert d[..|prefix| + |Entries(ps)|] == prefix + Entries(ps);
    var s := AtLastByte(d);
    SkipsEntries(d, prefix, ps, flags, TOP_BIT, s);
    assert d[|prefix| - 1] == mb;
  }
}
