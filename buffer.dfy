/** The library's MOBIBuffer: a byte array read through a cursor `offset`
    that must not pass `maxlen`, with a sticky error flag.

    Its primitives live in libmobi's buffer.c, which is not part of this
    model; they are modelled with the behaviour the reader relies on: a read
    that would pass `maxlen` returns zero (or nothing), sets the error flag
    and leaves `offset` where it was; `dup` reads return "absent" without
    setting the flag; `seek` and `setpos` refuse to move outside
    `[0, maxlen]`.

    Each primitive is given here twice: as a function on a buffer value
    (`BufState`), which the parsers' specifications use, and as a method of
    the class `MobiBuffer`, which the parsers call and which updates the
    buffer in place exactly as that function says. */
module Buffer {
  import opened Common

  /** The cursor of a MOBIBuffer over the bytes `d`: `offset`, `maxlen`,
      and `failed`, which is `buf->error != MOBI_SUCCESS`. The bytes never
      change and are passed beside the cursor. */
  datatype BufState = BufState(offset: nat, maxlen: nat, failed: bool)
  {
    predicate Valid(d: seq<u8>)
    {
      offset <= |d| && maxlen <= |d|
    }
  }

  /** A value read from a buffer together with the buffer afterwards. */
  datatype Read<T> = Read(st: BufState, val: T)

  /** `mobi_buffer_init_null(data, len)`: the buffer over a record's bytes. */
  function Over(d: seq<u8>): (s: BufState)
    ensures s.Valid(d)
  {
    BufState(0, |d|, false)
  }

  /** Whether n more bytes can be read. */
  predicate Fits(s: BufState, n: nat)
  {
    s.offset + n <= s.maxlen
  }

  /** `mobi_buffer_get8`. */
  function Take8(d: seq<u8>, s: BufState): (r: Read<u8>)
    requires s.Valid(d)
    ensures r.st.Valid(d) && r.st.maxlen == s.maxlen
  {
    if !Fits(s, 1) then Read(s.(failed := true), 0)
    else Read(s.(offset := s.offset + 1), d[s.offset])
  }

  /** `mobi_buffer_get16`: big-endian. */
  function Take16(d: seq<u8>, s: BufState): (r: Read<u16>)
    requires s.Valid(d)
    ensures r.st.Valid(d) && r.st.maxlen == s.maxlen
  {
    if !Fits(s, 2) then Read(s.(failed := true), 0)
    else Read(s.(offset := s.offset + 2), BE16(d[s.offset..s.offset + 2]))
  }

  /** `mobi_buffer_get32`: big-endian. */
  function Take32(d: seq<u8>, s: BufState): (r: Read<u32>)
    requires s.Valid(d)
    ensures r.st.Valid(d) && r.st.maxlen == s.maxlen
  {
    if !Fits(s, 4) then Read(s.(failed := true), 0)
    else Read(s.(offset := s.offset + 4), BE32(d[s.offset..s.offset + 4]))
  }

  /** `mobi_buffer_getstring` and `mobi_buffer_getraw`: n raw bytes, or
      nothing (an empty C string) when they do not fit. */
  function TakeBytes(d: seq<u8>, s: BufState, n: nat): (r: Read<seq<u8>>)
    requires s.Valid(d)
    ensures r.st.Valid(d) && r.st.maxlen == s.maxlen
  {
    if !Fits(s, n) then Read(s.(failed := true), [])
    else Read(s.(offset := s.offset + n), d[s.offset..s.offset + n])
  }

  /** `mobi_buffer_dup32`: a present value, or absent (NULL) when it does not fit. */
  function Dup32Of(d: seq<u8>, s: BufState): (r: Read<Option<u32>>)
    requires s.Valid(d)
    ensures r.st.Valid(d) && r.st.maxlen == s.maxlen
  {
    if !Fits(s, 4) then Read(s, None)
    else Read(s.(offset := s.offset + 4), Some(BE32(d[s.offset..s.offset + 4])))
  }

  /** A run of optional 32-bit fields, first field first. */
  datatype Fields = Done | Field(value: Option<u32>, rest: Fields)

  /** k consecutive `mobi_buffer_dup32` reads. */
  function Dups(d: seq<u8>, s: BufState, k: nat): (r: Read<Fields>)
    requires s.Valid(d)
    ensures r.st.Valid(d) && r.st.maxlen == s.maxlen
    decreases k
  {
    if k == 0 then Read(s, Done)
    else
      var f := Dup32Of(d, s);
      var rest := Dups(d, f.st, k - 1);
      Read(rest.st, Field(f.val, rest.val))
  }

  /** The first read of a run, and the rest of the run after it. */
  lemma DupsNext(d: seq<u8>, s: BufState, k: nat)
    requires s.Valid(d) && k > 0
    ensures var f := Dup32Of(d, s);
      var rest := Dups(d, f.st, k - 1);
      Dups(d, s, k) == Read(rest.st, Field(f.val, rest.val))
  {
  }

  /** The i-th field of a run, absent past its end. */
  function Nth(f: Fields, i: nat): Option<u32>
  {
    if f.Done? then None else if i == 0 then f.value else Nth(f.rest, i - 1)
  }

  /** The k big-endian 32-bit words stored from byte o on. */
  function Words(d: seq<u8>, o: nat, k: nat): Fields
    requires o + 4 * k <= |d|
    decreases k
  {
    if k == 0 then Done else Field(Some(BE32(d[o..o + 4])), Words(d, o + 4, k - 1))
  }

  /** k absent fields. */
  function Nones(k: nat): Fields
  {
    if k == 0 then Done else Field(None, Nones(k - 1))
  }

  /** A run of reads that fits yields the words in order and moves past them. */
  lemma {:induction false} DupsPresent(d: seq<u8>, s: BufState, k: nat)
    requires s.Valid(d) && Fits(s, 4 * k)
    ensures Dups(d, s, k) == Read(s.(offset := s.offset + 4 * k), Words(d, s.offset, k))
    decreases k
  {
    if k > 0 {
      DupsPresent(d, s.(offset := s.offset + 4), k - 1);
    }
  }

  /** A run of reads at or past `maxlen` yields nothing and leaves the buffer as it was. */
  lemma {:induction false} DupsAbsent(d: seq<u8>, s: BufState, k: nat)
    requires s.Valid(d) && s.maxlen <= s.offset
    ensures Dups(d, s, k) == Read(s, Nones(k))
    decreases k
  {
    if k > 0 {
      DupsAbsent(d, s, k - 1);
    }
  }

  /** `mobi_buffer_dup16`. */
  function Dup16Of(d: seq<u8>, s: BufState): (r: Read<Option<u16>>)
    requires s.Valid(d)
    ensures r.st.Valid(d) && r.st.maxlen == s.maxlen
  {
    if !Fits(s, 2) then Read(s, None)
    else Read(s.(offset := s.offset + 2), Some(BE16(d[s.offset..s.offset + 2])))
  }

  /** `mobi_buffer_seek`: move by `diff` bytes, forwards up to `maxlen` or
      backwards down to 0. */
  function Moved(d: seq<u8>, s: BufState, diff: int): (r: BufState)
    requires s.Valid(d)
    ensures r.Valid(d) && r.maxlen == s.maxlen
  {
    if diff >= 0 then
      if s.offset + diff <= s.maxlen then s.(offset := s.offset + diff) else s.(failed := true)
    else
      if s.offset >= -diff then s.(offset := s.offset + diff) else s.(failed := true)
  }

  /** `mobi_buffer_setpos`. `pos` is a size_t. */
  function Positioned(d: seq<u8>, s: BufState, pos: nat): (r: BufState)
    requires s.Valid(d)
    ensures r.Valid(d) && r.maxlen == s.maxlen
  {
    if pos <= s.maxlen then s.(offset := pos) else s.(failed := true)
  }

  /** The state in which a backward variable-length read can take place. */
  predicate BackwardReady(d: seq<u8>, s: BufState)
  {
    s.Valid(d) && (s.offset == 0 || s.offset < |d|)
  }

  /** `mobi_buffer_get_varlen_dec`: a variable-length integer read backwards
      from `offset`, seven bits per byte, least significant group first,
      ending at a byte with its top bit set or after four bytes. The result
      is the value and the number of bytes consumed. */
  function VarlenDec(d: seq<u8>, s: BufState): (r: Read<(u32, nat)>)
    requires BackwardReady(d, s)
    ensures BackwardReady(d, r.st) && r.st.maxlen == s.maxlen
    ensures r.val.1 <= 4 && r.val.0 < Weight(4)
    ensures r.st.offset + r.val.1 == s.offset
  {
    var v := VarlenBack(d, s.offset, 0, 0);
    Read(s.(offset := v.pos, failed := s.failed || v.ranOut), (v.val, v.count))
  }

  /** The weight of the count-th seven-bit group, `1 << (7 * count)`. */
  function Weight(count: nat): (w: nat)
    requires count <= 4
    ensures w >= 1
  {
    if count == 0 then 1
    else if count == 1 then 0x80
    else if count == 2 then 0x4000
    else if count == 3 then 0x20_0000
    else 0x1000_0000
  }

  /** Where a backward read stops: the position, the value and number of
      bytes collected, and whether it ran into the start of the buffer. */
  datatype VarlenEnd = VarlenEnd(pos: nat, val: nat, count: nat, ranOut: bool)

  /** The backward read from `pos`, with `count` groups worth `val` already collected. */
  function VarlenBack(data: seq<u8>, pos: nat, val: nat, count: nat): (r: VarlenEnd)
    requires (pos == 0 || pos < |data|) && count < 4 && val < Weight(count)
    ensures r.pos == 0 || r.pos < |data|
    ensures count <= r.count <= 4 && r.val < Weight(r.count)
    ensures r.pos + (r.count - count) == pos
    decreases 4 - count
  {
    if pos < 1 then VarlenEnd(pos, val, count, true)
    else
      var byte := data[pos];
      var val' := val + (byte % 0x80) * Weight(count);
      GroupBound(val, byte % 0x80, count);
      if byte >= 0x80 || count + 1 == 4 then VarlenEnd(pos - 1, val', count + 1, false)
      else VarlenBack(data, pos - 1, val', count + 1)
  }

  /** One step of the backward read, as the loop of `GetVarlenDec` takes it. */
  lemma VarlenBackStep(data: seq<u8>, pos: nat, val: nat, count: nat)
    requires 1 <= pos < |data| && count < 4 && val < Weight(count)
    ensures var byte := data[pos];
      var val' := val + (byte % 0x80) * Weight(count);
      VarlenBack(data, pos, val, count) ==
        if byte >= 0x80 || count + 1 == 4 then VarlenEnd(pos - 1, val', count + 1, false)
        else VarlenBack(data, pos - 1, val', count + 1)
  {
  }

  lemma GroupBound(val: nat, g: nat, count: nat)
    requires count < 4 && val < Weight(count) && g < 0x80
    ensures val + g * Weight(count) < Weight(count + 1)
  {
    assert Weight(count + 1) == 0x80 * Weight(count);
    assert g * Weight(count) <= 0x7f * Weight(count);
  }

  /** The loop of `mobi_buffer_get_varlen_dec`, over the buffer's bytes
      from position `start`. */
  method ReadVarlenBack(data: seq<u8>, start: nat) returns (e: VarlenEnd)
    requires start == 0 || start < |data|
    ensures e == VarlenBack(data, start, 0, 0)
  {
    var pos: nat := start;
    var val: nat := 0;
    var count: nat := 0;
    while true
      invariant (pos == 0 || pos < |data|) && count < 4 && val < Weight(count)
      invariant VarlenBack(data, pos, val, count) == VarlenBack(data, start, 0, 0)
      decreases 4 - count
    {
      if pos < 1 {
        return VarlenEnd(pos, val, count, true);
      }
      var byte := data[pos];
      VarlenBackStep(data, pos, val, count);
      GroupBound(val, byte % 0x80, count);
      var val' := val + (byte % 0x80) * Weight(count);
      if byte >= 0x80 || count + 1 == 4 {
        return VarlenEnd(pos - 1, val', count + 1, false);
      }
      pos, val, count := pos - 1, val', count + 1;
    }
  }

  /** A read of four bytes that hold the encoding of x yields x. */
  lemma Take32Encoded(d: seq<u8>, s: BufState, x: u32)
    requires s.Valid(d) && Fits(s, 4) && d[s.offset..s.offset + 4] == BytesBE32(x)
    ensures Take32(d, s) == Read(s.(offset := s.offset + 4), x)
  {
    BE32RoundTrip(x);
  }

  /** A read of two bytes that hold the encoding of x yields x. */
  lemma Take16Encoded(d: seq<u8>, s: BufState, x: u16)
    requires s.Valid(d) && Fits(s, 2) && d[s.offset..s.offset + 2] == BytesBE16(x)
    ensures Take16(d, s) == Read(s.(offset := s.offset + 2), x)
  {
    BE16RoundTrip(x);
  }

  /** A slice of bytes known to hold `e` holds each part of `e`. */
  lemma SliceOfSlice(d: seq<u8>, a: nat, e: seq<u8>, i: nat, j: nat)
    requires a + |e| <= |d| && d[a..a + |e|] == e && i <= j <= |e|
    ensures d[a + i..a + j] == e[i..j]
  {
    forall k | 0 <= k < j - i
      ensures d[a + i..a + j][k] == e[i..j][k]
    {
      assert d[a + i + k] == d[a..a + |e|][i + k];
    }
  }

  /** A slice known to hold `x + y` holds `x` and then `y`. */
  lemma SplitSlice(d: seq<u8>, a: nat, x: seq<u8>, y: seq<u8>)
    requires a + |x| + |y| <= |d| && d[a..a + |x| + |y|] == x + y
    ensures d[a..a + |x|] == x && d[a + |x|..a + |x| + |y|] == y
  {
    SliceOfSlice(d, a, x + y, 0, |x|);
    assert (x + y)[0..|x|] == x;
    SliceOfSlice(d, a, x + y, |x|, |x| + |y|);
    assert (x + y)[|x|..|x| + |y|] == y;
  }

  /** A read of n bytes that hold `e` yields `e`. */
  lemma TakeBytesEncoded(d: seq<u8>, s: BufState, e: seq<u8>)
    requires s.Valid(d) && Fits(s, |e|) && d[s.offset..s.offset + |e|] == e
    ensures TakeBytes(d, s, |e|) == Read(s.(offset := s.offset + |e|), e)
  {
  }

  /** The in-place buffer. */
  class MobiBuffer {
    const data: seq<u8>
    var offset: nat
    var maxlen: nat
    var failed: bool

    function State(): BufState
      reads this
    {
      BufState(offset, maxlen, failed)
    }

    predicate Valid()
      reads this
    {
      State().Valid(data)
    }

    /** `mobi_buffer_init_null`. */
    constructor InitNull(d: seq<u8>)
      ensures data == d && State() == Over(d) && Valid()
    {
      data := d;
      offset := 0;
      maxlen := |d|;
      failed := false;
    }

    method Get8() returns (v: u8)
      requires Valid()
      modifies this
      ensures Valid() && State() == Take8(data, old(State())).st && v == Take8(data, old(State())).val
    {
      if offset + 1 > maxlen {
        failed := true;
        v := 0;
      } else {
        v := data[offset];
        offset := offset + 1;
      }
    }

    method Get16() returns (v: u16)
      requires Valid()
      modifies this
      ensures Valid() && State() == Take16(data, old(State())).st && v == Take16(data, old(State())).val
    {
      if offset + 2 > maxlen {
        failed := true;
        v := 0;
      } else {
        v := BE16(data[offset..offset + 2]);
        offset := offset + 2;
      }
    }

    method Get32() returns (v: u32)
      requires Valid()
      modifies this
      ensures Valid() && State() == Take32(data, old(State())).st && v == Take32(data, old(State())).val
    {
      if offset + 4 > maxlen {
        failed := true;
        v := 0;
      } else {
        v := BE32(data[offset..offset + 4]);
        offset := offset + 4;
      }
    }

    /** `mobi_buffer_getstring` / `mobi_buffer_getraw`. */
    method GetBytes(n: nat) returns (v: seq<u8>)
      requires Valid()
      modifies this
      ensures Valid() && State() == TakeBytes(data, old(State()), n).st && v == TakeBytes(data, old(State()), n).val
    {
      if offset + n > maxlen {
        failed := true;
        v := [];
      } else {
        v := data[offset..offset + n];
        offset := offset + n;
      }
    }

    method Dup32() returns (v: Option<u32>)
      requires Valid()
      modifies this
      ensures Valid() && State() == Dup32Of(data, old(State())).st && v == Dup32Of(data, old(State())).val
    {
      if offset + 4 > maxlen {
        v := None;
      } else {
        v := Some(BE32(data[offset..offset + 4]));
        offset := offset + 4;
      }
    }

    method Dup16() returns (v: Option<u16>)
      requires Valid()
      modifies this
      ensures Valid() && State() == Dup16Of(data, old(State())).st && v == Dup16Of(data, old(State())).val
    {
      if offset + 2 > maxlen {
        v := None;
      } else {
        v := Some(BE16(data[offset..offset + 2]));
        offset := offset + 2;
      }
    }

    method Seek(diff: int)
      requires Valid()
      modifies this
      ensures Valid() && State() == Moved(data, old(State()), diff)
    {
      if diff >= 0 {
        if offset + diff <= maxlen {
          offset := offset + diff;
        } else {
          failed := true;
        }
      } else {
        if offset >= -diff {
          offset := offset + diff;
        } else {
          failed := true;
        }
      }
    }

    method SetPos(pos: nat)
      requires Valid()
      modifies this
      ensures Valid() && State() == Positioned(data, old(State()), pos)
    {
      if pos <= maxlen {
        offset := pos;
      } else {
        failed := true;
      }
    }

    /** Sets `maxlen`, as the parsers do when they narrow or restore the readable window. */
    method SetMaxlen(len: nat)
      requires Valid() && len <= |data|
      modifies this
      ensures Valid() && State() == old(State()).(maxlen := len)
    {
      maxlen := len;
    }

    method GetVarlenDec() returns (v: u32, len: nat)
      requires BackwardReady(data, State())
      modifies this
      ensures BackwardReady(data, State())
      ensures State() == VarlenDec(data, old(State())).st && (v, len) == VarlenDec(data, old(State())).val
    {
      var e := ReadVarlenBack(data, offset);
      offset := e.pos;
      failed := failed || e.ranOut;
      v, len := e.val, e.count;
    }
  }
}
