/** `struct printk_log` as bytes: header fields at their offsets, then text,
    dictionary and zero padding up to the next aligned header. */
module LogRecord {
  import opened Bytes

  lemma PadsTo4(n: int)
    ensures (n + (-n) % 4) % 4 == 0
  {
    assert n + (-n) % 4 == 4 * -(-n / 4);
  }

  lemma PadsTo8(n: int)
    ensures (n + (-n) % 8) % 8 == 0
  {
    assert n + (-n) % 8 == 8 * -(-n / 8);
  }

  /** The build options that decide the layout of a record: `caller` is
      CONFIG_PRINTK_CALLER, `packed` is CONFIG_HAVE_EFFICIENT_UNALIGNED_ACCESS
      (the struct is then packed and 4-byte aligned, otherwise 8-byte aligned),
      and `long64` says that `unsigned long` has 64 bits rather than 32. */
  datatype Layout = Layout(caller: bool, packed: bool, long64: bool) {
    /** LOG_ALIGN */
    function Align(): nat { if packed then 4 else 8 }

    /** Bytes of the struct that carry fields. */
    function Fields(): nat { if caller then 20 else 16 }

    /** sizeof(struct printk_log) */
    function Header(): nat { if caller && !packed then 24 else Fields() }

    predicate Aligned(n: int) { if packed then n % 4 == 0 else n % 8 == 0 }

    /** (-n) & (LOG_ALIGN - 1) */
    function Pad(n: int): (p: nat)
      ensures Aligned(n + p) && p < Align()
    {
      PadsTo4(n);
      PadsTo8(n);
      if packed then (-n) % 4 else (-n) % 8
    }

    /** `msg_used_size` */
    function UsedSize(textLen: nat, dictLen: nat): (size: nat)
      ensures Aligned(size)
      ensures Header() + textLen + dictLen <= size < Header() + textLen + dictLen + Align()
    {
      var n := Header() + textLen + dictLen;
      n + Pad(n)
    }
  }

  datatype Record = Record(ts: nat, facility: nat, flags: nat, level: nat, caller: nat,
                           text: seq<Byte>, dict: seq<Byte>)

  function Size(lay: Layout, r: Record): nat {
    lay.UsedSize(|r.text|, |r.dict|)
  }

  /** Every field fits the width the struct gives it; the u16 `len` field is the
      one that limits text and dictionary together. */
  predicate Storable(lay: Layout, r: Record) {
    && r.ts < 0x1_0000_0000_0000_0000
    && r.facility < 0x100 && r.flags < 32 && r.level < 8
    && r.caller < 0x1_0000_0000
    && (!lay.caller ==> r.caller == 0)
    && Size(lay, r) <= 0xFFFF
  }

  /** The `len` field of the header at `off`; 0 marks the end of the buffer. */
  function LenAt(mem: seq<Byte>, off: nat): (len: nat)
    requires off + 10 <= |mem|
    ensures len <= 0xFFFF
  {
    U16(mem, off + 8)
  }

  /** `b` is a stored record: the header says how long it, its text and its
      dictionary are, and the padding is zero. */
  predicate WellFormed(lay: Layout, b: seq<Byte>) {
    && lay.Header() <= |b|
    && LenAt(b, 0) == |b|
    && |b| == lay.UsedSize(U16(b, 10), U16(b, 12))
    && (forall i :: lay.Header() + U16(b, 10) + U16(b, 12) <= i < |b| ==> b[i] == 0)
  }

  /** What the readers see through the header fields, `log_text` and `log_dict`. */
  function Decode(lay: Layout, b: seq<Byte>): Record
    requires WellFormed(lay, b)
  {
    var h := lay.Header();
    var t := h + U16(b, 10);
    Record(U64(b, 0), b[14], b[15] % 32, b[15] / 32,
           if lay.caller then U32(b, 16) else 0,
           b[h..t], b[t..t + U16(b, 12)])
  }

  /** The bytes `b` store exactly the record `r`. */
  predicate Stores(lay: Layout, b: seq<Byte>, r: Record) {
    WellFormed(lay, b) && Decode(lay, b) == r
  }

  /** The header fields, written one by one where the struct has them. */
  predicate HeaderAt(lay: Layout, mem: seq<Byte>, off: nat, r: Record)
    requires off + lay.Header() <= |mem|
  {
    && U64(mem, off) == r.ts
    && LenAt(mem, off) == Size(lay, r)
    && U16(mem, off + 10) == |r.text| && U16(mem, off + 12) == |r.dict|
    && mem[off + 14] == r.facility && mem[off + 15] == r.flags + 32 * r.level
    && (lay.caller ==> U32(mem, off + 16) == r.caller)
  }

  method FillHeader(mem: array<Byte>, off: nat, lay: Layout, r: Record)
    requires Storable(lay, r) && off + lay.Header() <= mem.Length
    modifies mem
    ensures HeaderAt(lay, mem[..], off, r)
    ensures forall k :: 0 <= k < mem.Length && !(off <= k < off + lay.Header()) ==> mem[k] == old(mem[k])
  {
    PutLengths(mem, off, |r.text|, |r.dict|, Size(lay, r));
    mem[off + 14] := r.facility;
    mem[off + 15] := r.flags + 32 * r.level;
    ghost var m0 := mem[..];
    PutU64(mem, off, r.ts);
    ghost var m1 := mem[..];
    if lay.caller {
      PutU32(mem, off + 16, r.caller);
    }
    U16Frame(m0, mem[..], off + 8);
    U16Frame(m0, mem[..], off + 10);
    U16Frame(m0, mem[..], off + 12);
    U64Frame(m1, mem[..], off);
  }

  method PutLengths(mem: array<Byte>, off: nat, textLen: nat, dictLen: nat, size: nat)
    requires off + 14 <= mem.Length
    requires textLen <= 0xFFFF && dictLen <= 0xFFFF && size <= 0xFFFF
    modifies mem
    ensures LenAt(mem[..], off) == size
    ensures U16(mem[..], off + 10) == textLen && U16(mem[..], off + 12) == dictLen
    ensures forall k :: 0 <= k < mem.Length && !(off + 8 <= k < off + 14) ==> mem[k] == old(mem[k])
  {
    PutU16(mem, off + 10, textLen);
    ghost var m0 := mem[..];
    PutU16(mem, off + 12, dictLen);
    ghost var m1 := mem[..];
    PutU16(mem, off + 8, size);
    U16Frame(m0, mem[..], off + 10);
    U16Frame(m1, mem[..], off + 12);
  }

  /** "fill message" in log_store: `text` and `note` (the truncation marker, or
      nothing) become the record's text, `dict` its dictionary. */
  method FillRecord(mem: array<Byte>, off: nat, lay: Layout, r: Record,
                    text: seq<Byte>, note: seq<Byte>)
    requires Storable(lay, r) && off + Size(lay, r) <= mem.Length
    requires r.text == text + note
    modifies mem
    ensures Stores(lay, mem[off..off + Size(lay, r)], r)
    ensures forall k :: 0 <= k < mem.Length && !(off <= k < off + Size(lay, r)) ==> mem[k] == old(mem[k])
  {
    var t, end := off + lay.Header(), off + Size(lay, r);
    FillPayload(mem, t, r, text, note, end);
    ghost var m0 := mem[..];
    FillHeader(mem, off, lay, r);
    PayloadFrame(m0, mem[..], t, r, end);
    StoresFields(lay, mem[..], off, r);
  }

  lemma PayloadFrame(mem: seq<Byte>, mem': seq<Byte>, t: nat, r: Record, end: nat)
    requires t + |r.text| + |r.dict| <= end <= |mem| == |mem'|
    requires PayloadAt(mem, t, r, end)
    requires forall k :: t <= k < end ==> mem'[k] == mem[k]
    ensures PayloadAt(mem', t, r, end)
  {
  }

  predicate PayloadAt(mem: seq<Byte>, t: nat, r: Record, end: nat)
    requires t + |r.text| + |r.dict| <= end <= |mem|
  {
    var d := t + |r.text|;
    && (forall k :: t <= k < d ==> mem[k] == r.text[k - t])
    && (forall k :: d <= k < d + |r.dict| ==> mem[k] == r.dict[k - d])
    && (forall k :: d + |r.dict| <= k < end ==> mem[k] == 0)
  }

  method FillPayload(mem: array<Byte>, t: nat, r: Record, text: seq<Byte>, note: seq<Byte>, end: nat)
    requires t + |r.text| + |r.dict| <= end <= mem.Length
    requires r.text == text + note
    modifies mem
    ensures PayloadAt(mem[..], t, r, end)
    ensures forall k :: 0 <= k < mem.Length && !(t <= k < end) ==> mem[k] == old(mem[k])
  {
    var d := t + |r.text|;
    Memcpy(mem, t, text);
    Memcpy(mem, t + |text|, note);
    Memcpy(mem, d, r.dict);
    Memcpy(mem, d + |r.dict|, Zeros(end - (d + |r.dict|)));
  }

  lemma StoresFields(lay: Layout, mem: seq<Byte>, off: nat, r: Record)
    requires Storable(lay, r) && off + Size(lay, r) <= |mem|
    requires HeaderAt(lay, mem, off, r)
    requires PayloadAt(mem, off + lay.Header(), r, off + Size(lay, r))
    ensures Stores(lay, mem[off..off + Size(lay, r)], r)
  {
    var h, z := lay.Header(), Size(lay, r);
    var b := mem[off..off + z];
    FieldsOfSlice(mem, off, z, lay);
    PayloadOfSlice(mem, off, z, h, r);
    StoresBytes(lay, b, r);
  }

  lemma PayloadOfSlice(mem: seq<Byte>, off: nat, z: nat, h: nat, r: Record)
    requires h + |r.text| + |r.dict| <= z && off + z <= |mem|
    requires PayloadAt(mem, off + h, r, off + z)
    ensures var b, t := mem[off..off + z], h + |r.text|;
            && b[h..t] == r.text
            && b[t..t + |r.dict|] == r.dict
            && forall i :: t + |r.dict| <= i < z ==> b[i] == 0
  {
    SliceIs(mem, off, z, h, r.text);
    SliceIs(mem, off, z, h + |r.text|, r.dict);
  }

  lemma StoresBytes(lay: Layout, b: seq<Byte>, r: Record)
    requires Storable(lay, r) && |b| == Size(lay, r)
    requires HeaderAt(lay, b, 0, r)
    requires var h := lay.Header();
             && b[h..h + |r.text|] == r.text
             && b[h + |r.text|..h + |r.text| + |r.dict|] == r.dict
             && forall i :: h + |r.text| + |r.dict| <= i < |b| ==> b[i] == 0
    ensures Stores(lay, b, r)
  {
    assert WellFormed(lay, b);
  }

  lemma FieldsOfSlice(mem: seq<Byte>, off: nat, z: nat, lay: Layout)
    requires lay.Header() <= z && off + z <= |mem|
    ensures var b := mem[off..off + z];
            && U64(b, 0) == U64(mem, off) && LenAt(b, 0) == LenAt(mem, off)
            && U16(b, 10) == U16(mem, off + 10) && U16(b, 12) == U16(mem, off + 12)
            && b[14] == mem[off + 14] && b[15] == mem[off + 15]
            && (lay.caller ==> U32(b, 16) == U32(mem, off + 16))
  {
  }

  lemma SliceIs(mem: seq<Byte>, off: nat, z: nat, i: nat, s: seq<Byte>)
    requires off + z <= |mem| && i + |s| <= z
    requires forall k :: off + i <= k < off + i + |s| ==> mem[k] == s[k - (off + i)]
    ensures mem[off..off + z][i..i + |s|] == s
  {
    SliceOfSlice(mem, off, off + z, i, i + |s|);
    assert mem[off + i..off + i + |s|] == s;
  }
}
