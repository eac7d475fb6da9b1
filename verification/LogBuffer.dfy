/** The kernel log buffer in memory: `log_buf` with its index and sequence
    counters, proved against the record ring of `LogRing`. */
module LogBuffers {
  import opened Bytes
  import opened LogRecord
  import opened LogRing

  // ---- the byte image of a ring ----

  /** `log_from_idx`: the offset of the record an index leads to. */
  function FromIdx(mem: seq<Byte>, idx: nat): nat
    requires idx + 10 <= |mem|
  {
    if LenAt(mem, idx) == 0 then 0 else idx
  }

  /** `log_next` */
  function NextOf(mem: seq<Byte>, idx: nat): nat
    requires idx + 10 <= |mem|
  {
    if LenAt(mem, idx) == 0 then LenAt(mem, 0) else idx + LenAt(mem, idx)
  }

  ghost predicate StoredAt(r: Ring, mem: seq<Byte>, s: nat)
    requires r.Shape() && s < r.Next()
  {
    r.End(s) <= |mem| && Stores(r.lay, mem[r.Off(s)..r.End(s)], r.hist[s])
  }

  /** Every live record is in memory, and the marker that leads back to offset 0. */
  ghost predicate Image(r: Ring, mem: seq<Byte>)
    requires r.Shape()
  {
    var held := Held(r, mem);
    held
  }

  ghost predicate Held(r: Ring, mem: seq<Byte>)
    requires r.Shape()
  {
    && |mem| == r.len
    && (forall s :: r.first <= s < r.Next() ==> StoredAt(r, mem, s))
    && (r.Wrapped() ==> r.idxs[r.wrap] + 10 <= |mem| && LenAt(mem, r.idxs[r.wrap]) == 0)
  }

  /** Following a genuine index: it leads to its record, intact, and `log_next`
      gives the genuine index of the next sequence number. */
  lemma ReadImage(r: Ring, mem: seq<Byte>, s: nat)
    requires Inv(r) && Image(r, mem) && r.first <= s < r.Next()
    ensures FromIdx(mem, r.idxs[s]) == r.Off(s)
    ensures NextOf(mem, r.idxs[s]) == r.idxs[s + 1]
    ensures r.End(s) <= |mem| && LenAt(mem, r.Off(s)) == Size(r.lay, r.hist[s])
    ensures WellFormed(r.lay, mem[r.Off(s)..r.End(s)])
    ensures Decode(r.lay, mem[r.Off(s)..r.End(s)]) == r.hist[s]
  {
    assert StoredAt(r, mem, s);
    assert r.End(s) == r.idxs[s + 1];
    FieldsOfSlice(mem, r.Off(s), Size(r.lay, r.hist[s]), r.lay);
    assert r.wrap == 0 ==> r.idxs[r.wrap] == 0;
  }

  /** `log_next` at a genuine index. */
  method NextIndex(mem: array<Byte>, idx: nat, ghost r: Ring, ghost s: nat) returns (idx': nat)
    requires Inv(r) && Image(r, mem[..]) && r.first <= s < r.Next() && idx == r.idxs[s]
    ensures idx' == r.idxs[s + 1]
  {
    ReadImage(r, mem[..], s);
    idx' := NextOf(mem[..], idx);
  }

  lemma ImageDrop(r: Ring, mem: seq<Byte>, f: nat)
    requires Inv(r) && Image(r, mem) && r.first <= f <= r.Next()
    ensures Image(DropTo(r, f), mem)
  {
    var r' := DropTo(r, f);
    forall s | f <= s < r.Next()
      ensures StoredAt(r', mem, s)
    {
      assert StoredAt(r, mem, s);
    }
  }

  /** Where a store puts its record. */
  function Slot(r: Ring, z: nat): nat
    requires r.Shape()
  {
    if MustWrap(r, z) then 0 else r.NextIdx()
  }

  /** The bytes a store may touch: the record's slot and, when it wraps, the
      empty header at the old index. */
  predicate Touched(r: Ring, z: nat, k: int)
    requires r.Shape()
  {
    || Slot(r, z) <= k < Slot(r, z) + z
    || (MustWrap(r, z) && r.NextIdx() <= k < r.NextIdx() + r.lay.Header())
  }

  /** No byte a store touches belongs to a surviving record or to the length
      field of a wrap marker still needed. */
  lemma StoreTouchesOnlyFree(r: Ring, z: nat, s: nat, k: int)
    requires Inv(r) && RoomMade(r, z) && r.first <= s < r.Next()
    requires Touched(r, z, k)
    ensures 0 <= k < r.len
    ensures !(r.Off(s) <= k < r.End(s))
    ensures r.Wrapped() ==> !(r.idxs[r.wrap] <= k < r.idxs[r.wrap] + r.lay.Header())
  {
    EqualIndicesMeanEmpty(r);
    assert r.End(s) == r.idxs[s + 1];
    if !r.Wrapped() {
      Monotone(r, r.first, s);
      Monotone(r, s + 1, r.Next());
      assert r.wrap == s ==> r.wrap == 0;
    } else {
      Monotone(r, r.first, r.wrap);
      if s < r.wrap {
        Monotone(r, r.first, s);
      } else {
        Monotone(r, s + 1, r.Next());
      }
    }
  }

  lemma ImageAppend(r: Ring, mem: seq<Byte>, mem': seq<Byte>, rec: Record)
    requires Inv(r) && Image(r, mem) && Storable(r.lay, rec)
    requires RoomMade(r, Size(r.lay, rec))
    requires |mem'| == |mem|
    requires var z := Size(r.lay, rec);
             && (forall k :: 0 <= k < |mem| && !Touched(r, z, k) ==> mem'[k] == mem[k])
             && Slot(r, z) + z <= |mem'| && Stores(r.lay, mem'[Slot(r, z)..Slot(r, z) + z], rec)
             && (MustWrap(r, z) ==> r.NextIdx() + 10 <= |mem'| && LenAt(mem', r.NextIdx()) == 0)
    ensures Image(Append(r, rec), mem')
  {
    var z, n := Size(r.lay, rec), r.Next();
    var r' := Append(r, rec);
    EqualIndicesMeanEmpty(r);
    assert MustWrap(r, z) ==> !r.Wrapped();
    forall s | r'.first <= s < r'.Next()
      ensures StoredAt(r', mem', s)
    {
      if s < n {
        assert r.wrap == s && !r.Wrapped() ==> s == 0 && r.idxs[0] == 0;
        assert r'.Off(s) == r.Off(s) && r'.End(s) == r.End(s);
        assert StoredAt(r, mem, s);
        SliceKept(r, mem, mem', z, s);
      } else {
        assert r.wrap == s && !MustWrap(r, z) ==> s == 0 && r.idxs[0] == 0;
        assert r'.Off(s) == Slot(r, z);
      }
    }
    if r'.Wrapped() && !MustWrap(r, z) {
      MarkerKept(r, mem, mem', z);
    }
  }

  /** `Insert` without wrapping. */
  lemma ImageAfterFill(r: Ring, mem: seq<Byte>, mem': seq<Byte>, rec: Record, at: nat, end: nat)
    requires Inv(r) && Image(r, mem) && Storable(r.lay, rec)
    requires RoomMade(r, Size(r.lay, rec)) && !MustWrap(r, Size(r.lay, rec))
    requires at == r.NextIdx() && end == at + Size(r.lay, rec)
    requires |mem'| == |mem| && end <= |mem'| && Stores(r.lay, mem'[at..end], rec)
    requires forall k :: 0 <= k < |mem'| && !(at <= k < end) ==> mem'[k] == mem[k]
    ensures Image(Append(r, rec), mem')
  {
    ImageAppend(r, mem, mem', rec);
  }

  /** `Insert` with an empty header and the record at offset 0. */
  lemma ImageAfterWrap(r: Ring, mem: seq<Byte>, mem': seq<Byte>, rec: Record, idx: nat)
    requires Inv(r) && Image(r, mem) && Storable(r.lay, rec)
    requires RoomMade(r, Size(r.lay, rec)) && MustWrap(r, Size(r.lay, rec))
    requires idx == r.NextIdx()
    requires |mem'| == |mem| && Size(r.lay, rec) <= |mem'| && idx + 10 <= |mem'|
    requires LenAt(mem', idx) == 0 && Stores(r.lay, mem'[..Size(r.lay, rec)], rec)
    requires forall k :: 0 <= k < |mem'| && !(k < Size(r.lay, rec)) && !(idx <= k < idx + r.lay.Header())
               ==> mem'[k] == mem[k]
    ensures Image(Append(r, rec), mem')
  {
    assert mem'[..Size(r.lay, rec)] == mem'[0..0 + Size(r.lay, rec)];
    ImageAppend(r, mem, mem', rec);
  }

  lemma SliceKept(r: Ring, mem: seq<Byte>, mem': seq<Byte>, z: nat, s: nat)
    requires Inv(r) && RoomMade(r, z) && r.first <= s < r.Next()
    requires |mem'| == |mem| == r.len && r.End(s) <= |mem|
    requires forall k :: 0 <= k < |mem| && !Touched(r, z, k) ==> mem'[k] == mem[k]
    ensures mem'[r.Off(s)..r.End(s)] == mem[r.Off(s)..r.End(s)]
  {
    forall k | r.Off(s) <= k < r.End(s)
      ensures mem'[k] == mem[k]
    {
      if Touched(r, z, k) {
        StoreTouchesOnlyFree(r, z, s, k);
      }
    }
  }

  lemma MarkerKept(r: Ring, mem: seq<Byte>, mem': seq<Byte>, z: nat)
    requires Inv(r) && RoomMade(r, z) && r.Wrapped()
    requires |mem'| == |mem| == r.len
    requires forall k :: 0 <= k < |mem| && !Touched(r, z, k) ==> mem'[k] == mem[k]
    ensures LenAt(mem', r.idxs[r.wrap]) == LenAt(mem, r.idxs[r.wrap])
  {
    forall k | r.idxs[r.wrap] <= k < r.idxs[r.wrap] + r.lay.Header()
      ensures mem'[k] == mem[k]
    {
      if Touched(r, z, k) {
        StoreTouchesOnlyFree(r, z, r.wrap, k);
      }
    }
  }

  lemma ImageClear(r: Ring, mem: seq<Byte>)
    requires Inv(r) && Image(r, mem)
    ensures Image(Clear(r), mem)
  {
    forall s | r.first <= s < r.Next()
      ensures StoredAt(Clear(r), mem, s)
    {
      assert StoredAt(r, mem, s);
    }
  }

  lemma ImageGrow(r: Ring, mem: seq<Byte>, mem': seq<Byte>)
    requires Inv(r) && Image(r, mem) && mem <= mem'
    ensures Image(Grow(r, |mem'|), mem')
  {
    forall s | r.first <= s < r.Next()
      ensures StoredAt(Grow(r, |mem'|), mem', s)
    {
      StoredGrow(r, mem, mem', s);
    }
  }

  lemma StoredGrow(r: Ring, mem: seq<Byte>, mem': seq<Byte>, s: nat)
    requires r.Shape() && s < r.Next() && StoredAt(r, mem, s) && mem <= mem'
    ensures StoredAt(Grow(r, |mem'|), mem', s)
  {
    assert mem'[r.Off(s)..r.End(s)] == mem[r.Off(s)..r.End(s)];
  }

  /** An empty header at the old index, the record at offset 0. */
  method WrapAndFill(mem: array<Byte>, idx: nat, lay: Layout, rec: Record,
                       text: seq<Byte>, note: seq<Byte>)
    requires Storable(lay, rec) && rec.text == text + note
    requires Size(lay, rec) <= idx && idx + lay.Header() <= mem.Length
    modifies mem
    ensures LenAt(mem[..], idx) == 0
    ensures Stores(lay, mem[..Size(lay, rec)], rec)
    ensures forall k :: 0 <= k < mem.Length && !(k < Size(lay, rec)) && !(idx <= k < idx + lay.Header())
              ==> mem[k] == old(mem[k])
  {
    Memcpy(mem, idx, Zeros(lay.Header()));
    ghost var m1 := mem[..];
    FillRecord(mem, 0, lay, rec, text, note);
    assert mem[..Size(lay, rec)] == mem[0..0 + Size(lay, rec)];
    U16Frame(m1, mem[..], idx + 8);
  }

  /** Writes a record into the free space of a ring; the result is the new index. */
  method Place(mem: array<Byte>, idx: nat, ghost r: Ring, lay: Layout, rec: Record,
               text: seq<Byte>, note: seq<Byte>) returns (idx': nat)
    requires Inv(r) && Image(r, mem[..]) && Storable(lay, rec) && RoomMade(r, Size(lay, rec))
    requires rec.text == text + note && idx == r.NextIdx() && lay == r.lay
    modifies mem
    ensures Image(Append(r, rec), mem[..])
    ensures idx' == Append(r, rec).NextIdx()
  {
    if idx + Size(lay, rec) + lay.Header() > mem.Length {
      PlaceAtStart(mem, idx, r, lay, rec, text, note);
      idx' := Size(lay, rec);
    } else {
      PlaceHere(mem, idx, r, lay, rec, text, note);
      idx' := idx + Size(lay, rec);
    }
  }

  method PlaceAtStart(mem: array<Byte>, idx: nat, ghost r: Ring, lay: Layout, rec: Record,
                      text: seq<Byte>, note: seq<Byte>)
    requires Inv(r) && Image(r, mem[..]) && Storable(lay, rec) && RoomMade(r, Size(lay, rec))
    requires rec.text == text + note && idx == r.NextIdx() && lay == r.lay
    requires MustWrap(r, Size(lay, rec))
    modifies mem
    ensures Image(Append(r, rec), mem[..])
  {
    ghost var m0 := mem[..];
    EqualIndicesMeanEmpty(r);
    WrapAndFill(mem, idx, lay, rec, text, note);
    ImageAfterWrap(r, m0, mem[..], rec, idx);
  }

  method PlaceHere(mem: array<Byte>, idx: nat, ghost r: Ring, lay: Layout, rec: Record,
                   text: seq<Byte>, note: seq<Byte>)
    requires Inv(r) && Image(r, mem[..]) && Storable(lay, rec) && RoomMade(r, Size(lay, rec))
    requires rec.text == text + note && idx == r.NextIdx() && lay == r.lay
    requires !MustWrap(r, Size(lay, rec))
    modifies mem
    ensures Image(Append(r, rec), mem[..])
  {
    ghost var m0 := mem[..];
    FillRecord(mem, idx, lay, rec, text, note);
    ImageAfterFill(r, m0, mem[..], rec, idx, idx + Size(lay, rec));
  }

  method RecordAt(lay: Layout, mem: array<Byte>, idx: nat, ghost r: Ring, ghost s: nat) returns (rec: Record)
    requires Inv(r) && Image(r, mem[..]) && Genuine(r, s, idx) && r.first <= s < r.Next() && lay == r.lay
    ensures rec == r.hist[s]
  {
    var m := mem[..];
    ReadImage(r, m, s);
    var off := FromIdx(m, idx);
    rec := Decode(lay, m[off..off + LenAt(m, off)]);
  }

  // ---- the buffer ----

  class LogBuffer {
    const lay: Layout
    var mem: array<Byte>      // log_buf, log_buf_len bytes
    var firstSeq: nat         // log_first_seq, log_first_idx
    var firstIdx: nat
    var nextSeq: nat          // log_next_seq, log_next_idx
    var nextIdx: nat
    var clearSeq: nat         // clear_seq, clear_idx
    var clearIdx: nat
    ghost var ring: Ring

    /** The fields tell of `ring`, which is what readers need to know; the memory
        holds it, which is for the methods here and behind a trigger, so that the
        proofs of readers do not look at it. */
    ghost predicate Valid()
      reads this, mem
    {
      && ring.Shape() && ring.lay == lay
      && ring.first == firstSeq && ring.FirstIdx() == firstIdx
      && ring.Next() == nextSeq && ring.NextIdx() == nextIdx
      && ring.clear == clearSeq && ring.idxs[clearSeq] == clearIdx
      && forall k {:trigger Opened(Memory, k)} :: Opened(Memory, k) ==> InMemory()
    }

    ghost predicate InMemory()
      reads this, mem
    {
      Inv(ring) && ring.len == mem.Length && Image(ring, mem[..])
    }

    lemma Open()
      requires Valid()
      ensures InMemory()
    {
      assert Opened(Memory, 0);
    }

    /** (seq, idx) is a position some reader of this log may hold. */
    ghost predicate Cursor(s: nat, idx: nat)
      reads this
    {
      Genuine(ring, s, idx)
    }

    constructor (lay: Layout, len: nat)
      requires lay.Header() <= len <= LOG_BUF_LEN_MAX
      ensures Valid() && fresh(mem)
      ensures ring == Empty(lay, len)
    {
      this.lay := lay;
      mem := new Byte[len](_ => 0);
      firstSeq, firstIdx := 0, 0;
      nextSeq, nextIdx := 0, 0;
      clearSeq, clearIdx := 0, 0;
      ring := Empty(lay, len);
      new;
      EmptyInv(lay, len);
    }

    /** `log_from_idx`, with the record behind the pointer it returns. */
    method LogFromIdx(idx: nat, ghost s: nat) returns (rec: Record)
      requires Valid() && Cursor(s, idx) && firstSeq <= s < nextSeq
      ensures rec == ring.hist[s]
    {
      Open();
      rec := RecordAt(lay, mem, idx, ring, s);
    }

    /** `log_next` */
    method LogNext(idx: nat, ghost s: nat) returns (idx': nat)
      requires Valid() && Cursor(s, idx) && firstSeq <= s < nextSeq
      ensures Cursor(s + 1, idx')
    {
      Open();
      idx' := NextIndex(mem, idx, ring, s);
    }

    /** `logbuf_has_space` */
    predicate LogbufHasSpace(size: nat, empty: bool)
      reads this
    {
      FreeSpace(mem.Length, firstIdx, nextIdx, lay.Header(), size, empty)
    }

    /** The loop of `log_make_free_space`: drop old records until the new one
        fits or none is left. */
    method DropOld(size: nat)
      requires Valid()
      modifies this`firstSeq, this`firstIdx
      ensures firstSeq == Room(ring, size) && firstIdx == ring.idxs[firstSeq]
    {
      Open();
      while firstSeq < nextSeq && !LogbufHasSpace(size, false)
        invariant ring.first <= firstSeq <= nextSeq
        invariant firstIdx == ring.idxs[firstSeq]
        invariant RoomFrom(ring, size, firstSeq) == Room(ring, size)
      {
        firstIdx := NextIndex(mem, firstIdx, ring, firstSeq);
        firstSeq := firstSeq + 1;
      }
    }

    /** `log_make_free_space`, true where the code returns 0 */
    method LogMakeFreeSpace(size: nat) returns (ok: bool)
      requires Valid()
      modifies this
      ensures Valid() && mem == old(mem)
      ensures ring == MakeRoom(old(ring), size)
      ensures ok == RoomMade(ring, size) == HasPlace(ring, size)
      ensures forall f :: old(ring.first) <= f < ring.first ==> !HasPlace(DropTo(old(ring), f), size)
    {
      Open();
      ghost var r := ring;
      forall f | r.first <= f < Room(r, size)
        ensures !HasPlace(DropTo(r, f), size)
      {
        FewestDropped(r, size, f);
      }
      DropOld(size);
      if clearSeq < firstSeq {
        clearSeq := firstSeq;
        clearIdx := firstIdx;
      }
      ring := DropTo(r, firstSeq);
      DropInv(r, firstSeq);
      ImageDrop(r, mem[..], firstSeq);
      ok := LogbufHasSpace(size, firstSeq == nextSeq);
      RoomIsPlace(ring, size);
    }

    /** `truncate_msg`: the text length to keep and the size of the record. */
    method TruncateMsg(textLen: nat) returns (keep: nat, size: nat)
      requires Valid()
      ensures keep == Min(textLen, mem.Length / MAX_LOG_TAKE_PART)
      ensures size == lay.UsedSize(keep + |TRUNC_MSG|, 0)
    {
      var maxTextLen := mem.Length / MAX_LOG_TAKE_PART;
      keep := textLen;
      if keep > maxTextLen {
        keep := maxTextLen;
      }
      size := lay.UsedSize(keep + |TRUNC_MSG|, 0);
    }

    /** The part of `log_store` that has its space: wrap, fill, advance. */
    method Insert(rec: Record, text: seq<Byte>, note: seq<Byte>)
      requires Valid() && Storable(lay, rec) && RoomMade(ring, Size(lay, rec))
      requires rec.text == text + note
      modifies this, mem
      ensures Valid() && mem == old(mem)
      ensures ring == Append(old(ring), rec)
    {
      Open();
      AppendInv(ring, rec);
      var idx := Place(mem, nextIdx, ring, lay, rec, text, note);
      nextIdx := idx;
      nextSeq := nextSeq + 1;
      ring := Append(ring, rec);
    }

    /** `log_store`; the result is the length of the stored text, 0 for none. */
    method LogStore(m: Msg) returns (textLen: nat)
      requires Valid() && MsgOk(lay, m)
      modifies this, mem
      ensures Valid() && mem == old(mem)
      ensures ring == Store(old(ring), m)
      ensures textLen == if ring.Next() > old(ring).Next() then |ring.hist[old(ring).Next()].text| else 0
    {
      StorePlan(m);
      var size := lay.UsedSize(|m.text|, |m.dict|);
      var rec := RecordOf(lay, m, m.text, m.dict);
      var ok := LogMakeFreeSpace(size);
      if ok {
        Insert(rec, m.text, []);
        textLen := |m.text|;
      } else {
        var keep, tsize := TruncateMsg(|m.text|);
        ok := LogMakeFreeSpace(tsize);
        if !ok {
          return 0;
        }
        var cut := m.text[..keep];
        Insert(RecordOf(lay, m, cut + TRUNC_MSG, []), cut, TRUNC_MSG);
        textLen := keep + |TRUNC_MSG|;
      }
    }

    /** Whichever form of a message is stored, its record fits the struct. */
    lemma StorePlan(m: Msg)
      requires Valid() && MsgOk(lay, m)
      ensures ring.len == mem.Length && Storable(lay, Verbatim(lay, m))
      ensures var size := Size(lay, Verbatim(lay, m));
              !RoomMade(MakeRoom(ring, size), size) ==> Storable(lay, Truncated(ring, m))
    {
      Open();
      RoomExact(ring, Size(lay, Verbatim(lay, m)));
      if Size(lay, Verbatim(lay, m)) > Capacity(ring) {
        TruncatedStorable(ring, m);
      }
    }

    /** `syslog_clear` */
    method SyslogClear()
      requires Valid()
      modifies this`clearSeq, this`clearIdx, this`ring
      ensures Valid() && ring == Clear(old(ring))
    {
      Open();
      StepKeeps(ring, ClearOp);
      clearSeq := nextSeq;
      clearIdx := nextIdx;
      ring := Clear(ring);
      ImageClear(old(ring), mem[..]);
    }

    /** `setup_log_buf`: move to a larger, zeroed buffer, contents at the same place. */
    method SetupLogBuf(newLen: nat)
      requires Valid() && mem.Length < newLen <= LOG_BUF_LEN_MAX
      modifies this`mem, this`ring
      ensures Valid() && fresh(mem)
      ensures ring == Grow(old(ring), newLen)
    {
      Open();
      StepKeeps(ring, GrowOp(newLen));
      var buf := new Byte[newLen](_ => 0);
      Memcpy(buf, 0, mem[..]);
      assert buf[..mem.Length] == mem[..];
      ImageGrow(ring, mem[..], buf[..]);
      mem := buf;
      ring := Grow(ring, newLen);
    }

    /** All live records, read the way every reader walks the log. */
    method ReadAll() returns (out: seq<Record>)
      requires Valid()
      ensures out == View(ring).items
    {
      out := [];
      var seqNo, idx := firstSeq, firstIdx;
      while seqNo < nextSeq
        invariant firstSeq <= seqNo <= nextSeq && Cursor(seqNo, idx)
        invariant out == ring.hist[firstSeq..seqNo]
      {
        var rec := LogFromIdx(idx, seqNo);
        out := out + [rec];
        idx := LogNext(idx, seqNo);
        seqNo := seqNo + 1;
      }
    }
  }

  /** What other contexts do to the log while a reader does not hold
      logbuf_lock: any stores and clears. */
  predicate RuntimeOps(ops: seq<Op>) {
    forall i :: 0 <= i < |ops| ==> !ops[i].GrowOp?
  }

  method Interfere(log: LogBuffer, ops: seq<Op>)
    requires log.Valid() && RuntimeOps(ops)
    modifies log, log.mem
    ensures log.Valid() && log.mem == old(log.mem)
    ensures Ran(old(log.ring), ops, log.ring)
    ensures Extends(old(log.ring), log.ring)
  {
    log.Open();
    ghost var r := log.ring;
    RunKeeps(r, ops);
    var i := 0;
    while i < |ops|
      invariant 0 <= i <= |ops|
      invariant log.Valid() && log.mem == old(log.mem) && log.ring.lay == r.lay
      invariant Run(log.ring, ops[i..]) == Run(r, ops)
    {
      assert ops[i..][0] == ops[i] && ops[i..][1..] == ops[i + 1..];
      match ops[i] {
        case StoreOp(m) =>
          if && m.caller < 0x1_0000_0000
             && m.ts < 0x1_0000_0000_0000_0000 && m.clock < 0x1_0000_0000_0000_0000
             && log.lay.UsedSize(|m.text|, |m.dict|) <= 0xFFFF {
            var _ := log.LogStore(m);
          }
        case ClearOp =>
          log.SyslogClear();
      }
      i := i + 1;
    }
  }
}
