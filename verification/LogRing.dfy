/** The record ring of printk.c as a bounded FIFO of numbered records.
    A `Ring` remembers every record ever stored and the index each sequence
    number was given, so that "this (seq, idx) pair is genuine" is a statement
    about one sequence that only grows. Memory comes in with `LogBuffer`.

    In all modules a predicate whose body is `var held := ...; held` is one fact to
    those that use it: the verifier proves it as a whole from the same predicate. */
module LogRing {
  import opened Bytes
  import opened LogRecord

  /** LOG_BUF_LEN_MAX */
  const LOG_BUF_LEN_MAX: nat := 0x8000_0000

  /** MAX_LOG_TAKE_PART */
  const MAX_LOG_TAKE_PART: nat := 4

  /** `trunc_msg`: "<truncated>" */
  const TRUNC_MSG: seq<Byte> := [60, 116, 114, 117, 110, 99, 97, 116, 101, 100, 62]

  /** The arguments of `log_store`; `clock` is what local_clock() would return. */
  datatype Msg = Msg(caller: nat, facility: int, level: int, flags: int, ts: nat, clock: nat,
                     dict: seq<Byte>, text: seq<Byte>)

  /** `first` is log_first_seq and `clear` is clear_seq; `hist[s]` is the record
      stored under sequence number s and `idxs[s]` the index a reader holds for
      it; `wrap` is the last record that was placed at offset 0. */
  datatype Ring = Ring(lay: Layout, len: nat, first: nat, clear: nat,
                       hist: seq<Record>, idxs: seq<nat>, wrap: nat)
  {
    predicate Shape() {
      && |idxs| == |hist| + 1
      && first <= clear <= |hist|
      && (wrap < |hist| || wrap == 0)
    }

    /** log_next_seq */
    function Next(): nat { |hist| }

    function FirstIdx(): nat
      requires Shape()
    {
      idxs[first]
    }

    function NextIdx(): nat
      requires Shape()
    {
      idxs[|hist|]
    }

    /** The live records have gone past the end of the buffer. */
    predicate Wrapped() { 0 < wrap && first <= wrap }

    /** Where record `s` starts: at its index, or at 0 behind a wrap marker. */
    function Off(s: nat): nat
      requires s < |idxs|
    {
      if s == wrap then 0 else idxs[s]
    }

    function End(s: nat): nat
      requires s < |hist| && s < |idxs|
    {
      Off(s) + Size(lay, hist[s])
    }
  }

  /** Every index leaves room for a header and is aligned. */
  ghost predicate Indexed(r: Ring)
    requires r.Shape()
  {
    && r.idxs[0] == 0
    && (forall s :: 0 <= s <= |r.hist| ==> r.idxs[s] + r.lay.Header() <= r.len)
    && (forall s :: 0 <= s <= |r.hist| ==> r.lay.Aligned(r.idxs[s]))
  }

  /** The index for `s` is the end of the record before it. */
  ghost predicate Linked(r: Ring)
    requires r.Shape()
  {
    forall s :: r.first <= s < |r.hist| ==> r.End(s) == r.idxs[s + 1]
  }

  /** Live records lie in one run or, once past the end of the buffer, in two
      with an empty header's worth of room between them. */
  predicate Ordered(r: Ring)
    requires r.Shape()
  {
    if r.Wrapped() then r.NextIdx() + r.lay.Header() <= r.FirstIdx() else r.FirstIdx() <= r.NextIdx()
  }

  /** What every operation keeps. */
  ghost predicate Inv(r: Ring) {
    var held := Sound(r);
    held
  }

  ghost predicate Sound(r: Ring) {
    && r.Shape()
    && r.len <= LOG_BUF_LEN_MAX
    && (forall s :: 0 <= s < |r.hist| ==> Storable(r.lay, r.hist[s]))
    && Indexed(r)
    && Linked(r)
    && Ordered(r)
  }

  function Empty(lay: Layout, len: nat): Ring {
    Ring(lay, len, 0, 0, [], [0], 0)
  }

  lemma EmptyInv(lay: Layout, len: nat)
    requires lay.Header() <= len <= LOG_BUF_LEN_MAX
    ensures Inv(Empty(lay, len))
  {
  }

  /** Indices grow along a run of live records with no wrap inside. */
  lemma {:induction false} Monotone(r: Ring, s: nat, t: nat)
    requires Inv(r) && r.first <= s <= t <= r.Next()
    requires r.wrap == 0 || !(s <= r.wrap < t)
    ensures r.idxs[s] <= r.idxs[t]
    ensures s < t ==> r.idxs[s] < r.idxs[t]
    decreases t
  {
    if s < t {
      Monotone(r, s, t - 1);
      assert r.End(t - 1) == r.idxs[t];
    }
  }

  /** Equal indices mean an empty buffer: the state the comment on
      logbuf_has_space calls "full" cannot be reached. */
  lemma EqualIndicesMeanEmpty(r: Ring)
    requires Inv(r)
    ensures r.FirstIdx() == r.NextIdx() <==> r.first == r.Next()
    ensures r.NextIdx() < r.FirstIdx() <==> r.Wrapped()
  {
    if !r.Wrapped() {
      Monotone(r, r.first, r.Next());
    }
  }

  // ---- making room ----

  /** `logbuf_has_space`, on the indices it reads. */
  predicate FreeSpace(len: int, firstIdx: int, nextIdx: int, header: nat, size: nat, empty: bool) {
    var free :=
      if nextIdx > firstIdx || empty then Max(len - nextIdx, firstIdx)
      else firstIdx - nextIdx;
    free >= size + header
  }

  predicate HasSpace(r: Ring, size: nat, empty: bool)
    requires r.Shape()
  {
    FreeSpace(r.len, r.FirstIdx(), r.NextIdx(), r.lay.Header(), size, empty)
  }

  /** Dropping any prefix of the live records keeps the ring intact. */
  function DropTo(r: Ring, f: nat): (r': Ring)
    requires r.Shape() && r.first <= f <= r.Next()
    ensures r'.Shape()
  {
    r.(first := f, clear := Max(r.clear, f))
  }

  lemma DropInv(r: Ring, f: nat)
    requires Inv(r) && r.first <= f <= r.Next()
    ensures Inv(DropTo(r, f))
  {
    var r' := DropTo(r, f);
    assert forall s :: r.first <= s < |r.hist| ==> r'.End(s) == r.End(s);
    if r'.Wrapped() {
      Monotone(r, r.first, f);
    } else if r.Wrapped() {
      Monotone(r, f, r.Next());
    } else {
      Monotone(r, f, r.Next());
    }
  }

  /** The loop of `log_make_free_space(size)` from log_first_seq == f on: the
      first sequence number it leaves. */
  function RoomFrom(r: Ring, size: nat, f: nat): (g: nat)
    requires r.Shape() && r.first <= f <= r.Next()
    ensures f <= g <= r.Next()
    ensures g < r.Next() ==> HasSpace(DropTo(r, g), size, false)
    ensures forall k :: f <= k < g ==> !HasSpace(DropTo(r, k), size, false)
    decreases r.Next() - f
  {
    if f < r.Next() && !FreeSpace(r.len, r.idxs[f], r.NextIdx(), r.lay.Header(), size, false) then
      RoomFrom(r, size, f + 1)
    else
      f
  }

  function Room(r: Ring, size: nat): (f: nat)
    requires r.Shape()
    ensures r.first <= f <= r.Next()
  {
    RoomFrom(r, size, r.first)
  }

  function MakeRoom(r: Ring, size: nat): (r': Ring)
    requires r.Shape()
    ensures r'.Shape()
  {
    DropTo(r, Room(r, size))
  }

  predicate RoomMade(r: Ring, size: nat)
    requires r.Shape()
  {
    HasSpace(r, size, r.first == r.Next())
  }

  /** What an emptied buffer offers at its current index: the larger side. */
  function Capacity(r: Ring): int
    requires r.Shape()
  {
    Max(r.len - r.NextIdx(), r.NextIdx()) - r.lay.Header()
  }

  /** `log_make_free_space` succeeds exactly when the message fits an empty
      buffer at the current index, and when it fails it has dropped everything. */
  lemma RoomExact(r: Ring, size: nat)
    requires Inv(r)
    ensures RoomMade(MakeRoom(r, size), size) <==> size <= Capacity(r)
    ensures size > Capacity(r) ==> Room(r, size) == r.Next()
  {
    var f := Room(r, size);
    var r' := MakeRoom(r, size);
    DropInv(r, f);
    EqualIndicesMeanEmpty(r');
  }

  /** [lo, hi) meets no live record, and not the wrap marker they still need. */
  ghost predicate Free(r: Ring, lo: int, hi: int)
    requires r.Shape()
  {
    && (forall s :: r.first <= s < |r.hist| ==> r.End(s) <= lo || hi <= r.Off(s))
    && (r.Wrapped() ==> r.idxs[r.wrap] + r.lay.Header() <= lo || hi <= r.idxs[r.wrap])
  }

  /** A record of `size` bytes and an empty header behind it can go where the
      next record is due. */
  ghost predicate PlaceAhead(r: Ring, size: nat)
    requires r.Shape()
  {
    var lo, hi := r.NextIdx(), r.NextIdx() + size + r.lay.Header();
    hi <= r.len && Free(r, lo, hi)
  }

  /** They can go to the start of the buffer, before the marker that leads there;
      records that have already gone past the end of the buffer have no second
      marker. */
  ghost predicate PlaceAround(r: Ring, size: nat)
    requires r.Shape()
  {
    var hi := size + r.lay.Header();
    !r.Wrapped() && hi <= r.NextIdx() && Free(r, 0, hi)
  }

  ghost predicate HasPlace(r: Ring, size: nat)
    requires r.Shape()
  {
    PlaceAhead(r, size) || PlaceAround(r, size)
  }

  /** Where the live records of an unwrapped buffer lie. */
  lemma LiveBetween(r: Ring, s: nat)
    requires Inv(r) && !r.Wrapped() && r.first <= s < r.Next()
    ensures r.Off(s) == r.idxs[s]
    ensures r.FirstIdx() <= r.Off(s) < r.End(s) <= r.NextIdx()
  {
    Monotone(r, r.first, s);
    Monotone(r, s + 1, r.Next());
    assert r.End(s) == r.idxs[s + 1];
  }

  /** Where they lie once they have gone past its end. */
  lemma LiveAround(r: Ring, s: nat)
    requires Inv(r) && r.Wrapped() && r.first <= s < r.Next()
    ensures s < r.wrap ==> r.FirstIdx() <= r.Off(s) < r.End(s) <= r.idxs[r.wrap]
    ensures r.wrap <= s ==> r.Off(s) < r.End(s) <= r.NextIdx()
    ensures r.FirstIdx() <= r.idxs[r.wrap]
  {
    Monotone(r, r.first, r.wrap);
    assert r.End(s) == r.idxs[s + 1];
    if s < r.wrap {
      Monotone(r, r.first, s);
      Monotone(r, s + 1, r.wrap);
    } else {
      Monotone(r, s + 1, r.Next());
    }
  }

  /** The comparison of two indices in logbuf_has_space finds a place exactly when
      the buffer has one. */
  lemma RoomIsPlace(r: Ring, size: nat)
    requires Inv(r)
    ensures RoomMade(r, size) <==> HasPlace(r, size)
  {
    EqualIndicesMeanEmpty(r);
    forall s | r.first <= s < r.Next()
      ensures r.Wrapped() && s < r.wrap ==> r.FirstIdx() <= r.Off(s) < r.End(s)
      ensures r.Wrapped() && r.wrap <= s ==> r.End(s) <= r.NextIdx()
      ensures !r.Wrapped() ==> r.FirstIdx() <= r.Off(s) < r.End(s) <= r.NextIdx()
    {
      if r.Wrapped() {
        LiveAround(r, s);
      } else {
        LiveBetween(r, s);
      }
    }
    if r.Wrapped() {
      LiveAround(r, r.first);
    } else if r.first < r.Next() {
      LiveBetween(r, r.first);
    }
  }

  /** `log_make_free_space` drops no more than it has to: with any fewer records
      dropped there is no place for the message. */
  lemma FewestDropped(r: Ring, size: nat, f: nat)
    requires Inv(r) && r.first <= f < Room(r, size)
    ensures !HasPlace(DropTo(r, f), size)
  {
    DropInv(r, f);
    RoomIsPlace(DropTo(r, f), size);
  }

  /** A message that fits before the end of an unwrapped buffer costs no record. */
  lemma RoomAhead(r: Ring, size: nat)
    requires Inv(r) && !r.Wrapped() && r.NextIdx() + size + r.lay.Header() <= r.len
    ensures MakeRoom(r, size) == r
  {
    forall s | r.first <= s < r.Next()
      ensures r.End(s) <= r.NextIdx()
    {
      LiveBetween(r, s);
    }
    assert DropTo(r, r.first) == r && PlaceAhead(r, size);
    if Room(r, size) > r.first {
      FewestDropped(r, size, r.first);
    }
  }

  // ---- storing ----

  /** A message's record, with the fields cut to the struct's widths. */
  function RecordOf(lay: Layout, m: Msg, text: seq<Byte>, dict: seq<Byte>): Record {
    Record(if m.ts > 0 then m.ts else m.clock, m.facility % 0x100, m.flags % 0x20, m.level % 8,
           if lay.caller then m.caller else 0, text, dict)
  }

  function Verbatim(lay: Layout, m: Msg): Record {
    RecordOf(lay, m, m.text, m.dict)
  }

  /** `truncate_msg`: at most a quarter of the buffer, no dictionary, and a note. */
  function CutText(r: Ring, m: Msg): (t: seq<Byte>)
    ensures t <= m.text && |t| <= r.len / MAX_LOG_TAKE_PART
  {
    m.text[..Min(|m.text|, r.len / MAX_LOG_TAKE_PART)]
  }

  function Truncated(r: Ring, m: Msg): Record {
    RecordOf(r.lay, m, CutText(r, m) + TRUNC_MSG, [])
  }

  /** Arguments the C types can carry, with a record length the u16 `len` can. */
  predicate MsgOk(lay: Layout, m: Msg) {
    && m.caller < 0x1_0000_0000
    && m.ts < 0x1_0000_0000_0000_0000 && m.clock < 0x1_0000_0000_0000_0000
    && lay.UsedSize(|m.text|, |m.dict|) <= 0xFFFF
  }

  /** A message and an empty header do not fit before the end of the buffer. */
  predicate MustWrap(r: Ring, size: nat)
    requires r.Shape()
  {
    r.NextIdx() + size + r.lay.Header() > r.len
  }

  function Append(r: Ring, rec: Record): (r': Ring)
    requires r.Shape()
    ensures r'.Shape()
  {
    var z := Size(r.lay, rec);
    var wraps := MustWrap(r, z);
    r.(hist := r.hist + [rec],
       idxs := r.idxs + [if wraps then z else r.NextIdx() + z],
       wrap := if wraps then |r.hist| else r.wrap)
  }

  /** `log_store` */
  function Store(r: Ring, m: Msg): (r': Ring)
    requires r.Shape()
    ensures r'.Shape()
  {
    var v := Verbatim(r.lay, m);
    var r1 := MakeRoom(r, Size(r.lay, v));
    if RoomMade(r1, Size(r.lay, v)) then
      Append(r1, v)
    else
      var t := Truncated(r, m);
      var r2 := MakeRoom(r1, Size(r.lay, t));
      if RoomMade(r2, Size(r.lay, t)) then Append(r2, t) else r2
  }

  lemma AppendIndexed(r: Ring, rec: Record)
    requires Inv(r) && Storable(r.lay, rec)
    requires RoomMade(r, Size(r.lay, rec))
    ensures Indexed(Append(r, rec))
  {
    var r', z := Append(r, rec), Size(r.lay, rec);
    EqualIndicesMeanEmpty(r);
    AlignedSum(r.lay, r.NextIdx(), z);
    assert r'.NextIdx() + r.lay.Header() <= r.len;
    forall s | 0 <= s <= |r'.hist|
      ensures r'.idxs[s] + r.lay.Header() <= r.len && r.lay.Aligned(r'.idxs[s])
    {
      assert s < |r.idxs| ==> r'.idxs[s] == r.idxs[s];
    }
  }

  lemma AlignedSum(lay: Layout, a: nat, b: nat)
    requires lay.Aligned(a) && lay.Aligned(b)
    ensures lay.Aligned(a + b)
  {
    if lay.packed {
      MultipleSum(a, b, 4);
    } else {
      MultipleSum(a, b, 8);
    }
  }

  lemma MultipleSum(a: nat, b: nat, n: nat)
    requires n in {4, 8} && a % n == 0 && b % n == 0
    ensures (a + b) % n == 0
  {
  }

  lemma AppendLinked(r: Ring, rec: Record)
    requires Inv(r)
    requires RoomMade(r, Size(r.lay, rec))
    ensures Linked(Append(r, rec))
  {
    var r' := Append(r, rec);
    EqualIndicesMeanEmpty(r);
    assert MustWrap(r, Size(r.lay, rec)) ==> !r.Wrapped();
    forall s | r'.first <= s < |r'.hist|
      ensures r'.End(s) == r'.idxs[s + 1]
    {
      if s < |r.hist| {
        assert r.End(s) == r.idxs[s + 1];
      } else {
        assert r.wrap == s ==> s == 0 && r.idxs[0] == 0;
      }
    }
  }

  lemma AppendOrdered(r: Ring, rec: Record)
    requires Inv(r)
    requires RoomMade(r, Size(r.lay, rec))
    ensures Ordered(Append(r, rec))
  {
    EqualIndicesMeanEmpty(r);
  }

  lemma AppendInv(r: Ring, rec: Record)
    requires Inv(r) && Storable(r.lay, rec)
    requires RoomMade(r, Size(r.lay, rec))
    ensures Inv(Append(r, rec))
  {
    AppendIndexed(r, rec);
    AppendLinked(r, rec);
    AppendOrdered(r, rec);
  }

  /** A record goes where the next one is due, unless it and a header do not fit
      before the end of the buffer, and then to the start; either place is free. */
  lemma AppendPlaces(r: Ring, rec: Record)
    requires Inv(r) && RoomMade(r, Size(r.lay, rec))
    ensures var z, off := Size(r.lay, rec), Append(r, rec).Off(r.Next());
            && off == (if r.NextIdx() + z + r.lay.Header() <= r.len then r.NextIdx() else 0)
            && Free(r, off, off + z + r.lay.Header())
  {
    RoomIsPlace(r, Size(r.lay, rec));
    forall s | r.first <= s < r.Next() && !r.Wrapped()
      ensures r.End(s) <= r.NextIdx()
    {
      LiveBetween(r, s);
    }
  }

  /** If a message does not fit, its truncated form has a length `len` can hold. */
  lemma TruncatedStorable(r: Ring, m: Msg)
    requires Inv(r) && MsgOk(r.lay, m)
    requires Size(r.lay, Verbatim(r.lay, m)) > Capacity(r)
    ensures Storable(r.lay, Truncated(r, m))
  {
    assert Capacity(r) >= r.len / 2 - r.lay.Header();
  }

  /** `log_store` in closed form. The message is kept as it is exactly when it
      fits an empty buffer at the current index; otherwise the buffer is emptied and the truncated
      message kept if that fits; otherwise nothing is. A record is dropped only
      if keeping it leaves no place for the message. */
  lemma StoreExact(r: Ring, m: Msg)
    requires Inv(r) && MsgOk(r.lay, m)
    ensures var v, t := Verbatim(r.lay, m), Truncated(r, m);
            var z := Size(r.lay, v);
            Store(r, m) ==
            if z <= Capacity(r) then Append(DropTo(r, Room(r, z)), v)
            else if Size(r.lay, t) <= Capacity(r) then Append(DropTo(r, r.Next()), t)
            else DropTo(r, r.Next())
    ensures forall f :: r.first <= f < Store(r, m).first ==>
              !HasPlace(DropTo(r, f), Size(r.lay, Verbatim(r.lay, m)))
  {
    var z := Size(r.lay, Verbatim(r.lay, m));
    RoomExact(r, z);
    forall f | r.first <= f < Room(r, z)
      ensures !HasPlace(DropTo(r, f), z)
    {
      FewestDropped(r, z, f);
    }
    if z > Capacity(r) {
      var r1 := MakeRoom(r, z);
      assert r1 == DropTo(r, r.Next());
      DropInv(r, r.Next());
      RoomExact(r1, Size(r.lay, Truncated(r, m)));
      assert Capacity(r1) == Capacity(r);
      assert DropTo(r1, r.Next()) == r1;
    }
  }

  lemma StoreInv(r: Ring, m: Msg)
    requires Inv(r) && MsgOk(r.lay, m)
    ensures Inv(Store(r, m))
  {
    StoreExact(r, m);
    var z := Size(r.lay, Verbatim(r.lay, m));
    RoomExact(r, z);
    if z <= Capacity(r) {
      DropInv(r, Room(r, z));
      AppendInv(MakeRoom(r, z), Verbatim(r.lay, m));
    } else {
      var e := DropTo(r, r.Next());
      DropInv(r, r.Next());
      if Size(r.lay, Truncated(r, m)) <= Capacity(r) {
        TruncatedStorable(r, m);
        assert RoomMade(e, Size(r.lay, Truncated(r, m)));
        AppendInv(e, Truncated(r, m));
      }
    }
  }

  /** A buffer of a few headers never discards a message: at any index one side
      of it is at least half of the buffer, and a truncated message takes at
      most a quarter plus the note. */
  lemma NeverDiscards(r: Ring, m: Msg)
    requires Inv(r) && MsgOk(r.lay, m)
    requires r.len / MAX_LOG_TAKE_PART >= 2 * r.lay.Header() + |TRUNC_MSG| + r.lay.Align() - 1
    ensures |Store(r, m).hist| == |r.hist| + 1
  {
    StoreExact(r, m);
    assert Capacity(r) >= r.len / 2 - r.lay.Header();
    assert Size(r.lay, Truncated(r, m)) <= Capacity(r);
  }

  // ---- a bounded FIFO ----

  /** The abstract log: a window of numbered records. */
  datatype Fifo = Fifo(base: nat, items: seq<Record>) {
    function Drop(k: nat): Fifo
      requires k <= |items|
    {
      Fifo(base + k, items[k..])
    }

    function Push(x: Record): Fifo {
      Fifo(base, items + [x])
    }
  }

  function View(r: Ring): Fifo
    requires r.Shape()
  {
    Fifo(r.first, r.hist[r.first..])
  }

  /** Refinement: a store drops a prefix and pushes the message, whole or
      truncated, unless even the truncated one is too long for the buffer. */
  lemma StoreRefinesFifo(r: Ring, m: Msg) returns (k: nat)
    requires Inv(r) && MsgOk(r.lay, m)
    ensures k == Store(r, m).first - r.first <= |View(r).items|
    ensures var v, t := Verbatim(r.lay, m), Truncated(r, m);
            View(Store(r, m)) ==
            if Size(r.lay, v) <= Capacity(r) then View(r).Drop(k).Push(v)
            else if Size(r.lay, t) <= Capacity(r) then View(r).Drop(k).Push(t)
            else View(r).Drop(k)
    ensures Size(r.lay, Verbatim(r.lay, m)) > Capacity(r) ==> k == |View(r).items|
  {
    StoreExact(r, m);
    k := Store(r, m).first - r.first;
    if Size(r.lay, Verbatim(r.lay, m)) <= Capacity(r) {
      PushAfterDrop(r, k, Verbatim(r.lay, m));
    } else {
      PushAfterDrop(r, k, Truncated(r, m));
    }
  }

  lemma PushAfterDrop(r: Ring, k: nat, x: Record)
    requires r.Shape() && r.first + k <= r.Next()
    ensures View(DropTo(r, r.first + k)) == View(r).Drop(k)
    ensures View(Append(DropTo(r, r.first + k), x)) == View(r).Drop(k).Push(x)
  {
    assert r.hist[r.first..][k..] == r.hist[r.first + k..];
    assert (r.hist + [x])[r.first + k..] == r.hist[r.first + k..] + [x];
  }

  function Footprint(lay: Layout, s: seq<Record>): nat {
    if s == [] then 0 else Footprint(lay, s[..|s| - 1]) + Size(lay, s[|s| - 1])
  }

  /** A run of records with no wrap marker inside takes the distance of its ends. */
  lemma {:induction false} RunBytes(r: Ring, lo: nat, hi: nat)
    requires Inv(r) && r.first <= lo <= hi <= r.Next()
    requires r.wrap == 0 || !(lo <= r.wrap < hi)
    ensures r.idxs[hi] == r.idxs[lo] + Footprint(r.lay, r.hist[lo..hi])
    decreases hi
  {
    if lo < hi {
      RunBytes(r, lo, hi - 1);
      assert r.End(hi - 1) == r.idxs[hi];
      assert r.hist[lo..hi][..hi - lo - 1] == r.hist[lo..hi - 1];
    }
  }

  lemma {:induction false} FootprintConcat(lay: Layout, a: seq<Record>, b: seq<Record>)
    ensures Footprint(lay, a + b) == Footprint(lay, a) + Footprint(lay, b)
  {
    if b == [] {
      assert a + b == a;
    } else {
      FootprintConcat(lay, a, b[..|b| - 1]);
      assert (a + b)[..|a + b| - 1] == a + b[..|b| - 1];
    }
  }

  lemma FootprintAround(lay: Layout, s: seq<Record>, w: nat)
    requires w < |s|
    ensures Footprint(lay, s) == Footprint(lay, s[..w]) + Size(lay, s[w]) + Footprint(lay, s[w + 1..])
  {
    assert s == s[..w + 1] + s[w + 1..];
    FootprintConcat(lay, s[..w + 1], s[w + 1..]);
    assert s[..w + 1][..w] == s[..w];
  }

  lemma WindowFootprint(r: Ring)
    requires r.Shape() && r.Wrapped()
    ensures Footprint(r.lay, r.hist[r.first..])
         == Footprint(r.lay, r.hist[r.first..r.wrap]) + Size(r.lay, r.hist[r.wrap])
            + Footprint(r.lay, r.hist[r.wrap + 1..r.Next()])
  {
    var s, w := r.hist[r.first..], r.wrap - r.first;
    FootprintAround(r.lay, s, w);
    assert s[..w] == r.hist[r.first..r.wrap] && s[w + 1..] == r.hist[r.wrap + 1..r.Next()];
  }

  /** The window is bounded by the buffer: the live records and one empty header
      always fit in it. */
  lemma Bounded(r: Ring)
    requires Inv(r)
    ensures Footprint(r.lay, View(r).items) + r.lay.Header() <= r.len
  {
    var n := r.Next();
    assert r.hist[r.first..n] == r.hist[r.first..];
    if !r.Wrapped() {
      RunBytes(r, r.first, n);
    } else {
      RunBytes(r, r.first, r.wrap);
      RunBytes(r, r.wrap + 1, n);
      WindowFootprint(r);
      assert r.End(r.wrap) == r.idxs[r.wrap + 1];
    }
  }

  // ---- whole runs ----

  /** What happens to the ring: stores, "dmesg -C", and the move into a larger
      buffer at boot. */
  datatype Op = StoreOp(m: Msg) | ClearOp | GrowOp(len: nat)

  predicate OpOk(r: Ring, op: Op) {
    match op
    case StoreOp(m) => MsgOk(r.lay, m)
    case ClearOp => true
    case GrowOp(len) => r.len < len <= LOG_BUF_LEN_MAX
  }

  /** `syslog_clear` */
  function Clear(r: Ring): Ring {
    r.(clear := r.Next())
  }

  /** `setup_log_buf` */
  function Grow(r: Ring, len: nat): Ring {
    r.(len := len)
  }

  function Step(r: Ring, op: Op): (r': Ring)
    requires r.Shape()
    ensures r'.Shape()
  {
    match op
    case StoreOp(m) => Store(r, m)
    case ClearOp => Clear(r)
    case GrowOp(len) => Grow(r, len)
  }

  /** A run: every operation is applied if its arguments are in range. */
  function Run(r: Ring, ops: seq<Op>): (r': Ring)
    requires r.Shape()
    ensures r'.Shape()
    decreases ops
  {
    if ops == [] then r
    else if OpOk(r, ops[0]) then Run(Step(r, ops[0]), ops[1..])
    else Run(r, ops[1..])
  }

  /** History only grows: what was stored, and the index it was given, stay. */
  predicate Extends(r: Ring, r': Ring) {
    var held :=
      && r.hist <= r'.hist
      && r.idxs <= r'.idxs
      && r.first <= r'.first
      && r.clear <= r'.clear
      && r.len <= r'.len
      && r.lay == r'.lay;
    held
  }

  lemma ExtendsTrans(a: Ring, b: Ring, c: Ring)
    requires Extends(a, b) && Extends(b, c)
    ensures Extends(a, c)
  {
  }

  lemma StepKeeps(r: Ring, op: Op)
    requires Inv(r) && OpOk(r, op)
    ensures Inv(Step(r, op)) && Extends(r, Step(r, op))
  {
    match op
    case StoreOp(m) =>
      StoreInv(r, m);
      StoreExact(r, m);
    case ClearOp =>
      assert forall s :: r.first <= s < |r.hist| ==> Clear(r).End(s) == r.End(s);
    case GrowOp(len) =>
      assert forall s :: r.first <= s < |r.hist| ==> Grow(r, len).End(s) == r.End(s);
  }

  /** Every run keeps the invariant and extends the history. */
  lemma {:induction false} RunKeeps(r: Ring, ops: seq<Op>)
    requires Inv(r)
    ensures Inv(Run(r, ops)) && Extends(r, Run(r, ops))
    decreases ops
  {
    if ops != [] {
      if OpOk(r, ops[0]) {
        StepKeeps(r, ops[0]);
        RunKeeps(Step(r, ops[0]), ops[1..]);
      } else {
        RunKeeps(r, ops[1..]);
      }
    }
  }

  /** Where the log ended when it was last cleared, `mark` if it never was. */
  function ClearedAt(r: Ring, ops: seq<Op>, mark: nat): nat
    requires r.Shape()
    decreases ops
  {
    if ops == [] then mark
    else if !OpOk(r, ops[0]) then ClearedAt(r, ops[1..], mark)
    else ClearedAt(Step(r, ops[0]), ops[1..], if ops[0].ClearOp? then r.Next() else mark)
  }

  /** clear_seq over any run is the point of the last clear, or the oldest record if
      that point is gone. */
  lemma {:induction false} ClearExact(r: Ring, ops: seq<Op>, mark: nat)
    requires Inv(r) && r.clear == Max(mark, r.first)
    ensures Run(r, ops).clear == Max(ClearedAt(r, ops, mark), Run(r, ops).first)
    decreases ops
  {
    if ops != [] {
      if OpOk(r, ops[0]) {
        StepKeeps(r, ops[0]);
        if ops[0].StoreOp? {
          StoreExact(r, ops[0].m);
        }
        ClearExact(Step(r, ops[0]), ops[1..], if ops[0].ClearOp? then r.Next() else mark);
      } else {
        ClearExact(r, ops[1..], mark);
      }
    }
  }

  /** `r'` is what `ops` make of `r`, and nothing else. */
  ghost predicate Ran(r: Ring, ops: seq<Op>, r': Ring) {
    forall k {:trigger Opened(Operations, k)} :: Opened(Operations, k) ==> r.Shape() && r' == Run(r, ops)
  }

  lemma RanIs(r: Ring, ops: seq<Op>, r': Ring)
    requires Ran(r, ops, r')
    ensures r.Shape() && r' == Run(r, ops)
  {
    assert Opened(Operations, 0);
  }

  lemma {:induction false} RunConcat(r: Ring, a: seq<Op>, b: seq<Op>)
    requires r.Shape()
    ensures Run(r, a + b) == Run(Run(r, a), b)
    decreases |a|
  {
    if a == [] {
      assert a + b == b;
    } else {
      assert (a + b)[0] == a[0] && (a + b)[1..] == a[1..] + b;
      RunConcat(if OpOk(r, a[0]) then Step(r, a[0]) else r, a[1..], b);
    }
  }

  lemma RanNothing(r: Ring)
    requires r.Shape()
    ensures Ran(r, [], r)
  {
  }

  lemma RanMore(r: Ring, a: seq<Op>, r1: Ring, b: seq<Op>, r2: Ring)
    requires Ran(r, a, r1) && Ran(r1, b, r2)
    ensures Ran(r, a + b, r2)
  {
    RanIs(r, a, r1);
    RanIs(r1, b, r2);
    RunConcat(r, a, b);
  }

  /** What happens in the k-th of the windows in which a reader lets go of the log. */
  function WindowAt(ws: seq<seq<Op>>, k: nat): seq<Op> {
    if k < |ws| then ws[k] else []
  }

  /** What happens in the first `n` of them. */
  function Happened(ws: seq<seq<Op>>, n: nat): seq<Op> {
    if n == 0 then [] else Happened(ws, n - 1) + WindowAt(ws, n - 1)
  }

  lemma {:induction false} NothingHappened(n: nat)
    ensures Happened([], n) == []
  {
    if n > 0 {
      NothingHappened(n - 1);
    }
  }

  lemma RanWindow(r: Ring, ws: seq<seq<Op>>, n: nat, r1: Ring, r2: Ring)
    requires Ran(r, Happened(ws, n), r1) && Ran(r1, WindowAt(ws, n), r2)
    ensures Ran(r, Happened(ws, n + 1), r2)
  {
    RanMore(r, Happened(ws, n), r1, WindowAt(ws, n), r2);
  }

  lemma RanQuiet(r: Ring, n: nat, r': Ring)
    requires Ran(r, Happened([], n), r')
    ensures r' == r
  {
    RanIs(r, Happened([], n), r');
    NothingHappened(n);
  }

  /** A (seq, idx) pair some reader took when `seq` was about to be read or
      written: first, next and clear are such pairs, and `log_next` of one is. */
  predicate Genuine(r: Ring, s: nat, idx: nat) {
    s < |r.idxs| && r.idxs[s] == idx
  }

  /** Cursor validity over whole runs: a pair taken at any time names the same
      record for ever, and while the record is live it sits where the pair says
      or, behind a wrap marker, at offset 0. */
  lemma CursorForEver(r: Ring, ops: seq<Op>, s: nat, idx: nat)
    requires Inv(r) && Genuine(r, s, idx)
    ensures Genuine(Run(r, ops), s, idx)
    ensures s < r.Next() ==> s < Run(r, ops).Next() && Run(r, ops).hist[s] == r.hist[s]
    ensures var r' := Run(r, ops);
            r'.first <= s < r'.Next() ==>
              && r'.Off(s) in {0, idx}
              && Genuine(r', s + 1, r'.Off(s) + Size(r'.lay, r'.hist[s]))
  {
    RunKeeps(r, ops);
    var r' := Run(r, ops);
    if r'.first <= s < r'.Next() {
      assert r'.End(s) == r'.idxs[s + 1];
    }
  }
}
