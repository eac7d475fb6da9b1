/** `log_output` with the log behind it: the continuation buffer in front of the
    record ring, as printk runs them. */
module Printk {
  import opened Bytes
  import opened LogRecord
  import opened LogRing
  import opened LogBuffers
  import C = Continuation

  /** The arguments of log_store; `clock` is what local_clock() gives by then. */
  function MsgOf(st: C.Stored, clock: nat): Msg {
    Msg(st.caller, st.facility, st.level, st.flags, st.ts, clock, st.dict, st.text)
  }

  /** The log after the log_store calls of one printk. */
  function Feed(r: Ring, stored: seq<C.Stored>, clock: nat): (r': Ring)
    requires r.Shape()
    ensures r'.Shape()
  {
    if stored == [] then r
    else Store(Feed(r, stored[..|stored| - 1], clock), MsgOf(stored[|stored| - 1], clock))
  }

  /** A buffer that never discards a message. */
  predicate Roomy(lay: Layout, len: nat) {
    len / MAX_LOG_TAKE_PART >= 2 * lay.Header() + |TRUNC_MSG| + lay.Align() - 1
  }

  /** A record of these lengths is never truncated by a buffer of `len` bytes,
      wherever the next index is. */
  predicate Short(lay: Layout, len: nat, textLen: nat, dictLen: nat) {
    lay.UsedSize(textLen, dictLen) + lay.Header() <= len / 2
  }

  /** What the C types and the struct's `len` field can carry. */
  predicate InputOk(lay: Layout, max: nat, m: C.Input) {
    && m.caller < 0x1_0000_0000 && m.clock < 0x1_0000_0000_0000_0000
    && |m.text| <= max && lay.Header() + max + |m.dict| + lay.Align() <= 0x1_0000
  }

  predicate LineOk(max: nat, b: C.Line) {
    |b.text| <= max && b.caller < 0x1_0000_0000 && b.ts < 0x1_0000_0000_0000_0000
  }

  predicate StoredOk(lay: Layout, st: C.Stored) {
    && st.caller < 0x1_0000_0000 && st.ts < 0x1_0000_0000_0000_0000
    && lay.UsedSize(|st.text|, |st.dict|) <= 0xFFFF
  }

  lemma OutputOk(lay: Layout, max: nat, b: C.Line, m: C.Input)
    requires LineOk(max, b) && InputOk(lay, max, m)
    ensures LineOk(max, C.Output(b, m, max).line)
    ensures forall i :: 0 <= i < |C.Output(b, m, max).stored| ==> StoredOk(lay, C.Output(b, m, max).stored[i])
  {
  }

  /** `rec` has the fields of what was to be stored, cut to the struct's widths, and
      the clock read where no time was given. */
  predicate SameFields(lay: Layout, st: C.Stored, clock: nat, rec: Record) {
    && rec.facility == st.facility % 0x100 && rec.level == st.level % 8 && rec.flags == st.flags % 0x20
    && (lay.caller ==> rec.caller == st.caller)
    && rec.ts == if st.ts > 0 then st.ts else clock
  }

  predicate Keeps(lay: Layout, st: C.Stored, clock: nat, rec: Record) {
    SameFields(lay, st, clock, rec) && rec.text == st.text && rec.dict == st.dict
  }

  /** Truncated: a quarter of the buffer of text and a note, without dictionary. */
  predicate Cuts(lay: Layout, len: nat, st: C.Stored, clock: nat, rec: Record) {
    && SameFields(lay, st, clock, rec) && rec.dict == []
    && rec.text == st.text[..Min(|st.text|, len / MAX_LOG_TAKE_PART)] + TRUNC_MSG
  }

  /** A record is truncated only if it may not fit, and never if it is short. */
  predicate Arrives(lay: Layout, len: nat, st: C.Stored, clock: nat, rec: Record) {
    || Keeps(lay, st, clock, rec)
    || (Cuts(lay, len, st, clock, rec) && !Short(lay, len, |st.text|, |st.dict|))
  }

  /** `clocks[i]` is what the clock shows when `stored[i]` is stored. */
  predicate AllArrive(lay: Layout, len: nat, stored: seq<C.Stored>, clocks: seq<nat>, recs: seq<Record>) {
    && |recs| == |stored| == |clocks|
    && forall i :: 0 <= i < |recs| ==> Arrives(lay, len, stored[i], clocks[i], recs[i])
  }

  /** `r'` is `r` with `recs` added, all live or evicted since. */
  ghost predicate Added(r: Ring, r': Ring, recs: seq<Record>) {
    forall k {:trigger Opened(Operations, k)} :: Opened(Operations, k) ==>
      Inv(r') && r'.lay == r.lay && r'.len == r.len && r'.hist == r.hist + recs
  }

  lemma AddedIs(r: Ring, r': Ring, recs: seq<Record>)
    requires Added(r, r', recs)
    ensures Inv(r') && r'.lay == r.lay && r'.len == r.len && r'.hist == r.hist + recs
  {
    assert Opened(Operations, 0);
  }

  lemma AddedNothing(r: Ring)
    requires Inv(r)
    ensures Added(r, r, [])
  {
    assert r.hist + [] == r.hist;
  }

  lemma AddedTrans(r: Ring, r1: Ring, r2: Ring, a: seq<Record>, b: seq<Record>)
    requires Added(r, r1, a) && Added(r1, r2, b)
    ensures Added(r, r2, a + b)
  {
    AddedIs(r, r1, a);
    AddedIs(r1, r2, b);
    Assoc(r.hist, a, b);
  }

  lemma ArriveConcat(lay: Layout, len: nat, a: seq<C.Stored>, ca: seq<nat>, ra: seq<Record>,
                     b: seq<C.Stored>, cb: seq<nat>, rb: seq<Record>)
    requires AllArrive(lay, len, a, ca, ra) && AllArrive(lay, len, b, cb, rb)
    ensures AllArrive(lay, len, a + b, ca + cb, ra + rb)
  {
  }

  /** One printk reads the clock once. */
  function Still(clock: nat, n: nat): (s: seq<nat>)
    ensures |s| == n
  {
    seq(n, _ => clock)
  }

  lemma StoreArrives(r: Ring, st: C.Stored, clock: nat) returns (rec: Record)
    requires Inv(r) && Roomy(r.lay, r.len) && StoredOk(r.lay, st) && clock < 0x1_0000_0000_0000_0000
    ensures Added(r, Store(r, MsgOf(st, clock)), [rec]) && Arrives(r.lay, r.len, st, clock, rec)
  {
    var m := MsgOf(st, clock);
    StoreInv(r, m);
    StoreExact(r, m);
    NeverDiscards(r, m);
    assert Capacity(r) >= r.len / 2 - r.lay.Header();
    rec := if Size(r.lay, Verbatim(r.lay, m)) <= Capacity(r) then Verbatim(r.lay, m) else Truncated(r, m);
  }

  lemma OneMoreArrives(r: Ring, before: seq<C.Stored>, r1: Ring, recs: seq<Record>, st: C.Stored, clock: nat)
    returns (rec: Record)
    requires Inv(r) && Roomy(r.lay, r.len) && Added(r, r1, recs)
    requires AllArrive(r.lay, r.len, before, Still(clock, |before|), recs)
    requires StoredOk(r.lay, st) && clock < 0x1_0000_0000_0000_0000
    ensures r1.Shape() && Added(r, Store(r1, MsgOf(st, clock)), recs + [rec])
    ensures AllArrive(r.lay, r.len, before + [st], Still(clock, |before| + 1), recs + [rec])
  {
    AddedIs(r, r1, recs);
    rec := StoreArrives(r1, st, clock);
    AddedTrans(r, r1, Store(r1, MsgOf(st, clock)), recs, [rec]);
    ArriveConcat(r.lay, r.len, before, Still(clock, |before|), recs, [st], [clock], [rec]);
    assert Still(clock, |before| + 1) == Still(clock, |before|) + [clock];
  }

  lemma {:induction false} FeedArrives(r: Ring, stored: seq<C.Stored>, clock: nat) returns (recs: seq<Record>)
    requires Inv(r) && Roomy(r.lay, r.len) && clock < 0x1_0000_0000_0000_0000
    requires forall i :: 0 <= i < |stored| ==> StoredOk(r.lay, stored[i])
    ensures Added(r, Feed(r, stored, clock), recs)
    ensures AllArrive(r.lay, r.len, stored, Still(clock, |stored|), recs)
  {
    if stored == [] {
      AddedNothing(r);
      return [];
    }
    var before, st := stored[..|stored| - 1], stored[|stored| - 1];
    var recs1 := FeedArrives(r, before, clock);
    var rec := OneMoreArrives(r, before, Feed(r, before, clock), recs1, st, clock);
    assert before + [st] == stored;
    recs := recs1 + [rec];
  }

  /** Any sequence of printks: the log and the continuation buffer. */
  function Printks(r: Ring, b: C.Line, ins: seq<C.Input>, max: nat): (s: (Ring, C.Line))
    requires r.Shape()
    ensures s.0.Shape()
  {
    if ins == [] then (r, b)
    else
      var (r1, b1) := Printks(r, b, ins[..|ins| - 1], max);
      var m := ins[|ins| - 1];
      var o := C.Output(b1, m, max);
      (Feed(r1, o.stored, m.clock), o.line)
  }

  /** The clock at each of the log_store calls. */
  function Clocks(b: C.Line, ins: seq<C.Input>, max: nat): seq<nat> {
    if ins == [] then []
    else
      var before, m := ins[..|ins| - 1], ins[|ins| - 1];
      Clocks(b, before, max) + Still(m.clock, |C.Output(C.Outputs(b, before, max).0, m, max).stored|)
  }

  /** A record that brings no time is one printk, stored when it was printed. */
  predicate OnTime(ins: seq<C.Input>, stored: seq<C.Stored>, clocks: seq<nat>) {
    && |clocks| == |stored|
    && forall i :: 0 <= i < |stored| && stored[i].ts == 0 ==>
         exists j | 0 <= j < |ins| :: stored[i] == C.Whole(ins[j]) && clocks[i] == ins[j].clock
  }

  lemma OnTimeMore(ins: seq<C.Input>, stored: seq<C.Stored>, clocks: seq<nat>, m: C.Input, more: seq<C.Stored>)
    requires OnTime(ins, stored, clocks)
    requires forall i :: 0 <= i < |more| && more[i].ts == 0 ==> more[i] == C.Whole(m)
    ensures OnTime(ins + [m], stored + more, clocks + Still(m.clock, |more|))
  {
    var all := stored + more;
    forall i | 0 <= i < |all| && all[i].ts == 0
      ensures exists j | 0 <= j < |ins| + 1 ::
                all[i] == C.Whole((ins + [m])[j]) && (clocks + Still(m.clock, |more|))[i] == (ins + [m])[j].clock
    {
      if i < |stored| {
        var j :| 0 <= j < |ins| && stored[i] == C.Whole(ins[j]) && clocks[i] == ins[j].clock;
        assert (ins + [m])[j] == ins[j];
      } else {
        assert all[i] == more[i - |stored|] && (ins + [m])[|ins|] == m;
      }
    }
  }

  lemma OutputOnTime(b: C.Line, m: C.Input, max: nat)
    requires (b.text == [] || b.ts > 0) && m.clock > 0
    ensures var o := C.Output(b, m, max);
            && (o.line.text == [] || o.line.ts > 0)
            && forall i :: 0 <= i < |o.stored| && o.stored[i].ts == 0 ==> o.stored[i] == C.Whole(m)
  {
  }

  /** Once the clock runs, every record has the time of the printk it is, or of the
      first of the fragments it joins: that one's clock is what the buffer kept. */
  lemma {:induction false} ClocksOnTime(b: C.Line, ins: seq<C.Input>, max: nat)
    requires (b.text == [] || b.ts > 0) && forall i :: 0 <= i < |ins| ==> ins[i].clock > 0
    ensures var t := C.Outputs(b, ins, max);
            (t.0.text == [] || t.0.ts > 0) && OnTime(ins, t.1, Clocks(b, ins, max))
    decreases |ins|
  {
    if ins != [] {
      var before, m := ins[..|ins| - 1], ins[|ins| - 1];
      ClocksOnTime(b, before, max);
      var t, clocks := C.Outputs(b, before, max), Clocks(b, before, max);
      var o := C.Output(t.0, m, max);
      OutputOnTime(t.0, m, max);
      OnTimeMore(before, t.1, clocks, m, o.stored);
      assert before + [m] == ins;
      assert C.Outputs(b, ins, max) == (o.line, t.1 + o.stored);
      assert Clocks(b, ins, max) == clocks + Still(m.clock, |o.stored|);
    }
  }

  /** Every printk reaches the log: for any sequence of them the records added are,
      one for one and in order, those the continuation logic decides on, each whole
      or, if it may be too long for the buffer, truncated. */
  lemma {:induction false} PrintksReachLog(r: Ring, b: C.Line, ins: seq<C.Input>, max: nat) returns (recs: seq<Record>)
    requires Inv(r) && Roomy(r.lay, r.len) && LineOk(max, b)
    requires forall i :: 0 <= i < |ins| ==> InputOk(r.lay, max, ins[i])
    ensures var s := Printks(r, b, ins, max);
            var t := C.Outputs(b, ins, max);
            Added(r, s.0, recs) && LineOk(max, s.1) && s.1 == t.0
            && AllArrive(r.lay, r.len, t.1, Clocks(b, ins, max), recs)
    decreases |ins|
  {
    if ins == [] {
      AddedNothing(r);
      return [];
    }
    var before, m := ins[..|ins| - 1], ins[|ins| - 1];
    var recs1 := PrintksReachLog(r, b, before, max);
    var s := Printks(r, b, before, max);
    AddedIs(r, s.0, recs1);
    OutputOk(r.lay, max, s.1, m);
    var stored := C.Output(s.1, m, max).stored;
    var recs2 := FeedArrives(s.0, stored, m.clock);
    AddedTrans(r, s.0, Feed(s.0, stored, m.clock), recs1, recs2);
    ArriveConcat(r.lay, r.len, C.Outputs(b, before, max).1, Clocks(b, before, max), recs1,
                 stored, Still(m.clock, |stored|), recs2);
    recs := recs1 + recs2;
  }

  /** The bytes of records, each with the name of the caller they are stored under. */
  function SignedRecords(recs: seq<Record>): seq<(nat, Byte)> {
    if recs == [] then []
    else SignedRecords(recs[..|recs| - 1]) + C.Signed(recs[|recs| - 1].caller, recs[|recs| - 1].text)
  }

  lemma {:induction false} SignedSame(lay: Layout, len: nat, stored: seq<C.Stored>, clocks: seq<nat>,
                                      recs: seq<Record>)
    requires lay.caller && AllArrive(lay, len, stored, clocks, recs)
    requires forall i :: 0 <= i < |stored| ==> Short(lay, len, |stored[i].text|, |stored[i].dict|)
    ensures SignedRecords(recs) == C.SignedStored(stored)
    decreases |recs|
  {
    if recs != [] {
      var n := |recs| - 1;
      assert Arrives(lay, len, stored[n], clocks[n], recs[n]);
      SignedSame(lay, len, stored[..n], clocks[..n], recs[..n]);
    }
  }

  /** End to end: unless something is stored that the buffer may have to truncate,
      the texts of the records added to the log and then the buffer are the inputs,
      byte for byte and in order, every byte stored under its caller's name. */
  lemma PrintksConserve(r: Ring, b: C.Line, ins: seq<C.Input>, max: nat) returns (recs: seq<Record>)
    requires Inv(r) && Roomy(r.lay, r.len) && r.lay.caller && LineOk(max, b)
    requires forall i :: 0 <= i < |ins| ==> InputOk(r.lay, max, ins[i])
    ensures var s, stored := Printks(r, b, ins, max), C.Outputs(b, ins, max).1;
            && Added(r, s.0, recs)
            && ((forall i :: 0 <= i < |stored| ==> Short(r.lay, r.len, |stored[i].text|, |stored[i].dict|)) ==>
                  SignedRecords(recs) + C.SignedLine(s.1) == C.SignedLine(b) + C.SignedInputs(ins))
  {
    recs := PrintksReachLog(r, b, ins, max);
    C.OutputsConserve(b, ins, max);
    var stored := C.Outputs(b, ins, max).1;
    if forall i :: 0 <= i < |stored| ==> Short(r.lay, r.len, |stored[i].text|, |stored[i].dict|) {
      SignedSame(r.lay, r.len, stored, Clocks(b, ins, max), recs);
    }
  }

  /** What log_store returns when it makes `r'` of `r`. */
  function StoredLength(r: Ring, r': Ring): nat {
    if |r'.hist| > |r.hist| then |r'.hist[|r.hist|].text| else 0
  }

  /** What the last of the log_store calls returns. */
  function LastLength(r: Ring, stored: seq<C.Stored>, clock: nat): nat
    requires r.Shape()
  {
    if stored == [] then 0
    else StoredLength(Feed(r, stored[..|stored| - 1], clock), Feed(r, stored, clock))
  }

  /** `r'` and `textLen` are what storing all of `stored` into `r` gives. */
  ghost predicate Fed(r: Ring, stored: seq<C.Stored>, clock: nat, r': Ring, textLen: nat) {
    forall k {:trigger Opened(Operations, k)} :: Opened(Operations, k) ==>
      r.Shape() && r' == Feed(r, stored, clock) && textLen == LastLength(r, stored, clock)
  }

  lemma FedIs(r: Ring, stored: seq<C.Stored>, clock: nat, r': Ring, textLen: nat)
    requires Fed(r, stored, clock, r', textLen)
    ensures r.Shape() && r' == Feed(r, stored, clock) && textLen == LastLength(r, stored, clock)
  {
    assert Opened(Operations, 0);
  }

  method StoreOne(log: LogBuffer, ghost r: Ring, ghost before: seq<C.Stored>, ghost n: nat, st: C.Stored, clock: nat)
    returns (textLen: nat)
    requires log.Valid() && MsgOk(log.lay, MsgOf(st, clock)) && Fed(r, before, clock, log.ring, n)
    modifies log, log.mem
    ensures log.Valid() && log.mem == old(log.mem)
    ensures Fed(r, before + [st], clock, log.ring, textLen)
  {
    FedIs(r, before, clock, log.ring, n);
    Snoc(before, st);
    textLen := log.LogStore(MsgOf(st, clock));
  }

  method StoreAll(log: LogBuffer, stored: seq<C.Stored>, clock: nat) returns (textLen: nat)
    requires log.Valid() && forall i :: 0 <= i < |stored| ==> MsgOk(log.lay, MsgOf(stored[i], clock))
    modifies log, log.mem
    ensures log.Valid() && log.mem == old(log.mem)
    ensures Fed(old(log.ring), stored, clock, log.ring, textLen)
  {
    ghost var r := log.ring;
    textLen := 0;
    var i := 0;
    while i < |stored|
      invariant 0 <= i <= |stored| && log.Valid() && log.mem == old(log.mem)
      invariant Fed(r, stored[..i], clock, log.ring, textLen)
    {
      assert stored[..i + 1] == stored[..i] + [stored[i]];
      textLen := StoreOne(log, r, stored[..i], textLen, stored[i], clock);
      i := i + 1;
    }
    assert stored[..|stored|] == stored;
  }

  /** `log_output` on the log itself. The length returned is that of the text, as it
      was stored if it was. */
  method LogOutput(log: LogBuffer, cont: C.Cont, m: C.Input) returns (textLen: nat)
    requires log.Valid() && cont.len <= cont.buf.Length && cont.buf != log.mem
    requires LineOk(cont.buf.Length, cont.View()) && InputOk(log.lay, cont.buf.Length, m)
    modifies log, log.mem, cont, cont.buf
    ensures log.Valid() && log.mem == old(log.mem) && cont.len <= cont.buf.Length
    ensures (log.ring, cont.View()) == Printks(old(log.ring), old(cont.View()), [m], cont.buf.Length)
    ensures var o := C.Output(old(cont.View()), m, cont.buf.Length);
            textLen == if o.ret.Length? then |m.text| else LastLength(old(log.ring), o.stored, m.clock)
    ensures Roomy(log.lay, log.mem.Length) && Short(log.lay, log.mem.Length, |m.text|, |m.dict|) ==> textLen == |m.text|
  {
    log.Open();
    ghost var r, b, max := log.ring, cont.View(), cont.buf.Length;
    OutputOk(log.lay, max, b, m);
    PrintksOne(r, b, m, max);
    var stored, ret := cont.LogOutput(m);
    C.ReturnedLength(b, m, max);
    var n := StoreAll(log, stored, m.clock);
    FedIs(r, stored, m.clock, log.ring, n);
    textLen := if ret.Length? then ret.n else n;
    if ret.OfLastStore? && Roomy(log.lay, r.len) {
      LastStored(r, stored, m.clock);
    }
  }

  lemma PrintksOne(r: Ring, b: C.Line, m: C.Input, max: nat)
    requires r.Shape()
    ensures var o := C.Output(b, m, max);
            Printks(r, b, [m], max) == (Feed(r, o.stored, m.clock), o.line)
  {
    assert [m][..0] == [];
    assert Printks(r, b, [m][..0], max) == (r, b);
  }

  lemma LastStored(r: Ring, stored: seq<C.Stored>, clock: nat)
    requires Inv(r) && Roomy(r.lay, r.len) && clock < 0x1_0000_0000_0000_0000 && stored != []
    requires forall i :: 0 <= i < |stored| ==> StoredOk(r.lay, stored[i])
    ensures var st := stored[|stored| - 1];
            Short(r.lay, r.len, |st.text|, |st.dict|) ==> LastLength(r, stored, clock) == |st.text|
  {
    var r1 := Feed(r, stored[..|stored| - 1], clock);
    var recs := FeedArrives(r, stored[..|stored| - 1], clock);
    AddedIs(r, r1, recs);
    var rec := StoreArrives(r1, stored[|stored| - 1], clock);
    AddedIs(r1, Store(r1, MsgOf(stored[|stored| - 1], clock)), [rec]);
  }
}
