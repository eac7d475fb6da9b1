/** The dumper interface to the log: one record at a time forwards, or blocks of
    the youngest records backwards. */
module KmsgDump {
  import opened Bytes
  import opened LogRecord
  import opened LogRing
  import opened LogBuffers
  import opened Printing

  /** Length of the records `lo` to `hi` with the syslog prefix. */
  ghost function Length(d: Dumper, hist: seq<Record>, time: bool, lo: nat, hi: nat): nat
    requires hi <= |hist|
    decreases hi - lo
  {
    if lo >= hi then 0 else |d.full(hist[lo], true, time)| + Length(d, hist, time, lo + 1, hi)
  }

  /** The records `lo` to `hi`, formatted, in order. */
  ghost function Text(d: Dumper, hist: seq<Record>, syslog: bool, time: bool, lo: nat, hi: nat): seq<Byte>
    requires hi <= |hist|
    decreases hi
  {
    if lo >= hi then [] else Text(d, hist, syslog, time, lo, hi - 1) + d.full(hist[hi - 1], syslog, time)
  }

  lemma {:induction false} LengthSplit(d: Dumper, hist: seq<Record>, time: bool, lo: nat, mid: nat, hi: nat)
    requires lo <= mid <= hi <= |hist|
    ensures Length(d, hist, time, lo, hi) == Length(d, hist, time, lo, mid) + Length(d, hist, time, mid, hi)
    decreases mid - lo
  {
    if lo < mid {
      LengthSplit(d, hist, time, lo + 1, mid, hi);
    }
  }

  lemma {:induction false} TextSplit(d: Dumper, hist: seq<Record>, syslog: bool, time: bool, lo: nat, mid: nat, hi: nat)
    requires lo <= mid <= hi <= |hist|
    ensures Text(d, hist, syslog, time, lo, hi)
         == Text(d, hist, syslog, time, lo, mid) + Text(d, hist, syslog, time, mid, hi)
    decreases hi
  {
    if mid < hi {
      TextSplit(d, hist, syslog, time, lo, mid, hi - 1);
      Assoc(Text(d, hist, syslog, time, lo, mid), Text(d, hist, syslog, time, mid, hi - 1),
            d.full(hist[hi - 1], syslog, time));
    }
  }

  lemma {:induction false} TextShort(lay: Layout, d: Dumper, hist: seq<Record>, syslog: bool, time: bool,
                                     lo: nat, hi: nat)
    requires Dumps(lay, d) && lo <= hi <= |hist|
    ensures |Text(d, hist, syslog, time, lo, hi)| <= Length(d, hist, time, lo, hi)
    ensures lo < hi ==> Text(d, hist, syslog, time, lo, hi) != []
    decreases hi
  {
    if lo < hi {
      TextShort(lay, d, hist, syslog, time, lo, hi - 1);
      LengthSplit(d, hist, time, lo, hi - 1, hi);
      assert Length(d, hist, time, hi - 1, hi) == |d.full(hist[hi - 1], true, time)| + Length(d, hist, time, hi, hi);
      assert |d.full(hist[hi - 1], syslog, time)| > 0;
    }
  }

  /** Where the next block starts: "move first record forward until length fits". */
  ghost function BlockStart(d: Dumper, hist: seq<Record>, time: bool, cur: nat, next: nat, size: nat): (k: nat)
    requires cur <= next <= |hist|
    ensures cur <= k <= next
    ensures k < next ==> Length(d, hist, time, k, next) < size
    ensures forall j :: cur <= j < k ==> Length(d, hist, time, j, next) >= size
    decreases next - cur
  {
    if cur < next && Length(d, hist, time, cur, next) >= size then BlockStart(d, hist, time, cur + 1, next, size)
    else cur
  }

  /** A call makes progress exactly when the youngest remaining record, with the
      syslog prefix, is shorter than the buffer; otherwise it selects nothing and
      the next call finds the same state. */
  lemma ProgressExact(lay: Layout, d: Dumper, hist: seq<Record>, time: bool, cur: nat, next: nat, size: nat)
    requires Dumps(lay, d) && cur < next <= |hist|
    ensures BlockStart(d, hist, time, cur, next, size) < next <==> |d.full(hist[next - 1], true, time)| < size
  {
    var k := BlockStart(d, hist, time, cur, next, size);
    assert Length(d, hist, time, next - 1, next)
        == |d.full(hist[next - 1], true, time)| + Length(d, hist, time, next, next);
    if k < next {
      LengthSplit(d, hist, time, k, next - 1, next);
    }
  }

  /** The end of what remains after `n` calls. */
  ghost function After(d: Dumper, hist: seq<Record>, time: bool, cur: nat, next: nat, size: nat, n: nat): (e: nat)
    requires cur <= next <= |hist|
    ensures cur <= e <= next
  {
    if n == 0 then next else BlockStart(d, hist, time, cur, After(d, hist, time, cur, next, size, n - 1), size)
  }

  predicate AllShorter(d: Dumper, hist: seq<Record>, time: bool, lo: nat, hi: nat, size: nat)
    requires hi <= |hist|
  {
    forall i :: lo <= i < hi ==> |d.full(hist[i], true, time)| < size
  }

  lemma {:induction false} LengthCovers(d: Dumper, hist: seq<Record>, time: bool, lo: nat, i: nat, hi: nat)
    requires lo <= i < hi <= |hist|
    ensures |d.full(hist[i], true, time)| <= Length(d, hist, time, lo, hi)
    decreases i - lo
  {
    if lo < i {
      LengthCovers(d, hist, time, lo + 1, i, hi);
    }
  }

  /** A call never passes a record that is not shorter than the buffer. */
  lemma {:induction false} NeverPasses(d: Dumper, hist: seq<Record>, time: bool, cur: nat, next: nat, size: nat,
                                      n: nat, i: nat)
    requires cur <= i < next <= |hist| && |d.full(hist[i], true, time)| >= size
    ensures After(d, hist, time, cur, next, size, n) > i
  {
    if n > 0 {
      NeverPasses(d, hist, time, cur, next, size, n - 1, i);
      var e := After(d, hist, time, cur, next, size, n - 1);
      var k := BlockStart(d, hist, time, cur, e, size);
      if k <= i {
        LengthCovers(d, hist, time, k, i, e);
      }
    }
  }

  lemma {:induction false} Progresses(lay: Layout, d: Dumper, hist: seq<Record>, time: bool, cur: nat, next: nat,
                                     size: nat, n: nat)
    requires Dumps(lay, d) && cur <= next <= |hist| && AllShorter(d, hist, time, cur, next, size)
    ensures After(d, hist, time, cur, next, size, n) <= Max(cur, next - n)
  {
    if n > 0 {
      Progresses(lay, d, hist, time, cur, next, size, n - 1);
      var e := After(d, hist, time, cur, next, size, n - 1);
      if cur < e {
        ProgressExact(lay, d, hist, time, cur, e, size);
      }
    }
  }

  /** Repeated calls reach the oldest record if and only if every remaining one is
      shorter than the buffer, and then after at most as many calls as records. */
  lemma DumpEndsExactly(lay: Layout, d: Dumper, hist: seq<Record>, time: bool, cur: nat, next: nat, size: nat)
    requires Dumps(lay, d) && cur <= next <= |hist|
    ensures (exists n: nat :: After(d, hist, time, cur, next, size, n) == cur)
            <==> AllShorter(d, hist, time, cur, next, size)
    ensures AllShorter(d, hist, time, cur, next, size) ==> After(d, hist, time, cur, next, size, next - cur) == cur
  {
    if AllShorter(d, hist, time, cur, next, size) {
      Progresses(lay, d, hist, time, cur, next, size, next - cur);
    } else {
      var i :| cur <= i < next && |d.full(hist[i], true, time)| >= size;
      forall n: nat ensures After(d, hist, time, cur, next, size, n) > i {
        NeverPasses(d, hist, time, cur, next, size, n, i);
      }
    }
  }

  /** All blocks of repeated calls, in call order. */
  ghost function Blocks(lay: Layout, d: Dumper, hist: seq<Record>, syslog: bool, time: bool,
                        cur: nat, next: nat, size: nat): seq<seq<Byte>>
    requires Dumps(lay, d) && cur <= next <= |hist|
    requires forall i :: cur <= i < next ==> |d.full(hist[i], true, time)| < size
    decreases next
  {
    if cur == next then []
    else
      ProgressExact(lay, d, hist, time, cur, next, size);
      var k := BlockStart(d, hist, time, cur, next, size);
      [Text(d, hist, syslog, time, k, next)] + Blocks(lay, d, hist, syslog, time, cur, k, size)
  }

  ghost function JoinReversed(bs: seq<seq<Byte>>): seq<Byte> {
    if bs == [] then [] else JoinReversed(bs[1..]) + bs[0]
  }

  /** Backwards dump is a partition: if every record is shorter than the buffer,
      repeated calls end, no block is empty or longer than the buffer, and the
      blocks in reverse call order are all records, formatted, exactly once. */
  lemma {:induction false} BlocksPartition(lay: Layout, d: Dumper, hist: seq<Record>, syslog: bool, time: bool,
                                          cur: nat, next: nat, size: nat)
    requires Dumps(lay, d) && cur <= next <= |hist|
    requires forall i :: cur <= i < next ==> |d.full(hist[i], true, time)| < size
    ensures var bs := Blocks(lay, d, hist, syslog, time, cur, next, size);
            && JoinReversed(bs) == Text(d, hist, syslog, time, cur, next)
            && |bs| <= next - cur
            && forall i :: 0 <= i < |bs| ==> 0 < |bs[i]| < size
    decreases next
  {
    if cur < next {
      ProgressExact(lay, d, hist, time, cur, next, size);
      var k := BlockStart(d, hist, time, cur, next, size);
      BlocksPartition(lay, d, hist, syslog, time, cur, k, size);
      TextSplit(d, hist, syslog, time, cur, k, next);
      TextShort(lay, d, hist, syslog, time, k, next);
      var rest := Blocks(lay, d, hist, syslog, time, cur, k, size);
      var bs := [Text(d, hist, syslog, time, k, next)] + rest;
      assert bs[1..] == rest;
      assert forall i :: 0 < i < |bs| ==> bs[i] == rest[i - 1];
    }
  }

  /** struct kmsg_dumper, the part that iterates. */
  class KmsgDumper {
    const log: LogBuffer
    ghost const dumper: Dumper
    var active: bool
    var curSeq: nat
    var curIdx: nat
    var nextSeq: nat
    var nextIdx: nat

    ghost predicate Valid()
      reads this, log
    {
      && log.Cursor(curSeq, curIdx) && log.Cursor(nextSeq, nextIdx) && nextSeq <= log.ring.Next()
      && Dumps(log.lay, dumper)
    }

    /** The iterator as `kmsg_dump` sets it up. */
    constructor (log: LogBuffer)
      requires log.Valid()
      ensures Valid() && this.log == log && active
      ensures curSeq == log.clearSeq && nextSeq == log.nextSeq
    {
      this.log, dumper, active := log, TheDumper(log.lay), true;
      curSeq, curIdx := log.clearSeq, log.clearIdx;
      nextSeq, nextIdx := log.nextSeq, log.nextIdx;
    }

    /** `kmsg_dump_rewind_nolock` */
    method Rewind()
      requires log.Valid() && Valid()
      modifies this
      ensures Valid() && curSeq == log.clearSeq && nextSeq == log.nextSeq && active == old(active)
    {
      curSeq, curIdx := log.clearSeq, log.clearIdx;
      nextSeq, nextIdx := log.nextSeq, log.nextIdx;
    }

    /** "messages are gone, move to first available one" */
    method CatchUp()
      requires log.Valid() && Valid()
      modifies this`curSeq, this`curIdx
      ensures Valid() && curSeq == Max(old(curSeq), log.firstSeq)
    {
      if curSeq < log.firstSeq {
        curSeq, curIdx := log.firstSeq, log.firstIdx;
      }
    }

    /** `kmsg_dump_get_line_nolock` */
    method GetLine(syslog: bool, time: bool, size: nat) returns (more: bool, line: seq<Byte>)
      requires log.Valid() && Valid()
      modifies this
      ensures Valid() && active == old(active) && nextSeq == old(nextSeq)
      ensures more <==> active && Max(old(curSeq), log.firstSeq) < log.nextSeq
      ensures more ==> (curSeq == Max(old(curSeq), log.firstSeq) + 1
                        && line == dumper.cut(log.ring.hist[curSeq - 1], syslog, time, size))
      ensures !more ==> line == [] && curSeq == if active then Max(old(curSeq), log.firstSeq) else old(curSeq)
    {
      more, line := false, [];
      if !active {
        return;
      }
      CatchUp();
      if curSeq >= log.nextSeq {
        return;
      }
      var rec := log.LogFromIdx(curIdx, curSeq);
      line := DumpText(log.lay, dumper, rec, syslog, time, size);
      curIdx := log.LogNext(curIdx, curSeq);
      curSeq := curSeq + 1;
      more := true;
    }

    /** The length of one record, and the next one's index. */
    method CountOne(time: bool, s: nat, idx: nat) returns (n: nat, idx': nat)
      requires log.Valid() && Valid() && log.Cursor(s, idx) && log.firstSeq <= s < log.nextSeq
      ensures n == |dumper.full(log.ring.hist[s], true, time)| && log.Cursor(s + 1, idx')
    {
      var rec := log.LogFromIdx(idx, s);
      n := DumpCount(log.lay, dumper, rec, true, time);
      idx' := log.LogNext(idx, s);
    }

    /** "calculate length of entire buffer" */
    method CountRest(time: bool) returns (l: nat)
      requires log.Valid() && Valid() && log.firstSeq <= curSeq <= nextSeq
      ensures l == Length(dumper, log.ring.hist, time, curSeq, nextSeq)
    {
      ghost var hist := log.ring.hist;
      l := 0;
      var s, idx := curSeq, curIdx;
      while s < nextSeq
        invariant curSeq <= s <= nextSeq && log.Cursor(s, idx)
        invariant l + Length(dumper, hist, time, s, nextSeq) == Length(dumper, hist, time, curSeq, nextSeq)
      {
        var n;
        n, idx := CountOne(time, s, idx);
        l, s := l + n, s + 1;
      }
    }

    /** The two length scans of `kmsg_dump_get_buffer`. */
    method FindBlock(time: bool, size: nat) returns (s: nat, idx: nat)
      requires log.Valid() && Valid() && log.firstSeq <= curSeq <= nextSeq
      ensures s == BlockStart(dumper, log.ring.hist, time, curSeq, nextSeq, size) && log.Cursor(s, idx)
    {
      ghost var hist := log.ring.hist;
      var l := CountRest(time);
      s, idx := curSeq, curIdx;
      while l >= size && s < nextSeq
        invariant curSeq <= s <= nextSeq && log.Cursor(s, idx)
        invariant l == Length(dumper, hist, time, s, nextSeq)
        invariant BlockStart(dumper, hist, time, s, nextSeq, size)
               == BlockStart(dumper, hist, time, curSeq, nextSeq, size)
      {
        var n;
        n, idx := CountOne(time, s, idx);
        l, s := l - n, s + 1;
      }
    }

    /** The copying loop: every selected record fits behind the ones before it. */
    method CopyBlock(syslog: bool, time: bool, size: nat, from: nat, fromIdx: nat) returns (out: seq<Byte>)
      requires log.Valid() && Valid() && log.firstSeq <= from <= nextSeq && log.Cursor(from, fromIdx)
      requires from < nextSeq ==> Length(dumper, log.ring.hist, time, from, nextSeq) < size
      ensures out == Text(dumper, log.ring.hist, syslog, time, from, nextSeq)
    {
      ghost var hist := log.ring.hist;
      out := [];
      var s, idx := from, fromIdx;
      while s < nextSeq
        invariant from <= s <= nextSeq && log.Cursor(s, idx)
        invariant out == Text(dumper, hist, syslog, time, from, s)
      {
        TextShort(log.lay, dumper, hist, syslog, time, from, s);
        LengthSplit(dumper, hist, time, from, s, nextSeq);
        var rec := log.LogFromIdx(idx, s);
        assert |dumper.full(rec, syslog, time)| <= |dumper.full(rec, true, time)| < size - |out|;
        var text := DumpText(log.lay, dumper, rec, syslog, time, size - |out|);
        out := out + text;
        idx := log.LogNext(idx, s);
        s := s + 1;
      }
    }

    /** `kmsg_dump_get_buffer` */
    method GetBuffer(syslog: bool, time: bool, size: nat) returns (more: bool, out: seq<Byte>)
      requires log.Valid() && Valid()
      modifies this
      ensures Valid() && active == old(active)
      ensures curSeq == if active then Max(old(curSeq), log.firstSeq) else old(curSeq)
      ensures more <==> active && curSeq < old(nextSeq)
      ensures !more ==> out == [] && nextSeq == old(nextSeq)
      ensures more ==> (nextSeq == BlockStart(dumper, log.ring.hist, time, curSeq, old(nextSeq), size)
                        && out == Text(dumper, log.ring.hist, syslog, time, nextSeq, old(nextSeq)))
    {
      more, out := false, [];
      if !active {
        return;
      }
      CatchUp();
      if curSeq >= nextSeq {
        return;
      }
      var s, idx := FindBlock(time, size);
      out := CopyBlock(syslog, time, size, s, idx);
      nextSeq, nextIdx := s, idx;
      more := true;
    }

    /** Repeated calls until there is nothing more: every record formats once, in
        blocks that are each as long as the buffer allows. */
    method DumpAll(syslog: bool, time: bool, size: nat) returns (bs: seq<seq<Byte>>)
      requires log.Valid() && Valid() && active && Max(curSeq, log.firstSeq) <= nextSeq
      requires forall i :: Max(curSeq, log.firstSeq) <= i < nextSeq ==>
                             |dumper.full(log.ring.hist[i], true, time)| < size
      modifies this
      ensures Valid() && curSeq == Max(old(curSeq), log.firstSeq)
      ensures JoinReversed(bs) == Text(dumper, log.ring.hist, syslog, time, curSeq, old(nextSeq))
      ensures forall i :: 0 <= i < |bs| ==> 0 < |bs[i]| < size
    {
      ghost var hist, cur, next := log.ring.hist, Max(curSeq, log.firstSeq), nextSeq;
      ghost var goal := Blocks(log.lay, dumper, hist, syslog, time, cur, next, size);
      bs := [];
      var more := true;
      while more
        invariant Valid() && active && cur <= nextSeq <= next && Max(curSeq, log.firstSeq) == cur
        invariant bs + Blocks(log.lay, dumper, hist, syslog, time, cur, nextSeq, size) == goal
        invariant !more ==> nextSeq == cur == curSeq
        decreases nextSeq, more
      {
        ghost var n := nextSeq;
        var block;
        more, block := GetBuffer(syslog, time, size);
        if more {
          ProgressExact(log.lay, dumper, hist, time, cur, n, size);
          Assoc(bs, [block], Blocks(log.lay, dumper, hist, syslog, time, cur, nextSeq, size));
          bs := bs + [block];
        }
      }
      assert bs + [] == bs;
      BlocksPartition(log.lay, dumper, hist, syslog, time, cur, next, size);
    }
  }
}
