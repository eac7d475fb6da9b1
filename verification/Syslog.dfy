/** The syslog(2) reader of the log as the kernel runs it: `syslog_print`, the
    unread count and "read all". */
module Syslog {
  import opened Bytes
  import opened LogRecord
  import opened LogRing
  import opened LogBuffers
  import opened LineFormat
  import opened Printing
  import opened SyslogSpec

  /** What happens before the lock is taken for the next record: stores and
      clears, and a new value of the printk_time parameter. */
  datatype Window = Window(ops: seq<Op>, time: bool)

  function OpsOf(ws: seq<Window>): (o: seq<seq<Op>>)
    ensures |o| == |ws| && forall i :: 0 <= i < |ws| ==> o[i] == ws[i].ops
  {
    seq(|ws|, i requires 0 <= i < |ws| => ws[i].ops)
  }

  predicate WindowsOk(ws: seq<Window>) {
    forall i :: 0 <= i < |ws| ==> RuntimeOps(ws[i].ops)
  }

  function WorldOf(r: Ring, now: bool): World {
    World(r.first, r.hist, now)
  }

  /** `w` is the k-th window, or one in which nothing happens. */
  ghost predicate NextIs(ws: seq<Window>, k: nat, w: Window, now: bool) {
    forall j {:trigger Opened(NextOps, j)} :: Opened(NextOps, j) ==>
      && RuntimeOps(w.ops) && w.ops == WindowAt(OpsOf(ws), k)
      && (ws == [] ==> w.time == now)
  }

  /** A read that began at `rd0` with the log `r0` and the view `w0` of it has
      copied `out` in `n` turns, which saw `seen`, and has come to the log `r`, the
      view `w` and the position `rd`. */
  ghost predicate Progress(p: Printer, ws: seq<Window>, r0: Ring, w0: World, rd0: Reader, size: nat,
                           r: Ring, w: World, rd: Reader, out: seq<Byte>, seen: Seen, n: nat)
  {
    forall k {:trigger Opened(ReadLoop, k)} :: Opened(ReadLoop, k) ==>
      && |out| <= size && seen.First() == w0 && seen.w == w
      && Printed(p, seen, rd0, size, w, rd, out)
      && Ran(r0, Happened(OpsOf(ws), n), r)
      && (ws == [] ==> r == r0 && w == w0 && StaysAt(seen, w0))
  }

  lemma ProgressIs(p: Printer, ws: seq<Window>, r0: Ring, w0: World, rd0: Reader, size: nat,
                   r: Ring, w: World, rd: Reader, out: seq<Byte>, seen: Seen, n: nat)
    requires Progress(p, ws, r0, w0, rd0, size, r, w, rd, out, seen, n)
    ensures |out| <= size && seen.First() == w0 && seen.w == w
    ensures Printed(p, seen, rd0, size, w, rd, out)
    ensures Ran(r0, Happened(OpsOf(ws), n), r)
    ensures ws == [] ==> r == r0 && w == w0 && StaysAt(seen, w0)
  {
    assert Opened(ReadLoop, 0);
  }

  lemma ProgressStart(p: Printer, ws: seq<Window>, r0: Ring, w0: World, rd0: Reader, size: nat)
    requires r0.Shape() && w0.hist == r0.hist && w0.first <= |w0.hist| && Ok(p, w0.hist, rd0)
    ensures Progress(p, ws, r0, w0, rd0, size, r0, w0, rd0, [], Start(w0), 0)
  {
    RanNothing(r0);
    PrintedNothing(p, w0, rd0, size);
  }

  lemma ProgressStep(p: Printer, ws: seq<Window>, r0: Ring, w0: World, rd0: Reader, size: nat,
                     r: Ring, w: World, rd: Reader, out: seq<Byte>, seen: Seen, n: nat,
                     r': Ring, w': World, rd': Reader, chunk: seq<Byte>)
    requires Progress(p, ws, r0, w0, rd0, size, r, w, rd, out, seen, n) && |out| <= size
    requires Later(w, w') && Looked(p, w', rd, size - |out|, out == [], rd', chunk)
    requires Ran(r, WindowAt(OpsOf(ws), n), r')
    requires w' == WorldOf(r', w'.now) && (ws == [] ==> w'.now == w.now) && w == WorldOf(r, w.now)
    ensures Progress(p, ws, r0, w0, rd0, size, r', w', rd', out + chunk, More(seen, w'), n + 1)
    ensures |out + chunk| <= size
  {
    ProgressIs(p, ws, r0, w0, rd0, size, r, w, rd, out, seen, n);
    PrintedMore(p, seen, rd0, size, w, rd, out, w', rd', chunk);
    RanWindow(r0, OpsOf(ws), n, r, r');
    if ws == [] {
      RanQuiet(r0, n + 1, r');
    }
  }

  class SyslogReader {
    const log: LogBuffer
    ghost const printer: Printer
    var seqNo: nat        // syslog_seq, syslog_idx
    var idx: nat
    var partial: nat      // syslog_partial
    var time: bool        // syslog_time
    var printkTime: bool  // printk_time

    function Rd(): Reader
      reads this
    {
      Reader(seqNo, partial, time)
    }

    ghost function Now(): World
      reads this, log
    {
      WorldOf(log.ring, printkTime)
    }

    ghost predicate Valid()
      reads this, log
    {
      && log.Cursor(seqNo, idx) && seqNo <= log.ring.Next()
      && forall k {:trigger Opened(Position, k)} :: Opened(Position, k) ==> WithinRecord()
    }

    ghost predicate WithinRecord()
      reads this, log
    {
      Prints(log.lay, printer) && Ok(printer, log.ring.hist, Rd())
    }

    constructor (log: LogBuffer, printkTime: bool)
      requires log.Valid()
      ensures Valid() && this.log == log && Rd() == Reader(log.firstSeq, 0, false)
    {
      this.log, printer := log, ThePrinter(log.lay);
      seqNo, idx, partial := log.firstSeq, log.firstIdx, 0;
      time, this.printkTime := false, printkTime;
    }

    /** "messages are gone, move to first one" */
    method Resynchronize()
      requires log.Valid() && Valid()
      modifies this
      ensures Valid() && Rd() == Resync(log.firstSeq, old(Rd())) && printkTime == old(printkTime)
    {
      assert Opened(Position, 0);
      if seqNo < log.firstSeq {
        seqNo := log.firstSeq;
        idx := log.firstIdx;
        partial := 0;
      }
    }

    /** One turn of the loop in `syslog_print`, under the lock. */
    method ReadRecord(left: nat, first: bool) returns (chunk: seq<Byte>)
      requires log.Valid() && Valid() && log.firstSeq <= seqNo < log.nextSeq && WithinRecord()
      modifies this
      ensures log.Cursor(seqNo, idx) && printkTime == old(printkTime)
      ensures var rd := old(Rd());
              var t := Setting(rd, printkTime);
              var text := printer.line(log.ring.hist[rd.s], t);
              rd.partial <= |text| && (Rd(), chunk) == Cut(rd, t, text, left, first)
    {
      if partial == 0 {
        time := printkTime;
      }
      var skip := partial;
      var rec := log.LogFromIdx(idx, seqNo);
      var text := PrintLine(log.lay, printer, rec, time);
      var n := |text|;
      if n - partial <= left {
        idx := log.LogNext(idx, seqNo);
        seqNo := seqNo + 1;
        n := n - partial;
        partial := 0;
      } else if first {
        n := left;
        partial := partial + n;
      } else {
        n := 0;
      }
      chunk := text[skip..skip + n];
      assert skip + n == |text| ==> chunk == text[skip..];
      assert n == 0 ==> chunk == [];
    }

    /** The time between two turns of the loop, with the lock released. */
    method Unlocked(w: Window)
      requires log.Valid() && Valid() && RuntimeOps(w.ops)
      modifies this`printkTime, log, log.mem
      ensures log.Valid() && log.mem == old(log.mem) && Later(old(Now()), Now())
      ensures Valid() && printkTime == w.time && Rd() == old(Rd()) && Ran(old(log.ring), w.ops, log.ring)
    {
      assert Opened(Position, 0);
      Interfere(log, w.ops);
      printkTime := w.time;
    }

    /** Once round the loop of `syslog_print`, after what happens before it. */
    method LookAgain(w: Window, left: nat, first: bool) returns (chunk: seq<Byte>)
      requires log.Valid() && Valid() && RuntimeOps(w.ops)
      modifies this, log, log.mem
      ensures log.Valid() && log.mem == old(log.mem) && Valid()
      ensures Later(old(Now()), Now()) && printkTime == w.time
      ensures Looked(printer, Now(), old(Rd()), left, first, Rd(), chunk)
      ensures Ran(old(log.ring), w.ops, log.ring)
    {
      assert Opened(Position, 0);
      Unlocked(w);
      Resynchronize();
      chunk := [];
      if seqNo != log.nextSeq {
        chunk := ReadRecord(left, first);
      }
    }

    /** The reader is in the middle of a read as `Progress` tells. */
    ghost predicate Reading(ws: seq<Window>, r0: Ring, w0: World, rd0: Reader, size: nat,
                            out: seq<Byte>, seen: Seen, n: nat)
      reads this, log, log.mem
    {
      && log.Valid() && Valid()
      && Progress(printer, ws, r0, w0, rd0, size, log.ring, Now(), Rd(), out, seen, n)
    }

    /** One turn of the loop of `syslog_print`. */
    method PrintTurn(ghost ws: seq<Window>, w: Window, k: nat, ghost r0: Ring, ghost w0: World, ghost rd0: Reader,
                     size: nat, out: seq<Byte>, ghost seen: Seen)
      returns (chunk: seq<Byte>)
      requires Reading(ws, r0, w0, rd0, size, out, seen, k) && |out| <= size
      requires NextIs(ws, k, w, printkTime)
      modifies this, log, log.mem
      ensures log.mem == old(log.mem) && |out + chunk| <= size
      ensures Reading(ws, r0, w0, rd0, size, out + chunk, More(seen, Now()), k + 1)
    {
      assert Opened(NextOps, 0);
      ghost var r, was, now := log.ring, Now(), Rd();
      chunk := LookAgain(w, size - |out|, out == []);
      ProgressStep(printer, ws, r0, w0, rd0, size, r, was, now, out, seen, k, log.ring, Now(), Rd(), chunk);
    }

    method NextWindow(ws: seq<Window>, k: nat) returns (w: Window)
      requires WindowsOk(ws)
      ensures NextIs(ws, k, w, printkTime)
    {
      w := if k < |ws| then ws[k] else Window([], printkTime);
    }

    lemma SoFar(ws: seq<Window>, r0: Ring, w0: World, rd0: Reader, size: nat, out: seq<Byte>, seen: Seen, n: nat)
      requires Reading(ws, r0, w0, rd0, size, out, seen, n)
      ensures Printed(printer, seen, rd0, size, seen.w, Rd(), out)
    {
      ProgressIs(printer, ws, r0, w0, rd0, size, log.ring, Now(), Rd(), out, seen, n);
    }

    /** The loop of `syslog_print`. */
    method PrintLoop(ws: seq<Window>, ghost r0: Ring, ghost w0: World, ghost rd0: Reader, size: nat)
      returns (out: seq<Byte>, ghost seen: Seen, ghost n: nat, ghost was: Reader)
      requires WindowsOk(ws) && Reading(ws, r0, w0, rd0, size, [], Start(w0), 0)
      modifies this, log, log.mem
      ensures log.mem == old(log.mem) && Reading(ws, r0, w0, rd0, size, out, seen, n)
      ensures |out| < size ==> seen.More? && Printed(printer, seen.before, rd0, size, seen.before.w, was, out)
    {
      var k, more := 0, true;
      out, seen, n, was := [], Start(w0), 0, rd0;
      while |out| < size && more
        invariant log.mem == old(log.mem) && n == k && |out| <= size
        invariant Reading(ws, r0, w0, rd0, size, out, seen, k)
        invariant !more ==> seen.More? && Printed(printer, seen.before, rd0, size, seen.before.w, was, out)
        decreases size - |out|, more
      {
        was := Rd();
        SoFar(ws, r0, w0, rd0, size, out, seen, k);
        var w := NextWindow(ws, k);
        var chunk := PrintTurn(ws, w, k, r0, w0, rd0, size, out, seen);
        assert chunk == [] ==> out + chunk == out;
        seen := More(seen, Now());
        k, n, out, more := k + 1, n + 1, out + chunk, |chunk| > 0;
      }
    }

    /** `syslog_print`, with `ws[i]` happening before the i-th turn of its loop, and
        nothing else to the log; `seen` is what the `n` turns see of it. It stops
        only when the buffer is full or the last turn copied nothing. */
    method SyslogPrint(size: nat, ws: seq<Window>) returns (out: seq<Byte>, ghost seen: Seen, ghost n: nat)
      requires log.Valid() && Valid() && WindowsOk(ws)
      modifies this, log, log.mem
      ensures log.Valid() && log.mem == old(log.mem) && Valid()
      ensures Ran(old(log.ring), Happened(OpsOf(ws), n), log.ring)
      ensures seen.Flow() && seen.First() == old(Now()) && seen.w == Now()
      ensures Ok(printer, old(Now()).hist, old(Rd()))
      ensures var o := Print(printer, seen, old(Rd()), size); Rd() == o.rd && out == o.out
      ensures |out| < size ==> seen.More? && Print(printer, seen.before, old(Rd()), size).out == out
      ensures ws == [] ==> log.ring == old(log.ring) && Now() == old(Now()) && StaysAt(seen, Now())
    {
      assert Opened(Position, 0);
      ghost var r0, w0, rd0 := log.ring, Now(), Rd();
      ghost var was;
      ProgressStart(printer, ws, r0, w0, rd0, size);
      out, seen, n, was := PrintLoop(ws, r0, w0, rd0, size);
      ProgressIs(printer, ws, r0, w0, rd0, size, log.ring, Now(), Rd(), out, seen, n);
      PrintedIs(printer, seen, rd0, size, Now(), Rd(), out);
      if |out| < size {
        PrintedIs(printer, seen.before, rd0, size, seen.before.w, was, out);
      }
    }

    /** SYSLOG_ACTION_SIZE_UNREAD. /proc/kmsg only wants to know whether there is
        something to read and gets the number of records, others the bytes. */
    method SizeUnread(fromProc: bool) returns (n: int)
      requires log.Valid() && Valid()
      modifies this
      ensures Valid() && Rd() == Resync(log.firstSeq, old(Rd())) && printkTime == old(printkTime)
      ensures !fromProc ==> n == Unread(printer, log.ring.hist, Rd(), printkTime)
      ensures fromProc ==> n == log.nextSeq - seqNo
      ensures n > 0 <==> seqNo < log.nextSeq
    {
      Resynchronize();
      if fromProc {
        n := log.nextSeq - seqNo;
      } else {
        assert Opened(Position, 0);
        n := CountUnread();
        UnreadPositive(log.lay, printer, log.ring.hist, Rd(), printkTime);
      }
    }

    /** The bytes counted are the bytes then read: with no stores and printk_time
        left alone, reads of any one size drain the log and deliver as many. */
    method Drain(size: nat) returns (n: int, total: seq<Byte>)
      requires log.Valid() && Valid() && size > 0
      requires AllFit(log.lay, printer, log.ring.hist, Max(seqNo, log.firstSeq))
      modifies this, log, log.mem
      ensures log.Valid() && Valid() && log.ring == old(log.ring) && seqNo == log.nextSeq
      ensures |total| == n
    {
      n := SizeUnread(false);
      assert Opened(Position, 0);
      ghost var w, p := Now(), printer;
      UnreadIsToRead(log.lay, p, w.hist, Rd(), w.now);
      total := [];
      while seqNo != log.nextSeq
        invariant log.Valid() && Valid() && log.mem == old(log.mem) && log.ring == old(log.ring)
        invariant Now() == w && w.first <= seqNo && AllFit(log.lay, p, w.hist, seqNo) && Ok(p, w.hist, Rd())
        invariant |total| + ToRead(p, w.hist, Rd(), w.now) == n
        decreases n - |total|
      {
        ghost var rd := Rd();
        var out, seen, k := SyslogPrint(size, []);
        assert Opened(Position, 0);
        StaysFirst(seen, w);
        PrintConserves(p, w, seen, rd, size);
        assert Conserved(p, w, rd, Print(p, seen, rd, size));
        if out == [] {
          PrintMoves(log.lay, p, w, seen.before, rd, size);
        }
        total := total + out;
      }
    }

    method CountUnread() returns (n: int)
      requires log.Valid() && Valid() && log.firstSeq <= seqNo
      ensures n == Unread(printer, log.ring.hist, Rd(), printkTime)
    {
      assert Opened(Position, 0);
      ghost var hist, p := log.ring.hist, printer;
      n := 0;
      var s, i, t := seqNo, idx, if partial > 0 then time else printkTime;
      while s < log.nextSeq
        invariant seqNo <= s <= log.nextSeq && log.Cursor(s, i)
        invariant if s == seqNo then n == 0 && t == Setting(Rd(), printkTime) else
                    t == printkTime && n - partial + Total(p, hist, t, s, |hist|) == Unread(p, hist, Rd(), t)
      {
        var k;
        k, i := CountOne(log, printer, t, s, i);
        n, s, t := n + k, s + 1, printkTime;
      }
      n := n - partial;
    }
  }

  // ---- read all ----

  lemma {:induction false} TotalShrinks(p: Printer, hist: seq<Record>, time: bool, lo: nat, lo': nat, hi: nat)
    requires lo <= lo' && hi <= |hist|
    ensures Total(p, hist, time, lo', hi) <= Total(p, hist, time, lo, hi)
    decreases hi - lo
  {
    if lo < lo' && lo < hi {
      TotalShrinks(p, hist, time, lo + 1, lo', hi);
    }
  }

  /** The lines of the chosen records, in order. */
  function Pieces(p: Printer, hist: seq<Record>, time: bool, picked: seq<nat>): seq<Byte>
    requires forall i :: 0 <= i < |picked| ==> picked[i] < |hist|
  {
    if picked == [] then []
    else Pieces(p, hist, time, picked[..|picked| - 1]) + p.line(hist[picked[|picked| - 1]], time)
  }

  lemma PiecesPush(p: Printer, hist: seq<Record>, time: bool, picked: seq<nat>, s: nat)
    requires (forall i :: 0 <= i < |picked| ==> picked[i] < |hist|) && s < |hist|
    ensures Pieces(p, hist, time, picked + [s]) == Pieces(p, hist, time, picked) + p.line(hist[s], time)
  {
    assert (picked + [s])[..|picked|] == picked;
  }

  /** The length of one record, and the next one's index. */
  method CountOne(log: LogBuffer, ghost p: Printer, time: bool, s: nat, idx: nat) returns (n: nat, idx': nat)
    requires log.Valid() && Prints(log.lay, p) && log.Cursor(s, idx) && log.firstSeq <= s < log.nextSeq
    ensures n == |p.full(log.ring.hist[s], time)| && log.Cursor(s + 1, idx')
  {
    var rec := log.LogFromIdx(idx, s);
    n := CountText(log.lay, p, rec, time);
    idx' := log.LogNext(idx, s);
  }

  /** The first counting scan: everything since the last clear. */
  method CountAll(log: LogBuffer, ghost p: Printer, time: bool) returns (len: nat)
    requires log.Valid() && Prints(log.lay, p)
    ensures len == Total(p, log.ring.hist, time, log.clearSeq, log.nextSeq)
  {
    ghost var hist, next := log.ring.hist, log.nextSeq;
    len := 0;
    var s, idx := log.clearSeq, log.clearIdx;
    while s < log.nextSeq
      invariant log.clearSeq <= s <= log.nextSeq && log.Cursor(s, idx)
      invariant len + Total(p, hist, time, s, next) == Total(p, hist, time, log.clearSeq, next)
    {
      var n;
      n, idx := CountOne(log, p, time, s, idx);
      len, s := len + n, s + 1;
    }
  }

  /** With the second, the first record from which everything fits. */
  method FindStart(log: LogBuffer, ghost p: Printer, size: nat, time: bool) returns (s: nat, idx: nat)
    requires log.Valid() && Prints(log.lay, p)
    ensures log.clearSeq <= s <= log.nextSeq && log.Cursor(s, idx)
    ensures Total(p, log.ring.hist, time, s, log.nextSeq) <= size
    ensures log.clearSeq < s ==> Total(p, log.ring.hist, time, s - 1, log.nextSeq) > size
  {
    ghost var hist, next := log.ring.hist, log.nextSeq;
    var len := CountAll(log, p, time);
    s, idx := log.clearSeq, log.clearIdx;
    while len > size && s < log.nextSeq
      invariant log.clearSeq <= s <= log.nextSeq && log.Cursor(s, idx)
      invariant len == Total(p, hist, time, s, next)
      invariant log.clearSeq < s ==> Total(p, hist, time, s - 1, next) > size
    {
      var n;
      n, idx := CountOne(log, p, time, s, idx);
      len, s := len - n, s + 1;
    }
  }

  predicate Increasing(s: seq<nat>) {
    forall i, j :: 0 <= i < j < |s| ==> s[i] < s[j]
  }

  /** As many as there are, in increasing order: then each one, once. */
  lemma {:induction false} AllPicked(picked: seq<nat>, from: nat, next: nat, i: nat)
    requires Increasing(picked) && from <= next && |picked| == next - from && i < |picked|
    requires forall j :: 0 <= j < |picked| ==> from <= picked[j] < next
    ensures picked[i] == from + i
  {
    AtLeast(picked, from, i);
    AtMost(picked, next, i);
  }

  lemma {:induction false} AtLeast(picked: seq<nat>, from: nat, i: nat)
    requires Increasing(picked) && i < |picked| && from <= picked[0]
    ensures picked[i] >= from + i
  {
    if i > 0 {
      AtLeast(picked, from, i - 1);
    }
  }

  lemma {:induction false} AtMost(picked: seq<nat>, next: nat, i: nat)
    requires Increasing(picked) && i < |picked| && picked[|picked| - 1] < next
    ensures picked[i] + |picked| - i <= next
    decreases |picked| - i
  {
    if i + 1 < |picked| {
      AtMost(picked, next, i + 1);
    }
  }

  lemma IncreasingPush(picked: seq<nat>, s: nat)
    requires Increasing(picked) && forall i :: 0 <= i < |picked| ==> picked[i] < s
    ensures Increasing(picked + [s])
  {
  }

  /** What `syslog_print_all` has copied so far: each record at most once, in
      increasing order, and never more than the records still to come leave room
      for. `hist` and `next` are those of the start of the dump. */
  ghost predicate Copied(p: Printer, hist: seq<Record>, time: bool, size: nat, next: nat,
                         from: nat, s: nat, picked: seq<nat>, out: seq<Byte>)
  {
    forall k {:trigger Opened(Dump, k)} :: Opened(Dump, k) ==>
      && next <= |hist|
      && (forall i :: 0 <= i < |picked| ==> from <= picked[i] < next && picked[i] < s)
      && Increasing(picked)
      && out == Pieces(p, hist, time, picked)
      && |out| + Total(p, hist, time, s, next) <= size
  }

  lemma CopyFits(p: Printer, lay: Layout, hist: seq<Record>, time: bool, next: nat, s: nat, text: seq<Byte>, s': nat)
    requires Prints(lay, p) && s < next <= |hist| && s < s' && text == p.line(hist[s], time)
    ensures |text| + Total(p, hist, time, s', next) <= Total(p, hist, time, s, next)
  {
    assert |text| <= |p.full(hist[s], time)|;
    TotalShrinks(p, hist, time, s + 1, s', next);
  }

  /** Copying record `s` and going on at `s'`, perhaps past evicted records. */
  lemma CopyStep(p: Printer, lay: Layout, hist: seq<Record>, time: bool, size: nat, next: nat,
                 from: nat, s: nat, picked: seq<nat>, out: seq<Byte>, text: seq<Byte>, s': nat)
    requires Copied(p, hist, time, size, next, from, s, picked, out)
    requires Prints(lay, p) && from <= s < next <= |hist| && s < s' && text == p.line(hist[s], time)
    ensures Copied(p, hist, time, size, next, from, s', picked + [s], out + text)
  {
    assert Opened(Dump, 0);
    PiecesPush(p, hist, time, picked, s);
    CopyFits(p, lay, hist, time, next, s, text, s');
    IncreasingPush(picked, s);
  }

  /** Of the records from `from` to `s` only evicted ones are missing. */
  predicate Complete(from: nat, s: nat, picked: seq<nat>, first: nat) {
    var held := forall q: nat :: from <= q < s ==> q in picked || q < first;
    held
  }

  lemma CompleteStep(from: nat, s: nat, picked: seq<nat>, first: nat, s': nat, first': nat)
    requires Complete(from, s, picked, first) && first <= first' && s' == Max(s + 1, first')
    ensures Complete(from, s', picked + [s], first')
  {
    assert (picked + [s])[|picked|] == s;
  }

  /** One record of the copying loop, with `ops` while the lock is released. */
  method CopyTurn(log: LogBuffer, ghost p: Printer, time: bool, s: nat, idx: nat, ops: seq<Op>)
    returns (text: seq<Byte>, s': nat, idx': nat)
    requires log.Valid() && Prints(log.lay, p) && RuntimeOps(ops)
    requires log.Cursor(s, idx) && log.firstSeq <= s < log.nextSeq
    modifies log, log.mem
    ensures log.Valid() && log.mem == old(log.mem) && Ran(old(log.ring), ops, log.ring)
    ensures Extends(old(log.ring), log.ring)
    ensures text == p.line(old(log.ring).hist[s], time)
    ensures s' == Max(s + 1, log.firstSeq) && log.Cursor(s', idx')
  {
    var rec := log.LogFromIdx(idx, s);
    text := PrintLine(log.lay, p, rec, time);
    idx' := log.LogNext(idx, s);
    s' := s + 1;
    Interfere(log, ops);
    if s' < log.firstSeq {
      s' := log.firstSeq;
      idx' := log.firstIdx;
    }
  }

  /** A dump of the log `r0` from `from` on stands at `(s, idx)` after `n` windows. */
  ghost predicate Copying(log: LogBuffer, p: Printer, time: bool, size: nat, ws: seq<seq<Op>>, r0: Ring,
                          from: nat, s: nat, idx: nat, picked: seq<nat>, out: seq<Byte>, n: nat)
    reads log, log.mem
  {
    forall k {:trigger Opened(DumpLoop, k)} :: Opened(DumpLoop, k) ==>
      && log.Valid() && log.Cursor(s, idx) && log.firstSeq <= s && from <= s
      && Extends(r0, log.ring) && Ran(r0, Happened(ws, n), log.ring)
      && Copied(p, r0.hist, time, size, r0.Next(), from, s, picked, out)
      && Complete(from, s, picked, log.firstSeq)
      && (ws == [] ==> log.ring == r0 && |picked| == s - from && s <= r0.Next())
  }

  /** One turn of the copying loop. */
  method CopyOne(log: LogBuffer, ghost p: Printer, time: bool, ghost size: nat, ws: seq<seq<Op>>, ghost r0: Ring,
                 ghost from: nat, s: nat, idx: nat, ghost picked: seq<nat>, out: seq<Byte>, k: nat)
    returns (out': seq<Byte>, s': nat, idx': nat)
    requires Prints(log.lay, p) && s < r0.Next() && forall i :: 0 <= i < |ws| ==> RuntimeOps(ws[i])
    requires Copying(log, p, time, size, ws, r0, from, s, idx, picked, out, k)
    modifies log, log.mem
    ensures log.mem == old(log.mem) && s < s'
    ensures Copying(log, p, time, size, ws, r0, from, s', idx', picked + [s], out', k + 1)
  {
    assert Opened(DumpLoop, 0);
    ghost var now := log.ring;
    var text;
    text, s', idx' := CopyTurn(log, p, time, s, idx, WindowAt(ws, k));
    out' := out + text;
    ExtendsTrans(r0, now, log.ring);
    RanWindow(r0, ws, k, now, log.ring);
    CopyStep(p, log.lay, r0.hist, time, size, r0.Next(), from, s, picked, out, text, s');
    CompleteStep(from, s, picked, now.first, s', log.firstSeq);
    if ws == [] {
      RanQuiet(r0, k + 1, log.ring);
    }
  }

  /** The copying loop, up to the last record there was at the start. */
  method CopyAll(log: LogBuffer, ghost p: Printer, time: bool, ghost size: nat, from: nat, idx0: nat,
                 ws: seq<seq<Op>>)
    returns (out: seq<Byte>, ghost picked: seq<nat>, ghost n: nat)
    requires log.Valid() && Prints(log.lay, p) && log.firstSeq <= from && log.Cursor(from, idx0)
    requires Total(p, log.ring.hist, time, from, log.nextSeq) <= size
    requires forall i :: 0 <= i < |ws| ==> RuntimeOps(ws[i])
    modifies log, log.mem
    ensures log.Valid() && log.mem == old(log.mem) && old(log.nextSeq) <= log.nextSeq
    ensures Ran(old(log.ring), Happened(ws, n), log.ring)
    ensures exists s :: Copied(p, old(log.ring.hist), time, size, old(log.nextSeq), from, s, picked, out)
    ensures Complete(from, old(log.nextSeq), picked, log.firstSeq)
    ensures ws == [] ==> |picked| == old(log.nextSeq) - from
  {
    ghost var r0 := log.ring;
    RanNothing(r0);
    var next, s, idx, k := log.nextSeq, from, idx0, 0;
    out, picked, n := [], [], 0;
    while s < next
      invariant log.mem == old(log.mem) && n == k
      invariant Copying(log, p, time, size, ws, r0, from, s, idx, picked, out, k)
      decreases if s < next then next - s else 0
    {
      ghost var picked' := picked + [s];
      out, s, idx := CopyOne(log, p, time, size, ws, r0, from, s, idx, picked, out, k);
      picked, k, n := picked', k + 1, n + 1;
    }
    assert Opened(DumpLoop, 0);
    CompleteUpTo(from, s, next, picked, log.firstSeq);
  }

  lemma CompleteUpTo(from: nat, s: nat, next: nat, picked: seq<nat>, first: nat)
    requires Complete(from, s, picked, first) && next <= s
    ensures Complete(from, next, picked, first)
  {
  }

  /** `syslog_print_all`. `ws[i]` happens while the lock is released to copy the
      i-th line, and nothing else to the log but for the clear. Whatever it is, no
      more than `size` bytes are copied, each record at most once and in order, and
      of those selected only evicted ones are missing; if it is nothing, the
      records copied are the longest suffix since the last clear that fits. */
  method SyslogPrintAll(log: LogBuffer, ghost p: Printer, size: nat, clear: bool, time: bool,
                        ws: seq<seq<Op>>)
    returns (out: seq<Byte>, ghost picked: seq<nat>, ghost from: nat, ghost n: nat)
    requires log.Valid() && Prints(log.lay, p)
    requires forall i :: 0 <= i < |ws| ==> RuntimeOps(ws[i])
    modifies log, log.mem
    ensures log.Valid() && log.mem == old(log.mem)
    ensures Ran(old(log.ring), Happened(ws, n) + (if clear then [ClearOp] else []), log.ring)
    ensures ws == [] ==> log.ring == if clear then Clear(old(log.ring)) else old(log.ring)
    ensures |out| <= size
    ensures old(log.clearSeq) <= from <= old(log.nextSeq) <= log.nextSeq
    ensures Total(p, old(log.ring.hist), time, from, old(log.nextSeq)) <= size
    ensures old(log.clearSeq) < from ==> Total(p, old(log.ring.hist), time, from - 1, old(log.nextSeq)) > size
    ensures forall i :: 0 <= i < |picked| ==> from <= picked[i] < old(log.nextSeq)
    ensures Increasing(picked)
    ensures out == Pieces(p, old(log.ring.hist), time, picked)
    ensures forall q :: from <= q < old(log.nextSeq) ==> q in picked || q < log.firstSeq
    ensures ws == [] ==> |picked| == old(log.nextSeq) - from
    ensures ws == [] ==> forall i :: 0 <= i < |picked| ==> picked[i] == from + i
  {
    ghost var r, next := log.ring, log.nextSeq;
    var s, idx := FindStart(log, p, size, time);
    from := s;
    out, picked, n := CopyAll(log, p, time, size, s, idx, ws);
    assert Opened(Dump, 0);
    if ws == [] {
      RanQuiet(r, n, log.ring);
      forall i | 0 <= i < |picked| ensures picked[i] == from + i {
        AllPicked(picked, from, next, i);
      }
    }
    MayClear(log, clear, r, Happened(ws, n));
  }

  method MayClear(log: LogBuffer, clear: bool, ghost r: Ring, ghost ops: seq<Op>)
    requires log.Valid() && Ran(r, ops, log.ring)
    modifies log`clearSeq, log`clearIdx, log`ring
    ensures log.Valid() && log.ring == if clear then Clear(old(log.ring)) else old(log.ring)
    ensures Ran(r, ops + (if clear then [ClearOp] else []), log.ring)
  {
    if clear {
      ghost var r1 := log.ring;
      log.SyslogClear();
      assert Run(r1, [ClearOp]) == Run(Step(r1, ClearOp), [ClearOp][1..]);
      RanMore(r, ops, r1, [ClearOp], log.ring);
    } else {
      assert ops + [] == ops;
    }
  }
}
