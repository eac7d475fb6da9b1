/** What the holder of the console lock does with the log: the locked section of
    console_unlock and the loop around it. */
module ConsoleCursor {
  import opened Bytes
  import opened LogRecord
  import opened LogRing
  import opened LogBuffers
  import opened LineFormat
  import ConsoleLock

  /** console_loglevel, ignore_loglevel, console_msg_format & MSG_FORMAT_SYSLOG
      and printk_time */
  datatype Config = Config(loglevel: int, ignore: bool, syslog: bool, time: bool)

  /** `suppress_message_printing` */
  predicate Suppressed(c: Config, rec: Record) {
    rec.level >= c.loglevel && !c.ignore
  }

  const DROPPED_HEAD: seq<Byte> := [42, 42, 32] // "** "

  const DROPPED_TAIL: seq<Byte> :=              // "printk messages dropped **"
    [112, 114, 105, 110, 116, 107, 32, 109, 101, 115, 115, 97, 103, 101, 115,
     32, 100, 114, 111, 112, 112, 101, 100, 32, 42, 42]

  function DroppedLine(gap: nat): seq<Byte> {
    if gap == 0 then [] else DROPPED_HEAD + Decimal(gap) + [SPACE] + DROPPED_TAIL + [NEWLINE]
  }

  /** How many records the console at `s` has lost. */
  function Gap(r: Ring, s: nat): nat {
    if s < r.first then r.first - s else 0
  }

  /** What that line leaves of the text buffer. */
  function Left(lay: Layout, gap: nat): nat {
    Max(LineBuffer(lay) - |DroppedLine(gap)|, 0)
  }

  /** What the drivers get for `rec` when `gap` records before it were lost. */
  function Line(lay: Layout, c: Config, rec: Record, gap: nat): seq<Byte> {
    DroppedLine(gap) + FormatIn(lay, rec, c.syslog, c.time, Left(lay, gap))
  }

  /** The line never outgrows the static buffer, and without a gap it is the
      whole record whenever that fits. */
  lemma LineFits(lay: Layout, c: Config, rec: Record, gap: nat)
    requires gap < 0x1_0000_0000_0000_0000
    ensures |Line(lay, c, rec, gap)| < LineBuffer(lay)
    ensures gap == 0 && |Format(lay, rec, c.syslog, c.time)| < LineBuffer(lay) ==>
              Line(lay, c, rec, gap) == Format(lay, rec, c.syslog, c.time)
  {
    Pow10Values();
    DecimalLength(gap, 20);
    FormatFits(lay, rec, c.syslog, c.time, Left(lay, gap));
  }

  lemma GapRead(head: seq<Byte>, d: seq<Byte>, tail: seq<Byte>, text: seq<Byte>)
    requires NEWLINE !in head && NEWLINE !in d && NEWLINE !in tail && SPACE !in d
    ensures var s := head + d + [SPACE] + tail + [NEWLINE] + text;
            Until(s[|head|..], SPACE).0 == d && Until(s, NEWLINE).1 == text
  {
    var s := head + d + [SPACE] + tail + [NEWLINE] + text;
    assert s[|head|..] == d + [SPACE] + (tail + [NEWLINE] + text);
    UntilIs(d, SPACE, tail + [NEWLINE] + text);
    UntilIs(head + d + [SPACE] + tail, NEWLINE, text);
  }

  /** Reading the line back: behind the count of the lost records stands the record,
      whole if both fit the buffer and otherwise as many of its lines as do. */
  lemma GapRoundTrip(lay: Layout, c: Config, rec: Record, gap: nat)
    requires gap > 0
    ensures var s := Line(lay, c, rec, gap);
            var rest, full := Until(s, NEWLINE).1, Format(lay, rec, c.syslog, c.time);
            && |s| >= 3 && Number(Until(s[3..], SPACE).0) == gap
            && rest <= full && (|s| - |rest| + |full| < LineBuffer(lay) ==> rest == full)
  {
    var text := FormatIn(lay, rec, c.syslog, c.time, Left(lay, gap));
    GapRead(DROPPED_HEAD, Decimal(gap), DROPPED_TAIL, text);
    NumberDecimal(gap);
    FormatFits(lay, rec, c.syslog, c.time, Left(lay, gap));
  }

  /** The first record at or after `s` that is not suppressed, or the end. */
  function Shown(c: Config, hist: seq<Record>, s: nat): (e: nat)
    requires s <= |hist|
    ensures s <= e <= |hist|
    ensures forall i :: s <= i < e ==> Suppressed(c, hist[i])
    ensures e < |hist| ==> !Suppressed(c, hist[e])
    decreases |hist| - s
  {
    if s == |hist| || !Suppressed(c, hist[s]) then s else Shown(c, hist, s + 1)
  }

  /** Every record of [lo, hi) is among `out`, suppressed or evicted. */
  ghost predicate Accounted(c: Config, r: Ring, lo: nat, hi: nat, out: seq<nat>) {
    forall k {:trigger Opened(Console, k)} :: Opened(Console, k) ==>
      && hi <= |r.hist|
      && ConsoleLock.Rising(out, hi)
      && (forall s :: s in out ==> lo <= s < hi && !Suppressed(c, r.hist[s]))
      && (forall s :: lo <= s < hi ==> s in out || s < r.first || Suppressed(c, r.hist[s]))
  }

  /** The same by the levels: what was handed over is more urgent than the level
      asked for, and all that is, of what is still there. */
  ghost predicate ByLevel(c: Config, r: Ring, lo: nat, hi: nat, out: seq<nat>) {
    && hi <= |r.hist|
    && (forall s :: s in out ==> lo <= s < hi && (c.ignore || r.hist[s].level < c.loglevel))
    && (forall s :: lo <= s < hi && r.first <= s && (c.ignore || r.hist[s].level < c.loglevel) ==> s in out)
  }

  lemma AccountedByLevel(c: Config, r: Ring, lo: nat, hi: nat, out: seq<nat>)
    requires Accounted(c, r, lo, hi, out)
    ensures ByLevel(c, r, lo, hi, out)
  {
    assert Opened(Console, 0);
  }

  /** Raising the level, or ignoring it, takes no record from the console. */
  lemma LouderShowsMore(c: Config, c': Config, r: Ring, lo: nat, hi: nat, out: seq<nat>, out': seq<nat>)
    requires c.loglevel <= c'.loglevel && (c.ignore ==> c'.ignore)
    requires Accounted(c, r, lo, hi, out) && Accounted(c', r, lo, hi, out')
    ensures forall s :: s in out && r.first <= s ==> s in out'
  {
    AccountedByLevel(c, r, lo, hi, out);
    AccountedByLevel(c', r, lo, hi, out');
  }

  lemma AccountedLater(c: Config, r: Ring, r': Ring, lo: nat, hi: nat, out: seq<nat>)
    requires Accounted(c, r, lo, hi, out) && Extends(r, r')
    ensures Accounted(c, r', lo, hi, out)
  {
    assert Opened(Console, 0);
  }

  /** From `from` the next record shown is the one before `hi'`, or if not `emit`
      there is none and `hi'` is the end. */
  predicate PicksFrom(c: Config, hist: seq<Record>, from: nat, emit: bool, hi': nat) {
    && from <= |hist|
    && hi' == Shown(c, hist, from) + (if emit then 1 else 0)
    && (emit <==> Shown(c, hist, from) < |hist|)
  }

  /** The same from `hi`, passing all that is evicted. */
  predicate Picks(c: Config, r: Ring, hi: nat, emit: bool, hi': nat) {
    hi <= |r.hist| && PicksFrom(c, r.hist, Max(hi, r.first), emit, hi')
  }

  function Handed(out: seq<nat>, emit: bool, hi: nat): seq<nat> {
    if emit && hi > 0 then out + [hi - 1] else out
  }

  lemma AccountedStep(c: Config, r: Ring, lo: nat, hi: nat, out: seq<nat>, emit: bool, hi': nat)
    requires Accounted(c, r, lo, hi, out) && lo <= hi && Picks(c, r, hi, emit, hi')
    ensures Accounted(c, r, lo, hi', Handed(out, emit, hi'))
  {
    assert Opened(Console, 0);
    var out' := Handed(out, emit, hi');
    assert forall s :: s in out' <==> s in out || (s == hi' - 1 && emit);
  }

  type Liner = (Record, nat) -> seq<Byte>

  /** `line` is `Line`. The trigger keeps the definition out of the loop's proof. */
  ghost predicate Prints(lay: Layout, c: Config, line: Liner) {
    var held := forall rec, gap {:trigger Line(lay, c, rec, gap)} :: line(rec, gap) == Line(lay, c, rec, gap);
    held
  }

  /** The i-th text is the record `out[i]`, behind a line for those lost before it. */
  ghost predicate Lined(line: Liner, r: Ring, out: seq<nat>, gaps: seq<nat>, texts: seq<seq<Byte>>) {
    forall k {:trigger Opened(Console, k)} :: Opened(Console, k) ==>
      && |texts| == |out| == |gaps|
      && forall i :: 0 <= i < |out| ==> out[i] < |r.hist| && texts[i] == line(r.hist[out[i]], gaps[i])
  }

  lemma LinedLater(line: Liner, r: Ring, r': Ring, out: seq<nat>, gaps: seq<nat>, texts: seq<seq<Byte>>)
    requires Lined(line, r, out, gaps, texts) && Extends(r, r')
    ensures Lined(line, r', out, gaps, texts)
  {
    assert Opened(Console, 0);
  }

  lemma LinedStep(line: Liner, r: Ring, out: seq<nat>, gaps: seq<nat>, texts: seq<seq<Byte>>,
                  emit: bool, hi': nat, gap: nat, text: seq<Byte>)
    requires Lined(line, r, out, gaps, texts)
    requires emit ==> 0 < hi' <= |r.hist| && text == line(r.hist[hi' - 1], gap)
    ensures Lined(line, r, Handed(out, emit, hi'), if emit then gaps + [gap] else gaps,
                  if emit then texts + [text] else texts)
  {
    assert Opened(Console, 0);
    if emit {
      var out', gaps', texts' := out + [hi' - 1], gaps + [gap], texts + [text];
      forall i | 0 <= i < |out'|
        ensures out'[i] < |r.hist| && texts'[i] == line(r.hist[out'[i]], gaps'[i])
      {
        if i < |out| {
          assert out'[i] == out[i] && gaps'[i] == gaps[i] && texts'[i] == texts[i];
        }
      }
      assert Lined(line, r, out', gaps', texts');
    }
  }

  /** Where the console stands once it has handed over `out`. */
  function Passed(lo: nat, out: seq<nat>): nat {
    if out == [] then lo else out[|out| - 1] + 1
  }

  /** From `p` to the record `e` first come `gap` evicted records, then suppressed ones. */
  predicate Skipped(c: Config, r: Ring, p: nat, gap: nat, e: nat) {
    && p + gap <= e <= |r.hist|
    && (gap > 0 ==> p + gap <= r.first)
    && (forall s :: p + gap <= s < e ==> Suppressed(c, r.hist[s]))
  }

  /** `gaps[i]` is the number of evicted records before `out[i]`. */
  ghost predicate Explained(c: Config, r: Ring, lo: nat, out: seq<nat>, gaps: seq<nat>) {
    forall k {:trigger Opened(Console, k)} :: Opened(Console, k) ==>
      && |gaps| == |out|
      && forall i :: 0 <= i < |out| ==> Skipped(c, r, Passed(lo, out[..i]), gaps[i], out[i])
  }

  lemma ExplainedLater(c: Config, r: Ring, r': Ring, lo: nat, out: seq<nat>, gaps: seq<nat>)
    requires Explained(c, r, lo, out, gaps) && Extends(r, r')
    ensures Explained(c, r', lo, out, gaps)
  {
    assert Opened(Console, 0);
    forall i | 0 <= i < |out|
      ensures Skipped(c, r', Passed(lo, out[..i]), gaps[i], out[i])
    {
      assert Skipped(c, r, Passed(lo, out[..i]), gaps[i], out[i]);
    }
    assert Explained(c, r', lo, out, gaps);
  }

  lemma PicksSkipped(c: Config, r: Ring, hi: nat, hi': nat)
    requires Picks(c, r, hi, true, hi')
    ensures hi' > 0 && Skipped(c, r, hi, Gap(r, hi), hi' - 1)
  {
    assert Opened(Console, 0);
  }

  lemma ExplainedStep(c: Config, r: Ring, lo: nat, out: seq<nat>, gaps: seq<nat>, emit: bool, hi': nat)
    requires Explained(c, r, lo, out, gaps) && Picks(c, r, Passed(lo, out), emit, hi')
    ensures Explained(c, r, lo, Handed(out, emit, hi'), if emit then gaps + [Gap(r, Passed(lo, out))] else gaps)
    ensures emit ==> hi' == Passed(lo, Handed(out, emit, hi'))
  {
    assert Opened(Console, 0);
    if emit {
      PicksSkipped(c, r, Passed(lo, out), hi');
      var out', gaps' := out + [hi' - 1], gaps + [Gap(r, Passed(lo, out))];
      forall i | 0 <= i < |out'|
        ensures Skipped(c, r, Passed(lo, out'[..i]), gaps'[i], out'[i])
      {
        if i < |out| {
          assert out'[..i] == out[..i] && out'[i] == out[i] && gaps'[i] == gaps[i];
          assert Skipped(c, r, Passed(lo, out[..i]), gaps[i], out[i]);
        } else {
          assert out'[..i] == out;
        }
      }
      assert Explained(c, r, lo, out', gaps');
    }
  }

  /** Both, of what was handed over since the console stood at `lo`. */
  ghost predicate Reported(c: Config, line: Liner, r: Ring, lo: nat, out: seq<nat>,
                           gaps: seq<nat>, texts: seq<seq<Byte>>)
  {
    Lined(line, r, out, gaps, texts) && Explained(c, r, lo, out, gaps)
  }

  lemma ReportedLater(c: Config, line: Liner, r: Ring, r': Ring, lo: nat, out: seq<nat>,
                      gaps: seq<nat>, texts: seq<seq<Byte>>)
    requires Reported(c, line, r, lo, out, gaps, texts) && Extends(r, r')
    ensures Reported(c, line, r', lo, out, gaps, texts)
  {
    LinedLater(line, r, r', out, gaps, texts);
    ExplainedLater(c, r, r', lo, out, gaps);
  }

  /** The record and the text that go to the drivers, if any. */
  ghost predicate Sent(c: Config, line: Liner, r: Ring, hi: nat, emit: bool, hi': nat, text: seq<Byte>) {
    forall k {:trigger Opened(Console, k)} :: Opened(Console, k) ==>
      && Picks(c, r, hi, emit, hi')
      && (emit ==> 0 < hi' <= |r.hist| && text == line(r.hist[hi' - 1], Gap(r, hi)))
  }

  lemma SentIs(c: Config, line: Liner, r: Ring, hi: nat, emit: bool, hi': nat, text: seq<Byte>)
    requires Sent(c, line, r, hi, emit, hi', text)
    ensures Picks(c, r, hi, emit, hi')
    ensures emit ==> 0 < hi' <= |r.hist| && text == line(r.hist[hi' - 1], Gap(r, hi))
  {
    assert Opened(Console, 0);
  }

  /** What one section under logbuf_lock and the driver call behind it add. */
  lemma HandOverStep(c: Config, line: Liner, r: Ring, lo: nat, hi: nat, out: seq<nat>, gaps: seq<nat>,
                     texts: seq<seq<Byte>>, emit: bool, hi': nat, text: seq<Byte>)
    requires Accounted(c, r, lo, hi, out) && lo <= hi == Passed(lo, out)
    requires Reported(c, line, r, lo, out, gaps, texts) && Sent(c, line, r, hi, emit, hi', text)
    ensures var out' := Handed(out, emit, hi');
            && Accounted(c, r, lo, hi', out') && (emit ==> hi' == Passed(lo, out'))
            && Reported(c, line, r, lo, out', if emit then gaps + [Gap(r, hi)] else gaps,
                        if emit then texts + [text] else texts)
  {
    SentIs(c, line, r, hi, emit, hi', text);
    AccountedStep(c, r, lo, hi, out, emit, hi');
    LinedStep(line, r, out, gaps, texts, emit, hi', Gap(r, hi), text);
    ExplainedStep(c, r, lo, out, gaps, emit, hi');
  }

  class ConsoleReader {
    const log: LogBuffer
    var seqNo: nat  // console_seq, console_idx
    var idx: nat

    ghost predicate Valid()
      reads this, log
    {
      log.Cursor(seqNo, idx) && seqNo <= log.ring.Next()
    }

    constructor (log: LogBuffer)
      requires log.Valid()
      ensures Valid() && this.log == log && seqNo == log.firstSeq
    {
      this.log := log;
      seqNo, idx := log.firstSeq, log.firstIdx;
    }

    /** "messages are gone, move to first one" */
    method CatchUp() returns (gap: nat)
      requires log.Valid() && Valid()
      modifies this
      ensures Valid() && seqNo == Max(old(seqNo), log.firstSeq) && gap == Gap(log.ring, old(seqNo))
    {
      gap := 0;
      if seqNo < log.firstSeq {
        gap := log.firstSeq - seqNo;
        seqNo, idx := log.firstSeq, log.firstIdx;
      }
    }

    method Pass()
      requires log.Valid() && Valid() && log.firstSeq <= seqNo < log.nextSeq
      modifies this
      ensures Valid() && seqNo == old(seqNo) + 1
    {
      idx := log.LogNext(idx, seqNo);
      seqNo := seqNo + 1;
    }

    /** The code's `skip:` loop and the advance behind it; `rec` is the record it
        stops at. */
    method NextShown(c: Config) returns (emit: bool, rec: Record)
      requires log.Valid() && Valid() && log.firstSeq <= seqNo
      modifies this
      ensures Valid() && old(seqNo) <= seqNo
      ensures PicksFrom(c, log.ring.hist, old(seqNo), emit, seqNo)
      ensures emit ==> seqNo > old(seqNo) && rec == log.ring.hist[seqNo - 1]
    {
      rec := Record(0, 0, 0, 0, 0, [], []);
      emit := false;
      while seqNo != log.nextSeq
        invariant Valid() && old(seqNo) <= seqNo
        invariant Shown(c, log.ring.hist, seqNo) == Shown(c, log.ring.hist, old(seqNo))
        decreases log.nextSeq - seqNo
      {
        rec := log.LogFromIdx(idx, seqNo);
        Pass();
        if !Suppressed(c, rec) {
          emit := true;
          break;
        }
      }
    }

    /** From taking logbuf_lock to releasing it: a step `Take` of the protocol,
        which suppresses exactly the records the level asks for. */
    method PickNext(c: Config) returns (emit: bool, rec: Record, gap: nat)
      requires log.Valid() && Valid()
      modifies this
      ensures Valid() && old(seqNo) <= seqNo && (emit ==> old(seqNo) < seqNo)
      ensures Picks(c, log.ring, old(seqNo), emit, seqNo)
      ensures emit ==> rec == log.ring.hist[seqNo - 1] && (c.ignore || rec.level < c.loglevel)
      ensures forall s :: Max(old(seqNo), log.firstSeq) <= s < (if emit then seqNo - 1 else seqNo) ==>
                !c.ignore && log.ring.hist[s].level >= c.loglevel
      ensures gap == Gap(log.ring, old(seqNo))
    {
      gap := CatchUp();
      emit, rec := NextShown(c);
    }

    /** logbuf_lock is not held: `ops` happen to the log. */
    method Unlocked(ops: seq<Op>)
      requires log.Valid() && Valid() && RuntimeOps(ops)
      modifies log, log.mem
      ensures log.Valid() && Valid() && log.mem == old(log.mem)
      ensures Extends(old(log.ring), log.ring) && Ran(old(log.ring), ops, log.ring)
    {
      Interfere(log, ops);
    }

    /** `out` are the records handed to the drivers since the console stood at `lo`. */
    ghost predicate Accounts(c: Config, lo: nat, out: seq<nat>)
      reads this, log, log.mem
    {
      log.Valid() && Valid() && lo <= seqNo && Accounted(c, log.ring, lo, seqNo, out)
    }

    method Wait(c: Config, ops: seq<Op>, ghost lo: nat, ghost out: seq<nat>)
      requires Accounts(c, lo, out) && RuntimeOps(ops)
      modifies log, log.mem
      ensures Accounts(c, lo, out) && log.mem == old(log.mem) && seqNo == old(seqNo)
      ensures Extends(old(log.ring), log.ring) && (ops == [] ==> log.nextSeq == old(log.nextSeq))
      ensures Ran(old(log.ring), ops, log.ring)
    {
      ghost var r := log.ring;
      RanNothing(r);
      if ops != [] {
        Unlocked(ops);
        AccountedLater(c, r, log.ring, lo, seqNo, out);
      }
    }

    method PrintNext(c: Config, ghost line: Liner) returns (emit: bool, text: seq<Byte>, gap: nat)
      requires log.Valid() && Valid() && Prints(log.lay, c, line)
      modifies this
      ensures Valid() && old(seqNo) <= seqNo && log.ring == old(log.ring)
      ensures Sent(c, line, log.ring, old(seqNo), emit, seqNo, text) && gap == Gap(log.ring, old(seqNo))
      ensures if emit then seqNo > old(seqNo) else seqNo == log.nextSeq
    {
      var rec;
      emit, rec, gap := PickNext(c);
      text := [];
      if emit {
        text := PrintLine(log.lay, c, line, rec, gap);
      }
    }

    method HandOver(c: Config, ghost lo: nat, ghost line: Liner, ghost gaps: seq<nat>,
                    out: seq<nat>, texts: seq<seq<Byte>>)
      returns (emit: bool, out': seq<nat>, texts': seq<seq<Byte>>, ghost gaps': seq<nat>)
      requires Accounts(c, lo, out) && Prints(log.lay, c, line) && seqNo == Passed(lo, out)
      requires Reported(c, line, log.ring, lo, out, gaps, texts)
      modifies this
      ensures Accounts(c, lo, out') && log.ring == old(log.ring)
      ensures if emit then seqNo > old(seqNo) && seqNo == Passed(lo, out') else seqNo == log.nextSeq
      ensures Reported(c, line, log.ring, lo, out', gaps', texts')
    {
      ghost var hi, r := seqNo, log.ring;
      var text, gap;
      emit, text, gap := PrintNext(c, line);
      HandOverStep(c, line, r, lo, hi, out, gaps, texts, emit, seqNo, text);
      out' := Handed(out, emit, seqNo);
      texts', gaps' := if emit then texts + [text] else texts, if emit then gaps + [gap] else gaps;
    }

    /** The console, at `lo` when the log was `r0`, has handed over `out` in `n` turns. */
    ghost predicate Flushing(c: Config, line: Liner, ws: seq<seq<Op>>, r0: Ring, lo: nat, out: seq<nat>,
                             gaps: seq<nat>, texts: seq<seq<Byte>>, n: nat)
      reads this, log, log.mem
    {
      forall k {:trigger Opened(ConsoleLoop, k)} :: Opened(ConsoleLoop, k) ==>
        && Accounts(c, lo, out) && Reported(c, line, log.ring, lo, out, gaps, texts)
        && Ran(r0, Happened(ws, n), log.ring)
    }

    /** One turn of the loop. */
    method FlushTurn(c: Config, ghost line: Liner, ws: seq<seq<Op>>, k: nat, ghost r0: Ring, ghost lo: nat,
                     out: seq<nat>, texts: seq<seq<Byte>>, ghost gaps: seq<nat>)
      returns (emit: bool, out': seq<nat>, texts': seq<seq<Byte>>, ghost gaps': seq<nat>)
      requires Prints(log.lay, c, line) && forall i :: 0 <= i < |ws| ==> RuntimeOps(ws[i])
      requires Flushing(c, line, ws, r0, lo, out, gaps, texts, k) && seqNo == Passed(lo, out)
      modifies this, log, log.mem
      ensures log.mem == old(log.mem) && Flushing(c, line, ws, r0, lo, out', gaps', texts', k + 1)
      ensures if emit then seqNo == Passed(lo, out') > old(seqNo) else seqNo == log.nextSeq
      ensures seqNo <= log.nextSeq && (k >= |ws| ==> log.nextSeq == old(log.nextSeq))
    {
      assert Opened(ConsoleLoop, 0);
      ghost var r := log.ring;
      Wait(c, WindowAt(ws, k), lo, out);
      RanWindow(r0, ws, k, r, log.ring);
      ReportedLater(c, line, r, log.ring, lo, out, gaps, texts);
      emit, out', texts', gaps' := HandOver(c, lo, line, gaps, out, texts);
    }

    lemma FlushBegins(c: Config, line: Liner, ws: seq<seq<Op>>)
      requires log.Valid() && Valid()
      ensures Flushing(c, line, ws, log.ring, seqNo, [], [], [], 0)
    {
      RanNothing(log.ring);
    }

    lemma FlushEnds(c: Config, line: Liner, ws: seq<seq<Op>>, r0: Ring, lo: nat, out: seq<nat>,
                    gaps: seq<nat>, texts: seq<seq<Byte>>, n: nat)
      requires Flushing(c, line, ws, r0, lo, out, gaps, texts, n)
      ensures Accounts(c, lo, out) && Reported(c, line, log.ring, lo, out, gaps, texts)
      ensures ByLevel(c, log.ring, lo, seqNo, out)
      ensures Ran(r0, Happened(ws, n), log.ring) && (ws == [] ==> log.ring == r0)
    {
      assert Opened(ConsoleLoop, 0);
      AccountedByLevel(c, log.ring, lo, seqNo, out);
      if ws == [] {
        RanQuiet(r0, n, log.ring);
      }
    }

    /** The loop of console_unlock while no one waits for the lock: `ws[i]` is
        what happens to the log before the lock is taken for the i-th time, and
        nothing else does. The console ends level with the log, and what it passed
        was handed over once each and in order, is suppressed, or is gone; the
        number in each line about dropped messages is that of the evicted records
        just before. */
    method Flush(c: Config, ghost line: Liner, ws: seq<seq<Op>>)
      returns (out: seq<nat>, texts: seq<seq<Byte>>, ghost gaps: seq<nat>, ghost n: nat)
      requires log.Valid() && Valid()
      requires Prints(log.lay, c, line) && forall i :: 0 <= i < |ws| ==> RuntimeOps(ws[i])
      modifies this, log, log.mem
      ensures seqNo == log.nextSeq && Accounts(c, old(seqNo), out)
      ensures Reported(c, line, log.ring, old(seqNo), out, gaps, texts)
      ensures ByLevel(c, log.ring, old(seqNo), seqNo, out)
      ensures Ran(old(log.ring), Happened(ws, n), log.ring)
      ensures ws == [] ==> log.ring == old(log.ring)
    {
      var emit, k := true, 0;
      ghost var lo, r0 := seqNo, log.ring;
      FlushBegins(c, line, ws);
      out, texts, gaps, n := [], [], [], 0;
      while emit
        invariant log.mem == old(log.mem) && n == k && seqNo <= log.nextSeq
        invariant Flushing(c, line, ws, r0, lo, out, gaps, texts, k)
        invariant if emit then seqNo == Passed(lo, out) else seqNo == log.nextSeq
        decreases Max(|ws| - k, 0), log.nextSeq - seqNo, emit
      {
        emit, out, texts, gaps := FlushTurn(c, line, ws, k, r0, lo, out, texts, gaps);
        k, n := k + 1, n + 1;
      }
      FlushEnds(c, line, ws, r0, lo, out, gaps, texts, n);
    }
  }

  method PrintLine(lay: Layout, c: Config, ghost line: Liner, rec: Record, gap: nat) returns (text: seq<Byte>)
    requires Prints(lay, c, line)
    ensures text == line(rec, gap)
  {
    var n;
    text, n := MsgPrintText(lay, rec, c.syslog, c.time, Buffer(Left(lay, gap)));
    text := DroppedLine(gap) + text;
    assert text == Line(lay, c, rec, gap);
  }

  /** What PickNext does is the step `Take` of the console lock protocol, and one
      that `Pick` allows there: the count of dropped messages and what becomes of
      each record are those of the protocol. */
  lemma PickIsTake(c: Config, r: Ring, l: ConsoleLock.Log, emit: bool, hi': nat)
    requires l.first == r.first && l.next == |r.hist| && l.conSeq == |l.fate|
    requires Picks(c, r, l.conSeq, emit, hi')
    ensures var from := Max(l.conSeq, l.first);
            var skip := hi' - from - (if emit then 1 else 0);
            && skip >= 0
            && (forall s: ConsoleLock.State, t: nat ::
                  s.log == l && t < |s.pc| && s.pc[t].Looping? ==>
                    ConsoleLock.Enabled(s, ConsoleLock.Pick(t, skip, emit)))
            && var l' := ConsoleLock.Take(l, skip, emit);
               && l'.conSeq == hi'
               && l'.gaps == l.gaps + Gap(r, l.conSeq)
               && l'.fate[..l.conSeq] == l.fate
               && (emit ==> l'.fate[hi' - 1] == ConsoleLock.Printed)
               && (forall s :: l.conSeq <= s < hi' ==>
                     (l'.fate[s] == ConsoleLock.Dropped <==> s < r.first))
               && (forall s :: from <= s < hi' ==>
                     (l'.fate[s] == ConsoleLock.Suppressed <==> !c.ignore && r.hist[s].level >= c.loglevel))
  {
    assert Opened(Console, 0);
  }
}
