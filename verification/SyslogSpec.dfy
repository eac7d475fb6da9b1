/** What the syslog(2) reader does, as functions of the log it sees: resumable
    reads with anything going on between two looks at the log, and the unread
    count. */
module SyslogSpec {
  import opened Bytes
  import opened LogRecord
  import opened LineFormat
  import opened Printing

  /** syslog_seq, syslog_partial and syslog_time */
  datatype Reader = Reader(s: nat, partial: nat, time: bool)

  /** What one look at the log under its lock sees: log_first_seq, every record
      stored so far, and the current value of the printk_time parameter. */
  datatype World = World(first: nat, hist: seq<Record>, now: bool)

  /** `w'` is `w` some time later. */
  predicate Later(w: World, w': World) {
    w.hist <= w'.hist && w.first <= w'.first
  }

  /** The log as it was before a read and as each turn of the read saw it. */
  datatype Seen = Start(w: World) | More(before: Seen, w: World) {
    function First(): World {
      if Start? then w else before.First()
    }

    ghost predicate Flow() {
      w.first <= |w.hist| && (More? ==> before.Flow() && Later(before.w, w))
    }
  }

  /** A part of the current record was delivered, and the rest of it was not. */
  ghost predicate Ok(p: Printer, hist: seq<Record>, rd: Reader) {
    && rd.s <= |hist|
    && (rd.partial > 0 ==> rd.s < |hist| && rd.partial < |p.line(hist[rd.s], rd.time)|)
  }

  // ---- reading ----

  /** "messages are gone, move to first one" */
  function Resync(first: nat, rd: Reader): Reader {
    if rd.s < first then Reader(first, 0, rd.time) else rd
  }

  /** "use printk_time value as of the beginning of a line" */
  function Setting(rd: Reader, now: bool): bool {
    if rd.partial == 0 then now else rd.time
  }

  /** One turn of the loop in `syslog_print` at a record that gives `text`: the
      rest of it if it fits, else as much as fits if nothing has been copied yet,
      else nothing. */
  function Cut(rd: Reader, t: bool, text: seq<Byte>, left: nat, first: bool): (Reader, seq<Byte>)
    requires rd.partial <= |text|
  {
    if |text| - rd.partial <= left then (Reader(rd.s + 1, 0, t), text[rd.partial..])
    else if first then (Reader(rd.s, rd.partial + left, t), text[rd.partial..rd.partial + left])
    else (rd.(time := t), [])
  }

  ghost function Turn(p: Printer, hist: seq<Record>, now: bool, rd: Reader, left: nat, first: bool)
    : (r: (Reader, seq<Byte>))
    requires Ok(p, hist, rd)
    ensures Ok(p, hist, r.0) && |r.1| <= left
    ensures rd.s <= r.0.s
  {
    if rd.s == |hist| then (rd, [])
    else
      var t := Setting(rd, now);
      Cut(rd, t, p.line(hist[rd.s], t), left, first)
  }

  /** The reader after some reading, whether records were lost on the way, and
      what was copied. */
  datatype Outcome = Outcome(rd: Reader, lost: bool, out: seq<Byte>)

  lemma OkLater(p: Printer, w: World, w': World, rd: Reader)
    requires Ok(p, w.hist, rd) && Later(w, w') && w'.first <= |w'.hist|
    ensures Ok(p, w'.hist, rd) && Ok(p, w'.hist, Resync(w'.first, rd))
  {
  }

  /** One look at the log: catch up if records are gone, then one turn. */
  ghost function Look(p: Printer, w: World, rd: Reader, left: nat, first: bool): (o: Outcome)
    requires Ok(p, w.hist, rd) && w.first <= |w.hist|
    ensures Ok(p, w.hist, o.rd) && rd.s <= o.rd.s && |o.out| <= left
  {
    OkLater(p, w, w, rd);
    var t := Turn(p, w.hist, w.now, Resync(w.first, rd), left, first);
    Outcome(t.0, rd.s < w.first, t.1)
  }

  /** One look takes the reader from `rd` to `rd'` and copies `chunk`. */
  ghost predicate Looked(p: Printer, w: World, rd: Reader, left: nat, first: bool, rd': Reader, chunk: seq<Byte>) {
    forall k {:trigger Opened(OneLook, k)} :: Opened(OneLook, k) ==>
      && Ok(p, w.hist, rd) && w.first <= |w.hist|
      && Look(p, w, rd, left, first).rd == rd' && Look(p, w, rd, left, first).out == chunk
  }

  function Then(o: Outcome, o': Outcome): Outcome {
    Outcome(o'.rd, o.lost || o'.lost, o.out + o'.out)
  }

  /** What one more look adds to a read that has got as far as `o`. */
  ghost function Next(p: Printer, w: World, size: nat, o: Outcome): (o': Outcome)
    requires Ok(p, w.hist, o.rd) && w.first <= |w.hist| && |o.out| <= size
    ensures Ok(p, w.hist, o'.rd) && o.rd.s <= o'.rd.s && |o'.out| <= size
  {
    Then(o, Look(p, w, o.rd, size - |o.out|, o.out == []))
  }

  /** `syslog_print`: turns that see the log as `seen`, one after the other. No
      read copies more than its size, whatever happens meanwhile, and it leaves
      the reader at a sound position that is no earlier. */
  ghost function Print(p: Printer, seen: Seen, rd: Reader, size: nat): (o: Outcome)
    requires seen.Flow() && Ok(p, seen.First().hist, rd)
    ensures Ok(p, seen.w.hist, o.rd) && rd.s <= o.rd.s && |o.out| <= size
  {
    match seen
    case Start(_) => Outcome(rd, false, [])
    case More(before, w) =>
      var o := Print(p, before, rd, size);
      OkLater(p, before.w, w, o.rd);
      Next(p, w, size, o)
  }

  /** A read by turns that saw `seen`, now `w`, has got to `rd` and copied `out`. */
  ghost predicate Printed(p: Printer, seen: Seen, rd0: Reader, size: nat, w: World, rd: Reader, out: seq<Byte>) {
    forall k {:trigger Opened(OneRead, k)} :: Opened(OneRead, k) ==>
      && seen.Flow() && seen.w == w && Ok(p, seen.First().hist, rd0)
      && Print(p, seen, rd0, size).rd == rd && Print(p, seen, rd0, size).out == out
  }

  lemma PrintedIs(p: Printer, seen: Seen, rd0: Reader, size: nat, w: World, rd: Reader, out: seq<Byte>)
    requires Printed(p, seen, rd0, size, w, rd, out)
    ensures seen.Flow() && seen.w == w && Ok(p, seen.First().hist, rd0)
    ensures Print(p, seen, rd0, size).rd == rd && Print(p, seen, rd0, size).out == out
    ensures Ok(p, w.hist, rd) && |out| <= size
  {
    assert Opened(OneRead, 0);
  }

  lemma PrintedNothing(p: Printer, w: World, rd: Reader, size: nat)
    requires Ok(p, w.hist, rd) && w.first <= |w.hist|
    ensures Printed(p, Start(w), rd, size, w, rd, [])
  {
  }

  lemma PrintedMore(p: Printer, seen: Seen, rd0: Reader, size: nat, w: World, rd: Reader, out: seq<Byte>,
                    w': World, rd': Reader, chunk: seq<Byte>)
    requires Printed(p, seen, rd0, size, w, rd, out) && Later(w, w') && |out| <= size
    requires Looked(p, w', rd, size - |out|, out == [], rd', chunk)
    ensures Printed(p, More(seen, w'), rd0, size, w', rd', out + chunk) && |out + chunk| <= size
  {
    PrintedIs(p, seen, rd0, size, w, rd, out);
    LookedIs(p, w', rd, size - |out|, out == [], rd', chunk);
    OkLater(p, w, w', rd);
    var o, l := Print(p, seen, rd0, size), Look(p, w', rd, size - |out|, out == []);
    assert Print(p, More(seen, w'), rd0, size) == Then(o, l);
    assert Then(o, l).rd == rd' && Then(o, l).out == out + chunk;
  }

  lemma LookedIs(p: Printer, w: World, rd: Reader, left: nat, first: bool, rd': Reader, chunk: seq<Byte>)
    requires Looked(p, w, rd, left, first, rd', chunk)
    ensures Ok(p, w.hist, rd) && w.first <= |w.hist| && |chunk| <= left
    ensures Look(p, w, rd, left, first).rd == rd' && Look(p, w, rd, left, first).out == chunk
  {
    assert Opened(OneLook, 0);
  }

  /** One look: the reader goes on where it stopped or, if that record is gone, with
      the oldest there is. A record is printed with the setting of the moment its
      first byte is copied, it is passed exactly if the rest of it fits, and if not
      the room is filled, or nothing is copied if something else was before. */
  lemma LookSays(p: Printer, w: World, rd: Reader, left: nat, first: bool)
    requires Ok(p, w.hist, rd) && w.first <= |w.hist|
    ensures var o, lost := Look(p, w, rd, left, first), rd.s < w.first;
            var s, partial := if lost then w.first else rd.s, if lost then 0 else rd.partial;
            && o.lost == lost
            && if s == |w.hist| then o.out == [] && o.rd.s == s && o.rd.partial == 0 else
               var t := if partial > 0 then rd.time else w.now;
               var rest := p.line(w.hist[s], t)[partial..];
               && o.out <= rest
               && (if |rest| <= left then o.out == rest && (o.rd.s, o.rd.partial) == (s + 1, 0)
                   else |o.out| == (if first then left else 0) && (o.rd.s, o.rd.partial) == (s, partial + |o.out|))
               && (o.rd.partial > 0 ==> o.rd.time == t)
  {
  }

  /** If a record is split, the read is full, and all of it belongs to that record. */
  predicate SplitFills(o: Outcome, size: nat) {
    o.rd.partial > 0 && o.out != [] ==> |o.out| == size && |o.out| <= o.rd.partial
  }

  lemma LookSplits(p: Printer, w: World, o: Outcome, size: nat)
    requires Ok(p, w.hist, o.rd) && w.first <= |w.hist| && |o.out| <= size && SplitFills(o, size)
    ensures SplitFills(Next(p, w, size, o), size)
  {
  }

  /** A record is split only by a read that has copied nothing else, and then the
      read is filled: what it copied belongs to the record the reader stands in. */
  lemma {:induction false} SplitsAlone(p: Printer, seen: Seen, rd: Reader, size: nat)
    requires seen.Flow() && Ok(p, seen.First().hist, rd)
    ensures SplitFills(Print(p, seen, rd, size), size)
    decreases seen
  {
    if seen.More? {
      SplitsAlone(p, seen.before, rd, size);
      var o := Print(p, seen.before, rd, size);
      OkLater(p, seen.before.w, seen.w, o.rd);
      LookSplits(p, seen.w, o, size);
      assert Print(p, seen, rd, size) == Next(p, seen.w, size, o);
    }
  }

  // ---- the stream of delivered bytes ----

  /** `l` is the record as the line buffer takes it, with one or the other
      timestamp setting. */
  ghost predicate IsLine(p: Printer, rec: Record, l: seq<Byte>) {
    exists t :: l == p.line(rec, t)
  }

  function Flatten(ls: seq<seq<Byte>>): seq<Byte> {
    if ls == [] then [] else Flatten(ls[..|ls| - 1]) + ls[|ls| - 1]
  }

  lemma FlattenPush(ls: seq<seq<Byte>>, l: seq<Byte>)
    ensures Flatten(ls + [l]) == Flatten(ls) + l
  {
    assert (ls + [l])[..|ls|] == ls;
  }

  ghost predicate LinesOf(p: Printer, hist: seq<Record>, from: nat, lines: seq<seq<Byte>>) {
    && from + |lines| <= |hist|
    && forall i :: 0 <= i < |lines| ==> IsLine(p, hist[from + i], lines[i])
  }

  /** The part of the current record already delivered. */
  ghost function Begun(p: Printer, hist: seq<Record>, rd: Reader): seq<Byte>
    requires Ok(p, hist, rd)
  {
    if rd.partial == 0 then [] else p.line(hist[rd.s], rd.time)[..rd.partial]
  }

  /** The bytes `stream` are the records from `from` on, in order and each once,
      up to a point strictly inside the record the reader stands at. */
  ghost predicate Told(p: Printer, hist: seq<Record>, from: nat, rd: Reader, stream: seq<Byte>,
                       lines: seq<seq<Byte>>)
  {
    var held := Ok(p, hist, rd) && LinesOf(p, hist, from, lines) && from + |lines| == rd.s
                && stream == Flatten(lines) + Begun(p, hist, rd);
    held
  }

  lemma ToldGrows(p: Printer, hist: seq<Record>, hist': seq<Record>, from: nat, rd: Reader,
                  stream: seq<Byte>, lines: seq<seq<Byte>>)
    requires Told(p, hist, from, rd, stream, lines) && hist <= hist'
    ensures Told(p, hist', from, rd, stream, lines)
  {
    forall i | 0 <= i < |lines|
      ensures IsLine(p, hist'[from + i], lines[i])
    {
      assert hist'[from + i] == hist[from + i];
    }
  }

  /** One turn delivers the next bytes of the stream. */
  lemma TurnTells(p: Printer, hist: seq<Record>, now: bool, rd: Reader, left: nat, first: bool,
                  from: nat, stream: seq<Byte>, lines: seq<seq<Byte>>) returns (lines': seq<seq<Byte>>)
    requires Told(p, hist, from, rd, stream, lines)
    ensures var t := Turn(p, hist, now, rd, left, first); Told(p, hist, from, t.0, stream + t.1, lines')
  {
    var t := Turn(p, hist, now, rd, left, first);
    lines' := lines;
    if rd.s == |hist| {
      assert stream + t.1 == stream;
    } else {
      var text := p.line(hist[rd.s], Setting(rd, now));
      assert Begun(p, hist, rd) == text[..rd.partial];
      if |text| - rd.partial <= left {
        assert text[..rd.partial] + text[rd.partial..] == text;
        Assoc(Flatten(lines), text[..rd.partial], text[rd.partial..]);
        FlattenPush(lines, text);
        lines' := lines + [text];
        assert stream + t.1 == Flatten(lines');
        assert IsLine(p, hist[rd.s], text);
        LinesPush(p, hist, from, lines, text);
        assert Begun(p, hist, t.0) == [];
      } else {
        var n := if first then left else 0;
        assert text[..rd.partial] + text[rd.partial..rd.partial + n] == text[..rd.partial + n];
        Assoc(Flatten(lines), text[..rd.partial], text[rd.partial..rd.partial + n]);
        assert t.1 == text[rd.partial..rd.partial + n];
        assert Begun(p, hist, t.0) == text[..rd.partial + n];
      }
    }
  }

  lemma LinesPush(p: Printer, hist: seq<Record>, from: nat, lines: seq<seq<Byte>>, text: seq<Byte>)
    requires LinesOf(p, hist, from, lines) && from + |lines| < |hist|
    requires IsLine(p, hist[from + |lines|], text)
    ensures LinesOf(p, hist, from, lines + [text])
  {
    var ls := lines + [text];
    forall i | 0 <= i < |ls|
      ensures IsLine(p, hist[from + i], ls[i])
    {
      assert i < |lines| ==> ls[i] == lines[i];
    }
  }

  /** What was delivered: something `early`, and since the last loss of records the
      `stream` of those from `from` on. */
  datatype Tale = Tale(from: nat, early: seq<Byte>, stream: seq<Byte>, lines: seq<seq<Byte>>)

  ghost predicate Tells(p: Printer, hist: seq<Record>, rd: Reader, out: seq<Byte>, t: Tale) {
    && Ok(p, hist, rd)
    && forall k {:trigger Opened(Delivered, k)} :: Opened(Delivered, k) ==>
         Told(p, hist, t.from, rd, t.stream, t.lines) && out == t.early + t.stream
  }

  lemma TellsGrows(p: Printer, hist: seq<Record>, hist': seq<Record>, rd: Reader, out: seq<Byte>, t: Tale)
    requires Tells(p, hist, rd, out, t) && hist <= hist'
    ensures Tells(p, hist', rd, out, t)
  {
    assert Opened(Delivered, 0);
    ToldGrows(p, hist, hist', t.from, rd, t.stream, t.lines);
  }

  /** The next tale: the same stream goes on, or after a loss one begins later. */
  predicate GoesOn(t: Tale, t': Tale, lost: bool) {
    var held := t.from <= t'.from && (!lost ==> t'.from == t.from && t'.early == t.early);
    held
  }

  lemma LookTells(p: Printer, w: World, rd: Reader, left: nat, first: bool, rd': Reader, chunk: seq<Byte>,
                  out: seq<Byte>, t: Tale) returns (t': Tale)
    requires Tells(p, w.hist, rd, out, t) && Looked(p, w, rd, left, first, rd', chunk)
    ensures Tells(p, w.hist, rd', out + chunk, t') && GoesOn(t, t', rd.s < w.first)
    ensures rd.s < w.first ==> t'.from == w.first && t'.early == out
  {
    assert Opened(Delivered, 0) && Opened(OneLook, 0);
    if rd.s >= w.first {
      var lines := TurnTells(p, w.hist, w.now, rd, left, first, t.from, t.stream, t.lines);
      Assoc(t.early, t.stream, chunk);
      t' := Tale(t.from, t.early, t.stream + chunk, lines);
    } else {
      var rd1 := Resync(w.first, rd);
      assert Told(p, w.hist, w.first, rd1, [], []);
      var lines := TurnTells(p, w.hist, w.now, rd1, left, first, w.first, [], []);
      assert [] + chunk == chunk;
      t' := Tale(w.first, out, chunk, lines);
    }
  }

  lemma GoesOnTwice(t: Tale, t1: Tale, t2: Tale, lost: bool, lost': bool)
    requires GoesOn(t, t1, lost) && GoesOn(t1, t2, lost')
    ensures GoesOn(t, t2, lost || lost')
  {
  }

  /** One more turn of a read. */
  lemma NextTells(p: Printer, w0: World, w: World, size: nat, out: seq<Byte>, o: Outcome, t: Tale, t1: Tale)
    returns (t': Tale)
    requires Later(w0, w) && w.first <= |w.hist| && |o.out| <= size && Ok(p, w.hist, o.rd)
    requires Tells(p, w0.hist, o.rd, out + o.out, t1) && GoesOn(t, t1, o.lost)
    ensures var o' := Next(p, w, size, o); Tells(p, w.hist, o'.rd, out + o'.out, t') && GoesOn(t, t', o'.lost)
  {
    var o' := Next(p, w, size, o);
    var chunk := NextLook(p, w, size, o, o');
    t' := ThenTells(p, w0, w, o.rd, size - |o.out|, o.out == [], o'.rd, chunk, out, o, o', t, t1);
  }

  lemma NextLook(p: Printer, w: World, size: nat, o: Outcome, o': Outcome) returns (chunk: seq<Byte>)
    requires Ok(p, w.hist, o.rd) && w.first <= |w.hist| && |o.out| <= size && o' == Next(p, w, size, o)
    ensures Looked(p, w, o.rd, size - |o.out|, o.out == [], o'.rd, chunk)
    ensures o' == Outcome(o'.rd, o.lost || o.rd.s < w.first, o.out + chunk)
  {
    chunk := Look(p, w, o.rd, size - |o.out|, o.out == []).out;
  }

  lemma ThenTells(p: Printer, w0: World, w: World, rd: Reader, left: nat, first: bool, rd': Reader, chunk: seq<Byte>,
                  out: seq<Byte>, o: Outcome, o': Outcome, t: Tale, t1: Tale) returns (t': Tale)
    requires Later(w0, w) && Tells(p, w0.hist, rd, out + o.out, t1) && GoesOn(t, t1, o.lost)
    requires Looked(p, w, rd, left, first, rd', chunk) && o' == Outcome(rd', o.lost || rd.s < w.first, o.out + chunk)
    ensures Tells(p, w.hist, o'.rd, out + o'.out, t') && GoesOn(t, t', o'.lost)
  {
    TellsGrows(p, w0.hist, w.hist, rd, out + o.out, t1);
    t' := LookTells(p, w, rd, left, first, rd', chunk, out + o.out, t1);
    Assoc(out, o.out, chunk);
    GoesOnTwice(t, t1, t', o.lost, rd.s < w.first);
  }

  /** Resumable stream: a read continues the stream exactly where the last one
      stopped, or begins one anew if records were lost. */
  lemma {:induction false} PrintTells(p: Printer, seen: Seen, rd: Reader, size: nat, out: seq<Byte>, t: Tale)
    returns (t': Tale)
    requires seen.Flow() && Tells(p, seen.First().hist, rd, out, t)
    ensures var o := Print(p, seen, rd, size);
            Tells(p, seen.w.hist, o.rd, out + o.out, t') && GoesOn(t, t', o.lost)
    decreases seen
  {
    if seen.Start? {
      assert out + [] == out;
      return t;
    }
    var o := Print(p, seen.before, rd, size);
    OkLater(p, seen.before.w, seen.w, o.rd);
    assert Print(p, seen, rd, size) == Next(p, seen.w, size, o);
    var t1 := PrintTells(p, seen.before, rd, size, out, t);
    t' := NextTells(p, seen.before.w, seen.w, size, out, o, t, t1);
  }

  /** A reader's session: reads one after the other, with time going on within
      and between them. */
  datatype Session = Open(w: World, rd: Reader) | ReadCall(before: Session, size: nat, seen: Seen) {
    function End(): World {
      if Open? then w else seen.w
    }

    function From(): nat {
      if Open? then rd.s else before.From()
    }

    ghost predicate Valid(p: Printer) {
      match this
      case Open(w, rd) => Ok(p, w.hist, rd) && rd.partial == 0
      case ReadCall(before, _, seen) => before.Valid(p) && seen.Flow() && Later(before.End(), seen.First())
    }
  }

  lemma FirstSane(seen: Seen)
    requires seen.Flow()
    ensures seen.First().first <= |seen.First().hist|
  {
  }

  /** All outputs of a session, concatenated. */
  ghost function Reads(p: Printer, s: Session): (o: Outcome)
    requires s.Valid(p)
    ensures Ok(p, s.End().hist, o.rd)
  {
    match s
    case Open(_, rd) => Outcome(rd, false, [])
    case ReadCall(before, size, seen) =>
      var o := Reads(p, before);
      FirstSane(seen);
      OkLater(p, before.End(), seen.First(), o.rd);
      Then(o, Print(p, seen, o.rd, size))
  }

  /** For every session everything delivered since records were last lost is the
      records in order, each once, up to a point strictly inside the current one,
      however the reads are sized and printk_time is switched; if none was lost,
      that is everything. */
  lemma {:induction false} ReadsTell(p: Printer, s: Session) returns (t: Tale)
    requires s.Valid(p)
    ensures var o := Reads(p, s);
            && Tells(p, s.End().hist, o.rd, o.out, t) && s.From() <= t.from
            && (!o.lost ==> t.from == s.From() && t.early == [])
    decreases s
  {
    if s.Open? {
      assert Flatten([]) + Begun(p, s.w.hist, s.rd) == [];
      return Tale(s.From(), [], [], []);
    }
    var o := Reads(p, s.before);
    var t1 := ReadsTell(p, s.before);
    FirstSane(s.seen);
    TellsGrows(p, s.before.End().hist, s.seen.First().hist, o.rd, o.out, t1);
    t := PrintTells(p, s.seen, o.rd, s.size, o.out, t1);
  }

  /** ... so that it is a prefix of the formatted records. */
  lemma ReadsArePrefix(p: Printer, s: Session) returns (lines: seq<seq<Byte>>)
    requires s.Valid(p)
    ensures var o := Reads(p, s);
            !o.lost ==> LinesOf(p, s.End().hist, s.From(), lines) && o.out <= Flatten(lines)
  {
    var o := Reads(p, s);
    var hist := s.End().hist;
    var t := ReadsTell(p, s);
    assert Opened(Delivered, 0);
    lines := t.lines;
    assert [] + t.stream == t.stream;
    if !o.lost && o.rd.partial > 0 {
      var text := p.line(hist[o.rd.s], o.rd.time);
      FlattenPush(lines, text);
      LinesPush(p, hist, s.From(), lines, text);
      lines := lines + [text];
    }
  }

  // ---- the unread count ----

  /** Bytes the line buffer yields for the records from `lo` on. */
  ghost function LineTotal(p: Printer, hist: seq<Record>, time: bool, lo: nat): nat
    decreases |hist| - lo
  {
    if lo >= |hist| then 0 else |p.line(hist[lo], time)| + LineTotal(p, hist, time, lo + 1)
  }

  /** What reading from here to the end of the log yields. */
  ghost function ToRead(p: Printer, hist: seq<Record>, rd: Reader, now: bool): nat
    requires Ok(p, hist, rd)
  {
    if rd.s == |hist| then 0
    else |p.line(hist[rd.s], Setting(rd, now))| - rd.partial + LineTotal(p, hist, now, rd.s + 1)
  }

  lemma TurnConserves(p: Printer, hist: seq<Record>, now: bool, rd: Reader, left: nat, first: bool)
    requires Ok(p, hist, rd)
    ensures var t := Turn(p, hist, now, rd, left, first);
            ToRead(p, hist, t.0, now) + |t.1| == ToRead(p, hist, rd, now)
  {
  }

  /** What `o` took from the reader `rd` is what is no longer left to read. */
  ghost predicate Conserved(p: Printer, w: World, rd: Reader, o: Outcome)
    requires Ok(p, w.hist, rd) && Ok(p, w.hist, o.rd)
  {
    var held := !o.lost && ToRead(p, w.hist, o.rd, w.now) + |o.out| == ToRead(p, w.hist, rd, w.now);
    held
  }

  lemma LookConserves(p: Printer, w: World, rd: Reader, left: nat, first: bool)
    requires Ok(p, w.hist, rd) && w.first <= rd.s && w.first <= |w.hist|
    ensures Conserved(p, w, rd, Look(p, w, rd, left, first))
  {
    TurnConserves(p, w.hist, w.now, rd, left, first);
  }

  lemma ThenConserves(p: Printer, w: World, rd: Reader, o: Outcome, o': Outcome)
    requires Ok(p, w.hist, rd) && Ok(p, w.hist, o.rd) && Ok(p, w.hist, o'.rd)
    requires Conserved(p, w, rd, o) && Conserved(p, w, o.rd, o')
    ensures Conserved(p, w, rd, Then(o, o'))
  {
  }

  /** Nothing is stored, evicted or switched meanwhile. */
  ghost predicate StaysAt(seen: Seen, w: World) {
    seen.w == w && (seen.More? ==> StaysAt(seen.before, w))
  }

  ghost predicate Quiet(s: Session, w: World) {
    match s
    case Open(w0, _) => w0 == w
    case ReadCall(before, _, seen) => Quiet(before, w) && StaysAt(seen, w)
  }

  lemma {:induction false} StaysFirst(seen: Seen, w: World)
    requires StaysAt(seen, w)
    ensures seen.First() == w
  {
    if seen.More? {
      StaysFirst(seen.before, w);
    }
  }

  lemma {:induction false} PrintConserves(p: Printer, w: World, seen: Seen, rd: Reader, size: nat)
    requires Ok(p, w.hist, rd) && w.first <= rd.s && seen.Flow() && StaysAt(seen, w) && seen.First() == w
    ensures Conserved(p, w, rd, Print(p, seen, rd, size))
    decreases seen
  {
    if seen.More? {
      StaysFirst(seen.before, w);
      PrintConserves(p, w, seen.before, rd, size);
      var o := Print(p, seen.before, rd, size);
      LookConserves(p, w, o.rd, size - |o.out|, o.out == []);
      ThenConserves(p, w, rd, o, Look(p, w, o.rd, size - |o.out|, o.out == []));
    }
  }

  /** In a quiet session what has been read and what is left always add up to
      what there was to read. */
  lemma {:induction false} ReadsConserve(p: Printer, w: World, s: Session)
    requires s.Valid(p) && Quiet(s, w) && w.first <= s.From()
    ensures var o := Reads(p, s);
            && s.End() == w && s.From() <= o.rd.s
            && ToRead(p, w.hist, o.rd, w.now) + |o.out| == LineTotal(p, w.hist, w.now, s.From())
    decreases s
  {
    if s.ReadCall? {
      ReadsConserve(p, w, s.before);
      var o := Reads(p, s.before);
      StaysFirst(s.seen, w);
      PrintConserves(p, w, s.seen, o.rd, s.size);
    }
  }

  /** Formatted length of the records `lo` to `hi`, nothing cut. */
  ghost function Total(p: Printer, hist: seq<Record>, time: bool, lo: nat, hi: nat): nat
    requires hi <= |hist|
    decreases hi - lo
  {
    if lo >= hi then 0 else |p.full(hist[lo], time)| + Total(p, hist, time, lo + 1, hi)
  }

  /** What SYSLOG_ACTION_SIZE_UNREAD computes. */
  ghost function Unread(p: Printer, hist: seq<Record>, rd: Reader, now: bool): int
    requires rd.s <= |hist|
  {
    if rd.s == |hist| then 0
    else |p.full(hist[rd.s], Setting(rd, now))| + Total(p, hist, now, rd.s + 1, |hist|) - rd.partial
  }

  /** The count is positive exactly when there is a record to read. */
  lemma UnreadPositive(lay: Layout, p: Printer, hist: seq<Record>, rd: Reader, now: bool)
    requires Prints(lay, p) && Ok(p, hist, rd)
    ensures Unread(p, hist, rd, now) > 0 <==> rd.s < |hist|
  {
    if rd.s < |hist| {
      var rec, t := hist[rd.s], Setting(rd, now);
      assert |p.line(rec, t)| <= |p.full(rec, t)| && |p.full(rec, t)| > 0;
    }
  }

  /** Every record from `lo` on fits the line buffer, with either setting. */
  ghost predicate AllFit(lay: Layout, p: Printer, hist: seq<Record>, lo: nat) {
    forall i, t :: lo <= i < |hist| ==> |p.full(hist[i], t)| < LineBuffer(lay)
  }

  lemma {:induction false} TotalsAgree(lay: Layout, p: Printer, hist: seq<Record>, time: bool, lo: nat)
    requires Prints(lay, p) && AllFit(lay, p, hist, lo) && lo <= |hist|
    ensures Total(p, hist, time, lo, |hist|) == LineTotal(p, hist, time, lo)
    decreases |hist| - lo
  {
    if lo < |hist| {
      TotalsAgree(lay, p, hist, time, lo + 1);
    }
  }

  /** A turn that still has room never stalls on a record that fits the line
      buffer: reading always reaches the end. */
  lemma TurnMoves(lay: Layout, p: Printer, hist: seq<Record>, now: bool, rd: Reader, size: nat)
    requires Ok(p, hist, rd) && size > 0 && rd.s < |hist|
    requires Prints(lay, p) && AllFit(lay, p, hist, rd.s)
    ensures |Turn(p, hist, now, rd, size, true).1| > 0
    ensures ToRead(p, hist, Turn(p, hist, now, rd, size, true).0, now) < ToRead(p, hist, rd, now)
  {
    assert |p.full(hist[rd.s], Setting(rd, now))| > 0;
    TurnConserves(p, hist, now, rd, size, true);
  }

  /** SIZE_UNREAD agrees with reading: under a fixed printk_time, with no stores
      and records that fit the line buffer, the count taken at any point of a
      session is what the rest of the session delivers by the time it reaches the
      end of the log, however the reads are sized. */
  lemma UnreadIsRead(lay: Layout, p: Printer, w: World, s: Session)
    requires s.Valid(p) && Quiet(s, w) && w.first <= s.From()
    requires Prints(lay, p) && AllFit(lay, p, w.hist, s.From())
    ensures var o := Reads(p, s);
            && s.From() <= o.rd.s <= |w.hist|
            && Unread(p, w.hist, o.rd, w.now) + |o.out| == Total(p, w.hist, w.now, s.From(), |w.hist|)
            && (o.rd.s == |w.hist| ==> Unread(p, w.hist, o.rd, w.now) == 0)
  {
    ReadsConserve(p, w, s);
    var o := Reads(p, s);
    TotalsAgree(lay, p, w.hist, w.now, s.From());
    UnreadIsToRead(lay, p, w.hist, o.rd, w.now);
  }

  lemma UnreadIsToRead(lay: Layout, p: Printer, hist: seq<Record>, rd: Reader, now: bool)
    requires Ok(p, hist, rd) && Prints(lay, p) && AllFit(lay, p, hist, rd.s)
    ensures Unread(p, hist, rd, now) == ToRead(p, hist, rd, now)
  {
    if rd.s < |hist| {
      var t := Setting(rd, now);
      assert |p.full(hist[rd.s], t)| < LineBuffer(lay);
      TotalsAgree(lay, p, hist, now, rd.s + 1);
    }
  }

  lemma LookMoves(lay: Layout, p: Printer, w: World, rd: Reader, size: nat)
    requires Ok(p, w.hist, rd) && w.first <= rd.s && ToRead(p, w.hist, rd, w.now) > 0 && size > 0
    requires Prints(lay, p) && AllFit(lay, p, w.hist, rd.s)
    ensures Look(p, w, rd, size, true).out != []
  {
    TurnMoves(lay, p, w.hist, w.now, rd, size);
  }

  /** If nothing has been copied yet, the next look copies something. */
  lemma NextLookMoves(lay: Layout, p: Printer, w: World, rd: Reader, o: Outcome, size: nat)
    requires Ok(p, w.hist, rd) && w.first <= rd.s < |w.hist| && size > 0 && o.out == [] && rd.s <= o.rd.s
    requires Ok(p, w.hist, o.rd) && Conserved(p, w, rd, o)
    requires Prints(lay, p) && AllFit(lay, p, w.hist, rd.s)
    ensures Look(p, w, o.rd, size, true).out != []
  {
    ToReadPositive(lay, p, w.hist, rd, w.now);
    LookMoves(lay, p, w, o.rd, size);
  }

  /** In a quiet log a read that takes a turn delivers something unless there is
      nothing to read. */
  lemma PrintMoves(lay: Layout, p: Printer, w: World, before: Seen, rd: Reader, size: nat)
    requires Ok(p, w.hist, rd) && w.first <= rd.s < |w.hist| && size > 0
    requires More(before, w).Flow() && StaysAt(before, w)
    requires Prints(lay, p) && AllFit(lay, p, w.hist, rd.s)
    ensures before.First() == w && Print(p, More(before, w), rd, size).out != []
  {
    StaysFirst(before, w);
    PrintConserves(p, w, before, rd, size);
    var o := Print(p, before, rd, size);
    if o.out == [] {
      NextLookMoves(lay, p, w, rd, o, size);
    }
    var l := Look(p, w, o.rd, size - |o.out|, o.out == []);
    assert Print(p, More(before, w), rd, size) == Then(o, l);
    assert Then(o, l).out == o.out + l.out;
  }

  lemma ToReadPositive(lay: Layout, p: Printer, hist: seq<Record>, rd: Reader, now: bool)
    requires Ok(p, hist, rd) && Prints(lay, p) && AllFit(lay, p, hist, rd.s)
    ensures ToRead(p, hist, rd, now) > 0 <==> rd.s < |hist|
  {
    UnreadIsToRead(lay, p, hist, rd, now);
    UnreadPositive(lay, p, hist, rd, now);
  }
}
