/** Continuation lines: the `cont` buffer in front of the log, `cont_add`,
    `cont_flush` and `log_output`. */
module Continuation {
  import opened Bytes

  /** enum log_flags */
  const LOG_NEWLINE: nat := 2
  const LOG_CONT: nat := 8

  predicate HasNewline(flags: nat) { flags / LOG_NEWLINE % 2 == 1 }

  predicate IsCont(flags: nat) { flags / LOG_CONT % 2 == 1 }

  /** flags | LOG_NEWLINE */
  function AddNewline(flags: nat): (f: nat)
    ensures HasNewline(f) && f / 4 == flags / 4 && f % 2 == flags % 2
  {
    if HasNewline(flags) then flags else flags + LOG_NEWLINE
  }

  /** A call of `log_store`; `ts` is 0 when it is to read the clock itself. */
  datatype Stored = Stored(caller: nat, facility: int, level: int, flags: nat, ts: nat,
                           dict: seq<Byte>, text: seq<Byte>)

  /** One printk: who says what, and when by local_clock(). */
  datatype Input = Input(caller: nat, facility: int, level: int, flags: nat, clock: nat,
                         dict: seq<Byte>, text: seq<Byte>)

  /** What `log_output` returns: a length, or what its last log_store returned. */
  datatype Return = Length(n: nat) | OfLastStore

  /** A text with the name of its author on every byte. */
  function Signed(caller: nat, text: seq<Byte>): (s: seq<(nat, Byte)>)
    ensures |s| == |text|
  {
    seq(|text|, i requires 0 <= i < |text| => (caller, text[i]))
  }

  lemma SignedConcat(caller: nat, a: seq<Byte>, b: seq<Byte>)
    ensures Signed(caller, a + b) == Signed(caller, a) + Signed(caller, b)
  {
  }

  function SignedInputs(ins: seq<Input>): seq<(nat, Byte)> {
    if ins == [] then []
    else SignedInputs(ins[..|ins| - 1]) + Signed(ins[|ins| - 1].caller, ins[|ins| - 1].text)
  }

  function SignedStored(out: seq<Stored>): seq<(nat, Byte)> {
    if out == [] then []
    else SignedStored(out[..|out| - 1]) + Signed(out[|out| - 1].caller, out[|out| - 1].text)
  }

  lemma StoredPush(out: seq<Stored>, m: Stored)
    ensures SignedStored(out + [m]) == SignedStored(out) + Signed(m.caller, m.text)
  {
    Snoc(out, m);
  }

  lemma {:induction false} StoredConcat(a: seq<Stored>, b: seq<Stored>)
    ensures SignedStored(a + b) == SignedStored(a) + SignedStored(b)
  {
    if b == [] {
      assert a + b == a;
    } else {
      var b', x := b[..|b| - 1], b[|b| - 1];
      StoredConcat(a, b');
      assert a + b == (a + b') + [x];
      StoredPush(a + b', x);
      Assoc(SignedStored(a), SignedStored(b'), Signed(x.caller, x.text));
    }
  }

  /** The continuation buffer; it is unused when the text is empty. */
  datatype Line = Line(caller: nat, facility: int, level: int, flags: nat, ts: nat, text: seq<Byte>)

  function SignedLine(b: Line): seq<(nat, Byte)> { Signed(b.caller, b.text) }

  /** `cont_flush` */
  function Flushed(b: Line): seq<Stored> {
    if b.text == [] then [] else [Stored(b.caller, b.facility, b.level, b.flags, b.ts, [], b.text)]
  }

  function Emptied(b: Line): Line {
    b.(text := [])
  }

  /** `cont_add`: whether the text was taken, the buffer, and what was stored. */
  function Added(b: Line, m: Input, max: nat): (bool, Line, seq<Stored>) {
    if |b.text| + |m.text| > max then (false, Emptied(b), Flushed(b))
    else
      var b1 := if b.text == [] then Line(m.caller, m.facility, m.level, m.flags, m.clock, m.text)
                else b.(text := b.text + m.text);
      if HasNewline(m.flags) then
        var b2 := b1.(flags := AddNewline(b1.flags));
        (true, Emptied(b2), Flushed(b2))
      else (true, b1, [])
  }

  /** The record of a printk that is stored at once. */
  function Whole(m: Input): Stored {
    Stored(m.caller, m.facility, m.level, m.flags, 0, m.dict, m.text)
  }

  datatype Outcome = Outcome(line: Line, stored: seq<Stored>, ret: Return)

  /** `log_output`: the buffer afterwards, the log_store calls made, and the result. */
  function Output(b: Line, m: Input, max: nat): Outcome {
    var joins := b.text != [] && b.caller == m.caller && IsCont(m.flags);
    if joins && Added(b, m, max).0 then Outcome(Added(b, m, max).1, Added(b, m, max).2, Length(|m.text|))
    else
      // not taken, or not for this buffer: flushed either way
      var b1, early := Emptied(b), Flushed(b);
      if m.text == [] && IsCont(m.flags) then Outcome(b1, early, Length(0))
      else if !HasNewline(m.flags) && Added(b1, m, max).0 then
        Outcome(Added(b1, m, max).1, early + Added(b1, m, max).2, Length(|m.text|))
      else Outcome(b1, early + [Whole(m)], OfLastStore)
  }

  lemma FlushedSigned(b: Line)
    ensures SignedStored(Flushed(b)) == SignedLine(b)
  {
    if b.text != [] {
      StoredPush([], Flushed(b)[0]);
      assert [] + Flushed(b) == Flushed(b);
    }
  }

  lemma AddedConserves(b: Line, m: Input, max: nat)
    requires |b.text| <= max && (b.text != [] ==> b.caller == m.caller)
    ensures var (added, b', stored) := Added(b, m, max);
            && |b'.text| <= max
            && SignedStored(stored) + SignedLine(b') == SignedLine(b) + if added then Signed(m.caller, m.text) else []
  {
    FlushedSigned(b);
    SignedConcat(m.caller, b.text, m.text);
    var joined := Line(m.caller, m.facility, m.level, m.flags, m.clock, b.text + m.text);
    FlushedSigned(joined);
    if |b.text| + |m.text| <= max {
      if b.text == [] {
        assert b.text + m.text == m.text;
        FlushedSigned(joined.(flags := AddNewline(m.flags)));
      } else {
        FlushedSigned(b.(text := b.text + m.text, flags := AddNewline(b.flags)));
      }
    }
  }

  /** One printk: nothing is lost, repeated, reordered or stored under a wrong
      name, whatever the lengths, flags and callers. */
  lemma OutputConserves(b: Line, m: Input, max: nat)
    requires |b.text| <= max
    ensures var Outcome(b', stored, _) := Output(b, m, max);
            && |b'.text| <= max
            && SignedStored(stored) + SignedLine(b') == SignedLine(b) + Signed(m.caller, m.text)
  {
    FlushedSigned(b);
    var b1, early := Emptied(b), Flushed(b);
    if b.text != [] && b.caller == m.caller && IsCont(m.flags) && Added(b, m, max).0 {
      AddedConserves(b, m, max);
    } else if !(m.text == [] && IsCont(m.flags)) {
      if !HasNewline(m.flags) && Added(b1, m, max).0 {
        AddedConserves(b1, m, max);
        var (_, b', stored) := Added(b1, m, max);
        StoredConcat(early, stored);
        Assoc(SignedStored(early), SignedStored(stored), SignedLine(b'));
      } else {
        StoredPush(early, Whole(m));
      }
    }
  }

  /** Any sequence of printks. */
  function Outputs(b: Line, ins: seq<Input>, max: nat): (Line, seq<Stored>) {
    if ins == [] then (b, [])
    else
      var (b1, before) := Outputs(b, ins[..|ins| - 1], max);
      var Outcome(b2, stored, _) := Output(b1, ins[|ins| - 1], max);
      (b2, before + stored)
  }

  /** Conservation over any run: the stored texts and then the buffer are all
      inputs, byte for byte and in order, every byte stored under its author's
      name, so no record mixes two callers; and the buffer is never overrun. */
  lemma {:induction false} OutputsConserve(b: Line, ins: seq<Input>, max: nat)
    requires |b.text| <= max
    ensures var (b', stored) := Outputs(b, ins, max);
            && |b'.text| <= max
            && SignedStored(stored) + SignedLine(b') == SignedLine(b) + SignedInputs(ins)
    decreases |ins|
  {
    if ins != [] {
      var before, m := ins[..|ins| - 1], ins[|ins| - 1];
      OutputsConserve(b, before, max);
      var (b1, early) := Outputs(b, before, max);
      OutputConserves(b1, m, max);
      var Outcome(b2, stored, _) := Output(b1, m, max);
      StoredConcat(early, stored);
      Assoc(SignedStored(early), SignedStored(stored), SignedLine(b2));
      Assoc(SignedStored(early), SignedLine(b1), Signed(m.caller, m.text));
      Assoc(SignedLine(b), SignedInputs(before), Signed(m.caller, m.text));
    }
  }

  // ---- where each record comes from ----

  /** Inputs `lo` to `hi`, the fragments of one record. */
  datatype Span = Span(lo: nat, hi: nat)

  function TextOf(ins: seq<Input>, lo: nat, hi: nat): seq<Byte>
    requires hi <= |ins|
  {
    if hi <= lo then [] else TextOf(ins, lo, hi - 1) + ins[hi - 1].text
  }

  lemma {:induction false} TextOfGrow(ins: seq<Input>, m: Input, lo: nat, hi: nat)
    requires hi <= |ins|
    ensures TextOf(ins + [m], lo, hi) == TextOf(ins, lo, hi)
  {
    if lo < hi {
      TextOfGrow(ins, m, lo, hi - 1);
    }
  }

  /** One caller all along, each input but the first a continuation, and no newline
      before the last. */
  predicate Joined(ins: seq<Input>, lo: nat, hi: nat) {
    && lo < hi <= |ins|
    && (forall i :: lo < i < hi ==> ins[i].caller == ins[lo].caller && IsCont(ins[i].flags))
    && (forall i :: lo <= i < hi - 1 ==> !HasNewline(ins[i].flags))
  }

  /** The record's text is that of the inputs of the span; caller, facility and
      level are those of the first. A complete line, or one too long for a buffer of
      `max` bytes, is stored as it is; what is joined or waited in the buffer has
      the time of the first print. */
  predicate FromSpan(ins: seq<Input>, span: Span, m: Stored, max: nat) {
    && Joined(ins, span.lo, span.hi)
    && m.text == TextOf(ins, span.lo, span.hi)
    && var first, last := ins[span.lo], ins[span.hi - 1];
       && m.caller == first.caller && m.facility == first.facility && m.level == first.level
       && if span.hi == span.lo + 1 && (HasNewline(first.flags) || |first.text| > max) then m == Whole(first)
          else
            && m.dict == [] && m.ts == first.clock
            && m.flags == if HasNewline(last.flags) then AddNewline(first.flags) else first.flags
  }

  /** The same of the buffer and the inputs from `lo` on. */
  predicate Open(ins: seq<Input>, lo: nat, b: Line) {
    && lo <= |ins|
    && (b.text != [] ==>
          && Joined(ins, lo, |ins|) && !HasNewline(ins[|ins| - 1].flags)
          && b == Line(ins[lo].caller, ins[lo].facility, ins[lo].level, ins[lo].flags, ins[lo].clock,
                       TextOf(ins, lo, |ins|)))
  }

  /** Nothing more could join: the span ends with a newline, or with a fragment too
      long for a buffer of `max` bytes, or the input behind it is no continuation,
      or another caller's, or does not fit. */
  predicate Complete(ins: seq<Input>, span: Span, m: Stored, max: nat) {
    && span.lo < span.hi <= |ins|
    && (|| HasNewline(ins[span.hi - 1].flags)
        || |m.text| > max
        || (&& span.hi < |ins|
            && var next := ins[span.hi];
               next.caller != m.caller || !IsCont(next.flags) || |m.text| + |next.text| > max))
  }

  /** Each record comes from a span and joins all that belongs to it, one span
      behind the other, all before `end`. */
  predicate Traced(ins: seq<Input>, spans: seq<Span>, stored: seq<Stored>, end: nat, max: nat) {
    if stored == [] then spans == []
    else
      && spans != []
      && var span, m := spans[|spans| - 1], stored[|stored| - 1];
         && span.hi <= end
         && FromSpan(ins, span, m, max) && Complete(ins, span, m, max)
         && Traced(ins, spans[..|spans| - 1], stored[..|stored| - 1], span.lo, max)
  }

  lemma FromSpanGrow(ins: seq<Input>, m: Input, span: Span, st: Stored, max: nat)
    requires FromSpan(ins, span, st, max)
    ensures FromSpan(ins + [m], span, st, max)
  {
    TextOfGrow(ins, m, span.lo, span.hi);
  }

  lemma {:induction false} TracedGrow(ins: seq<Input>, m: Input, spans: seq<Span>, stored: seq<Stored>, end: nat,
                                      max: nat)
    requires Traced(ins, spans, stored, end, max)
    ensures Traced(ins + [m], spans, stored, end, max)
    decreases |stored|
  {
    if stored != [] {
      var span := spans[|spans| - 1];
      FromSpanGrow(ins, m, span, stored[|stored| - 1], max);
      TracedGrow(ins, m, spans[..|spans| - 1], stored[..|stored| - 1], span.lo, max);
    }
  }

  lemma TracedPush(ins: seq<Input>, spans: seq<Span>, stored: seq<Stored>, end: nat, span: Span, st: Stored, max: nat)
    requires Traced(ins, spans, stored, end, max) && end <= span.lo
    requires FromSpan(ins, span, st, max) && Complete(ins, span, st, max)
    ensures Traced(ins, spans + [span], stored + [st], span.hi, max)
  {
    Snoc(spans, span);
    Snoc(stored, st);
  }

  lemma OpenFlush(ins: seq<Input>, lo: nat, b: Line, m: Input, max: nat)
    requires Open(ins, lo, b) && b.text != [] && |b.text| <= max && !Joins(b, m, max)
    ensures FromSpan(ins + [m], Span(lo, |ins|), Flushed(b)[0], max)
    ensures Complete(ins + [m], Span(lo, |ins|), Flushed(b)[0], max)
  {
    FromSpanGrow(ins, m, Span(lo, |ins|), Flushed(b)[0], max);
  }

  lemma WholeSpan(ins: seq<Input>, m: Input, max: nat)
    ensures HasNewline(m.flags) || |m.text| > max ==> FromSpan(ins + [m], Span(|ins|, |ins| + 1), Whole(m), max)
    ensures TextOf(ins + [m], |ins|, |ins| + 1) == m.text
  {
    assert TextOf(ins + [m], |ins|, |ins|) == [];
  }

  /** The buffer takes a fragment: it stays open, or a record is complete. */
  lemma JoinSpan(ins: seq<Input>, lo: nat, b: Line, m: Input, max: nat)
    requires Open(ins, lo, b) && b.text != [] && b.caller == m.caller && IsCont(m.flags) && Added(b, m, max).0
    ensures var (_, b', stored) := Added(b, m, max);
            if HasNewline(m.flags) then
              |stored| == 1 && b'.text == [] && FromSpan(ins + [m], Span(lo, |ins| + 1), stored[0], max)
            else stored == [] && Open(ins + [m], lo, b')
  {
    TextOfGrow(ins, m, lo, |ins|);
    assert TextOf(ins + [m], lo, |ins| + 1) == b.text + m.text;
    assert Joined(ins + [m], lo, |ins| + 1);
  }

  lemma TracedLater(ins: seq<Input>, spans: seq<Span>, stored: seq<Stored>, end: nat, end': nat, max: nat)
    requires Traced(ins, spans, stored, end, max) && end <= end'
    ensures Traced(ins, spans, stored, end', max)
  {
  }

  /** What flushes the buffer is an input that does not join it. */
  lemma FlushTraced(ins: seq<Input>, spans: seq<Span>, stored: seq<Stored>, lo: nat, b: Line, m: Input, max: nat)
    returns (spans': seq<Span>)
    requires Traced(ins, spans, stored, lo, max) && Open(ins, lo, b) && |b.text| <= max && !Joins(b, m, max)
    ensures Traced(ins + [m], spans', stored + Flushed(b), |ins|, max)
  {
    TracedGrow(ins, m, spans, stored, lo, max);
    if b.text == [] {
      assert stored + Flushed(b) == stored;
      TracedLater(ins + [m], spans, stored, lo, |ins|, max);
      spans' := spans;
    } else {
      OpenFlush(ins, lo, b, m, max);
      TracedPush(ins + [m], spans, stored, lo, Span(lo, |ins|), Flushed(b)[0], max);
      spans' := spans + [Span(lo, |ins|)];
    }
  }

  lemma JoinTraced(ins: seq<Input>, spans: seq<Span>, stored: seq<Stored>, lo: nat, b: Line, m: Input, max: nat)
    returns (spans': seq<Span>, lo': nat)
    requires Traced(ins, spans, stored, lo, max) && Open(ins, lo, b)
    requires b.text != [] && b.caller == m.caller && IsCont(m.flags) && Added(b, m, max).0
    ensures var (_, b', more) := Added(b, m, max);
            Traced(ins + [m], spans', stored + more, lo', max) && Open(ins + [m], lo', b')
  {
    JoinSpan(ins, lo, b, m, max);
    TracedGrow(ins, m, spans, stored, lo, max);
    var more, span := Added(b, m, max).2, Span(lo, |ins| + 1);
    if HasNewline(m.flags) {
      TracedPush(ins + [m], spans, stored, lo, span, more[0], max);
      assert more == [more[0]];
      return spans + [span], span.hi;
    }
    assert stored + more == stored;
    return spans, lo;
  }

  predicate Joins(b: Line, m: Input, max: nat) {
    b.text != [] && b.caller == m.caller && IsCont(m.flags) && Added(b, m, max).0
  }

  lemma NotJoined(ins: seq<Input>, b: Line, m: Input, max: nat)
    requires !Joins(b, m, max)
    ensures var o := Output(b, m, max);
            if o.ret.OfLastStore? then
              && o.stored == Flushed(b) + [Whole(m)] && Open(ins + [m], |ins| + 1, o.line)
              && (HasNewline(m.flags) || |m.text| > max)
            else o.stored == Flushed(b) && Open(ins + [m], |ins|, o.line)
  {
    WholeSpan(ins, m, max);
  }

  /** What one printk adds. */
  lemma OutputTraced(ins: seq<Input>, spans: seq<Span>, stored: seq<Stored>, lo: nat, b: Line, m: Input, max: nat)
    returns (spans': seq<Span>, lo': nat)
    requires Traced(ins, spans, stored, lo, max) && Open(ins, lo, b) && |b.text| <= max
    ensures var o := Output(b, m, max);
            Traced(ins + [m], spans', stored + o.stored, lo', max) && Open(ins + [m], lo', o.line)
  {
    if Joins(b, m, max) {
      spans', lo' := JoinTraced(ins, spans, stored, lo, b, m, max);
    } else {
      NotJoined(ins, b, m, max);
      spans', lo' := RestTraced(ins, spans, stored, lo, b, m, Output(b, m, max), max);
    }
  }

  lemma RestTraced(ins: seq<Input>, spans: seq<Span>, stored: seq<Stored>, lo: nat, b: Line, m: Input, o: Outcome,
                   max: nat)
    returns (spans': seq<Span>, lo': nat)
    requires Traced(ins, spans, stored, lo, max) && Open(ins, lo, b) && |b.text| <= max && !Joins(b, m, max)
    requires o.stored == Flushed(b) + if o.ret.OfLastStore? then [Whole(m)] else []
    requires o.ret.OfLastStore? ==> HasNewline(m.flags) || |m.text| > max
    ensures Traced(ins + [m], spans', stored + o.stored, lo', max)
    ensures lo' == if o.ret.OfLastStore? then |ins| + 1 else |ins|
  {
    var n, flushed := |ins|, stored + Flushed(b);
    var spans1 := FlushTraced(ins, spans, stored, lo, b, m, max);
    if o.ret.OfLastStore? {
      WholeSpan(ins, m, max);
      TracedPush(ins + [m], spans1, flushed, n, Span(n, n + 1), Whole(m), max);
      Assoc(stored, Flushed(b), [Whole(m)]);
      return spans1 + [Span(n, n + 1)], n + 1;
    }
    assert o.stored == Flushed(b);
    return spans1, n;
  }

  /** Provenance over any run: each record is one printk as it was, or joins
      successive fragments of one caller, all that can be joined, and keeps what
      the first of them said about itself, its time included; records follow one
      another as their inputs did, and so does what is still in the buffer. */
  lemma {:induction false} Provenance(b: Line, ins: seq<Input>, max: nat) returns (spans: seq<Span>, lo: nat)
    requires b.text == []
    ensures var (b', stored) := Outputs(b, ins, max);
            Traced(ins, spans, stored, lo, max) && Open(ins, lo, b')
    decreases |ins|
  {
    if ins == [] {
      return [], 0;
    }
    var before, m := ins[..|ins| - 1], ins[|ins| - 1];
    assert before + [m] == ins;
    var spans1, lo1 := Provenance(b, before, max);
    OutputsConserve(b, before, max);
    var (b1, early) := Outputs(b, before, max);
    spans, lo := OutputTraced(before, spans1, early, lo1, b1, m, max);
  }

  /** Over any run every complete line that continues nothing gets a record of its
      own, with its dictionary. */
  lemma {:induction false} WholeLinesStored(b: Line, ins: seq<Input>, max: nat, i: nat)
    requires i < |ins| && HasNewline(ins[i].flags) && !IsCont(ins[i].flags)
    ensures Whole(ins[i]) in Outputs(b, ins, max).1
    decreases |ins|
  {
    var before, m := ins[..|ins| - 1], ins[|ins| - 1];
    var (b1, early) := Outputs(b, before, max);
    if i < |before| {
      WholeLinesStored(b, before, max, i);
    } else {
      var o := Output(b1, m, max);
      assert o.stored[|o.stored| - 1] == Whole(m);
    }
  }

  /** The length returned is that of the text, except that a fragment that only
      flushes gives 0 and a stored line what log_store gives. */
  lemma ReturnedLength(b: Line, m: Input, max: nat)
    ensures var o := Output(b, m, max);
            match o.ret
            case Length(n) => n == |m.text|
            case OfLastStore => o.stored != [] && o.stored[|o.stored| - 1] == Whole(m)
  {
  }

  class Cont {
    const buf: array<Byte>  // LOG_LINE_MAX bytes
    var len: nat            // 0 means unused buffer
    var caller: nat         // of the first print
    var facility: int
    var level: int
    var flags: nat
    var ts: nat             // time of the first print

    function View(): Line
      reads this, buf
      requires len <= buf.Length
    {
      Line(caller, facility, level, flags, ts, buf[..len])
    }

    constructor (lineMax: nat)
      ensures len == 0 && buf.Length == lineMax && fresh(buf)
    {
      buf := new Byte[lineMax](_ => 0);
      len, caller, facility, level, flags, ts := 0, 0, 0, 0, 0, 0;
    }

    method ContFlush() returns (stored: seq<Stored>)
      requires len <= buf.Length
      modifies this`len
      ensures len <= buf.Length && View() == Emptied(old(View()))
      ensures stored == Flushed(old(View()))
    {
      stored := [];
      if len == 0 {
        assert buf[..len] == [];
        return;
      }
      stored := [Stored(caller, facility, level, flags, ts, [], buf[..len])];
      len := 0;
    }

    method ContAdd(m: Input) returns (added: bool, stored: seq<Stored>)
      requires len <= buf.Length
      modifies this, buf
      ensures len <= buf.Length
      ensures (added, View(), stored) == Added(old(View()), m, buf.Length)
    {
      if len + |m.text| > buf.Length {
        stored := ContFlush();
        return false, stored;
      }
      ghost var before := buf[..len];
      if len == 0 {
        facility, level, caller, ts, flags := m.facility, m.level, m.caller, m.clock, m.flags;
      }
      Memcpy(buf, len, m.text);
      len := len + |m.text|;
      assert buf[..len] == before + m.text;
      assert before == [] ==> before + m.text == m.text;
      stored := [];
      if HasNewline(m.flags) {
        flags := AddNewline(flags);
        stored := ContFlush();
      }
      return true, stored;
    }

    method LogOutput(m: Input) returns (stored: seq<Stored>, ret: Return)
      requires len <= buf.Length
      modifies this, buf
      ensures len <= buf.Length
      ensures Outcome(View(), stored, ret) == Output(old(View()), m, buf.Length)
    {
      var early: seq<Stored> := [];
      if len > 0 {
        if caller == m.caller && IsCont(m.flags) {
          var added;
          added, early := ContAdd(m);
          if added {
            return early, Length(|m.text|);
          }
        }
        var more := ContFlush();
        early := early + more;
      }
      assert early == Flushed(old(View())) && View() == Emptied(old(View()));
      if |m.text| == 0 && IsCont(m.flags) {
        return early, Length(0);
      }
      if !HasNewline(m.flags) {
        var added, more := ContAdd(m);
        if added {
          return early + more, Length(|m.text|);
        }
      }
      return early + [Whole(m)], OfLastStore;
    }
  }
}
