/** The human-readable form of a record: `print_prefix` and `msg_print_text`. */
module LineFormat {
  import opened Bytes
  import opened LogRecord

  /** PREFIX_MAX and LOG_LINE_MAX */
  function PrefixMax(lay: Layout): nat { if lay.caller then 48 else 32 }

  function LogLineMax(lay: Layout): nat { 1024 - PrefixMax(lay) }

  /** The size of the text buffers of the syslog and console readers. */
  function LineBuffer(lay: Layout): nat { LogLineMax(lay) + PrefixMax(lay) }

  // ---- the prefix ----

  /** `print_syslog`: "<%u>", the PRI of section 6.2.1 of RFC 5424. */
  function SyslogPrefix(rec: Record): seq<Byte> {
    [60] + Decimal(8 * rec.facility + rec.level) + [62]
  }

  /** The (unsigned long) seconds of a timestamp. */
  function Seconds(lay: Layout, ts: nat): nat {
    var sec := ts / 1_000_000_000;
    if lay.long64 then sec else sec % 0x1_0000_0000
  }

  /** `print_time`: "[%5lu.%06lu]" */
  function TimePrefix(lay: Layout, ts: nat): seq<Byte> {
    [91] + PadLeft(Decimal(Seconds(lay, ts)), 5, SPACE)
    + [46] + PadLeft(Decimal(ts % 1_000_000_000 / 1000), 6, 48) + [93]
  }

  /** `print_caller`: "[%6s]" of 'T' and a thread or 'C' and a processor number. */
  function CallerPrefix(id: nat): seq<Byte> {
    [91] + PadLeft([if id >= 0x8000_0000 then 67 else 84] + Decimal(id % 0x8000_0000), 6, SPACE) + [93]
  }

  /** `print_prefix` */
  function Prefix(lay: Layout, rec: Record, syslog: bool, time: bool): seq<Byte> {
    If(syslog, SyslogPrefix(rec)) + If(time, TimePrefix(lay, rec.ts))
    + If(lay.caller, CallerPrefix(rec.caller)) + If(lay.caller || time, [SPACE])
  }

  function If(on: bool, s: seq<Byte>): seq<Byte> { if on then s else [] }

  predicate NoNewline(s: seq<Byte>) {
    forall i :: 0 <= i < |s| ==> s[i] != NEWLINE
  }

  lemma SyslogPrefixShort(lay: Layout, rec: Record)
    requires Storable(lay, rec)
    ensures |SyslogPrefix(rec)| <= 6 && NoNewline(SyslogPrefix(rec))
  {
    Pow10Values();
    DecimalLength(8 * rec.facility + rec.level, 4);
  }

  lemma TimePrefixShort(lay: Layout, ts: nat)
    requires ts < 0x1_0000_0000_0000_0000
    ensures |TimePrefix(lay, ts)| <= 20 && NoNewline(TimePrefix(lay, ts))
  {
    Pow10Values();
    var sec := ts / 1_000_000_000;
    DecimalLength(sec, 11);
    DecimalLength(sec % 0x1_0000_0000, 11);
    DecimalLength(ts % 1_000_000_000 / 1000, 6);
  }

  lemma CallerPrefixShort(id: nat)
    ensures |CallerPrefix(id)| <= 13 && NoNewline(CallerPrefix(id))
  {
    Pow10Values();
    DecimalLength(id % 0x8000_0000, 10);
  }

  /** For every timestamp, facility, level and caller the prefix and a newline
      stay below PREFIX_MAX, and the prefix has no newline of its own. */
  lemma PrefixShort(lay: Layout, rec: Record, syslog: bool, time: bool)
    requires Storable(lay, rec)
    ensures |Prefix(lay, rec, syslog, time)| + 1 < PrefixMax(lay)
    ensures NoNewline(Prefix(lay, rec, syslog, time))
  {
    SyslogPrefixShort(lay, rec);
    TimePrefixShort(lay, rec.ts);
    CallerPrefixShort(rec.caller);
  }

  /** The first `c` in `text` at or after `from`, or the length when there is none. */
  function Find(text: seq<Byte>, c: Byte, from: nat): (e: nat)
    requires from <= |text|
    ensures from <= e <= |text|
    ensures forall i :: from <= i < e ==> text[i] != c
    ensures e < |text| ==> text[e] == c
    decreases |text| - from
  {
    if from == |text| || text[from] == c then from else Find(text, c, from + 1)
  }

  /** The bytes before the first `c`, and those behind it. */
  function Until(s: seq<Byte>, c: Byte): (seq<Byte>, seq<Byte>) {
    var e := Find(s, c, 0);
    (s[..e], if e < |s| then s[e + 1..] else [])
  }

  lemma UntilIs(f: seq<Byte>, c: Byte, rest: seq<Byte>)
    requires c !in f
    ensures Until(f + [c] + rest, c) == (f, rest)
  {
    var s := f + [c] + rest;
    assert s[|f|] == c && forall i :: 0 <= i < |f| ==> s[i] == f[i] && s[i] in f;
    assert s[..|f|] == f && s[|f| + 1..] == rest;
  }

  // ---- reading a prefix ----

  /** What the prefix of a line says, as far as it is there, and what follows it. */
  datatype LineInfo = LineInfo(facility: nat, level: nat, sec: nat, usec: nat, caller: nat, text: seq<Byte>)

  /** "<13>", the number of section 6.2.1 of RFC 5424: facility times 8 plus severity. */
  function ReadSyslog(s: seq<Byte>, on: bool): (nat, seq<Byte>) {
    var (f, rest) := Until(s, 62);
    if on then (Number(Inner(f, 60)), rest) else (0, s)
  }

  /** "[    1.000200]" */
  function ReadTime(s: seq<Byte>, on: bool): (nat, nat, seq<Byte>) {
    var (sec, s1) := Until(s, 46);
    var (usec, s2) := Until(s1, 93);
    if on then (Number(Inner(sec, 91)), Number(usec), s2) else (0, 0, s)
  }

  /** "[   T12]" or "[    C3]" */
  function ReadCaller(s: seq<Byte>, on: bool): (nat, seq<Byte>) {
    var (f, rest) := Until(s, 93);
    var who := Unpadded(Inner(f, 91));
    if on then (CallerId(who), rest) else (0, s)
  }

  function CallerId(who: seq<Byte>): nat {
    if who == [] || who[0] !in {67, 84} then 0
    else (if who[0] == 67 then 0x8000_0000 else 0) + Number(who[1..])
  }

  /** What stands behind the first byte, if it is `c`. */
  function Inner(s: seq<Byte>, c: Byte): seq<Byte> { if s == [] || s[0] != c then [] else s[1..] }

  function Unpadded(s: seq<Byte>): seq<Byte> {
    if s != [] && s[0] == SPACE then Unpadded(s[1..]) else s
  }

  function ReadLine(lay: Layout, s: seq<Byte>, syslog: bool, time: bool): LineInfo {
    var (pri, s1) := ReadSyslog(s, syslog);
    var (sec, usec, s2) := ReadTime(s1, time);
    var (caller, s3) := ReadCaller(s2, lay.caller);
    LineInfo(pri / 8, pri % 8, sec, usec, caller, if lay.caller || time then Inner(s3, SPACE) else s3)
  }

  lemma SyslogRead(rec: Record, rest: seq<Byte>)
    ensures ReadSyslog(SyslogPrefix(rec) + rest, true) == (8 * rec.facility + rec.level, rest)
  {
    var d := Decimal(8 * rec.facility + rec.level);
    UntilIs([60] + d, 62, rest);
    NumberDecimal(8 * rec.facility + rec.level);
    assert Inner([60] + d, 60) == d;
  }

  lemma TimeRead(lay: Layout, ts: nat, rest: seq<Byte>)
    ensures ReadTime(TimePrefix(lay, ts) + rest, true)
         == (Seconds(lay, ts), ts % 1_000_000_000 / 1000, rest)
  {
    var sec, usec := Decimal(Seconds(lay, ts)), Decimal(ts % 1_000_000_000 / 1000);
    var a, b := [91] + PadLeft(sec, 5, SPACE), PadLeft(usec, 6, 48);
    assert TimePrefix(lay, ts) + rest == a + [46] + (b + [93] + rest);
    UntilIs(a, 46, b + [93] + rest);
    UntilIs(b, 93, rest);
    NumberPad(sec, 5, SPACE);
    NumberPad(usec, 6, 48);
    NumberDecimal(Seconds(lay, ts));
    NumberDecimal(ts % 1_000_000_000 / 1000);
    assert Inner(a, 91) == PadLeft(sec, 5, SPACE);
  }

  lemma {:induction false} UnpaddedPad(s: seq<Byte>, width: nat)
    requires s != [] && s[0] != SPACE
    ensures Unpadded(PadLeft(s, width, SPACE)) == s
    decreases width
  {
    if width > |s| {
      UnpaddedPad(s, width - 1);
      assert PadLeft(s, width, SPACE)[1..] == PadLeft(s, width - 1, SPACE);
    } else {
      assert PadLeft(s, width, SPACE) == s;
    }
  }

  lemma CallerRead(id: nat, rest: seq<Byte>)
    requires id < 0x1_0000_0000
    ensures ReadCaller(CallerPrefix(id) + rest, true) == (id, rest)
  {
    var d := Decimal(id % 0x8000_0000);
    var who := [if id >= 0x8000_0000 then 67 else 84] + d;
    CallerOf(who, rest);
    NumberDecimal(id % 0x8000_0000);
    assert who[1..] == d;
  }

  lemma CallerOf(who: seq<Byte>, rest: seq<Byte>)
    requires who != [] && who[0] != SPACE && 93 !in who
    ensures ReadCaller([91] + PadLeft(who, 6, SPACE) + [93] + rest, true) == (CallerId(who), rest)
  {
    var f := [91] + PadLeft(who, 6, SPACE);
    UntilIs(f, 93, rest);
    assert Inner(f, 91) == PadLeft(who, 6, SPACE);
    UnpaddedPad(who, 6);
  }

  lemma PrefixAhead(lay: Layout, rec: Record, syslog: bool, time: bool, text: seq<Byte>)
    ensures Prefix(lay, rec, syslog, time) + text
         == If(syslog, SyslogPrefix(rec)) + (If(time, TimePrefix(lay, rec.ts)) +
            (If(lay.caller, CallerPrefix(rec.caller)) + (If(lay.caller || time, [SPACE]) + text)))
  {
    Regrouped(If(syslog, SyslogPrefix(rec)), If(time, TimePrefix(lay, rec.ts)),
              If(lay.caller, CallerPrefix(rec.caller)), If(lay.caller || time, [SPACE]), text);
  }

  lemma Regrouped(a: seq<Byte>, b: seq<Byte>, c: seq<Byte>, d: seq<Byte>, e: seq<Byte>)
    ensures a + b + c + d + e == a + (b + (c + (d + e)))
  {
  }

  lemma SyslogPart(rec: Record, on: bool, s: seq<Byte>)
    ensures ReadSyslog(If(on, SyslogPrefix(rec)) + s, on) == (if on then 8 * rec.facility + rec.level else 0, s)
  {
    SyslogRead(rec, s);
    assert [] + s == s;
  }

  lemma TimePart(lay: Layout, ts: nat, on: bool, s: seq<Byte>)
    ensures ReadTime(If(on, TimePrefix(lay, ts)) + s, on)
         == (if on then Seconds(lay, ts) else 0, if on then ts % 1_000_000_000 / 1000 else 0, s)
  {
    TimeRead(lay, ts, s);
    assert [] + s == s;
  }

  lemma CallerPart(id: nat, on: bool, s: seq<Byte>)
    requires id < 0x1_0000_0000 && (!on ==> id == 0)
    ensures ReadCaller(If(on, CallerPrefix(id)) + s, on) == (id, s)
  {
    CallerRead(id, s);
    assert [] + s == s;
  }

  lemma BlankPart(on: bool, s: seq<Byte>)
    ensures (if on then Inner(If(on, [SPACE]) + s, SPACE) else If(on, [SPACE]) + s) == s
  {
  }

  lemma ReadParts(lay: Layout, s: seq<Byte>, s1: seq<Byte>, s2: seq<Byte>, s3: seq<Byte>, syslog: bool, time: bool,
                  facility: nat, level: nat, sec: nat, usec: nat, caller: nat, text: seq<Byte>)
    requires level < 8 && ReadSyslog(s, syslog).0 == 8 * facility + level && ReadSyslog(s, syslog).1 == s1
    requires ReadTime(s1, time) == (sec, usec, s2) && ReadCaller(s2, lay.caller) == (caller, s3)
    requires (if lay.caller || time then Inner(s3, SPACE) else s3) == text
    ensures ReadLine(lay, s, syslog, time) == LineInfo(facility, level, sec, usec, caller, text)
  {
  }

  /** What was read is what the record says about itself. */
  predicate Tells(lay: Layout, rec: Record, syslog: bool, time: bool, i: LineInfo) {
    && (syslog ==> i.facility == rec.facility && i.level == rec.level)
    && (time ==> i.sec == Seconds(lay, rec.ts) && i.usec == rec.ts % 1_000_000_000 / 1000)
    && i.caller == rec.caller
  }

  /** The prefix says who, when and how important, whatever text follows. */
  lemma PrefixRoundTrip(lay: Layout, rec: Record, syslog: bool, time: bool, text: seq<Byte>)
    requires Storable(lay, rec)
    ensures var i := ReadLine(lay, Prefix(lay, rec, syslog, time) + text, syslog, time);
            Tells(lay, rec, syslog, time, i) && i.text == text
  {
    var s3 := If(lay.caller || time, [SPACE]) + text;
    var s2 := If(lay.caller, CallerPrefix(rec.caller)) + s3;
    var s1 := If(time, TimePrefix(lay, rec.ts)) + s2;
    PrefixAhead(lay, rec, syslog, time, text);
    SyslogPart(rec, syslog, s1);
    TimePart(lay, rec.ts, time, s2);
    CallerPart(rec.caller, lay.caller, s3);
    BlankPart(lay.caller || time, text);
    ReadParts(lay, Prefix(lay, rec, syslog, time) + text, s1, s2, s3, syslog, time,
              if syslog then rec.facility else 0, if syslog then rec.level else 0,
              if time then Seconds(lay, rec.ts) else 0, if time then rec.ts % 1_000_000_000 / 1000 else 0,
              rec.caller, text);
  }

  /** The columns of the time: seconds right-aligned in five or more, then a dot and
      six digits, so that stamps of less than 100000 seconds are all as wide. */
  lemma TimeColumns(lay: Layout, ts: nat)
    ensures var t, sec := TimePrefix(lay, ts), |Decimal(Seconds(lay, ts))|;
            && |t| == Max(sec, 5) + 9 && t[0] == 91 && t[|t| - 8] == 46 && t[|t| - 1] == 93
            && (forall i :: 1 <= i < |t| - 8 - sec ==> t[i] == SPACE)
            && (forall i :: |t| - 7 <= i < |t| - 1 ==> 48 <= t[i] < 58)
  {
    Pow10Values();
    DecimalLength(ts % 1_000_000_000 / 1000, 6);
  }

  // ---- lines ----

  /** memchr(text, '\n', size), or the size when there is none. */
  function LineEnd(text: seq<Byte>): (e: nat)
    ensures e <= |text|
    ensures forall i :: 0 <= i < e ==> text[i] != NEWLINE
    ensures e < |text| ==> text[e] == NEWLINE
  {
    Find(text, NEWLINE, 0)
  }

  lemma LineEndUnique(text: seq<Byte>, e: nat)
    requires e <= |text| && (forall i :: 0 <= i < e ==> text[i] != NEWLINE)
    requires e < |text| ==> text[e] == NEWLINE
    ensures LineEnd(text) == e
  {
  }

  /** The newline-split of a text; a trailing newline opens an empty last line. */
  function Lines(text: seq<Byte>): (ls: seq<seq<Byte>>)
    ensures ls != []
    ensures forall i :: 0 <= i < |ls| ==> NoNewline(ls[i])
    decreases |text|
  {
    var e := LineEnd(text);
    [text[..e]] + (if e == |text| then [] else Lines(text[e + 1..]))
  }

  lemma LinesStep(text: seq<Byte>)
    ensures Lines(text)[0] == text[..LineEnd(text)]
    ensures Lines(text)[1..] == MoreLines(text)
  {
    ConsTail(text[..LineEnd(text)], MoreLines(text));
  }

  function MoreLines(text: seq<Byte>): seq<seq<Byte>> {
    if LineEnd(text) == |text| then [] else Lines(text[LineEnd(text) + 1..])
  }

  lemma ConsTail<T>(x: T, s: seq<T>)
    ensures ([x] + s)[0] == x && ([x] + s)[1..] == s
  {
  }

  /** Each line with the prefix and a newline. */
  function Render(prefix: seq<Byte>, ls: seq<seq<Byte>>): seq<Byte> {
    if ls == [] then [] else prefix + ls[0] + [NEWLINE] + Render(prefix, ls[1..])
  }

  /** How many whole lines `msg_print_text` puts into a buffer of `size` bytes. */
  function Fitting(prefix: seq<Byte>, ls: seq<seq<Byte>>, size: int): (k: nat)
    ensures k <= |ls|
  {
    if ls == [] || |prefix| + |ls[0]| + 1 >= size then 0
    else 1 + Fitting(prefix, ls[1..], size - (|prefix| + |ls[0]| + 1))
  }

  /** Whole lines are kept in order for as long as they stay below the size: `k`
      lines fit exactly when `k` is at most `Fitting`. */
  lemma {:induction false} FittingIsLongest(prefix: seq<Byte>, ls: seq<seq<Byte>>, size: int, k: nat)
    requires 0 < k <= |ls|
    ensures |Render(prefix, ls[..k])| < size <==> k <= Fitting(prefix, ls, size)
    decreases k
  {
    assert ls[..k][1..] == ls[1..][..k - 1];
    if k > 1 {
      FittingIsLongest(prefix, ls[1..], size - (|prefix| + |ls[0]| + 1), k - 1);
    }
  }

  lemma RenderOne(prefix: seq<Byte>, line: seq<Byte>)
    ensures Render(prefix, [line]) == prefix + line + [NEWLINE]
  {
    assert Render(prefix, [line][1..]) == [];
  }

  lemma {:induction false} RenderConcat(prefix: seq<Byte>, a: seq<seq<Byte>>, b: seq<seq<Byte>>)
    ensures Render(prefix, a + b) == Render(prefix, a) + Render(prefix, b)
  {
    if a == [] {
      assert a + b == b;
    } else {
      assert (a + b)[1..] == a[1..] + b;
      RenderConcat(prefix, a[1..], b);
    }
  }

  /** Nothing is cut exactly when the whole text is shorter than the buffer. */
  lemma FitsWhole(prefix: seq<Byte>, ls: seq<seq<Byte>>, size: int)
    requires ls != []
    ensures |Render(prefix, ls)| < size <==> Fitting(prefix, ls, size) == |ls|
    ensures var cut := Render(prefix, ls[..Fitting(prefix, ls, size)]);
            && cut <= Render(prefix, ls)
            && (|cut| < size || cut == [])
  {
    var k := Fitting(prefix, ls, size);
    assert ls[..|ls|] == ls && ls == ls[..k] + ls[k..];
    FittingIsLongest(prefix, ls, size, |ls|);
    if k > 0 {
      FittingIsLongest(prefix, ls, size, k);
    }
    RenderConcat(prefix, ls[..k], ls[k..]);
  }

  /** Takes the prefixes (of length `p`) and the final newline off again. */
  function Strip(p: nat, s: seq<Byte>): seq<Byte>
    decreases |s|
  {
    var e := LineEnd(s);
    var line := if p <= e then s[p..e] else [];
    if e + 1 >= |s| then line else line + [NEWLINE] + Strip(p, s[e + 1..])
  }

  function Join(ls: seq<seq<Byte>>): seq<Byte>
    requires ls != []
  {
    if |ls| == 1 then ls[0] else ls[0] + [NEWLINE] + Join(ls[1..])
  }

  lemma {:induction false} JoinLines(text: seq<Byte>)
    ensures Join(Lines(text)) == text
    decreases |text|
  {
    var e := LineEnd(text);
    if e < |text| {
      JoinLines(text[e + 1..]);
      assert Lines(text)[1..] == Lines(text[e + 1..]);
    }
  }

  lemma StripLine(prefix: seq<Byte>, line: seq<Byte>, rest: seq<Byte>)
    requires NoNewline(prefix) && NoNewline(line)
    ensures Strip(|prefix|, prefix + line + [NEWLINE] + rest)
         == if rest == [] then line else line + [NEWLINE] + Strip(|prefix|, rest)
  {
    var s, e := prefix + line + [NEWLINE] + rest, |prefix| + |line|;
    assert s[e] == NEWLINE;
    LineEndUnique(s, e);
    assert s[|prefix|..e] == line && s[e + 1..] == rest;
  }

  /** Round trip: stripping inverts formatting. */
  lemma {:induction false} StripRender(prefix: seq<Byte>, ls: seq<seq<Byte>>)
    requires NoNewline(prefix) && ls != []
    requires forall i :: 0 <= i < |ls| ==> NoNewline(ls[i])
    ensures Strip(|prefix|, Render(prefix, ls)) == Join(ls)
  {
    var rest := Render(prefix, ls[1..]);
    StripLine(prefix, ls[0], rest);
    if |ls| > 1 {
      StripRender(prefix, ls[1..]);
      assert rest != [];
    }
  }

  lemma StripLines(prefix: seq<Byte>, text: seq<Byte>)
    requires NoNewline(prefix)
    ensures Strip(|prefix|, Render(prefix, Lines(text))) == text
  {
    StripRender(prefix, Lines(text));
    JoinLines(text);
  }

  // ---- records ----

  /** The formatted record, complete. */
  function Format(lay: Layout, rec: Record, syslog: bool, time: bool): seq<Byte> {
    Render(Prefix(lay, rec, syslog, time), Lines(rec.text))
  }

  /** The formatted record as a buffer of `size` bytes takes it. */
  function FormatIn(lay: Layout, rec: Record, syslog: bool, time: bool, size: int): seq<Byte> {
    var prefix, ls := Prefix(lay, rec, syslog, time), Lines(rec.text);
    Render(prefix, ls[..Fitting(prefix, ls, size)])
  }

  lemma FormatFits(lay: Layout, rec: Record, syslog: bool, time: bool, size: int)
    ensures |Format(lay, rec, syslog, time)| < size ==>
              FormatIn(lay, rec, syslog, time, size) == Format(lay, rec, syslog, time)
    ensures FormatIn(lay, rec, syslog, time, size) <= Format(lay, rec, syslog, time)
    ensures size > 0 ==> |FormatIn(lay, rec, syslog, time, size)| < size
  {
    FitsWhole(Prefix(lay, rec, syslog, time), Lines(rec.text), size);
    assert Lines(rec.text)[..|Lines(rec.text)|] == Lines(rec.text);
  }

  /** A single-line record of at most LOG_LINE_MAX bytes, as printk stores them,
      is never cut by a reader's line buffer. */
  lemma SingleLineNeverCut(lay: Layout, rec: Record, syslog: bool, time: bool)
    requires Storable(lay, rec) && NoNewline(rec.text) && |rec.text| <= LogLineMax(lay)
    ensures FormatIn(lay, rec, syslog, time, LineBuffer(lay)) == Format(lay, rec, syslog, time)
         == Prefix(lay, rec, syslog, time) + rec.text + [NEWLINE]
  {
    PrefixShort(lay, rec, syslog, time);
    LineEndUnique(rec.text, |rec.text|);
    assert rec.text[..|rec.text|] == rec.text;
    assert Lines(rec.text) == [rec.text];
    RenderOne(Prefix(lay, rec, syslog, time), rec.text);
    FormatFits(lay, rec, syslog, time, LineBuffer(lay));
  }

  /** A formatted record, as far as a buffer takes it, says who, when and how
      important. */
  lemma FormatTells(lay: Layout, rec: Record, syslog: bool, time: bool, size: int)
    requires Storable(lay, rec) && FormatIn(lay, rec, syslog, time, size) != []
    ensures Tells(lay, rec, syslog, time, ReadLine(lay, FormatIn(lay, rec, syslog, time, size), syslog, time))
  {
    var prefix, out := Prefix(lay, rec, syslog, time), FormatIn(lay, rec, syslog, time, size);
    assert out == prefix + out[|prefix|..];
    PrefixRoundTrip(lay, rec, syslog, time, out[|prefix|..]);
  }

  /** What a reader gets determines the stored text. */
  lemma FormatDeterminesText(lay: Layout, rec: Record, syslog: bool, time: bool)
    requires Storable(lay, rec)
    ensures Strip(|Prefix(lay, rec, syslog, time)|, Format(lay, rec, syslog, time)) == rec.text
  {
    PrefixShort(lay, rec, syslog, time);
    StripLines(Prefix(lay, rec, syslog, time), rec.text);
  }

  datatype Target = Count | Buffer(size: nat)

  /** `msg_print_text`: formats into a buffer, or only counts when there is none. */
  method MsgPrintText(lay: Layout, rec: Record, syslog: bool, time: bool, buf: Target)
    returns (out: seq<Byte>, len: nat)
    ensures buf.Count? ==> len == |Format(lay, rec, syslog, time)|
    ensures buf.Buffer? ==> out == FormatIn(lay, rec, syslog, time, buf.size) && len == |out|
  {
    var prefix := Prefix(lay, rec, syslog, time);
    out, len := PrintLines(prefix, rec.text, buf);
  }

  /** What the lines `ls` add to the output. */
  ghost function Added(prefix: seq<Byte>, ls: seq<seq<Byte>>, buf: Target, len: nat): seq<Byte> {
    Render(prefix, if buf.Count? then ls else ls[..Fitting(prefix, ls, buf.size - len)])
  }

  lemma AddedStep(prefix: seq<Byte>, ls: seq<seq<Byte>>, buf: Target, len: nat, line: seq<Byte>)
    requires ls != [] && line == prefix + ls[0] + [NEWLINE]
    ensures Added(prefix, ls, buf, len) ==
            if buf.Buffer? && |line| >= buf.size - len then []
            else line + Added(prefix, ls[1..], buf, len + |line|)
  {
    var k := Fitting(prefix, ls, (if buf.Buffer? then buf.size else 0) - len);
    if k > 0 {
      assert ls[..k][1..] == ls[1..][..k - 1];
    }
  }

  /** With the lines `ls` still to come, `goal` is within reach. */
  ghost predicate Reaches(goal: seq<Byte>, prefix: seq<Byte>, ls: seq<seq<Byte>>, buf: Target,
                          out: seq<Byte>, len: nat)
  {
    if buf.Count? then len + |Added(prefix, ls, buf, len)| == |goal|
    else out + Added(prefix, ls, buf, len) == goal && len == |out|
  }

  lemma ReachesStep(goal: seq<Byte>, prefix: seq<Byte>, ls: seq<seq<Byte>>, buf: Target, out: seq<Byte>, len: nat)
    requires Reaches(goal, prefix, ls, buf, out, len) && ls != []
    ensures var line := prefix + ls[0] + [NEWLINE];
            if buf.Count? then Reaches(goal, prefix, ls[1..], buf, out, len + |line|)
            else if |line| >= buf.size - len then out == goal && len == |out|
            else Reaches(goal, prefix, ls[1..], buf, out + line, len + |line|)
  {
    var line := prefix + ls[0] + [NEWLINE];
    AddedStep(prefix, ls, buf, len, line);
    Assoc(out, line, Added(prefix, ls[1..], buf, len + |line|));
    assert out + [] == out;
  }

  lemma ReachesEnd(goal: seq<Byte>, prefix: seq<Byte>, buf: Target, out: seq<Byte>, len: nat)
    requires Reaches(goal, prefix, [], buf, out, len)
    ensures if buf.Count? then len == |goal| else out == goal && len == |out|
  {
  }

  method PrintLines(prefix: seq<Byte>, body: seq<Byte>, buf: Target) returns (out: seq<Byte>, len: nat)
    ensures buf.Count? ==> len == |Render(prefix, Lines(body))|
    ensures buf.Buffer? ==>
              out == Render(prefix, Lines(body)[..Fitting(prefix, Lines(body), buf.size)]) && len == |out|
  {
    var text, more := body, true;
    ghost var ls := Lines(body);
    ghost var goal := Added(prefix, ls, buf, 0);
    out, len := [], 0;
    assert out + goal == goal;
    while more
      invariant ls == if more then Lines(text) else []
      invariant Reaches(goal, prefix, ls, buf, out, len)
      decreases more, |text|
    {
      var e := LineEnd(text);
      var line := prefix + text[..e] + [NEWLINE];
      LinesStep(text);
      ReachesStep(goal, prefix, ls, buf, out, len);
      if buf.Buffer? {
        if |prefix| + e + 1 >= buf.size - len {
          return;
        }
        out := out + line;
      }
      len := len + |line|;
      ls := ls[1..];
      more := e < |text|;
      if more {
        text := text[e + 1..];
      }
    }
    ReachesEnd(goal, prefix, buf, out, len);
  }
}
