/** The /dev/kmsg form of a record: `msg_print_ext_header` and the escaping
    `msg_print_ext_body`. */
module ExtFormat {
  import opened Bytes
  import opened LogRecord
  import opened LineFormat

  const BACKSLASH: Byte := 92
  const SEMICOLON: Byte := 59
  const COMMA: Byte := 44

  // ---- escaping ----

  predicate Escaped(c: Byte) { c < 32 || c >= 127 || c == BACKSLASH }

  function Hex(d: nat): (c: Byte)
    requires d < 16
    ensures 48 <= c < 58 || 97 <= c < 103
  {
    if d < 10 then 48 + d else 87 + d
  }

  function UnHex(c: Byte): nat {
    if 48 <= c < 58 then c - 48 else if 97 <= c < 103 then c - 87 else 0
  }

  /** "\\x%02x" or the character itself. */
  function EscChar(c: Byte): (s: seq<Byte>)
    ensures |s| == if Escaped(c) then 4 else 1
    ensures forall i :: 0 <= i < |s| ==> 32 <= s[i] < 127
  {
    if Escaped(c) then [BACKSLASH, 120, Hex(c / 16), Hex(c % 16)] else [c]
  }

  function EscText(t: seq<Byte>): (s: seq<Byte>)
    ensures forall i :: 0 <= i < |s| ==> 32 <= s[i] < 127
  {
    if t == [] then [] else EscChar(t[0]) + EscText(t[1..])
  }

  /** The dictionary: each property behind a space, NUL becomes a newline. */
  function EscDict(d: seq<Byte>, line: bool): seq<Byte> {
    if d == [] then []
    else
      (if line then [SPACE] else [])
      + (if d[0] == 0 then [NEWLINE] + EscDict(d[1..], true) else EscChar(d[0]) + EscDict(d[1..], false))
  }

  function DictPart(dict: seq<Byte>): seq<Byte> {
    if dict == [] then [] else EscDict(dict, true) + [NEWLINE]
  }

  /** The whole body, as a large enough buffer takes it. */
  function Body(text: seq<Byte>, dict: seq<Byte>): seq<Byte> {
    EscText(text) + ([NEWLINE] + DictPart(dict))
  }

  predicate Printable(s: seq<Byte>) {
    forall i :: 0 <= i < |s| ==> s[i] == NEWLINE || 32 <= s[i] < 127
  }

  lemma {:induction false} DictPrintable(d: seq<Byte>, line: bool)
    ensures Printable(EscDict(d, line))
  {
    if d != [] {
      DictPrintable(d[1..], d[0] == 0);
    }
  }

  /** Whatever the record holds, the body is printable ASCII and newlines. */
  lemma BodyPrintable(text: seq<Byte>, dict: seq<Byte>)
    ensures Printable(Body(text, dict))
  {
    DictPrintable(dict, true);
  }

  /** Printable text without a backslash is left as it is. */
  lemma {:induction false} PlainText(t: seq<Byte>)
    requires forall i :: 0 <= i < |t| ==> 32 <= t[i] < 127 && t[i] != BACKSLASH
    ensures EscText(t) == t
  {
    if t != [] {
      PlainText(t[1..]);
    }
  }

  // ---- decoding ----

  function UnescText(s: seq<Byte>): seq<Byte> {
    if s == [] then []
    else if |s| >= 4 && s[0] == BACKSLASH && s[1] == 120 then
      [(16 * UnHex(s[2]) + UnHex(s[3])) % 256] + UnescText(s[4..])
    else [s[0]] + UnescText(s[1..])
  }

  function UnescDict(s: seq<Byte>, line: bool): seq<Byte> {
    if s == [] then []
    else if line then if s[0] == SPACE then UnescDict(s[1..], false) else []
    else if s[0] == NEWLINE then [0] + UnescDict(s[1..], true)
    else if |s| >= 4 && s[0] == BACKSLASH && s[1] == 120 then
      [(16 * UnHex(s[2]) + UnHex(s[3])) % 256] + UnescDict(s[4..], false)
    else [s[0]] + UnescDict(s[1..], false)
  }

  /** Text up to the first newline, then the dictionary without its last newline. */
  function DecodeBody(s: seq<Byte>): (seq<Byte>, seq<Byte>) {
    var e := LineEnd(s);
    (UnescText(s[..e]), if e < |s| then UnescTail(s[e + 1..]) else [])
  }

  function UnescTail(t: seq<Byte>): seq<Byte> {
    if t == [] then [] else UnescDict(t[..|t| - 1], true)
  }

  lemma HexRoundTrip(c: Byte)
    ensures (16 * UnHex(Hex(c / 16)) + UnHex(Hex(c % 16))) % 256 == c
  {
  }

  lemma UnescChar(c: Byte, s: seq<Byte>)
    ensures UnescText(EscChar(c) + s) == [c] + UnescText(s)
    ensures c != 0 ==> UnescDict(EscChar(c) + s, false) == [c] + UnescDict(s, false)
  {
    var x := EscChar(c) + s;
    HexRoundTrip(c);
    if Escaped(c) {
      assert x[4..] == s;
    } else {
      assert x[1..] == s;
    }
  }

  lemma {:induction false} UnescTextRoundTrip(t: seq<Byte>)
    ensures UnescText(EscText(t)) == t
  {
    if t != [] {
      UnescTextRoundTrip(t[1..]);
      UnescChar(t[0], EscText(t[1..]));
    }
  }

  lemma {:induction false} UnescDictRoundTrip(d: seq<Byte>, line: bool)
    ensures UnescDict(EscDict(d, line), line) == d
    decreases |d|, line
  {
    if d == [] {
    } else if line {
      UnescDictRoundTrip(d, false);
      assert EscDict(d, true) == [SPACE] + EscDict(d, false);
      assert ([SPACE] + EscDict(d, false))[1..] == EscDict(d, false);
    } else if d[0] == 0 {
      var rest := EscDict(d[1..], true);
      UnescDictRoundTrip(d[1..], true);
      assert EscDict(d, false) == [NEWLINE] + rest;
      assert ([NEWLINE] + rest)[1..] == rest;
    } else {
      UnescDictRoundTrip(d[1..], false);
      UnescChar(d[0], EscDict(d[1..], false));
      assert EscDict(d, false) == EscChar(d[0]) + EscDict(d[1..], false);
    }
  }

  /** Extended format round trip: the body determines text and dictionary, down to
      a trailing empty property. */
  lemma BodyRoundTrip(text: seq<Byte>, dict: seq<Byte>)
    ensures DecodeBody(Body(text, dict)) == (text, dict)
  {
    SplitAtNewline(EscText(text), DictPart(dict));
    UnescTextRoundTrip(text);
    UnescTailRoundTrip(dict);
  }

  lemma UnescTailRoundTrip(dict: seq<Byte>)
    ensures UnescTail(DictPart(dict)) == dict
  {
    if dict != [] {
      Snoc(EscDict(dict, true), NEWLINE);
      UnescDictRoundTrip(dict, true);
    }
  }

  lemma SplitAtNewline(t: seq<Byte>, tail: seq<Byte>)
    requires NoNewline(t)
    ensures var s := t + ([NEWLINE] + tail);
            LineEnd(s) == |t| && s[..|t|] == t && s[|t| + 1..] == tail
  {
    var s := t + ([NEWLINE] + tail);
    assert forall i :: 0 <= i < |t| ==> s[i] == t[i];
    assert s[|t|] == NEWLINE;
    LineEndUnique(s, |t|);
  }

  // ---- the bounded writer ----

  /** `append_char` */
  function AppendChar(out: seq<Byte>, c: Byte, size: nat): seq<Byte> {
    if |out| < size then out + [c] else out
  }

  /** scnprintf of an escape: it keeps the last byte of the buffer for a NUL. */
  function AppendEscape(out: seq<Byte>, c: Byte, size: nat): seq<Byte>
    requires Escaped(c)
  {
    out + EscChar(c)[..Min(4, Max(size - |out| - 1, 0))]
  }

  /** One character of text or dictionary. */
  function AppendEsc(out: seq<Byte>, c: Byte, size: nat): (r: seq<Byte>)
    requires |out| <= size
    ensures |r| <= size
    ensures |out| + |EscChar(c)| < size ==> r == out + EscChar(c)
  {
    if Escaped(c) then AppendEscape(out, c, size) else AppendChar(out, c, size)
  }

  /** The buffer is full, up to the last byte, of the beginning of a body too long
      for it; an escape that did not fit has spoilt no more than the last four bytes. */
  ghost predicate CutShort(out: seq<Byte>, body: seq<Byte>, size: nat) {
    && |body| > size >= |out| >= size - 1
    && forall i :: 0 <= i < size - 4 ==> out[i] == body[i]
  }

  /** `out` is the beginning of the body and `rest` its end, or it is too long. */
  ghost predicate OnTrack(out: seq<Byte>, rest: seq<Byte>, body: seq<Byte>, size: nat) {
    || (|out| <= size && out + rest == body)
    || CutShort(out, body, size)
  }

  lemma TrackEsc(out: seq<Byte>, c: Byte, rest: seq<Byte>, body: seq<Byte>, size: nat)
    requires OnTrack(out, EscChar(c) + rest, body, size) && rest != []
    ensures OnTrack(AppendEsc(out, c, size), rest, body, size)
  {
    Assoc(out, EscChar(c), rest);
    if !CutShort(out, body, size) {
      assert |out| + |EscChar(c)| + |rest| == |body|;
      assert forall i :: 0 <= i < |out| ==> out[i] == body[i];
    }
  }

  lemma TrackChar(out: seq<Byte>, c: Byte, rest: seq<Byte>, body: seq<Byte>, size: nat)
    requires OnTrack(out, [c] + rest, body, size)
    ensures OnTrack(AppendChar(out, c, size), rest, body, size)
  {
    Assoc(out, [c], rest);
    if !CutShort(out, body, size) {
      assert |out| + 1 + |rest| == |body|;
      assert forall i :: 0 <= i < |out| ==> out[i] == body[i];
    }
  }

  lemma TrackSpace(out: seq<Byte>, d: seq<Byte>, body: seq<Byte>, size: nat)
    requires d != [] && OnTrack(out, EscDict(d, true) + [NEWLINE], body, size)
    ensures OnTrack(AppendChar(out, SPACE, size), EscDict(d, false) + [NEWLINE], body, size)
  {
    var rest := EscDict(d, false);
    assert EscDict(d, true) == [SPACE] + rest;
    Assoc([SPACE], rest, [NEWLINE]);
    TrackChar(out, SPACE, rest + [NEWLINE], body, size);
  }

  lemma TrackDictChar(out: seq<Byte>, d: seq<Byte>, body: seq<Byte>, size: nat)
    requires d != [] && OnTrack(out, EscDict(d, false) + [NEWLINE], body, size)
    ensures if d[0] == 0 then OnTrack(AppendChar(out, NEWLINE, size), EscDict(d[1..], true) + [NEWLINE], body, size)
            else OnTrack(AppendEsc(out, d[0], size), EscDict(d[1..], false) + [NEWLINE], body, size)
  {
    if d[0] == 0 {
      var rest := EscDict(d[1..], true);
      assert EscDict(d, false) == [NEWLINE] + rest;
      Assoc([NEWLINE], rest, [NEWLINE]);
      TrackChar(out, NEWLINE, rest + [NEWLINE], body, size);
    } else {
      var rest := EscDict(d[1..], false);
      assert EscDict(d, false) == EscChar(d[0]) + rest;
      Assoc(EscChar(d[0]), rest, [NEWLINE]);
      TrackEsc(out, d[0], rest + [NEWLINE], body, size);
    }
  }

  /** `msg_print_ext_body`: never longer than the buffer, and complete exactly
      when the whole body fits; one that does not fills the buffer with its
      beginning, but for the last bytes. */
  method MsgPrintExtBody(size: nat, dict: seq<Byte>, text: seq<Byte>) returns (out: seq<Byte>)
    ensures |out| <= size
    ensures out == Body(text, dict) <==> |Body(text, dict)| <= size
    ensures |Body(text, dict)| > size ==> CutShort(out, Body(text, dict), size)
  {
    ghost var body := Body(text, dict);
    out := PrintText(size, text, [NEWLINE] + DictPart(dict));
    TrackChar(out, NEWLINE, DictPart(dict), body, size);
    out := AppendChar(out, NEWLINE, size);
    if |dict| > 0 {
      out := PrintDict(size, dict, out, body);
      assert [NEWLINE] + [] == [NEWLINE];
      TrackChar(out, NEWLINE, [], body, size);
      out := AppendChar(out, NEWLINE, size);
    }
    assert out + [] == out;
  }

  method PrintText(size: nat, text: seq<Byte>, ghost tail: seq<Byte>) returns (out: seq<Byte>)
    requires tail != []
    ensures OnTrack(out, tail, EscText(text) + tail, size)
  {
    ghost var body := EscText(text) + tail;
    out := [];
    assert text[0..] == text && [] + body == body;
    for i := 0 to |text|
      invariant OnTrack(out, EscText(text[i..]) + tail, body, size)
    {
      ghost var rest := EscText(text[i + 1..]) + tail;
      assert text[i..][0] == text[i] && text[i..][1..] == text[i + 1..];
      Assoc(EscChar(text[i]), EscText(text[i + 1..]), tail);
      TrackEsc(out, text[i], rest, body, size);
      out := AppendEsc(out, text[i], size);
    }
    assert text[|text|..] == [] && EscText([]) + tail == tail;
  }

  method PrintDict(size: nat, dict: seq<Byte>, start: seq<Byte>, ghost body: seq<Byte>) returns (out: seq<Byte>)
    requires dict != [] && OnTrack(start, DictPart(dict), body, size)
    ensures OnTrack(out, [NEWLINE], body, size)
  {
    out := start;
    var line := true;
    assert dict[0..] == dict;
    for i := 0 to |dict|
      invariant OnTrack(out, EscDict(dict[i..], line) + [NEWLINE], body, size)
    {
      var c := dict[i];
      assert dict[i..][0] == c && dict[i..][1..] == dict[i + 1..];
      if line {
        TrackSpace(out, dict[i..], body, size);
        out := AppendChar(out, SPACE, size);
        line := false;
      }
      TrackDictChar(out, dict[i..], body, size);
      if c == 0 {
        out := AppendChar(out, NEWLINE, size);
        line := true;
      } else {
        out := AppendEsc(out, c, size);
      }
    }
    assert dict[|dict|..] == [] && EscDict([], line) + [NEWLINE] == [NEWLINE];
  }

  // ---- the header ----

  /** ",caller=%c%u" */
  function CallerField(lay: Layout, id: nat): seq<Byte> {
    if !lay.caller then []
    else [COMMA, 99, 97, 108, 108, 101, 114, 61] + [if id >= 0x8000_0000 then 67 else 84] + Decimal(id % 0x8000_0000)
  }

  /** 'c' for LOG_CONT, '-' otherwise */
  function FlagText(rec: Record): (f: seq<Byte>)
    ensures NoComma(f) && forall i :: 0 <= i < |f| ==> f[i] != SEMICOLON
  {
    if rec.flags / 8 % 2 == 1 then [99] else [45]
  }

  predicate NoComma(s: seq<Byte>) {
    forall i :: 0 <= i < |s| ==> s[i] != COMMA
  }

  /** "%u,%llu,%llu,%c%s;" of priority, sequence number, microseconds, LOG_CONT. */
  function Header(lay: Layout, rec: Record, s: nat): seq<Byte> {
    HeaderFields(lay, rec, s) + [SEMICOLON]
  }

  function HeaderFields(lay: Layout, rec: Record, s: nat): (f: seq<Byte>)
    ensures forall i :: 0 <= i < |f| ==> f[i] != SEMICOLON
  {
    Decimal(8 * rec.facility + rec.level) + [COMMA] + Decimal(s) + [COMMA] + Decimal(rec.ts / 1000) + [COMMA]
    + FlagText(rec) + CallerField(lay, rec.caller)
  }

  /** "find the message after the ';' character" */
  function Message(line: seq<Byte>): seq<Byte> {
    var e := Find(line, SEMICOLON, 0);
    if e == |line| then [] else line[e + 1..]
  }

  /** A /dev/kmsg line read whole gives back text and dictionary. */
  lemma LineRoundTrip(lay: Layout, rec: Record, s: nat)
    ensures DecodeBody(Message(Header(lay, rec, s) + Body(rec.text, rec.dict))) == (rec.text, rec.dict)
  {
    HeaderEnds(lay, rec, s, Body(rec.text, rec.dict));
    BodyRoundTrip(rec.text, rec.dict);
  }

  lemma HeaderEnds(lay: Layout, rec: Record, s: nat, b: seq<Byte>)
    ensures var line, f := Header(lay, rec, s) + b, HeaderFields(lay, rec, s);
            Find(line, SEMICOLON, 0) == |f| < |line| && line[..|f|] == f && line[|f| + 1..] == b
  {
    var line, f := Header(lay, rec, s) + b, HeaderFields(lay, rec, s);
    assert line[|f|] == SEMICOLON;
    assert forall i :: 0 <= i < |f| ==> line[i] == f[i];
  }

  // ---- decoding the header ----

  /** What the fields in front of the ';' say; `caller` is 0 without the field. */
  datatype Info = Info(facility: nat, level: nat, seqNo: nat, usec: nat, cont: bool, caller: nat)

  /** The comma-separated fields. */
  function Split(s: seq<Byte>): (fs: seq<seq<Byte>>)
    ensures fs != []
    decreases |s|
  {
    var e := Find(s, COMMA, 0);
    [s[..e]] + (if e == |s| then [] else Split(s[e + 1..]))
  }

  lemma SplitField(f: seq<Byte>, rest: seq<Byte>)
    requires NoComma(f)
    ensures Split(f + [COMMA] + rest) == [f] + Split(rest)
  {
    var s := f + [COMMA] + rest;
    assert s[|f|] == COMMA;
    assert forall i :: 0 <= i < |f| ==> s[i] == f[i];
    assert Find(s, COMMA, 0) == |f|;
    assert s[..|f|] == f && s[|f| + 1..] == rest;
  }

  lemma SplitLast(f: seq<Byte>)
    requires NoComma(f)
    ensures Split(f) == [f]
  {
    assert Find(f, COMMA, 0) == |f|;
    assert f[..|f|] == f;
  }

  /** "caller=T12" or "caller=C3" */
  function CallerText(id: nat): (f: seq<Byte>)
    ensures |f| > 8 && NoComma(f)
  {
    [99, 97, 108, 108, 101, 114, 61, if id >= 0x8000_0000 then 67 else 84] + Decimal(id % 0x8000_0000)
  }

  function DecodeCaller(f: seq<Byte>): nat {
    if |f| <= 8 then 0 else (if f[7] == 67 then 0x8000_0000 else 0) + Number(f[8..])
  }

  lemma CallerRoundTrip(id: nat)
    requires id < 0x1_0000_0000
    ensures DecodeCaller(CallerText(id)) == id
  {
    NumberDecimal(id % 0x8000_0000);
    assert CallerText(id)[8..] == Decimal(id % 0x8000_0000);
  }

  function DecodeHeader(line: seq<Byte>): Info {
    InfoOf(Split(line[..Find(line, SEMICOLON, 0)]))
  }

  function InfoOf(fs: seq<seq<Byte>>): Info {
    if |fs| < 4 then Info(0, 0, 0, 0, false, 0)
    else Info(Number(fs[0]) / 8, Number(fs[0]) % 8, Number(fs[1]), Number(fs[2]), fs[3] == [99],
              if |fs| == 4 then 0 else DecodeCaller(fs[4]))
  }

  lemma Regroup(a: seq<Byte>, b: seq<Byte>, c: seq<Byte>, f: seq<Byte>, g: seq<Byte>)
    ensures a + [COMMA] + b + [COMMA] + c + [COMMA] + f + g == a + [COMMA] + (b + [COMMA] + (c + [COMMA] + (f + g)))
  {
  }

  lemma SplitThree(a: seq<Byte>, b: seq<Byte>, c: seq<Byte>, tail: seq<Byte>)
    requires NoComma(a) && NoComma(b) && NoComma(c)
    ensures Split(a + [COMMA] + (b + [COMMA] + (c + [COMMA] + tail))) == [a] + ([b] + ([c] + Split(tail)))
  {
    SplitField(a, b + [COMMA] + (c + [COMMA] + tail));
    SplitField(b, c + [COMMA] + tail);
    SplitField(c, tail);
  }

  lemma SplitTail(lay: Layout, rec: Record)
    ensures Split(FlagText(rec) + CallerField(lay, rec.caller))
         == [FlagText(rec)] + if lay.caller then [CallerText(rec.caller)] else []
  {
    var f := FlagText(rec);
    if lay.caller {
      assert f + CallerField(lay, rec.caller) == f + [COMMA] + CallerText(rec.caller);
      SplitField(f, CallerText(rec.caller));
      SplitLast(CallerText(rec.caller));
    } else {
      assert f + [] == f;
      SplitLast(f);
    }
  }

  /** The fields, as `DecodeHeader` finds them. */
  function Fields(lay: Layout, rec: Record, s: nat): seq<seq<Byte>> {
    [Decimal(8 * rec.facility + rec.level)] + ([Decimal(s)] + ([Decimal(rec.ts / 1000)] +
    ([FlagText(rec)] + if lay.caller then [CallerText(rec.caller)] else [])))
  }

  lemma FieldsGrouped(lay: Layout, rec: Record, s: nat)
    ensures HeaderFields(lay, rec, s)
         == Decimal(8 * rec.facility + rec.level) + [COMMA] + (Decimal(s) + [COMMA] +
            (Decimal(rec.ts / 1000) + [COMMA] + (FlagText(rec) + CallerField(lay, rec.caller))))
  {
    Regroup(Decimal(8 * rec.facility + rec.level), Decimal(s), Decimal(rec.ts / 1000), FlagText(rec),
            CallerField(lay, rec.caller));
  }

  lemma FieldsSplit(lay: Layout, rec: Record, s: nat)
    ensures Split(HeaderFields(lay, rec, s)) == Fields(lay, rec, s)
  {
    FieldsGrouped(lay, rec, s);
    SplitThree(Decimal(8 * rec.facility + rec.level), Decimal(s), Decimal(rec.ts / 1000),
               FlagText(rec) + CallerField(lay, rec.caller));
    SplitTail(lay, rec);
  }

  lemma FieldsAt(lay: Layout, rec: Record, s: nat)
    ensures var fs := Fields(lay, rec, s);
            && |fs| == (if lay.caller then 5 else 4)
            && fs[0] == Decimal(8 * rec.facility + rec.level)
            && fs[1] == Decimal(s) && fs[2] == Decimal(rec.ts / 1000) && fs[3] == FlagText(rec)
            && (lay.caller ==> fs[4] == CallerText(rec.caller))
  {
  }

  /** The header of a stored record's line determines facility, level, sequence
      number, microseconds, continuation flag and caller, whatever follows it. */
  lemma HeaderRoundTrip(lay: Layout, rec: Record, s: nat, b: seq<Byte>)
    requires Storable(lay, rec)
    ensures DecodeHeader(Header(lay, rec, s) + b)
         == Info(rec.facility, rec.level, s, rec.ts / 1000, rec.flags / 8 % 2 == 1, rec.caller)
  {
    HeaderEnds(lay, rec, s, b);
    FieldsSplit(lay, rec, s);
    InfoOfFields(lay, rec, s);
  }

  lemma InfoOfFields(lay: Layout, rec: Record, s: nat)
    requires Storable(lay, rec)
    ensures InfoOf(Fields(lay, rec, s))
         == Info(rec.facility, rec.level, s, rec.ts / 1000, rec.flags / 8 % 2 == 1, rec.caller)
  {
    var fs := Fields(lay, rec, s);
    FieldsAt(lay, rec, s);
    NumberDecimal(8 * rec.facility + rec.level);
    NumberDecimal(s);
    NumberDecimal(rec.ts / 1000);
    CallerRoundTrip(rec.caller);
    FlagRead(rec);
    InfoOfNumbers(fs, rec.facility, rec.level, s, rec.ts / 1000);
  }

  lemma FlagRead(rec: Record)
    ensures FlagText(rec) == [99] <==> rec.flags / 8 % 2 == 1
  {
    assert [45][0] != [99][0];
  }

  lemma InfoOfNumbers(fs: seq<seq<Byte>>, facility: nat, level: nat, s: nat, usec: nat)
    requires |fs| >= 4 && level < 8
    requires Number(fs[0]) == 8 * facility + level && Number(fs[1]) == s && Number(fs[2]) == usec
    ensures InfoOf(fs) == Info(facility, level, s, usec, fs[3] == [99], if |fs| == 4 then 0 else DecodeCaller(fs[4]))
  {
  }
}
