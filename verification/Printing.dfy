/** The readers' view of the formatter. They depend only on what it promises:
    a record's whole text for a timestamp setting, and the part of it that their
    line buffer takes. */
module Printing {
  import opened Bytes
  import opened LogRecord
  import opened LineFormat

  datatype Printer = Printer(full: (Record, bool) -> seq<Byte>, line: (Record, bool) -> seq<Byte>)

  /** `p` is msg_print_text with the syslog prefix. The triggers keep the
      formatter's definition out of the readers' proofs. */
  ghost predicate Prints(lay: Layout, p: Printer) {
    var held :=
      && (forall rec, t {:trigger Format(lay, rec, true, t)} :: p.full(rec, t) == Format(lay, rec, true, t))
      && (forall rec, t {:trigger FormatIn(lay, rec, true, t, LineBuffer(lay))} ::
            p.line(rec, t) == FormatIn(lay, rec, true, t, LineBuffer(lay)))
      && (forall rec, t :: |p.line(rec, t)| <= |p.full(rec, t)| && |p.full(rec, t)| > 0)
      && (forall rec, t :: |p.full(rec, t)| < LineBuffer(lay) ==> p.line(rec, t) == p.full(rec, t));
    held
  }

  ghost function ThePrinter(lay: Layout): (p: Printer)
    ensures Prints(lay, p)
  {
    var p := Printer((rec, t) => Format(lay, rec, true, t),
                     (rec, t) => FormatIn(lay, rec, true, t, LineBuffer(lay)));
    assert forall rec, t :: |p.line(rec, t)| <= |p.full(rec, t)|
             && |p.full(rec, t)| > 0
             && (|p.full(rec, t)| < LineBuffer(lay) ==> p.line(rec, t) == p.full(rec, t)) by {
      forall rec, t
        ensures |p.line(rec, t)| <= |p.full(rec, t)| && |p.full(rec, t)| > 0
        ensures |p.full(rec, t)| < LineBuffer(lay) ==> p.line(rec, t) == p.full(rec, t)
      {
        FormatFits(lay, rec, true, t, LineBuffer(lay));
      }
    }
    p
  }

  method PrintLine(lay: Layout, ghost p: Printer, rec: Record, time: bool) returns (text: seq<Byte>)
    requires Prints(lay, p)
    ensures text == p.line(rec, time)
  {
    var n;
    text, n := MsgPrintText(lay, rec, true, time, Buffer(LineBuffer(lay)));
  }

  method CountText(lay: Layout, ghost p: Printer, rec: Record, time: bool) returns (n: nat)
    requires Prints(lay, p)
    ensures n == |p.full(rec, time)|
  {
    var text;
    text, n := MsgPrintText(lay, rec, true, time, Count);
  }

  // ---- for the dumpers, which choose the syslog prefix and the buffer size ----

  datatype Dumper = Dumper(full: (Record, bool, bool) -> seq<Byte>, cut: (Record, bool, bool, int) -> seq<Byte>)

  /** `d` is msg_print_text. */
  ghost predicate Dumps(lay: Layout, d: Dumper) {
    var held :=
      && (forall rec, s, t {:trigger Format(lay, rec, s, t)} :: d.full(rec, s, t) == Format(lay, rec, s, t))
      && (forall rec, s, t, n {:trigger FormatIn(lay, rec, s, t, n)} ::
            d.cut(rec, s, t, n) == FormatIn(lay, rec, s, t, n))
      && (forall rec, s, t, n :: |d.full(rec, s, t)| < n ==> d.cut(rec, s, t, n) == d.full(rec, s, t))
      && (forall rec, s, t :: 0 < |d.full(rec, s, t)| <= |d.full(rec, true, t)|);
    held
  }

  lemma {:induction false} RenderMono(p: seq<Byte>, p': seq<Byte>, ls: seq<seq<Byte>>)
    requires |p| <= |p'|
    ensures |Render(p, ls)| <= |Render(p', ls)|
  {
    if ls != [] {
      RenderMono(p, p', ls[1..]);
    }
  }

  lemma DumperFits(lay: Layout, rec: Record, s: bool, t: bool, n: int)
    ensures |Format(lay, rec, s, t)| < n ==> FormatIn(lay, rec, s, t, n) == Format(lay, rec, s, t)
    ensures 0 < |Format(lay, rec, s, t)| <= |Format(lay, rec, true, t)|
  {
    FormatFits(lay, rec, s, t, n);
    RenderMono(Prefix(lay, rec, s, t), Prefix(lay, rec, true, t), Lines(rec.text));
  }

  ghost function TheDumper(lay: Layout): (d: Dumper)
    ensures Dumps(lay, d)
  {
    var d := Dumper((rec, s, t) => Format(lay, rec, s, t), (rec, s, t, n) => FormatIn(lay, rec, s, t, n));
    assert forall rec, s, t, n :: |d.full(rec, s, t)| < n ==> d.cut(rec, s, t, n) == d.full(rec, s, t) by {
      forall rec, s, t, n
        ensures |d.full(rec, s, t)| < n ==> d.cut(rec, s, t, n) == d.full(rec, s, t)
      {
        DumperFits(lay, rec, s, t, n);
      }
    }
    assert forall rec, s, t :: 0 < |d.full(rec, s, t)| <= |d.full(rec, true, t)| by {
      forall rec, s, t
        ensures 0 < |d.full(rec, s, t)| <= |d.full(rec, true, t)|
      {
        DumperFits(lay, rec, s, t, 0);
      }
    }
    d
  }

  method DumpText(lay: Layout, ghost d: Dumper, rec: Record, syslog: bool, time: bool, size: nat)
    returns (text: seq<Byte>)
    requires Dumps(lay, d)
    ensures text == d.cut(rec, syslog, time, size)
  {
    var n;
    text, n := MsgPrintText(lay, rec, syslog, time, Buffer(size));
  }

  method DumpCount(lay: Layout, ghost d: Dumper, rec: Record, syslog: bool, time: bool) returns (n: nat)
    requires Dumps(lay, d)
    ensures n == |d.full(rec, syslog, time)|
  {
    var text;
    text, n := MsgPrintText(lay, rec, syslog, time, Count);
  }
}
