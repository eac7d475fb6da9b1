/** /dev/kmsg readers: each open file holds its own position in the log. */
module DevKmsg {
  import opened Bytes
  import opened LogRecord
  import opened LogRing
  import opened LogBuffers
  import opened ExtFormat

  /** -EAGAIN, -EPIPE, -EINVAL, or a line. */
  datatype ReadResult = WouldBlock | Overrun | TooLong | Line(text: seq<Byte>)

  datatype Whence = SeekSet | SeekData | SeekEnd

  datatype PollResult = Nothing | Readable | ReadableWithError

  /** struct devkmsg_user */
  class DevkmsgUser {
    const log: LogBuffer
    const bufSize: nat  // CONSOLE_EXT_LOG_MAX
    var seqNo: nat
    var idx: nat

    ghost predicate Valid()
      reads this, log
    {
      log.Cursor(seqNo, idx) && seqNo <= log.ring.Next()
    }

    /** `devkmsg_open` */
    constructor (log: LogBuffer, bufSize: nat)
      requires log.Valid()
      ensures Valid() && this.log == log && this.bufSize == bufSize && seqNo == log.firstSeq
    {
      this.log, this.bufSize := log, bufSize;
      seqNo, idx := log.firstSeq, log.firstIdx;
    }

    /** Header and body as they come to lie in the user's buffer, whole or filling it. */
    method FormatLine(rec: Record, s: nat) returns (line: seq<Byte>)
      ensures |line| <= bufSize
      ensures var h, b := Header(log.lay, rec, s), Body(rec.text, rec.dict);
              |h| < bufSize ==> if |h| + |b| <= bufSize then line == h + b else CutShort(line, h + b, bufSize)
    {
      var h := Header(log.lay, rec, s);
      ghost var whole := h;
      h := h[..Min(|h|, Max(bufSize - 1, 0))];
      assert |whole| < bufSize ==> h == whole;
      var b := MsgPrintExtBody(bufSize - |h|, rec.dict, rec.text);
      line := h + b;
    }

    /** `devkmsg_read` without blocking. A record that is gone is reported once and
        the reader moved to the oldest one; otherwise the record at the reader's
        position is consumed, also when it is longer than the caller's buffer,
        and what is delivered decodes to it. */
    method Read(count: nat) returns (r: ReadResult)
      requires log.Valid() && Valid()
      modifies this
      ensures Valid()
      ensures r.WouldBlock? <==> old(seqNo) == log.nextSeq
      ensures r.Overrun? <==> old(seqNo) < log.firstSeq && old(seqNo) != log.nextSeq
      ensures seqNo == match r
                       case WouldBlock => old(seqNo)
                       case Overrun => log.firstSeq
                       case _ => old(seqNo) + 1
      ensures (r.Line? || r.TooLong?) ==>
                var rec := log.ring.hist[old(seqNo)];
                var h, b := Header(log.lay, rec, old(seqNo)), Body(rec.text, rec.dict);
                |h| < bufSize ==>
                  if |h| + |b| <= bufSize then
                    (r.Line? <==> |h| + |b| <= count) && (r.Line? ==> r.text == h + b)
                  else
                    (count >= bufSize ==> r.Line?) && (r.Line? ==> CutShort(r.text, h + b, bufSize))
      ensures r.Line? ==> |r.text| <= count
    {
      if seqNo == log.nextSeq {
        return WouldBlock;
      }
      if seqNo < log.firstSeq {
        seqNo, idx := log.firstSeq, log.firstIdx;
        return Overrun;
      }
      var rec := log.LogFromIdx(idx, seqNo);
      var line := FormatLine(rec, seqNo);
      idx := log.LogNext(idx, seqNo);
      seqNo := seqNo + 1;
      if |line| > count {
        return TooLong;
      }
      return Line(line);
    }

    /** `devkmsg_llseek` with offset 0 */
    method Seek(whence: Whence)
      requires log.Valid() && Valid()
      modifies this
      ensures Valid()
      ensures seqNo == match whence
                       case SeekSet => log.firstSeq
                       case SeekData => log.clearSeq
                       case SeekEnd => log.nextSeq
    {
      match whence {
        case SeekSet => seqNo, idx := log.firstSeq, log.firstIdx;
        case SeekData => seqNo, idx := log.clearSeq, log.clearIdx;
        case SeekEnd => seqNo, idx := log.nextSeq, log.nextIdx;
      }
    }

    /** `devkmsg_poll` says what the next read would do. */
    method Poll() returns (r: PollResult)
      requires log.Valid() && Valid()
      ensures r.Nothing? <==> seqNo == log.nextSeq
      ensures r.ReadableWithError? <==> seqNo < log.firstSeq && seqNo != log.nextSeq
    {
      if seqNo < log.nextSeq {
        if seqNo < log.firstSeq {
          return ReadableWithError;
        }
        return Readable;
      }
      return Nothing;
    }

    /** After a seek to the last clear the next read never reports lost records:
        clear_seq does not fall behind log_first_seq. */
    method SeekDataThenRead(count: nat) returns (r: ReadResult)
      requires log.Valid() && Valid()
      modifies this
      ensures Valid() && !r.Overrun?
      ensures r.WouldBlock? <==> log.clearSeq == log.nextSeq
    {
      Seek(SeekData);
      r := Read(count);
    }
  }
}
