# Kernel log and block queues

A Dafny model, with proofs, of two pieces of stateful kernel code: the kernel
log of `printk.c` and the packet queues that `prueth_core.c` shares with the
network firmware.

## What is modelled

**The record ring** (`LogRecord.dfy`, `LogRing.dfy`, `LogBuffer.dfy`). `LogRing`
is the specification: a ring that remembers every record ever stored and the
index each sequence number was given, so that "this (seq, idx) pair is genuine"
is a statement about a sequence that only grows. Its main results are the
refinement to a bounded queue of numbered records, the exact condition under
which a message is stored whole, truncated or discarded, that no record is
dropped for a message that has a place without that, and that a cursor taken at
any time stays good over every run. `LogBuffer` is the code: a class over a
byte array with the index and sequence fields of the source, whose methods are
proved to do what the specification says and to keep every surviving record's
bytes. Buffer length, struct packing, the caller field and the width of
`unsigned long` are parameters.

**Formatters** (`LineFormat.dfy`, `ExtFormat.dfy`). The prefixed line form with
its count-only mode, and the escaped form of /dev/kmsg, each with a decoder that
inverts it. `Printing.dfy` gives the readers the formatter as a value together
with what they may rely on.

**Readers** (`SyslogSpec.dfy`, `Syslog.dfy`, `KmsgDump.dfy`, `DevKmsg.dfy`,
`ConsoleCursor.dfy`). Each holds a (seq, idx) pair that can be overtaken. Where
the source releases `logbuf_lock`, the methods take the operations that happen
in that window as an argument and run them on the log, so the contracts hold for
arbitrary interference. What the syslog reader delivers is specified as a
function of what each look at the log saw; a session is any sequence of reads.
What a call delivers is also stated apart from the functions that compute it: in
levels for the console, in bytes and settings for each look of the syslog reader.

**Continuation lines** (`Continuation.dfy`, `Printk.dfy`). The buffer in front of
the log, as pure functions and as a class over a byte array that is proved equal
to them. `Printk` puts the log behind it and proves what arrives there.

**The console lock** (`ConsoleLock.dfy`). A state machine over any number of
threads; a step is what the code does under one spinlock or in one atomic
operation. `vprintk_emit`, `console_trylock_spinning`, the two spinning helpers
and `console_unlock` with its re-check are the program. Records passed are
classified, so that "nothing is left unprinted" and the accounts are invariants,
and a measure shows that the console comes to rest. That the hand-over to a
waiting thread happens is proved as a run of its own. The assumptions are those of
the code's comments: usable consoles, no suspend, no flush on panic, and no
printing deferred by the scheduler.

**Block queues** (`BlockRing.dfy`, `BlockQueue.dfy`, `RxPackets.dfy`,
`BlockFlow.dfy`, `Interleaving.dfy`). `BlockRing` says what the two ends agree
on, in terms of the ring read from its first block on. `BlockQueue` is the
driver's code over the two shared memories, and `RxPackets` the receive function
over several queues. The two ends are proved to be inverse, and the delivery law
is proved with its exact condition: twice, for calls that do not overlap, where a
packet that takes all free blocks makes the two pointers equal, which both ends
read as "empty"; and for sends between any two turns of a receive call, which
knows the write pointer as it was when the call began.

Two forms of predicate keep the proofs small. One written `var held := ...; held`
is one fact to the proofs that use it. One written `forall k {:trigger Opened(s, k)}
:: Opened(s, k) ==> P` means P, as `Opened` is always true, but a proof looks at P
only where it says `assert Opened(s, 0)`; usually a lemma beside it does.

## Where the code and its text differ

- The comment on `logbuf_has_space` says that equal indices mean empty or full.
  Full is unreachable: the reserved header keeps the indices apart
  (`LogRing.EqualIndicesMeanEmpty`).
- The record drawn in the comment at printk.c:340 gives the dictionary a length
  that its bytes do not have. The model follows the code.
- `prueth_tx_enqueue` accepts a packet that needs exactly the free blocks and
  thereby makes a full queue look empty. Between calls that loses packets
  (`BlockRing.FullMeansEmpty`); while a call is under way it does not, unless an
  end reads the pointers before the call has taken a packet (`BlockFlow.LawExactly`).
- `kmsg_dump_get_buffer` sizes its block with the syslog prefix whatever the
  caller asks for, and repeated calls end only if every record is shorter than
  the buffer (`KmsgDump.ProgressExact`, `KmsgDump.DumpEndsExactly`).
- `devkmsg_read` consumes a record also when it then returns -EINVAL because the
  caller's buffer is too small.
- The line about dropped messages is lost when nothing printable follows it; the
  accounts (`ConsoleLock.Accounts`) count the gaps, not the lines.

## Model

| member | source | states |
|---|---|---|
| `LogRecord.FillRecord` | Backup/ABINASH/ti-sdk-final-work/kernel/printk.c:655-669 | filling header, text, note, dictionary and padding at any offset leaves bytes from which the header fields, `log_text` and `log_dict` give back exactly the record, and changes no byte outside it |
| `LogRecord.StoresFields` | Backup/ABINASH/ti-sdk-final-work/kernel/printk.c:367-383 | the struct's fields at their offsets and widths, for both packings and with or without the caller id, determine the record they were written from |
| `LogRing.EqualIndicesMeanEmpty` | Backup/ABINASH/ti-sdk-final-work/kernel/printk.c:531-549 | in every reachable state equal first and next index mean an empty buffer and nothing else, and the next index lies before the first one exactly when live records have wrapped; the "or full" of the comment is unreachable |
| `LogRing.RoomExact` | Backup/ABINASH/ti-sdk-final-work/kernel/printk.c:556-575 | making room succeeds if and only if the message fits an empty buffer at the current index, and when it fails every record has been dropped |
| `LogRing.RoomIsPlace` | Backup/ABINASH/ti-sdk-final-work/kernel/printk.c:531-554 | the two-index test finds room exactly when there is a place: the record and an empty header, put where the next record is due or at the start of the buffer, lie within it and meet no live record and no wrap marker still needed |
| `LogRing.FewestDropped` | Backup/ABINASH/ti-sdk-final-work/kernel/printk.c:556-575 | making room never drops a record too many: with any fewer dropped there is no place for the message |
| `LogRing.RoomAhead` | Backup/ABINASH/ti-sdk-final-work/kernel/printk.c:540-554 | a message that fits before the end of an unwrapped buffer costs no record |
| `LogRing.StoreExact` | Backup/ABINASH/ti-sdk-final-work/kernel/printk.c:616-675 | `log_store` in closed form for every message: kept whole exactly when it fits the emptied buffer at the current index; else the buffer is emptied and the truncated form kept if that fits; else nothing is stored. A record is dropped only if, with it and all younger ones kept, the buffer has no place for the message, as `HasPlace` says in terms of where the live records lie |
| `LogRing.AppendPlaces` | Backup/ABINASH/ti-sdk-final-work/kernel/printk.c:637-646 | a record is put where the next one is due, or at the start exactly when it and an empty header would reach past the end; either way it and a header meet no live record |
| `LogRing.StoreInv` | Backup/ABINASH/ti-sdk-final-work/kernel/printk.c:616-675 | every store keeps the ring invariant: indices aligned and leaving room for a header, each live record ending where the index of the next one points, live records in one run or in two with a free header between them |
| `LogRing.NeverDiscards` | Backup/ABINASH/ti-sdk-final-work/kernel/printk.c:590-613 | once a quarter of the buffer is at least two headers, the note and the alignment slack, no message is ever discarded, whatever the index and the arguments |
| `LogRing.TruncatedStorable` | Backup/ABINASH/ti-sdk-final-work/kernel/printk.c:597-613 | whenever a message has to be truncated its truncated form fits the 16-bit length field |
| `LogRing.StoreRefinesFifo` | Backup/ABINASH/ti-sdk-final-work/kernel/printk.c:616-675 | a store is "drop a prefix, then push" on the queue of numbered live records, the pushed record being the message or its truncated form, and the prefix is everything when it was truncated |
| `LogRing.Bounded` | Backup/ABINASH/ti-sdk-final-work/kernel/printk.c:540-554 | the live records and one empty header always fit the buffer together, through any wrap |
| `LogRing.StepKeeps` | Backup/ABINASH/ti-sdk-final-work/kernel/printk.c:616-675 | store, clear and growth each keep the invariant, never rewrite history, and never move first or clear backwards |
| `LogRing.RunKeeps` | Backup/ABINASH/ti-sdk-final-work/kernel/printk.c:616-675 | the same over every run of stores, clears and growth, with every record and index handed out unchanged |
| `LogRing.ClearExact` | Backup/ABINASH/ti-sdk-final-work/kernel/printk.c:565-568 | over every run the clear position is the end of the log at the last clear, or the oldest record if that is younger |
| `LogRing.CursorForEver` | Backup/ABINASH/ti-sdk-final-work/kernel/printk.c:513-529 | a (seq, idx) pair taken at any time still names the same record after any run; while the record is live it lies at idx or, behind a wrap marker, at offset 0, and stepping over it gives the pair of the next one |
| `LogBuffers.ReadImage` | Backup/ABINASH/ti-sdk-final-work/kernel/printk.c:500-529 | in a buffer that holds the ring's image the bytes at a live record's cursor, past a wrap marker if there is one, decode to exactly that record |
| `LogBuffers.NextIndex` | Backup/ABINASH/ti-sdk-final-work/kernel/printk.c:514-529 | `log_next` on memory returns the index of the following record, through a wrap marker or not |
| `LogBuffers.StoreTouchesOnlyFree` | Backup/ABINASH/ti-sdk-final-work/kernel/printk.c:637-669 | the bytes a store writes, marker included, belong to no surviving record and to no wrap marker still needed |
| `LogBuffers.LogBuffer.constructor` | Backup/ABINASH/ti-sdk-final-work/kernel/printk.c:428-460 | an empty log in a zeroed buffer |
| `LogBuffers.LogBuffer.LogFromIdx` | Backup/ABINASH/ti-sdk-final-work/kernel/printk.c:500-511 | the record behind a genuine cursor is the one stored under its sequence number |
| `LogBuffers.LogBuffer.LogNext` | Backup/ABINASH/ti-sdk-final-work/kernel/printk.c:514-529 | advancing a genuine cursor gives the genuine cursor of the next sequence number |
| `LogBuffers.LogBuffer.LogMakeFreeSpace` | Backup/ABINASH/ti-sdk-final-work/kernel/printk.c:556-575 | drops exactly the prefix the ring specification drops, moves clear along, and returns success exactly when the buffer then has a place for the message; with any fewer records dropped it would have had none |
| `LogBuffers.LogBuffer.TruncateMsg` | Backup/ABINASH/ti-sdk-final-work/kernel/printk.c:597-613 | at most a quarter of the buffer is kept, and the size is that of the text with the note and no dictionary |
| `LogBuffers.LogBuffer.LogStore` | Backup/ABINASH/ti-sdk-final-work/kernel/printk.c:616-675 | the method over the byte array, with wrap marker, truncation and eviction, does what `Store` specifies, keeps the memory image of every surviving record, and returns the length of the text stored, 0 for none |
| `LogBuffers.LogBuffer.SyslogClear` | Backup/ABINASH/ti-sdk-final-work/kernel/printk.c:1523-1529 | the clear position becomes the end of the log and nothing else changes |
| `LogBuffers.LogBuffer.SetupLogBuf` | Backup/ABINASH/ti-sdk-final-work/kernel/printk.c:1199-1205 | after the copy into a larger buffer every cursor still resolves to its record |
| `LogBuffers.LogBuffer.ReadAll` | Backup/ABINASH/ti-sdk-final-work/kernel/printk.c:500-529 | walking `log_next` from the first index yields all live records, in order, each intact |
| `LineFormat.PrefixShort` | Backup/ABINASH/ti-sdk-final-work/kernel/printk.c:445-450 | for every 64-bit timestamp, facility, level and caller id the prefix and a newline stay below PREFIX_MAX, and the prefix holds no newline |
| `LineFormat.PrefixRoundTrip` | Backup/ABINASH/ti-sdk-final-work/kernel/printk.c:1290-1335 | for every storable record, reading the prefix gives back facility (the number divided by 8) and level (the remainder), seconds and microseconds, and kind and number of the caller, as far as each is printed, and then the text, whatever it is |
| `LineFormat.TimeColumns` | Backup/ABINASH/ti-sdk-final-work/kernel/printk.c:1295-1301 | the time is a bracket, seconds right-aligned in at least five columns, a dot, six digits and a bracket |
| `LineFormat.FittingIsLongest` | Backup/ABINASH/ti-sdk-final-work/kernel/printk.c:1346-1374 | k lines with prefix and newline are shorter than the buffer if and only if k is at most the number of lines kept: the output is the longest whole-line prefix |
| `LineFormat.FitsWhole` | Backup/ABINASH/ti-sdk-final-work/kernel/printk.c:1346-1374 | the output is a prefix of the whole text, strictly shorter than the buffer or empty, and all of it exactly when the whole text is shorter |
| `LineFormat.JoinLines` | Backup/ABINASH/ti-sdk-final-work/kernel/printk.c:1346-1374 | the newline-split loses nothing: joining the lines gives back the text, trailing newline included |
| `LineFormat.StripLines` | Backup/ABINASH/ti-sdk-final-work/kernel/printk.c:1337-1376 | taking the prefixes off again gives back the text, for every text and every prefix without newline |
| `LineFormat.FormatDeterminesText` | Backup/ABINASH/ti-sdk-final-work/kernel/printk.c:1337-1376 | a completely formatted record determines its stored text |
| `LineFormat.FormatTells` | Backup/ABINASH/ti-sdk-final-work/kernel/printk.c:1337-1376 | whatever of a record a buffer takes says who, when and how important |
| `LineFormat.SingleLineNeverCut` | Backup/ABINASH/ti-sdk-final-work/kernel/printk.c:445-450 | a single-line record of at most LOG_LINE_MAX bytes is never cut by the readers' line buffers, with any prefix |
| `LineFormat.MsgPrintText` | Backup/ABINASH/ti-sdk-final-work/kernel/printk.c:1337-1376 | with a buffer, exactly the whole-line prefix that fits; without one, the length of the whole formatted record; what the prefixes say is in `LineFormat.PrefixRoundTrip` and `LineFormat.FormatTells` |
| `SyslogSpec.ReadsTell` | Backup/ABINASH/ti-sdk-final-work/kernel/printk.c:1378-1445 | for every session of reads of any sizes, with any stores, clears and printk_time switches between any two looks at the log: the bytes delivered since records were last lost to eviction are the formatted records in order, each once, up to a point strictly inside the current record; with no loss that is everything delivered |
| `SyslogSpec.ReadsArePrefix` | Backup/ABINASH/ti-sdk-final-work/kernel/printk.c:1378-1445 | so without a loss the concatenated outputs are a prefix of the concatenated records |
| `SyslogSpec.TurnTells` | Backup/ABINASH/ti-sdk-final-work/kernel/printk.c:1404-1440 | one turn of the loop delivers the next bytes of that stream, at the old timestamp setting if inside a record |
| `SyslogSpec.LookTells` | Backup/ABINASH/ti-sdk-final-work/kernel/printk.c:1390-1440 | one look at the log goes on with that stream or, if its record is gone, begins a new one at the oldest record there is |
| `SyslogSpec.LookSays` | Backup/ABINASH/ti-sdk-final-work/kernel/printk.c:1387-1440 | one look, exactly: where it goes on, with which timestamp setting, that it passes the record if the rest of it fits, and that it else fills the room if nothing was copied before and copies nothing if something was |
| `SyslogSpec.SplitsAlone` | Backup/ABINASH/ti-sdk-final-work/kernel/printk.c:1404-1440 | within one read, whatever happens meanwhile, a record is split only if nothing else was copied, and then the read is full |
| `SyslogSpec.ReadsConserve` | Backup/ABINASH/ti-sdk-final-work/kernel/printk.c:1378-1445 | in a session where nothing is stored or switched, bytes delivered plus bytes still to come are constant |
| `SyslogSpec.TurnMoves` | Backup/ABINASH/ti-sdk-final-work/kernel/printk.c:1404-1440 | a first turn with room never stalls: what is left to read gets less |
| `SyslogSpec.UnreadIsRead` | Backup/ABINASH/ti-sdk-final-work/kernel/printk.c:1601-1632 | the unread count taken at any point of a session equals what the rest of the session delivers by the end of the log, however the reads are sized |
| `SyslogSpec.UnreadIsToRead` | Backup/ABINASH/ti-sdk-final-work/kernel/printk.c:1601-1632 | the count-only formatter less the partial bytes is what reading from there yields |
| `Syslog.SyslogReader.constructor` | Backup/ABINASH/ti-sdk-final-work/kernel/printk.c:420-426 | the reader starts at the oldest record with nothing delivered of it |
| `Syslog.SyslogReader.SyslogPrint` | Backup/ABINASH/ti-sdk-final-work/kernel/printk.c:1378-1445 | the method, with arbitrary activity before each taking of the lock, does what `Print` specifies for what its turns saw, never copies more than the size, stops short of it only when the last turn copied nothing, and changes nothing in the log itself: that is what the windows make of it |
| `Syslog.SyslogReader.SizeUnread` | Backup/ABINASH/ti-sdk-final-work/kernel/printk.c:1601-1632 | after catching up, the byte count taken by walking the ring is `Unread` there, or for /proc/kmsg the number of records; either is positive exactly when there is something to read |
| `Syslog.SyslogReader.Drain` | Backup/ABINASH/ti-sdk-final-work/kernel/printk.c:1601-1632 | the bytes counted are the bytes that reads of any one size then deliver until the end of the log, which they reach; the log is not changed |
| `Syslog.FindStart` | Backup/ABINASH/ti-sdk-final-work/kernel/printk.c:1460-1486 | the two counting scans find the oldest record since the last clear from which everything fits: from it the total is within the size, from one earlier it is not |
| `Syslog.CopyStep` | Backup/ABINASH/ti-sdk-final-work/kernel/printk.c:1491-1511 | copying a record and perhaps jumping over evicted ones keeps the bytes copied plus those still selected within the size |
| `Syslog.SyslogPrintAll` | Backup/ABINASH/ti-sdk-final-work/kernel/printk.c:1447-1521 | whatever is stored and evicted while a line is copied, at most `size` bytes are copied, each record at most once, in increasing order, all from the longest fitting suffix, and a record of it is missing only if the windows evicted it; with no interference exactly that suffix, every record once; the log afterwards is what the windows make of it, then cleared if and only if that was asked for |
| `Syslog.AllPicked` | Backup/ABINASH/ti-sdk-final-work/kernel/printk.c:1491-1511 | increasing picks as many as there are records are all the records |
| `KmsgDump.ProgressExact` | Backup/ABINASH/ti-sdk-final-work/kernel/printk.c:3315-3334 | a call of `kmsg_dump_get_buffer` makes progress if and only if the youngest remaining record, with syslog prefix, is shorter than the buffer |
| `KmsgDump.DumpEndsExactly` | Backup/ABINASH/ti-sdk-final-work/kernel/printk.c:3282-3353 | repeated calls reach the oldest remaining record if and only if every remaining record is shorter than the buffer, and then within as many calls as there are records |
| `KmsgDump.BlocksPartition` | Backup/ABINASH/ti-sdk-final-work/kernel/printk.c:3282-3353 | if every record is shorter than the buffer, repeated calls end, no block is empty or reaches the buffer's size, and the blocks in reverse call order are all records formatted exactly once |
| `KmsgDump.KmsgDumper.constructor` | Backup/ABINASH/ti-sdk-final-work/kernel/printk.c:3162-3170 | the iterator spans the records from the last clear to the end of the log |
| `KmsgDump.KmsgDumper.GetLine` | Backup/ABINASH/ti-sdk-final-work/kernel/printk.c:3200-3230 | a line is returned exactly when an active dumper has a record left; it is the oldest remaining record, cut to the buffer, and the position moves just behind it |
| `KmsgDump.KmsgDumper.GetBuffer` | Backup/ABINASH/ti-sdk-final-work/kernel/printk.c:3282-3353 | returns the complete text of the longest suffix of what remains that is shorter than the buffer, truncating no record, and the rest remains for the next call |
| `KmsgDump.KmsgDumper.DumpAll` | Backup/ABINASH/ti-sdk-final-work/kernel/printk.c:3282-3353 | calling it until it returns false yields blocks that, joined backwards, are all remaining records, formatted, exactly once |
| `KmsgDump.KmsgDumper.Rewind` | Backup/ABINASH/ti-sdk-final-work/kernel/printk.c:3366-3372 | the iterator spans the records from the last clear to the end again |
| `ExtFormat.BodyRoundTrip` | Backup/ABINASH/ti-sdk-final-work/kernel/printk.c:747-793 | text and dictionary are decoded uniquely from the escaped body, for all bytes, down to a trailing empty property |
| `ExtFormat.BodyPrintable` | Backup/ABINASH/ti-sdk-final-work/kernel/printk.c:753-790 | whatever the record holds, the body is printable ASCII and newlines |
| `ExtFormat.PlainText` | Backup/ABINASH/ti-sdk-final-work/kernel/printk.c:753-763 | printable text without a backslash is left as it is |
| `ExtFormat.UnescTextRoundTrip` | Backup/ABINASH/ti-sdk-final-work/kernel/printk.c:753-763 | control bytes, bytes from 127 on and backslashes survive escaping |
| `ExtFormat.UnescDictRoundTrip` | Backup/ABINASH/ti-sdk-final-work/kernel/printk.c:765-790 | NUL separators and escaped bytes of the dictionary survive, whether or not a property has just begun |
| `ExtFormat.MsgPrintExtBody` | Backup/ABINASH/ti-sdk-final-work/kernel/printk.c:747-793 | the output never exceeds the buffer, and is the complete body if and only if that fits; one that does not fit fills the buffer up to its last byte with the beginning of the body, but for the last four bytes |
| `ExtFormat.LineRoundTrip` | Backup/ABINASH/ti-sdk-final-work/kernel/printk.c:747-793 | of a /dev/kmsg line, header and all, the part behind the first semicolon decodes to text and dictionary |
| `ExtFormat.HeaderRoundTrip` | Backup/ABINASH/ti-sdk-final-work/kernel/printk.c:726-745 | the fields before the semicolon decode to facility, level, sequence number, microseconds, continuation flag and caller, for every storable record and whatever follows |
| `DevKmsg.DevkmsgUser.constructor` | Backup/ABINASH/ti-sdk-final-work/kernel/printk.c:1007-1039 | a new reader stands at the oldest record |
| `DevKmsg.DevkmsgUser.FormatLine` | Backup/ABINASH/ti-sdk-final-work/kernel/printk.c:920-926 | header and body together never exceed the reader's buffer, are complete when they fit, and else fill it with their beginning |
| `DevKmsg.DevkmsgUser.Read` | Backup/ABINASH/ti-sdk-final-work/kernel/printk.c:880-944 | would-block exactly at the end of the log; overrun exactly when the position was evicted, then moved to the oldest record; otherwise exactly one record is consumed, also when the caller's buffer is too small; a record that fits the reader's buffer is delivered exactly when it fits the caller's, and then as the complete header and body, from which all its fields can be decoded (`ExtFormat.HeaderRoundTrip`, `ExtFormat.LineRoundTrip`) |
| `DevKmsg.DevkmsgUser.Seek` | Backup/ABINASH/ti-sdk-final-work/kernel/printk.c:946-982 | start, last clear and end of the log |
| `DevKmsg.DevkmsgUser.Poll` | Backup/ABINASH/ti-sdk-final-work/kernel/printk.c:984-1005 | says what the next read will do: block, deliver, or report an overrun |
| `DevKmsg.DevkmsgUser.SeekDataThenRead` | Backup/ABINASH/ti-sdk-final-work/kernel/printk.c:946-979 | after a seek to the last clear the next read never reports an overrun: clear never falls behind first |
| `Continuation.OutputConserves` | Backup/ABINASH/ti-sdk-final-work/kernel/printk.c:1899-1929 | one call of `log_output`, with any lengths, flags and callers: what is stored and then the buffer is the old buffer and then the input, byte for byte, every byte under its author's name; the buffer is never overrun |
| `Continuation.OutputsConserve` | Backup/ABINASH/ti-sdk-final-work/kernel/printk.c:1899-1929 | the same over every sequence of calls, so no record mixes fragments of two callers |
| `Continuation.Provenance` | Backup/ABINASH/ti-sdk-final-work/kernel/printk.c:1849-1929 | over every run each record is one printk as it was, or the join of successive fragments of one caller, without a newline before the last, with caller, facility, level and time of the first; and nothing more could have joined it: it ends with a newline or is too long for the buffer, or the next input is no continuation, another caller's, or would not fit. Records follow each other as their inputs did, and the buffer is such a join of the last inputs |
| `Continuation.WholeLinesStored` | Backup/ABINASH/ti-sdk-final-work/kernel/printk.c:1899-1929 | over every run each complete line that continues nothing gets a record of its own, dictionary included |
| `Continuation.Cont.ContFlush` | Backup/ABINASH/ti-sdk-final-work/kernel/printk.c:1859-1867 | stores the buffered text as one record with the time of its first print, or nothing if there is none, and empties the buffer |
| `Continuation.Cont.ContAdd` | Backup/ABINASH/ti-sdk-final-work/kernel/printk.c:1869-1897 | the in-place buffer behaves as the specification's: refuse and flush when too long, otherwise append, taking author, level and time from a first fragment, and flush at a newline |
| `Continuation.Cont.LogOutput` | Backup/ABINASH/ti-sdk-final-work/kernel/printk.c:1899-1929 | the stores made, the buffer left and the kind of result are those of the specification `Output`, of which `Continuation.Provenance` says which inputs each record joins |
| `Printk.PrintksReachLog` | Backup/ABINASH/ti-sdk-final-work/kernel/printk.c:1899-1929 | over any sequence of printks the records added to a ring that never discards are, one for one and in order, those the continuation logic decides on, each with the time it brought or that of the clock when it was stored, whole or, only if half of the buffer is too small for it, truncated with its note and without dictionary |
| `Printk.ClocksOnTime` | Backup/ABINASH/ti-sdk-final-work/kernel/printk.c:1869-1929 | once the clock runs, a record that brings no time of its own is a single printk, and the clock it gets is the one read when that was printed |
| `Printk.PrintksConserve` | Backup/ABINASH/ti-sdk-final-work/kernel/printk.c:1899-1929 | end to end: unless something stored may be too long for half of the buffer, the texts of the records added to the ring, and then the continuation buffer, are all inputs byte for byte and in order, each under its caller's id |
| `Printk.LogOutput` | Backup/ABINASH/ti-sdk-final-work/kernel/printk.c:1899-1929 | `log_output` over the buffer and the byte-array log is one step of such a run for every message, so that what `Continuation.Provenance` and `Printk.PrintksReachLog` say of runs holds of it, and returns the length of the text, or of its stored form |
| `ConsoleLock.LockStep` | Backup/ABINASH/ti-sdk-final-work/kernel/printk.c:1675-1789 | every step of every thread keeps the lock invariant: one holder at most, semaphore down exactly with a holder, console_owner set exactly while the holder calls the drivers, a waiter only while someone will free it |
| `ConsoleLock.FateStep` | Backup/ABINASH/ti-sdk-final-work/kernel/printk.c:2439-2493 | every step keeps the account of records passed: printed, suppressed or dropped, each once |
| `ConsoleLock.LookStep` | Backup/ABINASH/ti-sdk-final-work/kernel/printk.c:2398-2537 | every step keeps: while records are unprinted, some thread is bound to look |
| `ConsoleLock.RunKeeps` | Backup/ABINASH/ti-sdk-final-work/kernel/printk.c:1982-2031 | all of it holds over every run of any number of threads |
| `ConsoleLock.MutualExclusion` | Backup/ABINASH/ti-sdk-final-work/kernel/printk.c:1675-1789 | in every reachable state at most one thread has the lock, by trylock or by hand-over, the semaphore is down exactly when one does, and each acquisition but the current one has had its one release |
| `ConsoleLock.WaiterServed` | Backup/ABINASH/ti-sdk-final-work/kernel/printk.c:1685-1725 | in every reachable state with console_waiter set, a thread spins, and console_owner is calling the drivers or a thread has seen the waiter and is about to clear it |
| `ConsoleLock.SpinnerServed` | Backup/ABINASH/ti-sdk-final-work/kernel/printk.c:1737-1789 | at most one thread spins; while it waits, the thread that will free it is calling the drivers as owner or has already read the waiter; once freed it has the lock |
| `ConsoleLock.CheckOwnerExact` | Backup/ABINASH/ti-sdk-final-work/kernel/printk.c:1747-1762 | in every state of the invariant a thread refused the lock sets console_waiter and spins if some thread is calling the drivers and none waits yet, and otherwise leaves without a trace |
| `ConsoleLock.WaitStep` | Backup/ABINASH/ti-sdk-final-work/kernel/printk.c:1776-1789 | while a thread spins, no step takes or releases the semaphore, and only the hand-over clears the waiter |
| `ConsoleLock.WaiterIsNext` | Backup/ABINASH/ti-sdk-final-work/kernel/printk.c:1776-1789 | so whatever is done before it goes on, a spinning thread is the next to have the console |
| `ConsoleLock.HandOver` | Backup/ABINASH/ti-sdk-final-work/kernel/printk.c:1737-1789 | from every state in which a thread has stored a message, another calls the drivers and none waits: trylock, check, the two steps of the driving thread and the end of the spin are each possible in turn, leave that thread idle and the other with the console, and the semaphore, its count and the log untouched |
| `ConsoleLock.HandOverArises` | Backup/ABINASH/ti-sdk-final-work/kernel/printk.c:1982-2031 | any two of any number of threads that print at about the same time reach such a state |
| `ConsoleLock.OwnerDrives` | Backup/ABINASH/ti-sdk-final-work/kernel/printk.c:1675-1725 | console_owner names the thread that is calling the drivers, exactly while it is |
| `ConsoleLock.NoneLeftUnprinted` | Backup/ABINASH/ti-sdk-final-work/kernel/printk.c:2003-2026 | in every reachable state with records unprinted some thread has stored and not tried the lock yet, holds it or was handed it, has not finished its re-check, or saw the re-check ask for a retry; with all threads idle every record was handed to the drivers, suppressed or evicted |
| `ConsoleLock.Accounts` | Backup/ABINASH/ti-sdk-final-work/kernel/printk.c:2439-2493 | the drivers get records in strictly increasing order, each marked printed; a printed record was handed over or is in a thread's hands; dropped records were evicted, and the reported gaps sum to their number |
| `ConsoleLock.StepWorks` | Backup/ABINASH/ti-sdk-final-work/kernel/printk.c:2398-2537 | every step other than a new message or a new console_lock strictly lowers a measure of the work left |
| `ConsoleLock.NeverStuck` | Backup/ABINASH/ti-sdk-final-work/kernel/printk.c:1737-1789 | unless all threads are idle, some thread can take a step of its own, so no hand-over and no spin can deadlock |
| `ConsoleLock.ComesToRest` | Backup/ABINASH/ti-sdk-final-work/kernel/printk.c:2398-2537 | left alone under any schedule the console comes to rest within that measure, with all threads idle and every record stored accounted for |
| `ConsoleCursor.LineFits` | Backup/ABINASH/ti-sdk-final-work/kernel/printk.c:2439-2480 | the dropped-messages line and the record together never outgrow the static text buffer, and without a gap a record that fits is complete |
| `ConsoleCursor.GapRoundTrip` | Backup/ABINASH/ti-sdk-final-work/kernel/printk.c:2439-2480 | with records lost, the line gives back their number, and behind it stands the record, whole if both fit |
| `ConsoleCursor.ConsoleReader.PickNext` | Backup/ABINASH/ti-sdk-final-work/kernel/printk.c:2439-2493 | under the lock: evicted records are passed and counted, records whose level is not below the console's are skipped unless levels are ignored, and the first other record is taken, if there is one |
| `ConsoleCursor.PickIsTake` | Backup/ABINASH/ti-sdk-final-work/kernel/printk.c:2439-2493 | that section is a `Pick` step the lock protocol allows: same position, same count of dropped messages, and the records marked dropped, suppressed and printed are exactly those evicted, those whose level is not below the console's while levels are not ignored, and the one taken |
| `ConsoleCursor.ConsoleReader.Flush` | Backup/ABINASH/ti-sdk-final-work/kernel/printk.c:2439-2516 | the whole loop, with any stores and evictions each time the lock is free and no other change of the log: it ends level with the log; every record handed over has a level below the console's, or levels are ignored, and every such record that is still there was handed over, once and in order; each text is the record's, behind a line whose count is that of the evicted records right after the one handed over before, all others in between being suppressed |
| `ConsoleCursor.LouderShowsMore` | Backup/ABINASH/ti-sdk-final-work/kernel/printk.c:1227-1230 | raising the console level or ignoring levels takes no record from the console |
| `BlockRing.DecodeEncode` | Backup/ABINASH/ti-sdk-final-work/kernel/prueth_core.c:1063 | a packet length is written to the descriptor's length field and nowhere else, and read back |
| `BlockRing.DecodeField` | Backup/ABINASH/ti-sdk-final-work/kernel/prueth_core.c:1103-1104 | the length read from a descriptor is that of its field, whatever the other bits |
| `BlockRing.FreeExact` | Backup/ABINASH/ti-sdk-final-work/kernel/prueth_core.c:1005-1013 | free_blocks is the ring less the blocks of the packets held, and equal pointers mean an empty queue |
| `BlockRing.PutRot` | Backup/ABINASH/ti-sdk-final-work/kernel/prueth_core.c:1028-1054 | copying a packet to any block, wrapped or not, puts it behind the packets held and changes no other byte, seen from the read position |
| `BlockRing.PositionsMeet` | Backup/ABINASH/ti-sdk-final-work/kernel/prueth_core.c:1015-1026 | whatever the ring holds, an accepted enqueue ends with equal pointers if and only if it takes all the free blocks |
| `BlockRing.EnqueueHolds` | Backup/ABINASH/ti-sdk-final-work/kernel/prueth_core.c:992-1076 | with fewer blocks than are free the packet is appended and those held are untouched; with as many both ends see an empty queue; with more nothing changes |
| `BlockRing.EnqueueLies` | Backup/ABINASH/ti-sdk-final-work/kernel/prueth_core.c:992-1076 | whenever a block is free and the packet fits, it comes to lie behind the packets there, bytes and descriptor, also when it takes the last block |
| `BlockRing.DequeueHolds` | Backup/ABINASH/ti-sdk-final-work/kernel/prueth_core.c:1211-1287 | reading returns the oldest packet byte for byte, through any wrap, and leaves exactly the others |
| `BlockRing.DequeueLies` | Backup/ABINASH/ti-sdk-final-work/kernel/prueth_core.c:1211-1287 | the same of a ring that its packets may fill |
| `BlockRing.FifoExactly` | Backup/ABINASH/ti-sdk-final-work/kernel/prueth_core.c:1015-1026 | over every run of sends and receive calls that do not overlap, delivered packets followed by queued ones are the accepted packets, in order and once each, if and only if no accepted packet took all the free blocks; once one did, packets stay lost |
| `BlockRing.FullMeansEmpty` | Backup/ABINASH/ti-sdk-final-work/kernel/prueth_core.c:1005-1026 | for every ring length, a packet of exactly that many blocks sent into the empty queue is accepted, and a receive call, whatever its quota, does not deliver it |
| `BlockQueues.CopyIn` | Backup/ABINASH/ti-sdk-final-work/kernel/prueth_core.c:1028-1054 | the split copy equals writing the packet around the ring's end, and nothing outside the queue's buffer changes |
| `BlockQueues.CopyOut` | Backup/ABINASH/ti-sdk-final-work/kernel/prueth_core.c:1256-1287 | the split copy reads the packet around the ring's end |
| `BlockQueues.BlockQueue.constructor` | Backup/ABINASH/ti-sdk-final-work/kernel/prueth_core.c:949-978 | an empty queue, given its buffer and descriptors lie within the two memories |
| `BlockQueues.BlockQueue.TxEnqueue` | Backup/ABINASH/ti-sdk-final-work/kernel/prueth_core.c:949-1076 | in any state of the memories: accepted exactly when the packet needs no more than the free blocks, then memory, descriptor and write pointer are those of `Enqueued`, otherwise nothing changes; other queues are left alone |
| `BlockQueues.BlockQueue.Enqueue` | Backup/ABINASH/ti-sdk-final-work/kernel/prueth_core.c:949-1076 | on a queue in order, the packets held afterwards are those of the specification, the loss included |
| `BlockQueues.BlockQueue.RxPacket` | Backup/ABINASH/ti-sdk-final-work/kernel/prueth_core.c:1211-1287 | the packet and the new read pointer, for any descriptor with a length a packet can have |
| `BlockQueues.BlockQueue.RxTurn` | Backup/ABINASH/ti-sdk-final-work/kernel/prueth_core.c:1421-1471 | one turn for any descriptor: a length no packet has skips to the write pointer as the call has read it, a missing buffer leaves the queue as it is, otherwise the packet comes out, the descriptor is cleared and the pointer advances |
| `BlockQueues.TurnLeaves` | Backup/ABINASH/ti-sdk-final-work/kernel/prueth_core.c:1421-1471 | what such a turn leaves, byte by byte: the packet is the bytes from the read position around the ring's end, the pointer is behind its blocks, or at the write pointer if the length is none, which empties the queue, and no descriptor but the one read is cleared |
| `BlockQueues.BlockQueue.RxLoop` | Backup/ABINASH/ti-sdk-final-work/kernel/prueth_core.c:1417-1475 | ends for arbitrary descriptors, takes at most the quota (at least one), and stops only for the quota, a missing buffer or an empty queue; on a queue in order what it took and what is left are what was held |
| `BlockQueues.EndsTaken` | Backup/ABINASH/ti-sdk-final-work/kernel/prueth_core.c:1472-1475 | how many packets that is, from the quota, the buffers and the packets held |
| `BlockQueues.Play` | Backup/ABINASH/ti-sdk-final-work/kernel/prueth_core.c:949-1076 | any sequence of sends and receive calls that do not overlap on the driver's data structure is a run of that specification, so delivered and queued packets are the accepted ones exactly when none took all the free blocks |
| `BlockFlow.StepKeeps` | Backup/ABINASH/ti-sdk-final-work/kernel/prueth_core.c:1417-1475 | with sends between any two turns of a call: from a state in which the delivery law holds, a send, the beginning of a call or a turn keeps it if and only if it is not deceived, that is, a send that accepts or a call that begins reads equal pointers while packets are undelivered |
| `BlockFlow.LawExactly` | Backup/ABINASH/ti-sdk-final-work/kernel/prueth_core.c:1417-1475 | over every interleaving of sends, beginnings of calls and turns on an initially empty ring the delivery law (what came out is the beginning of what was accepted; the rest lies in the ring; the call ends behind what was queued when it began) holds all along if and only if neither end was ever deceived |
| `BlockFlow.CallDelivers` | Backup/ABINASH/ti-sdk-final-work/kernel/prueth_core.c:1417-1475 | a call that is not deceived delivers all packets queued when it began, by as many turns, and then finds its own end |
| `Interleaving.PlayEvents` | Backup/ABINASH/ti-sdk-final-work/kernel/prueth_core.c:1417-1475 | the driver's two ends, event by event with the reader's copy of the write pointer, are a run of that machine, so the law holds all along exactly when no end is deceived |
| `RxPackets.RxPackets` | Backup/ABINASH/ti-sdk-final-work/kernel/prueth_core.c:1402-1478 | ends for arbitrary descriptors with at most the quota; from queues in order the packets come out queue by queue, oldest first, as many as quota and buffers allow, and the rest stay queued in order; -ENOMEM leaves the failing packet queued |

## Left out

- LogRing.StoreExact: messages whose record would be longer than 65535 bytes are excluded, because the struct's `len` field has 16 bits; sequence numbers and lengths are unbounded where the source has 64 and 32 bits.
- LogBuffers.LogBuffer.SetupLogBuf: the choice of the new length, its rounding and the allocation are not modelled, and the move does not happen within a reader's window, as it runs once at boot.
- LogBuffers.LogBuffer.LogFromIdx: the pointer into the buffer is returned as the record decoded behind it.
- LogRing.NeverDiscards: stated for the condition under which it can be proved from the sizes alone; for smaller buffers `LogRing.StoreExact` says when a message is discarded.
- SyslogSpec.ReadsTell: copies to user space always succeed.
- SyslogSpec.UnreadIsRead: for records that fit the line buffer, as the count-only formatter does not cut and the reader does.
- KmsgDump.KmsgDumper.DumpAll: no stores between the calls; each single call of `GetBuffer` and `GetLine` is proved for any state of the log.
- DevKmsg.DevkmsgUser.Read: waiting for a record, interrupted locks and failing copies.
- DevKmsg.DevkmsgUser.Seek: only the three positions, as the source rejects offsets other than 0.
- Printk.PrintksReachLog: for buffers that never discard a message and records the 16-bit length can hold; `LogRing.StoreExact` says what becomes of others. The clock is read once per printk. A dictionary given with a fragment that joins the buffer is dropped by the source, and the model does the same.
- ConsoleLock.NoneLeftUnprinted: suspended or unusable consoles, `console_flush_on_panic`, printing deferred from the scheduler, CPU hotplug and the replay of `register_console`, which resets the console's position.
- ConsoleLock.ComesToRest: needs that no new message and no new console_lock arrive; with an unending stream of messages nothing comes to rest.
- ConsoleCursor.ConsoleReader.Flush: the extended text for netconsole-like drivers and `exclusive_console`; the hand-over in the middle of the loop is in `ConsoleLock`. The level and format settings stay the same through one call.
- BlockRing.FifoExactly: a receive call is one step, which no send overlaps; overlapping ones are in `BlockFlow.LawExactly`.
- BlockQueues.BlockQueue.TxEnqueue: padding short frames, packet time stamps, the HSR flag in the descriptor, and the 16-bit width of the pointers. A frame is not empty and not longer than the longest packet, which the network layer ensures.
- BlockQueues.BlockQueue.RxPacket: shadow buffers, tag offsets, time stamps and what becomes of the packet after the copy (bridging, node tables, statistics). With a time stamp the wrapped copy ends at another block than the stamp when the packet ends one block before the ring does.
- RxPackets.RxPackets: overflow counters and the choice of the receiving port.
- The firmware constants (block size, descriptor size, length field, longest packet) are in headers that are not part of this model; they are parameters.
- Locks are atomic sections; interrupts, wake-ups, rate limits, lockdep annotations and permission checks have no counterpart.
- `devkmsg_write`, `do_syslog` apart from the operations above, `kmsg_dump` registration and the console driver list: plumbing that would add only easy members.
- PTP, HSR and PRP handling, probing and ethtool of the network driver, and the board files: no state beside the queues that a law spans.
