/** The driver's ends of the block queues it shares with the firmware:
    `prueth_tx_enqueue`, `emac_rx_packet` and `emac_rx_packets`. */
module BlockQueues {
  import opened Bytes
  import opened BlockRing

  /** The copy of prueth_tx_enqueue to position `at` of the buffer at `base`, which
      has `room` bytes from there on. */
  method CopyIn(mem: array<Byte>, base: nat, at: nat, room: nat, p: seq<Byte>, wrapped: bool)
    requires base + at + room <= mem.Length && |p| <= at + room && (wrapped || |p| <= room)
    modifies mem
    ensures mem[base..base + at + room] == Put(old(mem[base..base + at + room]), at, p)
    ensures forall k :: 0 <= k < mem.Length && !(base <= k < base + at + room) ==> mem[k] == old(mem[k])
  {
    ghost var was := mem[base..base + at + room];
    if wrapped {
      var bytes := room;
      if |p| < bytes {
        bytes := |p|;
      }
      Memcpy(mem, base + at, p[..bytes]);
      Memcpy(mem, base, p[bytes..]);
    } else {
      Memcpy(mem, base + at, p);
    }
    ghost var want := Put(was, at, p);
    forall k | 0 <= k < |was| ensures mem[base + k] == want[k] {
      assert was[k] == old(mem[base + k]);
      if |p| <= room {
        assert want[k] == if at <= k < at + |p| then p[k - at] else was[k];
      } else {
        var h := |p| - room;
        assert want[k] == if k < h then p[room + k] else if k < at then was[k] else p[k - at];
      }
    }
    assert mem[base..base + at + room] == want;
  }

  lemma GetSlices(mem: seq<Byte>, base: nat, at: nat, room: nat, len: nat)
    requires base + at + room <= |mem| && len <= at + room
    ensures Get(mem[base..base + at + room], at, len)
         == if len <= room then mem[base + at..base + at + len]
            else mem[base + at..base + at + room] + mem[base..base + len - room]
  {
    var end := base + at + room;
    if len <= room {
      SliceOfSlice(mem, base, end, at, at + len);
    } else {
      SliceOfSlice(mem, base, end, at, at + room);
      SliceOfSlice(mem, base, end, 0, len - room);
    }
  }

  /** Writes one descriptor; `n` from `base` are the queue's. */
  method Poke(mem: array<nat>, base: nat, n: nat, at: nat, word: nat)
    requires base <= at < base + n <= mem.Length
    modifies mem
    ensures mem[base..base + n] == old(mem[base..base + n])[at - base := word]
    ensures forall k :: 0 <= k < mem.Length && !(base <= k < base + n) ==> mem[k] == old(mem[k])
  {
    ghost var want := mem[base..base + n][at - base := word];
    mem[at] := word;
    assert mem[base..base + n] == want;
  }

  /** The copy of emac_rx_packet from there. */
  method CopyOut(mem: array<Byte>, base: nat, at: nat, room: nat, len: nat, wrapped: bool)
    returns (p: seq<Byte>)
    requires base + at + room <= mem.Length && len <= at + room && (wrapped || len <= room)
    ensures p == Get(mem[base..base + at + room], at, len)
  {
    if wrapped {
      var bytes := room;
      if len < bytes {
        bytes := len;
      }
      p := mem[base + at..base + at + bytes] + mem[base..base + len - bytes];
    } else {
      p := mem[base + at..base + at + len];
    }
    GetSlices(mem[..], base, at, room, len);
  }

  class BlockQueue {
    const z: Sizes
    const ocmc: array<Byte>  // packet memory of all queues
    const sram: array<nat>   // descriptor memory of all queues, one cell a descriptor
    const bufOff: nat        // prueth_queue_info: buffer_offset,
    const bdOff: nat         // buffer_desc_offset,
    const bdEnd: nat         // buffer_desc_end
    var rdPtr: nat           // prueth_queue_desc
    var wrPtr: nat
    ghost var pkts: seq<seq<Byte>>

    /** An empty queue in memory of its own. */
    constructor (z: Sizes, ocmc: array<Byte>, sram: array<nat>, bufOff: nat, bdOff: nat, bdEnd: nat)
      requires z.Ok() && bdOff <= bdEnd && bdOff % z.bd == 0
      requires var n := (bdEnd - bdOff) / z.bd + 1;
               && bufOff + n * z.block <= ocmc.Length
               && bdOff / z.bd + n <= sram.Length
               && z.maxLen <= n * z.block
      ensures Sound() && pkts == [] && this.ocmc == ocmc && this.sram == sram && this.z == z
    {
      this.z, this.ocmc, this.sram := z, ocmc, sram;
      this.bufOff, this.bdOff, this.bdEnd := bufOff, bdOff, bdEnd;
      rdPtr, wrPtr, pkts := bdOff, bdOff, [];
      new;
      PtrBlock(0);
      ViewShaped();
      EmptyHolds(View());
    }

    /** buffer_desc_count */
    function Count(): (n: nat)
      requires z.bd > 0 && bdOff <= bdEnd
      ensures n > 0
    {
      (bdEnd - bdOff) / z.bd + 1
    }

    /** The queue's memory lies within the two memories, and takes a longest packet. */
    ghost predicate Placed() {
      && z.Ok() && bdOff <= bdEnd && bdOff % z.bd == 0
      && bufOff + Count() * z.block <= ocmc.Length
      && bdOff / z.bd + Count() <= sram.Length
      && z.maxLen <= Count() * z.block
    }

    /** The block a pointer stands for. */
    function Block(ptr: nat): nat
      requires z.bd > 0 && bdOff <= ptr
    {
      (ptr - bdOff) / z.bd
    }

    function Ptr(block: nat): (p: nat)
      ensures p >= bdOff
    {
      bdOff + block * z.bd
    }

    ghost predicate AtBlock(ptr: nat)
      requires z.bd > 0 && bdOff <= bdEnd
    {
      bdOff <= ptr && Block(ptr) < Count() && ptr == Ptr(Block(ptr))
    }

    ghost predicate Valid()
      reads this
    {
      var held := Placed() && AtBlock(rdPtr) && AtBlock(wrPtr);
      held
    }

    ghost function View(): Ring
      requires Valid()
      reads this, ocmc, sram
    {
      Ring(z, ocmc[bufOff..bufOff + Count() * z.block], sram[bdOff / z.bd..bdOff / z.bd + Count()],
           Block(rdPtr), Block(wrPtr))
    }

    lemma ViewShaped()
      requires Valid()
      ensures View().Shaped()
    {
      MulMono(View().rd, Count(), z.block);
      MulMono(View().wr, Count(), z.block);
    }

    lemma PtrBlock(block: nat)
      requires Placed() && block < Count()
      ensures AtBlock(Ptr(block)) && Block(Ptr(block)) == block
      ensures Ptr(block) / z.bd == bdOff / z.bd + block
    {
      DivUnique(block * z.bd, z.bd, block, 0);
      assert (bdOff / z.bd + block) * z.bd == bdOff / z.bd * z.bd + block * z.bd;
      DivUnique(Ptr(block), z.bd, bdOff / z.bd + block, 0);
    }

    /** The queue is in order and holds exactly `pkts`. */
    ghost predicate Sound()
      reads this, ocmc, sram
    {
      Valid() && forall k {:trigger Opened(PacketQueue, k)} :: Opened(PacketQueue, k) ==> Holds(View(), pkts)
    }

    /** Where a block lies in the buffer, and the bytes from there to its end. */
    method Span(block: nat, len: nat) returns (at: nat, room: nat)
      requires Placed() && block < Count()
      ensures at == block * z.block && at + room == Count() * z.block
      ensures block + z.Blocks(len) < Count() ==> len <= room
    {
      MulMono(block, Count(), z.block);
      BlocksWithin(z, len, Count() - block);
      at, room := block * z.block, (Count() - block) * z.block;
    }

    /** Nothing of the other queues' descriptors changes. */
    ghost predicate MyDescriptors(sram0: seq<nat>)
      requires Placed() && |sram0| == sram.Length
      reads sram
    {
      var held :=
        forall k :: 0 <= k < sram.Length && !(bdOff / z.bd <= k < bdOff / z.bd + Count()) ==>
          sram[k] == sram0[k];
      held
    }

    lemma MineStill(sram0: seq<nat>, before: seq<nat>)
      requires Placed() && |sram0| == sram.Length == |before| && MyDescriptors(before)
      requires forall k :: 0 <= k < sram.Length && !(bdOff / z.bd <= k < bdOff / z.bd + Count()) ==>
                             before[k] == sram0[k]
      ensures MyDescriptors(sram0)
    {
    }

    /** Nor of their packets. */
    ghost predicate OnlyMine(ocmc0: seq<Byte>, sram0: seq<nat>)
      requires Placed() && |ocmc0| == ocmc.Length && |sram0| == sram.Length
      reads ocmc, sram
    {
      && (forall k :: 0 <= k < ocmc.Length && !(bufOff <= k < bufOff + Count() * z.block) ==> ocmc[k] == ocmc0[k])
      && MyDescriptors(sram0)
    }

    /** The block behind a packet, and whether the packet reaches the ring's end. */
    method EndBlock(block: nat, n: nat) returns (update: nat, wrapped: bool)
      requires z.bd > 0 && bdOff <= bdEnd && block < Count() && n <= Count()
      ensures wrapped == (block + n >= Count())
      ensures update == if wrapped then block + n - Count() else block + n
    {
      update, wrapped := block + n, false;
      var count := Count();
      if update >= count {
        DivUnique(update, count, 1, update - count);
        update, wrapped := update % count, true;
      }
    }

    method Copy(block: nat, p: seq<Byte>, wrapped: bool)
      requires Placed() && block < Count() && |p| <= Count() * z.block
      requires wrapped == (block + z.Blocks(|p|) >= Count())
      modifies ocmc
      ensures block * z.block <= Count() * z.block
      ensures ocmc[bufOff..bufOff + Count() * z.block]
           == Put(old(ocmc[bufOff..bufOff + Count() * z.block]), block * z.block, p)
      ensures OnlyMine(old(ocmc[..]), sram[..])
    {
      var at, room := Span(block, |p|);
      assert bufOff + at + room == bufOff + Count() * z.block <= ocmc.Length;
      CopyIn(ocmc, bufOff, at, room, p, wrapped);
    }

    method Fetch(block: nat, len: nat, wrapped: bool) returns (p: seq<Byte>)
      requires Placed() && block < Count() && len <= Count() * z.block
      requires wrapped == (block + z.Blocks(len) >= Count())
      ensures block * z.block <= Count() * z.block
      ensures p == Get(ocmc[bufOff..bufOff + Count() * z.block], block * z.block, len)
    {
      var at, room := Span(block, len);
      p := CopyOut(ocmc, bufOff, at, room, len, wrapped);
    }

    /** writel(word, ram + ptr) */
    method SetDescriptor(ptr: nat, word: nat)
      requires Placed() && AtBlock(ptr)
      modifies sram
      ensures sram[bdOff / z.bd..bdOff / z.bd + Count()]
           == old(sram[bdOff / z.bd..bdOff / z.bd + Count()])[Block(ptr) := word]
      ensures MyDescriptors(old(sram[..]))
    {
      PtrBlock(Block(ptr));
      Poke(sram, bdOff / z.bd, Count(), ptr / z.bd, word);
    }

    /** prueth_tx_enqueue once there is room: copy, descriptor, write pointer. */
    method Write(p: seq<Byte>)
      requires Valid() && z.PacketOk(p) && View().Shaped() && z.Blocks(|p|) <= View().Free()
      modifies this`wrPtr, ocmc, sram
      ensures Valid() && View() == Enqueued(old(View()), p)
      ensures OnlyMine(old(ocmc[..]), old(sram[..]))
    {
      ghost var q := View();
      var writeBlock := Block(wrPtr);
      var update, wrapped := EndBlock(writeBlock, z.Blocks(|p|));
      Copy(writeBlock, p, wrapped);
      SetDescriptor(wrPtr, z.Encode(|p|));
      PtrBlock(update);
      wrPtr := Ptr(update);
      assert View().ram == Enqueued(q, p).ram && View().bds == Enqueued(q, p).bds;
    }

    /** `prueth_tx_enqueue` for a frame of a size the network layer passes; false is
        -ENOBUFS. */
    method TxEnqueue(p: seq<Byte>) returns (ok: bool)
      requires Valid() && View().Shaped() && z.PacketOk(p)
      modifies this`wrPtr, ocmc, sram
      ensures Valid() && ok == (z.Blocks(|p|) <= old(View()).Free())
      ensures View() == if ok then Enqueued(old(View()), p) else old(View())
      ensures OnlyMine(old(ocmc[..]), old(sram[..]))
    {
      var count := Count();
      var writeBlock, readBlock := Block(wrPtr), Block(rdPtr);
      var free := if writeBlock > readBlock then count - writeBlock + readBlock
                  else if writeBlock < readBlock then readBlock - writeBlock
                  else count;
      ok := z.Blocks(|p|) <= free;
      if ok {
        Write(p);
      }
    }

    lemma SoundHolds()
      requires Sound()
      ensures View().Shaped() && Holds(View(), pkts)
    {
      assert Opened(PacketQueue, 0);
    }

    /** The same for a queue in order. */
    method Enqueue(p: seq<Byte>) returns (ok: bool)
      requires Sound() && z.PacketOk(p)
      modifies this`wrPtr, this`pkts, ocmc, sram
      ensures Sound() && pkts == Sent(z, Count(), old(pkts), p)
      ensures ok <==> Used(z, old(pkts)) + z.Blocks(|p|) <= Count()
      ensures OnlyMine(old(ocmc[..]), old(sram[..]))
    {
      SoundHolds();
      ghost var q, pk := View(), pkts;
      ok := TxEnqueue(p);
      OfferedHolds(q, pk, p);
      pkts := Sent(z, Count(), pk, p);
      assert View() == Offered(q, p);
    }

    /** `emac_rx_packet` with a socket buffer for the packet: the copy and the
        pointer behind it. */
    method RxPacket(bdRdPtr: nat, len: nat) returns (update: nat, p: seq<Byte>)
      requires Valid() && bdRdPtr == rdPtr && View().Shaped()
      requires Readable(View()) && len == z.Decode(View().bds[View().rd])
      ensures AtBlock(update) && Block(update) == Dequeued(View()).rd && p == Next(View())
    {
      BlocksWithin(z, len, Count());
      var readBlock := Block(bdRdPtr);
      var updateBlock, wrapped := EndBlock(readBlock, z.Blocks(len));
      PtrBlock(updateBlock);
      update := Ptr(updateBlock);
      p := Fetch(readBlock, len, wrapped);
    }

    /** Clears the descriptor that was read and moves the read pointer. */
    method Advance(update: nat)
      requires Valid() && AtBlock(update)
      modifies this`rdPtr, sram
      ensures Valid()
      ensures rdPtr == update
      ensures View() == var q := old(View()); q.(bds := q.bds[q.rd := 0], rd := Block(update))
      ensures MyDescriptors(old(sram[..]))
    {
      SetDescriptor(rdPtr, 0);
      rdPtr := update;
    }

    /** One turn of the loop of `emac_rx_packets`, which has read the write pointer
        as `bdWrPtr`; `fails` when no socket buffer is to be had. A length that no
        packet has makes the reader skip to there. */
    method RxTurn(bdWrPtr: nat, fails: bool) returns (r: Rx)
      requires Valid() && View().Shaped() && AtBlock(bdWrPtr)
      modifies this`rdPtr, sram
      ensures Valid()
      ensures Turned(old(View()), Block(bdWrPtr), fails, r, View())
      ensures (r.NoMemory? ==> rdPtr == old(rdPtr)) && (r.Bad? ==> rdPtr == bdWrPtr)
      ensures MyDescriptors(old(sram[..]))
    {
      PtrBlock(Block(rdPtr));
      var len := z.Decode(sram[rdPtr / z.bd]);
      var update := bdWrPtr;
      r := Bad;
      if 0 < len <= z.maxLen {
        if fails {
          return NoMemory;
        }
        var p;
        update, p := RxPacket(rdPtr, len);
        r := Packet(p);
      }
      Advance(update);
    }

    /** The same for a queue that holds packets: the oldest comes out. */
    method RxNext(fails: bool) returns (r: Rx)
      requires Valid() && rdPtr != wrPtr
      modifies this`rdPtr, this`pkts, sram
      ensures Valid()
      ensures (r.Bad? ==> rdPtr == wrPtr) && (r.NoMemory? ==> rdPtr == old(rdPtr))
      ensures (r.NoMemory? ==> fails) && (fails ==> !r.Packet?)
      ensures old(Sound()) ==>
                Sound() && r.NoMemory? == fails && old(pkts) == (if r.Packet? then [r.p] else []) + pkts && !r.Bad?
      ensures MyDescriptors(old(sram[..]))
    {
      assert Opened(PacketQueue, 0);
      ViewShaped();
      ghost var q := View();
      r := RxTurn(wrPtr, fails);
      if Holds(q, pkts) {
        TurnHolds(q, Block(wrPtr), fails, r, View(), pkts);
        pkts := if fails then pkts else pkts[1..];
      }
    }

    lemma SoundEmpty()
      requires Sound()
      ensures rdPtr == wrPtr <==> pkts == []
    {
      assert Opened(PacketQueue, 0);
      FreeExact(View(), pkts);
    }

    /** The inner loop of `emac_rx_packets`, which has taken `used` packets from the
        queues before and fails to get a buffer for packet number `fail`. `stop` is
        set when the call is to return. */
    method RxLoop(quota: int, used: nat, fail: nat)
      returns (out: seq<seq<Byte>>, stop: bool, noMem: bool)
      requires Valid() && (used == 0 || used < quota) && used <= fail
      modifies this`rdPtr, this`pkts, sram
      ensures Valid()
      ensures used + |out| <= Max(quota, used + 1) && used + |out| <= fail
      ensures if !stop then rdPtr == wrPtr && !noMem && (out == [] || used + |out| < quota)
              else if noMem then rdPtr != wrPtr && used + |out| == fail
              else used + |out| >= quota && (old(Sound()) ==> out != [])
      ensures old(Sound()) ==> Sound() && old(pkts) == out + pkts
      ensures MyDescriptors(old(sram[..]))
    {
      out, stop, noMem := [], false, false;
      ghost var sound, all, sram0 := Sound(), pkts, sram[..];
      while rdPtr != wrPtr
        invariant Valid() && wrPtr == old(wrPtr)
        invariant (out == [] || used + |out| < quota) && used + |out| <= fail
        invariant sound ==> Sound() && all == out + pkts
        invariant MyDescriptors(sram0)
        decreases quota - used - |out|, rdPtr != wrPtr
      {
        ghost var before := sram[..];
        var r := RxNext(used + |out| == fail);
        MineStill(sram0, before);
        if r.NoMemory? {
          return out, true, true;
        }
        if r.Packet? {
          Assoc(out, [r.p], pkts);
          out := out + [r.p];
        }
        if used + |out| >= quota {
          return out, true, false;
        }
      }
    }

    /** The same with the number of packets it takes from a queue in order. */
    method RxQueue(quota: int, used: nat, fail: nat)
      returns (out: seq<seq<Byte>>, stop: bool, noMem: bool)
      requires Valid() && (used == 0 || used < quota) && used <= fail
      modifies this`rdPtr, this`pkts, sram
      ensures Valid()
      ensures used + |out| <= Max(quota, used + 1) && used + |out| <= fail
      ensures !stop ==> !noMem && (out == [] || used + |out| < quota)
      ensures old(Sound()) ==>
                && Sound() && old(pkts) == out + pkts
                && Ends(old(pkts), out, pkts, quota - used, fail - used, stop, noMem)
      ensures MyDescriptors(old(sram[..]))
    {
      out, stop, noMem := RxLoop(quota, used, fail);
      if Sound() {
        SoundEmpty();
      }
    }
  }

  /** Where a call of the receive loop leaves `all` the packets it may take. */
  ghost predicate Ends(all: seq<seq<Byte>>, out: seq<seq<Byte>>, rest: seq<seq<Byte>>, quota: int, fail: nat,
                       stop: bool, noMem: bool)
  {
    && |out| <= Max(quota, 1) && |out| <= fail
    && if !stop then rest == []
       else if noMem then rest != [] && |out| == fail
       else out != [] && |out| >= quota
  }

  lemma EndsTaken(all: seq<seq<Byte>>, out: seq<seq<Byte>>, rest: seq<seq<Byte>>, quota: int, fail: nat,
                  stop: bool, noMem: bool)
    requires all == out + rest && Ends(all, out, rest, quota, fail, stop, noMem)
    ensures |out| == Taken(|all|, quota, fail) && out == all[..|out|] && rest == all[|out|..]
  {
  }

  /** The three ways a turn of the receive loop ends. */
  datatype Rx = Bad | NoMemory | Packet(p: seq<Byte>)

  ghost predicate Turned(q: Ring, stop: nat, fails: bool, r: Rx, q': Ring)
    requires q.Shaped() && stop < |q.bds|
  {
    if !Readable(q) then r == Bad && q' == Dropped(q, stop)
    else if fails then r == NoMemory && q' == q
    else r == Packet(Next(q)) && q' == Dequeued(q)
  }

  /** On a queue that holds packets a turn takes the oldest, if there is memory. */
  lemma TurnHolds(q: Ring, stop: nat, fails: bool, r: Rx, q': Ring, pkts: seq<seq<Byte>>)
    requires Holds(q, pkts) && q.rd != q.wr && stop < |q.bds| && Turned(q, stop, fails, r, q')
    ensures pkts != [] && Holds(q', if fails then pkts else pkts[1..])
    ensures if fails then r.NoMemory? else r == Packet(pkts[0]) && pkts == [r.p] + pkts[1..]
  {
    FreeExact(q, pkts);
    DequeueHolds(q, pkts);
  }

  /** What a turn leaves, position by position: it clears the descriptor it read
      unless it is to be read again, goes on behind the packet, or to the write
      position if the length is none a packet has, and touches nothing else. */
  lemma TurnLeaves(q: Ring, stop: nat, fails: bool, r: Rx, q': Ring)
    requires q.Shaped() && stop < |q.bds| && Turned(q, stop, fails, r, q')
    ensures q'.Shaped() && q'.z == q.z && q'.ram == q.ram && q'.wr == q.wr
    ensures forall i :: 0 <= i < |q.bds| ==> q'.bds[i] == if i == q.rd && !r.NoMemory? then 0 else q.bds[i]
    ensures var len := q.z.Decode(q.bds[q.rd]);
            match r
            case Bad => (len == 0 || len > q.z.maxLen) && q'.rd == stop && (stop == q.wr ==> Holds(q', []))
            case NoMemory => fails && 0 < len <= q.z.maxLen && q'.rd == q.rd
            case Packet(p) =>
              && !fails && |p| == len
              && q'.rd == (q.rd + (len + q.z.block - 1) / q.z.block) % |q.bds|
              && forall i :: 0 <= i < len ==>
                   p[i] == q.ram[Around(q.rd * q.z.block, i, |q.ram|)]
  {
    if r.Bad? && stop == q.wr {
      EmptyHolds(q');
    } else if r.Packet? {
      forall i | 0 <= i < |r.p|
        ensures r.p[i] == q.ram[Around(q.rd * q.z.block, i, |q.ram|)]
      {
        RotAt(q.ram, q.rd * q.z.block, i);
      }
    }
  }

  /** A run of the driver's two ends on one queue is a run of the specification. */
  method Play(q: BlockQueue, ops: seq<Op>) returns (got: seq<seq<Byte>>)
    requires q.Sound() && q.pkts == []
    requires forall i :: 0 <= i < |ops| && ops[i].Send? ==> q.z.PacketOk(ops[i].p)
    modifies q, q.ocmc, q.sram
    ensures q.Sound() && q.pkts == Run(q.z, q.Count(), ops).pkts
    ensures got == Run(q.z, q.Count(), ops).got
    ensures NeverFills(q.z, q.Count(), ops) <==> got + q.pkts == Run(q.z, q.Count(), ops).sent
  {
    got := [];
    var i := 0;
    while i < |ops|
      invariant 0 <= i <= |ops| && q.Sound()
      invariant q.pkts == Run(q.z, q.Count(), ops[..i]).pkts
      invariant got == Run(q.z, q.Count(), ops[..i]).got
    {
      assert ops[..i + 1][..i] == ops[..i];
      match ops[i] {
        case Send(p) =>
          var _ := q.Enqueue(p);
        case Receive(quota, fail) =>
          ghost var all := q.pkts;
          var out, stop, noMem := q.RxQueue(quota, 0, fail);
          EndsTaken(all, out, q.pkts, quota, fail, stop, noMem);
          got := got + out;
      }
      i := i + 1;
    }
    assert ops[..|ops|] == ops;
    FifoExactly(q.z, q.Count(), ops);
  }
}
