/** `emac_rx_packets` over the queues of a port, the most urgent first. */
module RxPackets {
  import opened Bytes
  import opened BlockRing
  import opened BlockQueues

  const ENOMEM := 12

  /** The queues lie in the same two memories, each with descriptors of its own. */
  ghost predicate Together(qs: seq<BlockQueue>, ocmc: array<Byte>, sram: array<nat>) {
    && (forall i :: 0 <= i < |qs| ==> qs[i].ocmc == ocmc && qs[i].sram == sram && qs[i].Placed())
    && (forall i, j :: 0 <= i < j < |qs| ==> qs[i] != qs[j] && Apart(qs[i], qs[j]))
  }

  ghost predicate Apart(q: BlockQueue, p: BlockQueue)
    requires q.Placed() && p.Placed()
  {
    || q.bdOff / q.z.bd + q.Count() <= p.bdOff / p.z.bd
    || p.bdOff / p.z.bd + p.Count() <= q.bdOff / q.z.bd
  }

  function Flat(s: seq<seq<seq<Byte>>>): seq<seq<Byte>> {
    if s == [] then [] else s[0] + Flat(s[1..])
  }

  lemma {:induction false} FlatConcat(a: seq<seq<seq<Byte>>>, b: seq<seq<seq<Byte>>>)
    ensures Flat(a + b) == Flat(a) + Flat(b)
  {
    if a == [] {
      assert a + b == b;
    } else {
      assert (a + b)[1..] == a[1..] + b;
      FlatConcat(a[1..], b);
      Assoc(a[0], Flat(a[1..]), Flat(b));
    }
  }

  lemma SameCells(a: seq<nat>, b: seq<nat>, lo: nat, n: nat, lo': nat, n': nat)
    requires |a| == |b| && lo' + n' <= |a| && (lo + n <= lo' || lo' + n' <= lo)
    requires forall k :: 0 <= k < |b| && !(lo <= k < lo + n) ==> b[k] == a[k]
    ensures a[lo'..lo' + n'] == b[lo'..lo' + n']
  {
  }

  /** The queues are in order and hold `pk`. */
  ghost predicate Hold(qs: seq<BlockQueue>, pk: seq<seq<seq<Byte>>>)
    reads qs, set q | q in qs :: q.ocmc, set q | q in qs :: q.sram
  {
    && |pk| == |qs|
    && forall k {:trigger Opened(AllQueues, k)} :: Opened(AllQueues, k) ==>
         forall i :: 0 <= i < |qs| ==> qs[i].Sound() && qs[i].pkts == pk[i]
  }

  /** The inner loop over queue `i`, which leaves the other queues alone. */
  method RxAmong(qs: seq<BlockQueue>, i: nat, ghost ocmc: array<Byte>, ghost sram: array<nat>,
                 quota: int, used: nat, fail: nat)
    returns (got: seq<seq<Byte>>, stop: bool, noMem: bool)
    requires Together(qs, ocmc, sram) && i < |qs| && forall j :: 0 <= j < |qs| ==> qs[j].Valid()
    requires (used == 0 || used < quota) && used <= fail
    modifies qs[i], sram
    ensures used + |got| <= Max(quota, used + 1) && used + |got| <= fail
    ensures !stop ==> !noMem && (got == [] || used + |got| < quota)
    ensures qs[i].Valid() && forall j :: 0 <= j < |qs| && j != i ==> qs[j].Valid()
    ensures forall j :: 0 <= j < |qs| && j != i && old(qs[j].Sound()) ==> qs[j].Sound()
    ensures old(qs[i].Sound()) ==>
              && qs[i].Sound() && old(qs[i].pkts) == got + qs[i].pkts
              && Ends(old(qs[i].pkts), got, qs[i].pkts, quota - used, fail - used, stop, noMem)
  {
    ghost var cells := sram[..];
    got, stop, noMem := qs[i].RxQueue(quota, used, fail);
    var lo, n := qs[i].bdOff / qs[i].z.bd, qs[i].Count();
    forall j | 0 <= j < |qs| && j != i
      ensures qs[j].Valid() && (old(qs[j].Sound()) ==> qs[j].Sound())
    {
      SameCells(cells, sram[..], lo, n, qs[j].bdOff / qs[j].z.bd, qs[j].Count());
      assert qs[j].View() == old(qs[j].View());
    }
  }

  /** The same for queues in order that hold `pk`. */
  method RxOne(qs: seq<BlockQueue>, i: nat, ghost ocmc: array<Byte>, ghost sram: array<nat>,
               quota: int, used: nat, fail: nat, ghost pk: seq<seq<seq<Byte>>>)
    returns (got: seq<seq<Byte>>, stop: bool, noMem: bool, ghost pk': seq<seq<seq<Byte>>>)
    requires Together(qs, ocmc, sram) && i < |qs| && forall j :: 0 <= j < |qs| ==> qs[j].Valid()
    requires (used == 0 || used < quota) && used <= fail
    modifies qs[i], sram
    ensures used + |got| <= Max(quota, used + 1) && used + |got| <= fail
    ensures !stop ==> !noMem && (got == [] || used + |got| < quota)
    ensures forall j :: 0 <= j < |qs| ==> qs[j].Valid()
    ensures old(Hold(qs, pk)) ==>
              && Hold(qs, pk') && |pk| == |qs| == |pk'|
              && pk' == pk[i := pk'[i]] && pk[i] == got + pk'[i]
              && Ends(pk[i], got, pk'[i], quota - used, fail - used, stop, noMem)
  {
    assert Opened(AllQueues, 0);
    got, stop, noMem := RxAmong(qs, i, ocmc, sram, quota, used, fail);
    pk' := if |pk| == |qs| then pk[i := qs[i].pkts] else pk;
  }

  /** `emac_rx_packets`. It ends whatever the descriptors hold, with no more
      packets than the quota. From queues in order come the oldest packets, queue
      by queue, as many as the quota and the socket buffers allow, and the rest stay. */
  method RxPackets(qs: seq<BlockQueue>, ghost ocmc: array<Byte>, ghost sram: array<nat>,
                   quota: int, fail: nat, ghost was: seq<seq<seq<Byte>>>)
    returns (ret: int, out: seq<seq<Byte>>, ghost rest: seq<seq<seq<Byte>>>)
    requires Together(qs, ocmc, sram) && forall j :: 0 <= j < |qs| ==> qs[j].Valid()
    modifies qs, sram
    ensures forall j :: 0 <= j < |qs| ==> qs[j].Valid()
    ensures ret == |out| <= Max(quota, 1) || ret == -ENOMEM
    ensures old(Hold(qs, was)) ==>
              && Hold(qs, rest) && Flat(was) == out + Flat(rest)
              && |out| == Taken(|Flat(was)|, quota, fail)
              && (ret == -ENOMEM ==> |out| == fail && Flat(rest) != [])
  {
    out, rest := [], was;
    var i := 0;
    var stop, noMem := false, false;
    ghost var sound := Hold(qs, was);
    SofarStart(was, quota, fail);
    while i < |qs| && !stop
      invariant 0 <= i <= |qs| && forall j :: 0 <= j < |qs| ==> qs[j].Valid()
      invariant |out| <= fail && |out| <= Max(quota, 1)
      invariant (noMem ==> stop) && (!stop ==> out == [] || |out| < quota)
      invariant sound ==> Hold(qs, rest) && Sofar(was, out, rest, i, quota, fail, stop, noMem)
      decreases |qs| - i, !stop
    {
      var got;
      ghost var pk := rest;
      got, stop, noMem, rest := RxOne(qs, i, ocmc, sram, quota, |out|, fail, pk);
      if sound {
        SofarStep(was, out, pk, i, quota, fail, got, rest, stop, noMem);
      }
      out := out + got;
      i := if stop then i else i + 1;
    }
    ret := if noMem then -ENOMEM else |out|;
    if sound {
      SofarEnd(was, out, rest, i, quota, fail, stop, noMem);
    }
  }

  /** The queues before `i` are empty, and `out` is what came out of them and of
      those after; `stop` and `noMem` tell why it ended there. */
  ghost predicate Sofar(was: seq<seq<seq<Byte>>>, out: seq<seq<Byte>>, rest: seq<seq<seq<Byte>>>,
                        i: nat, quota: int, fail: nat, stop: bool, noMem: bool)
  {
    && |rest| == |was| && i <= |rest|
    && forall k {:trigger Opened(ReceiveCall, k)} :: Opened(ReceiveCall, k) ==>
         && Flat(was) == out + Flat(rest)
         && (!stop ==> Flat(rest[..i]) == [])
         && (stop && noMem ==> |out| == fail && Flat(rest) != [])
         && (stop && !noMem ==> out != [] && |out| >= quota)
  }

  lemma SofarStart(was: seq<seq<seq<Byte>>>, quota: int, fail: nat)
    ensures Sofar(was, [], was, 0, quota, fail, false, false)
  {
    assert [] + Flat(was) == Flat(was);
  }

  lemma SofarStep(was: seq<seq<seq<Byte>>>, out: seq<seq<Byte>>, pk: seq<seq<seq<Byte>>>, i: nat, quota: int,
                  fail: nat, got: seq<seq<Byte>>, pk': seq<seq<seq<Byte>>>, stop: bool, noMem: bool)
    requires Sofar(was, out, pk, i, quota, fail, false, false) && i < |pk| == |pk'|
    requires pk' == pk[i := pk'[i]] && pk[i] == got + pk'[i] && |out| <= fail
    requires Ends(pk[i], got, pk'[i], quota - |out|, fail - |out|, stop, noMem)
    ensures Sofar(was, out + got, pk', if stop then i else i + 1, quota, fail, stop, noMem)
  {
    assert Opened(ReceiveCall, 0);
    FlatMove(pk, i, got, pk'[i], out);
  }

  lemma SofarEnd(was: seq<seq<seq<Byte>>>, out: seq<seq<Byte>>, rest: seq<seq<seq<Byte>>>,
                 i: nat, quota: int, fail: nat, stop: bool, noMem: bool)
    requires Sofar(was, out, rest, i, quota, fail, stop, noMem) && (stop || i == |rest|) && (noMem ==> stop)
    requires |out| <= fail && |out| <= Max(quota, 1)
    ensures Flat(was) == out + Flat(rest) && |out| == Taken(|Flat(was)|, quota, fail)
    ensures noMem ==> |out| == fail && Flat(rest) != []
  {
    assert Opened(ReceiveCall, 0);
    assert rest[..|rest|] == rest;
    EndsTaken(Flat(was), out, Flat(rest), quota, fail, stop, noMem);
  }

  lemma FlatMove(pk: seq<seq<seq<Byte>>>, i: nat, got: seq<seq<Byte>>, left: seq<seq<Byte>>, out: seq<seq<Byte>>)
    requires i < |pk| && pk[i] == got + left && Flat(pk[..i]) == []
    ensures out + Flat(pk) == out + got + Flat(pk[i := left])
    ensures left != [] ==> Flat(pk[i := left]) != []
    ensures left == [] ==> Flat(pk[i := left][..i + 1]) == []
  {
    var pk' := pk[i := left];
    assert pk == pk[..i] + pk[i..] && pk' == pk[..i] + pk'[i..];
    assert pk[i..][1..] == pk[i + 1..] && pk'[i..][1..] == pk[i + 1..];
    FlatConcat(pk[..i], pk[i..]);
    FlatConcat(pk[..i], pk'[i..]);
    Assoc(got, left, Flat(pk[i + 1..]));
    Assoc(out, got, Flat(pk'));
    assert pk'[..i + 1] == pk[..i] + [left];
    FlatConcat(pk[..i], [left]);
  }
}
