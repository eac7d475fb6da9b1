/** The driver's two ends of one queue, event by event: what `BlockFlow` proves of
    the ring it proves of them. */
module Interleaving {
  import opened Bytes
  import opened BlockQueues
  import opened BlockFlow

  /** What the memory and the reader's copy of the write pointer have come to. */
  ghost predicate At(q: BlockQueue, bdWrPtr: nat, sent: seq<seq<Byte>>, got: seq<seq<Byte>>, s: Flow)
    reads q, q.ocmc, q.sram
  {
    && q.Valid() && q.AtBlock(bdWrPtr)
    && q.View() == s.q && q.Block(bdWrPtr) == s.stop && sent == s.sent && got == s.got
  }

  method PlayOne(q: BlockQueue, bdWrPtr: nat, sent: seq<seq<Byte>>, got: seq<seq<Byte>>, e: Event, ghost s: Flow)
    returns (bdWrPtr': nat, sent': seq<seq<Byte>>, got': seq<seq<Byte>>)
    requires s.Shaped() && At(q, bdWrPtr, sent, got, s) && (e.Offer? ==> q.z.PacketOk(e.p))
    modifies q, q.ocmc, q.sram
    ensures At(q, bdWrPtr', sent', got', Step(s, e))
  {
    bdWrPtr', sent', got' := bdWrPtr, sent, got;
    match e {
      case Offer(p) =>
        var ok := q.TxEnqueue(p);
        if ok {
          sent' := sent + [p];
        }
      case Begin =>
        bdWrPtr' := q.wrPtr;
      case Turn =>
        if q.rdPtr != bdWrPtr {
          var r := q.RxTurn(bdWrPtr, false);
          if r.Packet? {
            got' := got + [r.p];
          }
        }
    }
  }

  /** Any interleaving on an empty queue is a run of `BlockFlow`, so the delivery
      law holds all along exactly when no end is deceived by equal pointers. */
  method PlayEvents(q: BlockQueue, es: seq<Event>)
    returns (sent: seq<seq<Byte>>, got: seq<seq<Byte>>, bdWrPtr: nat)
    requires q.Valid() && q.rdPtr == q.wrPtr
    requires forall i :: 0 <= i < |es| && es[i].Offer? ==> q.z.PacketOk(es[i].p)
    modifies q, q.ocmc, q.sram
    ensures old(q.View()).Shaped() && At(q, bdWrPtr, sent, got, Run(old(q.View()), es))
    ensures AlwaysLaw(old(q.View()), es) <==> NeverBlind(old(q.View()), es)
  {
    q.ViewShaped();
    ghost var q0 := q.View();
    sent, got, bdWrPtr := [], [], q.rdPtr;
    var i := 0;
    while i < |es|
      invariant 0 <= i <= |es| && At(q, bdWrPtr, sent, got, Run(q0, es[..i]))
    {
      assert es[..i + 1][..i] == es[..i];
      bdWrPtr, sent, got := PlayOne(q, bdWrPtr, sent, got, es[i], Run(q0, es[..i]));
      i := i + 1;
    }
    assert es[..|es|] == es;
    LawExactly(q0, es);
  }
}
