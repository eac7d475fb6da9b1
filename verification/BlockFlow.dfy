/** The two ends of a block queue at work at the same time. A receive call reads
    the write pointer once, when it comes to the queue, and then takes one packet a
    turn; the sender may come in between any two turns. */
module BlockFlow {
  import opened Bytes
  import opened BlockRing

  /** A packet is offered to the sender; a receive call begins; it takes its next
      turn. A call that ends early just takes no more turns. */
  datatype Event = Offer(p: seq<Byte>) | Begin | Turn

  /** The ring; the write position as the reader knows it; how many of the packets
      queued when the call began it has not delivered yet; all packets accepted
      and delivered so far. */
  datatype Flow = Flow(q: Ring, stop: nat, due: nat, sent: seq<seq<Byte>>, got: seq<seq<Byte>>)
  {
    ghost predicate Shaped() {
      q.Shaped() && stop < |q.bds|
    }

    function Undelivered(): nat {
      Max(|sent| - |got|, 0)
    }
  }

  function Start(q: Ring): Flow {
    Flow(q, q.rd, 0, [], [])
  }

  ghost predicate Accepts(q: Ring, p: seq<Byte>)
    requires q.Shaped()
  {
    q.z.PacketOk(p) && q.z.Blocks(|p|) <= q.Free()
  }

  ghost function Step(s: Flow, e: Event): (s': Flow)
    requires s.Shaped()
    ensures s'.Shaped() && s'.q.z == s.q.z && |s'.q.bds| == |s.q.bds|
  {
    match e
    case Offer(p) => if Accepts(s.q, p) then s.(q := Enqueued(s.q, p), sent := s.sent + [p]) else s
    case Begin => s.(stop := s.q.wr, due := s.Undelivered())
    case Turn =>
      if s.q.rd == s.stop then s
      else if Readable(s.q) then s.(q := Dequeued(s.q), due := Max(s.due - 1, 0), got := s.got + [Next(s.q)])
      else s.(q := Dropped(s.q, s.stop))
  }

  ghost function Run(q: Ring, es: seq<Event>): (s: Flow)
    requires q.Shaped()
    ensures s.Shaped() && s.q.z == q.z && |s.q.bds| == |q.bds|
  {
    if es == [] then Start(q) else Step(Run(q, es[..|es| - 1]), es[|es| - 1])
  }

  /** The delivery law. What was delivered is the beginning of what was accepted;
      the rest lies in the ring, where the readers will find it; and the present
      call will stop behind the packets that were queued when it began. */
  ghost predicate Law(s: Flow) {
    && s.Shaped() && s.got <= s.sent
    && Lies(s.q, s.sent[|s.got|..])
    && s.due <= |s.sent| - |s.got|
    && StopsBehind(s.q, s.sent[|s.got|..][..s.due], s.stop)
  }

  ghost predicate StopsBehind(q: Ring, pkts: seq<seq<Byte>>, stop: nat)
    requires q.Shaped()
  {
    var n := Used(q.z, pkts);
    n < |q.bds| && stop == q.Past(q.rd, n)
  }

  /** The sender or a beginning call takes a full ring for an empty one: it reads
      equal pointers while accepted packets are yet to be delivered. */
  ghost predicate Blind(s: Flow, e: Event)
    requires s.Shaped()
  {
    && s.q.rd == s.q.wr && s.Undelivered() > 0
    && (e.Begin? || (e.Offer? && Accepts(s.q, e.p)))
  }

  lemma OfferKeeps(s: Flow, p: seq<Byte>)
    requires Law(s) && !Blind(s, Offer(p))
    ensures Law(Step(s, Offer(p)))
  {
    var held := s.sent[|s.got|..];
    if Accepts(s.q, p) {
      NotFull(s.q, held);
      EnqueueLies(s.q, held, p);
      var s' := Step(s, Offer(p));
      assert s'.sent[|s.got|..] == held + [p];
      assert (held + [p])[..s.due] == held[..s.due];
    }
  }

  /** A ring whose pointers differ has a free block, and so has an empty one. */
  lemma NotFull(q: Ring, pkts: seq<seq<Byte>>)
    requires Lies(q, pkts) && (q.rd == q.wr ==> pkts == [])
    ensures Holds(q, pkts)
  {
  }

  /** In a ring whose pointers are equal the packets there are fill it. */
  lemma FullWhenEqual(q: Ring, pkts: seq<seq<Byte>>)
    requires Lies(q, pkts) && q.rd == q.wr && pkts != []
    ensures Used(q.z, pkts) == |q.bds|
  {
    UsedPositive(q, pkts);
  }

  lemma BeginKeeps(s: Flow)
    requires Law(s) && !Blind(s, Begin)
    ensures Law(Step(s, Begin))
  {
    var held := s.sent[|s.got|..];
    NotFull(s.q, held);
    assert held[..|held|] == held;
  }

  lemma StopMoves(q: Ring, q': Ring, pkts: seq<seq<Byte>>, stop: nat)
    requires q.Shaped() && q'.Shaped() && q'.z == q.z && |q'.bds| == |q.bds|
    requires pkts != [] && StopsBehind(q, pkts, stop) && q.z.Blocks(|pkts[0]|) <= Used(q.z, pkts)
    requires q'.rd == q.Past(q.rd, q.z.Blocks(|pkts[0]|))
    ensures StopsBehind(q', pkts[1..], stop)
  {
    PastPast(q, q.rd, q.z.Blocks(|pkts[0]|), Used(q.z, pkts[1..]));
  }

  lemma TurnKeeps(s: Flow)
    requires Law(s)
    ensures Law(Step(s, Turn))
    ensures s.q.rd == s.stop <==> s.due == 0
    ensures s.due > 0 ==>
              && Step(s, Turn).got == s.got + [s.sent[|s.got|]]
              && Step(s, Turn).due == s.due - 1
  {
    var held := s.sent[|s.got|..];
    if s.due > 0 {
      var due := held[..s.due];
      UsedPositive(s.q, held);
      assert due[0] == held[0] && Used(s.q.z, due) == s.q.z.Blocks(|due[0]|) + Used(s.q.z, due[1..]);
      DequeueLies(s.q, held);
      var s' := Step(s, Turn);
      StopMoves(s.q, s'.q, due, s.stop);
      assert s'.sent[|s'.got|..] == held[1..];
      assert held[1..][..s'.due] == due[1..];
    }
  }

  lemma BlindBreaks(s: Flow, e: Event)
    requires Law(s) && Blind(s, e)
    ensures !Law(Step(s, e))
  {
    var held := s.sent[|s.got|..];
    FullWhenEqual(s.q, held);
    match e {
      case Begin =>
        assert held[..|held|] == held;
      case Offer(p) =>
        BlocksCover(s.q.z, |p|);
        UsedConcat(s.q.z, held, [p]);
        assert Used(s.q.z, [p]) == s.q.z.Blocks(|p|);
        assert Step(s, e).sent[|s.got|..] == held + [p];
    }
  }

  lemma StepKeeps(s: Flow, e: Event)
    requires Law(s)
    ensures Law(Step(s, e)) <==> !Blind(s, e)
  {
    if Blind(s, e) {
      BlindBreaks(s, e);
    } else {
      match e {
        case Offer(p) => OfferKeeps(s, p);
        case Begin => BeginKeeps(s);
        case Turn => TurnKeeps(s);
      }
    }
  }

  lemma StartLaw(q: Ring)
    requires q.Shaped() && q.rd == q.wr
    ensures Law(Start(q))
  {
    EmptyHolds(q);
  }

  /** No event of the run is blind. */
  ghost predicate NeverBlind(q: Ring, es: seq<Event>)
    requires q.Shaped()
  {
    es == [] || (NeverBlind(q, es[..|es| - 1]) && !Blind(Run(q, es[..|es| - 1]), es[|es| - 1]))
  }

  /** The law holds all along the run. */
  ghost predicate AlwaysLaw(q: Ring, es: seq<Event>)
    requires q.Shaped()
  {
    Law(Run(q, es)) && (es == [] || AlwaysLaw(q, es[..|es| - 1]))
  }

  /** Over every interleaving of packets, receive calls and their turns, from an
      empty ring on, the delivery law holds all along if and only if neither the
      sender, accepting a packet, nor a beginning call ever reads equal pointers
      while packets are yet to be delivered. */
  lemma {:induction false} LawExactly(q: Ring, es: seq<Event>)
    requires q.Shaped() && q.rd == q.wr
    ensures AlwaysLaw(q, es) <==> NeverBlind(q, es)
  {
    if es == [] {
      StartLaw(q);
    } else {
      var before, e := es[..|es| - 1], es[|es| - 1];
      LawExactly(q, before);
      if AlwaysLaw(q, before) {
        StepKeeps(Run(q, before), e);
      }
    }
  }

  /** The next `n` turns of a call. */
  ghost function Turns(s: Flow, n: nat): (s': Flow)
    requires s.Shaped()
    ensures s'.Shaped()
  {
    if n == 0 then s else Step(Turns(s, n - 1), Turn)
  }

  lemma {:induction false} TurnsDeliver(s: Flow, n: nat)
    requires Law(s) && n <= s.due
    ensures var s' := Turns(s, n);
            Law(s') && s'.due == s.due - n && s'.sent == s.sent && |s'.got| == |s.got| + n
  {
    if n > 0 {
      TurnsDeliver(s, n - 1);
      TurnKeeps(Turns(s, n - 1));
    }
  }

  /** A call that begins when the pointers do not deceive it delivers all that is
      queued, and then finds its own end. */
  lemma CallDelivers(s: Flow)
    requires Law(s) && !Blind(s, Begin)
    ensures var s' := Turns(Step(s, Begin), |s.sent| - |s.got|);
            Law(s') && s'.got == s'.sent == s.sent && s'.q.rd == s'.stop
  {
    BeginKeeps(s);
    TurnsDeliver(Step(s, Begin), |s.sent| - |s.got|);
    TurnKeeps(Turns(Step(s, Begin), |s.sent| - |s.got|));
  }
}
