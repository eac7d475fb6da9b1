/** The console lock: a semaphore with a busy-wait hand-off in front of it, and a
    re-check behind its release. A state machine over any number of threads; a
    step is what the code does under one spinlock or in one atomic operation. */
module ConsoleLock {

  datatype Owner = Nobody | Thread(id: nat)

  /** What became of a record the console has passed. */
  datatype Fate = Printed | Suppressed | Dropped

  /** Where a thread is. */
  datatype PC =
    | Idle
    | Stored          // vprintk_emit: has stored records, is about to call console_trylock
    | Refused         // console_trylock_spinning: trylock failed
    | Spinning        // has set console_waiter and waits for it to be cleared
    | Holding         // has the lock from console_lock or console_trylock
    | Looping         // console_unlock: about to take logbuf_lock
    | Picked(n: nat)  // has formatted record n and released logbuf_lock
    | Driving(n: nat) // has set console_owner, calls the drivers with record n
    | HandingOff      // has cleared console_owner with a waiter there
    | Releasing       // found nothing more to print, about to up()
    | Rechecking      // has released the semaphore, about to compare sequence numbers
    | Retrying        // saw more records, about to call console_trylock

  /** The log as the console sees it, and what the console has done with it. */
  datatype Log = Log(
    first: nat,        // log_first_seq
    next: nat,         // log_next_seq
    conSeq: nat,       // console_seq
    fate: seq<Fate>,   // of every record below console_seq
    out: seq<nat>,     // records handed to the drivers
    gaps: nat)         // sum of the "messages dropped" counts, also of a line left unprinted

  datatype State = State(
    log: Log,
    sem: bool,         // console_sem is down
    owner: Owner,      // console_owner
    waiter: bool,      // console_waiter
    pc: seq<PC>,
    downs: nat,        // acquisitions and releases of the semaphore
    ups: nat)

  datatype Action =
    | Store(t: nat, k: nat, first: nat)       // vprintk_emit stores k records, eviction moves first
    | Nested(t: nat, k: nat, first: nat)      // the same from within a driver call
    | Evict(t: nat, first: nat)               // a log_store that makes room and still stores nothing
    | Trylock(t: nat)                         // console_trylock
    | CheckOwner(t: nat)                      // the section under console_owner_lock
    | SpinDone(t: nat)                        // sees console_waiter cleared
    | Lock(t: nat)                            // console_lock or console_trylock by anyone else
    | Unlock(t: nat)                          // calls console_unlock
    | Pick(t: nat, skip: nat, emit: bool)     // the section under logbuf_lock
    | Enable(t: nat)                          // console_lock_spinning_enable and the driver call
    | Disable(t: nat)                         // reads the waiter, clears console_owner
    | HandOff(t: nat)                         // clears console_waiter
    | Up(t: nat)                              // up_console_sem
    | Recheck(t: nat)                         // compares the sequence numbers once more
    | Retry(t: nat)                           // console_trylock behind `retry`

  function Max(a: nat, b: nat): nat { if a < b then b else a }

  function Times(f: Fate, n: nat): (s: seq<Fate>)
    ensures |s| == n
  {
    seq(n, _ => f)
  }

  function Count(fs: seq<Fate>, f: Fate): nat {
    if fs == [] then 0 else Count(fs[..|fs| - 1], f) + (if fs[|fs| - 1] == f then 1 else 0)
  }

  lemma {:induction false} CountConcat(a: seq<Fate>, b: seq<Fate>, f: Fate)
    ensures Count(a + b, f) == Count(a, f) + Count(b, f)
  {
    if b == [] {
      assert a + b == a;
    } else {
      assert (a + b)[..|a + b| - 1] == a + b[..|b| - 1];
      CountConcat(a, b[..|b| - 1], f);
    }
  }

  lemma {:induction false} CountTimes(g: Fate, n: nat, f: Fate)
    ensures Count(Times(g, n), f) == if f == g then n else 0
  {
    if n > 0 {
      assert Times(g, n)[..n - 1] == Times(g, n - 1);
      CountTimes(g, n - 1, f);
    }
  }

  predicate Enabled(s: State, a: Action) {
    && a.t < |s.pc|
    && match a
       case Store(t, k, first) => s.pc[t].Idle? && k > 0 && s.log.first <= first <= s.log.next + k
       case Nested(t, k, first) => s.pc[t].Driving? && k > 0 && s.log.first <= first <= s.log.next + k
       case Evict(t, first) => (s.pc[t].Idle? || s.pc[t].Driving?) && s.log.first <= first <= s.log.next
       case Trylock(t) => s.pc[t] == Stored
       case CheckOwner(t) => s.pc[t] == Refused
       case SpinDone(t) => s.pc[t] == Spinning && !s.waiter
       case Lock(t) => s.pc[t] == Idle && !s.sem
       case Unlock(t) => s.pc[t] == Holding
       case Pick(t, skip, emit) =>
         s.pc[t] == Looping
         && (if emit then Max(s.log.conSeq, s.log.first) + skip < s.log.next
             else Max(s.log.conSeq, s.log.first) + skip == s.log.next)
       case Enable(t) => s.pc[t].Picked?
       case Disable(t) => s.pc[t].Driving?
       case HandOff(t) => s.pc[t] == HandingOff
       case Up(t) => s.pc[t] == Releasing
       case Recheck(t) => s.pc[t] == Rechecking
       case Retry(t) => s.pc[t] == Retrying
  }

  /** The test under console_owner_lock: an active printer, not `t`, and no waiter yet. */
  predicate Admits(s: State, t: nat) {
    !s.waiter && s.owner != Nobody && s.owner != Thread(t)
  }

  function At(s: State, t: nat, pc: PC): State
    requires t < |s.pc|
  {
    s.(pc := s.pc[t := pc])
  }

  /** The locked section of console_unlock: what was evicted is dropped, `skip`
      records are suppressed by level, and one is formatted unless none is left. */
  function Take(l: Log, skip: nat, emit: bool): Log
    requires Max(l.conSeq, l.first) + skip + (if emit then 1 else 0) <= l.next
  {
    var from := Max(l.conSeq, l.first);
    l.(conSeq := from + skip + (if emit then 1 else 0),
       gaps := l.gaps + (from - l.conSeq),
       fate := l.fate + Times(Dropped, from - l.conSeq) + Times(Suppressed, skip) + (if emit then [Printed] else []))
  }

  function Stores(l: Log, k: nat, first: nat): Log {
    l.(next := l.next + k, first := first)
  }

  function Step(s: State, a: Action): State
    requires Enabled(s, a)
  {
    match a
    case Store(t, k, first) => At(s.(log := Stores(s.log, k, first)), t, Stored)
    // a driver that calls printk: the semaphore is down and the owner is the caller
    case Nested(_, k, first) => s.(log := Stores(s.log, k, first))
    case Evict(_, first) => s.(log := Stores(s.log, 0, first))
    case Trylock(t) => if s.sem then At(s, t, Refused) else At(s.(sem := true, downs := s.downs + 1), t, Looping)
    case CheckOwner(t) =>
      if Admits(s, t) then At(s.(waiter := true), t, Spinning)
      else At(s, t, Idle)
    case SpinDone(t) => At(s, t, Looping)
    case Lock(t) => At(s.(sem := true, downs := s.downs + 1), t, Holding)
    case Unlock(t) => At(s, t, Looping)
    case Pick(t, skip, emit) =>
      var log := Take(s.log, skip, emit);
      At(s.(log := log), t, if emit then Picked(log.conSeq - 1) else Releasing)
    case Enable(t) => At(s.(owner := Thread(t), log := s.log.(out := s.log.out + [s.pc[t].n])), t, Driving(s.pc[t].n))
    case Disable(t) => At(s.(owner := Nobody), t, if s.waiter then HandingOff else Looping)
    case HandOff(t) => At(s.(waiter := false), t, Idle)
    case Up(t) => At(s.(sem := false, ups := s.ups + 1), t, Rechecking)
    case Recheck(t) => At(s, t, if s.log.conSeq != s.log.next then Retrying else Idle)
    case Retry(t) => if s.sem then At(s, t, Idle) else At(s.(sem := true, downs := s.downs + 1), t, Looping)
  }

  function Init(threads: nat): State {
    State(Log(0, 0, 0, [], [], 0), false, Nobody, false, seq(threads, _ => Idle), 0, 0)
  }

  // ---- what every step keeps ----

  /** The thread has the console lock, or has been handed it. */
  predicate HasLock(pc: PC, waiter: bool) {
    match pc
    case Holding | Looping | Picked(_) | Driving(_) | HandingOff | Releasing => true
    case Spinning => !waiter
    case _ => false
  }

  /** The thread will yet look at the log, or will try the lock to do so. */
  predicate WillLook(pc: PC, waiter: bool) {
    HasLock(pc, waiter) || pc in {Stored, Rechecking, Retrying}
  }

  /** `holder` has the lock, `spinner` spins, and no one else does. */
  ghost predicate Roles(s: State, holder: Owner, spinner: Owner) {
    forall t: nat :: t < |s.pc| ==>
      && (HasLock(s.pc[t], s.waiter) <==> holder == Thread(t))
      && (s.pc[t].Spinning? <==> spinner == Thread(t))
  }

  ghost predicate LockInv(s: State, holder: Owner, spinner: Owner) {
    var held :=
      && Roles(s, holder, spinner)
      && (spinner.Thread? ==> spinner.id < |s.pc|)
      && s.sem == holder.Thread?
      && (s.waiter ==> spinner.Thread?)
      && s.downs == s.ups + (if s.sem then 1 else 0)
      && (match holder
          case Nobody => !s.waiter && s.owner == Nobody
          case Thread(h) =>
            && h < |s.pc|
            && s.owner == (if s.pc[h].Driving? then holder else Nobody)
            && (s.waiter ==> s.pc[h].Driving? || s.pc[h].HandingOff?)
            && (s.pc[h].HandingOff? ==> s.waiter));
    held
  }

  /** The record the holder has picked and not yet called the drivers with. */
  function InHand(s: State, holder: Owner): (hand: set<nat>) {
    if holder.Thread? && holder.id < |s.pc| && s.pc[holder.id].Picked? then {s.pc[holder.id].n} else {}
  }

  /** The records handed to the drivers so far rise to `bound`. */
  ghost predicate Rising(out: seq<nat>, bound: nat) {
    && (forall i, j :: 0 <= i < j < |out| ==> out[i] < out[j])
    && (forall i :: 0 <= i < |out| ==> out[i] < bound)
  }

  /** The records below console_seq are accounted for; those marked printed are
      the ones handed to the drivers and the one about to be. */
  ghost predicate FateInv(l: Log, hand: set<nat>) {
    var held :=
      && l.first <= l.next && l.conSeq <= l.next
      && |l.fate| == l.conSeq
      && l.gaps == Count(l.fate, Dropped)
      && Rising(l.out, l.conSeq)
      && (forall n: nat :: n in hand ==> Rising(l.out, n))
      && (forall n: nat :: n in l.out || n in hand <==> n < l.conSeq && l.fate[n] == Printed)
      && (forall n: nat :: n < l.conSeq && l.fate[n] == Dropped ==> n < l.first);
    held
  }

  /** No stored record is left unprinted. */
  ghost predicate NothingForgotten(s: State) {
    s.log.conSeq != s.log.next ==> exists t: nat :: t < |s.pc| && WillLook(s.pc[t], s.waiter)
  }

  ghost predicate Inv(s: State) {
    exists holder, spinner :: LockInv(s, holder, spinner) && FateInv(s.log, InHand(s, holder)) && NothingForgotten(s)
  }

  lemma InitInv(threads: nat)
    ensures Inv(Init(threads))
  {
    var s := Init(threads);
    assert LockInv(s, Nobody, Nobody) && FateInv(s.log, InHand(s, Nobody)) && NothingForgotten(s);
  }

  /** Who holds the lock and who spins after a step. */
  function Holder(s: State, a: Action, holder: Owner, spinner: Owner): Owner
  {
    match a
    case Trylock(t) => if s.sem then holder else Thread(t)
    case Lock(t) => Thread(t)
    case HandOff(_) => spinner
    case Up(_) => Nobody
    case Retry(t) => if s.sem then holder else Thread(t)
    case _ => holder
  }

  function Spinner(s: State, a: Action, spinner: Owner): Owner
  {
    match a
    case CheckOwner(t) => if Admits(s, t) then Thread(t) else spinner
    case SpinDone(_) => Nobody
    case _ => spinner
  }

  lemma LockStepAside(s: State, a: Action, holder: Owner, spinner: Owner)
    requires LockInv(s, holder, spinner) && Enabled(s, a)
    requires a.Store? || a.Nested? || a.Evict? || a.Unlock? || a.Pick? || a.Recheck?
    ensures LockInv(Step(s, a), holder, spinner)
  {
    assert HasLock(s.pc[a.t], s.waiter) <==> HasLock(Step(s, a).pc[a.t], s.waiter);
    assert Roles(Step(s, a), holder, spinner);
  }

  lemma LockStepSem(s: State, a: Action, holder: Owner, spinner: Owner)
    requires LockInv(s, holder, spinner) && Enabled(s, a)
    requires a.Trylock? || a.Lock? || a.Retry? || a.Up?
    ensures LockInv(Step(s, a), Holder(s, a, holder, spinner), spinner)
  {
    assert Roles(Step(s, a), Holder(s, a, holder, spinner), spinner);
  }

  lemma LockStepOwner(s: State, a: Action, holder: Owner, spinner: Owner)
    requires LockInv(s, holder, spinner) && Enabled(s, a)
    requires a.Enable? || a.Disable?
    ensures LockInv(Step(s, a), holder, spinner)
  {
    assert Roles(Step(s, a), holder, spinner);
  }

  lemma LockStepSpin(s: State, a: Action, holder: Owner, spinner: Owner)
    requires LockInv(s, holder, spinner) && Enabled(s, a)
    requires a.CheckOwner? || a.SpinDone? || a.HandOff?
    ensures LockInv(Step(s, a), Holder(s, a, holder, spinner), Spinner(s, a, spinner))
  {
    match a
    case CheckOwner(t) =>
    case SpinDone(t) =>
    case HandOff(t) =>
  }

  lemma LockStep(s: State, a: Action, holder: Owner, spinner: Owner)
    requires LockInv(s, holder, spinner) && Enabled(s, a)
    ensures LockInv(Step(s, a), Holder(s, a, holder, spinner), Spinner(s, a, spinner))
  {
    if a.Store? || a.Nested? || a.Evict? || a.Unlock? || a.Pick? || a.Recheck? {
      LockStepAside(s, a, holder, spinner);
    } else if a.Trylock? || a.Lock? || a.Retry? || a.Up? {
      LockStepSem(s, a, holder, spinner);
    } else if a.Enable? || a.Disable? {
      LockStepOwner(s, a, holder, spinner);
    } else {
      LockStepSpin(s, a, holder, spinner);
    }
  }

  lemma CountParts(a: seq<Fate>, b: seq<Fate>, c: seq<Fate>, d: seq<Fate>)
    ensures Count(a + b + c + d, Dropped)
         == Count(a, Dropped) + Count(b, Dropped) + Count(c, Dropped) + Count(d, Dropped)
  {
    CountConcat(a + b + c, d, Dropped);
    CountConcat(a + b, c, Dropped);
    CountConcat(a, b, Dropped);
  }

  lemma TakeCount(l: Log, skip: nat, emit: bool)
    requires Max(l.conSeq, l.first) + skip + (if emit then 1 else 0) <= l.next
    ensures Count(Take(l, skip, emit).fate, Dropped) == Count(l.fate, Dropped) + (Max(l.conSeq, l.first) - l.conSeq)
  {
    var gap := Max(l.conSeq, l.first) - l.conSeq;
    var last := if emit then [Printed] else [];
    CountParts(l.fate, Times(Dropped, gap), Times(Suppressed, skip), last);
    CountTimes(Dropped, gap, Dropped);
    CountTimes(Suppressed, skip, Dropped);
    assert Count(last, Dropped) == 0;
  }

  lemma FateTake(l: Log, skip: nat, emit: bool)
    requires FateInv(l, {}) && Max(l.conSeq, l.first) + skip + (if emit then 1 else 0) <= l.next
    ensures FateInv(Take(l, skip, emit), if emit then {Max(l.conSeq, l.first) + skip} else {})
  {
    TakeCount(l, skip, emit);
  }

  lemma FateDriven(l: Log, n: nat)
    requires FateInv(l, {n})
    ensures FateInv(l.(out := l.out + [n]), {})
  {
    var out := l.out + [n];
    assert out[|l.out|] == n;
    assert forall m :: m in out <==> m in l.out || m == n;
  }

  lemma FateStores(l: Log, k: nat, first: nat, hand: set<nat>)
    requires FateInv(l, hand) && l.first <= first <= l.next + k
    ensures FateInv(Stores(l, k, first), hand)
  {
  }

  lemma FateStep(s: State, a: Action, holder: Owner, spinner: Owner)
    requires LockInv(s, holder, spinner) && FateInv(s.log, InHand(s, holder)) && Enabled(s, a)
    ensures FateInv(Step(s, a).log, InHand(Step(s, a), Holder(s, a, holder, spinner)))
  {
    if a.Pick? {
      assert holder == Thread(a.t);
      FateTake(s.log, a.skip, a.emit);
    } else if a.Enable? {
      assert holder == Thread(a.t);
      FateDriven(s.log, s.pc[a.t].n);
    } else {
      assert InHand(Step(s, a), Holder(s, a, holder, spinner)) == InHand(s, holder);
      if a.Store? || a.Nested? {
        FateStores(s.log, a.k, a.first, InHand(s, holder));
      } else if a.Evict? {
        FateStores(s.log, 0, a.first, InHand(s, holder));
      }
    }
  }

  lemma LookStep(s: State, a: Action, holder: Owner, spinner: Owner)
    requires LockInv(s, holder, spinner) && NothingForgotten(s) && Enabled(s, a)
    ensures NothingForgotten(Step(s, a))
  {
    var s2 := Step(s, a);
    if s2.log.conSeq != s2.log.next {
      LockStep(s, a, holder, spinner);
      if s2.sem {
        assert WillLook(s2.pc[Holder(s, a, holder, spinner).id], s2.waiter);
      } else if a.CheckOwner? || a.Evict? {
        var w: nat :| w < |s.pc| && WillLook(s.pc[w], s.waiter);
        assert WillLook(s2.pc[w], s2.waiter);
      } else {
        assert WillLook(s2.pc[a.t], s2.waiter);
      }
    }
  }

  lemma StepKeeps(s: State, a: Action)
    requires Inv(s) && Enabled(s, a)
    ensures Inv(Step(s, a))
  {
    var holder, spinner :| LockInv(s, holder, spinner) && FateInv(s.log, InHand(s, holder)) && NothingForgotten(s);
    LockStep(s, a, holder, spinner);
    FateStep(s, a, holder, spinner);
    LookStep(s, a, holder, spinner);
  }

  // ---- every run ----

  /** A run: whatever is not possible when its turn comes is skipped. */
  function Run(s: State, acts: seq<Action>): State {
    if acts == [] then s else
    var s1 := Run(s, acts[..|acts| - 1]);
    var a := acts[|acts| - 1];
    if Enabled(s1, a) then Step(s1, a) else s1
  }

  lemma {:induction false} RunKeeps(s: State, acts: seq<Action>)
    requires Inv(s)
    ensures Inv(Run(s, acts)) && |Run(s, acts).pc| == |s.pc|
  {
    if acts != [] {
      RunKeeps(s, acts[..|acts| - 1]);
      var s1 := Run(s, acts[..|acts| - 1]);
      if Enabled(s1, acts[|acts| - 1]) {
        StepKeeps(s1, acts[|acts| - 1]);
      }
    }
  }

  ghost predicate Reachable(s: State) {
    exists threads: nat, acts :: s == Run(Init(threads), acts)
  }

  lemma ReachableInv(s: State)
    requires Reachable(s)
    ensures Inv(s)
  {
    var threads: nat, acts :| s == Run(Init(threads), acts);
    InitInv(threads);
    RunKeeps(Init(threads), acts);
  }

  /** The lock has at most one holder, and has one exactly when the semaphore is
      down; every acquisition has its one release, but for the holder's. */
  lemma MutualExclusion(s: State, t: nat, u: nat)
    requires Reachable(s) && t < |s.pc| && u < |s.pc|
    ensures HasLock(s.pc[t], s.waiter) && HasLock(s.pc[u], s.waiter) ==> t == u
    ensures HasLock(s.pc[t], s.waiter) ==> s.sem
    ensures s.sem ==> exists h: nat :: h < |s.pc| && HasLock(s.pc[h], s.waiter)
    ensures s.downs == s.ups + (if s.sem then 1 else 0)
  {
    ReachableInv(s);
    var holder, spinner :| LockInv(s, holder, spinner);
    if s.sem {
      assert HasLock(s.pc[holder.id], s.waiter);
    }
  }

  /** console_waiter set means that console_owner is, and calls the drivers, or that
      some thread has seen the waiter and is about to clear it. */
  lemma WaiterServed(s: State)
    requires Reachable(s)
    ensures s.waiter ==> exists h: nat :: h < |s.pc| &&
                           (s.pc[h].HandingOff? || (s.pc[h].Driving? && s.owner == Thread(h)))
    ensures s.waiter ==> exists t: nat :: t < |s.pc| && s.pc[t].Spinning?
  {
    ReachableInv(s);
    var holder, spinner :| LockInv(s, holder, spinner);
    if s.waiter {
      assert s.pc[holder.id].HandingOff? || s.pc[holder.id].Driving?;
      assert s.pc[spinner.id].Spinning?;
    }
  }

  /** At most one thread spins, and while it does, the one that will free it is
      calling the drivers as console_owner or has already seen it waiting. */
  lemma SpinnerServed(s: State, t: nat)
    requires Reachable(s) && t < |s.pc| && s.pc[t].Spinning?
    ensures forall u: nat :: u < |s.pc| && s.pc[u].Spinning? ==> u == t
    ensures s.waiter ==> exists h: nat :: h < |s.pc| &&
                           (s.pc[h].HandingOff? || (s.pc[h].Driving? && s.owner == Thread(h)))
    ensures !s.waiter ==> s.sem && HasLock(s.pc[t], s.waiter)
  {
    ReachableInv(s);
    var holder, spinner :| LockInv(s, holder, spinner);
    if s.waiter {
      assert s.pc[holder.id].HandingOff? || s.pc[holder.id].Driving?;
    }
  }

  /** console_owner is the thread calling the drivers, if one is. */
  lemma OwnerDrives(s: State, t: nat)
    requires Reachable(s) && t < |s.pc|
    ensures s.pc[t].Driving? <==> s.owner == Thread(t)
  {
    ReachableInv(s);
    var holder, spinner :| LockInv(s, holder, spinner);
    assert s.pc[t].Driving? ==> HasLock(s.pc[t], s.waiter);
  }

  /** While records are unprinted some thread is bound to look, and once all are
      idle every record was handed to the drivers, suppressed or evicted. */
  lemma NoneLeftUnprinted(s: State)
    requires Reachable(s)
    ensures s.log.conSeq <= s.log.next
    ensures s.log.conSeq != s.log.next ==> exists t: nat :: t < |s.pc| && WillLook(s.pc[t], s.waiter)
    ensures (forall t: nat :: t < |s.pc| ==> s.pc[t].Idle?) ==>
              (&& s.log.conSeq == s.log.next == |s.log.fate|
               && forall n: nat :: n < s.log.next ==> (s.log.fate[n] == Printed <==> n in s.log.out))
  {
    ReachableInv(s);
    var holder, spinner :| LockInv(s, holder, spinner) && FateInv(s.log, InHand(s, holder)) && NothingForgotten(s);
  }

  /** The console's accounts: the drivers got records in rising order, each
      marked as printed, and the gaps reported are the records evicted unseen. */
  lemma Accounts(s: State)
    requires Reachable(s)
    ensures |s.log.fate| == s.log.conSeq
    ensures forall i, j :: 0 <= i < j < |s.log.out| ==> s.log.out[i] < s.log.out[j]
    ensures forall n :: n in s.log.out ==> n < s.log.conSeq && s.log.fate[n] == Printed
    ensures forall n: nat :: n < s.log.conSeq && s.log.fate[n] == Printed && n !in s.log.out ==>
                               exists t: nat :: t < |s.pc| && s.pc[t] == Picked(n)
    ensures forall n: nat :: n < s.log.conSeq && s.log.fate[n] == Dropped ==> n < s.log.first
    ensures s.log.gaps == Count(s.log.fate, Dropped)
  {
    ReachableInv(s);
    var holder, spinner :| LockInv(s, holder, spinner) && FateInv(s.log, InHand(s, holder));
    forall n: nat | n < s.log.conSeq && s.log.fate[n] == Printed && n !in s.log.out
      ensures exists t: nat :: t < |s.pc| && s.pc[t] == Picked(n)
    {
      assert n in InHand(s, holder);
      assert s.pc[holder.id] == Picked(n);
    }
  }

  // ---- the console comes to rest ----

  predicate FromOutside(a: Action) {
    a.Store? || a.Nested? || a.Evict? || a.Lock?
  }

  /** Bounds what a thread may yet do; `pending` when records are unprinted. */
  function Weight(pc: PC, pending: bool): nat {
    match pc
    case Idle => 0
    case HandingOff => 1
    case Looping => 3
    case Holding | Spinning | Driving(_) | Retrying => 4
    case Picked(_) | Refused => 5
    case Stored => 6
    case Releasing => if pending then 6 else 2
    case Rechecking => if pending then 5 else 1
  }

  function Weights(pcs: seq<PC>, pending: bool): nat {
    if pcs == [] then 0 else Weights(pcs[..|pcs| - 1], pending) + Weight(pcs[|pcs| - 1], pending)
  }

  lemma {:induction false} WeightsAt(pcs: seq<PC>, pending: bool, t: nat, pc: PC)
    requires t < |pcs|
    ensures Weights(pcs[t := pc], pending) == Weights(pcs, pending) - Weight(pcs[t], pending) + Weight(pc, pending)
  {
    var last := |pcs| - 1;
    if t == last {
      assert pcs[t := pc][..last] == pcs[..last];
    } else {
      assert pcs[t := pc][..last] == pcs[..last][t := pc];
      WeightsAt(pcs[..last], pending, t, pc);
    }
  }

  lemma {:induction false} WeightsFall(pcs: seq<PC>)
    ensures Weights(pcs, false) <= Weights(pcs, true)
  {
    if pcs != [] {
      WeightsFall(pcs[..|pcs| - 1]);
    }
  }

  function Work(s: State): nat
    requires s.log.conSeq <= s.log.next
  {
    3 * (s.log.next - s.log.conSeq) + Weights(s.pc, s.log.conSeq != s.log.next)
  }

  lemma MoveLightens(s: State, a: Action)
    requires Enabled(s, a) && !FromOutside(a) && !a.Pick?
    ensures Step(s, a).log.conSeq == s.log.conSeq && Step(s, a).log.next == s.log.next
    ensures Step(s, a).pc == s.pc[a.t := Step(s, a).pc[a.t]]
    ensures var pending := s.log.conSeq != s.log.next;
            Weight(Step(s, a).pc[a.t], pending) < Weight(s.pc[a.t], pending)
  {
  }

  lemma Counted(s: State)
    requires Inv(s)
    ensures s.log.first <= s.log.next && s.log.conSeq <= s.log.next
  {
    var holder, spinner :| LockInv(s, holder, spinner) && FateInv(s.log, InHand(s, holder));
  }

  /** Each step that is not a new message or a new console_lock leaves less to do. */
  lemma StepWorks(s: State, a: Action)
    requires Inv(s) && Enabled(s, a) && !FromOutside(a)
    ensures s.log.conSeq <= s.log.next == Step(s, a).log.next && Step(s, a).log.conSeq <= s.log.next
    ensures Step(s, a).log.first == s.log.first
    ensures Work(Step(s, a)) < Work(s)
  {
    Counted(s);
    var pending, pc := s.log.conSeq != s.log.next, Step(s, a).pc[a.t];
    if a.Pick? {
      WeightsAt(s.pc, true, a.t, pc);
      WeightsAt(s.pc, false, a.t, pc);
      WeightsFall(s.pc);
      WeightsFall(s.pc[a.t := pc]);
    } else {
      MoveLightens(s, a);
      WeightsAt(s.pc, pending, a.t, pc);
    }
  }

  /** Unless all threads are idle some thread can move by itself. */
  lemma NeverStuck(s: State, t: nat) returns (a: Action)
    requires Inv(s) && t < |s.pc| && !s.pc[t].Idle?
    ensures Enabled(s, a) && !FromOutside(a)
  {
    var holder, spinner :| LockInv(s, holder, spinner) && FateInv(s.log, InHand(s, holder));
    var u := if s.pc[t].Spinning? && s.waiter then holder.id else t;
    var pc := s.pc[u];
    a := if pc.Stored? then Trylock(u)
         else if pc.Refused? then CheckOwner(u)
         else if pc.Spinning? then SpinDone(u)
         else if pc.Holding? then Unlock(u)
         else if pc.Looping? then Pick(u, s.log.next - Max(s.log.conSeq, s.log.first), false)
         else if pc.Picked? then Enable(u)
         else if pc.Driving? then Disable(u)
         else if pc.HandingOff? then HandOff(u)
         else if pc.Releasing? then Up(u)
         else if pc.Rechecking? then Recheck(u)
         else Retry(u);
  }

  /** Every step of `acts` is possible in turn and comes from within. */
  ghost predicate Quiet(s: State, acts: seq<Action>) {
    acts == [] || (&& Quiet(s, acts[..|acts| - 1])
                 && Enabled(Run(s, acts[..|acts| - 1]), acts[|acts| - 1])
                 && !FromOutside(acts[|acts| - 1]))
  }

  lemma {:induction false} QuietWorks(s: State, acts: seq<Action>)
    requires Inv(s) && Quiet(s, acts)
    ensures s.log.conSeq <= s.log.next && Run(s, acts).log.conSeq <= s.log.next == Run(s, acts).log.next
    ensures |acts| + Work(Run(s, acts)) <= Work(s)
  {
    if acts == [] {
      Counted(s);
    } else {
      var acts1, a := acts[..|acts| - 1], acts[|acts| - 1];
      QuietWorks(s, acts1);
      RunKeeps(s, acts1);
      StepWorks(Run(s, acts1), a);
    }
  }

  lemma CanGoOn(s: State, acts: seq<Action>, t: nat) returns (a: Action)
    requires Inv(s) && Quiet(s, acts) && t < |Run(s, acts).pc| && !Run(s, acts).pc[t].Idle?
    ensures Quiet(s, acts + [a]) && !FromOutside(a)
  {
    RunKeeps(s, acts);
    a := NeverStuck(Run(s, acts), t);
    assert (acts + [a])[..|acts|] == acts;
  }

  predicate AtRest(s: State) {
    && s.log.conSeq == s.log.next
    && forall t: nat :: t < |s.pc| ==> s.pc[t].Idle?
  }

  lemma SomeBusy(s: State) returns (t: nat)
    requires Inv(s) && !AtRest(s)
    ensures t < |s.pc| && !s.pc[t].Idle?
  {
    var holder, spinner :| LockInv(s, holder, spinner) && NothingForgotten(s);
    t :| t < |s.pc| && !s.pc[t].Idle?;
  }

  /** Left alone, the console comes to rest whatever the schedule: no run without
      a new message or console_lock is longer than Work, and one that cannot go on
      has left all threads idle and every record stored so far accounted for. */
  lemma ComesToRest(s: State, acts: seq<Action>)
    requires Reachable(s) && Quiet(s, acts)
    ensures s.log.conSeq <= s.log.next && |acts| <= Work(s)
    ensures Run(s, acts).log.next == s.log.next
    ensures (forall a :: Quiet(s, acts + [a]) ==> FromOutside(a)) ==> AtRest(Run(s, acts))
  {
    ReachableInv(s);
    RunKeeps(s, acts);
    QuietWorks(s, acts);
    var s2 := Run(s, acts);
    if !AtRest(s2) {
      var t := SomeBusy(s2);
      var a := CanGoOn(s, acts, t);
    }
  }

  // ---- the hand-over ----

  /** A thread refused the lock waits exactly if some thread is calling the drivers
      and no one waits yet; if not it goes its way and leaves nothing behind. */
  lemma CheckOwnerExact(s: State, t: nat)
    requires Inv(s) && t < |s.pc| && s.pc[t] == Refused
    ensures var driven := exists h: nat :: h < |s.pc| && s.pc[h].Driving?;
            Step(s, CheckOwner(t)) ==
            if driven && !s.waiter then s.(waiter := true, pc := s.pc[t := Spinning])
            else s.(pc := s.pc[t := Idle])
  {
    var holder, spinner :| LockInv(s, holder, spinner);
    forall h: nat | h < |s.pc| && s.pc[h].Driving?
      ensures s.owner == Thread(h)
    {
      assert HasLock(s.pc[h], s.waiter);
    }
  }

  /** While a thread waits, only the hand-over ends its wait, and nobody takes or
      releases the semaphore. */
  lemma WaitStep(s: State, a: Action, t: nat)
    requires Inv(s) && t < |s.pc| && s.pc[t].Spinning? && Enabled(s, a)
    ensures var s' := Step(s, a);
            && (s'.sem, s'.downs, s'.ups) == (s.sem, s.downs, s.ups)
            && s'.pc[t] == (if a == SpinDone(t) then Looping else Spinning)
            && s'.waiter == (s.waiter && !a.HandOff?)
  {
    var holder, spinner :| LockInv(s, holder, spinner);
    assert HasLock(s.pc[a.t], s.waiter) ==> holder == Thread(a.t);
  }

  /** A thread that waits is the next to have the console: whatever is done before
      it goes on, it is there, and the semaphore has neither been taken nor released. */
  lemma {:induction false} WaiterIsNext(s: State, acts: seq<Action>, t: nat)
    requires Inv(s) && t < |s.pc| && s.pc[t].Spinning?
    requires SpinDone(t) !in acts
    ensures var s' := Run(s, acts);
            |s'.pc| == |s.pc| && s'.pc[t].Spinning? && (s'.sem, s'.downs, s'.ups) == (s.sem, s.downs, s.ups)
  {
    if acts != [] {
      var acts1, a := acts[..|acts| - 1], acts[|acts| - 1];
      WaiterIsNext(s, acts1, t);
      RunKeeps(s, acts1);
      if Enabled(Run(s, acts1), a) {
        WaitStep(Run(s, acts1), a, t);
      }
    }
  }

  lemma RunMore(s: State, acts: seq<Action>, a: Action)
    requires Enabled(Run(s, acts), a)
    ensures Run(s, acts + [a]) == Step(Run(s, acts), a)
    ensures Quiet(s, acts) && !FromOutside(a) ==> Quiet(s, acts + [a])
  {
    assert (acts + [a])[..|acts|] == acts;
  }

  ghost predicate Goes(s: State, a: Action, s': State) {
    var held := Enabled(s, a) && Step(s, a) == s';
    held
  }

  lemma RunFive(s: State, a: Action, s1: State, b: Action, s2: State, c: Action, s3: State, d: Action, s4: State,
                e: Action, s5: State)
    requires Goes(s, a, s1) && Goes(s1, b, s2) && Goes(s2, c, s3) && Goes(s3, d, s4) && Goes(s4, e, s5)
    ensures Run(s, [a, b, c, d, e]) == s5
    ensures (forall x :: x in [a, b, c, d, e] ==> !FromOutside(x)) ==> Quiet(s, [a, b, c, d, e])
  {
    RunMore(s, [], a);
    assert [] + [a] == [a] && [a] + [b] == [a, b] && [a, b] + [c] == [a, b, c];
    assert [a, b, c] + [d] == [a, b, c, d] && [a, b, c, d] + [e] == [a, b, c, d, e];
    RunMore(s, [a], b);
    RunMore(s, [a, b], c);
    RunMore(s, [a, b, c], d);
    RunMore(s, [a, b, c, d], e);
    assert forall x :: x in [a, b, c, d] ==> x in [a, b, c, d, e];
  }

  lemma HandOverSteps(s: State, t: nat, h: nat)
    requires t < |s.pc| && h < |s.pc| && s.pc[t] == Stored && s.pc[h].Driving?
    requires s.sem && s.owner == Thread(h) && !s.waiter
    ensures Goes(s, Trylock(t), At(s, t, Refused))
    ensures Goes(At(s, t, Refused), CheckOwner(t), At(s.(waiter := true), t, Spinning))
    ensures Goes(At(s.(waiter := true), t, Spinning), Disable(h),
                 s.(waiter := true, owner := Nobody, pc := s.pc[t := Spinning][h := HandingOff]))
    ensures Goes(s.(waiter := true, owner := Nobody, pc := s.pc[t := Spinning][h := HandingOff]), HandOff(h),
                 s.(owner := Nobody, pc := s.pc[t := Spinning][h := Idle]))
    ensures Goes(s.(owner := Nobody, pc := s.pc[t := Spinning][h := Idle]), SpinDone(t),
                 s.(owner := Nobody, pc := s.pc[t := Looping][h := Idle]))
  {
    assert s.pc[t := Refused][t := Spinning] == s.pc[t := Spinning];
    assert s.pc[t := Spinning][h := HandingOff][h := Idle] == s.pc[t := Spinning][h := Idle];
    assert s.pc[t := Spinning][h := Idle][t := Looping] == s.pc[t := Looping][h := Idle];
  }

  /** The hand-over: a message stored while a thread calls the drivers and no one
      waits leaves that thread free, and the console to the one that brought it,
      with the semaphore down all the while. */
  lemma HandOver(s: State, t: nat, h: nat)
    requires Inv(s) && t < |s.pc| && h < |s.pc|
    requires s.pc[t] == Stored && s.pc[h].Driving? && !s.waiter
    ensures var acts := [Trylock(t), CheckOwner(t), Disable(h), HandOff(h), SpinDone(t)];
            Quiet(s, acts) && Run(s, acts) == s.(owner := Nobody, pc := s.pc[t := Looping][h := Idle])
  {
    var holder, spinner :| LockInv(s, holder, spinner);
    assert HasLock(s.pc[h], s.waiter);
    HandOverSteps(s, t, h);
    var s3 := s.(waiter := true, owner := Nobody, pc := s.pc[t := Spinning][h := HandingOff]);
    RunFive(s, Trylock(t), At(s, t, Refused), CheckOwner(t), At(s.(waiter := true), t, Spinning), Disable(h), s3,
            HandOff(h), s.(owner := Nobody, pc := s.pc[t := Spinning][h := Idle]),
            SpinDone(t), s.(owner := Nobody, pc := s.pc[t := Looping][h := Idle]));
  }

  function LockedBy(threads: nat, h: nat, pc: PC, log: Log): State
    requires h < threads
  {
    State(log, true, if pc.Driving? then Thread(h) else Nobody, false, Init(threads).pc[h := pc], 1, 0)
  }

  lemma ArrivalSteps(threads: nat, h: nat, t: nat)
    requires h < threads && t < threads && h != t
    ensures Goes(Init(threads), Store(h, 1, 0), At(Init(threads).(log := Log(0, 1, 0, [], [], 0)), h, Stored))
    ensures Goes(At(Init(threads).(log := Log(0, 1, 0, [], [], 0)), h, Stored), Trylock(h),
                 LockedBy(threads, h, Looping, Log(0, 1, 0, [], [], 0)))
    ensures Goes(LockedBy(threads, h, Looping, Log(0, 1, 0, [], [], 0)), Pick(h, 0, true),
                 LockedBy(threads, h, Picked(0), Log(0, 1, 1, [Printed], [], 0)))
    ensures Goes(LockedBy(threads, h, Picked(0), Log(0, 1, 1, [Printed], [], 0)), Enable(h),
                 LockedBy(threads, h, Driving(0), Log(0, 1, 1, [Printed], [0], 0)))
    ensures Goes(LockedBy(threads, h, Driving(0), Log(0, 1, 1, [Printed], [0], 0)), Store(t, 1, 0),
                 At(LockedBy(threads, h, Driving(0), Log(0, 2, 1, [Printed], [0], 0)), t, Stored))
  {
    var pc := Init(threads).pc;
    assert pc[h := Stored][h := Looping] == pc[h := Looping];
    assert pc[h := Looping][h := Picked(0)] == pc[h := Picked(0)];
    assert pc[h := Picked(0)][h := Driving(0)] == pc[h := Driving(0)];
    assert Times(Dropped, 0) == [] && Times(Suppressed, 0) == [];
  }

  /** Such a state is reached as soon as two threads print at about the same time. */
  lemma HandOverArises(threads: nat, h: nat, t: nat)
    requires h < threads && t < threads && h != t
    ensures Run(Init(threads), [Store(h, 1, 0), Trylock(h), Pick(h, 0, true), Enable(h), Store(t, 1, 0)]) ==
            At(LockedBy(threads, h, Driving(0), Log(0, 2, 1, [Printed], [0], 0)), t, Stored)
  {
    ArrivalSteps(threads, h, t);
    RunFive(Init(threads),
            Store(h, 1, 0), At(Init(threads).(log := Log(0, 1, 0, [], [], 0)), h, Stored),
            Trylock(h), LockedBy(threads, h, Looping, Log(0, 1, 0, [], [], 0)),
            Pick(h, 0, true), LockedBy(threads, h, Picked(0), Log(0, 1, 1, [Printed], [], 0)),
            Enable(h), LockedBy(threads, h, Driving(0), Log(0, 1, 1, [Printed], [0], 0)),
            Store(t, 1, 0), At(LockedBy(threads, h, Driving(0), Log(0, 2, 1, [Printed], [0], 0)), t, Stored));
  }
}
