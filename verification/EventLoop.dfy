/** The main loop of kernel/src/kmain.c and the interrupt handlers, on one CPU, as interleaved steps.  They share the
    message queue (kernel/src/interrupt.c), which is guarded by the interrupt flag alone; dispatching and drawing
    take interrupt locks (kernel/src/spinlock.c).  The steps of a pop are taken one memory access at a time. */
module EventLoop {
  import opened IntrLocks
  import opened RingBuffer

  datatype Msg = Msg(kind: nat, data: nat)

  /** Where the main loop is. */
  datatype Pc =
    | Waiting            // before sti; hlt
    | Halted
    | LoopTop            // before cli
    | Testing            // before the test for an empty queue
    | TakingHead         // in ringbuffer_pop_index, before the head moves
    | TakingCount(first: nat)   // before the count drops
    | Reading(first: nat)       // before the message is copied
    | Enabling(msg: Msg)        // before sti
    | Dispatching(msg: Msg)
    | Drawing

  /** A message that an interrupt brought, when so many were waiting in the queue. */
  datatype Raised = Raised(msg: Msg, waiting: nat)

  /** The machine; `raised`, `accepted` and `dispatched` are histories, and `held` the locks taken, in order. */
  datatype State = State(pc: Pc, intr: bool, ring: Ring<Msg>, locks: map<nat, Lock>, ghost raised: seq<Raised>,
                         ghost accepted: seq<Msg>, ghost dispatched: seq<Msg>, ghost held: seq<nat>)

  /** In dispatching, interrupts are on unless a lock is held; in drawing, and around the pop, they are off. */
  predicate EnabledAt(pc: Pc)
  {
    pc.Halted? || pc.LoopTop? || pc.Dispatching?
  }

  /** Interrupt locks are taken and released here. */
  predicate LocksAt(pc: Pc)
  {
    pc.Dispatching? || pc.Drawing?
  }

  ghost predicate Init(s: State)
  {
    && s.pc == Waiting && !s.intr && RingOk(s.ring) && s.ring.count == 0
    && s.raised == [] && s.accepted == [] && s.dispatched == [] && s.held == []
    && forall k | k in s.locks :: !s.locks[k].taken
  }

  // ---------- steps ----------

  /** The main loop can take a step of its own: a halted CPU waits for an interrupt, dispatching and drawing end
      with no lock held, and the pop's assertion and its read of the buffer must be in bounds. */
  predicate MayAdvance(s: State)
  {
    match s.pc
    case Halted => false
    case TakingHead => s.ring.count > 0
    case TakingCount(_) => s.ring.count > 0
    case Reading(first) => first < |s.ring.buffer|
    case _ => true
  }

  /** What it does then. */
  ghost function Advanced(s: State): State
    requires MayAdvance(s)
  {
    match s.pc
    case Waiting => s.(pc := Halted, intr := true)
    case LoopTop => s.(pc := Testing, intr := false)
    case Testing => s.(pc := if s.ring.count == 0 then Drawing else TakingHead)
    case TakingHead => s.(pc := TakingCount(s.ring.head), ring := AdvanceHead(s.ring))
    case TakingCount(first) => s.(pc := Reading(first), ring := DropCount(s.ring))
    case Reading(first) => s.(pc := Enabling(s.ring.buffer[first]))
    case Enabling(msg) => s.(pc := Dispatching(msg), intr := true, dispatched := s.dispatched + [msg])
    case Dispatching(_) => s.(pc := LoopTop)
    case Drawing => s.(pc := Waiting)
  }

  /** One step of the main loop, outside dispatching and drawing. */
  ghost predicate MainStep(s: State, t: State)
  {
    MayAdvance(s) && (LocksAt(s.pc) ==> s.held == []) && t == Advanced(s)
  }

  /** intrlock_acquire.  A lock that is taken already is a panic, so there is no step then. */
  ghost predicate AcquireStep(s: State, t: State, k: nat)
  {
    && LocksAt(s.pc) && k in s.locks && !s.locks[k].taken
    && t == s.(intr := false, locks := s.locks[k := Lock(true, s.intr)], held := s.held + [k])
  }

  /** intrlock_release of the i-th lock held. */
  ghost function Released(s: State, i: nat): State
    requires i < |s.held| && s.held[i] in s.locks
  {
    var k := s.held[i];
    s.(intr := s.locks[k].intrFlag || s.intr, locks := s.locks[k := s.locks[k].(taken := false)],
       held := s.held[..i] + s.held[i + 1..])
  }

  /** Locks are released in the reverse order of acquiring. */
  ghost predicate ReleaseStep(s: State, t: State)
  {
    LocksAt(s.pc) && s.held != [] && s.held[|s.held| - 1] in s.locks && t == Released(s, |s.held| - 1)
  }

  /** An interrupt: the handler runs to its end with interrupts off, and pushes one message unless the queue is
      full; returning turns them on again, and wakes a halted CPU. */
  ghost predicate IsrStep(s: State, t: State, msg: Msg)
  {
    && s.intr && RingOk(s.ring)
    && t == s.(pc := if s.pc == Halted then LoopTop else s.pc,
               ring := Offered(s.ring, msg), raised := s.raised + [Raised(msg, |Queue(s.ring)|)],
               accepted := if s.ring.count == |s.ring.buffer| then s.accepted else s.accepted + [msg])
  }

  ghost predicate Step(s: State, t: State)
  {
    MainStep(s, t) || (exists k: nat :: AcquireStep(s, t, k)) || ReleaseStep(s, t) || exists msg :: IsrStep(s, t, msg)
  }

  // ---------- the invariant ----------

  /** The queue as it was before the pop under way began, and what the pop takes out of it. */
  ghost predicate QueueOk(s: State)
  {
    match s.pc
    case TakingHead => RingOk(s.ring) && s.ring.count > 0 && s.accepted == s.dispatched + Queue(s.ring)
    case TakingCount(first) =>
      && s.ring.count > 0 && first < |s.ring.buffer| && RingOk(DropCount(s.ring))
      && s.accepted == s.dispatched + [s.ring.buffer[first]] + Queue(DropCount(s.ring))
    case Reading(first) =>
      && first < |s.ring.buffer| && RingOk(s.ring)
      && s.accepted == s.dispatched + [s.ring.buffer[first]] + Queue(s.ring)
    case Enabling(msg) => RingOk(s.ring) && s.accepted == s.dispatched + [msg] + Queue(s.ring)
    case _ => RingOk(s.ring) && s.accepted == s.dispatched + Queue(s.ring)
  }

  /** The locks held are taken; the first saved the flag as it is without locks, the others found it off. */
  ghost predicate LocksOk(s: State)
  {
    && (s.held != [] ==> LocksAt(s.pc))
    && (forall i, j | 0 <= i < j < |s.held| :: s.held[i] != s.held[j])
    && (forall i | 0 <= i < |s.held| :: s.held[i] in s.locks && s.locks[s.held[i]].taken &&
          s.locks[s.held[i]].intrFlag == (i == 0 && EnabledAt(s.pc)))
    && (forall k | k in s.locks && s.locks[k].taken :: k in s.held)
  }

  /** Of the messages raised, in order, those that did not meet a full queue. */
  ghost function WithRoom(raised: seq<Raised>, capacity: nat): seq<Msg>
  {
    if raised == [] then []
    else
      var init, last := raised[..|raised| - 1], raised[|raised| - 1];
      WithRoom(init, capacity) + if last.waiting < capacity then [last.msg] else []
  }

  ghost predicate Inv(s: State)
  {
    && QueueOk(s) && s.accepted == WithRoom(s.raised, |s.ring.buffer|) && LocksOk(s)
    && (s.intr <==> EnabledAt(s.pc) && s.held == [])
    && (s.pc.Waiting? || s.pc.Halted? || s.pc.Drawing? ==> s.ring.count == 0)
  }

  lemma InitInv(s: State)
    requires Init(s)
    ensures Inv(s)
  {
  }

  lemma MainKeepsQueue(s: State, t: State)
    requires Inv(s) && MainStep(s, t)
    ensures QueueOk(t)
  {
    hide LocksOk, Queue;
    if s.pc.TakingHead? {
      PopQueue(s.ring);
    }
  }

  lemma MainKeepsLocks(s: State, t: State)
    requires Inv(s) && MainStep(s, t)
    ensures LocksOk(t) && (t.intr <==> EnabledAt(t.pc) && t.held == [])
    ensures t.pc.Waiting? || t.pc.Halted? || t.pc.Drawing? ==> t.ring.count == 0
  {
    hide QueueOk, Queue, WithRoom;
  }

  lemma MainKeepsHistory(s: State, t: State)
    requires MainStep(s, t)
    ensures t.raised == s.raised && t.accepted == s.accepted && |t.ring.buffer| == |s.ring.buffer|
  {
  }

  lemma MainKeeps(s: State, t: State)
    requires Inv(s) && MainStep(s, t)
    ensures Inv(t)
  {
    MainKeepsHistory(s, t);
    hide QueueOk, LocksOk, MainStep;
    MainKeepsQueue(s, t);
    MainKeepsLocks(s, t);
  }

  lemma AcquireKeeps(s: State, t: State, k: nat)
    requires Inv(s) && AcquireStep(s, t, k)
    ensures Inv(t)
  {
  }

  lemma ReleaseKeeps(s: State, t: State)
    requires Inv(s) && ReleaseStep(s, t)
    ensures Inv(t)
  {
  }

  lemma IsrKeeps(s: State, t: State, msg: Msg)
    requires Inv(s) && IsrStep(s, t, msg)
    ensures Inv(t)
  {
    OfferedQueue(s.ring, msg);
    assert t.raised[..|t.raised| - 1] == s.raised;
  }

  lemma StepKeeps(s: State, t: State)
    requires Inv(s) && Step(s, t)
    ensures Inv(t)
  {
    if MainStep(s, t) {
      MainKeeps(s, t);
    } else if k: nat :| AcquireStep(s, t, k) {
      AcquireKeeps(s, t, k);
    } else if ReleaseStep(s, t) {
      ReleaseKeeps(s, t);
    } else {
      var msg :| IsrStep(s, t, msg);
      IsrKeeps(s, t, msg);
    }
  }

  // ---------- runs ----------

  ghost predicate Run(run: seq<State>)
  {
    run != [] && Init(run[0]) && forall i | 0 <= i < |run| - 1 :: Step(run[i], run[i + 1])
  }

  lemma {:induction false} RunInv(run: seq<State>, i: nat)
    requires Run(run) && i < |run|
    ensures Inv(run[i])
    decreases i
  {
    if i == 0 {
      InitInv(run[0]);
    } else {
      RunInv(run, i - 1);
      StepKeeps(run[i - 1], run[i]);
    }
  }

  /** The message in the main loop's hands, between taking it out and dispatching it. */
  ghost function InHand(s: State): seq<Msg>
  {
    match s.pc
    case TakingCount(first) => if first < |s.ring.buffer| then [s.ring.buffer[first]] else []
    case Reading(first) => if first < |s.ring.buffer| then [s.ring.buffer[first]] else []
    case Enabling(msg) => [msg]
    case _ => []
  }

  /** Over every interleaving: the messages accepted are those raised that did not meet a full queue, and of them none
      is lost, duplicated or reordered; interrupts are on in dispatching, but for locks, and between messages; a pop is
      never interrupted and never meets an empty queue; and the CPU is not halted while messages wait. */
  lemma RunSafe(run: seq<State>, i: nat)
    requires Run(run) && i < |run|
    ensures var s := run[i];
            && s.dispatched + InHand(s) <= s.accepted
            && (if s.pc.TakingCount? then !s.intr
                else RingOk(s.ring) && s.accepted == s.dispatched + InHand(s) + Queue(s.ring))
            && (s.pc.TakingHead? || s.pc.TakingCount? || s.pc.Reading? ==> !s.intr)
            && (s.pc.TakingHead? || s.pc.TakingCount? ==> s.ring.count > 0)
            && (s.pc.Halted? ==> s.ring.count == 0 && s.intr)
            && (s.intr <==> (s.pc.Halted? || s.pc.LoopTop? || s.pc.Dispatching?) && s.held == [])
            && s.accepted == WithRoom(s.raised, |s.ring.buffer|)
  {
    RunInv(run, i);
  }

  /** A lock is found taken, which is a panic, exactly when the main loop itself holds it, and interrupts are off
      then. */
  lemma TakenMeansHeld(run: seq<State>, i: nat, k: nat)
    requires Run(run) && i < |run| && k in run[i].locks
    ensures run[i].locks[k].taken <==> k in run[i].held
    ensures k in run[i].held ==> !run[i].intr
  {
    RunInv(run, i);
  }

  /** An interrupt is possible exactly when interrupts are on, and then it brings its message to the end of the queue,
      unless that is full; it wakes a halted CPU, and changes nothing else. */
  lemma IsrPossible(run: seq<State>, i: nat, msg: Msg)
    requires Run(run) && i < |run|
    ensures run[i].intr <==> exists t :: IsrStep(run[i], t, msg)
  {
    RunInv(run, i);
    var s := run[i];
    if s.intr {
      var full := s.ring.count == |s.ring.buffer|;
      assert IsrStep(s, s.(pc := if s.pc == Halted then LoopTop else s.pc, ring := Offered(s.ring, msg),
                           raised := s.raised + [Raised(msg, |Queue(s.ring)|)],
                           accepted := if full then s.accepted else s.accepted + [msg]), msg);
    }
  }

  lemma IsrExactly(run: seq<State>, i: nat, t: State, msg: Msg)
    requires Run(run) && i < |run| && IsrStep(run[i], t, msg)
    ensures RingOk(run[i].ring) && RingOk(t.ring)
    ensures var s := run[i];
            && t.raised == s.raised + [Raised(msg, |Queue(s.ring)|)]
            && (if |Queue(s.ring)| < |s.ring.buffer| then
                  Queue(t.ring) == Queue(s.ring) + [msg] && t.accepted == s.accepted + [msg]
                else t.ring == s.ring && t.accepted == s.accepted)
            && t.pc == (if s.pc.Halted? then LoopTop else s.pc)
            && t.intr == s.intr && t.locks == s.locks && t.held == s.held && t.dispatched == s.dispatched
  {
    OfferedQueue(run[i].ring, msg);
  }

  /** What n steps of the main loop alone make of a state. */
  ghost function Ahead(s: State, n: nat): State
    decreases n
  {
    if n == 0 || !MayAdvance(s) then s else Ahead(Advanced(s), n - 1)
  }

  /** How far the main loop is from the next change of the queue, or from halting. */
  function StepsLeft(pc: Pc): nat
  {
    match pc
    case Reading(_) => 10
    case Enabling(_) => 9
    case Dispatching(_) => 8
    case LoopTop => 7
    case Testing => 6
    case TakingHead => 5
    case TakingCount(_) => 4
    case Drawing => 3
    case Waiting => 2
    case Halted => 1
  }

  lemma {:induction false} Empties(s: State) returns (n: nat)
    requires Inv(s) && s.held == []
    ensures var t := Ahead(s, n); t.pc.Halted? && Inv(t) && t.accepted == s.accepted
    decreases s.ring.count, StepsLeft(s.pc)
  {
    if s.pc.Halted? {
      n := 0;
    } else {
      var t := Advanced(s);
      assert MainStep(s, t);
      MainKeeps(s, t);
      MainKeepsHistory(s, t);
      hide Inv;
      n := Empties(t);
      n := n + 1;
    }
  }

  /** Every message accepted is dispatched: left alone, and with no lock held, the main loop dispatches all of them in
      order and halts. */
  lemma Drains(run: seq<State>, i: nat)
    requires Run(run) && i < |run| && run[i].held == []
    ensures exists n: nat :: Ahead(run[i], n).pc.Halted? && Ahead(run[i], n).dispatched == run[i].accepted
  {
    RunInv(run, i);
    var n := Empties(run[i]);
    assert Ahead(run[i], n).dispatched == run[i].accepted;
  }

  /** The main loop is stuck in no state but halted ones, where interrupts are on, and where it holds locks, the
      last of which it can release. */
  lemma NeverStuck(run: seq<State>, i: nat, msg: Msg)
    requires Run(run) && i < |run|
    ensures var s := run[i];
            if s.pc.Halted? then exists t :: IsrStep(s, t, msg)
            else if s.held != [] then exists t :: ReleaseStep(s, t)
            else exists t :: MainStep(s, t)
  {
    RunInv(run, i);
    var s := run[i];
    if s.pc.Halted? {
      IsrPossible(run, i, msg);
    } else if s.held != [] {
      assert ReleaseStep(s, Released(s, |s.held| - 1));
    } else {
      assert MainStep(s, Advanced(s));
    }
  }

  /** Why the order of releases matters: of several locks held, releasing one turns interrupts on, with the others
      still taken, exactly when it is the first and messages are being dispatched. */
  lemma OutOfOrder(run: seq<State>, i: nat, j: nat)
    requires Run(run) && i < |run| && j < |run[i].held| && |run[i].held| > 1
    ensures run[i].held[j] in run[i].locks
    ensures var s, t := run[i], Released(run[i], j);
            && (t.intr <==> j == 0 && s.pc.Dispatching?)
            && forall l | 0 <= l < |s.held| && l != j :: s.held[l] in t.locks && t.locks[s.held[l]].taken
  {
    RunInv(run, i);
  }

  /** After a lock and the locks inside it are released, the interrupt flag is what it was before. */
  lemma FlagRestored(run: seq<State>, i: nat, j: nat)
    requires Run(run) && i < |run| && j < |run|
    requires run[i].pc == run[j].pc && run[i].held == run[j].held
    ensures run[i].intr == run[j].intr
  {
    RunInv(run, i);
    RunInv(run, j);
  }
}
