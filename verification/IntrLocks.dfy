/** kernel/src/spinlock.c: locks that turn interrupts off while they are held. */
module IntrLocks {
  /** struct intrlock */
  datatype Lock = Lock(taken: bool, intrFlag: bool)

  class Cpu {
    /** The interrupt flag. */
    var intr: bool

    constructor (intr: bool)
      ensures this.intr == intr
    {
      this.intr := intr;
    }
  }

  class IntrLock {
    var taken: bool
    var intrFlag: bool

    ghost function Value(): Lock
      reads this
    {
      Lock(taken, intrFlag)
    }

    /** intrlock_init */
    constructor ()
      ensures Value() == Lock(false, false)
    {
      taken, intrFlag := false, false;
    }

    /** intrlock_acquire.  The flag is saved and interrupts go off before the lock is tried; one that is taken is a
        panic, since nobody else could release it. */
    method Acquire(cpu: Cpu) returns (ok: bool)
      modifies this, cpu
      ensures ok == !old(taken) && Value() == Lock(true, old(cpu.intr)) && !cpu.intr
    {
      intrFlag := cpu.intr;
      cpu.intr := false;
      ok := !taken;
      taken := true;
    }

    /** intrlock_release */
    method Release(cpu: Cpu)
      modifies this, cpu
      ensures Value() == Lock(false, old(intrFlag)) && cpu.intr == (old(cpu.intr) || old(intrFlag))
    {
      taken := false;
      if intrFlag {
        cpu.intr := true;
      }
    }
  }

  /** Locks taken one inside the other, to any depth, and released in the reverse order: none is found taken, and
      interrupts are as before at the end. */
  method Nested(locks: seq<IntrLock>, cpu: Cpu) returns (ok: bool)
    requires forall i, j | 0 <= i < j < |locks| :: locks[i] != locks[j]
    requires forall l | l in locks :: !l.taken
    modifies locks, cpu
    ensures ok && cpu.intr == old(cpu.intr) && forall l | l in locks :: !l.taken
    decreases |locks|
  {
    if locks == [] {
      return true;
    }
    var inner := locks[1..];
    assert locks == [locks[0]] + inner;
    ok := locks[0].Acquire(cpu);
    assert !cpu.intr;
    var ok' := Nested(inner, cpu);
    assert !cpu.intr;
    locks[0].Release(cpu);
    ok := ok && ok';
  }
}
