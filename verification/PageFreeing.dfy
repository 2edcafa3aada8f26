/** Giving back emptied page tables: what the walk of one page loses, and that no other table is touched. */
module PageFreeing {
  import opened Options
  import opened Paging

  /** The table with role r is on the way to v. */
  predicate OnWalk(v: nat, r: Role)
  {
    Level(r) < 4 && r == RoleFor(v, Level(r))
  }

  /** From (mem0, plan0) to (mem, plan) tables only go, and only tables on the way to v change or go. */
  ghost predicate Shrinks(mem0: Memory, plan0: Plan, mem: Memory, plan: Plan, v: nat)
  {
    && (forall r | r in plan.at :: r in plan0.at && plan.at[r] == plan0.at[r])
    && (forall r | r in plan0.at && !OnWalk(v, r) ::
          r in plan.at && TableOf(mem, plan, r) == TableOf(mem0, plan0, r))
  }

  lemma ShrinksTransitive(mem0: Memory, plan0: Plan, mem1: Memory, plan1: Plan, mem2: Memory, plan2: Plan, v: nat)
    requires Shrinks(mem0, plan0, mem1, plan1, v) && Shrinks(mem1, plan1, mem2, plan2, v)
    ensures Shrinks(mem0, plan0, mem2, plan2, v)
  {
  }

  /** Memory after the table of level l on the way to v is given back, if it is empty. */
  function Freed(mem: Memory, plan: Plan, v: nat, l: nat): Memory
    requires 1 <= l < 4 && RoleFor(v, l - 1) in plan.at && RoleFor(v, l) in plan.at
    requires plan.at[RoleFor(v, l - 1)] in mem && plan.at[RoleFor(v, l)] in mem
  {
    var t := plan.at[RoleFor(v, l)];
    if EmptyTable(mem[t]) then Unlink(mem, plan.at[RoleFor(v, l - 1)], Index(v, l - 1), t) else mem
  }

  function FreedPlan(mem: Memory, plan: Plan, v: nat, l: nat): Plan
    requires 1 <= l < 4 && RoleFor(v, l) in plan.at && plan.at[RoleFor(v, l)] in mem
  {
    var r := RoleFor(v, l);
    if EmptyTable(mem[plan.at[r]]) then PlanWithout(plan, r, plan.at[r]) else plan
  }

  /** Every table on the way to v down to one that exists. */
  lemma WalkTables(mem: Memory, root: nat, plan: Plan, v: nat, l: nat)
    requires Tree(mem, root, plan) && 1 <= l < 4 && RoleFor(v, l) in plan.at
    ensures forall k | 0 <= k <= l :: RoleFor(v, k) in plan.at && plan.at[RoleFor(v, k)] in mem &&
                                      plan.roles[plan.at[RoleFor(v, k)]] == RoleFor(v, k)
    ensures Next(mem[plan.at[RoleFor(v, l - 1)]][Index(v, l - 1)]) == Some(plan.at[RoleFor(v, l)])
  {
    forall k | 0 <= k <= l
      ensures RoleFor(v, k) in plan.at
    {
      Upward(mem, root, plan, v, k, l);
    }
    assert Linked(mem, plan, RoleFor(v, l));
  }

  lemma FreedTree(mem: Memory, root: nat, plan: Plan, v: nat, l: nat)
    requires Tree(mem, root, plan) && 1 <= l < 4 && RoleFor(v, l) in plan.at
    ensures RoleFor(v, l - 1) in plan.at
    ensures plan.at[RoleFor(v, l - 1)] in mem && plan.at[RoleFor(v, l)] in mem
    ensures Tree(Freed(mem, plan, v, l), root, FreedPlan(mem, plan, v, l))
    ensures forall w: nat :: Lookup(Freed(mem, plan, v, l), root, w) == Lookup(mem, root, w)
  {
    WalkTables(mem, root, plan, v, l);
    var f, i, t := plan.at[RoleFor(v, l - 1)], Index(v, l - 1), plan.at[RoleFor(v, l)];
    if EmptyTable(mem[t]) {
      UnlinkTree(mem, root, plan, f, i, t);
      forall w: nat
        ensures Lookup(Unlink(mem, f, i, t), root, w) == Lookup(mem, root, w)
      {
        UnlinkSame(mem, root, plan, f, i, t, w);
      }
    }
  }

  lemma UnlinkShrinks(mem: Memory, plan: Plan, v: nat, l: nat)
    requires Consistent(plan) && 1 <= l < 4 && RoleFor(v, l - 1) in plan.at && RoleFor(v, l) in plan.at
    requires plan.at[RoleFor(v, l - 1)] in mem && plan.at[RoleFor(v, l)] in mem
    ensures Shrinks(mem, plan, Freed(mem, plan, v, l), FreedPlan(mem, plan, v, l), v)
  {
    hide EmptyTable;
    var mem', plan' := Freed(mem, plan, v, l), FreedPlan(mem, plan, v, l);
    forall r | r in plan.at && !OnWalk(v, r)
      ensures r in plan'.at && TableOf(mem', plan', r) == TableOf(mem, plan, r)
    {
      assert Level(RoleFor(v, l)) == l && Level(RoleFor(v, l - 1)) == l - 1;
    }
  }

  lemma FreedShrinks(mem: Memory, root: nat, plan: Plan, v: nat, l: nat)
    requires Tree(mem, root, plan) && 1 <= l < 4 && RoleFor(v, l) in plan.at
    ensures RoleFor(v, l - 1) in plan.at
    ensures plan.at[RoleFor(v, l - 1)] in mem && plan.at[RoleFor(v, l)] in mem
    ensures Shrinks(mem, plan, Freed(mem, plan, v, l), FreedPlan(mem, plan, v, l), v)
  {
    WalkTables(mem, root, plan, v, l);
    UnlinkShrinks(mem, plan, v, l);
  }

  /** Which tables are still there, and which are as they were. */
  lemma FreedTables(mem: Memory, root: nat, plan: Plan, v: nat, l: nat)
    requires Tree(mem, root, plan) && 1 <= l < 4 && RoleFor(v, l) in plan.at
    ensures RoleFor(v, l - 1) in plan.at
    ensures plan.at[RoleFor(v, l - 1)] in mem && plan.at[RoleFor(v, l)] in mem
    ensures var mem', plan' := Freed(mem, plan, v, l), FreedPlan(mem, plan, v, l);
            && (RoleFor(v, l) in plan'.at ==> !EmptyTable(TableOf(mem, plan, RoleFor(v, l)).value))
            && RoleFor(v, l - 1) in plan'.at
            && (forall k | 0 <= k < 4 && k != l - 1 && RoleFor(v, k) in plan'.at ::
                  TableOf(mem', plan', RoleFor(v, k)) == TableOf(mem, plan, RoleFor(v, k)))
  {
    hide EmptyTable, EntryFits, Linked;
    WalkTables(mem, root, plan, v, l);
  }

  lemma FreedIs(mem: Memory, root: nat, plan: Plan, v: nat, l: nat)
    requires Tree(mem, root, plan) && 1 <= l < 4 && RoleFor(v, l) in plan.at
    ensures RoleFor(v, l - 1) in plan.at
    ensures plan.at[RoleFor(v, l - 1)] in mem && plan.at[RoleFor(v, l)] in mem
    ensures plan.at[RoleFor(v, l - 1)] != plan.at[RoleFor(v, l)]
    ensures var f, t := plan.at[RoleFor(v, l - 1)], plan.at[RoleFor(v, l)];
            Freed(mem, plan, v, l) == if EmptyTable(mem[t]) then Unlink(mem, f, Index(v, l - 1), t) else mem
    ensures var plan' := FreedPlan(mem, plan, v, l);
            forall r | r in plan'.at :: r in plan.at && plan'.at[r] == plan.at[r]
  {
    WalkTables(mem, root, plan, v, l);
  }

  /** Nothing is mapped below the tables that went. */
  ghost predicate GoneUnmapped(mem: Memory, root: nat, plan0: Plan, plan: Plan)
  {
    forall r | r in plan0.at && r !in plan.at :: NothingBelow(mem, root, r)
  }

  /** The tables that are still there keep their entries, but for those on the way to v. */
  ghost predicate OffWalkSame(mem0: Memory, plan0: Plan, mem: Memory, plan: Plan, v: nat)
  {
    forall r | r in plan.at && Level(r) < 4 && TableOf(mem, plan, r).Some? ::
      TableOf(mem0, plan0, r).Some? &&
      forall i | 0 <= i < 512 && i != Index(v, Level(r)) ::
        TableOf(mem, plan, r).value[i] == TableOf(mem0, plan0, r).value[i]
  }

  lemma NothingFreed(mem: Memory, root: nat, plan: Plan, v: nat)
    ensures Shrinks(mem, plan, mem, plan, v) && GoneUnmapped(mem, root, plan, plan)
    ensures OffWalkSame(mem, plan, mem, plan, v)
  {
  }

  /** The level-l table on the way to v is gone, or has an entry in use. */
  ghost predicate NoneOrInUse(mem: Memory, plan: Plan, v: nat, l: nat)
    requires l < 4
  {
    var t := TableOf(mem, plan, RoleFor(v, l));
    t.Some? ==> !EmptyTable(t.value)
  }

  lemma FreedInUse(mem: Memory, root: nat, plan: Plan, v: nat, l: nat)
    requires Tree(mem, root, plan) && 1 <= l < 4 && RoleFor(v, l) in plan.at
    ensures RoleFor(v, l - 1) in plan.at
    ensures plan.at[RoleFor(v, l - 1)] in mem && plan.at[RoleFor(v, l)] in mem
    ensures var mem', plan' := Freed(mem, plan, v, l), FreedPlan(mem, plan, v, l);
            && NoneOrInUse(mem', plan', v, l)
            && (forall k: nat | k < l && RoleFor(v, k) in plan.at :: RoleFor(v, k) in plan'.at)
            && (forall k: nat | l < k < 4 && NoneOrInUse(mem, plan, v, k) :: NoneOrInUse(mem', plan', v, k))
  {
    FreedTables(mem, root, plan, v, l);
  }

  // ---------- which tables go ----------

  /** The table with role r has no entry in use. */
  ghost predicate WasEmpty(mem: Memory, plan: Plan, r: Role)
  {
    TableOf(mem, plan, r).Some? && EmptyTable(TableOf(mem, plan, r).value)
  }

  /** Entries in use of the table with role r, other than the one on the way to v. */
  ghost predicate EmptyOffWalk(mem: Memory, plan: Plan, r: Role, v: nat)
  {
    Level(r) < 4 && TableOf(mem, plan, r).Some? &&
    forall i | 0 <= i < 512 && i != Index(v, Level(r)) :: TableOf(mem, plan, r).value[i] == Empty
  }

  /** Only tables on the way to v went, and they had no entry in use but the one on the way. */
  ghost predicate GaveBack(mem0: Memory, plan0: Plan, plan: Plan, v: nat)
  {
    forall r | r in plan0.at && r !in plan.at ::
      1 <= Level(r) < 4 && r == RoleFor(v, Level(r)) && EmptyOffWalk(mem0, plan0, r, v)
  }

  lemma OffWalkTransitive(mem0: Memory, plan0: Plan, mem1: Memory, plan1: Plan, mem2: Memory, plan2: Plan, v: nat)
    requires OffWalkSame(mem0, plan0, mem1, plan1, v) && OffWalkSame(mem1, plan1, mem2, plan2, v)
    requires forall r | r in plan2.at :: r in plan1.at
    ensures OffWalkSame(mem0, plan0, mem2, plan2, v)
  {
  }

  /** The freeing of level l, as seen from the start of the round. */
  lemma GaveBackOne(mem0: Memory, plan0: Plan, mem1: Memory, plan1: Plan, plan2: Plan, v: nat, l: nat)
    requires 1 <= l < 4 && GaveBack(mem0, plan0, plan1, v) && OffWalkSame(mem0, plan0, mem1, plan1, v)
    requires forall r | r in plan1.at && r !in plan2.at :: r == RoleFor(v, l) && WasEmpty(mem1, plan1, r)
    ensures GaveBack(mem0, plan0, plan2, v)
  {
  }

  lemma GoneTransitive(mem1: Memory, mem2: Memory, root: nat, plan0: Plan, plan1: Plan, plan2: Plan)
    requires GoneUnmapped(mem1, root, plan0, plan1) && GoneUnmapped(mem2, root, plan1, plan2)
    requires forall w: nat | w < 0x10_0000_0000 && Lookup(mem1, root, w) == Unmapped ::
               Lookup(mem2, root, w) == Unmapped
    ensures GoneUnmapped(mem2, root, plan0, plan2)
  {
  }

  lemma FreedRoles(mem: Memory, plan: Plan, v: nat, l: nat)
    requires Consistent(plan) && 1 <= l < 4 && RoleFor(v, l) in plan.at && plan.at[RoleFor(v, l)] in mem
    ensures forall r | r in plan.at && r !in FreedPlan(mem, plan, v, l).at ::
              r == RoleFor(v, l) && WasEmpty(mem, plan, r) && EmptyTable(mem[plan.at[RoleFor(v, l)]])
  {
    hide EmptyTable, RoleFor;
  }

  lemma FreedOffWalk(mem: Memory, plan: Plan, v: nat, l: nat)
    requires Consistent(plan) && 1 <= l < 4 && RoleFor(v, l - 1) in plan.at && RoleFor(v, l) in plan.at
    requires plan.at[RoleFor(v, l - 1)] in mem && plan.at[RoleFor(v, l)] in mem
    ensures OffWalkSame(mem, plan, Freed(mem, plan, v, l), FreedPlan(mem, plan, v, l), v)
  {
    assert Level(RoleFor(v, l - 1)) == l - 1;
    hide EmptyTable, Index;
  }

  lemma FreedEmpty(mem: Memory, root: nat, plan: Plan, v: nat, l: nat)
    requires Tree(mem, root, plan) && 1 <= l < 4 && RoleFor(v, l) in plan.at
    ensures RoleFor(v, l - 1) in plan.at
    ensures plan.at[RoleFor(v, l - 1)] in mem && plan.at[RoleFor(v, l)] in mem
    ensures var mem', plan' := Freed(mem, plan, v, l), FreedPlan(mem, plan, v, l);
            && (forall r | r in plan.at && r !in plan'.at :: r == RoleFor(v, l) && WasEmpty(mem, plan, r))
            && GoneUnmapped(mem', root, plan, plan') && OffWalkSame(mem, plan, mem', plan', v)
  {
    WalkTables(mem, root, plan, v, l);
    FreedRoles(mem, plan, v, l);
    FreedOffWalk(mem, plan, v, l);
    FreedTree(mem, root, plan, v, l);
    var t := plan.at[RoleFor(v, l)];
    if EmptyTable(mem[t]) {
      BelowEmpty(mem, root, plan, t);
    }
    hide Freed, FreedPlan, WasEmpty, EmptyTable, OffWalkSame, Tree, RoleFor, Lookup;
  }
}
