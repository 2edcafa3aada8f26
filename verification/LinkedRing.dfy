/** libcoll/src/linkedlist.c: a doubly linked ring around a dummy node.  A node is named by the address of its
    link, and the `prev` and `next` fields of all nodes are two maps. */
module LinkedRing {
  import opened Options

  /** The i-th node of the ring: the dummy, the items in order, and the dummy again. */
  function NodeAt(dummy: nat, items: seq<nat>, i: nat): nat
  {
    if 1 <= i <= |items| then items[i - 1] else dummy
  }

  /** The i-th node and the one after it point at each other. */
  ghost predicate Joined(prev: map<nat, nat>, next: map<nat, nat>, dummy: nat, items: seq<nat>, i: nat)
  {
    var x, y := NodeAt(dummy, items, i), NodeAt(dummy, items, i + 1);
    x in next && next[x] == y && y in prev && prev[y] == x
  }

  ghost predicate Distinct(dummy: nat, items: seq<nat>)
  {
    dummy !in items && forall i, j | 0 <= i < j < |items| :: items[i] != items[j]
  }

  /** Forward and backward links both go round the ring. */
  ghost predicate RingOk(prev: map<nat, nat>, next: map<nat, nat>, dummy: nat, items: seq<nat>)
  {
    && Distinct(dummy, items)
    && (forall i: nat {:trigger Joined(prev, next, dummy, items, i)} | i <= |items| ::
          Joined(prev, next, dummy, items, i))
  }

  lemma NodesDiffer(dummy: nat, items: seq<nat>, i: nat, j: nat)
    requires Distinct(dummy, items) && i <= |items| && j <= |items| && i != j
    ensures NodeAt(dummy, items, i) != NodeAt(dummy, items, j)
  {
  }

  lemma NextDiffer(dummy: nat, items: seq<nat>, i: nat, j: nat)
    requires Distinct(dummy, items) && i <= |items| && j <= |items| && i != j
    ensures NodeAt(dummy, items, i + 1) != NodeAt(dummy, items, j + 1)
  {
  }

  /** Memory after x is linked between the k-th node and the one after it. */
  lemma InsertOk(prev: map<nat, nat>, next: map<nat, nat>, dummy: nat, items: seq<nat>, k: nat, x: nat)
    requires RingOk(prev, next, dummy, items) && k <= |items| && x != dummy && x !in items
    ensures var a, b := NodeAt(dummy, items, k), NodeAt(dummy, items, k + 1);
            && a in next && next[a] == b && b in prev && prev[b] == a && a != x && b != x
            && RingOk(prev[x := a][b := x], next[a := x][x := b], dummy, items[..k] + [x] + items[k..])
  {
    var a, b := NodeAt(dummy, items, k), NodeAt(dummy, items, k + 1);
    var prev', next', items' := prev[x := a][b := x], next[a := x][x := b], items[..k] + [x] + items[k..];
    assert Joined(prev, next, dummy, items, k);
    forall i: nat | i <= |items'|
      ensures Joined(prev', next', dummy, items', i)
    {
      if i < k {
        assert Joined(prev, next, dummy, items, i);
        NodesDiffer(dummy, items, i, k);
        NextDiffer(dummy, items, i, k);
      } else if i > k + 1 {
        assert Joined(prev, next, dummy, items, i - 1);
        NodesDiffer(dummy, items, i - 1, k);
        NextDiffer(dummy, items, i - 1, k);
      }
    }
  }

  lemma RemoveOk(prev: map<nat, nat>, next: map<nat, nat>, dummy: nat, items: seq<nat>, k: nat)
    requires RingOk(prev, next, dummy, items) && k < |items|
    ensures items[k] in prev && items[k] in next
    ensures prev[items[k]] == NodeAt(dummy, items, k) && next[items[k]] == NodeAt(dummy, items, k + 2)
    ensures var a, b := NodeAt(dummy, items, k), NodeAt(dummy, items, k + 2);
            RingOk(prev[b := a], next[a := b], dummy, items[..k] + items[k + 1..])
  {
    var a, b := NodeAt(dummy, items, k), NodeAt(dummy, items, k + 2);
    assert Joined(prev, next, dummy, items, k) && Joined(prev, next, dummy, items, k + 1);
    var prev', next', items' := prev[b := a], next[a := b], items[..k] + items[k + 1..];
    forall i: nat | i <= |items'|
      ensures Joined(prev', next', dummy, items', i)
    {
      if i < k {
        assert Joined(prev, next, dummy, items, i);
        NodesDiffer(dummy, items, i, k);
        NextDiffer(dummy, items, i, k + 1);
      } else if i > k {
        assert Joined(prev, next, dummy, items, i + 1);
        NodesDiffer(dummy, items, i + 1, k);
        NextDiffer(dummy, items, i + 1, k + 1);
      }
    }
  }

  class Ring {
    const dummy: nat
    var prev: map<nat, nat>
    var next: map<nat, nat>
    ghost var items: seq<nat>

    ghost predicate Valid()
      reads this
    {
      RingOk(prev, next, dummy, items)
    }

    constructor (dummy: nat)
      ensures Valid() && items == [] && this.dummy == dummy
    {
      this.dummy := dummy;
      prev, next, items := map[dummy := dummy], map[dummy := dummy], [];
    }

    /** linkedlist_init, also of a ring in use: whatever was linked is dropped. */
    method Init()
      modifies this
      ensures Valid() && items == []
    {
      prev := prev[dummy := dummy];
      next := next[dummy := dummy];
      items := [];
    }

    lemma Ends()
      requires Valid()
      ensures dummy in next && next[dummy] == NodeAt(dummy, items, 1)
      ensures dummy in prev && prev[dummy] == NodeAt(dummy, items, |items|)
    {
      assert Joined(prev, next, dummy, items, 0);
      assert Joined(prev, next, dummy, items, |items|);
    }

    /** linkedlist_is_empty */
    method IsEmpty() returns (empty: bool)
      requires Valid()
      ensures empty <==> items == []
    {
      Ends();
      empty := prev[dummy] == dummy && prev[dummy] == next[dummy];
    }

    /** linkedlist_head of a ring that is not empty */
    method Head() returns (x: nat)
      requires Valid() && items != []
      ensures x == items[0]
    {
      Ends();
      x := next[dummy];
    }

    /** linkedlist_insert_before: in front of the node at position k + 1 of the ring. */
    method InsertBefore(link: nat, x: nat, ghost k: nat)
      requires Valid() && k <= |items| && link == NodeAt(dummy, items, k + 1) && x != dummy && x !in items
      modifies this
      ensures Valid() && items == old(items[..k] + [x] + items[k..])
    {
      InsertOk(prev, next, dummy, items, k, x);
      next := next[prev[link] := x];
      prev := prev[x := prev[link]];
      next := next[x := link];
      prev := prev[link := x];
      items := items[..k] + [x] + items[k..];
    }

    /** linkedlist_insert_after: behind the node at position k. */
    method InsertAfter(link: nat, x: nat, ghost k: nat)
      requires Valid() && k <= |items| && link == NodeAt(dummy, items, k) && x != dummy && x !in items
      modifies this
      ensures Valid() && items == old(items[..k] + [x] + items[k..])
    {
      InsertOk(prev, next, dummy, items, k, x);
      ghost var b := next[link];
      prev := prev[next[link] := x];
      next := next[x := next[link]];
      prev := prev[x := link];
      next := next[link := x];
      assert prev == old(prev)[x := link][b := x] && next == old(next)[link := x][x := b];
      items := items[..k] + [x] + items[k..];
    }

    /** linkedlist_push_front */
    method PushFront(x: nat)
      requires Valid() && x != dummy && x !in items
      modifies this
      ensures Valid() && items == [x] + old(items)
    {
      Ends();
      InsertBefore(next[dummy], x, 0);
    }

    /** linkedlist_push_back */
    method PushBack(x: nat)
      requires Valid() && x != dummy && x !in items
      modifies this
      ensures Valid() && items == old(items) + [x]
    {
      Ends();
      InsertAfter(prev[dummy], x, |items|);
    }

    /** linkedlist_remove of the k-th item */
    method Remove(link: nat, ghost k: nat)
      requires Valid() && k < |items| && link == items[k]
      modifies this
      ensures Valid() && items == old(items[..k] + items[k + 1..])
    {
      RemoveOk(prev, next, dummy, items, k);
      next := next[prev[link] := next[link]];
      prev := prev[next[link] := prev[link]];
      items := items[..k] + items[k + 1..];
    }

    /** linkedlist_pop_front: its test for an empty ring holds of a ring of one item too, which it keeps. */
    method PopFront() returns (x: Option<nat>)
      requires Valid()
      modifies this
      ensures Valid()
      ensures if |old(items)| <= 1 then x == None && items == old(items)
              else x == Some(old(items)[0]) && items == old(items)[1..]
    {
      Ends();
      var removed := next[dummy];
      if removed == prev[dummy] {
        return None;
      }
      Remove(next[dummy], 0);
      return Some(removed);
    }

    /** linkedlist_pop_back, likewise */
    method PopBack() returns (x: Option<nat>)
      requires Valid()
      modifies this
      ensures Valid()
      ensures if |old(items)| <= 1 then x == None && items == old(items)
              else x == Some(old(items)[|old(items)| - 1]) && items == old(items)[..|old(items)| - 1]
    {
      Ends();
      var removed := prev[dummy];
      if removed == next[dummy] {
        return None;
      }
      Remove(prev[dummy], |items| - 1);
      return Some(removed);
    }
  }
}
