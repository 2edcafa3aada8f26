/** libcoll/src/ringbuffer.c and the interrupt queue over it (kernel/src/interrupt.c). */
module RingBuffer {
  import opened Options

  /** struct ringbuffer with its buffer; maxlen is the buffer's length. */
  datatype Ring<T> = Ring(buffer: seq<T>, head: nat, tail: nat, count: nat)

  /** An index past the end starts over. */
  function Wrap(i: nat, len: nat): nat
  {
    if i < len then i else i - len
  }

  predicate RingOk<T>(r: Ring<T>)
  {
    && r.head < |r.buffer| && r.count <= |r.buffer| && r.tail == Wrap(r.head + r.count, |r.buffer|)
  }

  /** The queued elements, oldest first. */
  function Queue<T>(r: Ring<T>): (q: seq<T>)
    requires RingOk(r)
    ensures |q| == r.count
  {
    seq(r.count, i requires 0 <= i < r.count => r.buffer[Wrap(r.head + i, |r.buffer|)])
  }

  /** ringbuffer_push: the index's old tail is written. */
  function Push<T>(r: Ring<T>, x: T): Ring<T>
    requires RingOk(r) && r.count < |r.buffer|
  {
    var next := if r.tail + 1 == |r.buffer| then 0 else r.tail + 1;
    Ring(r.buffer[r.tail := x], r.head, next, r.count + 1)
  }

  /** intr_queue_push: a full queue stays as it is. */
  function Offered<T>(r: Ring<T>, x: T): Ring<T>
    requires RingOk(r)
  {
    if r.count == |r.buffer| then r else Push(r, x)
  }

  /** Pushing appends. */
  lemma PushQueue<T>(r: Ring<T>, x: T)
    requires RingOk(r) && r.count < |r.buffer|
    ensures RingOk(Push(r, x)) && Queue(Push(r, x)) == Queue(r) + [x]
  {
    var s, p, q := Push(r, x), Queue(Push(r, x)), Queue(r);
    assert p[r.count] == s.buffer[Wrap(s.head + r.count, |s.buffer|)] == x;
    forall i | 0 <= i < r.count
      ensures p[i] == q[i]
    {
      assert Wrap(r.head + i, |r.buffer|) != r.tail;
    }
  }

  lemma OfferedQueue<T>(r: Ring<T>, x: T)
    requires RingOk(r)
    ensures var s := Offered(r, x);
            && RingOk(s) && |s.buffer| == |r.buffer|
            && Queue(s) == if |Queue(r)| < |r.buffer| then Queue(r) + [x] else Queue(r)
  {
    if r.count < |r.buffer| {
      PushQueue(r, x);
    }
  }

  /** ringbuffer_pop_index: first the head, then the count. */
  function AdvanceHead<T>(r: Ring<T>): Ring<T>
  {
    r.(head := if r.head + 1 == |r.buffer| then 0 else r.head + 1)
  }

  function DropCount<T>(r: Ring<T>): Ring<T>
    requires r.count > 0
  {
    r.(count := r.count - 1)
  }

  /** Popping takes the first; its slot keeps the element until the next push. */
  lemma PopQueue<T>(r: Ring<T>)
    requires RingOk(r) && r.count > 0
    ensures var s := DropCount(AdvanceHead(r));
            RingOk(s) && s.buffer == r.buffer && Queue(r) == [r.buffer[r.head]] + Queue(s)
  {
    var s := DropCount(AdvanceHead(r));
    var p, q := Queue(s), Queue(r);
    assert q[0] == r.buffer[Wrap(r.head + 0, |r.buffer|)] == r.buffer[r.head];
    forall i | 0 <= i < s.count
      ensures p[i] == q[i + 1]
    {
      assert Wrap(s.head + i, |s.buffer|) == Wrap(r.head + (i + 1), |r.buffer|);
    }
  }

  class IntrQueue<T(0)> {
    const buffer: array<T>
    var head: nat
    var tail: nat
    var count: nat

    /** The value the fields stand for. */
    ghost function Value(): Ring<T>
      reads this, buffer
    {
      Ring(buffer[..], head, tail, count)
    }

    ghost predicate Valid()
      reads this, buffer
    {
      RingOk(Value())
    }

    /** ringbuffer_init, over a buffer of maxlen elements */
    constructor (maxlen: nat)
      requires maxlen > 0
      ensures Valid() && Queue(Value()) == [] && buffer.Length == maxlen && fresh(buffer)
    {
      buffer := new T[maxlen];
      head, tail, count := 0, 0, 0;
    }

    /** ringbuffer_push_index */
    method PushIndex() returns (last: nat)
      requires Valid() && count < buffer.Length
      modifies this
      ensures last == old(tail) < buffer.Length && head == old(head) && count == old(count) + 1
      ensures tail == if old(tail) + 1 == buffer.Length then 0 else old(tail) + 1
    {
      last := tail;
      tail := tail + 1;
      if tail == buffer.Length {
        tail := 0;
      }
      count := count + 1;
    }

    /** ringbuffer_pop_index */
    method PopIndex() returns (first: nat)
      requires Valid() && count > 0
      modifies this
      ensures first == old(head) && Value() == DropCount(AdvanceHead(old(Value())))
    {
      first := head;
      head := head + 1;
      if head == buffer.Length {
        head := 0;
      }
      count := count - 1;
    }

    /** intr_queue_push: a full queue turns the message away. */
    method TryPush(x: T) returns (ok: bool)
      requires Valid()
      modifies this, buffer
      ensures Valid() && (ok <==> |old(Queue(Value()))| < buffer.Length)
      ensures Queue(Value()) == if ok then old(Queue(Value())) + [x] else old(Queue(Value()))
      ensures Value() == Offered(old(Value()), x)
    {
      OfferedQueue(Value(), x);
      if count == buffer.Length {
        return false;
      }
      ghost var r := Value();
      var last := PushIndex();
      buffer[last] := x;
      assert Value() == Push(r, x);
      return true;
    }

    /** intr_queue_try_pop */
    method TryPop() returns (x: Option<T>)
      requires Valid()
      modifies this
      ensures Valid()
      ensures if old(Queue(Value())) == [] then x == None && Queue(Value()) == []
              else x.Some? && old(Queue(Value())) == [x.value] + Queue(Value())
    {
      if count == 0 {
        return None;
      }
      PopQueue(Value());
      var first := PopIndex();
      return Some(buffer[first]);
    }
  }
}
