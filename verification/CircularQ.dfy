/** The overrunning ring buffer of test/lib/spdlog/details/circular_q.h. */
module CircularQ {

  // ---------- a capped sequence ----------

  /** The queued items, oldest first, and how many were overrun. */
  datatype Queue<T> = Queue(items: seq<T>, overruns: nat)

  /** The newest `max` of a sequence */
  function Newest<T>(s: seq<T>, max: nat): seq<T> {
    if |s| <= max then s else s[|s| - max..]
  }

  /** push_back drops the oldest item if there is no room. */
  function Push<T>(q: Queue<T>, max: nat, x: T): Queue<T> {
    Queue(Newest(q.items + [x], max), if |q.items| >= max then q.overruns + 1 else q.overruns)
  }

  /** pop_front */
  function Pop<T>(q: Queue<T>): Queue<T>
    requires q.items != []
  {
    q.(items := q.items[1..])
  }

  datatype Op<T> = PushBack(item: T) | PopFront

  /** Any sequence of pushes and pops; a pop of an empty queue is not made. */
  function Run<T>(ops: seq<Op<T>>, max: nat): Queue<T> {
    if ops == [] then Queue([], 0)
    else
      var q := Run(ops[..|ops| - 1], max);
      match ops[|ops| - 1]
      case PushBack(x) => Push(q, max, x)
      case PopFront => if q.items == [] then q else Pop(q)
  }

  function Pushed<T>(ops: seq<Op<T>>): seq<T> {
    if ops == [] then []
    else
      match ops[|ops| - 1]
      case PushBack(x) => Pushed(ops[..|ops| - 1]) + [x]
      case PopFront => Pushed(ops[..|ops| - 1])
  }

  /** The pops that were made. */
  function Popped<T>(ops: seq<Op<T>>, max: nat): nat {
    if ops == [] then 0
    else
      Popped(ops[..|ops| - 1], max)
      + if ops[|ops| - 1].PopFront? && Run(ops[..|ops| - 1], max).items != [] then 1 else 0
  }

  /** The queue is the end of what was pushed. */
  ghost predicate IsTail<T>(items: seq<T>, all: seq<T>) {
    |items| <= |all| && items == all[|all| - |items|..]
  }

  lemma TailPush<T>(items: seq<T>, all: seq<T>, max: nat, x: T)
    requires IsTail(items, all)
    ensures IsTail(Newest(items + [x], max), all + [x])
  {
    assert items + [x] == (all + [x])[|all| - |items|..];
  }

  lemma TailNone<T>()
    ensures IsTail<T>([], [])
  {
  }

  lemma TailPop<T>(items: seq<T>, all: seq<T>)
    requires IsTail(items, all) && items != []
    ensures IsTail(items[1..], all)
  {
  }

  /** After any run the queue holds the newest pushes that were not popped, in
      order and at most `max`, and every push was popped, overrun or is still
      there. */
  lemma {:induction false} RunHolds<T>(ops: seq<Op<T>>, max: nat)
    ensures var q, all := Run(ops, max), Pushed(ops);
            && |q.items| <= max && IsTail(q.items, all)
            && |all| == Popped(ops, max) + |q.items| + q.overruns
    decreases |ops|
  {
    hide IsTail;
    if ops == [] {
      assert IsTail(Run(ops, max).items, Pushed(ops)) by { TailNone<T>(); }
    } else {
      var front := ops[..|ops| - 1];
      RunHolds(front, max);
      var q := Run(front, max);
      match ops[|ops| - 1]
      case PushBack(x) => TailPush(q.items, Pushed(front), max, x);
      case PopFront => if q.items != [] { TailPop(q.items, Pushed(front)); }
    }
  }

  // ---------- the ring ----------

  class RingQueue<T(0)> {
    const maxItems: nat
    const v: array<T>
    var head: nat
    var tail: nat
    var overrunCounter: nat

    ghost predicate Valid()
      reads this
    {
      && maxItems == v.Length && maxItems >= 1
      && head < maxItems && tail < maxItems
    }

    function Size(): nat
      requires Valid()
      reads this
    {
      if tail >= head then tail - head else tail + maxItems - head
    }

    /** The position of the k-th item. */
    ghost function Slot(k: nat): nat
      requires Valid() && k < maxItems
      reads this
    {
      if head + k < maxItems then head + k else head + k - maxItems
    }

    ghost function Contents(): (q: Queue<T>)
      requires Valid()
      reads this, v
      ensures |q.items| == Size() && q.overruns == overrunCounter
      ensures forall k :: 0 <= k < Size() ==> q.items[k] == v[Slot(k)]
    {
      Queue(if tail >= head then v[head..tail] else v[head..] + v[..tail], overrunCounter)
    }

    /** One slot is reserved as the marker of a full queue. */
    constructor (max: nat)
      ensures Valid() && maxItems == max + 1 && Contents() == Queue([], 0) && fresh(v)
    {
      maxItems := max + 1;
      v := new T[max + 1];
      head, tail, overrunCounter := 0, 0, 0;
    }

    /** push_back */
    method PushBack(item: T)
      requires Valid()
      modifies this`head, this`tail, this`overrunCounter, v
      ensures Valid() && Contents() == Push(old(Contents()), maxItems - 1, item)
    {
      hide Push, Newest, Contents;
      ghost var before, all := Contents(), Contents().items + [item];
      PushCases(before, maxItems - 1, item);
      Wrap(tail + 1, maxItems);
      Wrap(head + 1, maxItems);
      v[tail] := item;
      tail := (tail + 1) % maxItems;
      if tail == head {
        head := (head + 1) % maxItems;
        overrunCounter := overrunCounter + 1;
        assert Contents().items == all[1..];
      } else {
        assert Contents().items == all;
      }
    }

    /** pop_front, for which an empty queue is undefined behaviour */
    method PopFront() returns (item: T)
      requires Valid() && Contents().items != []
      modifies this`head
      ensures Valid() && Contents() == Pop(old(Contents())) && item == old(Contents().items[0])
    {
      Wrap(head + 1, maxItems);
      item := v[head];
      head := (head + 1) % maxItems;
    }

    /** empty */
    method Empty() returns (e: bool)
      requires Valid()
      ensures e <==> Contents().items == []
    {
      e := tail == head;
    }

    /** full: head is ahead of the tail by 1 */
    method Full() returns (f: bool)
      requires Valid()
      ensures f <==> |Contents().items| == maxItems - 1
    {
      Wrap(tail + 1, maxItems);
      f := (tail + 1) % maxItems == head;
    }
  }

  lemma PushCases<T>(q: Queue<T>, max: nat, x: T)
    requires |q.items| <= max
    ensures |q.items| < max ==> Push(q, max, x) == Queue(q.items + [x], q.overruns)
    ensures |q.items| == max ==> Push(q, max, x) == Queue((q.items + [x])[1..], q.overruns + 1)
  {
  }

  lemma Wrap(x: nat, m: nat)
    requires 1 <= x <= m
    ensures x % m == if x == m then 0 else x
  {
    if x < m { SmallMod(x, m); }
  }

  lemma SmallMod(x: nat, m: nat)
    requires x < m
    ensures x % m == x
  {
  }
}
