/**
 * The input command queue of src/systems/input_system.c: a ring buffer of 64
 * slots with a head (next to pop) and a tail (next to fill). One slot always
 * stays free, so at most 63 commands are held; pushing onto a full queue
 * drops the oldest command; popping never blocks.
 *
 * `Contents` reads the live slots from head to tail: it is the abstract FIFO
 * sequence every operation is specified against.
 */
module InputQueue {
  import opened Commands

  const CAP: nat := 64

  /** The most commands the queue can hold: one slot stays free. */
  const MAX_LEN: nat := CAP - 1

  datatype Queue = Queue(buf: seq<Command>, head: int, tail: int)

  /** The shape every queue keeps: 64 slots, and head and tail both in [0, 64). */
  predicate Valid(q: Queue)
  {
    |q.buf| == CAP && 0 <= q.head < CAP && 0 <= q.tail < CAP
  }

  /** The number of live slots. */
  function Len(q: Queue): (n: nat)
    requires Valid(q)
    ensures n <= MAX_LEN
  {
    (q.tail - q.head) % CAP
  }

  /** The commands waiting, oldest first. */
  function Contents(q: Queue): (s: seq<Command>)
    requires Valid(q)
    ensures |s| == Len(q) && |s| <= MAX_LEN
  {
    seq(Len(q), i requires 0 <= i < Len(q) => q.buf[Slot(q, i)])
  }

  /**
   * InputCommandQueue_init: head = tail = 0. The slots keep whatever they held
   * (the C array is not cleared), which is why they are a parameter.
   */
  function Init(slots: seq<Command>): (q: Queue)
    requires |slots| == CAP
    ensures Valid(q) && q.head == 0 && q.tail == 0
    ensures Contents(q) == []
  {
    Queue(slots, 0, 0)
  }

  /** `next_tail == head`: the next push would overwrite the oldest command. */
  predicate Full(q: Queue)
    requires Valid(q)
  {
    (q.tail + 1) % CAP == q.head
  }

  lemma FullIffMaxLen(q: Queue)
    requires Valid(q)
    ensures Full(q) <==> Len(q) == MAX_LEN
  {
  }

  /**
   * InputCommandQueue_push: writes the command at the tail and advances it;
   * on a full queue the head advances first, which drops exactly the oldest
   * command.
   */
  function Push(q: Queue, c: Command): (q': Queue)
    requires Valid(q)
    ensures Valid(q')
    ensures Full(q) ==> Contents(q') == Contents(q)[1..] + [c] && |Contents(q')| == MAX_LEN
    ensures !Full(q) ==> Contents(q') == Contents(q) + [c]
  {
    var nextTail := (q.tail + 1) % CAP;
    var head := if nextTail == q.head then (q.head + 1) % CAP else q.head;
    var q' := Queue(q.buf[q.tail := c], head, nextTail);
    PushContents(q, c, q');
    q'
  }

  /** The slot holding the i-th oldest command. */
  function Slot(q: Queue, i: nat): (k: nat)
    requires Valid(q)
    ensures k < CAP
    ensures i < CAP ==> k == if q.head + i < CAP then q.head + i else q.head + i - CAP
  {
    (q.head + i) % CAP
  }

  /** No live slot is the tail slot. */
  lemma LiveSlot(q: Queue, i: nat)
    requires Valid(q) && i < Len(q)
    ensures Slot(q, i) != q.tail
  {
  }

  /** The slot just past the live ones is the tail. */
  lemma TailSlot(q: Queue)
    requires Valid(q)
    ensures Slot(q, Len(q)) == q.tail
  {
  }

  lemma PushContents(q: Queue, c: Command, q': Queue)
    requires Valid(q)
    requires q'.buf == q.buf[q.tail := c] && q'.tail == (q.tail + 1) % CAP
    requires q'.head == if Full(q) then (q.head + 1) % CAP else q.head
    ensures Valid(q')
    ensures Full(q) ==> Contents(q') == Contents(q)[1..] + [c]
    ensures !Full(q) ==> Contents(q') == Contents(q) + [c]
  {
    FullIffMaxLen(q);
    if Full(q) {
      PushFullContents(q, c, q');
    } else {
      PushRoomContents(q, c, q');
    }
  }

  lemma PushRoomContents(q: Queue, c: Command, q': Queue)
    requires Valid(q) && !Full(q) && Len(q) < MAX_LEN
    requires q'.buf == q.buf[q.tail := c] && q'.tail == (q.tail + 1) % CAP && q'.head == q.head
    ensures Valid(q') && Contents(q') == Contents(q) + [c]
  {
    var s, s' := Contents(q), Contents(q');
    assert Len(q') == Len(q) + 1;
    forall i | 0 <= i < |s'|
      ensures s'[i] == (s + [c])[i]
    {
      assert Slot(q', i) == Slot(q, i);
      if i < Len(q) {
        LiveSlot(q, i);
      } else {
        TailSlot(q);
      }
    }
  }

  lemma PushFullContents(q: Queue, c: Command, q': Queue)
    requires Valid(q) && Full(q) && Len(q) == MAX_LEN
    requires q'.buf == q.buf[q.tail := c] && q'.tail == (q.tail + 1) % CAP
    requires q'.head == (q.head + 1) % CAP
    ensures Valid(q') && Contents(q') == Contents(q)[1..] + [c]
  {
    var s, s' := Contents(q), Contents(q');
    assert Len(q') == MAX_LEN;
    forall i | 0 <= i < |s'|
      ensures s'[i] == (s[1..] + [c])[i]
    {
      assert Slot(q', i) == Slot(q, i + 1);
      if i + 1 < Len(q) {
        LiveSlot(q, i + 1);
      } else {
        TailSlot(q);
      }
    }
  }

  /** The result of a non-blocking pop: the flag, the `*out` cell, and the queue. */
  datatype Popped = Popped(ok: bool, out: Command, queue: Queue)

  /**
   * InputCommandQueue_pop_try: on a non-empty queue, hands out the oldest
   * command and advances the head; on an empty one returns false and leaves
   * the queue and `*out` as they were.
   */
  function PopTry(q: Queue, out: Command): (p: Popped)
    requires Valid(q)
    ensures Valid(p.queue)
    ensures p.ok <==> Contents(q) != []
    ensures !p.ok ==> p.out == out && p.queue == q
    ensures p.ok ==> p.out == Contents(q)[0] && Contents(p.queue) == Contents(q)[1..]
  {
    if q.head != q.tail then
      var q' := q.(head := (q.head + 1) % CAP);
      PopContents(q, q');
      Popped(true, q.buf[q.head], q')
    else
      Popped(false, out, q)
  }

  lemma PopContents(q: Queue, q': Queue)
    requires Valid(q) && q.head != q.tail && q' == q.(head := (q.head + 1) % CAP)
    ensures Valid(q') && Contents(q') == Contents(q)[1..]
  {
    var s, s' := Contents(q), Contents(q');
    assert Len(q') == Len(q) - 1;
    forall i | 0 <= i < |s'|
      ensures s'[i] == s[1..][i]
    {
      assert Slot(q', i) == Slot(q, i + 1);
    }
  }

  /** The last `n` elements of `s` (all of them when there are fewer). */
  function Keep<T>(s: seq<T>, n: nat): (r: seq<T>)
    ensures |r| == if |s| <= n then |s| else n
  {
    if |s| <= n then s else s[|s| - n..]
  }

  /** Keeping a suffix first and then appending changes nothing about the final suffix. */
  lemma KeepAppend<T>(a: seq<T>, b: seq<T>, n: nat)
    ensures Keep(Keep(a, n) + b, n) == Keep(a + b, n)
  {
    if |a| > n {
      var a' := a[|a| - n..];
      if |a' + b| > n {
        assert (a' + b)[|a' + b| - n..] == (a + b)[|a + b| - n..];
      } else {
        assert a' + b == (a + b)[|a + b| - n..];
      }
    }
  }

  /** One push keeps the last 63 of the old contents plus the new command. */
  lemma PushKeep(q: Queue, c: Command)
    requires Valid(q)
    ensures Contents(Push(q, c)) == Keep(Contents(q) + [c], MAX_LEN)
  {
    var s := Contents(q);
    FullIffMaxLen(q);
    if Full(q) {
      assert |s + [c]| == MAX_LEN + 1;
      assert (s + [c])[1..] == s[1..] + [c];
    }
  }

  /** The queue after pushing every command of `cs` in order. */
  function PushAll(q: Queue, cs: seq<Command>): (q': Queue)
    requires Valid(q)
    ensures Valid(q')
    decreases |cs|
  {
    if cs == [] then q else PushAll(Push(q, cs[0]), cs[1..])
  }

  /**
   * Drop-oldest FIFO: after any run of pushes the queue holds the last 63 of
   * the old contents followed by the pushed commands, in push order.
   */
  lemma {:induction false} PushAllContents(q: Queue, cs: seq<Command>)
    requires Valid(q)
    ensures Contents(PushAll(q, cs)) == Keep(Contents(q) + cs, MAX_LEN)
    decreases |cs|
  {
    if cs != [] {
      var q1 := Push(q, cs[0]);
      PushKeep(q, cs[0]);
      PushAllContents(q1, cs[1..]);
      KeepAppend(Contents(q) + [cs[0]], cs[1..], MAX_LEN);
      assert Contents(q) + [cs[0]] + cs[1..] == Contents(q) + cs;
    }
  }

  /** While there is room, nothing is dropped. */
  lemma PushAllNoDrop(q: Queue, cs: seq<Command>)
    requires Valid(q) && |Contents(q)| + |cs| <= MAX_LEN
    ensures Contents(PushAll(q, cs)) == Contents(q) + cs
  {
    PushAllContents(q, cs);
  }

  /** Pushing onto a non-full queue grows it by exactly one and keeps every earlier command. */
  lemma PushNotFull(q: Queue, c: Command)
    requires Valid(q) && |Contents(q)| < MAX_LEN
    ensures |Contents(Push(q, c))| == |Contents(q)| + 1
    ensures Contents(Push(q, c))[..|Contents(q)|] == Contents(q)
  {
    FullIffMaxLen(q);
  }

  /** Popping until the queue reports empty hands out its contents in order, and leaves it empty. */
  method DrainAll(q: Queue) returns (popped: seq<Command>, q': Queue)
    requires Valid(q)
    ensures popped == Contents(q)
    ensures Valid(q') && Contents(q') == []
  {
    popped := [];
    q' := q;
    var out := NoCommand;
    var p := PopTry(q', out);
    while p.ok
      invariant Valid(q') && p == PopTry(q', out)
      invariant popped + Contents(q') == Contents(q)
      decreases |Contents(q')|
    {
      ghost var rest := Contents(q');
      assert rest == [p.out] + Contents(p.queue);
      popped := popped + [p.out];
      q' := p.queue;
      out := p.out;
      p := PopTry(q', out);
    }
  }
}
