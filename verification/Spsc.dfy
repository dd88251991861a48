/** The ring buffer shared by one producer and one consumer.  Every atomic load, store and counter
    update of `push` and `tryPop` is a step of its own, and the two threads' steps interleave freely
    (sequentially consistent). */
module Spsc {
  import opened Bits
  import opened Bytes
  import opened Ring

  /** Where the producer is: the access it performs next, and its locals. */
  datatype Producer<T> =
    | PIdle
    | PLoadShutdown(x: T)
    | PLoadTail(x: T)
    | PLoadHead(x: T, tail: nat)
    | PCountDrop
    | PWriteSlot(x: T, tail: nat)
    | PStoreTail(x: T, tail: nat)
    | PCountPush

  /** Where the consumer is. */
  datatype Consumer<T> =
    | CIdle
    | CLoadShutdown
    | CLoadHead
    | CLoadTail(head: nat)
    | CReadSlot(head: nat)
    | CStoreHead(head: nat, v: T)
    | CCountPop

  /** Memory, both threads, and the history: `pushed` are the values whose tail store has happened,
      `popped` those whose head store has. */
  datatype State<T> = State(k: nat, slots: seq<T>, head: nat, tail: nat, shutdown: bool,
                            pushCount: nat, popCount: nat, dropCount: nat,
                            producer: Producer<T>, consumer: Consumer<T>,
                            pushed: seq<T>, popped: seq<T>)

  datatype Action<T> = CallPush(x: T) | StepProducer | CallPop | StepConsumer | Shutdown

  function ProducerStep<T>(s: State<T>): State<T>
    requires Shaped(s)
  {
    match s.producer
    case PIdle => s
    case PLoadShutdown(x) => s.(producer := if s.shutdown then PIdle else PLoadTail(x))
    case PLoadTail(x) => s.(producer := PLoadHead(x, s.tail))
    case PLoadHead(x, t) => s.(producer := if Next(t, s.k) == s.head then PCountDrop else PWriteSlot(x, t))
    case PCountDrop => s.(dropCount := s.dropCount + 1, producer := PIdle)
    case PWriteSlot(x, t) => if t < |s.slots| then s.(slots := s.slots[t := x], producer := PStoreTail(x, t)) else s
    case PStoreTail(x, t) => s.(tail := Next(t, s.k), producer := PCountPush, pushed := s.pushed + [x])
    case PCountPush => s.(pushCount := s.pushCount + 1, producer := PIdle)
  }

  function ConsumerStep<T>(s: State<T>): State<T>
    requires Shaped(s)
  {
    match s.consumer
    case CIdle => s
    case CLoadShutdown => s.(consumer := if s.shutdown then CIdle else CLoadHead)
    case CLoadHead => s.(consumer := CLoadTail(s.head))
    case CLoadTail(h) => s.(consumer := if h == s.tail then CIdle else CReadSlot(h))
    case CReadSlot(h) => if h < |s.slots| then s.(consumer := CStoreHead(h, s.slots[h])) else s
    case CStoreHead(h, v) => s.(head := Next(h, s.k), consumer := CCountPop, popped := s.popped + [v])
    case CCountPop => s.(popCount := s.popCount + 1, consumer := CIdle)
  }

  function Step<T>(s: State<T>, a: Action<T>): State<T>
    requires Shaped(s)
  {
    match a
    case CallPush(x) => if s.producer.PIdle? then s.(producer := PLoadShutdown(x)) else s
    case StepProducer => ProducerStep(s)
    case CallPop => if s.consumer.CIdle? then s.(consumer := CLoadShutdown) else s
    case StepConsumer => ConsumerStep(s)
    case Shutdown => s.(shutdown := true)
  }

  predicate Shaped<T>(s: State<T>) {
    s.k <= 63 && |s.slots| == Pow2(s.k) && s.head < |s.slots| && s.tail < |s.slots|
  }

  /** What the producer knows.  Its tail is never stale.  The head it compared against may be: it only
      knows that there was room, and there still is. */
  ghost predicate ProducerInv<T>(s: State<T>)
    requires Shaped(s)
  {
    match s.producer
    case PLoadHead(x, t) => t == s.tail
    case PWriteSlot(x, t) => t == s.tail && Next(t, s.k) != s.head
    case PStoreTail(x, t) => t == s.tail && Next(t, s.k) != s.head && s.slots[t] == x
    case _ => true
  }

  /** What the consumer knows: its head is never stale, the queue it found non-empty still is, and the
      value it read is the oldest one outstanding. */
  ghost predicate ConsumerInv<T>(s: State<T>)
    requires Shaped(s)
  {
    match s.consumer
    case CLoadTail(h) => h == s.head
    case CReadSlot(h) => h == s.head && s.head != s.tail
    case CStoreHead(h, v) => h == s.head && s.head != s.tail && s.slots[h] == v
    case _ => true
  }

  /** The slots between head and tail hold exactly the values pushed and not yet popped. */
  ghost predicate Inv<T>(s: State<T>) {
    && Shaped(s)
    && ProducerInv(s) && ConsumerInv(s)
    && s.pushed == s.popped + Window(s.slots, s.head, s.tail)
    && |s.pushed| == s.pushCount + (if s.producer.PCountPush? then 1 else 0)
    && |s.popped| == s.popCount + (if s.consumer.CCountPop? then 1 else 0)
  }

  lemma ProducerKeepsInv<T>(s: State<T>)
    requires Inv(s)
    ensures Inv(ProducerStep(s))
  {
    hide Pow2, Next, Window;
    var t := s.producer;
    if t.PWriteSlot? {
      WindowPush(s.slots, s.head, s.tail, s.k, t.x);
      assert s.consumer.CStoreHead? ==> s.consumer.head != t.tail;
    } else if t.PStoreTail? {
      WindowPush(s.slots, s.head, s.tail, s.k, t.x);
      WindowSize(s.slots, s.head, s.tail, s.k);
      WindowSize(s.slots, s.head, Next(s.tail, s.k), s.k);
      Assoc(s.popped, Window(s.slots, s.head, s.tail), [t.x]);
    }
  }

  lemma ConsumerKeepsInv<T>(s: State<T>)
    requires Inv(s)
    ensures Inv(ConsumerStep(s))
  {
    hide Pow2, Next, Window;
    var c := s.consumer;
    if c.CStoreHead? {
      WindowPop(s.slots, s.head, s.tail, s.k);
      WindowSize(s.slots, s.head, s.tail, s.k);
      WindowSize(s.slots, Next(s.head, s.k), s.tail, s.k);
      Assoc(s.popped, [c.v], Window(s.slots, Next(s.head, s.k), s.tail));
    }
  }

  lemma StepKeepsInv<T>(s: State<T>, a: Action<T>)
    requires Inv(s)
    ensures Inv(Step(s, a))
  {
    if a.StepProducer? { ProducerKeepsInv(s); }
    if a.StepConsumer? { ConsumerKeepsInv(s); }
    hide Window, Pow2, Next;
  }

  // ---------------------------------------------------------------- whole runs

  ghost predicate Initial<T>(s: State<T>) {
    && Shaped(s) && s.head == s.tail == 0 && s.pushCount == s.popCount == s.dropCount == 0
    && s.producer.PIdle? && s.consumer.CIdle? && s.pushed == [] && s.popped == []
  }

  ghost function Exec<T>(s: State<T>, run: seq<Action<T>>): (r: State<T>)
    requires Inv(s)
    ensures Inv(r)
  {
    if run == [] then s else
    var n := |run| - 1;
    var p := Exec(s, run[..n]);
    StepKeepsInv(p, run[n]);
    Step(p, run[n])
  }

  /** The values outstanding, oldest first. */
  ghost function Queue<T>(s: State<T>): seq<T>
    requires Shaped(s)
  {
    Window(s.slots, s.head, s.tail)
  }

  /** Over every interleaving: what has been popped is a prefix of what was accepted, in order and
      without loss or duplication; at most capacity - 1 values are outstanding; the slot about to be
      written is never the slot about to be read; a producer that looks at the head turns back exactly
      when capacity - 1 values are outstanding, and a consumer that looks at the tail exactly when none
      is. */
  lemma RingSafety<T>(s: State<T>, run: seq<Action<T>>)
    requires Initial(s)
    ensures Inv(s)
    ensures var r := Exec(s, run); var outstanding := |r.pushed| - |r.popped|;
            && r.popped <= r.pushed
            && outstanding == Distance(r.head, r.tail, |r.slots|) <= |r.slots| - 1
            && (r.producer.PWriteSlot? && r.consumer.CReadSlot? ==> r.producer.tail != r.consumer.head)
            && (r.consumer.CStoreHead? ==> r.popped + [r.consumer.v] <= r.pushed)
            && (r.producer.PLoadHead? ==>
                  (Step(r, StepProducer).producer.PCountDrop? <==> outstanding == |r.slots| - 1))
            && (r.consumer.CLoadTail? ==> (Step(r, StepConsumer).consumer.CIdle? <==> outstanding == 0))
            && r.pushCount <= |r.pushed| <= r.pushCount + 1 && r.popCount <= |r.popped| <= r.popCount + 1
  {
    assert Window(s.slots, 0, 0) == [];
    var r := Exec(s, run);
    hide Pow2, Next, Window, Exec;
    WindowSize(r.slots, r.head, r.tail, r.k);
    if r.consumer.CStoreHead? { WindowPop(r.slots, r.head, r.tail, r.k); }
  }

  /** Each step is the step of a bounded FIFO queue: a value joins at the back exactly at the tail store,
      the front value leaves exactly at the head store, a full queue is what turns a producer back, and
      an empty one what turns a consumer back. */
  lemma RefinesFifo<T>(s: State<T>, a: Action<T>)
    requires Inv(s)
    ensures Inv(Step(s, a))
    ensures var q, s' := Queue(s), Step(s, a); var q' := Queue(s');
            if a.StepProducer? && s.producer.PStoreTail? then q' == q + [s.producer.x] && |q| < |s.slots| - 1
            else if a.StepConsumer? && s.consumer.CStoreHead? then q == [s.consumer.v] + q'
            else
              && q' == q
              && (a.StepProducer? && s.producer.PLoadHead? ==>
                    s'.producer == if |q| == |s.slots| - 1 then PCountDrop else PWriteSlot(s.producer.x, s.tail))
              && (a.StepConsumer? && s.consumer.CLoadTail? ==>
                    s'.consumer == if q == [] then CIdle else CReadSlot(s.head))
  {
    StepKeepsInv(s, a);
    hide Pow2, Next, Window, Inv;
    InvFacts(s);
    WindowSize(s.slots, s.head, s.tail, s.k);
    if a.StepProducer? && (s.producer.PStoreTail? || s.producer.PWriteSlot?) {
      WindowPush(s.slots, s.head, s.tail, s.k, s.producer.x);
    } else if a.StepConsumer? && s.consumer.CStoreHead? {
      WindowPop(s.slots, s.head, s.tail, s.k);
    }
  }

  lemma InvFacts<T>(s: State<T>)
    requires Inv(s)
    ensures Shaped(s) && ProducerInv(s) && ConsumerInv(s)
  {
  }
}
