/** LocalMessageQueuePOSIX10031c and the MessageQueueTemplate around it: message objects
    that circulate between a pool, a bounded list and their users. */
module MessageQueue {
  import opened Wrappers

  // ---------- the critical sections, on values ----------

  /** The two lists and the depth, whatever the messages are. */
  datatype Queue<M> = Queue(pending: seq<M>, inactive: seq<M>, depth: nat)

  predicate Pooled<M>(q: Queue<M>) { |q.inactive| != 0 }

  predicate Available<M>(q: Queue<M>) { |q.pending| != 0 }

  predicate Accepts<M>(q: Queue<M>) { |q.pending| < q.depth }

  function Allocated<M>(q: Queue<M>): Queue<M> {
    if Pooled(q) then q.(inactive := q.inactive[1..]) else q
  }

  function Deallocated<M>(q: Queue<M>, m: M): Queue<M> { q.(inactive := q.inactive + [m]) }

  function Sent<M>(q: Queue<M>, m: M): Queue<M> {
    if Accepts(q) then q.(pending := q.pending + [m]) else q
  }

  function Received<M>(q: Queue<M>): Queue<M>
    requires Available(q)
  {
    q.(pending := q.pending[1..])
  }

  // ---------- the queue object ----------

  class Message<T(0)> {
    var content: T

    constructor () { }
  }

  class LocalMessageQueue<T(0)> {
    var pendingM: seq<Message<T>>
    var inactiveM: seq<Message<T>>
    const depthM: nat

    constructor (depth: nat)
      ensures State() == Queue([], [], depth)
    {
      pendingM, inactiveM, depthM := [], [], depth;
    }

    ghost function State(): Queue<Message<T>>
      reads this
    {
      Queue(pendingM, inactiveM, depthM)
    }

    /** Every message the queue knows is in one of its lists, once; the depth is kept. */
    ghost predicate Valid()
      reads this
    {
      && NoRepeats(pendingM) && NoRepeats(inactiveM)
      && (forall m :: m in pendingM ==> m !in inactiveM)
      && |pendingM| <= depthM
    }

    method Allocate() returns (m: Message<T>)
      modifies this
      ensures State() == Allocated(old(State()))
      ensures pendingM == old(pendingM)
      ensures
        if old(inactiveM) != [] then [m] + inactiveM == old(inactiveM)
        else fresh(m) && inactiveM == []
    {
      if inactiveM == [] {
        m := new Message();
      } else {
        m := inactiveM[0];
        inactiveM := inactiveM[1..];
      }
    }

    method Deallocate(message: Message<T>)
      modifies this
      ensures State() == Deallocated(old(State()), message)
      ensures pendingM == old(pendingM) && inactiveM == old(inactiveM) + [message]
    {
      inactiveM := inactiveM + [message];
    }

    method Send(message: Message?<T>) returns (sent: bool)
      modifies this
      ensures sent <==> message != null && old(|pendingM|) < depthM
      ensures State() == if message == null then old(State()) else Sent(old(State()), message)
      ensures pendingM == old(pendingM) + (if sent then [message] else []) && inactiveM == old(inactiveM)
    {
      if message == null { return false; }
      if |pendingM| >= depthM { return false; }
      pendingM := pendingM + [message];
      return true;
    }

    /** With nothing pending the caller is left waiting, the lists as they were. */
    method Receive() returns (m: Option<Message<T>>)
      modifies this
      ensures State() == if old(Available(State())) then Received(old(State())) else old(State())
      ensures inactiveM == old(inactiveM)
      ensures
        if old(pendingM) == [] then m == None && pendingM == []
        else m.Some? && [m.value] + pendingM == old(pendingM)
    {
      if |pendingM| == 0 { return None; }
      m := Some(pendingM[0]);
      pendingM := pendingM[1..];
    }

    method IsAvailable() returns (available: bool)
      ensures available <==> pendingM != []
    {
      available := |pendingM| != 0;
    }
  }

  predicate NoRepeats<M(==)>(ms: seq<M>) {
    forall i, j :: 0 <= i < j < |ms| ==> ms[i] != ms[j]
  }

  /** What the messages say, in order. */
  ghost function Payloads<T(0)>(ms: seq<Message<T>>): (p: seq<T>)
    reads ms
    ensures |p| == |ms| && forall i :: 0 <= i < |ms| ==> p[i] == ms[i].content
  {
    if ms == [] then [] else [ms[0].content] + Payloads(ms[1..])
  }

  // ---------- the template ----------

  function Convert<T>(converter: Option<T -> T>, x: T): T {
    if converter.Some? then converter.value(x) else x
  }

  class MessageQueueTemplate<T(0)> {
    const mQueue: LocalMessageQueue<T>
    const mHTON: Option<T -> T>
    const mNTOH: Option<T -> T>

    constructor (depth: nat, hton: Option<T -> T>, ntoh: Option<T -> T>)
      ensures Valid() && mQueue.depthM == depth && Contents() == [] && fresh(mQueue)
      ensures mHTON == hton && mNTOH == ntoh
    {
      mHTON, mNTOH := hton, ntoh;
      mQueue := new LocalMessageQueue(depth);
    }

    ghost predicate Valid()
      reads this, mQueue
    {
      mQueue.Valid()
    }

    /** The payloads waiting to be read, in network form. */
    ghost function Contents(): seq<T>
      reads this, mQueue, mQueue.pendingM
    {
      Payloads(mQueue.pendingM)
    }

    method IsAvailable() returns (available: bool)
      ensures available <==> Contents() != []
    {
      available := mQueue.IsAvailable();
    }

    /** The first half of Write: a message that nobody waits for, filled with the payload in
        network form. */
    method Prepare(buffer: T) returns (b: Message<T>)
      requires Valid()
      modifies mQueue, mQueue.inactiveM
      ensures Valid() && mQueue.State() == old(Allocated(mQueue.State()))
      ensures b !in mQueue.pendingM && b !in mQueue.inactiveM && b.content == Convert(mHTON, buffer)
      ensures Contents() == old(Contents())
    {
      ghost var pool := mQueue.inactiveM;
      b := mQueue.Allocate();
      assert pool != [] ==> b == pool[0];
      b.content := Convert(mHTON, buffer);
    }

    /** A payload in local form goes to the end of the queue, or is refused for want of
        room; no waiting payload changes, though the message that carries it may be one used
        before. A refused message is in neither list any more. */
    method Write(buffer: T) returns (status: bool)
      requires Valid()
      modifies mQueue, mQueue.inactiveM
      ensures Valid()
      ensures status <==> old(|Contents()|) < mQueue.depthM
      ensures Contents() == old(Contents()) + if status then [Convert(mHTON, buffer)] else []
      ensures mQueue.inactiveM == old(Allocated(mQueue.State()).inactive)
    {
      var b := Prepare(buffer);
      status := mQueue.Send(b);
    }

    /** The oldest payload, back in local form; its message returns to the pool.  With
        nothing to read the caller is left waiting. */
    method Read() returns (buffer: Option<T>)
      requires Valid()
      modifies mQueue
      ensures Valid()
      ensures old(Contents()) == [] ==> buffer == None && mQueue.State() == old(mQueue.State())
      ensures old(Contents()) != [] ==>
        && buffer == Some(Convert(mNTOH, old(Contents()[0])))
        && Contents() == old(Contents()[1..])
        && mQueue.inactiveM == old(mQueue.inactiveM + [mQueue.pendingM[0]])
    {
      assert mQueue.pendingM != [] ==> mQueue.pendingM[0] in mQueue.pendingM;
      var b := mQueue.Receive();
      if b.None? { return None; }
      buffer := Some(Convert(mNTOH, b.value.content));
      mQueue.Deallocate(b.value);
    }
  }
}
