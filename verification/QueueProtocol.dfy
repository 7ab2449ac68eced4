/** Any number of producers in Write and one consumer that calls Read only after
    IsAvailable, interleaved. The queue's critical sections are single steps; the copies in
    and out of a message, made outside the lock, go word by word. */
module QueueProtocol {
  import opened MessageQueue

  type Word = x: int | 0 <= x < 0x1_0000_0000
  type Payload = seq<Word>
  type Thread = nat
  type Buffer = nat
  type Memory = (Buffer, nat) -> Word

  /** The size of a message in words and the two converters: the words that hton_f writes
      and what ntoh_f makes of the words it reads. */
  datatype Config = Config(size: nat, hton: (Payload, nat) -> Word, ntoh: Payload -> Payload)

  /** A payload in network form. */
  function Network(c: Config, p: Payload): (n: Payload)
    ensures |n| == c.size && forall i :: 0 <= i < c.size ==> n[i] == c.hton(p, i)
  {
    seq(c.size, i requires 0 <= i < c.size => c.hton(p, i))
  }

  /** A payload after both conversions. */
  function Through(c: Config, p: Payload): Payload { c.ntoh(Network(c, p)) }

  ghost predicate Undoes(c: Config) { forall p: Payload :: |p| == c.size ==> Through(c, p) == p }

  // where a thread stands in Write, and the consumer in its loop
  datatype Producer =
    | Idle
    | Called(p: Payload)
    | Filling(p: Payload, b: Buffer, words: nat)

  datatype Consumer =
    | Polling
    | Guarded
    | Waiting
    | Reading(b: Buffer, words: seq<Word>)

  /** made counts the messages ever created; sent and got are the payloads accepted by Send
      and returned by Read so far; abandoned holds the messages of refused Sends. */
  datatype State = State(
    q: Queue<Buffer>,
    made: nat,
    memory: Memory,
    producers: map<Thread, Producer>,
    consumer: Consumer,
    sent: seq<Payload>,
    got: seq<Payload>,
    abandoned: seq<Buffer>)

  datatype Step =
    | Call(t: Thread, p: Payload)
    | Allocate(t: Thread)
    | Fill(t: Thread)
    | Send(t: Thread)
    | Check
    | Receive
    | Take
    | Deallocate

  ghost predicate Init(s: State) {
    && s.q.pending == s.q.inactive == s.abandoned == []
    && s.made == 0
    && (forall t :: t in s.producers ==> s.producers[t].Idle?)
    && s.consumer.Polling?
    && s.sent == s.got == []
  }

  predicate Enabled(c: Config, s: State, step: Step) {
    match step
    case Call(t, p) => t in s.producers && s.producers[t].Idle? && |p| == c.size
    case Allocate(t) => t in s.producers && s.producers[t].Called?
    case Fill(t) => t in s.producers && s.producers[t].Filling? && s.producers[t].words < c.size
    case Send(t) => t in s.producers && s.producers[t].Filling? && s.producers[t].words == c.size
    case Check => s.consumer.Polling?
    case Receive => s.consumer.Guarded?
    case Take => s.consumer.Reading? && |s.consumer.words| < c.size
    case Deallocate => s.consumer.Reading? && |s.consumer.words| == c.size
  }

  function Apply(c: Config, s: State, step: Step): State
    requires Enabled(c, s, step)
  {
    match step
    case Call(t, p) => s.(producers := s.producers[t := Called(p)])
    case Allocate(t) => AllocateStep(s, t)
    case Fill(t) => FillStep(c, s, t)
    case Send(t) => SendStep(s, t)
    case Check => if Available(s.q) then s.(consumer := Guarded) else s
    case Receive => ReceiveStep(s)
    case Take => s.(consumer := s.consumer.(words := s.consumer.words + [s.memory(s.consumer.b, |s.consumer.words|)]))
    case Deallocate =>
      s.(q := Deallocated(s.q, s.consumer.b), consumer := Polling, got := s.got + [c.ntoh(s.consumer.words)])
  }

  /** The oldest pooled message or, if there is none, a new one: its words are whatever the
      memory held. */
  function AllocateStep(s: State, t: Thread): State
    requires t in s.producers && s.producers[t].Called?
  {
    var b := if Pooled(s.q) then s.q.inactive[0] else s.made;
    s.(q := Allocated(s.q),
       made := if Pooled(s.q) then s.made else s.made + 1,
       producers := s.producers[t := Filling(s.producers[t].p, b, 0)])
  }

  function Written(m: Memory, b: Buffer, i: nat, w: Word): Memory {
    (b': Buffer, i': nat) => if b' == b && i' == i then w else m(b', i')
  }

  function FillStep(c: Config, s: State, t: Thread): State
    requires t in s.producers && s.producers[t].Filling? && s.producers[t].words < c.size
  {
    var w := s.producers[t];
    s.(memory := Written(s.memory, w.b, w.words, c.hton(w.p, w.words)),
       producers := s.producers[t := w.(words := w.words + 1)])
  }

  function SendStep(s: State, t: Thread): State
    requires t in s.producers && s.producers[t].Filling?
  {
    var w := s.producers[t];
    var s' := s.(q := Sent(s.q, w.b), producers := s.producers[t := Idle]);
    if Accepts(s.q) then s'.(sent := s.sent + [w.p]) else s'.(abandoned := s.abandoned + [w.b])
  }

  /** With nothing pending the caller waits on the condition variable. */
  function ReceiveStep(s: State): State {
    if Available(s.q) then s.(q := Received(s.q), consumer := Reading(s.q.pending[0], []))
    else s.(consumer := Waiting)
  }

  ghost predicate Run(c: Config, s: State, steps: seq<Step>, s': State)
    decreases |steps|
  {
    if steps == [] then s' == s
    else Enabled(c, s, steps[0]) && Run(c, Apply(c, s, steps[0]), steps[1..], s')
  }

  // ---------- every message is in exactly one place ----------

  datatype Place = Pool | Hands(t: Thread) | Line | Reader | Lost

  predicate At(s: State, b: Buffer, place: Place) {
    match place
    case Pool => b in s.q.inactive
    case Hands(t) => t in s.producers && s.producers[t].Filling? && s.producers[t].b == b
    case Line => b in s.q.pending
    case Reader => s.consumer.Reading? && s.consumer.b == b
    case Lost => b in s.abandoned
  }

  ghost predicate Placed(s: State, b: Buffer) { exists p :: At(s, b, p) }

  ghost predicate OnePlace(s: State) {
    && (forall b: Buffer, p :: At(s, b, p) ==> b < s.made)
    && (forall b: Buffer, p, q :: At(s, b, p) && At(s, b, q) ==> p == q)
    && (forall b: Buffer :: b < s.made ==> Placed(s, b))
    && NoRepeats(s.q.pending) && NoRepeats(s.q.inactive) && NoRepeats(s.abandoned)
  }

  ghost predicate SamePlaces(s: State, s': State) {
    forall b: Buffer, p :: At(s', b, p) <==> At(s, b, p)
  }

  ghost predicate Moved(s: State, s': State, b: Buffer, from: Place, to: Place) {
    forall b': Buffer, p ::
      At(s', b', p) <==> (b' == b && p == to) || (At(s, b', p) && !(b' == b && p == from))
  }

  lemma MovedStaysOne(s: State, s': State, b: Buffer, from: Place, to: Place)
    requires OnePlace(s) && Moved(s, s', b, from, to)
    requires (At(s, b, from) && s'.made == s.made) || (b == s.made && s'.made == s.made + 1)
    requires NoRepeats(s'.q.pending) && NoRepeats(s'.q.inactive) && NoRepeats(s'.abandoned)
    ensures OnePlace(s')
  {
    forall b': Buffer | b' < s'.made ensures Placed(s', b') {
      if b' == b {
        assert At(s', b, to);
      } else {
        assert Placed(s, b');
        var p :| At(s, b', p);
        assert At(s', b', p);
      }
    }
  }

  lemma SameStaysOne(s: State, s': State)
    requires OnePlace(s) && SamePlaces(s, s')
    requires s'.made == s.made && s'.q == s.q && s'.abandoned == s.abandoned
    ensures OnePlace(s')
  {
    forall b: Buffer | b < s'.made ensures Placed(s', b) {
      assert Placed(s, b);
      var p :| At(s, b, p);
      assert At(s', b, p);
    }
  }

  lemma Front(ms: seq<Buffer>)
    requires NoRepeats(ms) && ms != []
    ensures NoRepeats(ms[1..])
    ensures forall b :: b in ms[1..] <==> b in ms && b != ms[0]
  {
    assert ms == [ms[0]] + ms[1..];
    assert forall i :: 0 <= i < |ms[1..]| ==> ms[1..][i] == ms[i + 1];
  }

  lemma Back(ms: seq<Buffer>, m: Buffer)
    requires NoRepeats(ms) && m !in ms
    ensures NoRepeats(ms + [m])
    ensures forall b :: b in ms + [m] <==> b in ms || b == m
  {
  }

  lemma StepKeepsPlaces(c: Config, s: State, step: Step)
    requires OnePlace(s) && Enabled(c, s, step)
    ensures OnePlace(Apply(c, s, step))
  {
    var s' := Apply(c, s, step);
    match step
    case Call(t, p) => assert SamePlaces(s, s'); SameStaysOne(s, s');
    case Allocate(t) => AllocatePlaces(s, t);
    case Fill(t) => assert SamePlaces(s, s'); SameStaysOne(s, s');
    case Send(t) => SendPlaces(s, t);
    case Check => assert SamePlaces(s, s'); SameStaysOne(s, s');
    case Receive => ReceivePlaces(s);
    case Take => assert SamePlaces(s, s'); SameStaysOne(s, s');
    case Deallocate => DeallocatePlaces(c, s);
  }

  lemma AllocatePlaces(s: State, t: Thread)
    requires OnePlace(s) && t in s.producers && s.producers[t].Called?
    ensures OnePlace(AllocateStep(s, t))
  {
    var s' := AllocateStep(s, t);
    var b := s'.producers[t].b;
    if Pooled(s.q) {
      Front(s.q.inactive);
      assert At(s, b, Pool);
    }
    assert Moved(s, s', b, Pool, Hands(t));
    MovedStaysOne(s, s', b, Pool, Hands(t));
  }

  lemma SendPlaces(s: State, t: Thread)
    requires OnePlace(s) && t in s.producers && s.producers[t].Filling?
    ensures OnePlace(SendStep(s, t))
  {
    var s' := SendStep(s, t);
    var b := s.producers[t].b;
    assert At(s, b, Hands(t));
    assert !At(s, b, Line) && !At(s, b, Lost);
    Back(s.q.pending, b);
    Back(s.abandoned, b);
    var to := if Accepts(s.q) then Line else Lost;
    assert Moved(s, s', b, Hands(t), to);
    MovedStaysOne(s, s', b, Hands(t), to);
  }

  lemma ReceivePlaces(s: State)
    requires OnePlace(s) && s.consumer.Guarded?
    ensures OnePlace(ReceiveStep(s))
  {
    var s' := ReceiveStep(s);
    if Available(s.q) {
      var b := s.q.pending[0];
      assert At(s, b, Line);
      Front(s.q.pending);
      assert Moved(s, s', b, Line, Reader);
      MovedStaysOne(s, s', b, Line, Reader);
    } else {
      assert SamePlaces(s, s');
      SameStaysOne(s, s');
    }
  }

  lemma DeallocatePlaces(c: Config, s: State)
    requires OnePlace(s) && Enabled(c, s, Deallocate)
    ensures OnePlace(Apply(c, s, Deallocate))
  {
    var s' := Apply(c, s, Deallocate);
    var b := s.consumer.b;
    assert At(s, b, Reader);
    assert !At(s, b, Pool);
    Back(s.q.inactive, b);
    assert Moved(s, s', b, Reader, Pool);
    MovedStaysOne(s, s', b, Reader, Pool);
  }

  // ---------- the count and the guard ----------

  function Removed(s: State): nat { |s.got| + if s.consumer.Reading? then 1 else 0 }

  /** What was sent has been read, is being read or is pending; the list keeps to its depth;
      the consumer past its guard finds a message, and nobody waits. */
  ghost predicate Orderly(c: Config, s: State) {
    && |s.sent| == Removed(s) + |s.q.pending|
    && |s.q.pending| <= s.q.depth
    && match s.consumer
       case Polling => true
       case Guarded => Available(s.q)
       case Waiting => false
       case Reading(_, words) => |words| <= c.size
  }

  lemma StepKeepsOrder(c: Config, s: State, step: Step)
    requires Orderly(c, s) && Enabled(c, s, step)
    ensures Orderly(c, Apply(c, s, step))
  {
  }

  // ---------- what the messages hold ----------

  ghost predicate Holds(m: Memory, b: Buffer, p: Payload) {
    forall i :: 0 <= i < |p| ==> m(b, i) == p[i]
  }

  /** A producer's message holds what it has copied so far. */
  ghost predicate ProducerAgrees(c: Config, s: State, t: Thread)
    requires t in s.producers
  {
    match s.producers[t]
    case Idle => true
    case Called(p) => |p| == c.size
    case Filling(p, b, words) => |p| == c.size && words <= c.size && Holds(s.memory, b, Network(c, p)[..words])
  }

  ghost predicate ProducersAgree(c: Config, s: State) {
    forall t :: t in s.producers ==> ProducerAgrees(c, s, t)
  }

  /** The pending messages hold the last payloads sent, in order. */
  ghost predicate LineAgrees(c: Config, s: State)
    requires Orderly(c, s)
  {
    && (forall k :: 0 <= k < |s.sent| ==> |s.sent[k]| == c.size)
    && (forall k :: 0 <= k < |s.q.pending| ==> Holds(s.memory, s.q.pending[k], Network(c, s.sent[Removed(s) + k])))
  }

  /** What was read went through both conversions; a message being read holds the next one. */
  ghost predicate ReaderAgrees(c: Config, s: State)
    requires Orderly(c, s)
  {
    && (forall k :: 0 <= k < |s.got| ==> s.got[k] == Through(c, s.sent[k]))
    && (s.consumer.Reading? ==>
          && Holds(s.memory, s.consumer.b, Network(c, s.sent[|s.got|]))
          && s.consumer.words <= Network(c, s.sent[|s.got|]))
  }

  ghost predicate Agreement(c: Config, s: State) {
    Orderly(c, s) && ProducersAgree(c, s) && LineAgrees(c, s) && ReaderAgrees(c, s)
  }

  ghost predicate Inv(c: Config, s: State) { OnePlace(s) && Agreement(c, s) }

  // ---------- what every step keeps ----------

  lemma WriteElsewhere(m: Memory, b: Buffer, i: nat, w: Word, b': Buffer, p: Payload)
    requires b' != b && Holds(m, b', p)
    ensures Holds(Written(m, b, i, w), b', p)
  {
  }

  lemma WriteNext(m: Memory, b: Buffer, p: Payload, i: nat)
    requires i < |p| && Holds(m, b, p[..i])
    ensures Holds(Written(m, b, i, p[i]), b, p[..i + 1])
  {
    assert forall k :: 0 <= k < i ==> p[..i + 1][k] == p[..i][k];
  }

  /** A word written to a message in a producer's hands reaches nobody else. */
  lemma FillKeeps(c: Config, s: State, t: Thread)
    requires Inv(c, s) && Enabled(c, s, Fill(t))
    ensures Agreement(c, FillStep(c, s, t))
  {
    var s' := FillStep(c, s, t);
    var b, i := s.producers[t].b, s.producers[t].words;
    var w := c.hton(s.producers[t].p, i);
    assert At(s, b, Hands(t));
    forall k | 0 <= k < |s.q.pending|
      ensures Holds(s'.memory, s.q.pending[k], Network(c, s.sent[Removed(s) + k]))
    {
      assert At(s, s.q.pending[k], Line);
      WriteElsewhere(s.memory, b, i, w, s.q.pending[k], Network(c, s.sent[Removed(s) + k]));
    }
    FillKeepsReader(c, s, t);
    forall t' | t' in s'.producers ensures ProducerAgrees(c, s', t') {
      assert ProducerAgrees(c, s, t');
      if t' == t {
        WriteNext(s.memory, b, Network(c, s.producers[t].p), i);
      } else if s.producers[t'].Filling? {
        var other := s.producers[t'];
        assert At(s, other.b, Hands(t'));
        WriteElsewhere(s.memory, b, i, w, other.b, Network(c, other.p)[..other.words]);
      }
    }
  }

  lemma FillKeepsReader(c: Config, s: State, t: Thread)
    requires Inv(c, s) && Enabled(c, s, Fill(t))
    ensures ReaderAgrees(c, FillStep(c, s, t))
  {
    var b, i := s.producers[t].b, s.producers[t].words;
    assert At(s, b, Hands(t));
    if s.consumer.Reading? {
      assert At(s, s.consumer.b, Reader);
      WriteElsewhere(s.memory, b, i, c.hton(s.producers[t].p, i), s.consumer.b, Network(c, s.sent[|s.got|]));
    }
  }

  lemma SendKeeps(c: Config, s: State, t: Thread)
    requires Inv(c, s) && Enabled(c, s, Send(t))
    ensures Agreement(c, SendStep(s, t))
  {
    var s' := SendStep(s, t);
    var p := s.producers[t].p;
    assert ProducerAgrees(c, s, t);
    assert Network(c, p)[..c.size] == Network(c, p);
    forall t' | t' in s'.producers ensures ProducerAgrees(c, s', t') {
      assert ProducerAgrees(c, s, t');
    }
  }

  lemma OthersKeep(c: Config, s: State, s': State, t: Thread)
    requires ProducersAgree(c, s) && s'.memory == s.memory
    requires t in s.producers && t in s'.producers && s'.producers == s.producers[t := s'.producers[t]]
    requires ProducerAgrees(c, s', t)
    ensures ProducersAgree(c, s')
  {
    forall t' | t' in s'.producers ensures ProducerAgrees(c, s', t') {
      assert ProducerAgrees(c, s, t');
    }
  }

  lemma ProducersKept(c: Config, s: State, s': State)
    requires ProducersAgree(c, s) && s'.memory == s.memory && s'.producers == s.producers
    ensures ProducersAgree(c, s')
  {
    forall t' | t' in s'.producers ensures ProducerAgrees(c, s', t') {
      assert ProducerAgrees(c, s, t');
    }
  }

  lemma ReceiveKeeps(c: Config, s: State)
    requires Inv(c, s) && s.consumer.Guarded?
    ensures Agreement(c, ReceiveStep(s))
  {
    ProducersKept(c, s, ReceiveStep(s));
  }

  lemma TakeKeeps(c: Config, s: State)
    requires Inv(c, s) && Enabled(c, s, Take)
    ensures Agreement(c, Apply(c, s, Take))
  {
    ProducersKept(c, s, Apply(c, s, Take));
  }

  /** The words taken are the whole payload in network form. */
  lemma DeallocateKeeps(c: Config, s: State)
    requires Inv(c, s) && Enabled(c, s, Deallocate)
    ensures Agreement(c, Apply(c, s, Deallocate))
  {
    var s' := Apply(c, s, Deallocate);
    ProducersKept(c, s, s');
    var p := s.sent[|s.got|];
    assert s.consumer.words == Network(c, p)[..c.size] == Network(c, p);
  }

  lemma CallKeeps(c: Config, s: State, t: Thread, p: Payload)
    requires Inv(c, s) && Enabled(c, s, Call(t, p))
    ensures Agreement(c, Apply(c, s, Call(t, p)))
  {
    OthersKeep(c, s, Apply(c, s, Call(t, p)), t);
  }

  lemma AllocateKeeps(c: Config, s: State, t: Thread)
    requires Inv(c, s) && Enabled(c, s, Allocate(t))
    ensures Agreement(c, AllocateStep(s, t))
  {
    assert ProducerAgrees(c, s, t);
    OthersKeep(c, s, AllocateStep(s, t), t);
  }

  lemma CheckKeeps(c: Config, s: State)
    requires Inv(c, s) && Enabled(c, s, Check)
    ensures Agreement(c, Apply(c, s, Check))
  {
    ProducersKept(c, s, Apply(c, s, Check));
  }

  lemma StepKeepsAgreement(c: Config, s: State, step: Step)
    requires Inv(c, s) && Enabled(c, s, step)
    ensures Agreement(c, Apply(c, s, step))
  {
    match step
    case Call(t, p) => CallKeeps(c, s, t, p);
    case Allocate(t) => AllocateKeeps(c, s, t);
    case Fill(t) => FillKeeps(c, s, t);
    case Send(t) => SendKeeps(c, s, t);
    case Check => CheckKeeps(c, s);
    case Receive => ReceiveKeeps(c, s);
    case Take => TakeKeeps(c, s);
    case Deallocate => DeallocateKeeps(c, s);
  }

  lemma StepKeeps(c: Config, s: State, step: Step)
    requires Inv(c, s) && Enabled(c, s, step)
    ensures Inv(c, Apply(c, s, step))
  {
    StepKeepsPlaces(c, s, step);
    StepKeepsAgreement(c, s, step);
  }

  lemma {:induction false} RunKeeps(c: Config, s: State, steps: seq<Step>, s': State)
    requires Inv(c, s) && Run(c, s, steps, s')
    ensures Inv(c, s')
    decreases |steps|
  {
    if steps != [] {
      StepKeeps(c, s, steps[0]);
      RunKeeps(c, Apply(c, s, steps[0]), steps[1..], s');
    }
  }

  // ---------- over every run ----------

  ghost predicate Reachable(c: Config, s: State) {
    exists s0, steps :: Init(s0) && Run(c, s0, steps, s)
  }

  lemma ReachableInv(c: Config, s: State)
    requires Reachable(c, s)
    ensures Inv(c, s)
  {
    var s0, steps :| Init(s0) && Run(c, s0, steps, s);
    RunKeeps(c, s0, steps, s);
  }

  /** What Read has returned is, in order, the first part of what Send accepted, each payload
      converted forth and back; what is missing is in the consumer's hands or still pending. */
  lemma ReadInOrder(c: Config, s: State)
    requires Reachable(c, s)
    ensures |s.sent| == |s.got| + (if s.consumer.Reading? then 1 else 0) + |s.q.pending|
    ensures |s.q.pending| <= s.q.depth
    ensures forall k :: 0 <= k < |s.got| ==> s.got[k] == Through(c, s.sent[k])
    ensures s.got <= s.sent <==> forall k :: 0 <= k < |s.got| ==> Through(c, s.sent[k]) == s.sent[k]
  {
    ReachableInv(c, s);
  }

  lemma PrefixWhenUndone(c: Config, s: State)
    requires Undoes(c) && Inv(c, s)
    ensures s.got <= s.sent
  {
  }

  /** When the one conversion undoes the other it is that first part itself. */
  lemma ReadIsPrefix(c: Config, s: State)
    requires Undoes(c) && Reachable(c, s)
    ensures s.got <= s.sent
  {
    ReachableInv(c, s);
    PrefixWhenUndone(c, s);
  }

  /** Each message made is in exactly one place, and only made messages are anywhere. */
  lemma ExactlyOnePlace(c: Config, s: State, b: Buffer)
    requires Reachable(c, s)
    ensures b < s.made <==> exists p :: At(s, b, p)
    ensures forall p, q :: At(s, b, p) && At(s, b, q) ==> p == q
    ensures NoRepeats(s.q.pending) && NoRepeats(s.q.inactive) && NoRepeats(s.abandoned)
  {
    ReachableInv(c, s);
    if b < s.made { assert Placed(s, b); }
  }

  /** Receive is only ever entered with a message pending, so nobody waits in it. */
  lemma ReceiveNeverWaits(c: Config, s: State)
    requires Reachable(c, s)
    ensures !s.consumer.Waiting?
    ensures Enabled(c, s, Receive) ==> Available(s.q)
  {
    ReachableInv(c, s);
  }

  // ---------- the consumer alone catches up ----------

  predicate OfConsumer(step: Step) { step in {Check, Receive, Take, Deallocate} }

  /** The one step the consumer can take. */
  function Turn(c: Config, s: State): Step {
    match s.consumer
    case Polling => Check
    case Guarded => Receive
    case Waiting => Check
    case Reading(_, words) => if |words| < c.size then Take else Deallocate
  }

  function Rank(c: Config, consumer: Consumer): int {
    match consumer
    case Polling => c.size + 3
    case Guarded => c.size + 2
    case Waiting => 0
    case Reading(_, words) => c.size - |words|
  }

  lemma TurnAdvances(c: Config, s: State)
    requires Orderly(c, s) && |s.got| < |s.sent|
    ensures Enabled(c, s, Turn(c, s)) && Apply(c, s, Turn(c, s)).sent == s.sent
    ensures
      var s' := Apply(c, s, Turn(c, s));
      |s'.got| > |s.got| || (s'.got == s.got && 0 <= Rank(c, s'.consumer) < Rank(c, s.consumer))
  {
  }

  /** From every orderly state, so from every reachable one, everything sent so far is read by
      letting only the consumer run. */
  lemma {:induction false} CatchesUp(c: Config, s: State) returns (steps: seq<Step>, s': State)
    requires Orderly(c, s)
    ensures Run(c, s, steps, s') && (forall k :: 0 <= k < |steps| ==> OfConsumer(steps[k]))
    ensures s'.sent == s.sent && |s'.got| == |s.sent|
    decreases |s.sent| - |s.got|, Rank(c, s.consumer)
  {
    if |s.got| == |s.sent| { return [], s; }
    var step := Turn(c, s);
    TurnAdvances(c, s);
    StepKeepsOrder(c, s, step);
    var rest;
    rest, s' := CatchesUp(c, Apply(c, s, step));
    steps := [step] + rest;
    assert steps[1..] == rest;
  }

  // ---------- how many messages are ever made ----------

  function Elements(ms: seq<Buffer>): set<Buffer> { set m | m in ms }

  lemma {:induction false} FewElements(ms: seq<Buffer>)
    ensures |Elements(ms)| <= |ms|
  {
    if ms != [] {
      FewElements(ms[1..]);
      assert Elements(ms) == {ms[0]} + Elements(ms[1..]);
    }
  }

  function InHands(s: State, ts: set<Thread>): set<Buffer> {
    set t | t in ts && t in s.producers && s.producers[t].Filling? :: s.producers[t].b
  }

  lemma {:induction false} FewInHands(s: State, ts: set<Thread>)
    ensures |InHands(s, ts)| <= |ts|
    decreases |ts|
  {
    if t :| t in ts {
      FewInHands(s, ts - {t});
      var here := if t in s.producers && s.producers[t].Filling? then {s.producers[t].b} else {};
      assert InHands(s, ts) == InHands(s, ts - {t}) + here;
    } else {
      assert InHands(s, ts) == {};
    }
  }

  function Below(n: nat): (bs: set<Buffer>)
    ensures |bs| == n && forall b: Buffer :: b in bs <==> b < n
  {
    if n == 0 then {} else Below(n - 1) + {n - 1}
  }

  /** With the pool empty and t between messages, each message made is pending, abandoned,
      being read or in another producer's hands. */
  lemma AllAccountedFor(s: State, t: Thread)
    requires OnePlace(s) && !Pooled(s.q) && t in s.producers && s.producers[t].Called?
    ensures s.made < |s.q.pending| + |s.producers| + 1 + |s.abandoned|
  {
    var reader := if s.consumer.Reading? then {s.consumer.b} else {};
    var others := s.producers.Keys - {t};
    var all := Elements(s.q.pending) + InHands(s, others) + reader + Elements(s.abandoned);
    forall b | b in Below(s.made) ensures b in all {
      assert Placed(s, b);
      var p :| At(s, b, p);
    }
    Contained(Below(s.made), all);
    FewElements(s.q.pending);
    FewElements(s.abandoned);
    FewInHands(s, others);
  }

  lemma {:induction false} Contained(a: set<Buffer>, b: set<Buffer>)
    requires a <= b
    ensures |a| <= |b|
    decreases |a|
  {
    if x :| x in a {
      Contained(a - {x}, b - {x});
    }
  }

  predicate FewMade(s: State) { s.made <= s.q.depth + |s.producers| + 1 + |s.abandoned| }

  lemma StepKeepsFew(c: Config, s: State, step: Step)
    requires OnePlace(s) && Orderly(c, s) && FewMade(s) && Enabled(c, s, step)
    ensures FewMade(Apply(c, s, step)) && Apply(c, s, step).producers.Keys == s.producers.Keys
  {
    assert Apply(c, s, step).producers.Keys == s.producers.Keys;
    if step.Allocate? && !Pooled(s.q) { AllAccountedFor(s, step.t); }
  }

  lemma {:induction false} RunKeepsFew(c: Config, s: State, steps: seq<Step>, s': State)
    requires OnePlace(s) && Orderly(c, s) && FewMade(s) && Run(c, s, steps, s')
    ensures FewMade(s')
    decreases |steps|
  {
    if steps != [] {
      StepKeepsPlaces(c, s, steps[0]);
      StepKeepsOrder(c, s, steps[0]);
      StepKeepsFew(c, s, steps[0]);
      RunKeepsFew(c, Apply(c, s, steps[0]), steps[1..], s');
    }
  }

  /** Recycling works: however long the run, the messages ever created are at most one for
      each place in the list, each producer, the consumer and each refused Send. */
  lemma MessagesRecycled(c: Config, s: State)
    requires Reachable(c, s)
    ensures s.made <= s.q.depth + |s.producers| + 1 + |s.abandoned|
  {
    var s0, steps :| Init(s0) && Run(c, s0, steps, s);
    RunKeepsFew(c, s0, steps, s);
  }
}
