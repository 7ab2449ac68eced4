/** The LED server: start, stop, setPeriod and the destructor as producers of commands,
    ThreadBody as the consumer that obeys them and blinks. */
module LedServer {
  import opened Wrappers
  import opened MessageQueue
  import opened QueueProtocol

  // ---------- commands ----------

  const STOP: Word := 0
  const START: Word := 1
  const SHUTDOWN: Word := 2
  const SET_RATE: Word := 3

  const WORDS := 3
  const DEPTH := 10
  const DEFAULT_PERIOD: Word := 500

  // the server's queue has no converters: memcpy both ways
  const LEDQ := Config(WORDS, (p: Payload, i: nat) => if i < |p| then p[i] else 0, p => p)

  datatype Request = Start | Stop | SetPeriod(on: Word, off: Word) | Shutdown

  /** The message a request is sent as, if any: a period of zero is refused. Only a rate
      sets the last two words; otherwise they are whatever they were. */
  function Message(r: Request, unset: (Word, Word)): Option<Payload> {
    match r
    case Start => Some([START, unset.0, unset.1])
    case Stop => Some([STOP, unset.0, unset.1])
    case SetPeriod(on, off) => if on == 0 || off == 0 then None else Some([SET_RATE, on, off])
    case Shutdown => Some([SHUTDOWN, unset.0, unset.1])
  }

  predicate Command(p: Payload) {
    && |p| == WORDS && p[0] <= SET_RATE
    && (p[0] == SET_RATE ==> p[1] != 0 && p[2] != 0)
  }

  // ---------- the server ----------

  datatype Server = Server(running: bool, active: bool, onPeriod: Word, offPeriod: Word)

  function Obey(sv: Server, p: Payload): Server {
    if |p| != WORDS then sv
    else if p[0] == START then sv.(active := true)
    else if p[0] == STOP then sv.(active := false)
    else if p[0] == SET_RATE then sv.(onPeriod := p[1], offPeriod := p[2])
    else if p[0] == SHUTDOWN then sv.(running := false)
    else sv
  }

  /** The server after a whole sequence of commands: what the protocol is to bring about. */
  function Obeyed(ps: seq<Payload>): Server {
    if ps == [] then Server(true, false, 0, 0)
    else Obey(Obeyed(ps[..|ps| - 1]), ps[|ps| - 1])
  }

  function Period(sv: Server, on: bool): Word {
    var p := if on then sv.onPeriod else sv.offPeriod;
    if p == 0 then DEFAULT_PERIOD else p
  }

  /** One LED_ON or LED_OFF, how long it lasts and how many commands were obeyed before it. */
  datatype Light = Light(on: bool, period: Word, obeyed: nat)

  // ---------- steps ----------

  datatype Led = Led(queue: State, server: Server, pausing: bool, ledCount: Word, lights: seq<Light>)

  datatype LedStep =
    | Ask(t: Thread, r: Request, unset: (Word, Word))
    | Act(step: Step)
    | Pause

  ghost predicate Begins(s: Led) {
    && Init(s.queue) && s.queue.q.depth == DEPTH
    && s.server == Server(true, false, 0, 0) && !s.pausing && s.ledCount == 0 && s.lights == []
  }

  predicate Ready(s: Led, step: LedStep) {
    match step
    case Ask(t, _, _) => t in s.queue.producers && s.queue.producers[t].Idle?
    case Act(q) =>
      && !q.Call? && Enabled(LEDQ, s.queue, q)
      && (OfConsumer(q) ==> s.server.running && !s.pausing)
    case Pause => s.server.running && s.pausing
  }

  function Next(s: Led, step: LedStep): Led
    requires Ready(s, step)
  {
    match step
    case Ask(t, r, unset) => AskStep(s, t, r, unset)
    case Act(q) => QueueStep(s, q)
    case Pause => PauseStep(s)
  }

  function AskStep(s: Led, t: Thread, r: Request, unset: (Word, Word)): Led
    requires Ready(s, Ask(t, r, unset))
  {
    var m := Message(r, unset);
    if m.None? then s else s.(queue := Apply(LEDQ, s.queue, Call(t, m.value)))
  }

  /** When Read returns, its command is obeyed at once; with nothing to read or after a
      command the server pauses. */
  function QueueStep(s: Led, q: Step): Led
    requires Ready(s, Act(q))
  {
    var s' := s.(queue := Apply(LEDQ, s.queue, q));
    if q.Deallocate? then s'.(server := Obey(s.server, LEDQ.ntoh(s.queue.consumer.words)), pausing := true)
    else if q.Check? && !Available(s.queue.q) then s'.(pausing := true)
    else s'
  }

  /** The counter is a 32-bit unsigned integer; it wraps. */
  function PauseStep(s: Led): Led {
    if s.server.active then
      var count: Word := (s.ledCount + 1) % 0x1_0000_0000;
      var on := count % 2 == 1;
      s.(pausing := false, ledCount := count,
         lights := s.lights + [Light(on, Period(s.server, on), |s.queue.got|)])
    else s.(pausing := false)
  }

  ghost predicate LedRun(s: Led, steps: seq<LedStep>, s': Led)
    decreases |steps|
  {
    if steps == [] then s' == s
    else Ready(s, steps[0]) && LedRun(Next(s, steps[0]), steps[1..], s')
  }

  // ---------- what every step keeps ----------

  ghost predicate Commands(ps: seq<Payload>) { forall k :: 0 <= k < |ps| ==> Command(ps[k]) }

  ghost predicate Asking(s: State) {
    forall t :: t in s.producers && !s.producers[t].Idle? ==> Command(s.producers[t].p)
  }

  ghost predicate LightRight(ps: seq<Payload>, l: Light, k: nat) {
    && l.obeyed <= |ps| && Obeyed(ps[..l.obeyed]).running && Obeyed(ps[..l.obeyed]).active
    && l.on == (k % 2 == 0)
    && l.period == Period(Obeyed(ps[..l.obeyed]), l.on)
  }

  ghost predicate LightsRight(s: Led) {
    && s.ledCount == |s.lights| % 0x1_0000_0000
    && forall k :: 0 <= k < |s.lights| ==> LightRight(s.queue.got, s.lights[k], k)
  }

  ghost predicate ObeyedWhileRunning(ps: seq<Payload>) {
    ps != [] ==> Obeyed(ps[..|ps| - 1]).running
  }

  ghost predicate LedInv(s: Led) {
    && Inv(LEDQ, s.queue) && s.queue.q.depth == DEPTH
    && Commands(s.queue.sent) && Asking(s.queue)
    && s.server == Obeyed(s.queue.got) && ObeyedWhileRunning(s.queue.got)
    && LightsRight(s)
  }

  lemma NoConverters()
    ensures Undoes(LEDQ)
  {
  }

  lemma OneMore(ps: seq<Payload>, p: Payload)
    ensures Obeyed(ps + [p]) == Obey(Obeyed(ps), p)
  {
    assert (ps + [p])[..|ps|] == ps;
  }

  lemma StillRight(ps: seq<Payload>, p: Payload, l: Light, k: nat)
    requires LightRight(ps, l, k)
    ensures LightRight(ps + [p], l, k)
  {
    assert (ps + [p])[..l.obeyed] == ps[..l.obeyed];
  }

  lemma Parity(n: nat)
    ensures (n % 0x1_0000_0000 + 1) % 0x1_0000_0000 == (n + 1) % 0x1_0000_0000
    ensures (n + 1) % 0x1_0000_0000 % 2 == 1 <==> n % 2 == 0
  {
  }

  lemma AskKeeps(s: Led, t: Thread, r: Request, unset: (Word, Word))
    requires LedInv(s) && Ready(s, Ask(t, r, unset))
    ensures LedInv(AskStep(s, t, r, unset))
  {
    var m := Message(r, unset);
    if m.Some? {
      assert Command(m.value);
      NoConverters();
      StepKeeps(LEDQ, s.queue, Call(t, m.value));
    }
  }

  /** The queue's own steps add to what was sent only what a producer asked for. */
  lemma CommandsKept(s: State, q: Step)
    requires Commands(s.sent) && Asking(s) && Enabled(LEDQ, s, q) && !q.Call?
    ensures Commands(Apply(LEDQ, s, q).sent) && Asking(Apply(LEDQ, s, q))
  {
  }

  lemma QueueKeeps(s: Led, q: Step)
    requires LedInv(s) && Ready(s, Act(q))
    ensures LedInv(QueueStep(s, q))
  {
    NoConverters();
    StepKeeps(LEDQ, s.queue, q);
    CommandsKept(s.queue, q);
    var s' := QueueStep(s, q);
    if q.Deallocate? {
      var p := LEDQ.ntoh(s.queue.consumer.words);
      OneMore(s.queue.got, p);
      assert s'.queue.got[..|s.queue.got|] == s.queue.got;
      forall k | 0 <= k < |s.lights| ensures LightRight(s'.queue.got, s'.lights[k], k) {
        StillRight(s.queue.got, p, s.lights[k], k);
      }
    }
  }

  lemma PauseKeeps(s: Led)
    requires LedInv(s) && Ready(s, Pause)
    ensures LedInv(PauseStep(s))
  {
    Parity(|s.lights|);
    assert s.queue.got[..|s.queue.got|] == s.queue.got;
  }

  lemma LedStepKeeps(s: Led, step: LedStep)
    requires LedInv(s) && Ready(s, step)
    ensures LedInv(Next(s, step))
  {
    match step
    case Ask(t, r, unset) => AskKeeps(s, t, r, unset);
    case Act(q) => QueueKeeps(s, q);
    case Pause => PauseKeeps(s);
  }

  lemma {:induction false} LedRunKeeps(s: Led, steps: seq<LedStep>, s': Led)
    requires LedInv(s) && LedRun(s, steps, s')
    ensures LedInv(s')
    decreases |steps|
  {
    if steps != [] {
      LedStepKeeps(s, steps[0]);
      LedRunKeeps(Next(s, steps[0]), steps[1..], s');
    }
  }

  // ---------- over every run ----------

  ghost predicate LedReachable(s: Led) {
    exists s0, steps :: Begins(s0) && LedRun(s0, steps, s)
  }

  lemma BeginsInv(s0: Led)
    requires Begins(s0)
    ensures LedInv(s0)
  {
  }

  lemma LedReachableInv(s: Led)
    requires LedReachable(s)
    ensures LedInv(s) && s.queue.got <= s.queue.sent
  {
    var s0, steps :| Begins(s0) && LedRun(s0, steps, s);
    BeginsInv(s0);
    LedRunKeeps(s0, steps, s);
    NoConverters();
    PrefixWhenUndone(LEDQ, s.queue);
  }

  /** However the callers interleave, the server is where obeying the accepted commands in
      the order of acceptance has brought it; nobody waits in Receive. */
  lemma ServerFollowsCommands(s: Led)
    requires LedReachable(s)
    ensures s.queue.got <= s.queue.sent && s.server == Obeyed(s.queue.got)
    ensures |s.queue.q.pending| <= DEPTH && !s.queue.consumer.Waiting?
    ensures !Available(s.queue.q) && !s.queue.consumer.Reading? ==> s.server == Obeyed(s.queue.sent)
  {
    LedReachableInv(s);
    if |s.queue.got| == |s.queue.sent| { assert s.queue.got == s.queue.sent; }
  }

  /** The LED goes on and off in turn, from on, also past the counter's wrap; each light
      belongs to an active server and lasts as the commands obeyed by then say. */
  lemma LightsAlternate(s: Led, k: nat)
    requires LedReachable(s) && k < |s.lights|
    ensures s.lights[k].on <==> k % 2 == 0
    ensures
      var l := s.lights[k];
      && l.obeyed <= |s.queue.sent|
      && Obeyed(s.queue.sent[..l.obeyed]).active
      && l.period == Period(Obeyed(s.queue.sent[..l.obeyed]), l.on)
  {
    LedReachableInv(s);
    var l := s.lights[k];
    assert LightRight(s.queue.got, l, k);
    assert s.queue.got[..l.obeyed] == s.queue.sent[..l.obeyed];
  }

  ghost predicate Has(ps: seq<Payload>, discriminator: Word) {
    exists k :: 0 <= k < |ps| && |ps[k]| == WORDS && ps[k][0] == discriminator
  }

  lemma {:induction false} RateOrDefault(ps: seq<Payload>)
    requires Commands(ps)
    ensures Obeyed(ps).onPeriod == 0 <==> !Has(ps, SET_RATE)
    ensures Obeyed(ps).offPeriod == 0 <==> !Has(ps, SET_RATE)
    ensures Obeyed(ps).running <==> !Has(ps, SHUTDOWN)
    decreases |ps|
  {
    if ps != [] {
      var n := |ps| - 1;
      RateOrDefault(ps[..n]);
      assert Command(ps[n]);
      assert forall d :: Has(ps, d) <==> Has(ps[..n], d) || ps[n][0] == d;
    }
  }

  /** The fallback period stands in exactly until the first rate is obeyed: a zero, which
      ThreadBody would replace too, never gets through setPeriod. */
  lemma FallbackMeansNoRate(s: Led)
    requires LedReachable(s)
    ensures s.server.onPeriod == 0 <==> !Has(s.queue.got, SET_RATE)
    ensures s.server.offPeriod == 0 <==> !Has(s.queue.got, SET_RATE)
    ensures s.server.running <==> !Has(s.queue.got, SHUTDOWN)
  {
    LedReachableInv(s);
    assert Commands(s.queue.got);
    RateOrDefault(s.queue.got);
  }

  /** Nothing is read after a shutdown. */
  lemma ShutdownIsLast(s: Led, k: nat)
    requires LedReachable(s) && k + 1 < |s.queue.got|
    ensures |s.queue.got[k]| == WORDS && s.queue.got[k][0] != SHUTDOWN
  {
    LedReachableInv(s);
    var before := s.queue.got[..|s.queue.got| - 1];
    assert Commands(s.queue.got);
    assert before[k] == s.queue.got[k];
    RateOrDefault(before);
  }

  // ---------- the server alone catches up ----------

  predicate OfServer(step: LedStep) { step.Pause? || (step.Act? && OfConsumer(step.step)) }

  function ServerTurn(s: Led): LedStep { if s.pausing then Pause else Act(QueueProtocol.Turn(LEDQ, s.queue)) }

  lemma ServerTurnAdvances(s: Led)
    requires LedInv(s) && s.server.running && |s.queue.got| < |s.queue.sent|
    ensures
      var step := ServerTurn(s);
      && Ready(s, step) && OfServer(step) && Next(s, step).queue.sent == s.queue.sent
      && (|Next(s, step).queue.got| > |s.queue.got|
          || (Next(s, step).queue.got == s.queue.got && 0 <= ServerRank(Next(s, step)) < ServerRank(s)))
  {
    if !s.pausing { TurnAdvances(LEDQ, s.queue); }
  }

  function ServerRank(s: Led): int { Rank(LEDQ, s.queue.consumer) + if s.pausing then 1 else 0 }

  /** Whatever has been sent, the server alone comes to obey it all, up to a shutdown. */
  lemma {:induction false} ServerCatchesUp(s: Led) returns (steps: seq<LedStep>, s': Led)
    requires LedInv(s)
    ensures LedRun(s, steps, s') && forall k :: 0 <= k < |steps| ==> OfServer(steps[k])
    ensures s'.queue.sent == s.queue.sent
    ensures s'.queue.got == s'.queue.sent || Has(s'.queue.got, SHUTDOWN)
    decreases |s.queue.sent| - |s.queue.got|, ServerRank(s)
  {
    NoConverters();
    PrefixWhenUndone(LEDQ, s.queue);
    assert Commands(s.queue.got);
    RateOrDefault(s.queue.got);
    if |s.queue.got| == |s.queue.sent| || !s.server.running { return [], s; }
    var step := ServerTurn(s);
    ServerTurnAdvances(s);
    LedStepKeeps(s, step);
    var rest;
    rest, s' := ServerCatchesUp(Next(s, step));
    steps := [step] + rest;
    assert steps[1..] == rest;
  }
}
