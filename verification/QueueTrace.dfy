/** The queue against the calls made on it: what was sent and read, measured not by the
    queue's own records but by the arguments of Write in the run that led there. */
module QueueTrace {
  import opened MessageQueue
  import opened QueueProtocol

  /** How one call of Write ended. */
  datatype Outcome = Outcome(t: Thread, p: Payload, accepted: bool)

  // the argument each thread last called Write with
  type Calls = map<Thread, Payload>

  function Noted(calls: Calls, step: Step): Calls {
    if step.Call? then calls[step.t := step.p] else calls
  }

  function OutcomeOf(s: State, step: Step, calls: Calls): seq<Outcome> {
    if step.Send? && step.t in calls then [Outcome(step.t, calls[step.t], |s.q.pending| < s.q.depth)] else []
  }

  /** One outcome for each Send of the run, with the argument of the thread's last call. */
  ghost function Outcomes(c: Config, s: State, steps: seq<Step>, s': State, calls: Calls): seq<Outcome>
    requires Run(c, s, steps, s')
    decreases |steps|
  {
    if steps == [] then [] else
      var rest := Outcomes(c, Apply(c, s, steps[0]), steps[1..], s', Noted(calls, steps[0]));
      OutcomeOf(s, steps[0], calls) + rest
  }

  function Accepted(os: seq<Outcome>): seq<Payload> {
    if os == [] then [] else (if os[0].accepted then [os[0].p] else []) + Accepted(os[1..])
  }

  function CallsBy(steps: seq<Step>, t: Thread): seq<Payload> {
    if steps == [] then []
    else (if steps[0].Call? && steps[0].t == t then [steps[0].p] else []) + CallsBy(steps[1..], t)
  }

  function EndedBy(os: seq<Outcome>, t: Thread): seq<Payload> {
    if os == [] then [] else (if os[0].t == t then [os[0].p] else []) + EndedBy(os[1..], t)
  }

  function InHand(s: State, t: Thread): seq<Payload> {
    if t in s.producers && !s.producers[t].Idle? then [s.producers[t].p] else []
  }

  /** A thread in Write works on the argument of its call. */
  ghost predicate Tied(s: State, calls: Calls) {
    forall t :: t in s.producers && !s.producers[t].Idle? ==> t in calls && calls[t] == s.producers[t].p
  }

  lemma StepKeepsTied(c: Config, s: State, step: Step, calls: Calls)
    requires Enabled(c, s, step) && Tied(s, calls)
    ensures Tied(Apply(c, s, step), Noted(calls, step))
  {
  }

  lemma StepOutcome(c: Config, s: State, step: Step, calls: Calls, t: Thread)
    requires Enabled(c, s, step) && Tied(s, calls)
    ensures
      var s', os := Apply(c, s, step), OutcomeOf(s, step, calls);
      && |os| <= 1
      && s'.sent == s.sent + Accepted(os)
      && |s'.abandoned| == |s.abandoned| + |os| - |Accepted(os)|
      && InHand(s, t) + (if step.Call? && step.t == t then [step.p] else []) == EndedBy(os, t) + InHand(s', t)
  {
    var os := OutcomeOf(s, step, calls);
    if os != [] { assert os[1..] == []; }
  }

  lemma {:induction false} AcceptedAppend(a: seq<Outcome>, b: seq<Outcome>)
    ensures Accepted(a + b) == Accepted(a) + Accepted(b)
    decreases |a|
  {
    if a == [] {
      assert a + b == b;
    } else {
      assert (a + b)[0] == a[0] && (a + b)[1..] == a[1..] + b;
      AcceptedAppend(a[1..], b);
    }
  }

  lemma {:induction false} EndedAppend(a: seq<Outcome>, b: seq<Outcome>, t: Thread)
    ensures EndedBy(a + b, t) == EndedBy(a, t) + EndedBy(b, t)
    decreases |a|
  {
    if a == [] {
      assert a + b == b;
    } else {
      assert (a + b)[0] == a[0] && (a + b)[1..] == a[1..] + b;
      EndedAppend(a[1..], b, t);
    }
  }

  /** From any state whose threads work on their calls' arguments. */
  lemma {:induction false} RunAccepted(c: Config, s: State, steps: seq<Step>, s': State, calls: Calls)
    requires Run(c, s, steps, s') && Tied(s, calls)
    ensures
      var os := Outcomes(c, s, steps, s', calls);
      s'.sent == s.sent + Accepted(os) && |s'.abandoned| == |s.abandoned| + |os| - |Accepted(os)|
    decreases |steps|
  {
    if steps != [] {
      var next, calls' := Apply(c, s, steps[0]), Noted(calls, steps[0]);
      StepKeepsTied(c, s, steps[0], calls);
      StepOutcome(c, s, steps[0], calls, 0);
      RunAccepted(c, next, steps[1..], s', calls');
      Joined(s.sent, next.sent, s'.sent, OutcomeOf(s, steps[0], calls), Outcomes(c, next, steps[1..], s', calls'));
    }
  }

  lemma Joined(sent: seq<Payload>, mid: seq<Payload>, last: seq<Payload>, first: seq<Outcome>, rest: seq<Outcome>)
    requires mid == sent + Accepted(first) && last == mid + Accepted(rest)
    ensures last == sent + Accepted(first + rest)
    ensures |Accepted(first + rest)| == |Accepted(first)| + |Accepted(rest)|
  {
    AcceptedAppend(first, rest);
    assert last == sent + (Accepted(first) + Accepted(rest));
  }

  lemma {:induction false} RunByThread(c: Config, s: State, steps: seq<Step>, s': State, calls: Calls, t: Thread)
    requires Run(c, s, steps, s') && Tied(s, calls)
    ensures InHand(s, t) + CallsBy(steps, t) == EndedBy(Outcomes(c, s, steps, s', calls), t) + InHand(s', t)
    decreases |steps|
  {
    if steps != [] {
      var next, first := Apply(c, s, steps[0]), OutcomeOf(s, steps[0], calls);
      var rest := Outcomes(c, next, steps[1..], s', Noted(calls, steps[0]));
      StepKeepsTied(c, s, steps[0], calls);
      StepOutcome(c, s, steps[0], calls, t);
      RunByThread(c, next, steps[1..], s', Noted(calls, steps[0]), t);
      EndedAppend(first, rest, t);
      Chain(InHand(s, t), if steps[0].Call? && steps[0].t == t then [steps[0].p] else [], InHand(next, t),
            EndedBy(first, t), CallsBy(steps[1..], t), EndedBy(rest, t), InHand(s', t));
    }
  }

  lemma Chain(hand: seq<Payload>, call: seq<Payload>, mid: seq<Payload>, ended: seq<Payload>,
              calls: seq<Payload>, rest: seq<Payload>, last: seq<Payload>)
    requires hand + call == ended + mid && mid + calls == rest + last
    ensures hand + (call + calls) == (ended + rest) + last
  {
    assert hand + (call + calls) == (hand + call) + calls == ended + (mid + calls) == ended + (rest + last);
  }

  /** Over every run: what each thread called Write with is, in order, what its Sends ended
      with and what it has in hand; the payloads sent are the arguments of the calls whose
      Send found room, in the order of those Sends, the others were refused. */
  lemma SentWereCalled(c: Config, s0: State, steps: seq<Step>, s: State)
    requires Init(s0) && Run(c, s0, steps, s)
    ensures
      var os := Outcomes(c, s0, steps, s, map[]);
      && s.sent == Accepted(os) && |s.abandoned| == |os| - |s.sent|
      && forall t :: CallsBy(steps, t) == EndedBy(os, t) + InHand(s, t)
  {
    RunAccepted(c, s0, steps, s, map[]);
    forall t ensures CallsBy(steps, t) == EndedBy(Outcomes(c, s0, steps, s, map[]), t) + InHand(s, t) {
      RunByThread(c, s0, steps, s, map[], t);
    }
  }

  /** n is what hton_f writes for p. */
  ghost predicate Carries(c: Config, p: Payload, n: Payload) {
    |n| == c.size && forall i :: 0 <= i < c.size ==> n[i] == c.hton(p, i)
  }

  /** What Read gives for p: ntoh_f of the words that hton_f wrote. */
  ghost predicate Converted(c: Config, p: Payload, r: Payload) {
    exists n: Payload :: Carries(c, p, n) && r == c.ntoh(n)
  }

  ghost predicate Inverse(c: Config) {
    forall p: Payload, n: Payload :: |p| == c.size && Carries(c, p, n) ==> c.ntoh(n) == p
  }

  lemma InverseUndoes(c: Config)
    requires Inverse(c)
    ensures Undoes(c)
  {
    forall p: Payload | |p| == c.size ensures Through(c, p) == p {
      assert Carries(c, p, Network(c, p));
    }
  }

  /** So what Read returned is, in order, the first arguments accepted, each converted forth
      and back; with converters that are inverse, those arguments themselves. */
  lemma ReadWereCalled(c: Config, s0: State, steps: seq<Step>, s: State)
    requires Init(s0) && Run(c, s0, steps, s)
    ensures
      var accepted := Accepted(Outcomes(c, s0, steps, s, map[]));
      && |s.got| <= |accepted| && (forall k :: 0 <= k < |s.got| ==> Converted(c, accepted[k], s.got[k]))
      && (Inverse(c) ==> s.got <= accepted)
  {
    SentWereCalled(c, s0, steps, s);
    ReadInOrder(c, s);
    forall k | 0 <= k < |s.got| ensures Converted(c, s.sent[k], s.got[k]) {
      assert Carries(c, s.sent[k], Network(c, s.sent[k]));
    }
    if Inverse(c) {
      InverseUndoes(c);
      ReadIsPrefix(c, s);
    }
  }

  // ---------- a call of Write always ends ----------

  predicate OfThread(step: Step, t: Thread) {
    (step.Call? || step.Allocate? || step.Fill? || step.Send?) && step.t == t
  }

  /** A thread in Write can finish it without the others, and its payload is accepted exactly
      when there is room. */
  lemma {:induction false} WriteEnds(c: Config, s: State, t: Thread) returns (steps: seq<Step>, s': State)
    requires t in s.producers && !s.producers[t].Idle?
    requires s.producers[t].Filling? ==> s.producers[t].words <= c.size
    ensures Run(c, s, steps, s') && forall k :: 0 <= k < |steps| ==> OfThread(steps[k], t)
    ensures t in s'.producers && s'.producers[t].Idle?
    ensures s'.sent == s.sent + if |s.q.pending| < s.q.depth then [s.producers[t].p] else []
    decreases s.producers[t].Called?, if s.producers[t].Filling? then c.size - s.producers[t].words else 0
  {
    var step :=
      if s.producers[t].Called? then Allocate(t) else if s.producers[t].words < c.size then Fill(t) else Send(t);
    var next := Apply(c, s, step);
    if step.Send? {
      assert Run(c, next, [], next);
      return [step], next;
    }
    var rest;
    rest, s' := WriteEnds(c, next, t);
    steps := [step] + rest;
    assert steps[1..] == rest;
  }
}
