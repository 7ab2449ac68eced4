/** The LED server against the requests made of it: start, stop, setPeriod and shutdown as
    the callers made them, not the words they travel in. */
module LedTrace {
  import opened Wrappers
  import opened QueueProtocol
  import opened LedServer

  // the request each thread last put into a message
  type Requests = map<Thread, Request>

  /** setPeriod refuses a zero before it writes anything. */
  predicate Refused(r: Request) { r.SetPeriod? && (r.on == 0 || r.off == 0) }

  function Asked(asked: Requests, step: LedStep): Requests {
    if step.Ask? && !Refused(step.r) then asked[step.t := step.r] else asked
  }

  function AcceptedBy(s: Led, step: LedStep, asked: Requests): seq<Request> {
    if step.Act? && step.step.Send? && step.step.t in asked && |s.queue.q.pending| < 10
    then [asked[step.step.t]] else []
  }

  /** The requests that found room in the queue, in that order. */
  ghost function AcceptedRequests(s: Led, steps: seq<LedStep>, s': Led, asked: Requests): seq<Request>
    requires LedRun(s, steps, s')
    decreases |steps|
  {
    if steps == [] then [] else
      var rest := AcceptedRequests(Next(s, steps[0]), steps[1..], s', Asked(asked, steps[0]));
      AcceptedBy(s, steps[0], asked) + rest
  }

  /** p is a message for r. */
  ghost predicate Says(p: Payload, r: Request) { exists unset :: Message(r, unset) == Some(p) }

  ghost predicate Saying(s: Led, asked: Requests) {
    forall t :: t in s.queue.producers && !s.queue.producers[t].Idle? ==>
      t in asked && Says(s.queue.producers[t].p, asked[t])
  }

  ghost predicate AllSay(ps: seq<Payload>, rs: seq<Request>) {
    |ps| == |rs| && forall k :: 0 <= k < |ps| ==> Says(ps[k], rs[k])
  }

  lemma AskSays(s: Led, t: Thread, r: Request, unset: (Word, Word), asked: Requests)
    requires Ready(s, Ask(t, r, unset)) && Saying(s, asked)
    ensures Saying(AskStep(s, t, r, unset), Asked(asked, Ask(t, r, unset)))
    ensures AskStep(s, t, r, unset).queue.sent == s.queue.sent
  {
    var m := Message(r, unset);
    assert m.Some? <==> !Refused(r);
    if m.Some? { assert Says(m.value, r); }
  }

  lemma ActSays(s: Led, q: Step, asked: Requests)
    requires Ready(s, Act(q)) && Saying(s, asked) && s.queue.q.depth == DEPTH
    ensures
      var s', rs := QueueStep(s, q), AcceptedBy(s, Act(q), asked);
      && Saying(s', asked) && s'.queue.q.depth == DEPTH
      && s.queue.sent <= s'.queue.sent && AllSay(s'.queue.sent[|s.queue.sent|..], rs)
  {
  }

  lemma StepSays(s: Led, step: LedStep, asked: Requests)
    requires Ready(s, step) && Saying(s, asked) && s.queue.q.depth == DEPTH
    ensures
      var s' := Next(s, step);
      && Saying(s', Asked(asked, step)) && s'.queue.q.depth == DEPTH
      && s.queue.sent <= s'.queue.sent && AllSay(s'.queue.sent[|s.queue.sent|..], AcceptedBy(s, step, asked))
  {
    match step
    case Ask(t, r, unset) => AskSays(s, t, r, unset, asked);
    case Act(q) => ActSays(s, q, asked);
    case Pause =>
  }

  lemma SayMore(a: seq<Payload>, b: seq<Payload>, c: seq<Payload>, rs: seq<Request>, qs: seq<Request>)
    requires a <= b <= c && AllSay(b[|a|..], rs) && AllSay(c[|b|..], qs)
    ensures a <= c && AllSay(c[|a|..], rs + qs)
  {
    assert c[|a|..] == b[|a|..] + c[|b|..];
  }

  lemma {:induction false} RunSays(s: Led, steps: seq<LedStep>, s': Led, asked: Requests)
    requires LedRun(s, steps, s') && Saying(s, asked) && s.queue.q.depth == DEPTH
    ensures s.queue.sent <= s'.queue.sent
    ensures AllSay(s'.queue.sent[|s.queue.sent|..], AcceptedRequests(s, steps, s', asked))
    decreases |steps|
  {
    if steps != [] {
      var next, asked' := Next(s, steps[0]), Asked(asked, steps[0]);
      StepSays(s, steps[0], asked);
      RunSays(next, steps[1..], s', asked');
      SayMore(s.queue.sent, next.queue.sent, s'.queue.sent, AcceptedBy(s, steps[0], asked),
              AcceptedRequests(next, steps[1..], s', asked'));
    }
  }

  // ---------- what requests ask for ----------

  /** A start, and no stop after it. */
  ghost predicate Started(rs: seq<Request>) {
    exists i :: 0 <= i < |rs| && rs[i].Start? && forall j :: i < j < |rs| ==> !rs[j].Stop?
  }

  ghost predicate ShutDown(rs: seq<Request>) { exists i :: 0 <= i < |rs| && rs[i].Shutdown? }

  /** on and off are the arguments of the last setPeriod. */
  ghost predicate LastPeriods(rs: seq<Request>, on: Word, off: Word) {
    exists i :: 0 <= i < |rs| && rs[i] == SetPeriod(on, off) && forall j :: i < j < |rs| ==> !rs[j].SetPeriod?
  }

  ghost predicate NoPeriods(rs: seq<Request>) { forall i :: 0 <= i < |rs| ==> !rs[i].SetPeriod? }

  ghost predicate AsAsked(sv: Server, rs: seq<Request>) {
    && (sv.active <==> Started(rs))
    && (sv.running <==> !ShutDown(rs))
    && (if NoPeriods(rs) then sv.onPeriod == sv.offPeriod == 0
        else LastPeriods(rs, sv.onPeriod, sv.offPeriod) && sv.onPeriod != 0 && sv.offPeriod != 0)
  }

  lemma OneMoreRequest(sv: Server, rs: seq<Request>, p: Payload, r: Request)
    requires AsAsked(sv, rs) && Says(p, r)
    ensures AsAsked(Obey(sv, p), rs + [r])
  {
    OneMoreActive(sv, rs, p, r);
    OneMoreRate(sv, rs, p, r);
    var all := rs + [r];
    assert all[|rs|] == r;
    assert forall i :: 0 <= i < |rs| ==> all[i] == rs[i];
    assert ShutDown(all) <==> ShutDown(rs) || r.Shutdown?;
  }

  lemma OneMoreActive(sv: Server, rs: seq<Request>, p: Payload, r: Request)
    requires (sv.active <==> Started(rs)) && Says(p, r)
    ensures Obey(sv, p).active <==> Started(rs + [r])
  {
    var all := rs + [r];
    assert all[|rs|] == r && forall i :: 0 <= i < |rs| ==> all[i] == rs[i];
    if Started(rs) && !r.Stop? {
      var i :| 0 <= i < |rs| && rs[i].Start? && forall j :: i < j < |rs| ==> !rs[j].Stop?;
      assert all[i].Start?;
    }
    if Started(all) && !r.Start? {
      var i :| 0 <= i < |all| && all[i].Start? && forall j :: i < j < |all| ==> !all[j].Stop?;
      assert rs[i].Start?;
    }
  }

  lemma OneMoreRate(sv: Server, rs: seq<Request>, p: Payload, r: Request)
    requires Says(p, r)
    requires if NoPeriods(rs) then sv.onPeriod == sv.offPeriod == 0
             else LastPeriods(rs, sv.onPeriod, sv.offPeriod) && sv.onPeriod != 0 && sv.offPeriod != 0
    ensures
      var sv', all := Obey(sv, p), rs + [r];
      if NoPeriods(all) then sv'.onPeriod == sv'.offPeriod == 0
      else LastPeriods(all, sv'.onPeriod, sv'.offPeriod) && sv'.onPeriod != 0 && sv'.offPeriod != 0
  {
    var all := rs + [r];
    assert all[|rs|] == r && forall i :: 0 <= i < |rs| ==> all[i] == rs[i];
    if !r.SetPeriod? && !NoPeriods(rs) {
      var i :| 0 <= i < |rs| && rs[i] == SetPeriod(sv.onPeriod, sv.offPeriod)
               && forall j :: i < j < |rs| ==> !rs[j].SetPeriod?;
      assert all[i] == SetPeriod(sv.onPeriod, sv.offPeriod);
    }
  }

  lemma {:induction false} ObeyedAsAsked(ps: seq<Payload>, rs: seq<Request>)
    requires AllSay(ps, rs)
    ensures AsAsked(Obeyed(ps), rs)
    decreases |ps|
  {
    if ps != [] {
      var n := |ps| - 1;
      ObeyedAsAsked(ps[..n], rs[..n]);
      OneMoreRequest(Obeyed(ps[..n]), rs[..n], ps[n], rs[n]);
      assert rs == rs[..n] + [rs[n]];
    }
  }

  // ---------- over every run ----------

  /** The server is as the requests ask whose messages it has read, the first ones accepted:
      active after a start and no stop since, with the periods of the last setPeriod. */
  lemma ServerAsAsked(s0: Led, steps: seq<LedStep>, s: Led)
    requires Begins(s0) && LedRun(s0, steps, s)
    ensures
      var rs := AcceptedRequests(s0, steps, s, map[]);
      && |s.queue.got| <= |rs| == |s.queue.sent| && AllSay(s.queue.sent, rs)
      && AsAsked(s.server, rs[..|s.queue.got|])
  {
    RunSays(s0, steps, s, map[]);
    LedReachableInv(s);
    var rs, n := AcceptedRequests(s0, steps, s, map[]), |s.queue.got|;
    assert s.queue.sent[0..] == s.queue.sent;
    assert AllSay(s.queue.got, rs[..n]);
    ObeyedAsAsked(s.queue.got, rs[..n]);
  }

  /** The period a light should have: the matching argument of the last setPeriod, or half a
      second before any. */
  ghost predicate RightPeriod(rs: seq<Request>, on: bool, period: Word) {
    if NoPeriods(rs) then period == 500
    else exists a: Word, b: Word :: LastPeriods(rs, a, b) && period == if on then a else b
  }

  /** Each light was given to a server started by then, is on and off in turn, and lasts as
      the requests obeyed by then ask. */
  lemma LightAsAsked(s0: Led, steps: seq<LedStep>, s: Led, k: nat)
    requires Begins(s0) && LedRun(s0, steps, s) && k < |s.lights|
    ensures
      var l, rs := s.lights[k], AcceptedRequests(s0, steps, s, map[]);
      && l.obeyed <= |rs| && Started(rs[..l.obeyed]) && !ShutDown(rs[..l.obeyed])
      && (l.on <==> k % 2 == 0) && RightPeriod(rs[..l.obeyed], l.on, l.period)
  {
    ServerAsAsked(s0, steps, s);
    LedReachableInv(s);
    var l, rs := s.lights[k], AcceptedRequests(s0, steps, s, map[]);
    var n := l.obeyed;
    assert LightRight(s.queue.got, l, k);
    assert s.queue.got[..n] == s.queue.sent[..n];
    assert AllSay(s.queue.got[..n], rs[..n]);
    ObeyedAsAsked(s.queue.got[..n], rs[..n]);
  }

  // ---------- every turn of the loop pauses, and an active one lights ----------

  /** A turn's first half ends when a command has been obeyed or there was none. */
  predicate EndsHalf(s: Led, step: LedStep) {
    step.Act? && (step.step.Deallocate? || (step.step.Check? && |s.queue.q.pending| == 0))
  }

  ghost function Halves(s: Led, steps: seq<LedStep>, s': Led): nat
    requires LedRun(s, steps, s')
    decreases |steps|
  {
    if steps == [] then 0 else
      var rest := Halves(Next(s, steps[0]), steps[1..], s');
      if EndsHalf(s, steps[0]) then rest + 1 else rest
  }

  ghost function Pauses(s: Led, steps: seq<LedStep>, s': Led, active: bool): nat
    requires LedRun(s, steps, s')
    decreases |steps|
  {
    if steps == [] then 0 else
      var rest := Pauses(Next(s, steps[0]), steps[1..], s', active);
      if steps[0].Pause? && (active ==> s.server.active) then rest + 1 else rest
  }

  /** Every turn that ended its first half has paused, but for one now pausing; and there is
      one light for each pause of an active server. */
  lemma {:induction false} TurnsPauseAndLight(s: Led, steps: seq<LedStep>, s': Led)
    requires LedRun(s, steps, s')
    ensures Halves(s, steps, s') + (if s.pausing then 1 else 0)
         == Pauses(s, steps, s', false) + if s'.pausing then 1 else 0
    ensures |s'.lights| == |s.lights| + Pauses(s, steps, s', true)
    decreases |steps|
  {
    if steps != [] { TurnsPauseAndLight(Next(s, steps[0]), steps[1..], s'); }
  }
}
