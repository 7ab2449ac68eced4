/** The one-slot buffer against the calls made on it: the arguments of buffer_put and the
    values buffer_get returned, read off the run and not off the buffer's own records. */
module OneSlotTrace {
  import opened OneSlotBuffer

  // ---------- what was put ----------

  /** The arguments of the calls of buffer_put, in the order in which they got the mutex. */
  function Arguments(steps: seq<Step>): seq<int> {
    if steps == [] then [] else ArgumentOf(steps[0]) + Arguments(steps[1..])
  }

  function ArgumentOf(step: Step): seq<int> { if step.PutLock? then [step.value] else [] }

  /** The argument that the putter inside has still to store. */
  function ToStore(s: State): seq<int> {
    match s.mutex
    case Held(Putter(t)) =>
      if t in s.putters && s.putters[t].Entered? then [s.putters[t].value]
      else if t in s.putters && s.putters[t].Looked? then [s.putters[t].value]
      else []
    case _ => []
  }

  lemma StepPuts(s: State, step: Step)
    requires Exclusive(s) && Enabled(s, step)
    ensures Apply(s, step).puts + ToStore(Apply(s, step)) == (s.puts + ToStore(s)) + ArgumentOf(step)
  {
    assert Inside(s, Mover(step)) <==> s.mutex == Held(Mover(step));
  }

  lemma {:induction false} RunPuts(s: State, steps: seq<Step>, s': State)
    requires Exclusive(s) && Run(s, steps, s')
    ensures s'.puts + ToStore(s') == (s.puts + ToStore(s)) + Arguments(steps)
    decreases |steps|
  {
    if steps != [] {
      var next := Apply(s, steps[0]);
      StepPuts(s, steps[0]);
      StepKeepsExclusive(s, steps[0]);
      RunPuts(next, steps[1..], s');
      JoinPuts(s.puts + ToStore(s), ArgumentOf(steps[0]), next.puts + ToStore(next),
               Arguments(steps[1..]), s'.puts + ToStore(s'));
    }
  }

  lemma JoinPuts(before: seq<int>, first: seq<int>, mid: seq<int>, rest: seq<int>, after: seq<int>)
    requires mid == before + first && after == mid + rest
    ensures after == before + (first + rest)
  {
  }

  /** Over every run: the values stored, with the one still to be stored, are the arguments of
      buffer_put. */
  lemma PutsWereCalled(s0: State, steps: seq<Step>, s: State)
    requires Init(s0) && Run(s0, steps, s)
    ensures Arguments(steps) == s.puts + ToStore(s)
  {
    RunPuts(s0, steps, s);
  }

  // ---------- what was got ----------

  /** The values that calls of buffer_get have returned, in order. */
  ghost function Returned(s: State, steps: seq<Step>, s': State): seq<int>
    requires Run(s, steps, s')
    decreases |steps|
  {
    if steps == [] then [] else
      var rest := Returned(Apply(s, steps[0]), steps[1..], s');
      ReturnOf(s, steps[0]) + rest
  }

  function ReturnOf(s: State, step: Step): seq<int>
    requires Enabled(s, step)
  {
    if step.GetUnlock? then [s.getters[step.t].value] else []
  }

  /** The value that the getter inside is about to return. */
  function ToReturn(s: State): seq<int> {
    match s.mutex
    case Held(Getter(t)) => if t in s.getters && s.getters[t].Leaving? then [s.getters[t].value] else []
    case _ => []
  }

  lemma StepGets(s: State, step: Step)
    requires Exclusive(s) && Informed(s) && Enabled(s, step)
    ensures
      var next := Apply(s, step);
      s.taken <= next.taken && ReturnOf(s, step) + ToReturn(next) == ToReturn(s) + next.taken[|s.taken|..]
  {
    assert Inside(s, Mover(step)) <==> s.mutex == Held(Mover(step));
    if Inside(s, Mover(step)) { assert Knows(s, Mover(step)); }
  }

  lemma {:induction false} RunGets(s: State, steps: seq<Step>, s': State)
    requires Exclusive(s) && Informed(s) && Run(s, steps, s')
    ensures s.taken <= s'.taken && Returned(s, steps, s') + ToReturn(s') == ToReturn(s) + s'.taken[|s.taken|..]
    decreases |steps|
  {
    if steps != [] {
      var next := Apply(s, steps[0]);
      StepGets(s, steps[0]);
      StepKeepsExclusive(s, steps[0]);
      StepKeepsInformed(s, steps[0]);
      RunGets(next, steps[1..], s');
      JoinTaken(s.taken, next.taken, s'.taken);
      JoinGets(ReturnOf(s, steps[0]), Returned(next, steps[1..], s'), ToReturn(s), ToReturn(next), ToReturn(s'),
               next.taken[|s.taken|..], s'.taken[|next.taken|..]);
    }
  }

  lemma JoinTaken(a: seq<int>, b: seq<int>, c: seq<int>)
    requires a <= b <= c
    ensures a <= c && c[|a|..] == b[|a|..] + c[|b|..]
  {
  }

  lemma JoinGets(out: seq<int>, rest: seq<int>, a: seq<int>, b: seq<int>, c: seq<int>, first: seq<int>, later: seq<int>)
    requires out + b == a + first && rest + c == b + later
    ensures (out + rest) + c == a + (first + later)
  {
    assert (out + rest) + c == out + (rest + c) == (out + b) + later;
  }

  /** Over every run: the values returned by buffer_get, with the one about to be, sit at
      increasing places among the arguments of buffer_put: in order, and none twice. None
      is -1, whatever was put. */
  lemma GotWerePut(s0: State, steps: seq<Step>, s: State) returns (at: seq<nat>)
    requires Init(s0) && Run(s0, steps, s)
    ensures
      var got := Returned(s0, steps, s) + ToReturn(s);
      Chosen(at, got, Arguments(steps)) && -1 !in got
  {
    ReachableInv(s);
    PutsWereCalled(s0, steps, s);
    RunGets(s0, steps, s);
    assert s.taken[0..] == s.taken;
    at := TakenWerePut(s);
  }

  /** Every argument was got, overwritten, was -1 itself, is in the slot or still to be
      stored; the slot is full when it does not hold -1. */
  lemma CallsBalance(s0: State, steps: seq<Step>, s: State)
    requires Init(s0) && Run(s0, steps, s)
    ensures |Arguments(steps)| == |Returned(s0, steps, s) + ToReturn(s)| + s.overwritten + Blanks(s.puts)
                                  + (if s.buffer_value == -1 then 0 else 1) + |ToStore(s)|
  {
    ReachableInv(s);
    RunPuts(s0, steps, s);
    RunGets(s0, steps, s);
    assert s.taken[0..] == s.taken;
  }

  // ---------- a getter leaves only with a value ----------

  ghost function Entries(s: State, steps: seq<Step>, s': State, t: nat): nat
    requires Run(s, steps, s')
    decreases |steps|
  {
    if steps == [] then 0 else
      var rest := Entries(Apply(s, steps[0]), steps[1..], s', t);
      if steps[0] == GetLock(t) && s.getters[t].Outside? then rest + 1 else rest
  }

  function Returns(steps: seq<Step>, t: nat): nat {
    if steps == [] then 0 else Returns(steps[1..], t) + if steps[0] == GetUnlock(t) then 1 else 0
  }

  function InCall(s: State, t: nat): nat { if t in s.getters && !s.getters[t].Outside? then 1 else 0 }

  /** A call of buffer_get that was entered either has returned a value or goes on. */
  lemma {:induction false} CallsReturn(s: State, steps: seq<Step>, s': State, t: nat)
    requires Run(s, steps, s')
    ensures InCall(s, t) + Entries(s, steps, s', t) == Returns(steps, t) + InCall(s', t)
    decreases |steps|
  {
    if steps != [] { CallsReturn(Apply(s, steps[0]), steps[1..], s', t); }
  }

  // ---------- a put always ends ----------

  predicate OfPutter(step: Step, t: nat) {
    (step.PutLock? || step.Look? || step.Store? || step.Signal? || step.PutUnlock?) && step.t == t
  }

  lemma Before(s: State, step: Step, steps: seq<Step>, s': State)
    requires Enabled(s, step) && Run(Apply(s, step), steps, s')
    ensures Run(s, [step] + steps, s') && Arguments([step] + steps) == ArgumentOf(step) + Arguments(steps)
  {
    assert ([step] + steps)[1..] == steps;
  }

  /** With the mutex free, a call of buffer_put runs to its end alone, and leaves its value
      in the slot. */
  lemma PutEnds(s: State, t: nat, value: int) returns (steps: seq<Step>, s': State)
    requires t in s.putters && s.putters[t].Away? && s.mutex.Nobody?
    ensures Run(s, steps, s') && forall k :: 0 <= k < |steps| ==> OfPutter(steps[k], t)
    ensures Arguments(steps) == [value] && s'.buffer_value == value && s'.puts == s.puts + [value]
    ensures s'.mutex.Nobody? && t in s'.putters && s'.putters[t].Away?
  {
    var locked := Apply(s, PutLock(t, value));
    var looked := Apply(locked, Look(t));
    var stored := Apply(looked, Store(t));
    var signal := Signal(t, if s.buffer_value == EMPTY then Sleepers(stored) else {});
    var signalled := Apply(stored, signal);
    s' := Apply(signalled, PutUnlock(t));
    Before(signalled, PutUnlock(t), [], s');
    Before(stored, signal, [PutUnlock(t)] + [], s');
    Before(looked, Store(t), [signal] + ([PutUnlock(t)] + []), s');
    Before(locked, Look(t), [Store(t)] + ([signal] + ([PutUnlock(t)] + [])), s');
    steps := [PutLock(t, value)] + ([Look(t)] + ([Store(t)] + ([signal] + ([PutUnlock(t)] + []))));
    Before(s, PutLock(t, value), [Look(t)] + ([Store(t)] + ([signal] + ([PutUnlock(t)] + []))), s');
  }
}
