/** The one-slot buffer of the condition variable example: any number of threads in
    buffer_get and buffer_put, one statement at a time. The mutex admits one thread;
    cnd_signal wakes at least one sleeper if there is any; a sleeper may also wake for no
    reason. */
module OneSlotBuffer {
  const EMPTY := -1

  datatype Getting =
    | Outside
    | Testing
    | Asleep
    | Woken
    | Finding
    | Taking(value: int)
    | Leaving(value: int)

  datatype Putting =
    | Away
    | Entered(value: int)
    | Looked(value: int, old_value: int)
    | Stored(old_value: int)
    | Closing

  datatype Thread = Getter(t: nat) | Putter(t: nat)

  datatype Holder = Nobody | Held(thread: Thread)

  /** puts are the values stored and taken the values removed by buffer_get, in order;
      overwritten counts the values lost to a later put. */
  datatype State = State(
    buffer_value: int,
    mutex: Holder,
    getters: map<nat, Getting>,
    putters: map<nat, Putting>,
    puts: seq<int>,
    taken: seq<int>,
    overwritten: nat)

  datatype Step =
    | GetLock(t: nat)
    | Test(t: nat)
    | Find(t: nat)
    | Take(t: nat)
    | GetUnlock(t: nat)
    | WakeUnasked(t: nat)
    | PutLock(t: nat, value: int)
    | Look(t: nat)
    | Store(t: nat)
    | Signal(t: nat, woken: set<nat>)
    | PutUnlock(t: nat)

  ghost predicate Init(s: State) {
    && s.buffer_value == EMPTY && s.mutex.Nobody?
    && (forall t :: t in s.getters ==> s.getters[t].Outside?)
    && (forall t :: t in s.putters ==> s.putters[t].Away?)
    && s.puts == s.taken == [] && s.overwritten == 0
  }

  predicate Sleeps(s: State, t: nat) { t in s.getters && s.getters[t].Asleep? }

  function Sleepers(s: State): set<nat> { set t | t in s.getters && s.getters[t].Asleep? }

  predicate Enabled(s: State, step: Step) {
    match step
    case GetLock(t) => t in s.getters && (s.getters[t].Outside? || s.getters[t].Woken?) && s.mutex.Nobody?
    case Test(t) => t in s.getters && s.getters[t].Testing?
    case Find(t) => t in s.getters && s.getters[t].Finding?
    case Take(t) => t in s.getters && s.getters[t].Taking?
    case GetUnlock(t) => t in s.getters && s.getters[t].Leaving?
    case WakeUnasked(t) => Sleeps(s, t)
    case PutLock(t, _) => t in s.putters && s.putters[t].Away? && s.mutex.Nobody?
    case Look(t) => t in s.putters && s.putters[t].Entered?
    case Store(t) => t in s.putters && s.putters[t].Looked?
    case Signal(t, woken) =>
      && t in s.putters && s.putters[t].Stored?
      && woken <= (if s.putters[t].old_value == EMPTY then Sleepers(s) else {})
      && (s.putters[t].old_value == EMPTY && Sleepers(s) != {} ==> woken != {})
    case PutUnlock(t) => t in s.putters && s.putters[t].Closing?
  }

  function Apply(s: State, step: Step): State
    requires Enabled(s, step)
  {
    match step
    case GetLock(t) => s.(mutex := Held(Getter(t)), getters := s.getters[t := Testing])
    case Test(t) =>
      // cnd_wait releases the mutex
      if s.buffer_value == EMPTY then s.(mutex := Nobody, getters := s.getters[t := Asleep])
      else s.(getters := s.getters[t := Finding])
    case Find(t) => s.(getters := s.getters[t := Taking(s.buffer_value)])
    case Take(t) =>
      var value := s.getters[t].value;
      s.(buffer_value := EMPTY, taken := s.taken + [value], getters := s.getters[t := Leaving(value)])
    case GetUnlock(t) => s.(mutex := Nobody, getters := s.getters[t := Outside])
    case WakeUnasked(t) => s.(getters := s.getters[t := Woken])
    case PutLock(t, value) => s.(mutex := Held(Putter(t)), putters := s.putters[t := Entered(value)])
    case Look(t) => s.(putters := s.putters[t := Looked(s.putters[t].value, s.buffer_value)])
    case Store(t) =>
      var value := s.putters[t].value;
      s.(buffer_value := value, puts := s.puts + [value],
         overwritten := s.overwritten + if s.buffer_value == EMPTY then 0 else 1,
         putters := s.putters[t := Stored(s.putters[t].old_value)])
    case Signal(t, woken) =>
      s.(getters := map u | u in s.getters :: if u in woken then Woken else s.getters[u],
         putters := s.putters[t := Closing])
    case PutUnlock(t) => s.(mutex := Nobody, putters := s.putters[t := Away])
  }

  ghost predicate Run(s: State, steps: seq<Step>, s': State)
    decreases |steps|
  {
    if steps == [] then s' == s
    else Enabled(s, steps[0]) && Run(Apply(s, steps[0]), steps[1..], s')
  }

  // ---------- mutual exclusion ----------

  predicate Inside(s: State, who: Thread) {
    match who
    case Getter(t) => t in s.getters && !s.getters[t].Outside? && !s.getters[t].Asleep? && !s.getters[t].Woken?
    case Putter(t) => t in s.putters && !s.putters[t].Away?
  }

  ghost predicate Exclusive(s: State) {
    forall who :: Inside(s, who) <==> s.mutex == Held(who)
  }

  lemma StepKeepsExclusive(s: State, step: Step)
    requires Exclusive(s) && Enabled(s, step)
    ensures Exclusive(Apply(s, step))
  {
    var s' := Apply(s, step);
    var who := Mover(step);
    assert Inside(s, who) <==> s.mutex == Held(who);
    forall other | other != who ensures Inside(s', other) <==> s'.mutex == Held(other) {
      assert Inside(s, other) <==> s.mutex == Held(other);
    }
  }

  function Mover(step: Step): Thread {
    match step
    case PutLock(t, _) => Putter(t)
    case Look(t) => Putter(t)
    case Store(t) => Putter(t)
    case Signal(t, _) => Putter(t)
    case PutUnlock(t) => Putter(t)
    case _ => Getter(step.t)
  }

  // ---------- what a thread inside knows ----------

  predicate Knows(s: State, who: Thread)
    requires Inside(s, who)
  {
    match who
    case Getter(t) =>
      (match s.getters[t]
       case Finding => s.buffer_value != EMPTY
       case Taking(value) => value == s.buffer_value != EMPTY
       case Leaving(value) => s.buffer_value == EMPTY && s.taken != [] && value == s.taken[|s.taken| - 1]
       case _ => true)
    case Putter(t) => s.putters[t].Looked? ==> s.putters[t].old_value == s.buffer_value
  }

  ghost predicate Informed(s: State) { forall who :: Inside(s, who) ==> Knows(s, who) }

  lemma StepKeepsInformed(s: State, step: Step)
    requires Exclusive(s) && Informed(s) && Enabled(s, step)
    ensures Informed(Apply(s, step))
  {
    var s', mover := Apply(s, step), Mover(step);
    assert Inside(s, mover) <==> s.mutex == Held(mover);
    forall who | Inside(s', who) ensures Knows(s', who) {
      assert Inside(s, who) <==> s.mutex == Held(who);
      if who != mover { assert Knows(s, who); }
    }
  }

  // ---------- no lost wakeup ----------

  predicate AwakeGetter(s: State, t: nat) { t in s.getters && !s.getters[t].Asleep? }

  predicate AboutToSignal(s: State, t: nat) {
    t in s.putters && s.putters[t].Stored? && s.putters[t].old_value == EMPTY
  }

  /** Inside buffer_get, not asleep and not yet done with the slot. */
  predicate Engaged(s: State, t: nat) {
    t in s.getters && (s.getters[t].Woken? || s.getters[t].Testing? || s.getters[t].Finding? || s.getters[t].Taking?)
  }

  /** With the slot full and a getter asleep, another is awake in buffer_get on its way to
      the slot, or a putter inside is about to signal. */
  ghost predicate NotLost(s: State) {
    s.buffer_value != EMPTY && (exists t :: Sleeps(s, t)) ==>
      (exists t :: Engaged(s, t)) || (exists t :: AboutToSignal(s, t))
  }

  /** Only an empty slot lets an engaged getter leave or sleep. */
  lemma StaysEngaged(s: State, step: Step, t: nat)
    requires Enabled(s, step) && Engaged(s, t) && Apply(s, step).buffer_value != EMPTY
    ensures Engaged(Apply(s, step), t)
  {
  }

  lemma StepKeepsNotLost(s: State, step: Step)
    requires Exclusive(s) && Informed(s) && NotLost(s) && Enabled(s, step)
    ensures NotLost(Apply(s, step))
  {
    var s' := Apply(s, step);
    if s'.buffer_value != EMPTY {
      if t :| Engaged(s, t) {
        StaysEngaged(s, step, t);
      } else if t :| Sleeps(s', t) {
        NoneEngaged(s, step, t);
      }
    }
  }

  /** With nobody engaged: the putter that fills the slot will signal, and its signal wakes
      one. */
  lemma NoneEngaged(s: State, step: Step, t: nat)
    requires Exclusive(s) && Informed(s) && NotLost(s) && Enabled(s, step)
    requires (forall u :: !Engaged(s, u)) && Apply(s, step).buffer_value != EMPTY && Sleeps(Apply(s, step), t)
    ensures (exists u :: Engaged(Apply(s, step), u)) || (exists u :: AboutToSignal(Apply(s, step), u))
  {
    var s' := Apply(s, step);
    assert step.Test? ==> Engaged(s, step.t);
    assert Sleeps(s, t) && t in Sleepers(s);
    if s.buffer_value != EMPTY {
      var u :| AboutToSignal(s, u);
      assert Inside(s, Putter(u)) && s.mutex == Held(Putter(u));
      assert Inside(s, Mover(step)) <==> s.mutex == Held(Mover(step));
      match step
      case WakeUnasked(w) => assert Engaged(s', w);
      case Signal(_, woken) =>
        var w :| w in woken;
        assert w in Sleepers(s);
        assert Engaged(s', w);
      case _ =>
    } else {
      assert step.Store?;
      assert Knows(s, Putter(step.t));
      assert AboutToSignal(s', step.t);
    }
  }

  // ---------- every value put is accounted for ----------

  /** a is b with some values left out. */
  predicate Subsequence(a: seq<int>, b: seq<int>) {
    a == [] || (b != [] &&
      (Subsequence(a, b[..|b| - 1]) ||
       (a[|a| - 1] == b[|b| - 1] && Subsequence(a[..|a| - 1], b[..|b| - 1]))))
  }

  lemma SkipLast(a: seq<int>, b: seq<int>, v: int)
    requires Subsequence(a, b)
    ensures Subsequence(a, b + [v])
  {
    assert (b + [v])[..|b|] == b;
  }

  lemma TakeLast(a: seq<int>, b: seq<int>, v: int)
    requires b != [] && b[|b| - 1] == v && Subsequence(a, b[..|b| - 1])
    ensures Subsequence(a + [v], b)
  {
    assert (a + [v])[..|a|] == a;
  }

  /** How many of the values put are the one that stands for an empty slot. */
  function Blanks(vs: seq<int>): nat {
    if vs == [] then 0 else Blanks(vs[..|vs| - 1]) + if vs[|vs| - 1] == EMPTY then 1 else 0
  }

  lemma OneMoreBlank(vs: seq<int>, v: int)
    ensures Blanks(vs + [v]) == Blanks(vs) + if v == EMPTY then 1 else 0
  {
    assert (vs + [v])[..|vs|] == vs;
  }

  predicate Full(s: State) { s.buffer_value != EMPTY }

  /** The values put that have left the slot. */
  function Past(s: State): seq<int> { if Full(s) && s.puts != [] then s.puts[..|s.puts| - 1] else s.puts }

  ghost predicate Accounted(s: State) {
    && (Full(s) ==> s.puts != [] && s.puts[|s.puts| - 1] == s.buffer_value)
    && Subsequence(s.taken, Past(s)) && EMPTY !in s.taken
    && |s.puts| == |s.taken| + s.overwritten + Blanks(s.puts) + if Full(s) then 1 else 0
  }

  lemma StoreAccounted(s: State, t: nat)
    requires Accounted(s) && Enabled(s, Store(t))
    ensures Accounted(Apply(s, Store(t)))
  {
    var v := s.putters[t].value;
    OneMoreBlank(s.puts, v);
    if Full(s) {
      assert s.puts == Past(s) + [s.buffer_value];
      SkipLast(s.taken, Past(s), s.buffer_value);
    }
    SkipLast(s.taken, s.puts, v);
    assert (s.puts + [v])[..|s.puts|] == s.puts;
  }

  lemma StepKeepsAccounted(s: State, step: Step)
    requires Informed(s) && Accounted(s) && Enabled(s, step)
    ensures Accounted(Apply(s, step))
  {
    match step
    case Store(t) => StoreAccounted(s, t);
    case Take(t) =>
      assert Inside(s, Getter(t)) && Knows(s, Getter(t));
      TakeLast(s.taken, s.puts, s.buffer_value);
    case _ =>
  }

  // ---------- over every run ----------

  ghost predicate Inv(s: State) { Exclusive(s) && Informed(s) && NotLost(s) && Accounted(s) }

  lemma StepKeeps(s: State, step: Step)
    requires Inv(s) && Enabled(s, step)
    ensures Inv(Apply(s, step))
  {
    StepKeepsExclusive(s, step);
    StepKeepsInformed(s, step);
    StepKeepsNotLost(s, step);
    StepKeepsAccounted(s, step);
  }

  lemma {:induction false} RunKeeps(s: State, steps: seq<Step>, s': State)
    requires Inv(s) && Run(s, steps, s')
    ensures Inv(s')
    decreases |steps|
  {
    if steps != [] {
      StepKeeps(s, steps[0]);
      RunKeeps(Apply(s, steps[0]), steps[1..], s');
    }
  }

  ghost predicate Reachable(s: State) { exists s0, steps :: Init(s0) && Run(s0, steps, s) }

  lemma ReachableInv(s: State)
    requires Reachable(s)
    ensures Inv(s)
  {
    var s0, steps :| Init(s0) && Run(s0, steps, s);
    RunKeeps(s0, steps, s);
  }

  /** At most one thread is between lock and unlock. */
  lemma OneInside(s: State, a: Thread, b: Thread)
    requires Reachable(s) && Inside(s, a) && Inside(s, b)
    ensures a == b && s.mutex == Held(a)
  {
    ReachableInv(s);
  }

  lemma SignallerHolds(s: State, t: nat)
    requires Exclusive(s) && AboutToSignal(s, t)
    ensures s.mutex == Held(Putter(t))
  {
    assert Inside(s, Putter(t));
  }

  /** A getter never sleeps on a full slot unattended. */
  lemma NoLostWakeup(s: State, sleeper: nat)
    requires Reachable(s) && Full(s) && Sleeps(s, sleeper)
    ensures (exists t :: Engaged(s, t)) || (exists t :: AboutToSignal(s, t) && s.mutex == Held(Putter(t)))
  {
    ReachableInv(s);
    if t :| AboutToSignal(s, t) { SignallerHolds(s, t); }
  }

  /** So a full slot is never left to getters that all sleep. */
  lemma NotAllAsleep(s: State)
    requires Reachable(s) && Full(s) && |s.getters| > 0
    ensures (exists t :: AwakeGetter(s, t)) || (exists t :: AboutToSignal(s, t) && s.mutex == Held(Putter(t)))
  {
    ReachableInv(s);
    AwakeOrSignalled(s);
    if t :| AboutToSignal(s, t) { SignallerHolds(s, t); }
  }

  lemma AwakeOrSignalled(s: State)
    requires NotLost(s) && Full(s) && |s.getters| > 0
    ensures (exists t :: AwakeGetter(s, t)) || (exists t :: AboutToSignal(s, t))
  {
    var k :| k in s.getters.Keys;
    if t :| Engaged(s, t) {
      assert AwakeGetter(s, t);
    } else {
      assert AwakeGetter(s, k) || Sleeps(s, k);
    }
  }

  ghost predicate Chosen(at: seq<nat>, a: seq<int>, b: seq<int>) {
    && |at| == |a|
    && (forall k :: 0 <= k < |a| ==> at[k] < |b| && b[at[k]] == a[k])
    && (forall j, k :: 0 <= j < k < |a| ==> at[j] < at[k])
  }

  lemma {:induction false} Positions(a: seq<int>, b: seq<int>) returns (at: seq<nat>)
    requires Subsequence(a, b)
    ensures Chosen(at, a, b)
    decreases |b|
  {
    if a == [] { return []; }
    var front := b[..|b| - 1];
    if Subsequence(a, front) {
      at := Positions(a, front);
    } else {
      at := Positions(a[..|a| - 1], front);
      at := at + [|b| - 1];
    }
  }

  /** The values taken sit at increasing places among the values put: in order, and none
      twice. None is the empty mark, and each is what its buffer_get returns. */
  lemma TakenWerePut(s: State) returns (at: seq<nat>)
    requires Reachable(s)
    ensures Chosen(at, s.taken, s.puts) && EMPTY !in s.taken
    ensures forall t :: t in s.getters && s.getters[t].Leaving? ==>
      s.taken != [] && s.getters[t].value == s.taken[|s.taken| - 1]
  {
    ReachableInv(s);
    if Full(s) {
      assert s.puts == Past(s) + [s.buffer_value];
      SkipLast(s.taken, Past(s), s.buffer_value);
    }
    at := Positions(s.taken, s.puts);
    forall t | t in s.getters && s.getters[t].Leaving?
      ensures s.taken != [] && s.getters[t].value == s.taken[|s.taken| - 1]
    {
      assert Inside(s, Getter(t)) && Knows(s, Getter(t));
    }
  }

  /** Puts are gets, overwritten values, values that were the empty mark itself, and the one
      in the slot. */
  lemma PutsBalance(s: State)
    requires Reachable(s)
    ensures |s.puts| == |s.taken| + s.overwritten + Blanks(s.puts) + if Full(s) then 1 else 0
  {
    ReachableInv(s);
  }

  // ---------- a full slot gets emptied ----------

  /** Steps that neither start a put nor wake a getter for no reason. */
  predicate Unprompted(step: Step) { !step.PutLock? && !step.WakeUnasked? }

  /** The thread inside moves on; if nobody is inside, a getter that is awake takes the mutex. */
  ghost function Turn(s: State): (step: Step)
    requires Inv(s) && Full(s) && |s.getters| > 0
    ensures Enabled(s, step) && Unprompted(step)
  {
    match s.mutex
    case Held(Getter(t)) =>
      assert Inside(s, Getter(t)) && Knows(s, Getter(t));
      if s.getters[t].Testing? then Test(t) else if s.getters[t].Finding? then Find(t) else Take(t)
    case Held(Putter(t)) =>
      assert Inside(s, Putter(t));
      if s.putters[t].Entered? then Look(t)
      else if s.putters[t].Looked? then Store(t)
      else if s.putters[t].Stored? then Signal(t, if s.putters[t].old_value == EMPTY then Sleepers(s) else {})
      else PutUnlock(t)
    case Nobody =>
      SomeoneAwake(s);
      var t :| AwakeGetter(s, t);
      assert !Inside(s, Getter(t));
      GetLock(t)
  }

  lemma SomeoneAwake(s: State)
    requires Inv(s) && Full(s) && |s.getters| > 0 && s.mutex.Nobody?
    ensures exists t :: AwakeGetter(s, t)
  {
    AwakeOrSignalled(s);
    if u :| AboutToSignal(s, u) { SignallerHolds(s, u); }
  }

  function Rank(s: State): nat {
    match s.mutex
    case Held(Getter(t)) =>
      if t !in s.getters then 0
      else if s.getters[t].Testing? then 3 else if s.getters[t].Finding? then 2 else if s.getters[t].Taking? then 1 else 0
    case Nobody => 4
    case Held(Putter(t)) =>
      if t !in s.putters then 0
      else if s.putters[t].Entered? then 8 else if s.putters[t].Looked? then 7 else if s.putters[t].Stored? then 6 else 5
  }

  lemma TurnAdvances(s: State)
    requires Inv(s) && Full(s) && |s.getters| > 0
    ensures
      var s' := Apply(s, Turn(s));
      s'.getters.Keys == s.getters.Keys && (!Full(s') || Rank(s') < Rank(s))
  {
    var step := Turn(s);
    assert Inside(s, Mover(step)) <==> s.mutex == Held(Mover(step));
    if Inside(s, Mover(step)) { assert Knows(s, Mover(step)); }
  }

  /** From every reachable state with a full slot and a getter, the threads empty it without
      another put and without a spurious wakeup. */
  lemma {:induction false} GetsEmptied(s: State) returns (steps: seq<Step>, s': State)
    requires Inv(s) && |s.getters| > 0
    ensures Run(s, steps, s') && !Full(s')
    ensures forall k :: 0 <= k < |steps| ==> Unprompted(steps[k])
    decreases Full(s), Rank(s)
  {
    if !Full(s) { return [], s; }
    var step := Turn(s);
    TurnAdvances(s);
    StepKeeps(s, step);
    var rest;
    rest, s' := GetsEmptied(Apply(s, step));
    steps := [step] + rest;
    assert steps[1..] == rest;
  }
}
