/**
 The handshake between threads that ask for an unwind of a thread and the signal
 handler that runs in that thread.

 Any number of requesters work on one thread.  The steps of requesters and of
 handlers interleave in any order, waits do not time out, and signals may be
 delivered at any time.  A pointer to the entry is modelled by the generation
 of the entry, so that a step shows whether it would touch a deleted entry.
 */
module Handshake {
  import opened OrderedKeys

  const WAIT_FOR_UCONTEXT: nat := 1
  const WAIT_FOR_UNWIND_TO_COMPLETE: nat := 2
  const WAIT_FOR_THREAD_TO_RESTART: nat := 3

  /** Where a requester is, from getting the entry to releasing it. */
  datatype RequesterPc = Holding | Locked | Ready | Sent | Unwinding | Woke | Finished | Unlocked

  /** Where a handler is, from its start to its last use of the entry. */
  datatype HandlerPc = Started | Acquired | Copied | Waiting | Resumed | Tail

  datatype Requester = Requester(pc: RequesterPc, gen: nat)

  datatype Handler = Handler(pc: HandlerPc, gen: nat)

  /** The entry of the thread; `ucontext` tells in which session it was copied. */
  datatype Entry = Entry(gen: nat, ref_count: nat, owner: Option<nat>, wait_value: nat, ucontext: Option<nat>)

  /**
   `pending` counts the signals that are sent and not delivered.  The rest is
   history: how often handlers have acquired the entry, how many entries and
   sessions there were, and which handler has not come to its last wake.
   */
  datatype State = State(entry: Option<Entry>, requesters: map<nat, Requester>, handlers: map<nat, Handler>,
                         pending: nat, acquired: nat, gens: nat, session: nat, active: Option<nat>)

  datatype Action =
    | Get(r: nat) | Lock(r: nat) | Reset(r: nat) | Send(r: nat) | SendFails(r: nat) | SeeUcontext(r: nat)
    | WakeHandler(r: nat) | SeeRestart(r: nat) | Unlock(r: nat) | Remove(r: nat)
    | Deliver(h: nat) | Find(h: nat) | Copy(h: nat) | WakeRequester(h: nat) | SeeUnwound(h: nat) | WakeAgain(h: nat)
    | Leave(h: nat)

  const Init := State(None, map[], map[], 0, 0, 0, 0, None)

  /** The entry with this generation has not been deleted. */
  predicate Live(s: State, gen: nat) {
    s.entry.Some? && s.entry.value.gen == gen
  }

  predicate At(s: State, r: nat, pc: RequesterPc) {
    r in s.requesters && s.requesters[r].pc == pc
  }

  predicate HandlerAt(s: State, h: nat, pc: HandlerPc) {
    h in s.handlers && s.handlers[h].pc == pc
  }

  predicate Enabled(s: State, a: Action) {
    match a
    case Get(r) => r !in s.requesters
    case Lock(r) => At(s, r, Holding) && (s.entry.Some? ==> s.entry.value.owner.None?)
    case Reset(r) => At(s, r, Locked)
    case Send(r) => At(s, r, Ready)
    case SendFails(r) => At(s, r, Ready)
    case SeeUcontext(r) => At(s, r, Sent) && (s.entry.Some? ==> s.entry.value.wait_value == WAIT_FOR_UCONTEXT)
    case WakeHandler(r) => At(s, r, Unwinding)
    case SeeRestart(r) => At(s, r, Woke) && (s.entry.Some? ==> s.entry.value.wait_value == WAIT_FOR_THREAD_TO_RESTART)
    case Unlock(r) => At(s, r, Finished)
    case Remove(r) => At(s, r, Unlocked)
    case Deliver(h) => h !in s.handlers && s.pending > 0
    case Find(h) => HandlerAt(s, h, Started)
    case Copy(h) => HandlerAt(s, h, Acquired)
    case WakeRequester(h) => HandlerAt(s, h, Copied)
    case SeeUnwound(h) =>
      && HandlerAt(s, h, Waiting)
      && (s.entry.Some? ==> s.entry.value.wait_value == WAIT_FOR_UNWIND_TO_COMPLETE)
    case WakeAgain(h) => HandlerAt(s, h, Resumed)
    case Leave(h) => HandlerAt(s, h, Tail)
  }

  function Requesting(s: State, r: nat, pc: RequesterPc): State
    requires r in s.requesters
  {
    s.(requesters := s.requesters[r := s.requesters[r].(pc := pc)])
  }

  function Handling(s: State, h: nat, pc: HandlerPc): State
    requires h in s.handlers
  {
    s.(handlers := s.handlers[h := s.handlers[h].(pc := pc)])
  }

  function Without<T>(m: map<nat, T>, k: nat): map<nat, T> {
    map x | x in m && x != k :: m[x]
  }

  /** The state after a step; a step on a deleted entry does nothing. */
  function Apply(s: State, a: Action): State
    requires Enabled(s, a)
  {
    match a
    case Get(r) =>
      if s.entry.None? then
        s.(entry := Some(Entry(s.gens, 1, None, 0, None)), gens := s.gens + 1, acquired := 0,
           requesters := s.requesters[r := Requester(Holding, s.gens)])
      else
        s.(entry := Some(s.entry.value.(ref_count := s.entry.value.ref_count + 1)),
           requesters := s.requesters[r := Requester(Holding, s.entry.value.gen)])
    case Lock(r) =>
      if s.entry.None? then s
      else Requesting(s.(entry := Some(s.entry.value.(owner := Some(r))), session := s.session + 1), r, Locked)
    case Reset(r) =>
      if s.entry.None? then s else Requesting(s.(entry := Some(s.entry.value.(wait_value := 0))), r, Ready)
    case Send(r) => Requesting(s.(pending := s.pending + 1), r, Sent)
    case SendFails(r) => Requesting(s, r, Finished)
    case SeeUcontext(r) => Requesting(s, r, Unwinding)
    case WakeHandler(r) =>
      if s.entry.None? then s
      else Requesting(s.(entry := Some(s.entry.value.(wait_value := s.entry.value.wait_value + 1))), r, Woke)
    case SeeRestart(r) => Requesting(s, r, Finished)
    case Unlock(r) =>
      if s.entry.None? then s else Requesting(s.(entry := Some(s.entry.value.(owner := None))), r, Unlocked)
    case Remove(r) =>
      if s.entry.None? then s
      else if s.entry.value.ref_count <= 1 then s.(entry := None, requesters := Without(s.requesters, r))
      else s.(entry := Some(s.entry.value.(ref_count := s.entry.value.ref_count - 1)),
              requesters := Without(s.requesters, r))
    case Deliver(h) => s.(pending := s.pending - 1, handlers := s.handlers[h := Handler(Started, 0)], active := Some(h))
    case Find(h) =>
      if s.entry.None? then s.(handlers := Without(s.handlers, h), active := None)
      else s.(entry := Some(s.entry.value.(ref_count := s.entry.value.ref_count + 1)), acquired := s.acquired + 1,
              handlers := s.handlers[h := Handler(Acquired, s.entry.value.gen)])
    case Copy(h) =>
      if s.entry.None? then s else Handling(s.(entry := Some(s.entry.value.(ucontext := Some(s.session)))), h, Copied)
    case WakeRequester(h) =>
      if s.entry.None? then s
      else Handling(s.(entry := Some(s.entry.value.(wait_value := s.entry.value.wait_value + 1))), h, Waiting)
    case SeeUnwound(h) => Handling(s, h, Resumed)
    case WakeAgain(h) =>
      if s.entry.None? then s
      else Handling(s.(entry := Some(s.entry.value.(wait_value := s.entry.value.wait_value + 1)), active := None), h,
                    Tail)
    case Leave(h) => s.(handlers := Without(s.handlers, h))
  }

  // ----- what every step keeps

  /** The entry is counted once for each requester that has it and for each time that a handler acquired it. */
  ghost predicate Counted(s: State) {
    && (s.entry.Some? ==>
          && s.entry.value.ref_count == |s.requesters| + s.acquired && s.entry.value.ref_count >= 1
          && s.entry.value.gen < s.gens)
    && (s.entry.None? ==> s.requesters == map[] && s.handlers == map[])
    && (s.entry.Some? && s.acquired == 0 ==> forall h :: h in s.handlers ==> s.handlers[h].pc == Started)
  }

  /** Whoever uses the entry uses one that has not been deleted. */
  ghost predicate Held(s: State) {
    && (forall r :: r in s.requesters ==> Live(s, s.requesters[r].gen))
    && (forall h :: h in s.handlers && s.handlers[h].pc != Started ==> Live(s, s.handlers[h].gen))
  }

  predicate InSession(pc: RequesterPc) {
    pc != Holding && pc != Unlocked
  }

  /** One requester at a time is in a session. */
  ghost predicate Owned(s: State) {
    forall r :: r in s.requesters ==>
      (InSession(s.requesters[r].pc) <==> s.entry.Some? && s.entry.value.owner == Some(r))
  }

  predicate Quiet(s: State) {
    s.pending == 0 && s.active.None?
  }

  /** A handler is active, at this point. */
  predicate ActiveAt(s: State, pc: HandlerPc) {
    s.pending == 0 && s.active.Some? && HandlerAt(s, s.active.value, pc)
  }

  /** How far the session and its handler have come. */
  ghost predicate InStep(s: State) {
    && (forall h :: h in s.handlers ==> (s.handlers[h].pc != Tail <==> s.active == Some(h)))
    && (s.active.Some? ==> s.active.value in s.handlers)
    && (s.entry.None? || s.entry.value.owner.None? ==> Quiet(s))
    && (s.entry.Some? && s.entry.value.owner.Some? ==>
          && s.entry.value.owner.value in s.requesters
          && Phase(s, s.requesters[s.entry.value.owner.value].pc, s.entry.value))
  }

  ghost predicate Phase(s: State, pc: RequesterPc, e: Entry) {
    match pc
    case Locked => Quiet(s)
    case Ready => Quiet(s) && e.wait_value == 0
    case Sent =>
      || (s.pending == 1 && s.active.None? && e.wait_value == 0)
      || ((ActiveAt(s, Started) || ActiveAt(s, Acquired)) && e.wait_value == 0)
      || (ActiveAt(s, Copied) && e.wait_value == 0 && e.ucontext == Some(s.session))
      || (ActiveAt(s, Waiting) && e.wait_value == 1 && e.ucontext == Some(s.session))
    case Unwinding => ActiveAt(s, Waiting) && e.wait_value == 1 && e.ucontext == Some(s.session)
    case Woke =>
      || ((ActiveAt(s, Waiting) || ActiveAt(s, Resumed)) && e.wait_value == 2)
      || (Quiet(s) && e.wait_value == 3)
    case Finished => Quiet(s)
    case _ => false
  }

  ghost predicate Inv(s: State) {
    Counted(s) && Held(s) && Owned(s) && InStep(s)
  }

  lemma InitInv()
    ensures Inv(Init)
  {
  }

  lemma WithoutSize<T>(m: map<nat, T>, k: nat)
    requires k in m
    ensures |Without(m, k)| == |m| - 1
  {
    assert Without(m, k).Keys == m.Keys - {k};
    assert |Without(m, k).Keys| == |Without(m, k)| && |m.Keys| == |m|;
  }

  lemma OnlyOne<T>(m: map<nat, T>, r: nat, x: nat)
    requires |m| == 1 && r in m && x in m
    ensures x == r
  {
    assert |m.Keys - {r}| == 0;
  }

  lemma GetKeepsInv(s: State, r: nat)
    requires Inv(s) && Enabled(s, Get(r))
    ensures Inv(Apply(s, Get(r)))
  {
  }

  /** The last requester deletes the entry only if no handler has it. */
  lemma RemoveKeepsInv(s: State, r: nat)
    requires Inv(s) && Enabled(s, Remove(r))
    ensures Inv(Apply(s, Remove(r)))
  {
    WithoutSize(s.requesters, r);
    if s.entry.value.ref_count == 1 && s.entry.value.owner.Some? {
      OnlyOne(s.requesters, r, s.entry.value.owner.value);
    }
    assert s.entry.value.ref_count == 1 ==> s.handlers == map[];
  }

  lemma BeginningKeepsInv(s: State, a: Action)
    requires Inv(s) && Enabled(s, a) && (a.Lock? || a.Reset? || a.Send? || a.SendFails?)
    ensures Inv(Apply(s, a))
  {
  }

  lemma SeeingKeepsInv(s: State, a: Action)
    requires Inv(s) && Enabled(s, a) && (a.SeeUcontext? || a.SeeRestart?)
    ensures Inv(Apply(s, a))
  {
  }

  lemma SessionKeepsInv(s: State, a: Action)
    requires Inv(s) && Enabled(s, a) && (a.WakeHandler? || a.Unlock?)
    ensures Inv(Apply(s, a))
  {
  }

  lemma DeliveryKeepsInv(s: State, a: Action)
    requires Inv(s) && Enabled(s, a) && (a.Deliver? || a.Find?)
    ensures Inv(Apply(s, a))
  {
  }

  lemma HandlerKeepsInv(s: State, a: Action)
    requires Inv(s) && Enabled(s, a) && (a.Copy? || a.WakeRequester?)
    ensures Inv(Apply(s, a))
  {
  }

  lemma ResumingKeepsInv(s: State, a: Action)
    requires Inv(s) && Enabled(s, a) && (a.SeeUnwound? || a.WakeAgain?)
    ensures Inv(Apply(s, a))
  {
  }

  lemma LeavingKeepsInv(s: State, a: Action)
    requires Inv(s) && Enabled(s, a) && a.Leave?
    ensures Inv(Apply(s, a))
  {
  }

  /** Every step of every thread keeps the invariant. */
  lemma StepKeepsInv(s: State, a: Action)
    requires Inv(s) && Enabled(s, a)
    ensures Inv(Apply(s, a))
  {
    hide Inv, Enabled, Apply;
    match a
    case Get(r) => GetKeepsInv(s, r);
    case Remove(r) => RemoveKeepsInv(s, r);
    case Lock(_) | Reset(_) | Send(_) | SendFails(_) => BeginningKeepsInv(s, a);
    case SeeUcontext(_) | SeeRestart(_) => SeeingKeepsInv(s, a);
    case WakeHandler(_) | Unlock(_) => SessionKeepsInv(s, a);
    case Deliver(_) | Find(_) => DeliveryKeepsInv(s, a);
    case Copy(_) | WakeRequester(_) => HandlerKeepsInv(s, a);
    case SeeUnwound(_) | WakeAgain(_) => ResumingKeepsInv(s, a);
    case Leave(_) => LeavingKeepsInv(s, a);
  }

  // ----- progress

  /** The step leads on: it is not a new request, a failure to send, or the end of a handler that is done. */
  predicate LeadsOn(a: Action) {
    !a.Get? && !a.SendFails? && !a.Leave?
  }

  /** As long as there is a requester, some step that leads on is possible: nobody waits for ever for everybody else. */
  lemma NeverStuck(s: State) returns (a: Action)
    requires Inv(s) && s.requesters != map[]
    ensures Enabled(s, a) && LeadsOn(a)
  {
    var r :| r in s.requesters;
    if s.entry.value.owner.None? {
      a := if At(s, r, Unlocked) then Remove(r) else Lock(r);
    } else {
      a := OwnerOrHandler(s, s.entry.value.owner.value);
    }
  }

  lemma OwnerOrHandler(s: State, o: nat) returns (a: Action)
    requires Inv(s) && s.entry.Some? && s.entry.value.owner == Some(o)
    ensures Enabled(s, a) && LeadsOn(a)
  {
    match s.requesters[o].pc
    case Locked => a := Reset(o);
    case Ready => a := Send(o);
    case Unwinding => a := WakeHandler(o);
    case Finished => a := Unlock(o);
    case Sent =>
      if s.active.None? {
        a := Deliver(Unused(s.handlers.Keys));
      } else {
        var h := s.active.value;
        a := if HandlerAt(s, h, Started) then Find(h) else if HandlerAt(s, h, Acquired) then Copy(h)
             else if HandlerAt(s, h, Copied) then WakeRequester(h) else SeeUcontext(o);
      }
    case Woke =>
      a := if s.active.None? then SeeRestart(o)
           else if HandlerAt(s, s.active.value, Waiting) then SeeUnwound(s.active.value) else WakeAgain(s.active.value);
  }

  // ----- runs

  /** A run: each step is possible where it is taken. */
  ghost predicate IsRun(run: seq<State>, actions: seq<Action>) {
    && |run| == |actions| + 1 && run[0] == Init
    && forall i :: 0 <= i < |actions| ==> Steps(run, actions, i)
  }

  ghost predicate Steps(run: seq<State>, actions: seq<Action>, i: nat)
    requires i < |actions| && |run| == |actions| + 1
  {
    Enabled(run[i], actions[i]) && run[i + 1] == Apply(run[i], actions[i])
  }

  lemma {:induction false} RunKeepsInv(run: seq<State>, actions: seq<Action>, i: nat)
    requires IsRun(run, actions) && i < |run|
    ensures Inv(run[i])
  {
    hide Inv, Enabled, Apply;
    if i == 0 {
      InitInv();
    } else {
      RunKeepsInv(run, actions, i - 1);
      assert Steps(run, actions, i - 1);
      StepKeepsInv(run[i - 1], actions[i - 1]);
    }
  }

  // ----- runs end

  /** How many steps are left to a requester, and to the handler that its signal will start. */
  function StepsOf(r: Requester): nat {
    match r.pc
    case Holding => 15
    case Locked => 14
    case Ready => 13
    case Sent => 5
    case Unwinding => 4
    case Woke => 3
    case Finished => 2
    case Unlocked => 1
  }

  function StepsOfHandler(h: Handler): nat {
    match h.pc
    case Started => 6
    case Acquired => 5
    case Copied => 4
    case Waiting => 3
    case Resumed => 2
    case Tail => 1
  }

  ghost function Total<T>(m: map<nat, T>, steps: T -> nat): nat {
    if m == map[] then 0
    else
      var k :| k in m;
      assert Without(m, k).Keys == m.Keys - {k};
      steps(m[k]) + Total(Without(m, k), steps)
  }

  lemma {:induction false} TotalSplits<T>(m: map<nat, T>, k: nat, steps: T -> nat)
    requires k in m
    ensures Total(m, steps) == steps(m[k]) + Total(Without(m, k), steps)
    decreases |m|
  {
    var x :| x in m && Total(m, steps) == steps(m[x]) + Total(Without(m, x), steps);
    if x != k {
      WithoutSize(m, x);
      WithoutSize(m, k);
      TotalSplits(Without(m, x), k, steps);
      TotalSplits(Without(m, k), x, steps);
      assert Without(Without(m, x), k) == Without(Without(m, k), x);
    }
  }

  /** Replacing or removing one of them changes the total by as much as it changes that one. */
  lemma TotalChanges<T>(m: map<nat, T>, k: nat, v: T, steps: T -> nat)
    ensures k in m ==> Total(m, steps) == steps(m[k]) + Total(Without(m, k), steps)
    ensures Total(m[k := v], steps) == steps(v) + Total(Without(m, k), steps)
    ensures k !in m ==> Without(m, k) == m
  {
    if k in m { TotalSplits(m, k, steps); }
    TotalSplits(m[k := v], k, steps);
    assert Without(m[k := v], k) == Without(m, k);
  }

  /** How many steps are left, if nobody else asks for an unwind. */
  ghost function Left(s: State): nat {
    Total(s.requesters, StepsOf) + Total(s.handlers, StepsOfHandler) + 7 * s.pending
  }

  lemma RequesterDescends(s: State, a: Action)
    requires Inv(s) && Enabled(s, a)
    requires a.Lock? || a.Reset? || a.Send? || a.SendFails? || a.SeeUcontext? || a.WakeHandler? || a.SeeRestart?
             || a.Unlock? || a.Remove?
    ensures Left(Apply(s, a)) < Left(s)
  {
    hide Total, Held, Owned, InStep;
    var s' := Apply(s, a);
    TotalChanges(s.requesters, a.r, if a.r in s'.requesters then s'.requesters[a.r] else s.requesters[a.r], StepsOf);
    assert a.Remove? || s'.requesters == s.requesters[a.r := s'.requesters[a.r]];
  }

  lemma HandlerDescends(s: State, a: Action)
    requires Inv(s) && Enabled(s, a)
    requires a.Deliver? || a.Find? || a.Copy? || a.WakeRequester? || a.SeeUnwound? || a.WakeAgain? || a.Leave?
    ensures Left(Apply(s, a)) < Left(s)
  {
    hide Total, Held, Owned, InStep;
    var s' := Apply(s, a);
    TotalChanges(s.handlers, a.h, if a.h in s'.handlers then s'.handlers[a.h] else Handler(Tail, 0), StepsOfHandler);
    assert a.Leave? || s'.handlers == s.handlers[a.h := s'.handlers[a.h]];
  }

  lemma StepDescends(s: State, a: Action)
    requires Inv(s) && Enabled(s, a) && !a.Get?
    ensures Left(Apply(s, a)) < Left(s)
  {
    hide Inv, Enabled, Apply, Left;
    if a.Deliver? || a.Find? || a.Copy? || a.WakeRequester? || a.SeeUnwound? || a.WakeAgain? || a.Leave? {
      HandlerDescends(s, a);
    } else {
      RequesterDescends(s, a);
    }
  }

  /** No run without new requests has more steps than are left at its start, however they interleave. */
  lemma {:induction false} RunsEnd(run: seq<State>, actions: seq<Action>, i: nat, j: nat)
    requires IsRun(run, actions) && i <= j < |run| && forall k :: i <= k < j ==> !actions[k].Get?
    ensures Left(run[j]) + (j - i) <= Left(run[i])
    decreases j - i
  {
    hide Inv, Enabled, Apply, Left;
    if i < j {
      RunsEnd(run, actions, i, j - 1);
      RunKeepsInv(run, actions, j - 1);
      assert Steps(run, actions, j - 1);
      StepDescends(run[j - 1], actions[j - 1]);
    }
  }

  /** When no step but a new request is possible, every request has been served. */
  lemma AllServed(run: seq<State>, actions: seq<Action>, i: nat)
    requires IsRun(run, actions) && i < |run| && forall a :: Enabled(run[i], a) ==> a.Get?
    ensures run[i].requesters == map[] && run[i].handlers == map[] && run[i].pending == 0
  {
    var s := run[i];
    RunKeepsInv(run, actions, i);
    if s.requesters != map[] {
      var a := NeverStuck(s);
      assert false;
    }
    if h :| h in s.handlers {
      CanLeave(s, h);
      assert false;
    }
  }

  /** Without requesters, every handler is done. */
  lemma CanLeave(s: State, h: nat)
    requires Inv(s) && s.requesters == map[] && h in s.handlers
    ensures Enabled(s, Leave(h))
  {
  }

  /** The step uses the entry, through a pointer that was got before. */
  predicate Uses(s: State, a: Action, gen: nat) {
    if a.Get? || a.Deliver? || a.Find? then false
    else if a.Copy? || a.WakeRequester? || a.SeeUnwound? || a.WakeAgain? || a.Leave? then
      a.h in s.handlers && s.handlers[a.h].gen == gen
    else a.r in s.requesters && s.requesters[a.r].gen == gen
  }

  /** In no run does a step use an entry that has been deleted. */
  lemma NeverUsedAfterDelete(run: seq<State>, actions: seq<Action>, i: nat, gen: nat)
    requires IsRun(run, actions) && i < |actions| && Uses(run[i], actions[i], gen)
    ensures Live(run[i], gen)
  {
    RunKeepsInv(run, actions, i);
    assert Steps(run, actions, i);
    assert Held(run[i]);
  }

  /** A handler that starts finds the entry of the session that sent its signal. */
  lemma HandlerFindsEntry(run: seq<State>, actions: seq<Action>, i: nat, h: nat)
    requires IsRun(run, actions) && i < |run| && HandlerAt(run[i], h, Started)
    ensures var s := run[i]; s.entry.Some? && s.entry.value.owner.Some? && At(s, s.entry.value.owner.value, Sent)
  {
    RunKeepsInv(run, actions, i);
  }

  /** While a requester unwinds, the thread waits in its handler, and its context was copied in this session. */
  lemma UnwindsStoppedThread(run: seq<State>, actions: seq<Action>, i: nat, r: nat)
    requires IsRun(run, actions) && i < |run| && At(run[i], r, Unwinding)
    ensures var s := run[i];
            && s.entry.Some? && s.entry.value.owner == Some(r) && s.entry.value.ucontext == Some(s.session)
            && s.active.Some? && HandlerAt(s, s.active.value, Waiting) && !Enabled(s, SeeUnwound(s.active.value))
    ensures forall r' :: r' in run[i].requesters && r' != r ==> !InSession(run[i].requesters[r'].pc)
  {
    RunKeepsInv(run, actions, i);
  }

  /** The three wakes of a session come in order: the handler's first, the requester's, the handler's second. */
  lemma WakesInOrder(run: seq<State>, actions: seq<Action>, i: nat)
    requires IsRun(run, actions) && i < |actions|
    ensures var s := run[i];
            && (actions[i].WakeRequester? ==>
                  s.entry.Some? && s.entry.value.wait_value == 0 && s.entry.value.ucontext == Some(s.session))
            && (actions[i].WakeHandler? ==> s.entry.Some? && s.entry.value.wait_value == 1)
            && (actions[i].WakeAgain? ==> s.entry.Some? && s.entry.value.wait_value == 2)
  {
    RunKeepsInv(run, actions, i);
    assert Steps(run, actions, i);
  }

  /** The value changes only by being reset at the start of a session, and by these wakes. */
  lemma WaitValueMoves(s: State, a: Action)
    requires Inv(s) && Enabled(s, a) && s.entry.Some? && Apply(s, a).entry.Some?
    ensures var v, v' := s.entry.value.wait_value, Apply(s, a).entry.value.wait_value;
            v' == if a.Reset? then 0 else if a.WakeRequester? || a.WakeHandler? || a.WakeAgain? then v + 1 else v
  {
  }

  /**
   Deleting the entry takes the last one that holds it, and happens only to an entry
   that no handler ever acquired.
   */
  lemma DeletedOnlyIfUnused(s: State, a: Action)
    requires Inv(s) && Enabled(s, a) && s.entry.Some? && Apply(s, a).entry.None?
    ensures a.Remove? && s.requesters.Keys == {a.r} && s.handlers == map[] && s.acquired == 0
  {
    RemoveKeepsInv(s, a.r);
    forall x | x in s.requesters
      ensures x == a.r
    {
      OnlyOne(s.requesters, a.r, x);
    }
  }

  /** Handlers never give back their reference, so an entry that was once acquired by one stays for good. */
  lemma {:induction false} AcquiredStays(run: seq<State>, actions: seq<Action>, i: nat, j: nat)
    requires IsRun(run, actions) && i <= j < |run| && run[i].entry.Some? && run[i].acquired > 0
    ensures Live(run[j], run[i].entry.value.gen) && run[j].acquired > 0
    decreases j
  {
    if i < j {
      AcquiredStays(run, actions, i, j - 1);
      RunKeepsInv(run, actions, j - 1);
      assert Steps(run, actions, j - 1);
      AcquiredStep(run[j - 1], actions[j - 1]);
    }
  }

  lemma AcquiredStep(s: State, a: Action)
    requires Inv(s) && Enabled(s, a) && s.entry.Some? && s.acquired > 0
    ensures Live(Apply(s, a), s.entry.value.gen) && Apply(s, a).acquired > 0
  {
    if a.Remove? { WithoutSize(s.requesters, a.r); }
  }
}
