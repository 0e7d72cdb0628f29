/**
 The coroutine hand-off on top of threads: one thread per context, each with a flag, a mutex
 and a condition variable, step by step.
*/
module Coroutine {

  /**
   Where a context's thread is. In a switch to t it clears its own flag, sets t's, locks t's
   mutex, signals and unlocks; then it locks its own mutex, tests its own flag and, if the flag
   is clear, waits: the flag can be set between the test and the wait, which gives the mutex
   up and blocks in one step. A new thread is born in a switch to its creator. The creation of
   c locks the creator's mutex, clears its flag and starts the thread; then it waits in the
   same way.
  */
  datatype Pc =
    | Unborn
    | User
    | SwClear(t: nat)
    | Born(t: nat)
    | SwSet(t: nat)
    | SwLock(t: nat)
    | SwSignal(t: nat)
    | SwUnlock(t: nat)
    | WaitLock
    | Check
    | Waits
    | Blocked
    | Woken
    | Leave
    | InLock(c: nat)
    | InClear(c: nat)
    | InCreate(c: nat)
    | Finished

  /** Per context: its thread, its flag and the thread that holds its mutex, if any. */
  datatype State = State(pc: seq<Pc>, flag: seq<bool>, owner: seq<int>)

  datatype Event =
    | Act(i: nat)
    | Switch(i: nat, t: nat)
    | Create(i: nat, c: nat)
    | Finish(i: nat)
    | Spurious(i: nat)

  predicate Shape(s: State) {
    && |s.pc| == |s.flag| == |s.owner|
    && forall i :: 0 <= i < |s.pc| ==> PcShape(s.pc[i], i, |s.pc|)
  }

  /** The other context a place speaks of exists and is another one. */
  predicate PcShape(p: Pc, i: nat, n: nat) {
    match p
    case SwClear(t) => t < n && t != i
    case Born(t) => t < n && t != i
    case SwSet(t) => t < n && t != i
    case SwLock(t) => t < n && t != i
    case SwSignal(t) => t < n && t != i
    case SwUnlock(t) => t < n && t != i
    case InLock(c) => c < n && c != i
    case InClear(c) => c < n && c != i
    case InCreate(c) => c < n && c != i
    case _ => true
  }

  predicate Enabled(s: State, e: Event) {
    && Shape(s) && e.i < |s.pc|
    && match e
       case Act(i) => CanAct(s, i)
       case Switch(i, t) => s.pc[i].User? && t < |s.pc| && t != i
       case Create(i, c) => s.pc[i].User? && c < |s.pc| && s.pc[c].Unborn? && !s.flag[c]
       case Finish(i) => s.pc[i].User?
       case Spurious(i) => s.pc[i].Blocked?
  }

  /** A step of the hand-off is possible: a lock needs a free mutex. */
  predicate CanAct(s: State, i: nat)
    requires Shape(s) && i < |s.pc|
  {
    match s.pc[i]
    case Unborn => false
    case User => false
    case Blocked => false
    case Finished => false
    case SwLock(t) => s.owner[t] == -1
    case WaitLock => s.owner[i] == -1
    case Woken => s.owner[i] == -1
    case InLock(_) => s.owner[i] == -1
    case InCreate(c) => s.pc[c].Unborn?
    case _ => true
  }

  function Step(s: State, e: Event): State
    requires Enabled(s, e)
  {
    match e
    case Act(i) => ActStep(s, i)
    case Switch(i, t) => s.(pc := s.pc[i := SwClear(t)])
    case Create(i, c) => s.(pc := s.pc[i := InLock(c)])
    case Finish(i) => s.(pc := s.pc[i := Finished])
    case Spurious(i) => s.(pc := s.pc[i := Woken])
  }

  function ActStep(s: State, i: nat): State
    requires Shape(s) && i < |s.pc| && CanAct(s, i)
  {
    match s.pc[i]
    case SwClear(t) => s.(pc := s.pc[i := SwSet(t)], flag := s.flag[i := false])
    case Born(t) => s.(pc := s.pc[i := SwSet(t)], flag := s.flag[i := false])
    case SwSet(t) => s.(pc := s.pc[i := SwLock(t)], flag := s.flag[t := true])
    case SwLock(t) => s.(pc := s.pc[i := SwSignal(t)], owner := s.owner[t := i])
    case SwSignal(t) => s.(pc := (if s.pc[t].Blocked? then s.pc[t := Woken] else s.pc)[i := SwUnlock(t)])
    case SwUnlock(t) => s.(pc := s.pc[i := WaitLock], owner := s.owner[t := -1])
    case WaitLock => s.(pc := s.pc[i := Check], owner := s.owner[i := i])
    case Check =>
      if s.flag[i] then s.(pc := s.pc[i := Leave]) else s.(pc := s.pc[i := Waits])
    case Waits => s.(pc := s.pc[i := Blocked], owner := s.owner[i := -1])
    case Woken => s.(pc := s.pc[i := Check], owner := s.owner[i := i])
    case Leave => s.(pc := s.pc[i := User], owner := s.owner[i := -1])
    case InLock(c) => s.(pc := s.pc[i := InClear(c)], owner := s.owner[i := i])
    case InClear(c) => s.(pc := s.pc[i := InCreate(c)], flag := s.flag[i := false])
    case InCreate(c) => s.(pc := s.pc[c := Born(i)][i := Check])
  }

  // ---- the invariant ----

  /** Between taking the token from its own flag and giving it to another's. */
  predicate InFlight(p: Pc) { p.Born? || p.SwSet? || p.InCreate? }

  /** The thread of i has the mutex of m locked. */
  predicate HasMutex(s: State, i: nat, m: nat)
    requires Shape(s) && i < |s.pc|
  {
    match s.pc[i]
    case SwSignal(t) => t == m
    case SwUnlock(t) => t == m
    case Check => i == m
    case Waits => i == m
    case Leave => i == m
    case InClear(_) => i == m
    case InCreate(_) => i == m
    case _ => false
  }

  /** These places are reached only with the own flag set. */
  predicate NeedsFlag(p: Pc) { p.User? || p.SwClear? || p.Leave? || p.InLock? || p.InClear? || p.Finished? }

  /** Context h alone has the token: its flag is set and no other, or the token is in the
      hands of its thread and no flag is set. */
  predicate TokenAt(s: State, h: nat)
    requires Shape(s)
  {
    h < |s.pc| && forall i :: 0 <= i < |s.pc| ==>
      && s.flag[i] == (i == h && !InFlight(s.pc[i]))
      && (InFlight(s.pc[i]) ==> i == h)
      && (NeedsFlag(s.pc[i]) ==> s.flag[i])
  }

  ghost predicate MutexOk(s: State)
    requires Shape(s)
  {
    && (forall i, m :: 0 <= i < |s.pc| && 0 <= m < |s.pc| ==> (HasMutex(s, i, m) <==> s.owner[m] == i))
    && (forall m :: 0 <= m < |s.pc| ==> -1 <= s.owner[m] < |s.pc|)
  }

  /** The context has found its flag clear and waits, or is about to. */
  predicate Asleep(p: Pc) { p.Waits? || p.Blocked? }

  /** Another thread has still to signal the context. */
  ghost predicate SignalToCome(s: State, i: nat)
    requires Shape(s)
  {
    exists j :: 0 <= j < |s.pc| && (s.pc[j] == SwLock(i) || s.pc[j] == SwSignal(i))
  }

  /** Contexts under creation have no thread yet. */
  predicate CreationOk(s: State)
    requires Shape(s)
  {
    forall i :: 0 <= i < |s.pc| ==>
      match s.pc[i]
      case InLock(c) => s.pc[c].Unborn?
      case InClear(c) => s.pc[c].Unborn?
      case InCreate(c) => s.pc[c].Unborn?
      case _ => true
  }

  ghost predicate Inv(s: State, h: nat) {
    && Shape(s) && TokenAt(s, h) && MutexOk(s) && CreationOk(s)
    && (Asleep(s.pc[h]) ==> SignalToCome(s, h))
  }

  // ---- one step ----

  /** Where the token is after a step. */
  function NextHolder(s: State, h: nat, i: nat): nat
    requires Shape(s) && i < |s.pc|
  {
    match s.pc[i]
    case SwSet(t) => t
    case InCreate(c) => c
    case _ => h
  }

  lemma ActShape(s: State, i: nat)
    requires Shape(s) && i < |s.pc| && CanAct(s, i)
    ensures Shape(ActStep(s, i))
  {
  }

  lemma ActToken(s: State, h: nat, i: nat)
    requires Shape(s) && i < |s.pc| && CanAct(s, i) && TokenAt(s, h)
    ensures Shape(ActStep(s, i)) && TokenAt(ActStep(s, i), NextHolder(s, h, i))
  {
    ActShape(s, i);
  }

  lemma ActMutex(s: State, i: nat)
    requires Shape(s) && i < |s.pc| && CanAct(s, i) && MutexOk(s)
    ensures Shape(ActStep(s, i)) && MutexOk(ActStep(s, i))
  {
    ActShape(s, i);
    var t := ActStep(s, i);
    forall j, m | 0 <= j < |t.pc| && 0 <= m < |t.pc| ensures HasMutex(t, j, m) <==> t.owner[m] == j {
      assert HasMutex(s, j, m) <==> s.owner[m] == j;
      assert HasMutex(s, i, m) <==> s.owner[m] == i;
    }
  }

  lemma ActCreation(s: State, h: nat, i: nat)
    requires Shape(s) && i < |s.pc| && CanAct(s, i) && TokenAt(s, h) && CreationOk(s)
    ensures Shape(ActStep(s, i)) && CreationOk(ActStep(s, i))
  {
    ActShape(s, i);
  }

  lemma ActSignal(s: State, h: nat, i: nat)
    requires Inv(s, h) && i < |s.pc| && CanAct(s, i)
    ensures Shape(ActStep(s, i)) && NextHolder(s, h, i) < |s.pc|
    ensures Asleep(ActStep(s, i).pc[NextHolder(s, h, i)]) ==> SignalToCome(ActStep(s, i), NextHolder(s, h, i))
  {
    ActShape(s, i);
    var t, h' := ActStep(s, i), NextHolder(s, h, i);
    if s.pc[i].SwSet? {
      assert t.pc[i] == SwLock(h');
    } else if Asleep(t.pc[h']) {
      assert Asleep(s.pc[h]);
      if s.pc[h].Waits? {
        NotSignalled(s, h, i);
      }
      var j :| 0 <= j < |s.pc| && (s.pc[j] == SwLock(h) || s.pc[j] == SwSignal(h));
      assert t.pc[j] == SwLock(h) || t.pc[j] == SwSignal(h);
    }
  }

  /** The mutex closes the gap: nobody signals a context between its test and its wait. */
  lemma NotSignalled(s: State, h: nat, i: nat)
    requires Shape(s) && MutexOk(s) && h < |s.pc| && i < |s.pc| && s.pc[h].Waits?
    ensures s.pc[i] != SwSignal(h)
  {
    assert HasMutex(s, h, h);
    if s.pc[i] == SwSignal(h) {
      assert HasMutex(s, i, h);
      assert false;
    }
  }

  lemma OtherKeeps(s: State, h: nat, e: Event)
    requires Inv(s, h) && Enabled(s, e) && !e.Act?
    ensures Inv(Step(s, e), h)
  {
    var t := Step(s, e);
    OtherMutex(s, e);
    assert TokenAt(t, h) && CreationOk(t);
    if Asleep(t.pc[h]) {
      OtherSignal(s, h, e);
    }
  }

  lemma OtherMutex(s: State, e: Event)
    requires Shape(s) && MutexOk(s) && Enabled(s, e) && !e.Act?
    ensures Shape(Step(s, e)) && MutexOk(Step(s, e))
  {
    var t := Step(s, e);
    forall j, m | 0 <= j < |t.pc| && 0 <= m < |t.pc| ensures HasMutex(t, j, m) <==> t.owner[m] == j {
      assert HasMutex(s, j, m) <==> s.owner[m] == j;
    }
  }

  lemma OtherSignal(s: State, h: nat, e: Event)
    requires Shape(s) && h < |s.pc| && Enabled(s, e) && !e.Act? && SignalToCome(s, h)
    ensures Shape(Step(s, e)) && SignalToCome(Step(s, e), h)
  {
    var j :| 0 <= j < |s.pc| && (s.pc[j] == SwLock(h) || s.pc[j] == SwSignal(h));
    assert Step(s, e).pc[j] == s.pc[j];
  }

  lemma StepKeeps(s: State, h: nat, e: Event) returns (h': nat)
    requires Inv(s, h) && Enabled(s, e)
    ensures Inv(Step(s, e), h')
  {
    hide ActStep, CanAct, TokenAt, MutexOk, CreationOk, SignalToCome;
    if e.Act? {
      ActToken(s, h, e.i);
      ActMutex(s, e.i);
      ActCreation(s, h, e.i);
      ActSignal(s, h, e.i);
      h' := NextHolder(s, h, e.i);
    } else {
      OtherKeeps(s, h, e);
      h' := h;
    }
  }

  // ---- runs ----

  /** One context runs and no other has a thread. */
  predicate Init(s: State) {
    && 0 < |s.pc| == |s.flag| == |s.owner|
    && (forall i :: 0 <= i < |s.pc| ==>
         s.pc[i] == (if i == 0 then User else Unborn) && s.flag[i] == (i == 0) && s.owner[i] == -1)
  }

  predicate Runs(s: State, es: seq<Event>, t: State)
    decreases |es|
  {
    if es == [] then s == t else Enabled(s, es[0]) && Runs(Step(s, es[0]), es[1..], t)
  }

  lemma {:induction false} RunKeeps(s: State, h: nat, es: seq<Event>, t: State) returns (h': nat)
    requires Inv(s, h) && Runs(s, es, t)
    ensures Inv(t, h')
    decreases |es|
  {
    hide Inv, Step, Enabled;
    if es == [] {
      h' := h;
    } else {
      h' := StepKeeps(s, h, es[0]);
      h' := RunKeeps(Step(s, es[0]), h', es[1..], t);
    }
  }

  /** At every moment of every run at most one context is in user code, and a context whose flag
      is set after it has found it clear has a signal to come. */
  lemma OneRuns(s: State, es: seq<Event>, t: State)
    requires Init(s) && Runs(s, es, t)
    ensures Shape(t)
    ensures forall i, j :: 0 <= i < |t.pc| && 0 <= j < |t.pc| && t.pc[i].User? && t.pc[j].User? ==> i == j
    ensures forall i :: 0 <= i < |t.pc| && Asleep(t.pc[i]) && t.flag[i] ==> SignalToCome(t, i)
  {
    InitInv(s);
    var h := RunKeeps(s, 0, es, t);
  }

  lemma InitInv(s: State)
    requires Init(s)
    ensures Inv(s, 0)
  {
  }

  // ---- the hand-off comes to an end ----

  /** If no step of the hand-off is possible, the context with the token is in user code,
      unless it has finished or never had a thread. */
  lemma HandsOver(s: State, h: nat)
    requires Inv(s, h) && forall i :: 0 <= i < |s.pc| ==> !CanAct(s, i)
    ensures s.pc[h].User? || s.pc[h].Finished? || s.pc[h].Unborn?
  {
    forall i | 0 <= i < |s.pc| ensures Resting(s.pc[i]) {
      NotActing(s, i);
    }
    if s.pc[h].Blocked? {
      var j :| 0 <= j < |s.pc| && (s.pc[j] == SwLock(h) || s.pc[j] == SwSignal(h));
      assert false;
    }
  }

  predicate Resting(p: Pc) { p.User? || p.Finished? || p.Unborn? || p.Blocked? }

  /** Whoever waits for a mutex waits for a thread that can act. */
  lemma NotActing(s: State, i: nat)
    requires Shape(s) && MutexOk(s) && CreationOk(s) && i < |s.pc| && forall j :: 0 <= j < |s.pc| ==> !CanAct(s, j)
    ensures Resting(s.pc[i])
  {
    assert !CanAct(s, i);
    if !Resting(s.pc[i]) && !s.pc[i].InCreate? {
      var m := if s.pc[i].SwLock? then s.pc[i].t else i;
      var o := s.owner[m];
      assert HasMutex(s, o, m);
      assert CanAct(s, o);
    }
  }

  /** How many steps of the hand-off a place is away from rest, at most. */
  function Weight(p: Pc): nat {
    match p
    case InLock(_) => 16
    case InClear(_) => 15
    case InCreate(_) => 14
    case SwClear(_) => 11
    case Born(_) => 11
    case SwSet(_) => 10
    case SwLock(_) => 9
    case SwSignal(_) => 8
    case SwUnlock(_) => 4
    case WaitLock => 3
    case Woken => 3
    case Check => 2
    case Waits => 1
    case Leave => 1
    case _ => 0
  }

  function Total(pc: seq<Pc>): nat {
    if pc == [] then 0 else Weight(pc[0]) + Total(pc[1..])
  }

  lemma {:induction false} TotalUpdate(pc: seq<Pc>, i: nat, p: Pc)
    requires i < |pc|
    ensures Total(pc[i := p]) == Total(pc) - Weight(pc[i]) + Weight(p)
  {
    if i == 0 {
      assert pc[i := p][1..] == pc[1..];
    } else {
      TotalUpdate(pc[1..], i - 1, p);
      assert pc[i := p][1..] == pc[1..][i - 1 := p];
    }
  }

  lemma ActDecreases(s: State, i: nat)
    requires Shape(s) && i < |s.pc| && CanAct(s, i)
    ensures Total(ActStep(s, i).pc) < Total(s.pc)
  {
    hide Total;
    var t := ActStep(s, i);
    TotalUpdate(s.pc, i, t.pc[i]);
    match s.pc[i]
    case SwSignal(x) =>
      if s.pc[x].Blocked? {
        TotalUpdate(s.pc, x, Woken);
        TotalUpdate(s.pc[x := Woken], i, t.pc[i]);
      }
    case InCreate(c) =>
      TotalUpdate(s.pc, c, Born(i));
      TotalUpdate(s.pc[c := Born(i)], i, t.pc[i]);
    case _ =>
  }

  /** From every reachable state the hand-off under way can be finished, and then the context
      with the token is in user code, unless it has finished or has no thread. */
  lemma NoLostWakeUp(s: State, es: seq<Event>, t: State) returns (fs: seq<Event>, u: State, h: nat)
    requires Init(s) && Runs(s, es, t)
    ensures Runs(t, fs, u) && (forall e :: e in fs ==> e.Act?)
    ensures Inv(u, h) && (u.pc[h].User? || u.pc[h].Finished? || u.pc[h].Unborn?)
  {
    InitInv(s);
    h := RunKeeps(s, 0, es, t);
    fs, u := HandOff(t);
    h := RunKeeps(t, h, fs, u);
    HandsOver(u, h);
  }

  lemma HandOff(s: State) returns (fs: seq<Event>, u: State)
    requires Shape(s)
    ensures Runs(s, fs, u) && (forall e :: e in fs ==> e.Act?)
    ensures Shape(u) && forall i :: 0 <= i < |u.pc| ==> !CanAct(u, i)
    decreases Total(s.pc)
  {
    hide CanAct, ActStep, Total;
    if forall i :: 0 <= i < |s.pc| ==> !CanAct(s, i) {
      fs, u := [], s;
    } else {
      var i :| 0 <= i < |s.pc| && CanAct(s, i);
      ActShape(s, i);
      ActDecreases(s, i);
      var rest;
      rest, u := HandOff(ActStep(s, i));
      fs := [Act(i)] + rest;
      assert fs[1..] == rest && Step(s, Act(i)) == ActStep(s, i);
    }
  }

  // ---- who runs next ----

  /** The context that the token is on its way to. */
  function Destination(s: State, h: nat): nat
    requires Shape(s) && h < |s.pc|
  {
    match s.pc[h]
    case SwClear(t) => t
    case SwSet(t) => t
    case Born(t) => t
    case _ => h
  }

  predicate Creating(p: Pc) { p.InLock? || p.InClear? || p.InCreate? }

  lemma ActDestination(s: State, h: nat, i: nat)
    requires Inv(s, h) && i < |s.pc| && CanAct(s, i)
    ensures Shape(ActStep(s, i)) && NextHolder(s, h, i) < |s.pc|
    ensures Destination(ActStep(s, i), NextHolder(s, h, i)) == Destination(s, h)
  {
    ActShape(s, i);
    assert s.flag[i] == (i == h && !InFlight(s.pc[i]));
  }

  /** A step of the hand-off ends no thread, and starts one only out of a creation. */
  lemma ActThreads(s: State, i: nat, c: nat)
    requires Shape(s) && i < |s.pc| && CanAct(s, i) && c < |s.pc|
    ensures |ActStep(s, i).pc| == |s.pc|
    ensures !s.pc[c].Unborn? ==> !ActStep(s, i).pc[c].Unborn?
    ensures s.pc[c].Unborn? && s.pc[i] != InCreate(c) ==> ActStep(s, i).pc[c].Unborn?
    ensures !Creating(s.pc[c]) ==> !Creating(ActStep(s, i).pc[c])
    ensures forall k :: 0 <= k < |s.pc| && Creating(s.pc[k]) && s.pc[k].c == c ==>
              (Creating(ActStep(s, i).pc[k]) && ActStep(s, i).pc[k].c == c) || !ActStep(s, i).pc[c].Unborn?
  {
  }

  /** The threads that exist, whether a creation is under way, and that of c by k. */
  ghost predicate SameThreads(s: State, u: State, k: nat, c: nat) {
    && |s.pc| == |u.pc| && k < |s.pc| && c < |s.pc|
    && (!s.pc[c].Unborn? ==> !u.pc[c].Unborn?)
    && ((forall j :: 0 <= j < |s.pc| ==> !Creating(s.pc[j])) ==>
          (forall j :: 0 <= j < |u.pc| ==> !Creating(u.pc[j])) && (s.pc[c].Unborn? ==> u.pc[c].Unborn?))
    && (Creating(s.pc[k]) && s.pc[k].c == c ==> (Creating(u.pc[k]) && u.pc[k].c == c) || !u.pc[c].Unborn?)
  }

  /** Steps of the hand-off alone take the token to its destination and nowhere else. */
  lemma {:induction false} ActsLead(s: State, h: nat, fs: seq<Event>, u: State, k: nat, c: nat) returns (h': nat)
    requires Inv(s, h) && Runs(s, fs, u) && (forall e :: e in fs ==> e.Act?) && k < |s.pc| && c < |s.pc|
    ensures Inv(u, h') && Destination(u, h') == Destination(s, h) && SameThreads(s, u, k, c)
    decreases |fs|
  {
    hide Inv, ActStep, CanAct, Destination, InFlight;
    if fs == [] {
      h' := h;
    } else {
      var i := fs[0].i;
      assert fs[0] == Act(i) && Enabled(s, fs[0]);
      var r := ActStep(s, i);
      assert Step(s, fs[0]) == r;
      ActDestination(s, h, i);
      ActThreads(s, i, c);
      forall j | 0 <= j < |s.pc| ensures !Creating(s.pc[j]) ==> !Creating(r.pc[j]) {
        ActThreads(s, i, j);
      }
      h' := NextHolder(s, h, i);
      ActKeeps(s, h, i);
      h' := ActsLead(r, h', fs[1..], u, k, c);
    }
  }

  lemma ActKeeps(s: State, h: nat, i: nat)
    requires Inv(s, h) && i < |s.pc| && CanAct(s, i)
    ensures Inv(ActStep(s, i), NextHolder(s, h, i))
  {
    hide ActStep, CanAct, TokenAt, MutexOk, CreationOk, SignalToCome;
    ActToken(s, h, i);
    ActMutex(s, i);
    ActCreation(s, h, i);
    ActSignal(s, h, i);
  }

  /** No step of the hand-off is possible. */
  predicate Still(s: State) {
    Shape(s) && forall i :: 0 <= i < |s.pc| ==> !CanAct(s, i)
  }

  /** With the hand-off finished, all contexts but the holder wait or have no thread. */
  lemma StillRests(s: State, h: nat)
    requires Inv(s, h) && Still(s)
    ensures s.flag[h] && Destination(s, h) == h && (s.pc[h].User? || s.pc[h].Finished? || s.pc[h].Unborn?)
    ensures forall i :: 0 <= i < |s.pc| && i != h ==> !s.flag[i] && (s.pc[i].Blocked? || s.pc[i].Unborn?)
  {
    HandsOver(s, h);
    forall i | 0 <= i < |s.pc| && i != h ensures !s.flag[i] && (s.pc[i].Blocked? || s.pc[i].Unborn?) {
      NotActing(s, i);
    }
  }

  lemma UserHolds(s: State, h: nat, i: nat)
    requires Inv(s, h) && i < |s.pc| && s.pc[i].User?
    ensures h == i && forall j :: 0 <= j < |s.pc| ==> !Creating(s.pc[j]) && !(j != i && s.pc[j].Finished?)
  {
  }

  /** A switch from i to t, in every reachable state and however its steps are taken: when no
      step is left, t has the token and runs, if it has a thread, and i waits. */
  lemma SwitchHandsOver(s: State, es: seq<Event>, p: State, i: nat, t: nat, fs: seq<Event>, u: State)
    requires Init(s) && Runs(s, es, p) && Enabled(p, Switch(i, t))
    requires Runs(Step(p, Switch(i, t)), fs, u) && (forall e :: e in fs ==> e.Act?) && Still(u)
    ensures |u.pc| == |u.flag| == |p.pc|
    ensures u.flag[t] && !u.flag[i] && u.pc[i].Blocked?
    ensures if p.pc[t].Unborn? then u.pc[t].Unborn? else u.pc[t].User?
    ensures forall j :: 0 <= j < |u.pc| && j != t ==> !u.flag[j] && !u.pc[j].User?
  {
    hide Inv, Runs, Still, CanAct, ActStep;
    InitInv(s);
    var h := RunKeeps(s, 0, es, p);
    UserHolds(p, h, i);
    var q := Step(p, Switch(i, t));
    OtherKeeps(p, h, Switch(i, t));
    assert Destination(q, i) == t;
    assert forall j :: 0 <= j < |q.pc| ==> !Creating(q.pc[j]);
    var g := ActsLead(q, i, fs, u, i, t);
    StillRests(u, g);
    var g2 := ActsLead(q, i, fs, u, i, i);
    InvShape(u, g);
    NoneFinishes(q, i, fs, u, t);
  }

  lemma InvShape(s: State, h: nat)
    requires Inv(s, h)
    ensures Shape(s) && h < |s.pc|
  {
  }

  /** Steps of the hand-off finish no context. */
  lemma {:induction false} NoneFinishes(s: State, h: nat, fs: seq<Event>, u: State, t: nat)
    requires Inv(s, h) && Runs(s, fs, u) && (forall e :: e in fs ==> e.Act?) && t < |s.pc| && !s.pc[t].Finished?
    ensures t < |u.pc| && !u.pc[t].Finished?
    decreases |fs|
  {
    if fs != [] {
      var i := fs[0].i;
      assert fs[0] == Act(i) && Enabled(s, fs[0]);
      assert Step(s, fs[0]) == ActStep(s, i);
      assert !ActStep(s, i).pc[t].Finished?;
      ActKeeps(s, h, i);
      NoneFinishes(ActStep(s, i), NextHolder(s, h, i), fs[1..], u, t);
    }
  }

  /** The creation of c by i: when no step is left, i has the token and runs again, and c has a
      thread, which waits. */
  lemma CreateReturns(s: State, es: seq<Event>, p: State, i: nat, c: nat, fs: seq<Event>, u: State)
    requires Init(s) && Runs(s, es, p) && Enabled(p, Create(i, c))
    requires Runs(Step(p, Create(i, c)), fs, u) && (forall e :: e in fs ==> e.Act?) && Still(u)
    ensures |u.pc| == |u.flag| == |p.pc|
    ensures u.flag[i] && u.pc[i].User? && u.pc[c].Blocked?
    ensures forall j :: 0 <= j < |u.pc| && j != i ==> !u.flag[j] && !u.pc[j].User?
  {
    hide Inv, Runs, Still, CanAct, ActStep;
    InitInv(s);
    var h := RunKeeps(s, 0, es, p);
    UserHolds(p, h, i);
    var q := Step(p, Create(i, c));
    OtherKeeps(p, h, Create(i, c));
    var g := ActsLead(q, i, fs, u, i, c);
    StillRests(u, g);
    var g2 := ActsLead(q, i, fs, u, i, i);
    InvShape(u, g);
    NoneFinishes(q, i, fs, u, i);
    assert !Creating(u.pc[i]);
  }

  /** Either hand-off can be finished. */
  lemma HandOffEnds(s: State, es: seq<Event>, p: State, e: Event) returns (fs: seq<Event>, u: State)
    requires Init(s) && Runs(s, es, p) && Enabled(p, e)
    ensures Runs(Step(p, e), fs, u) && (forall f :: f in fs ==> f.Act?) && Still(u)
  {
    hide Step, Enabled, Runs;
    InitInv(s);
    var h := RunKeeps(s, 0, es, p);
    h := StepKeeps(p, h, e);
    fs, u := HandOff(Step(p, e));
  }
}
