/**
 Interprocessor interrupts between harts: senders, the receiver's machine-mode calls and the
 two interrupt bits, step by atomic step.
*/
module Ipi {

  /** A sender is between calls, or has set the pending flag first and must write the
      receiver's interrupt register. */
  datatype Sender = Free | Won

  /** The receiver runs outside the calls, is in the response call between clearing the bit
      and looking at the flag again, or in the clear call before it takes the flag. */
  datatype Receiver = Running | Rechecking | Clearing

  /** `ssip` and `msip` are the supervisor and machine software interrupt bits, `responses`
      the length of the response queue. */
  datatype State = State(pending: bool, ssip: bool, msip: bool, senders: seq<Sender>, receiver: Receiver,
                         responses: nat)

  datatype Event =
    | SendSwap(i: nat)
    | SendWrite(i: nat)
    | SoftInterrupt
    | HostInterrupt
    | RespPop
    | RespRecheck
    | ClearStart
    | ClearSwap

  predicate Enabled(s: State, e: Event) {
    match e
    case SendSwap(i) => i < |s.senders| && s.senders[i] == Free
    case SendWrite(i) => i < |s.senders| && s.senders[i] == Won
    case SoftInterrupt => s.receiver == Running && s.msip
    case HostInterrupt => s.receiver == Running
    case RespPop => s.receiver == Running && s.responses > 0
    case RespRecheck => s.receiver == Rechecking
    case ClearStart => s.receiver == Running
    case ClearSwap => s.receiver == Clearing
  }

  function Step(s: State, e: Event): State
    requires Enabled(s, e)
  {
    match e
    case SendSwap(i) =>
      s.(pending := true, senders := if s.pending then s.senders else s.senders[i := Won])
    case SendWrite(i) => s.(msip := true, senders := s.senders[i := Free])
    case SoftInterrupt => s.(msip := false, ssip := true)
    case HostInterrupt => s.(responses := s.responses + 1, ssip := true)
    case RespPop =>
      if s.responses > 1 then s.(responses := s.responses - 1)
      else s.(responses := 0, ssip := false, receiver := Rechecking)
    case RespRecheck => s.(receiver := Running, ssip := s.ssip || s.pending)
    case ClearStart => s.(receiver := Clearing, ssip := s.ssip && s.responses > 0)
    case ClearSwap => s.(receiver := Running, pending := false)
  }

  /** The interrupt is under way: a sender has still to write, or the machine interrupt waits. */
  predicate UnderWay(s: State) { s.msip || Won in s.senders }

  predicate Inv(s: State) {
    && (s.pending ==> s.ssip || UnderWay(s) || s.receiver != Running)
    && (s.responses > 0 ==> s.ssip)
    && (s.receiver == Rechecking ==> s.responses == 0)
  }

  predicate Init(s: State) {
    && !s.pending && !s.ssip && !s.msip
    && (forall x :: x in s.senders ==> x == Free) && s.receiver == Running && s.responses == 0
  }

  lemma StepKeeps(s: State, e: Event)
    requires Inv(s) && Enabled(s, e)
    ensures Inv(Step(s, e))
  {
    match e
    case SendSwap(i) =>
      var t := Step(s, e);
      if s.pending {
        assert t.senders == s.senders;
      } else {
        assert t.senders[i] == Won;
      }
    case _ =>
  }

  predicate Runs(s: State, es: seq<Event>, t: State)
    decreases |es|
  {
    if es == [] then s == t else Enabled(s, es[0]) && Runs(Step(s, es[0]), es[1..], t)
  }

  lemma {:induction false} RunKeeps(s: State, es: seq<Event>, t: State)
    requires Inv(s) && Runs(s, es, t)
    ensures Inv(t)
    decreases |es|
  {
    hide Inv, Step;
    if es != [] {
      StepKeeps(s, es[0]);
      RunKeeps(Step(s, es[0]), es[1..], t);
    }
  }

  // ---- what the flag remembers ----

  /** Some send is not followed by a clear that takes the flag. */
  ghost predicate SentSinceClear(es: seq<Event>) {
    exists i :: 0 <= i < |es| && Unanswered(es, i)
  }

  predicate Unanswered(es: seq<Event>, i: nat)
    requires i < |es|
  {
    es[i].SendSwap? && NoClear(es[i + 1..])
  }

  predicate NoClear(es: seq<Event>) { forall j :: 0 <= j < |es| ==> !es[j].ClearSwap? }

  lemma {:induction false} FlagRemembers(s: State, es: seq<Event>, t: State)
    requires Runs(s, es, t)
    ensures t.pending <==> SentSinceClear(es) || (s.pending && NoClear(es))
    decreases |es|
  {
    if es != [] {
      var e, rest := es[0], es[1..];
      FlagRemembers(Step(s, e), rest, t);
      FirstEvent(e, rest, es);
    }
  }

  lemma FirstEvent(e: Event, rest: seq<Event>, es: seq<Event>)
    requires es == [e] + rest
    ensures NoClear(es) <==> !e.ClearSwap? && NoClear(rest)
    ensures SentSinceClear(es) <==> SentSinceClear(rest) || (e.SendSwap? && NoClear(rest))
  {
    assert es[0 + 1..] == rest;
    assert forall j :: 0 <= j < |rest| ==> rest[j] == es[j + 1];
    SendAmong(e, rest, es);
    assert Unanswered(es, 0) <==> e.SendSwap? && NoClear(rest);
  }

  lemma SendAmong(e: Event, rest: seq<Event>, es: seq<Event>)
    requires es == [e] + rest
    ensures SentSinceClear(es) <==> SentSinceClear(rest) || Unanswered(es, 0)
  {
    hide Unanswered;
    if SentSinceClear(rest) {
      var i :| 0 <= i < |rest| && Unanswered(rest, i);
      SameAnswer(e, rest, es, i);
    }
    if SentSinceClear(es) {
      var i :| 0 <= i < |es| && Unanswered(es, i);
      if i > 0 {
        SameAnswer(e, rest, es, i - 1);
      }
    }
  }

  lemma SameAnswer(e: Event, rest: seq<Event>, es: seq<Event>, i: nat)
    requires es == [e] + rest && i < |rest|
    ensures Unanswered(es, i + 1) <==> Unanswered(rest, i)
  {
    assert es[i + 1 + 1..] == rest[i + 1..] && es[i + 1] == rest[i];
  }

  // ---- nothing is lost ----

  /** No send, no machine interrupt and no call of the receiver is in progress. */
  predicate Quiescent(s: State) { !UnderWay(s) && s.receiver == Running }

  /** The steps that finish what is in progress. */
  predicate Finishing(e: Event) { e.SendWrite? || e.SoftInterrupt? || e.RespRecheck? || e.ClearSwap? }

  function CountWon(senders: seq<Sender>): nat { multiset(senders)[Won] }

  function Unfinished(s: State): nat {
    2 * CountWon(s.senders) + (if s.msip then 1 else 0) + (if s.receiver != Running then 1 else 0)
  }

  lemma WriteFinishes(senders: seq<Sender>, i: nat)
    requires i < |senders| && senders[i] == Won
    ensures CountWon(senders[i := Free]) == CountWon(senders) - 1
  {
    assert senders == senders[..i] + [senders[i]] + senders[i + 1..];
    assert senders[i := Free] == senders[..i] + [Free] + senders[i + 1..];
  }

  /** What is in progress can always be finished, and finishing it comes to an end. */
  lemma CanFinish(s: State) returns (e: Event)
    requires !Quiescent(s)
    ensures Enabled(s, e) && Finishing(e)
  {
    if s.receiver == Rechecking {
      e := RespRecheck;
    } else if s.receiver == Clearing {
      e := ClearSwap;
    } else if s.msip {
      e := SoftInterrupt;
    } else {
      var i :| 0 <= i < |s.senders| && s.senders[i] == Won;
      e := SendWrite(i);
    }
  }

  lemma FinishingEnds(s: State, e: Event)
    requires Enabled(s, e) && Finishing(e)
    ensures Unfinished(Step(s, e)) < Unfinished(s)
  {
    if e.SendWrite? {
      WriteFinishes(s.senders, e.i);
    }
  }

  /** From every reachable state, once what is in progress has finished, a pending interrupt
      shows in the supervisor's bit; a nonempty response queue shows there at all times; and
      the flag that the clear call takes is set exactly if some send came after the last clear. */
  lemma {:induction false} NoneLost(s: State, es: seq<Event>, t: State) returns (fs: seq<Event>, u: State)
    requires Init(s) && Runs(s, es, t)
    ensures t.responses > 0 ==> t.ssip
    ensures t.pending <==> SentSinceClear(es)
    ensures t.pending ==> t.ssip || UnderWay(t) || t.receiver != Running
    ensures Runs(t, fs, u) && (forall e :: e in fs ==> Finishing(e)) && Quiescent(u)
    ensures u.pending ==> u.ssip
  {
    assert Inv(s);
    RunKeeps(s, es, t);
    FlagRemembers(s, es, t);
    fs, u := Finish(t);
    RunKeeps(t, fs, u);
  }

  lemma Finish(s: State) returns (fs: seq<Event>, u: State)
    ensures Runs(s, fs, u) && (forall e :: e in fs ==> Finishing(e)) && Quiescent(u)
    decreases Unfinished(s)
  {
    if Quiescent(s) {
      fs, u := [], s;
    } else {
      hide Step, Enabled, Unfinished;
      var e := CanFinish(s);
      FinishingEnds(s, e);
      var rest;
      rest, u := Finish(Step(s, e));
      fs := [e] + rest;
      assert fs[1..] == rest;
    }
  }
}
