/**
 The way of an answer in the exchange: answers arrive in the order they were given, every
 answer can arrive, and what a request and a character look like on the way there and back.
*/
module Delivery {

  import opened Machine
  import opened Htif
  import opened Exchange

  // ---- order ----

  /** The words that are not zero, in order. */
  function NonZero(ws: seq<Word>): seq<Word> {
    if ws == [] then [] else (if ws[0] == 0 then [] else [ws[0]]) + NonZero(ws[1..])
  }

  lemma {:induction false} NonZeroAppend(ws: seq<Word>, vs: seq<Word>)
    ensures NonZero(ws + vs) == NonZero(ws) + NonZero(vs)
  {
    if ws == [] {
      assert ws + vs == vs;
    } else {
      var all, h := ws + vs, if ws[0] == 0 then [] else [ws[0]];
      NonZeroAppend(ws[1..], vs);
      assert all[1..] == ws[1..] + vs;
      assert NonZero(all) == h + NonZero(all[1..]);
      assert NonZero(ws) == h + NonZero(ws[1..]);
      assert h + (NonZero(ws[1..]) + NonZero(vs)) == h + NonZero(ws[1..]) + NonZero(vs);
    }
  }

  lemma OneNonZero(w: Word)
    ensures NonZero([w]) == if w == 0 then [] else [w]
  {
    assert [w][1..] == [];
  }

  /** The answers that have arrived, in the order of their arrival. */
  function Arrived(ls: seq<Landing>): seq<Word> {
    seq(|ls|, i requires 0 <= i < |ls| => ls[i].word)
  }

  /** The answers that have arrived, the one in the register, and those that wait. */
  function Line(s: State): seq<Word> {
    Arrived(s.landed) + NonZero([s.fromhost]) + NonZero(s.queue)
  }

  /** The answers given in a run, in order. */
  function Given(s: State, es: seq<Event>): seq<Word>
    decreases |es|
  {
    if es == [] || !Enabled(s, es[0]) then []
    else
      (if es[0].HostReply? then [Respond(s.host[es[0].i], es[0].resp)] else []) + Given(Step(s, es[0]), es[1..])
  }

  lemma ArrivedAppend(ls: seq<Landing>, l: Landing)
    ensures Arrived(ls + [l]) == Arrived(ls) + [l.word]
  {
  }

  lemma LandLine(s: State, l: Landing)
    requires s.fromhost != 0 && l.word == s.fromhost
    ensures Arrived(s.landed + [l]) + NonZero([]) + NonZero(s.queue) == Line(s)
    ensures NonZero([0]) == NonZero([])
  {
    ArrivedAppend(s.landed, l);
    assert NonZero([s.fromhost]) == [s.fromhost];
    assert Arrived(s.landed) + [l.word] + [] == Arrived(s.landed) + [l.word];
  }

  /** A step adds the answer it gives, if any, at the end of the line, and moves no other. */
  lemma StepLine(s: State, e: Event)
    requires Inv(s) && Enabled(s, e)
    ensures Line(Step(s, e))
            == Line(s) + if e.HostReply? then NonZero([Respond(s.host[e.i], e.resp)]) else []
  {
    hide Inv, WordKey, Respond, Arrived, NonZero, TohostCmd, FirstWith;
    match e
    case Interrupt => InterruptLine(s);
    case Poll => PollLine(s);
    case HostReply(i, resp) =>
      NonZeroAppend(s.queue, [Respond(s.host[i], resp)]);
    case HostDeliver => DeliverLine(s);
    case _ =>
  }

  lemma InterruptLine(s: State)
    requires Inv(s) && s.pc.Idle?
    ensures Line(HandleInterrupt(s)) == Line(s)
  {
    hide WordKey, Arrived, NonZero, Matched, Conserved;
    if s.fromhost != 0 {
      AnswerHasRecord(s);
      var i := FirstWith(s.requests, WordKey(s.fromhost));
      LandLine(s, InRecord(s.requests[i].(data := WordData(s.fromhost)), s.fromhost));
    }
  }

  lemma PollLine(s: State)
    requires Inv(s) && s.pc.Waiting?
    ensures Enabled(s, Poll) && Line(Step(s, Poll)) == Line(s)
  {
    hide WordKey, Arrived, NonZero, Matched, Conserved;
    if s.fromhost != 0 {
      if WordKey(s.fromhost) == CONSOLE {
        LandLine(s, AtConsole(s.fromhost));
      } else {
        AnswerHasRecord(s);
        var i := FirstWith(s.requests, WordKey(s.fromhost));
        LandLine(s, InRecord(s.requests[i].(data := WordData(s.fromhost)), s.fromhost));
      }
    } else {
      ZeroKey();
    }
  }

  lemma DeliverLine(s: State)
    requires !s.panicked && s.queue != []
    ensures Line(Step(s, HostDeliver)) == Line(s)
  {
    hide Arrived;
    var q := s.queue;
    assert [q[0]] + q[1..] == q;
    if s.fromhost == 0 {
      assert NonZero([s.fromhost]) == [];
      assert NonZero(q) == NonZero([q[0]]) + NonZero(q[1..]);
      assert Arrived(s.landed) + [] + NonZero(q) == Arrived(s.landed) + NonZero([q[0]]) + NonZero(q[1..]);
    }
  }

  lemma {:induction false} RunLine(s: State, es: seq<Event>, t: State)
    requires Inv(s) && Runs(s, es, t)
    ensures Line(t) == Line(s) + NonZero(Given(s, es))
    decreases |es|
  {
    hide Inv, Step, Line, Enabled, NonZero;
    if es == [] {
      assert NonZero([]) == [] by { NoneNonZero(); }
    } else {
      var r := Step(s, es[0]);
      StepKeeps(s, es[0]);
      StepLine(s, es[0]);
      RunLine(r, es[1..], t);
      var g := if es[0].HostReply? then GivenBy(s, es[0]) else [];
      assert Given(s, es) == g + Given(r, es[1..]);
      NonZeroAppend(g, Given(r, es[1..]));
      NoneNonZero();
      assert Line(t) == Line(s) + NonZero(g) + NonZero(Given(r, es[1..]));
    }
  }

  function GivenBy(s: State, e: Event): seq<Word>
    requires Enabled(s, e) && e.HostReply?
  {
    [Respond(s.host[e.i], e.resp)]
  }

  lemma NoneNonZero()
    ensures NonZero([]) == []
  {
  }

  /** Over every interleaving the answers other than the zero word arrive in the order in which
      they were given: those given are those arrived, then the one in the register, then those
      in the queue. */
  lemma InOrder(s: State, es: seq<Event>, t: State)
    requires Init(s) && Runs(s, es, t)
    ensures NonZero(Given(s, es))
            == Arrived(t.landed) + (if t.fromhost == 0 then [] else [t.fromhost]) + NonZero(t.queue)
  {
    hide Runs, Given, Init;
    assert Inv(s) && Line(s) == [] by { InitLine(s); }
    RunLine(s, es, t);
    OneNonZero(t.fromhost);
    assert [] + NonZero(Given(s, es)) == NonZero(Given(s, es));
  }

  lemma InitLine(s: State)
    requires Init(s)
    ensures Inv(s) && Line(s) == []
  {
  }

  // ---- every answer can arrive ----

  /** A step that completes what is under way: no new request, character or answer. */
  predicate Completing(e: Event) {
    e.TrySend? || e.TryPut? || e.Link? || e.HostTake? || e.HostDeliver? || e.Interrupt? || e.Poll?
  }

  /** The hart is back, or polls for an answer that has not been given. */
  predicate Settled(s: State) {
    s.queue == [] && s.fromhost == 0 && (s.pc.Idle? || s.pc.Waiting?)
  }

  function Distance(s: State): nat {
    (match s.pc
     case Sending(_) => 6
     case Linking(_) => 3
     case Putting(_) => 6
     case Waiting => 1
     case Idle => 0)
    + (if s.tohost == 0 then 0 else 1) + (if s.fromhost == 0 then 0 else 1) + 2 * |s.queue|
  }

  /** A step that brings the end nearer. */
  lemma NextStep(s: State) returns (e: Event)
    requires Inv(s) && !Settled(s)
    ensures Enabled(s, e) && Completing(e) && Distance(Step(s, e)) < Distance(s)
  {
    hide WordKey, TohostCmd, Conserved, Matched;
    if s.pc.Sending? || s.pc.Putting? {
      if s.tohost != 0 {
        e := HostTake;
      } else {
        e := if s.pc.Sending? then TrySend else TryPut;
      }
    } else if s.pc.Linking? {
      e := Link;
    } else if s.fromhost == 0 {
      e := HostDeliver;
    } else if s.pc.Idle? {
      e := Interrupt;
      AnswerHasRecord(s);
    } else {
      e := Poll;
      if WordKey(s.fromhost) != CONSOLE {
        AnswerHasRecord(s);
      }
    }
  }

  lemma Finish(s: State) returns (fs: seq<Event>, u: State)
    requires Inv(s)
    ensures Runs(s, fs, u) && (forall e :: e in fs ==> Completing(e)) && Settled(u)
    decreases Distance(s)
  {
    hide Inv, Step, Enabled, Distance, Settled;
    if Settled(s) {
      fs, u := [], s;
    } else {
      var e := NextStep(s);
      StepKeeps(s, e);
      var rest;
      rest, u := Finish(Step(s, e));
      fs := [e] + rest;
      assert fs[1..] == rest;
    }
  }

  lemma {:induction false} CompletingGives(s: State, fs: seq<Event>)
    requires forall e :: e in fs ==> Completing(e)
    ensures Given(s, fs) == []
    decreases |fs|
  {
    if fs != [] && Enabled(s, fs[0]) {
      assert fs[0] in fs;
      CompletingGives(Step(s, fs[0]), fs[1..]);
    }
  }

  /** From every reachable state what is under way can be completed, and then every answer
      given, other than the zero word, has arrived, in order. */
  lemma EveryAnswerArrives(s: State, es: seq<Event>, t: State) returns (fs: seq<Event>, u: State)
    requires Init(s) && Runs(s, es, t)
    ensures Runs(t, fs, u) && (forall e :: e in fs ==> Completing(e)) && Settled(u)
    ensures Arrived(u.landed) == NonZero(Given(s, es))
  {
    hide Runs, Given, Init, Arrived;
    InitLine(s);
    RunKeeps(s, es, t);
    fs, u := Finish(t);
    RunLine(s, es, t);
    RunLine(t, fs, u);
    CompletingGives(t, fs);
    NoneNonZero();
    assert Line(u) == Arrived(u.landed) by { SettledLine(u); }
    assert [] + NonZero(Given(s, es)) + [] == NonZero(Given(s, es));
  }

  lemma SettledLine(s: State)
    requires Settled(s)
    ensures Line(s) == Arrived(s.landed)
  {
    OneNonZero(0);
    assert Arrived(s.landed) + [] + [] == Arrived(s.landed);
  }

  // ---- there and back ----

  /** A request goes out as the word of its device, command and data, and comes back as its
      record with the low 48 bits of the answer. */
  lemma RequestAnswered(s: State, m: Msg, resp: Word)
    returns (es: seq<Event>, p: State, fs: seq<Event>, t: State)
    requires Init(s) && m.Valid() && 0 < m.dev
    ensures Runs(s, es, p) && p.requests == [m]
    ensures p.host == [m.dev * 0x100_0000_0000_0000 + m.cmd * 0x1_0000_0000_0000 + m.data]
    ensures Runs(s, fs, t) && t.received == multiset{m.(data := resp % 0x1_0000_0000_0000)}
    ensures t.landed == [InRecord(m.(data := resp % 0x1_0000_0000_0000),
                                  m.dev * 0x100_0000_0000_0000 + m.cmd * 0x1_0000_0000_0000
                                  + resp % 0x1_0000_0000_0000)]
    ensures t.requests == [] && t.responses == [] && t.tohost == 0 && t.fromhost == 0 && t.pc == Idle
  {
    hide Runs, WordKey, Respond, TohostCmd, WordData;
    var a, r := AnswerWord(m, resp);
    es, p := RequestTaken(s, m);
    t, fs := Then(s, es, p, HostReply(0, resp), p.(host := [], queue := [a], replied := multiset{a}));
    t, fs := Then(s, fs, t, HostDeliver, t.(queue := [], fromhost := a));
    t, fs := Then(s, fs, t, Interrupt,
                  t.(fromhost := 0, requests := [], responses := [r], landed := [InRecord(r, a)]));
    t, fs := Then(s, fs, t, Receive, t.(responses := [], received := multiset{r}));
  }

  lemma AnswerWord(m: Msg, resp: Word) returns (a: Word, r: Msg)
    requires m.Valid() && 0 < m.dev
    ensures m.Word() == m.dev * 0x100_0000_0000_0000 + m.cmd * 0x1_0000_0000_0000 + m.data
    ensures m.Word() != 0 && a == Respond(m.Word(), resp) != 0 && WordKey(a) == m.Key()
    ensures r == m.(data := WordData(a)) && WordData(a) == resp % 0x1_0000_0000_0000
    ensures a == m.dev * 0x100_0000_0000_0000 + m.cmd * 0x1_0000_0000_0000 + resp % 0x1_0000_0000_0000
  {
    a := Respond(m.Word(), resp);
    MsgWord(m);
    RespondKey(m.Word(), resp);
    UnpackPack(a);
    r := m.(data := WordData(a));
  }

  /** A character goes out as a word of device 1, command 1, with the character as its data; the
      poll ends when the answer is there. */
  lemma CharacterPut(s: State, ch: int, resp: Word) returns (es: seq<Event>, p: State, fs: seq<Event>, t: State)
    requires Init(s) && 0 <= ch < 256
    ensures Runs(s, es, p) && p.pc == Waiting && p.host == [0x101_0000_0000_0000 + ch]
    ensures Runs(s, fs, t) && t.pc == Idle && t.host == [] && t.tohost == 0 && t.fromhost == 0
    ensures t.landed == [AtConsole(0x101_0000_0000_0000 + resp % 0x1_0000_0000_0000)]
  {
    hide Runs, WordKey, Respond, TohostCmd, WordData;
    var w, a := CharacterWords(ch, resp);
    RunsNone(s);
    p, es := Then(s, [], s, PutStart(ch), s.(pc := Putting(ch)));
    p, es := Then(s, es, p, TryPut, p.(tohost := w, pc := Waiting));
    p, es := Then(s, es, p, HostTake, p.(tohost := 0, host := [w]));
    t, fs := Then(s, es, p, HostReply(0, resp), p.(host := [], queue := [a], replied := multiset{a}));
    t, fs := Then(s, fs, t, HostDeliver, t.(queue := [], fromhost := a));
    t, fs := Then(s, fs, t, Poll, t.(fromhost := 0, pc := Idle, landed := [AtConsole(a)]));
  }

  lemma CharacterWords(ch: int, resp: Word) returns (w: Word, a: Word)
    requires 0 <= ch < 256
    ensures w == TohostCmd(1, 1, ch) == 0x101_0000_0000_0000 + ch
    ensures a == Respond(w, resp) == 0x101_0000_0000_0000 + resp % 0x1_0000_0000_0000 && WordKey(a) == CONSOLE
  {
    w := TohostCmd(1, 1, ch);
    a := Respond(w, resp);
    ConsoleWord(ch);
    RespondKey(w, resp);
  }
}
