/**
 The exchange between a hart and the host over every interleaving: no answer is lost or
 duplicated, and each finds a record of its own device and command.
*/
module Exchange {

  import opened Machine
  import opened Htif

  /** A request record; its identity is its address. */
  datatype Msg = Msg(addr: int, dev: int, cmd: int, data: int) {
    function Key(): Key { (dev, cmd) }
    predicate Valid() { 0 <= dev < 256 && 0 <= cmd < 256 && 0 <= data < 0x1_0000_0000_0000 }
    function Word(): Word
      requires Valid()
    {
      TohostCmd(dev, cmd, data)
    }
  }

  /** Where the hart is: outside the interface, trying to send a request, between the send
      and the linking of its record, trying to send a character, or polling for its answer. */
  datatype Pc = Idle | Sending(m: Msg) | Linking(m: Msg) | Putting(ch: int) | Waiting

  /** An answer that has arrived: in a record, or taken by the console poll. */
  datatype Landing = InRecord(m: Msg, word: Word) | AtConsole(word: Word)

  /**
   Registers are zero when empty. `host` holds the commands the devices have not answered,
   `queue` the answers not yet delivered. The last fields are history: the keys of
   exchanges that fell silent, the answers given, their landings, how many answers were the
   zero word, and the records handed back to the supervisor.
  */
  datatype State = State(pc: Pc, requests: seq<Msg>, responses: seq<Msg>, tohost: Word, fromhost: Word,
                         host: seq<Word>, queue: seq<Word>, panicked: bool,
                         silent: multiset<Key>, replied: multiset<Word>, landed: seq<Landing>,
                         vanished: nat, received: multiset<Msg>)

  datatype Event =
    | ReqStart(m: Msg)
    | TrySend
    | Link
    | Interrupt
    | Receive
    | PutStart(ch: int)
    | TryPut
    | Poll
    | HostTake
    | HostReply(i: nat, resp: Word)
    | HostDrop(i: nat)
    | HostDeliver

  const CONSOLE: Key := (1, 1)

  predicate Enabled(s: State, e: Event) {
    && !s.panicked
    && match e
       case ReqStart(_) => s.pc.Idle?
       case TrySend => s.pc.Sending? && s.pc.m.Valid()
       case Link => s.pc.Linking?
       case Interrupt => s.pc.Idle?
       case Receive => s.pc.Idle? && s.responses != []
       case PutStart(ch) => s.pc.Idle? && 0 <= ch < 256
       case TryPut => s.pc.Putting? && 0 <= s.pc.ch < 256
       case Poll => s.pc.Waiting?
       case HostTake => s.tohost != 0
       case HostReply(i, _) => i < |s.host|
       case HostDrop(i) => i < |s.host|
       case HostDeliver => s.queue != []
  }

  function Without<T>(xs: seq<T>, i: nat): seq<T>
    requires i < |xs|
  {
    xs[..i] + xs[i + 1..]
  }

  /** The first record of a device and command in the request queue. */
  function FirstWith(requests: seq<Msg>, k: Key): (i: nat)
    ensures i <= |requests| && (i < |requests| ==> requests[i].Key() == k)
    ensures forall j :: 0 <= j < i ==> requests[j].Key() != k
  {
    if requests == [] || requests[0].Key() == k then 0 else 1 + FirstWith(requests[1..], k)
  }

  /** The handler of a host interrupt: moves the record that waits for the answer to the
      responses; there is a panic if no record does. */
  function HandleInterrupt(s: State): State {
    if s.fromhost == 0 then s
    else
      var w := s.fromhost;
      var i := FirstWith(s.requests, WordKey(w));
      if i == |s.requests| then s.(fromhost := 0, panicked := true)
      else
        var m := s.requests[i].(data := WordData(w));
        s.(fromhost := 0, requests := Without(s.requests, i), responses := s.responses + [m],
           landed := s.landed + [InRecord(m, w)])
  }

  function Step(s: State, e: Event): State
    requires Enabled(s, e)
  {
    match e
    case ReqStart(m) => if m.Valid() then s.(pc := Sending(m)) else s
    case TrySend =>
      var w := s.pc.m.Word();
      if s.tohost != 0 then s
      else s.(tohost := w, pc := Linking(s.pc.m),
              silent := if w == 0 then s.silent + multiset{s.pc.m.Key()} else s.silent)
    case Link => s.(requests := [s.pc.m] + s.requests, pc := Idle)
    case Interrupt => HandleInterrupt(s)
    case Receive => s.(responses := s.responses[1..], received := s.received + multiset{s.responses[0]})
    case PutStart(ch) => s.(pc := Putting(ch))
    case TryPut => if s.tohost != 0 then s else s.(tohost := TohostCmd(1, 1, s.pc.ch), pc := Waiting)
    case Poll =>
      if WordKey(s.fromhost) != CONSOLE then HandleInterrupt(s)
      else s.(fromhost := 0, pc := Idle, landed := s.landed + [AtConsole(s.fromhost)])
    case HostTake => s.(tohost := 0, host := s.host + [s.tohost])
    case HostReply(i, resp) =>
      var w := Respond(s.host[i], resp);
      s.(host := Without(s.host, i), queue := s.queue + [w], replied := s.replied + multiset{w})
    case HostDrop(i) => s.(host := Without(s.host, i), silent := s.silent + multiset{WordKey(s.host[i])})
    case HostDeliver =>
      if s.fromhost != 0 then s
      else if s.queue[0] == 0 then
          s.(queue := s.queue[1..], silent := s.silent + multiset{WordKey(0)}, vanished := s.vanished + 1)
      else s.(fromhost := s.queue[0], queue := s.queue[1..])
  }

  // ---- where the exchanges are ----

  function MsgKeys(ms: seq<Msg>): multiset<Key> { multiset(seq(|ms|, i requires 0 <= i < |ms| => ms[i].Key())) }
  function WordKeys(ws: seq<Word>): multiset<Key> { multiset(seq(|ws|, i requires 0 <= i < |ws| => WordKey(ws[i]))) }

  function RegKey(w: Word): multiset<Key> { if w == 0 then multiset{} else multiset{WordKey(w)} }
  function RegWord(w: Word): multiset<Word> { if w == 0 then multiset{} else multiset{w} }

  /** The hart's own obligations, beside the linked records. */
  function PcKey(pc: Pc): multiset<Key> {
    match pc
    case Linking(m) => multiset{m.Key()}
    case Waiting => multiset{CONSOLE}
    case _ => multiset{}
  }

  function LandedWords(ls: seq<Landing>): multiset<Word> { multiset(seq(|ls|, i requires 0 <= i < |ls| => ls[i].word)) }
  function LandedRecords(ls: seq<Landing>): multiset<Msg> {
    if ls == [] then multiset{}
    else
      var l := ls[|ls| - 1];
      LandedRecords(ls[..|ls| - 1]) + if l.InRecord? then multiset{l.m} else multiset{}
  }

  /** Records and polls that wait for an answer of a device and command. */
  ghost function Waits(s: State, k: Key): nat { MsgKeys(s.requests)[k] + PcKey(s.pc)[k] }

  /** Exchanges of a device and command: in a register, with the host, on the way back, or
      fallen silent. */
  ghost function Exchanges(s: State, k: Key): nat {
    RegKey(s.tohost)[k] + WordKeys(s.host)[k] + WordKeys(s.queue)[k] + RegKey(s.fromhost)[k] + s.silent[k]
  }

  ghost predicate Balanced(s: State) { forall k :: Waits(s, k) == Exchanges(s, k) }

  /** The places of an answer that was given: the queue, the register, a record or the console,
      or nowhere if it is the zero word. */
  ghost function Places(s: State, w: Word): nat {
    multiset(s.queue)[w] + RegWord(s.fromhost)[w] + LandedWords(s.landed)[w] + if w == 0 then s.vanished else 0
  }

  ghost function Returned(s: State, m: Msg): nat { multiset(s.responses)[m] + s.received[m] }

  ghost predicate Conserved(s: State) {
    (forall w :: s.replied[w] == Places(s, w)) && (forall m :: LandedRecords(s.landed)[m] == Returned(s, m))
  }

  /** An answer lands in a record of the same device and command, with its payload. */
  ghost predicate Matched(landed: seq<Landing>) {
    forall l :: l in landed && l.InRecord? ==> l.m.Key() == WordKey(l.word) && l.m.data == WordData(l.word)
  }

  ghost predicate Inv(s: State) { !s.panicked && PcOk(s.pc) && Balanced(s) && Conserved(s) && Matched(s.landed) }

  predicate PcOk(pc: Pc) {
    (pc.Sending? ==> pc.m.Valid()) && (pc.Putting? ==> 0 <= pc.ch < 256)
  }

  // ---- counting ----

  lemma MsgKeysWithout(ms: seq<Msg>, i: nat)
    requires i < |ms|
    ensures MsgKeys(ms) == MsgKeys(Without(ms, i)) + multiset{ms[i].Key()}
  {
    var ks := seq(|ms|, j requires 0 <= j < |ms| => ms[j].Key());
    var ws := Without(ms, i);
    assert seq(|ws|, j requires 0 <= j < |ws| => ws[j].Key()) == ks[..i] + ks[i + 1..];
    assert ks == ks[..i] + [ks[i]] + ks[i + 1..];
  }

  lemma MsgKeysLink(m: Msg, ms: seq<Msg>)
    ensures MsgKeys([m] + ms) == multiset{m.Key()} + MsgKeys(ms)
  {
    var ws := [m] + ms;
    assert seq(|ws|, j requires 0 <= j < |ws| => ws[j].Key())
           == [m.Key()] + seq(|ms|, j requires 0 <= j < |ms| => ms[j].Key());
  }

  lemma WordKeysWithout(ws: seq<Word>, i: nat)
    requires i < |ws|
    ensures WordKeys(ws) == WordKeys(Without(ws, i)) + multiset{WordKey(ws[i])}
  {
    hide WordKey;
    var ks := seq(|ws|, j requires 0 <= j < |ws| => WordKey(ws[j]));
    var vs := Without(ws, i);
    assert seq(|vs|, j requires 0 <= j < |vs| => WordKey(vs[j])) == ks[..i] + ks[i + 1..];
    assert ks == ks[..i] + [ks[i]] + ks[i + 1..];
  }

  lemma WordKeysAppend(ws: seq<Word>, w: Word)
    ensures WordKeys(ws + [w]) == WordKeys(ws) + multiset{WordKey(w)}
  {
    hide WordKey;
    var vs := ws + [w];
    assert seq(|vs|, j requires 0 <= j < |vs| => WordKey(vs[j]))
           == seq(|ws|, j requires 0 <= j < |ws| => WordKey(ws[j])) + [WordKey(w)];
  }

  function One(a: Key, k: Key): nat { if a == k then 1 else 0 }

  lemma WithoutCount(ws: seq<Word>, i: nat, k: Key)
    requires i < |ws|
    ensures WordKeys(ws)[k] == WordKeys(Without(ws, i))[k] + One(WordKey(ws[i]), k)
  {
    hide WordKeys, WordKey;
    WordKeysWithout(ws, i);
  }

  lemma AppendCount(ws: seq<Word>, w: Word, k: Key)
    ensures WordKeys(ws + [w])[k] == WordKeys(ws)[k] + One(WordKey(w), k)
  {
    hide WordKeys, WordKey;
    WordKeysAppend(ws, w);
  }

  lemma RegCount(w: Word, k: Key)
    ensures RegKey(w)[k] == if w == 0 then 0 else One(WordKey(w), k)
  {
    hide WordKey;
  }

  lemma LandedAppend(ls: seq<Landing>, l: Landing)
    ensures LandedWords(ls + [l]) == LandedWords(ls) + multiset{l.word}
    ensures LandedRecords(ls + [l]) == LandedRecords(ls) + if l.InRecord? then multiset{l.m} else multiset{}
  {
    var vs := ls + [l];
    assert seq(|vs|, j requires 0 <= j < |vs| => vs[j].word)
           == seq(|ls|, j requires 0 <= j < |ls| => ls[j].word) + [l.word];
    assert vs[..|vs| - 1] == ls;
  }

  /** A key among the records is the key of some record. */
  lemma RecordWaits(ms: seq<Msg>, k: Key)
    requires k in MsgKeys(ms)
    ensures FirstWith(ms, k) < |ms|
  {
    var ks := seq(|ms|, j requires 0 <= j < |ms| => ms[j].Key());
    assert k in ks;
  }

  // ---- the steps of the hart ----

  /** While the hart is not polling for this very answer, a record waits for it. */
  lemma AnswerHasRecord(s: State)
    requires Balanced(s) && s.fromhost != 0 && (s.pc.Idle? || (s.pc.Waiting? && WordKey(s.fromhost) != CONSOLE))
    ensures FirstWith(s.requests, WordKey(s.fromhost)) < |s.requests|
  {
    hide WordKey, MsgKeys, WordKeys;
    var k := WordKey(s.fromhost);
    assert Waits(s, k) == Exchanges(s, k) > 0;
    RecordWaits(s.requests, k);
  }

  lemma InterruptBalanced(s: State)
    requires Balanced(s) && FirstWith(s.requests, WordKey(s.fromhost)) < |s.requests|
    ensures Balanced(HandleInterrupt(s))
  {
    hide WordKey, MsgKeys, WordKeys, WordData;
    if s.fromhost != 0 {
      var t := HandleInterrupt(s);
      MsgKeysWithout(s.requests, FirstWith(s.requests, WordKey(s.fromhost)));
      forall k ensures Waits(t, k) == Exchanges(t, k) {
        assert Waits(s, k) == Exchanges(s, k);
      }
    }
  }

  lemma InterruptConserved(s: State)
    requires Conserved(s) && Matched(s.landed) && FirstWith(s.requests, WordKey(s.fromhost)) < |s.requests|
    ensures Conserved(HandleInterrupt(s)) && Matched(HandleInterrupt(s).landed)
  {
    hide WordKey, LandedWords, LandedRecords, WordData, FirstWith, Without, MsgKeys;
    if s.fromhost != 0 {
      var i, t := FirstWith(s.requests, WordKey(s.fromhost)), HandleInterrupt(s);
      var m := s.requests[i].(data := WordData(s.fromhost));
      LandedAppend(s.landed, InRecord(m, s.fromhost));
      forall w ensures t.replied[w] == Places(t, w) {
        assert s.replied[w] == Places(s, w);
      }
      forall r ensures LandedRecords(t.landed)[r] == Returned(t, r) {
        assert LandedRecords(s.landed)[r] == Returned(s, r);
      }
    }
  }

  /** An answer to a waiting record is in order: the record is there, and takes it. */
  lemma InterruptKeeps(s: State)
    requires Inv(s) && (s.pc.Idle? || (s.pc.Waiting? && WordKey(s.fromhost) != CONSOLE))
    ensures Inv(HandleInterrupt(s))
  {
    hide WordKey, WordData, Balanced, Conserved, Matched;
    if s.fromhost != 0 {
      AnswerHasRecord(s);
      InterruptBalanced(s);
      InterruptConserved(s);
    }
  }

  /** A word accepted into the register stands for the record still to be linked, or for the
      poll; the zero word stands for nothing and its exchange is silent. */
  lemma SendKeeps(s: State)
    requires Inv(s) && Enabled(s, TrySend)
    ensures Inv(Step(s, TrySend))
  {
    hide MsgKeys, WordKeys, LandedWords, LandedRecords, Matched, WordKey, TohostCmd, Conserved;
    var t, m := Step(s, TrySend), s.pc.m;
    MsgWord(m);
    if s.tohost == 0 {
      forall k ensures Waits(t, k) == Exchanges(t, k) {
        assert Waits(s, k) == Exchanges(s, k);
        assert RegKey(t.tohost)[k] + t.silent[k] == s.silent[k] + multiset{m.Key()}[k];
      }
      SameAnswers(s, t);
    }
  }

  lemma PutKeeps(s: State)
    requires Inv(s) && Enabled(s, TryPut)
    ensures Inv(Step(s, TryPut))
  {
    hide MsgKeys, WordKeys, LandedWords, LandedRecords, Matched, WordKey, TohostCmd, Conserved;
    var t := Step(s, TryPut);
    ConsoleWord(s.pc.ch);
    if s.tohost == 0 {
      forall k ensures Waits(t, k) == Exchanges(t, k) {
        assert Waits(s, k) == Exchanges(s, k);
      }
      SameAnswers(s, t);
    }
  }

  lemma StartKeeps(s: State, e: Event)
    requires Inv(s) && Enabled(s, e) && (e.ReqStart? || e.PutStart?)
    ensures Inv(Step(s, e))
  {
    hide MsgKeys, WordKeys, LandedWords, LandedRecords, Matched, WordKey, TohostCmd, Conserved;
    var t := Step(s, e);
    forall k ensures Waits(t, k) == Exchanges(t, k) {
      assert Waits(s, k) == Exchanges(s, k);
    }
    SameAnswers(s, t);
  }

  /** A step that touches neither answers nor landings. */
  lemma SameAnswers(s: State, t: State)
    requires Conserved(s) && t.replied == s.replied && t.queue == s.queue
    requires t.fromhost == s.fromhost && t.landed == s.landed
    requires t.vanished == s.vanished && t.responses == s.responses && t.received == s.received
    ensures Conserved(t)
  {
    forall w ensures t.replied[w] == Places(t, w) {
      assert s.replied[w] == Places(s, w);
    }
    forall r ensures LandedRecords(t.landed)[r] == Returned(t, r) {
      assert LandedRecords(s.landed)[r] == Returned(s, r);
    }
  }

  lemma MsgWord(m: Msg)
    requires m.Valid()
    ensures WordKey(m.Word()) == m.Key() && WordData(m.Word()) == m.data
  {
    PackUnpack(m.dev, m.cmd, m.data);
  }

  lemma ConsoleWord(ch: int)
    requires 0 <= ch < 256
    ensures TohostCmd(1, 1, ch) != 0 && WordKey(TohostCmd(1, 1, ch)) == CONSOLE
  {
    PackUnpack(1, 1, ch);
  }

  lemma LinkKeeps(s: State)
    requires Inv(s) && Enabled(s, Link)
    ensures Inv(Step(s, Link))
  {
    hide MsgKeys, WordKeys, LandedWords, LandedRecords, Matched, WordKey, Conserved;
    var t := Step(s, Link);
    MsgKeysLink(s.pc.m, s.requests);
    forall k ensures Waits(t, k) == Exchanges(t, k) {
      assert Waits(s, k) == Exchanges(s, k);
    }
    SameAnswers(s, t);
  }

  /** The poll takes an answer for the console: its own, or one that stands in for it. */
  lemma PollKeeps(s: State)
    requires Inv(s) && Enabled(s, Poll)
    ensures Inv(Step(s, Poll))
  {
    hide MsgKeys, WordKeys, LandedWords, LandedRecords, WordKey, HandleInterrupt;
    if WordKey(s.fromhost) != CONSOLE {
      InterruptKeeps(s);
    } else {
      ConsoleTaken(s);
    }
  }

  lemma ConsoleTaken(s: State)
    requires Inv(s) && s.pc.Waiting? && WordKey(s.fromhost) == CONSOLE
    ensures Inv(s.(fromhost := 0, pc := Idle, landed := s.landed + [AtConsole(s.fromhost)]))
  {
    hide MsgKeys, WordKeys, LandedWords, LandedRecords, WordKey;
    var t := s.(fromhost := 0, pc := Idle, landed := s.landed + [AtConsole(s.fromhost)]);
    ZeroKey();
    LandedAppend(s.landed, AtConsole(s.fromhost));
    assert Balanced(t) by {
      forall k ensures Waits(t, k) == Exchanges(t, k) {
        assert Waits(s, k) == Exchanges(s, k);
      }
    }
    assert Conserved(t) by {
      forall w ensures t.replied[w] == Places(t, w) {
        assert s.replied[w] == Places(s, w);
      }
      forall r ensures LandedRecords(t.landed)[r] == Returned(t, r) {
        assert LandedRecords(s.landed)[r] == Returned(s, r);
      }
    }
  }

  lemma ZeroKey()
    ensures WordKey(0) == (0, 0)
  {
  }

  lemma ReceiveKeeps(s: State)
    requires Inv(s) && Enabled(s, Receive)
    ensures Inv(Step(s, Receive))
  {
    hide MsgKeys, WordKeys, LandedWords, LandedRecords, WordKey, Matched, Returned;
    var t := Step(s, Receive);
    forall k ensures Waits(t, k) == Exchanges(t, k) {
      assert Waits(s, k) == Exchanges(s, k);
    }
    forall w ensures t.replied[w] == Places(t, w) {
      assert s.replied[w] == Places(s, w);
    }
    forall r ensures LandedRecords(t.landed)[r] == Returned(t, r) {
      assert LandedRecords(s.landed)[r] == Returned(s, r);
      ReceivedIs(s, t, r);
    }
  }

  lemma ReceivedIs(s: State, t: State, r: Msg)
    requires s.responses != [] && t.responses == s.responses[1..]
    requires t.received == s.received + multiset{s.responses[0]}
    ensures Returned(t, r) == Returned(s, r)
  {
    assert s.responses == [s.responses[0]] + s.responses[1..];
  }

  // ---- the steps of the host ----

  lemma HostTakeKeeps(s: State)
    requires Inv(s) && Enabled(s, HostTake)
    ensures Inv(Step(s, HostTake))
  {
    hide MsgKeys, WordKeys, LandedWords, LandedRecords, Matched, WordKey, Conserved, RegKey, PcKey;
    var t := Step(s, HostTake);
    forall k ensures Waits(t, k) == Exchanges(t, k) {
      assert Waits(s, k) == Exchanges(s, k);
      AppendCount(s.host, s.tohost, k);
      RegCount(s.tohost, k);
      RegCount(0, k);
    }
    SameAnswers(s, t);
  }

  lemma HostReplyKeeps(s: State, i: nat, resp: Word)
    requires Inv(s) && Enabled(s, HostReply(i, resp))
    ensures Inv(Step(s, HostReply(i, resp)))
  {
    hide Balanced, Conserved, Matched, Respond;
    ReplyBalanced(s, i, resp);
    ReplyConserved(s, i, resp);
  }

  lemma ReplyBalanced(s: State, i: nat, resp: Word)
    requires Balanced(s) && Enabled(s, HostReply(i, resp))
    ensures Balanced(Step(s, HostReply(i, resp)))
  {
    hide MsgKeys, WordKeys, WordKey, Respond, RegKey, PcKey;
    var t, w := Step(s, HostReply(i, resp)), Respond(s.host[i], resp);
    RespondKey(s.host[i], resp);
    forall k ensures Waits(t, k) == Exchanges(t, k) {
      assert Waits(s, k) == Exchanges(s, k);
      WithoutCount(s.host, i, k);
      AppendCount(s.queue, w, k);
    }
  }

  lemma ReplyConserved(s: State, i: nat, resp: Word)
    requires Conserved(s) && Enabled(s, HostReply(i, resp))
    ensures Conserved(Step(s, HostReply(i, resp)))
  {
    hide LandedWords, LandedRecords, Respond, RegWord, Returned;
    var t := Step(s, HostReply(i, resp));
    forall x ensures t.replied[x] == Places(t, x) {
      assert s.replied[x] == Places(s, x);
    }
    forall r ensures LandedRecords(t.landed)[r] == Returned(t, r) {
      assert LandedRecords(s.landed)[r] == Returned(s, r) == Returned(t, r) by {
        ReturnedIs(s, t, r);
      }
    }
  }

  lemma HostDropKeeps(s: State, i: nat)
    requires Inv(s) && Enabled(s, HostDrop(i))
    ensures Inv(Step(s, HostDrop(i)))
  {
    hide MsgKeys, WordKeys, LandedWords, LandedRecords, Matched, WordKey, Conserved, RegKey, PcKey;
    var t := Step(s, HostDrop(i));
    forall k ensures Waits(t, k) == Exchanges(t, k) {
      assert Waits(s, k) == Exchanges(s, k);
      WithoutCount(s.host, i, k);
    }
    SameAnswers(s, t);
  }

  /** Delivery moves an answer into the empty register; only the zero word disappears there. */
  lemma HostDeliverKeeps(s: State)
    requires Inv(s) && Enabled(s, HostDeliver)
    ensures Inv(Step(s, HostDeliver))
    ensures s.fromhost == 0 ==> (Step(s, HostDeliver).vanished == s.vanished + 1 <==> s.queue[0] == 0)
  {
    hide Balanced, Conserved, Matched, WordKey;
    if s.fromhost == 0 {
      DeliverBalanced(s);
      DeliverConserved(s);
    }
  }

  lemma DeliverBalanced(s: State)
    requires Balanced(s) && Enabled(s, HostDeliver) && s.fromhost == 0
    ensures Balanced(Step(s, HostDeliver))
  {
    hide MsgKeys, WordKeys, WordKey, RegKey, PcKey;
    var t := Step(s, HostDeliver);
    assert Without(s.queue, 0) == s.queue[1..];
    forall k ensures Waits(t, k) == Exchanges(t, k) {
      assert Waits(s, k) == Exchanges(s, k);
      WithoutCount(s.queue, 0, k);
      RegCount(s.queue[0], k);
      RegCount(0, k);
    }
  }

  lemma DeliverConserved(s: State)
    requires Conserved(s) && Enabled(s, HostDeliver) && s.fromhost == 0
    ensures Conserved(Step(s, HostDeliver))
  {
    hide LandedWords, LandedRecords, WordKey, Returned;
    var t := Step(s, HostDeliver);
    forall x ensures t.replied[x] == Places(t, x) {
      assert s.replied[x] == Places(s, x);
      HeadCount(s.queue, x);
    }
    forall r ensures LandedRecords(t.landed)[r] == Returned(t, r) {
      assert LandedRecords(s.landed)[r] == Returned(s, r) == Returned(t, r) by {
        ReturnedIs(s, t, r);
      }
    }
  }

  lemma HeadCount(q: seq<Word>, x: Word)
    requires q != []
    ensures multiset(q)[x] == multiset(q[1..])[x] + if q[0] == x then 1 else 0
  {
    assert q == [q[0]] + q[1..];
  }

  lemma ReturnedIs(s: State, t: State, r: Msg)
    requires t.responses == s.responses && t.received == s.received
    ensures Returned(t, r) == Returned(s, r)
  {
  }

  // ---- runs ----

  lemma StepKeeps(s: State, e: Event)
    requires Inv(s) && Enabled(s, e)
    ensures Inv(Step(s, e))
  {
    hide Inv, WordKey, Respond;
    match e
    case ReqStart(_) => StartKeeps(s, e);
    case TrySend => SendKeeps(s);
    case Link => LinkKeeps(s);
    case Interrupt => InterruptKeeps(s);
    case Receive => ReceiveKeeps(s);
    case PutStart(_) => StartKeeps(s, e);
    case TryPut => PutKeeps(s);
    case Poll => PollKeeps(s);
    case HostTake => HostTakeKeeps(s);
    case HostReply(i, resp) => HostReplyKeeps(s, i, resp);
    case HostDrop(i) => HostDropKeeps(s, i);
    case HostDeliver => HostDeliverKeeps(s);
  }

  /** The states that a sequence of steps passes through. */
  predicate Runs(s: State, es: seq<Event>, t: State)
    decreases |es|
  {
    if es == [] then s == t else Enabled(s, es[0]) && Runs(Step(s, es[0]), es[1..], t)
  }

  predicate Init(s: State) {
    s == State(Idle, [], [], 0, 0, [], [], false, multiset{}, multiset{}, [], 0, multiset{})
  }

  lemma {:induction false} RunKeeps(s: State, es: seq<Event>, t: State)
    requires Inv(s) && Runs(s, es, t)
    ensures Inv(t)
    decreases |es|
  {
    hide Inv, Step;
    if es != [] {
      StepKeeps(s, es[0]);
      RunKeeps(Step(s, es[0]), es[1..], t);
    }
  }

  /** In every interleaving the handler finds a record for every answer. The records and polls
      that wait are exactly the exchanges under way or fallen silent; every answer given is in
      exactly one place; and those that landed did so in a record of their own device and
      command. */
  lemma ExactlyOnce(s: State, es: seq<Event>, t: State)
    requires Init(s) && Runs(s, es, t)
    ensures !t.panicked
    ensures forall k :: Waits(t, k) == Exchanges(t, k)
    ensures forall w :: t.replied[w] == Places(t, w)
    ensures forall m :: LandedRecords(t.landed)[m] == Returned(t, m)
    ensures Matched(t.landed)
  {
    hide Waits, Exchanges, Places, Returned, LandedRecords, Runs, Matched;
    assert Inv(s) by { InitKeeps(s); }
    RunKeeps(s, es, t);
  }

  lemma InitKeeps(s: State)
    requires Init(s)
    ensures Inv(s)
  {
  }

  /** An answer is the zero word exactly when device, command and payload are all zero. */
  lemma ZeroAnswer(tohost: Word, resp: Word)
    ensures Respond(tohost, resp) == 0 <==> WordKey(tohost) == (0, 0) && WordData(resp) == 0
  {
    hide Respond, WordDev, WordCmd, WordData, TohostCmd;
    RespondKey(tohost, resp);
    ZeroParts(Respond(tohost, resp));
  }

  lemma ZeroParts(w: Word)
    ensures w == 0 <==> WordDev(w) == 0 && WordCmd(w) == 0 && WordData(w) == 0
  {
    hide WordDev, WordCmd, WordData, TohostCmd;
    UnpackPack(w);
    PackUnpack(0, 0, 0);
    ZeroWord();
  }

  lemma ZeroWord()
    ensures TohostCmd(0, 0, 0) == 0
  {
  }

  // ---- the devices of the front end ----

  /** What the registered devices answer: device 0 is the system call proxy and answers one;
      device 1 is the console and answers a character above a mark; both answer one to a query
      of their identity, and no other command. Devices registered later answer anything. */
  predicate DeviceAnswers(w: Word, resp: Word) {
    var dev, cmd := WordDev(w), WordCmd(w);
    && (dev == 0 ==> (cmd == 0 || cmd == 255) && resp == 1)
    && (dev == 1 ==>
          || (cmd == 0 && 0x100 <= resp < 0x200)
          || (cmd == 1 && resp == 0x100 + WordData(w) % 0x100)
          || (cmd == 255 && resp == 1))
  }

  /** All answers of a run are the devices'. */
  ghost predicate FromDevices(s: State, es: seq<Event>)
    decreases |es|
  {
    es != [] && Enabled(s, es[0]) ==>
      && (es[0].HostReply? ==> DeviceAnswers(s.host[es[0].i], es[0].resp))
      && FromDevices(Step(s, es[0]), es[1..])
  }

  /** Neither given nor under way. */
  ghost predicate NoZero(s: State) {
    s.vanished == 0 && s.replied[0] == 0 && 0 !in s.queue
  }

  lemma StepNoZero(s: State, e: Event)
    requires NoZero(s) && Enabled(s, e) && (e.HostReply? ==> DeviceAnswers(s.host[e.i], e.resp))
    ensures NoZero(Step(s, e))
  {
    hide WordKey, Respond, WordDev, WordCmd, TohostCmd, FirstWith;
    if e.HostReply? {
      ZeroAnswer(s.host[e.i], e.resp);
      OneIsData();
      assert WordKey(s.host[e.i]) == (0, 0) ==> WordDev(s.host[e.i]) == 0 by { KeyParts(s.host[e.i]); }
    }
  }

  lemma KeyParts(w: Word)
    ensures WordKey(w) == (WordDev(w), WordCmd(w))
  {
  }

  lemma OneIsData()
    ensures WordData(1) == 1
  {
  }

  lemma {:induction false} RunNoZero(s: State, es: seq<Event>, t: State)
    requires NoZero(s) && Runs(s, es, t) && FromDevices(s, es)
    ensures NoZero(t)
    decreases |es|
  {
    hide Step, Enabled, NoZero, DeviceAnswers;
    if es != [] {
      StepNoZero(s, es[0]);
      RunNoZero(Step(s, es[0]), es[1..], t);
    }
  }

  /** With the front end's devices nothing vanishes: every answer given is in the queue, in the
      register, in a record or at the console. */
  lemma NothingVanishes(s: State, es: seq<Event>, t: State)
    requires Init(s) && Runs(s, es, t) && FromDevices(s, es)
    ensures t.vanished == 0
    ensures forall w :: t.replied[w] == multiset(t.queue)[w] + RegWord(t.fromhost)[w] + LandedWords(t.landed)[w]
  {
    hide Runs, FromDevices, RegWord, LandedWords;
    ExactlyOnce(s, es, t);
    RunNoZero(s, es, t);
    forall w ensures t.replied[w] == multiset(t.queue)[w] + RegWord(t.fromhost)[w] + LandedWords(t.landed)[w] {
      assert t.replied[w] == Places(t, w);
    }
  }

  lemma {:induction false} RunsAppend(s: State, es: seq<Event>, t: State, e: Event)
    requires Runs(s, es, t) && Enabled(t, e)
    ensures Runs(s, es + [e], Step(t, e))
    decreases |es|
  {
    hide Step, Enabled;
    if es == [] {
      assert es + [e] == [e] && [e][1..] == [];
      assert Runs(Step(t, e), [], Step(t, e));
    } else {
      RunsAppend(Step(s, es[0]), es[1..], t, e);
      assert (es + [e])[1..] == es[1..] + [e];
    }
  }

  /** A request is sent, linked and taken by the host. */
  lemma RequestTaken(s: State, m: Msg) returns (es: seq<Event>, t: State)
    requires Init(s) && m.Valid() && m.Word() != 0
    ensures Runs(s, es, t) && t == s.(requests := [m], host := [m.Word()])
  {
    hide Runs, WordKey, TohostCmd;
    RunsNone(s);
    t, es := Then(s, [], s, ReqStart(m), s.(pc := Sending(m)));
    t, es := Then(s, es, t, TrySend, t.(tohost := m.Word(), pc := Linking(m)));
    t, es := Then(s, es, t, Link, t.(requests := [m], pc := Idle));
    t, es := Then(s, es, t, HostTake, t.(tohost := 0, host := [m.Word()]));
  }

  /** A zero answer to a request of device 0, command 0 is given and never arrives. */
  lemma ZeroAnswerLost(s: State, m: Msg, zero: Word) returns (es: seq<Event>, t: State)
    requires Init(s) && m.Valid() && m.Key() == (0, 0) && m.data != 0 && zero == 0
    ensures Runs(s, es, t) && t.replied == multiset{zero}
    ensures t.requests == [m] && t.queue == [] && t.fromhost == 0 && t.landed == []
  {
    hide Runs, WordKey, Respond, TohostCmd;
    RequestWord(m, zero);
    es, t := RequestTaken(s, m);
    t, es := Then(s, es, t, HostReply(0, zero), t.(host := [], queue := [zero], replied := multiset{zero}));
    t, es := Then(s, es, t, HostDeliver, t.(queue := [], silent := multiset{WordKey(zero)}, vanished := 1));
  }

  lemma RunsNone(s: State)
    ensures Runs(s, [], s)
  {
  }

  lemma RequestWord(m: Msg, zero: Word)
    requires m.Valid() && m.Key() == (0, 0) && m.data != 0 && zero == 0
    ensures m.Word() != 0 && Respond(m.Word(), zero) == 0
  {
    MsgWord(m);
    ZeroAnswer(m.Word(), zero);
  }

  /** One more step, to a known state. */
  lemma Then(s: State, es: seq<Event>, t: State, e: Event, u: State) returns (t': State, es': seq<Event>)
    requires Runs(s, es, t) && Enabled(t, e) && Step(t, e) == u
    ensures t' == u && es' == es + [e] && Runs(s, es', u)
  {
    hide Step, Enabled, Runs;
    RunsAppend(s, es, t, e);
    t', es' := u, es + [e];
  }
}
