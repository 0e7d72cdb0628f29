/**
 A hart's device queues as the machine-mode code keeps them: message records in supervisor
 memory, linked through their private fields and relinked in place.
*/
module DeviceQueue {

  import opened Machine
  import opened Htif
  import opened Exchange

  /** A message record; the link is the address of the next one, zero at the end. */
  datatype Record = Record(dev: int, cmd: int, data: int, link: int)

  type Memory = map<int, Record>

  function LinkAfter(addrs: seq<int>, i: int): int {
    if 0 <= i + 1 < |addrs| then addrs[i + 1] else 0
  }

  /** The records at these addresses form the list that starts at the head. */
  ghost predicate Linked(mem: Memory, head: int, addrs: seq<int>) {
    && head == LinkAfter(addrs, -1)
    && (forall i :: 0 <= i < |addrs| ==> addrs[i] != 0 && addrs[i] in mem && mem[addrs[i]].link == LinkAfter(addrs, i))
    && (forall i, j :: 0 <= i < j < |addrs| ==> addrs[i] != addrs[j])
  }

  ghost function MsgAt(mem: Memory, a: int): Msg
    requires a in mem
  {
    Msg(a, mem[a].dev, mem[a].cmd, mem[a].data)
  }

  ghost function Msgs(mem: Memory, addrs: seq<int>): seq<Msg>
    requires forall i :: 0 <= i < |addrs| ==> addrs[i] in mem
  {
    seq(|addrs|, i requires 0 <= i < |addrs| => MsgAt(mem, addrs[i]))
  }

  /** A word for key k makes the handler panic: no request waits for it, or, unless the trap
      came from machine mode, a request on the way lies where the supervisor may not reach. */
  ghost predicate Panics(ms: seq<Msg>, k: Key, usable: set<int>, machine: bool) {
    var i := FirstWith(ms, k);
    i == |ms| || (!machine && Unusable(ms, usable, i + 1))
  }

  ghost predicate Unusable(ms: seq<Msg>, usable: set<int>, n: nat) {
    exists j :: 0 <= j < n && j < |ms| && ms[j].addr !in usable
  }

  class Hart {
    const usable: set<int>  // addresses that the supervisor may pass
    var mem: Memory
    var requestHead: int
    var requestSize: int
    var responseHead: int
    var responseTail: int
    var fromhost: Word
    var ssip: bool
    var ipiPending: bool
    ghost var requests: seq<int>
    ghost var responses: seq<int>

    ghost predicate Valid()
      reads this
    {
      && Linked(mem, requestHead, requests) && requestSize == |requests|
      && Linked(mem, responseHead, responses)
      && responseTail == (if responses == [] then 0 else responses[|responses| - 1])
      && (forall a :: a in requests ==> a !in responses)
      && (responses != [] ==> ssip)
      && 0 !in usable && usable <= mem.Keys
    }

    constructor (records: Memory, addresses: set<int>)
      requires 0 !in addresses && addresses <= records.Keys
      ensures Valid() && requests == [] && responses == [] && mem == records && usable == addresses
    {
      usable, mem := addresses, records;
      requestHead, requestSize, responseHead, responseTail := 0, 0, 0, 0;
      fromhost, ssip, ipiPending := 0, false, false;
      requests, responses := [], [];
    }

    ghost function RequestMsgs(): seq<Msg>
      requires Valid()
      reads this
    {
      Msgs(mem, requests)
    }

    ghost function ResponseMsgs(): seq<Msg>
      requires Valid()
      reads this
    {
      Msgs(mem, responses)
    }

    /** Links a record whose word the register has accepted, at the head of the requests. The
        queues stay lists exactly if the record was in neither of them. */
    method LinkRequest(m: int)
      requires Valid() && m != 0 && m in mem
      modifies `mem, `requestHead, `requestSize, `requests
      ensures mem == old(mem)[m := old(mem)[m].(link := old(requestHead))]
      ensures requestHead == m && requestSize == old(requestSize) + 1 && requests == [m] + old(requests)
      ensures Valid() <==> m !in old(requests) && m !in responses
      ensures m in old(requests) ==> forall addrs :: |addrs| == requestSize ==> !Linked(mem, requestHead, addrs)
      ensures Valid() ==> RequestMsgs() == [old(MsgAt(mem, m))] + old(RequestMsgs())
      ensures Valid() ==> ResponseMsgs() == old(ResponseMsgs())
    {
      hide Linked, Msgs;
      ghost var before, head, queued := mem, requestHead, requests;
      mem := mem[m := mem[m].(link := requestHead)];
      requestHead := m;
      requestSize := requestSize + 1;
      requests := [m] + requests;
      if m !in queued && m !in responses {
        LinkedIn(before, responseHead, responses);
        LinkedCons(before, head, queued, m);
        LinkedFrame(before, mem, responseHead, responses);
      } else if m in queued {
        forall addrs: seq<int> | |addrs| == requestSize ensures !Linked(mem, requestHead, addrs) {
          NoListLeft(before, head, queued, m, mem, addrs);
        }
      } else {
        assert m in requests;
      }
    }

    /** Takes record m out of the requests; prev is the record before it, zero at the head. */
    method Unlink(m: int, prev: int, ghost i: nat)
      requires Valid() && i < |requests| && m == requests[i] && prev == (if i == 0 then 0 else requests[i - 1])
      modifies `mem, `requestHead, `requestSize, `requests
      ensures Valid() && requests == Without(old(requests), i)
      ensures m in mem && m != 0 && m !in requests && m !in responses && MsgAt(mem, m) == old(MsgAt(mem, m))
      ensures RequestMsgs() == Without(old(RequestMsgs()), i)
      ensures ResponseMsgs() == old(ResponseMsgs())
    {
      hide Linked, Msgs;
      LinkedAt(mem, requestHead, requests, i);
      if i > 0 {
        LinkedAt(mem, requestHead, requests, i - 1);
      }
      LinkedIn(mem, responseHead, responses);
      LinkedWithout(mem, requestHead, requests, i);
      ghost var before := mem;
      var next := mem[m].link;
      if prev != 0 {
        mem := mem[prev := mem[prev].(link := next)];
      } else {
        requestHead := next;
      }
      requestSize := requestSize - 1;
      requests := Without(requests, i);
      LinkedFrame(before, mem, responseHead, responses);
    }

    /** Appends a record to the responses and signals the supervisor. */
    method Enqueue(m: int)
      requires Valid() && m != 0 && m in mem && m !in requests && m !in responses
      modifies `mem, `responseHead, `responseTail, `ssip, `responses
      ensures Valid() && ssip && responses == old(responses) + [m]
      ensures RequestMsgs() == old(RequestMsgs())
      ensures ResponseMsgs() == old(ResponseMsgs()) + [old(MsgAt(mem, m))]
    {
      hide Linked, Msgs;
      LinkedIn(mem, requestHead, requests);
      LinkedAppend(mem, responseHead, responses, m);
      ghost var before := mem;
      mem := mem[m := mem[m].(link := 0)];
      if responseTail != 0 {
        mem := mem[responseTail := mem[responseTail].(link := m)];
      } else {
        responseHead := m;
      }
      responseTail := m;
      ssip := true;
      responses := responses + [m];
      LinkedFrame(before, mem, requestHead, requests);
    }

    /** Takes the word in the register and gives it to the first record of its device and
        command; `machine` tells whether the trap came from machine mode. */
    method HtifInterrupt(machine: bool) returns (panicked: bool)
      requires Valid()
      modifies this
      ensures Valid() && fromhost == 0 && ipiPending == old(ipiPending)
      ensures old(fromhost) == 0 ==> !panicked && ssip == old(ssip)
      ensures old(fromhost) == 0 ==> RequestMsgs() == old(RequestMsgs()) && ResponseMsgs() == old(ResponseMsgs())
      ensures panicked ==>
                RequestMsgs() == old(RequestMsgs()) && ResponseMsgs() == old(ResponseMsgs()) && ssip == old(ssip)
      ensures old(fromhost) != 0 ==>
                var i := FirstWith(old(RequestMsgs()), WordKey(old(fromhost)));
                && (panicked <==> Panics(old(RequestMsgs()), WordKey(old(fromhost)), usable, machine))
                && (!panicked ==>
                      && ssip && RequestMsgs() == Without(old(RequestMsgs()), i)
                      && ResponseMsgs() == old(ResponseMsgs())
                            + [old(RequestMsgs())[i].(data := WordData(old(fromhost)))])
    {
      hide Linked, WordDev, WordCmd, WordData, FirstWith, Unusable;
      var word := fromhost;
      fromhost := 0;
      if word == 0 {
        return false;
      }
      var dev, cmd, data := WordDev(word), WordCmd(word), WordData(word);
      var m, prev, i := requestHead, 0, 0;
      ghost var ms := RequestMsgs();
      LinkedHead(mem, requestHead, requests);
      NoneUnusable(ms, usable);
      while i < requestSize
        invariant 0 <= i <= |requests| && Valid() && mem == old(mem)
        invariant requests == old(requests) && responses == old(responses)
        invariant requestSize == old(requestSize) && requestHead == old(requestHead)
        invariant responseHead == old(responseHead)
        invariant ssip == old(ssip) && ipiPending == old(ipiPending) && fromhost == 0
        invariant m == LinkAfter(requests, i - 1) && prev == if i == 0 then 0 else requests[i - 1]
        invariant forall j :: 0 <= j < i ==> ms[j].Key() != WordKey(word)
        invariant !machine ==> !Unusable(ms, usable, i)
      {
        LinkedAt(mem, requestHead, requests, i);
        NextUnusable(ms, usable, i);
        if m !in usable && !machine {
          UnusableStops(ms, WordKey(word), usable, i);
          return true;
        }
        var next := mem[m].link;
        if mem[m].dev == dev && mem[m].cmd == cmd {
          FirstIs(ms, WordKey(word), i);
          Answer(m, prev, data, i);
          return false;
        }
        prev := m;
        m := next;
        i := i + 1;
      }
      FirstIs(ms, WordKey(word), i);
      return true;
    }

    /** Fills in the data of a request and moves it to the responses. */
    method Answer(m: int, prev: int, data: int, ghost i: nat)
      requires Valid() && i < |requests| && m == requests[i] && prev == (if i == 0 then 0 else requests[i - 1])
      modifies `mem, `requestHead, `requestSize, `requests, `responseHead, `responseTail, `responses, `ssip
      ensures Valid() && ssip && RequestMsgs() == Without(old(RequestMsgs()), i)
      ensures ResponseMsgs() == old(ResponseMsgs()) + [old(RequestMsgs())[i].(data := data)]
    {
      hide Linked, Msgs;
      LinkedAt(mem, requestHead, requests, i);
      LinkedIn(mem, responseHead, responses);
      LinkedData(mem, requestHead, requests, i, data);
      MsgsAt(mem, requests, i);
      ghost var before := mem;
      mem := mem[m := mem[m].(data := data)];
      LinkedFrame(before, mem, responseHead, responses);
      Unlink(m, prev, i);
      Enqueue(m);
    }

    /** Checks a request, sends its word once the register accepts it and links its record,
        also when the record is still in a queue.
        Outside machine mode an address the supervisor may not use is refused. The values that
        the register holds at successive attempts are given; if none of them is zero the call
        is still spinning. */
    method DevReq(m: int, machine: bool, tohost: seq<Word>) returns (spinning: bool, r: int, word: Word, tries: nat)
      requires Valid() && (machine ==> m != 0 && m in mem)
      requires m in mem ==> mem[m].dev >= 0 && mem[m].cmd >= 0 && mem[m].data >= 0
      modifies `mem, `requestHead, `requestSize, `requests
      ensures Valid() ==> ResponseMsgs() == old(ResponseMsgs())
      ensures Valid() <==> spinning || r != 0 || (m !in old(requests) && m !in old(responses))
      ensures m !in usable && !machine ==> !spinning && r == -EFAULT
      ensures m in usable || machine ==> m in old(mem)
      ensures (m in usable || machine) && !MsgAt(old(mem), m).Valid() ==> !spinning && r == -EINVAL
      ensures (m in usable || machine) && MsgAt(old(mem), m).Valid() ==>
                && (spinning <==> forall j :: 0 <= j < |tohost| ==> tohost[j] != 0)
                && (!spinning ==> && r == 0 && tries < |tohost| && tohost[tries] == 0
                                  && (forall j :: 0 <= j < tries ==> tohost[j] != 0)
                                  && WordDev(word) == old(mem)[m].dev && WordCmd(word) == old(mem)[m].cmd
                                  && WordData(word) == word % 0x1_0000_0000_0000 == old(mem)[m].data
                                  && word == MsgAt(old(mem), m).Word() && requests == [m] + old(requests)
                                  && mem == old(mem)[m := old(mem)[m].(link := old(requestHead))]
                                  && requestHead == m && requestSize == old(requestSize) + 1
                                  && (Valid() ==> RequestMsgs() == [MsgAt(old(mem), m)] + old(RequestMsgs())))
      ensures spinning || r != 0 ==> RequestMsgs() == old(RequestMsgs())
    {
      hide Linked;
      tries := 0;
      if m !in usable && !machine {
        return false, -EFAULT, 0, tries;
      }
      var rec := mem[m];
      if rec.dev > 0xFF || rec.cmd > 0xFF || rec.data > 0xFFFF_FFFF_FFFF {
        return false, -EINVAL, 0, tries;
      }
      word := TohostCmd(rec.dev, rec.cmd, rec.data);
      PackUnpack(rec.dev, rec.cmd, rec.data);
      while tries < |tohost| && tohost[tries] != 0
        invariant tries <= |tohost| && forall j :: 0 <= j < tries ==> tohost[j] != 0
      {
        tries := tries + 1;
      }
      if tries == |tohost| {
        return true, 0, word, tries;
      }
      LinkRequest(m);
      return false, 0, word, tries;
    }

    /** Hands the oldest response back, after taking in what the host has delivered. */
    method DevResp(machine: bool) returns (panicked: bool, m: int, ghost taken: seq<Msg>)
      requires Valid()
      modifies this
      ensures old(fromhost) == 0 ==> !panicked && taken == old(ResponseMsgs())
      ensures old(fromhost) != 0 ==>
                var i := FirstWith(old(RequestMsgs()), WordKey(old(fromhost)));
                && (panicked <==> Panics(old(RequestMsgs()), WordKey(old(fromhost)), usable, machine))
                && (!panicked ==>
                     taken == old(ResponseMsgs()) + [old(RequestMsgs())[i].(data := WordData(old(fromhost)))])
      ensures !panicked ==> Valid() && fromhost == 0 && ipiPending == old(ipiPending)
      ensures !panicked ==>
                RequestMsgs() == if old(fromhost) == 0 then old(RequestMsgs())
                                 else Without(old(RequestMsgs()), FirstWith(old(RequestMsgs()), WordKey(old(fromhost))))
      ensures !panicked && m == 0 ==> taken == [] && ResponseMsgs() == []
      ensures !panicked && m != 0 ==> taken != [] && taken[0].addr == m && ResponseMsgs() == taken[1..]
      ensures !panicked && m != 0 ==> m in mem && MsgAt(mem, m) == taken[0]
      ensures !panicked && m == 0 ==> ssip == old(ssip)
      ensures !panicked && m != 0 ==> ssip == (|taken| > 1 || ipiPending)
    {
      hide Linked, FirstWith, WordKey, WordData;
      panicked := HtifInterrupt(machine);
      taken := ResponseMsgs();
      if panicked {
        return true, 0, taken;
      }
      m := responseHead;
      LinkedHead(mem, responseHead, responses);
      LinkedIn(mem, responseHead, responses);
      if m != 0 {
        LinkedTail(mem, responseHead, responses);
        var next := mem[m].link;
        responseHead := next;
        responses := responses[1..];
        if next == 0 {
          responseTail := 0;
          ssip := false;
          if ipiPending {
            ssip := true;
          }
        }
      }
    }
  }

  /** A record linked again in front of the list it is in leads back to itself. */
  lemma NoListLeft(mem: Memory, head: int, queued: seq<int>, m: int, mem': Memory, addrs: seq<int>)
    requires Linked(mem, head, queued) && m in queued && m in mem && |addrs| == |queued| + 1
    requires mem' == mem[m := mem[m].(link := head)]
    ensures !Linked(mem', m, addrs)
  {
    if Linked(mem', m, addrs) {
      var i :| 0 <= i < |queued| && queued[i] == m;
      Follows(mem, head, queued, m, mem', addrs, i, i);
    }
  }

  lemma {:induction false} Follows(mem: Memory, head: int, queued: seq<int>, m: int, mem': Memory, addrs: seq<int>,
                                   i: nat, k: nat)
    requires Linked(mem, head, queued) && i < |queued| && queued[i] == m && m in mem && |addrs| == |queued| + 1
    requires mem' == mem[m := mem[m].(link := head)] && Linked(mem', m, addrs) && k <= i
    ensures addrs[0] == m && addrs[k + 1] == queued[k]
  {
    assert mem'[addrs[0]].link == LinkAfter(addrs, 0);
    if k > 0 {
      Follows(mem, head, queued, m, mem', addrs, i, k - 1);
      assert queued[k - 1] != m;
      assert mem'[addrs[k]].link == LinkAfter(addrs, k);
    }
  }

  lemma NoneUnusable(ms: seq<Msg>, usable: set<int>)
    ensures !Unusable(ms, usable, 0)
  {
  }

  lemma NextUnusable(ms: seq<Msg>, usable: set<int>, i: nat)
    requires i < |ms|
    ensures Unusable(ms, usable, i + 1) <==> Unusable(ms, usable, i) || ms[i].addr !in usable
  {
  }

  /** A record out of reach stops the handler before any later match. */
  lemma UnusableStops(ms: seq<Msg>, k: Key, usable: set<int>, i: nat)
    requires i < |ms| && ms[i].addr !in usable && forall j :: 0 <= j < i ==> ms[j].Key() != k
    ensures Panics(ms, k, usable, false)
  {
    assert FirstWith(ms, k) >= i;
  }

  lemma LinkedTail(mem: Memory, head: int, addrs: seq<int>)
    requires Linked(mem, head, addrs) && addrs != []
    ensures addrs[0] in mem && Linked(mem, mem[addrs[0]].link, addrs[1..])
    ensures (forall j :: 0 <= j < |addrs| ==> addrs[j] in mem)
    ensures (forall j :: 0 <= j < |addrs[1..]| ==> addrs[1..][j] in mem)
    ensures Msgs(mem, addrs[1..]) == Msgs(mem, addrs)[1..] && mem[addrs[0]].link == LinkAfter(addrs, 0)
  {
  }

  lemma MsgsAt(mem: Memory, addrs: seq<int>, i: nat)
    requires i < |addrs| && forall j :: 0 <= j < |addrs| ==> addrs[j] in mem
    ensures |Msgs(mem, addrs)| == |addrs| && Msgs(mem, addrs)[i] == MsgAt(mem, addrs[i])
  {
  }

  lemma LinkedHead(mem: Memory, head: int, addrs: seq<int>)
    requires Linked(mem, head, addrs)
    ensures head == LinkAfter(addrs, -1)
  {
  }

  lemma FirstIs(ms: seq<Msg>, k: Key, i: nat)
    requires i <= |ms| && (forall j :: 0 <= j < i ==> ms[j].Key() != k) && (i < |ms| ==> ms[i].Key() == k)
    ensures FirstWith(ms, k) == i
  {
  }

  /** Writing the data of one record. */
  lemma LinkedData(mem: Memory, head: int, addrs: seq<int>, i: nat, data: int)
    requires Linked(mem, head, addrs) && i < |addrs| && addrs[i] in mem
    ensures var mem' := mem[addrs[i] := mem[addrs[i]].(data := data)];
            && Linked(mem', head, addrs)
            && (forall j :: 0 <= j < |addrs| ==> addrs[j] in mem && addrs[j] in mem')
            && Msgs(mem', addrs) == Msgs(mem, addrs)[i := Msgs(mem, addrs)[i].(data := data)]
            && Without(Msgs(mem', addrs), i) == Without(Msgs(mem, addrs), i)
  {
  }

  /** Appending a record: the last one, or the head, now leads to it. */
  lemma LinkedAppend(mem: Memory, head: int, addrs: seq<int>, m: int)
    requires Linked(mem, head, addrs) && m != 0 && m in mem && m !in addrs
    ensures (forall j :: 0 <= j < |addrs| ==> addrs[j] in mem) && 0 !in addrs
    ensures var end := mem[m := mem[m].(link := 0)];
            var last := if addrs == [] then m else addrs[|addrs| - 1];
            var mem' := if addrs == [] then end else end[last := end[last].(link := m)];
            && Linked(mem', if addrs == [] then m else head, addrs + [m])
            && (forall j :: 0 <= j <= |addrs| ==> (addrs + [m])[j] in mem')
            && Msgs(mem', addrs + [m]) == Msgs(mem, addrs) + [MsgAt(mem, m)]
  {
  }

  lemma LinkedIn(mem: Memory, head: int, addrs: seq<int>)
    requires Linked(mem, head, addrs)
    ensures forall i :: 0 <= i < |addrs| ==> addrs[i] in mem
    ensures 0 !in addrs
  {
  }

  lemma LinkedAt(mem: Memory, head: int, addrs: seq<int>, i: nat)
    requires Linked(mem, head, addrs) && i < |addrs|
    ensures addrs[i] != 0 && addrs[i] in mem && mem[addrs[i]].link == LinkAfter(addrs, i)
    ensures (forall j :: 0 <= j < |addrs| ==> addrs[j] in mem) && head == addrs[0]
  {
  }

  /** Writes outside a list, or to the data of its records, leave it linked. */
  lemma LinkedFrame(mem: Memory, mem': Memory, head: int, addrs: seq<int>)
    requires Linked(mem, head, addrs)
    requires forall a :: a in addrs && a in mem ==>
               a in mem' && mem'[a].link == mem[a].link && MsgAt(mem', a) == MsgAt(mem, a)
    ensures Linked(mem', head, addrs) && (forall i :: 0 <= i < |addrs| ==> addrs[i] in mem && addrs[i] in mem')
    ensures Msgs(mem', addrs) == Msgs(mem, addrs)
  {
    forall i | 0 <= i < |addrs|
      ensures addrs[i] in mem' && mem'[addrs[i]].link == mem[addrs[i]].link
      ensures MsgAt(mem', addrs[i]) == MsgAt(mem, addrs[i])
    {
      assert addrs[i] in addrs;
    }
  }

  /** Passing the link of a record on to the record before it, or to the head. */
  lemma LinkedWithout(mem: Memory, head: int, addrs: seq<int>, i: nat)
    requires Linked(mem, head, addrs) && i < |addrs|
    ensures addrs[i] in mem && (i > 0 ==> addrs[i - 1] in mem)
    ensures var mem' := Bypass(mem, addrs, i);
            && Linked(mem', if i == 0 then mem[addrs[i]].link else head, Without(addrs, i))
            && (forall j :: 0 <= j < |addrs| ==> addrs[j] in mem)
            && (forall j :: 0 <= j < |addrs| - 1 ==> Without(addrs, i)[j] in mem')
            && Msgs(mem', Without(addrs, i)) == Without(Msgs(mem, addrs), i)
            && addrs[i] !in Without(addrs, i)
  {
    hide Msgs, Bypass, LinkAfter, MsgAt;
    var mem', rest := Bypass(mem, addrs, i), Without(addrs, i);
    forall j | 0 <= j < |rest|
      ensures rest[j] != 0 && rest[j] in mem' && rest[j] in mem
      ensures mem'[rest[j]].link == LinkAfter(rest, j) && MsgAt(mem', rest[j]) == MsgAt(mem, rest[j])
    {
      BypassAt(mem, head, addrs, i, j);
    }
    HeadAfter(mem, head, addrs, i);
    MsgsWithout(mem, mem', addrs, i);
  }

  lemma HeadAfter(mem: Memory, head: int, addrs: seq<int>, i: nat)
    requires Linked(mem, head, addrs) && i < |addrs|
    ensures addrs[i] in mem && (if i == 0 then mem[addrs[i]].link else head) == LinkAfter(Without(addrs, i), -1)
  {
  }

  lemma BypassAt(mem: Memory, head: int, addrs: seq<int>, i: nat, j: nat)
    requires Linked(mem, head, addrs) && i < |addrs| && j < |addrs| - 1
    ensures addrs[i] in mem && (i > 0 ==> addrs[i - 1] in mem)
    ensures var mem', rest := Bypass(mem, addrs, i), Without(addrs, i);
            && rest[j] != 0 && rest[j] in mem' && rest[j] in mem
            && mem'[rest[j]].link == LinkAfter(rest, j) && MsgAt(mem', rest[j]) == MsgAt(mem, rest[j])
  {
    var rest := Without(addrs, i);
    if j < i {
      assert rest[j] == addrs[j];
      assert j + 1 < i ==> rest[j + 1] == addrs[j + 1];
    } else {
      assert rest[j] == addrs[j + 1];
      assert i > 0 ==> addrs[i - 1] != addrs[j + 1];
    }
  }

  /** Memory in which the record before i links to the one after it. */
  ghost function Bypass(mem: Memory, addrs: seq<int>, i: nat): Memory
    requires i < |addrs| && addrs[i] in mem && (i > 0 ==> addrs[i - 1] in mem)
  {
    if i == 0 then mem else mem[addrs[i - 1] := mem[addrs[i - 1]].(link := mem[addrs[i]].link)]
  }

  lemma MsgsWithout(mem: Memory, mem': Memory, addrs: seq<int>, i: nat)
    requires i < |addrs| && (forall j :: 0 <= j < |addrs| ==> addrs[j] in mem)
    requires forall j :: 0 <= j < |addrs| - 1 ==>
               Without(addrs, i)[j] in mem' && Without(addrs, i)[j] in mem
               && MsgAt(mem', Without(addrs, i)[j]) == MsgAt(mem, Without(addrs, i)[j])
    ensures Msgs(mem', Without(addrs, i)) == Without(Msgs(mem, addrs), i)
  {
    var rest := Without(addrs, i);
    forall j | 0 <= j < |rest| ensures Msgs(mem', rest)[j] == Without(Msgs(mem, addrs), i)[j] {
      assert rest[j] == if j < i then addrs[j] else addrs[j + 1];
    }
  }

  /** A record put in front of a list. */
  lemma LinkedCons(mem: Memory, head: int, addrs: seq<int>, m: int)
    requires Linked(mem, head, addrs) && m != 0 && m in mem && m !in addrs
    ensures (forall j :: 0 <= j < |addrs| ==> addrs[j] in mem)
    ensures var mem' := mem[m := mem[m].(link := head)];
            && Linked(mem', m, [m] + addrs)
            && (forall j :: 0 <= j <= |addrs| ==> ([m] + addrs)[j] in mem')
            && Msgs(mem', [m] + addrs) == [MsgAt(mem, m)] + Msgs(mem, addrs)
  {
    var mem', all := mem[m := mem[m].(link := head)], [m] + addrs;
    forall i | 0 <= i < |all| ensures all[i] != 0 && all[i] in mem' && mem'[all[i]].link == LinkAfter(all, i) {
      if i > 0 {
        assert all[i] == addrs[i - 1] && addrs[i - 1] != m;
      }
    }
  }
}
