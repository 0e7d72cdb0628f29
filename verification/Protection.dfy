/**
 Changing the protection of a range: page by page, up to the first page that is missing or
 refuses.
*/
module Protection {

  import opened Machine
  import opened PageTable
  import opened Mappings
  import opened AddressSpace
  import opened Isolation
  import opened Effects

  function ProtectRange(st: Space, p: int, n: nat, prot: bv32): Outcome {
    if n == 0 then Done(0, st)
    else
      var o := ProtectRange(st, p, n - 1, prot);
      if !o.Done? || o.status != 0 then o else Protect(o.st, SlotOf(p + n - 1), prot)
  }

  lemma ProtectNone(st: Space, p: int, prot: bv32)
    ensures ProtectRange(st, p, 0, prot) == Done(0, st)
  {
  }

  lemma ProtectNext(st: Space, p: int, k: nat, prot: bv32)
    requires ProtectRange(st, p, k, prot).Done? && ProtectRange(st, p, k, prot).status == 0
    ensures ProtectRange(st, p, k + 1, prot) == Protect(ProtectRange(st, p, k, prot).st, SlotOf(p + k), prot)
  {
  }

  lemma {:induction false} ProtectStops(st: Space, p: int, k: nat, n: nat, prot: bv32)
    requires k <= n && ProtectRange(st, p, k, prot).Done? && ProtectRange(st, p, k, prot).status != 0
    ensures ProtectRange(st, p, n, prot) == ProtectRange(st, p, k, prot)
    decreases n
  {
    if k < n {
      ProtectStops(st, p, k, n - 1, prot);
    }
  }

  lemma {:induction false} ProtectRangeValid(files: Files, st: Space, p: int, n: nat, prot: bv32)
    ensures Inv(files, st, -1, 0) ==>
              ProtectRange(st, p, n, prot).Done? && Inv(files, ProtectRange(st, p, n, prot).st, -1, 0)
  {
    hide Inv, Protect;
    if n > 0 && Inv(files, st, -1, 0) {
      ProtectRangeValid(files, st, p, n - 1, prot);
      ProtectKeeps(files, ProtectRange(st, p, n - 1, prot).st, SlotOf(p + n - 1), prot);
    }
  }

  /** The page has the protection already, so asking again changes nothing. */
  ghost predicate Settled(st: Space, v: int, prot: bv32) {
    Protect(st, v, prot) == Done(0, st)
  }

  lemma ProtectSettles(st: Space, v: int, prot: bv32, u: int)
    requires Core(st) && Protect(st, v, prot).Done? && Protect(st, v, prot).status == 0
    ensures Core(Protect(st, v, prot).st) && Settled(Protect(st, v, prot).st, v, prot)
    ensures Settled(st, u, prot) ==> Settled(Protect(st, v, prot).st, u, prot)
  {
    hide PteCreate, EntryRefuses, RecordRefuses;
    var r := Protect(st, v, prot).st;
    ProtectCore(st, v, prot);
    assert LeafOk(st, v);
    assert u in st.leaf ==> LeafOk(st, u);
    PteCreated(PtePpn(st.leaf[v]), prot, true);
    OwnProtection(PtePpn(st.leaf[v]), prot);
    assert r.leaf[v] == if PteValid(st.leaf[v]) then PteCreate(PtePpn(st.leaf[v]), prot, true) else st.leaf[v];
    assert SetLeaf(r.leaf, v, r.leaf[v]) == r.leaf;
  }

  lemma OwnProtection(ppn: int, prot: bv32)
    requires 0 <= ppn < 0x40_0000_0000_0000
    ensures !EntryRefuses(PteCreate(ppn, prot, true), prot) && !RecordRefuses(prot, prot)
  {
    EntryBits(ppn, PteType(prot, true));
  }

  lemma {:induction false} ProtectRangeCore(st: Space, p: int, n: nat, prot: bv32)
    requires Core(st)
    ensures ProtectRange(st, p, n, prot).Done? && Core(ProtectRange(st, p, n, prot).st)
  {
    hide Core, Protect;
    if n > 0 {
      ProtectRangeCore(st, p, n - 1, prot);
      ProtectCore(ProtectRange(st, p, n - 1, prot).st, SlotOf(p + n - 1), prot);
    }
  }

  lemma {:induction false} RangeSettles(st: Space, p: int, n: nat, prot: bv32, k: nat)
    requires Core(st) && k < n && ProtectRange(st, p, n, prot).Done? && ProtectRange(st, p, n, prot).status == 0
    ensures Settled(ProtectRange(st, p, n, prot).st, SlotOf(p + k), prot)
  {
    hide Core, Protect, Settled;
    ProtectRangeCore(st, p, n - 1, prot);
    var s := ProtectRange(st, p, n - 1, prot).st;
    ProtectSettles(s, SlotOf(p + n - 1), prot, SlotOf(p + k));
    if k < n - 1 {
      RangeSettles(st, p, n - 1, prot, k);
    }
  }

  /** Once the loop has passed every slot, it passes whatever page comes next without effect. */
  lemma RoundAgain(st: Space, p: int, prot: bv32, k: nat)
    requires Core(st) && ProtectRange(st, p, NPAGES, prot).Done? && ProtectRange(st, p, NPAGES, prot).status == 0
    ensures Protect(ProtectRange(st, p, NPAGES, prot).st, SlotOf(p + k), prot)
            == Done(0, ProtectRange(st, p, NPAGES, prot).st)
  {
    hide Protect, ProtectRange;
    assert SlotOf(p + k) == SlotOf(p + k % NPAGES);
    RangeSettles(st, p, NPAGES, prot, k % NPAGES);
  }

  // ---- what the range has afterwards ----

  /** The page had an entry and has the protection now: a populated page in its entry, for the
      frame it had, any other page in its record. */
  ghost predicate ProtectedAt(s: Space, t: Space, u: int, prot: bv32) {
    && u in s.leaf && u in t.leaf
    && if s.leaf[u] % 2 == 1 then Entry(t.leaf[u], s.leaf[u] / 1024, prot)
       else
         var i := VmrIndex(s.base, s.leaf[u]);
         && t.leaf[u] == s.leaf[u] && t.base == s.base && s.leaf[u] == s.base + 40 * i
         && 0 <= i < |s.vmrs| == |t.vmrs| && t.vmrs[i] == s.vmrs[i].(prot := prot)
  }

  /** Why the loop stops at a page: there is none, or it would gain a right. */
  ghost predicate RefusedAt(s: Space, u: int, prot: bv32, status: int) {
    if u !in s.leaf then status == -12
    else
      && status == -13
      && if s.leaf[u] % 2 == 1 then (prot & 2 != 0 && !PteUW(s.leaf[u])) || (prot & 4 != 0 && !PteUX(s.leaf[u]))
         else
           var i := VmrIndex(s.base, s.leaf[u]);
           0 <= i < |s.vmrs| && s.leaf[u] == s.base + 40 * i && prot & !s.vmrs[i].prot != 0
  }

  ghost predicate Among(p: int, k: int, u: int) {
    exists q :: p <= q < p + k && SlotOf(q) == u
  }

  ghost predicate RecordAmong(s: Space, p: int, k: int, j: int) {
    exists u :: Among(p, k, u) && u in s.leaf && s.leaf[u] == s.base + 40 * j
  }

  /** The first k pages have the protection, no other page has changed, and the loop has
      stopped there for a reason if k is not all of them. */
  ghost predicate RangeProtected(s: Space, t: Space, p: int, n: int, prot: bv32, status: int, k: int) {
    && 0 <= k <= n && (status == 0 <==> k == n)
    && (forall u :: Among(p, k, u) ==> ProtectedAt(s, t, u, prot))
    && (forall u :: !Among(p, k, u) ==> Untouched(s, t, u))
    && (k < n ==> RefusedAt(t, SlotOf(p + k), prot, status))
    && t.base == s.base && |t.vmrs| == |s.vmrs|
    && (forall j :: 0 <= j < |s.vmrs| ==>
          t.vmrs[j] == s.vmrs[j] || (t.vmrs[j] == s.vmrs[j].(prot := prot) && RecordAmong(s, p, k, j)))
  }

  lemma ProtectAgain(s: Space, t: Space, v: int, prot: bv32, u: int)
    requires Core(t) && ProtectDoes(t, v, prot, Protect(t, v, prot)) && Protect(t, v, prot).status == 0
    requires ProtectedAt(s, t, u, prot)
    ensures ProtectedAt(s, Protect(t, v, prot).st, u, prot)
  {
    hide Protect, Entry, Core, PteUW, PteUX;
    var r := Protect(t, v, prot).st;
    if u != v {
      assert Untouched(t, r, u);
    } else if s.leaf[u] % 2 == 1 {
      EntryFrame(t.leaf[u], s.leaf[u] / 1024, prot);
    } else {
      assert Untouched(t, r, u);
    }
  }

  lemma EntryFrame(w: Word, frame: int, prot: bv32)
    requires Entry(w, frame, prot)
    ensures w % 2 == 1 && w / 1024 == frame
  {
    hide Allows, Asks;
  }

  ghost predicate RecordsFollow(s: Space, t: Space, prot: bv32) {
    && t.base == s.base && |t.vmrs| == |s.vmrs|
    && forall j :: 0 <= j < |s.vmrs| ==> t.vmrs[j] == s.vmrs[j] || t.vmrs[j] == s.vmrs[j].(prot := prot)
  }

  lemma ProtectFirst(s: Space, t: Space, v: int, prot: bv32)
    requires ProtectDoes(t, v, prot, Protect(t, v, prot)) && Protect(t, v, prot).status == 0
    requires Untouched(s, t, v) && RecordsFollow(s, t, prot)
    ensures ProtectedAt(s, Protect(t, v, prot).st, v, prot)
  {
    hide Protect, Entry, PteUW, PteUX;
    assert t.leaf[v] % 2 == 0 ==> Untouched(t, Protect(t, v, prot).st, v);
  }

  lemma AmongNext(p: int, k: nat, u: int)
    ensures Among(p, k + 1, u) <==> Among(p, k, u) || SlotOf(p + k) == u
  {
    hide SlotOf;
    if Among(p, k + 1, u) {
      var q :| p <= q < p + k + 1 && SlotOf(q) == u;
    }
    if Among(p, k, u) {
      var q :| p <= q < p + k && SlotOf(q) == u;
      assert p <= q < p + k + 1;
    }
  }

  /** One page more. */
  lemma ProtectExtends(s: Space, t: Space, p: int, k: nat, prot: bv32)
    requires Core(t) && RangeProtected(s, t, p, k, prot, 0, k)
    requires Protect(t, SlotOf(p + k), prot).Done? && Protect(t, SlotOf(p + k), prot).status == 0
    ensures RangeProtected(s, Protect(t, SlotOf(p + k), prot).st, p, k + 1, prot, 0, k + 1)
  {
    hide Protect, ProtectedAt, Core, Among, SlotOf, Untouched, RecordAmong, Entry, PteUW, PteUX;
    var v := SlotOf(p + k);
    var r := Protect(t, v, prot).st;
    ProtectEffect(t, v, prot);
    assert RecordsFollow(s, t, prot);
    forall u ensures Among(p, k + 1, u) ==> ProtectedAt(s, r, u, prot)
      ensures !Among(p, k + 1, u) ==> Untouched(s, r, u)
    {
      AmongNext(p, k, u);
      if Among(p, k, u) {
        ProtectAgain(s, t, v, prot, u);
      } else if u == v {
        ProtectFirst(s, t, v, prot);
      } else {
        assert Untouched(t, r, u);
        UntouchedChain(s, t, r, u);
      }
    }
    forall j | 0 <= j < |s.vmrs|
      ensures r.vmrs[j] == s.vmrs[j] || (r.vmrs[j] == s.vmrs[j].(prot := prot) && RecordAmong(s, p, k + 1, j))
    {
      RecordMore(s, t, p, k, prot, j);
    }
  }

  lemma RecordMore(s: Space, t: Space, p: int, k: nat, prot: bv32, j: int)
    requires Core(t) && RangeProtected(s, t, p, k, prot, 0, k) && 0 <= j < |s.vmrs|
    requires Protect(t, SlotOf(p + k), prot).Done? && Protect(t, SlotOf(p + k), prot).status == 0
    ensures var r := Protect(t, SlotOf(p + k), prot).st;
            && |r.vmrs| == |s.vmrs|
            && (r.vmrs[j] == s.vmrs[j] || (r.vmrs[j] == s.vmrs[j].(prot := prot) && RecordAmong(s, p, k + 1, j)))
  {
    hide Among, SlotOf, PteCreate, EntryRefuses, RecordRefuses;
    var v := SlotOf(p + k);
    AmongNext(p, k, v);
    var r := Protect(t, v, prot).st;
    if RecordAmong(s, p, k, j) {
      var u :| Among(p, k, u) && u in s.leaf && s.leaf[u] == s.base + 40 * j;
      AmongNext(p, k, u);
    }
    if r.vmrs[j] != t.vmrs[j] {
      assert LeafOk(t, v);
      assert v in s.leaf && s.leaf[v] == t.leaf[v] by {
        if Among(p, k, v) {
          assert ProtectedAt(s, t, v, prot);
        } else {
          assert Untouched(s, t, v);
        }
      }
      assert s.leaf[v] == s.base + 40 * j;
    }
  }

  /** The pages of the range up to the first one that is missing or refuses have the protection,
      no other page has changed, and no record but those of these pages. */
  lemma {:induction false} ProtectRangeEffect(st: Space, p: int, n: nat, prot: bv32) returns (k: nat)
    requires Core(st)
    ensures ProtectRange(st, p, n, prot).Done?
    ensures var o := ProtectRange(st, p, n, prot);
            RangeProtected(st, o.st, p, n, prot, o.status, k)
  {
    hide Core, Protect, SlotOf, ProtectedAt;
    ProtectRangeCore(st, p, n, prot);
    if n == 0 {
      return 0;
    }
    k := ProtectRangeEffect(st, p, n - 1, prot);
    var s := ProtectRange(st, p, n - 1, prot);
    if s.status == 0 {
      ProtectRangeCore(st, p, n - 1, prot);
      ProtectEffect(s.st, SlotOf(p + k), prot);
      if Protect(s.st, SlotOf(p + k), prot).status == 0 {
        ProtectExtends(st, s.st, p, k, prot);
        k := n;
      }
    }
  }
}
