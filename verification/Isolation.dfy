/**
 What the user program can reach: which entries of the page table carry user permissions,
 over every run, and the one call that gives away a kernel page.
*/
module Isolation {

  import opened Machine
  import opened PageTable
  import opened Mappings
  import opened AddressSpace

  // ---- the permissions of an entry ----

  lemma EntryBits(ppn: int, t: int)
    requires 0 <= t < 31
    ensures (ppn * 1024 + 1 + t) % 32 == 1 + t
  {
    var q := ppn * 32;
    assert ppn * 1024 + 1 + t == 32 * q + (1 + t);
  }

  /** An entry made for the user is readable unless the protection is empty; one made for
      the kernel never is. */
  lemma UserReadable(ppn: int, prot: bv32, user: bool)
    requires 0 <= ppn < 0x40_0000_0000_0000
    ensures PteUR(PteCreate(ppn, prot, user)) <==> user && prot & 7 != 0
  {
    EntryBits(ppn, PteType(prot, user));
  }

  /** Every user permission includes reading. */
  lemma UserImpliesRead(w: Word)
    ensures PteUW(w) || PteUX(w) ==> PteUR(w)
  {
  }

  lemma ReadOnlyBits(prot: bv32)
    requires prot & 2 == 0 && prot & 4 == 0
    ensures prot & 7 == 0 || prot & 7 == 1
  {
  }

  lemma ReadAsks(prot: bv32)
    requires prot & 7 == 1
    ensures prot & 2 == 0 && prot & 4 == 0
  {
  }

  // ---- one operation ----

  lemma UnmapPageCloses(st: Space, v: int)
    requires KernelClosed(st)
    ensures KernelClosed(UnmapPage(st, v))
  {
    var r := UnmapPage(st, v);
    forall u | u in r.leaf && PteValid(r.leaf[u]) ensures ClosedAt(r, u) {
      assert ClosedAt(st, u);
    }
  }

  lemma {:induction false} UnmapCloses(st: Space, v: int, n: nat)
    requires KernelClosed(st)
    ensures KernelClosed(Unmap(st, v, n))
  {
    hide KernelClosed, UnmapPage;
    if n > 0 {
      UnmapCloses(st, v, n - 1);
      UnmapPageCloses(Unmap(st, v, n - 1), v + n - 1);
    }
  }

  lemma MapPageCloses(st: Space, v: int, i: int)
    requires KernelClosed(st) && RecordsOk(st) && 0 <= i < MAX_VMR
    ensures KernelClosed(MapPage(st, v, i))
  {
    var s, r := UnmapPage(st, v), MapPage(st, v, i);
    UnmapPageCloses(st, v);
    PtrFacts(s.base, i, i);
    forall u | u in r.leaf && PteValid(r.leaf[u]) ensures ClosedAt(r, u) {
      assert ClosedAt(s, u);
    }
  }

  lemma {:induction false} MapRangeCloses(st: Space, v: int, n: nat, i: int)
    requires KernelClosed(st) && RecordsOk(st) && 0 <= i < MAX_VMR
    ensures KernelClosed(MapRange(st, v, n, i))
  {
    hide KernelClosed, MapPage;
    if n > 0 {
      MapRangeCloses(st, v, n - 1, i);
      MapPageCloses(MapRange(st, v, n - 1, i), SlotOf(v + n - 1), i);
    }
  }

  lemma FaultCloses(files: Files, st: Space, v: int, prot: bv32)
    requires KernelClosed(st) && Fault(files, st, v, prot).Done?
    ensures KernelClosed(Fault(files, st, v, prot).st)
  {
    hide PteCreate, PageContents, Permits;
    var r := Fault(files, st, v, prot).st;
    if 0 <= v < NPAGES && v in st.leaf && st.lo <= v < st.hi && !PteValid(st.leaf[v]) {
      PteCreated(v, st.vmrs[VmrIndex(st.base, st.leaf[v])].prot, true);
    }
    forall u | u in r.leaf && PteValid(r.leaf[u]) ensures ClosedAt(r, u) {
      if u != v {
        assert ClosedAt(st, u);
      }
    }
  }

  lemma {:induction false} PopulateRangeCloses(files: Files, st: Space, v: int, n: nat, prot: bv32)
    requires KernelClosed(st) && PopulateRange(files, st, v, n, prot).Done?
    ensures KernelClosed(PopulateRange(files, st, v, n, prot).st)
  {
    hide KernelClosed, Fault;
    if n > 0 {
      PopulateRangeCloses(files, st, v, n - 1, prot);
      FaultCloses(files, PopulateRange(files, st, v, n - 1, prot).st, v + n - 1, prot);
    }
  }

  lemma TakenCloses(st: Space, spare: int, i: int, m: Mapping, prot: bv32)
    requires KernelClosed(st)
    ensures KernelClosed(InitRecords(st, spare)) && (0 <= i < |st.vmrs| ==> KernelClosed(TakeRecord(st, i, m, prot)))
  {
    var r := InitRecords(st, spare);
    forall u | u in r.leaf && PteValid(r.leaf[u]) ensures ClosedAt(r, u) {
      assert ClosedAt(st, u);
    }
    if 0 <= i < |st.vmrs| {
      var t := TakeRecord(st, i, m, prot);
      forall u | u in t.leaf && PteValid(t.leaf[u]) ensures ClosedAt(t, u) {
        assert ClosedAt(st, u);
      }
    }
  }

  lemma MmapCloses(files: Files, st: Space, spare: int, m: Mapping, prot: bv32, populate: bool)
    requires KernelClosed(st) && RecordsOk(st) && SparePage(spare) && 0 < m.length
    requires Mmap(files, st, spare, m, prot, populate).Done?
    ensures KernelClosed(Mmap(files, st, spare, m, prot, populate).st)
  {
    hide KernelClosed, MapRange, PopulateRange, FirstFree, Endless, LoopPages;
    var s0 := InitRecords(st, spare);
    var i := FirstFree(s0.vmrs, 0);
    TakenCloses(st, spare, i, m, prot);
    TakenCloses(s0, spare, i, m, prot);
    if i < |s0.vmrs| {
      var v, n := m.addr / 4096, LoopPages(m.addr, m.length);
      var s1 := TakeRecord(s0, i, m, prot);
      MapRangeCloses(s1, v, n, i);
      if populate {
        PopulateRangeCloses(files, MapRange(s1, v, n, i), v, n, prot);
      }
    }
  }

  /** Making a valid page outside the user range readable. Nothing refuses this: only
      writing and executing are checked against the entry. */
  predicate Opens(st: Space, op: Op) {
    && op.OpProtect? && op.v in st.leaf && PteValid(st.leaf[op.v]) && !(st.lo <= op.v < st.hi)
    && op.prot & 7 == 1
  }

  lemma ProtectCloses(st: Space, v: int, prot: bv32)
    requires Core(st) && KernelClosed(st) && Protect(st, v, prot).Done?
    ensures KernelClosed(Protect(st, v, prot).st) <==> !Opens(st, OpProtect(v, prot))
  {
    hide PteCreate, PteUR, PteUW, PteUX, PteType, RecordRefuses;
    var r := Protect(st, v, prot).st;
    if v in st.leaf && PteValid(st.leaf[v]) {
      var w := st.leaf[v];
      assert ClosedAt(st, v);
      PteCreated(PtePpn(w), prot, true);
      UserReadable(PtePpn(w), prot, true);
      UserImpliesRead(w);
      if Opens(st, OpProtect(v, prot)) {
        ReadAsks(prot);
        assert !ClosedAt(r, v);
      } else if !(st.lo <= v < st.hi) && !EntryRefuses(w, prot) {
        ReadOnlyBits(prot);
        assert ClosedAt(r, v);
      }
    }
    forall u | u in r.leaf && PteValid(r.leaf[u]) && !Opens(st, OpProtect(v, prot)) ensures ClosedAt(r, u) {
      assert u != v ==> ClosedAt(st, u);
    }
  }

  lemma WriteCloses(st: Space, v: int, page: Page)
    requires KernelClosed(st)
    ensures KernelClosed(Write(st, v, page))
  {
    var r := Write(st, v, page);
    forall u | u in r.leaf && PteValid(r.leaf[u]) ensures ClosedAt(r, u) {
      assert ClosedAt(st, u);
    }
  }

  lemma StepCloses(files: Files, st: Space, op: Op)
    requires Core(st) && KernelClosed(st) && Enabled(st, op) && Step(files, st, op).Done?
    ensures KernelClosed(Step(files, st, op).st) <==> !Opens(st, op)
  {
    hide Core, KernelClosed, Mmap, Unmap, Fault, Protect, Write;
    match op
    case OpMmap(spare, m, prot, populate) => MmapCloses(files, st, spare, m, prot, populate);
    case OpMunmap(v, n) => UnmapCloses(st, v, n);
    case OpFault(v, prot) => FaultCloses(files, st, v, prot);
    case OpProtect(v, prot) => ProtectCloses(st, v, prot);
    case OpWrite(v, page) => WriteCloses(st, v, page);
  }

  // ---- runs ----

  predicate OpensNot(st: Space, op: Op) { !Opens(st, op) }

  /** The kernel's pages stay closed in every state of a run, if and only if no protection
      change makes one of them readable. */
  lemma {:induction false} KernelStaysClosed(files: Files, st: Space, ops: seq<Op>, t: Space)
    requires Core(st) && KernelClosed(st) && Reaches(files, st, ops, t)
    ensures InEveryState(files, st, ops, KernelClosed) <==> Throughout(files, st, ops, OpensNot)
    decreases |ops|
  {
    hide Core, KernelClosed, Step, Opens;
    if ops != [] {
      var s := Step(files, st, ops[0]).st;
      StepCore(files, st, ops[0]);
      StepCloses(files, st, ops[0]);
      if KernelClosed(s) {
        KernelStaysClosed(files, s, ops[1..], t);
      }
    }
  }

  /** The kernel's entry for its own page v: asking for read access succeeds and leaves an
      entry that the user program may read. */
  lemma ReadableKernelPage(st: Space, v: int)
    requires Core(st) && v in st.leaf && st.leaf[v] == PteCreate(v, 3, false) && !(st.lo <= v < st.hi)
    ensures Enabled(st, OpProtect(v, 1)) && Opens(st, OpProtect(v, 1))
    ensures var r := Protect(st, v, 1);
            && r.Done? && r.status == 0 && r.st == st.(leaf := SetLeaf(st.leaf, v, PteCreate(v, 1, true)))
            && PteUR(r.st.leaf[v])
  {
    hide PteCreate, PteUR;
    assert LeafOk(st, v);
    PteCreated(v, 3, false);
    UserReadable(v, 1, true);
  }
}
