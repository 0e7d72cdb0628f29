/**
 Runs of the address space: what every sequence of maps, unmaps, faults, protection
 changes and user stores keeps, and what a page holds once it is populated.
*/
module AddressSpace {

  import opened Machine
  import opened PageTable
  import opened Mappings
  import opened Powers

  // ---- permissions of a page just populated ----

  lemma {:induction false} NoBits(a: int, n: nat)
    ensures HasBits(a, 0, n)
    decreases n
  {
    if n > 0 {
      NoBits(a / 2, n - 1);
    }
  }

  lemma {:induction false} HasLowBits(q: int, t: int, k: nat, n: nat)
    requires 0 <= t < P2(k)
    ensures HasBits(q * P2(k) + t, t, n)
    decreases n
  {
    if k == 0 {
      NoBits(q, n);
    } else if n > 0 {
      var h := P2(k - 1);
      assert q * P2(k) + t == 2 * (q * h) + t;
      assert (2 * (q * h) + t) % 2 == t % 2 && (2 * (q * h) + t) / 2 == q * h + t / 2;
      HasLowBits(q, t / 2, k - 1, n - 1);
    }
  }

  lemma PermitsOwn(ppn: int, prot: bv32)
    requires 0 <= ppn < 0x40_0000_0000_0000
    ensures Permits(PteCreate(ppn, prot, true), prot) == 0
  {
    hide HasBits, P2, PteType;
    P2Constants();
    HasLowBits(ppn, 1 + PteType(prot, true), 10, 64);
  }

  // ---- one operation ----

  lemma FaultKeeps(files: Files, st: Space, v: int, prot: bv32)
    requires Inv(files, st, -1, 0) && Fault(files, st, v, prot).Done?
    ensures Inv(files, Fault(files, st, v, prot).st, -1, 0)
    ensures Fault(files, st, v, prot).st.origin == st.origin
  {
    if v in st.leaf && !PteValid(st.leaf[v]) {
      PopulatePageKeeps(files, st, v, -1, 0);
    }
  }

  lemma ProtectKeeps(files: Files, st: Space, v: int, prot: bv32)
    requires Inv(files, st, -1, 0)
    ensures Protect(st, v, prot).Done? && Inv(files, Protect(st, v, prot).st, -1, 0)
    ensures Protect(st, v, prot).st.origin == st.origin
  {
    hide Inv, EntryRefuses, RecordRefuses, PteCreate;
    if v in st.leaf {
      assert EntryOk(st, v) by {
        EntryOf(files, st, v);
      }
      if PteValid(st.leaf[v]) {
        ReplaceKeeps(files, st, v, prot);
      } else {
        RecordProtKeeps(files, st, VmrIndex(st.base, st.leaf[v]), prot);
      }
    }
  }

  lemma EntryOf(files: Files, st: Space, v: int)
    requires Inv(files, st, -1, 0) && v in st.leaf
    ensures EntryOk(st, v)
  {
  }

  lemma ReplaceKeeps(files: Files, st: Space, v: int, prot: bv32)
    requires Inv(files, st, -1, 0) && v in st.leaf && PteValid(st.leaf[v])
    ensures Inv(files, st.(leaf := SetLeaf(st.leaf, v, PteCreate(PtePpn(st.leaf[v]), prot, true))), -1, 0)
  {
    hide PteCreate;
    var pte := PteCreate(PtePpn(st.leaf[v]), prot, true);
    var r := st.(leaf := SetLeaf(st.leaf, v, pte));
    PteCreated(PtePpn(st.leaf[v]), prot, true);
    ReplaceCounted(st, v, pte);
    forall u | u in r.leaf ensures EntryOk(r, u) {
      assert EntryOk(st, u);
    }
    forall u | u in r.origin ensures OriginOk(files, r, u) {
      assert OriginOk(files, st, u);
    }
  }

  lemma RecordProtKeeps(files: Files, st: Space, i: int, prot: bv32)
    requires Inv(files, st, -1, 0) && 0 <= i < |st.vmrs|
    ensures Inv(files, st.(vmrs := st.vmrs[i := st.vmrs[i].(prot := prot)]), -1, 0)
  {
    var r := st.(vmrs := st.vmrs[i := st.vmrs[i].(prot := prot)]);
    RecordProtCounted(st, i, prot);
    forall u | u in r.leaf ensures EntryOk(r, u) {
      assert EntryOk(st, u);
    }
    forall u | u in r.origin ensures OriginOk(files, r, u) {
      assert OriginOk(files, st, u);
    }
  }

  /** Replacing one valid entry by another changes no reference count. */
  lemma ReplaceCounted(st: Space, v: int, pte: Word)
    requires RecordsOk(st) && Counted(st, -1, 0) && v in st.leaf && PteValid(st.leaf[v]) && PteValid(pte)
    ensures Counted(st.(leaf := SetLeaf(st.leaf, v, pte)), -1, 0)
  {
    hide Refs;
    var r := st.(leaf := SetLeaf(st.leaf, v, pte));
    assert SetLeaf(st.leaf, v, pte) == SetLeaf(st.leaf - {v}, v, pte);
    forall j | 0 <= j < |st.vmrs|
      ensures CountIs(r, j, -1, 0)
    {
      assert CountIs(st, j, -1, 0);
      PtrFacts(st.base, j, j);
      RefsRemove(st.leaf, v, VmrPtr(st.base, j));
      RefsAdd(st.leaf - {v}, v, pte, VmrPtr(st.base, j));
    }
  }

  lemma RecordProtCounted(st: Space, i: int, prot: bv32)
    requires Counted(st, -1, 0) && 0 <= i < |st.vmrs|
    ensures Counted(st.(vmrs := st.vmrs[i := st.vmrs[i].(prot := prot)]), -1, 0)
  {
    var r := st.(vmrs := st.vmrs[i := st.vmrs[i].(prot := prot)]);
    forall j | 0 <= j < |r.vmrs| ensures CountIs(r, j, -1, 0) {
      assert CountIs(st, j, -1, 0);
    }
  }

  lemma WriteKeeps(files: Files, st: Space, v: int, page: Page)
    requires Inv(files, st, -1, 0) && v in st.leaf && PteValid(st.leaf[v])
    ensures Inv(files, Write(st, v, page), -1, 0)
  {
    var r := Write(st, v, page);
    SameCounts(st, r, -1, 0);
    forall u | u in r.leaf ensures EntryOk(r, u) {
      assert EntryOk(st, u);
    }
    forall u | u in r.origin ensures OriginOk(files, r, u) {
      assert OriginOk(files, st, u);
    }
  }

  // ---- eager population ----

  ghost predicate Populated(st: Space, u: int) {
    u in st.leaf && PteValid(st.leaf[u]) && u in st.origin && u !in st.dirty
  }

  /** What faulting in page u leaves alone. */
  ghost predicate OtherPages(s: Space, st: Space, u: int) {
    && SameRecords(s, st) && s.base == st.base && s.origin == st.origin
    && s.dirty == st.dirty && s.leaf.Keys == st.leaf.Keys
    && forall x :: x in st.leaf && x != u ==> s.leaf[x] == st.leaf[x]
  }

  lemma FaultMapped(files: Files, st: Space, u: int, i: int, prot: bv32)
    requires Inv(files, st, -1, 0) && MappedBy(st, u, i) && st.vmrs[i].prot == prot
    ensures 0 <= u < NPAGES
    ensures Fault(files, st, u, prot).Panic? <==> PageContents(files, st.vmrs[i].mapping, u).None?
    ensures Fault(files, st, u, prot).Done? ==>
              var r := Fault(files, st, u, prot);
              r.status == 0 && Inv(files, r.st, -1, 0) && Populated(r.st, u) && OtherPages(r.st, st, u)
  {
    assert EntryOk(st, u);
    PtrFacts(st.base, i, i);
    assert VmrIndex(st.base, st.leaf[u]) == i;
    PopulatePageKeeps(files, st, u, -1, 0);
    PermitsOwn(u, prot);
  }

  /** Some page of the range has no byte of its file in it. */
  ghost predicate HasGap(files: Files, m: Mapping, v: int, n: nat) {
    exists u :: v <= u < v + n && PageContents(files, m, u).None?
  }

  lemma GapNext(files: Files, m: Mapping, v: int, n: nat)
    requires 0 < n
    ensures HasGap(files, m, v, n) <==> HasGap(files, m, v, n - 1) || PageContents(files, m, v + n - 1).None?
  {
    hide PageContents;
  }

  lemma OthersStay(r: Space, s: Space, u: int, x: int, i: int)
    requires OtherPages(r, s, u) && x != u
    ensures Populated(s, x) ==> Populated(r, x)
    ensures MappedBy(s, x, i) ==> MappedBy(r, x, i)
  {
  }

  lemma {:induction false} PopulateRangeKeeps(files: Files, st: Space, v: int, n: nat, w: int, i: int, prot: bv32)
    requires Inv(files, st, -1, 0) && 0 <= i < MAX_VMR && |st.vmrs| == MAX_VMR && st.vmrs[i].prot == prot
    requires 0 <= v && v + n <= w <= NPAGES && forall u :: v <= u < w ==> MappedBy(st, u, i)
    ensures PopulateRange(files, st, v, n, prot).Panic? <==> HasGap(files, st.vmrs[i].mapping, v, n)
    ensures PopulateRange(files, st, v, n, prot).Done? ==>
              var r := PopulateRange(files, st, v, n, prot).st;
              && Inv(files, r, -1, 0) && SameRecords(r, st) && r.origin == st.origin && r.dirty == st.dirty
              && (forall u :: v <= u < v + n ==> Populated(r, u))
              && (forall u :: v + n <= u < w ==> MappedBy(r, u, i))
  {
    hide Inv, Fault, PageContents, HasGap, Populated, MappedBy;
    if n == 0 {
      assert !HasGap(files, st.vmrs[i].mapping, v, 0) by { NoGap(files, st.vmrs[i].mapping, v); }
    } else {
      PopulateRangeKeeps(files, st, v, n - 1, w, i, prot);
      GapNext(files, st.vmrs[i].mapping, v, n);
      if PopulateRange(files, st, v, n - 1, prot).Done? {
        var s, u := PopulateRange(files, st, v, n - 1, prot).st, v + n - 1;
        FaultMapped(files, s, u, i, prot);
        var r := Fault(files, s, u, prot);
        if r.Done? {
          forall x | v <= x < v + n ensures Populated(r.st, x) {
            if x != u {
              OthersStay(r.st, s, u, x, i);
            }
          }
          forall x | v + n <= x < w ensures MappedBy(r.st, x, i) {
            OthersStay(r.st, s, u, x, i);
          }
        }
      }
    }
  }

  lemma NoGap(files: Files, m: Mapping, v: int)
    ensures !HasGap(files, m, v, 0)
  {
  }

  // ---- mapping a range ----

  /** Both states have the same mapping behind page u, written or not. */
  ghost predicate SameAt(s: Space, t: Space, u: int) {
    && (u in s.origin <==> u in t.origin) && (u in s.origin ==> s.origin[u] == t.origin[u])
    && (u in s.dirty <==> u in t.dirty)
  }

  lemma {:induction false} UnmapOthers(st: Space, v: int, n: nat, u: int)
    requires !(v <= u < v + n)
    ensures SameAt(Unmap(st, v, n), st, u)
  {
    if n > 0 {
      UnmapOthers(st, v, n - 1, u);
    }
  }

  lemma {:induction false} MapRangeOthers(st: Space, v: int, n: nat, i: int, u: int)
    requires RecordsOk(st) && 0 <= i < MAX_VMR && !(v <= u < v + n) && 0 <= v && v + n <= NPAGES
    ensures SameAt(MapRange(st, v, n, i), st, u)
  {
    if n > 0 {
      MapRangeOthers(st, v, n - 1, i, u);
    }
  }

  /** A page-aligned range of user addresses. */
  predicate UserRange(st: Space, m: Mapping) {
    m.addr % 4096 == 0 && 0 < m.length && st.lo * 4096 <= m.addr && m.addr + m.length <= st.hi * 4096
  }

  lemma RangePages(st: Space, m: Mapping)
    requires UserRange(st, m) && 0 <= st.lo <= st.hi <= NPAGES
    ensures 0 < NPages(m.length) && st.lo <= m.addr / 4096 && m.addr / 4096 + NPages(m.length) <= st.hi
    ensures !Endless(m.addr, m.length) && LoopPages(m.addr, m.length) == NPages(m.length)
    ensures 0 <= m.addr && m.length < 0x1_0000_0000_0000_0000
    ensures forall u :: Covers(m, u) <==> m.addr / 4096 <= u < m.addr / 4096 + NPages(m.length)
  {
    var a := m.addr / 4096;
    assert m.addr == a * 4096;
  }

  /** A new mapping covers its pages, populated if asked for, and leaves all other pages to
      their mappings. It fails without effect when no record is free, and halts exactly when
      it has to populate a page that no byte of the file reaches. */
  lemma MmapKeeps(files: Files, st: Space, spare: int, m: Mapping, prot: bv32, populate: bool)
    requires Inv(files, st, -1, 0) && SparePage(spare) && UserRange(st, m)
    ensures var r := Mmap(files, st, spare, m, prot, populate);
            && !r.Hang?
            && (r.Done? ==> Inv(files, r.st, -1, 0) && (r.status == -1 || r.status == m.addr)
                            && r.st.lo == st.lo && r.st.hi == st.hi)
            && (r.Done? ==> (r.status == -1 <==> FirstFree(st.vmrs, 0) == |st.vmrs|))
            && (r.Done? && r.status == -1 ==> r.st == InitRecords(st, spare))
            && (r.Done? && r.status != -1 ==>
                  && (forall u :: Covers(m, u) ==> u in r.st.origin && r.st.origin[u] == m && u !in r.st.dirty)
                  && (populate ==> forall u :: Covers(m, u) ==> Populated(r.st, u)))
            && (r.Panic? <==> FirstFree(st.vmrs, 0) < |st.vmrs| && populate
                              && exists u :: Covers(m, u) && PageContents(files, m, u).None?)
  {
    hide Inv, Covers, MapRange, PopulateRange, PageContents;
    assert RecordsOk(st) && 0 <= st.lo <= st.hi <= NPAGES by {
      InvBounds(files, st);
    }
    RangePages(st, m);
    var v, n := m.addr / 4096, NPages(m.length);
    var s0 := InitRecords(st, spare);
    InitRecordsKeeps(files, st, spare);
    var i := FirstFree(s0.vmrs, 0);
    if i < |s0.vmrs| {
      var s1 := TakeRecord(s0, i, m, prot);
      TakeRecordKeeps(files, s0, i, m, prot);
      var s2 := MapRange(s1, v, n, i);
      MapRangeKeeps(files, s1, v, n, i, n);
      MapRangeFrame(s1, v, n, i);
      SettledInv(files, s2, i, 0);
      forall u | v <= u < v + n ensures u !in s2.dirty && u in s2.origin && s2.origin[u] == m {
        assert MappedBy(s2, u, i);
        MappedClean(files, s2, u, i);
      }
      if populate {
        PopulateRangeKeeps(files, s2, v, n, v + n, i, prot);
        var p := PopulateRange(files, s2, v, n, prot);
        forall u | p.Done? && v <= u < v + n ensures u !in p.st.dirty {
          assert Populated(p.st, u);
        }
      }
    }
  }

  lemma InvBounds(files: Files, st: Space)
    requires Inv(files, st, -1, 0)
    ensures RecordsOk(st) && 0 <= st.lo <= st.hi <= NPAGES
  {
  }

  lemma SettledInv(files: Files, st: Space, i: int, owed: int)
    requires Inv(files, st, i, owed) && U32(owed) == 0
    ensures Inv(files, st, -1, 0)
  {
    SettledCounts(st, i, owed);
  }

  lemma SettledCounts(st: Space, i: int, owed: int)
    requires Counted(st, i, owed) && U32(owed) == 0
    ensures Counted(st, -1, 0)
  {
    hide Refs;
    forall j | 0 <= j < |st.vmrs| ensures CountIs(st, j, -1, 0) {
      assert CountIs(st, j, i, owed);
    }
  }

  lemma MappedClean(files: Files, st: Space, u: int, i: int)
    requires Inv(files, st, -1, 0) && MappedBy(st, u, i)
    ensures u !in st.dirty
  {
    assert EntryOk(st, u);
    PtrFacts(st.base, i, i);
  }

  // ---- runs ----

  datatype Op =
    | OpMmap(spare: int, m: Mapping, prot: bv32, populate: bool)
    | OpMunmap(v: int, n: nat)
    | OpFault(v: int, prot: bv32)
    | OpProtect(v: int, prot: bv32)
    | OpWrite(v: int, page: Page)

  /** What the callers check before an operation. The address of a mapping is a page boundary,
      whether the caller fixes it or the kernel chooses it. */
  predicate Enabled(st: Space, op: Op) {
    match op
    case OpMmap(spare, m, _, _) => SparePage(spare) && Request(m.addr, m.length) && 0 < m.length && RecordsOk(st)
    case OpMunmap(v, n) => st.lo <= v && v + n <= st.hi
    case OpFault(v, _) => true
    case OpProtect(v, _) => true
    case OpWrite(v, _) => v in st.leaf && PteValid(st.leaf[v]) && st.lo <= v < st.hi
  }

  function Step(files: Files, st: Space, op: Op): Outcome
    requires Enabled(st, op)
  {
    match op
    case OpMmap(spare, m, prot, populate) => Mmap(files, st, spare, m, prot, populate)
    case OpMunmap(v, n) => Done(0, Unmap(st, v, n))
    case OpFault(v, prot) => Fault(files, st, v, prot)
    case OpProtect(v, prot) => Protect(st, v, prot)
    case OpWrite(v, page) => Done(0, Write(st, v, page))
  }

  /** The operations run to the end, without a panic, from one state to another. */
  predicate Reaches(files: Files, st: Space, ops: seq<Op>, t: Space)
    decreases |ops|
  {
    if ops == [] then st == t
    else Enabled(st, ops[0]) && Step(files, st, ops[0]).Done? && Reaches(files, Step(files, st, ops[0]).st, ops[1..], t)
  }

  /** Something holds of every operation of a run and the state it starts in. */
  ghost predicate Throughout(files: Files, st: Space, ops: seq<Op>, ok: (Space, Op) -> bool)
    decreases |ops|
  {
    ops == [] ||
    (&& ok(st, ops[0])
     && (Enabled(st, ops[0]) && Step(files, st, ops[0]).Done? ==>
           Throughout(files, Step(files, st, ops[0]).st, ops[1..], ok)))
  }

  /** Something holds in every state that a run passes through. */
  ghost predicate InEveryState(files: Files, st: Space, ops: seq<Op>, ok: Space -> bool)
    decreases |ops|
  {
    && ok(st)
    && (ops != [] && Enabled(st, ops[0]) && Step(files, st, ops[0]).Done? ==>
          InEveryState(files, Step(files, st, ops[0]).st, ops[1..], ok))
  }

  /** Mappings lie among the user pages, as fixed ones always do. */
  predicate Ordinary(st: Space, op: Op) {
    op.OpMmap? ==> UserRange(st, op.m)
  }

  /** The kernel's low pages are mapped, no user page is, and no record is in use. */
  ghost predicate Initial(st: Space) {
    && RecordsOk(st) && 0 <= st.lo <= st.hi <= NPAGES && st.origin == map[] && st.base == 0 && st.dirty == {}
    && (forall v :: v in st.leaf ==> 0 <= v < NPAGES && !(st.lo <= v < st.hi) && PteValid(st.leaf[v]))
    && (forall v :: 0 <= v < st.lo ==> v in st.leaf)
    && (forall j :: 0 <= j < |st.vmrs| ==> st.vmrs[j].refcnt == 0)
  }

  lemma InitialInv(files: Files, st: Space)
    requires Initial(st)
    ensures Inv(files, st, -1, 0)
  {
    forall v | v in st.leaf ensures EntryOk(st, v) {
      assert LeafOk(st, v);
    }
    forall j | 0 <= j < |st.vmrs| ensures CountIs(st, j, -1, 0) {
      NoPointers(st, VmrPtr(0, j));
      PtrFacts(0, j, j);
    }
  }

  lemma StepKeeps(files: Files, st: Space, op: Op)
    requires Inv(files, st, -1, 0) && Enabled(st, op) && Ordinary(st, op) && Step(files, st, op).Done?
    ensures Inv(files, Step(files, st, op).st, -1, 0)
  {
    hide Inv, Mmap, Unmap, Fault, Protect, Write;
    match op
    case OpMmap(spare, m, prot, populate) => MmapKeeps(files, st, spare, m, prot, populate);
    case OpMunmap(v, n) => UnmapKeeps(files, st, v, n);
    case OpFault(v, prot) => FaultKeeps(files, st, v, prot);
    case OpProtect(v, prot) => ProtectKeeps(files, st, v, prot);
    case OpWrite(v, page) => WriteKeeps(files, st, v, page);
  }

  lemma {:induction false} RunKeeps(files: Files, st: Space, ops: seq<Op>, t: Space)
    requires Inv(files, st, -1, 0) && Reaches(files, st, ops, t) && Throughout(files, st, ops, Ordinary)
    ensures Inv(files, t, -1, 0)
    decreases |ops|
  {
    hide Inv, Step;
    if ops != [] {
      StepKeeps(files, st, ops[0]);
      RunKeeps(files, Step(files, st, ops[0]).st, ops[1..], t);
    }
  }

  /** The leaf entry of a page is the address of a record. */
  predicate IsRecordOf(st: Space, v: int, i: int)
    requires v in st.leaf
  {
    0 <= i < |st.vmrs| && st.leaf[v] == VmrPtr(st.base, i)
  }

  // ---- every call, whatever range it maps ----

  /** A mapping takes a record and counts its pages but the loop, its end wrapped around,
      visits none of them. */
  predicate Leaks(st: Space, op: Op) {
    && op.OpMmap? && FirstFree(st.vmrs, 0) < |st.vmrs|
    && LoopPages(op.m.addr, op.m.length) != NPages(op.m.length) && U32(NPages(op.m.length)) != 0
  }

  lemma FaultCounts(files: Files, st: Space, v: int, prot: bv32, i: int, owed: int)
    requires Core(st) && Counted(st, i, owed) && Fault(files, st, v, prot).Done?
    ensures Counted(Fault(files, st, v, prot).st, i, owed)
  {
    hide Core, Counted;
    if 0 <= v < NPAGES && v in st.leaf && !PteValid(st.leaf[v]) && st.lo <= v < st.hi {
      PopulatePageCounts(files, st, v, i, owed);
    }
  }

  lemma FaultCore(files: Files, st: Space, v: int, prot: bv32)
    requires Core(st) && Fault(files, st, v, prot).Done?
    ensures Core(Fault(files, st, v, prot).st)
  {
    hide Core;
    if 0 <= v < NPAGES && v in st.leaf && !PteValid(st.leaf[v]) && st.lo <= v < st.hi {
      PopulatePageCore(files, st, v);
    }
  }

  lemma {:induction false} PopulateRangeCore(files: Files, st: Space, v: int, n: nat, prot: bv32)
    requires Core(st) && PopulateRange(files, st, v, n, prot).Done?
    ensures Core(PopulateRange(files, st, v, n, prot).st)
  {
    hide Core, Fault;
    if n > 0 {
      PopulateRangeCore(files, st, v, n - 1, prot);
      FaultCore(files, PopulateRange(files, st, v, n - 1, prot).st, v + n - 1, prot);
    }
  }

  lemma {:induction false} PopulateRangeCounts(files: Files, st: Space, v: int, n: nat, prot: bv32, i: int, owed: int)
    requires Core(st) && Counted(st, i, owed) && PopulateRange(files, st, v, n, prot).Done?
    ensures Counted(PopulateRange(files, st, v, n, prot).st, i, owed)
  {
    hide Core, Counted, Fault;
    if n > 0 {
      PopulateRangeCounts(files, st, v, n - 1, prot, i, owed);
      PopulateRangeCore(files, st, v, n - 1, prot);
      FaultCounts(files, PopulateRange(files, st, v, n - 1, prot).st, v + n - 1, prot, i, owed);
    }
  }

  lemma MmapCore(files: Files, st: Space, spare: int, m: Mapping, prot: bv32, populate: bool)
    requires Core(st) && SparePage(spare) && 0 < m.length && Mmap(files, st, spare, m, prot, populate).Done?
    ensures Core(Mmap(files, st, spare, m, prot, populate).st)
  {
    hide Core, FirstFree, PopulateRange, MapRange, TakeRecord, Endless, LoopPages;
    CoreRecords(st);
    var s0 := InitRecords(st, spare);
    InitRecordsCounts(st, spare);
    var i := FirstFree(s0.vmrs, 0);
    if i < |s0.vmrs| {
      var v, n := m.addr / 4096, LoopPages(m.addr, m.length);
      TakeRecordCore(s0, i, m, prot);
      var s1 := TakeRecord(s0, i, m, prot);
      assert s1.base == s0.base by { TakenBase(s0, i, m, prot); }
      MapRangeCore(s1, v, n, i);
      if populate {
        PopulateRangeCore(files, MapRange(s1, v, n, i), v, n, prot);
      }
    }
  }

  lemma TakenBase(st: Space, i: int, m: Mapping, prot: bv32)
    requires 0 <= i < |st.vmrs|
    ensures TakeRecord(st, i, m, prot).base == st.base && |TakeRecord(st, i, m, prot).vmrs| == |st.vmrs|
  {
  }

  /** One byte less than the whole address space: the page count is a multiple of 2^32 and
      the loop's end is just below its start. A record is filled in and left free, nothing
      is mapped, and the call succeeds. */
  lemma WholeSpace(files: Files, st: Space, spare: int, m: Mapping, prot: bv32, populate: bool)
    requires Inv(files, st, -1, 0) && SparePage(spare) && Request(m.addr, m.length) && 0 < m.addr
    requires m.length == 0xFFFF_FFFF_FFFF_FFFF
    ensures RecordsOk(st)
    ensures var r := Mmap(files, st, spare, m, prot, populate);
            && r.Done? && r.status == (if FirstFree(st.vmrs, 0) == |st.vmrs| then -1 else m.addr)
            && Inv(files, r.st, -1, 0) && |r.st.vmrs| == |st.vmrs|
            && r.st.leaf == st.leaf && r.st.mem == st.mem && r.st.origin == st.origin && r.st.dirty == st.dirty
            && forall j :: 0 <= j < |st.vmrs| ==> r.st.vmrs[j].refcnt == st.vmrs[j].refcnt
  {
    hide Inv, FirstFree;
    InvBounds(files, st);
    assert NPages(m.length) == 0x10_0000_0000_0000 && U32(0x10_0000_0000_0000) == 0;
    assert !Endless(m.addr, m.length) && LoopPages(m.addr, m.length) == 0;
    var s0 := InitRecords(st, spare);
    InitRecordsKeeps(files, st, spare);
    var i := FirstFree(s0.vmrs, 0);
    if i < |s0.vmrs| {
      TakeRecordKeeps(files, s0, i, m, prot);
      SettledInv(files, TakeRecord(s0, i, m, prot), i, NPages(m.length));
    }
  }

  /** One page less than the whole address space, at any page but the first: the record taken
      counts 2^32 - 1 references that do not exist, and can never be used again. */
  lemma LeakedRecord(files: Files, st: Space, spare: int, m: Mapping, prot: bv32, populate: bool)
    requires Core(st) && Counted(st, -1, 0) && SparePage(spare) && FirstFree(st.vmrs, 0) < |st.vmrs|
    requires Request(m.addr, m.length) && 0 < m.addr && m.length == 0xFFFF_FFFF_FFFF_F000
    ensures Leaks(st, OpMmap(spare, m, prot, populate))
    ensures var r, i := Mmap(files, st, spare, m, prot, populate), FirstFree(st.vmrs, 0);
            && r.Done? && r.status == m.addr && r.st.leaf == st.leaf && |r.st.vmrs| == |st.vmrs|
            && r.st.vmrs[i].refcnt == 0xFFFF_FFFF && Refs(r.st.leaf, VmrPtr(r.st.base, i)) == 0
  {
    hide Core, FirstFree, Refs;
    CoreRecords(st);
    assert NPages(m.length) == 0xF_FFFF_FFFF_FFFF && U32(0xF_FFFF_FFFF_FFFF) == 0xFFFF_FFFF;
    assert !Endless(m.addr, m.length) && LoopPages(m.addr, m.length) == 0;
    InitRecordsCounts(st, spare);
    ExactCount(InitRecords(st, spare), FirstFree(st.vmrs, 0));
  }

  /** A mapping keeps the counts exactly unless its loop, wrapped around, visits no page. */
  lemma MmapCounts(files: Files, st: Space, spare: int, m: Mapping, prot: bv32, populate: bool)
    requires Core(st) && Counted(st, -1, 0) && SparePage(spare) && 0 < m.length
    requires Mmap(files, st, spare, m, prot, populate).Done?
    ensures Counted(Mmap(files, st, spare, m, prot, populate).st, -1, 0) <==>
                !Leaks(st, OpMmap(spare, m, prot, populate))
  {
    hide Core, Counted, FirstFree, PopulateRange, MapRange, TakeRecord, Endless, LoopPages, NPages, U32;
    CoreRecords(st);
    var s0 := InitRecords(st, spare);
    InitRecordsCounts(st, spare);
    var i := FirstFree(s0.vmrs, 0);
    if i < |s0.vmrs| {
      var v, n := m.addr / 4096, LoopPages(m.addr, m.length);
      var owed := NPages(m.length) - n;
      TakeRecordCore(s0, i, m, prot);
      TakeRecordCounts(s0, i, m, prot);
      var s1 := TakeRecord(s0, i, m, prot);
      TakenBase(s0, i, m, prot);
      MapRangeCore(s1, v, n, i);
      MapRangeCounts(s1, v, n, i, NPages(m.length));
      var s2 := MapRange(s1, v, n, i);
      if populate {
        PopulateRangeCounts(files, s2, v, n, prot, i, owed);
      }
      var t := Mmap(files, st, spare, m, prot, populate).st;
      assert |t.vmrs| == MAX_VMR by {
        MmapCore(files, st, spare, m, prot, populate);
        CoreRecords(t);
      }
      OwedCounts(t, i, owed);
      assert n == NPages(m.length) || n == 0 by { VisitsAllOrNone(m.addr, m.length); }
    }
  }

  lemma VisitsAllOrNone(addr: int, length: int)
    ensures LoopPages(addr, length) == NPages(length) || LoopPages(addr, length) == 0
  {
  }

  lemma OwedCounts(st: Space, i: int, owed: int)
    requires Counted(st, i, owed) && 0 <= i < |st.vmrs|
    ensures Counted(st, -1, 0) <==> U32(owed) == 0
    ensures U32(0) == 0
  {
    hide Refs;
    if U32(owed) == 0 {
      SettledCounts(st, i, owed);
    } else {
      assert CountIs(st, i, i, owed);
      assert !CountIs(st, i, -1, 0);
    }
  }

  lemma {:induction false} UnmapCounts(st: Space, v: int, n: nat)
    requires Core(st)
    ensures Core(Unmap(st, v, n)) && (Counted(st, -1, 0) ==> Counted(Unmap(st, v, n), -1, 0))
  {
    hide Counted;
    if n > 0 {
      var s := Unmap(st, v, n - 1);
      UnmapCounts(st, v, n - 1);
      UnmapCore(s, v + n - 1);
      if v + n - 1 in s.leaf && Counted(st, -1, 0) {
        assert LeafOk(s, v + n - 1);
        UnmapCounted(s, v + n - 1, -1, 0);
      }
    }
  }

  lemma ProtectCore(st: Space, v: int, prot: bv32)
    requires Core(st)
    ensures Protect(st, v, prot).Done? && Core(Protect(st, v, prot).st)
  {
    hide EntryRefuses, RecordRefuses, PteCreate;
    var r := Protect(st, v, prot);
    if v in st.leaf {
      assert LeafOk(st, v);
      PteCreated(PtePpn(st.leaf[v]), prot, true);
    }
    forall u | u in r.st.leaf ensures LeafOk(r.st, u) {
      assert LeafOk(st, u);
    }
  }

  lemma ProtectCounts(st: Space, v: int, prot: bv32)
    requires Core(st) && Counted(st, -1, 0) && Protect(st, v, prot).Done?
    ensures Counted(Protect(st, v, prot).st, -1, 0)
  {
    hide Counted, EntryRefuses, RecordRefuses, PteCreate;
    if v in st.leaf {
      assert LeafOk(st, v);
      if PteValid(st.leaf[v]) {
        PteCreated(PtePpn(st.leaf[v]), prot, true);
        ReplaceCounted(st, v, PteCreate(PtePpn(st.leaf[v]), prot, true));
      } else {
        RecordProtCounted(st, VmrIndex(st.base, st.leaf[v]), prot);
      }
    }
  }

  lemma StepCore(files: Files, st: Space, op: Op)
    requires Core(st) && Enabled(st, op) && Step(files, st, op).Done?
    ensures Core(Step(files, st, op).st)
  {
    hide Core, Mmap, Unmap, Fault, Protect;
    match op
    case OpMmap(spare, m, prot, populate) => MmapCore(files, st, spare, m, prot, populate);
    case OpMunmap(v, n) => UnmapCounts(st, v, n);
    case OpFault(v, prot) => FaultCore(files, st, v, prot);
    case OpProtect(v, prot) => ProtectCore(st, v, prot);
    case OpWrite(v, page) => WriteCore(st, v, page);
  }

  lemma WriteCore(st: Space, v: int, page: Page)
    requires Core(st)
    ensures Core(Write(st, v, page)) && (Counted(st, -1, 0) ==> Counted(Write(st, v, page), -1, 0))
  {
    var r := Write(st, v, page);
    forall u | u in r.leaf ensures LeafOk(r, u) {
      assert LeafOk(st, u);
    }
    if Counted(st, -1, 0) {
      SameCounts(st, r, -1, 0);
    }
  }

  lemma StepCounts(files: Files, st: Space, op: Op)
    requires Core(st) && Counted(st, -1, 0) && Enabled(st, op) && Step(files, st, op).Done?
    ensures Counted(Step(files, st, op).st, -1, 0) <==> !Leaks(st, op)
  {
    hide Core, Counted, Mmap, Unmap, Fault, Protect, Write;
    match op
    case OpMmap(spare, m, prot, populate) => MmapCounts(files, st, spare, m, prot, populate);
    case OpMunmap(v, n) => UnmapCounts(st, v, n);
    case OpFault(v, prot) => FaultCounts(files, st, v, prot, -1, 0);
    case OpProtect(v, prot) => ProtectCounts(st, v, prot);
    case OpWrite(v, page) => WriteCore(st, v, page);
  }

  /** In every state of a run the counts are the numbers of entries, if and only if no
      mapping leaks its record. */
  lemma {:induction false} CountsEveryCall(files: Files, st: Space, ops: seq<Op>, t: Space)
    requires Core(st) && Counted(st, -1, 0) && Reaches(files, st, ops, t)
    ensures InEveryState(files, st, ops, CountsExact) <==> Throughout(files, st, ops, LeaksNot)
    decreases |ops|
  {
    hide Core, Counted, Step, Leaks;
    assert CountsExact(st) by { ExactCounts(st); }
    if ops != [] {
      var s := Step(files, st, ops[0]).st;
      StepCore(files, st, ops[0]);
      StepCounts(files, st, ops[0]);
      ExactCounts(s);
      if Counted(s, -1, 0) {
        CountsEveryCall(files, s, ops[1..], t);
      }
    }
  }

  /** Every record's count is the number of entries that hold its address. */
  ghost predicate CountsExact(st: Space) {
    forall i :: 0 <= i < |st.vmrs| ==>
      st.vmrs[i].refcnt == |set v | v in st.leaf && st.leaf[v] == VmrPtr(st.base, i)|
  }

  predicate LeaksNot(st: Space, op: Op) { !Leaks(st, op) }

  lemma ExactCounts(st: Space)
    requires Core(st)
    ensures Counted(st, -1, 0) <==> CountsExact(st)
  {
    hide Core;
    assert forall v :: v in st.leaf ==> 0 <= v < NPAGES by { CorePages(st); }
    forall i | 0 <= i < |st.vmrs|
      ensures CountIs(st, i, -1, 0) <==>
              st.vmrs[i].refcnt == |set v | v in st.leaf && st.leaf[v] == VmrPtr(st.base, i)|
    {
      var w := VmrPtr(st.base, i);
      assert Holders(st.leaf, w) == set v | v in st.leaf && st.leaf[v] == w;
      RefsBound(st.leaf, w);
    }
  }

  lemma CorePages(st: Space)
    requires Core(st)
    ensures forall v :: v in st.leaf ==> 0 <= v < NPAGES
  {
    forall v | v in st.leaf ensures 0 <= v < NPAGES {
      assert LeafOk(st, v);
    }
  }

  // ---- pages outside the range ----

  lemma MmapOthers(files: Files, st: Space, spare: int, m: Mapping, prot: bv32, populate: bool, u: int)
    requires Inv(files, st, -1, 0) && SparePage(spare) && UserRange(st, m) && !Covers(m, u)
    requires Mmap(files, st, spare, m, prot, populate).Done?
    ensures SameAt(Mmap(files, st, spare, m, prot, populate).st, st, u)
  {
    hide Inv, Covers, MapRange, PopulateRange, PageContents, FirstFree;
    InvBounds(files, st);
    RangePages(st, m);
    var v, n := m.addr / 4096, NPages(m.length);
    var s0 := InitRecords(st, spare);
    InitRecordsKeeps(files, st, spare);
    var i := FirstFree(s0.vmrs, 0);
    if i < |s0.vmrs| {
      var s1 := TakeRecord(s0, i, m, prot);
      TakeRecordKeeps(files, s0, i, m, prot);
      var s2 := MapRange(s1, v, n, i);
      MapRangeKeeps(files, s1, v, n, i, n);
      MapRangeFrame(s1, v, n, i);
      MapRangeOthers(s1, v, n, i, u);
      SettledInv(files, s2, i, 0);
      if populate {
        PopulateRangeKeeps(files, s2, v, n, v + n, i, prot);
      }
    }
  }
}
