/**
 Runs with mappings at any address and of any length: what the reference counts, the ranges
 of the records and the contents of a page are worth in all of them.
*/
module EveryRun {

  import opened Machine
  import opened PageTable
  import opened Mappings
  import opened AddressSpace

  // ---- records that entries point at are counted right ----

  ghost function RefsOf(st: Space, j: int): nat { Refs(st.leaf, VmrPtr(st.base, j)) }

  /** The count is the number of entries, or there are no entries. */
  ghost predicate SafeRecord(st: Space, j: int)
    requires 0 <= j < |st.vmrs|
  {
    0 <= st.vmrs[j].refcnt < 0x1_0000_0000 && (st.vmrs[j].refcnt == RefsOf(st, j) || RefsOf(st, j) == 0)
  }

  ghost predicate SafeCounts(st: Space) {
    forall j :: 0 <= j < |st.vmrs| ==> SafeRecord(st, j)
  }

  lemma SafeFrom(st: Space, j: int, owed: int)
    requires Core(st) && 0 <= j < |st.vmrs| && CountIs(st, j, j, owed) && (owed == 0 || RefsOf(st, j) == 0)
    ensures SafeRecord(st, j)
  {
    hide Refs, Core;
    CorePages(st);
    RefsBound(st.leaf, VmrPtr(st.base, j));
  }

  /** How far the count of a safe record is off. */
  lemma SafeTo(st: Space, j: int) returns (owed: int)
    requires 0 <= j < |st.vmrs| && SafeRecord(st, j)
    ensures CountIs(st, j, j, owed) && (owed == 0 || RefsOf(st, j) == 0)
  {
    hide Refs;
    owed := st.vmrs[j].refcnt - RefsOf(st, j);
  }

  /** No entry points at a free record. */
  lemma FreeSafe(st: Space, j: int, v: int)
    requires 0 <= j < |st.vmrs| && SafeRecord(st, j) && st.vmrs[j].refcnt == 0
    ensures RefsOf(st, j) == 0 && (v in st.leaf ==> st.leaf[v] != VmrPtr(st.base, j))
  {
    hide Refs;
    if v in st.leaf {
      RefsPositive(st.leaf, v);
    }
  }

  lemma UnmapSafe(st: Space, v: int, j: int)
    requires Core(st) && 0 <= j < |st.vmrs| && SafeRecord(st, j)
    ensures SafeRecord(UnmapPage(st, v), j)
  {
    hide Core, SafeRecord, CountIs, Refs;
    if v in st.leaf {
      CoreLeaf(st, v);
      var owed := SafeTo(st, j);
      UnmapCount(st, v, j, j, owed);
      RefsRemove(st.leaf, v, VmrPtr(st.base, j));
      UnmapCore(st, v);
      SafeFrom(UnmapPage(st, v), j, owed);
    }
  }

  lemma CoreLeaf(st: Space, v: int)
    requires Core(st) && v in st.leaf
    ensures RecordsOk(st) && LeafOk(st, v)
  {
  }

  lemma MapPageSafe(st: Space, v: int, i: int, j: int)
    requires Core(st) && 0 <= i < MAX_VMR && 0 <= j < |st.vmrs| && j != i && SafeRecord(st, j)
    ensures RecordsOk(st) && SafeRecord(MapPage(st, v, i), j)
  {
    hide Core, Refs;
    CoreRecords(st);
    UnmapSafe(st, v, j);
    var s := UnmapPage(st, v);
    RefsAdd(s.leaf, v, VmrPtr(s.base, i), VmrPtr(s.base, j));
    PtrFacts(s.base, i, j);
  }

  lemma MapPageOwed(st: Space, v: int, i: int, owed: int)
    requires Core(st) && 0 <= i < MAX_VMR && RecordsOk(st) && CountIs(st, i, i, owed)
    ensures CountIs(MapPage(st, v, i), i, i, owed - 1)
  {
    hide Core, Refs, U32;
    var s := UnmapPage(st, v);
    if v in st.leaf {
      CoreLeaf(st, v);
      UnmapCount(st, v, i, i, owed);
    }
    MapCount(s, v, i, i, owed);
  }

  /** All records but i are safe, and i is owed some entries. */
  ghost predicate SafeExcept(st: Space, i: int, owed: int) {
    && 0 <= i < |st.vmrs| && CountIs(st, i, i, owed)
    && forall j :: 0 <= j < |st.vmrs| && j != i ==> SafeRecord(st, j)
  }

  lemma {:induction false} MapRangeSafe(st: Space, v: int, n: nat, i: int, owed: int)
    requires Core(st) && SafeExcept(st, i, owed) && 0 < st.base && 0 <= i < MAX_VMR
    ensures RecordsOk(st) && SafeExcept(MapRange(st, v, n, i), i, owed - n)
  {
    hide Core, SafeRecord, CountIs, MapPage;
    CoreRecords(st);
    if n > 0 {
      MapRangeSafe(st, v, n - 1, i, owed);
      MapRangeCore(st, v, n - 1, i);
      var s, r := MapRange(st, v, n - 1, i), MapRange(st, v, n, i);
      MapPageOwed(s, SlotOf(v + n - 1), i, owed - (n - 1));
      forall j | 0 <= j < |r.vmrs| && j != i ensures SafeRecord(r, j) {
        MapPageSafe(s, SlotOf(v + n - 1), i, j);
      }
    }
  }

  lemma PopulateSafe(files: Files, st: Space, v: int, j: int)
    requires Core(st) && 0 <= j < |st.vmrs| && SafeRecord(st, j)
    requires v in st.leaf && 0 <= v < NPAGES && !PteValid(st.leaf[v]) && PopulatePage(files, st, v).Some?
    ensures SafeRecord(PopulatePage(files, st, v).value, j)
  {
    hide Core, SafeRecord, CountIs, Refs, PteCreate, PageContents;
    CoreLeaf(st, v);
    var owed := SafeTo(st, j);
    var d, r := VmrIndex(st.base, st.leaf[v]), PopulatePage(files, st, v).value;
    var pte := PteCreate(v, st.vmrs[d].prot, true);
    PteCreated(v, st.vmrs[d].prot, true);
    PopulateCount(st, v, pte, j, j, owed);
    FewerRefs(st.leaf, v, pte, st.base, j);
    PopulatePageCore(files, st, v);
    SameCount(st.(vmrs := DecRef(st.vmrs, d), leaf := SetLeaf(st.leaf, v, pte)), r, j, owed);
    SafeFrom(r, j, owed);
  }

  lemma SameCount(s: Space, r: Space, j: int, owed: int)
    requires 0 <= j < |s.vmrs| && CountIs(s, j, j, owed) && s.vmrs == r.vmrs && s.leaf == r.leaf && s.base == r.base
    ensures CountIs(r, j, j, owed)
  {
  }

  /** A valid entry in place of another entry points at no record. */
  lemma FewerRefs(leaf: map<int, Word>, v: int, pte: Word, base: int, j: int)
    requires v in leaf && PteValid(pte) && 0 <= base && base % 4096 == 0
    ensures Refs(SetLeaf(leaf, v, pte), VmrPtr(base, j)) <= Refs(leaf, VmrPtr(base, j))
    ensures PteValid(leaf[v]) ==> Refs(SetLeaf(leaf, v, pte), VmrPtr(base, j)) == Refs(leaf, VmrPtr(base, j))
  {
    hide Refs;
    assert SetLeaf(leaf, v, pte) == SetLeaf(leaf - {v}, v, pte);
    PtrFacts(base, j, j);
    RefsRemove(leaf, v, VmrPtr(base, j));
    RefsAdd(leaf - {v}, v, pte, VmrPtr(base, j));
  }

  lemma FaultSafe(files: Files, st: Space, v: int, prot: bv32)
    requires Core(st) && SafeCounts(st) && Fault(files, st, v, prot).Done?
    ensures SafeCounts(Fault(files, st, v, prot).st)
  {
    hide Core, SafeRecord, PopulatePage;
    if 0 <= v < NPAGES && v in st.leaf && !PteValid(st.leaf[v]) && st.lo <= v < st.hi {
      var r := PopulatePage(files, st, v).value;
      SameRecordCount(files, st, v);
      forall j | 0 <= j < |r.vmrs| ensures SafeRecord(r, j) {
        PopulateSafe(files, st, v, j);
      }
    }
  }

  lemma SameRecordCount(files: Files, st: Space, v: int)
    requires v in st.leaf && 0 <= v < NPAGES && PopulatePage(files, st, v).Some?
    ensures |PopulatePage(files, st, v).value.vmrs| == |st.vmrs|
  {
  }

  lemma {:induction false} PopulateRangeSafe(files: Files, st: Space, v: int, n: nat, prot: bv32)
    requires Core(st) && SafeCounts(st) && PopulateRange(files, st, v, n, prot).Done?
    ensures SafeCounts(PopulateRange(files, st, v, n, prot).st)
  {
    hide Core, SafeCounts, Fault;
    if n > 0 {
      PopulateRangeSafe(files, st, v, n - 1, prot);
      PopulateRangeCore(files, st, v, n - 1, prot);
      FaultSafe(files, PopulateRange(files, st, v, n - 1, prot).st, v + n - 1, prot);
    }
  }

  lemma TakeRecordSafe(st: Space, i: int, m: Mapping, prot: bv32)
    requires SafeCounts(st) && 0 <= i < |st.vmrs| && st.vmrs[i].refcnt == 0
    ensures SafeExcept(TakeRecord(st, i, m, prot), i, NPages(m.length)) && RefsOf(TakeRecord(st, i, m, prot), i) == 0
  {
    hide Refs;
    FreeSafe(st, i, -1);
    var r := TakeRecord(st, i, m, prot);
    forall j | 0 <= j < |r.vmrs| && j != i ensures SafeRecord(r, j) {
      assert SafeRecord(st, j);
    }
  }

  lemma InitRecordsSafe(st: Space, spare: int)
    requires Core(st) && SafeCounts(st) && SparePage(spare)
    ensures SafeCounts(InitRecords(st, spare))
  {
    hide Refs;
    var r := InitRecords(st, spare);
    if st.base == 0 {
      forall j | 0 <= j < |r.vmrs| ensures SafeRecord(r, j) {
        assert SafeRecord(st, j);
        PtrFacts(spare, j, j);
        NoPointers(st, VmrPtr(spare, j));
      }
    }
  }

  lemma SettledSafe(st: Space, i: int, owed: int)
    requires Core(st) && SafeExcept(st, i, owed) && (owed == 0 || RefsOf(st, i) == 0)
    ensures SafeCounts(st)
  {
    hide Core, SafeRecord, CountIs, Refs;
    SafeFrom(st, i, owed);
  }

  lemma MmapSafe(files: Files, st: Space, spare: int, m: Mapping, prot: bv32, populate: bool)
    requires Core(st) && SafeCounts(st) && SparePage(spare) && 0 < m.length
    requires Mmap(files, st, spare, m, prot, populate).Done?
    ensures SafeCounts(Mmap(files, st, spare, m, prot, populate).st)
  {
    hide Core, SafeCounts, SafeExcept, FirstFree, PopulateRange, MapRange, TakeRecord, Endless, LoopPages, NPages;
    hide RefsOf;
    CoreRecords(st);
    var s0 := InitRecords(st, spare);
    InitRecordsCounts(st, spare);
    InitRecordsSafe(st, spare);
    var i := FirstFree(s0.vmrs, 0);
    if i < |s0.vmrs| {
      var v, n := m.addr / 4096, LoopPages(m.addr, m.length);
      TakeRecordCore(s0, i, m, prot);
      TakeRecordSafe(s0, i, m, prot);
      var s1 := TakeRecord(s0, i, m, prot);
      TakenBase(s0, i, m, prot);
      MapRangeCore(s1, v, n, i);
      MapRangeSafe(s1, v, n, i, NPages(m.length));
      var s2 := MapRange(s1, v, n, i);
      assert n == NPages(m.length) || (n == 0 && s2 == s1) by {
        VisitsAllOrNone(m.addr, m.length);
        MapNone(s1, v, i);
      }
      SettledSafe(s2, i, NPages(m.length) - n);
      if populate {
        PopulateRangeSafe(files, s2, v, n, prot);
      }
    }
  }

  lemma MapNone(st: Space, v: int, i: int)
    requires RecordsOk(st) && 0 <= i < MAX_VMR
    ensures MapRange(st, v, 0, i) == st
  {
  }

  lemma {:induction false} UnmapRangeSafe(st: Space, v: int, n: nat)
    requires Core(st) && SafeCounts(st)
    ensures SafeCounts(Unmap(st, v, n))
  {
    hide Core, SafeRecord, UnmapPage;
    if n > 0 {
      UnmapRangeSafe(st, v, n - 1);
      UnmapCounts(st, v, n - 1);
      var s, r := Unmap(st, v, n - 1), Unmap(st, v, n);
      forall j | 0 <= j < |r.vmrs| ensures SafeRecord(r, j) {
        UnmapSafe(s, v + n - 1, j);
      }
    }
  }

  lemma ProtectSafe(st: Space, v: int, prot: bv32)
    requires Core(st) && SafeCounts(st) && Protect(st, v, prot).Done?
    ensures SafeCounts(Protect(st, v, prot).st)
  {
    hide Core, Refs, PteCreate, EntryRefuses, RecordRefuses;
    CoreRecords(st);
    var r := Protect(st, v, prot).st;
    forall j | 0 <= j < |r.vmrs| ensures SafeRecord(r, j) {
      assert SafeRecord(st, j);
      if v in st.leaf && PteValid(st.leaf[v]) {
        PteCreated(PtePpn(st.leaf[v]), prot, true);
        FewerRefs(st.leaf, v, PteCreate(PtePpn(st.leaf[v]), prot, true), st.base, j);
      }
    }
  }

  lemma WriteSafe(st: Space, v: int, page: Page)
    requires SafeCounts(st)
    ensures SafeCounts(Write(st, v, page))
  {
    var r := Write(st, v, page);
    forall j | 0 <= j < |r.vmrs| ensures SafeRecord(r, j) {
      assert SafeRecord(st, j);
    }
  }

  /** Every operation, with whatever arguments, keeps the records in use counted right. */
  lemma StepSafe(files: Files, st: Space, op: Op)
    requires Core(st) && SafeCounts(st) && Enabled(st, op) && Step(files, st, op).Done?
    ensures SafeCounts(Step(files, st, op).st)
  {
    hide Core, SafeCounts, Mmap, Unmap, Fault, Protect, Write;
    match op
    case OpMmap(spare, m, prot, populate) => MmapSafe(files, st, spare, m, prot, populate);
    case OpMunmap(v, n) => UnmapRangeSafe(st, v, n);
    case OpFault(v, prot) => FaultSafe(files, st, v, prot);
    case OpProtect(v, prot) => ProtectSafe(st, v, prot);
    case OpWrite(v, page) => WriteSafe(st, v, page);
  }

  lemma {:induction false} RunSafe(files: Files, st: Space, ops: seq<Op>, t: Space)
    requires Core(st) && SafeCounts(st) && Reaches(files, st, ops, t)
    ensures Core(t) && SafeCounts(t)
    decreases |ops|
  {
    hide Core, SafeCounts, Step;
    if ops != [] {
      StepCore(files, st, ops[0]);
      StepSafe(files, st, ops[0]);
      RunSafe(files, Step(files, st, ops[0]).st, ops[1..], t);
    }
  }

  lemma InitialSafe(files: Files, st: Space)
    requires Initial(st)
    ensures Core(st) && Counted(st, -1, 0) && SafeCounts(st)
  {
    hide Refs;
    InitialInv(files, st);
    InvCore(files, st, -1, 0);
    forall j | 0 <= j < |st.vmrs| ensures SafeRecord(st, j) {
      ExactCount(st, j);
    }
  }

  // ---- records cover the pages that point at them ----

  /** An entry that is the address of a record lies in the record's range. */
  ghost predicate CoveredAt(st: Space, v: int)
    requires v in st.leaf
  {
    var i := VmrIndex(st.base, st.leaf[v]);
    !PteValid(st.leaf[v]) ==> 0 <= i < |st.vmrs| && Covers(st.vmrs[i].mapping, v)
  }

  ghost predicate CoversAll(st: Space) {
    forall v :: v in st.leaf ==> CoveredAt(st, v)
  }

  /** The range passes the last page of the table, so that slots below it are mapped too. */
  predicate Strays(st: Space, op: Op) {
    && op.OpMmap? && FirstFree(st.vmrs, 0) < |st.vmrs| && 0 < LoopPages(op.m.addr, op.m.length)
    && 0 < op.m.addr / 4096 && NPAGES < op.m.addr / 4096 + LoopPages(op.m.addr, op.m.length)
  }

  predicate StraysNot(st: Space, op: Op) { !Strays(st, op) }

  lemma UnmapCovers(st: Space, v: int)
    requires CoversAll(st)
    ensures CoversAll(UnmapPage(st, v))
  {
    hide Covers;
    var r := UnmapPage(st, v);
    forall u | u in r.leaf ensures CoveredAt(r, u) {
      assert CoveredAt(st, u);
    }
  }

  lemma {:induction false} UnmapRangeCovers(st: Space, v: int, n: nat)
    requires CoversAll(st)
    ensures CoversAll(Unmap(st, v, n))
  {
    hide CoversAll, UnmapPage;
    if n > 0 {
      UnmapRangeCovers(st, v, n - 1);
      UnmapCovers(Unmap(st, v, n - 1), v + n - 1);
    }
  }

  lemma MapPageCovers(st: Space, v: int, i: int)
    requires RecordsOk(st) && 0 <= i < MAX_VMR && 0 < st.base
    ensures var r := MapPage(st, v, i);
            && v in r.leaf && SameRecords(r, st) && r.base == st.base
            && (CoveredAt(r, v) <==> Covers(st.vmrs[i].mapping, v))
            && (forall u :: u != v ==> (u in r.leaf <==> u in st.leaf))
            && (forall u :: u != v && u in r.leaf ==> (CoveredAt(r, u) <==> CoveredAt(st, u)))
  {
    hide Covers;
    var r := MapPage(st, v, i);
    PtrFacts(st.base, i, i);
    assert VmrIndex(st.base, VmrPtr(st.base, i)) == i;
    assert r.leaf[v] == VmrPtr(st.base, i) && !PteValid(r.leaf[v]);
    forall u | u != v && u in r.leaf ensures CoveredAt(r, u) <==> CoveredAt(st, u) {
      assert r.leaf[u] == st.leaf[u];
    }
  }

  /** All pages that the mapping loop visits lie in the record's range. */
  ghost predicate SlotsCovered(m: Mapping, v: int, n: nat) {
    forall p :: v <= p < v + n ==> Covers(m, SlotOf(p))
  }

  lemma {:induction false} MapRangeCovers(st: Space, v: int, n: nat, i: int)
    requires RecordsOk(st) && 0 <= i < MAX_VMR && 0 < st.base && CoversAll(st)
    ensures SameRecords(MapRange(st, v, n, i), st)
    ensures CoversAll(MapRange(st, v, n, i)) <==> SlotsCovered(st.vmrs[i].mapping, v, n)
    ensures forall p :: v <= p < v + n && !Covers(st.vmrs[i].mapping, SlotOf(p)) ==>
              SlotOf(p) in MapRange(st, v, n, i).leaf && !CoveredAt(MapRange(st, v, n, i), SlotOf(p))
  {
    hide Covers, MapPage, CoveredAt;
    if n > 0 {
      MapRangeCovers(st, v, n - 1, i);
      var s, r, w := MapRange(st, v, n - 1, i), MapRange(st, v, n, i), SlotOf(v + n - 1);
      MapPageCovers(s, w, i);
      assert s.vmrs[i].mapping == st.vmrs[i].mapping;
      forall p | v <= p < v + n && !Covers(st.vmrs[i].mapping, SlotOf(p))
        ensures SlotOf(p) in r.leaf && !CoveredAt(r, SlotOf(p))
      {
        if SlotOf(p) != w {
          assert p < v + n - 1;
        }
      }
      if SlotsCovered(st.vmrs[i].mapping, v, n) {
        assert SlotsCovered(st.vmrs[i].mapping, v, n - 1) && Covers(st.vmrs[i].mapping, w);
        forall u | u in r.leaf ensures CoveredAt(r, u) {
        }
      }
    }
  }

  /** A range covers the slots of all its pages unless it passes the last page of the table. */
  lemma StrayPages(m: Mapping, n: nat)
    requires Request(m.addr, m.length) && 0 < m.length && (n == 0 || n == NPages(m.length))
    ensures SlotsCovered(m, m.addr / 4096, n) <==>
            n == 0 || m.addr / 4096 == 0 || m.addr / 4096 + n <= NPAGES
  {
    var v := m.addr / 4096;
    if n > 0 && v > 0 && v + n > NPAGES {
      if v < NPAGES {
        assert SlotOf(NPAGES) == 0 && !Covers(m, SlotOf(NPAGES));
      } else {
        assert !Covers(m, SlotOf(v));
      }
    } else {
      forall p | v <= p < v + n ensures Covers(m, SlotOf(p)) {
        if v == 0 {
          assert 0 <= SlotOf(p) <= p;
        }
      }
    }
  }

  lemma TakeRecordCovers(st: Space, spare: int, i: int, m: Mapping, prot: bv32)
    requires Core(st) && SafeCounts(st) && CoversAll(st) && SparePage(spare)
    requires 0 <= i < |st.vmrs| && st.vmrs[i].refcnt == 0
    ensures CoversAll(InitRecords(st, spare)) && CoversAll(TakeRecord(InitRecords(st, spare), i, m, prot))
  {
    hide Covers, Refs;
    var s := InitRecords(st, spare);
    forall u | u in s.leaf ensures CoveredAt(s, u) {
      assert CoveredAt(st, u) && LeafOk(st, u);
    }
    var r := TakeRecord(s, i, m, prot);
    InitRecordsSafe(st, spare);
    InitRecordsCounts(st, spare);
    forall u | u in r.leaf ensures CoveredAt(r, u) {
      assert CoveredAt(s, u) && LeafOk(s, u);
      FreeSafe(s, i, u);
    }
  }

  lemma InitRecordsCovers(st: Space, spare: int)
    requires Core(st) && CoversAll(st)
    ensures CoversAll(InitRecords(st, spare))
  {
    hide Covers;
    var s := InitRecords(st, spare);
    forall u | u in s.leaf ensures CoveredAt(s, u) {
      assert CoveredAt(st, u) && LeafOk(st, u);
    }
  }

  lemma FaultCovers(files: Files, st: Space, v: int, prot: bv32)
    requires CoversAll(st) && Fault(files, st, v, prot).Done?
    ensures CoversAll(Fault(files, st, v, prot).st)
    ensures Fault(files, st, v, prot).status == 0 ==> 0 <= v < NPAGES
  {
    hide Covers, PteCreate, PageContents, Permits;
    var r := Fault(files, st, v, prot).st;
    if 0 <= v < NPAGES && v in st.leaf && st.lo <= v < st.hi && !PteValid(st.leaf[v]) {
      PteCreated(v, st.vmrs[VmrIndex(st.base, st.leaf[v])].prot, true);
    }
    forall u | u in r.leaf ensures CoveredAt(r, u) {
      assert CoveredAt(st, u);
    }
  }

  lemma {:induction false} PopulateRangeCovers(files: Files, st: Space, v: int, n: nat, prot: bv32)
    requires CoversAll(st) && PopulateRange(files, st, v, n, prot).Done?
    ensures CoversAll(PopulateRange(files, st, v, n, prot).st)
    ensures 0 < n ==> v + n <= NPAGES
  {
    hide CoversAll, Fault;
    if n > 0 {
      PopulateRangeCovers(files, st, v, n - 1, prot);
      FaultCovers(files, PopulateRange(files, st, v, n - 1, prot).st, v + n - 1, prot);
    }
  }

  /** A mapping keeps the records covering their pages exactly unless it strays. */
  lemma MmapCovers(files: Files, st: Space, spare: int, m: Mapping, prot: bv32, populate: bool)
    requires Core(st) && SafeCounts(st) && CoversAll(st) && SparePage(spare)
    requires Request(m.addr, m.length) && 0 < m.length
    requires Mmap(files, st, spare, m, prot, populate).Done?
    ensures CoversAll(Mmap(files, st, spare, m, prot, populate).st) <==> !Strays(st, OpMmap(spare, m, prot, populate))
  {
    hide Core, SafeCounts, CoversAll, FirstFree, PopulateRange, MapRange, Endless, LoopPages, NPages, SlotsCovered;
    CoreRecords(st);
    var s0 := InitRecords(st, spare);
    InitRecordsCounts(st, spare);
    InitRecordsCovers(st, spare);
    var i := FirstFree(s0.vmrs, 0);
    if i < |s0.vmrs| {
      var v, n := m.addr / 4096, LoopPages(m.addr, m.length);
      TakeRecordCovers(st, spare, i, m, prot);
      var s1 := TakeRecord(s0, i, m, prot);
      MapRangeCovers(s1, v, n, i);
      VisitsAllOrNone(m.addr, m.length);
      StrayPages(m, n);
      if populate {
        if SlotsCovered(m, v, n) {
          PopulateRangeCovers(files, MapRange(s1, v, n, i), v, n, prot);
        } else {
          PopulateInside(files, MapRange(s1, v, n, i), v, n, prot);
          assert false;
        }
      }
    }
  }

  lemma PopulateInside(files: Files, st: Space, v: int, n: nat, prot: bv32)
    requires 0 < n && PopulateRange(files, st, v, n, prot).Done?
    ensures v + n <= NPAGES
  {
    hide Permits, PopulatePage;
  }

  lemma ProtectCovers(st: Space, v: int, prot: bv32)
    requires CoversAll(st) && Protect(st, v, prot).Done?
    ensures CoversAll(Protect(st, v, prot).st)
  {
    hide Covers, PteCreate, EntryRefuses, RecordRefuses;
    var r := Protect(st, v, prot).st;
    if v in st.leaf && PteValid(st.leaf[v]) {
      PteCreated(PtePpn(st.leaf[v]), prot, true);
    }
    forall u | u in r.leaf ensures CoveredAt(r, u) {
      assert CoveredAt(st, u);
    }
  }

  lemma WriteCovers(st: Space, v: int, page: Page)
    requires CoversAll(st)
    ensures CoversAll(Write(st, v, page))
  {
    hide Covers;
    var r := Write(st, v, page);
    forall u | u in r.leaf ensures CoveredAt(r, u) {
      assert CoveredAt(st, u);
    }
  }

  lemma StepCovers(files: Files, st: Space, op: Op)
    requires Core(st) && SafeCounts(st) && CoversAll(st) && Enabled(st, op) && Step(files, st, op).Done?
    ensures CoversAll(Step(files, st, op).st) <==> !Strays(st, op)
  {
    hide Core, SafeCounts, CoversAll, Mmap, Unmap, Fault, Protect, Write;
    match op
    case OpMmap(spare, m, prot, populate) => MmapCovers(files, st, spare, m, prot, populate);
    case OpMunmap(v, n) => UnmapRangeCovers(st, v, n);
    case OpFault(v, prot) => FaultCovers(files, st, v, prot);
    case OpProtect(v, prot) => ProtectCovers(st, v, prot);
    case OpWrite(v, page) => WriteCovers(st, v, page);
  }

  /** In every state of a run each record's range covers the pages that point at it, if and
      only if no mapping passes the last page of the table. */
  lemma {:induction false} CoverageEveryCall(files: Files, st: Space, ops: seq<Op>, t: Space)
    requires Core(st) && SafeCounts(st) && CoversAll(st) && Reaches(files, st, ops, t)
    ensures InEveryState(files, st, ops, CoversAll) <==> Throughout(files, st, ops, StraysNot)
    ensures Throughout(files, st, ops, StraysNot) ==> CoversAll(t)
    decreases |ops|
  {
    hide Core, SafeCounts, CoversAll, Step, Strays;
    if ops != [] {
      var s := Step(files, st, ops[0]).st;
      StepCore(files, st, ops[0]);
      StepSafe(files, st, ops[0]);
      StepCovers(files, st, ops[0]);
      if CoversAll(s) {
        CoverageEveryCall(files, s, ops[1..], t);
      }
    }
  }

  /** One page beyond the last page of the table: slot q points at a record that lies elsewhere. */
  lemma StrayMapping(files: Files, st: Space, spare: int, q: int, prot: bv32)
    requires Core(st) && SafeCounts(st) && CoversAll(st) && SparePage(spare)
    requires FirstFree(st.vmrs, 0) < |st.vmrs| && 0 <= q < NPAGES
    ensures RecordsOk(st)
    ensures var m := Mapping((NPAGES + q) * 4096, 4096, None, 0);
            && Strays(st, OpMmap(spare, m, prot, false))
            && Mmap(files, st, spare, m, prot, false).Done? && !CoversAll(Mmap(files, st, spare, m, prot, false).st)
  {
    hide Core, SafeCounts, CoversAll, FirstFree, MapRange;
    CoreRecords(st);
    var m := Mapping((NPAGES + q) * 4096, 4096, None, 0);
    assert Request(m.addr, m.length) && !Endless(m.addr, m.length) && LoopPages(m.addr, m.length) == 1;
    MmapCovers(files, st, spare, m, prot, false);
  }

  // ---- every reachable state ----

  /** In every reachable state, whatever ranges were mapped, an entry is a valid page table entry
      or the address of exactly one record, and a record that entries point at is counted
      exactly. Without a leak all records are; without a stray mapping they cover their pages. */
  lemma ReferenceCounts(files: Files, st: Space, ops: seq<Op>, t: Space)
    requires Initial(st) && Reaches(files, st, ops, t)
    ensures forall v :: v in t.leaf ==> t.leaf[v] != 0 && (PteValid(t.leaf[v]) <==> !exists i :: IsRecordOf(t, v, i))
    ensures forall v, i, j :: v in t.leaf && IsRecordOf(t, v, i) && IsRecordOf(t, v, j) ==> i == j
    ensures forall v, i :: v in t.leaf && IsRecordOf(t, v, i) ==>
              0 < t.vmrs[i].refcnt == |set u | u in t.leaf && t.leaf[u] == VmrPtr(t.base, i)|
    ensures Throughout(files, st, ops, LeaksNot) ==> CountsExact(t)
    ensures Throughout(files, st, ops, StraysNot) ==>
              forall v, i :: v in t.leaf && IsRecordOf(t, v, i) ==> Covers(t.vmrs[i].mapping, v)
  {
    hide Core, Counted, SafeCounts, CoversAll, CountsExact, Covers, Step, Leaks, Strays, InEveryState;
    InitialSafe(files, st);
    RunSafe(files, st, ops, t);
    InitialCovers(st);
    CoverageEveryCall(files, st, ops, t);
    if Throughout(files, st, ops, LeaksNot) {
      CountsEveryCall(files, st, ops, t);
      LastState(files, st, ops, t);
    }
    forall v, i | v in t.leaf && IsRecordOf(t, v, i)
      ensures !PteValid(t.leaf[v]) && i == VmrIndex(t.base, t.leaf[v])
      ensures 0 < t.vmrs[i].refcnt == |set u | u in t.leaf && t.leaf[u] == VmrPtr(t.base, i)|
      ensures CoversAll(t) ==> Covers(t.vmrs[i].mapping, v)
    {
      EntryOfRecord(t, v, i);
    }
    forall v | v in t.leaf
      ensures t.leaf[v] != 0 && (!PteValid(t.leaf[v]) ==> IsRecordOf(t, v, VmrIndex(t.base, t.leaf[v])))
    {
      CoreLeaf(t, v);
    }
  }

  lemma InitialCovers(st: Space)
    requires Initial(st)
    ensures CoversAll(st)
  {
  }

  lemma {:induction false} LastState(files: Files, st: Space, ops: seq<Op>, t: Space)
    requires InEveryState(files, st, ops, CountsExact) && Reaches(files, st, ops, t)
    ensures CountsExact(t)
    decreases |ops|
  {
    hide Step, CountsExact;
    if ops != [] {
      LastState(files, Step(files, st, ops[0]).st, ops[1..], t);
    }
  }

  lemma EntryOfRecord(t: Space, v: int, i: int)
    requires Core(t) && SafeCounts(t) && v in t.leaf && IsRecordOf(t, v, i)
    ensures !PteValid(t.leaf[v]) && i == VmrIndex(t.base, t.leaf[v])
    ensures 0 < t.vmrs[i].refcnt == |set u | u in t.leaf && t.leaf[u] == VmrPtr(t.base, i)|
    ensures CoversAll(t) ==> Covers(t.vmrs[i].mapping, v)
  {
    hide Covers, Core;
    CoreRecords(t);
    PtrFacts(t.base, i, i);
    RefsPositive(t.leaf, v);
    assert SafeRecord(t, i);
    assert Holders(t.leaf, VmrPtr(t.base, i)) == set u | u in t.leaf && t.leaf[u] == VmrPtr(t.base, i);
    if CoversAll(t) {
      assert CoveredAt(t, v);
    }
  }

  // ---- the contents of a page ----

  /** Page u belongs to mapping m: it holds the mapping's image, or the address of a record of
      that mapping. */
  ghost predicate PageOf(files: Files, st: Space, u: int, m: Mapping) {
    && u in st.leaf
    && if PteValid(st.leaf[u]) then u in st.mem && st.mem[u] == Image(files, m, u)
       else var i := VmrIndex(st.base, st.leaf[u]); 0 <= i < |st.vmrs| && st.vmrs[i].mapping == m
  }

  /** The loop over the range comes to the slot. */
  ghost predicate Visits(m: Mapping, u: int) {
    exists p :: m.addr / 4096 <= p < m.addr / 4096 + LoopPages(m.addr, m.length) && SlotOf(p) == u
  }

  /** The operation maps, unmaps or writes the page. */
  ghost predicate Touches(op: Op, u: int) {
    match op
    case OpMmap(_, m, _, _) => Visits(m, u)
    case OpMunmap(v, n) => v <= u < v + n
    case OpFault(_, _) => false
    case OpProtect(_, _) => false
    case OpWrite(v, _) => v == u
  }

  lemma UnmapPageOf(files: Files, st: Space, v: int, u: int, m: Mapping)
    requires PageOf(files, st, u, m) && u != v
    ensures PageOf(files, UnmapPage(st, v), u, m)
  {
    hide Image;
  }

  lemma {:induction false} UnmapRangePageOf(files: Files, st: Space, v: int, n: nat, u: int, m: Mapping)
    requires PageOf(files, st, u, m) && !(v <= u < v + n)
    ensures PageOf(files, Unmap(st, v, n), u, m)
  {
    hide PageOf, UnmapPage;
    if n > 0 {
      UnmapRangePageOf(files, st, v, n - 1, u, m);
      UnmapPageOf(files, Unmap(st, v, n - 1), v + n - 1, u, m);
    }
  }

  lemma {:induction false} MapRangePageOf(files: Files, st: Space, v: int, n: nat, i: int, u: int, m: Mapping)
    requires RecordsOk(st) && 0 <= i < MAX_VMR && PageOf(files, st, u, m)
    requires forall p :: v <= p < v + n ==> SlotOf(p) != u
    ensures PageOf(files, MapRange(st, v, n, i), u, m)
  {
    hide Image;
    if n > 0 {
      MapRangePageOf(files, st, v, n - 1, i, u, m);
      UnmapPageOf(files, MapRange(st, v, n - 1, i), SlotOf(v + n - 1), u, m);
    }
  }

  /** A page that the loop comes to belongs to the record's mapping. */
  lemma {:induction false} MapRangeTakes(files: Files, st: Space, v: int, n: nat, i: int, u: int)
    requires RecordsOk(st) && 0 < st.base && 0 <= i < MAX_VMR
    requires exists p :: v <= p < v + n && SlotOf(p) == u
    ensures PageOf(files, MapRange(st, v, n, i), u, st.vmrs[i].mapping)
    ensures SameRecords(MapRange(st, v, n, i), st)
  {
    hide Image, MapPage;
    var s, w := MapRange(st, v, n - 1, i), SlotOf(v + n - 1);
    MapSameRecords(st, v, n - 1, i);
    MapPageTakes(files, s, w, i);
    if u != w {
      MapRangeTakes(files, st, v, n - 1, i, u);
      MapPagePageOf(files, s, w, i, u, st.vmrs[i].mapping);
    }
  }

  lemma {:induction false} MapSameRecords(st: Space, v: int, n: nat, i: int)
    requires RecordsOk(st) && 0 <= i < MAX_VMR
    ensures SameRecords(MapRange(st, v, n, i), st)
  {
    if n > 0 {
      MapSameRecords(st, v, n - 1, i);
    }
  }

  lemma MapPageTakes(files: Files, st: Space, v: int, i: int)
    requires RecordsOk(st) && 0 < st.base && 0 <= i < MAX_VMR
    ensures PageOf(files, MapPage(st, v, i), v, st.vmrs[i].mapping) && SameRecords(MapPage(st, v, i), st)
  {
    PtrFacts(st.base, i, i);
    assert VmrIndex(st.base, VmrPtr(st.base, i)) == i;
  }

  lemma MapPagePageOf(files: Files, st: Space, v: int, i: int, u: int, m: Mapping)
    requires RecordsOk(st) && 0 <= i < MAX_VMR && PageOf(files, st, u, m) && u != v
    ensures PageOf(files, MapPage(st, v, i), u, m)
  {
    hide Image;
    UnmapPageOf(files, st, v, u, m);
  }

  lemma FaultPageOf(files: Files, st: Space, v: int, prot: bv32, u: int, m: Mapping)
    requires PageOf(files, st, u, m) && Covers(m, u) && m.length < 0x1_0000_0000_0000_0000
    requires Fault(files, st, v, prot).Done?
    ensures PageOf(files, Fault(files, st, v, prot).st, u, m)
    ensures PteValid(st.leaf[u]) || (u == v && Fault(files, st, v, prot).status == 0) ==>
              PteValid(Fault(files, st, v, prot).st.leaf[u])
  {
    hide Image, PageContents, PteCreate, Permits, Covers;
    if 0 <= v < NPAGES && v in st.leaf && st.lo <= v < st.hi && !PteValid(st.leaf[v]) {
      PteCreated(v, st.vmrs[VmrIndex(st.base, st.leaf[v])].prot, true);
      if v == u {
        PageContentsIsImage(files, m, u);
      }
    }
  }

  lemma {:induction false} PopulateRangePageOf(files: Files, st: Space, v: int, n: nat, prot: bv32, u: int, m: Mapping)
    requires PageOf(files, st, u, m) && Covers(m, u) && m.length < 0x1_0000_0000_0000_0000
    requires PopulateRange(files, st, v, n, prot).Done?
    ensures PageOf(files, PopulateRange(files, st, v, n, prot).st, u, m)
    ensures PteValid(st.leaf[u]) || v <= u < v + n ==> PteValid(PopulateRange(files, st, v, n, prot).st.leaf[u])
  {
    hide PageOf, Fault, Covers;
    if n > 0 {
      PopulateRangePageOf(files, st, v, n - 1, prot, u, m);
      FaultPageOf(files, PopulateRange(files, st, v, n - 1, prot).st, v + n - 1, prot, u, m);
    }
  }

  lemma TakenPageOf(files: Files, st: Space, spare: int, i: int, taken: Mapping, prot: bv32, u: int, m: Mapping)
    requires Core(st) && SafeCounts(st) && PageOf(files, st, u, m) && SparePage(spare)
    ensures PageOf(files, InitRecords(st, spare), u, m)
    ensures 0 <= i < |st.vmrs| && st.vmrs[i].refcnt == 0 ==>
              PageOf(files, TakeRecord(InitRecords(st, spare), i, taken, prot), u, m)
  {
    hide Image, Refs;
    assert LeafOk(st, u);
    if 0 <= i < |st.vmrs| && st.vmrs[i].refcnt == 0 {
      assert SafeRecord(st, i);
      FreeSafe(st, i, u);
    }
  }

  lemma MmapPageOf(files: Files, st: Space, spare: int, taken: Mapping, prot: bv32, populate: bool, u: int, m: Mapping)
    requires Core(st) && SafeCounts(st) && SparePage(spare) && 0 < taken.length && !Visits(taken, u)
    requires PageOf(files, st, u, m) && Covers(m, u) && m.length < 0x1_0000_0000_0000_0000
    requires Mmap(files, st, spare, taken, prot, populate).Done?
    ensures PageOf(files, Mmap(files, st, spare, taken, prot, populate).st, u, m)
  {
    hide Core, SafeCounts, PageOf, FirstFree, PopulateRange, MapRange, Endless, LoopPages, Covers;
    CoreRecords(st);
    var s0 := InitRecords(st, spare);
    var i := FirstFree(s0.vmrs, 0);
    TakenPageOf(files, st, spare, i, taken, prot, u, m);
    if i < |s0.vmrs| {
      InitRecordsCounts(st, spare);
      var v, n := taken.addr / 4096, LoopPages(taken.addr, taken.length);
      var s1 := TakeRecord(s0, i, taken, prot);
      MapRangePageOf(files, s1, v, n, i, u, m);
      if populate {
        PopulateRangePageOf(files, MapRange(s1, v, n, i), v, n, prot, u, m);
      }
    }
  }

  lemma ProtectPageOf(files: Files, st: Space, v: int, prot: bv32, u: int, m: Mapping)
    requires PageOf(files, st, u, m) && Protect(st, v, prot).Done?
    ensures PageOf(files, Protect(st, v, prot).st, u, m)
  {
    hide Image, PteCreate, EntryRefuses, RecordRefuses;
    if v in st.leaf && PteValid(st.leaf[v]) {
      PteCreated(PtePpn(st.leaf[v]), prot, true);
    }
  }

  lemma StepPageOf(files: Files, st: Space, op: Op, u: int, m: Mapping)
    requires Core(st) && SafeCounts(st) && Enabled(st, op) && Step(files, st, op).Done? && !Touches(op, u)
    requires PageOf(files, st, u, m) && Covers(m, u) && m.length < 0x1_0000_0000_0000_0000
    ensures PageOf(files, Step(files, st, op).st, u, m)
  {
    hide Core, SafeCounts, Mmap, Unmap, Fault, Protect, Covers, Visits, Image;
    match op
    case OpMmap(spare, taken, prot, populate) => MmapPageOf(files, st, spare, taken, prot, populate, u, m);
    case OpMunmap(v, n) => UnmapRangePageOf(files, st, v, n, u, m);
    case OpFault(v, prot) => FaultPageOf(files, st, v, prot, u, m);
    case OpProtect(v, prot) => ProtectPageOf(files, st, v, prot, u, m);
    case OpWrite(v, page) =>
  }

  /** Over every run that does not map, unmap or write it, a page belongs to its mapping. */
  lemma {:induction false} RunPageOf(files: Files, st: Space, ops: seq<Op>, t: Space, u: int, m: Mapping)
    requires Core(st) && SafeCounts(st) && Reaches(files, st, ops, t) && forall op :: op in ops ==> !Touches(op, u)
    requires PageOf(files, st, u, m) && Covers(m, u) && m.length < 0x1_0000_0000_0000_0000
    ensures PageOf(files, t, u, m)
    decreases |ops|
  {
    hide Core, SafeCounts, Step, Touches, PageOf, Covers;
    if ops != [] {
      StepCore(files, st, ops[0]);
      StepSafe(files, st, ops[0]);
      StepPageOf(files, st, ops[0], u, m);
      RunPageOf(files, Step(files, st, ops[0]).st, ops[1..], t, u, m);
    }
  }

  /** A mapping that visits its pages takes page u; populating at once fills it. */
  lemma MmapTakes(files: Files, st: Space, spare: int, m: Mapping, prot: bv32, populate: bool, u: int)
    requires Core(st) && SparePage(spare) && Request(m.addr, m.length) && Covers(m, u) && 0 <= u < NPAGES
    requires 0 < LoopPages(m.addr, m.length)
    requires Mmap(files, st, spare, m, prot, populate).Done?
    requires Mmap(files, st, spare, m, prot, populate).status == m.addr
    ensures PageOf(files, Mmap(files, st, spare, m, prot, populate).st, u, m)
    ensures populate ==> PteValid(Mmap(files, st, spare, m, prot, populate).st.leaf[u])
  {
    hide Core, PageOf, FirstFree, PopulateRange, MapRange, Endless, PageContents;
    CoreRecords(st);
    var s0 := InitRecords(st, spare);
    InitRecordsCounts(st, spare);
    var i, v, n := FirstFree(s0.vmrs, 0), m.addr / 4096, LoopPages(m.addr, m.length);
    var s1 := TakeRecord(s0, i, m, prot);
    assert SlotOf(u) == u && v <= u < v + n;
    MapRangeTakes(files, s1, v, n, i, u);
    if populate {
      PopulateRangePageOf(files, MapRange(s1, v, n, i), v, n, prot, u, m);
    }
  }

  /** Whatever happens to other pages in between, whatever ranges are mapped, a page of a lazy
      mapping holds, once it is populated, what populating at once would have put there. */
  lemma LazyRefinesEager(files: Files, st: Space, spare: int, m: Mapping, prot: bv32, ops: seq<Op>, t: Space, u: int)
    requires Core(st) && SafeCounts(st) && SparePage(spare) && Request(m.addr, m.length)
    requires Covers(m, u) && 0 <= u < NPAGES && 0 < LoopPages(m.addr, m.length)
    requires Mmap(files, st, spare, m, prot, false).Done? && Mmap(files, st, spare, m, prot, false).status == m.addr
    requires Mmap(files, st, spare, m, prot, true).Done?
    requires Reaches(files, Mmap(files, st, spare, m, prot, false).st, ops, t)
    requires forall op :: op in ops ==> !Touches(op, u)
    ensures u in t.leaf
    ensures PteValid(t.leaf[u]) ==>
              && u in t.mem && u in Mmap(files, st, spare, m, prot, true).st.mem
              && t.mem[u] == Mmap(files, st, spare, m, prot, true).st.mem[u] == Image(files, m, u)
  {
    hide Core, SafeCounts, Mmap, Covers, Touches, Step, Image, LoopPages;
    CoreRecords(st);
    CoversBytes(m, u);
    var lazy, eager := Mmap(files, st, spare, m, prot, false).st, Mmap(files, st, spare, m, prot, true).st;
    assert Mmap(files, st, spare, m, prot, true).status == m.addr by {
      SameStatus(files, st, spare, m, prot);
    }
    MmapCore(files, st, spare, m, prot, false);
    MmapSafe(files, st, spare, m, prot, false);
    MmapTakes(files, st, spare, m, prot, false, u);
    MmapTakes(files, st, spare, m, prot, true, u);
    RunPageOf(files, lazy, ops, t, u, m);
  }

  lemma SameStatus(files: Files, st: Space, spare: int, m: Mapping, prot: bv32)
    requires RecordsOk(st) && SparePage(spare) && 0 < m.length && 0 <= m.addr
    requires Mmap(files, st, spare, m, prot, false).Done? && Mmap(files, st, spare, m, prot, false).status == m.addr
    requires Mmap(files, st, spare, m, prot, true).Done?
    ensures Mmap(files, st, spare, m, prot, true).status == m.addr
  {
    hide MapRange, PopulateRange, FirstFree;
  }
}
