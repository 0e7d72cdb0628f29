/**
 What the operations on the address space do, page by page and bit by bit: which entries,
 permissions and bytes there are afterwards.
*/
module Effects {

  import opened Machine
  import opened Powers
  import opened PageTable
  import opened Mappings
  import opened AddressSpace
  import opened EveryRun
  import opened Isolation

  // ---- permissions ----

  /** Bits of an entry: 0 valid, 1 write, 2 execute, 3 user, 4 kernel only. */
  predicate Allows(w: Word, prot: bv32) {
    && w % 2 == 1
    && if prot & 7 == 0 then w / 16 % 2 == 1
       else w / 8 % 2 == 1 && (prot & 2 != 0 ==> w / 2 % 2 == 1) && (prot & 4 != 0 ==> w / 4 % 2 == 1)
  }

  lemma HasFirst(a: int, b: int, n: nat)
    requires 0 < n
    ensures HasBits(a, b, n) <==> b % 2 <= a % 2 && HasBits(a / 2, b / 2, n - 1)
  {
  }

  lemma HasTwo(a: int, b: int, n: nat)
    requires 2 <= n
    ensures HasBits(a, b, n) <==> b % 2 <= a % 2 && b / 2 % 2 <= a / 2 % 2 && HasBits(a / 4, b / 4, n - 2)
  {
    hide HasBits;
    HasFirst(a, b, n);
    HasFirst(a / 2, b / 2, n - 1);
    assert a / 2 / 2 == a / 4 && b / 2 / 2 == b / 4;
  }

  lemma HasFive(a: int, b: int, n: nat)
    requires 5 <= n && 0 <= b < 32 && 0 <= a
    ensures HasBits(a, b, n) <==>
            && b % 2 <= a % 2 && b / 2 % 2 <= a / 2 % 2 && b / 4 % 2 <= a / 4 % 2
            && b / 8 % 2 <= a / 8 % 2 && b / 16 % 2 <= a / 16 % 2
  {
    hide HasBits;
    HasTwo(a, b, n);
    HasTwo(a / 4, b / 4, n - 2);
    HasFirst(a / 16, b / 16, n - 4);
    NoBits(a / 32, n - 5);
    Quarters(a);
    Quarters(b);
    assert b / 32 == 0;
  }

  lemma Quarters(a: int)
    ensures a / 4 / 2 == a / 8 && a / 4 / 4 == a / 16 && a / 16 / 2 == a / 32
  {
  }

  /** The fault handler accepts an entry exactly if it has the bits for what is asked. */
  lemma PermitsBits(w: Word, prot: bv32)
    ensures Permits(w, prot) == if Allows(w, prot) then 0 else -1
  {
    hide HasBits;
    HasFive(w, PteCreate(0, prot, true), 64);
    TypeBits(prot);
  }

  lemma TypeBits(prot: bv32)
    ensures var b := 1 + PteType(prot, true);
            && b == PteCreate(0, prot, true)
            && (b / 2 % 2 == 1 <==> prot & 2 != 0) && (b / 4 % 2 == 1 <==> prot & 4 != 0)
            && (b / 8 % 2 == 1 <==> prot & 7 != 0) && (b / 16 % 2 == 1 <==> prot & 7 == 0)
  {
    ProtBits(prot);
  }

  lemma ProtBits(prot: bv32)
    ensures prot & 7 in {0, 1, 2, 3, 4, 5, 6, 7}
    ensures prot & 2 != 0 <==> prot & 7 in {2, 3, 6, 7}
    ensures prot & 4 != 0 <==> prot & 7 in {4, 5, 6, 7}
  {
  }

  /** An entry made for the user with protection q allows what is asked exactly if q has each
      right asked for; nothing at all may be asked of an entry without rights only. */
  lemma OwnRights(ppn: int, q: bv32, prot: bv32)
    requires 0 <= ppn < 0x40_0000_0000_0000
    ensures Allows(PteCreate(ppn, q, true), prot) <==>
            if prot & 7 == 0 then q & 7 == 0
            else q & 7 != 0 && (prot & 2 != 0 ==> q & 2 != 0) && (prot & 4 != 0 ==> q & 4 != 0)
  {
    var t := PteType(q, true);
    TypeBits(q);
    EntryBits(ppn, t);
    LowFiveBits(PteCreate(ppn, q, true), 1 + t);
  }

  lemma LowFiveBits(w: int, b: int)
    requires 0 <= w && 0 <= b < 32 && w % 32 == b
    ensures w % 2 == b % 2 && w / 2 % 2 == b / 2 % 2 && w / 4 % 2 == b / 4 % 2
    ensures w / 8 % 2 == b / 8 % 2 && w / 16 % 2 == b / 16 % 2
  {
    HalfRemainder(w, 32, 16);
    HalfRemainder(w / 2, 16, 8);
    HalfRemainder(w / 4, 8, 4);
    HalfRemainder(w / 8, 4, 2);
    assert w / 2 / 2 == w / 4 && w / 4 / 2 == w / 8 && w / 8 / 2 == w / 16;
    assert b / 2 / 2 == b / 4 && b / 4 / 2 == b / 8 && b / 8 / 2 == b / 16;
  }

  lemma HalfRemainder(w: int, d: int, h: int)
    requires 0 <= w && d == 2 * h > 0
    ensures w / 2 % h == w % d / 2 && w % 2 == w % d % 2
  {
    var q, r := w / d, w % d;
    assert w == 2 * (q * h) + r;
    assert w / 2 == q * h + r / 2;
    DivModUnique(w / 2, h, q, r / 2);
  }

  /** A valid entry for a frame with exactly the rights of a protection. */
  ghost predicate Entry(w: Word, frame: int, prot: bv32) {
    && w % 2 == 1 && w / 1024 == frame
    && (PteUR(w) <==> prot & 7 != 0) && (PteUW(w) <==> prot & 2 != 0) && (PteUX(w) <==> prot & 4 != 0)
    && forall asked: bv32 :: Allows(w, asked) <==> Asks(prot, asked)
  }

  predicate Asks(prot: bv32, asked: bv32) {
    if asked & 7 == 0 then prot & 7 == 0
    else prot & 7 != 0 && (asked & 2 != 0 ==> prot & 2 != 0) && (asked & 4 != 0 ==> prot & 4 != 0)
  }

  lemma UserEntry(ppn: int, prot: bv32)
    requires 0 <= ppn < 0x40_0000_0000_0000
    ensures Entry(PteCreate(ppn, prot, true), ppn, prot)
  {
    hide Allows;
    PteCreated(ppn, prot, true);
    UserReadable(ppn, prot, true);
    EntryBits(ppn, PteType(prot, true));
    ProtBits(prot);
    forall asked: bv32 ensures Allows(PteCreate(ppn, prot, true), asked) <==> Asks(prot, asked) {
      OwnRights(ppn, prot, asked);
    }
  }

  // ---- pages that an operation leaves alone ----

  ghost predicate SameEntry(s: Space, t: Space, u: int) {
    (u in s.leaf <==> u in t.leaf) && (u in s.leaf ==> s.leaf[u] == t.leaf[u])
  }

  ghost predicate SameBytes(s: Space, t: Space, u: int) {
    (u in s.mem <==> u in t.mem) && (u in s.mem ==> s.mem[u] == t.mem[u])
  }

  /** The page has its entry, its bytes and its mapping as before. */
  ghost predicate Untouched(s: Space, t: Space, u: int) {
    SameEntry(s, t, u) && SameBytes(s, t, u) && SameAt(s, t, u)
  }

  lemma UntouchedChain(a: Space, b: Space, c: Space, u: int)
    ensures Untouched(a, b, u) && Untouched(b, c, u) ==> Untouched(a, c, u)
    ensures Untouched(a, a, u)
  {
  }

  // ---- unmapping ----

  /** The page is not there any more, and neither is what belonged to it. */
  ghost predicate Gone(s: Space, t: Space, u: int) {
    u !in t.leaf && if u in s.leaf then u !in t.origin && u !in t.dirty else SameAt(s, t, u)
  }

  /** No page of the range is there any more, every other page is as before. */
  ghost predicate Unmapped(s: Space, t: Space, v: int, n: int) {
    && (forall u :: if v <= u < v + n then Gone(s, t, u) else Untouched(s, t, u))
    && t.mem == s.mem && t.base == s.base && SameRecords(t, s)
  }

  lemma {:induction false} UnmapEffect(st: Space, v: int, n: nat)
    ensures Unmapped(st, Unmap(st, v, n), v, n)
  {
    if n > 0 {
      UnmapEffect(st, v, n - 1);
      var s, r := Unmap(st, v, n - 1), Unmap(st, v, n);
      forall u ensures if v <= u < v + n then Gone(st, r, u) else Untouched(st, r, u) {
        assert if v <= u < v + n - 1 then Gone(st, s, u) else Untouched(st, s, u);
        assert u != v + n - 1 ==> Untouched(s, r, u);
      }
    }
  }

  /** What belonged to the pages is gone with them. */
  lemma NothingLeft(files: Files, s: Space, t: Space, v: int, n: int)
    requires Inv(files, s, -1, 0) && Unmapped(s, t, v, n)
    ensures forall u :: v <= u < v + n ==> u !in t.leaf && u !in t.origin && u !in t.dirty
  {
    forall u | v <= u < v + n ensures u !in t.leaf && u !in t.origin && u !in t.dirty {
      assert Gone(s, t, u);
      assert u in s.origin ==> OriginOk(files, s, u);
    }
  }

  /** A page that is not there stays away until it is mapped, and a fault there fails. */
  lemma {:induction false} StaysUnmapped(files: Files, st: Space, ops: seq<Op>, t: Space, u: int, prot: bv32)
    requires Core(st) && Reaches(files, st, ops, t) && u !in st.leaf
    requires forall op :: op in ops && op.OpMmap? ==> !Visits(op.m, u)
    ensures u !in t.leaf && Fault(files, t, u, prot) == Done(-1, t)
    decreases |ops|
  {
    hide Core, Step, Visits;
    if ops != [] {
      StepCore(files, st, ops[0]);
      StepAbsent(files, st, ops[0], u);
      StaysUnmapped(files, Step(files, st, ops[0]).st, ops[1..], t, u, prot);
    }
  }

  lemma StepAbsent(files: Files, st: Space, op: Op, u: int)
    requires Enabled(st, op) && Step(files, st, op).Done? && u !in st.leaf && (op.OpMmap? ==> !Visits(op.m, u))
    ensures u !in Step(files, st, op).st.leaf
  {
    hide PteCreate, PageContents, Permits, EntryRefuses, RecordRefuses;
    match op
    case OpMmap(spare, m, prot, populate) => MmapAbsent(files, st, spare, m, prot, populate, u);
    case OpMunmap(v, n) => UnmapAbsent(st, v, n, u);
    case OpFault(v, prot) =>
    case OpProtect(v, prot) =>
    case OpWrite(v, page) =>
  }

  lemma {:induction false} UnmapAbsent(st: Space, v: int, n: nat, u: int)
    requires u !in st.leaf
    ensures u !in Unmap(st, v, n).leaf
  {
    if n > 0 {
      UnmapAbsent(st, v, n - 1, u);
    }
  }

  lemma {:induction false} MapRangeAbsent(st: Space, v: int, n: nat, i: int, u: int)
    requires RecordsOk(st) && 0 <= i < MAX_VMR && u !in st.leaf && forall p :: v <= p < v + n ==> SlotOf(p) != u
    ensures u !in MapRange(st, v, n, i).leaf
  {
    if n > 0 {
      MapRangeAbsent(st, v, n - 1, i, u);
    }
  }

  lemma {:induction false} PopulateRangeAbsent(files: Files, st: Space, v: int, n: nat, prot: bv32, u: int)
    requires PopulateRange(files, st, v, n, prot).Done? && u !in st.leaf
    ensures u !in PopulateRange(files, st, v, n, prot).st.leaf
  {
    hide PteCreate, PageContents, Permits;
    if n > 0 {
      PopulateRangeAbsent(files, st, v, n - 1, prot, u);
    }
  }

  lemma MmapAbsent(files: Files, st: Space, spare: int, m: Mapping, prot: bv32, populate: bool, u: int)
    requires RecordsOk(st) && SparePage(spare) && 0 < m.length && Mmap(files, st, spare, m, prot, populate).Done?
    requires u !in st.leaf && !Visits(m, u)
    ensures u !in Mmap(files, st, spare, m, prot, populate).st.leaf
  {
    hide MapRange, PopulateRange, FirstFree, Endless, LoopPages;
    var s0 := InitRecords(st, spare);
    var i := FirstFree(s0.vmrs, 0);
    if i < |s0.vmrs| {
      var v, n, s1 := m.addr / 4096, LoopPages(m.addr, m.length), TakeRecord(s0, i, m, prot);
      MapRangeAbsent(s1, v, n, i, u);
      if populate {
        PopulateRangeAbsent(files, MapRange(s1, v, n, i), v, n, prot, u);
      }
    }
  }

  // ---- faults ----

  /** A page that is not mapped, or not a user page, is refused and nothing changes. A populated
      page is accepted exactly if it allows what is asked, and nothing changes. Any other page
      gets its mapping's bytes and an entry for its own frame with the rights of its record,
      which loses one reference; the kernel halts if the file has no byte there. */
  ghost predicate FaultDoes(files: Files, st: Space, v: int, prot: bv32, o: Outcome) {
    if v !in st.leaf || !(st.lo <= v < st.hi) then o == Done(-1, st)
    else if st.leaf[v] % 2 == 1 then o == Done(if Allows(st.leaf[v], prot) then 0 else -1, st)
    else
      var i := VmrIndex(st.base, st.leaf[v]);
      && 0 <= i < |st.vmrs| && st.leaf[v] == st.base + 40 * i
      && var m, q := st.vmrs[i].mapping, st.vmrs[i].prot;
      && (Covers(m, v) && m.length < 0x1_0000_0000_0000_0000 ==> (o.Panic? <==> FileEnds(files, m, v)))
      && (o.Done? ==>
            && o.status == (if Asks(q, prot) then 0 else -1)
            && v in o.st.leaf && Entry(o.st.leaf[v], v, q)
            && (forall u :: u != v ==> Untouched(st, o.st, u))
            && v in o.st.mem
            && (Covers(m, v) && m.length < 0x1_0000_0000_0000_0000 ==> Backed(files, m, v, o.st.mem[v]))
            && SameRecords(o.st, st) && o.st.base == st.base && o.st.origin == st.origin && o.st.dirty == st.dirty
            && o.st.vmrs[i].refcnt == (st.vmrs[i].refcnt - 1) % 0x1_0000_0000)
  }

  lemma FaultEffect(files: Files, st: Space, v: int, prot: bv32)
    requires Core(st)
    ensures FaultDoes(files, st, v, prot, Fault(files, st, v, prot))
  {
    hide Allows, Asks, Covers, PageContents, PteCreate, Permits, FileEnds, Backed;
    var o := Fault(files, st, v, prot);
    if v in st.leaf {
      assert LeafOk(st, v);
      PermitsBits(st.leaf[v], prot);
      if st.lo <= v < st.hi && st.leaf[v] % 2 == 0 {
        var i := VmrIndex(st.base, st.leaf[v]);
        var m, q := st.vmrs[i].mapping, st.vmrs[i].prot;
        UserEntry(v, q);
        PermitsBits(PteCreate(v, q, true), prot);
        if Covers(m, v) && m.length < 0x1_0000_0000_0000_0000 {
          PageBytes(files, m, v);
        }
      }
    }
  }

  /** The first touch of a page of a mapping: the kernel halts exactly if the file ends at or
      before the page; otherwise the page has the mapping's bytes, its own frame and the rights
      of its record, and is open to exactly what these allow. */
  lemma FirstTouch(files: Files, st: Space, v: int, prot: bv32)
    requires Inv(files, st, -1, 0) && v in st.leaf && st.leaf[v] % 2 == 0
    ensures v in st.origin && 0 <= VmrIndex(st.base, st.leaf[v]) < |st.vmrs|
    ensures var o, q := Fault(files, st, v, prot), st.vmrs[VmrIndex(st.base, st.leaf[v])].prot;
            && (o.Panic? <==> FileEnds(files, st.origin[v], v))
            && (o.Done? ==>
                  && o.status == (if Asks(q, prot) then 0 else -1)
                  && v in o.st.mem && Backed(files, st.origin[v], v, o.st.mem[v])
                  && v in o.st.leaf && Entry(o.st.leaf[v], v, q))
  {
    hide Allows, Asks, Covers, Fault, FileEnds, Backed, Entry;
    InvCore(files, st, -1, 0);
    assert EntryOk(st, v) && OriginOk(files, st, v);
    FaultEffect(files, st, v, prot);
  }

  // ---- mapping ----

  /** Each page of the range belongs to the mapping: not yet populated, it holds the address of a
      record with the mapping and the protection; populated, it has the mapping's bytes and an
      entry for its own frame with the rights of the protection. */
  ghost predicate MappedPage(files: Files, r: Space, m: Mapping, prot: bv32, populate: bool, u: int) {
    && u in r.leaf && u in r.origin && r.origin[u] == m && u !in r.dirty
    && if populate then
         && Entry(r.leaf[u], u, prot) && u in r.mem
         && Backed(files, m, u, r.mem[u])
       else
         var i := VmrIndex(r.base, r.leaf[u]);
         && r.leaf[u] % 2 == 0 && 0 <= i < |r.vmrs| && r.leaf[u] == r.base + 40 * i
         && r.vmrs[i].mapping == m && r.vmrs[i].prot == prot
  }

  /** The pages from the first to the last byte of the range are mapped, all others are as before. */
  ghost predicate MapDoes(files: Files, st: Space, r: Space, m: Mapping, prot: bv32, populate: bool) {
    forall u ::
      if m.addr / 4096 <= u <= (m.addr + m.length - 1) / 4096 then MappedPage(files, r, m, prot, populate, u)
      else Untouched(st, r, u)
  }

  lemma MapPageUntouched(st: Space, v: int, i: int, u: int)
    requires RecordsOk(st) && 0 <= i < MAX_VMR && u != v
    ensures Untouched(st, MapPage(st, v, i), u)
  {
    hide RecordsOk;
  }

  lemma {:induction false} MapRangeUntouched(st: Space, v: int, n: nat, i: int, u: int)
    requires RecordsOk(st) && 0 <= i < MAX_VMR && 0 <= v && v + n <= NPAGES && !(v <= u < v + n)
    ensures Untouched(st, MapRange(st, v, n, i), u)
  {
    hide MapPage, Untouched;
    if n == 0 {
      UntouchedChain(st, st, st, u);
    } else {
      MapRangeUntouched(st, v, n - 1, i, u);
      MapPageUntouched(MapRange(st, v, n - 1, i), v + n - 1, i, u);
      UntouchedChain(st, MapRange(st, v, n - 1, i), MapRange(st, v, n, i), u);
    }
  }

  lemma FaultUntouched(files: Files, st: Space, v: int, prot: bv32, u: int)
    requires Fault(files, st, v, prot).Done? && u != v
    ensures Untouched(st, Fault(files, st, v, prot).st, u)
  {
    hide PteCreate, PageContents, Permits;
  }

  lemma {:induction false} PopulateRangeUntouched(files: Files, st: Space, v: int, n: nat, prot: bv32, u: int)
    requires PopulateRange(files, st, v, n, prot).Done? && !(v <= u < v + n)
    ensures Untouched(st, PopulateRange(files, st, v, n, prot).st, u)
  {
    hide Fault;
    if n > 0 {
      PopulateRangeUntouched(files, st, v, n - 1, prot, u);
      FaultUntouched(files, PopulateRange(files, st, v, n - 1, prot).st, v + n - 1, prot, u);
    }
  }

  /** A page populated from record i. */
  lemma FaultFills(files: Files, st: Space, u: int, i: int, prot: bv32)
    requires Inv(files, st, -1, 0) && MappedBy(st, u, i) && st.vmrs[i].prot == prot && Fault(files, st, u, prot).Done?
    ensures MappedPage(files, Fault(files, st, u, prot).st, st.vmrs[i].mapping, prot, true, u)
  {
    hide Allows, Asks, PageContents, Permits, FileEnds, Backed;
    InvCore(files, st, -1, 0);
    FaultEffect(files, st, u, prot);
    assert EntryOk(st, u) && OriginOk(files, st, u);
    PtrFacts(st.base, i, i);
    assert VmrIndex(st.base, st.leaf[u]) == i;
  }

  lemma {:induction false} PopulateRangeFills(files: Files, st: Space, v: int, n: nat, w: int, i: int, prot: bv32,
                                              u: int)
    requires Inv(files, st, -1, 0) && 0 <= i < MAX_VMR && |st.vmrs| == MAX_VMR && st.vmrs[i].prot == prot
    requires 0 <= v && v + n <= w <= NPAGES && forall x :: v <= x < w ==> MappedBy(st, x, i)
    requires PopulateRange(files, st, v, n, prot).Done? && v <= u < v + n
    ensures MappedPage(files, PopulateRange(files, st, v, n, prot).st, st.vmrs[i].mapping, prot, true, u)
  {
    hide Inv, Fault, MappedBy, Entry, Backed;
    PopulateRangeKeeps(files, st, v, n - 1, w, i, prot);
    var s, x := PopulateRange(files, st, v, n - 1, prot).st, v + n - 1;
    if u == x {
      FaultFills(files, s, x, i, prot);
    } else {
      PopulateRangeFills(files, st, v, n - 1, w, i, prot, u);
      FaultUntouched(files, s, x, prot, u);
    }
  }

  lemma MmapEffect(files: Files, st: Space, spare: int, m: Mapping, prot: bv32, populate: bool)
    requires Inv(files, st, -1, 0) && SparePage(spare) && UserRange(st, m)
    ensures RecordsOk(st)
    ensures var r := Mmap(files, st, spare, m, prot, populate);
            r.Done? && r.status != -1 ==> r.status == m.addr && MapDoes(files, st, r.st, m, prot, populate)
  {
    hide Inv, Covers, MapRange, PopulateRange, PageContents, MappedPage, Untouched, MappedBy;
    InvBounds(files, st);
    RangePages(st, m);
    var v, n := m.addr / 4096, NPages(m.length);
    assert (m.addr + m.length - 1) / 4096 == v + n - 1 by { LastPage(m.addr, m.length); }
    var s0 := InitRecords(st, spare);
    InitRecordsKeeps(files, st, spare);
    var i := FirstFree(s0.vmrs, 0);
    var o := Mmap(files, st, spare, m, prot, populate);
    if i < |s0.vmrs| && o.Done? {
      var s1 := TakeRecord(s0, i, m, prot);
      TakeRecordKeeps(files, s0, i, m, prot);
      var s2 := MapRange(s1, v, n, i);
      MapRangeKeeps(files, s1, v, n, i, n);
      MapRangeFrame(s1, v, n, i);
      SettledInv(files, s2, i, 0);
      forall u ensures if v <= u <= v + n - 1 then MappedPage(files, o.st, m, prot, populate, u)
                       else Untouched(st, o.st, u)
      {
        if v <= u <= v + n - 1 {
          if populate {
            PopulateRangeFills(files, s2, v, n, v + n, i, prot, u);
          } else {
            LazyPage(files, s2, m, prot, i, u);
          }
        } else {
          TakenUntouched(st, spare, i, m, prot, u);
          MapRangeUntouched(s1, v, n, i, u);
          if populate {
            PopulateRangeUntouched(files, s2, v, n, prot, u);
          }
          UntouchedChain(st, s1, s2, u);
          UntouchedChain(st, s2, o.st, u);
        }
      }
    }
  }

  lemma LastPage(addr: int, length: int)
    requires 0 < length && addr % 4096 == 0
    ensures (addr + length - 1) / 4096 == addr / 4096 + NPages(length) - 1
  {
    var a := addr / 4096;
    assert addr == a * 4096;
  }

  lemma LazyPage(files: Files, s: Space, m: Mapping, prot: bv32, i: int, u: int)
    requires Inv(files, s, -1, 0) && MappedBy(s, u, i) && s.vmrs[i].mapping == m && s.vmrs[i].prot == prot
    ensures MappedPage(files, s, m, prot, false, u)
  {
    hide Inv;
    MappedClean(files, s, u, i);
    InvRecords(files, s, -1, 0);
    PtrFacts(s.base, i, i);
    assert VmrIndex(s.base, s.leaf[u]) == i;
  }

  lemma TakenUntouched(st: Space, spare: int, i: int, m: Mapping, prot: bv32, u: int)
    requires 0 <= i < |st.vmrs|
    ensures Untouched(st, TakeRecord(InitRecords(st, spare), i, m, prot), u)
    ensures Untouched(st, InitRecords(st, spare), u)
  {
  }

  // ---- protection ----

  /** A page that is not there is an error; so is a right that a populated page does not have,
      or the record of another page. Otherwise the page keeps its frame and gets exactly the
      rights asked for, or the record gets the protection; no other page changes. */
  ghost predicate ProtectDoes(st: Space, v: int, prot: bv32, o: Outcome) {
    && o.Done?
    && if v !in st.leaf then o == Done(-12, st)
       else if st.leaf[v] % 2 == 1 then
         var w := st.leaf[v];
         if (prot & 2 != 0 && !PteUW(w)) || (prot & 4 != 0 && !PteUX(w)) then o == Done(-13, st)
         else
           && o.status == 0 && v in o.st.leaf && Entry(o.st.leaf[v], w / 1024, prot)
           && o.st.mem == st.mem && o.st.origin == st.origin && o.st.dirty == st.dirty
           && o.st.vmrs == st.vmrs && o.st.base == st.base && forall u :: u != v ==> Untouched(st, o.st, u)
       else
         var i := VmrIndex(st.base, st.leaf[v]);
         && 0 <= i < |st.vmrs| && st.leaf[v] == st.base + 40 * i
         && if prot & !st.vmrs[i].prot != 0 then o == Done(-13, st)
            else
              && o.status == 0 && o.st.vmrs == st.vmrs[i := st.vmrs[i].(prot := prot)]
              && o.st.base == st.base && forall u :: Untouched(st, o.st, u)
  }

  lemma ProtectEffect(st: Space, v: int, prot: bv32)
    requires Core(st)
    ensures ProtectDoes(st, v, prot, Protect(st, v, prot))
  {
    hide Entry, PteCreate, RecordRefuses, PteUW, PteUX, Core;
    if v in st.leaf {
      InCore(st, v);
      if st.leaf[v] % 2 == 1 {
        UserEntry(st.leaf[v] / 1024, prot);
      } else {
        NewRights(st.vmrs[VmrIndex(st.base, st.leaf[v])].prot, prot);
      }
    }
  }

  lemma InCore(st: Space, v: int)
    requires Core(st) && v in st.leaf
    ensures LeafOk(st, v)
  {
  }

  lemma NewRights(current: bv32, prot: bv32)
    ensures RecordRefuses(current, prot) <==> prot & !current != 0
  {
    assert (current ^ prot) & !current == prot & !current;
  }
}
