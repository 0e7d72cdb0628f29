/**
 The virtual memory manager: the kernel's operations on page table, records and memory,
 each proved against its effect on the address space.
*/
module Vm {

  import opened Machine
  import opened PageTable
  import opened Mappings
  import opened AddressSpace
  import opened Isolation
  import opened Search
  import opened Effects
  import opened Protection

  class Manager {
    const pt: RadixTable
    const files: Files
    const firstFreePaddr: int
    const mmapMax: int
    const haveVm: bool
    var base: int       // address of the record page, zero before it exists
    var vmrs: seq<Vmr>
    var mem: map<int, Page>
    var brkMin: int
    var brk: int
    var brkMax: int
    ghost var origin: map<int, Mapping>
    ghost var dirty: set<int>

    ghost function View(): Space
      reads this, pt
    {
      Space(firstFreePaddr / 4096, mmapMax / 4096, base, vmrs, pt.flat, mem, origin, dirty)
    }

    /** The table is sound and its pages lie above all user pages. */
    ghost predicate Sound()
      reads this, pt
    {
      && pt.Valid() && pt.root != 0
      && 0 < firstFreePaddr <= mmapMax <= pt.firstFree * 4096 && firstFreePaddr % 4096 == 0 && mmapMax % 4096 == 0
      && mmapMax / 4096 <= NPAGES
    }

    /** What every operation needs and keeps, whatever its arguments. */
    ghost predicate Ready()
      reads this, pt
    {
      Sound() && Core(View())
    }

    /** Every page belongs to its mapping and every record is counted right. Only a mapping
        outside the user range can break this. */
    ghost predicate Valid()
      reads this, pt
    {
      Sound() && Inv(files, View(), -1, 0)
    }

    lemma ValidReady()
      requires Valid()
      ensures Ready()
    {
      InvCore(files, View(), -1, 0);
    }

    /** The break is a page boundary below the limit. */
    ghost predicate BrkAligned()
      reads this
    {
      brk % 4096 == 0 && 0 <= brk <= mmapMax
    }

    ghost predicate BrkOk()
      reads this
    {
      && firstFreePaddr <= brkMin <= mmapMax && firstFreePaddr <= brkMax <= NPAGES * 4096
      && brk % 4096 == 0 && (brk == 0 || firstFreePaddr <= brk <= mmapMax)
    }

    /** Starts from a table that maps kernel pages only, among them all below the user pages. */
    constructor (table: RadixTable, open: Files, first: int, limit: int, top: int, heap: int,
                 paging: bool)
      requires table.Valid() && table.root != 0
      requires 0 < first <= limit <= table.firstFree * 4096 && first % 4096 == 0
      requires limit % 4096 == 0 && limit / 4096 <= NPAGES
      requires first <= heap <= limit <= top <= NPAGES * 4096
      requires forall v :: v in table.flat ==> PteValid(table.flat[v]) && !(first / 4096 <= v < limit / 4096)
      requires forall v :: 0 <= v < first / 4096 ==> v in table.flat
      ensures Valid() && BrkOk() && pt == table && pt.flat == table.flat && origin == map[]
      ensures files == open && firstFreePaddr == first && mmapMax == limit && haveVm == paging && brk == 0
      ensures |vmrs| == MAX_VMR && vmrs[0].refcnt == 0 && brkMin == heap && brkMax == top
    {
      pt, files, firstFreePaddr, mmapMax, haveVm := table, open, first, limit, paging;
      base, vmrs, mem := 0, seq(MAX_VMR, _ => Vmr(Mapping(0, 0, None, 0), 0, 0)), map[];
      brkMin, brk, brkMax := heap, 0, top;
      origin, dirty := map[], {};
      new;
      FlatPages(table);
      InitialInv(files, View());
    }

    method VmrDecref(i: int)
      requires 0 <= i < |vmrs|
      modifies `vmrs
      ensures vmrs == DecRef(old(vmrs), i)
    {
      vmrs := vmrs[i := vmrs[i].(refcnt := U32(vmrs[i].refcnt - 1))];
    }

    /** Removes one page, dropping the reference of a page that was never populated. */
    method UnmapOne(v: int)
      requires Ready() && 0 <= v < NPAGES
      modifies pt, `vmrs, `origin, `dirty
      ensures Ready() && View() == UnmapPage(old(View()), v)
      ensures Unmapped(old(View()), View(), v, 1) && pt.nextFree == old(pt.nextFree)
      ensures v in old(pt.flat) && old(pt.flat)[v] % 2 == 0 ==>
                var i := (old(pt.flat)[v] - base) / 40;
                && 0 <= i < |old(vmrs)|
                && vmrs == old(vmrs)[i := old(vmrs)[i].(refcnt := (old(vmrs)[i].refcnt - 1) % 0x1_0000_0000)]
      ensures pt.root == old(pt.root) && Extends(pt.pages, old(pt.pages), pt.root)
    {
      hide Extends, RadixTable.Valid, RadixTable.IsSlot, Core;
      CoreEntry(View(), v);
      UnmapCore(View(), v);
      UnmapEffect(View(), v, 1);
      UnmapSingle(View(), v);
      var s := pt.Walk(v, false);
      if s.Missing? {
        return;
      }
      ghost var walked := pt.pages;
      var w := pt.Load(s, v);
      if w == 0 {
        return;
      }
      if !PteValid(w) {
        VmrDecref(VmrIndex(base, w));
      }
      pt.Store(s, 0, v);
      ExtendsTransitive(pt.pages, walked, old(pt.pages), pt.root);
      origin, dirty := origin - {v}, dirty - {v};
    }

    method Munmap(v: int, n: nat)
      requires Ready() && 0 <= v && v + n <= NPAGES
      modifies pt, `vmrs, `origin, `dirty
      ensures Ready() && View() == Unmap(old(View()), v, n)
      ensures Unmapped(old(View()), View(), v, n) && pt.nextFree == old(pt.nextFree)
      ensures old(Valid()) && firstFreePaddr / 4096 <= v ==> Valid()
    {
      hide Inv, Core, Unmap, UnmapPage, Unmapped, RadixTable.Valid;
      var k := 0;
      UnmapNone(View(), v);
      UnmapEffect(View(), v, n);
      while k < n
        invariant 0 <= k <= n && Ready() && View() == Unmap(old(View()), v, k) && pt.nextFree == old(pt.nextFree)
      {
        UnmapOne(v + k);
        UnmapNext(old(View()), v, k);
        k := k + 1;
      }
      if old(Valid()) && firstFreePaddr / 4096 <= v {
        UnmapKeeps(files, old(View()), v, n);
      }
    }

    predicate ValidUserRange(vaddr: int, len: int) {
      var end := (vaddr + len) % 0x1_0000_0000_0000_0000;
      end >= vaddr && vaddr >= firstFreePaddr && end <= mmapMax
    }

    lemma UserPage(v: int)
      requires Sound() && 0 <= v < 0x10_0000_0000_0000
      ensures ValidUserRange(v * 4096, 1) <==> firstFreePaddr / 4096 <= v < mmapMax / 4096
      ensures ValidUserRange(v * 4096, 1) ==> 0 <= v < NPAGES && SlotOf(v) == v
      ensures NPAGES <= v ==> !ValidUserRange(v * 4096, 1)
    {
    }

    /** Turns a page that holds the address of a record into a mapped, filled one. */
    method PopulateOne(v: int, s: Walked, w: Word) returns (halted: bool)
      requires Ready() && v in pt.flat && pt.flat[v] == w && !PteValid(w) && 0 <= v < NPAGES && pt.IsSlot(s, v)
      modifies pt, `vmrs, `mem
      ensures halted <==> PopulatePage(files, old(View()), v).None?
      ensures pt.nextFree == old(pt.nextFree)
      ensures !halted ==>
                Ready() && Some(View()) == PopulatePage(files, old(View()), v) && pt.IsSlot(s, v) && v in pt.flat
    {
      hide Core, PageContents, PteCreate, RadixTable.Valid, Extends;
      CoreEntry(View(), v);
      var i := VmrIndex(base, w);
      ghost var before := pt.pages;
      PteCreated(v, 3, false);
      PteCreated(v, vmrs[i].prot, true);
      pt.Store(s, PteCreate(v, 3, false), v);
      KeepSlot(before, pt.pages, pt.root, v);
      match PageContents(files, vmrs[i].mapping, v)
      case None =>
        return true;
      case Some(page) =>
        mem := mem[v := page];
        VmrDecref(i);
        before := pt.pages;
        pt.Store(s, PteCreate(v, vmrs[i].prot, true), v);
        KeepSlot(before, pt.pages, pt.root, v);
        assert pt.flat == SetLeaf(old(pt.flat), v, PteCreate(v, vmrs[i].prot, true));
        PopulatePageCore(files, old(View()), v);
        return false;
    }

    method PageFault(vaddr: int, prot: bv32) returns (halted: bool, status: int)
      requires Ready() && 0 <= vaddr < 0x1_0000_0000_0000_0000
      modifies pt, `vmrs, `mem
      ensures var r := Fault(files, old(View()), vaddr / 4096, prot);
              (halted <==> r.Panic?) && (!halted ==> r == Done(status, View()))
      ensures FaultDoes(files, old(View()), vaddr / 4096, prot, if halted then Panic else Done(status, View()))
      ensures old(Valid()) && vaddr / 4096 in old(pt.flat) && old(pt.flat)[vaddr / 4096] % 2 == 0 ==>
                var v := vaddr / 4096;
                && v in old(origin) && (halted <==> FileEnds(files, old(origin)[v], v))
                && (!halted ==> v in mem && Backed(files, origin[v], v, mem[v]))
      ensures pt.nextFree == old(pt.nextFree)
      ensures !halted ==> Ready()
      ensures !halted && old(Valid()) ==> Valid()
    {
      hide Inv, Core, PopulatePage, Permits, RadixTable.Valid, Extends, ValidUserRange, LeafOk;
      hide FaultDoes, FileEnds, Backed;
      var vpn := vaddr / 4096;
      var slot := SlotOf(vpn);
      UserPage(vpn);
      NonzeroEntry(View(), slot);
      FaultEffect(files, View(), vpn, prot);
      if old(Valid()) && vpn in pt.flat && pt.flat[vpn] % 2 == 0 {
        FirstTouch(files, View(), vpn, prot);
      }
      if old(Valid()) && Fault(files, old(View()), vpn, prot).Done? {
        FaultKeeps(files, old(View()), vpn, prot);
      }
      var s := pt.Walk(slot, false);
      assert View() == old(View());
      if s.Missing? {
        return false, -1;
      }
      var w := pt.Load(s, slot);
      if w == 0 || !ValidUserRange(vpn * 4096, 1) {
        return false, -1;
      }
      if !PteValid(w) {
        halted := PopulateOne(vpn, s, w);
        if halted {
          return true, 0;
        }
        w := pt.Load(s, vpn);
      }
      return false, Permits(w, prot);
    }

    /** The page the allocator would hand out next. */
    ghost function SpareAddr(): int
      reads pt
    {
      (pt.firstFree + pt.nextFree) * 4096
    }

    /** Takes the first free record, allocating the record page on first use. */
    method VmrAlloc(m: Mapping, prot: bv32) returns (halted: bool, i: int)
      requires Ready()
      modifies pt`nextFree, `base, `vmrs
      ensures halted ==> pt.nextFree == pt.freePages
      ensures !halted ==> Ready() && 0 < base && SparePage(if old(base) == 0 then old(SpareAddr()) else 4096)
      ensures !halted ==>
                var s0 := InitRecords(old(View()), old(SpareAddr()));
                && i == FirstFree(s0.vmrs, 0) && |s0.vmrs| == MAX_VMR
                && View() == if i == |s0.vmrs| then s0 else TakeRecord(s0, i, m, prot)
    {
      hide Core, FirstFree, InitRecords, SparePage;
      CoreRecords(View());
      ghost var st := View();
      if base == 0 {
        var frame, _ := pt.PageAlloc();
        if frame == -1 {
          return true, 0;
        }
        base := frame * 4096;
      }
      SpareFrame();
      ghost var s0 := InitRecords(st, old(SpareAddr()));
      TakeReady(st, if old(base) == 0 then old(SpareAddr()) else 4096, old(SpareAddr()), m, prot);
      assert View() == s0;
      i := FirstRecord();
      if i < MAX_VMR {
        vmrs := vmrs[i := Vmr(m, U32(NPages(m.length)), prot)];
        assert View() == TakeRecord(s0, i, m, prot);
      }
      return false, i;
    }

    /** The first record with no references. */
    method FirstRecord() returns (i: int)
      requires |vmrs| == MAX_VMR
      ensures i == FirstFree(vmrs, 0)
    {
      i := 0;
      while i < MAX_VMR && vmrs[i].refcnt != 0
        invariant 0 <= i <= MAX_VMR && FirstFree(vmrs, 0) == FirstFree(vmrs, i)
      {
        i := i + 1;
      }
    }

    lemma SpareFrame()
      requires Sound()
      ensures 0 <= pt.nextFree <= pt.freePages && SparePage(4096)
      ensures pt.nextFree > 0 ==> SparePage((pt.firstFree + pt.nextFree - 1) * 4096)
    {
    }

    /** Points one page at a record, unmapping what was there. */
    method MapOne(v: int, i: int) returns (halted: bool)
      requires Ready() && 0 <= v < NPAGES && 0 < base && 0 <= i < MAX_VMR
      modifies pt, `vmrs, `origin, `dirty
      ensures RecordsOk(old(View()))
      ensures halted ==> pt.nextFree == pt.freePages
      ensures !halted ==> Ready() && View() == MapPage(old(View()), v, i)
    {
      hide Extends, RadixTable.Valid, LeafOk, Core;
      CoreRecords(View());
      NonzeroEntry(View(), v);
      MapPageCore(View(), v, i);
      var s := pt.Walk(v, true);
      if s.Halted? {
        return true;
      }
      assert View() == old(View());
      var w := pt.Load(s, v);
      ghost var before := pt.pages;
      if w != 0 {
        UnmapOne(v);
        KeepSlot(before, pt.pages, pt.root, v);
      }
      assert View() == UnmapPage(old(View()), v);
      pt.Store(s, VmrPtr(base, i), v);
      origin, dirty := origin[v := vmrs[i].mapping], dirty - {v};
      return false;
    }

    /** Points the pages of a range at a record; page numbers beyond the table's come round
        to the same slots. */
    method MapPages(v: int, n: nat, i: int) returns (halted: bool)
      requires Ready() && 0 < base && 0 <= i < MAX_VMR
      modifies pt, `vmrs, `origin, `dirty
      ensures RecordsOk(old(View()))
      ensures halted ==> pt.nextFree == pt.freePages
      ensures !halted ==> Ready() && View() == MapRange(old(View()), v, n, i)
    {
      hide Core, MapRange, MapPage, RadixTable.Valid, RecordsOk;
      var k := 0;
      CoreRecords(View());
      MapRangeNone(View(), v, i);
      while k < n
        invariant 0 <= k <= n && Ready() && View() == MapRange(old(View()), v, k, i)
      {
        halted := MapOne(SlotOf(v + k), i);
        if halted {
          return true;
        }
        MapRangeNext(old(View()), v, k, i);
        k := k + 1;
      }
      return false;
    }

    method PopulatePages(v: int, n: nat, prot: bv32) returns (halted: bool)
      requires Ready() && 0 <= v && v + n <= PAGE_ADDRESSES
      modifies pt, `vmrs, `mem
      ensures halted <==> PopulateRange(files, old(View()), v, n, prot).Panic?
      ensures !halted ==> Ready() && PopulateRange(files, old(View()), v, n, prot) == Done(0, View())
    {
      hide Core, PopulateRange, Fault, RadixTable.Valid;
      var k := 0;
      PopulateNone(files, View(), v, prot);
      while k < n
        invariant 0 <= k <= n && Ready() && PopulateRange(files, old(View()), v, k, prot) == Done(0, View())
      {
        PopulateNext(files, old(View()), v, k, prot);
        if k + 1 < n {
          PanicStays(files, old(View()), v, k + 1, n, prot);
        }
        var status;
        halted, status := PageFault((v + k) * 4096, prot);
        if halted || status != 0 {
          return true;
        }
        k := k + 1;
      }
      return false;
    }

    ghost function Spare(): int
      reads this, pt
    {
      if base == 0 then SpareAddr() else 4096
    }

    /** Maps a range at a chosen address, wherever it lies. */
    method MapAt(m: Mapping, prot: bv32, populate: bool) returns (halted: bool, addr: int)
      requires Ready() && Request(m.addr, m.length) && 0 < m.length
      modifies pt, `base, `vmrs, `mem, `origin, `dirty
      ensures RecordsOk(old(View()))
      ensures halted ==> pt.nextFree == pt.freePages ||
                         (SparePage(old(Spare())) && !Mmap(files, old(View()), old(Spare()), m, prot, populate).Done?)
      ensures !halted ==> Ready() && SparePage(old(Spare()))
      ensures !halted ==> Mmap(files, old(View()), old(Spare()), m, prot, populate) == Done(addr, View())
      ensures !halted && old(Valid()) && UserRange(old(View()), m) ==> Valid()
      ensures !halted && old(Valid()) && UserRange(old(View()), m) && addr != -1 ==>
                addr == m.addr && MapDoes(files, old(View()), View(), m, prot, populate)
    {
      hide Inv, Core, MapRange, PopulateRange, FirstFree, RadixTable.Valid, Covers, Endless, LoopPages, MapDoes;
      CoreRecords(View());
      if old(Valid()) && UserRange(old(View()), m) && SparePage(Spare()) {
        MmapEnds(files, View(), Spare(), m, prot, populate);
      }
      var i;
      halted, i := VmrAlloc(m, prot);
      if halted {
        return true, 0;
      }
      if i == MAX_VMR {
        return false, -1;
      }
      if Endless(m.addr, m.length) {
        return true, 0;  // every test of the loop succeeds
      }
      var v, n := m.addr / 4096, LoopPages(m.addr, m.length);
      LoopRoom(m.addr, m.length);
      halted := MapPages(v, n, i);
      if halted {
        return true, 0;
      }
      if populate {
        halted := PopulatePages(v, n, prot);
        if halted {
          return true, 0;
        }
      }
      return false, m.addr;
    }

    method VaAvail(p: int) returns (free: bool)
      requires Ready()
      modifies pt
      ensures Ready() && View() == old(View()) && pt.nextFree == old(pt.nextFree)
      ensures free <==> SlotOf(p) !in pt.flat
    {
      hide Core, RadixTable.Valid, LeafOk;
      var v := SlotOf(p);
      NonzeroEntry(View(), v);
      var s := pt.Walk(v, false);
      if s.Missing? {
        return true;
      }
      var w := pt.Load(s, v);
      return w == 0;
    }

    /** One lap of the search, from a page up; `p` is what it returns for a page found. The end
        of a run that reaches past the last address wraps around below its start; the inner
        loop then stops at once and that end is taken for the run. */
    method Scan(from: int, end: int, npage: int) returns (lap: Lap, p: int)
      requires Ready() && 0 <= from < PAGE_ADDRESSES && end < PAGE_ADDRESSES && 0 < npage <= PAGE_ADDRESSES
      modifies pt
      ensures Ready() && View() == old(View()) && pt.nextFree == old(pt.nextFree)
      ensures lap == Pass(pt.flat, npage, end, from)
      ensures lap.Found? ==> p == Returned(lap.first, npage)
    {
      hide Core, RadixTable.Valid, WalkBack;
      var a := from;
      while a <= end
        invariant 0 <= a < PAGE_ADDRESSES && Ready() && View() == old(View()) && pt.nextFree == old(pt.nextFree)
        invariant Pass(pt.flat, npage, end, from) == Pass(pt.flat, npage, end, a)
        decreases end - a
      {
        var free := VaAvail(a);
        if free {
          var first := a;
          RunEnds(first, npage);
          a := RunBack(first, RunEnd(first, npage));
          if a <= first {
            ReturnedPage(pt.flat, first, npage);
            return Found(first), a;
          }
        }
        if a == PAGE_ADDRESSES - 1 {
          return Past, 0;
        }
        a := a + 1;
      }
      return Failed, 0;
    }

    /** Walks from the end of a run back towards its first page, up to a page that is taken. */
    method RunBack(first: int, last: int) returns (a: int)
      requires Ready() && 0 <= first
      modifies pt
      ensures Ready() && View() == old(View()) && pt.nextFree == old(pt.nextFree)
      ensures a == WalkBack(pt.flat, first, last)
    {
      hide Core, RadixTable.Valid;
      a := last;
      var free := a > first;
      while free
        invariant Ready() && View() == old(View()) && pt.nextFree == old(pt.nextFree)
        invariant WalkBack(pt.flat, first, last) == WalkBack(pt.flat, first, a)
        invariant free ==> a > first
        invariant !free ==> a <= first || SlotOf(a) in pt.flat
        decreases a, free
      {
        free := VaAvail(a);
        if free {
          a := a - 1;
          free := a > first;
        }
      }
    }

    /** The search for free pages between the break and the limit. A lap that steps past the
        last page address begins again at zero; if it does so from zero, nothing has changed
        and it is repeated for ever. */
    method VmAlloc(npage: int) returns (hung: bool, r: int)
      requires Ready() && BrkAligned() && 0 < npage <= PAGE_ADDRESSES
      modifies pt
      ensures Ready() && View() == old(View()) && pt.nextFree == old(pt.nextFree)
      ensures var c := Chosen(pt.flat, brk / 4096, mmapMax / 4096, npage);
              && (hung <==> c == Never)
              && (c == NotFound ==> r == 0)
              && (c.At? ==> r == Returned(c.first, npage) * 4096)
      ensures npage <= mmapMax / 4096 ==>
                var c := Chosen(pt.flat, brk / 4096, mmapMax / 4096, npage);
                && !hung
                && if c == NotFound then NoRun(pt.flat, brk / 4096, mmapMax / 4096, npage)
                   else IsLowestRun(pt.flat, brk / 4096, mmapMax / 4096, npage, c.first) && r == c.first * 4096
    {
      hide Core, RadixTable.Valid, Pass, NoRun, IsLowestRun;
      var end := SearchEnd(mmapMax / 4096, npage);
      SearchEnds(mmapMax / 4096, npage);
      if npage <= mmapMax / 4096 {
        FittingSearch(pt.flat, brk / 4096, mmapMax / 4096, npage);
      }
      var lap, p := Scan(brk / 4096, end, npage);
      if lap.Past? {
        lap, p := Scan(0, end, npage);
      }
      if lap.Past? {
        return true, 0;
      }
      return false, if lap.Found? then p * 4096 else 0;
    }

    method DoMunmap(addr: int, length: int) returns (r: int)
      requires Ready() && 0 <= addr < 0x1_0000_0000_0000_0000 && 0 <= length < 0x1_0000_0000_0000_0000
      modifies pt, `vmrs, `origin, `dirty
      ensures Ready() && (old(Valid()) ==> Valid())
      ensures r == 0 || r == -EINVAL
      ensures r == 0 <==> addr % 4096 == 0 && firstFreePaddr <= addr && addr + length <= mmapMax
      ensures View() == if r == 0 then Unmap(old(View()), addr / 4096, NPages(length)) else old(View())
      ensures r == 0 ==> forall u :: addr <= u * 4096 < addr + length ==> u !in pt.flat
      ensures r == 0 && old(Valid()) ==> forall u :: addr <= u * 4096 < addr + length ==> u !in origin && u !in dirty
      ensures r == 0 ==> forall u :: !(addr <= u * 4096 < addr + length) ==> Untouched(old(View()), View(), u)
      ensures mem == old(mem) && pt.nextFree == old(pt.nextFree)
    {
      hide Inv, Core, Unmap, RadixTable.Valid, Untouched, SameAt;
      RangeIsPages(addr, length);
      PagesOfRange(addr, length);
      if addr % 4096 != 0 || !ValidUserRange(addr, length) {
        return -EINVAL;
      }
      Munmap(addr / 4096, NPages(length));
      forall u | addr <= u * 4096 < addr + length ensures u !in pt.flat {
        assert Gone(old(View()), View(), u);
      }
      if old(Valid()) {
        NothingLeft(files, old(View()), View(), addr / 4096, NPages(length));
      }
      return 0;
    }

    /** Chooses the address of a mapping, -1 if there is none. */
    method Choose(addr: int, length: int, flags: bv32) returns (hung: bool, a: int)
      requires Ready() && BrkAligned() && 0 <= addr < 0x1_0000_0000_0000_0000 && 0 < length < 0x1_0000_0000_0000_0000
      modifies pt
      ensures Ready() && View() == old(View()) && pt.nextFree == old(pt.nextFree)
      ensures flags & MAP_FIXED != 0 ==> !hung
      ensures flags & MAP_FIXED != 0 ==>
                a == if addr % 4096 == 0 && firstFreePaddr <= addr && addr + length <= mmapMax then addr else -1
      ensures flags & MAP_FIXED == 0 ==> Searched(pt.flat, brk / 4096, mmapMax / 4096, NPages(length), hung, a)
      ensures hung ==> a == -1
      ensures a != -1 ==> !hung && Request(a, length) && 0 < a
      ensures old(Valid()) && NPages(length) <= mmapMax / 4096 && a != -1 ==>
                firstFreePaddr <= a && a + length <= mmapMax
    {
      hide Inv, Core, RadixTable.Valid, FreeRun, NoRun, Chosen;
      if flags & MAP_FIXED != 0 {
        RangeIsPages(addr, length);
        if addr % 4096 != 0 || !ValidUserRange(addr, length) {
          return false, -1;
        }
        return false, addr;
      }
      RequestPages(length);
      hung, a := VmAlloc(NPages(length));
      if hung {
        return true, -1;
      }
      ghost var c := Chosen(pt.flat, brk / 4096, mmapMax / 4096, NPages(length));
      if c.At? {
        ReturnedRange(pt.flat, brk / 4096, mmapMax / 4096, NPages(length));
        if old(Valid()) {
          LowMapped(files, old(View()), c.first);
        }
      }
      if a == 0 {
        return false, -1;
      }
    }

    /** Chooses the address and maps the range. `at` is the address chosen, -1 if there is none. */
    method MmapAnywhere(addr: int, length: int, prot: bv32, flags: bv32, file: Option<int>, offset: int)
      returns (halted: bool, r: int, ghost at: int, ghost spare: int)
      requires Ready() && BrkAligned() && 0 <= addr < 0x1_0000_0000_0000_0000 && 0 < length < 0x1_0000_0000_0000_0000
      modifies pt, `base, `vmrs, `mem, `origin, `dirty
      ensures !halted ==> Ready()
      ensures flags & MAP_FIXED != 0 ==>
                at == if addr % 4096 == 0 && firstFreePaddr <= addr && addr + length <= mmapMax then addr else -1
      ensures flags & MAP_FIXED == 0 ==>
                Searched(old(pt.flat), brk / 4096, mmapMax / 4096, NPages(length), halted, at)
      ensures at == -1 ==> View() == old(View())
      ensures at == -1 && !halted ==> r == -1
      ensures at == -1 && halted ==> flags & MAP_FIXED == 0
      ensures RecordsOk(old(View())) && (at != -1 ==> Request(at, length) && 0 < at)
      ensures at != -1 && !halted ==>
                && SparePage(spare)
                && Mmap(files, old(View()), spare, Mapping(at, length, file, offset), prot, Populates(flags))
                     == Done(r, View())
      ensures at != -1 && halted ==>
                pt.nextFree == pt.freePages ||
                (SparePage(spare)
                 && !Mmap(files, old(View()), spare, Mapping(at, length, file, offset), prot, Populates(flags)).Done?)
      ensures at != -1 && (flags & MAP_FIXED != 0 || (old(Valid()) && NPages(length) <= mmapMax / 4096)) ==>
                UserRange(old(View()), Mapping(at, length, file, offset))
      ensures old(Valid()) && !halted && (at == -1 || UserRange(old(View()), Mapping(at, length, file, offset))) ==>
                Valid()
      ensures old(Valid()) && !halted && at != -1 && r != -1 ==>
                UserRange(old(View()), Mapping(at, length, file, offset)) ==>
                && r == at
                && MapDoes(files, old(View()), View(), Mapping(at, length, file, offset), prot,
                           !haveVm || flags & 0x8000 != 0)
    {
      hide Inv, Core, Mmap, RadixTable.Valid, NPages, Chosen, MapDoes;
      CoreRecords(View());
      var hung, a := Choose(addr, length, flags);
      at, spare := a, 4096;
      if hung {
        return true, 0, at, spare;
      }
      if a == -1 {
        return false, -1, at, spare;
      }
      spare := Spare();
      halted, r := MapAt(Mapping(a, length, file, offset), prot, Populates(flags));
    }

    predicate Populates(flags: bv32) { !haveVm || flags & MAP_POPULATE != 0 }

    /** The request is well formed, so that an address is chosen for it. */
    predicate Accepted(length: int, flags: bv32, fd: Option<int>, offset: int) {
      flags & MAP_PRIVATE != 0 && length != 0 && offset % 4096 == 0 && (flags & MAP_ANONYMOUS != 0 || fd.Some?)
    }

    function FileFor(flags: bv32, fd: Option<int>): Option<int> {
      if flags & MAP_ANONYMOUS != 0 then None else fd
    }

    method DoMmap(addr: int, length: int, prot: bv32, flags: bv32, fd: Option<int>, offset: int)
      returns (halted: bool, r: int, ghost at: int, ghost spare: int)
      requires Ready() && BrkAligned() && 0 <= addr < 0x1_0000_0000_0000_0000 && 0 <= length < 0x1_0000_0000_0000_0000
      modifies pt, `base, `vmrs, `mem, `origin, `dirty, `brkMax
      ensures !halted ==> Ready() && brkMax == if 0 <= r < old(brkMax) then r else old(brkMax)
      ensures flags & MAP_PRIVATE == 0 || length == 0 || offset % 4096 != 0 ==>
                !halted && r == -EINVAL && View() == old(View())
      ensures flags & MAP_PRIVATE != 0 && length != 0 && offset % 4096 == 0
                && flags & MAP_ANONYMOUS == 0 && fd.None? ==>
                !halted && r == -EBADF && View() == old(View())
      ensures Accepted(length, flags, fd, offset) && flags & MAP_FIXED != 0 ==>
                at == if addr % 4096 == 0 && firstFreePaddr <= addr && addr + length <= mmapMax then addr else -1
      ensures Accepted(length, flags, fd, offset) && flags & MAP_FIXED == 0 ==>
                Searched(old(pt.flat), brk / 4096, mmapMax / 4096, NPages(length), halted, at)
      ensures at == -1 ==> View() == old(View())
      ensures Accepted(length, flags, fd, offset) && at == -1 && !halted ==> r == -1
      ensures RecordsOk(old(View())) && (at != -1 ==> Request(at, length) && 0 < at && 0 < length)
      ensures at != -1 && !halted ==>
                && SparePage(spare)
                && Mmap(files, old(View()), spare, Mapping(at, length, FileFor(flags, fd), offset),
                        prot, Populates(flags))
                   == Done(r, View())
      ensures at != -1 && halted ==>
                pt.nextFree == pt.freePages ||
                (SparePage(spare)
                 && !Mmap(files, old(View()), spare, Mapping(at, length, FileFor(flags, fd), offset),
                          prot, Populates(flags)).Done?)
      ensures old(Valid()) && at != -1 && (flags & MAP_FIXED != 0 || NPages(length) <= mmapMax / 4096) ==>
                UserRange(old(View()), Mapping(at, length, FileFor(flags, fd), offset))
      ensures old(Valid()) && !halted && at != -1 ==>
                (UserRange(old(View()), Mapping(at, length, FileFor(flags, fd), offset)) ==> Valid())
      ensures old(Valid()) && at == -1 && !halted ==> Valid()
      ensures old(Valid()) && !halted && at != -1 && r != -1 ==>
                var m := Mapping(at, length, if flags & 0x20 == 0 then fd else None, offset);
                UserRange(old(View()), m) ==>
                r == at && MapDoes(files, old(View()), View(), m, prot, !haveVm || flags & 0x8000 != 0)
      ensures old(BrkOk()) && !halted && (at == -1 || firstFreePaddr <= at) ==> BrkOk()
    {
      hide Inv, Core, Mmap, RadixTable.Valid, Searched, MapDoes;
      CoreRecords(View());
      at, spare := -1, 4096;
      if flags & MAP_PRIVATE == 0 || length == 0 || offset % 4096 != 0 {
        return false, -EINVAL, at, spare;
      }
      if flags & MAP_ANONYMOUS == 0 && fd.None? {
        return false, -EBADF, at, spare;
      }
      var file := FileFor(flags, fd);
      halted, r, at, spare := MmapAnywhere(addr, length, prot, flags, file, offset);
      if !halted && r != -1 {
        ChosenAddress(files, old(View()), spare, Mapping(at, length, file, offset), prot, Populates(flags));
        if r < brkMax {
          brkMax := r;
        }
      }
    }

    /** The break that a request gets: the address asked for, clamped to its bounds. */
    function NewBrk(addr: int): int
      reads this
    {
      if addr < brkMin then brkMin else if addr > brkMax then brkMax else addr
    }

    /** The page boundary the heap ends at now. */
    function HeapEnd(): int
      reads this
    {
      if brk == 0 then RoundUp(brkMin) else brk
    }

    /** Moves the end of the heap: pages below the old end and above the new one are
        unmapped, pages the other way round are mapped anonymously. The ceiling of the break
        can lie above the address limit; a break above the limit halts the kernel. */
    method Brk(addr: int) returns (halted: bool, newbrk: int, ghost spare: int)
      requires Valid() && BrkOk() && 0 <= addr
      modifies this, pt
      ensures newbrk == if addr < old(brkMin) then old(brkMin) else if addr > old(brkMax) then old(brkMax) else addr
      ensures !halted ==> newbrk <= brk < newbrk + 4096 && brk % 4096 == 0
      ensures old(HeapEnd()) % 4096 == 0 && (old(brk) != 0 ==> old(HeapEnd()) == old(brk))
      ensures old(brk) == 0 ==> old(brkMin) <= old(HeapEnd()) < old(brkMin) + 4096
      ensures !halted && brk <= old(HeapEnd()) ==>
                Unmapped(old(View()), View(), brk / 4096, (old(HeapEnd()) - brk) / 4096)
      ensures !halted && brk > old(HeapEnd()) ==>
                MapDoes(files, old(View()), View(), Mapping(old(HeapEnd()), brk - old(HeapEnd()), None, 0),
                        0xFFFF_FFFF, !haveVm)
      ensures RoundUp(newbrk) > old(HeapEnd()) && RoundUp(newbrk) > mmapMax ==> halted
      ensures RoundUp(newbrk) > old(HeapEnd()) && FirstFree(old(vmrs), 0) == |old(vmrs)| ==> halted
      ensures halted ==>
                && RoundUp(newbrk) > old(HeapEnd())
                && (RoundUp(newbrk) > mmapMax || FirstFree(old(vmrs), 0) == |old(vmrs)| || pt.nextFree == pt.freePages)
      ensures !halted ==> Valid() && BrkOk() && brk == RoundUp(newbrk) && brkMin == old(brkMin) && brkMax == old(brkMax)
      ensures !halted && RoundUp(newbrk) <= old(HeapEnd()) ==>
                View() == Unmap(old(View()), RoundUp(newbrk) / 4096, (old(HeapEnd()) - RoundUp(newbrk)) / 4096)
      ensures !halted && RoundUp(newbrk) > old(HeapEnd()) ==>
                var m := Mapping(old(HeapEnd()), RoundUp(newbrk) - old(HeapEnd()), None, 0);
                && UserRange(old(View()), m) && RecordsOk(old(View())) && SparePage(spare)
                && Mmap(files, old(View()), spare, m, 0xFFFF_FFFF, !haveVm) == Done(m.addr, View())
    {
      hide Inv, Core, Mmap, Unmap, RadixTable.Valid, Searched, FirstFree, MapDoes, Unmapped;
      newbrk, spare, halted := NewBrk(addr), 4096, false;
      ValidReady();
      HeapBounds(addr);
      if brk == 0 {
        brk := RoundUp(brkMin);
      }
      assert View() == old(View());
      var page := RoundUp(newbrk);
      UnmapNone(View(), page / 4096);
      UnmapEffect(View(), page / 4096, 0);
      if brk > page {
        Munmap(page / 4096, (brk - page) / 4096);
      } else if brk < page {
        var r;
        ghost var at;
        halted, r, at, spare := MmapAnywhere(brk, page - brk, 0xFFFF_FFFF, 0x32, None, 0);
        if at != -1 && SparePage(spare) {
          HeapMapped(files, old(View()), spare, Mapping(at, page - brk, None, 0), Populates(0x32));
        }
        if halted || r != brk {
          return true, newbrk, spare;
        }
      }
      brk := page;
    }

    lemma HeapBounds(addr: int)
      requires Sound() && BrkOk()
      ensures firstFreePaddr <= NewBrk(addr) && firstFreePaddr <= HeapEnd() <= mmapMax && HeapEnd() % 4096 == 0
      ensures firstFreePaddr <= RoundUp(NewBrk(addr)) <= NPAGES * 4096 && RoundUp(NewBrk(addr)) % 4096 == 0
      ensures NewBrk(addr) <= RoundUp(NewBrk(addr)) < NewBrk(addr) + 4096
      ensures brk == 0 ==> brkMin <= HeapEnd() < brkMin + 4096
    {
      RoundUpBounds(NewBrk(addr), firstFreePaddr, NPAGES * 4096);
      RoundUpBounds(brkMin, firstFreePaddr, mmapMax);
    }

    /** Changes the protection of one page, or of the whole record of a page not yet populated. */
    method ProtectOne(v: int, prot: bv32) returns (r: int)
      requires Ready() && 0 <= v < NPAGES
      modifies pt, `vmrs
      ensures Ready() && Protect(old(View()), v, prot) == Done(r, View())
      ensures ProtectDoes(old(View()), v, prot, Done(r, View())) && pt.nextFree == old(pt.nextFree)
    {
      hide Core, RadixTable.Valid, Extends, PteCreate, EntryRefuses, RecordRefuses, PtePpn, SetLeaf, ProtectDoes;
      CoreEntry(View(), v);
      ProtectCore(View(), v, prot);
      ProtectEffect(View(), v, prot);
      var s := pt.Walk(v, false);
      assert View() == old(View());
      if s.Missing? {
        return -ENOMEM;
      }
      var w := pt.Load(s, v);
      if w == 0 {
        return -ENOMEM;
      }
      if !PteValid(w) {
        var i := VmrIndex(base, w);
        if RecordRefuses(vmrs[i].prot, prot) {
          return -EACCES;
        }
        vmrs := vmrs[i := vmrs[i].(prot := prot)];
      } else {
        if EntryRefuses(w, prot) {
          return -EACCES;
        }
        PteCreated(PtePpn(w), prot, true);
        pt.Store(s, PteCreate(PtePpn(w), prot, true), v);
        SetLeafIs(old(pt.flat), v, PteCreate(PtePpn(w), prot, true));
      }
      return 0;
    }

    /** Stops at the first page that is missing or refuses. If the end of the range wraps
        around nothing happens; if it lies in the last page the loop stops only at such a
        page, and goes round for ever once it has passed every slot. */
    method DoMprotect(addr: int, length: int, prot: bv32) returns (hung: bool, r: int, ghost k: int)
      requires Ready() && 0 <= addr < 0x1_0000_0000_0000_0000 && 0 <= length < 0x1_0000_0000_0000_0000
      modifies pt, `vmrs
      ensures Ready() && (old(Valid()) && !hung ==> Valid())
      ensures addr % 4096 != 0 ==> !hung && r == -EINVAL && View() == old(View())
      ensures addr % 4096 == 0 && addr + length >= 0x1_0000_0000_0000_0000 ==> !hung && r == 0 && View() == old(View())
      ensures addr % 4096 == 0 ==>
                var n := if Endless(addr, length) then NPAGES else LoopPages(addr, length);
                var o := ProtectRange(old(View()), addr / 4096, n, prot);
                && (hung <==> Endless(addr, length) && o.Done? && o.status == 0)
                && (!hung ==> o == Done(r, View()) && RangeProtected(old(View()), View(), addr / 4096, n, prot, r, k))
      ensures pt.nextFree == old(pt.nextFree)
    {
      hide Inv, Core, RadixTable.Valid, Protect, ProtectRange, Endless, LoopPages, RangeProtected;
      if addr % 4096 != 0 {
        return false, -EINVAL, 0;
      }
      var v, j := addr / 4096, 0;
      var n := if Endless(addr, length) then NPAGES else LoopPages(addr, length);
      WrappedLoop(addr, length);
      r := 0;
      k := ProtectRangeEffect(View(), v, n, prot);
      ProtectNone(View(), v, prot);
      while j < n
        invariant 0 <= j <= n && Ready() && pt.nextFree == old(pt.nextFree)
        invariant r == 0 && ProtectRange(old(View()), v, j, prot) == Done(0, View())
      {
        r := ProtectOne(SlotOf(v + j), prot);
        ProtectNext(old(View()), v, j, prot);
        if r != 0 {
          ProtectStops(old(View()), v, j + 1, n, prot);
          ProtectRangeValid(files, old(View()), v, n, prot);
          return false, r, k;
        }
        j := j + 1;
      }
      ProtectRangeValid(files, old(View()), v, n, prot);
      hung := Endless(addr, length);
    }

    /** While the kernel's pages are closed, no page that the user program can read holds a
        page table. */
    lemma UserPagesMissTables(v: int)
      requires Ready() && KernelClosed(View()) && v in pt.flat && PteValid(pt.flat[v]) && PteUR(pt.flat[v])
      ensures firstFreePaddr <= v * 4096 < mmapMax && PtePpn(pt.flat[v]) == v && v !in pt.pages
    {
      assert ClosedAt(View(), v);
    }

    /** Without wrap-around a valid range lies between the bounds, and so do its pages. */
    lemma RangeIsPages(addr: int, length: int)
      requires Sound() && 0 <= addr < 0x1_0000_0000_0000_0000 && 0 <= length < 0x1_0000_0000_0000_0000
      ensures ValidUserRange(addr, length) <==> firstFreePaddr <= addr && addr + length <= mmapMax
      ensures ValidUserRange(addr, length) && addr % 4096 == 0 ==>
                firstFreePaddr / 4096 <= addr / 4096 && addr / 4096 + NPages(length) <= mmapMax / 4096
    {
    }
  }

  lemma UnmapSingle(st: Space, v: int)
    ensures Unmap(st, v, 1) == UnmapPage(st, v)
  {
    assert Unmap(st, v, 0) == st;
  }

  lemma PagesOfRange(addr: int, length: int)
    ensures addr % 4096 == 0 && 0 <= length ==>
              forall u :: addr <= u * 4096 < addr + length <==> addr / 4096 <= u < addr / 4096 + NPages(length)
  {
  }

  const MAP_PRIVATE: bv32 := 0x2
  const MAP_FIXED: bv32 := 0x10
  const MAP_ANONYMOUS: bv32 := 0x20
  const MAP_POPULATE: bv32 := 0x8000

  function RoundUp(x: int): int { (x + 4095) / 4096 * 4096 }

  lemma AnonymousContents(files: Files, m: Mapping)
    requires m.file.None?
    ensures forall u :: PageContents(files, m, u).Some?
  {
  }

  /** An anonymous mapping fails exactly without a free record, and never halts. */
  lemma HeapMapped(files: Files, st: Space, spare: int, m: Mapping, populate: bool)
    requires Inv(files, st, -1, 0) && SparePage(spare) && UserRange(st, m) && m.file.None?
    ensures RecordsOk(st)
    ensures var r := Mmap(files, st, spare, m, 0xFFFF_FFFF, populate);
            r.Done? && r.status == if FirstFree(st.vmrs, 0) == |st.vmrs| then -1 else m.addr
  {
    hide Inv, Mmap, PageContents, Covers;
    InvBounds(files, st);
    MmapKeeps(files, st, spare, m, 0xFFFF_FFFF, populate);
    AnonymousContents(files, m);
  }

  lemma RoundUpBounds(x: int, lo: int, hi: int)
    requires lo <= x <= hi && lo % 4096 == 0 && hi % 4096 == 0
    ensures lo <= x <= RoundUp(x) <= hi && RoundUp(x) % 4096 == 0 && RoundUp(x) < x + 4096
  {
    var q, h := (x + 4095) / 4096, hi / 4096;
    assert hi == h * 4096 && q <= h;
    assert x <= q * 4096;
  }

  lemma MmapEnds(files: Files, st: Space, spare: int, m: Mapping, prot: bv32, populate: bool)
    requires Inv(files, st, -1, 0) && SparePage(spare) && UserRange(st, m)
    ensures RecordsOk(st)
    ensures var r := Mmap(files, st, spare, m, prot, populate);
            && (r.Done? ==> Inv(files, r.st, -1, 0))
            && (r.Done? && r.status != -1 ==> r.status == m.addr && MapDoes(files, st, r.st, m, prot, populate))
  {
    hide Inv, Mmap, MapDoes, Covers, Populated, PageContents, FirstFree, InitRecords;
    MmapKeeps(files, st, spare, m, prot, populate);
    MmapEffect(files, st, spare, m, prot, populate);
  }

  /** A mapping that succeeds is at the address it was given. */
  lemma ChosenAddress(files: Files, st: Space, spare: int, m: Mapping, prot: bv32, populate: bool)
    requires RecordsOk(st) && SparePage(spare) && 0 < m.length
    ensures var r := Mmap(files, st, spare, m, prot, populate);
            r.Done? && r.status != -1 ==> r.status == m.addr
  {
  }

  // ---- calls longer than the limit ----

  /** How an address is chosen: by the search, which takes zero for a failure. */
  ghost predicate Searched(leaf: Leaf, start: int, limit: int, npage: int, halted: bool, at: int) {
    && 0 <= start < PAGE_ADDRESSES
    && var c := Chosen(leaf, start, limit, npage);
    && at == (if c.At? && Returned(c.first, npage) != 0 then Returned(c.first, npage) * 4096 else -1)
    && (at == -1 ==> (halted <==> c == Never))
  }

  lemma ReturnedPage(leaf: Leaf, first: int, npage: int)
    requires 0 <= first < PAGE_ADDRESSES && 0 < npage <= PAGE_ADDRESSES
    requires WalkBack(leaf, first, RunEnd(first, npage)) <= first
    ensures WalkBack(leaf, first, RunEnd(first, npage)) == Returned(first, npage)
  {
    RunEnds(first, npage);
    if first + npage <= PAGE_ADDRESSES {
      WalkFree(leaf, first, RunEnd(first, npage));
    }
  }

  /** A request for all but one byte of the address space returns the page below the lowest
      free page from the break up, and maps nothing. It fails only when there is no free
      record, or no such page above page zero. */
  method MapWholeSpace(m: Manager, prot: bv32) returns (halted: bool, r: int)
    requires m.Valid() && m.BrkOk()
    modifies m, m.pt
    ensures halted ==> m.pt.nextFree == m.pt.freePages
    ensures !halted ==> m.Valid() && |m.vmrs| == |old(m.vmrs)|
    ensures !halted ==>
              m.pt.flat == old(m.pt.flat) && m.mem == old(m.mem) && m.origin == old(m.origin) && m.dirty == old(m.dirty)
    ensures !halted ==> forall j :: 0 <= j < |m.vmrs| ==> m.vmrs[j].refcnt == old(m.vmrs)[j].refcnt
    ensures !halted && r != -1 ==>
              && r % 4096 == 0 && LowestFree(old(m.pt.flat), m.brk / 4096, m.mmapMax / 4096, r / 4096 + 1)
              && FirstFree(old(m.vmrs), 0) < |old(m.vmrs)|
    ensures !halted && r == -1 ==>
              || FirstFree(old(m.vmrs), 0) == |old(m.vmrs)|
              || NoneFree(old(m.pt.flat), m.brk / 4096, m.mmapMax / 4096)
              || LowestFree(old(m.pt.flat), m.brk / 4096, m.mmapMax / 4096, 1)
  {
    hide Inv, Core, Mmap, RadixTable.Valid, Chosen, LowestFree, NoneFree, FirstFree;
    ghost var st := m.View();
    m.ValidReady();
    PageZero(m.files, st);
    ghost var at, spare;
    halted, r, at, spare := m.DoMmap(0, 0xFFFF_FFFF_FFFF_FFFF, prot, 0x22, None, 0);
    WholeSearch(st.leaf, m.brk / 4096, m.mmapMax / 4096);
    if at != -1 && SparePage(spare) {
      WholeSpace(m.files, st, spare, Mapping(at, 0xFFFF_FFFF_FFFF_FFFF, None, 0), prot, m.Populates(0x22));
    }
  }

  /** Taking a record keeps what the operations need. */
  lemma TakeReady(st: Space, spare: int, next: int, m: Mapping, prot: bv32)
    requires Core(st) && SparePage(spare) && (st.base == 0 ==> spare == next)
    ensures var s0 := InitRecords(st, next);
            && Core(s0) && 0 < s0.base && |s0.vmrs| == MAX_VMR && s0.vmrs == st.vmrs
            && s0 == (if st.base == 0 then st.(base := next) else st)
            && forall i :: 0 <= i < MAX_VMR ==> Core(TakeRecord(s0, i, m, prot))
  {
    hide Core;
    var s0 := InitRecords(st, next);
    assert s0 == InitRecords(st, spare);
    InitRecordsCounts(st, spare);
    CoreRecords(s0);
    forall i | 0 <= i < MAX_VMR ensures Core(TakeRecord(s0, i, m, prot)) {
      TakeRecordCore(s0, i, m, prot);
    }
  }

  lemma PageZero(files: Files, st: Space)
    requires Inv(files, st, -1, 0) && 0 < st.lo
    ensures 0 in st.leaf
  {
  }

  /** A call for one page more than the limit, with nothing but the allocator's pages, up to
      `top`, mapped from the limit on: the mapping lies wholly above the limit. */
  method SearchPastLimit(m: Manager, prot: bv32, top: int) returns (halted: bool, r: int)
    requires m.Valid() && m.BrkOk() && m.BrkAligned() && m.haveVm
    requires m.mmapMax / 4096 < top && top + m.mmapMax / 4096 + 1 <= NPAGES
    requires forall v :: m.mmapMax / 4096 <= v < NPAGES ==> (v in m.pt.flat <==> v < top)
    modifies m, m.pt
    ensures halted ==> m.pt.nextFree == m.pt.freePages
    ensures !halted ==> r == if FirstFree(old(m.vmrs), 0) == |old(m.vmrs)| then -1 else top * 4096
    ensures !halted && r != -1 ==>
              forall v :: top <= v < top + m.mmapMax / 4096 + 1 ==> v in m.pt.flat && !PteValid(m.pt.flat[v])
  {
    hide Inv, Core, Mmap, RadixTable.Valid, Chosen, FirstFree;
    ghost var st := m.View();
    m.ValidReady();
    ghost var at, spare;
    var n := m.mmapMax / 4096 + 1;
    assert NPages(n * 4096) == n;
    PastLimit(st.leaf, m.brk / 4096, m.mmapMax / 4096, top);
    halted, r, at, spare := m.DoMmap(0, n * 4096, prot, 0x22, None, 0);
    if SparePage(spare) {
      MapsAbove(m.files, st, spare, Mapping(at, n * 4096, None, 0), prot, top, n);
    }
  }

  lemma MapsAbove(files: Files, st: Space, spare: int, m: Mapping, prot: bv32, top: int, n: nat)
    requires RecordsOk(st) && SparePage(spare) && m.addr == top * 4096 && m.length == n * 4096
    requires 0 < n && 0 < top && top + n <= NPAGES
    ensures var r := Mmap(files, st, spare, m, prot, false);
            && r.Done? && r.status == (if FirstFree(st.vmrs, 0) == |st.vmrs| then -1 else top * 4096)
            && (r.status != -1 ==> forall v :: top <= v < top + n ==> v in r.st.leaf && !PteValid(r.st.leaf[v]))
  {
    hide FirstFree, MapRange, MappedBy;
    var s0 := InitRecords(st, spare);
    var i := FirstFree(s0.vmrs, 0);
    if i < |s0.vmrs| {
      assert !Endless(m.addr, m.length) && LoopPages(m.addr, m.length) == n && m.addr / 4096 == top;
      var s1 := TakeRecord(s0, i, m, prot);
      MapRangeFrame(s1, top, n, i);
      var s2 := MapRange(s1, top, n, i);
      forall v | top <= v < top + n ensures v in s2.leaf && !PteValid(s2.leaf[v]) {
        MappedInvalid(s2, v, i);
      }
    }
  }

  /** A call that never returns, from any state in which the last slot is taken and page p,
      not below the break, is the lowest free page: a request for the pages from p to the
      last page address. */
  method SearchHangs(m: Manager, prot: bv32, p: int) returns (halted: bool, r: int)
    requires m.Ready() && m.BrkAligned() && m.brk / 4096 <= p && 0 < p < NPAGES - 1
    requires (forall q :: 0 <= q < p ==> q in m.pt.flat) && p !in m.pt.flat && NPAGES - 1 in m.pt.flat
    modifies m, m.pt
    ensures halted && m.View() == old(m.View())
    ensures var n := PAGE_ADDRESSES - p;
            RunsForEver(old(m.pt.flat), n, SearchEnd(m.mmapMax / 4096, n), m.brk / 4096)
  {
    hide Core, Mmap, RadixTable.Valid, Chosen, RunsForEver, StopsWith;
    var n := PAGE_ADDRESSES - p;
    assert NPages(n * 4096) == n;
    HangingRequest(m.pt.flat, m.brk / 4096, m.mmapMax / 4096, p);
    ChosenIsLoop(m.pt.flat, m.brk / 4096, m.mmapMax / 4096, n, 0);
    ghost var at, spare;
    halted, r, at, spare := m.DoMmap(0, n * 4096, prot, 0x22, None, 0);
  }

  lemma MappedInvalid(st: Space, v: int, i: int)
    requires MappedBy(st, v, i) && 0 <= st.base && st.base % 4096 == 0
    ensures v in st.leaf && !PteValid(st.leaf[v])
  {
    PtrFacts(st.base, i, i);
  }

  lemma RequestPages(length: int)
    requires 0 < length < 0x1_0000_0000_0000_0000
    ensures 0 < NPages(length) <= PAGE_ADDRESSES
  {
  }

  lemma LoopRoom(addr: int, length: int)
    requires Request(addr, length) && !Endless(addr, length)
    ensures 0 <= addr / 4096 && addr / 4096 + LoopPages(addr, length) <= PAGE_ADDRESSES
  {
  }

  lemma WrappedLoop(addr: int, length: int)
    requires Request(addr, length)
    ensures addr + length >= 0x1_0000_0000_0000_0000 ==> !Endless(addr, length) && LoopPages(addr, length) == 0
  {
  }

  lemma SetLeafIs(leaf: map<int, Word>, v: int, w: Word)
    ensures SetLeaf(leaf, v, w) == leaf[v := w]
  {
  }

  lemma MapRangeNone(st: Space, v: int, i: int)
    requires RecordsOk(st) && 0 <= i < MAX_VMR
    ensures MapRange(st, v, 0, i) == st
  {
  }

  lemma MapRangeNext(st: Space, v: int, k: nat, i: int)
    requires RecordsOk(st) && 0 <= i < MAX_VMR
    ensures RecordsOk(MapRange(st, v, k, i))
    ensures MapRange(st, v, k + 1, i) == MapPage(MapRange(st, v, k, i), SlotOf(v + k), i)
  {
  }

  lemma PopulateNone(files: Files, st: Space, v: int, prot: bv32)
    ensures PopulateRange(files, st, v, 0, prot) == Done(0, st)
  {
  }

  lemma PopulateNext(files: Files, st: Space, v: int, k: nat, prot: bv32)
    requires PopulateRange(files, st, v, k, prot).Done?
    ensures var r := Fault(files, PopulateRange(files, st, v, k, prot).st, v + k, prot);
            PopulateRange(files, st, v, k + 1, prot) == if r.Done? && r.status == 0 then r else Panic
  {
  }

  lemma {:induction false} PanicStays(files: Files, st: Space, v: int, k: nat, n: nat, prot: bv32)
    requires k <= n
    ensures PopulateRange(files, st, v, k, prot).Panic? ==> PopulateRange(files, st, v, n, prot).Panic?
    decreases n
  {
    hide Fault;
    if k < n {
      PanicStays(files, st, v, k, n - 1, prot);
    }
  }

  lemma LowMapped(files: Files, st: Space, v: int)
    requires Inv(files, st, -1, 0)
    ensures 0 <= v < NPAGES && SlotOf(v) !in st.leaf ==> st.lo <= v
  {
  }

  lemma NonzeroEntry(st: Space, v: int)
    requires Core(st)
    ensures v in st.leaf ==> st.leaf[v] != 0
  {
    assert v in st.leaf ==> LeafOk(st, v);
  }

  lemma KeepSlot(pages: Pages, pages': Pages, root: int, v: int)
    requires Extends(pages', pages, root) && 0 <= v < NPAGES && Descend(pages, root, 2, 0, v) != -1
    ensures Descend(pages', root, 2, 0, v) == Descend(pages, root, 2, 0, v)
  {
  }

  lemma UnmapNone(st: Space, v: int)
    ensures Unmap(st, v, 0) == st
  {
  }

  lemma UnmapNext(st: Space, v: int, k: nat)
    ensures Unmap(st, v, k + 1) == UnmapPage(Unmap(st, v, k), v + k)
  {
  }

  lemma CoreEntry(st: Space, v: int)
    requires Core(st)
    ensures |st.vmrs| == MAX_VMR && (v in st.leaf ==> LeafOk(st, v))
  {
  }

  lemma FlatPages(t: RadixTable)
    requires t.Valid()
    ensures forall v :: v in t.flat ==> 0 <= v < NPAGES
  {
  }

  // ---- start-up ----

  /** Identity of a kernel page: its entry maps the frame at the same distance from the start. */
  method MapKernelRange(pt: RadixTable, v: int, frame: int, n: nat, prot: bv32) returns (halted: bool)
    requires pt.Valid() && 0 <= v && v + n <= NPAGES && 0 <= frame && frame + n < 0x40_0000_0000_0000
    modifies pt
    ensures pt.Valid()
    ensures halted ==> pt.nextFree == pt.freePages
    ensures !halted && n > 0 ==> pt.root != 0
    ensures old(pt.root) != 0 ==> pt.root != 0
    ensures !halted ==> forall u :: u in pt.flat <==> u in old(pt.flat) || v <= u < v + n
    ensures !halted ==> forall u :: u in pt.flat ==>
              pt.flat[u] == if v <= u < v + n then PteCreate(frame + (u - v), prot, false) else old(pt.flat)[u]
  {
    hide PteCreate, RadixTable.Valid, Extends;
    var k := 0;
    while k < n
      invariant 0 <= k <= n && pt.Valid()
      invariant k > 0 || old(pt.root) != 0 ==> pt.root != 0
      invariant forall u :: u in pt.flat <==> u in old(pt.flat) || v <= u < v + k
      invariant forall u :: u in pt.flat ==>
                  pt.flat[u] == if v <= u < v + k then PteCreate(frame + (u - v), prot, false) else old(pt.flat)[u]
    {
      var s := pt.Walk(v + k, true);
      if s.Halted? {
        return true;
      }
      PteCreated(frame + k, prot, false);
      pt.Store(s, PteCreate(frame + k, prot, false), v + k);
      k := k + 1;
    }
    return false;
  }

  /** A table that maps the pages below the user range and the allocator's own pages. */
  method KernelTable(lo: int, first: int, free: int) returns (halted: bool, pt: RadixTable)
    requires 0 < lo <= first && 0 < free && first + free < NPAGES
    ensures fresh(pt) && pt.Valid() && pt.firstFree == first
    ensures halted ==> pt.nextFree == pt.freePages
    ensures !halted ==> pt.root != 0
    ensures !halted ==> forall v :: v in pt.flat <==> 0 <= v < lo || first <= v < first + free
    ensures !halted ==> forall v :: v in pt.flat ==>
              pt.flat[v] % 2 == 1 && pt.flat[v] / 1024 == v && !PteUR(pt.flat[v])
  {
    hide RadixTable.Valid, PteCreate, PteUR;
    pt := new RadixTable(first, free);
    halted := MapKernelRange(pt, 0, 0, lo, 7);
    if halted {
      return;
    }
    halted := MapKernelRange(pt, first, first, free, 3);
    if !halted {
      KernelEntries(pt.flat, lo, first, free);
    }
  }

  lemma TableCloses(st: Space)
    requires forall v :: v in st.leaf ==> !PteUR(st.leaf[v]) && !(st.lo <= v < st.hi)
    ensures KernelClosed(st)
  {
  }

  /** Builds the kernel's address space: the pages below the user range, the allocator's own
      pages above it, and the stack as the first mapping. It halts when a page table cannot
      be allocated or the stack does not fit above the kernel. */
  method PkVmInit(firstFreePaddr: int, memPages: int, heap: int, open: Files, paging: bool, elf64: bool)
    returns (halted: bool, m: Manager?, pt: RadixTable)
    requires 0 < firstFreePaddr && firstFreePaddr % 4096 == 0 && memPages < NPAGES
    requires firstFreePaddr <= heap <= UserLimit(memPages, elf64)
    ensures halted ==>
              pt.nextFree == pt.freePages || UserLimit(memPages, elf64) - StackPages(memPages) * 4096 < firstFreePaddr
    ensures !halted ==>
              m != null && fresh(m) && fresh(pt) && m.pt == pt && m.Valid() && m.BrkOk() && KernelClosed(m.View())
    ensures !halted ==> m.firstFreePaddr == firstFreePaddr && m.mmapMax == UserLimit(memPages, elf64)
    ensures !halted ==> m.brkMin == heap && m.brk == 0 && m.brkMax == (memPages - FreePages(memPages)) * 4096
    ensures !halted ==> forall v :: firstFreePaddr / 4096 <= v < m.mmapMax / 4096 && v in m.pt.flat ==>
                          v >= m.mmapMax / 4096 - StackPages(memPages) && v in m.origin && m.origin[v].file.None?
  {
    hide Inv, Core, RadixTable.Valid, PteCreate, KernelClosed, Mmap, StackPages, FreePages;
    m := null;
    var free := FreePages(memPages);
    var first := memPages - free;
    var limit := UserLimit(memPages, elf64);
    LimitPages(memPages, elf64);
    halted, pt := KernelTable(firstFreePaddr / 4096, first, free);
    if halted {
      return;
    }
    m := new Manager(pt, open, firstFreePaddr, limit, first * 4096, heap, paging);
    TableCloses(m.View());
    halted := MapStack(m, StackPages(memPages));
    if halted {
      return;
    }
    ghost var st := m.View();
    var kernelStack, _ := pt.PageAlloc();
    assert m.View() == st;
    halted := kernelStack == -1;
  }

  lemma LimitPages(memPages: int, elf64: bool)
    requires 0 < UserLimit(memPages, elf64)
    ensures UserLimit(memPages, elf64) % 4096 == 0
    ensures UserLimit(memPages, elf64) <= (memPages - FreePages(memPages)) * 4096
    ensures UserLimit(memPages, elf64) / 4096 <= memPages - FreePages(memPages)
  {
  }

  /** Maps the stack, the first mapping, just below the limit. */
  method MapStack(m: Manager, pages: int) returns (halted: bool)
    requires m.Valid() && m.BrkOk() && KernelClosed(m.View()) && m.origin == map[] && m.vmrs[0].refcnt == 0
    requires 0 < pages <= 256
    modifies m, m.pt
    ensures halted ==> m.pt.nextFree == m.pt.freePages || m.mmapMax - pages * 4096 < m.firstFreePaddr
    ensures m.brkMin == old(m.brkMin) && m.brk == old(m.brk) && m.brkMax == old(m.brkMax)
    ensures !halted ==> m.Valid() && KernelClosed(m.View())
    ensures !halted ==> forall v :: m.firstFreePaddr / 4096 <= v < m.mmapMax / 4096 && v in m.pt.flat ==>
                          v >= m.mmapMax / 4096 - pages && v in m.origin && m.origin[v].file.None?
  {
    hide Inv, Core, RadixTable.Valid, KernelClosed, Mmap, FirstFree;
    m.ValidReady();
    ghost var st := m.View();
    var stack := pages * 4096;
    var r;
    ghost var at, spare;
    halted, r, at, spare :=
      m.MmapAnywhere((m.mmapMax - stack) % 0x1_0000_0000_0000_0000, stack, 7, 0x32, None, 0);
    ghost var area := Mapping(at, stack, None, 0);
    if halted || r == -1 {
      if at != -1 {
        StackMapped(m.files, st, spare, area, 7, m.Populates(0x32));
      }
      return true;
    }
    StackOnly(m.files, st, spare, area, 7, m.Populates(0x32));
    MmapCloses(m.files, st, spare, area, 7, m.Populates(0x32));
    StackPlace(m, area, pages);
  }

  lemma StackPlace(m: Manager, area: Mapping, pages: int)
    requires m.Sound() && 0 < pages && area.addr == m.mmapMax - pages * 4096 && area.length == pages * 4096
    ensures forall v :: Covers(area, v) ==> v >= m.mmapMax / 4096 - pages
  {
  }

  /** Where the user pages end: below the allocator's pages and, for a 32-bit program, below
      the middle of its address space. */
  function UserLimit(memPages: int, elf64: bool): int {
    var top := (memPages - FreePages(memPages)) * 4096;
    if !elf64 && top > 0x8000_0000 then 0x8000_0000 else top
  }

  function FreePages(memPages: int): (f: int)
    ensures 8 <= f
  {
    if memPages / 256 < 8 then 8 else memPages / 256
  }

  function StackPages(memPages: int): (n: int)
    ensures 1 <= n <= 256
  {
    var n := memPages / 32;
    if n < 1 then 1 else if n > 256 then 256 else n
  }

  /** With k MiB of memory, 8 or more, the allocator has k pages, the user pages end below
      them, and the stack takes a thirty-second of all pages up to 1 MiB. */
  lemma MemoryShares(k: int)
    requires 8 <= k
    ensures FreePages(256 * k) == k && UserLimit(256 * k, true) == 255 * k * 4096
    ensures UserLimit(256 * k, false) == if k <= 2056 then 255 * k * 4096 else 0x8000_0000
    ensures StackPages(256 * k) == if k < 32 then 8 * k else 256
  {
  }

  lemma KernelEntries(flat: map<int, Word>, lo: int, first: int, free: int)
    requires 0 <= lo <= first && 0 <= free && first + free < NPAGES
    requires forall v :: v in flat <==> 0 <= v < lo || first <= v < first + free
    requires forall v :: v in flat ==> flat[v] == PteCreate(v, if first <= v < first + free then 3 else 7, false)
    ensures forall v :: v in flat ==> flat[v] % 2 == 1 && flat[v] / 1024 == v && !PteUR(flat[v])
  {
    hide PteCreate, PteUR;
    forall v | v in flat ensures flat[v] % 2 == 1 && flat[v] / 1024 == v && !PteUR(flat[v]) {
      PteCreated(v, if first <= v < first + free then 3 else 7, false);
      UserReadable(v, if first <= v < first + free then 3 else 7, false);
    }
  }

  /** With a free record an anonymous mapping neither fails nor halts. */
  lemma StackMapped(files: Files, st: Space, spare: int, m: Mapping, prot: bv32, populate: bool)
    requires Inv(files, st, -1, 0) && st.vmrs[0].refcnt == 0 && UserRange(st, m) && m.file.None?
    ensures SparePage(spare) ==> Mmap(files, st, spare, m, prot, populate).Done?
    ensures SparePage(spare) ==> Mmap(files, st, spare, m, prot, populate).status != -1
  {
    hide Mmap, Covers, PageContents;
    if SparePage(spare) {
      MmapKeeps(files, st, spare, m, prot, populate);
      AnonymousContents(files, m);
      FirstIsFree(st.vmrs);
    }
  }

  lemma FirstIsFree(vmrs: seq<Vmr>)
    requires 0 < |vmrs| && vmrs[0].refcnt == 0
    ensures FirstFree(vmrs, 0) == 0
  {
  }

  lemma StackOnly(files: Files, st: Space, spare: int, m: Mapping, prot: bv32, populate: bool)
    requires Inv(files, st, -1, 0) && SparePage(spare) && UserRange(st, m) && st.origin == map[]
    requires Mmap(files, st, spare, m, prot, populate).Done? && Mmap(files, st, spare, m, prot, populate).status != -1
    ensures var r := Mmap(files, st, spare, m, prot, populate).st;
            forall v :: st.lo <= v < st.hi && v in r.leaf ==> Covers(m, v) && v in r.origin && r.origin[v] == m
  {
    hide Mmap, Covers;
    MmapKeeps(files, st, spare, m, prot, populate);
    var r := Mmap(files, st, spare, m, prot, populate).st;
    forall v | st.lo <= v < st.hi && v in r.leaf ensures Covers(m, v) {
      assert EntryOk(r, v);
      if !Covers(m, v) {
        MmapOthers(files, st, spare, m, prot, populate, v);
      }
    }
  }
}
