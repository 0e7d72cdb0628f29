/**
 What a user program sees when it touches a page after a call: the bytes it finds, what it may
 do with the page, and when the access fails.
*/
module Usage {

  import opened Machine
  import opened PageTable
  import opened Mappings
  import opened AddressSpace
  import opened Effects
  import opened Protection
  import opened Vm

  /** An address that has been unmapped cannot be used, whatever was there before. */
  method UnmapThenTouch(m: Manager, addr: int, length: int, a: int, asked: bv32)
    returns (r: int, halted: bool, status: int)
    requires m.Ready() && addr % 4096 == 0 && m.firstFreePaddr <= addr && addr + length <= m.mmapMax
    requires addr <= a < addr + length
    modifies m, m.pt
    ensures r == 0 && !halted && status == -1
  {
    hide Core, Inv, RadixTable.Valid, Untouched, SameAt, Unmap;
    r := m.DoMunmap(addr, length);
    PageOfAddress(addr, length, a);
    halted, status := m.PageFault(a, asked);
  }

  lemma PageOfAddress(addr: int, length: int, a: int)
    requires addr % 4096 == 0 && 0 <= addr <= a < addr + length
    ensures addr <= a / 4096 * 4096 < addr + length
    ensures addr / 4096 <= a / 4096 <= (addr + length - 1) / 4096
    ensures a / 4096 < addr / 4096 + NPages(length)
  {
    var q := addr / 4096;
    assert addr == q * 4096;
  }

  /** A fixed mapping, and the first access to a byte of it: the page has the bytes of the file
      from the mapping's offset on, up to the end of the mapping or the file and zeros beyond,
      or zeros only without a file. The access is allowed exactly if the protection asked for
      at the call allows it. The kernel halts exactly if the file ends at or before the page.
      No page outside the range changes. */
  method MapThenTouch(m: Manager, addr: int, length: int, prot: bv32, flags: bv32, fd: Option<int>, offset: int,
                      a: int, asked: bv32)
    returns (halted: bool, r: int, failed: bool, status: int)
    requires m.Valid() && m.BrkAligned() && m.haveVm && flags & 0x12 == 0x12 && flags & 0x8000 == 0
    requires offset % 4096 == 0 && (flags & 0x20 != 0 || fd.Some?)
    requires addr % 4096 == 0 && m.firstFreePaddr <= addr <= a < addr + length <= m.mmapMax
    modifies m, m.pt
    ensures !halted && r != -1 ==>
              var v, d := a / 4096, a / 4096 * 4096 - addr;
              var file, place := if flags & 0x20 == 0 then fd else None, (offset + d) % 0x1_0000_0000_0000_0000;
              && r == addr
              && (failed <==> file.Some? && (file.value in m.files ==> place >= |m.files[file.value]|))
              && (!failed ==>
                    && status == (if Asks(prot, asked) then 0 else -1) && v in m.mem && |m.mem[v]| == 4096
                    && (forall k :: 0 <= k < 4096 ==>
                          m.mem[v][k] == if file.Some? && d + k < length && place + k < |m.files[file.value]|
                                         then m.files[file.value][place + k] else 0)
                    && (forall u :: !(addr <= u * 4096 < addr + length) ==> Untouched(old(m.View()), m.View(), u)))
  {
    hide Core, Inv, RadixTable.Valid, MapDoes, Mmap, Backed, Asks, Entry, Untouched, Fault, FaultDoes;
    ghost var at, spare;
    FlagBits(flags);
    m.ValidReady();
    halted, r, at, spare := m.DoMmap(addr, length, prot, flags, fd, offset);
    failed, status := false, 0;
    if halted || r == -1 {
      return;
    }
    ghost var st, area := m.View(), Mapping(addr, length, if flags & 0x20 == 0 then fd else None, offset);
    PageOfAddress(addr, length, a);
    LazyTouch(m.files, old(m.View()), st, area, prot, a / 4096, asked);
    failed, status := m.PageFault(a, asked);
    assert offset + (a / 4096 * 4096 - addr) == offset + a / 4096 * 4096 - addr;
    if !failed {
      BytesOf(m.files, area, a / 4096, m.mem[a / 4096]);
      forall u | !(addr <= u * 4096 < addr + length) ensures Untouched(old(m.View()), m.View(), u) {
        OutsideTouch(m.files, old(m.View()), st, area, prot, a / 4096, asked, u);
      }
    }
  }

  lemma FlagBits(flags: bv32)
    requires flags & 0x12 == 0x12
    ensures flags & 0x2 != 0 && flags & 0x10 != 0
  {
  }

  /** Touching a page of a new mapping for the first time. */
  lemma LazyTouch(files: Files, s: Space, t: Space, m: Mapping, prot: bv32, v: int, asked: bv32)
    requires Inv(files, t, -1, 0) && MapDoes(files, s, t, m, prot, false)
    requires m.addr / 4096 <= v <= (m.addr + m.length - 1) / 4096
    ensures v in t.leaf && t.leaf[v] % 2 == 0 && v in t.origin && t.origin[v] == m
    ensures var o := Fault(files, t, v, asked);
            && (o.Panic? <==> FileEnds(files, m, v))
            && (o.Done? ==>
                  && o.status == (if Asks(prot, asked) then 0 else -1)
                  && v in o.st.mem && Backed(files, m, v, o.st.mem[v]))
  {
    hide Inv, Fault, FileEnds, Backed, Asks, Entry, Untouched;
    assert MappedPage(files, t, m, prot, false, v);
    FirstTouch(files, t, v, asked);
  }

  lemma OutsideTouch(files: Files, s: Space, t: Space, m: Mapping, prot: bv32, v: int, asked: bv32, u: int)
    requires MapDoes(files, s, t, m, prot, false) && Fault(files, t, v, asked).Done?
    requires m.addr % 4096 == 0 && 0 < m.length && !(m.addr <= u * 4096 < m.addr + m.length)
    requires m.addr / 4096 <= v <= (m.addr + m.length - 1) / 4096
    ensures Untouched(s, Fault(files, t, v, asked).st, u)
  {
    hide Fault, Untouched, MappedPage;
    var a := m.addr / 4096;
    assert m.addr == a * 4096;
    FaultUntouched(files, t, v, asked, u);
    UntouchedChain(s, t, Fault(files, t, v, asked).st, u);
  }

  lemma BytesOf(files: Files, m: Mapping, v: int, page: Page)
    requires Backed(files, m, v, page) && !FileEnds(files, m, v)
    ensures |page| == 4096
    ensures var d := v * 4096 - m.addr;
            var place := (m.offset + d) % 0x1_0000_0000_0000_0000;
            && (m.file.Some? ==> m.file.value in files)
            && forall k :: 0 <= k < 4096 ==>
                 page[k] == if m.file.Some? && d + k < m.length && place + k < |files[m.file.value]|
                            then files[m.file.value][place + k] else 0
  {
    var d := v * 4096 - m.addr;
    assert m.offset + v * 4096 - m.addr == m.offset + d;
    forall k | 0 <= k < 4096 ensures page[k] == BackedByte(files, m, d, k) {
    }
  }

  /** After a successful change of protection, every page of the range that is a user page is
      open to exactly what the new protection allows, populated or not. */
  method ProtectThenTouch(m: Manager, addr: int, length: int, prot: bv32, a: int, asked: bv32)
    returns (r: int, halted: bool, status: int)
    requires m.Ready() && addr % 4096 == 0 && 0 <= addr <= a < addr + length <= 0xFFFF_FFFF_FFFF_F000
    requires m.firstFreePaddr <= a < m.mmapMax
    modifies m, m.pt
    ensures r == 0 && !halted ==> status == if Asks(prot, asked) then 0 else -1
  {
    hide Core, Inv, RadixTable.Valid, ProtectRange, Asks, RangeProtected, FaultDoes, Fault;
    ghost var k;
    var hung;
    hung, r, k := m.DoMprotect(addr, length, prot);
    PageOfAddress(addr, length, a);
    ghost var st := m.View();
    halted, status := m.PageFault(a, asked);
    if r == 0 && !halted {
      ProtectedTouch(m.files, old(m.View()), st, addr / 4096, NPages(length), prot, k, a / 4096, asked,
                     Done(status, m.View()));
    }
  }

  lemma ProtectedTouch(files: Files, s: Space, t: Space, p: int, n: int, prot: bv32, k: int, v: int, asked: bv32,
                       o: Outcome)
    requires RangeProtected(s, t, p, n, prot, 0, k) && p <= v < p + n && 0 <= v < NPAGES && t.lo <= v < t.hi
    requires FaultDoes(files, t, v, asked, o) && o.Done?
    ensures o.status == if Asks(prot, asked) then 0 else -1
  {
    hide Asks, FileEnds, Backed, Untouched, Covers;
    assert SlotOf(v) == v;
    assert Among(p, k, v);
    assert ProtectedAt(s, t, v, prot);
  }

  /** The heap grows by zeros, open to reading, writing and execution: an access between the old
      end and the new one never halts the kernel. */
  method GrowThenTouch(m: Manager, addr: int, a: int, asked: bv32)
    returns (halted: bool, newbrk: int, failed: bool, status: int)
    requires m.Valid() && m.BrkOk() && 0 <= addr && m.HeapEnd() <= a
    modifies m, m.pt
    ensures !halted && a < m.brk ==>
              && !failed && status == (if asked & 7 != 0 then 0 else -1)
              && a / 4096 in m.mem && m.mem[a / 4096] == seq(4096, _ => 0)
  {
    hide Core, Inv, RadixTable.Valid, MapDoes, Mmap, FaultDoes, Fault, Unmapped, Unmap;
    ghost var spare;
    halted, newbrk, spare := m.Brk(addr);
    failed, status := false, 0;
    if halted || a >= m.brk {
      return;
    }
    ghost var st, end := m.View(), old(m.HeapEnd());
    ghost var area := Mapping(end, m.brk - end, None, 0);
    PageOfAddress(end, m.brk - end, a);
    m.ValidReady();
    HeapTouch(m.files, old(m.View()), st, area, !m.haveVm, a / 4096, asked);
    failed, status := m.PageFault(a, asked);
  }

  lemma HeapTouch(files: Files, s: Space, t: Space, m: Mapping, populate: bool, v: int, asked: bv32)
    requires Inv(files, t, -1, 0) && MapDoes(files, s, t, m, 0xFFFF_FFFF, populate) && m.file.None?
    requires m.addr / 4096 <= v <= (m.addr + m.length - 1) / 4096
    ensures t.lo <= v < t.hi ==>
              var o := Fault(files, t, v, asked);
              && o.Done? && o.status == (if asked & 7 != 0 then 0 else -1)
              && v in o.st.mem && o.st.mem[v] == seq(4096, _ => 0)
  {
    hide Inv, Fault, Entry, Untouched, Covers;
    InvCore(files, t, -1, 0);
    assert MappedPage(files, t, m, 0xFFFF_FFFF, populate, v);
    FaultEffect(files, t, v, asked);
    AllRights(asked);
    if t.lo <= v < t.hi {
      if populate {
        EntryAllows(t.leaf[v], v, 0xFFFF_FFFF, asked);
        assert t.mem[v] == seq(4096, _ => 0);
      } else {
        FirstTouch(files, t, v, asked);
        var o := Fault(files, t, v, asked);
        assert o.st.mem[v] == seq(4096, _ => 0);
      }
    }
  }

  lemma EntryAllows(w: Word, frame: int, prot: bv32, asked: bv32)
    requires Entry(w, frame, prot)
    ensures w % 2 == 1 && (Allows(w, asked) <==> Asks(prot, asked))
  {
  }

  lemma AllRights(asked: bv32)
    ensures Asks(0xFFFF_FFFF, asked) <==> asked & 7 != 0
  {
  }
}
