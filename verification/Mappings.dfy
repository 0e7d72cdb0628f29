/**
 The proxy kernel's address space seen through its flat page map: reference-counted
 mapping records, lazily populated pages and the operations on them.
*/
module Mappings {

  import opened Machine
  import opened Powers
  import opened PageTable

  type Page = seq<Byte>
  type Files = map<int, seq<Byte>>  // contents of the open files

  const MAX_VMR: int := 102  // records of 40 bytes in one page

  datatype Mapping = Mapping(addr: int, length: int, file: Option<int>, offset: int)

  /** A mapping record. */
  datatype Vmr = Vmr(mapping: Mapping, refcnt: int, prot: bv32)

  /**
   The state of the manager. The leaf entries are zero (absent from the map), the
   address of a record (even) or a valid page table entry (odd). `origin` remembers the
   mapping that last covered a page and `dirty` the pages the user has written since.
   User pages are those from `lo` up to `hi`.
  */
  datatype Space = Space(lo: int, hi: int, base: int, vmrs: seq<Vmr>, leaf: map<int, Word>,
                         mem: map<int, Page>, origin: map<int, Mapping>, dirty: set<int>)

  function VmrPtr(base: int, i: int): int { base + 40 * i }
  function VmrIndex(base: int, w: Word): int { (w - base) / 40 }

  function NPages(length: int): int { (length - 1) / 4096 + 1 }

  /** The leaf slot that a walk reaches for a page number: the bits above Sv39's are ignored. */
  function SlotOf(p: int): (v: int)
    ensures 0 <= v < NPAGES && (0 <= p < NPAGES ==> v == p)
  {
    p % NPAGES
  }

  /** The indices that a walk takes from an address. */
  lemma AddressBits(addr: int)
    requires 0 <= addr
    ensures PtIdx(SlotOf(addr / 4096), 2) == addr / 0x4000_0000 % 0x200
    ensures PtIdx(SlotOf(addr / 4096), 1) == addr / 0x20_0000 % 0x200
    ensures PtIdx(SlotOf(addr / 4096), 0) == addr / 0x1000 % 0x200
  {
    var p := addr / 4096;
    var a := p / 0x200;
    var b := a / 0x200;
    assert addr / 0x20_0000 == a && addr / 0x4000_0000 == b && p / 0x4_0000 == b;
    PtIdxBits(SlotOf(p));
    var q := b / 0x200;
    assert p == q * 0x800_0000 + (b % 0x200) * 0x4_0000 + (a % 0x200) * 0x200 + p % 0x200;
    DivModUnique(p, 0x800_0000, q, (b % 0x200) * 0x4_0000 + (a % 0x200) * 0x200 + p % 0x200);
    var s := SlotOf(p);
    DivModUnique(s, 0x200, (b % 0x200) * 0x200 + a % 0x200, p % 0x200);
    DivModUnique(s, 0x4_0000, b % 0x200, (a % 0x200) * 0x200 + p % 0x200);
    DivModUnique((b % 0x200) * 0x200 + a % 0x200, 0x200, b % 0x200, a % 0x200);
  }

  /** A 32-bit counter. */
  function U32(x: int): (r: int)
    ensures 0 <= r < 0x1_0000_0000 && (0 <= x < 0x1_0000_0000 ==> r == x)
  {
    x % 0x1_0000_0000
  }

  predicate Covers(m: Mapping, v: int) {
    m.addr % 4096 == 0 && 0 < m.length && m.addr / 4096 <= v < m.addr / 4096 + NPages(m.length)
  }

  // ---- page table entries ----

  function PteType(prot: bv32, user: bool): (t: int)
    ensures 0 <= t < 32 && t % 2 == 0
  {
    if user then
      match prot & 7
      case 0 => 0x10
      case 1 => 0x08
      case 2 => 0x0A
      case 3 => 0x0A
      case 4 => 0x0C
      case 5 => 0x0C
      case _ => 0x0E
    else
      match prot & 7
      case 1 => 0x10
      case 2 => 0x12
      case 3 => 0x12
      case 4 => 0x14
      case 5 => 0x14
      case _ => 0x16
  }

  function PteCreate(ppn: int, prot: bv32, user: bool): Word
    requires 0 <= ppn < 0x40_0000_0000_0000
  {
    ppn * 1024 + 1 + PteType(prot, user)
  }

  lemma PteCreated(ppn: int, prot: bv32, user: bool)
    requires 0 <= ppn < 0x40_0000_0000_0000
    ensures PteValid(PteCreate(ppn, prot, user)) && PtePpn(PteCreate(ppn, prot, user)) == ppn
  {
    var t := PteType(prot, user);
    var h := t / 2;
    assert t == 2 * h;
    OddNumber(ppn * 512 + h);
    assert PteCreate(ppn, prot, user) == 2 * (ppn * 512 + h) + 1;
  }

  // ---- page contents ----

  function FileOf(files: Files, f: int): seq<Byte> {
    if f in files then files[f] else []
  }

  function FilePos(m: Mapping, v: int): int {
    (v * 4096 - m.addr + m.offset) % 0x1_0000_0000_0000_0000
  }

  /** The bytes that a read of at most n bytes at an offset returns. */
  function PRead(data: seq<Byte>, n: int, off: int): seq<Byte> {
    if n <= 0 || off < 0 || off >= |data| then [] else if off + n <= |data| then data[off..off + n] else data[off..]
  }

  /** How much of the mapping lies at or above a page, as a machine word. */
  function BytesLeft(m: Mapping, v: int): int {
    (m.length - (v * 4096 - m.addr)) % 0x1_0000_0000_0000_0000
  }

  /** What the fault handler puts into a page; nothing if the read comes back empty. */
  function PageContents(files: Files, m: Mapping, v: int): Option<Page> {
    match m.file
    case None => Some(seq(4096, _ => 0))
    case Some(f) =>
      var left := BytesLeft(m, v);
      var data := PRead(FileOf(files, f), if left < 4096 then left else 4096, FilePos(m, v));
      if data == [] then None else Some(data + seq(if |data| < 4096 then 4096 - |data| else 0, _ => 0))
  }

  /** The byte that belongs at a place of a page: the byte of the file, as far as both the
      mapping and the file reach, and zero beyond. */
  function ImageByte(files: Files, m: Mapping, v: int, k: int): Byte
    requires 0 <= k
  {
    match m.file
    case None => 0
    case Some(f) =>
      if v * 4096 - m.addr + k < m.length && FilePos(m, v) + k < |FileOf(files, f)|
      then FileOf(files, f)[FilePos(m, v) + k]
      else 0
  }

  function Image(files: Files, m: Mapping, v: int): Page {
    seq(4096, k requires 0 <= k => ImageByte(files, m, v, k))
  }

  /** Population installs the image, and halts exactly on a page of a file mapping that
      has no byte of the file in it. */
  lemma PageContentsIsImage(files: Files, m: Mapping, v: int)
    requires Covers(m, v) && m.length < 0x1_0000_0000_0000_0000
    ensures PageContents(files, m, v).Some? ==> PageContents(files, m, v).value == Image(files, m, v)
    ensures PageContents(files, m, v).None? <==> m.file.Some? && FilePos(m, v) >= |FileOf(files, m.file.value)|
  {
    hide FilePos, FileOf, BytesLeft, Image, Covers;
    var left := m.length - (v * 4096 - m.addr);
    assert 0 < left == BytesLeft(m, v) by {
      LeftBytes(m, v);
    }
    if m.file.Some? {
      var file, pos := FileOf(files, m.file.value), FilePos(m, v);
      assert pos >= 0 by { hide *; PositionBound(m, v); }
      var data := PRead(file, if left < 4096 then left else 4096, pos);
      assert data == [] <==> pos >= |file|;
      if data != [] {
        assert |data| <= 4096;
        FileImage(files, m, v, left, data);
      }
    } else {
      ZeroImage(files, m, v);
    }
  }

  lemma ZeroImage(files: Files, m: Mapping, v: int)
    requires m.file.None?
    ensures seq(4096, _ => 0) == Image(files, m, v)
  {
  }

  lemma LeftBytes(m: Mapping, v: int)
    requires Covers(m, v) && m.length < 0x1_0000_0000_0000_0000
    ensures 0 < m.length - (v * 4096 - m.addr) == BytesLeft(m, v)
  {
    CoversBytes(m, v);
  }

  lemma PositionBound(m: Mapping, v: int)
    ensures FilePos(m, v) >= 0
  {
  }

  /** The bytes read, padded with zeros, are the image. */
  lemma FileImage(files: Files, m: Mapping, v: int, left: int, data: seq<Byte>)
    requires m.file.Some? && left == m.length - (v * 4096 - m.addr) > 0 && |data| <= 4096 && FilePos(m, v) >= 0
    requires data == PRead(FileOf(files, m.file.value), if left < 4096 then left else 4096, FilePos(m, v))
    ensures data + seq(if |data| < 4096 then 4096 - |data| else 0, _ => 0) == Image(files, m, v)
  {
    hide FilePos, FileOf;
    var page, image := data + seq(if |data| < 4096 then 4096 - |data| else 0, _ => 0), Image(files, m, v);
    forall k | 0 <= k < 4096 ensures page[k] == image[k] {
    }
  }

  /** The bytes that a mapping puts into a page: the byte of the file at the same distance from
      the mapping's offset as the byte of the page from its address, as far as both the mapping
      and the file reach, and zero beyond; an anonymous mapping puts zeros. The place of the
      page in the file is a machine word. */
  ghost predicate Backed(files: Files, m: Mapping, v: int, page: Page) {
    |page| == 4096 && forall k :: 0 <= k < 4096 ==> page[k] == BackedByte(files, m, v * 4096 - m.addr, k)
  }

  ghost function BackedByte(files: Files, m: Mapping, d: int, k: nat): Byte {
    match m.file
    case None => 0
    case Some(f) =>
      var p := (m.offset + d) % 0x1_0000_0000_0000_0000 + k;
      if f in files && d + k < m.length && p < |files[f]| then files[f][p] else 0
  }

  /** The file of the mapping does not reach the page. */
  ghost predicate FileEnds(files: Files, m: Mapping, v: int) {
    && m.file.Some?
    && (m.file.value in files ==>
          (m.offset + v * 4096 - m.addr) % 0x1_0000_0000_0000_0000 >= |files[m.file.value]|)
  }

  /** A page is filled with exactly these bytes, or population halts because the file ends at
      or before the page. */
  lemma PageBytes(files: Files, m: Mapping, v: int)
    requires Covers(m, v) && m.length < 0x1_0000_0000_0000_0000
    ensures PageContents(files, m, v).None? <==> FileEnds(files, m, v)
    ensures PageContents(files, m, v).Some? ==> Backed(files, m, v, PageContents(files, m, v).value)
    ensures 0 <= m.offset && m.offset + v * 4096 - m.addr < 0x1_0000_0000_0000_0000 && m.file.Some? ==>
              (PageContents(files, m, v).None? <==>
               m.file.value in files ==> m.offset + v * 4096 - m.addr >= |files[m.file.value]|)
  {
    PageContentsIsImage(files, m, v);
    CoversBytes(m, v);
    ImageBacked(files, m, v);
  }

  lemma ImageBacked(files: Files, m: Mapping, v: int)
    ensures Backed(files, m, v, Image(files, m, v))
  {
    var image := Image(files, m, v);
    forall k | 0 <= k < 4096 ensures image[k] == BackedByte(files, m, v * 4096 - m.addr, k) {
      assert image[k] == ImageByte(files, m, v, k);
    }
  }

  lemma CoversBytes(m: Mapping, v: int)
    requires Covers(m, v)
    ensures m.addr <= v * 4096 < m.addr + m.length
  {
    var a := m.addr / 4096;
    assert m.addr == a * 4096;
    assert (v - a) <= (m.length - 1) / 4096;
    assert (v - a) * 4096 <= m.length - 1;
  }

  // ---- counting references ----

  ghost function Holders(leaf: map<int, Word>, w: int): set<int> {
    set v | v in leaf && leaf[v] == w
  }

  ghost function Refs(leaf: map<int, Word>, w: int): nat { |Holders(leaf, w)| }

  lemma RefsRemove(leaf: map<int, Word>, v: int, w: int)
    requires v in leaf
    ensures Refs(leaf - {v}, w) == Refs(leaf, w) - (if leaf[v] == w then 1 else 0)
  {
    if leaf[v] == w {
      assert Holders(leaf, w) == Holders(leaf - {v}, w) + {v};
    } else {
      assert Holders(leaf, w) == Holders(leaf - {v}, w);
    }
  }

  lemma RefsAdd(leaf: map<int, Word>, v: int, x: Word, w: int)
    requires v !in leaf
    ensures Refs(leaf[v := x], w) == Refs(leaf, w) + (if x == w then 1 else 0)
  {
    if x == w {
      assert Holders(leaf[v := x], w) == Holders(leaf, w) + {v};
    } else {
      assert Holders(leaf[v := x], w) == Holders(leaf, w);
    }
  }

  lemma RefsPositive(leaf: map<int, Word>, v: int)
    requires v in leaf
    ensures Refs(leaf, leaf[v]) > 0
  {
    assert v in Holders(leaf, leaf[v]);
  }

  /** No record has more references than there are pages. */
  lemma RefsBound(leaf: map<int, Word>, w: int)
    requires forall v :: v in leaf ==> 0 <= v < NPAGES
    ensures Refs(leaf, w) <= NPAGES
  {
    SetBound(Holders(leaf, w), NPAGES);
  }

  lemma {:induction false} SetBound(s: set<int>, n: nat)
    requires forall v :: v in s ==> 0 <= v < n
    ensures |s| <= n
  {
    if n == 0 {
      assert forall v :: v !in s;
    } else {
      SetBound(s - {n - 1}, n - 1);
    }
  }

  // ---- one page ----

  predicate RecordsOk(st: Space) {
    |st.vmrs| == MAX_VMR && 0 <= st.base && st.base % 4096 == 0 && st.base + 4096 < 0x1_0000_0000_0000_0000
  }

  function SetLeaf(leaf: map<int, Word>, v: int, w: Word): map<int, Word> { leaf[v := w] }

  function DecRef(vmrs: seq<Vmr>, i: int): (r: seq<Vmr>)
    ensures |r| == |vmrs|
  {
    if 0 <= i < |vmrs| then vmrs[i := vmrs[i].(refcnt := U32(vmrs[i].refcnt - 1))] else vmrs
  }

  function UnmapPage(st: Space, v: int): (r: Space)
    ensures r.base == st.base && |r.vmrs| == |st.vmrs| && r.lo == st.lo
  {
    if v !in st.leaf then st
    else
      st.(vmrs := if PteValid(st.leaf[v]) then st.vmrs else DecRef(st.vmrs, VmrIndex(st.base, st.leaf[v])),
          leaf := st.leaf - {v}, origin := st.origin - {v}, dirty := st.dirty - {v})
  }

  function MapPage(st: Space, v: int, i: int): (r: Space)
    requires RecordsOk(st) && 0 <= i < MAX_VMR
    ensures r.base == st.base && |r.vmrs| == |st.vmrs|
  {
    var s := UnmapPage(st, v);
    s.(leaf := SetLeaf(s.leaf, v, VmrPtr(s.base, i)),
       origin := s.origin[v := s.vmrs[i].mapping], dirty := s.dirty - {v})
  }

  /** Fills a page that holds the address of a record, and drops the record's reference. */
  function PopulatePage(files: Files, st: Space, v: int): Option<Space>
    requires 0 <= v < NPAGES && v in st.leaf
  {
    var i := VmrIndex(st.base, st.leaf[v]);
    if !(0 <= i < |st.vmrs|) then None else
    match PageContents(files, st.vmrs[i].mapping, v)
    case None => None
    case Some(page) =>
      Some(st.(mem := st.mem[v := page], vmrs := DecRef(st.vmrs, i),
               leaf := SetLeaf(st.leaf, v, PteCreate(v, st.vmrs[i].prot, true))))
  }

  // ---- the invariant ----

  /** A leaf entry is a valid page table entry or the address of a record. */
  ghost predicate LeafOk(st: Space, v: int)
    requires v in st.leaf
  {
    && 0 <= v < NPAGES && st.leaf[v] != 0
    && (!PteValid(st.leaf[v]) ==>
          && 0 < st.base && 0 <= VmrIndex(st.base, st.leaf[v]) < |st.vmrs|
          && st.leaf[v] == VmrPtr(st.base, VmrIndex(st.base, st.leaf[v])))
  }

  /** What every operation needs, and keeps whatever its arguments are. */
  ghost predicate Core(st: Space) {
    RecordsOk(st) && 0 <= st.lo <= st.hi <= NPAGES && forall v :: v in st.leaf ==> LeafOk(st, v)
  }

  ghost predicate EntryOk(st: Space, v: int)
    requires v in st.leaf
  {
    && LeafOk(st, v)
    && (v in st.origin <==> st.lo <= v < st.hi)
    && (PteValid(st.leaf[v]) ==> v in st.origin ==> PtePpn(st.leaf[v]) == v)
    && (!PteValid(st.leaf[v]) ==> v in st.origin && v !in st.dirty && PointsTo(st, v, VmrIndex(st.base, st.leaf[v])))
  }

  /** A leaf entry that is the address of the record of its own mapping. */
  ghost predicate PointsTo(st: Space, v: int, i: int)
    requires v in st.leaf && v in st.origin
  {
    0 < st.base && 0 <= i < |st.vmrs| && st.leaf[v] == VmrPtr(st.base, i) && st.vmrs[i].mapping == st.origin[v]
  }

  /** Each page with an origin is a mapped user page inside the mapping's range, and if it is
      populated and not written since, it holds the mapping's image. */
  ghost predicate OriginOk(files: Files, st: Space, v: int)
    requires v in st.origin
  {
    && v in st.leaf && Covers(st.origin[v], v) && st.origin[v].length < 0x1_0000_0000_0000_0000
    && (PteValid(st.leaf[v]) && v !in st.dirty ==> v in st.mem && st.mem[v] == Image(files, st.origin[v], v))
  }

  /** Every record's reference count is the number of leaf entries that point to it, as a
      32-bit number; record i may be owed a number of entries still to be written. */
  ghost predicate Counted(st: Space, i: int, owed: int) {
    forall j :: 0 <= j < |st.vmrs| ==> CountIs(st, j, i, owed)
  }

  ghost predicate CountIs(st: Space, j: int, i: int, owed: int)
    requires 0 <= j < |st.vmrs|
  {
    st.vmrs[j].refcnt == U32(Refs(st.leaf, VmrPtr(st.base, j)) + if j == i then owed else 0)
  }

  ghost predicate Inv(files: Files, st: Space, i: int, owed: int) {
    && RecordsOk(st) && 0 <= st.lo <= st.hi <= NPAGES && 0 <= owed
    && (forall v :: 0 <= v < st.lo ==> v in st.leaf)
    && (forall v :: v in st.leaf ==> EntryOk(st, v))
    && (forall v :: v in st.origin ==> OriginOk(files, st, v))
    && (forall v :: v in st.dirty ==> v in st.leaf)
    && Counted(st, i, owed)
  }

  lemma InvCore(files: Files, st: Space, i: int, owed: int)
    requires Inv(files, st, i, owed)
    ensures Core(st) && Counted(st, i, owed)
  {
    forall v | v in st.leaf ensures LeafOk(st, v) {
      assert EntryOk(st, v);
    }
  }

  /** With nothing owed the count is the number of entries itself. */
  lemma ExactCount(st: Space, j: int)
    requires Core(st) && Counted(st, -1, 0) && 0 <= j < |st.vmrs|
    ensures st.vmrs[j].refcnt == Refs(st.leaf, VmrPtr(st.base, j))
  {
    hide Refs;
    assert CountIs(st, j, -1, 0);
    RefsBound(st.leaf, VmrPtr(st.base, j));
  }

  lemma CountDown(x: int)
    ensures U32(U32(x) - 1) == U32(x - 1)
  {
  }

  lemma PtrFacts(base: int, i: int, j: int)
    requires 0 <= base && base % 4096 == 0
    ensures VmrPtr(base, i) == VmrPtr(base, j) <==> i == j
    ensures VmrPtr(base, i) % 2 == 0
  {
    var k := base / 4096;
    assert VmrPtr(base, i) == 2 * (k * 2048 + i * 20);
    EvenNumber(k * 2048 + i * 20);
  }

  lemma EvenNumber(q: int)
    ensures (2 * q) % 2 == 0
  {
  }

  lemma UnmapPageKeeps(files: Files, st: Space, v: int, i: int, owed: int)
    requires Inv(files, st, i, owed) && st.lo <= v
    ensures Inv(files, UnmapPage(st, v), i, owed)
  {
    if v in st.leaf {
      var r := UnmapPage(st, v);
      UnmapCounted(st, v, i, owed);
      assert EntryOk(st, v);
      forall u | u in r.leaf ensures EntryOk(r, u) {
        assert EntryOk(st, u);
      }
      forall u | u in r.origin ensures OriginOk(files, r, u) {
        assert OriginOk(files, st, u);
      }
    }
  }

  lemma UnmapCounted(st: Space, v: int, i: int, owed: int)
    requires RecordsOk(st) && Counted(st, i, owed) && v in st.leaf && LeafOk(st, v)
    ensures Counted(UnmapPage(st, v), i, owed)
  {
    hide CountIs;
    var r := UnmapPage(st, v);
    forall j | 0 <= j < |r.vmrs| ensures CountIs(r, j, i, owed) {
      UnmapCount(st, v, j, i, owed);
    }
  }

  lemma UnmapCount(st: Space, v: int, j: int, i: int, owed: int)
    requires RecordsOk(st) && v in st.leaf && LeafOk(st, v) && 0 <= j < |st.vmrs| && CountIs(st, j, i, owed)
    ensures CountIs(UnmapPage(st, v), j, i, owed)
  {
    hide Refs, U32;
    RefsRemove(st.leaf, v, VmrPtr(st.base, j));
    PtrFacts(st.base, j, VmrIndex(st.base, st.leaf[v]));
    CountDown(Refs(st.leaf, VmrPtr(st.base, j)) + if j == i then owed else 0);
  }

  lemma UnmapCore(st: Space, v: int)
    requires Core(st)
    ensures Core(UnmapPage(st, v))
  {
    var r := UnmapPage(st, v);
    forall u | u in r.leaf ensures LeafOk(r, u) {
      assert LeafOk(st, u);
    }
  }

  lemma MapPageKeeps(files: Files, st: Space, v: int, i: int, owed: int)
    requires Inv(files, st, i, owed) && 0 < owed && 0 < st.base && 0 <= i < MAX_VMR
    requires st.lo <= v < st.hi && Covers(st.vmrs[i].mapping, v)
    requires st.vmrs[i].mapping.length < 0x1_0000_0000_0000_0000
    ensures Inv(files, MapPage(st, v, i), i, owed - 1)
  {
    var s, r := UnmapPage(st, v), MapPage(st, v, i);
    UnmapPageKeeps(files, st, v, i, owed);
    assert v !in s.leaf && s.vmrs[i].mapping == st.vmrs[i].mapping;
    MapCounted(s, v, i, owed);
    SameCounts(s.(leaf := SetLeaf(s.leaf, v, VmrPtr(s.base, i))), r, i, owed - 1);
    PtrFacts(s.base, i, i);
    forall u | u in r.leaf ensures EntryOk(r, u) {
      if u != v {
        assert EntryOk(s, u);
      }
    }
    forall u | u in r.origin ensures OriginOk(files, r, u) {
      if u != v {
        assert OriginOk(files, s, u);
      }
    }
  }

  lemma MapCounted(s: Space, v: int, i: int, owed: int)
    requires RecordsOk(s) && Counted(s, i, owed) && 0 <= i < MAX_VMR && v !in s.leaf
    ensures Counted(s.(leaf := SetLeaf(s.leaf, v, VmrPtr(s.base, i))), i, owed - 1)
  {
    hide CountIs;
    var r, rest := s.(leaf := SetLeaf(s.leaf, v, VmrPtr(s.base, i))), owed - 1;
    forall j | 0 <= j < |s.vmrs| ensures CountIs(r, j, i, rest) {
      MapCount(s, v, j, i, owed);
    }
  }

  lemma MapCount(s: Space, v: int, j: int, i: int, owed: int)
    requires RecordsOk(s) && 0 <= i < MAX_VMR && v !in s.leaf && 0 <= j < |s.vmrs| && CountIs(s, j, i, owed)
    ensures CountIs(s.(leaf := SetLeaf(s.leaf, v, VmrPtr(s.base, i))), j, i, owed - 1)
  {
    hide Refs, U32;
    RefsAdd(s.leaf, v, VmrPtr(s.base, i), VmrPtr(s.base, j));
    PtrFacts(s.base, i, j);
  }

  /** Pointing any page at the record pays one reference, also when the page pointed there before. */
  lemma MapPageCounts(st: Space, v: int, i: int, owed: int)
    requires Core(st) && Counted(st, i, owed) && 0 <= i < MAX_VMR
    ensures Counted(MapPage(st, v, i), i, owed - 1)
  {
    var s, r := UnmapPage(st, v), MapPage(st, v, i);
    if v in st.leaf {
      assert LeafOk(st, v);
      UnmapCounted(st, v, i, owed);
    }
    MapCounted(s, v, i, owed);
    SameCounts(s.(leaf := SetLeaf(s.leaf, v, VmrPtr(s.base, i))), r, i, owed - 1);
  }

  lemma MapPageCore(st: Space, v: int, i: int)
    requires Core(st) && 0 < st.base && 0 <= i < MAX_VMR && 0 <= v < NPAGES
    ensures Core(MapPage(st, v, i))
  {
    var s, r := UnmapPage(st, v), MapPage(st, v, i);
    UnmapCore(st, v);
    PtrFacts(s.base, i, i);
    assert VmrIndex(s.base, VmrPtr(s.base, i)) == i;
    forall u | u in r.leaf ensures LeafOk(r, u) {
      if u != v {
        assert LeafOk(s, u);
      }
    }
  }

  lemma SameCounts(s: Space, r: Space, i: int, owed: int)
    requires Counted(s, i, owed) && s.vmrs == r.vmrs && s.leaf == r.leaf && s.base == r.base
    ensures Counted(r, i, owed)
  {
    forall j | 0 <= j < |r.vmrs| ensures CountIs(r, j, i, owed) {
      assert CountIs(s, j, i, owed);
    }
  }

  lemma PopulatePageKeeps(files: Files, st: Space, v: int, i: int, owed: int)
    requires Inv(files, st, i, owed) && v in st.leaf && !PteValid(st.leaf[v])
    ensures EntryOk(st, v)
    ensures PopulatePage(files, st, v).None? <==> PageContents(files, st.origin[v], v).None?
    ensures PopulatePage(files, st, v).Some? ==>
              var r := PopulatePage(files, st, v).value;
              && Inv(files, r, i, owed) && r.origin == st.origin && r.dirty == st.dirty && PteValid(r.leaf[v])
              && r.leaf.Keys == st.leaf.Keys && r.mem[v] == Image(files, st.origin[v], v)
  {
    assert EntryOk(st, v);
    assert OriginOk(files, st, v);
    PageContentsIsImage(files, st.origin[v], v);
    if PopulatePage(files, st, v).Some? {
      var r := PopulatePage(files, st, v).value;
      var d := VmrIndex(st.base, st.leaf[v]);
      PteCreated(v, st.vmrs[d].prot, true);
      PopulateCounted(st, v, PteCreate(v, st.vmrs[d].prot, true), i, owed);
      SameCounts(st.(vmrs := DecRef(st.vmrs, d), leaf := SetLeaf(st.leaf, v, PteCreate(v, st.vmrs[d].prot, true))),
                 r, i, owed);
      forall u | u in r.leaf ensures EntryOk(r, u) {
        assert EntryOk(st, u);
      }
      forall u | u in r.origin ensures OriginOk(files, r, u) {
        assert OriginOk(files, st, u);
      }
    }
  }

  lemma PopulateCounted(st: Space, v: int, pte: Word, i: int, owed: int)
    requires RecordsOk(st) && Counted(st, i, owed) && v in st.leaf && LeafOk(st, v)
    requires !PteValid(st.leaf[v]) && PteValid(pte)
    ensures var d := VmrIndex(st.base, st.leaf[v]);
            Counted(st.(vmrs := DecRef(st.vmrs, d), leaf := SetLeaf(st.leaf, v, pte)), i, owed)
  {
    hide CountIs, LeafOk, DecRef;
    var d := VmrIndex(st.base, st.leaf[v]);
    var r := st.(vmrs := DecRef(st.vmrs, d), leaf := SetLeaf(st.leaf, v, pte));
    forall j | 0 <= j < |r.vmrs| ensures CountIs(r, j, i, owed) {
      PopulateCount(st, v, pte, j, i, owed);
    }
  }

  lemma PopulateCount(st: Space, v: int, pte: Word, j: int, i: int, owed: int)
    requires RecordsOk(st) && v in st.leaf && LeafOk(st, v) && !PteValid(st.leaf[v]) && PteValid(pte)
    requires 0 <= j < |st.vmrs| && CountIs(st, j, i, owed)
    ensures var d := VmrIndex(st.base, st.leaf[v]);
            CountIs(st.(vmrs := DecRef(st.vmrs, d), leaf := SetLeaf(st.leaf, v, pte)), j, i, owed)
  {
    hide Refs, U32, LeafOk, VmrPtr, DecRef;
    var d := VmrIndex(st.base, st.leaf[v]);
    var r := st.(vmrs := DecRef(st.vmrs, d), leaf := SetLeaf(st.leaf, v, pte));
    var s := UnmapPage(st, v);
    UnmapCount(st, v, j, i, owed);
    assert s.vmrs == r.vmrs && r.leaf == SetLeaf(s.leaf, v, pte);
    RefsAdd(s.leaf, v, pte, VmrPtr(st.base, j));
    PtrFacts(st.base, j, j);
  }

  lemma PopulatePageCounts(files: Files, st: Space, v: int, i: int, owed: int)
    requires Core(st) && Counted(st, i, owed) && v in st.leaf && !PteValid(st.leaf[v]) && 0 <= v < NPAGES
    requires PopulatePage(files, st, v).Some?
    ensures Counted(PopulatePage(files, st, v).value, i, owed)
  {
    assert LeafOk(st, v);
    var r := PopulatePage(files, st, v).value;
    var d := VmrIndex(st.base, st.leaf[v]);
    var pte := PteCreate(v, st.vmrs[d].prot, true);
    PteCreated(v, st.vmrs[d].prot, true);
    PopulateCounted(st, v, pte, i, owed);
    SameCounts(st.(vmrs := DecRef(st.vmrs, d), leaf := SetLeaf(st.leaf, v, pte)), r, i, owed);
  }

  lemma PopulatePageCore(files: Files, st: Space, v: int)
    requires Core(st) && v in st.leaf && 0 <= v < NPAGES && PopulatePage(files, st, v).Some?
    ensures Core(PopulatePage(files, st, v).value)
  {
    hide PteCreate, PageContents;
    var r := PopulatePage(files, st, v).value;
    PteCreated(v, st.vmrs[VmrIndex(st.base, st.leaf[v])].prot, true);
    forall u | u in r.leaf ensures LeafOk(r, u) {
      assert LeafOk(st, u);
    }
  }

  // ---- ranges of pages ----

  function Unmap(st: Space, v: int, n: nat): (r: Space)
    ensures r.base == st.base && |r.vmrs| == |st.vmrs| && r.lo == st.lo
  {
    if n == 0 then st else UnmapPage(Unmap(st, v, n - 1), v + n - 1)
  }

  function MapRange(st: Space, v: int, n: nat, i: int): (r: Space)
    requires RecordsOk(st) && 0 <= i < MAX_VMR
    ensures r.base == st.base && |r.vmrs| == |st.vmrs|
  {
    if n == 0 then st else MapPage(MapRange(st, v, n - 1, i), SlotOf(v + n - 1), i)
  }

  lemma {:induction false} UnmapKeeps(files: Files, st: Space, v: int, n: nat)
    requires Inv(files, st, -1, 0) && st.lo <= v
    ensures Inv(files, Unmap(st, v, n), -1, 0)
  {
    hide Inv, UnmapPage;
    if n > 0 {
      UnmapKeeps(files, st, v, n - 1);
      UnmapPageKeeps(files, Unmap(st, v, n - 1), v + n - 1, -1, 0);
    }
  }

  /** The records keep their mappings and protection, whatever their counts do. */
  ghost predicate SameRecords(s: Space, t: Space) {
    && s.lo == t.lo && s.hi == t.hi && |s.vmrs| == |t.vmrs|
    && forall j :: 0 <= j < |s.vmrs| ==> s.vmrs[j].mapping == t.vmrs[j].mapping && s.vmrs[j].prot == t.vmrs[j].prot
  }

  /** Page u is mapped by record i and not populated. */
  ghost predicate MappedBy(s: Space, u: int, i: int) {
    && u in s.leaf && s.leaf[u] == VmrPtr(s.base, i)
    && 0 <= i < |s.vmrs| && u in s.origin && s.origin[u] == s.vmrs[i].mapping
  }

  lemma MapPageFrame(st: Space, v: int, i: int)
    requires RecordsOk(st) && 0 <= i < MAX_VMR
    ensures SameRecords(MapPage(st, v, i), st) && MappedBy(MapPage(st, v, i), v, i)
    ensures forall u :: u != v && MappedBy(st, u, i) ==> MappedBy(MapPage(st, v, i), u, i)
  {
  }

  lemma {:induction false} MapRangeFrame(st: Space, v: int, n: nat, i: int)
    requires RecordsOk(st) && 0 <= i < MAX_VMR && 0 <= v && v + n <= NPAGES
    ensures SameRecords(MapRange(st, v, n, i), st)
    ensures forall u :: v <= u < v + n ==> MappedBy(MapRange(st, v, n, i), u, i)
  {
    hide MapPage, MappedBy;
    if n > 0 {
      MapRangeFrame(st, v, n - 1, i);
      MapPageFrame(MapRange(st, v, n - 1, i), v + n - 1, i);
    }
  }

  lemma {:induction false} MapRangeKeeps(files: Files, st: Space, v: int, n: nat, i: int, owed: int)
    requires Inv(files, st, i, owed) && n <= owed && 0 < st.base && 0 <= i < MAX_VMR
    requires st.lo <= v && v + n <= st.hi && forall u :: v <= u < v + n ==> Covers(st.vmrs[i].mapping, u)
    requires st.vmrs[i].mapping.length < 0x1_0000_0000_0000_0000
    ensures Inv(files, MapRange(st, v, n, i), i, owed - n)
  {
    hide Inv, MapPage, Covers, MappedBy;
    InvRecords(files, st, i, owed);
    if n > 0 {
      MapRangeKeeps(files, st, v, n - 1, i, owed);
      MapRangeFrame(st, v, n - 1, i);
      MapPageKeeps(files, MapRange(st, v, n - 1, i), v + n - 1, i, owed - (n - 1));
    }
  }

  lemma {:induction false} MapRangeCore(st: Space, v: int, n: nat, i: int)
    requires Core(st) && 0 < st.base && 0 <= i < MAX_VMR
    ensures Core(MapRange(st, v, n, i))
  {
    hide Core, MapPage;
    assert RecordsOk(st) by { CoreRecords(st); }
    if n > 0 {
      MapRangeCore(st, v, n - 1, i);
      MapPageCore(MapRange(st, v, n - 1, i), SlotOf(v + n - 1), i);
    }
  }

  /** Mapping pays one reference per page, wherever the range lies and however often it
      comes round to a slot. */
  lemma {:induction false} MapRangeCounts(st: Space, v: int, n: nat, i: int, owed: int)
    requires Core(st) && Counted(st, i, owed) && 0 < st.base && 0 <= i < MAX_VMR
    ensures Counted(MapRange(st, v, n, i), i, owed - n)
  {
    hide Core, Counted, MapPage;
    assert RecordsOk(st) by { CoreRecords(st); }
    if n > 0 {
      MapRangeCounts(st, v, n - 1, i, owed);
      MapRangeCore(st, v, n - 1, i);
      MapPageCounts(MapRange(st, v, n - 1, i), SlotOf(v + n - 1), i, owed - (n - 1));
    }
  }

  lemma CoreRecords(st: Space)
    requires Core(st)
    ensures RecordsOk(st)
  {
  }

  lemma InvRecords(files: Files, st: Space, i: int, owed: int)
    requires Inv(files, st, i, owed)
    ensures RecordsOk(st) && 0 <= st.lo && st.hi <= NPAGES
  {
  }

  // ---- records ----

  /** The record page is allocated on first use. */
  function InitRecords(st: Space, spare: int): Space {
    if st.base == 0 then st.(base := spare) else st
  }

  function FirstFree(vmrs: seq<Vmr>, k: nat): (i: nat)
    requires k <= |vmrs|
    ensures k <= i <= |vmrs| && (i < |vmrs| ==> vmrs[i].refcnt == 0)
    ensures forall j :: k <= j < i ==> vmrs[j].refcnt != 0
    decreases |vmrs| - k
  {
    if k == |vmrs| || vmrs[k].refcnt == 0 then k else FirstFree(vmrs, k + 1)
  }

  predicate SparePage(spare: int) {
    0 < spare && spare % 4096 == 0 && spare + 4096 < 0x1_0000_0000_0000_0000
  }

  lemma InitRecordsKeeps(files: Files, st: Space, spare: int)
    requires Inv(files, st, -1, 0) && SparePage(spare)
    ensures Inv(files, InitRecords(st, spare), -1, 0) && 0 < InitRecords(st, spare).base
  {
    var r := InitRecords(st, spare);
    InvCore(files, st, -1, 0);
    InitRecordsCounts(st, spare);
    if st.base == 0 {
      forall u | u in r.leaf ensures EntryOk(r, u) {
        assert EntryOk(st, u);
      }
      forall u | u in r.origin ensures OriginOk(files, r, u) {
        assert OriginOk(files, st, u);
      }
    }
  }

  lemma InitRecordsCounts(st: Space, spare: int)
    requires Core(st) && SparePage(spare)
    ensures Core(InitRecords(st, spare)) && 0 < InitRecords(st, spare).base
    ensures Counted(st, -1, 0) ==> Counted(InitRecords(st, spare), -1, 0)
  {
    var r := InitRecords(st, spare);
    if st.base == 0 {
      forall j | Counted(st, -1, 0) && 0 <= j < |r.vmrs|
        ensures CountIs(r, j, -1, 0)
      {
        assert CountIs(st, j, -1, 0);
        NoPointers(st, VmrPtr(0, j));
        NoPointers(st, VmrPtr(spare, j));
        PtrFacts(0, j, j);
        PtrFacts(spare, j, j);
      }
      forall u | u in r.leaf ensures LeafOk(r, u) {
        assert LeafOk(st, u);
      }
    }
  }

  lemma NoPointers(st: Space, w: int)
    requires st.base == 0 && forall v :: v in st.leaf ==> LeafOk(st, v)
    ensures w % 2 == 0 ==> Refs(st.leaf, w) == 0
  {
    if w % 2 == 0 {
      forall v | v in st.leaf ensures st.leaf[v] != w {
        assert LeafOk(st, v);
      }
      assert Holders(st.leaf, w) == {};
    }
  }

  /** A record taken for a new mapping is owed one entry per page. */
  function TakeRecord(st: Space, i: int, m: Mapping, prot: bv32): Space
    requires 0 <= i < |st.vmrs|
  {
    st.(vmrs := st.vmrs[i := Vmr(m, U32(NPages(m.length)), prot)])
  }

  lemma TakeRecordKeeps(files: Files, st: Space, i: int, m: Mapping, prot: bv32)
    requires Inv(files, st, -1, 0) && 0 < st.base && 0 <= i < MAX_VMR && st.vmrs[i].refcnt == 0 && 0 < m.length
    ensures Inv(files, TakeRecord(st, i, m, prot), i, NPages(m.length))
  {
    var r := TakeRecord(st, i, m, prot);
    InvCore(files, st, -1, 0);
    TakeRecordCounts(st, i, m, prot);
    forall u | u in r.leaf ensures EntryOk(r, u) {
      assert EntryOk(st, u);
      FreeUnused(st, i, u);
    }
    forall u | u in r.origin ensures OriginOk(files, r, u) {
      assert OriginOk(files, st, u);
    }
  }

  /** No entry points to a free record. */
  lemma FreeUnused(st: Space, i: int, v: int)
    requires Core(st) && Counted(st, -1, 0) && 0 <= i < |st.vmrs| && st.vmrs[i].refcnt == 0 && v in st.leaf
    ensures st.leaf[v] != VmrPtr(st.base, i)
  {
    hide Refs;
    ExactCount(st, i);
    RefsPositive(st.leaf, v);
  }

  lemma TakeRecordCounts(st: Space, i: int, m: Mapping, prot: bv32)
    requires Core(st) && Counted(st, -1, 0) && 0 <= i < MAX_VMR && st.vmrs[i].refcnt == 0
    ensures Counted(TakeRecord(st, i, m, prot), i, NPages(m.length))
  {
    hide Refs;
    var r := TakeRecord(st, i, m, prot);
    forall j | 0 <= j < |r.vmrs| ensures CountIs(r, j, i, NPages(m.length)) {
      assert CountIs(st, j, -1, 0);
      ExactCount(st, i);
    }
  }

  lemma TakeRecordCore(st: Space, i: int, m: Mapping, prot: bv32)
    requires Core(st) && 0 <= i < MAX_VMR
    ensures Core(TakeRecord(st, i, m, prot))
  {
    var r := TakeRecord(st, i, m, prot);
    forall u | u in r.leaf ensures LeafOk(r, u) {
      assert LeafOk(st, u);
    }
  }

  // ---- operations ----

  /** An operation returns a status, halts on a failed assertion, or loops for ever. */
  datatype Outcome = Done(status: int, st: Space) | Panic | Hang

  /** All set bits among the low n bits of b are set in a. */
  predicate HasBits(a: int, b: int, n: nat)
    decreases n
  {
    n == 0 || (b % 2 <= a % 2 && HasBits(a / 2, b / 2, n - 1))
  }

  predicate PteUR(w: Word) { w % 32 in {5, 7, 9, 11, 13, 15} }
  predicate PteUW(w: Word) { w % 32 in {7, 11, 15} }
  predicate PteUX(w: Word) { w % 32 in {5, 7, 13, 15} }

  function Permits(w: Word, prot: bv32): int {
    if HasBits(w, PteCreate(0, prot, true), 64) then 0 else -1
  }

  /** The page fault handler. */
  function Fault(files: Files, st: Space, v: int, prot: bv32): (o: Outcome)
    ensures !o.Hang?
  {
    if !(0 <= v < NPAGES) || v !in st.leaf || !(st.lo <= v < st.hi) then Done(-1, st)
    else if PteValid(st.leaf[v]) then Done(Permits(st.leaf[v], prot), st)
    else
      match PopulatePage(files, st, v)
      case None => Panic
      case Some(s) => Done(Permits(s.leaf[v], prot), s)
  }

  /** Faults every page of a range in; any failure is fatal. */
  function PopulateRange(files: Files, st: Space, v: int, n: nat, prot: bv32): (o: Outcome)
    ensures !o.Hang?
  {
    if n == 0 then Done(0, st)
    else
      var o := PopulateRange(files, st, v, n - 1, prot);
      if o.Panic? then Panic
      else
        var r := Fault(files, o.st, v + n - 1, prot);
        if r.Done? && r.status == 0 then r else Panic
  }

  /** Where a loop over the pages of a range stops, as a machine word. */
  function LoopEnd(addr: int, length: int): int { (addr + length) % 0x1_0000_0000_0000_0000 }

  /** How many pages it visits: none if the end wraps around. */
  function LoopPages(addr: int, length: int): (n: int)
    ensures 0 <= length ==> 0 <= n
  {
    if addr < LoopEnd(addr, length) then NPages(length) else 0
  }

  /** An end inside the last page is above every page boundary, also after the address wraps. */
  predicate Endless(addr: int, length: int) {
    0xFFFF_FFFF_FFFF_F000 < addr + length < 0x1_0000_0000_0000_0000
  }

  /** The k-th test of the loop over the page addresses from `addr` up to the end. */
  predicate GoesOn(addr: int, length: int, k: nat) {
    (addr + k * 4096) % 0x1_0000_0000_0000_0000 < (addr + length) % 0x1_0000_0000_0000_0000
  }

  predicate Request(addr: int, length: int) {
    addr % 4096 == 0 && 0 <= addr < 0x1_0000_0000_0000_0000 && 0 <= length < 0x1_0000_0000_0000_0000
  }

  /** The loop visits that many pages and stops, or never stops. */
  lemma LoopVisits(addr: int, length: int, k: nat)
    requires Request(addr, length)
    ensures Endless(addr, length) ==> GoesOn(addr, length, k)
    ensures !Endless(addr, length) && k < LoopPages(addr, length) ==> GoesOn(addr, length, k)
    ensures !Endless(addr, length) && k == LoopPages(addr, length) ==> !GoesOn(addr, length, k)
  {
    var a, n := addr / 4096, NPages(length);
    assert addr == a * 4096 && (n - 1) * 4096 <= length - 1 < n * 4096;
    if Endless(addr, length) {
      PageBoundary(a + k);
    } else if k <= LoopPages(addr, length) && addr < LoopEnd(addr, length) {
      assert addr + length == LoopEnd(addr, length) <= 0xFFFF_FFFF_FFFF_F000;
      assert addr + k * 4096 < 0x1_0000_0000_0000_0000;
    }
  }

  lemma PageBoundary(p: int)
    ensures (p * 4096) % 0x1_0000_0000_0000_0000 <= 0xFFFF_FFFF_FFFF_F000
  {
    assert p == p / 0x10_0000_0000_0000 * 0x10_0000_0000_0000 + p % 0x10_0000_0000_0000;
    var q, r := p / 0x10_0000_0000_0000, p % 0x10_0000_0000_0000;
    DivModUnique(p * 4096, 0x1_0000_0000_0000_0000, q, r * 4096);
  }

  /** Maps a range whose address has been chosen. */
  function Mmap(files: Files, st: Space, spare: int, m: Mapping, prot: bv32, populate: bool): Outcome
    requires RecordsOk(st) && SparePage(spare) && 0 < m.length
  {
    var s0 := InitRecords(st, spare);
    var i := FirstFree(s0.vmrs, 0);
    if i == |s0.vmrs| then Done(-1, s0)
    else if Endless(m.addr, m.length) then Hang
    else
      var v, n := m.addr / 4096, LoopPages(m.addr, m.length);
      var s2 := MapRange(TakeRecord(s0, i, m, prot), v, n, i);
      if !populate then Done(m.addr, s2)
      else
        var r := PopulateRange(files, s2, v, n, prot);
        if r.Done? then Done(m.addr, r.st) else Panic
  }

  /** A protection can be narrowed but not widened. */
  predicate EntryRefuses(w: Word, prot: bv32) { ((prot & 2) != 0 && !PteUW(w)) || ((prot & 4) != 0 && !PteUX(w)) }
  predicate RecordRefuses(current: bv32, prot: bv32) { (current ^ prot) & !current != 0 }

  /** The effect of changing the protection of one page. */
  function Protect(st: Space, v: int, prot: bv32): Outcome {
    if v !in st.leaf then Done(-ENOMEM, st)
    else
      var w := st.leaf[v];
      if PteValid(w) then
        if EntryRefuses(w, prot) then Done(-EACCES, st)
        else Done(0, st.(leaf := SetLeaf(st.leaf, v, PteCreate(PtePpn(w), prot, true))))
      else
        var i := VmrIndex(st.base, w);
        if !(0 <= i < |st.vmrs|) then Panic
        else if RecordRefuses(st.vmrs[i].prot, prot) then Done(-EACCES, st)
        else Done(0, st.(vmrs := st.vmrs[i := st.vmrs[i].(prot := prot)]))
  }

  /** A store of the user program to a page it has populated. */
  function Write(st: Space, v: int, page: Page): Space {
    st.(mem := st.mem[v := page], dirty := st.dirty + {v})
  }

  // ---- what the user program can reach ----

  /** A valid entry of a user page maps its own frame; any other valid entry is closed to
      the user program. */
  ghost predicate ClosedAt(st: Space, v: int)
    requires v in st.leaf
  {
    if st.lo <= v < st.hi then PtePpn(st.leaf[v]) == v else !PteUR(st.leaf[v])
  }

  ghost predicate KernelClosed(st: Space) {
    forall v :: v in st.leaf && PteValid(st.leaf[v]) ==> ClosedAt(st, v)
  }
}
