/**
 The three-level Sv39 page table of the proxy kernel, and its refinement of a flat
 map from virtual page numbers to leaf entries.
*/
module PageTable {

  import opened Machine

  const NPAGES: int := 0x800_0000  // 2^27 virtual pages

  /** Table pages by frame number. */
  type Pages = map<int, seq<Word>>

  /** An entry that points to the next table: the frame number above ten flag bits,
      valid, of type table. */
  function PtdCreate(frame: int): Word
    requires 0 <= frame < 0x40_0000_0000_0000
  {
    frame * 1024 + 1
  }

  function PtePpn(w: Word): (p: int)
    ensures 0 <= p < 0x40_0000_0000_0000
  {
    w / 1024
  }

  predicate PteValid(w: Word) { w % 2 == 1 }
  predicate PteTable(w: Word) { w % 32 == 1 || w % 32 == 3 }

  function SetEntry(pages: Pages, t: int, i: int, w: Word): Pages
    requires t in pages && 0 <= i < |pages[t]|
  {
    var page: seq<Word> := pages[t][i := w];
    pages[t := page]
  }

  function PtIdx(vpn: int, level: int): (i: int)
    requires 0 <= vpn < NPAGES && 0 <= level <= 2
    ensures 0 <= i < 512
  {
    if level == 2 then vpn / 0x4_0000 else if level == 1 then (vpn / 512) % 512 else vpn % 512
  }

  /** Each index is nine bits of the page number. */
  lemma PtIdxBits(vpn: int)
    requires 0 <= vpn < NPAGES
    ensures PtIdx(vpn, 2) == vpn / 0x4_0000 && PtIdx(vpn, 1) == vpn / 0x200 % 0x200 && PtIdx(vpn, 0) == vpn % 0x200
    ensures vpn == PtIdx(vpn, 2) * 0x4_0000 + PtIdx(vpn, 1) * 0x200 + PtIdx(vpn, 0)
  {
    assert vpn / 0x4_0000 == vpn / 0x200 / 0x200;
  }

  /** The indices determine the page. */
  lemma PtIdxInjective(v: int, w: int)
    requires 0 <= v < NPAGES && 0 <= w < NPAGES
    requires PtIdx(v, 2) == PtIdx(w, 2) && PtIdx(v, 1) == PtIdx(w, 1)
    ensures v / 512 == w / 512
    ensures PtIdx(v, 0) == PtIdx(w, 0) ==> v == w
  {
    assert v / 512 == (v / 0x4_0000) * 512 + (v / 512) % 512;
    assert w / 512 == (w / 0x4_0000) * 512 + (w / 512) % 512;
  }

  /** The shape of the tree: every table page has one level, and every table but the
      root is pointed to from exactly one slot, one level up. */
  ghost predicate Tree(pages: Pages, root: int, level: map<int, int>, parent: map<int, (int, int)>) {
    && root in pages && pages.Keys == level.Keys && level[root] == 2
    && (forall f :: f in pages ==> |pages[f]| == 512 && 0 <= level[f] <= 2 && 0 <= f < 0x40_0000_0000_0000)
    && (forall f, i :: f in pages && level[f] > 0 && 0 <= i < 512 ==>
         pages[f][i] == 0 || ChildOf(pages, level, parent, f, i))
  }

  ghost predicate ChildOf(pages: Pages, level: map<int, int>, parent: map<int, (int, int)>, f: int, i: int)
    requires f in pages && f in level && 0 <= i < |pages[f]|
  {
    var c := PtePpn(pages[f][i]);
    && c in pages && c in level && c in parent
    && 0 <= c < 0x40_0000_0000_0000 && pages[f][i] == PtdCreate(c)
    && level[c] == level[f] - 1 && parent[c] == (f, i)
  }

  /** The table of the given level on the way to a page, or -1 if the path is not there. */
  ghost function Descend(pages: Pages, f: int, from: int, to: int, vpn: int): int
    requires 0 <= to <= from <= 2 && 0 <= vpn < NPAGES
    decreases from
  {
    if from == to then f
    else if f !in pages || |pages[f]| != 512 || pages[f][PtIdx(vpn, from)] % 2 == 0 then -1
    else Descend(pages, PtePpn(pages[f][PtIdx(vpn, from)]), from - 1, to, vpn)
  }

  /** The leaf entry that a walk finds for a page; zero if there is none. */
  ghost function LeafWord(pages: Pages, root: int, vpn: int): Word
    requires 0 <= vpn < NPAGES
  {
    var t := Descend(pages, root, 2, 0, vpn);
    if t in pages && |pages[t]| == 512 then pages[t][vpn % 512] else 0
  }

  /** The entry that the hardware finds for a page, from the physical page of the root: bits 18
      to 26 of the page number index the root, bits 9 to 17 the second table and bits 0 to 8
      the last; an entry that is not valid ends the walk, one of another type than a table is
      a larger page, and the frame of the next table is above bit 10. */
  ghost function HardwareEntry(pages: Pages, root: int, vpn: int): Word
    requires 0 <= vpn < 0x800_0000
  {
    if root !in pages || |pages[root]| != 512 then 0
    else
      var e2 := pages[root][vpn / 0x4_0000];
      if e2 % 2 == 0 then 0
      else if e2 % 32 != 1 && e2 % 32 != 3 then e2
      else if e2 / 1024 !in pages || |pages[e2 / 1024]| != 512 then 0
      else
        var e1 := pages[e2 / 1024][vpn / 0x200 % 0x200];
        if e1 % 2 == 0 then 0
        else if e1 % 32 != 1 && e1 % 32 != 3 then e1
        else if e1 / 1024 !in pages || |pages[e1 / 1024]| != 512 then 0
        else pages[e1 / 1024][vpn % 0x200]
  }

  /** A walk of the tree finds what the hardware finds. */
  lemma HardwareAgrees(pages: Pages, root: int, level: map<int, int>, parent: map<int, (int, int)>, vpn: int)
    requires Tree(pages, root, level, parent) && 0 <= vpn < NPAGES
    ensures HardwareEntry(pages, root, vpn) == LeafWord(pages, root, vpn)
  {
    PtIdxBits(vpn);
    var i, j := PtIdx(vpn, 2), PtIdx(vpn, 1);
    var e2 := pages[root][i];
    if e2 != 0 {
      assert ChildOf(pages, level, parent, root, i);
      var c := PtePpn(e2);
      PtdValid(c);
      var e1 := pages[c][j];
      if e1 != 0 {
        assert ChildOf(pages, level, parent, c, j);
        PtdValid(PtePpn(e1));
      }
    }
  }

  lemma {:induction false} DescendLevel(pages: Pages, root: int, level: map<int, int>, parent: map<int, (int,
                                        int)>, f: int, from: int, to: int, vpn: int)
    requires Tree(pages, root, level, parent) && 0 <= to <= from <= 2 && 0 <= vpn < NPAGES
    requires f in pages && level[f] == from
    ensures var t := Descend(pages, f, from, to, vpn); t == -1 || (t in pages && level[t] == to)
    decreases from
  {
    if from > to && pages[f][PtIdx(vpn, from)] % 2 == 1 {
      assert ChildOf(pages, level, parent, f, PtIdx(vpn, from));
      DescendLevel(pages, root, level, parent, PtePpn(pages[f][PtIdx(vpn, from)]), from - 1, to, vpn);
    }
  }

  /** The middle table on a complete path, and the slots the path takes. */
  lemma ParentOf(pages: Pages, root: int, level: map<int, int>, parent: map<int, (int, int)>, v: int) returns (c: int)
    requires Tree(pages, root, level, parent) && 0 <= v < NPAGES && Descend(pages, root, 2, 0, v) != -1
    ensures c in parent && parent[c] == (root, PtIdx(v, 2))
    ensures var t := Descend(pages, root, 2, 0, v); t in parent && parent[t] == (c, PtIdx(v, 1))
  {
    hide PtIdx, PtePpn, PtdCreate;
    c := PtePpn(pages[root][PtIdx(v, 2)]);
    assert Descend(pages, root, 2, 0, v) == Descend(pages, c, 1, 0, v);
    assert ChildOf(pages, level, parent, root, PtIdx(v, 2));
    assert ChildOf(pages, level, parent, c, PtIdx(v, 1));
  }

  /** Two pages that meet in one leaf table share all but the last index. */
  lemma SameLeafTable(pages: Pages, root: int, level: map<int, int>, parent: map<int, (int, int)>, v: int, w: int)
    requires Tree(pages, root, level, parent) && 0 <= v < NPAGES && 0 <= w < NPAGES
    requires Descend(pages, root, 2, 0, v) == Descend(pages, root, 2, 0, w) != -1
    ensures v / 512 == w / 512
  {
    hide PtIdx, PtePpn, PtdCreate, Descend;
    var t := Descend(pages, root, 2, 0, v);
    var v1 := ParentOf(pages, root, level, parent, v);
    var w1 := ParentOf(pages, root, level, parent, w);
    assert v1 == w1 == parent[t].0;
    PtIdxInjective(v, w);
  }

  /** One more level down the path. */
  lemma DescendStep(pages: Pages, root: int, level: map<int, int>, parent: map<int, (int, int)>, to: int, vpn: int)
    requires Tree(pages, root, level, parent) && 0 < to <= 2 && 0 <= vpn < NPAGES
    requires Descend(pages, root, 2, to, vpn) != -1
    ensures var t := Descend(pages, root, 2, to, vpn);
            && t in pages && level[t] == to && |pages[t]| == 512
            && Descend(pages, root, 2, to - 1, vpn)
               == if pages[t][PtIdx(vpn, to)] % 2 == 0 then -1 else PtePpn(pages[t][PtIdx(vpn, to)])
  {
    DescendLevel(pages, root, level, parent, root, 2, to, vpn);
    if to == 1 {
      var c := PtePpn(pages[root][PtIdx(vpn, 2)]);
      assert Descend(pages, root, 2, 1, vpn) == Descend(pages, c, 1, 1, vpn) == c;
      assert Descend(pages, root, 2, 0, vpn) == Descend(pages, c, 1, 0, vpn);
    }
  }

  /** Hanging an empty table into an empty slot keeps the tree. */
  lemma AddTableTree(pages: Pages, root: int, level: map<int, int>, parent: map<int, (int, int)>, f: int, i: int,
                     p: int, zero: seq<Word>)
    requires Tree(pages, root, level, parent) && f in pages && 0 < level[f] && 0 <= i < 512 && pages[f][i] == 0
    requires p !in pages && 0 <= p < 0x40_0000_0000_0000
    requires |zero| == 512 && forall k :: 0 <= k < 512 ==> zero[k] == 0
    ensures Tree(SetEntry(pages[p := zero], f, i, PtdCreate(p)), root, level[p := level[f] - 1], parent[p := (f, i)])
  {
    var pages', level', parent' := SetEntry(pages[p := zero], f, i, PtdCreate(p)),
        level[p := level[f] - 1], parent[p := (f, i)];
    forall g, k | g in pages' && level'[g] > 0 && 0 <= k < 512
      ensures pages'[g][k] == 0 || ChildOf(pages', level', parent', g, k)
    {
      if g != p && (g, k) != (f, i) {
        assert pages'[g][k] == pages[g][k];
        assert pages[g][k] == 0 || ChildOf(pages, level, parent, g, k);
      }
    }
  }

  /** The walk to a leaf, spelled out level by level. */
  lemma LeafWordIs(pages: Pages, root: int, level: map<int, int>, parent: map<int, (int, int)>, v: int)
    requires Tree(pages, root, level, parent) && 0 <= v < NPAGES
    ensures pages[root][PtIdx(v, 2)] == 0 ==> LeafWord(pages, root, v) == 0
    ensures pages[root][PtIdx(v, 2)] != 0 ==> ChildOf(pages, level, parent, root, PtIdx(v, 2))
    ensures pages[root][PtIdx(v, 2)] != 0 ==>
              var c := PtePpn(pages[root][PtIdx(v, 2)]);
              && (pages[c][PtIdx(v, 1)] == 0 ==> LeafWord(pages, root, v) == 0)
              && (pages[c][PtIdx(v, 1)] != 0 ==>
                    && ChildOf(pages, level, parent, c, PtIdx(v, 1))
                    && LeafWord(pages, root, v) == pages[PtePpn(pages[c][PtIdx(v, 1)])][v % 512])
  {
    assert Descend(pages, root, 2, 0, v) ==
      if pages[root][PtIdx(v, 2)] % 2 == 0 then -1
      else Descend(pages, PtePpn(pages[root][PtIdx(v, 2)]), 1, 0, v);
    if pages[root][PtIdx(v, 2)] != 0 {
      assert ChildOf(pages, level, parent, root, PtIdx(v, 2));
      var c := PtePpn(pages[root][PtIdx(v, 2)]);
      assert Descend(pages, c, 1, 0, v) == if pages[c][PtIdx(v, 1)] % 2 == 0 then -1 else PtePpn(pages[c][PtIdx(v, 1)]);
      if pages[c][PtIdx(v, 1)] != 0 {
        assert ChildOf(pages, level, parent, c, PtIdx(v, 1));
      }
    }
  }

  /** Creating a table on the way to one page changes the entry of no page. */
  lemma AddTableLeaf(pages: Pages, root: int, level: map<int, int>, parent: map<int, (int, int)>, f: int, i: int,
                     p: int, zero: seq<Word>, v: int)
    requires Tree(pages, root, level, parent) && f in pages && 0 < level[f] && 0 <= i < 512 && pages[f][i] == 0
    requires p !in pages && 0 <= p < 0x40_0000_0000_0000 && 0 <= v < NPAGES
    requires |zero| == 512 && forall k :: 0 <= k < 512 ==> zero[k] == 0
    ensures LeafWord(SetEntry(pages[p := zero], f, i, PtdCreate(p)), root, v) == LeafWord(pages, root, v)
  {
    hide LeafWord, Descend;
    var pages', level', parent' := SetEntry(pages[p := zero], f, i, PtdCreate(p)),
        level[p := level[f] - 1], parent[p := (f, i)];
    AddTableTree(pages, root, level, parent, f, i, p, zero);
    LeafWordIs(pages, root, level, parent, v);
    LeafWordIs(pages', root, level', parent', v);
    if f == root && i == PtIdx(v, 2) {
      assert PtePpn(pages'[root][PtIdx(v, 2)]) == p;
    } else if pages[root][PtIdx(v, 2)] != 0 {
      var c := PtePpn(pages[root][PtIdx(v, 2)]);
      assert pages'[root][PtIdx(v, 2)] == pages[root][PtIdx(v, 2)];
      if f == c && i == PtIdx(v, 1) {
        assert PtePpn(pages'[c][PtIdx(v, 1)]) == p;
      } else {
        assert pages'[c][PtIdx(v, 1)] == pages[c][PtIdx(v, 1)];
      }
    }
  }

  /** Distinct pages have distinct leaf slots: a write to the slot of one page is seen at
      that page and at no other. */
  lemma WriteLeaf(pages: Pages, root: int, level: map<int, int>, parent: map<int, (int, int)>, v: int, w: Word, u: int)
    requires Tree(pages, root, level, parent) && 0 <= v < NPAGES && 0 <= u < NPAGES
    requires Descend(pages, root, 2, 0, v) != -1
    ensures var t := Descend(pages, root, 2, 0, v);
            && t in pages && level[t] == 0 && |pages[t]| == 512
            && Tree(SetEntry(pages, t, v % 512, w), root, level, parent)
            && LeafWord(SetEntry(pages, t, v % 512, w), root, u) == if u == v then w else LeafWord(pages, root, u)
  {
    DescendLevel(pages, root, level, parent, root, 2, 0, v);
    DescendLevel(pages, root, level, parent, root, 2, 0, u);
    var t := Descend(pages, root, 2, 0, v);
    var pages' := SetEntry(pages, t, v % 512, w);
    WriteLeafTree(pages, root, level, parent, t, v % 512, w);
    SamePath(pages, pages', root, level, parent, t, u);
    if u != v && Descend(pages, root, 2, 0, u) == t {
      SameLeafTable(pages, root, level, parent, u, v);
      assert u % 512 != v % 512;
    }
  }

  lemma WriteLeafTree(pages: Pages, root: int, level: map<int, int>, parent: map<int, (int, int)>, t: int, i: int,
                      w: Word)
    requires Tree(pages, root, level, parent) && t in pages && level[t] == 0 && 0 <= i < 512
    ensures Tree(SetEntry(pages, t, i, w), root, level, parent)
  {
    var pages' := SetEntry(pages, t, i, w);
    forall g, k | g in pages' && level[g] > 0 && 0 <= k < 512
      ensures pages'[g][k] == 0 || ChildOf(pages', level, parent, g, k)
    {
      assert pages'[g][k] == pages[g][k];
      assert pages[g][k] == 0 || ChildOf(pages, level, parent, g, k);
    }
  }

  /** The path to a page only reads tables above the leaves. */
  lemma SamePath(pages: Pages, pages': Pages, root: int, level: map<int, int>, parent: map<int, (int, int)>,
                 t: int, u: int)
    requires Tree(pages, root, level, parent) && Tree(pages', root, level, parent) && 0 <= u < NPAGES
    requires t in pages && level[t] == 0 && forall f :: f in pages && f != t ==> pages'[f] == pages[f]
    ensures Descend(pages', root, 2, 0, u) == Descend(pages, root, 2, 0, u)
  {
    if pages[root][PtIdx(u, 2)] % 2 == 1 {
      assert ChildOf(pages, level, parent, root, PtIdx(u, 2));
      var c := PtePpn(pages[root][PtIdx(u, 2)]);
      assert Descend(pages, root, 2, 0, u) == Descend(pages, c, 1, 0, u);
      assert Descend(pages', root, 2, 0, u) == Descend(pages', c, 1, 0, u);
    }
  }

  /** Creating a table leaves every complete path where it was. */
  lemma AddTablePath(pages: Pages, root: int, level: map<int, int>, parent: map<int, (int, int)>, f: int, i: int,
                     p: int, zero: seq<Word>, u: int)
    requires Tree(pages, root, level, parent) && f in pages && 0 < level[f] && 0 <= i < 512 && pages[f][i] == 0
    requires p !in pages && 0 <= p < 0x40_0000_0000_0000 && 0 <= u < NPAGES && |zero| == 512
    requires Descend(pages, root, 2, 0, u) != -1
    ensures Descend(SetEntry(pages[p := zero], f, i, PtdCreate(p)), root, 2, 0, u) == Descend(pages, root, 2, 0, u)
  {
    var pages' := SetEntry(pages[p := zero], f, i, PtdCreate(p));
    assert ChildOf(pages, level, parent, root, PtIdx(u, 2));
    var c := PtePpn(pages[root][PtIdx(u, 2)]);
    assert Descend(pages, root, 2, 0, u) == Descend(pages, c, 1, 0, u);
    assert Descend(pages', root, 2, 0, u) == Descend(pages', c, 1, 0, u);
    assert pages[c][PtIdx(u, 1)] % 2 == 1;
    assert pages'[c][PtIdx(u, 1)] == pages[c][PtIdx(u, 1)];
  }

  /** Every complete path of the old tables is a path of the new ones. */
  ghost predicate Extends(pages': Pages, pages: Pages, root: int) {
    forall u :: 0 <= u < NPAGES && Descend(pages, root, 2, 0, u) != -1 ==>
      Descend(pages', root, 2, 0, u) == Descend(pages, root, 2, 0, u)
  }

  /** A flat map that holds exactly the nonzero leaf entries. */
  ghost predicate Flattens(flat: map<int, Word>, pages: Pages, root: int) {
    && (forall v :: v in flat ==> 0 <= v < NPAGES && flat[v] != 0)
    && (forall v :: 0 <= v < NPAGES ==> LeafWord(pages, root, v) == if v in flat then flat[v] else 0)
  }

  /** What a walk finds: a leaf slot, no leaf table, or no free page to make one. */
  datatype Walked = Slot(frame: int, idx: int) | Missing | Halted

  class RadixTable {
    var root: int  // frame of the root table, zero before it exists
    var pages: Pages
    const firstFree: int
    const freePages: int
    var nextFree: int
    ghost var level: map<int, int>
    ghost var parent: map<int, (int, int)>
    ghost var flat: map<int, Word>

    ghost predicate Valid()
      reads this
    {
      && 0 < firstFree && 0 <= nextFree <= freePages && firstFree + freePages < 0x10_0000_0000_0000
      && (forall f :: f in pages ==> firstFree <= f < firstFree + nextFree)
      && (root == 0 ==> pages == map[] && flat == map[])
      && (root != 0 ==> Tree(pages, root, level, parent) && Flattens(flat, pages, root))
    }

    /** The slot is the place of the page's leaf entry. */
    ghost predicate IsSlot(s: Walked, vpn: int)
      requires 0 <= vpn < NPAGES
      reads this
    {
      && s.Slot? && root != 0 && s.frame == Descend(pages, root, 2, 0, vpn) != -1 && s.idx == vpn % 512
    }

    constructor (first: int, count: int)
      requires 0 < first && 0 <= count && first + count < 0x10_0000_0000_0000
      ensures Valid() && flat == map[] && root == 0 && firstFree == first && freePages == count
    {
      root, pages, firstFree, freePages, nextFree := 0, map[], first, count, 0;
      level, parent, flat := map[], map[], map[];
    }

    /** Hands out the next free page; there may be none left. */
    method PageAlloc() returns (frame: int, page: seq<Word>)
      requires Valid()
      modifies `nextFree
      ensures Valid() && flat == old(flat)
      ensures frame == -1 <==> old(nextFree) == freePages
      ensures frame == -1 ==> nextFree == old(nextFree)
      ensures frame != -1 ==> frame == firstFree + old(nextFree) && frame !in pages && nextFree == old(nextFree) + 1
      ensures frame != -1 ==> |page| == 512 && forall i :: 0 <= i < 512 ==> page[i] == 0
    {
      if nextFree == freePages {
        return -1, [];
      }
      frame, page := firstFree + nextFree, ZeroPage();
      nextFree := nextFree + 1;
    }

    method MaybeCreateRoot() returns (ok: bool)
      requires Valid()
      modifies this
      ensures Valid() && flat == old(flat)
      ensures ok <==> root != 0
      ensures !ok ==> nextFree == freePages
      ensures old(root) != 0 ==> nextFree == old(nextFree)
      ensures old(root) != 0 ==>
                root == old(root) && pages == old(pages) && level == old(level) && parent == old(parent)
    {
      if root != 0 {
        return true;
      }
      var frame, page := PageAlloc();
      if frame == -1 {
        return false;
      }
      ZeroPageIs(page);
      root, pages := frame, map[frame := page];
      level, parent := map[frame := 2], map[];
      EmptyRoot(pages, root, level, parent);
      return true;
    }

    /** Allocates a zeroed table for the empty slot where the path to a page ends. */
    method CreateTable(t: int, to: int, vpn: int) returns (ok: bool)
      requires Valid() && root != 0 && 0 <= vpn < NPAGES && 0 < to <= 2
      requires t == Descend(pages, root, 2, to, vpn) && t in pages && level[t] == to && pages[t][PtIdx(vpn, to)] == 0
      modifies this
      ensures Valid() && flat == old(flat) && root == old(root) && Extends(pages, old(pages), root)
      ensures t in pages && Descend(pages, root, 2, to, vpn) == t
      ensures ok ==> |pages[t]| == 512 && pages[t][PtIdx(vpn, to)] % 2 == 1
      ensures !ok ==> nextFree == freePages
    {
      hide Descend, LeafWord, Tree, Flattens, Extends, SetEntry, PtIdx, PtdCreate, ZeroPage;
      var frame, page := PageAlloc();
      if frame == -1 {
        SelfExtends(pages, root);
        return false;
      }
      assert page == ZeroPage() by { ZeroPageIs(page); }
      AddTable(pages, root, level, parent, to, vpn, frame, flat);
      level, parent := level[frame := to - 1], parent[frame := (t, PtIdx(vpn, to))];
      pages := SetEntry(pages[frame := page], t, PtIdx(vpn, to), PtdCreate(frame));
      return true;
    }

    /** Follows the path to a page's leaf entry, creating missing tables when asked to. */
    method Walk(vpn: int, create: bool) returns (s: Walked)
      requires Valid() && 0 <= vpn < NPAGES
      modifies this
      ensures Valid() && flat == old(flat)
      ensures old(root) != 0 ==> root == old(root) && Extends(pages, old(pages), root)
      ensures !create && old(root) != 0 ==> pages == old(pages) && nextFree == old(nextFree)
      ensures s.Slot? ==> IsSlot(s, vpn)
      ensures s.Missing? ==> !create && vpn !in flat
      ensures s.Halted? ==> nextFree == freePages && (create || old(root) == 0)
      ensures root == 0 ==> s.Halted?
    {
      hide Descend, LeafWord, Tree, Flattens, Extends, PtIdx;
      var ok := MaybeCreateRoot();
      if !ok {
        return Halted;
      }
      ghost var pages0 := pages;
      SelfExtends(pages, root);
      var t, i := root, 2;
      PathStart(pages, root, level, parent, vpn);
      while i > 0
        invariant 0 <= i <= 2 && Valid() && flat == old(flat) && root != 0
        invariant old(root) != 0 ==> root == old(root) && pages0 == old(pages)
        invariant Extends(pages, pages0, root)
        invariant !create && old(root) != 0 ==> pages == old(pages) && nextFree == old(nextFree)
        invariant t == Descend(pages, root, 2, i, vpn) != -1
      {
        PathStep(pages, root, level, parent, i, vpn, flat);
        if !PteValid(pages[t][PtIdx(vpn, i)]) {
          if !create {
            return Missing;
          }
          ghost var before := pages;
          ok := CreateTable(t, i, vpn);
          ExtendsTransitive(pages, before, pages0, root);
          if !ok {
            return Halted;
          }
          PathStep(pages, root, level, parent, i, vpn, flat);
        } else {
          assert PteTable(pages[t][PtIdx(vpn, i)]);
        }
        t := PtePpn(pages[t][PtIdx(vpn, i)]);
        i := i - 1;
      }
      return Slot(t, vpn % 512);
    }

    /** The flat map is what the hardware sees. */
    lemma HardwareSees(vpn: int)
      requires Valid() && root != 0 && 0 <= vpn < NPAGES
      ensures HardwareEntry(pages, root, vpn) == if vpn in flat then flat[vpn] else 0
    {
      HardwareAgrees(pages, root, level, parent, vpn);
    }

    /** Reads a leaf entry. */
    method Load(s: Walked, ghost vpn: int) returns (w: Word)
      requires Valid() && 0 <= vpn < NPAGES && IsSlot(s, vpn)
      ensures w == if vpn in flat then flat[vpn] else 0
    {
      WriteLeaf(pages, root, level, parent, vpn, 0, vpn);
      w := pages[s.frame][s.idx];
    }

    /** Writes a leaf entry: the flat map changes at that page and nowhere else. */
    method Store(s: Walked, w: Word, ghost vpn: int)
      requires Valid() && 0 <= vpn < NPAGES && IsSlot(s, vpn)
      modifies `pages, `flat
      ensures Valid() && Extends(pages, old(pages), root)
      ensures flat == if w == 0 then old(flat) - {vpn} else old(flat)[vpn := w]
    {
      hide Descend, LeafWord, Tree, Flattens, Extends, SetEntry;
      StoreLeaf(pages, root, level, parent, vpn, w, flat);
      pages := SetEntry(pages, s.frame, s.idx, w);
      flat := if w == 0 then flat - {vpn} else flat[vpn := w];
    }
  }

  lemma StoreLeaf(pages: Pages, root: int, level: map<int, int>, parent: map<int, (int, int)>, v: int, w: Word,
                  flat: map<int, Word>)
    requires Tree(pages, root, level, parent) && Flattens(flat, pages, root) && 0 <= v < NPAGES
    requires Descend(pages, root, 2, 0, v) != -1
    ensures var t := Descend(pages, root, 2, 0, v);
            && t in pages && |pages[t]| == 512
            && var pages' := SetEntry(pages, t, v % 512, w);
            && Tree(pages', root, level, parent) && pages'.Keys == pages.Keys
            && Flattens(if w == 0 then flat - {v} else flat[v := w], pages', root)
            && Extends(pages', pages, root)
  {
    hide Descend, LeafWord;
    var t := Descend(pages, root, 2, 0, v);
    WriteLeaf(pages, root, level, parent, v, w, v);
    var pages' := SetEntry(pages, t, v % 512, w);
    forall u | 0 <= u < NPAGES
      ensures LeafWord(pages', root, u) == if u == v then w else LeafWord(pages, root, u)
      ensures Descend(pages', root, 2, 0, u) == Descend(pages, root, 2, 0, u)
    {
      WriteLeaf(pages, root, level, parent, v, w, u);
      SamePath(pages, pages', root, level, parent, t, u);
    }
  }

  /** Distinct pages have distinct slots. */
  lemma DistinctSlots(pages: Pages, root: int, level: map<int, int>, parent: map<int, (int, int)>, v: int, u: int)
    requires Tree(pages, root, level, parent) && 0 <= v < NPAGES && 0 <= u < NPAGES && v != u
    requires Descend(pages, root, 2, 0, v) != -1 && Descend(pages, root, 2, 0, u) != -1
    ensures (Descend(pages, root, 2, 0, v), v % 512) != (Descend(pages, root, 2, 0, u), u % 512)
  {
    if Descend(pages, root, 2, 0, v) == Descend(pages, root, 2, 0, u) {
      SameLeafTable(pages, root, level, parent, v, u);
    }
  }

  lemma PathStart(pages: Pages, root: int, level: map<int, int>, parent: map<int, (int, int)>, vpn: int)
    requires Tree(pages, root, level, parent) && 0 <= vpn < NPAGES
    ensures Descend(pages, root, 2, 2, vpn) == root >= 0
  {
  }

  lemma PathStep(pages: Pages, root: int, level: map<int, int>, parent: map<int, (int, int)>, to: int, vpn: int,
                 flat: map<int, Word>)
    requires Tree(pages, root, level, parent) && Flattens(flat, pages, root) && 0 < to <= 2 && 0 <= vpn < NPAGES
    requires Descend(pages, root, 2, to, vpn) != -1
    ensures var t := Descend(pages, root, 2, to, vpn);
            && t in pages && t in level && level[t] == to && |pages[t]| == 512
            && (PteValid(pages[t][PtIdx(vpn, to)]) ==>
                  && PteTable(pages[t][PtIdx(vpn, to)])
                  && Descend(pages, root, 2, to - 1, vpn) == PtePpn(pages[t][PtIdx(vpn, to)]) >= 0)
            && (!PteValid(pages[t][PtIdx(vpn, to)]) ==> pages[t][PtIdx(vpn, to)] == 0 && vpn !in flat)
  {
    hide PtIdx, PtePpn;
    DescendStep(pages, root, level, parent, to, vpn);
    var t := Descend(pages, root, 2, to, vpn);
    var w := pages[t][PtIdx(vpn, to)];
    if w != 0 {
      assert ChildOf(pages, level, parent, t, PtIdx(vpn, to));
      PtdValid(PtePpn(w));
    } else {
      LeafWordIs(pages, root, level, parent, vpn);
      assert to == 2 ==> t == root;
      assert to == 1 ==> t == PtePpn(pages[root][PtIdx(vpn, 2)]);
    }
  }

  lemma ExtendsTransitive(c: Pages, b: Pages, a: Pages, root: int)
    requires Extends(c, b, root) && Extends(b, a, root)
    ensures Extends(c, a, root)
  {
  }

  lemma PtdValid(p: int)
    requires 0 <= p < 0x40_0000_0000_0000
    ensures PteValid(PtdCreate(p)) && PteTable(PtdCreate(p)) && PtePpn(PtdCreate(p)) == p
  {
    OddNumber(p * 512);
    LowFive(p * 32);
  }

  lemma LowFive(q: int)
    ensures (32 * q + 1) % 32 == 1
  {
  }

  lemma OddNumber(q: int)
    ensures (2 * q + 1) % 2 == 1
  {
  }

  lemma SelfExtends(pages: Pages, root: int)
    ensures Extends(pages, pages, root)
  {
  }

  lemma AddTable(pages: Pages, root: int, level: map<int, int>, parent: map<int, (int, int)>, to: int, vpn: int,
                 p: int, flat: map<int, Word>)
    requires Tree(pages, root, level, parent) && Flattens(flat, pages, root) && 0 <= vpn < NPAGES && 0 < to <= 2
    requires p !in pages && 0 <= p < 0x40_0000_0000_0000
    requires var t := Descend(pages, root, 2, to, vpn); t in pages && level[t] == to && pages[t][PtIdx(vpn, to)] == 0
    ensures var t := Descend(pages, root, 2, to, vpn);
            var pages' := SetEntry(pages[p := ZeroPage()], t, PtIdx(vpn, to), PtdCreate(p));
            && |pages[t]| == 512
            && Tree(pages', root, level[p := to - 1], parent[p := (t, PtIdx(vpn, to))])
            && Flattens(flat, pages', root) && Extends(pages', pages, root)
            && Descend(pages', root, 2, to, vpn) == t
            && pages'.Keys == pages.Keys + {p} && |pages'[t]| == 512 && pages'[t][PtIdx(vpn, to)] % 2 == 1
  {
    hide PtdCreate, PtIdx, LeafWord, ZeroPage;
    var t, i := Descend(pages, root, 2, to, vpn), PtIdx(vpn, to);
    var pages' := SetEntry(pages[p := ZeroPage()], t, i, PtdCreate(p));
    PtdValid(p);
    AddTableTree(pages, root, level, parent, t, i, p, ZeroPage());
    forall v | 0 <= v < NPAGES ensures LeafWord(pages', root, v) == LeafWord(pages, root, v) {
      AddTableLeaf(pages, root, level, parent, t, i, p, ZeroPage(), v);
    }
    forall u | 0 <= u < NPAGES && Descend(pages, root, 2, 0, u) != -1
      ensures Descend(pages', root, 2, 0, u) == Descend(pages, root, 2, 0, u)
    {
      AddTablePath(pages, root, level, parent, t, i, p, ZeroPage(), u);
    }
  }

  function ZeroPage(): (z: seq<Word>)
    ensures |z| == 512 && forall k :: 0 <= k < 512 ==> z[k] == 0
  {
    seq(512, _ => 0 as Word)
  }

  lemma ZeroPageIs(page: seq<Word>)
    requires |page| == 512 && forall i :: 0 <= i < 512 ==> page[i] == 0
    ensures page == ZeroPage()
  {
  }

  lemma EmptyRoot(pages: Pages, root: int, level: map<int, int>, parent: map<int, (int, int)>)
    requires 0 <= root < 0x40_0000_0000_0000 && pages == map[root := ZeroPage()] && level == map[root := 2]
    ensures Tree(pages, root, level, parent) && Flattens(map[], pages, root)
  {
    forall v | 0 <= v < NPAGES ensures LeafWord(pages, root, v) == 0 {
      LeafWordIs(pages, root, level, parent, v);
    }
  }
}
