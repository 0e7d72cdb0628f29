/**
 Access to the target's memory in aligned chunks: unaligned reads and writes against a
 sparse store of rows, and the flat byte array they amount to.
*/
module Memif {

  import opened Machine
  import opened Powers

  function Zeros(n: nat): (z: seq<Byte>)
    ensures |z| == n
  {
    seq(n, _ => 0)
  }

  /** The array with some bytes replaced from a position on. */
  function Patch(s: seq<Byte>, at: nat, b: seq<Byte>): (r: seq<Byte>)
    requires at + |b| <= |s|
    ensures |r| == |s|
  {
    s[..at] + b + s[at + |b|..]
  }

  /** Patches that follow each other are one patch. */
  lemma PatchJoin(s: seq<Byte>, at: nat, a: seq<Byte>, b: seq<Byte>)
    requires at + |a| + |b| <= |s|
    ensures Patch(Patch(s, at, a), at + |a|, b) == Patch(s, at, a + b)
    ensures Patch(Patch(s, at + |a|, b), at, a) == Patch(s, at, a + b)
  {
  }

  /** Replacing a range by a patched copy of itself patches it in place. */
  lemma PatchInside(s: seq<Byte>, base: nat, n: nat, at: nat, b: seq<Byte>)
    requires base + n <= |s| && at + |b| <= n
    ensures Patch(s, base, Patch(s[base..base + n], at, b)) == Patch(s, base + at, b)
  {
  }

  type Rows = map<int, seq<Byte>>

  function Row(rows: Rows, width: nat, r: int): seq<Byte> {
    if r in rows then rows[r] else Zeros(width)
  }

  /** The rows below n, one after the other; absent rows are zero. */
  ghost function Content(rows: Rows, width: nat, n: nat): seq<Byte> {
    if n == 0 then [] else Content(rows, width, n - 1) + Row(rows, width, n - 1)
  }

  ghost predicate RowsOk(rows: Rows, width: nat) {
    forall r :: r in rows ==> |rows[r]| == width
  }

  lemma {:induction false} ContentLength(rows: Rows, width: nat, n: nat)
    requires RowsOk(rows, width)
    ensures |Content(rows, width, n)| == n * width
  {
    if n > 0 {
      ContentLength(rows, width, n - 1);
      assert n * width == (n - 1) * width + width;
    }
  }

  lemma {:induction false} RowSlice(rows: Rows, width: nat, n: nat, r: nat, at: nat)
    requires RowsOk(rows, width) && r < n && at == r * width
    ensures at + width <= |Content(rows, width, n)|
    ensures Content(rows, width, n)[at..at + width] == Row(rows, width, r)
  {
    var c, last := Content(rows, width, n - 1), Row(rows, width, n - 1);
    assert |c| == (n - 1) * width by {
      ContentLength(rows, width, n - 1);
    }
    if r == n - 1 {
      SliceEnd(c, last);
    } else {
      RowSlice(rows, width, n - 1, r, at);
      SliceFront(c, last, at, width);
    }
  }

  lemma SliceOfSlice(s: seq<Byte>, base: nat, w: nat, off: nat, n: nat)
    requires base + w <= |s| && off + n <= w
    ensures s[base..base + w][off..off + n] == s[base + off..base + off + n]
  {
    var a, b := s[base..base + w][off..off + n], s[base + off..base + off + n];
    assert forall i :: 0 <= i < n ==> a[i] == s[base + off + i] == b[i];
  }

  lemma SliceEnd(c: seq<Byte>, last: seq<Byte>)
    ensures (c + last)[|c|..|c| + |last|] == last
  {
  }

  lemma SliceFront(c: seq<Byte>, last: seq<Byte>, at: nat, n: nat)
    requires at + n <= |c|
    ensures (c + last)[at..at + n] == c[at..at + n]
  {
  }

  lemma {:induction false} SetRow(rows: Rows, width: nat, n: nat, r: nat, at: nat, row: seq<Byte>)
    requires RowsOk(rows, width) && r < n && at == r * width && |row| == width
    ensures RowsOk(rows[r := row], width) && at + width <= |Content(rows, width, n)|
    ensures Content(rows[r := row], width, n) == Patch(Content(rows, width, n), at, row)
  {
    hide Patch;
    var c, last := Content(rows, width, n - 1), Row(rows, width, n - 1);
    RowSlice(rows, width, n, r, at);
    if r == n - 1 {
      assert |c| == at by {
        ContentLength(rows, width, n - 1);
      }
      SameBelow(rows, width, n - 1, r, row);
      PatchEnd(c, row, last);
    } else {
      SetRow(rows, width, n - 1, r, at, row);
      PatchFront(c, at, row, last);
    }
  }

  lemma PatchEnd(c: seq<Byte>, row: seq<Byte>, last: seq<Byte>)
    requires |row| == |last|
    ensures Patch(c + last, |c|, row) == c + row
  {
  }

  lemma PatchFront(c: seq<Byte>, at: nat, row: seq<Byte>, last: seq<Byte>)
    requires at + |row| <= |c|
    ensures Patch(c + last, at, row) == Patch(c, at, row) + last
  {
  }

  lemma {:induction false} SameBelow(rows: Rows, width: nat, n: nat, r: nat, row: seq<Byte>)
    requires n <= r
    ensures Content(rows[r := row], width, n) == Content(rows, width, n)
  {
    if n > 0 {
      SameBelow(rows, width, n - 1, r, row);
    }
  }

  /** Making an absent row explicit changes nothing. */
  lemma {:induction false} FillRow(rows: Rows, width: nat, n: nat, r: int)
    requires r !in rows
    ensures Content(rows[r := Zeros(width)], width, n) == Content(rows, width, n)
  {
    if n > 0 {
      FillRow(rows, width, n - 1, r);
    }
  }

  // ---- the store behind the hex writer ----

  /** What a chunk leaves behind when every row is filled from its first row. */
  function Repeated(src: seq<Byte>, width: nat): (r: seq<Byte>)
    requires 0 < width && (src == [] || width <= |src|)
    ensures |r| == |src|
  {
    seq(|src|, i requires 0 <= i < |src| => ByteOf(src, width, i))
  }

  function ByteOf(src: seq<Byte>, width: nat, i: nat): Byte
    requires 0 < width <= |src|
  {
    src[i % width]
  }

  /** Row r of the chunk, if there is one, is the same as the first. */
  predicate LikeFirst(src: seq<Byte>, width: nat, r: nat) {
    (r + 1) * width <= |src| ==> src[r * width..(r + 1) * width] == src[..width]
  }

  ghost predicate RowsEqual(src: seq<Byte>, width: nat) {
    forall r: nat :: LikeFirst(src, width, r)
  }

  lemma RepeatedRow(src: seq<Byte>, width: nat, r: nat, at: nat)
    requires 0 < width <= |src| && at == r * width && at + width <= |src|
    ensures Repeated(src, width)[at..at + width] == src[..width]
  {
    var a, b := Repeated(src, width)[at..at + width], src[..width];
    forall j | 0 <= j < width
      ensures a[j] == b[j]
    {
      DivModUnique(at + j, width, r, j);
    }
  }

  /** Every row ends as the first one. The chunk is stored as it is exactly when its rows
      are all equal. */
  lemma RepeatedIsSource(src: seq<Byte>, width: nat)
    requires 0 < width && |src| % width == 0 && (src == [] || width <= |src|)
    ensures Repeated(src, width) == src <==> RowsEqual(src, width)
  {
    hide Repeated, LikeFirst;
    if Repeated(src, width) == src {
      forall r: nat
        ensures LikeFirst(src, width, r)
      {
        SourceRow(src, width, r);
      }
    } else {
      var i :| 0 <= i < |src| && Repeated(src, width)[i] != src[i];
      var r := OtherRow(src, width, i);
    }
  }

  lemma SourceRow(src: seq<Byte>, width: nat, r: nat)
    requires 0 < width && (src == [] || width <= |src|) && Repeated(src, width) == src
    ensures LikeFirst(src, width, r)
  {
    hide Repeated;
    var at := r * width;
    assert (r + 1) * width == at + width;
    if at + width <= |src| {
      RepeatedRow(src, width, r, at);
    }
  }

  lemma OtherRow(src: seq<Byte>, width: nat, i: nat) returns (r: nat)
    requires 0 < width <= |src| && |src| % width == 0 && i < |src| && Repeated(src, width)[i] != src[i]
    ensures !LikeFirst(src, width, r)
  {
    hide LikeFirst;
    r := i / width;
    var at, j := r * width, i % width;
    assert i == at + j;
    RowFits(i, r, j, |src|, width);
    RowDiffers(src, width, r, at, j);
  }

  lemma RowDiffers(src: seq<Byte>, width: nat, r: nat, at: nat, j: nat)
    requires 0 < width && at == r * width && j < width && at + width <= |src| && src[at + j] != src[j]
    ensures !LikeFirst(src, width, r)
  {
    assert (r + 1) * width == at + width;
    assert src[at..at + width][j] == src[at + j] != src[..width][j];
  }

  lemma RowFits(i: int, r: int, j: int, n: int, width: int)
    requires 0 < width && n % width == 0 && i == r * width + j && 0 <= j && i < n
    ensures r * width + width <= n
  {
    MultipleMod(r, width);
    NextMultiple(r * width, n, width);
  }

  /** A single row is always stored as it is. */
  lemma OneRow(src: seq<Byte>, width: nat)
    requires 0 < width == |src|
    ensures Repeated(src, width) == src
  {
    forall i | 0 <= i < |src|
      ensures Repeated(src, width)[i] == src[i]
    {
      DivModUnique(i, width, 0, i);
    }
  }

  /** One more row of the chunk in place. */
  lemma RowStored(rows: Rows, depth: nat, r: nat, at: nat, was: seq<Byte>, src: seq<Byte>, width: nat,
                  k: nat, base: nat)
    requires RowsOk(rows, width) && r < depth && at == r * width && at - base == k * width && base <= at
    requires 0 < width <= |src| && at - base + width <= |src| && base + |src| <= |was|
    requires Content(rows, width, depth) == Patch(was, base, Repeated(src, width)[..at - base])
    ensures RowsOk(rows[r := src[..width]], width)
    ensures Content(rows[r := src[..width]], width, depth)
            == Patch(was, base, Repeated(src, width)[..at + width - base])
  {
    hide Repeated, Patch, Content, RowsOk;
    var all, row, done := Repeated(src, width), src[..width], at - base;
    SetRow(rows, width, depth, r, at, row);
    RepeatedRow(src, width, k, done);
    PatchJoin(was, base, all[..done], row);
    assert all[..done] + row == all[..done + width];
  }

  lemma PatchEqual(s: seq<Byte>, at: nat, a: seq<Byte>, b: seq<Byte>)
    requires |a| == |b| && at + |a| <= |s|
    ensures Patch(s, at, a) == Patch(s, at, b) <==> a == b
  {
    assert Patch(s, at, a)[at..at + |a|] == a && Patch(s, at, b)[at..at + |b|] == b;
  }

  /** A sparse store of rows. */
  class HexWriter {
    const width: nat
    const depth: nat
    var mem: Rows

    ghost predicate Valid()
      reads this
    {
      0 < width && RowsOk(mem, width)
    }

    ghost function Bytes(): seq<Byte>
      reads this
    {
      Content(mem, width, depth)
    }

    constructor (width: nat, depth: nat)
      requires 0 < width
      ensures Valid() && this.width == width && this.depth == depth
      ensures |Bytes()| == depth * width
      ensures forall i :: 0 <= i < |Bytes()| ==> Bytes()[i] == 0
    {
      this.width, this.depth := width, depth;
      mem := map[];
      new;
      EmptyContent(width, depth);
    }

    /** What both operations assert of a chunk. An address inside a row stands for the row. */
    ghost predicate Accepts(taddr: int, len: int)
      reads this
    {
      0 < width && 0 <= len && len % width == 0 && 0 <= taddr < |Bytes()| && taddr + len <= |Bytes()|
    }

    function RowStart(taddr: nat): (at: nat)
      requires 0 < width
    {
      taddr / width * width
    }

    method ReadChunk(taddr: int, len: int) returns (dst: seq<Byte>)
      requires Valid() && Accepts(taddr, len)
      modifies this
      ensures Valid() && Bytes() == old(Bytes()) && RowStart(taddr) + len <= |Bytes()|
      ensures dst == Bytes()[RowStart(taddr)..RowStart(taddr) + len]
    {
      hide Content, RowsOk;
      ContentLength(mem, width, depth);
      var r, left := taddr / width, len;
      ghost var n, base := len / width, RowStart(taddr);
      ghost var at := base;
      RowParts(taddr, len, width);
      dst := [];
      while left != 0
        invariant Valid() && Bytes() == old(Bytes()) && |Bytes()| == depth * width
        invariant 0 <= r && 0 <= n && at == r * width && left == n * width && at + left == base + len && base <= at
        invariant dst == Bytes()[base..at]
        decreases n
      {
        RowInRange(r, n, width, depth, at + left);
        if r !in mem {
          FillRow(mem, width, depth, r);
          FilledOk(mem, width, r);
          mem := mem[r := Zeros(width)];
        }
        RowSlice(mem, width, depth, r, at);
        dst := dst + mem[r];
        Advance(r, n, width);
        left, at, r, n := left - width, at + width, r + 1, n - 1;
      }
    }

    /** The source cursor does not move, so every row receives the first row of the chunk. */
    method WriteChunk(taddr: int, src: seq<Byte>)
      requires Valid() && Accepts(taddr, |src|)
      modifies this
      ensures Valid() && RowStart(taddr) + |src| <= |old(Bytes())| && (src == [] || width <= |src|)
      ensures Bytes() == Patch(old(Bytes()), RowStart(taddr), Repeated(src, width))
      ensures Bytes() == Patch(old(Bytes()), RowStart(taddr), src) <==> RowsEqual(src, width)
    {
      hide Content, RowsOk, Patch, Repeated, RowsEqual;
      ContentLength(mem, width, depth);
      var r, left := taddr / width, |src|;
      ghost var n, k, base, was := |src| / width, 0, RowStart(taddr), Bytes();
      ghost var at := base;
      RowParts(taddr, |src|, width);
      ghost var all := Repeated(src, width);
      PatchNone(was, base);
      while left != 0
        invariant 0 <= r && 0 <= n && 0 <= k && at == r * width && left == n * width && at - base == k * width
        invariant 0 <= left && at + left == base + |src| && base <= at && (left != 0 ==> width <= |src|)
        invariant Valid() && |was| == depth * width && Bytes() == Patch(was, base, all[..at - base])
        decreases n
      {
        RowInRange(r, n, width, depth, at + left);
        RowStored(mem, depth, r, at, was, src, width, k, base);
        mem := mem[r := src[..width]];
        Advance(r, n, width);
        Advance(k, n, width);
        left, at, r, n, k := left - width, at + width, r + 1, n - 1, k + 1;
      }
      assert all[..at - base] == all;
      PatchEqual(was, base, all, src);
      RepeatedIsSource(src, width);
    }
  }

  /** The chunk [7, 9] sent to two empty rows of one byte: the second row is lost. */
  method SecondRowLost() returns (hex: HexWriter)
    ensures hex.width == 1 && hex.depth == 2 && hex.Bytes() == [7, 7]
  {
    hide Content, RowsOk;
    hex := new HexWriter(1, 2);
    var src: seq<Byte> := [7, 9];
    assert hex.Bytes() == [0, 0];
    DivModUnique(1, 1, 1, 0);
    hex.WriteChunk(0, src);
    assert Repeated(src, 1) == [7, 7];
  }

  // ---- the target as the memory interface sees it ----

  /** A target accepts aligned chunks up to a largest size. Behind it is the hex writer,
      with one row as alignment and maximum, or memory that stores a chunk as it is. */
  class Target {
    const log: nat      // the alignment is a power of two
    const align: nat
    const maxSize: nat
    const hex: HexWriter?
    var flat: seq<Byte> // the memory without a hex writer

    ghost predicate Valid()
      reads this, hex
    {
      && align == P2(log) && 0 < maxSize && maxSize % align == 0
      && if hex == null then |flat| % align == 0 else hex.Valid() && hex.width == align == maxSize
    }

    ghost function Bytes(): seq<Byte>
      reads this, hex
    {
      if hex == null then flat else hex.Bytes()
    }

    constructor Memory(log: nat, chunks: nat, size: nat)
      requires 0 < chunks
      ensures Valid() && hex == null && this.log == log && maxSize == chunks * P2(log)
      ensures Bytes() == Zeros(size * P2(log))
    {
      this.log, align, maxSize, hex := log, P2(log), chunks * P2(log), null;
      flat := Zeros(size * P2(log));
      new;
      MultipleMod(chunks, align);
      MultipleMod(size, align);
    }

    constructor Writer(log: nat, hex: HexWriter)
      requires hex.Valid() && hex.width == P2(log)
      ensures Valid() && this.log == log && this.hex == hex && Bytes() == hex.Bytes()
    {
      this.log, align, maxSize, this.hex := log, P2(log), P2(log), hex;
      flat := [];
      new;
      MultipleMod(1, align);
    }

    /** What is asserted of a chunk, and that it lies in the memory. */
    ghost predicate ChunkOk(taddr: int, len: int)
      reads this, hex
    {
      && 0 <= taddr && 0 < align && taddr % align == 0
      && len % align == 0 && 0 < len <= maxSize && taddr + len <= |Bytes()|
    }

    /** A chunk for the hex writer is one row. */
    lemma ChunkIsRow(taddr: int, len: int)
      requires Valid() && hex != null && ChunkOk(taddr, len)
      ensures len == hex.width && hex.Accepts(taddr, len) && hex.RowStart(taddr) == taddr
    {
      hide P2;
      MultipleMod(0, align);
      NextMultiple(0, len, align);
      MultipleParts(taddr, len, align);
    }

    method ReadChunk(taddr: int, len: int) returns (dst: seq<Byte>)
      requires Valid() && ChunkOk(taddr, len)
      modifies this, hex
      ensures Valid() && Bytes() == old(Bytes())
      ensures dst == Bytes()[taddr..taddr + len]
    {
      hide Content, P2, RowsOk;
      if hex == null {
        dst := flat[taddr..taddr + len];
      } else {
        ChunkIsRow(taddr, len);
        dst := hex.ReadChunk(taddr, len);
      }
    }

    method WriteChunk(taddr: int, src: seq<Byte>)
      requires Valid() && ChunkOk(taddr, |src|)
      modifies this, hex
      ensures Valid() && Bytes() == Patch(old(Bytes()), taddr, src)
    {
      hide Content, P2, RowsOk, Repeated, RowsEqual;
      if hex == null {
        flat := Patch(flat, taddr, src);
      } else {
        ChunkIsRow(taddr, |src|);
        hex.WriteChunk(taddr, src);
        OneRow(src, hex.width);
      }
    }
  }

  lemma PatchNone(s: seq<Byte>, at: nat)
    requires at <= |s|
    ensures Patch(s, at, []) == s
  {
  }

  lemma {:induction false} EmptyContent(width: nat, n: nat)
    ensures |Content(map[], width, n)| == n * width
    ensures forall i :: 0 <= i < |Content(map[], width, n)| ==> Content(map[], width, n)[i] == 0
  {
    if n > 0 {
      EmptyContent(width, n - 1);
      assert n * width == (n - 1) * width + width;
    }
  }

  lemma FilledOk(rows: Rows, width: nat, r: int)
    requires RowsOk(rows, width)
    ensures RowsOk(rows[r := Zeros(width)], width)
  {
  }

  lemma MultipleParts(taddr: int, len: int, width: int)
    requires 0 < width && 0 <= taddr && 0 <= len && taddr % width == 0 && len % width == 0
    ensures taddr == taddr / width * width && len == len / width * width && 0 <= taddr / width && 0 <= len / width
  {
    DivModUnique(taddr, width, taddr / width, 0);
  }

  lemma RowParts(taddr: int, len: int, width: int)
    requires 0 < width && 0 <= taddr && 0 <= len && len % width == 0
    ensures 0 <= taddr / width * width <= taddr && len == len / width * width
    ensures 0 <= taddr / width && 0 <= len / width && (len == 0 || width <= len)
  {
    assert taddr == taddr / width * width + taddr % width;
    FactorOrder(0, taddr / width, width);
    if 0 < len {
      MultipleMod(0, width);
      NextMultiple(0, len, width);
    }
  }

  lemma RowInRange(r: int, n: int, width: int, depth: int, end: int)
    requires 0 < width && 0 <= r && 0 <= n && n * width != 0 && r * width + n * width == end <= depth * width
    ensures r < depth && 0 < n && width <= n * width
  {
    assert 1 <= n;
    assert width <= n * width;
    if depth <= r {
      FactorOrder(depth, r, width);
    }
  }

  lemma FactorOrder(a: int, b: int, width: int)
    requires 0 < width && a <= b
    ensures a * width <= b * width
  {
  }

  lemma Advance(r: int, n: int, width: int)
    ensures (r + 1) * width == r * width + width && (n - 1) * width == n * width - width
  {
  }

  // ---- arithmetic of aligned addresses ----

  predicate Aligned(x: int, d: int) { d > 0 && x % d == 0 }

  /** Bitwise and. */
  function And(a: nat, b: nat): nat {
    if a == 0 then 0 else 2 * And(a / 2, b / 2) + a % 2 * (b % 2)
  }

  /** Bitwise and with the complement. */
  function AndNot(a: nat, b: nat): nat {
    if a == 0 then 0 else 2 * AndNot(a / 2, b / 2) + a % 2 * (1 - b % 2)
  }

  /** The mask of a power of two takes the remainder. */
  lemma {:induction false} MaskIsRemainder(x: nat, k: nat)
    ensures And(x, P2(k) - 1) == x % P2(k)
    decreases k
  {
    if k == 0 {
      assert P2(0) == 1;
      AndZero(x);
    } else {
      hide P2;
      P2Step(k - 1);
      var p := P2(k - 1);
      MaskIsRemainder(x / 2, k - 1);
      assert (2 * p - 1) / 2 == p - 1 && (2 * p - 1) % 2 == 1;
      RemainderTwice(x, p);
      if x == 0 {
        DivModUnique(0, 2 * p, 0, 0);
      }
    }
  }

  lemma RemainderTwice(x: nat, p: int)
    requires p > 0
    ensures x % (2 * p) == 2 * (x / 2 % p) + x % 2
  {
    var h := x / 2;
    assert h == h / p * p + h % p;
    assert x == 2 * h + x % 2;
    assert 2 * (h / p * p) == h / p * (2 * p);
    DivModUnique(x, 2 * p, h / p, 2 * (h % p) + x % 2);
  }

  lemma {:induction false} AndZero(x: nat)
    ensures And(x, 0) == 0
  {
    if x > 0 {
      AndZero(x / 2);
    }
  }

  /** The two masks split a number. */
  lemma {:induction false} MaskSplit(a: nat, b: nat)
    ensures And(a, b) + AndNot(a, b) == a
  {
    if a > 0 {
      MaskSplit(a / 2, b / 2);
    }
  }

  /** How far an address lies above the last boundary. */
  function Offset(x: nat, align: nat): nat
    requires align > 0
  {
    And(x, align - 1)
  }

  function Base(x: nat, align: nat): nat
    requires align > 0
  {
    AndNot(x, align - 1)
  }

  /** The boundaries below and above an address. */
  lemma Boundaries(x: nat, log: nat, d: int)
    requires d == P2(log)
    ensures Offset(x, d) < d && (Offset(x, d) == 0 <==> Aligned(x, d))
    ensures Base(x, d) == x - Offset(x, d) && Aligned(Base(x, d), d) && Aligned(x + (d - Offset(x, d)), d)
  {
    hide P2;
    MaskIsRemainder(x, log);
    MaskSplit(x, d - 1);
    AlignDown(x, d);
    AlignUp(x, d, Offset(x, d));
  }

  lemma AlignedSum(x: int, y: int, d: int)
    requires Aligned(x, d) && Aligned(y, d)
    ensures Aligned(x + y, d)
  {
    SumMultiple(x, y, d);
  }

  lemma Multiple(x: int, d: int) returns (q: int)
    requires d > 0 && x % d == 0
    ensures x == q * d
  {
    q := x / d;
  }

  lemma AlignDown(addr: int, d: int)
    requires d > 0 && 0 <= addr
    ensures (addr - addr % d) % d == 0 && 0 <= addr - addr % d
  {
    assert addr == addr / d * d + addr % d;
    MultipleMod(addr / d, d);
    FactorOrder(0, addr / d, d);
  }

  lemma SumMultiple(x: int, y: int, d: int)
    requires d > 0 && x % d == 0 && y % d == 0
    ensures (x + y) % d == 0 && (x - y) % d == 0
  {
    var p := Multiple(x, d);
    var q := Multiple(y, d);
    assert x + y == (p + q) * d && x - y == (p - q) * d;
    MultipleMod(p + q, d);
    MultipleMod(p - q, d);
  }

  /** A multiple below another one is below it by at least the divisor. */
  lemma NextMultiple(x: int, y: int, d: int)
    requires d > 0 && x % d == 0 && y % d == 0 && x < y
    ensures x + d <= y
  {
    var p := Multiple(x, d);
    var q := Multiple(y, d);
    if q <= p {
      FactorOrder(q, p, d);
    } else {
      FactorOrder(p + 1, q, d);
    }
  }

  lemma SelfMultiple(d: int)
    requires d > 0
    ensures d % d == 0
  {
    MultipleMod(1, d);
  }

  // ---- the memory interface ----

  /** Reads one chunk of the alignment's size. */
  method ReadOne(htif: Target, base: int) returns (chunk: seq<Byte>)
    requires htif.Valid() && 0 <= base < |htif.Bytes()| && Aligned(base, htif.align)
    modifies htif, htif.hex
    ensures htif.Valid() && htif.Bytes() == old(htif.Bytes())
    ensures base + htif.align <= |htif.Bytes()| && chunk == htif.Bytes()[base..base + htif.align]
  {
    OneChunk(htif, base);
    chunk := htif.ReadChunk(base, htif.align);
  }

  lemma OneChunk(htif: Target, base: int)
    requires htif.Valid() && 0 <= base < |htif.Bytes()| && Aligned(base, htif.align)
    ensures htif.ChunkOk(base, htif.align)
  {
    hide Content, P2;
    if htif.hex != null {
      ContentLength(htif.hex.mem, htif.align, htif.hex.depth);
      MultipleMod(htif.hex.depth, htif.align);
    }
    MultipleMod(0, htif.align);
    SelfMultiple(htif.align);
    NextMultiple(base, |htif.Bytes()|, htif.align);
    NextMultiple(0, htif.maxSize, htif.align);
  }

  /** Reads an aligned range in chunks up to the largest size. */
  method ReadAligned(htif: Target, addr: int, len: int) returns (bytes: seq<Byte>)
    requires htif.Valid() && 0 <= addr && 0 <= len && addr + len <= |htif.Bytes()|
    requires len > 0 ==> Aligned(addr, htif.align) && Aligned(len, htif.align)
    modifies htif, htif.hex
    ensures htif.Valid() && htif.Bytes() == old(htif.Bytes())
    ensures bytes == htif.Bytes()[addr..addr + len]
  {
    hide Content, P2;
    bytes := [];
    var pos := 0;
    MultipleMod(0, htif.align);
    while pos < len
      invariant 0 <= pos && pos % htif.align == 0 && htif.Valid() && htif.Bytes() == old(htif.Bytes())
      invariant bytes == htif.Bytes()[addr..addr + if pos < len then pos else len]
      decreases len - pos
    {
      var n := if htif.maxSize < len - pos then htif.maxSize else len - pos;
      SumMultiple(addr, pos, htif.align);
      SumMultiple(len, pos, htif.align);
      var chunk := htif.ReadChunk(addr + pos, n);
      bytes := bytes + chunk;
      SumMultiple(pos, htif.maxSize, htif.align);
      pos := pos + htif.maxSize;
    }
  }

  /** The bytes up to the next boundary, if the range starts off one. */
  method ReadHead(htif: Target, addr: int, len: int) returns (head: seq<Byte>)
    requires htif.Valid() && 0 <= addr && 0 <= len && addr + len <= |htif.Bytes()|
    modifies htif, htif.hex
    ensures htif.Valid() && htif.Bytes() == old(htif.Bytes()) && |head| <= len
    ensures head == htif.Bytes()[addr..addr + |head|]
    ensures |head| < len ==> Aligned(addr + |head|, htif.align)
  {
    hide Content, P2, RowsOk, Aligned, Offset, Base;
    var align := htif.align;
    Boundaries(addr, htif.log, align);
    var off := Offset(addr, align);
    if len == 0 || off == 0 {
      return [];
    }
    var thisLen := if len < align - off then len else align - off;
    var chunk := ReadOne(htif, Base(addr, align));
    head := chunk[off..off + thisLen];
    SliceOfSlice(htif.Bytes(), addr - off, align, off, thisLen);
  }

  /** The bytes after the last boundary, if the range ends off one. */
  method ReadTail(htif: Target, addr: int, len: int) returns (tail: seq<Byte>)
    requires htif.Valid() && 0 <= addr && 0 <= len && addr + len <= |htif.Bytes()|
    requires len > 0 ==> Aligned(addr, htif.align)
    modifies htif, htif.hex
    ensures htif.Valid() && htif.Bytes() == old(htif.Bytes()) && |tail| <= len
    ensures tail == htif.Bytes()[addr + len - |tail|..addr + len]
    ensures Aligned(len - |tail|, htif.align)
  {
    hide Content, P2, RowsOk, Aligned, Offset, Base;
    var align := htif.align;
    Boundaries(len, htif.log, align);
    var thisLen := Offset(len, align);
    if thisLen == 0 {
      return [];
    }
    var start := len - thisLen;
    AlignedSum(addr, start, align);
    var chunk := ReadOne(htif, addr + start);
    tail := chunk[..thisLen];
    SliceOfSlice(htif.Bytes(), addr + start, align, 0, thisLen);
  }

  /** Any range, aligned or not, reads as from a flat array. */
  method Read(htif: Target, addr: int, len: int) returns (bytes: seq<Byte>)
    requires htif.Valid() && 0 <= addr && 0 <= len && addr + len <= |htif.Bytes()|
    modifies htif, htif.hex
    ensures htif.Valid() && htif.Bytes() == old(htif.Bytes())
    ensures bytes == htif.Bytes()[addr..addr + len]
  {
    hide Content, P2, RowsOk, Aligned;
    var head := ReadHead(htif, addr, len);
    var a, n := addr + |head|, len - |head|;
    var tail := ReadTail(htif, a, n);
    n := n - |tail|;
    var middle := ReadAligned(htif, a, n);
    bytes := head + middle + tail;
  }

  lemma AlignUp(addr: int, align: int, off: int)
    requires align > 0 && 0 <= addr && off == addr % align
    ensures (addr + (align - off)) % align == 0
  {
    AlignDown(addr, align);
    SelfMultiple(align);
    SumMultiple(addr - off, align, align);
  }

  /** Replaces part of one chunk of the alignment's size. */
  method WriteOne(htif: Target, base: int, off: int, bytes: seq<Byte>)
    requires htif.Valid() && 0 <= base < |htif.Bytes()| && Aligned(base, htif.align)
    requires 0 <= off && off + |bytes| <= htif.align
    requires base + off + |bytes| <= |htif.Bytes()|
    modifies htif, htif.hex
    ensures htif.Valid() && htif.Bytes() == Patch(old(htif.Bytes()), base + off, bytes)
  {
    hide Content, P2, RowsOk, Patch;
    var chunk := ReadOne(htif, base);
    PatchInside(htif.Bytes(), base, htif.align, off, bytes);
    OneChunk(htif, base);
    htif.WriteChunk(base, Patch(chunk, off, bytes));
  }

  method WriteHead(htif: Target, addr: int, bytes: seq<Byte>) returns (n: nat)
    requires htif.Valid() && 0 <= addr && addr + |bytes| <= |htif.Bytes()|
    modifies htif, htif.hex
    ensures htif.Valid() && n <= |bytes| && htif.Bytes() == Patch(old(htif.Bytes()), addr, bytes[..n])
    ensures n < |bytes| ==> Aligned(addr + n, htif.align)
  {
    hide Content, P2, RowsOk, Patch, Aligned, Offset, Base;
    var align := htif.align;
    Boundaries(addr, htif.log, align);
    var off := Offset(addr, align);
    if |bytes| == 0 || off == 0 {
      PatchNone(htif.Bytes(), addr);
      assert bytes[..0] == [];
      return 0;
    }
    n := if |bytes| < align - off then |bytes| else align - off;
    WriteOne(htif, Base(addr, align), off, bytes[..n]);
  }

  method WriteTail(htif: Target, addr: int, bytes: seq<Byte>) returns (n: nat)
    requires htif.Valid() && 0 <= addr && addr + |bytes| <= |htif.Bytes()|
    requires |bytes| > 0 ==> Aligned(addr, htif.align)
    modifies htif, htif.hex
    ensures htif.Valid() && n <= |bytes| && Aligned(n, htif.align)
    ensures htif.Bytes() == Patch(old(htif.Bytes()), addr + n, bytes[n..])
  {
    hide Content, P2, RowsOk, Patch, Aligned, Offset, Base;
    var align := htif.align;
    Boundaries(|bytes|, htif.log, align);
    var thisLen := Offset(|bytes|, align);
    if thisLen == 0 {
      PatchNone(htif.Bytes(), addr + |bytes|);
      assert bytes[|bytes|..] == [];
      return |bytes|;
    }
    n := |bytes| - thisLen;
    AlignedSum(addr, n, align);
    WriteOne(htif, addr + n, 0, bytes[n..]);
  }

  method WriteAligned(htif: Target, addr: int, bytes: seq<Byte>)
    requires htif.Valid() && 0 <= addr && addr + |bytes| <= |htif.Bytes()|
    requires |bytes| > 0 ==> Aligned(addr, htif.align) && Aligned(|bytes|, htif.align)
    modifies htif, htif.hex
    ensures htif.Valid() && htif.Bytes() == Patch(old(htif.Bytes()), addr, bytes)
  {
    hide Content, P2, RowsOk, Patch;
    var pos, done := 0, 0;
    MultipleMod(0, htif.align);
    PatchNone(htif.Bytes(), addr);
    while pos < |bytes|
      invariant 0 <= pos && pos % htif.align == 0 && htif.Valid() && |htif.Bytes()| == |old(htif.Bytes())|
      invariant done == if pos < |bytes| then pos else |bytes|
      invariant htif.Bytes() == Patch(old(htif.Bytes()), addr, bytes[..done])
      decreases |bytes| - pos
    {
      var n := if htif.maxSize < |bytes| - pos then htif.maxSize else |bytes| - pos;
      SumMultiple(addr, pos, htif.align);
      SumMultiple(|bytes|, pos, htif.align);
      PatchJoin(old(htif.Bytes()), addr, bytes[..pos], bytes[pos..pos + n]);
      assert bytes[..pos] + bytes[pos..pos + n] == bytes[..pos + n];
      htif.WriteChunk(addr + pos, bytes[pos..pos + n]);
      SumMultiple(pos, htif.maxSize, htif.align);
      pos, done := pos + htif.maxSize, pos + n;
    }
    assert bytes[..done] == bytes;
  }

  /** Any range, aligned or not, is written as into a flat array, and nothing else changes. */
  method Write(htif: Target, addr: int, bytes: seq<Byte>)
    requires htif.Valid() && 0 <= addr && addr + |bytes| <= |htif.Bytes()|
    modifies htif, htif.hex
    ensures htif.Valid() && htif.Bytes() == Patch(old(htif.Bytes()), addr, bytes)
  {
    hide Content, P2, RowsOk, Patch, Aligned;
    var h := WriteHead(htif, addr, bytes);
    var rest := bytes[h..];
    var n := WriteTail(htif, addr + h, rest);
    WriteAligned(htif, addr + h, rest[..n]);
    PatchJoin(Patch(old(htif.Bytes()), addr, bytes[..h]), addr + h, rest[..n], rest[n..]);
    assert rest[..n] + rest[n..] == rest;
    PatchJoin(old(htif.Bytes()), addr, bytes[..h], rest);
    assert bytes[..h] + rest == bytes;
  }

  // ---- sequences of accesses ----

  datatype Access = Get(addr: int, len: int) | Put(addr: int, bytes: seq<Byte>)

  predicate InRange(size: int, x: Access) {
    match x
    case Get(addr, len) => 0 <= addr && 0 <= len && addr + len <= size
    case Put(addr, bytes) => 0 <= addr && addr + |bytes| <= size
  }

  /** A flat array after some accesses. */
  function FlatMem(s: seq<Byte>, xs: seq<Access>): (r: seq<Byte>)
    requires forall i :: 0 <= i < |xs| ==> InRange(|s|, xs[i])
    ensures |r| == |s|
  {
    if xs == [] then s
    else
      var r, x := FlatMem(s, xs[..|xs| - 1]), xs[|xs| - 1];
      assert InRange(|s|, x);
      if x.Put? then Patch(r, x.addr, x.bytes) else r
  }

  /** What the reads among the accesses return. */
  function FlatReads(s: seq<Byte>, xs: seq<Access>): seq<seq<Byte>>
    requires forall i :: 0 <= i < |xs| ==> InRange(|s|, xs[i])
  {
    if xs == [] then []
    else
      var r, x := FlatMem(s, xs[..|xs| - 1]), xs[|xs| - 1];
      assert InRange(|s|, x);
      FlatReads(s, xs[..|xs| - 1]) + if x.Get? then [r[x.addr..x.addr + x.len]] else []
  }

  /** Any sequence of unaligned reads and writes behaves as on a flat array. */
  method RunAccesses(htif: Target, xs: seq<Access>) returns (got: seq<seq<Byte>>)
    requires htif.Valid() && forall i :: 0 <= i < |xs| ==> InRange(|htif.Bytes()|, xs[i])
    modifies htif, htif.hex
    ensures htif.Valid() && htif.Bytes() == FlatMem(old(htif.Bytes()), xs)
    ensures got == FlatReads(old(htif.Bytes()), xs)
  {
    hide Content, P2, RowsOk, Patch;
    got := [];
    var k := 0;
    while k < |xs|
      invariant 0 <= k <= |xs| && htif.Valid()
      invariant htif.Bytes() == FlatMem(old(htif.Bytes()), xs[..k])
      invariant got == FlatReads(old(htif.Bytes()), xs[..k])
    {
      assert xs[..k + 1][..k] == xs[..k] && xs[..k + 1][k] == xs[k];
      match xs[k] {
        case Get(addr, len) =>
          var bytes := Read(htif, addr, len);
          got := got + [bytes];
        case Put(addr, bytes) =>
          Write(htif, addr, bytes);
      }
      k := k + 1;
    }
    assert xs[..k] == xs;
  }
}
