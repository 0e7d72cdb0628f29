/**
 The search for free pages, in the arithmetic of machine words: what its loops do turn by
 turn, which page they stop at, and when they never stop.
*/
module Search {

  import opened Machine
  import opened PageTable
  import opened Mappings

  type Leaf = map<int, Word>

  const PAGE_ADDRESSES: int := 0x10_0000_0000_0000  // page boundaries in a 64-bit space

  /** The last page the search admits. */
  function SearchEnd(limit: int, npage: int): int {
    (limit - npage) % PAGE_ADDRESSES
  }

  /** The last page of a run. */
  function RunEnd(first: int, npage: int): int {
    (first + npage - 1) % PAGE_ADDRESSES
  }

  /** Where the walk from the end of a run back to its first page stops. */
  ghost function WalkBack(leaf: Leaf, first: int, a: int): (b: int)
    requires 0 <= first
    ensures b <= a && (first < a ==> first <= b)
    ensures first < b ==> SlotOf(b) in leaf
    decreases a
  {
    if a <= first || SlotOf(a) in leaf then a else WalkBack(leaf, first, a - 1)
  }

  // ---- the loop, turn by turn ----

  /** The loop is at a page, or it has stopped with a page, -1 for none. */
  datatype Place = Running(a: int) | Stopped(first: int)

  /** One turn of the loop; the address wraps around behind the last page. */
  ghost function Turn(leaf: Leaf, npage: int, end: int, s: Place): Place {
    if s.Stopped? || s.a < 0 then s
    else if s.a > end then Stopped(-1)
    else if SlotOf(s.a) in leaf then Running((s.a + 1) % PAGE_ADDRESSES)
    else
      var b := WalkBack(leaf, s.a, RunEnd(s.a, npage));
      if b <= s.a then Stopped(s.a) else Running((b + 1) % PAGE_ADDRESSES)
  }

  ghost function After(leaf: Leaf, npage: int, end: int, s: Place, k: nat): Place {
    if k == 0 then s else Turn(leaf, npage, end, After(leaf, npage, end, s, k - 1))
  }

  // ---- the outcome, lap by lap ----

  datatype Lap = Failed | Found(first: int) | Past

  /** One lap from a page up: it ends beyond the last page admitted, at a page found, or
      with a step past the last page address. */
  ghost function Pass(leaf: Leaf, npage: int, end: int, a: int): Lap
    requires 0 <= a < PAGE_ADDRESSES && end < PAGE_ADDRESSES
    decreases PAGE_ADDRESSES - a, 1
  {
    if a > end then Failed
    else if SlotOf(a) in leaf then Onward(leaf, npage, end, a, a)
    else
      var b := WalkBack(leaf, a, RunEnd(a, npage));
      if b <= a then Found(a) else Onward(leaf, npage, end, a, b)
  }

  /** The lap goes on behind page b. */
  ghost function Onward(leaf: Leaf, npage: int, end: int, a: int, b: int): Lap
    requires 0 <= a <= b < PAGE_ADDRESSES && end < PAGE_ADDRESSES
    decreases PAGE_ADDRESSES - a, 0
  {
    if b == PAGE_ADDRESSES - 1 then Past else Pass(leaf, npage, end, b + 1)
  }

  datatype Choice = NotFound | At(first: int) | Never

  /** What the search comes to: a lap that steps past the last page address begins again at
      zero, and one that does so from zero does so for ever. */
  ghost function Chosen(leaf: Leaf, start: int, limit: int, npage: int): Choice
    requires 0 <= start < PAGE_ADDRESSES
  {
    var end := SearchEnd(limit, npage);
    match Pass(leaf, npage, end, start)
    case Failed => NotFound
    case Found(f) => At(f)
    case Past =>
      match Pass(leaf, npage, end, 0)
      case Failed => NotFound
      case Found(f) => At(f)
      case Past => Never
  }

  // ---- laps are turns ----

  lemma {:induction false} AfterTurn(leaf: Leaf, npage: int, end: int, s: Place, k: nat)
    ensures After(leaf, npage, end, s, k + 1) == After(leaf, npage, end, Turn(leaf, npage, end, s), k)
  {
    hide Turn;
    if k > 0 {
      AfterTurn(leaf, npage, end, s, k - 1);
    }
  }

  lemma {:induction false} AfterSum(leaf: Leaf, npage: int, end: int, s: Place, j: nat, k: nat)
    ensures After(leaf, npage, end, s, j + k) == After(leaf, npage, end, After(leaf, npage, end, s, j), k)
  {
    hide Turn;
    if k > 0 {
      AfterSum(leaf, npage, end, s, j, k - 1);
    }
  }

  lemma {:induction false} StaysStopped(leaf: Leaf, npage: int, end: int, s: Place, j: nat, k: nat)
    requires j <= k && After(leaf, npage, end, s, j).Stopped?
    ensures After(leaf, npage, end, s, k) == After(leaf, npage, end, s, j)
    decreases k
  {
    if j < k {
      StaysStopped(leaf, npage, end, s, j, k - 1);
    }
  }

  /** The place where a lap ends. */
  function LapEnd(lap: Lap): Place {
    match lap
    case Failed => Stopped(-1)
    case Found(f) => Stopped(f)
    case Past => Running(0)
  }

  lemma {:induction false} LapTurns(leaf: Leaf, npage: int, end: int, a: int) returns (k: nat)
    requires 0 <= a < PAGE_ADDRESSES && end < PAGE_ADDRESSES
    ensures 0 < k && After(leaf, npage, end, Running(a), k) == LapEnd(Pass(leaf, npage, end, a))
    decreases PAGE_ADDRESSES - a
  {
    hide After, WalkBack;
    var s, t := Running(a), Turn(leaf, npage, end, Running(a));
    AfterTurn(leaf, npage, end, s, 0);
    AfterNone(leaf, npage, end, t);
    k := 1;
    if a <= end {
      var b := if SlotOf(a) in leaf then a else WalkBack(leaf, a, RunEnd(a, npage));
      if (SlotOf(a) in leaf || a < b) && b < PAGE_ADDRESSES - 1 {
        var j := LapTurns(leaf, npage, end, b + 1);
        AfterTurn(leaf, npage, end, s, j);
        k := j + 1;
      }
    }
  }

  lemma AfterNone(leaf: Leaf, npage: int, end: int, s: Place)
    ensures After(leaf, npage, end, s, 0) == s
  {
  }

  /** A lap from zero that comes back to zero is repeated as often as one likes. */
  lemma {:induction false} Laps(leaf: Leaf, npage: int, end: int, n: nat) returns (k: nat)
    requires end < PAGE_ADDRESSES && Pass(leaf, npage, end, 0) == Past
    ensures n <= k && After(leaf, npage, end, Running(0), k) == Running(0)
  {
    hide After, Pass;
    if n == 0 {
      k := 0;
      AfterNone(leaf, npage, end, Running(0));
    } else {
      var j := Laps(leaf, npage, end, n - 1);
      var i := LapTurns(leaf, npage, end, 0);
      AfterSum(leaf, npage, end, Running(0), j, i);
      k := j + i;
    }
  }

  /** The loop of the search runs for ever, or stops with a page. */
  ghost predicate RunsForEver(leaf: Leaf, npage: int, end: int, a: int) {
    forall k: nat :: After(leaf, npage, end, Running(a), k).Running?
  }

  ghost predicate StopsWith(leaf: Leaf, npage: int, end: int, a: int, first: int) {
    exists k: nat :: After(leaf, npage, end, Running(a), k) == Stopped(first)
  }

  /** The outcome is that of the loop, in each case and in no other. */
  lemma ChosenIsLoop(leaf: Leaf, start: int, limit: int, npage: int, first: int)
    requires 0 <= start < PAGE_ADDRESSES
    ensures var c, end := Chosen(leaf, start, limit, npage), SearchEnd(limit, npage);
            && (c == Never <==> RunsForEver(leaf, npage, end, start))
            && (c == NotFound <==> StopsWith(leaf, npage, end, start, -1))
            && (0 <= first ==> (c == At(first) <==> StopsWith(leaf, npage, end, start, first)))
  {
    hide After, Pass;
    var c, end, s := Chosen(leaf, start, limit, npage), SearchEnd(limit, npage), Running(start);
    var j := LapTurns(leaf, npage, end, start);
    var i := LapTurns(leaf, npage, end, 0);
    AfterSum(leaf, npage, end, s, j, i);
    var k := if Pass(leaf, npage, end, start) == Past then j + i else j;
    if c == Never {
      forall n: nat ensures After(leaf, npage, end, s, n).Running? {
        var m := Laps(leaf, npage, end, n);
        AfterSum(leaf, npage, end, s, j, m);
        if After(leaf, npage, end, s, n).Stopped? {
          StaysStopped(leaf, npage, end, s, n, j + m);
        }
      }
    } else {
      assert After(leaf, npage, end, s, k) == Stopped(if c.NotFound? then -1 else c.first);
      PassFirst(leaf, npage, end, start);
      PassFirst(leaf, npage, end, 0);
      forall n: nat | After(leaf, npage, end, s, n).Stopped?
        ensures After(leaf, npage, end, s, n) == After(leaf, npage, end, s, k)
      {
        if n <= k {
          StaysStopped(leaf, npage, end, s, n, k);
        } else {
          StaysStopped(leaf, npage, end, s, k, n);
        }
      }
    }
  }

  lemma {:induction false} PassFirst(leaf: Leaf, npage: int, end: int, a: int)
    requires 0 <= a < PAGE_ADDRESSES && end < PAGE_ADDRESSES
    ensures Pass(leaf, npage, end, a).Found? ==>
              var f := Pass(leaf, npage, end, a).first; a <= f <= end && SlotOf(f) !in leaf
    decreases PAGE_ADDRESSES - a
  {
    hide WalkBack;
    if a <= end {
      var b := if SlotOf(a) in leaf then a else WalkBack(leaf, a, RunEnd(a, npage));
      if (SlotOf(a) in leaf || a < b) && b < PAGE_ADDRESSES - 1 {
        PassFirst(leaf, npage, end, b + 1);
      }
    }
  }

  // ---- what the search returns ----

  /** What the loop returns for a page found: the page, or the wrapped end of its run. */
  function Returned(first: int, npage: int): int {
    if first + npage <= PAGE_ADDRESSES then first else first + npage - 1 - PAGE_ADDRESSES
  }

  ghost predicate FreeRun(leaf: Leaf, p: int, n: int) {
    forall q :: p <= q < p + n ==> SlotOf(q) !in leaf
  }

  /** No free page has a run that does not wrap around. */
  ghost predicate OnlyWrapped(leaf: Leaf, from: int, npage: int) {
    forall q :: from <= q && q + npage <= PAGE_ADDRESSES ==> SlotOf(q) in leaf
  }

  /** No run begins before page a; and if all runs would wrap around, no page there is free. */
  ghost predicate NoneBefore(leaf: Leaf, from: int, npage: int, a: int) {
    && (forall q :: from <= q < a && q + npage <= PAGE_ADDRESSES ==> !FreeRun(leaf, q, npage))
    && (OnlyWrapped(leaf, from, npage) ==> forall q :: from <= q < a ==> SlotOf(q) in leaf)
  }

  /** A free page, with a free run unless the run's end wraps around, and none before it. */
  ghost predicate SearchFinds(leaf: Leaf, from: int, end: int, npage: int, first: int) {
    && from <= first <= end && SlotOf(first) !in leaf && NoneBefore(leaf, from, npage, first)
    && (first + npage <= PAGE_ADDRESSES ==> FreeRun(leaf, first, npage))
  }

  lemma RunEnds(first: int, npage: int)
    requires 0 <= first < PAGE_ADDRESSES && 0 < npage <= PAGE_ADDRESSES
    ensures RunEnd(first, npage)
            == if first + npage <= PAGE_ADDRESSES then first + npage - 1 else first + npage - 1 - PAGE_ADDRESSES
  {
  }

  lemma {:induction false} WalkFree(leaf: Leaf, first: int, a: int)
    requires 0 <= first <= a
    ensures WalkBack(leaf, first, a) <= first <==> forall q :: first < q <= a ==> SlotOf(q) !in leaf
    ensures WalkBack(leaf, first, a) <= first ==> WalkBack(leaf, first, a) == first
    decreases a
  {
    if first < a && SlotOf(a) !in leaf {
      WalkFree(leaf, first, a - 1);
    }
  }

  lemma SkipBlocked(leaf: Leaf, from: int, npage: int, start: int, a: int)
    requires NoneBefore(leaf, from, npage, start) && from <= start < a < start + npage <= PAGE_ADDRESSES
    requires SlotOf(a) in leaf && SlotOf(start) !in leaf
    ensures NoneBefore(leaf, from, npage, a + 1)
  {
    assert !OnlyWrapped(leaf, from, npage);
    forall q | from <= q < a + 1 && q + npage <= PAGE_ADDRESSES ensures !FreeRun(leaf, q, npage) {
      assert q >= start ==> q <= a < q + npage;
    }
  }

  lemma SkipTaken(leaf: Leaf, from: int, npage: int, a: int)
    requires NoneBefore(leaf, from, npage, a) && SlotOf(a) in leaf && 0 < npage
    ensures NoneBefore(leaf, from, npage, a + 1)
  {
    assert !FreeRun(leaf, a, npage);
  }

  /** A page found comes after no other run; a lap that ends otherwise has passed none. */
  lemma {:induction false} PassFinds(leaf: Leaf, npage: int, end: int, from: int, a: int)
    requires 0 <= from <= a < PAGE_ADDRESSES && end < PAGE_ADDRESSES && 0 < npage <= PAGE_ADDRESSES
    requires NoneBefore(leaf, from, npage, a)
    ensures var lap := Pass(leaf, npage, end, a);
            && (lap.Found? ==> SearchFinds(leaf, from, end, npage, lap.first))
            && (!lap.Found? ==> NoneBefore(leaf, from, npage, end + 1))
    decreases PAGE_ADDRESSES - a
  {
    hide WalkBack, FreeRun;
    RunEnds(a, npage);
    if a > end {
      NoneEarlier(leaf, from, npage, a, end + 1);
    } else if SlotOf(a) in leaf {
      SkipTaken(leaf, from, npage, a);
      if a < PAGE_ADDRESSES - 1 {
        PassFinds(leaf, npage, end, from, a + 1);
      } else {
        NoneEarlier(leaf, from, npage, a + 1, end + 1);
      }
    } else {
      var b := WalkBack(leaf, a, RunEnd(a, npage));
      if a < b {
        SkipBlocked(leaf, from, npage, a, b);
        if b < PAGE_ADDRESSES - 1 {
          PassFinds(leaf, npage, end, from, b + 1);
        } else {
          NoneEarlier(leaf, from, npage, b + 1, end + 1);
        }
      } else if a + npage <= PAGE_ADDRESSES {
        WalkFree(leaf, a, RunEnd(a, npage));
        RunIsFree(leaf, a, npage);
      }
    }
  }

  lemma NoneEarlier(leaf: Leaf, from: int, npage: int, a: int, b: int)
    requires NoneBefore(leaf, from, npage, a) && b <= a
    ensures NoneBefore(leaf, from, npage, b)
  {
  }

  lemma RunIsFree(leaf: Leaf, first: int, npage: int)
    requires SlotOf(first) !in leaf && forall q :: first < q <= first + npage - 1 ==> SlotOf(q) !in leaf
    ensures FreeRun(leaf, first, npage)
  {
  }

  lemma NoneAtStart(leaf: Leaf, from: int, npage: int)
    ensures NoneBefore(leaf, from, npage, from)
  {
  }

  lemma ChosenFinds(leaf: Leaf, start: int, limit: int, npage: int)
    requires 0 <= start < PAGE_ADDRESSES && 0 < npage <= PAGE_ADDRESSES
    ensures var c, end := Chosen(leaf, start, limit, npage), SearchEnd(limit, npage);
            c.At? ==> SearchFinds(leaf, start, end, npage, c.first) || SearchFinds(leaf, 0, end, npage, c.first)
  {
    hide Pass, SearchFinds, NoneBefore;
    var end := SearchEnd(limit, npage);
    NoneAtStart(leaf, start, npage);
    NoneAtStart(leaf, 0, npage);
    PassFinds(leaf, npage, end, start, start);
    PassFinds(leaf, npage, end, 0, 0);
  }

  lemma SearchEnds(limit: int, npage: int)
    requires 0 <= limit < PAGE_ADDRESSES && 0 < npage <= PAGE_ADDRESSES
    ensures 0 <= SearchEnd(limit, npage) < PAGE_ADDRESSES
    ensures SearchEnd(limit, npage) == if npage <= limit then limit - npage else limit - npage + PAGE_ADDRESSES
  {
  }

  // ---- when the search never ends ----

  /** A lap steps past the last page address only where the last slot is taken: at that page,
      or blocked there by the run that ends with it. */
  lemma {:induction false} PastNeeds(leaf: Leaf, npage: int, end: int, a: int)
    requires 0 <= a < PAGE_ADDRESSES && end < PAGE_ADDRESSES && 0 < npage <= PAGE_ADDRESSES
    requires Pass(leaf, npage, end, a) == Past
    ensures SlotOf(PAGE_ADDRESSES - 1) in leaf
    ensures || end == PAGE_ADDRESSES - 1
            || (a <= PAGE_ADDRESSES - npage <= end && SlotOf(PAGE_ADDRESSES - npage) !in leaf)
    decreases PAGE_ADDRESSES - a
  {
    hide WalkBack;
    RunEnds(a, npage);
    var b := if SlotOf(a) in leaf then a else WalkBack(leaf, a, RunEnd(a, npage));
    if b < PAGE_ADDRESSES - 1 {
      PastNeeds(leaf, npage, end, b + 1);
    }
  }

  /** The search can run for ever only for a request longer than the limit, with the last
      slot of the table taken. */
  lemma NeverNeeds(leaf: Leaf, start: int, limit: int, npage: int)
    requires 0 <= start < PAGE_ADDRESSES && 0 <= limit < PAGE_ADDRESSES && 0 < npage <= PAGE_ADDRESSES
    requires Chosen(leaf, start, limit, npage) == Never
    ensures limit < npage && NPAGES - 1 in leaf
    ensures npage == limit + 1 || SlotOf(PAGE_ADDRESSES - npage) !in leaf
  {
    hide Pass;
    SearchEnds(limit, npage);
    PastNeeds(leaf, npage, SearchEnd(limit, npage), 0);
  }

  /** An input for which it does: the pages below p taken, p free, the last slot taken, and a
      request for the pages from p to the last page address. */
  lemma HangingRequest(leaf: Leaf, start: int, limit: int, p: int)
    requires 0 <= start <= p && 0 <= limit < PAGE_ADDRESSES - p && 0 < p < NPAGES - 1
    requires (forall q :: 0 <= q < p ==> q in leaf) && p !in leaf && NPAGES - 1 in leaf
    ensures Chosen(leaf, start, limit, PAGE_ADDRESSES - p) == Never
  {
    hide Pass;
    SearchEnds(limit, PAGE_ADDRESSES - p);
    HangingLap(leaf, limit, p, start);
    HangingLap(leaf, limit, p, 0);
  }

  lemma {:induction false} HangingLap(leaf: Leaf, limit: int, p: int, a: int)
    requires 0 <= a <= p && 0 <= limit < PAGE_ADDRESSES - p && 0 < p < NPAGES - 1
    requires (forall q :: 0 <= q < p ==> q in leaf) && p !in leaf && NPAGES - 1 in leaf
    ensures Pass(leaf, PAGE_ADDRESSES - p, SearchEnd(limit, PAGE_ADDRESSES - p), a) == Past
    decreases p - a
  {
    SearchEnds(limit, PAGE_ADDRESSES - p);
    if a < p {
      HangingLap(leaf, limit, p, a + 1);
    } else {
      assert RunEnd(p, PAGE_ADDRESSES - p) == PAGE_ADDRESSES - 1;
      assert SlotOf(PAGE_ADDRESSES - 1) == NPAGES - 1;
    }
  }

  // ---- requests that fit below the limit ----

  ghost predicate NoRun(leaf: Leaf, start: int, limit: int, n: int) {
    forall q :: start <= q && q + n <= limit ==> !FreeRun(leaf, q, n)
  }

  ghost predicate IsLowestRun(leaf: Leaf, start: int, limit: int, n: int, p: int) {
    start <= p && p + n <= limit && FreeRun(leaf, p, n) && forall q :: start <= q < p ==> !FreeRun(leaf, q, n)
  }

  /** A request that fits below the limit gets the lowest run there. */
  lemma FittingSearch(leaf: Leaf, start: int, limit: int, npage: int)
    requires 0 <= start < PAGE_ADDRESSES && 0 < npage <= limit < PAGE_ADDRESSES
    ensures var c := Chosen(leaf, start, limit, npage);
            && c != Never
            && (c.At? ==> IsLowestRun(leaf, start, limit, npage, c.first) && Returned(c.first, npage) == c.first)
            && (c == NotFound ==> NoRun(leaf, start, limit, npage))
  {
    hide Pass, FreeRun;
    var end := SearchEnd(limit, npage);
    SearchEnds(limit, npage);
    if Pass(leaf, npage, end, start) == Past {
      PastNeeds(leaf, npage, end, start);
      assert false;
    }
    NoneAtStart(leaf, start, npage);
    PassFinds(leaf, npage, end, start, start);
  }

  /** What the search returns is a free run below the limit exactly when the request is no
      longer than the limit. */
  lemma SearchBound(leaf: Leaf, start: int, limit: int, npage: int)
    requires 0 <= start <= limit < PAGE_ADDRESSES && 0 < npage <= PAGE_ADDRESSES
    requires Chosen(leaf, start, limit, npage).At?
    ensures var p := Returned(Chosen(leaf, start, limit, npage).first, npage);
            p + npage <= limit && FreeRun(leaf, p, npage) <==> npage <= limit
  {
    hide Pass, SearchFinds;
    ReturnedRange(leaf, start, limit, npage);
    if npage <= limit {
      FittingSearch(leaf, start, limit, npage);
    }
  }

  lemma ReturnedRange(leaf: Leaf, start: int, limit: int, npage: int)
    requires 0 <= start < PAGE_ADDRESSES && 0 <= limit < PAGE_ADDRESSES && 0 < npage <= PAGE_ADDRESSES
    requires Chosen(leaf, start, limit, npage).At?
    ensures var f := Chosen(leaf, start, limit, npage).first;
            0 <= f && SlotOf(f) !in leaf && 0 <= Returned(f, npage) < PAGE_ADDRESSES
  {
    hide Pass, NoneBefore, FreeRun;
    SearchEnds(limit, npage);
    ChosenFinds(leaf, start, limit, npage);
  }

  // ---- requests for every page address ----

  ghost predicate LowestFree(leaf: Leaf, start: int, end: int, p: int) {
    start <= p <= end && SlotOf(p) !in leaf && forall q :: start <= q < p ==> SlotOf(q) in leaf
  }

  ghost predicate NoneFree(leaf: Leaf, start: int, end: int) {
    forall q :: start <= q <= end ==> SlotOf(q) in leaf
  }

  /** With page zero mapped, the search for as many pages as there are page addresses takes
      the lowest free page, whatever follows it. */
  lemma WholeSearch(leaf: Leaf, start: int, limit: int)
    requires 0 <= start < PAGE_ADDRESSES && 0 <= limit <= NPAGES && 0 in leaf
    ensures var c := Chosen(leaf, start, limit, PAGE_ADDRESSES);
            && c != Never
            && (c.At? ==> 0 < c.first && LowestFree(leaf, start, limit, c.first))
            && (c == NotFound ==> NoneFree(leaf, start, limit))
  {
    hide FreeRun, Pass;
    assert SearchEnd(limit, PAGE_ADDRESSES) == limit;
    assert OnlyWrapped(leaf, start, PAGE_ADDRESSES);
    assert SlotOf(0) in leaf;
    if Pass(leaf, PAGE_ADDRESSES, limit, start) == Past {
      PastNeeds(leaf, PAGE_ADDRESSES, limit, start);
      assert false;
    }
    NoneAtStart(leaf, start, PAGE_ADDRESSES);
    PassFinds(leaf, PAGE_ADDRESSES, limit, start, start);
  }

  // ---- one page more than the limit ----

  /** Nothing but the allocator's pages, from the limit to the top of memory, is mapped above
      the limit: the run found for one page more than the limit begins at the top of memory. */
  lemma PastLimit(leaf: Leaf, start: int, limit: int, top: int)
    requires 0 <= start <= limit < top && top + limit + 1 <= NPAGES
    requires forall v :: limit <= v < NPAGES ==> (v in leaf <==> v < top)
    ensures Chosen(leaf, start, limit, limit + 1) == At(top)
  {
    hide Pass;
    var n, end := limit + 1, PAGE_ADDRESSES - 1;
    SearchEnds(limit, n);
    assert FreeRun(leaf, top, n);
    forall q | start <= q < top ensures !FreeRun(leaf, q, n) {
      assert SlotOf(if q < limit then limit else q) in leaf;
    }
    NoneAtStart(leaf, start, n);
    PassFinds(leaf, n, end, start, start);
  }
}
