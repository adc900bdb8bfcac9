/** Every run of malloc, free and a shrinking realloc, with requests of any size.  Where a
    request is past Fits the 32-bit fields of the headers are too narrow for it; what malloc
    then does, and that nothing else breaks the heap, is said here. */
module HeapRuns {
  import opened Pages
  import opened HeapLayout
  import opened HeapSpec
  import opened HeapLinks
  import opened HeapImage

  // ---------- malloc past Fits ----------

  /** The free bytes CASE 1 finds in a new major: size - usage, as unsigned int. */
  function FreshFree(size: nat): nat {
    (RecordedSize(size) + TWO_32 - MAJOR_HEADER) % TWO_32
  }

  /** A new major takes such a request itself, rather than being passed over for want of space,
      if and only if request and headers are below 2^32: its recorded size is then 0, and the
      difference wraps around. */
  lemma TakenAtOnceIff(size: nat)
    requires size + MAJOR_HEADER + MINOR_HEADER > TWO_32 - PAGE_SIZE
    ensures FreshFree(size) >= size + MINOR_HEADER <==> size + MAJOR_HEADER + MINOR_HEADER < TWO_32
  {
    FreshBlockFitsIff(size);
  }

  /** The cell that CASE 2 makes in a new major, in fields of 32 bits. */
  function CutCell(grant: Ptr, req: nat): Cell {
    Cell(grant + MAJOR_HEADER, Padded(req) % TWO_32, req % TWO_32)
  }

  function CutBlock(grant: Ptr, req: nat): Block {
    Block(grant, PagesRequested(Padded(req)), [CutCell(grant, req)])
  }

  /** The heap after a malloc past Fits.  No listed major has room, so a new one is obtained, and
      CASE 1 falls through to CASE 2, which does not look at the space.  In an empty heap the
      root is obtained first; CASE 1 may pass it over and obtain a second major. */
  function AfterOversized(h: Heap, req: nat, grant: Ptr, second: Ptr): (Heap, Ptr) {
    var size := Padded(req);
    if grant == 0 then (h, 0)
    else if h != [] || FreshFree(size) >= size + MINOR_HEADER then
      (h + [CutBlock(grant, req)], UserPtr(CutCell(grant, req)))
    else if second == 0 then ([FreshBlock(grant, size)], 0)
    else ([FreshBlock(grant, size), CutBlock(second, req)], UserPtr(CutCell(second, req)))
  }

  /** The heap after malloc of any request, and the pointer returned.  grant and second are what
      the page hook answers when it is asked for the first and for the second time. */
  function AfterAny(h: Heap, start: nat, req: nat, grant: Ptr, second: Ptr): (Heap, Ptr)
    requires start <= |h|
  {
    if Fits(req) then AfterMalloc(h, start, req, grant) else AfterOversized(h, req, grant, second)
  }

  /** The sums that malloc computes in 64 bits do not wrap around. */
  predicate Countable(req: nat) {
    Padded(req) + MINOR_HEADER < TWO_64
  }

  /** What the page hook promises of both answers. */
  ghost predicate GrantsOk(h: Heap, req: nat, grant: Ptr, second: Ptr) {
    var pages := PagesRequested(Padded(req));
    && GrantOk(h, grant, pages)
    && (second != 0 ==> grant != 0 && GrantOk(h + [Block(grant, pages, [])], second, pages))
  }

  // ---------- the best bet ----------

  /** size is the free total of the best bet, 0 if there is none. */
  ghost predicate BetIs(h: Heap, best: Ptr, size: int) {
    (best == 0 && size == 0) || exists j :: 0 <= j < |h| && h[j].addr == best && FreeTotal(h[j]) == size
  }

  /** The best bet is the same, or one with strictly more free bytes. */
  ghost predicate BetImproved(h: Heap, was: Ptr, best: Ptr) {
    best == was || exists size: int, more: int :: BetIs(h, was, size) && BetIs(h, best, more) && size < more
  }

  /** A number of bytes below 2^32, as an int has it. */
  function AsSigned(n: int): int {
    if n < 0x8000_0000 then n else n - TWO_32
  }

  /** The block at a has, as int, more free bytes than the one at b. */
  ghost predicate MoreFree(h: Heap, a: Ptr, b: Ptr) {
    exists i: nat, j: nat :: i < |h| && j < |h| && h[i].addr == a && h[j].addr == b
      && AsSigned(FreeTotal(h[i])) > AsSigned(FreeTotal(h[j]))
  }

  /** After a free of the last cell of block i of h a best bet there is forgotten; after any other
      free that block becomes the best bet if it has more free bytes now. */
  ghost predicate BetAfterFree(h: Heap, i: nat, now: Heap, was: Ptr, best: Ptr)
    requires i < |h|
  {
    best == if |h[i].cells| == 1 then (if was == h[i].addr then 0 else was)
            else if MoreFree(now, h[i].addr, was) then h[i].addr else was
  }

  lemma MoreFreeIs(h: Heap, i: nat, b: Ptr)
    requires HeapCore(h) && i < |h|
    ensures MoreFree(h, h[i].addr, b) <==>
              var j := IndexOf(h, b); j < |h| && AsSigned(FreeTotal(h[i])) > AsSigned(FreeTotal(h[j]))
  {
    var a := h[i].addr;
    if MoreFree(h, a, b) {
      var k: nat, l: nat :| k < |h| && l < |h| && h[k].addr == a && h[l].addr == b
        && AsSigned(FreeTotal(h[k])) > AsSigned(FreeTotal(h[l]));
      assert Listed(h, b);
      if k != i { DistinctBlocks(h, k, i); }
      if l != IndexOf(h, b) { DistinctBlocks(h, l, IndexOf(h, b)); }
    }
  }

  // ---------- where the search begins ----------

  ghost predicate Holds(b: Block, req: nat) {
    HasRoom(b, req + 32 + MINOR_HEADER)
  }

  /** Block i is the best bet, and has more free bytes in total than the request takes. */
  ghost predicate IsBet(h: Heap, best: Ptr, req: nat, i: nat) {
    i < |h| && h[i].addr == best && BlockSize(h[i]) - Usage(h[i]) > req + 32 + MINOR_HEADER
  }

  /** Block i is the first one from the given one on that holds the request. */
  ghost predicate FirstThatHolds(h: Heap, req: nat, from: nat, i: nat) {
    from <= i < |h| && Holds(h[i], req) && forall j: nat :: from <= j < i ==> !Holds(h[j], req)
  }

  ghost predicate NoneHolds(h: Heap, req: nat, from: nat) {
    forall j: nat :: from <= j < |h| ==> !Holds(h[j], req)
  }

  /** The pointer is to the first gap of the block that holds the request: behind the header of a
      cell there and the stored offset, at the next multiple of 16. */
  ghost predicate InFirstGap(b: Block, req: nat, p: Ptr) {
    exists k: nat :: k <= |b.cells| && GapFits(b, k, req + 32 + MINOR_HEADER)
      && NoGapBelow(b, k, req + 32 + MINOR_HEADER) && AlignedBehind(GapStart(b, k), p)
  }

  predicate AlignedBehind(a: nat, p: Ptr) {
    p % 16 == 0 && a + 40 + 16 <= p < a + 40 + 32
  }

  /** The search begins at the best bet, if that has more than enough free bytes, goes on behind it
      and then from the root; without a best bet it begins at the root. */
  ghost predicate BetFirst(h: Heap, best: Ptr, req: nat, p: Ptr) {
    && (forall b: nat, i: nat :: IsBet(h, best, req, b) && FirstThatHolds(h, req, b, i) ==> InFirstGap(h[i], req, p))
    && (forall b: nat, i: nat :: IsBet(h, best, req, b) && NoneHolds(h, req, b) && FirstThatHolds(h, req, 0, i) ==>
          InFirstGap(h[i], req, p))
    && ((forall b: nat :: !IsBet(h, best, req, b)) ==>
          forall i: nat :: FirstThatHolds(h, req, 0, i) ==> InFirstGap(h[i], req, p))
  }

  lemma BetIsStart(h: Heap, best: Ptr, req: nat, b: nat)
    requires HeapCore(h)
    ensures IsBet(h, best, req, b) ==> StartIndex(h, best, Padded(req)) == b
    ensures (forall i: nat :: !IsBet(h, best, req, i)) ==> StartIndex(h, best, Padded(req)) == 0
  {
    var i := IndexOf(h, best);
    if IsBet(h, best, req, b) {
      assert Listed(h, best);
      if i != b { DistinctBlocks(h, i, b); }
    }
    if i < |h| && BlockSize(h[i]) - Usage(h[i]) > Padded(req) + MINOR_HEADER {
      assert IsBet(h, best, req, i);
    }
  }

  /** The pointer of a malloc that places the request in block i. */
  lemma PlacedInGap(h: Heap, start: nat, req: nat, grant: Ptr, i: nat)
    requires start <= |h| && i < |h| && ChosenBlock(h, Padded(req) + MINOR_HEADER, start) == i
    ensures InFirstGap(h[i], req, AfterMalloc(h, start, req, grant).1)
  {
    var need := Padded(req) + MINOR_HEADER;
    RoomHasFirstGap(h[i], need);
    var k := FirstGap(h[i], need, 0);
    AlignedPtr(Cell(GapStart(h[i], k), Padded(req), req));
    InGap(h[i], req, k, AfterMalloc(h, start, req, grant).1);
  }

  lemma AlignedPtr(c: Cell)
    ensures AlignedBehind(c.addr, UserPtr(c))
  {
  }

  lemma InGap(b: Block, req: nat, k: nat, p: Ptr)
    requires k <= |b.cells| && GapFits(b, k, req + 32 + MINOR_HEADER) && NoGapBelow(b, k, req + 32 + MINOR_HEADER)
    requires AlignedBehind(GapStart(b, k), p)
    ensures InFirstGap(b, req, p)
  {
  }

  lemma ChosenFrom(h: Heap, req: nat, start: nat, i: nat)
    requires start <= |h|
    requires FirstThatHolds(h, req, start, i) || (NoneHolds(h, req, start) && FirstThatHolds(h, req, 0, i))
    ensures ChosenBlock(h, Padded(req) + MINOR_HEADER, start) == i
  {
    var need := Padded(req) + MINOR_HEADER;
    if FirstThatHolds(h, req, start, i) {
      FirstBlockIs(h, need, start, i);
    } else {
      FirstBlockIs(h, need, start, |h|);
      FirstBlockIs(h, need, 0, i);
    }
  }

  lemma StartsAtBet(h: Heap, best: Ptr, req: nat, grant: Ptr)
    requires HeapCore(h)
    ensures BetFirst(h, best, req, AfterMalloc(h, StartIndex(h, best, Padded(req)), req, grant).1)
  {
    var start := StartIndex(h, best, Padded(req));
    var p := AfterMalloc(h, start, req, grant).1;
    forall b: nat, i: nat | IsBet(h, best, req, b) && FirstThatHolds(h, req, b, i)
      ensures InFirstGap(h[i], req, p)
    {
      BetIsStart(h, best, req, b);
      ChosenFrom(h, req, b, i);
      PlacedInGap(h, start, req, grant, i);
    }
    forall b: nat, i: nat | IsBet(h, best, req, b) && NoneHolds(h, req, b) && FirstThatHolds(h, req, 0, i)
      ensures InFirstGap(h[i], req, p)
    {
      BetIsStart(h, best, req, b);
      ChosenFrom(h, req, b, i);
      PlacedInGap(h, start, req, grant, i);
    }
    if forall b: nat :: !IsBet(h, best, req, b) {
      forall i: nat | FirstThatHolds(h, req, 0, i)
        ensures InFirstGap(h[i], req, p)
      {
        BetIsStart(h, best, req, 0);
        ChosenFrom(h, req, 0, i);
        PlacedInGap(h, start, req, grant, i);
      }
    }
  }

  /** The heap has the cell that was asked for, and the pointer is to it. */
  ghost predicate Served(h: Heap, p: Ptr, req: nat) {
    exists c :: HasCell(h, c) && UserPtr(c) == p && c.req == req && c.size == req + 32
  }

  lemma FittingServed(h: Heap, start: nat, req: nat, grant: Ptr)
    requires HeapWF(h) && start <= |h| && Fits(req) && GrantOk(h, grant, PagesRequested(Padded(req)))
    requires AfterMalloc(h, start, req, grant).1 != 0
    ensures Served(AfterMalloc(h, start, req, grant).0, AfterMalloc(h, start, req, grant).1, req)
  {
    MallocCells(h, start, req, grant);
  }

  /** The search that begins at block start comes to block j: no block that it looks at before
      holds the request. */
  ghost predicate ComesTo(h: Heap, start: nat, req: nat, j: nat) {
    j < |h| && ((start <= j && NoneUpTo(h, req, start, j)) || (NoneHolds(h, req, start) && NoneUpTo(h, req, 0, j)))
  }

  ghost predicate NoneUpTo(h: Heap, req: nat, from: nat, to: nat) {
    forall j: nat :: from <= j < to && j < |h| ==> !Holds(h[j], req)
  }

  /** The best bet, a block of reach, has no fewer free bytes than any block the search came to. */
  ghost predicate NoneOutdoes(h: Heap, start: nat, req: nat, reach: Heap, best: Ptr) {
    exists size: int :: BetIs(reach, best, size) && NoneMore(h, start, req, size)
  }

  ghost predicate NoneMore(h: Heap, start: nat, req: nat, size: int) {
    forall j: nat :: ComesTo(h, start, req, j) ==> FreeTotal(h[j]) <= size
  }

  ghost predicate StartsAt(h: Heap, best: Ptr, req: nat, b: nat) {
    IsBet(h, best, req, b) || (b == 0 && forall i: nat :: !IsBet(h, best, req, i))
  }

  /** Malloc leaves a best bet that is no worse than any block it looked at. */
  ghost predicate BestOfSeen(h: Heap, was: Ptr, req: nat, reach: Heap, best: Ptr) {
    forall b: nat :: StartsAt(h, was, req, b) ==> NoneOutdoes(h, b, req, reach, best)
  }

  /** What malloc makes of the best bet; a major that it obtains counts as well. */
  ghost predicate BetAfterMalloc(h: Heap, was: Ptr, req: nat, grant: Ptr, best: Ptr) {
    var reach := h + [FreshBlock(grant, Padded(req))];
    BetImproved(reach, was, best) && BestOfSeen(h, was, req, reach, best)
  }

  lemma SeenFromStart(h: Heap, was: Ptr, req: nat, grant: Ptr, best: Ptr)
    requires HeapCore(h)
    requires var reach := h + [FreshBlock(grant, Padded(req))];
             BetImproved(reach, was, best) && NoneOutdoes(h, StartIndex(h, was, Padded(req)), req, reach, best)
    ensures BetAfterMalloc(h, was, req, grant, best)
  {
    forall b: nat | StartsAt(h, was, req, b)
      ensures StartIndex(h, was, Padded(req)) == b
    {
      BetIsStart(h, was, req, b);
    }
  }

  // ---------- is there room behind the pointer ----------

  /** The n bytes from p on lie on the pages of one block. */
  ghost predicate OnPages(h: Heap, p: Ptr, n: nat) {
    exists i :: 0 <= i < |h| && h[i].addr <= p && p + n <= Limit(h[i])
  }

  lemma CutPtr(grant: Ptr, req: nat)
    requires grant % PAGE_SIZE == 0
    ensures UserPtr(CutCell(grant, req)) == grant + MAJOR_HEADER + MINOR_HEADER + ALIGN_INFO
  {
  }

  /** The pages of a new major hold the request behind the pointer. */
  lemma CutRoomIff(grant: Ptr, req: nat)
    requires grant % PAGE_SIZE == 0 && !Fits(req)
    ensures UserPtr(CutCell(grant, req)) + req <= Limit(CutBlock(grant, req))
            <==> Padded(req) + MAJOR_HEADER + MINOR_HEADER < TWO_32
    ensures grant <= UserPtr(CutCell(grant, req)) < Limit(CutBlock(grant, req))
  {
    CutPtr(grant, req);
    FreshPagesHoldIff(Padded(req));
  }

  /** A pointer inside the last block is in no other one. */
  lemma OnLastPages(h: Heap, b: Block, p: Ptr, n: nat)
    requires forall i :: 0 <= i < |h| ==> Apart(h[i], b)
    requires b.addr <= p < Limit(b)
    ensures OnPages(h + [b], p, n) <==> p + n <= Limit(b)
  {
    assert (h + [b])[|h|] == b;
  }

  lemma OversizedRoomIff(h: Heap, req: nat, grant: Ptr, second: Ptr)
    requires !Fits(req) && GrantsOk(h, req, grant, second)
    ensures var (h', p) := AfterOversized(h, req, grant, second);
            p != 0 ==> (OnPages(h', p, req) <==> Padded(req) + MAJOR_HEADER + MINOR_HEADER < TWO_32)
  {
    var (h', p) := AfterOversized(h, req, grant, second);
    if p != 0 {
      var size := Padded(req);
      if h != [] || FreshFree(size) >= size + MINOR_HEADER {
        CutRoomIff(grant, req);
        OnLastPages(h, CutBlock(grant, req), p, req);
      } else {
        CutRoomIff(second, req);
        assert (h + [Block(grant, PagesRequested(size), [])])[0] == FreshBlock(grant, size);
        OnLastPages([FreshBlock(grant, size)], CutBlock(second, req), p, req);
        assert h' == [FreshBlock(grant, size)] + [CutBlock(second, req)];
      }
    }
  }

  /** What malloc places, it places where the bytes are: a cell of the heap afterwards. */
  lemma FittingHasRoom(h: Heap, start: nat, req: nat, grant: Ptr)
    requires HeapWF(h) && start <= |h| && Fits(req) && GrantOk(h, grant, PagesRequested(Padded(req)))
    ensures var (h', p) := AfterMalloc(h, start, req, grant); p != 0 ==> OnPages(h', p, req)
  {
    var (h', p) := AfterMalloc(h, start, req, grant);
    if p != 0 {
      MallocWF(h, start, req, grant);
      MallocCells(h, start, req, grant);
      var c := NewCell(h, start, req, grant);
      var i: nat, k: nat :| i < |h'| && k < |h'[i].cells| && h'[i].cells[k] == c;
      CellInside(h'[i], k);
      PayloadInsideCell(c);
    }
  }

  /** The pointer that malloc returns has the requested bytes behind it, on pages of the heap, if
      and only if request, alignment and headers are below 2^32. */
  lemma PointerHasRoomIff(h: Heap, start: nat, req: nat, grant: Ptr, second: Ptr)
    requires HeapWF(h) && start <= |h| && GrantsOk(h, req, grant, second)
    ensures var (h', p) := AfterAny(h, start, req, grant, second);
            p != 0 ==> (OnPages(h', p, req) <==> Padded(req) + MAJOR_HEADER + MINOR_HEADER < TWO_32)
  {
    if Fits(req) {
      FittingHasRoom(h, start, req, grant);
    } else {
      OversizedRoomIff(h, req, grant, second);
    }
  }

  // ---------- is the heap still in order ----------

  /** A heap with the running totals of bytes in use and of bytes obtained. */
  datatype Counted = Counted(heap: Heap, inuse: int, obtained: int)

  ghost predicate Sound(s: Counted) {
    HeapWF(s.heap) && s.inuse == InUse(s.heap) && s.obtained == Allocated(s.heap)
  }

  /** The recorded sizes of n new majors. */
  function Obtained(n: int, size: nat): nat {
    if n <= 0 then 0 else RecordedSize(size) + Obtained(n - 1, size)
  }

  function CountedAfter(s: Counted, start: nat, req: nat, grant: Ptr, second: Ptr): Counted
    requires start <= |s.heap|
  {
    var (h, p) := AfterAny(s.heap, start, req, grant, second);
    Counted(h, s.inuse + (if p != 0 then Padded(req) else 0),
            s.obtained + Obtained(|h| - |s.heap|, Padded(req)))
  }

  lemma OneMoreBlock(h: Heap, b: Block)
    ensures InUse(h + [b]) == InUse(h) + PayloadBytes(b.cells)
    ensures Allocated(h + [b]) == Allocated(h) + BlockSize(b)
  {
    SplitHeapSums(h, [b]);
    OneBlockSums(b);
  }

  lemma InsertIntoFresh(b: Block, size: nat, req: nat)
    requires b.cells == []
    ensures Insert(b, 0, size, req) == b.(cells := [Cell(b.addr + MAJOR_HEADER, size, req)])
  {
  }

  lemma GrownSums(h: Heap, req: nat, grant: Ptr)
    requires HeapCore(h) && Fits(req) && grant != 0 && GrantOk(h, grant, PagesRequested(Padded(req)))
    ensures InUse(Grown(h, req, grant)) == InUse(h) + Padded(req)
    ensures Allocated(Grown(h, req, grant)) == Allocated(h) + RecordedSize(Padded(req))
  {
    var b := FreshBlock(grant, Padded(req));
    FreshBlockWF(h, grant, Padded(req));
    InsertIntoFresh(b, Padded(req), req);
    OneMoreBlock(h, Insert(b, 0, Padded(req), req));
    OneCellSums(Cell(grant + MAJOR_HEADER, Padded(req), req));
  }

  lemma PlacedSums(h: Heap, i: nat, req: nat)
    requires i < |h| && HasRoom(h[i], Padded(req) + MINOR_HEADER)
    ensures InUse(Placed(h, i, req)) == InUse(h) + Padded(req) && Allocated(Placed(h, i, req)) == Allocated(h)
  {
    RoomHasFirstGap(h[i], Padded(req) + MINOR_HEADER);
    PlaceSums(h, i, FirstGap(h[i], Padded(req) + MINOR_HEADER, 0), Padded(req), req);
  }

  lemma FittingCounts(s: Counted, start: nat, req: nat, grant: Ptr, second: Ptr)
    requires Sound(s) && start <= |s.heap| && Fits(req) && GrantOk(s.heap, grant, PagesRequested(Padded(req)))
    ensures Sound(CountedAfter(s, start, req, grant, second))
  {
    MallocWF(s.heap, start, req, grant);
    FittingSums(s.heap, start, req, grant);
  }

  lemma FittingSums(h: Heap, start: nat, req: nat, grant: Ptr)
    requires HeapWF(h) && start <= |h| && Fits(req) && GrantOk(h, grant, PagesRequested(Padded(req)))
    ensures var (h', p) := AfterMalloc(h, start, req, grant);
      && InUse(h') == InUse(h) + (if p != 0 then Padded(req) else 0)
      && Allocated(h') == Allocated(h) + Obtained(|h'| - |h|, Padded(req))
  {
    var i := ChosenBlock(h, Padded(req) + MINOR_HEADER, start);
    if i < |h| {
      PlacedSums(h, i, req);
    } else if grant != 0 {
      GrownSums(h, req, grant);
      assert Obtained(1, Padded(req)) == RecordedSize(Padded(req));
    }
  }

  /** The new major of an oversized request, or the count of the bytes in use, is wrong. */
  lemma CutIsUnsound(h: Heap, req: nat, grant: Ptr, inuse: int)
    requires !Fits(req) && inuse == InUse(h) + Padded(req)
    ensures !(BlockWF(CutBlock(grant, req)) && inuse == InUse(h + [CutBlock(grant, req)]))
  {
    var size, b := Padded(req), CutBlock(grant, req);
    OneMoreBlock(h, b);
    OneCellSums(CutCell(grant, req));
    if BlockWF(b) && inuse == InUse(h + [b]) {
      assert size % TWO_32 == size;
      FreshPagesHoldIff(size);
      FreshBlockFitsIff(size);
      CellInside(b, 0);
    }
  }

  lemma OversizedIsUnsound(s: Counted, start: nat, req: nat, grant: Ptr, second: Ptr)
    requires Sound(s) && start <= |s.heap| && !Fits(req) && grant != 0
    ensures !Sound(CountedAfter(s, start, req, grant, second))
  {
    var size, s' := Padded(req), CountedAfter(s, start, req, grant, second);
    if s.heap != [] || FreshFree(size) >= size + MINOR_HEADER {
      CutIsUnsound(s.heap, req, grant, s'.inuse);
      assert s'.heap[|s.heap|] == CutBlock(grant, req);
    } else {
      assert s'.heap[0] == FreshBlock(grant, size);
    }
  }

  /** After malloc the heap is in order, with the right counters, if and only if the request fits
      or nothing was granted. */
  lemma MallocSoundIff(s: Counted, start: nat, req: nat, grant: Ptr, second: Ptr)
    requires Sound(s) && start <= |s.heap| && GrantsOk(s.heap, req, grant, second)
    ensures Sound(CountedAfter(s, start, req, grant, second)) <==> Fits(req) || grant == 0
  {
    if Fits(req) {
      FittingCounts(s, start, req, grant, second);
    } else if grant != 0 {
      OversizedIsUnsound(s, start, req, grant, second);
    }
  }

  /** Whatever the request, malloc takes away no allocation and changes none. */
  lemma OldCellsStay(h: Heap, start: nat, req: nat, grant: Ptr, second: Ptr, c: Cell)
    requires HeapWF(h) && start <= |h| && GrantsOk(h, req, grant, second) && HasCell(h, c)
    ensures HasCell(AfterAny(h, start, req, grant, second).0, c)
  {
    if Fits(req) {
      if AfterMalloc(h, start, req, grant).1 != 0 { MallocCells(h, start, req, grant); }
    } else {
      var i: nat, k: nat :| i < |h| && k < |h[i].cells| && h[i].cells[k] == c;
      assert AfterOversized(h, req, grant, second).0[i].cells[k] == c;
    }
  }

  /** A block of the list is where it was, on as many pages. */
  ghost predicate SameBlock(h: Heap, j: nat, h': Heap, j': nat) {
    j < |h| && j' < |h'| && h'[j'].addr == h[j].addr && h'[j'].pages == h[j].pages
  }

  /** malloc keeps the order of the list, and puts what it obtains behind it. */
  lemma ListGrows(h: Heap, start: nat, req: nat, grant: Ptr, second: Ptr, j: nat)
    requires start <= |h|
    ensures var h' := AfterAny(h, start, req, grant, second).0;
      && |h| <= |h'|
      && (j < |h| ==> SameBlock(h, j, h', j))
      && (|h| <= j < |h'| ==> h'[j].addr == if j == |h| then grant else second)
      && (Fits(req) ==> |h'| == |h| || (|h'| == |h| + 1 && NoneHolds(h, req, 0)))
  {
  }

  /** free keeps the order of the other blocks. */
  lemma ListShrinks(h: Heap, i: nat, k: nat, j: nat)
    requires i < |h| && k < |h[i].cells| && j < |h|
    ensures var h', emptied := AfterFree(h, i, k), |h[i].cells| == 1;
      && |h'| == |h| - (if emptied then 1 else 0)
      && (!emptied || j != i ==> SameBlock(h, j, h', if emptied && i < j then j - 1 else j))
  {
  }

  /** malloc(2^32) in an empty heap: the root stays empty, and the pointer returned is to a cell
      of 32 bytes in a major of 64 KiB. */
  lemma FourGigabytes(grant: Ptr, second: Ptr)
    requires grant != 0 && second != 0 && GrantsOk([], TWO_32, grant, second)
    ensures var (h, p) := AfterAny([], 0, TWO_32, grant, second);
      && h == [Block(grant, 16, []), Block(second, 16, [Cell(second + MAJOR_HEADER, 32, 0)])]
      && p == second + 96 && !OnPages(h, p, TWO_32)
  {
    CutPtr(second, TWO_32);
    PointerHasRoomIff([], 0, TWO_32, grant, second);
  }

  /** The first malloc, if it fits 16 pages. */
  lemma FirstMalloc(grant: Ptr, req: nat, s: Counted)
    requires grant != 0 && Padded(req) + MAJOR_HEADER + MINOR_HEADER <= PAGE_COUNT * PAGE_SIZE
    requires s == CountedAfter(Counted([], 0, 0), 0, req, grant, 0)
    ensures s.heap == [Block(grant, PAGE_COUNT, [Cell(grant + MAJOR_HEADER, Padded(req), req)])]
    ensures PagesRequested(Padded(req)) == PAGE_COUNT
  {
    InsertIntoFresh(FreshBlock(grant, Padded(req)), Padded(req), req);
  }

  // ---------- every run ----------

  datatype Call =
    | Malloc(start: nat, req: nat, grant: Ptr, second: Ptr)
    | Free(i: nat, k: nat)
    | Shrink(i: nat, k: nat, newReq: nat)

  /** The calls a client may make.  A realloc that grows is a Malloc, a copy of bytes and a Free. */
  ghost predicate Enabled(h: Heap, c: Call) {
    match c
    case Malloc(start, req, grant, second) => start <= |h| && Countable(req) && GrantsOk(h, req, grant, second)
    case Free(i, k) => i < |h| && k < |h[i].cells|
    case Shrink(i, k, newReq) => i < |h| && k < |h[i].cells| && newReq <= h[i].cells[k].req
  }

  ghost function Apply(s: Counted, c: Call): Counted
    requires Enabled(s.heap, c)
  {
    match c
    case Malloc(start, req, grant, second) => CountedAfter(s, start, req, grant, second)
    case Free(i, k) =>
      var b := s.heap[i];
      Counted(AfterFree(s.heap, i, k), s.inuse - b.cells[k].size,
              s.obtained - if |b.cells| == 1 then BlockSize(b) else 0)
    case Shrink(i, k, newReq) => s.(heap := AfterShrink(s.heap, i, k, newReq))
  }

  /** A malloc that its headers are wide enough for, or that is given nothing. */
  ghost predicate Harmless(c: Call) {
    c.Malloc? ==> Fits(c.req) || c.grant == 0
  }

  ghost predicate IsRun(trace: seq<Counted>, calls: seq<Call>) {
    && |trace| == |calls| + 1
    && trace[0] == Counted([], 0, 0)
    && (forall n :: 0 <= n < |calls| ==>
          Enabled(trace[n].heap, calls[n]) && trace[n + 1] == Apply(trace[n], calls[n]))
  }

  lemma StepSoundIff(s: Counted, c: Call)
    requires Sound(s) && Enabled(s.heap, c)
    ensures Sound(Apply(s, c)) <==> Harmless(c)
  {
    match c
    case Malloc(start, req, grant, second) => MallocSoundIff(s, start, req, grant, second);
    case Free(i, k) =>
      FreeWF(s.heap, i, k);
      FreeSums(s.heap, i, k);
    case Shrink(i, k, newReq) =>
      ShrinkWF(s.heap, i, k, newReq);
      ShrinkSums(s.heap, i, k, newReq);
  }

  /** The run of one malloc. */
  lemma FirstRun(grant: Ptr, req: nat, s: Counted)
    requires Fits(req) && grant != 0 && GrantOk([], grant, PagesRequested(Padded(req)))
    requires s == CountedAfter(Counted([], 0, 0), 0, req, grant, 0)
    ensures IsRun([Counted([], 0, 0), s], [Malloc(0, req, grant, 0)]) && Sound(s)
  {
    OneCall(Malloc(0, req, grant, 0), s);
    MallocSoundIff(Counted([], 0, 0), 0, req, grant, 0);
  }

  lemma OneCall(c: Call, s: Counted)
    requires Enabled([], c) && s == Apply(Counted([], 0, 0), c)
    ensures IsRun([Counted([], 0, 0), s], [c])
  {
  }

  /** Safety over every run from the empty heap: up to the first granted request past Fits the
      layout is well formed and counted, no block is left empty, and live allocations never share
      a byte with each other or with a header; and that request is where it ends. */
  lemma {:induction false} EveryRunIsSafe(trace: seq<Counted>, calls: seq<Call>, n: nat)
    requires IsRun(trace, calls) && n < |trace| && forall m :: 0 <= m < n ==> Harmless(calls[m])
    ensures Sound(trace[n]) && UsableApart(trace[n].heap)
    ensures n < |calls| ==> (Sound(trace[n + 1]) <==> Harmless(calls[n]))
  {
    if n > 0 {
      EveryRunIsSafe(trace, calls, n - 1);
    }
    WellFormedIsSafe(trace[n].heap);
    if n < |calls| {
      StepSoundIff(trace[n], calls[n]);
    }
  }
}
