/** What malloc, free and realloc do to the layout of the heap, and what every sequence of
    such steps keeps. */
module HeapSpec {
  import opened Pages
  import opened HeapLayout

  // ---------- sizes ----------

  /** malloc reserves room for alignment and for the stored offset. */
  function Padded(req: nat): nat {
    req + ALIGNMENT + ALIGN_INFO
  }

  /** Number of pages allocate_new_page asks for.  Its parameter and its local st are
      unsigned int, so the size passed by malloc is truncated. */
  function PagesRequested(size: nat): nat {
    var st := (size % TWO_32 + MAJOR_HEADER) % TWO_32;
    var st := (st + MINOR_HEADER) % TWO_32;
    var pages := if st % PAGE_SIZE == 0 then st / PAGE_SIZE else st / PAGE_SIZE + 1;
    if pages < PAGE_COUNT then PAGE_COUNT else pages
  }

  /** The size recorded in the new major, again an unsigned int. */
  function RecordedSize(size: nat): nat {
    PagesRequested(size) * PAGE_SIZE % TWO_32
  }

  /** The recorded size of a new block covers the request it was obtained for exactly up to a
      page below the 32-bit range ... */
  lemma FreshBlockFitsIff(size: nat)
    ensures RecordedSize(size) >= size + MAJOR_HEADER + MINOR_HEADER
            <==> size + MAJOR_HEADER + MINOR_HEADER <= TWO_32 - PAGE_SIZE
  {
  }

  /** ... and its pages do up to the end of that range. */
  lemma FreshPagesHoldIff(size: nat)
    ensures PagesRequested(size) * PAGE_SIZE >= size + MAJOR_HEADER + MINOR_HEADER
            <==> size + MAJOR_HEADER + MINOR_HEADER < TWO_32
  {
  }

  /** Below that end a new block has the fewest pages, though never less than 16, that hold the
      request and both headers. */
  lemma FewestPages(size: nat)
    requires size + 80 < TWO_32
    ensures var n := PagesRequested(size);
            n * 4096 >= size + 80 && n >= 16 && (n > 16 ==> (n - 1) * 4096 < size + 80)
  {
  }

  predicate Fits(req: nat) {
    Padded(req) + MAJOR_HEADER + MINOR_HEADER <= TWO_32 - PAGE_SIZE
  }

  /** What the page hook promises: NULL, or whole pages that overlap no listed block. */
  ghost predicate GrantOk(h: Heap, grant: Ptr, pages: nat) {
    grant == 0 ||
    (&& grant % PAGE_SIZE == 0
     && grant + pages * PAGE_SIZE <= TWO_64
     && forall i :: 0 <= i < |h| ==> Apart(h[i], Block(grant, pages, [])))
  }

  // ---------- steps ----------

  function Insert(b: Block, k: nat, size: nat, req: nat): Block
    requires k <= |b.cells|
  {
    b.(cells := b.cells[..k] + [Cell(GapStart(b, k), size, req)] + b.cells[k..])
  }

  function PlaceIn(h: Heap, i: nat, k: nat, size: nat, req: nat): Heap
    requires i < |h| && k <= |h[i].cells|
  {
    h[i := Insert(h[i], k, size, req)]
  }

  function FreshBlock(grant: Ptr, size: nat): Block {
    Block(grant, PagesRequested(size), [])
  }

  /** The heap with the request placed in the first gap of block i that holds it. */
  function Placed(h: Heap, i: nat, req: nat): Heap
    requires i < |h| && HasRoom(h[i], Padded(req) + MINOR_HEADER)
  {
    RoomHasFirstGap(h[i], Padded(req) + MINOR_HEADER);
    PlaceIn(h, i, FirstGap(h[i], Padded(req) + MINOR_HEADER, 0), Padded(req), req)
  }

  /** The heap with a new block at the end of the list that holds the request. */
  function Grown(h: Heap, req: nat, grant: Ptr): Heap {
    h + [Insert(FreshBlock(grant, Padded(req)), 0, Padded(req), req)]
  }

  /** The heap after malloc, and the pointer returned; start is the index the search begins at. */
  function AfterMalloc(h: Heap, start: nat, req: nat, grant: Ptr): (Heap, Ptr)
    requires start <= |h|
  {
    var need := Padded(req) + MINOR_HEADER;
    var i := ChosenBlock(h, need, start);
    if i < |h| then
      RoomHasFirstGap(h[i], need);
      (Placed(h, i, req), UserPtr(Cell(GapStart(h[i], FirstGap(h[i], need, 0)), Padded(req), req)))
    else if grant == 0 then (h, 0)
    else (Grown(h, req, grant), UserPtr(Cell(grant + MAJOR_HEADER, Padded(req), req)))
  }

  function RemoveCell(b: Block, k: nat): Block
    requires k < |b.cells|
  {
    b.(cells := b.cells[..k] + b.cells[k + 1..])
  }

  /** The heap after cell k of block i is freed: an emptied block goes back to the system. */
  function AfterFree(h: Heap, i: nat, k: nat): Heap
    requires i < |h| && k < |h[i].cells|
  {
    if |h[i].cells| == 1 then h[..i] + h[i + 1..] else h[i := RemoveCell(h[i], k)]
  }

  /** realloc to no more than was asked for before only records the smaller request. */
  function AfterShrink(h: Heap, i: nat, k: nat, req: nat): Heap
    requires i < |h| && k < |h[i].cells|
  {
    h[i := h[i].(cells := h[i].cells[k := h[i].cells[k].(req := req)])]
  }

  // ---------- what the steps keep ----------

  lemma InsertOrdered(b: Block, k: nat, size: nat, req: nat)
    requires BlockWF(b) && k <= |b.cells|
    requires GapFits(b, k, size + MINOR_HEADER)
    requires Padded(req) <= size
    ensures BlockWF(Insert(b, k, size, req))
  {
    var b' := Insert(b, k, size, req);
    forall j: nat | j <= |b'.cells|
      ensures GapStart(b', j) <= GapEnd(b', j)
    {
      if j < k {
        assert GapStart(b, j) <= GapEnd(b, j);
      } else if j > k {
        assert GapStart(b, j - 1) <= GapEnd(b, j - 1);
        if j > k + 1 {
          assert b'.cells[j - 1] == b.cells[j - 2];
        }
        if j < |b'.cells| {
          assert b'.cells[j] == b.cells[j - 1];
        }
      }
    }
  }

  lemma PlaceCore(h: Heap, i: nat, k: nat, size: nat, req: nat)
    requires HeapCore(h) && i < |h| && k <= |h[i].cells|
    requires GapFits(h[i], k, size + MINOR_HEADER) && Padded(req) <= size
    ensures HeapCore(PlaceIn(h, i, k, size, req))
  {
    InsertOrdered(h[i], k, size, req);
  }

  lemma FreshBlockWF(h: Heap, grant: Ptr, size: nat)
    requires HeapCore(h) && grant != 0 && GrantOk(h, grant, PagesRequested(size))
    requires size + MAJOR_HEADER + MINOR_HEADER <= TWO_32 - PAGE_SIZE
    ensures BlockSize(FreshBlock(grant, size)) == RecordedSize(size)
    ensures HeapCore(h + [FreshBlock(grant, size)])
    ensures GapFits(FreshBlock(grant, size), 0, size + MINOR_HEADER)
  {
  }

  lemma PlacedWF(h: Heap, i: nat, req: nat)
    requires HeapWF(h) && i < |h| && HasRoom(h[i], Padded(req) + MINOR_HEADER)
    ensures HeapWF(Placed(h, i, req))
  {
    RoomHasFirstGap(h[i], Padded(req) + MINOR_HEADER);
    PlaceCore(h, i, FirstGap(h[i], Padded(req) + MINOR_HEADER, 0), Padded(req), req);
  }

  lemma GrownWF(h: Heap, req: nat, grant: Ptr)
    requires HeapWF(h) && Fits(req)
    requires grant != 0 && GrantOk(h, grant, PagesRequested(Padded(req)))
    ensures HeapWF(Grown(h, req, grant))
  {
    var b := FreshBlock(grant, Padded(req));
    FreshBlockWF(h, grant, Padded(req));
    PlaceCore(h + [b], |h|, 0, Padded(req), req);
    assert PlaceIn(h + [b], |h|, 0, Padded(req), req) == Grown(h, req, grant);
  }

  /** malloc keeps the layout well formed. */
  lemma MallocWF(h: Heap, start: nat, req: nat, grant: Ptr)
    requires HeapWF(h) && start <= |h| && Fits(req)
    requires GrantOk(h, grant, PagesRequested(Padded(req)))
    ensures HeapWF(AfterMalloc(h, start, req, grant).0)
  {
    var i := ChosenBlock(h, Padded(req) + MINOR_HEADER, start);
    if i < |h| {
      PlacedWF(h, i, req);
    } else if grant != 0 {
      GrownWF(h, req, grant);
    }
  }

  lemma RemoveOrdered(b: Block, k: nat)
    requires BlockWF(b) && k < |b.cells|
    ensures BlockWF(RemoveCell(b, k))
  {
    var b' := RemoveCell(b, k);
    CellInside(b, k);
    forall j: nat | j <= |b'.cells|
      ensures GapStart(b', j) <= GapEnd(b', j)
    {
      assert GapStart(b, j) <= GapEnd(b, j);
      assert GapStart(b, j + 1) <= GapEnd(b, j + 1);
      if j > k {
        assert b'.cells[j - 1] == b.cells[j];
      }
    }
  }

  lemma FreeWF(h: Heap, i: nat, k: nat)
    requires HeapWF(h) && i < |h| && k < |h[i].cells|
    ensures HeapWF(AfterFree(h, i, k))
  {
    if |h[i].cells| != 1 {
      RemoveOrdered(h[i], k);
    }
  }

  lemma ShrinkWF(h: Heap, i: nat, k: nat, req: nat)
    requires HeapWF(h) && i < |h| && k < |h[i].cells| && req <= h[i].cells[k].req
    ensures HeapWF(AfterShrink(h, i, k, req))
  {
    var b, b' := h[i], AfterShrink(h, i, k, req)[i];
    forall j: nat | j <= |b'.cells|
      ensures GapStart(b', j) <= GapEnd(b', j)
    {
      assert GapStart(b, j) <= GapEnd(b, j);
    }
  }

  // ---------- completeness of the search ----------

  /** malloc turns to the system only when no gap of any listed block holds the request, and
      fails only when moreover the system has nothing to give; what it places, it places in a
      gap that was long enough. */
  lemma SearchComplete(h: Heap, start: nat, req: nat, grant: Ptr)
    requires start <= |h|
    ensures var (h', p) := AfterMalloc(h, start, req, grant);
            var need := Padded(req) + MINOR_HEADER;
            && (p == 0 <==> grant == 0 && forall i :: 0 <= i < |h| ==> !HasRoom(h[i], need))
            && (|h'| > |h| <==> grant != 0 && forall i :: 0 <= i < |h| ==> !HasRoom(h[i], need))
  {
  }

  /** No listed block has room for a request. */
  ghost predicate NowhereFits(h: Heap, req: nat) {
    forall i :: 0 <= i < |h| ==> !HasRoom(h[i], Padded(req) + MINOR_HEADER)
  }

  lemma FailsIff(h: Heap, start: nat, req: nat, grant: Ptr)
    requires start <= |h|
    ensures AfterMalloc(h, start, req, grant).1 == 0 <==> grant == 0 && NowhereFits(h, req)
  {
    SearchComplete(h, start, req, grant);
  }

  /** No listed block has room for a request past Fits. */
  lemma OversizedNeverFits(b: Block, req: nat)
    requires BlockWF(b) && !Fits(req)
    ensures BlockSize(b) - Usage(b) < Padded(req) + MINOR_HEADER
    ensures !HasRoom(b, Padded(req) + MINOR_HEADER)
  {
    SkipIsSound(b, Padded(req) + MINOR_HEADER);
  }

  // ---------- which cells a step leaves ----------

  ghost predicate HasCell(h: Heap, c: Cell) {
    exists i: nat, k: nat :: i < |h| && k < |h[i].cells| && h[i].cells[k] == c
  }

  /** The cell malloc makes for a request. */
  function NewCell(h: Heap, start: nat, req: nat, grant: Ptr): Cell
    requires start <= |h|
  {
    var need := Padded(req) + MINOR_HEADER;
    var i := ChosenBlock(h, need, start);
    if i < |h| then
      RoomHasFirstGap(h[i], need);
      Cell(GapStart(h[i], FirstGap(h[i], need, 0)), Padded(req), req)
    else Cell(grant + MAJOR_HEADER, Padded(req), req)
  }

  /** After a successful malloc the heap holds the new cell, and every old one as it was,
      apart from the new one. */
  lemma MallocCells(h: Heap, start: nat, req: nat, grant: Ptr)
    requires HeapWF(h) && start <= |h| && Fits(req)
    requires GrantOk(h, grant, PagesRequested(Padded(req)))
    requires AfterMalloc(h, start, req, grant).1 != 0
    ensures var (h', p) := AfterMalloc(h, start, req, grant);
            var c := NewCell(h, start, req, grant);
            && UserPtr(c) == p && HasCell(h', c)
            && forall d :: HasCell(h, d) ==> HasCell(h', d) && (CellEnd(d) <= c.addr || CellEnd(c) <= d.addr)
  {
    var (h', p) := AfterMalloc(h, start, req, grant);
    var need := Padded(req) + MINOR_HEADER;
    var i := ChosenBlock(h, need, start);
    MallocWF(h, start, req, grant);
    if i < |h| {
      RoomHasFirstGap(h[i], need);
      PlaceCells(h, i, FirstGap(h[i], need, 0), Padded(req), req);
    } else {
      FreshBlockWF(h, grant, Padded(req));
      var b := FreshBlock(grant, Padded(req));
      assert PlaceIn(h + [b], |h|, 0, Padded(req), req) == h';
      PlaceCells(h + [b], |h|, 0, Padded(req), req);
      forall d | HasCell(h, d)
        ensures HasCell(h + [b], d)
      {
        var i': nat, k': nat :| i' < |h| && k' < |h[i'].cells| && h[i'].cells[k'] == d;
        assert (h + [b])[i'].cells[k'] == d;
      }
    }
  }

  lemma PlaceCells(h: Heap, i: nat, k: nat, size: nat, req: nat)
    requires HeapCore(h) && i < |h| && k <= |h[i].cells|
    requires HeapCore(PlaceIn(h, i, k, size, req))
    ensures var h', c := PlaceIn(h, i, k, size, req), Cell(GapStart(h[i], k), size, req);
            && HasCell(h', c)
            && forall d :: HasCell(h, d) ==> HasCell(h', d) && (CellEnd(d) <= c.addr || CellEnd(c) <= d.addr)
  {
    var h', c := PlaceIn(h, i, k, size, req), Cell(GapStart(h[i], k), size, req);
    assert h'[i].cells[k] == c;
    forall d | HasCell(h, d)
      ensures HasCell(h', d) && (CellEnd(d) <= c.addr || CellEnd(c) <= d.addr)
    {
      var j: nat, l: nat :| j < |h| && l < |h[j].cells| && h[j].cells[l] == d;
      var l' := if j == i && l >= k then l + 1 else l;
      assert h'[j].cells[l'] == d;
      AllCellsApart(h', i, k, j, l');
    }
  }

  lemma FreeLeaves(h: Heap, i: nat, k: nat, d: Cell)
    requires i < |h| && k < |h[i].cells| && HasCell(h, d) && d != h[i].cells[k]
    ensures HasCell(AfterFree(h, i, k), d)
  {
    var h' := AfterFree(h, i, k);
    var j: nat, l: nat :| j < |h| && l < |h[j].cells| && h[j].cells[l] == d;
    var j' := if |h[i].cells| == 1 && j > i then j - 1 else j;
    var l' := if j == i && l > k then l - 1 else l;
    assert h'[j'].cells[l'] == d;
  }

  lemma FreeAddsNothing(h: Heap, i: nat, k: nat, d: Cell)
    requires HeapWF(h) && i < |h| && k < |h[i].cells| && HasCell(AfterFree(h, i, k), d)
    ensures HasCell(h, d) && d != h[i].cells[k]
  {
    var h' := AfterFree(h, i, k);
    var j: nat, l: nat :| j < |h'| && l < |h'[j].cells| && h'[j].cells[l] == d;
    var j' := if |h[i].cells| == 1 && j >= i then j + 1 else j;
    var l' := if j' == i && l >= k then l + 1 else l;
    assert h[j'].cells[l'] == d;
    AllCellsApart(h, i, k, j', l');
  }

  /** free takes away the one cell and nothing else. */
  lemma FreeCells(h: Heap, i: nat, k: nat, d: Cell)
    requires HeapWF(h) && i < |h| && k < |h[i].cells|
    ensures HasCell(AfterFree(h, i, k), d) <==> HasCell(h, d) && d != h[i].cells[k]
  {
    if HasCell(AfterFree(h, i, k), d) {
      FreeAddsNothing(h, i, k, d);
    } else if HasCell(h, d) && d != h[i].cells[k] {
      FreeLeaves(h, i, k, d);
    }
  }

  /** A shrinking realloc records the smaller request of the one cell and touches no other. */
  lemma ShrinkCells(h: Heap, i: nat, k: nat, req: nat, d: Cell)
    requires HeapWF(h) && i < |h| && k < |h[i].cells|
    ensures HasCell(AfterShrink(h, i, k, req), d)
            <==> d == h[i].cells[k].(req := req) || (HasCell(h, d) && d != h[i].cells[k])
  {
    var h' := AfterShrink(h, i, k, req);
    assert h'[i].cells[k] == h[i].cells[k].(req := req);
    if HasCell(h', d) {
      var j: nat, l: nat :| j < |h'| && l < |h'[j].cells| && h'[j].cells[l] == d;
      if (j, l) != (i, k) {
        assert h[j].cells[l] == d;
        AllCellsApart(h, i, k, j, l);
      }
    }
    if HasCell(h, d) && d != h[i].cells[k] {
      var j: nat, l: nat :| j < |h| && l < |h[j].cells| && h[j].cells[l] == d;
      assert h'[j].cells[l] == d;
    }
  }

  // ---------- accounting over steps ----------

  lemma {:induction false} SplitSums(xs: seq<Cell>, ys: seq<Cell>)
    ensures CellBytes(xs + ys) == CellBytes(xs) + CellBytes(ys)
    ensures PayloadBytes(xs + ys) == PayloadBytes(xs) + PayloadBytes(ys)
  {
    if ys == [] {
      assert xs + ys == xs;
    } else {
      assert (xs + ys)[..|xs + ys| - 1] == xs + ys[..|ys| - 1];
      SplitSums(xs, ys[..|ys| - 1]);
    }
  }

  lemma {:induction false} SplitHeapSums(g: Heap, h: Heap)
    ensures InUse(g + h) == InUse(g) + InUse(h)
    ensures Allocated(g + h) == Allocated(g) + Allocated(h)
  {
    if h == [] {
      assert g + h == g;
    } else {
      assert (g + h)[..|g + h| - 1] == g + h[..|h| - 1];
      SplitHeapSums(g, h[..|h| - 1]);
    }
  }

  lemma OneBlockSums(b: Block)
    ensures InUse([b]) == PayloadBytes(b.cells)
    ensures Allocated([b]) == BlockSize(b)
  {
  }

  lemma OneCellSums(c: Cell)
    ensures CellBytes([c]) == c.size + MINOR_HEADER
    ensures PayloadBytes([c]) == c.size
  {
  }

  /** Replacing one block changes the totals by the difference of the two blocks. */
  lemma ReplaceSums(h: Heap, i: nat, b: Block)
    requires i < |h|
    ensures InUse(h[i := b]) == InUse(h) - PayloadBytes(h[i].cells) + PayloadBytes(b.cells)
    ensures Allocated(h[i := b]) == Allocated(h) - BlockSize(h[i]) + BlockSize(b)
  {
    assert h == h[..i] + [h[i]] + h[i + 1..];
    assert h[i := b] == h[..i] + [b] + h[i + 1..];
    SplitHeapSums(h[..i] + [h[i]], h[i + 1..]);
    SplitHeapSums(h[..i], [h[i]]);
    SplitHeapSums(h[..i] + [b], h[i + 1..]);
    SplitHeapSums(h[..i], [b]);
    OneBlockSums(h[i]);
    OneBlockSums(b);
  }

  lemma InsertSums(b: Block, k: nat, size: nat, req: nat)
    requires k <= |b.cells|
    ensures Usage(Insert(b, k, size, req)) == Usage(b) + size + MINOR_HEADER
    ensures PayloadBytes(Insert(b, k, size, req).cells) == PayloadBytes(b.cells) + size
  {
    var c := Cell(GapStart(b, k), size, req);
    assert b.cells == b.cells[..k] + b.cells[k..];
    SplitSums(b.cells[..k], b.cells[k..]);
    SplitSums(b.cells[..k], [c]);
    SplitSums(b.cells[..k] + [c], b.cells[k..]);
    OneCellSums(c);
  }

  lemma RemoveSums(b: Block, k: nat)
    requires k < |b.cells|
    ensures Usage(RemoveCell(b, k)) == Usage(b) - b.cells[k].size - MINOR_HEADER
    ensures PayloadBytes(RemoveCell(b, k).cells) == PayloadBytes(b.cells) - b.cells[k].size
  {
    var c := b.cells[k];
    assert b.cells == b.cells[..k] + [c] + b.cells[k + 1..];
    SplitSums(b.cells[..k], b.cells[k + 1..]);
    SplitSums(b.cells[..k], [c]);
    SplitSums(b.cells[..k] + [c], b.cells[k + 1..]);
    OneCellSums(c);
  }

  lemma PlaceSums(h: Heap, i: nat, k: nat, size: nat, req: nat)
    requires i < |h| && k <= |h[i].cells|
    ensures InUse(PlaceIn(h, i, k, size, req)) == InUse(h) + size
    ensures Allocated(PlaceIn(h, i, k, size, req)) == Allocated(h)
  {
    InsertSums(h[i], k, size, req);
    ReplaceSums(h, i, Insert(h[i], k, size, req));
  }

  /** Freeing takes the payload out of the total in use, and out of the total held exactly
      the block that became empty. */
  lemma FreeSums(h: Heap, i: nat, k: nat)
    requires i < |h| && k < |h[i].cells|
    ensures InUse(AfterFree(h, i, k)) == InUse(h) - h[i].cells[k].size
    ensures Allocated(AfterFree(h, i, k)) ==
            Allocated(h) - (if |h[i].cells| == 1 then BlockSize(h[i]) else 0)
  {
    RemoveSums(h[i], k);
    if |h[i].cells| == 1 {
      assert h == h[..i] + [h[i]] + h[i + 1..];
      SplitHeapSums(h[..i] + [h[i]], h[i + 1..]);
      SplitHeapSums(h[..i], [h[i]]);
      SplitHeapSums(h[..i], h[i + 1..]);
      OneBlockSums(h[i]);
      assert h[i].cells == [h[i].cells[0]];
      OneCellSums(h[i].cells[0]);
    } else {
      ReplaceSums(h, i, RemoveCell(h[i], k));
    }
  }

  lemma ShrinkSums(h: Heap, i: nat, k: nat, req: nat)
    requires i < |h| && k < |h[i].cells|
    ensures Usage(AfterShrink(h, i, k, req)[i]) == Usage(h[i])
    ensures InUse(AfterShrink(h, i, k, req)) == InUse(h)
    ensures Allocated(AfterShrink(h, i, k, req)) == Allocated(h)
  {
    var b := h[i];
    var c, c' := b.cells[k], b.cells[k].(req := req);
    var b' := b.(cells := b.cells[k := c']);
    assert b.cells == b.cells[..k] + [c] + b.cells[k + 1..];
    assert b'.cells == b.cells[..k] + [c'] + b.cells[k + 1..];
    SplitSums(b.cells[..k] + [c], b.cells[k + 1..]);
    SplitSums(b.cells[..k], [c]);
    SplitSums(b.cells[..k] + [c'], b.cells[k + 1..]);
    SplitSums(b.cells[..k], [c']);
    OneCellSums(c);
    OneCellSums(c');
    ReplaceSums(h, i, b');
  }

  // ---------- safety ----------

  /** The payload bytes the caller of malloc may use. */
  ghost predicate InPayload(c: Cell, a: nat) {
    UserPtr(c) <= a < UserPtr(c) + c.req
  }

  /** No address belongs to the usable bytes of two live allocations, or to a usable byte and
      a header. */
  ghost predicate UsableApart(h: Heap) {
    forall i: nat, k: nat, i': nat, k': nat, a: nat ::
      i < |h| && k < |h[i].cells| && i' < |h| && k' < |h[i'].cells| && InPayload(h[i].cells[k], a) ==>
      && (InPayload(h[i'].cells[k'], a) ==> i == i' && k == k')
      && !(h[i'].cells[k'].addr <= a < h[i'].cells[k'].addr + MINOR_HEADER)
      && !(h[i'].addr <= a < h[i'].addr + MAJOR_HEADER)
  }

  lemma UsableBytesApart(h: Heap, i: nat, k: nat, i': nat, k': nat, a: nat)
    requires HeapCore(h) && i < |h| && k < |h[i].cells| && i' < |h| && k' < |h[i'].cells|
    requires InPayload(h[i].cells[k], a)
    ensures InPayload(h[i'].cells[k'], a) ==> i == i' && k == k'
    ensures !(h[i'].cells[k'].addr <= a < h[i'].cells[k'].addr + MINOR_HEADER)
    ensures !(h[i'].addr <= a < h[i'].addr + MAJOR_HEADER)
  {
    PayloadInsideCell(h[i].cells[k]);
    PayloadInsideCell(h[i'].cells[k']);
    CellInside(h[i], k);
    CellInside(h[i'], k');
    if (i, k) != (i', k') {
      AllCellsApart(h, i, k, i', k');
    }
    if i != i' {
      assert Apart(h[i], h[i']) || Apart(h[i'], h[i]);
    }
  }

  /** A well-formed heap never hands out the same byte twice, nor a byte of a header. */
  lemma WellFormedIsSafe(h: Heap)
    requires HeapCore(h)
    ensures UsableApart(h)
  {
    forall i: nat, k: nat, i': nat, k': nat, a: nat |
      i < |h| && k < |h[i].cells| && i' < |h| && k' < |h[i'].cells| && InPayload(h[i].cells[k], a)
      ensures InPayload(h[i'].cells[k'], a) ==> i == i' && k == k'
      ensures !(h[i'].cells[k'].addr <= a < h[i'].cells[k'].addr + MINOR_HEADER)
      ensures !(h[i'].addr <= a < h[i'].addr + MAJOR_HEADER)
    {
      UsableBytesApart(h, i, k, i', k', a);
    }
  }
}
