/** liballoc.c: the kernel heap, with its lists of majors and minors threaded through memory.

    Memory is seen by address: majors and minors hold the headers found at an address, bytes
    the payload.  Pointers are addresses, as in the source, so a cast of an address to a
    header is a lookup.  The ghost field heap is the layout that the links represent. */
module Liballoc {
  import opened Pages
  import opened HeapLayout
  import opened HeapSpec
  import opened HeapLinks
  import opened HeapImage
  import opened HeapRuns

  datatype ReallocResult = Returned(p: Ptr) | CopyToNull

  class Allocator {
    var majors: Majors
    var minors: Minors
    var bytes: Bytes
    var memRoot: Ptr
    var bestBet: Ptr
    var inuse: nat
    var obtained: nat
    var held: map<Ptr, nat>
    var warningCount: nat
    var errorCount: nat
    var possibleOverruns: nat
    ghost var heap: Heap

    ghost function Snapshot(): Image
      reads this
    {
      Image(majors, minors, bytes, memRoot, bestBet, inuse, obtained, held)
    }

    /** The links represent the layout; a block may be empty. */
    ghost predicate Linked()
      reads this
    {
      Represents(Snapshot(), heap)
    }

    /** What holds between calls. */
    ghost predicate Valid()
      reads this
    {
      Linked() && HeapWF(heap)
    }

    constructor (memory: Bytes)
      ensures Valid() && heap == [] && bytes == memory
    {
      majors, minors, bytes := map[], map[], memory;
      memRoot, bestBet := 0, 0;
      inuse, obtained, held := 0, 0, map[];
      warningCount, errorCount, possibleOverruns := 0, 0, 0;
      heap := [];
    }

    // ---------- the page hook ----------

    /** Asks the system for pages and sets up the header of the new major.  grant is what the
        page hook answers, 0 for NULL. */
    method AllocateNewPage(size: nat, grant: Ptr) returns (maj: Ptr)
      modifies this`majors, this`obtained, this`held, this`warningCount
      ensures maj == grant
      ensures grant == 0 ==> majors == old(majors) && obtained == old(obtained) && held == old(held)
      ensures grant == 0 ==> warningCount == old(warningCount) + 1
      ensures grant != 0 ==> warningCount == old(warningCount)
      ensures grant != 0 ==>
                && 0 <= RecordedSize(size) < TWO_32 && PagesRequested(size) < TWO_32
                && majors == old(majors)[grant :=
                     Major(0, 0, PagesRequested(size), RecordedSize(size), MAJOR_HEADER, 0)]
                && obtained == old(obtained) + RecordedSize(size)
                && held == old(held)[grant := PagesRequested(size)]
    {
      var st: u32 := (size % TWO_32 + MAJOR_HEADER) % TWO_32;
      st := (st + MINOR_HEADER) % TWO_32;
      if st % PAGE_SIZE == 0 {
        st := st / PAGE_SIZE;
      } else {
        st := st / PAGE_SIZE + 1;
      }
      if st < PAGE_COUNT {
        st := PAGE_COUNT;
      }
      maj := grant;
      if maj == 0 {
        warningCount := warningCount + 1;
        return;
      }
      held := held[maj := st];
      majors := majors[maj := Major(0, 0, st, st * PAGE_SIZE % TWO_32, MAJOR_HEADER, 0)];
      obtained := obtained + majors[maj].size;
    }

    /** Obtains a major and links it behind the last one, or makes it the root of an empty list. */
    method ObtainBehind(maj: Ptr, size: nat, grant: Ptr) returns (next: Ptr)
      requires maj != 0 ==> maj in majors && maj != grant
      modifies this`majors, this`obtained, this`held, this`warningCount, this`memRoot
      ensures next == grant
      ensures grant == 0 ==> Snapshot() == old(Snapshot()) && warningCount == old(warningCount) + 1
      ensures grant != 0 ==>
                Snapshot() == ObtainedImage(old(Snapshot()), maj, grant, size) && warningCount == old(warningCount)
    {
      next := AllocateNewPage(size, grant);
      if next == 0 {
        return;
      }
      if maj == 0 {
        memRoot := next;
      } else {
        majors := majors[maj := majors[maj].(next := next)];
        majors := majors[next := majors[next].(prev := maj)];
      }
    }

    // ---------- placing a cell ----------

    /** ALIGN: moves a raw payload address up and leaves the distance in front of it. */
    method Align(raw: Ptr) returns (p: Ptr)
      modifies this`bytes
      ensures p == Aligned(raw)
      ensures bytes == old(bytes)[p - ALIGN_INFO := p - raw]
    {
      p := raw + ALIGN_INFO;
      var diff := p % ALIGNMENT;
      if diff != 0 {
        diff := ALIGNMENT - diff;
        p := p + diff;
      }
      bytes := bytes[p - ALIGN_INFO := diff + ALIGN_INFO];
    }

    /** The layout catches up with a cell that was linked into the first gap that holds it. */
    ghost method NotePlaced(s: Image, i: nat, k: nat, size: u32, req: u32, p: Ptr)
      requires Represents(s, heap) && i < |heap| && k <= |heap[i].cells| && Padded(req) == size
      requires GapFits(heap[i], k, size + MINOR_HEADER) && Placeable(s, heap[i], k, size)
      requires NoGapBelow(heap[i], k, size + MINOR_HEADER)
      requires Snapshot() == PlacedImage(s, heap[i], k, size, req)
      requires p == UserPtr(Cell(GapStart(heap[i], k), size, req))
      modifies this`heap
      ensures Linked() && PlacedFrom(old(heap), heap, i, req, p, s.bytes, bytes)
    {
      PlaceRepresents(s, heap, i, k, size, req);
      FoundFirst(heap, i, k, size, req, p, s.bytes, bytes);
      heap := PlaceIn(heap, i, k, size, req);
    }

    /** CASE 2: a brand new block, whatever space it has.  The fields are 32 bits wide. */
    method FillNew(maj: Ptr, size: nat, req: nat) returns (p: Ptr)
      requires maj in majors && size == Padded(req)
      modifies this`majors, this`minors, this`bytes, this`inuse
      ensures p == UserPtr(CutCell(maj, req)) && Snapshot() == FilledImage(old(Snapshot()), maj, req)
    {
      var first := maj + MAJOR_HEADER;
      minors := Overwrite(minors, first, first + MINOR_HEADER + size % TWO_32);
      minors := minors[first := Minor(0, 0, maj, MAGIC, size % TWO_32, req % TWO_32)];
      var usage := (majors[maj].usage + size + MINOR_HEADER) % TWO_32;
      majors := majors[maj := majors[maj].(first := first, usage := usage)];
      inuse := inuse + size;
      p := Align(first + MINOR_HEADER);
    }

    /** CASE 2 where the block has space. */
    method PlaceInNew(maj: Ptr, size: u32, req: u32, ghost b: Block) returns (p: Ptr)
      requires maj == b.addr && b.cells == [] && Placeable(Snapshot(), b, 0, size) && size == Padded(req)
      modifies this`majors, this`minors, this`bytes, this`inuse
      ensures Snapshot() == PlacedImage(old(Snapshot()), b, 0, size, req)
      ensures p == UserPtr(Cell(GapStart(b, 0), size, req))
    {
      FilledIsPlaced(Snapshot(), b, size, req);
      p := FillNew(maj, size, req);
    }

    /** CASE 3: enough space in front of the first cell. */
    method PlaceInFront(maj: Ptr, size: u32, req: u32, ghost b: Block) returns (p: Ptr)
      requires maj == b.addr && b.cells != [] && Placeable(Snapshot(), b, 0, size)
      requires majors[maj].first == b.cells[0].addr
      modifies this`majors, this`minors, this`bytes, this`inuse
      ensures Snapshot() == PlacedImage(old(Snapshot()), b, 0, size, req)
      ensures p == UserPtr(Cell(GapStart(b, 0), size, req))
    {
      var first := maj + MAJOR_HEADER;
      minors := Overwrite(minors, first, first + MINOR_HEADER + size);
      LinkFront(minors, b, size, req);
      var after := majors[maj].first;
      assert first == GapStart(b, 0) && after == b.cells[0].addr;
      minors := minors[after := minors[after].(prev := first)];
      minors := minors[first := Minor(0, after, maj, MAGIC, size, req)];
      majors := majors[maj := majors[maj].(first := first, usage := majors[maj].usage + size + MINOR_HEADER)];
      inuse := inuse + size;
      p := Align(first + MINOR_HEADER);
    }

    /** CASE 4.1: enough space behind the last cell. */
    method PlaceAtEnd(maj: Ptr, min: Ptr, size: u32, req: u32, ghost b: Block, ghost k: nat) returns (p: Ptr)
      requires maj == b.addr && 0 < k == |b.cells| && Placeable(Snapshot(), b, k, size)
      requires min == b.cells[k - 1].addr
      modifies this`majors, this`minors, this`bytes, this`inuse
      ensures Snapshot() == PlacedImage(old(Snapshot()), b, k, size, req)
      ensures p == UserPtr(Cell(GapStart(b, k), size, req))
    {
      var next := min + MINOR_HEADER + minors[min].size;
      assert next == GapStart(b, k);
      minors := Overwrite(minors, next, next + MINOR_HEADER + size);
      LinkEnd(minors, b, k, size, req);
      minors := minors[min := minors[min].(next := next)];
      minors := minors[next := Minor(min, 0, maj, MAGIC, size, req)];
      majors := majors[maj := majors[maj].(usage := majors[maj].usage + size + MINOR_HEADER)];
      inuse := inuse + size;
      p := Align(next + MINOR_HEADER);
    }

    /** CASE 4.2: enough space between a cell and the next one. */
    method PlaceBetween(maj: Ptr, min: Ptr, size: u32, req: u32, ghost b: Block, ghost k: nat) returns (p: Ptr)
      requires maj == b.addr && 0 < k < |b.cells| && Placeable(Snapshot(), b, k, size)
      requires min == b.cells[k - 1].addr
      modifies this`majors, this`minors, this`bytes, this`inuse
      ensures Snapshot() == PlacedImage(old(Snapshot()), b, k, size, req)
      ensures p == UserPtr(Cell(GapStart(b, k), size, req))
    {
      var newMin := min + MINOR_HEADER + minors[min].size;
      assert newMin == GapStart(b, k);
      minors := Overwrite(minors, newMin, newMin + MINOR_HEADER + size);
      LinkBetween(minors, b, k, size, req);
      var next := minors[min].next;
      assert next == b.cells[k].addr;
      minors := minors[newMin := Minor(min, next, maj, MAGIC, size, req)];
      minors := minors[next := minors[next].(prev := newMin)];
      minors := minors[min := minors[min].(next := newMin)];
      majors := majors[maj := majors[maj].(usage := majors[maj].usage + size + MINOR_HEADER)];
      inuse := inuse + size;
      p := Align(newMin + MINOR_HEADER);
    }

    /** Places the request into gap k of block i, behind the cell at min. */
    method PlaceInGap(maj: Ptr, min: Ptr, size: u32, req: u32, ghost i: nat, ghost k: nat) returns (p: Ptr)
      requires Linked() && i < |heap| && maj == heap[i].addr
      requires 0 < k <= |heap[i].cells| && min == heap[i].cells[k - 1].addr
      requires Padded(req) == size && NoGapBelow(heap[i], k, size + MINOR_HEADER)
      requires GapFits(heap[i], k, size + MINOR_HEADER)
      modifies this`majors, this`minors, this`bytes, this`inuse, this`heap
      ensures Linked() && p != 0 && PlacedFrom(old(heap), heap, i, req, p, old(bytes), bytes)
    {
      ghost var s, b := Snapshot(), heap[i];
      PlaceFacts(s, heap, i, k, size);
      LinkedCellFacts(s, heap, i, k - 1);
      if minors[min].next == 0 {
        p := PlaceAtEnd(maj, min, size, req, b, k);
      } else {
        p := PlaceBetween(maj, min, size, req, b, k);
      }
      NotePlaced(s, i, k, size, req, p);
    }

    /** CASES 4.1 and 4.2 for one cell: places the request behind it if there is space up to
        the next cell or the end of the major. */
    method PlaceAfter(maj: Ptr, min: Ptr, size: u32, req: u32, ghost i: nat, ghost k: nat) returns (p: Ptr)
      requires Linked() && i < |heap| && maj == heap[i].addr && k < |heap[i].cells| && min == heap[i].cells[k].addr
      requires Padded(req) == size && NoGapBelow(heap[i], k + 1, size + MINOR_HEADER)
      modifies this`majors, this`minors, this`bytes, this`inuse, this`heap
      ensures Linked()
      ensures p == 0 ==> Snapshot() == old(Snapshot()) && heap == old(heap)
      ensures p == 0 ==> NoGapBelow(heap[i], k + 2, size + MINOR_HEADER)
      ensures p != 0 ==> PlacedFrom(old(heap), heap, i, req, p, old(bytes), bytes)
    {
      MeasuredGap(Snapshot(), heap, i, k, maj, min, size + MINOR_HEADER);
      p := 0;
      if minors[min].next == 0 {
        var diff := maj + majors[maj].size - min - MINOR_HEADER - minors[min].size;
        if diff >= size + MINOR_HEADER {
          p := PlaceInGap(maj, min, size, req, i, k + 1);
          return;
        }
      }
      if minors[min].next != 0 {
        var diff := minors[min].next - min - MINOR_HEADER - minors[min].size;
        if diff >= size + MINOR_HEADER {
          p := PlaceInGap(maj, min, size, req, i, k + 1);
        }
      }
    }

    /** CASE 4: walks the cells of a major for a gap behind one of them; 0 when there is none. */
    method PlaceBehind(maj: Ptr, size: u32, req: u32, ghost i: nat) returns (p: Ptr)
      requires Linked() && i < |heap| && maj == heap[i].addr && heap[i].cells != []
      requires Padded(req) == size && !GapFits(heap[i], 0, size + MINOR_HEADER)
      modifies this`majors, this`minors, this`bytes, this`inuse, this`heap
      ensures Linked()
      ensures p == 0 ==> Snapshot() == old(Snapshot()) && heap == old(heap) && !HasRoom(heap[i], size + MINOR_HEADER)
      ensures p != 0 ==> PlacedFrom(old(heap), heap, i, req, p, old(bytes), bytes)
    {
      ghost var s, b, need := Snapshot(), heap[i], size + MINOR_HEADER;
      ghost var k := 0;
      assert MajorLinked(majors, heap, i);
      LinkedCellFacts(s, heap, i, 0);
      var min := majors[maj].first;
      while min != 0
        invariant Snapshot() == s && heap == old(heap)
        invariant k <= |b.cells| && min == CellAddr(b, k) && (k < |b.cells| ==> min != 0)
        invariant NoGapBelow(b, k + 1, need)
        decreases |b.cells| - k
      {
        LinkedCellFacts(s, heap, i, k);
        ghost var following := CellAddr(b, k + 1);
        p := PlaceAfter(maj, min, size, req, i, k);
        if p != 0 {
          return;
        }
        min := minors[min].next;
        assert min == following;
        k := k + 1;
      }
      p := 0;
    }

    // ---------- malloc ----------

    /** CASES 2 to 4 for one major; 0 when none of its gaps holds the request. */
    method PlaceInMajor(maj: Ptr, size: u32, req: u32, ghost i: nat) returns (p: Ptr)
      requires Linked() && i < |heap| && maj == heap[i].addr && Padded(req) == size
      requires BlockSize(heap[i]) - Usage(heap[i]) >= size + MINOR_HEADER
      modifies this`majors, this`minors, this`bytes, this`inuse, this`heap
      ensures Linked()
      ensures p == 0 ==> Snapshot() == old(Snapshot()) && heap == old(heap) && !HasRoom(heap[i], size + MINOR_HEADER)
      ensures p != 0 ==> PlacedFrom(old(heap), heap, i, req, p, old(bytes), bytes)
    {
      ghost var s, b := Snapshot(), heap[i];
      assert MajorLinked(majors, heap, i);
      NullMeansEmpty(heap, i);
      if majors[maj].first == 0 {
        PlaceFacts(s, heap, i, 0, size);
        p := PlaceInNew(maj, size, req, b);
        NotePlaced(s, i, 0, size, req, p);
        return;
      }
      var diff := majors[maj].first - maj - MAJOR_HEADER;
      if diff >= size + MINOR_HEADER {
        PlaceFacts(s, heap, i, 0, size);
        p := PlaceInFront(maj, size, req, b);
        NotePlaced(s, i, 0, size, req, p);
        return;
      }
      p := PlaceBehind(maj, size, req, i);
    }

    /** Grow, with the layout catching up. */
    method GrowList(maj: Ptr, size: nat, grant: Ptr) returns (next: Ptr)
      requires Linked() && maj == BlockAddr(heap, |heap| - 1)
      requires size + MAJOR_HEADER + MINOR_HEADER <= TWO_32 - PAGE_SIZE
      requires GrantOk(heap, grant, PagesRequested(size))
      modifies this`majors, this`obtained, this`held, this`warningCount, this`memRoot, this`heap
      ensures Linked() && next == grant
      ensures grant == 0 ==> Snapshot() == old(Snapshot()) && heap == old(heap) && warningCount == old(warningCount) + 1
      ensures grant != 0 ==> heap == old(heap) + [FreshBlock(grant, size)] && warningCount == old(warningCount)
    {
      ghost var s, b := Snapshot(), FreshBlock(grant, size);
      GrowFacts(s, heap, maj, grant, size, b);
      if grant != 0 { ObtainedIsGrown(s, maj, grant, size, b); }
      next := ObtainBehind(maj, size, grant);
      if next != 0 {
        GrowRepresents(s, heap, b);
        heap := heap + [b];
      }
    }

    /** Remembers a major with more free bytes than the best bet so far. */
    method NoteBest(maj: Ptr, bestSize: int, ghost i: nat) returns (newBest: int)
      requires Linked() && i < |heap| && maj == heap[i].addr
      modifies this`bestBet
      ensures Linked()
      ensures bestBet == (if bestSize < FreeTotal(heap[i]) then maj else old(bestBet))
      ensures newBest == (if bestSize < FreeTotal(heap[i]) then FreeTotal(heap[i]) else bestSize)
    {
      assert MajorLinked(majors, heap, i);
      newBest := bestSize;
      if bestSize < majors[maj].size - majors[maj].usage {
        bestBet := maj;
        newBest := majors[maj].size - majors[maj].usage;
      }
    }

    /** Where malloc begins: the best bet if it has more than enough free bytes, or the root. */
    method StartSearch(size: u32) returns (maj: Ptr, startedBet: bool, bestSize: int)
      requires Linked() && heap != []
      ensures maj == BlockAddr(heap, if startedBet then StartIndex(heap, bestBet, size) else 0)
      ensures !startedBet ==> StartIndex(heap, bestBet, size) == 0
      ensures StartIndex(heap, bestBet, size) < |heap| && BetIs(heap, bestBet, bestSize)
    {
      maj, startedBet, bestSize := memRoot, false, 0;
      ghost var i := IndexOf(heap, bestBet);
      if i < |heap| { assert MajorLinked(majors, heap, i); }
      if bestBet != 0 {
        bestSize := majors[bestBet].size - majors[bestBet].usage;
        if bestSize > size + MINOR_HEADER {
          maj, startedBet := bestBet, true;
        }
      }
    }

    /** The first major to look at: the best bet, the root, or in an empty heap a new one. */
    method BeginSearch(size: u32, grant: Ptr) returns (maj: Ptr, startedBet: bool, bestSize: int, ghost q: Search)
      requires Linked() && GrantOk(heap, grant, PagesRequested(size))
      requires size + MAJOR_HEADER + MINOR_HEADER <= TWO_32 - PAGE_SIZE
      modifies this`majors, this`obtained, this`held, this`warningCount, this`memRoot, this`heap
      ensures Linked() && q.h0 == old(heap) && q.start == StartIndex(old(heap), old(bestBet), size)
      ensures q.size == size && q.grant == grant && q.start <= |q.h0|
      ensures if maj == 0 then NothingFound(q) && q.h0 == [] else At(q, maj, startedBet, size, grant)
      ensures Outdone(q, bestSize)
      ensures warningCount == old(warningCount) + (if maj == 0 then 1 else 0) && BetIs(old(heap), bestBet, bestSize)
    {
      q := Search(heap, heap, size, StartIndex(heap, bestBet, size), grant, false, false, 0);
      maj, startedBet, bestSize := 0, false, 0;
      ListedNotNull(heap);
      if memRoot == 0 {
        Begun(q);
        maj := GrowList(0, size, grant);
        q := q.(h := heap, grown := maj != 0);
      } else {
        maj, startedBet, bestSize := StartSearch(size);
        q := q.(bet := startedBet, i := if startedBet then q.start else 0);
        Begun(q);
      }
    }

    /** What CASES 1 and 5 do with a major that does not hold the request: go to the next one;
        behind the last one start over at the root if the search began at the best bet, and
        obtain a new major otherwise.  The result is 0 when the system has none. */
    method LeaveMajor(maj: Ptr, startedBet: bool, size: u32, grant: Ptr, ghost q: Search)
      returns (next: Ptr, bet: bool, grew: bool, ghost q': Search)
      requires Linked() && At(q, maj, startedBet, size, grant) && !q.grown
      requires !HasRoom(heap[q.i], size + MINOR_HEADER)
      requires size + MAJOR_HEADER + MINOR_HEADER <= TWO_32 - PAGE_SIZE
      requires GrantOk(q.h0, grant, PagesRequested(size))
      modifies this`majors, this`obtained, this`held, this`warningCount, this`memRoot, this`heap
      ensures Linked()
      ensures next == 0 ==> NothingFound(q) && forall req: nat :: Covered(q, req)
      ensures next != 0 ==> At(q', next, bet, size, grant) && Follows(q, q')
      ensures grew <==> next != 0 && q'.grown
      ensures warningCount == old(warningCount) + if next == 0 then 1 else 0
    {
      bet, grew, q' := startedBet, false, q;
      assert MajorLinked(majors, heap, q.i);
      ListedNotNull(heap);
      if majors[maj].next != 0 {
        next := majors[maj].next;
        Hop(q);
        q' := q.(i := q.i + 1);
      } else if startedBet {
        next, bet := memRoot, false;
        Restart(q);
        q' := q.(i := 0, bet := false);
      } else {
        next := GrowList(maj, size, grant);
        Exhausted(q);
        forall req: nat ensures Covered(q, req) { LastCovers(q, req); }
        if next != 0 {
          grew, q' := true, q.(h := heap, i := q.i + 1, grown := true);
        }
      }
    }

    /** The search stands at the major maj. */
    ghost predicate At(q: Search, maj: Ptr, bet: bool, size: nat, grant: Ptr)
      reads this
    {
      && Searched(q) && heap == q.h && q.size == size && q.grant == grant
      && maj == BlockAddr(heap, q.i) && q.bet == bet
    }

    /** No listed block has room, and the system had nothing to give. */
    ghost predicate NothingFound(q: Search)
      reads this
    {
      heap == q.h0 && NoRoomIn(q.h0, 0, |q.h0|, q.size + MINOR_HEADER) && q.grant == 0
    }

    /** The turn of the loop over the majors from CASE 2 on. */
    method FillOrLeave(maj: Ptr, startedBet: bool, size: u32, req: u32, grant: Ptr, ghost q: Search)
      returns (p: Ptr, next: Ptr, bet: bool, ghost q': Search)
      requires Linked() && At(q, maj, startedBet, size, grant)
      requires BlockSize(heap[q.i]) - Usage(heap[q.i]) >= size + MINOR_HEADER
      requires Padded(req) == size && Fits(req) && GrantOk(q.h0, grant, PagesRequested(size))
      modifies this`majors, this`minors, this`bytes, this`inuse, this`heap, this`obtained, this`held,
               this`warningCount, this`memRoot
      ensures Linked()
      ensures p != 0 ==> (heap, p) == AfterMalloc(q.h0, q.start, req, grant) && OnlyOffsetChanged(p, old(bytes), bytes)
      ensures p == 0 ==> bytes == old(bytes)
      ensures p == 0 && next == 0 ==> NothingFound(q)
      ensures p != 0 || next == 0 ==> Covered(q, req)
      ensures p == 0 && next != 0 ==> At(q', next, bet, size, grant) && Follows(q, q')
      ensures warningCount == old(warningCount) + if p == 0 && next == 0 then 1 else 0
    {
      next, bet, q' := maj, startedBet, q;
      p := PlaceInMajor(maj, size, req, q.i);
      if p != 0 {
        PlacedCovers(q, req);
        SearchResult(q, heap, req, p, old(bytes), bytes);
        return;
      }
      // CASE 5: block full.
      FreshNotFull(q);
      var grew;
      next, bet, grew, q' := LeaveMajor(maj, startedBet, size, grant, q);
    }

    /** The turn from CASE 1 on. */
    method FitOrLeave(maj: Ptr, startedBet: bool, diff: int, size: u32, req: u32, grant: Ptr, ghost q: Search)
      returns (p: Ptr, next: Ptr, bet: bool, ghost q': Search)
      requires Linked() && At(q, maj, startedBet, size, grant) && diff == FreeTotal(heap[q.i])
      requires Padded(req) == size && Fits(req) && GrantOk(q.h0, grant, PagesRequested(size))
      modifies this`majors, this`minors, this`bytes, this`inuse, this`heap, this`obtained, this`held,
               this`warningCount, this`memRoot
      ensures Linked()
      ensures p != 0 ==> (heap, p) == AfterMalloc(q.h0, q.start, req, grant) && OnlyOffsetChanged(p, old(bytes), bytes)
      ensures p == 0 ==> bytes == old(bytes)
      ensures p == 0 && next == 0 ==> NothingFound(q)
      ensures p != 0 || next == 0 ==> Covered(q, req)
      ensures p == 0 && next != 0 ==> At(q', next, bet, size, grant) && Follows(q, q')
      ensures warningCount == old(warningCount) + if p == 0 && next == 0 then 1 else 0
    {
      next, bet, q' := maj, startedBet, q;
      // CASE 1: not enough space in this block.
      if diff < size + MINOR_HEADER {
        CaseOneFacts(q, heap);
        var grew;
        next, bet, grew, q' := LeaveMajor(maj, startedBet, size, grant, q);
        if !grew {
          return 0, next, bet, q';
        }
        // A new block was obtained: fall through to CASE 2.
        FreshNotSkipped(q');
        CoversOn(q, q', req);
      }
      p, next, bet, q' := FillOrLeave(next, bet, size, req, grant, q');
    }

    /** One turn of the loop over the majors. */
    method VisitMajor(maj: Ptr, startedBet: bool, bestSize: int, size: u32, req: u32, grant: Ptr, ghost q: Search)
      returns (p: Ptr, next: Ptr, bet: bool, newBest: int, ghost q': Search)
      requires Linked() && At(q, maj, startedBet, size, grant)
      requires Padded(req) == size && Fits(req) && GrantOk(q.h0, grant, PagesRequested(size))
      modifies this`majors, this`minors, this`bytes, this`inuse, this`heap, this`obtained, this`held,
               this`warningCount, this`memRoot, this`bestBet
      ensures Linked()
      ensures p != 0 ==> (heap, p) == AfterMalloc(q.h0, q.start, req, grant) && OnlyOffsetChanged(p, old(bytes), bytes)
      ensures p == 0 ==> bytes == old(bytes)
      ensures p == 0 && next == 0 ==> NothingFound(q)
      ensures p != 0 || next == 0 ==> Covered(q, req)
      ensures p == 0 && next != 0 ==> At(q', next, bet, size, grant) && Follows(q, q')
      ensures warningCount == old(warningCount) + if p == 0 && next == 0 then 1 else 0
      ensures bestBet == if bestSize < FreeTotal(q.h[q.i]) then maj else old(bestBet)
      ensures newBest == if bestSize < FreeTotal(q.h[q.i]) then FreeTotal(q.h[q.i]) else bestSize
    {
      assert MajorLinked(majors, heap, q.i);
      var diff := majors[maj].size - majors[maj].usage;
      newBest := NoteBest(maj, bestSize, q.i);
      p, next, bet, q' := FitOrLeave(maj, startedBet, diff, size, req, grant, q);
    }

    /** liballoc_malloc.  grant and second are what the page hook answers if it is asked once and
        twice.  Past Fits the heap is in disorder afterwards. */
    method Malloc(reqSize: nat, grant: Ptr, second: Ptr) returns (p: Ptr)
      requires Valid() && Countable(reqSize) && GrantsOk(heap, reqSize, grant, second)
      modifies this`majors, this`minors, this`bytes, this`inuse, this`heap, this`obtained, this`held,
               this`warningCount, this`memRoot, this`bestBet
      ensures Valid() <==> Fits(reqSize) || grant == 0
      ensures (heap, p)
              == AfterAny(old(heap), StartIndex(old(heap), old(bestBet), Padded(reqSize)), reqSize, grant, second)
      ensures if p == 0 then bytes == old(bytes) else OnlyOffsetChanged(p, old(bytes), bytes)
      ensures warningCount == old(warningCount) + if p == 0 then 1 else 0
      ensures !Fits(reqSize) ==>
                Snapshot() == OversizedImage(old(Snapshot()).(best := bestBet), old(heap), reqSize, grant, second)
      ensures Fits(reqSize) ==> BetFirst(old(heap), old(bestBet), reqSize, p) && (p != 0 ==> Served(heap, p, reqSize))
      ensures Fits(reqSize) ==> BetAfterMalloc(old(heap), old(bestBet), reqSize, grant, bestBet)
    {
      ghost var s, h, start := Snapshot(), heap, StartIndex(heap, bestBet, Padded(reqSize));
      if Fits(reqSize) {
        ghost var best := bestBet;
        p := MallocFitting(reqSize, grant);
        StartsAtBet(h, best, reqSize, grant);
        if p != 0 { FittingServed(h, start, reqSize, grant); }
      } else {
        p := MallocOversized(reqSize, grant, second);
        OversizedResult(s, h, start, bestBet, reqSize, grant, second);
      }
    }

    /** malloc past Fits: the list is walked in vain, and the new major takes the request unseen. */
    method MallocOversized(reqSize: nat, grant: Ptr, second: Ptr) returns (p: Ptr)
      requires Valid() && !Fits(reqSize) && Countable(reqSize) && GrantsOk(heap, reqSize, grant, second)
      modifies this`majors, this`minors, this`bytes, this`inuse, this`heap, this`obtained, this`held,
               this`warningCount, this`memRoot, this`bestBet
      ensures (heap, p) == AfterOversized(old(heap), reqSize, grant, second)
      ensures Snapshot() == OversizedImage(old(Snapshot()).(best := bestBet), old(heap), reqSize, grant, second)
      ensures grant == 0 ==> bestBet == 0 || Listed(old(heap), bestBet)
      ensures warningCount == old(warningCount) + if p == 0 then 1 else 0
    {
      ghost var h := heap;
      OversizedList(Snapshot(), h, reqSize, grant);
      heap := AfterOversized(h, reqSize, grant, second).0;
      if memRoot == 0 {
        p := OversizedInEmpty(reqSize, grant, second);
      } else {
        p := OversizedInList(reqSize, grant, second, h);
      }
    }

    /** A list that is there is searched in vain. */
    method OversizedInList(req: nat, grant: Ptr, ghost second: Ptr, ghost h: Heap) returns (p: Ptr)
      requires h != [] && memRoot == h[0].addr && Chained(majors, BlockAddrs(h))
      requires AllSkipped(majors, BlockAddrs(h), Padded(req)) && (grant != 0 ==> grant !in BlockAddrs(h))
      requires bestBet == 0 || (bestBet in BlockAddrs(h) && Skipped(majors, bestBet, Padded(req)))
      modifies this`majors, this`minors, this`bytes, this`inuse, this`obtained, this`held, this`warningCount,
               this`memRoot, this`bestBet
      ensures p == AfterOversized(h, req, grant, second).1
      ensures Snapshot() == OversizedImage(old(Snapshot()).(best := bestBet), h, req, grant, second)
      ensures bestBet == 0 || Listed(h, bestBet)
      ensures warningCount == old(warningCount) + if p == 0 then 1 else 0
    {
      p := FindOversized(req + ALIGNMENT + ALIGN_INFO, req, grant, BlockAddrs(h));
    }

    /** The first malloc of all obtains the root before it searches. */
    method OversizedInEmpty(req: nat, grant: Ptr, second: Ptr) returns (p: Ptr)
      requires memRoot == 0 && bestBet == 0 && !Fits(req) && GrantsOk([], req, grant, second)
      modifies this`majors, this`minors, this`bytes, this`inuse, this`obtained, this`held, this`warningCount,
               this`memRoot, this`bestBet
      ensures p == AfterOversized([], req, grant, second).1
      ensures Snapshot() == OversizedImage(old(Snapshot()).(best := bestBet), [], req, grant, second)
      ensures grant == 0 ==> bestBet == 0
      ensures warningCount == old(warningCount) + if p == 0 then 1 else 0
    {
      var size := req + ALIGNMENT + ALIGN_INFO;
      var root := ObtainBehind(0, size, grant);
      if root == 0 {
        return 0;
      }
      if second != 0 { SecondDiffers([], req, grant, second); }
      p := FindOversized(size, req, second, [grant]);
    }

    /** The loop over the majors of such a malloc.  None of them has enough space, unless it is
        the only one and new. */
    method FindOversized(size: nat, req: nat, answer: Ptr, ghost addrs: seq<Ptr>) returns (p: Ptr)
      requires size == Padded(req) && addrs != [] && memRoot == addrs[0] && Chained(majors, addrs)
      requires bestBet == 0 || (bestBet in addrs && Skipped(majors, bestBet, size))
      requires answer != 0 ==> answer !in addrs
      requires AllSkipped(majors, addrs, size) || (|addrs| == 1 && memRoot in majors && majors[memRoot].first == 0)
      modifies this`majors, this`minors, this`bytes, this`inuse, this`obtained, this`held, this`warningCount,
               this`memRoot, this`bestBet
      ensures bestBet == 0 || bestBet in addrs
      ensures warningCount == old(warningCount) + if p == 0 then 1 else 0
      ensures var s, last := old(Snapshot()).(best := bestBet), addrs[|addrs| - 1];
        if !AllSkipped(old(majors), addrs, size) then
          p == UserPtr(CutCell(last, req)) && Snapshot() == FilledImage(s, last, req)
        else if answer == 0 then p == 0 && Snapshot() == s
        else
          && p == UserPtr(CutCell(answer, req))
          && Snapshot() == FilledImage(ObtainedImage(s, last, answer, size), answer, req)
    {
      var maj, bestSize: int := memRoot, 0;
      if bestBet != 0 {
        bestSize := FreeBytes(majors[bestBet]);
        assert bestSize <= size + MINOR_HEADER;
      }
      ghost var i := 0;
      while true
        invariant i < |addrs| && maj == addrs[i] && Snapshot() == old(Snapshot()).(best := bestBet)
        invariant bestBet == 0 || bestBet in addrs
        invariant warningCount == old(warningCount) && AllSkipped(majors, addrs[..i], size)
        decreases |addrs| - i
      {
        NextInChain(majors, addrs, i);
        var diff := FreeBytes(majors[maj]);
        if bestSize < diff {
          bestBet, bestSize := maj, diff;
        }
        // CASE 1: not enough space in this block.
        if diff < size + MINOR_HEADER {
          OneMoreSkipped(majors, addrs, i, size);
          if majors[maj].next != 0 {
            maj := majors[maj].next;
            i := i + 1;
            continue;
          }
          var next := ObtainBehind(maj, size, answer);
          if next == 0 {
            return 0;
          }
          maj := next;
        }
        // CASE 2, whatever the space.
        p := FillNew(maj, size, req);
        return;
      }
    }

    /** malloc of a request that its headers are wide enough for.  The page hook is asked at most
        once. */
    method MallocFitting(reqSize: nat, grant: Ptr) returns (p: Ptr)
      requires Valid() && Fits(reqSize) && GrantOk(heap, grant, PagesRequested(Padded(reqSize)))
      modifies this`majors, this`minors, this`bytes, this`inuse, this`heap, this`obtained, this`held,
               this`warningCount, this`memRoot, this`bestBet
      ensures Valid()
      ensures (heap, p) == AfterMalloc(old(heap), StartIndex(old(heap), old(bestBet), Padded(reqSize)), reqSize, grant)
      ensures if p == 0 then bytes == old(bytes) else OnlyOffsetChanged(p, old(bytes), bytes)
      ensures warningCount == old(warningCount) + if p == 0 then 1 else 0
      ensures BetAfterMalloc(old(heap), old(bestBet), reqSize, grant, bestBet)
    {
      var size: u32 := reqSize + ALIGNMENT + ALIGN_INFO;
      ghost var h, start := heap, StartIndex(heap, bestBet, size);
      p := FindPlace(size, reqSize, grant, start);
      MallocResultWF(h, start, reqSize, grant, heap, p);
      SeenFromStart(h, old(bestBet), reqSize, grant, bestBet);
    }

    /** Finds a place for the request in the list as it is or as it grows. */
    method FindPlace(size: u32, req: u32, grant: Ptr, ghost start: nat) returns (p: Ptr)
      requires Linked() && Padded(req) == size && Fits(req) && GrantOk(heap, grant, PagesRequested(size))
      requires start == StartIndex(heap, bestBet, size)
      modifies this`majors, this`minors, this`bytes, this`inuse, this`heap, this`obtained, this`held,
               this`warningCount, this`memRoot, this`bestBet
      ensures Linked() && (heap, p) == AfterMalloc(old(heap), start, req, grant)
      ensures BetImproved(old(heap) + [FreshBlock(grant, size)], old(bestBet), bestBet)
      ensures NoneOutdoes(old(heap), start, req, old(heap) + [FreshBlock(grant, size)], bestBet)
      ensures if p == 0 then bytes == old(bytes) else OnlyOffsetChanged(p, old(bytes), bytes)
      ensures warningCount == old(warningCount) + if p == 0 then 1 else 0
    {
      var maj, startedBet, bestSize;
      ghost var q;
      maj, startedBet, bestSize, q := BeginSearch(size, grant);
      p := SearchFrom(maj, startedBet, bestSize, size, req, grant, q);
    }

    /** The loop over the majors, from the first one to look at; without one nothing was found. */
    method SearchFrom(first: Ptr, startedBet: bool, bestSize: int, size: u32, req: u32, grant: Ptr, ghost q0: Search)
      returns (p: Ptr)
      requires Linked() && q0.size == size && q0.grant == grant && q0.start <= |q0.h0|
      requires if first == 0 then NothingFound(q0) && q0.h0 == [] else At(q0, first, startedBet, size, grant)
      requires Outdone(q0, bestSize)
      requires Padded(req) == size && Fits(req) && GrantOk(q0.h0, grant, PagesRequested(size))
      requires BetIs(q0.h0, bestBet, bestSize)
      modifies this`majors, this`minors, this`bytes, this`inuse, this`heap, this`obtained, this`held,
               this`warningCount, this`memRoot, this`bestBet
      ensures Linked() && (heap, p) == AfterMalloc(q0.h0, q0.start, req, grant)
      ensures BetImproved(q0.h0 + [FreshBlock(grant, size)], old(bestBet), bestBet)
      ensures NoneOutdoes(q0.h0, q0.start, req, q0.h0 + [FreshBlock(grant, size)], bestBet)
      ensures if p == 0 then bytes == old(bytes) else OnlyOffsetChanged(p, old(bytes), bytes)
      ensures warningCount == old(warningCount) + if p == 0 && first != 0 then 1 else 0
    {
      var maj, bet, best := first, startedBet, bestSize;
      ghost var q, reach, was := q0, q0.h0 + [FreshBlock(grant, size)], bestBet;
      BetStays(q0.h0, FreshBlock(grant, size), bestBet, bestSize);
      p := 0;
      while maj != 0
        invariant BetTracked(reach, was, bestSize, bestBet, best)
        invariant if maj != 0 then Outdone(q, best) else NoneOutdoes(q0.h0, q0.start, req, reach, bestBet)
        invariant Linked() && p == 0
        invariant if maj != 0 then At(q, maj, bet, size, grant) else NothingFound(q)
        invariant q.h0 == q0.h0 && q.start == q0.start && q.size == size && q.grant == grant
        invariant bytes == old(bytes)
        invariant warningCount == old(warningCount) + if maj == 0 && first != 0 then 1 else 0
        decreases maj != 0, Remaining(q)
      {
        BetVisited(reach, was, bestSize, bestBet, best, q, maj);
        ghost var q';
        ghost var best0 := best;
        p, maj, bet, best, q' := VisitMajor(maj, bet, best, size, req, grant, q);
        if p != 0 || maj == 0 { VisitedAll(q, req, best0, reach, bestBet); } else { VisitedOutdone(q, q', best0); }
        if p != 0 {
          return;
        }
        q := if maj != 0 then q' else q;
      }
      SearchFailed(q, req);
    }

    // ---------- free ----------

    /** A pointer with a header in front of it that has not been overwritten since: what malloc
        returned, freed or not. */
    predicate Known(p: Ptr)
      reads this
    {
      HeaderOf(bytes, p) in minors
    }

    /** Takes the live cell at min out of the list of its major. */
    method Unlink(maj: Ptr, min: Ptr, ghost b: Block, ghost k: nat)
      requires k < |b.cells| && maj == b.addr && min == b.cells[k].addr && Removable(Snapshot(), b, k)
      modifies this`majors, this`minors, this`inuse
      ensures Snapshot() == RemovedImage(old(Snapshot()), b, k)
    {
      inuse := inuse - minors[min].size;
      majors := majors[maj := majors[maj].(usage := majors[maj].usage - (minors[min].size + MINOR_HEADER))];
      var prev, next := minors[min].prev, minors[min].next;
      minors := minors[min := minors[min].(magic := DEAD)];
      if next != 0 {
        minors := minors[next := minors[next].(prev := prev)];
      }
      if prev != 0 {
        minors := minors[prev := minors[prev].(next := next)];
      }
      if prev == 0 {
        majors := majors[maj := majors[maj].(first := next)];
      }
    }

    /** Takes the empty major maj out of the list and gives its pages back. */
    method Release(maj: Ptr, ghost h: Heap, ghost i: nat)
      requires i < |h| && maj == h[i].addr && Droppable(Snapshot(), h, i)
      requires held == Held(h) && maj in held && held[maj] == h[i].pages
      modifies this`majors, this`minors, this`memRoot, this`bestBet, this`obtained, this`held
      ensures Snapshot() == DroppedImage(old(Snapshot()), h, i)
    {
      var prev, next, pages, size := majors[maj].prev, majors[maj].next, majors[maj].pages, majors[maj].size;
      Forget(maj, next);
      Bypass(maj, prev, next);
      obtained := obtained - size;
      ReturnPages(maj, pages, size);
    }

    /** Neither the root nor the best bet is maj any more. */
    method Forget(maj: Ptr, next: Ptr)
      modifies this`memRoot, this`bestBet
      ensures memRoot == if old(memRoot) == maj then next else old(memRoot)
      ensures bestBet == if old(bestBet) == maj then 0 else old(bestBet)
    {
      if memRoot == maj {
        memRoot := next;
      }
      if bestBet == maj {
        bestBet := 0;
      }
    }

    /** Makes the neighbours of a major point at each other. */
    method Bypass(maj: Ptr, prev: Ptr, next: Ptr)
      requires maj in majors && prev == majors[maj].prev && next == majors[maj].next
      requires (prev != 0 ==> prev in majors) && (next != 0 ==> next in majors)
      modifies this`majors
      ensures majors - {maj} == UnlinkMajor(old(majors), maj)
    {
      if prev != 0 {
        majors := majors[prev := majors[prev].(next := next)];
      }
      if next != 0 {
        majors := majors[next := majors[next].(prev := prev)];
      }
    }

    /** The page hook for giving memory back: it takes what the other hook returned, with the
        number of pages that was asked for, and the memory is no longer there. */
    method ReturnPages(maj: Ptr, pages: nat, size: nat)
      requires maj in held && held[maj] == pages
      modifies this`majors, this`minors, this`held
      ensures held == old(held) - {maj} && majors == old(majors) - {maj}
      ensures minors == Overwrite(old(minors), maj, maj + size)
    {
      held := held - {maj};
      majors := majors - {maj};
      minors := Overwrite(minors, maj, maj + size);
    }

    /** liballoc_free. */
    method Free(ptr: Ptr)
      requires Valid() && (ptr != 0 ==> Known(ptr))
      modifies this`majors, this`minors, this`memRoot, this`bestBet, this`inuse, this`obtained, this`held,
               this`warningCount, this`errorCount, this`possibleOverruns, this`heap
      ensures Valid()
      ensures ptr == 0 ==> Snapshot() == old(Snapshot()) && heap == old(heap) && warningCount == old(warningCount) + 1
      ensures ptr != 0 && !IsCell(old(heap), HeaderOf(bytes, ptr)) ==>
                Snapshot() == old(Snapshot()) && heap == old(heap) && errorCount == old(errorCount) + 1
      ensures ptr != 0 && IsCell(old(heap), HeaderOf(bytes, ptr)) ==>
                && heap == (var (i, k) := Find(old(heap), HeaderOf(bytes, ptr)); AfterFree(old(heap), i, k))
                && errorCount == old(errorCount) && warningCount == old(warningCount)
      ensures ptr != 0 && IsCell(old(heap), HeaderOf(bytes, ptr)) ==>
                BetAfterFree(old(heap), Find(old(heap), HeaderOf(bytes, ptr)).0, heap, old(bestBet), bestBet)
    {
      if ptr == 0 {
        warningCount := warningCount + 1;
        return;
      }
      var min: Ptr := HeaderOf(bytes, ptr);
      LiveIffListed(Snapshot(), heap, min);
      if minors[min].magic != MAGIC {
        NoteBadMagic(minors[min].magic);
        return;
      }
      ghost var (i, k) := Find(heap, min);
      FreeLive(minors[min].block, min, i, k);
    }

    /** free for a live cell. */
    method FreeLive(maj: Ptr, min: Ptr, ghost i: nat, ghost k: nat)
      requires Valid() && i < |heap| && k < |heap[i].cells|
      requires maj == heap[i].addr && min == heap[i].cells[k].addr
      modifies this`majors, this`minors, this`memRoot, this`bestBet, this`inuse, this`obtained, this`held, this`heap
      ensures Valid() && heap == AfterFree(old(heap), i, k)
      ensures BetAfterFree(old(heap), i, heap, old(bestBet), bestBet)
    {
      ghost var s, h := Snapshot(), heap;
      RemoveFacts(s, h, i, k);
      LinkedCellFacts(s, h, i, k);
      Unlink(maj, min, h[i], k);
      RemoveRepresents(s, h, i, k);
      heap := h[i := RemoveCell(h[i], k)];
      AfterUnlink(h, heap, i, k);
      Settle(maj, i);
    }

    /** Releases a major that was emptied, and considers any other for the best bet. */
    method Settle(maj: Ptr, ghost i: nat)
      requires Linked() && i < |heap| && maj == heap[i].addr
      modifies this`majors, this`minors, this`memRoot, this`bestBet, this`obtained, this`held, this`heap
      ensures Linked()
      ensures heap == if old(heap)[i].cells == [] then old(heap)[..i] + old(heap)[i + 1..] else old(heap)
      ensures bestBet == if old(heap)[i].cells == [] then (if old(bestBet) == maj then 0 else old(bestBet))
                         else if MoreFree(heap, maj, old(bestBet)) then maj else old(bestBet)
    {
      ghost var s, h := Snapshot(), heap;
      assert MajorLinked(majors, heap, i);
      NullMeansEmpty(heap, i);
      if majors[maj].first == 0 {
        DropFacts(s, h, i);
        HeldIn(h, i);
        Release(maj, h, i);
        DropRepresents(s, h, i);
        heap := h[..i] + h[i + 1..];
      } else {
        ReconsiderBest(maj, i);
      }
    }

    method NoteBadMagic(magic: u32)
      modifies this`errorCount, this`possibleOverruns
      ensures errorCount == old(errorCount) + 1
    {
      errorCount := errorCount + 1;
      if magic % 0x100_0000 == MAGIC % 0x100_0000 || magic % 0x1_0000 == MAGIC % 0x1_0000
         || magic % 0x100 == MAGIC % 0x100 {
        possibleOverruns := possibleOverruns + 1;
      }
    }

    /** Remembers a major that has, as int, more free bytes than the best bet. */
    method ReconsiderBest(maj: Ptr, ghost i: nat)
      requires Linked() && i < |heap| && maj == heap[i].addr
      modifies this`bestBet
      ensures Linked()
      ensures bestBet == if MoreFree(heap, maj, old(bestBet)) then maj else old(bestBet)
    {
      assert MajorLinked(majors, heap, i);
      MoreFreeIs(heap, i, bestBet);
      ghost var j := IndexOf(heap, bestBet);
      ListedNotNull(heap);
      if bestBet != 0 {
        assert MajorLinked(majors, heap, j);
        var bestSize := AsSigned(majors[bestBet].size - majors[bestBet].usage);
        var majSize := AsSigned(majors[maj].size - majors[maj].usage);
        if majSize > bestSize {
          bestBet := maj;
        }
      } else {
        assert BlockAddr(heap, j) == 0;
      }
    }

    // ---------- realloc ----------

    /** A client writes a byte it asked for. */
    method Use(a: Ptr, v: int, ghost i: nat, ghost k: nat)
      requires Valid() && i < |heap| && k < |heap[i].cells| && InPayload(heap[i].cells[k], a)
      modifies this`bytes
      ensures Valid() && bytes == old(bytes)[a := v]
    {
      bytes := bytes[a := v];
      UseRepresents(old(Snapshot()), heap, i, k, bytes);
    }

    /** liballoc_memcpy: four bytes at a time, then the rest. */
    method Memcpy(dest: Ptr, src: Ptr, count: nat)
      requires dest + count <= src || src + count <= dest
      modifies this`bytes
      ensures Copied(dest, src, count, old(bytes), bytes)
    {
      var n, d, s := count, dest, src;
      while n >= 4
        invariant d - dest == s - src == count - n
        invariant Copied(dest, src, count - n, old(bytes), bytes)
      {
        CopyWord(dest, src, count - n, count, old(bytes), bytes, d, s);
        bytes := CopyFour(bytes, d, s);
        d, s, n := d + 4, s + 4, n - 4;
      }
      while n > 0
        invariant d - dest == s - src == count - n
        invariant Copied(dest, src, count - n, old(bytes), bytes)
      {
        CopyStep(dest, src, count - n, count, old(bytes), bytes);
        bytes := bytes[d := Load(bytes, s)];
        d, s, n := d + 1, s + 1, n - 1;
      }
    }

    /** realloc to more than was asked for before: a malloc, a copy and a free.  A failed malloc
        leaves nothing to copy to. */
    method Move(p: Ptr, size: nat, grant: Ptr, ghost c: Cell) returns (r: ReallocResult)
      requires Valid() && HasCell(heap, c) && p == UserPtr(c) && c.req < size
      requires Fits(size) && GrantOk(heap, grant, PagesRequested(Padded(size)))
      modifies this
      ensures var (h, q) := AfterMalloc(old(heap), StartIndex(old(heap), old(bestBet), Padded(size)), size, grant);
              if q == 0 && c.req > 0 then r == CopyToNull
              else r == Returned(q) && Valid() && FreedIn(h, heap, c)
                   && Moved(old(heap), heap, c, q, size, old(bytes), bytes)
    {
      ghost var h0, b0, start := heap, bytes, StartIndex(heap, bestBet, Padded(size));
      CellKnown(Snapshot(), heap, c);
      var realSize := minors[HeaderOf(bytes, p)].reqSize;
      var q := MallocFitting(size, grant);
      if q == 0 {
        if realSize > 0 {
          return CopyToNull;
        }
      } else {
        Fill(h0, start, q, p, realSize, size, grant, c, b0);
      }
      ghost var h1 := heap;
      Discard(p, c);
      MovedFacts(h0, h1, heap, c, q, start, size, grant, b0, bytes);
      r := Returned(q);
    }

    /** free of a pointer that malloc returned for a cell that is still listed. */
    method Discard(p: Ptr, ghost c: Cell)
      requires Valid() && HasCell(heap, c) && p == UserPtr(c)
      modifies this`majors, this`minors, this`memRoot, this`bestBet, this`inuse, this`obtained, this`held,
               this`warningCount, this`errorCount, this`possibleOverruns, this`heap
      ensures Valid() && FreedIn(old(heap), heap, c)
    {
      CellKnown(Snapshot(), heap, c);
      Free(p);
    }

    /** The copy into the new allocation disturbs no link and no other allocation. */
    method Fill(ghost h0: Heap, ghost start: nat, q: Ptr, p: Ptr, realSize: nat, size: nat, grant: Ptr, ghost c: Cell,
                ghost b0: Bytes)
      requires Valid() && HeapWF(h0) && HasCell(h0, c) && p == UserPtr(c) && realSize == c.req < size
      requires start <= |h0| && Fits(size) && GrantOk(h0, grant, PagesRequested(Padded(size)))
      requires q != 0 && (heap, q) == AfterMalloc(h0, start, size, grant) && OnlyOffsetChanged(q, b0, bytes)
      modifies this`bytes
      ensures Valid() && HasCell(heap, c)
      ensures Filled(h0, c, NewCell(h0, start, size, grant), b0, bytes)
    {
      ghost var e, b1 := NewCell(h0, start, size, grant), bytes;
      MallocCells(h0, start, size, grant);
      CellsFitTheirRequest(h0, c);
      CellsFitTheirRequest(heap, e);
      Memcpy(q, p, realSize);
      CopyRepresents(old(Snapshot()), heap, e, p, realSize, bytes);
      FilledFacts(h0, c, e, b0, b1, bytes);
    }

    /** realloc to no more than was asked for before. */
    method Shrink(min: Ptr, size: u32, ghost i: nat, ghost k: nat)
      requires Valid() && i < |heap| && k < |heap[i].cells| && min == heap[i].cells[k].addr
      requires CellLinked(minors, heap[i], k) && size <= heap[i].cells[k].req
      modifies this`minors, this`heap
      ensures Valid() && heap == AfterShrink(old(heap), i, k, size)
    {
      ShrinkRepresents(Snapshot(), heap, i, k, size);
      ShrinkWF(heap, i, k, size);
      minors := minors[min := minors[min].(reqSize := size)];
      heap := AfterShrink(heap, i, k, size);
    }

    /** liballoc_realloc. */
    method Realloc(p: Ptr, size: nat, grant: Ptr) returns (r: ReallocResult)
      requires Valid() && (p != 0 ==> Known(p))
      requires p != 0 && IsCell(heap, HeaderOf(bytes, p)) ==> p == UserPtr(CellAt(heap, HeaderOf(bytes, p)))
      requires Fits(size) && GrantOk(heap, grant, PagesRequested(Padded(size)))
      modifies this
      ensures r.Returned? ==> Valid()
      // size 0 is free
      ensures size == 0 ==> r == Returned(0) && bytes == old(bytes)
      ensures size == 0 && p != 0 && IsCell(old(heap), HeaderOf(old(bytes), p)) ==>
                heap == (var (i, k) := Find(old(heap), HeaderOf(old(bytes), p)); AfterFree(old(heap), i, k))
      // NULL is malloc
      ensures size != 0 && p == 0 ==>
                && r.Returned?
                && (heap, r.p) ==
                   AfterMalloc(old(heap), StartIndex(old(heap), old(bestBet), Padded(size)), size, grant)
      // a pointer that is not live is an error
      ensures p != 0 && !IsCell(old(heap), HeaderOf(old(bytes), p)) ==>
                r == Returned(0) && heap == old(heap) && bytes == old(bytes) && errorCount == old(errorCount) + 1
      // a live one shrinks in place or moves
      ensures size != 0 && p != 0 && IsCell(old(heap), HeaderOf(old(bytes), p)) ==>
                var (i, k) := Find(old(heap), HeaderOf(old(bytes), p));
                var c := old(heap)[i].cells[k];
                if size <= c.req then
                  r == Returned(p) && heap == AfterShrink(old(heap), i, k, size) && bytes == old(bytes)
                else
                  var (h, q) := AfterMalloc(old(heap), StartIndex(old(heap), old(bestBet), Padded(size)), size, grant);
                  if q == 0 && c.req > 0 then r == CopyToNull
                  else r == Returned(q) && FreedIn(h, heap, c) && Moved(old(heap), heap, c, q, size, old(bytes), bytes)
      ensures size != 0 && p != 0 && IsCell(old(heap), HeaderOf(old(bytes), p)) ==>
                var c := CellAt(old(heap), HeaderOf(old(bytes), p));
                size <= c.req ==> Shrunk(old(heap), heap, c, size)
      // when it copies to NULL
      ensures r == CopyToNull <==> p != 0 && CopiesToNull(old(heap), HeaderOf(old(bytes), p), size, grant)
    {
      if size == 0 {
        Free(p);
        return Returned(0);
      }
      if p == 0 {
        var q := Malloc(size, grant, 0);
        return Returned(q);
      }
      var min: Ptr := HeaderOf(bytes, p);
      LiveIffListed(Snapshot(), heap, min);
      if minors[min].magic != MAGIC {
        NoteBadMagic(minors[min].magic);
        return Returned(0);
      }
      ghost var (i, k) := Find(heap, min);
      ghost var c := heap[i].cells[k];
      LinkedCellFacts(Snapshot(), heap, i, k);
      if minors[min].reqSize >= size {
        CellsShrunk(heap, i, k, size);
        Shrink(min, size, i, k);
        return Returned(p);
      }
      assert HasCell(heap, c);
      FailsIff(heap, StartIndex(heap, bestBet, Padded(size)), size, grant);
      r := Move(p, size, grant, c);
    }
  }

  /** The request went into the first gap of block i that holds it. */
  ghost predicate PlacedFrom(h: Heap, h': Heap, i: nat, req: nat, p: Ptr, bytes: Bytes, bytes': Bytes)
    requires i < |h|
  {
    var need := Padded(req) + MINOR_HEADER;
    && HasRoom(h[i], need)
    && h' == Placed(h, i, req)
    && FirstGap(h[i], need, 0) <= |h[i].cells|
    && p == UserPtr(Cell(GapStart(h[i], FirstGap(h[i], need, 0)), Padded(req), req))
    && OnlyOffsetChanged(p, bytes, bytes')
  }

  lemma FoundFirst(h: Heap, i: nat, k: nat, size: u32, req: nat, p: Ptr, bytes: Bytes, bytes': Bytes)
    requires i < |h| && k <= |h[i].cells| && Padded(req) == size
    requires GapFits(h[i], k, size + MINOR_HEADER) && NoGapBelow(h[i], k, size + MINOR_HEADER)
    requires p == UserPtr(Cell(GapStart(h[i], k), size, req)) && OnlyOffsetChanged(p, bytes, bytes')
    ensures PlacedFrom(h, PlaceIn(h, i, k, size, req), i, req, p, bytes, bytes')
  {
    FirstGapIs(h[i], size + MINOR_HEADER, k);
  }

  /** Of the payload bytes at most the one that holds the offset of p differs. */
  ghost predicate OnlyOffsetChanged(p: Ptr, bytes: Bytes, bytes': Bytes) {
    forall a: Ptr :: a != p - ALIGN_INFO ==> Load(bytes', a) == Load(bytes, a)
  }

  // ---------- what realloc promises ----------

  /** realloc of the live cell at a copies to NULL: the request is larger than the one before,
      the system gives nothing, and no gap holds it. */
  ghost predicate CopiesToNull(h: Heap, a: Ptr, size: nat, grant: Ptr) {
    IsCell(h, a) && 0 < CellAt(h, a).req < size && grant == 0 && NowhereFits(h, size)
  }

  /** After one malloc of 100 bytes a realloc to 70000 copies to NULL when the system has nothing
      left. */
  lemma CopyToNullReached(grant: Ptr, s: Counted)
    requires grant != 0 && GrantOk([], grant, PAGE_COUNT)
    requires s == CountedAfter(Counted([], 0, 0), 0, 100, grant, 0)
    ensures IsRun([Counted([], 0, 0), s], [Call.Malloc(0, 100, grant, 0)]) && HeapWF(s.heap)
    ensures CopiesToNull(s.heap, grant + MAJOR_HEADER, 70000, 0)
  {
    var c := Cell(grant + MAJOR_HEADER, 132, 100);
    FirstMalloc(grant, 100, s);
    FirstRun(grant, 100, s);
    OnlyCell(s.heap, Block(grant, PAGE_COUNT, [c]), c);
    SkipIsSound(s.heap[0], Padded(70000) + MINOR_HEADER);
  }

  lemma OnlyCell(h: Heap, b: Block, c: Cell)
    requires h == [b] && b.cells == [c]
    ensures IsCell(h, c.addr) && CellAt(h, c.addr) == c
  {
    assert h[0].cells[0].addr == c.addr;
    var (i, k) := Find(h, c.addr);
  }

  ghost function CellAt(h: Heap, a: Ptr): Cell
    requires IsCell(h, a)
  {
    var (i, k) := Find(h, a);
    h[i].cells[k]
  }

  /** h' is h after the cell c was freed. */
  /** The cells are the same, but for c, of which less is asked for. */
  ghost predicate Shrunk(h: Heap, h': Heap, c: Cell, req: nat) {
    forall d :: HasCell(h', d) <==> d == Cell(c.addr, c.size, req) || (HasCell(h, d) && d != c)
  }

  lemma CellsShrunk(h: Heap, i: nat, k: nat, req: nat)
    requires HeapWF(h) && i < |h| && k < |h[i].cells|
    ensures Shrunk(h, AfterShrink(h, i, k, req), h[i].cells[k], req)
  {
    forall d
      ensures HasCell(AfterShrink(h, i, k, req), d)
              <==> d == h[i].cells[k].(req := req) || (HasCell(h, d) && d != h[i].cells[k])
    {
      ShrinkCells(h, i, k, req, d);
    }
  }

  ghost predicate FreedIn(h: Heap, h': Heap, c: Cell) {
    IsCell(h, c.addr) && CellAt(h, c.addr) == c && h' == (var (i, k) := Find(h, c.addr); AfterFree(h, i, k))
  }

  ghost predicate Copied(dest: Ptr, src: Ptr, n: nat, m: Bytes, m': Bytes) {
    && (forall a: Ptr :: dest <= a < dest + n ==> Load(m', a) == Load(m, src + (a - dest)))
    && (forall a: Ptr :: !(dest <= a < dest + n) ==> Load(m', a) == Load(m, a))
  }

  lemma CopyStep(dest: Ptr, src: Ptr, k: nat, n: nat, m: Bytes, m0: Bytes)
    requires dest + n <= src || src + n <= dest
    requires k < n && Copied(dest, src, k, m, m0)
    ensures Copied(dest, src, k + 1, m, m0[dest + k := Load(m0, src + k)])
  {
    assert Load(m0, src + k) == Load(m, src + k);
    var m1 := m0[dest + k := Load(m0, src + k)];
    forall a: Ptr | dest <= a < dest + k + 1
      ensures Load(m1, a) == Load(m, src + (a - dest))
    {
      if a < dest + k { assert Load(m0, a) == Load(m, src + (a - dest)); }
    }
  }

  /** A word stored at d that was loaded from s, where the two do not overlap. */
  function CopyFour(m: Bytes, d: Ptr, s: Ptr): Bytes {
    m[d := Load(m, s)][d + 1 := Load(m, s + 1)][d + 2 := Load(m, s + 2)][d + 3 := Load(m, s + 3)]
  }

  lemma CopyTwo(dest: Ptr, src: Ptr, k: nat, n: nat, m: Bytes, m0: Bytes, m2: Bytes, d: Ptr, s: Ptr)
    requires dest + n <= src || src + n <= dest
    requires k + 2 <= n && Copied(dest, src, k, m, m0) && d == dest + k && s == src + k
    requires m2 == m0[d := Load(m0, s)][d + 1 := Load(m0, s + 1)]
    ensures Copied(dest, src, k + 2, m, m2)
  {
    var m1 := m0[d := Load(m0, s)];
    CopyStep(dest, src, k, n, m, m0);
    CopyStep(dest, src, k + 1, n, m, m1);
  }

  lemma TwoKept(m0: Bytes, m2: Bytes, d: Ptr, a: Ptr, x: int, y: int)
    requires m2 == m0[d := x][d + 1 := y] && a != d && a != d + 1
    ensures Load(m2, a) == Load(m0, a)
  {
  }

  lemma CopyWord(dest: Ptr, src: Ptr, k: nat, n: nat, m: Bytes, m0: Bytes, d: Ptr, s: Ptr)
    requires dest + n <= src || src + n <= dest
    requires k + 4 <= n && Copied(dest, src, k, m, m0) && d == dest + k && s == src + k
    ensures Copied(dest, src, k + 4, m, CopyFour(m0, d, s))
  {
    var m2 := m0[d := Load(m0, s)][d + 1 := Load(m0, s + 1)];
    CopyTwo(dest, src, k, n, m, m0, m2, d, s);
    TwoKept(m0, m2, d, s + 2, Load(m0, s), Load(m0, s + 1));
    TwoKept(m0, m2, d, s + 3, Load(m0, s), Load(m0, s + 1));
    CopyTwo(dest, src, k + 2, n, m, m2, CopyFour(m0, d, s), d + 2, s + 2);
  }

  /** The allocation c was replaced by one of size bytes at q that begins with the bytes of c.
      Every other allocation is where it was, with the same bytes. */
  ghost predicate Moved(h: Heap, h': Heap, c: Cell, q: Ptr, size: nat, m: Bytes, m': Bytes) {
    && (q != 0 ==> exists e :: HasCell(h', e) && !HasCell(h, e) && UserPtr(e) == q && e.req == size)
    && (q != 0 ==> Begins(c, q, m, m'))
    && !HasCell(h', c)
    && (forall d :: HasCell(h, d) && d != c ==> HasCell(h', d) && SameBytes(d, m, m'))
  }

  ghost predicate Begins(c: Cell, q: Ptr, m: Bytes, m': Bytes) {
    forall a: Ptr :: q <= a < q + c.req ==> Load(m', a) == Load(m, UserPtr(c) + (a - q))
  }

  ghost predicate SameBytes(d: Cell, m: Bytes, m': Bytes) {
    forall a: Ptr :: InPayload(d, a) ==> Load(m', a) == Load(m, a)
  }

  ghost predicate Filled(h: Heap, c: Cell, e: Cell, m: Bytes, m': Bytes) {
    Begins(c, UserPtr(e), m, m') && forall d :: HasCell(h, d) ==> SameBytes(d, m, m')
  }

  lemma CellsFitTheirRequest(h: Heap, c: Cell)
    requires HeapCore(h) && HasCell(h, c)
    ensures Padded(c.req) <= c.size
  {
  }

  lemma FilledFacts(h: Heap, c: Cell, e: Cell, b0: Bytes, b1: Bytes, b2: Bytes)
    requires HeapCore(h) && HasCell(h, c) && c.req < e.req && Padded(e.req) <= e.size
    requires forall d :: HasCell(h, d) ==> CellEnd(d) <= e.addr || CellEnd(e) <= d.addr
    requires OnlyOffsetChanged(UserPtr(e), b0, b1) && Copied(UserPtr(e), UserPtr(c), c.req, b1, b2)
    ensures Filled(h, c, e, b0, b2)
  {
    CellsFitTheirRequest(h, c);
    assert Begins(c, UserPtr(e), b0, b2) by {
      forall a: Ptr | UserPtr(e) <= a < UserPtr(e) + c.req
        ensures Load(b2, a) == Load(b0, UserPtr(c) + (a - UserPtr(e)))
      {
        assert Load(b2, a) == Load(b1, UserPtr(c) + (a - UserPtr(e)));
      }
    }
    forall d | HasCell(h, d)
      ensures SameBytes(d, b0, b2)
    {
      CellsFitTheirRequest(h, d);
    }
  }

  lemma CopyRepresents(s: Image, h: Heap, e: Cell, src: Ptr, n: nat, bytes: Bytes)
    requires Represents(s, h) && HasCell(h, e) && n <= e.req && Copied(UserPtr(e), src, n, s.bytes, bytes)
    ensures Represents(s.(bytes := bytes), h)
  {
    var i: nat, k: nat :| i < |h| && k < |h[i].cells| && h[i].cells[k] == e;
    UseRepresents(s, h, i, k, bytes);
  }

  /** The header of a live cell is found from its pointer, and says what the layout says. */
  lemma CellKnown(s: Image, h: Heap, c: Cell)
    requires Represents(s, h) && HasCell(h, c)
    ensures HeaderOf(s.bytes, UserPtr(c)) == c.addr && c.addr in s.minors
    ensures s.minors[c.addr].reqSize == c.req
    ensures IsCell(h, c.addr) && CellAt(h, c.addr) == c
  {
    var i: nat, k: nat :| i < |h| && k < |h[i].cells| && h[i].cells[k] == c;
    UnalignUndoesAlign(s, h, i, k);
    LinkedCellFacts(s, h, i, k);
    assert IsCell(h, c.addr);
    var (i', k') := Find(h, c.addr);
    if (i, k) != (i', k') {
      AllCellsApart(h, i, k, i', k');
    }
  }

  lemma MovedFacts(h: Heap, h1: Heap, h': Heap, c: Cell, q: Ptr, start: nat, size: nat, grant: Ptr, m: Bytes, m': Bytes)
    requires HeapWF(h) && HasCell(h, c) && start <= |h| && Fits(size) && GrantOk(h, grant, PagesRequested(Padded(size)))
    requires HeapWF(h1) && (h1, q) == AfterMalloc(h, start, size, grant)
    requires FreedIn(h1, h', c)
    requires if q == 0 then m' == m else Filled(h, c, NewCell(h, start, size, grant), m, m')
    ensures Moved(h, h', c, q, size, m, m')
  {
    var (i, k) := Find(h1, c.addr);
    if q != 0 {
      var e := NewCell(h, start, size, grant);
      MallocCells(h, start, size, grant);
      assert HasCell(h, e) ==> CellEnd(e) <= e.addr;
      FreeCells(h1, i, k, e);
    }
    FreeCells(h1, i, k, c);
    forall d | HasCell(h, d) && d != c
      ensures HasCell(h', d)
    {
      FreeCells(h1, i, k, d);
    }
  }

  lemma LiveIffListed(s: Image, h: Heap, a: Ptr)
    requires Represents(s, h) && a in s.minors
    ensures s.minors[a].magic == MAGIC <==> IsCell(h, a)
    ensures IsCell(h, a) ==> s.minors[a].block == h[Find(h, a).0].addr
  {
    if IsCell(h, a) {
      var (i, k) := Find(h, a);
      assert CellsLinked(s.minors, h[i]);
      assert CellLinked(s.minors, h[i], k);
    }
  }

  /** Unlinking a cell leads to the layout free promises, up to the release of an emptied block. */
  lemma AfterUnlink(h: Heap, h': Heap, i: nat, k: nat)
    requires HeapWF(h) && i < |h| && k < |h[i].cells| && h' == h[i := RemoveCell(h[i], k)]
    ensures h'[i].cells == [] ==> AfterFree(h, i, k) == h'[..i] + h'[i + 1..]
    ensures h'[i].cells != [] ==> AfterFree(h, i, k) == h'
    ensures HeapWF(AfterFree(h, i, k))
  {
    FreeWF(h, i, k);
  }

  lemma NullMeansEmpty(h: Heap, i: nat)
    requires HeapCore(h) && i < |h|
    ensures CellAddr(h[i], 0) == 0 <==> h[i].cells == []
  {
    if h[i].cells != [] { CellInside(h[i], 0); }
  }

  lemma LinkedCellFacts(s: Image, h: Heap, i: nat, k: nat)
    requires Represents(s, h) && i < |h| && k < |h[i].cells|
    ensures CellLinked(s.minors, h[i], k)
    ensures h[i].cells[k].addr > 0
    ensures k + 1 < |h[i].cells| ==> h[i].cells[k + 1].addr > 0
  {
    assert CellsLinked(s.minors, h[i]);
    CellInside(h[i], k);
    if k + 1 < |h[i].cells| { CellInside(h[i], k + 1); }
  }

  /** The distances that CASE 4 computes measure the gap behind a cell. */
  lemma MeasuredGap(s: Image, h: Heap, i: nat, k: nat, maj: Ptr, min: Ptr, need: nat)
    requires Represents(s, h) && i < |h| && k < |h[i].cells| && NoGapBelow(h[i], k + 1, need)
    requires maj == h[i].addr && min == h[i].cells[k].addr
    ensures maj in s.majors && min in s.minors
    ensures var next, used := s.minors[min].next, min + MINOR_HEADER + s.minors[min].size;
            var end := if next == 0 then maj + s.majors[maj].size else next;
            used <= end && (end - used >= need <==> GapFits(h[i], k + 1, need))
    ensures !GapFits(h[i], k + 1, need) ==> NoGapBelow(h[i], k + 2, need)
  {
    assert MajorLinked(s.majors, h, i);
    LinkedCellFacts(s, h, i, k);
    assert GapStart(h[i], k + 1) <= GapEnd(h[i], k + 1);
  }

  // ---------- malloc past Fits ----------

  /** maj->size - maj->usage, as unsigned int. */
  function FreeBytes(m: Major): nat {
    (m.size + TWO_32 - m.usage) % TWO_32
  }

  ghost predicate Skipped(majors: Majors, a: Ptr, size: nat) {
    a in majors && FreeBytes(majors[a]) < size + MINOR_HEADER
  }

  ghost predicate AllSkipped(majors: Majors, addrs: seq<Ptr>, size: nat) {
    forall i :: 0 <= i < |addrs| ==> Skipped(majors, addrs[i], size)
  }

  ghost predicate ChainedAt(majors: Majors, addrs: seq<Ptr>, i: nat)
    requires i < |addrs|
  {
    addrs[i] in majors && majors[addrs[i]].next == (if i + 1 < |addrs| then addrs[i + 1] else 0) && addrs[i] != 0
  }

  ghost predicate Chained(majors: Majors, addrs: seq<Ptr>) {
    forall i :: 0 <= i < |addrs| ==> ChainedAt(majors, addrs, i)
  }

  lemma NextInChain(majors: Majors, addrs: seq<Ptr>, i: nat)
    requires Chained(majors, addrs) && i < |addrs|
    ensures addrs[i] in majors && addrs[i] != 0
    ensures if i + 1 < |addrs| then majors[addrs[i]].next == addrs[i + 1] != 0 else majors[addrs[i]].next == 0
  {
    assert ChainedAt(majors, addrs, i);
    if i + 1 < |addrs| { assert ChainedAt(majors, addrs, i + 1); }
  }

  lemma OneMoreSkipped(majors: Majors, addrs: seq<Ptr>, i: nat, size: nat)
    requires i < |addrs| && AllSkipped(majors, addrs[..i], size) && Skipped(majors, addrs[i], size)
    ensures AllSkipped(majors, addrs[..i + 1], size)
    ensures i + 1 == |addrs| ==> AllSkipped(majors, addrs, size)
  {
    forall j | 0 <= j < i
      ensures Skipped(majors, addrs[j], size)
    {
      assert Skipped(majors, addrs[..i][j], size);
    }
  }

  ghost function BlockAddrs(h: Heap): (s: seq<Ptr>)
    ensures |s| == |h| && forall i :: 0 <= i < |h| ==> s[i] == h[i].addr
  {
    seq(|h|, i requires 0 <= i < |h| => h[i].addr)
  }

  /** The state after a major was obtained at g and linked behind the one at last, or as root. */
  ghost function ObtainedImage(s: Image, last: Ptr, g: Ptr, size: nat): Image {
    var majors := if last != 0 && last in s.majors then s.majors[last := s.majors[last].(next := g)] else s.majors;
    s.(majors := majors[g := Major(last, 0, PagesRequested(size), RecordedSize(size), MAJOR_HEADER, 0)],
       root := if last == 0 then g else s.root,
       obtained := s.obtained + RecordedSize(size),
       held := s.held[g := PagesRequested(size)])
  }

  /** The state after CASE 2 put a request into the major at g. */
  ghost function FilledImage(s: Image, g: Ptr, req: nat): Image
    requires g in s.majors
  {
    var c, m := CutCell(g, req), s.majors[g];
    s.(majors := s.majors[g := m.(first := c.addr, usage := (m.usage + Padded(req) + MINOR_HEADER) % TWO_32)],
       minors := Overwrite(s.minors, c.addr, CellEnd(c))[c.addr := Minor(0, 0, g, MAGIC, c.size, c.req)],
       bytes := s.bytes[UserPtr(c) - ALIGN_INFO := UserPtr(c) - (c.addr + MINOR_HEADER)],
       inuse := s.inuse + Padded(req))
  }

  lemma ObtainedIsGrown(s: Image, last: Ptr, g: Ptr, size: nat, b: Block)
    requires b == FreshBlock(g, size) && BlockSize(b) == RecordedSize(size) < TWO_32
    requires last != 0 ==> last in s.majors && last != g
    ensures ObtainedImage(s, last, g, size) == GrownImage(s, last, b)
  {
  }

  lemma FilledIsPlaced(s: Image, b: Block, size: u32, req: u32)
    requires b.cells == [] && Placeable(s, b, 0, size) && size == Padded(req)
    ensures FilledImage(s, b.addr, req) == PlacedImage(s, b, 0, size, req)
    ensures CutCell(b.addr, req) == Cell(GapStart(b, 0), size, req)
  {
  }

  ghost function OversizedImage(s: Image, h: Heap, req: nat, grant: Ptr, second: Ptr): Image {
    var size, last := Padded(req), BlockAddr(h, |h| - 1);
    if grant == 0 then s
    else
      var t := ObtainedImage(s, last, grant, size);
      if h != [] || FreshFree(size) >= size + MINOR_HEADER then FilledImage(t, grant, req)
      else if second == 0 then t
      else FilledImage(ObtainedImage(t, grant, second, size), second, req)
  }

  /** No listed major has enough space for a request past Fits. */
  lemma OversizedList(s: Image, h: Heap, req: nat, grant: Ptr)
    requires Represents(s, h) && HeapWF(h) && !Fits(req) && GrantOk(h, grant, PagesRequested(Padded(req)))
    ensures Chained(s.majors, BlockAddrs(h)) && AllSkipped(s.majors, BlockAddrs(h), Padded(req))
    ensures s.root == 0 <==> h == []
    ensures h != [] ==> s.root == h[0].addr && BlockAddr(h, |h| - 1) in s.majors
    ensures s.best == 0 || (s.best in BlockAddrs(h) && Skipped(s.majors, s.best, Padded(req)))
    ensures grant != 0 ==> grant !in BlockAddrs(h)
  {
    forall i | 0 <= i < |h|
      ensures ChainedAt(s.majors, BlockAddrs(h), i) && Skipped(s.majors, h[i].addr, Padded(req))
      ensures grant != 0 ==> h[i].addr != grant
    {
      assert MajorLinked(s.majors, h, i);
      OversizedMajor(s.majors, h, i, req, grant);
      if i + 1 < |h| { CellsFit(h[i + 1]); }
    }
    if h != [] { assert Skipped(s.majors, h[|h| - 1].addr, Padded(req)); }
  }

  lemma OversizedMajor(majors: Majors, h: Heap, i: nat, req: nat, grant: Ptr)
    requires HeapCore(h) && i < |h| && MajorLinked(majors, h, i)
    requires !Fits(req) && GrantOk(h, grant, PagesRequested(Padded(req)))
    ensures ChainedAt(majors, BlockAddrs(h), i) && Skipped(majors, h[i].addr, Padded(req))
    ensures h[i].addr != 0 && (grant != 0 ==> h[i].addr != grant)
  {
    OversizedNeverFits(h[i], req);
    SkipIsSound(h[i], 0);
    CellsFit(h[i]);
    if grant != 0 { assert Apart(h[i], Block(grant, PagesRequested(Padded(req)), [])); }
  }

  /** What such a malloc leaves behind represents a heap in order only if nothing was granted. */
  lemma OversizedResult(s: Image, h: Heap, start: nat, best: Ptr, req: nat, grant: Ptr, second: Ptr)
    requires Represents(s, h) && HeapWF(h) && start <= |h| && !Fits(req) && GrantsOk(h, req, grant, second)
    requires grant == 0 ==> best == 0 || Listed(h, best)
    ensures var (h', p) := AfterOversized(h, req, grant, second);
            var s' := OversizedImage(s.(best := best), h, req, grant, second);
            && (Represents(s', h') && HeapWF(h') <==> grant == 0)
            && (if p == 0 then s'.bytes == s.bytes else OnlyOffsetChanged(p, s.bytes, s'.bytes))
  {
    var s' := OversizedImage(s.(best := best), h, req, grant, second);
    OversizedCounts(s.(best := best), h, start, req, grant, second);
    OversizedBytes(s.(best := best), h, req, grant, second);
    MallocSoundIff(Counted(h, s.inuse, s.obtained), start, req, grant, second);
  }

  lemma OversizedCounts(s: Image, h: Heap, start: nat, req: nat, grant: Ptr, second: Ptr)
    requires start <= |h| && !Fits(req)
    ensures var s' := OversizedImage(s, h, req, grant, second);
            CountedAfter(Counted(h, s.inuse, s.obtained), start, req, grant, second)
            == Counted(AfterOversized(h, req, grant, second).0, s'.inuse, s'.obtained)
  {
    assert Obtained(1, Padded(req)) == RecordedSize(Padded(req));
  }

  lemma OversizedBytes(s: Image, h: Heap, req: nat, grant: Ptr, second: Ptr)
    ensures var s', p := OversizedImage(s, h, req, grant, second), AfterOversized(h, req, grant, second).1;
            if p == 0 then s'.bytes == s.bytes else OnlyOffsetChanged(p, s.bytes, s'.bytes)
  {
  }

  lemma SecondDiffers(h: Heap, req: nat, grant: Ptr, second: Ptr)
    requires GrantsOk(h, req, grant, second) && second != 0
    ensures second != grant
  {
    assert (h + [Block(grant, PagesRequested(Padded(req)), [])])[|h|].addr == grant;
  }

  lemma GrowFacts(s: Image, h: Heap, maj: Ptr, grant: Ptr, size: nat, b: Block)
    requires Represents(s, h) && maj == BlockAddr(h, |h| - 1) && b == FreshBlock(grant, size)
    requires size + MAJOR_HEADER + MINOR_HEADER <= TWO_32 - PAGE_SIZE && GrantOk(h, grant, PagesRequested(size))
    ensures BlockSize(b) == RecordedSize(size) < TWO_32
    ensures (maj == 0 <==> h == []) && (maj != 0 ==> maj in s.majors && maj != grant)
    ensures grant != 0 ==> HeapCore(h + [b])
  {
    LastIn(s.majors, h);
    if grant != 0 {
      FreshBlockWF(h, grant, size);
      if h != [] { LastDiffers(h, b); }
    } else {
      FreshBlockFitsIff(size);
    }
  }

  lemma LastDiffers(h: Heap, b: Block)
    requires HeapCore(h + [b]) && h != []
    ensures BlockAddr(h, |h| - 1) != b.addr
  {
    assert (h + [b])[|h| - 1] == h[|h| - 1];
    DistinctBlocks(h + [b], |h| - 1, |h|);
  }

  // ---------- what the search has established ----------

  /** Where a search stands: the list it began with and the list now, the request, and the
      position.  bet says that it began at the best bet, grown that a block was obtained. */
  datatype Search = Search(h0: Heap, h: Heap, size: nat, start: nat, grant: Ptr, bet: bool, grown: bool, i: nat)

  ghost predicate NoRoomIn(h: Heap, from: nat, to: nat, need: nat) {
    forall j :: from <= j < to && j < |h| ==> !HasRoom(h[j], need)
  }

  /** Either no block was obtained, and from the best bet or from the root up to the position
      no block has room; or none of the old blocks has room and the position is the new one. */
  ghost predicate Searched(q: Search) {
    var need := q.size + MINOR_HEADER;
    && q.i < |q.h| && q.start <= |q.h0|
    && (if q.grown then
          && q.h == q.h0 + [FreshBlock(q.grant, q.size)] && q.i == |q.h0| && !q.bet && q.grant != 0
          && NoRoomIn(q.h0, 0, |q.h0|, need)
        else
          && q.h == q.h0
          && (if q.bet then q.start <= q.i && NoRoomIn(q.h0, q.start, q.i, need)
              else NoRoomIn(q.h0, 0, q.i, need) && (q.start > 0 ==> NoRoomIn(q.h0, q.start, |q.h0|, need))))
  }

  /** Bounds the number of majors still to be looked at. */
  ghost function Remaining(q: Search): nat {
    if q.grown || q.i > |q.h0| then 0 else (if q.bet then |q.h0| + 1 else 0) + |q.h0| - q.i + 1
  }

  /** The search went on, with fewer majors left. */
  ghost predicate Follows(q: Search, q': Search) {
    && q'.h0 == q.h0 && q'.start == q.start && q'.size == q.size && q'.grant == q.grant
    && Remaining(q') < Remaining(q) && PassedOn(q, q')
  }

  /** A search that stands at its position has passed old block j before. */
  ghost predicate Passed(q: Search, j: nat) {
    j < |q.h0|
    && (q.grown || (if q.bet then q.start <= j < q.i else j < q.i || (q.start > 0 && q.start <= j)))
  }

  ghost predicate PassedOn(q: Search, q': Search) {
    forall j: nat :: Passed(q', j) ==> Passed(q, j) || j == q.i
  }

  /** Nothing that the search comes to is left to be looked at. */
  ghost predicate Covered(q: Search, req: nat) {
    forall j: nat :: ComesTo(q.h0, q.start, req, j) ==> Passed(q, j) || j == q.i
  }

  /** No block passed so far has more free bytes than the best one known. */
  ghost predicate Outdone(q: Search, best: int) {
    forall j: nat :: Passed(q, j) ==> FreeTotal(q.h0[j]) <= best
  }

  lemma PlacedCovers(q: Search, req: nat)
    requires Searched(q) && Padded(req) == q.size && HasRoom(q.h[q.i], q.size + MINOR_HEADER)
    ensures Covered(q, req)
  {
    forall j: nat | ComesTo(q.h0, q.start, req, j)
      ensures Passed(q, j) || j == q.i
    {
      if !q.grown { assert Holds(q.h0[q.i], req); }
    }
  }

  lemma LastCovers(q: Search, req: nat)
    requires Searched(q) && !q.bet && (q.grown || q.i + 1 == |q.h0|)
    ensures Covered(q, req)
  {
  }

  lemma CoversOn(q: Search, q': Search, req: nat)
    requires Follows(q, q') && q'.grown
    ensures Covered(q, req)
  {
    forall j: nat | ComesTo(q.h0, q.start, req, j)
      ensures Passed(q, j) || j == q.i
    {
      assert Passed(q', j);
    }
  }

  lemma VisitedOutdone(q: Search, q': Search, best: int)
    requires Searched(q) && Outdone(q, best) && Follows(q, q')
    ensures var free := FreeTotal(q.h[q.i]); Outdone(q', if best < free then free else best)
  {
    forall j: nat | Passed(q', j)
      ensures FreeTotal(q.h0[j]) <= best || (j == q.i && q.h0[j] == q.h[q.i])
    {
      assert Passed(q, j) || j == q.i;
    }
  }

  /** The search ends with the best bet among the blocks it came to. */
  lemma VisitedAll(q: Search, req: nat, best: int, reach: Heap, bet: Ptr)
    requires Searched(q) && Outdone(q, best) && Covered(q, req)
    requires var free := FreeTotal(q.h[q.i]); BetIs(reach, bet, if best < free then free else best)
    ensures NoneOutdoes(q.h0, q.start, req, reach, bet)
  {
    var free := FreeTotal(q.h[q.i]);
    forall j: nat | ComesTo(q.h0, q.start, req, j)
      ensures FreeTotal(q.h0[j]) <= if best < free then free else best
    {
      assert Passed(q, j) || (j == q.i && q.h0[j] == q.h[q.i]);
    }
    assert NoneMore(q.h0, q.start, req, if best < free then free else best);
  }

  /** A search that begins at a listed block, or in an empty heap with a new one. */
  lemma Begun(q: Search)
    requires q.h == q.h0 && !q.grown && q.i == (if q.bet then q.start else 0)
    requires q.start <= |q.h0| && (!q.bet ==> q.start == 0)
    ensures q.i < |q.h| ==> Searched(q)
    ensures q.h == [] && !q.bet ==> NoRoomIn(q.h0, 0, |q.h0|, q.size + MINOR_HEADER)
    ensures q.h == [] && !q.bet && q.grant != 0 ==>
              Searched(q.(h := q.h + [FreshBlock(q.grant, q.size)], grown := true))
  {
  }

  /** The best bet and its size while majors are visited. */
  ghost predicate BetTracked(reach: Heap, was: Ptr, size0: int, best: Ptr, size: int) {
    BetIs(reach, was, size0) && BetIs(reach, best, size) && size0 <= size && (best == was || size0 < size)
  }

  lemma BetStays(h: Heap, b: Block, best: Ptr, size: int)
    requires BetIs(h, best, size)
    ensures BetTracked(h + [b], best, size, best, size)
  {
    if best != 0 || size != 0 {
      var j :| 0 <= j < |h| && h[j].addr == best && FreeTotal(h[j]) == size;
      assert (h + [b])[j] == h[j];
    }
  }

  /** Visiting a major keeps track of the best bet. */
  lemma BetVisited(reach: Heap, was: Ptr, size0: int, best: Ptr, size: int, q: Search, maj: Ptr)
    requires BetTracked(reach, was, size0, best, size)
    requires Searched(q) && reach == q.h0 + [FreshBlock(q.grant, q.size)] && maj == q.h[q.i].addr
    ensures var free := FreeTotal(q.h[q.i]);
            BetTracked(reach, was, size0, if size < free then maj else best, if size < free then free else size)
  {
    assert reach[q.i] == q.h[q.i];
  }

  lemma Hop(q: Search)
    requires Searched(q) && !q.grown && !HasRoom(q.h[q.i], q.size + MINOR_HEADER) && q.i + 1 < |q.h|
    ensures Searched(q.(i := q.i + 1)) && Follows(q, q.(i := q.i + 1))
  {
  }

  lemma Restart(q: Search)
    requires Searched(q) && !q.grown && !HasRoom(q.h[q.i], q.size + MINOR_HEADER)
    requires q.i + 1 == |q.h| && q.bet
    ensures Searched(q.(i := 0, bet := false)) && Follows(q, q.(i := 0, bet := false))
  {
  }

  /** Behind the last major of a search that covered the list from the root, nothing has room. */
  lemma Exhausted(q: Search)
    requires Searched(q) && !q.grown && !HasRoom(q.h[q.i], q.size + MINOR_HEADER)
    requires q.i + 1 == |q.h| && !q.bet
    ensures NoRoomIn(q.h0, 0, |q.h0|, q.size + MINOR_HEADER)
    ensures var q' := q.(h := q.h + [FreshBlock(q.grant, q.size)], i := q.i + 1, grown := true);
            q.grant != 0 ==> Searched(q') && Follows(q, q')
  {
  }

  lemma CaseOneFacts(q: Search, h: Heap)
    requires Searched(q) && h == q.h && HeapCore(h)
    requires BlockSize(q.h[q.i]) - Usage(q.h[q.i]) < q.size + MINOR_HEADER
    requires q.size + MAJOR_HEADER + MINOR_HEADER <= TWO_32 - PAGE_SIZE
    ensures !q.grown && !HasRoom(h[q.i], q.size + MINOR_HEADER)
  {
    SkipIsSound(h[q.i], q.size + MINOR_HEADER);
    FreshNotSkipped(q);
  }

  lemma MallocResultWF(h: Heap, start: nat, req: nat, grant: Ptr, h': Heap, p: Ptr)
    requires HeapWF(h) && start <= |h| && Fits(req)
    requires GrantOk(h, grant, PagesRequested(Padded(req)))
    requires (h', p) == AfterMalloc(h, start, req, grant)
    ensures HeapWF(h')
  {
    MallocWF(h, start, req, grant);
  }

  lemma SearchFailed(q: Search, req: nat)
    requires NoRoomIn(q.h0, 0, |q.h0|, q.size + MINOR_HEADER) && q.start <= |q.h0|
    requires q.size == Padded(req) && q.grant == 0
    ensures AfterMalloc(q.h0, q.start, req, q.grant) == (q.h0, 0)
  {
  }

  lemma ListedNotNull(h: Heap)
    requires HeapCore(h)
    ensures forall i: nat :: BlockAddr(h, i) == 0 <==> i >= |h|
  {
  }

  /** A block obtained for the request has enough space for it ... */
  lemma FreshNotSkipped(q: Search)
    requires Searched(q)
    requires q.size + MAJOR_HEADER + MINOR_HEADER <= TWO_32 - PAGE_SIZE
    ensures q.grown ==> BlockSize(q.h[q.i]) - Usage(q.h[q.i]) >= q.size + MINOR_HEADER
  {
    FreshBlockFitsIff(q.size);
  }

  /** ... in its only gap. */
  lemma FreshNotFull(q: Search)
    requires Searched(q) && !HasRoom(q.h[q.i], q.size + MINOR_HEADER)
    requires q.size + MAJOR_HEADER + MINOR_HEADER <= TWO_32 - PAGE_SIZE
    ensures !q.grown
  {
    FreshBlockFitsIff(q.size);
    assert q.grown ==> GapFits(q.h[q.i], 0, q.size + MINOR_HEADER);
  }

  /** The block in which the search places the request is the one that AfterMalloc chooses. */
  lemma SearchResult(q: Search, h': Heap, req: nat, p: Ptr, bytes: Bytes, bytes': Bytes)
    requires Searched(q) && q.size == Padded(req) && PlacedFrom(q.h, h', q.i, req, p, bytes, bytes')
    ensures (h', p) == AfterMalloc(q.h0, q.start, req, q.grant)
  {
    var need := q.size + MINOR_HEADER;
    if q.grown {
      var b := FreshBlock(q.grant, q.size);
      assert q.h[q.i] == b;
      assert FirstGap(b, need, 0) == 0;
      assert h' == Grown(q.h0, req, q.grant);
      assert ChosenBlock(q.h0, need, q.start) == |q.h0|;
    } else {
      FirstBlockIs(q.h0, need, if q.bet then q.start else 0, q.i);
      if !q.bet && q.start > 0 {
        FirstBlockIs(q.h0, need, q.start, |q.h0|);
      }
    }
  }
}
