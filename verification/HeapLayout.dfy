/** The layout of the kernel heap, as values: a heap is a list of blocks obtained from the
    system (majors), and a block holds an address-ordered list of cells (minors).  What is
    said here does not mention the links that liballoc.c threads through memory; the class
    in Liballoc.dfy is proved to keep those links in step with this picture. */
module HeapLayout {
  import opened Pages

  const PAGE_COUNT: nat := 16      // smallest number of pages requested at once
  const MAJOR_HEADER: nat := 40    // sizeof(struct liballoc_major)
  const MINOR_HEADER: nat := 40    // sizeof(struct liballoc_minor)
  const ALIGNMENT: nat := 16
  const ALIGN_INFO: nat := 16

  type u32 = x: int | 0 <= x < TWO_32

  /** An address; 0 is NULL. */
  type Ptr = nat

  /** One allocation: header at addr, payload of size bytes behind it, of which the caller
      asked for req. */
  datatype Cell = Cell(addr: Ptr, size: nat, req: nat)

  datatype Block = Block(addr: Ptr, pages: nat, cells: seq<Cell>)

  type Heap = seq<Block>

  function CellEnd(c: Cell): nat {
    c.addr + MINOR_HEADER + c.size
  }

  function BlockSize(b: Block): nat {
    b.pages * PAGE_SIZE
  }

  function Limit(b: Block): nat {
    b.addr + BlockSize(b)
  }

  // ---------- gaps ----------

  /** Gap k of a block lies in front of cell k; the last gap reaches to the end of the block. */
  function GapStart(b: Block, k: nat): nat
    requires k <= |b.cells|
  {
    if k == 0 then b.addr + MAJOR_HEADER else CellEnd(b.cells[k - 1])
  }

  function GapEnd(b: Block, k: nat): nat
    requires k <= |b.cells|
  {
    if k == |b.cells| then Limit(b) else b.cells[k].addr
  }

  ghost predicate GapFits(b: Block, k: nat, need: nat)
    requires k <= |b.cells|
  {
    GapEnd(b, k) - GapStart(b, k) >= need
  }

  ghost predicate NoGapBelow(b: Block, k: nat, need: nat) {
    forall j: nat :: j < k && j <= |b.cells| ==> !GapFits(b, j, need)
  }

  ghost predicate HasRoom(b: Block, need: nat) {
    exists k: nat :: k <= |b.cells| && GapFits(b, k, need)
  }

  // ---------- well-formedness ----------

  /** Every gap has a nonnegative length: the cells lie in address order, inside the block,
      behind its header, without overlap. */
  ghost predicate Ordered(b: Block) {
    forall k: nat :: k <= |b.cells| ==> GapStart(b, k) <= GapEnd(b, k)
  }

  ghost predicate BlockWF(b: Block) {
    && 0 < b.addr
    && b.addr % PAGE_SIZE == 0
    && BlockSize(b) < TWO_32
    && Limit(b) <= TWO_64
    && Ordered(b)
    && (forall k :: 0 <= k < |b.cells| ==> b.cells[k].req + ALIGNMENT + ALIGN_INFO <= b.cells[k].size)
  }

  predicate Apart(b: Block, c: Block) {
    Limit(b) <= c.addr || Limit(c) <= b.addr
  }

  ghost predicate HeapCore(h: Heap) {
    && (forall i :: 0 <= i < |h| ==> BlockWF(h[i]))
    && (forall i, j :: 0 <= i < j < |h| ==> Apart(h[i], h[j]))
  }

  /** Between calls no block is empty. */
  ghost predicate HeapWF(h: Heap) {
    && HeapCore(h)
    && (forall i :: 0 <= i < |h| ==> h[i].cells != [])
  }

  // ---------- accounting ----------

  function CellBytes(cells: seq<Cell>): nat {
    if cells == [] then 0
    else CellBytes(cells[..|cells| - 1]) + cells[|cells| - 1].size + MINOR_HEADER
  }

  function PayloadBytes(cells: seq<Cell>): nat {
    if cells == [] then 0
    else PayloadBytes(cells[..|cells| - 1]) + cells[|cells| - 1].size
  }

  /** What maj->usage has to be. */
  function Usage(b: Block): nat {
    MAJOR_HEADER + CellBytes(b.cells)
  }

  /** The free bytes of a block in total. */
  function FreeTotal(b: Block): int {
    BlockSize(b) - Usage(b)
  }

  function InUse(h: Heap): nat {
    if h == [] then 0 else InUse(h[..|h| - 1]) + PayloadBytes(h[|h| - 1].cells)
  }

  function Allocated(h: Heap): nat {
    if h == [] then 0 else Allocated(h[..|h| - 1]) + BlockSize(h[|h| - 1])
  }

  /** Total length of the first k gaps. */
  function FreeBefore(b: Block, k: nat): int
    requires k <= |b.cells| + 1
  {
    if k == 0 then 0 else FreeBefore(b, k - 1) + GapEnd(b, k - 1) - GapStart(b, k - 1)
  }

  lemma {:induction false} GapsTelescope(b: Block, k: nat)
    requires k <= |b.cells|
    ensures GapStart(b, k) == b.addr + MAJOR_HEADER + CellBytes(b.cells[..k]) + FreeBefore(b, k)
  {
    if k > 0 {
      GapsTelescope(b, k - 1);
      assert b.cells[..k][..k - 1] == b.cells[..k - 1];
    }
  }

  /** The free total that CASE 1 looks at is exactly the sum of all the gaps. */
  lemma FreeIsSumOfGaps(b: Block)
    ensures BlockSize(b) - Usage(b) == FreeBefore(b, |b.cells| + 1)
  {
    GapsTelescope(b, |b.cells|);
    assert b.cells[..|b.cells|] == b.cells;
  }

  lemma {:induction false} GapBelowSum(b: Block, k: nat, n: nat)
    requires Ordered(b)
    requires n <= |b.cells| + 1
    ensures 0 <= FreeBefore(b, n)
    ensures k < n ==> GapEnd(b, k) - GapStart(b, k) <= FreeBefore(b, n)
  {
    if n > 0 {
      GapBelowSum(b, k, n - 1);
    }
  }

  /** Passing over a block because of its free total never passes over a usable gap. */
  lemma SkipIsSound(b: Block, need: nat)
    requires Ordered(b)
    ensures Usage(b) <= BlockSize(b)
    ensures BlockSize(b) - Usage(b) < need ==> !HasRoom(b, need)
  {
    FreeIsSumOfGaps(b);
    GapBelowSum(b, 0, |b.cells| + 1);
    forall k: nat | k <= |b.cells|
      ensures GapEnd(b, k) - GapStart(b, k) <= BlockSize(b) - Usage(b)
    {
      GapBelowSum(b, k, |b.cells| + 1);
    }
  }

  lemma {:induction false} CellsApart(b: Block, j: nat, k: nat)
    requires Ordered(b) && j < k < |b.cells|
    ensures CellEnd(b.cells[j]) <= b.cells[k].addr
  {
    assert GapStart(b, k) <= GapEnd(b, k);
    if j + 1 < k {
      CellsApart(b, j, k - 1);
    }
  }

  lemma {:induction false} CellInside(b: Block, k: nat)
    requires Ordered(b) && k < |b.cells|
    ensures b.addr + MAJOR_HEADER <= b.cells[k].addr && CellEnd(b.cells[k]) <= Limit(b)
  {
    assert GapStart(b, 0) <= GapEnd(b, 0);
    assert GapStart(b, |b.cells|) <= GapEnd(b, |b.cells|);
    if k > 0 {
      CellsApart(b, 0, k);
    }
    if k < |b.cells| - 1 {
      CellsApart(b, k, |b.cells| - 1);
    }
  }

  /** Any two different cells of a heap occupy disjoint memory, headers included. */
  lemma AllCellsApart(h: Heap, i: nat, k: nat, i': nat, k': nat)
    requires HeapCore(h)
    requires i < |h| && k < |h[i].cells| && i' < |h| && k' < |h[i'].cells|
    requires (i, k) != (i', k')
    ensures CellEnd(h[i].cells[k]) <= h[i'].cells[k'].addr || CellEnd(h[i'].cells[k']) <= h[i].cells[k].addr
  {
    CellInside(h[i], k);
    CellInside(h[i'], k');
    if i == i' {
      if k < k' { CellsApart(h[i], k, k'); } else { CellsApart(h[i], k', k); }
    }
  }

  // ---------- alignment ----------

  /** Where ALIGN moves a raw payload address. */
  function Aligned(raw: nat): (p: nat)
    ensures p % ALIGNMENT == 0
    ensures raw + ALIGN_INFO <= p < raw + ALIGN_INFO + ALIGNMENT
  {
    var p := raw + ALIGN_INFO;
    var diff := p % ALIGNMENT;
    if diff != 0 then p + (ALIGNMENT - diff) else p
  }

  /** The pointer handed to the caller for a cell. */
  function UserPtr(c: Cell): Ptr {
    Aligned(c.addr + MINOR_HEADER)
  }

  /** The requested bytes and the stored offset lie inside the payload, apart from each other. */
  lemma PayloadInsideCell(c: Cell)
    requires c.req + ALIGNMENT + ALIGN_INFO <= c.size
    ensures UserPtr(c) % ALIGNMENT == 0
    ensures c.addr + MINOR_HEADER <= UserPtr(c) - ALIGN_INFO < UserPtr(c)
    ensures UserPtr(c) + c.req <= CellEnd(c)
    ensures ALIGN_INFO <= UserPtr(c) - (c.addr + MINOR_HEADER) < ALIGNMENT + ALIGN_INFO
  {
  }

  // ---------- the search ----------

  /** The first gap from k on that holds need bytes; one past the last gap when there is none. */
  function FirstGap(b: Block, need: nat, k: nat): (r: nat)
    requires k <= |b.cells| + 1
    ensures k <= r <= |b.cells| + 1
    ensures r <= |b.cells| ==> GapEnd(b, r) - GapStart(b, r) >= need
    ensures forall j: nat :: k <= j < r ==> !GapFits(b, j, need)
    decreases |b.cells| + 1 - k
  {
    if k == |b.cells| + 1 || GapEnd(b, k) - GapStart(b, k) >= need then k
    else FirstGap(b, need, k + 1)
  }

  /** The first block from i on with a gap that holds need bytes; |h| when there is none. */
  function FirstBlock(h: Heap, need: nat, i: nat): (r: nat)
    requires i <= |h|
    ensures i <= r <= |h|
    ensures r < |h| ==> HasRoom(h[r], need)
    ensures forall j :: i <= j < r ==> !HasRoom(h[j], need)
    decreases |h| - i
  {
    if i == |h| || FirstGap(h[i], need, 0) <= |h[i].cells| then
      if i < |h| then assert GapFits(h[i], FirstGap(h[i], need, 0), need); i else i
    else FirstBlock(h, need, i + 1)
  }

  /** The search order: from the starting block to the end of the list, then from the root. */
  function ChosenBlock(h: Heap, need: nat, start: nat): (r: nat)
    requires start <= |h|
    ensures r <= |h|
    ensures r < |h| <==> exists i :: 0 <= i < |h| && HasRoom(h[i], need)
    ensures r < |h| ==> HasRoom(h[r], need)
  {
    var i := FirstBlock(h, need, start);
    if i < |h| then i else FirstBlock(h, need, 0)
  }

  lemma RoomHasFirstGap(b: Block, need: nat)
    requires HasRoom(b, need)
    ensures FirstGap(b, need, 0) <= |b.cells|
    ensures GapFits(b, FirstGap(b, need, 0), need)
  {
  }

  lemma FirstBlockIs(h: Heap, need: nat, i: nat, r: nat)
    requires i <= r <= |h|
    requires forall j :: i <= j < r ==> !HasRoom(h[j], need)
    requires r < |h| ==> HasRoom(h[r], need)
    ensures FirstBlock(h, need, i) == r
  {
  }

  lemma FirstGapIs(b: Block, need: nat, r: nat)
    requires r <= |b.cells|
    requires NoGapBelow(b, r, need)
    requires GapFits(b, r, need)
    ensures FirstGap(b, need, 0) == r
  {
    var f := FirstGap(b, need, 0);
    assert f < r ==> GapFits(b, f, need);
  }
}
