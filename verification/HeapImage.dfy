/** When the whole state of liballoc represents a layout, and which updates of that state
    represent which steps of the layout. */
module HeapImage {
  import opened Pages
  import opened HeapLayout
  import opened HeapSpec
  import opened HeapLinks

  /** The payload bytes of the machine, by address. */
  type Bytes = map<Ptr, int>

  /** Everything liballoc keeps: both kinds of headers, the payload bytes, its static
      variables, and the pages it holds from the system. */
  datatype Image = Image(majors: Majors, minors: Minors, bytes: Bytes, root: Ptr, best: Ptr,
                         inuse: nat, obtained: nat, held: map<Ptr, nat>)

  /** The byte at an address; memory outside the map reads as 0. */
  function Load(m: Bytes, a: Ptr): int {
    if a in m then m[a] else 0
  }

  ghost predicate OffsetStored(m: Bytes, c: Cell) {
    Load(m, UserPtr(c) - ALIGN_INFO) == UserPtr(c) - (c.addr + MINOR_HEADER)
  }

  ghost predicate OffsetsIn(m: Bytes, b: Block) {
    forall k :: 0 <= k < |b.cells| ==> OffsetStored(m, b.cells[k])
  }

  ghost predicate OffsetsStored(m: Bytes, h: Heap) {
    forall i :: 0 <= i < |h| ==> OffsetsIn(m, h[i])
  }

  ghost predicate Listed(h: Heap, a: Ptr) {
    exists i :: 0 <= i < |h| && h[i].addr == a
  }

  ghost predicate Represents(s: Image, h: Heap) {
    && HeapCore(h)
    && MajorsLinked(s.majors, h)
    && MinorsLinked(s.minors, h)
    && OffsetsStored(s.bytes, h)
    && s.root == BlockAddr(h, 0)
    && (s.best == 0 || Listed(h, s.best))
    && s.inuse == InUse(h)
    && s.obtained == Allocated(h)
    && s.held == Held(h)
  }

  // ---------- where the search starts ----------

  /** The position of the block at a, or |h|. */
  function IndexOf(h: Heap, a: Ptr): (r: nat)
    ensures r <= |h|
    ensures r < |h| ==> h[r].addr == a
    ensures Listed(h, a) ==> r < |h|
  {
    if h == [] then 0
    else if h[0].addr == a then 0
    else
      assert Listed(h, a) ==> Listed(h[1..], a) by {
        if Listed(h, a) {
          var i :| 0 <= i < |h| && h[i].addr == a;
          assert h[1..][i - 1].addr == a;
        }
      }
      1 + IndexOf(h[1..], a)
  }

  /** The search starts at the best bet if that has more than enough free bytes in total. */
  function StartIndex(h: Heap, best: Ptr, size: nat): (r: nat)
    ensures r <= |h|
  {
    var i := IndexOf(h, best);
    if i < |h| && BlockSize(h[i]) - Usage(h[i]) > size + MINOR_HEADER then i else 0
  }

  // ---------- placing a cell ----------

  lemma PlaceMajors(majors: Majors, h: Heap, i: nat, k: nat, size: u32, req: u32, m: Major)
    requires HeapCore(h) && MajorsLinked(majors, h) && i < |h| && k <= |h[i].cells|
    requires m.prev == BlockAddr(h, i - 1) && m.next == BlockAddr(h, i + 1)
    requires m.pages == h[i].pages && m.size == BlockSize(h[i])
    requires m.usage == Usage(h[i]) + size + MINOR_HEADER
    requires m.first == if k == 0 then GapStart(h[i], 0) else h[i].cells[0].addr
    ensures MajorsLinked(majors[h[i].addr := m], PlaceIn(h, i, k, size, req))
  {
    var h' := PlaceIn(h, i, k, size, req);
    var majors' := majors[h[i].addr := m];
    InsertSums(h[i], k, size, req);
    forall j | 0 <= j < |h'|
      ensures MajorLinked(majors', h', j)
    {
      assert MajorLinked(majors, h, j);
      if j != i {
        DistinctBlocks(h, i, j);
      }
    }
  }

  lemma PlaceOffsets(bytes: Bytes, h: Heap, i: nat, k: nat, size: nat, req: nat)
    requires HeapCore(h) && OffsetsStored(bytes, h) && i < |h| && k <= |h[i].cells|
    requires GapFits(h[i], k, size + MINOR_HEADER) && Padded(req) <= size
    ensures var c := Cell(GapStart(h[i], k), size, req);
            OffsetsStored(bytes[UserPtr(c) - ALIGN_INFO := UserPtr(c) - (c.addr + MINOR_HEADER)],
                          PlaceIn(h, i, k, size, req))
  {
    var c := Cell(GapStart(h[i], k), size, req);
    var h' := PlaceIn(h, i, k, size, req);
    var bytes' := bytes[UserPtr(c) - ALIGN_INFO := UserPtr(c) - (c.addr + MINOR_HEADER)];
    PlaceCore(h, i, k, size, req);
    assert h'[i].cells[k] == c;
    forall i', k' | 0 <= i' < |h'| && 0 <= k' < |h'[i'].cells|
      ensures OffsetStored(bytes', h'[i'].cells[k'])
    {
      var d := h'[i'].cells[k'];
      if (i', k') != (i, k) {
        AllCellsApart(h', i, k, i', k');
        assert OffsetsIn(bytes, h[i']);
        assert d == h[i'].cells[if i' == i && k' > k then k' - 1 else k'];
        OffsetKept(bytes, c, d);
      }
    }
  }

  /** Storing the offset of one cell leaves that of a cell apart from it. */
  lemma OffsetKept(bytes: Bytes, c: Cell, d: Cell)
    requires Padded(c.req) <= c.size && Padded(d.req) <= d.size && OffsetStored(bytes, d)
    requires CellEnd(d) <= c.addr || CellEnd(c) <= d.addr
    ensures OffsetStored(bytes[UserPtr(c) - ALIGN_INFO := UserPtr(c) - (c.addr + MINOR_HEADER)], d)
  {
    PayloadInsideCell(c);
    PayloadInsideCell(d);
  }

  /** A step that moves no block leaves root, best bet and held pages as they were. */
  lemma SamePlaces(h: Heap, h': Heap, best: Ptr)
    requires |h| == |h'|
    requires forall i :: 0 <= i < |h| ==> h[i].addr == h'[i].addr && h[i].pages == h'[i].pages
    requires best == 0 || Listed(h, best)
    ensures BlockAddr(h, 0) == BlockAddr(h', 0)
    ensures Held(h') == Held(h)
    ensures best == 0 || Listed(h', best)
  {
    HeldSame(h, h');
    if best != 0 {
      var j :| 0 <= j < |h| && h[j].addr == best;
      assert h'[j].addr == best;
    }
  }

  lemma PlaceMinors(minors: Minors, h: Heap, i: nat, k: nat, size: u32, req: u32)
    requires HeapCore(h) && MinorsLinked(minors, h)
    requires i < |h| && k <= |h[i].cells| && GapFits(h[i], k, size + MINOR_HEADER)
    ensures var m := Overwrite(minors, GapStart(h[i], k), GapStart(h[i], k) + MINOR_HEADER + size);
            SidesLinked(m, h[i], k) && MinorsLinked(LinkCell(m, h[i], k, size, req), PlaceIn(h, i, k, size, req))
  {
    OverwriteGap(minors, h, i, k, size + MINOR_HEADER);
    LinkCellCorrect(Overwrite(minors, GapStart(h[i], k), GapStart(h[i], k) + MINOR_HEADER + size), h, i, k, size, req);
  }

  /** A cell of the given size may go into gap k of b: the header of the major, room in its
      counters, and the headers next to the gap, which are not in the memory to be used. */
  ghost predicate Placeable(s: Image, b: Block, k: nat, size: u32)
    requires k <= |b.cells|
  {
    && b.addr in s.majors
    && s.majors[b.addr].usage + size + MINOR_HEADER < TWO_32
    && SidesLinked(s.minors, b, k)
    && SidesLinked(Overwrite(s.minors, GapStart(b, k), GapStart(b, k) + MINOR_HEADER + size), b, k)
    && NotIn(b, GapStart(b, k)) && Distinct(b)
  }

  lemma PlaceFacts(s: Image, h: Heap, i: nat, k: nat, size: u32)
    requires Represents(s, h) && i < |h| && k <= |h[i].cells|
    requires GapFits(h[i], k, size + MINOR_HEADER)
    ensures MajorLinked(s.majors, h, i)
    ensures Placeable(s, h[i], k, size)
  {
    assert MajorLinked(s.majors, h, i);
    GapBelowSum(h[i], k, |h[i].cells| + 1);
    FreeIsSumOfGaps(h[i]);
    PlaceMinors(s.minors, h, i, k, size, 0);
    GapNotIn(h, i, k, size + MINOR_HEADER, i);
    CellsDistinct(h, i);
  }

  /** The state after a cell was linked into gap k of b, charged to its major, and its offset
      stored. */
  ghost function PlacedImage(s: Image, b: Block, k: nat, size: u32, req: u32): Image
    requires k <= |b.cells| && Placeable(s, b, k, size)
  {
    var a := GapStart(b, k);
    var p := UserPtr(Cell(a, size, req));
    var m := s.majors[b.addr];
    var m := m.(usage := m.usage + size + MINOR_HEADER, first := if k == 0 then a else m.first);
    s.(majors := s.majors[b.addr := m],
       minors := LinkCell(Overwrite(s.minors, a, a + MINOR_HEADER + size), b, k, size, req),
       bytes := s.bytes[p - ALIGN_INFO := p - (a + MINOR_HEADER)],
       inuse := s.inuse + size)
  }

  lemma PlacedMajors(s: Image, h: Heap, i: nat, k: nat, size: u32, req: u32)
    requires HeapCore(h) && MajorsLinked(s.majors, h) && i < |h| && k <= |h[i].cells|
    requires Placeable(s, h[i], k, size)
    ensures MajorsLinked(PlacedImage(s, h[i], k, size, req).majors, PlaceIn(h, i, k, size, req))
  {
    assert MajorLinked(s.majors, h, i);
    PlaceMajors(s.majors, h, i, k, size, req, PlacedImage(s, h[i], k, size, req).majors[h[i].addr]);
  }

  lemma PlacedOffsets(s: Image, h: Heap, i: nat, k: nat, size: u32, req: u32)
    requires HeapCore(h) && OffsetsStored(s.bytes, h) && i < |h| && k <= |h[i].cells|
    requires GapFits(h[i], k, size + MINOR_HEADER) && Padded(req) <= size
    requires Placeable(s, h[i], k, size)
    ensures OffsetsStored(PlacedImage(s, h[i], k, size, req).bytes, PlaceIn(h, i, k, size, req))
  {
    PlaceOffsets(s.bytes, h, i, k, size, req);
  }

  lemma PlacedMinors(s: Image, h: Heap, i: nat, k: nat, size: u32, req: u32)
    requires HeapCore(h) && MinorsLinked(s.minors, h) && i < |h| && k <= |h[i].cells|
    requires GapFits(h[i], k, size + MINOR_HEADER)
    requires Placeable(s, h[i], k, size)
    ensures MinorsLinked(PlacedImage(s, h[i], k, size, req).minors, PlaceIn(h, i, k, size, req))
  {
    PlaceMinors(s.minors, h, i, k, size, req);
  }

  lemma PlacedCounts(s: Image, h: Heap, i: nat, k: nat, size: u32, req: u32)
    requires i < |h| && k <= |h[i].cells| && Placeable(s, h[i], k, size)
    requires s.root == BlockAddr(h, 0) && (s.best == 0 || Listed(h, s.best))
    requires s.inuse == InUse(h) && s.obtained == Allocated(h) && s.held == Held(h)
    ensures var s', h' := PlacedImage(s, h[i], k, size, req), PlaceIn(h, i, k, size, req);
            && s'.root == BlockAddr(h', 0) && (s'.best == 0 || Listed(h', s'.best))
            && s'.inuse == InUse(h') && s'.obtained == Allocated(h') && s'.held == Held(h')
  {
    PlaceSums(h, i, k, size, req);
    SamePlaces(h, PlaceIn(h, i, k, size, req), s.best);
  }

  /** That state represents the layout with the cell inserted. */
  lemma PlaceRepresents(s: Image, h: Heap, i: nat, k: nat, size: u32, req: u32)
    requires Represents(s, h) && i < |h| && k <= |h[i].cells|
    requires GapFits(h[i], k, size + MINOR_HEADER) && Padded(req) <= size
    requires Placeable(s, h[i], k, size)
    ensures Represents(PlacedImage(s, h[i], k, size, req), PlaceIn(h, i, k, size, req))
  {
    PlaceCore(h, i, k, size, req);
    PlacedMajors(s, h, i, k, size, req);
    PlacedMinors(s, h, i, k, size, req);
    PlacedOffsets(s, h, i, k, size, req);
    PlacedCounts(s, h, i, k, size, req);
  }

  // ---------- adding a block ----------

  /** The majors after the empty block b was linked behind the one at last, 0 for none. */
  function GrownMajors(majors: Majors, last: Ptr, b: Block): Majors
    requires BlockSize(b) < TWO_32 && (last != 0 ==> last in majors)
  {
    var m := majors[b.addr := Major(last, 0, b.pages, BlockSize(b), MAJOR_HEADER, 0)];
    if last == 0 then m else m[last := majors[last].(next := b.addr)]
  }

  ghost function GrownImage(s: Image, last: Ptr, b: Block): Image
    requires BlockSize(b) < TWO_32 && (last != 0 ==> last in s.majors)
  {
    s.(majors := GrownMajors(s.majors, last, b),
       root := if last == 0 then b.addr else s.root,
       obtained := s.obtained + BlockSize(b),
       held := s.held[b.addr := b.pages])
  }

  lemma LastIn(majors: Majors, h: Heap)
    requires HeapCore(h) && MajorsLinked(majors, h)
    ensures BlockAddr(h, |h| - 1) == 0 <==> h == []
    ensures h != [] ==> BlockAddr(h, |h| - 1) in majors
  {
    if h != [] { assert MajorLinked(majors, h, |h| - 1); }
  }

  lemma GrowMajors(majors: Majors, h: Heap, b: Block)
    requires HeapCore(h + [b]) && MajorsLinked(majors, h) && b.cells == [] && BlockSize(b) < TWO_32
    requires var last := BlockAddr(h, |h| - 1); (last == 0 <==> h == []) && (last != 0 ==> last in majors)
    ensures MajorsLinked(GrownMajors(majors, BlockAddr(h, |h| - 1), b), h + [b])
  {
    var h' := h + [b];
    var majors' := GrownMajors(majors, BlockAddr(h, |h| - 1), b);
    forall j | 0 <= j < |h'|
      ensures MajorLinked(majors', h', j)
    {
      if j < |h| {
        assert h'[j] == h[j];
        assert MajorLinked(majors, h, j);
        DistinctBlocks(h', j, |h|);
        if j < |h| - 1 { assert h'[|h| - 1] == h[|h| - 1]; DistinctBlocks(h', j, |h| - 1); }
      } else if h != [] {
        assert h'[|h| - 1] == h[|h| - 1];
        DistinctBlocks(h', |h| - 1, |h|);
      }
    }
  }

  lemma GrowMinors(minors: Minors, h: Heap, b: Block)
    requires MinorsLinked(minors, h) && b.cells == []
    ensures MinorsLinked(minors, h + [b])
  {
    var h' := h + [b];
    forall j | 0 <= j < |h'|
      ensures CellsLinked(minors, h'[j])
    {
      if j < |h| { assert h'[j] == h[j]; }
    }
    forall a | a in minors && minors[a].magic == MAGIC
      ensures IsCell(h', a)
    {
      var i: nat, k: nat :| i < |h| && k < |h[i].cells| && h[i].cells[k].addr == a;
      assert h'[i].cells[k].addr == a;
    }
  }

  lemma GrowOffsets(bytes: Bytes, h: Heap, b: Block, best: Ptr)
    requires OffsetsStored(bytes, h) && b.cells == [] && (best == 0 || Listed(h, best))
    ensures OffsetsStored(bytes, h + [b]) && (best == 0 || Listed(h + [b], best))
  {
    var h' := h + [b];
    forall i | 0 <= i < |h'|
      ensures OffsetsIn(bytes, h'[i])
    {
      if i < |h| { assert h'[i] == h[i]; }
    }
    if best != 0 {
      var j :| 0 <= j < |h| && h[j].addr == best;
      assert h'[j].addr == best;
    }
  }

  lemma GrowSums(h: Heap, b: Block)
    requires b.cells == []
    ensures InUse(h + [b]) == InUse(h)
    ensures Allocated(h + [b]) == Allocated(h) + BlockSize(b)
    ensures Held(h + [b]) == Held(h)[b.addr := b.pages]
  {
  }

  /** Linking a fresh, still empty block behind the last one represents the longer list. */
  lemma GrowRepresents(s: Image, h: Heap, b: Block)
    requires Represents(s, h) && HeapCore(h + [b]) && b.cells == [] && BlockSize(b) < TWO_32
    requires var last := BlockAddr(h, |h| - 1); (last == 0 <==> h == []) && (last != 0 ==> last in s.majors)
    ensures Represents(GrownImage(s, BlockAddr(h, |h| - 1), b), h + [b])
  {
    GrowMajors(s.majors, h, b);
    GrowMinors(s.minors, h, b);
    GrowOffsets(s.bytes, h, b, s.best);
    GrowSums(h, b);
  }

  // ---------- removing a cell and a block ----------

  /** Cell k of b may be unlinked: its header and those of its neighbours are in place. */
  ghost predicate Removable(s: Image, b: Block, k: nat)
    requires k < |b.cells|
  {
    && b.addr in s.majors
    && s.majors[b.addr].usage >= b.cells[k].size + MINOR_HEADER
    && s.inuse >= b.cells[k].size
    && s.majors[b.addr].first == b.cells[0].addr
    && SidesLinked(s.minors, b, k) && SidesLinked(s.minors, b, k + 1)
    && Distinct(b) && b.cells[k].addr > 0 && (0 < k ==> b.cells[k - 1].addr > 0)
    && (k + 1 < |b.cells| ==> b.cells[k + 1].addr > 0)
  }

  lemma RemoveFacts(s: Image, h: Heap, i: nat, k: nat)
    requires Represents(s, h) && i < |h| && k < |h[i].cells|
    ensures MajorLinked(s.majors, h, i)
    ensures Removable(s, h[i], k)
  {
    assert MajorLinked(s.majors, h, i);
    RemoveSums(h[i], k);
    InUseBound(h, i, k);
    CellsDistinct(h, i);
    RemoveSides(s.minors, h, i, k);
  }

  lemma RemoveSides(minors: Minors, h: Heap, i: nat, k: nat)
    requires HeapCore(h) && MinorsLinked(minors, h) && i < |h| && k < |h[i].cells|
    ensures SidesLinked(minors, h[i], k) && SidesLinked(minors, h[i], k + 1)
    ensures h[i].cells[k].addr > 0 && (0 < k ==> h[i].cells[k - 1].addr > 0)
    ensures k + 1 < |h[i].cells| ==> h[i].cells[k + 1].addr > 0
  {
    assert CellsLinked(minors, h[i]);
    CellInside(h[i], k);
    if 0 < k { CellInside(h[i], k - 1); }
    if k + 1 < |h[i].cells| { CellInside(h[i], k + 1); }
  }

  lemma InUseBound(h: Heap, i: nat, k: nat)
    requires i < |h| && k < |h[i].cells|
    ensures InUse(h) >= h[i].cells[k].size
  {
    FreeSums(h, i, k);
  }

  /** The state after cell k of b was unlinked and credited to its major. */
  ghost function RemovedImage(s: Image, b: Block, k: nat): Image
    requires k < |b.cells| && Removable(s, b, k)
  {
    var m := s.majors[b.addr];
    var m := m.(usage := m.usage - b.cells[k].size - MINOR_HEADER,
                first := if k == 0 then CellAddr(b, 1) else m.first);
    s.(majors := s.majors[b.addr := m], minors := UnlinkCell(s.minors, b, k), inuse := s.inuse - b.cells[k].size)
  }

  lemma RemovedMajors(s: Image, h: Heap, i: nat, k: nat)
    requires HeapCore(h) && MajorsLinked(s.majors, h) && i < |h| && k < |h[i].cells|
    requires Removable(s, h[i], k)
    ensures MajorsLinked(RemovedImage(s, h[i], k).majors, h[i := RemoveCell(h[i], k)])
  {
    var h' := h[i := RemoveCell(h[i], k)];
    var majors' := RemovedImage(s, h[i], k).majors;
    RemoveSums(h[i], k);
    forall j | 0 <= j < |h'|
      ensures MajorLinked(majors', h', j)
    {
      assert MajorLinked(s.majors, h, j);
      if j != i {
        DistinctBlocks(h, i, j);
      }
    }
  }

  lemma RemoveOffsets(bytes: Bytes, h: Heap, i: nat, k: nat)
    requires OffsetsStored(bytes, h) && i < |h| && k < |h[i].cells|
    ensures OffsetsStored(bytes, h[i := RemoveCell(h[i], k)])
  {
  }

  lemma RemovedCounts(s: Image, h: Heap, i: nat, k: nat)
    requires i < |h| && k < |h[i].cells| && Removable(s, h[i], k)
    requires s.root == BlockAddr(h, 0) && (s.best == 0 || Listed(h, s.best))
    requires s.inuse == InUse(h) && s.obtained == Allocated(h) && s.held == Held(h)
    ensures var s', h' := RemovedImage(s, h[i], k), h[i := RemoveCell(h[i], k)];
            && s'.root == BlockAddr(h', 0) && (s'.best == 0 || Listed(h', s'.best))
            && s'.inuse == InUse(h') && s'.obtained == Allocated(h') && s'.held == Held(h')
  {
    RemoveSums(h[i], k);
    ReplaceSums(h, i, RemoveCell(h[i], k));
    SamePlaces(h, h[i := RemoveCell(h[i], k)], s.best);
  }

  /** That state represents the layout without the cell. */
  lemma RemoveRepresents(s: Image, h: Heap, i: nat, k: nat)
    requires Represents(s, h) && i < |h| && k < |h[i].cells| && Removable(s, h[i], k)
    ensures Represents(RemovedImage(s, h[i], k), h[i := RemoveCell(h[i], k)])
  {
    RemoveOrdered(h[i], k);
    RemovedMajors(s, h, i, k);
    UnlinkCellCorrect(s.minors, h, i, k);
    RemoveOffsets(s.bytes, h, i, k);
    RemovedCounts(s, h, i, k);
  }

  /** The majors after the one at maj was taken out of the list. */
  function UnlinkMajor(majors: Majors, maj: Ptr): Majors
    requires maj in majors
    requires majors[maj].prev != 0 ==> majors[maj].prev in majors
    requires majors[maj].next != 0 ==> majors[maj].next in majors
  {
    var (prev, next) := (majors[maj].prev, majors[maj].next);
    var m := if prev != 0 then majors[prev := majors[prev].(next := next)] else majors;
    var m := if next != 0 then m[next := m[next].(prev := prev)] else m;
    m - {maj}
  }

  ghost predicate Droppable(s: Image, h: Heap, i: nat)
    requires i < |h|
  {
    && s.obtained >= BlockSize(h[i])
    && MajorLinked(s.majors, h, i)
    && (0 < i ==> MajorLinked(s.majors, h, i - 1) && h[i - 1].addr != 0 && h[i - 1].addr != h[i].addr)
    && (i + 1 < |h| ==> MajorLinked(s.majors, h, i + 1) && h[i + 1].addr != 0 && h[i + 1].addr != h[i].addr)
    && (0 < i < |h| - 1 ==> h[i - 1].addr != h[i + 1].addr)
  }

  lemma DropFacts(s: Image, h: Heap, i: nat)
    requires Represents(s, h) && i < |h| && h[i].cells == []
    ensures Droppable(s, h, i)
  {
    DropSums(h, i);
    assert MajorLinked(s.majors, h, i);
    if 0 < i { assert MajorLinked(s.majors, h, i - 1); DistinctBlocks(h, i - 1, i); assert BlockWF(h[i - 1]); }
    if i + 1 < |h| { assert MajorLinked(s.majors, h, i + 1); DistinctBlocks(h, i, i + 1); assert BlockWF(h[i + 1]); }
    if 0 < i < |h| - 1 { DistinctBlocks(h, i - 1, i + 1); }
  }

  /** The state after the empty block i was taken out of the list and its pages given back;
      a best bet on that block is forgotten. */
  ghost function DroppedImage(s: Image, h: Heap, i: nat): Image
    requires i < |h| && Droppable(s, h, i)
  {
    s.(majors := UnlinkMajor(s.majors, h[i].addr),
       minors := Overwrite(s.minors, h[i].addr, Limit(h[i])),
       root := if s.root == h[i].addr then BlockAddr(h, i + 1) else s.root,
       best := if s.best == h[i].addr then 0 else s.best,
       obtained := s.obtained - BlockSize(h[i]),
       held := s.held - {h[i].addr})
  }

  lemma SkippedAddr(h: Heap, i: nat, j: int)
    requires i < |h|
    ensures BlockAddr(h[..i] + h[i + 1..], j) == BlockAddr(h, if j < i then j else j + 1)
  {
  }

  /** Block o is neither block i nor, unless it is one, a neighbour of it. */
  ghost predicate OtherAddr(h: Heap, i: nat, o: nat)
    requires i < |h| && o < |h|
  {
    && h[o].addr != h[i].addr
    && (0 < i && o != i - 1 ==> h[o].addr != h[i - 1].addr)
    && (i + 1 < |h| && o != i + 1 ==> h[o].addr != h[i + 1].addr)
    && (0 < i && i + 1 < |h| ==> h[i - 1].addr != h[i + 1].addr)
  }

  lemma OtherBlock(h: Heap, i: nat, o: nat)
    requires HeapCore(h) && i < |h| && o < |h| && o != i
    ensures OtherAddr(h, i, o)
  {
    DistinctBlocks(h, o, i);
    if 0 < i && o != i - 1 { DistinctBlocks(h, o, i - 1); }
    if i + 1 < |h| && o != i + 1 { DistinctBlocks(h, o, i + 1); }
    if 0 < i && i + 1 < |h| { DistinctBlocks(h, i - 1, i + 1); }
  }

  lemma DropOne(majors: Majors, h: Heap, i: nat, o: nat)
    requires i < |h| && o < |h| && o != i && OtherAddr(h, i, o)
    requires MajorLinked(majors, h, i) && MajorLinked(majors, h, o)
    requires 0 < i ==> MajorLinked(majors, h, i - 1) && h[i - 1].addr != 0
    requires i + 1 < |h| ==> MajorLinked(majors, h, i + 1) && h[i + 1].addr != 0
    ensures var h', j := h[..i] + h[i + 1..], if o < i then o else o - 1;
            MajorLinked(UnlinkMajor(majors, h[i].addr), h', j)
  {
    var j := if o < i then o else o - 1;
    assert (h[..i] + h[i + 1..])[j] == h[o];
    SkippedAddr(h, i, j - 1);
    SkippedAddr(h, i, j + 1);
    UnlinkedMajor(majors, h[i].addr, h[o].addr, BlockAddr(h, i - 1), BlockAddr(h, i + 1));
  }

  /** What unlinking a major does to the header of another one. */
  lemma UnlinkedMajor(majors: Majors, maj: Ptr, o: Ptr, prev: Ptr, next: Ptr)
    requires maj in majors && prev == majors[maj].prev && next == majors[maj].next
    requires (prev != 0 ==> prev in majors) && (next != 0 ==> next in majors) && (prev == next ==> prev == 0)
    requires o in majors && o != maj
    ensures o in UnlinkMajor(majors, maj)
    ensures UnlinkMajor(majors, maj)[o] == if o == prev && prev != 0 then majors[o].(next := next)
                                           else if o == next && next != 0 then majors[o].(prev := prev) else majors[o]
  {
  }

  lemma DropMajors(majors: Majors, h: Heap, i: nat)
    requires HeapCore(h) && MajorsLinked(majors, h) && i < |h|
    requires MajorLinked(majors, h, i)
    requires 0 < i ==> MajorLinked(majors, h, i - 1) && h[i - 1].addr != 0
    requires i + 1 < |h| ==> MajorLinked(majors, h, i + 1) && h[i + 1].addr != 0
    ensures MajorsLinked(UnlinkMajor(majors, h[i].addr), h[..i] + h[i + 1..])
  {
    var h' := h[..i] + h[i + 1..];
    forall j | 0 <= j < |h'|
      ensures MajorLinked(UnlinkMajor(majors, h[i].addr), h', j)
    {
      var o := if j < i then j else j + 1;
      assert MajorLinked(majors, h, o);
      OtherBlock(h, i, o);
      DropOne(majors, h, i, o);
    }
  }

  /** That state represents the shorter list. */
  lemma DropRepresents(s: Image, h: Heap, i: nat)
    requires Represents(s, h) && i < |h| && h[i].cells == [] && Droppable(s, h, i)
    ensures Represents(DroppedImage(s, h, i), h[..i] + h[i + 1..])
  {
    DropMajors(s.majors, h, i);
    DropBlockMinors(s.minors, h, i);
    HeldSkip(h, i);
    DropSums(h, i);
    DropRest(h, i, s.best, s.bytes);
    if 0 < i { DistinctBlocks(h, 0, i); }
  }

  lemma DropSums(h: Heap, i: nat)
    requires i < |h| && h[i].cells == []
    ensures InUse(h[..i] + h[i + 1..]) == InUse(h)
    ensures Allocated(h[..i] + h[i + 1..]) == Allocated(h) - BlockSize(h[i])
  {
    assert h == h[..i] + [h[i]] + h[i + 1..];
    SplitHeapSums(h[..i] + [h[i]], h[i + 1..]);
    SplitHeapSums(h[..i], [h[i]]);
    SplitHeapSums(h[..i], h[i + 1..]);
    OneBlockSums(h[i]);
  }

  lemma DropRest(h: Heap, i: nat, best: Ptr, bytes: Bytes)
    requires HeapCore(h) && OffsetsStored(bytes, h) && i < |h|
    requires best == 0 || Listed(h, best)
    ensures var h' := h[..i] + h[i + 1..];
            && HeapCore(h') && OffsetsStored(bytes, h')
            && BlockAddr(h', 0) == (if i == 0 then BlockAddr(h, 1) else BlockAddr(h, 0))
            && (best == 0 || best == h[i].addr || Listed(h', best))
  {
    var h' := h[..i] + h[i + 1..];
    forall j | 0 <= j < |h'|
      ensures OffsetsIn(bytes, h'[j]) && BlockWF(h'[j])
    {
      assert h'[j] == h[if j < i then j else j + 1];
    }
    forall j, k | 0 <= j < k < |h'|
      ensures Apart(h'[j], h'[k])
    {
      assert h'[j] == h[if j < i then j else j + 1];
      assert h'[k] == h[if k < i then k else k + 1];
    }
    if best != 0 && best != h[i].addr {
      var j :| 0 <= j < |h| && h[j].addr == best;
      assert h'[if j < i then j else j - 1].addr == best;
    }
  }

  ghost function ShrunkImage(s: Image, c: Cell, req: u32): Image
    requires c.addr in s.minors
  {
    s.(minors := s.minors[c.addr := s.minors[c.addr].(reqSize := req)])
  }

  /** Recording a smaller request changes no link. */
  lemma ShrinkRepresents(s: Image, h: Heap, i: nat, k: nat, req: u32)
    requires Represents(s, h) && i < |h| && k < |h[i].cells| && req <= h[i].cells[k].req
    requires CellLinked(s.minors, h[i], k)
    ensures Represents(ShrunkImage(s, h[i].cells[k], req), AfterShrink(h, i, k, req))
  {
    ShrinkCore(h, i, k, req);
    ShrinkSums(h, i, k, req);
    ShrinkMajors(s.majors, h, i, k, req);
    ShrinkMinors(s.minors, h, i, k, req);
    ShrinkOffsets(s.bytes, h, i, k, req);
    SamePlaces(h, AfterShrink(h, i, k, req), s.best);
  }

  lemma ShrinkMajors(majors: Majors, h: Heap, i: nat, k: nat, req: nat)
    requires MajorsLinked(majors, h) && i < |h| && k < |h[i].cells|
    ensures MajorsLinked(majors, AfterShrink(h, i, k, req))
  {
    var h' := AfterShrink(h, i, k, req);
    ShrinkSums(h, i, k, req);
    forall j | 0 <= j < |h'|
      ensures MajorLinked(majors, h', j)
    {
      assert MajorLinked(majors, h, j);
    }
  }

  lemma ShrinkOffsets(bytes: Bytes, h: Heap, i: nat, k: nat, req: nat)
    requires OffsetsStored(bytes, h) && i < |h| && k < |h[i].cells|
    ensures OffsetsStored(bytes, AfterShrink(h, i, k, req))
  {
  }

  lemma ShrinkCore(h: Heap, i: nat, k: nat, req: nat)
    requires HeapCore(h) && i < |h| && k < |h[i].cells| && req <= h[i].cells[k].req
    ensures HeapCore(AfterShrink(h, i, k, req))
  {
    var b, b' := h[i], AfterShrink(h, i, k, req)[i];
    forall j: nat | j <= |b'.cells|
      ensures GapStart(b', j) <= GapEnd(b', j)
    {
      assert GapStart(b, j) <= GapEnd(b, j);
    }
  }

  lemma ShrinkMinors(minors: Minors, h: Heap, i: nat, k: nat, req: u32)
    requires HeapCore(h) && MinorsLinked(minors, h) && i < |h| && k < |h[i].cells|
    requires CellLinked(minors, h[i], k)
    ensures MinorsLinked(minors[h[i].cells[k].addr := minors[h[i].cells[k].addr].(reqSize := req)],
                         AfterShrink(h, i, k, req))
  {
    var h' := AfterShrink(h, i, k, req);
    var m := minors[h[i].cells[k].addr := minors[h[i].cells[k].addr].(reqSize := req)];
    forall i' | 0 <= i' < |h'|
      ensures CellsLinked(m, h'[i'])
    {
      assert CellsLinked(minors, h[i']);
      forall k' | 0 <= k' < |h'[i'].cells|
        ensures CellLinked(m, h'[i'], k')
      {
        assert CellLinked(minors, h[i'], k');
        if (i', k') != (i, k) {
          AllCellsApart(h, i, k, i', k');
        }
      }
    }
    forall a | a in m && m[a].magic == MAGIC
      ensures IsCell(h', a)
    {
      assert minors[a].magic == MAGIC;
      var i': nat, k': nat :| i' < |h| && k' < |h[i'].cells| && h[i'].cells[k'].addr == a;
      assert h'[i'].cells[k'].addr == a;
    }
  }

  /** Where the cell with its header at a is listed. */
  ghost function Find(h: Heap, a: Ptr): (r: (nat, nat))
    requires IsCell(h, a)
    ensures r.0 < |h| && r.1 < |h[r.0].cells| && h[r.0].cells[r.1].addr == a
  {
    var i: nat, k: nat :| i < |h| && k < |h[i].cells| && h[i].cells[k].addr == a;
    (i, k)
  }

  // ---------- payload bytes ----------

  /** UNALIGN: the raw payload address for a pointer handed to a caller. */
  function Unaligned(m: Bytes, p: int): int {
    var diff := if p >= ALIGN_INFO then Load(m, p - ALIGN_INFO) else 0;
    if 0 <= diff < ALIGNMENT + ALIGN_INFO then p - diff else p
  }

  /** Where free and realloc look for the header of a pointer. */
  function HeaderOf(m: Bytes, p: int): int {
    Unaligned(m, p) - MINOR_HEADER
  }

  /** UNALIGN undoes ALIGN for every live allocation. */
  lemma UnalignUndoesAlign(s: Image, h: Heap, i: nat, k: nat)
    requires Represents(s, h) && i < |h| && k < |h[i].cells|
    ensures HeaderOf(s.bytes, UserPtr(h[i].cells[k])) == h[i].cells[k].addr
  {
    assert OffsetsIn(s.bytes, h[i]);
    assert OffsetStored(s.bytes, h[i].cells[k]);
    PayloadInsideCell(h[i].cells[k]);
  }

  /** Of the payload bytes only some within the usable bytes of c differ. */
  ghost predicate OnlyUsableChanged(c: Cell, m: Bytes, m': Bytes) {
    forall a: Ptr :: !InPayload(c, a) ==> Load(m', a) == Load(m, a)
  }

  /** A client that writes to the bytes it asked for disturbs nothing liballoc relies on. */
  lemma UseRepresents(s: Image, h: Heap, i: nat, k: nat, bytes: Bytes)
    requires Represents(s, h) && i < |h| && k < |h[i].cells|
    requires OnlyUsableChanged(h[i].cells[k], s.bytes, bytes)
    ensures Represents(s.(bytes := bytes), h)
  {
    forall j, l | 0 <= j < |h| && 0 <= l < |h[j].cells|
      ensures OffsetStored(bytes, h[j].cells[l])
    {
      UseKeepsOffset(s.bytes, h, i, k, bytes, j, l);
    }
  }

  lemma UseKeepsOffset(m: Bytes, h: Heap, i: nat, k: nat, m': Bytes, j: nat, l: nat)
    requires HeapCore(h) && OffsetsStored(m, h)
    requires i < |h| && k < |h[i].cells| && j < |h| && l < |h[j].cells|
    requires OnlyUsableChanged(h[i].cells[k], m, m')
    ensures OffsetStored(m', h[j].cells[l])
  {
    assert OffsetsIn(m, h[j]);
    assert OffsetStored(m, h[j].cells[l]);
    PayloadInsideCell(h[i].cells[k]);
    PayloadInsideCell(h[j].cells[l]);
    if (i, k) != (j, l) {
      AllCellsApart(h, i, k, j, l);
    }
    assert !InPayload(h[i].cells[k], UserPtr(h[j].cells[l]) - ALIGN_INFO);
  }
}
