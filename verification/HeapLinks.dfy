/** The headers liballoc keeps in memory, and when they represent a given layout. */
module HeapLinks {
  import opened Pages
  import opened HeapLayout
  import opened HeapSpec

  const MAGIC: u32 := 0xc001c0de
  const DEAD: u32 := 0xdeaddead

  datatype Major = Major(prev: Ptr, next: Ptr, pages: u32, size: u32, usage: u32, first: Ptr)
  datatype Minor = Minor(prev: Ptr, next: Ptr, block: Ptr, magic: u32, size: u32, reqSize: u32)

  type Majors = map<Ptr, Major>
  type Minors = map<Ptr, Minor>

  function BlockAddr(h: Heap, i: int): Ptr {
    if 0 <= i < |h| then h[i].addr else 0
  }

  function CellAddr(b: Block, k: int): Ptr {
    if 0 <= k < |b.cells| then b.cells[k].addr else 0
  }

  ghost predicate MajorOk(m: Major, h: Heap, i: nat)
    requires i < |h|
  {
    && m.prev == BlockAddr(h, i - 1)
    && m.next == BlockAddr(h, i + 1)
    && m.pages == h[i].pages
    && m.size == BlockSize(h[i])
    && m.usage == Usage(h[i])
    && m.first == CellAddr(h[i], 0)
  }

  ghost predicate MinorOk(n: Minor, b: Block, k: nat)
    requires k < |b.cells|
  {
    && n.prev == CellAddr(b, k - 1)
    && n.next == CellAddr(b, k + 1)
    && n.block == b.addr
    && n.magic == MAGIC
    && n.size == b.cells[k].size
    && n.reqSize == b.cells[k].req
  }

  ghost predicate MajorLinked(majors: Majors, h: Heap, i: nat)
    requires i < |h|
  {
    h[i].addr in majors && MajorOk(majors[h[i].addr], h, i)
  }

  ghost predicate MajorsLinked(majors: Majors, h: Heap) {
    forall i :: 0 <= i < |h| ==> MajorLinked(majors, h, i)
  }

  ghost predicate CellLinked(minors: Minors, b: Block, k: nat)
    requires k < |b.cells|
  {
    b.cells[k].addr in minors && MinorOk(minors[b.cells[k].addr], b, k)
  }

  ghost predicate CellsLinked(minors: Minors, b: Block) {
    forall k :: 0 <= k < |b.cells| ==> CellLinked(minors, b, k)
  }

  ghost predicate IsCell(h: Heap, a: Ptr) {
    exists i: nat, k: nat :: i < |h| && k < |h[i].cells| && h[i].cells[k].addr == a
  }

  /** Every listed cell has its header, and only listed cells carry the live magic. */
  ghost predicate MinorsLinked(minors: Minors, h: Heap) {
    && (forall i :: 0 <= i < |h| ==> CellsLinked(minors, h[i]))
    && (forall a :: a in minors && minors[a].magic == MAGIC ==> IsCell(h, a))
  }

  /** The pages held from the system. */
  function Held(h: Heap): map<Ptr, nat> {
    if h == [] then map[] else Held(h[..|h| - 1])[h[|h| - 1].addr := h[|h| - 1].pages]
  }

  // ---------- memory reuse ----------

  /** What is left of the headers once the bytes from lo to hi hold something else. */
  function Overwrite(minors: Minors, lo: Ptr, hi: Ptr): Minors {
    map a | a in minors && (a + MINOR_HEADER <= lo || hi <= a) :: minors[a]
  }

  lemma GapHoldsNoHeader(h: Heap, i: nat, k: nat, need: nat, i': nat, k': nat)
    requires HeapCore(h) && i < |h| && k <= |h[i].cells| && GapFits(h[i], k, need)
    requires i' < |h| && k' < |h[i'].cells|
    ensures var a := h[i'].cells[k'].addr;
            a + MINOR_HEADER <= GapStart(h[i], k) || GapStart(h[i], k) + need <= a
  {
    CellInside(h[i'], k');
    assert GapStart(h[i], 0) <= GapEnd(h[i], 0);
    if 0 < k { CellInside(h[i], k - 1); }
    if k < |h[i].cells| { CellInside(h[i], k); }
    if i' == i {
      if k' + 1 < k { CellsApart(h[i], k', k - 1); }
      if k < k' { CellsApart(h[i], k, k'); }
    } else {
      assert Apart(h[i], h[i']) || Apart(h[i'], h[i]);
    }
  }

  lemma OverwriteGap(minors: Minors, h: Heap, i: nat, k: nat, need: nat)
    requires HeapCore(h) && MinorsLinked(minors, h)
    requires i < |h| && k <= |h[i].cells| && GapFits(h[i], k, need)
    ensures MinorsLinked(Overwrite(minors, GapStart(h[i], k), GapStart(h[i], k) + need), h)
  {
    var m := Overwrite(minors, GapStart(h[i], k), GapStart(h[i], k) + need);
    forall i' | 0 <= i' < |h|
      ensures CellsLinked(m, h[i'])
    {
      assert CellsLinked(minors, h[i']);
      forall k' | 0 <= k' < |h[i'].cells|
        ensures CellLinked(m, h[i'], k')
      {
        assert CellLinked(minors, h[i'], k');
        GapHoldsNoHeader(h, i, k, need, i', k');
      }
    }
  }

  /** The cells on both sides of gap k have headers. */
  ghost predicate SidesLinked(minors: Minors, b: Block, k: nat)
    requires k <= |b.cells|
  {
    && (0 < k ==> CellLinked(minors, b, k - 1))
    && (k < |b.cells| ==> CellLinked(minors, b, k))
  }

  // ---------- linking a new cell ----------

  function NewMinor(b: Block, k: nat, size: u32, req: u32): Minor
    requires k <= |b.cells|
  {
    Minor(CellAddr(b, k - 1), CellAddr(b, k), b.addr, MAGIC, size, req)
  }

  /** The headers after a cell was linked into gap k of b. */
  function LinkCell(minors: Minors, b: Block, k: nat, size: u32, req: u32): Minors
    requires k <= |b.cells|
    requires SidesLinked(minors, b, k)
  {
    var a := GapStart(b, k);
    var m := minors[a := NewMinor(b, k, size, req)];
    var m := if 0 < k then m[b.cells[k - 1].addr := minors[b.cells[k - 1].addr].(next := a)] else m;
    if k < |b.cells| then m[b.cells[k].addr := minors[b.cells[k].addr].(prev := a)] else m
  }

  lemma LinkFront(minors: Minors, b: Block, size: u32, req: u32)
    requires b.cells != [] && SidesLinked(minors, b, 0) && NotIn(b, GapStart(b, 0))
    ensures var a, after := GapStart(b, 0), b.cells[0].addr;
            minors[after := minors[after].(prev := a)][a := Minor(0, after, b.addr, MAGIC, size, req)]
            == LinkCell(minors, b, 0, size, req)
  {
  }

  lemma LinkEnd(minors: Minors, b: Block, k: nat, size: u32, req: u32)
    requires 0 < k == |b.cells| && SidesLinked(minors, b, k) && NotIn(b, GapStart(b, k))
    ensures var a, min := GapStart(b, k), b.cells[k - 1].addr;
            minors[min := minors[min].(next := a)][a := Minor(min, 0, b.addr, MAGIC, size, req)]
            == LinkCell(minors, b, k, size, req)
  {
  }

  lemma LinkBetween(minors: Minors, b: Block, k: nat, size: u32, req: u32)
    requires 0 < k < |b.cells| && SidesLinked(minors, b, k) && NotIn(b, GapStart(b, k)) && Distinct(b)
    ensures var a, min, next := GapStart(b, k), b.cells[k - 1].addr, b.cells[k].addr;
            minors[a := Minor(min, next, b.addr, MAGIC, size, req)]
                  [next := minors[next].(prev := a)][min := minors[min].(next := a)]
            == LinkCell(minors, b, k, size, req)
  {
  }

  ghost predicate NotIn(b: Block, a: Ptr) {
    forall k :: 0 <= k < |b.cells| ==> b.cells[k].addr != a
  }

  ghost predicate Distinct(b: Block) {
    forall j, k :: 0 <= j < k < |b.cells| ==> b.cells[j].addr != b.cells[k].addr
  }

  lemma CellsDistinct(h: Heap, i: nat)
    requires HeapCore(h) && i < |h|
    ensures Distinct(h[i])
  {
    forall j, k | 0 <= j < k < |h[i].cells|
      ensures h[i].cells[j].addr != h[i].cells[k].addr
    {
      AllCellsApart(h, i, j, i, k);
    }
  }

  lemma CellsForeign(h: Heap, i: nat, i': nat, k': nat)
    requires HeapCore(h) && i < |h| && i' < |h| && i' != i && k' < |h[i'].cells|
    ensures NotIn(h[i], h[i'].cells[k'].addr)
  {
    forall k | 0 <= k < |h[i].cells|
      ensures h[i].cells[k].addr != h[i'].cells[k'].addr
    {
      AllCellsApart(h, i, k, i', k');
    }
  }

  lemma GapNotIn(h: Heap, i: nat, k: nat, need: nat, i': nat)
    requires HeapCore(h) && i < |h| && k <= |h[i].cells| && GapFits(h[i], k, need) && MINOR_HEADER <= need
    requires i' < |h|
    ensures NotIn(h[i'], GapStart(h[i], k))
  {
    forall k' | 0 <= k' < |h[i'].cells|
      ensures h[i'].cells[k'].addr != GapStart(h[i], k)
    {
      GapHoldsNoHeader(h, i, k, need, i', k');
    }
  }

  lemma LinkOne(minors: Minors, b: Block, k: nat, size: u32, req: u32, j: nat)
    requires k <= |b.cells| && CellsLinked(minors, b) && Distinct(b) && NotIn(b, GapStart(b, k))
    requires j <= |b.cells|
    ensures var m, b' := LinkCell(minors, b, k, size, req), Insert(b, k, size, req);
            CellLinked(m, b', j)
  {
    var b' := Insert(b, k, size, req);
    if j < k {
      assert b'.cells[j] == b.cells[j];
      assert CellLinked(minors, b, j);
    } else if j > k {
      assert b'.cells[j] == b.cells[j - 1];
      assert CellLinked(minors, b, j - 1);
    }
  }

  lemma LinkCellInBlock(minors: Minors, b: Block, k: nat, size: u32, req: u32)
    requires k <= |b.cells| && CellsLinked(minors, b) && Distinct(b) && NotIn(b, GapStart(b, k))
    ensures CellsLinked(LinkCell(minors, b, k, size, req), Insert(b, k, size, req))
  {
    var b' := Insert(b, k, size, req);
    var m := LinkCell(minors, b, k, size, req);
    forall j | 0 <= j < |b'.cells|
      ensures CellLinked(m, b', j)
    {
      LinkOne(minors, b, k, size, req, j);
    }
  }

  lemma LinkCellElsewhere(minors: Minors, b: Block, k: nat, size: u32, req: u32, o: Block)
    requires k <= |b.cells| && CellsLinked(minors, b) && CellsLinked(minors, o)
    requires NotIn(o, GapStart(b, k))
    requires forall j :: 0 <= j < |o.cells| ==> NotIn(b, o.cells[j].addr)
    ensures CellsLinked(LinkCell(minors, b, k, size, req), o)
  {
    var m := LinkCell(minors, b, k, size, req);
    forall j | 0 <= j < |o.cells|
      ensures CellLinked(m, o, j)
    {
      assert CellLinked(minors, o, j);
      assert NotIn(b, o.cells[j].addr);
    }
  }

  lemma CellsAfterPlace(h: Heap, i: nat, k: nat, size: nat, req: nat, a: Ptr)
    requires i < |h| && k <= |h[i].cells|
    requires IsCell(h, a) || a == GapStart(h[i], k)
    ensures IsCell(PlaceIn(h, i, k, size, req), a)
  {
    var h' := PlaceIn(h, i, k, size, req);
    if a == GapStart(h[i], k) {
      assert h'[i].cells[k].addr == a;
    } else {
      var i': nat, j: nat :| i' < |h| && j < |h[i'].cells| && h[i'].cells[j].addr == a;
      var j' := if i' == i && j >= k then j + 1 else j;
      assert h'[i'].cells[j'].addr == a;
    }
  }

  lemma LinkCellMagic(minors: Minors, h: Heap, i: nat, k: nat, size: u32, req: u32, a: Ptr)
    requires MinorsLinked(minors, h)
    requires i < |h| && k <= |h[i].cells|
    requires CellsLinked(minors, h[i])
    requires a in LinkCell(minors, h[i], k, size, req)
    requires LinkCell(minors, h[i], k, size, req)[a].magic == MAGIC
    ensures IsCell(PlaceIn(h, i, k, size, req), a)
  {
    assert SidesLinked(minors, h[i], k);
    assert a == GapStart(h[i], k) || (a in minors && minors[a].magic == MAGIC);
    CellsAfterPlace(h, i, k, size, req, a);
  }

  /** Linking a cell into a gap represents the layout with the cell inserted there. */
  lemma LinkCellCorrect(minors: Minors, h: Heap, i: nat, k: nat, size: u32, req: u32)
    requires HeapCore(h) && MinorsLinked(minors, h)
    requires i < |h| && k <= |h[i].cells| && GapFits(h[i], k, size + MINOR_HEADER)
    requires CellsLinked(minors, h[i])
    ensures MinorsLinked(LinkCell(minors, h[i], k, size, req), PlaceIn(h, i, k, size, req))
  {
    var m, h' := LinkCell(minors, h[i], k, size, req), PlaceIn(h, i, k, size, req);
    forall i' | 0 <= i' < |h'|
      ensures CellsLinked(m, h'[i'])
    {
      GapNotIn(h, i, k, size + MINOR_HEADER, i');
      if i' == i {
        CellsDistinct(h, i);
        LinkCellInBlock(minors, h[i], k, size, req);
      } else {
        forall j | 0 <= j < |h[i'].cells|
          ensures NotIn(h[i], h[i'].cells[j].addr)
        {
          CellsForeign(h, i, i', j);
        }
        LinkCellElsewhere(minors, h[i], k, size, req, h[i']);
      }
    }
    forall a | a in m && m[a].magic == MAGIC
      ensures IsCell(h', a)
    {
      LinkCellMagic(minors, h, i, k, size, req, a);
    }
  }

  // ---------- unlinking a cell ----------

  /** The headers after cell k of b was unlinked and its magic cleared. */
  function UnlinkCell(minors: Minors, b: Block, k: nat): Minors
    requires k < |b.cells| && SidesLinked(minors, b, k) && SidesLinked(minors, b, k + 1)
  {
    var a := b.cells[k].addr;
    var m := minors[a := minors[a].(magic := DEAD)];
    var m := if k + 1 < |b.cells|
             then m[b.cells[k + 1].addr := minors[b.cells[k + 1].addr].(prev := CellAddr(b, k - 1))] else m;
    if 0 < k then m[b.cells[k - 1].addr := minors[b.cells[k - 1].addr].(next := CellAddr(b, k + 1))] else m
  }

  lemma UnlinkOne(minors: Minors, b: Block, k: nat, j: nat)
    requires k < |b.cells| && CellsLinked(minors, b) && Distinct(b)
    requires j < |b.cells| - 1
    ensures var m, b' := UnlinkCell(minors, b, k), RemoveCell(b, k);
            CellLinked(m, b', j)
  {
    var b' := RemoveCell(b, k);
    var o := if j < k then j else j + 1;
    assert b'.cells[j] == b.cells[o];
    assert CellLinked(minors, b, o);
  }

  lemma UnlinkInBlock(minors: Minors, b: Block, k: nat)
    requires k < |b.cells| && CellsLinked(minors, b) && Distinct(b)
    ensures CellsLinked(UnlinkCell(minors, b, k), RemoveCell(b, k))
  {
    var m, b' := UnlinkCell(minors, b, k), RemoveCell(b, k);
    forall j | 0 <= j < |b'.cells|
      ensures CellLinked(m, b', j)
    {
      UnlinkOne(minors, b, k, j);
    }
  }

  lemma UnlinkElsewhere(minors: Minors, b: Block, k: nat, o: Block)
    requires k < |b.cells| && CellsLinked(minors, b) && CellsLinked(minors, o)
    requires forall j :: 0 <= j < |o.cells| ==> NotIn(b, o.cells[j].addr)
    ensures CellsLinked(UnlinkCell(minors, b, k), o)
  {
    var m := UnlinkCell(minors, b, k);
    forall j | 0 <= j < |o.cells|
      ensures CellLinked(m, o, j)
    {
      assert CellLinked(minors, o, j);
      assert NotIn(b, o.cells[j].addr);
    }
  }

  lemma UnlinkMagic(minors: Minors, b: Block, k: nat, a: Ptr)
    requires k < |b.cells| && CellsLinked(minors, b) && Distinct(b)
    requires a in UnlinkCell(minors, b, k) && UnlinkCell(minors, b, k)[a].magic == MAGIC
    ensures a in minors && minors[a].magic == MAGIC && a != b.cells[k].addr
  {
    assert SidesLinked(minors, b, k) && SidesLinked(minors, b, k + 1);
  }

  lemma CellsAfterRemove(h: Heap, i: nat, k: nat, a: Ptr)
    requires i < |h| && k < |h[i].cells|
    requires IsCell(h, a) && a != h[i].cells[k].addr
    ensures IsCell(h[i := RemoveCell(h[i], k)], a)
  {
    var h' := h[i := RemoveCell(h[i], k)];
    var i': nat, j: nat :| i' < |h| && j < |h[i'].cells| && h[i'].cells[j].addr == a;
    var j' := if i' == i && j > k then j - 1 else j;
    assert h'[i'].cells[j'].addr == a;
  }

  /** Unlinking a cell represents the layout without it, and its header is live no more. */
  lemma UnlinkCellCorrect(minors: Minors, h: Heap, i: nat, k: nat)
    requires HeapCore(h) && MinorsLinked(minors, h)
    requires i < |h| && k < |h[i].cells| && CellsLinked(minors, h[i])
    ensures MinorsLinked(UnlinkCell(minors, h[i], k), h[i := RemoveCell(h[i], k)])
  {
    var m, h' := UnlinkCell(minors, h[i], k), h[i := RemoveCell(h[i], k)];
    forall i' | 0 <= i' < |h'|
      ensures CellsLinked(m, h'[i'])
    {
      if i' == i {
        CellsDistinct(h, i);
        UnlinkInBlock(minors, h[i], k);
      } else {
        forall j | 0 <= j < |h[i'].cells|
          ensures NotIn(h[i], h[i'].cells[j].addr)
        {
          CellsForeign(h, i, i', j);
        }
        UnlinkElsewhere(minors, h[i], k, h[i']);
      }
    }
    forall a | a in m && m[a].magic == MAGIC
      ensures IsCell(h', a)
    {
      CellsDistinct(h, i);
      UnlinkMagic(minors, h[i], k, a);
      CellsAfterRemove(h, i, k, a);
    }
  }

  // ---------- dropping an empty block ----------

  lemma DropBlockMinors(minors: Minors, h: Heap, i: nat)
    requires HeapCore(h) && MinorsLinked(minors, h) && i < |h| && h[i].cells == []
    ensures MinorsLinked(Overwrite(minors, h[i].addr, Limit(h[i])), h[..i] + h[i + 1..])
  {
    var m, h' := Overwrite(minors, h[i].addr, Limit(h[i])), h[..i] + h[i + 1..];
    forall j | 0 <= j < |h'|
      ensures CellsLinked(m, h'[j])
    {
      var o := if j < i then j else j + 1;
      assert h'[j] == h[o] && CellsLinked(minors, h[o]);
      assert Apart(h[o], h[i]) || Apart(h[i], h[o]);
      forall k | 0 <= k < |h[o].cells|
        ensures CellLinked(m, h[o], k)
      {
        assert CellLinked(minors, h[o], k);
        CellInside(h[o], k);
      }
    }
    forall a | a in m && m[a].magic == MAGIC
      ensures IsCell(h', a)
    {
      var o: nat, k: nat :| o < |h| && k < |h[o].cells| && h[o].cells[k].addr == a;
      var j := if o < i then o else o - 1;
      assert h'[j].cells[k].addr == a;
    }
  }

  lemma {:induction false} HeldIn(h: Heap, i: nat)
    requires HeapCore(h) && i < |h|
    ensures h[i].addr in Held(h) && Held(h)[h[i].addr] == h[i].pages
  {
    if i < |h| - 1 {
      HeldIn(h[..|h| - 1], i);
      assert Apart(h[i], h[|h| - 1]);
      assert BlockWF(h[i]) && BlockWF(h[|h| - 1]);
      DistinctBlocks(h, i, |h| - 1);
    }
  }

  lemma {:induction false} HeldOnly(h: Heap, a: Ptr)
    requires a in Held(h)
    ensures exists i :: 0 <= i < |h| && h[i].addr == a
  {
    if h[|h| - 1].addr != a {
      HeldOnly(h[..|h| - 1], a);
      var i :| 0 <= i < |h| - 1 && h[..|h| - 1][i].addr == a;
      assert h[i].addr == a;
    }
  }

  lemma {:induction false} HeldAppend(g: Heap, h: Heap)
    ensures Held(g + h) == Held(g) + Held(h)
  {
    if h == [] {
      assert g + h == g;
    } else {
      assert (g + h)[..|g + h| - 1] == g + h[..|h| - 1];
      HeldAppend(g, h[..|h| - 1]);
    }
  }

  lemma HeldAround(l: Heap, b: Block, r: Heap)
    ensures Held(l + [b] + r) == Held(l) + map[b.addr := b.pages] + Held(r)
    ensures Held(l + r) == Held(l) + Held(r)
  {
    HeldAppend(l + [b], r);
    HeldAppend(l, [b]);
    HeldAppend(l, r);
    assert [b][..0] == [];
  }

  lemma SplitAt<T>(s: seq<T>, i: nat)
    requires i < |s|
    ensures s == s[..i] + [s[i]] + s[i + 1..]
  {
  }

  lemma HeldSkip(h: Heap, i: nat)
    requires HeapCore(h) && i < |h|
    ensures Held(h[..i] + h[i + 1..]) == Held(h) - {h[i].addr}
  {
    forall j | 0 <= j < |h| && j != i
      ensures h[j].addr != h[i].addr
    {
      DistinctBlocks(h, j, i);
    }
    HeldSkipOne(h, i);
  }

  lemma HeldSkipOne(h: Heap, i: nat)
    requires i < |h| && forall j :: 0 <= j < |h| && j != i ==> h[j].addr != h[i].addr
    ensures Held(h[..i] + h[i + 1..]) == Held(h) - {h[i].addr}
  {
    SplitAt(h, i);
    HeldWithout(h[..i], h[i], h[i + 1..]);
  }

  lemma HeldWithout(l: Heap, b: Block, r: Heap)
    requires forall j :: 0 <= j < |l| ==> l[j].addr != b.addr
    requires forall j :: 0 <= j < |r| ==> r[j].addr != b.addr
    ensures Held(l + r) == Held(l + [b] + r) - {b.addr}
  {
    HeldAround(l, b, r);
    NotHeld(l, b.addr);
    NotHeld(r, b.addr);
    SkipKey(Held(l), b.addr, b.pages, Held(r));
  }

  lemma SkipKey(l: map<Ptr, nat>, a: Ptr, v: nat, r: map<Ptr, nat>)
    requires a !in l && a !in r
    ensures l + map[a := v] + r - {a} == l + r
  {
  }

  lemma NotHeld(g: Heap, a: Ptr)
    requires forall j :: 0 <= j < |g| ==> g[j].addr != a
    ensures a !in Held(g)
  {
    if a in Held(g) { HeldOnly(g, a); }
  }

  lemma {:induction false} HeldSame(h: Heap, g: Heap)
    requires |h| == |g|
    requires forall i :: 0 <= i < |h| ==> h[i].addr == g[i].addr && h[i].pages == g[i].pages
    ensures Held(h) == Held(g)
  {
    if h != [] {
      HeldSame(h[..|h| - 1], g[..|g| - 1]);
    }
  }

  lemma DistinctBlocks(h: Heap, i: nat, j: nat)
    requires HeapCore(h) && i < |h| && j < |h| && i != j
    ensures h[i].addr != h[j].addr
  {
    assert GapStart(h[i], 0) <= GapEnd(h[i], 0);
    CellsFit(h[i]);
    CellsFit(h[j]);
    assert Apart(h[i], h[j]) || Apart(h[j], h[i]);
  }

  lemma CellsFit(b: Block)
    requires Ordered(b)
    ensures b.addr + MAJOR_HEADER <= Limit(b)
  {
    SkipIsSound(b, 0);
  }
}
