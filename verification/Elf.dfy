/** elf.c: building the address space of a program from its loadable segments.  The image is the
    module in memory, read from its first byte on. */
module Elf {
  import opened Memory
  import opened Pages
  import opened PageTables
  import opened Paging
  import opened Words
  import Pmm
  import Vmm

  const PT_LOAD: nat := 1

  function Field(image: seq<byte>, a: nat, size: nat): nat
    requires a + size <= |image|
  {
    Decode(image[a..a + size])
  }

  datatype Segment = Segment(kind: nat, offset: nat, vaddr: nat, filesz: nat, memsz: nat)

  /** The program header at an offset of the image. */
  function HeaderAt(image: seq<byte>, a: nat): Segment
    requires a + 48 <= |image|
  {
    Segment(Field(image, a, 4), Field(image, a + 8, 8), Field(image, a + 16, 8),
            Field(image, a + 32, 8), Field(image, a + 40, 8))
  }

  function Phoff(image: seq<byte>): nat
    requires 64 <= |image|
  {
    Field(image, 32, 8)
  }

  function Phentsize(image: seq<byte>): nat
    requires 64 <= |image|
  {
    Field(image, 54, 2)
  }

  function Phnum(image: seq<byte>): nat
    requires 64 <= |image|
  {
    Field(image, 56, 2)
  }

  /** Where program header i begins. */
  function HeaderAddr(image: seq<byte>, i: nat): nat
    requires 64 <= |image|
  {
    if i == 0 then Phoff(image) else HeaderAddr(image, i - 1) + Phentsize(image)
  }

  ghost predicate HasHeader(image: seq<byte>, i: nat)
    requires 64 <= |image|
  {
    HeaderAddr(image, i) + 48 <= |image|
  }

  ghost function Header(image: seq<byte>, i: nat): Segment
    requires 64 <= |image| && HasHeader(image, i)
  {
    HeaderAt(image, HeaderAddr(image, i))
  }

  /** The pages that the loader maps for a segment. */
  function SegmentPages(s: Segment): nat {
    AlignUp(s.memsz) / PAGE_SIZE
  }

  /** What the loader reads and maps is there: the bytes of a loadable segment lie in the image,
      it is no shorter in memory than in the file, and its pages do not wrap around. */
  ghost predicate SegmentOk(image: seq<byte>, s: Segment) {
    s.kind == PT_LOAD ==>
      && s.offset + s.filesz <= |image|
      && s.filesz <= s.memsz
      && PageOf(s.vaddr) + SegmentPages(s) <= VIRTUAL_PAGES
  }

  ghost predicate ImageOk(image: seq<byte>) {
    && 64 <= |image|
    && forall i: nat :: i < Phnum(image) ==> HasHeader(image, i) && SegmentOk(image, Header(image, i))
  }

  /** Two segments have no page in common. */
  ghost predicate PagesApart(s: Segment, t: Segment) {
    s.kind == PT_LOAD && t.kind == PT_LOAD ==>
      PageOf(s.vaddr) + SegmentPages(s) <= PageOf(t.vaddr) || PageOf(t.vaddr) + SegmentPages(t) <= PageOf(s.vaddr)
  }

  ghost predicate SegmentsApart(image: seq<byte>)
    requires ImageOk(image)
  {
    forall i: nat, j: nat :: i < j < Phnum(image) ==> PagesApart(Header(image, i), Header(image, j))
  }

  // ---------- what loading achieves ----------

  /** The physical address that user code reaches at a virtual address of a space, to read and to
      write. */
  ghost function Translate(m: seq<byte>, root: Frame, va: nat): Option<nat> {
    match Access(m, root * 4096, va)
    case Byte(addr, user, writable) => if user && writable then Some(addr) else None
    case Fault => None
  }

  /** From the page of its virtual address on, the space shows the bytes of the file and then
      zeros. */
  ghost predicate Loaded(m: seq<byte>, root: Frame, image: seq<byte>, s: Segment)
    requires s.offset + s.filesz <= |image|
  {
    forall k: nat :: k < s.memsz ==> ByteLoaded(m, root, image, s, k)
  }

  ghost predicate ByteLoaded(m: seq<byte>, root: Frame, image: seq<byte>, s: Segment, k: nat)
    requires s.offset + s.filesz <= |image|
  {
    var pa := Translate(m, root, AlignDown(s.vaddr) + k);
    pa.Some? && pa.value < |m| && m[pa.value] == if k < s.filesz then image[s.offset + k] else 0
  }

  // ---------- how it is achieved ----------

  /** The pages of the segment are mapped to consecutive frames of the range. */
  ghost predicate Backed(m: seq<byte>, root: Frame, s: Segment, range: Range) {
    range.base % PAGE_SIZE == 0 && forall k: nat :: k < SegmentPages(s) ==> PageBacked(m, root, s, range, k)
  }

  ghost predicate PageBacked(m: seq<byte>, root: Frame, s: Segment, range: Range, k: nat) {
    Walk(m, root, PageOf(s.vaddr) + k) == Some(MakeEntry(range.base + k * PAGE_SIZE, true))
  }

  /** The range holds the bytes of the segment. */
  ghost predicate Filled(m: seq<byte>, image: seq<byte>, s: Segment, range: Range)
    requires s.offset + s.filesz <= |image|
  {
    && range.base + s.memsz <= |m| && s.memsz <= range.length
    && forall k: nat :: k < s.memsz ==> HoldsByte(m, image, s, range, k)
  }

  ghost predicate HoldsByte(m: seq<byte>, image: seq<byte>, s: Segment, range: Range, k: nat)
    requires s.offset + s.filesz <= |image|
  {
    range.base + k < |m| && m[range.base + k] == if k < s.filesz then image[s.offset + k] else 0
  }

  lemma BackedAndFilled(m: seq<byte>, t: Tables, root: Frame, image: seq<byte>, s: Segment, range: Range)
    requires Tree(m, t) && IsRoot(t, root) && s.kind == PT_LOAD && SegmentOk(image, s)
    requires Backed(m, root, s, range) && Filled(m, image, s, range)
    ensures Loaded(m, root, image, s)
  {
    forall k: nat | k < s.memsz
      ensures ByteLoaded(m, root, image, s, k)
    {
      OneByte(m, t, root, image, s, range, k);
    }
  }

  lemma OneByte(m: seq<byte>, t: Tables, root: Frame, image: seq<byte>, s: Segment, range: Range, k: nat)
    requires Tree(m, t) && IsRoot(t, root) && s.kind == PT_LOAD && SegmentOk(image, s) && k < s.memsz
    requires Backed(m, root, s, range) && Filled(m, image, s, range)
    ensures ByteLoaded(m, root, image, s, k)
  {
    var page, va := k / PAGE_SIZE, AlignDown(s.vaddr) + k;
    SegmentAddress(s, k);
    BackedPage(m, root, s, range, page, PageOf(va));
    assert HoldsByte(m, image, s, range, k);
    TranslatedTo(m, t, root, va, range.base, page, k);
    ByteFound(m, root, image, s, range, k);
  }

  lemma BackedPage(m: seq<byte>, root: Frame, s: Segment, range: Range, page: nat, v: nat)
    requires Backed(m, root, s, range) && page < SegmentPages(s) && v == PageOf(s.vaddr) + page
    ensures range.base % PAGE_SIZE == 0
    ensures Walk(m, root, v) == Some(MakeEntry(range.base + page * PAGE_SIZE, true))
  {
    assert PageBacked(m, root, s, range, page);
  }

  lemma ByteFound(m: seq<byte>, root: Frame, image: seq<byte>, s: Segment, range: Range, k: nat)
    requires s.offset + s.filesz <= |image| && HoldsByte(m, image, s, range, k)
    requires Translate(m, root, AlignDown(s.vaddr) + k) == Some(range.base + k)
    ensures ByteLoaded(m, root, image, s, k)
  {
  }

  lemma TranslatedTo(m: seq<byte>, t: Tables, root: Frame, va: nat, base: nat, page: nat, k: nat)
    requires Tree(m, t) && IsRoot(t, root)
    requires base % PAGE_SIZE == 0 && page == k / PAGE_SIZE && va % PAGE_SIZE == k % PAGE_SIZE
    requires Walk(m, root, PageOf(va)) == Some(MakeEntry(base + page * PAGE_SIZE, true))
    ensures Translate(m, root, va) == Some(base + k)
  {
    MadeEntry(base + page * PAGE_SIZE, true);
    ByteOfFrame(MakeEntry(base + page * PAGE_SIZE, true), base, k, true);
    ProcessorSees(m, t, root, va);
  }

  lemma SegmentAddress(s: Segment, k: nat)
    requires k < s.memsz && PageOf(s.vaddr) + SegmentPages(s) <= VIRTUAL_PAGES
    ensures k / PAGE_SIZE < SegmentPages(s)
    ensures PageOf(AlignDown(s.vaddr) + k) == PageOf(s.vaddr) + k / PAGE_SIZE
    ensures (AlignDown(s.vaddr) + k) % PAGE_SIZE == k % PAGE_SIZE
  {
    var a := AlignDown(s.vaddr) + k;
    assert a / PAGE_SIZE == s.vaddr / PAGE_SIZE + k / PAGE_SIZE;
  }

  // ---------- frames and data ----------

  /** A live range that holds data: none of the tables is on it. */
  ghost predicate DataRange(live: set<Range>, tables: Tables, q: Range) {
    q in live && forall f :: f in tables ==> Vmm.PageRange(f) != q
  }

  /** The bytes on the pages of q are the same. */
  ghost predicate SameData(m: seq<byte>, m': seq<byte>, q: Range) {
    |m'| == |m| && forall a :: 0 <= a < |m| && a / PAGE_SIZE in PagesOf(q) ==> m'[a] == m[a]
  }

  lemma DataNotTable(live: set<Range>, clear: set<nat>, avail: set<nat>, tables: Tables, q: Range, f: Frame)
    requires Pmm.LiveOk(live, clear, avail) && DataRange(live, tables, q)
    requires f in tables && Vmm.PageRange(f) in live
    ensures f !in PagesOf(q)
  {
    Pmm.LiveFacts(live, clear, avail);
  }

  lemma DataUntouched(m: seq<byte>, m': seq<byte>, live: set<Range>, clear: set<nat>, avail: set<nat>, tables: Tables,
                      q: Range)
    requires Pmm.LiveOk(live, clear, avail) && DataRange(live, tables, q) && Untouched(m, m', tables)
    requires forall f :: f in tables ==> Vmm.PageRange(f) in live
    ensures SameData(m, m', q)
  {
    Pmm.LiveFacts(live, clear, avail);
  }

  /** Mapping hangs tables only on pages that were not live, so data stays data. */
  lemma DataStays(live: set<Range>, tables: Tables, live': set<Range>, tables': Tables, q: Range)
    requires Vmm.LiveGrew(live, tables, live', tables') && DataRange(live, tables, q)
    ensures DataRange(live', tables', q)
  {
  }

  lemma FilledStays(m: seq<byte>, m': seq<byte>, image: seq<byte>, s: Segment, q: Range)
    requires s.offset + s.filesz <= |image| && Filled(m, image, s, q) && SameData(m, m', q)
    requires q.base % PAGE_SIZE == 0 && q.length % PAGE_SIZE == 0
    ensures Filled(m', image, s, q)
  {
    forall k: nat | k < s.memsz
      ensures HoldsByte(m', image, s, q, k)
    {
      var a := q.base + k;
      assert HoldsByte(m, image, s, q, k);
      assert a / PAGE_SIZE in PagesOf(q);
    }
  }

  // ---------- one segment ----------

  /** The frames of a segment: a fresh live range of data. */
  ghost predicate SegmentRange(s: Segment, live: set<Range>, tables: Tables, live': set<Range>, range: Range,
                               size: nat) {
    && range !in live && live' == live + {range} && DataRange(live', tables, range)
    && range.base % PAGE_SIZE == 0 && range.length == AlignUp(s.memsz) && range.length > 0
    && range.base + range.length <= size
  }

  method TakeFrames(vm: Vmm.Manager, s: Segment) returns (r: Outcome<Range>)
    requires vm.Valid()
    modifies vm.pmm, vm.pmm.bitmap
    ensures r.Done? ==> vm.Valid()
    ensures r.Done? ==> SegmentRange(s, old(vm.pmm.live), vm.tables, vm.pmm.live, r.value, vm.mem.Length)
  {
    ghost var live, clear := vm.pmm.live, vm.pmm.Clear();
    r := vm.pmm.Alloc(AlignUp(s.memsz));
    if r.Done? {
      if r.value.length == 0 {
        return Halted;
      }
      FramesAreData(s, live, clear, vm.pmm.avail, vm.tables, r.value, vm.mem.Length);
    }
  }

  lemma FramesAreData(s: Segment, live: set<Range>, clear: set<nat>, avail: set<nat>, tables: Tables, range: Range,
                      size: nat)
    requires Pmm.LiveOk(live, clear, avail) && forall f :: f in tables ==> Vmm.PageRange(f) in live
    requires Pmm.Handed(range, AlignUp(s.memsz), clear) && range.length > 0
    requires forall p :: p in avail ==> (p + 1) * PAGE_SIZE <= size
    ensures SegmentRange(s, live, tables, live + {range}, range, size)
  {
    Pmm.LiveFacts(live, clear, avail);
    var last := range.base / PAGE_SIZE + range.length / PAGE_SIZE - 1;
    assert last in PagesOf(range) && last in avail;
    Pmm.LiveAfterAlloc(live, clear, avail, range);
  }

  /** Data ranges other than the new one are as they were. */
  ghost predicate DataKept(m: seq<byte>, live: set<Range>, tables: Tables, m': seq<byte>, live': set<Range>,
                           tables': Tables) {
    forall q :: DataRange(live, tables, q) ==> DataRange(live', tables', q) && SameData(m, m', q)
  }

  /** memcpy of the file bytes and memset of the rest, into frames that hold data. */
  method FillFrames(vm: Vmm.Manager, image: seq<byte>, s: Segment, range: Range)
    requires vm.Valid() && DataRange(vm.pmm.live, vm.tables, range)
    requires s.kind == PT_LOAD && SegmentOk(image, s)
    requires range.base % PAGE_SIZE == 0 && range.length == AlignUp(s.memsz)
    requires range.base + range.length <= vm.mem.Length
    modifies vm.mem
    ensures vm.Valid() && Filled(vm.mem[..], image, s, range) && SameTables(old(vm.mem[..]), vm.mem[..], vm.tables)
    ensures forall q :: q in vm.pmm.live && q != range ==> SameData(old(vm.mem[..]), vm.mem[..], q)
  {
    ghost var m := vm.mem[..];
    AlignedUp(s.memsz);
    WriteBytes(vm.mem, image, s, range);
    WrittenFacts(m, vm.mem[..], vm.pmm.live, vm.pmm.Clear(), vm.pmm.avail, vm.tables, range, s.memsz);
    SameTablesTree(m, vm.mem[..], vm.tables);
  }

  lemma AlignedUp(n: nat)
    ensures AlignUp(n) % PAGE_SIZE == 0 && n <= AlignUp(n)
  {
  }

  method WriteBytes(mem: array<byte>, image: seq<byte>, s: Segment, range: Range)
    requires range.base + s.memsz <= mem.Length && s.memsz <= range.length
    requires s.offset + s.filesz <= |image| && s.filesz <= s.memsz
    modifies mem
    ensures WrittenIn(old(mem[..]), mem[..], range, s.memsz) && Filled(mem[..], image, s, range)
  {
    Memcpy(mem, range.base, image, s.offset, s.filesz);
    Memset(mem, range.base + s.filesz, 0, s.memsz - s.filesz);
    ghost var m' := mem[..];
    forall k: nat | k < s.memsz
      ensures HoldsByte(m', image, s, range, k)
    {
    }
  }

  /** Only the first n bytes of the range were written. */
  ghost predicate WrittenIn(m: seq<byte>, m': seq<byte>, range: Range, n: nat) {
    |m'| == |m| && forall a :: 0 <= a < |m| && !(range.base <= a < range.base + n) ==> m'[a] == m[a]
  }

  lemma WrittenFacts(m: seq<byte>, m': seq<byte>, live: set<Range>, clear: set<nat>, avail: set<nat>, tables: Tables,
                     range: Range, n: nat)
    requires Pmm.LiveOk(live, clear, avail) && DataRange(live, tables, range) && WrittenIn(m, m', range, n)
    requires forall f :: f in tables ==> Vmm.PageRange(f) in live
    requires range.base % PAGE_SIZE == 0 && range.length % PAGE_SIZE == 0 && n <= range.length
    ensures SameTables(m, m', tables)
    ensures forall q :: q in live && q != range ==> SameData(m, m', q)
  {
    Pmm.LiveFacts(live, clear, avail);
    forall g, j | g in tables && 0 <= j < ENTRIES && InMemory(m, g)
      ensures Entry(m', g, j) == Entry(m, g, j)
    {
      DataNotTable(live, clear, avail, tables, range, g);
      EntryOutside(m, m', range, n, g, j);
    }
    forall q | q in live && q != range
      ensures SameData(m, m', q)
    {
      forall a | 0 <= a < |m| && a / PAGE_SIZE in PagesOf(q)
        ensures m'[a] == m[a]
      {
        assert a / PAGE_SIZE !in PagesOf(range);
      }
    }
  }

  lemma EntryOutside(m: seq<byte>, m': seq<byte>, range: Range, n: nat, g: Frame, j: nat)
    requires WrittenIn(m, m', range, n) && range.base % PAGE_SIZE == 0 && range.length % PAGE_SIZE == 0
    requires n <= range.length
    requires g !in PagesOf(range) && j < ENTRIES && InMemory(m, g)
    ensures Entry(m', g, j) == Entry(m, g, j)
  {
    var a := EntryAddr(g, j);
    assert m'[a..a + 8] == m[a..a + 8];
  }

  /** The body of the loop for a loadable segment: its pages are mapped to frames that hold its
      bytes; other data and the meaning of other pages stay. */
  method LoadSegment(vm: Vmm.Manager, root: Frame, image: seq<byte>, s: Segment) returns (r: Outcome<Range>)
    requires vm.Valid() && IsRoot(vm.tables, root) && s.kind == PT_LOAD && SegmentOk(image, s)
    modifies vm`tables, vm.pmm, vm.pmm.bitmap, vm.mem
    ensures r.Done? ==> vm.Valid() && IsRoot(vm.tables, root)
    ensures r.Done? ==> Placed(vm.mem[..], vm.pmm.live, vm.tables, root, image, s, r.value)
    ensures r.Done? ==> DataKept(old(vm.mem[..]), old(vm.pmm.live), old(vm.tables), vm.mem[..], vm.pmm.live, vm.tables)
    ensures r.Done? ==> OtherPagesKept(old(vm.mem[..]), vm.mem[..], root, s)
    ensures r.Done? ==> SpacesLeft(old(vm.mem[..]), old(vm.tables), vm.mem[..], vm.tables, root, s)
  {
    ghost var m, live, tables := vm.mem[..], vm.pmm.live, vm.tables;
    r := TakeFrames(vm, s);
    if !r.Done? {
      return;
    }
    var range := r.value;
    ghost var live1 := vm.pmm.live;
    var ok := vm.MapRange(root, Range(s.vaddr, range.length), range, true);
    if !ok.Done? {
      return ok.Stop();
    }
    ghost var m2, live2, tables2 := vm.mem[..], vm.pmm.live, vm.tables;
    DataStays(live1, tables, live2, tables2, range);
    MappedPages(m, tables, m2, tables2, root, s, range);
    FillFrames(vm, image, s, range);
    SegmentLeaves(m, tables, m2, tables2, vm.mem[..], root, s, range);
    SegmentPlaced(m, live, tables, m2, live1, live2, tables2, vm.mem[..], vm.pmm.Clear(), vm.pmm.avail, root, image,
                  s, range);
  }

  ghost predicate Placed(m: seq<byte>, live: set<Range>, tables: Tables, root: Frame, image: seq<byte>, s: Segment,
                         q: Range)
    requires s.offset + s.filesz <= |image|
  {
    DataRange(live, tables, q) && q.length % PAGE_SIZE == 0 && Backed(m, root, s, q) && Filled(m, image, s, q)
  }

  ghost predicate OtherPagesKept(m: seq<byte>, m': seq<byte>, root: Frame, s: Segment) {
    forall v: nat :: v < VIRTUAL_PAGES && !(PageOf(s.vaddr) <= v < PageOf(s.vaddr) + SegmentPages(s)) ==>
      Walk(m', root, v) == Walk(m, root, v)
  }

  ghost predicate OnSegment(s: Segment, v: nat) {
    s.kind == PT_LOAD && PageOf(s.vaddr) <= v < PageOf(s.vaddr) + SegmentPages(s)
  }

  /** The other spaces are there and mean what they meant, but for pages of the segment in a slot
      that they share with this one. */
  ghost predicate SpacesLeft(m: seq<byte>, t: Tables, m': seq<byte>, t': Tables, root: Frame, s: Segment) {
    && SameRoots(t, t')
    && forall a: Frame, v: nat :: IsRoot(t, a) && a != root && v < VIRTUAL_PAGES ==> PageLeft(m, m', s, a, v)
  }

  ghost predicate PageLeft(m: seq<byte>, m': seq<byte>, s: Segment, a: Frame, v: nat) {
    Index(v, 4) < FIRST_SHARED || !OnSegment(s, v) ==> Walk(m', a, v) == Walk(m, a, v)
  }

  lemma SegmentLeaves(m: seq<byte>, t: Tables, m2: seq<byte>, t2: Tables, m3: seq<byte>, root: Frame, s: Segment,
                      range: Range)
    requires IsRoot(t, root) && s.kind == PT_LOAD && range.base % PAGE_SIZE == 0 && range.length == AlignUp(s.memsz)
    requires Vmm.MappedSoFar(m, t, m2, t2, root, PageOf(s.vaddr), range.length / PAGE_SIZE,
                             Frames(AlignDown(range.base), true))
    requires Tree(m2, t2) && SameTables(m2, m3, t2)
    ensures SpacesLeft(m, t, m3, t2, root, s)
  {
    WholeRange(s, range);
    forall a: Frame, v: nat | IsRoot(t, a) && a != root && v < VIRTUAL_PAGES
      ensures PageLeft(m, m3, s, a, v)
    {
      assert RemappedAt(m, m2, root, PageOf(s.vaddr), SegmentPages(s), Frames(range.base, true), a, v);
      assert IsRoot(t2, a) && IsRoot(t2, root);
      SameWalk(m2, m3, t2, a, v);
      if Index(v, 4) < FIRST_SHARED { PrivateSlots(m2, t2, a, root, v); }
    }
  }

  lemma MappedPages(m: seq<byte>, t: Tables, m': seq<byte>, t': Tables, root: Frame, s: Segment, range: Range)
    requires IsRoot(t, root) && range.base % PAGE_SIZE == 0 && range.length == AlignUp(s.memsz)
    requires PageOf(s.vaddr) + SegmentPages(s) <= VIRTUAL_PAGES
    requires Vmm.MappedSoFar(m, t, m', t', root, PageOf(s.vaddr), range.length / PAGE_SIZE,
                             Frames(AlignDown(range.base), true))
    ensures Backed(m', root, s, range) && OtherPagesKept(m, m', root, s) && IsRoot(t', root)
  {
    WholeRange(s, range);
    var what := Frames(range.base, true);
    forall k: nat | k < SegmentPages(s)
      ensures PageBacked(m', root, s, range, k)
    {
      MappedPage(m, t, m', root, s, range, k);
    }
    forall v: nat | v < VIRTUAL_PAGES && !(PageOf(s.vaddr) <= v < PageOf(s.vaddr) + SegmentPages(s))
      ensures Walk(m', root, v) == Walk(m, root, v)
    {
      assert RemappedAt(m, m', root, PageOf(s.vaddr), SegmentPages(s), what, root, v);
    }
  }

  lemma WholeRange(s: Segment, range: Range)
    requires range.base % PAGE_SIZE == 0 && range.length == AlignUp(s.memsz)
    ensures AlignDown(range.base) == range.base && range.length / PAGE_SIZE == SegmentPages(s)
  {
  }

  lemma MappedPage(m: seq<byte>, t: Tables, m': seq<byte>, root: Frame, s: Segment, range: Range, k: nat)
    requires IsRoot(t, root) && k < SegmentPages(s) && PageOf(s.vaddr) + SegmentPages(s) <= VIRTUAL_PAGES
    requires Remapped(m, t, m', root, PageOf(s.vaddr), SegmentPages(s), Frames(range.base, true))
    requires SlotsThere(m', root, PageOf(s.vaddr), SegmentPages(s))
    ensures PageBacked(m', root, s, range, k)
  {
    var v := PageOf(s.vaddr) + k;
    assert RemappedAt(m, m', root, PageOf(s.vaddr), SegmentPages(s), Frames(range.base, true), root, v);
    assert TableAt(m', root, v, 3).Some?;
  }

  lemma SegmentPlaced(m: seq<byte>, live: set<Range>, t: Tables, m2: seq<byte>, live1: set<Range>, live2: set<Range>,
                      t2: Tables, m3: seq<byte>, clear: set<nat>, avail: set<nat>, root: Frame, image: seq<byte>,
                      s: Segment, range: Range)
    requires SegmentRange(s, live, t, live1, range, |m|) && Vmm.LiveGrew(live1, t, live2, t2) && Untouched(m, m2, t2)
    requires Pmm.LiveOk(live2, clear, avail) && forall f :: f in t2 ==> Vmm.PageRange(f) in live2
    requires Tree(m2, t2) && IsRoot(t2, root) && SameTables(m2, m3, t2)
    requires s.kind == PT_LOAD && SegmentOk(image, s) && Backed(m2, root, s, range) && Filled(m3, image, s, range)
    requires OtherPagesKept(m, m2, root, s)
    requires forall q :: q in live2 && q != range ==> SameData(m2, m3, q)
    ensures Placed(m3, live2, t2, root, image, s, range)
    ensures DataKept(m, live, t, m3, live2, t2) && OtherPagesKept(m, m3, root, s)
  {
    DataStays(live1, t, live2, t2, range);
    MappingStays(m, m2, m3, t2, root, s, range);
    forall q | DataRange(live, t, q)
      ensures DataRange(live2, t2, q) && SameData(m, m3, q)
    {
      DataStays(live1, t, live2, t2, q);
      DataUntouched(m, m2, live2, clear, avail, t2, q);
    }
  }

  lemma MappingStays(m: seq<byte>, m2: seq<byte>, m3: seq<byte>, t2: Tables, root: Frame, s: Segment, range: Range)
    requires Tree(m2, t2) && IsRoot(t2, root) && SameTables(m2, m3, t2)
    requires Backed(m2, root, s, range) && OtherPagesKept(m, m2, root, s)
    ensures Backed(m3, root, s, range) && OtherPagesKept(m, m3, root, s)
  {
    forall v: nat
      ensures Walk(m3, root, v) == Walk(m2, root, v)
    {
      SameWalk(m2, m3, t2, root, v);
    }
    forall k: nat | k < SegmentPages(s)
      ensures PageBacked(m3, root, s, range, k)
    {
      assert PageBacked(m2, root, s, range, k);
    }
  }

  // ---------- the segment loop ----------

  /** The segments loaded so far; the pages of one may be taken over by a later one only if they
      overlap. */
  ghost predicate PlacedUpTo(m: seq<byte>, live: set<Range>, tables: Tables, root: Frame, image: seq<byte>,
                             placed: seq<Range>)
    requires ImageOk(image) && |placed| <= Phnum(image)
  {
    forall i: nat :: i < |placed| && Header(image, i).kind == PT_LOAD ==>
      Placed(m, live, tables, root, image, Header(image, i), placed[i])
  }

  ghost predicate OnSomeSegment(image: seq<byte>, v: nat)
    requires ImageOk(image)
  {
    exists i: nat :: i < Phnum(image) && OnSegment(Header(image, i), v)
  }

  /** Below the shared slots, and off the pages of all segments, the other spaces mean what they
      meant. */
  ghost predicate OthersKept(m: seq<byte>, t: Tables, m': seq<byte>, t': Tables, root: Frame, image: seq<byte>)
    requires ImageOk(image)
  {
    && SameRoots(t, t')
    && forall a: Frame, v: nat :: IsRoot(t, a) && a != root && v < VIRTUAL_PAGES ==> KeptAt(m, m', image, a, v)
  }

  ghost predicate KeptAt(m: seq<byte>, m': seq<byte>, image: seq<byte>, a: Frame, v: nat)
    requires ImageOk(image)
  {
    Index(v, 4) < FIRST_SHARED || !OnSomeSegment(image, v) ==> Walk(m', a, v) == Walk(m, a, v)
  }

  lemma KeptBySegment(m: seq<byte>, t: Tables, m1: seq<byte>, t1: Tables, m2: seq<byte>, t2: Tables, root: Frame,
                      image: seq<byte>, i: nat)
    requires ImageOk(image) && OthersKept(m, t, m1, t1, root, image)
    requires i < Phnum(image) && SpacesLeft(m1, t1, m2, t2, root, Header(image, i))
    ensures OthersKept(m, t, m2, t2, root, image)
  {
    forall a: Frame, v: nat | IsRoot(t, a) && a != root && v < VIRTUAL_PAGES
      ensures KeptAt(m, m2, image, a, v)
    {
      assert IsRoot(t1, a) && KeptAt(m, m1, image, a, v) && PageLeft(m1, m2, Header(image, i), a, v);
      assert OnSegment(Header(image, i), v) ==> OnSomeSegment(image, v);
    }
  }

  /** The other spaces before the new one was created are still there, and mean what they meant,
      below the shared slots for certain, and everywhere if no segment reaches these. */
  ghost predicate OldSpacesKept(m: seq<byte>, t: Tables, m': seq<byte>, t': Tables, image: seq<byte>)
    requires ImageOk(image)
  {
    && (forall a: Frame :: IsRoot(t, a) ==> IsRoot(t', a))
    && forall a: Frame, v: nat :: IsRoot(t, a) && v < VIRTUAL_PAGES ==> KeptAt(m, m', image, a, v)
  }

  lemma KeptFromStart(m: seq<byte>, t: Tables, m1: seq<byte>, t1: Tables, m2: seq<byte>, t2: Tables, kernel: Frame,
                      root: Frame, image: seq<byte>)
    requires ImageOk(image) && Created(m, t, m1, t1, kernel, root) && OthersKept(m1, t1, m2, t2, root, image)
    ensures OldSpacesKept(m, t, m2, t2, image)
  {
    forall a: Frame, v: nat | IsRoot(t, a) && v < VIRTUAL_PAGES
      ensures KeptAt(m, m2, image, a, v)
    {
      assert IsRoot(t1, a) && KeptAt(m1, m2, image, a, v);
      assert Walk(m1, a, v) == Walk(m, a, v);
    }
  }

  /** With no segment in a shared slot, that is: nothing changes for the others at all. */
  lemma OthersUnaffected(m: seq<byte>, t: Tables, m': seq<byte>, t': Tables, image: seq<byte>, a: Frame, v: nat)
    requires ImageOk(image) && OldSpacesKept(m, t, m', t', image) && IsRoot(t, a) && v < VIRTUAL_PAGES
    requires forall w: nat :: OnSomeSegment(image, w) ==> Index(w, 4) < FIRST_SHARED
    ensures IsRoot(t', a) && Walk(m', a, v) == Walk(m, a, v)
  {
    assert KeptAt(m, m', image, a, v);
  }

  /** load_elf_module up to the creation of the process: the address space of the program. */
  method LoadElfModule(vm: Vmm.Manager, image: seq<byte>) returns (r: Outcome<Frame>)
    requires vm.Valid() && ImageOk(image)
    modifies vm`tables, vm.pmm, vm.pmm.bitmap, vm.mem
    ensures r.Done? ==> vm.Valid() && IsRoot(vm.tables, r.value)
    ensures r.Done? ==> AllIfApart(vm.mem[..], r.value, image)
    ensures r.Done? ==> OldSpacesKept(old(vm.mem[..]), old(vm.tables), vm.mem[..], vm.tables, image)
  {
    ghost var m, t := vm.mem[..], vm.tables;
    var pml := vm.SpaceCreate();
    if !pml.Done? {
      return pml;
    }
    ghost var m1, t1 := vm.mem[..], vm.tables;
    ghost var placed;
    var ok;
    ok, placed := LoadSegments(vm, pml.value, image);
    if !ok.Done? {
      return ok.Stop();
    }
    AllLoaded(m1, t1, vm.mem[..], vm.pmm.live, vm.tables, pml.value, image, placed);
    KeptFromStart(m, t, m1, t1, vm.mem[..], vm.tables, vm.kernel, pml.value, image);
    r := pml;
  }

  /** The loop over the program headers. */
  method LoadSegments(vm: Vmm.Manager, root: Frame, image: seq<byte>) returns (r: Outcome<()>, ghost placed: seq<Range>)
    requires vm.Valid() && IsRoot(vm.tables, root) && ImageOk(image)
    modifies vm`tables, vm.pmm, vm.pmm.bitmap, vm.mem
    ensures r.Done? ==>
              && vm.Valid() && |placed| == Phnum(image)
              && Progress(old(vm.mem[..]), old(vm.tables), vm.mem[..], vm.pmm.live, vm.tables, root, image, placed)
  {
    ghost var m0, t0 := vm.mem[..], vm.tables;
    NoneYet(m0, vm.pmm.live, t0, root, image);
    var phdr, i := Phoff(image), 0;
    r, placed := Done(()), [];
    while i < Phnum(image)
      invariant 0 <= i <= Phnum(image) && phdr == HeaderAddr(image, i) && |placed| == i
      invariant vm.Valid() && r.Done?
      invariant Progress(m0, t0, vm.mem[..], vm.pmm.live, vm.tables, root, image, placed)
    {
      r, placed := LoadHeader(vm, root, image, phdr, i, placed, m0, t0);
      if !r.Done? {
        return;
      }
      phdr := phdr + Phentsize(image);
      i := i + 1;
    }
  }

  /** Every loadable segment is loaded, unless segments overlap. */
  ghost predicate AllIfApart(m: seq<byte>, root: Frame, image: seq<byte>)
    requires ImageOk(image)
  {
    SegmentsApart(image) ==>
      forall i: nat :: i < Phnum(image) && Header(image, i).kind == PT_LOAD ==> Loaded(m, root, image, Header(image, i))
  }

  ghost predicate PlacedIfApart(m: seq<byte>, live: set<Range>, tables: Tables, root: Frame, image: seq<byte>,
                                placed: seq<Range>)
    requires ImageOk(image) && |placed| <= Phnum(image)
  {
    SegmentsApart(image) ==> PlacedUpTo(m, live, tables, root, image, placed)
  }

  /** Where the loop stands: some segments are loaded, and nothing else has changed. */
  ghost predicate Progress(m0: seq<byte>, t0: Tables, m: seq<byte>, live: set<Range>, t: Tables, root: Frame,
                           image: seq<byte>, placed: seq<Range>)
    requires ImageOk(image) && |placed| <= Phnum(image)
  {
    IsRoot(t, root) && PlacedIfApart(m, live, t, root, image, placed) && OthersKept(m0, t0, m, t, root, image)
  }

  /** The body of the loop. */
  method LoadHeader(vm: Vmm.Manager, root: Frame, image: seq<byte>, phdr: nat, ghost i: nat, ghost placed: seq<Range>,
                    ghost m0: seq<byte>, ghost t0: Tables)
    returns (r: Outcome<()>, ghost placed': seq<Range>)
    requires vm.Valid() && ImageOk(image) && |placed| == i < Phnum(image) && phdr == HeaderAddr(image, i)
    requires Progress(m0, t0, vm.mem[..], vm.pmm.live, vm.tables, root, image, placed)
    modifies vm`tables, vm.pmm, vm.pmm.bitmap, vm.mem
    ensures |placed'| == i + 1
    ensures r.Done? ==> vm.Valid() && Progress(m0, t0, vm.mem[..], vm.pmm.live, vm.tables, root, image, placed')
  {
    assert HasHeader(image, i) && SegmentOk(image, Header(image, i));
    var s := HeaderAt(image, phdr);
    if s.kind != PT_LOAD {
      OneMoreSkipped(vm.mem[..], vm.pmm.live, vm.tables, root, image, placed, Range(0, 0));
      return Done(()), placed + [Range(0, 0)];
    }
    ghost var m, live, tables := vm.mem[..], vm.pmm.live, vm.tables;
    var range := LoadSegment(vm, root, image, s);
    if !range.Done? {
      return range.Stop(), placed + [Range(0, 0)];
    }
    OneMorePlaced(m, live, tables, vm.mem[..], vm.pmm.live, vm.tables, root, image, placed, range.value);
    KeptBySegment(m0, t0, m, tables, vm.mem[..], vm.tables, root, image, i);
    r, placed' := Done(()), placed + [range.value];
  }

  lemma OneMorePlaced(m: seq<byte>, live: set<Range>, t: Tables, m': seq<byte>, live': set<Range>, t': Tables,
                      root: Frame, image: seq<byte>, placed: seq<Range>, q: Range)
    requires ImageOk(image) && |placed| < Phnum(image) && Header(image, |placed|).kind == PT_LOAD
    requires PlacedIfApart(m, live, t, root, image, placed)
    requires Placed(m', live', t', root, image, Header(image, |placed|), q)
    requires DataKept(m, live, t, m', live', t') && OtherPagesKept(m, m', root, Header(image, |placed|))
    ensures PlacedIfApart(m', live', t', root, image, placed + [q])
  {
    if SegmentsApart(image) {
      forall i: nat | i < |placed| + 1 && Header(image, i).kind == PT_LOAD
        ensures Placed(m', live', t', root, image, Header(image, i), (placed + [q])[i])
      {
        if i < |placed| {
          assert PagesApart(Header(image, i), Header(image, |placed|));
          StillPlaced(m, live, t, m', live', t', root, image, Header(image, i), Header(image, |placed|), placed[i]);
        }
      }
    }
  }

  lemma StillPlaced(m: seq<byte>, live: set<Range>, t: Tables, m': seq<byte>, live': set<Range>, t': Tables,
                    root: Frame, image: seq<byte>, s: Segment, next: Segment, q: Range)
    requires s.kind == PT_LOAD && next.kind == PT_LOAD && SegmentOk(image, s) && PagesApart(s, next)
    requires Placed(m, live, t, root, image, s, q)
    requires DataKept(m, live, t, m', live', t') && OtherPagesKept(m, m', root, next)
    ensures Placed(m', live', t', root, image, s, q)
  {
    FilledStays(m, m', image, s, q);
    forall k: nat | k < SegmentPages(s)
      ensures PageBacked(m', root, s, q, k)
    {
      assert PageBacked(m, root, s, q, k);
    }
  }

  lemma OneMoreSkipped(m: seq<byte>, live: set<Range>, t: Tables, root: Frame, image: seq<byte>, placed: seq<Range>,
                       q: Range)
    requires ImageOk(image) && |placed| < Phnum(image) && Header(image, |placed|).kind != PT_LOAD
    requires PlacedIfApart(m, live, t, root, image, placed)
    ensures PlacedIfApart(m, live, t, root, image, placed + [q])
  {
  }

  lemma NoneYet(m: seq<byte>, live: set<Range>, t: Tables, root: Frame, image: seq<byte>)
    requires ImageOk(image) && IsRoot(t, root)
    ensures Progress(m, t, m, live, t, root, image, [])
  {
  }

  lemma AllLoaded(m0: seq<byte>, t0: Tables, m: seq<byte>, live: set<Range>, t: Tables, root: Frame, image: seq<byte>,
                  placed: seq<Range>)
    requires ImageOk(image) && |placed| == Phnum(image) && Tree(m, t)
    requires Progress(m0, t0, m, live, t, root, image, placed)
    ensures IsRoot(t, root) && AllIfApart(m, root, image) && OthersKept(m0, t0, m, t, root, image)
  {
    if SegmentsApart(image) {
      forall i: nat | i < Phnum(image) && Header(image, i).kind == PT_LOAD
        ensures Loaded(m, root, image, Header(image, i))
      {
        BackedAndFilled(m, t, root, image, Header(image, i), placed[i]);
      }
    }
  }

  /** With page-aligned addresses, as the gABI asks for, that is: the byte at p_vaddr + k is byte
      k of the segment. */
  lemma AlignedLoaded(m: seq<byte>, root: Frame, image: seq<byte>, i: nat, k: nat)
    requires ImageOk(image) && SegmentsApart(image) && AllIfApart(m, root, image)
    requires i < Phnum(image) && Header(image, i).kind == PT_LOAD && Header(image, i).vaddr % PAGE_SIZE == 0
    requires k < Header(image, i).memsz
    ensures var s, pa := Header(image, i), Translate(m, root, Header(image, i).vaddr + k);
            pa.Some? && pa.value < |m| && m[pa.value] == if k < s.filesz then image[s.offset + k] else 0
  {
    var s := Header(image, i);
    assert Loaded(m, root, image, s);
    assert ByteLoaded(m, root, image, s, k);
    assert AlignDown(s.vaddr) == s.vaddr;
  }

  /** Byte j of a segment in memory: of the file, and then zero. */
  function SegmentByte(file: seq<byte>, j: nat): byte {
    if j < |file| then file[j] else 0
  }

  /** What the program sees at p_vaddr + k: the file bytes begin at the start of the page, so it
      is the byte as far on as p_vaddr is into its page. */
  lemma SeenAt(m: seq<byte>, root: Frame, image: seq<byte>, i: nat, k: nat, j: nat)
    requires ImageOk(image) && SegmentsApart(image) && AllIfApart(m, root, image)
    requires i < Phnum(image) && Header(image, i).kind == PT_LOAD
    requires j == k + Header(image, i).vaddr % PAGE_SIZE && j < Header(image, i).memsz
    ensures var s, pa := Header(image, i), Translate(m, root, Header(image, i).vaddr + k);
            && s.offset + s.filesz <= |image| && pa.Some? && pa.value < |m|
            && m[pa.value] == SegmentByte(image[s.offset..s.offset + s.filesz], j)
  {
    var s := Header(image, i);
    assert Loaded(m, root, image, s);
    assert ByteLoaded(m, root, image, s, j);
    assert AlignDown(s.vaddr) + j == s.vaddr + k;
  }

  /** So where it sees bytes of the segment, the program sees byte k at p_vaddr + k, whatever the
      file holds, if and only if p_vaddr is page-aligned, or nothing comes of the file or of the
      segment there. */
  lemma PromiseKeptIff(vaddr: nat, filesz: nat, memsz: nat)
    ensures (forall file: seq<byte>, k: nat :: |file| == filesz && k + vaddr % PAGE_SIZE < memsz ==>
               SegmentByte(file, k + vaddr % PAGE_SIZE) == SegmentByte(file, k))
            <==> vaddr % PAGE_SIZE == 0 || filesz == 0 || memsz <= vaddr % PAGE_SIZE
  {
    var d := vaddr % PAGE_SIZE;
    if d != 0 && filesz != 0 && d < memsz {
      var file: seq<byte> := seq(filesz, i => if i == 0 then 1 else 0);
      assert SegmentByte(file, 0 + d) != SegmentByte(file, 0);
    }
  }

  // ---------- the layout of the file ----------

  /** A program header as the gABI lays it out (chapter 5, "Program Header"). */
  datatype ProgramHeader = ProgramHeader(kind: nat, flags: nat, offset: nat, vaddr: nat, paddr: nat,
                                         filesz: nat, memsz: nat, align: nat)

  predicate HeaderInRange(p: ProgramHeader) {
    && p.kind < TWO_32 && p.flags < TWO_32 && p.offset < TWO_64 && p.vaddr < TWO_64 && p.paddr < TWO_64
    && p.filesz < TWO_64 && p.memsz < TWO_64 && p.align < TWO_64
  }

  function HeaderBytes(p: ProgramHeader): (s: seq<byte>)
    ensures |s| == 56
  {
    Encode(p.kind, 4) + Encode(p.flags, 4) + Encode(p.offset, 8) + Encode(p.vaddr, 8) + Encode(p.paddr, 8)
    + Encode(p.filesz, 8) + Encode(p.memsz, 8) + Encode(p.align, 8)
  }

  /** The file header (chapter 4, "ELF Header"). */
  datatype FileHeader = FileHeader(ident: seq<byte>, kind: nat, machine: nat, version: nat, entry: nat, phoff: nat,
                                   shoff: nat, flags: nat, ehsize: nat, phentsize: nat, phnum: nat, shentsize: nat,
                                   shnum: nat, shstrndx: nat)

  predicate FileHeaderInRange(h: FileHeader) {
    |h.ident| == 16 && h.phoff < TWO_64 && h.phentsize < 0x1_0000 && h.phnum < 0x1_0000
  }

  function FileHeaderBytes(h: FileHeader): (s: seq<byte>)
    requires |h.ident| == 16
    ensures |s| == 64
  {
    h.ident + Encode(h.kind, 2) + Encode(h.machine, 2) + Encode(h.version, 4) + Encode(h.entry, 8) + Encode(h.phoff, 8)
    + Encode(h.shoff, 8) + Encode(h.flags, 4) + Encode(h.ehsize, 2) + Encode(h.phentsize, 2) + Encode(h.phnum, 2)
    + Encode(h.shentsize, 2) + Encode(h.shnum, 2) + Encode(h.shstrndx, 2)
  }

  /** A field that was stored as part of a header is read back. */
  lemma FieldStored(image: seq<byte>, a: nat, header: seq<byte>, at: nat, x: nat, n: nat)
    requires a + |header| <= |image| && image[a..a + |header|] == header
    requires at + n <= |header| && header[at..at + n] == Encode(x, n) && x < Power256(n)
    ensures Field(image, a + at, n) == x
  {
    var found, stored := image[a + at..a + at + n], header[at..at + n];
    forall i | 0 <= i < n
      ensures found[i] == stored[i]
    {
      assert image[a..a + |header|][at + i] == found[i];
    }
    assert found == Encode(x, n);
    DecodeEncode(x, n);
  }

  lemma FourBytes()
    ensures Power256(4) == TWO_32
  {
  }

  /** The loader takes each field from where the gABI puts it. */
  lemma HeaderLayout(image: seq<byte>, a: nat, p: ProgramHeader)
    requires a + 56 <= |image| && image[a..a + 56] == HeaderBytes(p) && HeaderInRange(p)
    ensures HeaderAt(image, a) == Segment(p.kind, p.offset, p.vaddr, p.filesz, p.memsz)
  {
    FourBytes();
    EightBytes();
    HeaderParts(p);
    FieldStored(image, a, HeaderBytes(p), 0, p.kind, 4);
    FieldStored(image, a, HeaderBytes(p), 8, p.offset, 8);
    FieldStored(image, a, HeaderBytes(p), 16, p.vaddr, 8);
    FieldStored(image, a, HeaderBytes(p), 32, p.filesz, 8);
    FieldStored(image, a, HeaderBytes(p), 40, p.memsz, 8);
  }

  lemma HeaderParts(p: ProgramHeader)
    ensures HeaderBytes(p)[0..4] == Encode(p.kind, 4) && HeaderBytes(p)[8..16] == Encode(p.offset, 8)
    ensures HeaderBytes(p)[16..24] == Encode(p.vaddr, 8) && HeaderBytes(p)[32..40] == Encode(p.filesz, 8)
    ensures HeaderBytes(p)[40..48] == Encode(p.memsz, 8)
  {
  }

  lemma FileHeaderLayout(image: seq<byte>, h: FileHeader)
    requires 64 <= |image| && FileHeaderInRange(h) && image[..64] == FileHeaderBytes(h)
    ensures Phoff(image) == h.phoff && Phentsize(image) == h.phentsize && Phnum(image) == h.phnum
  {
    TwoBytes();
    EightBytes();
    FileHeaderParts(h);
    assert image[0..0 + 64] == image[..64];
    FieldStored(image, 0, FileHeaderBytes(h), 32, h.phoff, 8);
    FieldStored(image, 0, FileHeaderBytes(h), 54, h.phentsize, 2);
    FieldStored(image, 0, FileHeaderBytes(h), 56, h.phnum, 2);
  }

  lemma FileHeaderParts(h: FileHeader)
    requires |h.ident| == 16
    ensures FileHeaderBytes(h)[32..40] == Encode(h.phoff, 8) && FileHeaderBytes(h)[54..56] == Encode(h.phentsize, 2)
    ensures FileHeaderBytes(h)[56..58] == Encode(h.phnum, 2)
  {
  }

  // ---------- an image with given headers ----------

  ghost predicate HeaderStored(image: seq<byte>, h: FileHeader, headers: seq<ProgramHeader>, i: nat)
    requires i < |headers|
  {
    var a := h.phoff + i * h.phentsize;
    a + 56 <= |image| && image[a..a + 56] == HeaderBytes(headers[i]) && HeaderInRange(headers[i])
  }

  /** The image of a program with these headers. */
  ghost predicate BuiltFrom(image: seq<byte>, h: FileHeader, headers: seq<ProgramHeader>) {
    && 64 <= |image| && FileHeaderInRange(h) && image[..64] == FileHeaderBytes(h) && h.phnum == |headers|
    && forall i: nat :: i < |headers| ==> HeaderStored(image, h, headers, i)
  }

  lemma {:induction false} HeaderAddrIs(image: seq<byte>, i: nat)
    requires 64 <= |image|
    ensures HeaderAddr(image, i) == Phoff(image) + i * Phentsize(image)
  {
    if i > 0 { HeaderAddrIs(image, i - 1); }
  }

  lemma HeadersFound(image: seq<byte>, h: FileHeader, headers: seq<ProgramHeader>, i: nat)
    requires BuiltFrom(image, h, headers) && i < |headers|
    ensures Phnum(image) == |headers| && HasHeader(image, i)
    ensures var p := headers[i]; Header(image, i) == Segment(p.kind, p.offset, p.vaddr, p.filesz, p.memsz)
  {
    FileHeaderLayout(image, h);
    HeaderAddrIs(image, i);
    assert HeaderStored(image, h, headers, i);
    HeaderLayout(image, h.phoff + i * h.phentsize, headers[i]);
  }

  /** A loadable segment (p_type 1) that the image holds, and that is mapped without wrapping. */
  ghost predicate Loadable(image: seq<byte>, p: ProgramHeader) {
    && p.offset + p.filesz <= |image| && p.filesz <= p.memsz
    && p.vaddr / 4096 % 0x10_0000_0000 + (p.memsz + 4095) / 4096 <= 0x10_0000_0000
  }

  /** Two page ranges that have no page in common. */
  ghost predicate Disjoint(p: ProgramHeader, q: ProgramHeader) {
    var v, w := p.vaddr / 4096 % 0x10_0000_0000, q.vaddr / 4096 % 0x10_0000_0000;
    v + (p.memsz + 4095) / 4096 <= w || w + (q.memsz + 4095) / 4096 <= v
  }

  ghost predicate ProgramOk(image: seq<byte>, headers: seq<ProgramHeader>) {
    && (forall i: nat :: i < |headers| && headers[i].kind == 1 ==> Loadable(image, headers[i]))
    && (forall i: nat, j: nat :: i < j < |headers| && headers[i].kind == 1 && headers[j].kind == 1 ==>
          Disjoint(headers[i], headers[j]))
  }

  lemma PagesUp(n: nat)
    ensures AlignUp(n) / PAGE_SIZE == (n + 4095) / 4096
  {
  }

  /** Such a program can be loaded. */
  lemma ProgramImageOk(image: seq<byte>, h: FileHeader, headers: seq<ProgramHeader>)
    requires BuiltFrom(image, h, headers) && ProgramOk(image, headers)
    ensures ImageOk(image) && SegmentsApart(image)
  {
    FileHeaderLayout(image, h);
    forall i: nat | i < Phnum(image)
      ensures HasHeader(image, i) && SegmentOk(image, Header(image, i))
    {
      HeadersFound(image, h, headers, i);
      PagesUp(headers[i].memsz);
    }
    forall i: nat, j: nat | i < j < Phnum(image)
      ensures PagesApart(Header(image, i), Header(image, j))
    {
      HeadersFound(image, h, headers, i);
      HeadersFound(image, h, headers, j);
      PagesUp(headers[i].memsz);
      PagesUp(headers[j].memsz);
      if headers[i].kind == 1 && headers[j].kind == 1 { assert Disjoint(headers[i], headers[j]); }
    }
  }

  /** User code sees byte k of segment p, to read and to write, behind the page of its address. */
  ghost predicate ProgramByte(m: seq<byte>, root: Frame, image: seq<byte>, p: ProgramHeader, k: nat)
    requires p.offset + p.filesz <= |image|
  {
    match Access(m, root * 4096, p.vaddr / 4096 * 4096 + k)
    case Fault => false
    case Byte(addr, user, writable) =>
      user && writable && addr < |m| && m[addr] == if k < p.filesz then image[p.offset + k] else 0
  }

  /** Loading a program with these headers puts every byte of every loadable segment where its
      header says. */
  lemma ProgramLoaded(m: seq<byte>, root: Frame, image: seq<byte>, h: FileHeader, headers: seq<ProgramHeader>,
                      i: nat, k: nat)
    requires BuiltFrom(image, h, headers) && ProgramOk(image, headers)
    requires ImageOk(image) && AllIfApart(m, root, image)
    requires i < |headers| && headers[i].kind == 1 && k < headers[i].memsz
    ensures headers[i].offset + headers[i].filesz <= |image| && ProgramByte(m, root, image, headers[i], k)
  {
    ProgramImageOk(image, h, headers);
    HeadersFound(image, h, headers, i);
    assert Loadable(image, headers[i]) && Loaded(m, root, image, Header(image, i));
    assert ByteLoaded(m, root, image, Header(image, i), k);
  }

  /** load_elf_module of a program given by its headers. */
  method LoadProgram(vm: Vmm.Manager, image: seq<byte>, ghost h: FileHeader, ghost headers: seq<ProgramHeader>)
    returns (r: Outcome<Frame>)
    requires vm.Valid() && BuiltFrom(image, h, headers) && ProgramOk(image, headers)
    modifies vm`tables, vm.pmm, vm.pmm.bitmap, vm.mem
    ensures r.Done? ==> vm.Valid() && IsRoot(vm.tables, r.value)
    ensures r.Done? ==> forall i: nat, k: nat :: i < |headers| && headers[i].kind == 1 && k < headers[i].memsz ==>
              headers[i].offset + headers[i].filesz <= |image| && ProgramByte(vm.mem[..], r.value, image, headers[i], k)
  {
    ProgramImageOk(image, h, headers);
    r := LoadElfModule(vm, image);
    if r.Done? {
      ghost var m := vm.mem[..];
      forall i: nat, k: nat | i < |headers| && headers[i].kind == 1 && k < headers[i].memsz
        ensures headers[i].offset + headers[i].filesz <= |image| && ProgramByte(m, r.value, image, headers[i], k)
      {
        ProgramLoaded(m, r.value, image, h, headers, i, k);
      }
    }
  }
}
