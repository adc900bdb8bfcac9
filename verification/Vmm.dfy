/** vmm.c: address spaces as trees of page tables, whose frames come from the frame allocator.
    Table pointers are physical addresses here: the window through which the kernel sees
    physical memory is a fixed offset away. */
module Vmm {
  import opened Memory
  import opened Pages
  import opened PageTables
  import opened Paging
  import opened Words
  import Pmm

  class Manager {
    const pmm: Pmm.Allocator
    const mem: array<byte>
    var kernel: Frame
    ghost var tables: Tables

    /** The frames of the tables are live pages of the frame allocator. */
    ghost predicate TablesLive()
      reads this, pmm
    {
      LiveTables(pmm.live, tables)
    }

    ghost predicate MemoryOk()
      reads this, pmm, pmm.bitmap, mem
    {
      && mem.Length <= TWO_64
      && (pmm.bitmap as object) != mem
      && forall p :: p in pmm.avail ==> (p + 1) * PAGE_SIZE <= mem.Length
    }

    ghost predicate Valid()
      reads this, pmm, pmm.bitmap, mem
    {
      && pmm.Valid() && MemoryOk() && TablesLive()
      && Tree(mem[..], tables) && IsRoot(tables, kernel)
    }

    /** The state that vmm_init starts from: an empty table for the kernel, on a live page. */
    constructor (pmm: Pmm.Allocator, mem: array<byte>, kernel: Frame)
      requires pmm.Valid() && mem.Length <= TWO_64 && (pmm.bitmap as object) != mem
      requires forall p :: p in pmm.avail ==> (p + 1) * PAGE_SIZE <= mem.Length
      requires PageRange(kernel) in pmm.live && InMemory(mem[..], kernel)
      requires forall j :: 0 <= j < ENTRIES ==> Entry(mem[..], kernel, j) == 0
      ensures Valid() && this.pmm == pmm && this.mem == mem && this.kernel == kernel
      ensures tables == map[kernel := Table(4, Top)]
    {
      this.pmm, this.mem, this.kernel := pmm, mem, kernel;
      tables := map[kernel := Table(4, Top)];
      new;
      assert TableOk(mem[..], tables, kernel);
    }

    /** Every table that a walk passes through is on a page that is marked used. */
    lemma ReachedIsUsed(r: Frame, v: nat, level: nat)
      requires Valid() && IsRoot(tables, r) && 1 <= level <= 4 && TableAt(mem[..], r, v, level).Some?
      ensures TableAt(mem[..], r, v, level).value !in pmm.Clear()
    {
      PathInTree(mem[..], tables, r, v, level);
      TableIsUsed(pmm.live, pmm.Clear(), pmm.avail, TableAt(mem[..], r, v, level).value);
    }

    /** Allocates a page; the assertion fails if the allocator has none. */
    method TakePage() returns (r: Outcome<Frame>)
      requires Valid()
      modifies pmm, pmm.bitmap
      ensures r.Done? ==> Valid() && r.value !in tables && InMemory(mem[..], r.value)
      ensures r.Done? ==> pmm.live == old(pmm.live) + {PageRange(r.value)} && PageRange(r.value) !in old(pmm.live)
    {
      ghost var clear, live := pmm.Clear(), pmm.live;
      var range := pmm.Alloc(PAGE_SIZE);
      if !range.Done? {
        return if range.Halted? then Halted else Hung;
      }
      if range.value.length == 0 {
        return Halted;
      }
      OnePage(range.value, clear);
      FreeIsNotTable(live, clear, pmm.avail, tables, range.value.base / PAGE_SIZE);
      r := Done(range.value.base / PAGE_SIZE);
    }

    /** Clears a page that holds no table. */
    method ClearTaken(f: Frame)
      requires Valid() && f !in tables && InMemory(mem[..], f)
      modifies mem
      ensures Valid() && Zeroed(old(mem[..]), mem[..], f)
    {
      ghost var m := mem[..];
      Memset(mem, f * PAGE_SIZE, 0, PAGE_SIZE);
      ZeroedFrame(m, mem[..], tables, f);
      SameTablesTree(m, mem[..], tables);
    }

    /** Allocates and clears a page. */
    method AllocPage() returns (r: Outcome<Frame>)
      requires Valid()
      modifies pmm, pmm.bitmap, mem
      ensures r.Done? ==> Valid() && r.value !in tables && InMemory(mem[..], r.value)
      ensures r.Done? ==> pmm.live == old(pmm.live) + {PageRange(r.value)} && PageRange(r.value) !in old(pmm.live)
      ensures r.Done? ==> Zeroed(old(mem[..]), mem[..], r.value)
    {
      r := TakePage();
      if r.Done? {
        ClearTaken(r.value);
      }
    }

    /** vmm_get_pml_alloc: the table that entry i of table f leads to, hung in if it was absent. */
    method GetPmlAlloc(f: Frame, i: nat, ghost r0: Frame) returns (r: Outcome<Frame>)
      requires Valid() && f in tables && tables[f].level >= 2 && i < ENTRIES
      requires tables[f].level == 4 ==> f == r0
      modifies this`tables, pmm, pmm.bitmap, mem
      ensures r.Done? ==>
                && Valid() && Child(mem[..], f, i) == Some(r.value) && Opens(mem[..], f, i, r.value)
                && Grown(old(mem[..]), old(tables), mem[..], tables, r0)
                && LiveGrew(old(pmm.live), old(tables), pmm.live, tables)
    {
      assert TableOk(mem[..], tables, f) && LinkOk(mem[..], tables, f, i);
      var entry := Read64(mem, EntryAddr(f, i));
      if Present(entry) {
        GrownRefl(mem[..], tables, r0);
        return Done(Target(entry));
      }
      r := AddTable(f, i, r0);
      if r.Done? { assert TableOk(mem[..], tables, f) && LinkOk(mem[..], tables, f, i); }
    }

    /** Hangs a new table in. */
    method AddTable(f: Frame, i: nat, ghost r0: Frame) returns (r: Outcome<Frame>)
      requires Valid() && f in tables && tables[f].level >= 2 && i < ENTRIES && Child(mem[..], f, i).None?
      requires tables[f].level == 4 ==> f == r0
      modifies this`tables, pmm, pmm.bitmap, mem
      ensures r.Done? ==>
                && Valid() && Child(mem[..], f, i) == Some(r.value)
                && Grown(old(mem[..]), old(tables), mem[..], tables, r0)
                && LiveGrew(old(pmm.live), old(tables), pmm.live, tables)
    {
      ghost var m, live := mem[..], pmm.live;
      r := AllocPage();
      if r.Done? {
        TableAdded(live, tables, f, i, r.value);
        HangTable(f, i, r.value, m, r0);
      }
    }

    /** Hangs in a cleared live page. */
    method HangTable(f: Frame, i: nat, c: Frame, ghost m: seq<byte>, ghost r0: Frame)
      requires Valid() && f in tables && tables[f].level >= 2 && i < ENTRIES
      requires Tree(m, tables) && Child(m, f, i).None? && (tables[f].level == 4 ==> f == r0)
      requires c !in tables && InMemory(m, c) && Zeroed(m, mem[..], c)
      requires LiveTables(pmm.live, WithTable(tables, f, i, c))
      modifies this`tables, mem
      ensures Valid() && tables == old(WithTable(tables, f, i, c))
      ensures Child(mem[..], f, i) == Some(c) && Grown(m, old(tables), mem[..], tables, r0)
    {
      assert TableOk(m, tables, f);
      LinkIn(f, i, c, m, r0);
      tables := WithTable(tables, f, i, c);
    }

    /** Stores the link to a cleared page. */
    method LinkIn(f: Frame, i: nat, c: Frame, ghost m: seq<byte>, ghost r0: Frame)
      requires Tree(m, tables) && f in tables && tables[f].level >= 2 && i < ENTRIES && Child(m, f, i).None?
      requires tables[f].level == 4 ==> f == r0
      requires c !in tables && InMemory(m, c) && InMemory(m, f) && Zeroed(m, mem[..], c) && mem.Length <= TWO_64
      modifies mem
      ensures Child(mem[..], f, i) == Some(c) && Tree(mem[..], WithTable(tables, f, i, c))
      ensures Grown(m, tables, mem[..], WithTable(tables, f, i, c), r0)
    {
      ghost var m1 := mem[..];
      assert c < TWO_64 / PAGE_SIZE;
      MadeEntry(c * PAGE_SIZE, true);
      Store64(mem, EntryAddr(f, i), MakeEntry(c * PAGE_SIZE, true));
      HangIn(m, m1, mem[..], tables, f, i, c);
      HungInTree(m, mem[..], tables, f, i, c);
      HungInGrown(m, mem[..], tables, f, i, c, r0);
    }

    /** One level down the walk for an address, hanging in a table where there was none. */
    method Descend(r0: Frame, virt: nat, level: nat, f: Frame, ghost m0: seq<byte>, ghost t0: Tables)
      returns (r: Outcome<Frame>)
      requires Valid() && 2 <= level <= 4 && IsRoot(t0, r0) && IsRoot(tables, r0)
      requires Grown(m0, t0, mem[..], tables, r0) && TableAt(mem[..], r0, PageOf(virt), level) == Some(f)
      modifies this`tables, pmm, pmm.bitmap, mem
      ensures r.Done? ==>
                && Valid() && IsRoot(tables, r0) && LiveGrew(old(pmm.live), old(tables), pmm.live, tables)
                && Grown(m0, t0, mem[..], tables, r0)
                && TableAt(mem[..], r0, PageOf(virt), level - 1) == r.ToOption()
    {
      ghost var m, t, v := mem[..], tables, PageOf(virt);
      PathInTree(m, t, r0, v, level);
      AddressIndexIsPageIndex(virt, level);
      r := GetPmlAlloc(f, AddressIndex(virt, level), r0);
      if r.Done? {
        GrownTrans(m0, t0, m, t, mem[..], tables, r0);
        KeptPath(m, t, mem[..], r0, v, level);
      }
    }

    /** vmm_map_page. */
    method MapPage(r0: Frame, virt: nat, phys: nat, user: bool) returns (r: Outcome<()>)
      requires Valid() && IsRoot(tables, r0) && phys < TWO_64
      modifies this`tables, pmm, pmm.bitmap, mem
      ensures r.Done? ==>
                && Valid() && LiveGrew(old(pmm.live), old(tables), pmm.live, tables)
                && Framed(old(mem[..]), old(tables), mem[..], tables, r0)
                && Remapped(old(mem[..]), old(tables), mem[..], r0, PageOf(virt), 1, Frames(phys, user))
                && TableAt(mem[..], r0, PageOf(virt), 3).Some?
                && Entered(mem[..], r0, PageOf(virt), phys / 4096, user)
    {
      ghost var m, t := mem[..], tables;
      var pml1 := LeafTable(r0, virt);
      if !pml1.Done? {
        return pml1.Stop();
      }
      MadeMeaning(phys, user);
      WritePage(m, t, r0, virt, pml1.value, MakeEntry(phys, user), Frames(phys, user));
      OnePageEntered(m, t, mem[..], r0, PageOf(virt), phys, user);
      r := Done(());
    }

    /** The last-level table for an address, with the tables above it. */
    method LeafTable(r0: Frame, virt: nat) returns (r: Outcome<Frame>)
      requires Valid() && IsRoot(tables, r0)
      modifies this`tables, pmm, pmm.bitmap, mem
      ensures r.Done? ==>
                && Valid() && IsRoot(tables, r0) && LiveGrew(old(pmm.live), old(tables), pmm.live, tables)
                && Grown(old(mem[..]), old(tables), mem[..], tables, r0)
                && TableAt(mem[..], r0, PageOf(virt), 1) == r.ToOption()
    {
      ghost var m0, t0 := mem[..], tables;
      GrownRefl(m0, t0, r0);
      var pml3 := Descend(r0, virt, 4, r0, m0, t0);
      if !pml3.Done? {
        return pml3;
      }
      var pml2 := Descend(r0, virt, 3, pml3.value, m0, t0);
      if !pml2.Done? {
        return pml2;
      }
      r := Descend(r0, virt, 2, pml2.value, m0, t0);
    }

    /** The last write of a map or an unmap. */
    method WritePage(ghost m0: seq<byte>, ghost t0: Tables, r0: Frame, virt: nat, pml1: Frame, e: nat,
                     ghost what: Meaning)
      requires Valid() && IsRoot(t0, r0) && IsRoot(tables, r0) && Grown(m0, t0, mem[..], tables, r0)
      requires e < TWO_64 && TableAt(mem[..], r0, PageOf(virt), 1) == Some(pml1)
      requires Mapped(e) == MeaningOf(what, 0)
      modifies mem
      ensures Valid() && Framed(m0, t0, mem[..], tables, r0) && Remapped(m0, t0, mem[..], r0, PageOf(virt), 1, what)
      ensures TableAt(mem[..], r0, PageOf(virt), 3).Some? && SamePaths(old(mem[..]), mem[..], tables)
    {
      ghost var m, v := mem[..], PageOf(virt);
      PathInTree(m, tables, r0, v, 1);
      assert TableOk(m, tables, pml1);
      AddressIndexIsPageIndex(virt, 1);
      Store64(mem, EntryAddr(pml1, AddressIndex(virt, 1)), e);
      GrownThenWritten(m0, t0, m, tables, mem[..], r0, v, what, e);
      WrittenPaths(m, mem[..], tables, pml1, Index(v, 1), e);
    }

    /** vmm_map_range: page after page. */
    method MapRange(r0: Frame, virt: Range, phys: Range, user: bool) returns (r: Outcome<()>)
      requires Valid() && IsRoot(tables, r0)
      requires phys.base + phys.length <= TWO_64
      requires PageOf(virt.base) + virt.length / PAGE_SIZE <= VIRTUAL_PAGES
      modifies this`tables, pmm, pmm.bitmap, mem
      ensures phys.length != virt.length ==> r == Halted
      ensures r.Done? ==>
                && Valid() && LiveGrew(old(pmm.live), old(tables), pmm.live, tables)
                && MappedSoFar(old(mem[..]), old(tables), mem[..], tables, r0, PageOf(virt.base),
                               virt.length / PAGE_SIZE,
                               Frames(AlignDown(phys.base), user))
                && RangeSeen(mem[..], r0, AlignDown(virt.base), AlignDown(phys.base), virt.length / 4096 * 4096, user)
                && ElsewhereSame(old(mem[..]), old(tables), mem[..], PageOf(virt.base), virt.length / 4096)
    {
      if phys.length != virt.length {
        return Halted;
      }
      ghost var m, t, v0, what := mem[..], tables, PageOf(virt.base), Frames(AlignDown(phys.base), user);
      MappedNone(m, t, r0, v0, what);
      var i := 0;
      while i < virt.length / PAGE_SIZE
        invariant i <= virt.length / PAGE_SIZE
        invariant Valid() && IsRoot(tables, r0) && LiveGrew(old(pmm.live), t, pmm.live, tables)
        invariant MappedSoFar(m, t, mem[..], tables, r0, v0, i, what)
      {
        var ok := MapNth(r0, virt.base, phys.base, user, i, m, t);
        if !ok.Done? {
          return ok;
        }
        i := i + 1;
      }
      RangeMapped(m, t, mem[..], tables, r0, virt, AlignDown(phys.base), user);
      r := Done(());
    }

    /** The body of that loop. */
    method MapNth(r0: Frame, virt: nat, phys: nat, user: bool, i: nat, ghost m: seq<byte>, ghost t: Tables)
      returns (r: Outcome<()>)
      requires Valid() && IsRoot(t, r0) && IsRoot(tables, r0) && phys + (i + 1) * PAGE_SIZE <= TWO_64
      requires PageOf(virt) + i < VIRTUAL_PAGES
      requires MappedSoFar(m, t, mem[..], tables, r0, PageOf(virt), i, Frames(AlignDown(phys), user))
      modifies this`tables, pmm, pmm.bitmap, mem
      ensures r.Done? ==>
                && Valid() && IsRoot(tables, r0) && LiveGrew(old(pmm.live), old(tables), pmm.live, tables)
                && MappedSoFar(m, t, mem[..], tables, r0, PageOf(virt), i + 1, Frames(AlignDown(phys), user))
    {
      var physaddr, virtaddr := i * PAGE_SIZE + AlignDown(phys), i * PAGE_SIZE + AlignDown(virt);
      ghost var v0, what := PageOf(virt), Frames(AlignDown(phys), user);
      NthAddresses(virt, phys, i, virtaddr, physaddr, v0, what, user);
      r := MapNext(r0, virtaddr, physaddr, user, m, t, v0, i, what);
    }

    /** One page more of a range. */
    method MapNext(r0: Frame, virtaddr: nat, physaddr: nat, user: bool,
                   ghost m: seq<byte>, ghost t: Tables, ghost v0: nat, ghost n: nat, ghost what: Meaning)
      returns (r: Outcome<()>)
      requires Valid() && IsRoot(t, r0) && IsRoot(tables, r0)
      requires physaddr < TWO_64 && PageOf(virtaddr) == v0 + n
      requires what.Frames? && Frames(physaddr, user) == Frames(what.base + n * PAGE_SIZE, what.user)
      requires MappedSoFar(m, t, mem[..], tables, r0, v0, n, what)
      modifies this`tables, pmm, pmm.bitmap, mem
      ensures r.Done? ==>
                && Valid() && IsRoot(tables, r0) && LiveGrew(old(pmm.live), old(tables), pmm.live, tables)
                && MappedSoFar(m, t, mem[..], tables, r0, v0, n + 1, what)
    {
      ghost var m1, t1 := mem[..], tables;
      r := MapPage(r0, virtaddr, physaddr, user);
      if r.Done? {
        MappedOneMore(m, t, m1, t1, mem[..], tables, r0, v0, n, PageOf(virtaddr), what, Frames(physaddr, user));
      }
    }

    /** vmm_get_pml: the table that entry i of table f leads to, if any. */
    method GetPml(f: Frame, i: nat) returns (r: Option<Frame>)
      requires InMemory(mem[..], f) && i < ENTRIES
      ensures r == Child(mem[..], f, i)
    {
      var entry := Read64(mem, EntryAddr(f, i));
      r := if Present(entry) then Some(Target(entry)) else None;
    }

    /** One level down the walk for an address, if there is a table. */
    method StepDown(r0: Frame, virt: nat, level: nat, f: Frame) returns (r: Option<Frame>)
      requires Tree(mem[..], tables) && IsRoot(tables, r0) && 2 <= level <= 4
      requires TableAt(mem[..], r0, PageOf(virt), level) == Some(f)
      ensures r == TableAt(mem[..], r0, PageOf(virt), level - 1)
      ensures r.None? ==> TableAt(mem[..], r0, PageOf(virt), 1).None?
    {
      PathInTree(mem[..], tables, r0, PageOf(virt), level);
      assert TableOk(mem[..], tables, f);
      AddressIndexIsPageIndex(virt, level);
      r := GetPml(f, AddressIndex(virt, level));
    }

    /** vmm_unmap_page: an assertion fails where a table is missing on the way. */
    method UnmapPage(r0: Frame, virt: nat) returns (r: Outcome<()>)
      requires Valid() && IsRoot(tables, r0)
      modifies mem
      ensures Valid()
      ensures r == if TableAt(old(mem[..]), r0, PageOf(virt), 1).Some? then Done(()) else Halted
      ensures Unmapped(old(mem[..]), mem[..], tables, r0, PageOf(virt), if r.Done? then 1 else 0)
    {
      ghost var m, v := mem[..], PageOf(virt);
      UnmappedNone(m, tables, r0, v);
      var pml3 := StepDown(r0, virt, 4, r0);
      if pml3.None? { return Halted; }
      var pml2 := StepDown(r0, virt, 3, pml3.value);
      if pml2.None? { return Halted; }
      var pml1 := StepDown(r0, virt, 2, pml2.value);
      if pml1.None? { return Halted; }
      ClearPage(r0, virt, pml1.value);
      r := Done(());
    }

    /** The write of an unmap. */
    method ClearPage(r0: Frame, virt: nat, pml1: Frame)
      requires Valid() && IsRoot(tables, r0) && TableAt(mem[..], r0, PageOf(virt), 1) == Some(pml1)
      modifies mem
      ensures Valid() && Unmapped(old(mem[..]), mem[..], tables, r0, PageOf(virt), 1)
    {
      GrownRefl(mem[..], tables, r0);
      WritePage(mem[..], tables, r0, virt, pml1, 0, Nothing);
    }

    /** vmm_unmap: it goes through exactly if every page of the range has its tables. */
    method UnmapRange(r0: Frame, virt: Range) returns (r: Outcome<()>)
      requires Valid() && IsRoot(tables, r0)
      requires PageOf(virt.base) + virt.length / PAGE_SIZE <= VIRTUAL_PAGES
      modifies mem
      ensures Valid()
      ensures r.Done? <==> TablesFor(old(mem[..]), r0, PageOf(virt.base), virt.length / PAGE_SIZE)
      ensures !r.Done? ==> r == Halted
      ensures r.Done? ==> Unmapped(old(mem[..]), mem[..], tables, r0, PageOf(virt.base), virt.length / PAGE_SIZE)
      ensures r.Done? ==> RangeFaults(mem[..], r0, AlignDown(virt.base), virt.length / 4096 * 4096)
      ensures r.Done? ==> ElsewhereSame(old(mem[..]), tables, mem[..], PageOf(virt.base), virt.length / 4096)
    {
      ghost var m, v0 := mem[..], PageOf(virt.base);
      UnmappedNone(m, tables, r0, v0);
      var i := 0;
      while i < virt.length / PAGE_SIZE
        invariant i <= virt.length / PAGE_SIZE && Valid()
        invariant Unmapped(m, mem[..], tables, r0, v0, i) && TablesFor(m, r0, v0, i)
      {
        ghost var m1 := mem[..];
        var virtaddr := i * PAGE_SIZE + AlignDown(virt.base);
        NthPage(virt.base, i, virtaddr);
        var ok := UnmapPage(r0, virtaddr);
        OneMoreTable(m, m1, tables, r0, v0, i, PageOf(virtaddr));
        if !ok.Done? {
          return ok;
        }
        UnmappedOneMore(m, m1, mem[..], tables, r0, v0, i, PageOf(virtaddr));
        i := i + 1;
      }
      RangeUnmapped(m, mem[..], tables, r0, virt);
      r := Done(());
    }

    /** vmm_space_create: a new root with the entries of the kernel's from slot 255 on. */
    method SpaceCreate() returns (r: Outcome<Frame>)
      requires Valid()
      modifies this`tables, pmm, pmm.bitmap, mem
      ensures r.Done? ==>
                && Valid() && LiveGrew(old(pmm.live), old(tables), pmm.live, tables)
                && pmm.live == old(pmm.live) + {PageRange(r.value)}
                && Created(old(mem[..]), old(tables), mem[..], tables, kernel, r.value)
                && KernelSeen(old(mem[..]), kernel, mem[..], r.value)
                && ElsewhereSame(old(mem[..]), old(tables), mem[..], 0, 0)
    {
      ghost var m, t, live := mem[..], tables, pmm.live;
      r := AllocPage();
      if r.Done? {
        RootAdded(live, tables, r.value);
        FillRoot(m, r.value);
        CreatedIsSeen(m, t, mem[..], tables, kernel, r.value);
      }
    }

    /** Makes a cleared page the root of a space. */
    method FillRoot(ghost m: seq<byte>, c: Frame)
      requires Valid() && Tree(m, tables) && c !in tables && InMemory(m, c) && Zeroed(m, mem[..], c)
      requires LiveTables(pmm.live, tables[c := Table(4, Top)])
      modifies this`tables, mem
      ensures Valid() && tables == old(tables)[c := Table(4, Top)]
      ensures Created(m, old(tables), mem[..], tables, kernel, c)
    {
      ghost var t := tables;
      ZeroedRoot(m, mem[..], t, kernel, c);
      CopySlots(m, t, c);
      CopiedTree(m, t, mem[..], kernel, c);
      CopiedCreates(m, t, mem[..], kernel, c);
      tables := t[c := Table(4, Top)];
    }

    /** The loop over the shared slots. */
    method CopySlots(ghost m: seq<byte>, ghost t: Tables, c: Frame)
      requires |m| == mem.Length && c !in t && kernel in t
      requires RootCopied(m, mem[..], t, kernel, c, FIRST_SHARED) && Untouched(m, mem[..], t[c := Table(4, Top)])
      modifies mem
      ensures RootCopied(m, mem[..], t, kernel, c, ENTRIES) && Untouched(m, mem[..], t[c := Table(4, Top)])
    {
      var i := FIRST_SHARED;
      while i < ENTRIES
        invariant FIRST_SHARED <= i <= ENTRIES && mem.Length == |m|
        invariant RootCopied(m, mem[..], t, kernel, c, i)
        invariant Untouched(m, mem[..], t[c := Table(4, Top)])
      {
        CopyRootEntry(m, t, c, i);
        i := i + 1;
      }
    }

    /** pml_table->entries[i] = kernel_pml4->entries[i]. */
    method CopyRootEntry(ghost m: seq<byte>, ghost t: Tables, c: Frame, i: nat)
      requires |m| == mem.Length && FIRST_SHARED <= i < ENTRIES && c !in t && kernel in t
      requires RootCopied(m, mem[..], t, kernel, c, i) && Untouched(m, mem[..], t[c := Table(4, Top)])
      modifies mem
      ensures RootCopied(m, mem[..], t, kernel, c, i + 1) && Untouched(m, mem[..], t[c := Table(4, Top)])
    {
      ghost var m1, t1 := mem[..], t[c := Table(4, Top)];
      var e := Read64(mem, EntryAddr(kernel, i));
      LoadBound(m1, EntryAddr(kernel, i));
      Store64(mem, EntryAddr(c, i), e);
      StoredEntry(m1, mem[..], t1, c, i, e);
      ghost var m2 := mem[..];
      forall j | 0 <= j < ENTRIES
        ensures Entry(m2, c, j) == if FIRST_SHARED <= j < i + 1 then Entry(m, kernel, j) else 0
      {
        if j != i { assert c in t1 && Entry(m2, c, j) == Entry(m1, c, j); }
      }
      forall g, j | g in t && 0 <= j < ENTRIES && InMemory(m, g)
        ensures Entry(m2, g, j) == Entry(m, g, j)
      {
        assert g in t1 && g != c;
      }
    }

    /** vmm_space_destroy: the root is cleared and its page freed; the tables below are not. */
    method SpaceDestroy(space: Frame)
      requires Valid() && IsRoot(tables, space) && space != kernel
      modifies this`tables, pmm, pmm.bitmap, mem
      ensures Valid() && pmm.live == old(pmm.live) - {PageRange(space)}
      ensures Destroyed(old(mem[..]), old(tables), mem[..], tables, space)
    {
      ghost var m, t, t1 := mem[..], tables, tables - {space};
      OtherRoots(t, space, kernel);
      ClearRoot(space);
      ghost var m1 := mem[..];
      FreeRoot(space);
      assert mem[..] == m1 && tables == t1;
    }

    method ClearRoot(space: Frame)
      requires Tree(mem[..], tables) && IsRoot(tables, space)
      modifies mem
      ensures Tree(mem[..], tables - {space})
      ensures Destroyed(old(mem[..]), tables, mem[..], tables - {space}, space)
    {
      ghost var m := mem[..];
      assert TableOk(m, tables, space);
      Memset(mem, space * PAGE_SIZE, 0, PAGE_SIZE);
      ZeroedDestroys(m, tables, mem[..], space);
    }

    method FreeRoot(space: Frame)
      requires pmm.Valid() && TablesLive() && space in tables
      modifies this`tables, pmm, pmm.bitmap
      ensures pmm.Valid() && TablesLive() && tables == old(tables) - {space}
      ensures pmm.live == old(pmm.live) - {PageRange(space)}
    {
      Pmm.LiveInBitmap(pmm.live, pmm.Clear(), pmm.avail, PageRange(space), 8 * pmm.bitmap.Length);
      pmm.Free(PageRange(space));
      OtherPages(tables, space);
      tables := tables - {space};
    }
  }

  lemma OtherRoots(t: Tables, c: Frame, r: Frame)
    requires IsRoot(t, r) && r != c
    ensures IsRoot(t - {c}, r)
  {
  }

  lemma OtherPages(tables: Tables, c: Frame)
    ensures forall f :: f in tables && f != c ==> PageRange(f) != PageRange(c)
  {
  }

  function PageRange(f: Frame): Range {
    Range(f * PAGE_SIZE, PAGE_SIZE)
  }

  lemma ZeroedRoot(m: seq<byte>, m': seq<byte>, t: Tables, kernel: Frame, c: Frame)
    requires Tree(m, t) && IsRoot(t, kernel) && Zeroed(m, m', c) && InMemory(m, c) && c !in t
    ensures RootCopied(m, m', t, kernel, c, FIRST_SHARED) && Untouched(m, m', t[c := Table(4, Top)])
  {
    assert TableOk(m, t, kernel);
    ZeroedFrame(m, m', t, c);
  }

  ghost predicate LiveTables(live: set<Range>, tables: Tables) {
    forall f :: f in tables ==> PageRange(f) in live
  }

  lemma TableAdded(live: set<Range>, tables: Tables, f: Frame, i: nat, c: Frame)
    requires LiveTables(live, tables) && f in tables && tables[f].level >= 2 && PageRange(c) !in live
    ensures LiveTables(live + {PageRange(c)}, WithTable(tables, f, i, c))
    ensures LiveGrew(live, tables, live + {PageRange(c)}, WithTable(tables, f, i, c))
  {
  }

  lemma RootAdded(live: set<Range>, tables: Tables, c: Frame)
    requires LiveTables(live, tables) && PageRange(c) !in live
    ensures LiveTables(live + {PageRange(c)}, tables[c := Table(4, Top)])
    ensures LiveGrew(live, tables, live + {PageRange(c)}, tables[c := Table(4, Top)])
  {
  }

  /** Live ranges stayed live, and the new tables are on pages that were not. */
  ghost predicate LiveGrew(live: set<Range>, tables: Tables, live': set<Range>, tables': Tables) {
    live <= live' && forall f :: f in tables' && f !in tables ==> PageRange(f) !in live
  }

  /** Page v has an entry that leads to the frame, present and writable, for user code as said. */
  ghost predicate Entered(m: seq<byte>, r0: Frame, v: nat, frame: Frame, user: bool) {
    Walk(m, r0, v).Some? && LeadsTo(Walk(m, r0, v).value, frame, user)
  }

  lemma OnePageEntered(m: seq<byte>, t: Tables, m': seq<byte>, r0: Frame, v: nat, phys: nat, user: bool)
    requires IsRoot(t, r0) && v < VIRTUAL_PAGES && TableAt(m', r0, v, 3).Some?
    requires Remapped(m, t, m', r0, v, 1, Frames(phys, user))
    ensures Entered(m', r0, v, phys / 4096, user)
  {
    assert RemappedAt(m, m', r0, v, 1, Frames(phys, user), r0, v);
    MadeEntry(phys, user);
  }

  lemma RangeMapped(m: seq<byte>, t: Tables, m': seq<byte>, t': Tables, r0: Frame, virt: Range, base: nat, user: bool)
    requires Tree(m, t) && Tree(m', t') && IsRoot(t, r0) && base % 4096 == 0
    requires PageOf(virt.base) + virt.length / PAGE_SIZE <= VIRTUAL_PAGES
    requires MappedSoFar(m, t, m', t', r0, PageOf(virt.base), virt.length / PAGE_SIZE, Frames(base, user))
    ensures RangeSeen(m', r0, AlignDown(virt.base), base, virt.length / 4096 * 4096, user)
    ensures ElsewhereSame(m, t, m', PageOf(virt.base), virt.length / 4096)
  {
    MappedIsSeen(m, t, m', t', r0, virt.base, base, virt.length / 4096, user);
    OffRangeSame(m, t, m', t', r0, PageOf(virt.base), virt.length / 4096, Frames(base, user));
  }

  lemma RangeUnmapped(m: seq<byte>, m': seq<byte>, t: Tables, r0: Frame, virt: Range)
    requires Tree(m, t) && Tree(m', t) && IsRoot(t, r0)
    requires PageOf(virt.base) + virt.length / PAGE_SIZE <= VIRTUAL_PAGES
    requires Unmapped(m, m', t, r0, PageOf(virt.base), virt.length / PAGE_SIZE)
    ensures RangeFaults(m', r0, AlignDown(virt.base), virt.length / 4096 * 4096)
    ensures ElsewhereSame(m, t, m', PageOf(virt.base), virt.length / 4096)
  {
    UnmappedIsFault(m, t, m', r0, virt.base, virt.length / 4096);
    OffRangeSame(m, t, m', t, r0, PageOf(virt.base), virt.length / 4096, Nothing);
  }

  lemma MadeMeaning(phys: nat, user: bool)
    requires phys < TWO_64
    ensures MakeEntry(phys, user) < TWO_64 && Mapped(MakeEntry(phys, user)) == MeaningOf(Frames(phys, user), 0)
  {
    MadeEntry(phys, user);
  }

  /** A page asked for is one page. */
  lemma OnePage(range: Range, clear: set<nat>)
    requires Pmm.Handed(range, PAGE_SIZE, clear)
    ensures range == PageRange(range.base / PAGE_SIZE) && range.base / PAGE_SIZE in clear
  {
  }

  lemma TableIsUsed(live: set<Range>, clear: set<nat>, avail: set<nat>, f: Frame)
    requires Pmm.LiveOk(live, clear, avail) && PageRange(f) in live
    ensures f !in clear
  {
    Pmm.LiveFacts(live, clear, avail);
    assert f in PagesOf(PageRange(f));
    assert f in Pmm.LivePages(live);
  }

  /** A free page is not a table. */
  lemma FreeIsNotTable(live: set<Range>, clear: set<nat>, avail: set<nat>, tables: Tables, c: Frame)
    requires Pmm.LiveOk(live, clear, avail) && c in clear
    requires LiveTables(live, tables)
    ensures c !in tables && c in avail && PageRange(c) !in live
  {
    Pmm.LiveFacts(live, clear, avail);
  }

  /** Clearing a free frame and storing a link to it hangs in an empty table. */
  lemma HangIn(m: seq<byte>, m1: seq<byte>, m2: seq<byte>, tables: Tables, f: Frame, i: nat, c: Frame)
    requires Tree(m, tables) && f in tables && tables[f].level >= 2 && i < ENTRIES && Child(m, f, i).None?
    requires c !in tables && InMemory(m, c) && c < TWO_64 / PAGE_SIZE
    requires Zeroed(m, m1, c) && MakeEntry(c * PAGE_SIZE, true) < TWO_64
    requires InMemory(m, f) && Stored64(m1, m2, EntryAddr(f, i), MakeEntry(c * PAGE_SIZE, true))
    ensures HungIn(m, m2, tables, f, i, c)
    ensures Untouched(m, m2, WithTable(tables, f, i, c))
  {
    var e := MakeEntry(c * PAGE_SIZE, true);
    assert TableOk(m, tables, f);
    ZeroedFrame(m, m1, tables, c);
    var tables' := WithTable(tables, f, i, c);
    StoredEntry(m1, m2, tables', f, i, e);
    MadeEntry(c * PAGE_SIZE, true);
    assert f != c;
    forall j | 0 <= j < ENTRIES
      ensures Entry(m2, c, j) == 0
    {
      assert c in tables' && Entry(m2, c, j) == Entry(m1, c, j);
    }
    assert SameBut(m, m2, tables, f, i);
  }

  /** The tables a walk passed through before the tables grew it passes through afterwards. */
  lemma {:induction false} KeptPath(m: seq<byte>, t: Tables, m': seq<byte>, r0: Frame, v: nat, level: nat)
    requires Tree(m, t) && IsRoot(t, r0) && KeptEntries(m, t, m', r0) && 1 <= level <= 4
    requires TableAt(m, r0, v, level).Some?
    ensures TableAt(m', r0, v, level) == TableAt(m, r0, v, level)
    decreases 4 - level
  {
    if level < 4 {
      PathAbove(m, r0, v, level);
      KeptPath(m, t, m', r0, v, level + 1);
      PathInTree(m, t, r0, v, level + 1);
      KeptBelow(m, t, m', r0, TableAt(m, r0, v, level + 1), Index(v, level + 1));
    }
  }

  lemma PathAbove(m: seq<byte>, r: Frame, v: nat, level: nat)
    requires 1 <= level < 4 && TableAt(m, r, v, level).Some?
    ensures TableAt(m, r, v, level + 1).Some? && Below(m, TableAt(m, r, v, level + 1), Index(v, level + 1)).Some?
  {
  }

  lemma KeptBelow(m: seq<byte>, t: Tables, m': seq<byte>, r0: Frame, at: Option<Frame>, j: nat)
    requires KeptEntries(m, t, m', r0) && j < ENTRIES && Below(m, at, j).Some?
    requires at.Some? ==> at.value in t && t[at.value].level >= 2
    ensures Below(m', at, j) == Below(m, at, j)
  {
    assert KeptEntry(m, t, m', at.value, j, r0);
  }

  /** The first n pages of a range are mapped. */
  ghost predicate MappedSoFar(m: seq<byte>, t: Tables, m': seq<byte>, t': Tables, r0: Frame, v0: nat, n: nat,
                              what: Meaning) {
    Framed(m, t, m', t', r0) && Remapped(m, t, m', r0, v0, n, what) && SlotsThere(m', r0, v0, n)
  }

  lemma MappedNone(m: seq<byte>, t: Tables, r0: Frame, v0: nat, what: Meaning)
    ensures MappedSoFar(m, t, m, t, r0, v0, 0, what)
  {
  }

  lemma NthPage(base: nat, i: nat, a: nat)
    requires PageOf(base) + i < VIRTUAL_PAGES && a == i * PAGE_SIZE + AlignDown(base)
    ensures PageOf(a) == PageOf(base) + i
  {
  }

  /** The addresses that the loop computes for page i of a range. */
  lemma NthAddresses(virt: nat, phys: nat, i: nat, virtaddr: nat, physaddr: nat, v0: nat, what: Meaning, user: bool)
    requires virtaddr == i * PAGE_SIZE + AlignDown(virt) && physaddr == i * PAGE_SIZE + AlignDown(phys)
    requires v0 == PageOf(virt) && v0 + i < VIRTUAL_PAGES && phys + (i + 1) * PAGE_SIZE <= TWO_64
    requires what == Frames(AlignDown(phys), user)
    ensures physaddr < TWO_64 && PageOf(virtaddr) == v0 + i
    ensures what.Frames? && Frames(physaddr, user) == Frames(what.base + i * PAGE_SIZE, what.user)
  {
  }

  lemma MappedOneMore(m: seq<byte>, t: Tables, m1: seq<byte>, t1: Tables, m2: seq<byte>, t2: Tables, r0: Frame,
                      v0: nat, n: nat, w: nat, what: Meaning, next: Meaning)
    requires IsRoot(t, r0) && w == v0 + n < VIRTUAL_PAGES
    requires MappedSoFar(m, t, m1, t1, r0, v0, n, what)
    requires Framed(m1, t1, m2, t2, r0) && Remapped(m1, t1, m2, r0, w, 1, next)
    requires what.Frames? && next == Frames(what.base + n * PAGE_SIZE, what.user)
    requires TableAt(m2, r0, w, 3).Some?
    ensures MappedSoFar(m, t, m2, t2, r0, v0, n + 1, what)
  {
    FramedTrans(m, t, m1, t1, m2, t2, r0);
    RemappedStep(m, t, m1, t1, m2, r0, v0, n, w, what, next);
    forall k: nat | v0 <= k < v0 + n + 1
      ensures TableAt(m2, r0, k, 3).Some?
    {
      if k < v0 + n {
        assert IsRoot(t1, r0);
        SharingKept(m1, t1, m2, r0, r0, k);
      }
    }
  }

  // ---------- unmapping ----------

  ghost predicate TablesFor(m: seq<byte>, r0: Frame, v0: nat, n: nat) {
    forall k: nat :: v0 <= k < v0 + n ==> TableAt(m, r0, k, 1).Some?
  }

  ghost predicate SamePaths(m: seq<byte>, m': seq<byte>, tables: Tables) {
    forall r: Frame, v: nat, level: nat :: IsRoot(tables, r) && 1 <= level <= 4 ==>
      TableAt(m', r, v, level) == TableAt(m, r, v, level)
  }

  /** n pages mean nothing any more in r0 and the spaces that share their slots; nothing else
      changed, and no table came or went. */
  ghost predicate Unmapped(m: seq<byte>, m': seq<byte>, tables: Tables, r0: Frame, v0: nat, n: nat) {
    Framed(m, tables, m', tables, r0) && Remapped(m, tables, m', r0, v0, n, Nothing) && SamePaths(m, m', tables)
  }

  lemma LeafPaths(m: seq<byte>, m': seq<byte>, tables: Tables, f: Frame, i: nat)
    requires Tree(m, tables) && f in tables && tables[f].level == 1 && i < ENTRIES && SameBut(m, m', tables, f, i)
    ensures SamePaths(m, m', tables)
  {
    forall r: Frame, v: nat, level: nat | IsRoot(tables, r) && 1 <= level <= 4
      ensures TableAt(m', r, v, level) == TableAt(m, r, v, level)
    {
      LeafPath(m, m', tables, f, i, r, v, level);
    }
  }

  lemma WrittenPaths(m: seq<byte>, m': seq<byte>, tables: Tables, f: Frame, i: nat, e: nat)
    requires Tree(m, tables) && f in tables && tables[f].level == 1 && InMemory(m, f) && i < ENTRIES && e < TWO_64
    requires Stored64(m, m', EntryAddr(f, i), e)
    ensures SamePaths(m, m', tables)
  {
    StoredEntry(m, m', tables, f, i, e);
    LeafPaths(m, m', tables, f, i);
  }

  lemma UnmappedNone(m: seq<byte>, tables: Tables, r0: Frame, v0: nat)
    ensures Unmapped(m, m, tables, r0, v0, 0)
  {
  }

  lemma OneMoreTable(m: seq<byte>, m1: seq<byte>, tables: Tables, r0: Frame, v0: nat, n: nat, w: nat)
    requires SamePaths(m, m1, tables) && IsRoot(tables, r0) && w == v0 + n && TablesFor(m, r0, v0, n)
    ensures TableAt(m1, r0, w, 1) == TableAt(m, r0, w, 1)
    ensures TableAt(m1, r0, w, 1).Some? <==> TablesFor(m, r0, v0, n + 1)
    ensures TableAt(m1, r0, w, 1).None? ==> forall k :: k > n ==> !TablesFor(m, r0, v0, k)
  {
  }

  lemma UnmappedOneMore(m: seq<byte>, m1: seq<byte>, m2: seq<byte>, tables: Tables, r0: Frame, v0: nat, n: nat, w: nat)
    requires IsRoot(tables, r0) && w == v0 + n < VIRTUAL_PAGES
    requires Unmapped(m, m1, tables, r0, v0, n) && Unmapped(m1, m2, tables, r0, w, 1)
    requires TablesFor(m, r0, v0, n)
    ensures Unmapped(m, m2, tables, r0, v0, n + 1)
  {
    FramedTrans(m, tables, m1, tables, m2, tables, r0);
    forall k: nat | v0 <= k < v0 + n
      ensures TableAt(m1, r0, k, 3).Some?
    {
      assert TableAt(m, r0, k, 1).Some?;
      assert TableAt(m1, r0, k, 3) == TableAt(m, r0, k, 3);
    }
    RemappedStep(m, tables, m1, tables, m2, r0, v0, n, w, Nothing, Nothing);
    forall r: Frame, v: nat, level: nat | IsRoot(tables, r) && 1 <= level <= 4
      ensures TableAt(m2, r, v, level) == TableAt(m, r, v, level)
    {
      assert TableAt(m1, r, v, level) == TableAt(m, r, v, level);
    }
  }
}
