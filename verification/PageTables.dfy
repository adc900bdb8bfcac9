/** The four-level page tables in physical memory, and what they mean: for every address space
    a partial map from virtual pages to entries. */
module PageTables {
  import opened Memory
  import opened Pages
  import opened Words

  type Frame = nat

  const ENTRIES: nat := 512
  const FIRST_SHARED: nat := 255    // slots of the root copied from the kernel's
  const VIRTUAL_PAGES: nat := 0x10_0000_0000

  // ---------- vmm.h: indices and entries ----------

  /** The index that virtual page v has in its table of the given level. */
  function Index(v: nat, level: nat): (r: nat)
    requires 1 <= level <= 4
    ensures r < ENTRIES
  {
    match level
    case 1 => v % 0x200
    case 2 => v / 0x200 % 0x200
    case 3 => v / 0x4_0000 % 0x200
    case _ => v / 0x800_0000 % 0x200
  }

  /** PMLX_GET_INDEX on an address picks the index of its page. */
  function AddressIndex(addr: nat, level: nat): (r: nat)
    requires 1 <= level <= 4
  {
    match level
    case 1 => addr / 0x1000 % 0x200
    case 2 => addr / 0x20_0000 % 0x200
    case 3 => addr / 0x4000_0000 % 0x200
    case _ => addr / 0x80_0000_0000 % 0x200
  }

  /** The virtual page of an address: 36 bits above the offset. */
  function PageOf(addr: nat): (r: nat)
    ensures r < VIRTUAL_PAGES
  {
    addr / PAGE_SIZE % VIRTUAL_PAGES
  }

  lemma AddressIndexIsPageIndex(addr: nat, level: nat)
    requires 1 <= level <= 4
    ensures AddressIndex(addr, level) == Index(PageOf(addr), level)
  {
    var n := addr / 0x1000;
    assert addr / 0x20_0000 == n / 0x200 && addr / 0x4000_0000 == n / 0x4_0000
           && addr / 0x80_0000_0000 == n / 0x800_0000;
    DropHighPart(n / VIRTUAL_PAGES, PageOf(addr), level);
  }

  lemma DropHighPart(hi: nat, w: nat, level: nat)
    requires 1 <= level <= 4
    ensures Index(hi * VIRTUAL_PAGES + w, level) == Index(w, level)
  {
    match level
    case 1 => DropMultiple(hi * 0x800_0000, w);
    case 2 =>
      assert (hi * 0x10_0000_0000 + w) / 0x200 == hi * 0x800_0000 + w / 0x200;
      DropMultiple(hi * 0x4_0000, w / 0x200);
    case 3 =>
      assert (hi * 0x10_0000_0000 + w) / 0x4_0000 == hi * 0x4_0000 + w / 0x4_0000;
      DropMultiple(hi * 0x200, w / 0x4_0000);
    case _ =>
      assert (hi * 0x10_0000_0000 + w) / 0x800_0000 == hi * 0x200 + w / 0x800_0000;
      DropMultiple(hi, w / 0x800_0000);
  }

  lemma DropMultiple(k: nat, w: nat)
    ensures (k * 0x200 + w) % 0x200 == w % 0x200
  {
  }

  /** The four indices determine the page. */
  lemma IndicesDetermine(v: nat, w: nat)
    requires v < VIRTUAL_PAGES && w < VIRTUAL_PAGES
    requires Index(v, 1) == Index(w, 1) && Index(v, 2) == Index(w, 2)
    requires Index(v, 3) == Index(w, 3) && Index(v, 4) == Index(w, 4)
    ensures v == w
  {
    FromIndices(v);
    FromIndices(w);
  }

  lemma FromIndices(v: nat)
    requires v < VIRTUAL_PAGES
    ensures v == Index(v, 4) * 0x800_0000 + Index(v, 3) * 0x4_0000 + Index(v, 2) * 0x200 + Index(v, 1)
  {
    assert v / 0x200 / 0x200 == v / 0x4_0000;
    assert v / 0x4_0000 / 0x200 == v / 0x800_0000;
  }

  predicate Present(e: nat) {
    e % 2 == 1
  }

  /** The frame an entry points to: its bits from 12 on. */
  function Target(e: nat): Frame {
    e / PAGE_SIZE
  }

  function Link(e: nat): Option<Frame> {
    if Present(e) then Some(Target(e)) else None
  }

  /** pml_make_entry: present, writable, and for user code if asked. */
  function MakeEntry(phys: nat, user: bool): nat {
    phys / PAGE_SIZE * PAGE_SIZE + (if user then 7 else 3)
  }

  /** The entry e leads to a frame with the given rights: bit 0 is present, bit 1 writable, bit 2
      user; bits 3 to 11 are clear, and the frame is in the bits above. */
  predicate LeadsTo(e: nat, frame: Frame, user: bool) {
    e % 2 == 1 && e / 2 % 2 == 1 && (e / 4 % 2 == 1 <==> user) && e / 8 % 512 == 0 && e / 4096 == frame
  }

  lemma MadeEntry(phys: nat, user: bool)
    ensures Present(MakeEntry(phys, user)) && Target(MakeEntry(phys, user)) == phys / PAGE_SIZE
    ensures LeadsTo(MakeEntry(phys, user), phys / PAGE_SIZE, user)
    ensures phys < TWO_64 ==> MakeEntry(phys, user) < TWO_64
  {
    var e, frame, low := MakeEntry(phys, user), phys / PAGE_SIZE, if user then 7 else 3;
    LowBits(e, frame, low);
    if phys < TWO_64 { EntryFits(phys, frame, e, low); }
  }

  /** The bits of an entry with a low part below 8. */
  lemma LowBits(e: nat, frame: nat, low: nat)
    requires e == frame * PAGE_SIZE + low && low < 8
    ensures e / 4096 == frame && e / 8 % 512 == 0
    ensures e % 2 == low % 2 && e / 2 % 2 == low / 2 % 2 && e / 4 % 2 == low / 4
  {
    Eighth(e, frame, low);
    Halved(e, frame * 2048, low);
    Halved(e / 2, frame * 1024, low / 2);
    Halved(e / 4, frame * 512, low / 4);
  }

  lemma Eighth(e: nat, frame: nat, low: nat)
    requires e == frame * PAGE_SIZE + low && low < 8
    ensures e / 4096 == frame && e / 8 % 512 == 0
  {
    assert e / 8 == frame * 512;
  }

  lemma Halved(e: nat, n: nat, low: nat)
    requires e == 2 * n + low
    ensures e / 2 == n + low / 2 && e % 2 == low % 2
  {
  }

  lemma EntryFits(phys: nat, frame: nat, e: nat, low: nat)
    requires frame == phys / PAGE_SIZE && e == frame * PAGE_SIZE + low && low < 8 && phys < TWO_64
    ensures e < TWO_64
  {
  }

  // ---------- tables in memory ----------

  function EntryAddr(f: Frame, i: nat): nat {
    f * PAGE_SIZE + i * 8
  }

  predicate InMemory(m: seq<byte>, f: Frame) {
    (f + 1) * PAGE_SIZE <= |m|
  }

  function Entry(m: seq<byte>, f: Frame, i: nat): nat
    requires InMemory(m, f) && i < ENTRIES
  {
    Load64(m, EntryAddr(f, i))
  }

  /** The table that entry i of table f leads to. */
  function Child(m: seq<byte>, f: Frame, i: nat): Option<Frame>
    requires i < ENTRIES
  {
    if InMemory(m, f) then Link(Entry(m, f, i)) else None
  }

  /** The table of the given level that the walk for page v from a root passes through. */
  function TableAt(m: seq<byte>, root: Frame, v: nat, level: nat): Option<Frame>
    requires 1 <= level <= 4
    decreases 4 - level
  {
    if level == 4 then Some(root)
    else Below(m, TableAt(m, root, v, level + 1), Index(v, level + 1))
  }

  /** One level further down a walk. */
  function Below(m: seq<byte>, at: Option<Frame>, i: nat): Option<Frame>
    requires i < ENTRIES
  {
    match at
    case None => None
    case Some(f) => Child(m, f, i)
  }

  /** What the address space of a root maps page v to. */
  function Walk(m: seq<byte>, root: Frame, v: nat): Option<nat> {
    match TableAt(m, root, v, 1)
    case None => None
    case Some(f) =>
      if InMemory(m, f) && Present(Entry(m, f, Index(v, 1))) then Some(Entry(m, f, Index(v, 1))) else None
  }

  // ---------- the tree ----------

  /** Where a table is hung in: nowhere, in a root slot that roots may share, or in one entry
      of one table. */
  datatype Slot = Top | Shared(index: nat) | Under(parent: Frame, index: nat)

  datatype Table = Table(level: nat, slot: Slot)

  type Tables = map<Frame, Table>

  function SlotOf(tables: Tables, f: Frame, i: nat): Slot
    requires f in tables
  {
    if tables[f].level == 4 && i >= FIRST_SHARED then Shared(i) else Under(f, i)
  }

  /** Entry i of table f, if it is present, leads to a table that is hung in there, and lets
      user code through. */
  ghost predicate LinkOk(m: seq<byte>, tables: Tables, f: Frame, i: nat)
    requires f in tables && i < ENTRIES
  {
    tables[f].level >= 2 && Child(m, f, i).Some? ==>
      var c := Child(m, f, i).value;
      c in tables && tables[c] == Table(tables[f].level - 1, SlotOf(tables, f, i)) && Opens(m, f, i, c)
  }

  ghost predicate Opens(m: seq<byte>, f: Frame, i: nat, c: Frame)
    requires i < ENTRIES
  {
    InMemory(m, f) && LeadsTo(Entry(m, f, i), c, true)
  }

  ghost predicate TableOk(m: seq<byte>, tables: Tables, f: Frame)
    requires f in tables
  {
    && InMemory(m, f)
    && 1 <= tables[f].level <= 4
    && (tables[f].level == 4 <==> tables[f].slot.Top?)
    && forall i :: 0 <= i < ENTRIES ==> LinkOk(m, tables, f, i)
  }

  ghost predicate Tree(m: seq<byte>, tables: Tables) {
    forall f :: f in tables ==> TableOk(m, tables, f)
  }

  ghost predicate IsRoot(tables: Tables, r: Frame) {
    r in tables && tables[r].level == 4
  }

  /** The walk from a root passes through listed tables of the right levels. */
  lemma {:induction false} PathInTree(m: seq<byte>, tables: Tables, r: Frame, v: nat, level: nat)
    requires Tree(m, tables) && IsRoot(tables, r) && 1 <= level <= 4
    ensures TableAt(m, r, v, level).Some? ==>
              var f := TableAt(m, r, v, level).value;
              f in tables && tables[f].level == level
    decreases 4 - level
  {
    if level < 4 {
      PathInTree(m, tables, r, v, level + 1);
      if TableAt(m, r, v, level + 1).Some? {
        var g := TableAt(m, r, v, level + 1).value;
        assert TableOk(m, tables, g) && LinkOk(m, tables, g, Index(v, level + 1));
      }
    }
  }

  /** Walks that meet in a table came there through the same indices, through the same table of
      level 3, and below the shared slots from the same root. */
  lemma {:induction false} PathsMeet(m: seq<byte>, tables: Tables, r: Frame, v: nat, r': Frame, v': nat, level: nat)
    requires Tree(m, tables) && IsRoot(tables, r) && IsRoot(tables, r') && 1 <= level <= 3
    requires TableAt(m, r, v, level).Some? && TableAt(m, r, v, level) == TableAt(m, r', v', level)
    ensures forall l :: level < l <= 4 ==> Index(v, l) == Index(v', l)
    ensures TableAt(m, r, v, 3) == TableAt(m, r', v', 3)
    ensures Index(v, 4) < FIRST_SHARED ==> r == r'
    decreases 4 - level
  {
    var g, g' := TableAt(m, r, v, level + 1).value, TableAt(m, r', v', level + 1).value;
    PathInTree(m, tables, r, v, level + 1);
    PathInTree(m, tables, r', v', level + 1);
    assert TableOk(m, tables, g) && LinkOk(m, tables, g, Index(v, level + 1));
    assert TableOk(m, tables, g') && LinkOk(m, tables, g', Index(v', level + 1));
    if level < 3 {
      PathsMeet(m, tables, r, v, r', v', level + 1);
    }
  }

  // ---------- which writes change which walks ----------

  /** All entries of the given tables are the same in m and m', except maybe entry i of f. */
  ghost predicate SameBut(m: seq<byte>, m': seq<byte>, tables: Tables, f: Frame, i: nat) {
    && |m'| == |m|
    && forall g, j :: g in tables && 0 <= j < ENTRIES && InMemory(m, g) && (g != f || j != i) ==>
         Entry(m', g, j) == Entry(m, g, j)
  }

  ghost predicate SameTables(m: seq<byte>, m': seq<byte>, tables: Tables) {
    && |m'| == |m|
    && forall g, j :: g in tables && 0 <= j < ENTRIES && InMemory(m, g) ==> Entry(m', g, j) == Entry(m, g, j)
  }

  lemma ChildSame(m: seq<byte>, m': seq<byte>, tables: Tables, f: Frame, i: nat, g: Frame, j: nat)
    requires SameBut(m, m', tables, f, i) && Tree(m, tables) && g in tables && j < ENTRIES
    ensures InMemory(m, g) && InMemory(m', g)
    ensures g != f || j != i ==> Entry(m', g, j) == Entry(m, g, j) && Child(m', g, j) == Child(m, g, j)
  {
  }

  /** Memory that agrees on the tables agrees on every walk. */
  lemma {:induction false} SamePath(m: seq<byte>, m': seq<byte>, tables: Tables, r: Frame, v: nat, level: nat)
    requires Tree(m, tables) && SameTables(m, m', tables) && IsRoot(tables, r) && 1 <= level <= 4
    ensures TableAt(m', r, v, level) == TableAt(m, r, v, level)
    decreases 4 - level
  {
    if level < 4 {
      SamePath(m, m', tables, r, v, level + 1);
      PathInTree(m, tables, r, v, level + 1);
      if TableAt(m, r, v, level + 1).Some? {
        SameChild(m, m', tables, TableAt(m, r, v, level + 1).value, Index(v, level + 1));
      }
    }
  }

  lemma SameChild(m: seq<byte>, m': seq<byte>, tables: Tables, g: Frame, j: nat)
    requires Tree(m, tables) && SameTables(m, m', tables) && g in tables && j < ENTRIES
    ensures Child(m', g, j) == Child(m, g, j)
  {
    assert TableOk(m, tables, g);
    assert InMemory(m, g) ==> Entry(m', g, j) == Entry(m, g, j);
  }

  lemma SameTablesTree(m: seq<byte>, m': seq<byte>, tables: Tables)
    requires Tree(m, tables) && SameTables(m, m', tables)
    ensures Tree(m', tables)
  {
    forall f | f in tables
      ensures TableOk(m', tables, f)
    {
      assert TableOk(m, tables, f);
      forall i | 0 <= i < ENTRIES
        ensures LinkOk(m', tables, f, i)
      {
        assert LinkOk(m, tables, f, i);
      }
    }
  }

  lemma SameWalk(m: seq<byte>, m': seq<byte>, tables: Tables, r: Frame, v: nat)
    requires Tree(m, tables) && SameTables(m, m', tables) && IsRoot(tables, r)
    ensures Walk(m', r, v) == Walk(m, r, v)
  {
    SamePath(m, m', tables, r, v, 1);
    PathInTree(m, tables, r, v, 1);
  }

  /** Outside the frames of the tables nothing changed. */
  ghost predicate Untouched(m: seq<byte>, m': seq<byte>, tables: Tables) {
    |m'| == |m| && forall a :: 0 <= a < |m| && a / PAGE_SIZE !in tables ==> m'[a] == m[a]
  }

  /** Storing an entry changes that entry and nothing outside its table. */
  lemma StoredEntry(m: seq<byte>, m': seq<byte>, tables: Tables, f: Frame, i: nat, x: nat)
    requires f in tables && InMemory(m, f) && i < ENTRIES && x < TWO_64
    requires Stored64(m, m', EntryAddr(f, i), x)
    ensures SameBut(m, m', tables, f, i) && Entry(m', f, i) == x
    ensures Untouched(m, m', tables)
  {
    forall g, j | g in tables && 0 <= j < ENTRIES && InMemory(m, g)
      ensures Entry(m', g, j) == if g == f && j == i then x else Entry(m, g, j)
    {
      LoadStored(m, m', EntryAddr(f, i), x, EntryAddr(g, j));
    }
    forall a | 0 <= a < |m| && a / PAGE_SIZE !in tables
      ensures m'[a] == m[a]
    {
      assert a < EntryAddr(f, i) || EntryAddr(f, i) + 8 <= a;
    }
  }

  /** m' is m with zeros in frame c. */
  ghost predicate Zeroed(m: seq<byte>, m': seq<byte>, c: Frame) {
    && |m'| == |m|
    && forall a :: 0 <= a < |m| ==> m'[a] == if c * PAGE_SIZE <= a < (c + 1) * PAGE_SIZE then 0 else m[a]
  }

  lemma ZeroedFrame(m: seq<byte>, m': seq<byte>, tables: Tables, c: Frame)
    requires Zeroed(m, m', c) && InMemory(m, c) && c !in tables
    ensures SameTables(m, m', tables)
    ensures forall j :: 0 <= j < ENTRIES ==> Entry(m', c, j) == 0
  {
    forall g, j | g in tables && 0 <= j < ENTRIES && InMemory(m, g)
      ensures Entry(m', g, j) == Entry(m, g, j)
    {
      assert m'[EntryAddr(g, j)..EntryAddr(g, j) + 8] == m[EntryAddr(g, j)..EntryAddr(g, j) + 8];
    }
    forall j | 0 <= j < ENTRIES
      ensures Entry(m', c, j) == 0
    {
      DecodeZero(m'[EntryAddr(c, j)..EntryAddr(c, j) + 8]);
    }
  }

  // ---------- growing ----------

  /** The tables grew below root r0 without changing what any space maps, or any entry that was
      present, or any entry of another root. */
  ghost predicate Grown(m: seq<byte>, tables: Tables, m': seq<byte>, tables': Tables, r0: Frame) {
    && |m'| == |m|
    && (forall f :: f in tables ==> f in tables' && tables'[f] == tables[f])
    && (forall f :: f in tables' && tables'[f].level == 4 ==> f in tables)
    && KeptEntries(m, tables, m', r0)
    && (forall r, v :: IsRoot(tables, r) ==> Walk(m', r, v) == Walk(m, r, v))
    && Untouched(m, m', tables')
  }

  ghost predicate KeptEntries(m: seq<byte>, tables: Tables, m': seq<byte>, r0: Frame) {
    forall f, j :: f in tables && 0 <= j < ENTRIES ==> KeptEntry(m, tables, m', f, j, r0)
  }

  ghost predicate KeptEntry(m: seq<byte>, tables: Tables, m': seq<byte>, f: Frame, j: nat, r0: Frame)
    requires f in tables && j < ENTRIES
  {
    tables[f].level >= 2 && (Child(m, f, j).Some? || (tables[f].level == 4 && f != r0)) ==>
      Child(m', f, j) == Child(m, f, j)
  }

  lemma GrownRefl(m: seq<byte>, tables: Tables, r0: Frame)
    ensures Grown(m, tables, m, tables, r0)
  {
  }

  lemma GrownTrans(m: seq<byte>, t: Tables, m1: seq<byte>, t1: Tables, m2: seq<byte>, t2: Tables, r0: Frame)
    requires Grown(m, t, m1, t1, r0) && Grown(m1, t1, m2, t2, r0)
    ensures Grown(m, t, m2, t2, r0)
  {
    forall f, j | f in t && 0 <= j < ENTRIES
      ensures KeptEntry(m, t, m2, f, j, r0)
    {
      assert KeptEntry(m, t, m1, f, j, r0);
      assert KeptEntry(m1, t1, m2, f, j, r0);
    }
    forall r, v | IsRoot(t, r)
      ensures Walk(m2, r, v) == Walk(m, r, v)
    {
      assert IsRoot(t1, r);
      assert Walk(m1, r, v) == Walk(m, r, v);
    }
  }

  // ---------- hanging in a new table ----------

  /** m' is m with a new, empty table c hung into the absent entry i of f. */
  ghost predicate HungIn(m: seq<byte>, m': seq<byte>, tables: Tables, f: Frame, i: nat, c: Frame) {
    && f in tables && i < ENTRIES && 2 <= tables[f].level <= 4
    && c !in tables && InMemory(m, c)
    && Child(m, f, i).None? && Child(m', f, i) == Some(c) && Opens(m', f, i, c)
    && SameBut(m, m', tables, f, i)
    && forall j :: 0 <= j < ENTRIES ==> Entry(m', c, j) == 0
  }

  ghost function WithTable(tables: Tables, f: Frame, i: nat, c: Frame): Tables
    requires f in tables && tables[f].level >= 2
  {
    tables[c := Table(tables[f].level - 1, SlotOf(tables, f, i))]
  }

  lemma HungInTree(m: seq<byte>, m': seq<byte>, tables: Tables, f: Frame, i: nat, c: Frame)
    requires Tree(m, tables) && HungIn(m, m', tables, f, i, c)
    ensures Tree(m', WithTable(tables, f, i, c))
  {
    var tables' := WithTable(tables, f, i, c);
    assert TableOk(m, tables, f);
    forall g | g in tables'
      ensures TableOk(m', tables', g)
    {
      if g != c {
        assert TableOk(m, tables, g);
        forall j | 0 <= j < ENTRIES
          ensures LinkOk(m', tables', g, j)
        {
          assert LinkOk(m, tables, g, j);
        }
      }
    }
  }

  lemma HungInBelow(m: seq<byte>, m': seq<byte>, tables: Tables, f: Frame, i: nat, c: Frame,
                    at: Option<Frame>, at': Option<Frame>, j: nat)
    requires Tree(m, tables) && HungIn(m, m', tables, f, i, c) && j < ENTRIES
    requires at.Some? ==> at.value in tables
    requires at' == at || (at.None? && at' == Some(c))
    ensures Below(m', at', j) == Below(m, at, j) || (Below(m, at, j).None? && Below(m', at', j) == Some(c))
  {
    if at.Some? {
      ChildSame(m, m', tables, f, i, at.value, j);
    } else {
      assert Entry(m', c, j) == 0;
    }
  }

  /** Down to the new table every walk goes where it went; a walk that reaches the new table
      went nowhere before. */
  lemma {:induction false} HungInPath(m: seq<byte>, m': seq<byte>, tables: Tables, f: Frame, i: nat, c: Frame,
                                      r: Frame, v: nat, level: nat)
    requires Tree(m, tables) && HungIn(m, m', tables, f, i, c) && IsRoot(tables, r) && 1 <= level <= 4
    ensures TableAt(m', r, v, level) == TableAt(m, r, v, level)
            || (TableAt(m, r, v, level).None? && TableAt(m', r, v, level) == Some(c))
    decreases 4 - level
  {
    if level < 4 {
      HungInPath(m, m', tables, f, i, c, r, v, level + 1);
      PathInTree(m, tables, r, v, level + 1);
      HungInBelow(m, m', tables, f, i, c,
                  TableAt(m, r, v, level + 1), TableAt(m', r, v, level + 1), Index(v, level + 1));
    }
  }

  lemma HungInWalk(m: seq<byte>, m': seq<byte>, tables: Tables, f: Frame, i: nat, c: Frame, r: Frame, v: nat)
    requires Tree(m, tables) && HungIn(m, m', tables, f, i, c) && IsRoot(tables, r)
    ensures Walk(m', r, v) == Walk(m, r, v)
  {
    HungInPath(m, m', tables, f, i, c, r, v, 1);
    PathInTree(m, tables, r, v, 1);
  }

  /** Hanging in an empty table is a way to grow below the root at f, or below any root when f
      is not a root. */
  lemma HungInGrown(m: seq<byte>, m': seq<byte>, tables: Tables, f: Frame, i: nat, c: Frame, r0: Frame)
    requires Tree(m, tables) && HungIn(m, m', tables, f, i, c)
    requires tables[f].level == 4 ==> f == r0
    requires Untouched(m, m', WithTable(tables, f, i, c))
    ensures Grown(m, tables, m', WithTable(tables, f, i, c), r0)
  {
    forall g, j | g in tables && 0 <= j < ENTRIES
      ensures KeptEntry(m, tables, m', g, j, r0)
    {
      ChildSame(m, m', tables, f, i, g, j);
    }
    forall r, v | IsRoot(tables, r)
      ensures Walk(m', r, v) == Walk(m, r, v)
    {
      HungInWalk(m, m', tables, f, i, c, r, v);
    }
  }

  // ---------- writing a last-level entry ----------

  lemma {:induction false} LeafPath(m: seq<byte>, m': seq<byte>, tables: Tables, f: Frame, i: nat, r: Frame, v: nat,
                                    level: nat)
    requires Tree(m, tables) && f in tables && tables[f].level == 1 && i < ENTRIES
    requires SameBut(m, m', tables, f, i) && IsRoot(tables, r) && 1 <= level <= 4
    ensures TableAt(m', r, v, level) == TableAt(m, r, v, level)
    decreases 4 - level
  {
    if level < 4 {
      var at := TableAt(m, r, v, level + 1);
      LeafPath(m, m', tables, f, i, r, v, level + 1);
      PathInTree(m, tables, r, v, level + 1);
      LeafBelow(m, m', tables, f, i, at, Index(v, level + 1));
    }
  }

  lemma LeafBelow(m: seq<byte>, m': seq<byte>, tables: Tables, f: Frame, i: nat, at: Option<Frame>, j: nat)
    requires Tree(m, tables) && f in tables && tables[f].level == 1 && SameBut(m, m', tables, f, i) && j < ENTRIES
    requires at.Some? ==> at.value in tables && tables[at.value].level > 1
    ensures Below(m', at, j) == Below(m, at, j)
  {
    if at.Some? { ChildSame(m, m', tables, f, i, at.value, j); }
  }

  lemma LeafTree(m: seq<byte>, m': seq<byte>, tables: Tables, f: Frame, i: nat)
    requires Tree(m, tables) && f in tables && tables[f].level == 1 && i < ENTRIES
    requires SameBut(m, m', tables, f, i)
    ensures Tree(m', tables)
  {
    forall g | g in tables
      ensures TableOk(m', tables, g)
    {
      assert TableOk(m, tables, g);
      forall j | 0 <= j < ENTRIES
        ensures LinkOk(m', tables, g, j)
      {
        assert LinkOk(m, tables, g, j);
      }
    }
  }

  /** Root r sees page v through the same table of level 3 as root r0. */
  ghost predicate SharesSlot(m: seq<byte>, r: Frame, r0: Frame, v: nat) {
    TableAt(m, r, v, 3).Some? && TableAt(m, r, v, 3) == TableAt(m, r0, v, 3)
  }

  ghost function Mapped(e: nat): Option<nat> {
    if Present(e) then Some(e) else None
  }

  /** Writing the last-level entry for a page changes the meaning of that page, in the space it
      was written for and those that share the slot, and nothing else. */
  lemma LeafWalk(m: seq<byte>, m': seq<byte>, tables: Tables, r0: Frame, v0: nat, r: Frame, v: nat)
    requires Tree(m, tables) && IsRoot(tables, r0) && IsRoot(tables, r)
    requires v0 < VIRTUAL_PAGES && v < VIRTUAL_PAGES
    requires TableAt(m, r0, v0, 1).Some? && SameBut(m, m', tables, TableAt(m, r0, v0, 1).value, Index(v0, 1))
    ensures InMemory(m', TableAt(m, r0, v0, 1).value)
    ensures Walk(m', r, v) ==
            if v == v0 && SharesSlot(m, r, r0, v0)
            then Mapped(Entry(m', TableAt(m, r0, v0, 1).value, Index(v0, 1))) else Walk(m, r, v)
  {
    var f, i := TableAt(m, r0, v0, 1).value, Index(v0, 1);
    PathInTree(m, tables, r0, v0, 1);
    PathInTree(m, tables, r, v, 1);
    assert TableOk(m, tables, f);
    LeafPath(m, m', tables, f, i, r, v, 1);
    if v == v0 && SharesSlot(m, r, r0, v0) {
      SharedSlotSameTable(m, r, r0, v0);
    } else if TableAt(m, r, v, 1) == Some(f) && Index(v, 1) == i {
      PathsMeet(m, tables, r, v, r0, v0, 1);
      IndicesDetermine(v, v0);
    }
  }

  lemma SharedSlotSameTable(m: seq<byte>, r: Frame, r0: Frame, v: nat)
    requires SharesSlot(m, r, r0, v)
    ensures TableAt(m, r, v, 2) == TableAt(m, r0, v, 2) && TableAt(m, r, v, 1) == TableAt(m, r0, v, 1)
    ensures Walk(m, r, v) == Walk(m, r0, v)
  {
  }

  // ---------- isolation ----------

  /** Below the shared slots two spaces have no page table in common, so no slot is shared. */
  lemma PrivateSlots(m: seq<byte>, tables: Tables, r: Frame, r0: Frame, v: nat)
    requires Tree(m, tables) && IsRoot(tables, r) && IsRoot(tables, r0) && r != r0
    requires Index(v, 4) < FIRST_SHARED
    ensures !SharesSlot(m, r, r0, v)
  {
    if SharesSlot(m, r, r0, v) {
      PathsMeet(m, tables, r, v, r0, v, 3);
    }
  }

  // ---------- the effect of mapping ----------

  /** Entries of roots are kept: all of them in roots other than r0, the present ones in r0. */
  ghost predicate RootsKept(m: seq<byte>, tables: Tables, m': seq<byte>, r0: Frame) {
    forall r, j :: IsRoot(tables, r) && 0 <= j < ENTRIES && (r != r0 || Child(m, r, j).Some?) ==>
      Child(m', r, j) == Child(m, r, j)
  }

  ghost predicate SameRoots(tables: Tables, tables': Tables) {
    && (forall f :: f in tables ==> f in tables' && tables'[f] == tables[f])
    && (forall f :: f in tables' && tables'[f].level == 4 ==> f in tables)
  }

  /** What a map or unmap for root r0 leaves alone. */
  ghost predicate Framed(m: seq<byte>, tables: Tables, m': seq<byte>, tables': Tables, r0: Frame) {
    && |m'| == |m|
    && SameRoots(tables, tables')
    && RootsKept(m, tables, m', r0)
    && Untouched(m, m', tables')
  }

  lemma FramedTrans(m: seq<byte>, t: Tables, m1: seq<byte>, t1: Tables, m2: seq<byte>, t2: Tables, r0: Frame)
    requires Framed(m, t, m1, t1, r0) && Framed(m1, t1, m2, t2, r0)
    ensures Framed(m, t, m2, t2, r0)
  {
  }

  /** The flat view: pages v0 to v0 + n of root r0 got new meanings, also for spaces that share
      the slot; every other page of every space means what it meant. */
  ghost predicate Remapped(m: seq<byte>, tables: Tables, m': seq<byte>, r0: Frame, v0: nat, n: nat, what: Meaning) {
    forall r: Frame, v: nat :: IsRoot(tables, r) && v < VIRTUAL_PAGES ==> RemappedAt(m, m', r0, v0, n, what, r, v)
  }

  ghost predicate RemappedAt(m: seq<byte>, m': seq<byte>, r0: Frame, v0: nat, n: nat, what: Meaning, r: Frame, v: nat) {
    Walk(m', r, v) ==
      if v0 <= v < v0 + n && SharesSlot(m', r, r0, v) then MeaningOf(what, v - v0) else Walk(m, r, v)
  }

  /** New meanings for consecutive pages: nothing, or consecutive frames. */
  datatype Meaning = Nothing | Frames(base: nat, user: bool)

  function MeaningOf(what: Meaning, k: nat): Option<nat> {
    match what
    case Nothing => None
    case Frames(base, user) => Some(MakeEntry(base + k * PAGE_SIZE, user))
  }

  /** Growing the tables and then writing the last-level entry of page v maps page v. */
  lemma GrownThenWritten(m: seq<byte>, t: Tables, m1: seq<byte>, t1: Tables, m2: seq<byte>, r0: Frame, v: nat,
                         what: Meaning, e: nat)
    requires Grown(m, t, m1, t1, r0) && Tree(m1, t1) && IsRoot(t, r0) && v < VIRTUAL_PAGES && e < TWO_64
    requires TableAt(m1, r0, v, 1).Some?
    requires InMemory(m1, TableAt(m1, r0, v, 1).value)
    requires Stored64(m1, m2, EntryAddr(TableAt(m1, r0, v, 1).value, Index(v, 1)), e)
    requires Mapped(e) == MeaningOf(what, 0)
    ensures Tree(m2, t1) && Framed(m, t, m2, t1, r0) && Remapped(m, t, m2, r0, v, 1, what)
    ensures TableAt(m2, r0, v, 3).Some?
  {
    var f, i := TableAt(m1, r0, v, 1).value, Index(v, 1);
    assert IsRoot(t1, r0);
    PathInTree(m1, t1, r0, v, 1);
    StoredEntry(m1, m2, t1, f, i, e);
    LeafTree(m1, m2, t1, f, i);
    LeafPath(m1, m2, t1, f, i, r0, v, 3);
    forall r: Frame, w: nat | IsRoot(t, r) && w < VIRTUAL_PAGES
      ensures RemappedAt(m, m2, r0, v, 1, what, r, w)
    {
      WrittenAt(m, t, m1, t1, m2, r0, v, what, r, w);
    }
    WrittenFramed(m, t, m1, t1, m2, r0, f, i);
  }

  lemma WrittenAt(m: seq<byte>, t: Tables, m1: seq<byte>, t1: Tables, m2: seq<byte>, r0: Frame, v: nat, what: Meaning,
                  r: Frame, w: nat)
    requires Grown(m, t, m1, t1, r0) && Tree(m1, t1) && IsRoot(t, r0) && IsRoot(t, r)
    requires v < VIRTUAL_PAGES && w < VIRTUAL_PAGES && TableAt(m1, r0, v, 1).Some?
    requires var f, i := TableAt(m1, r0, v, 1).value, Index(v, 1);
             SameBut(m1, m2, t1, f, i) && InMemory(m2, f) && Mapped(Entry(m2, f, i)) == MeaningOf(what, 0)
    ensures RemappedAt(m, m2, r0, v, 1, what, r, w)
  {
    var f, i := TableAt(m1, r0, v, 1).value, Index(v, 1);
    assert IsRoot(t1, r0) && IsRoot(t1, r);
    PathInTree(m1, t1, r0, v, 1);
    LeafWalk(m1, m2, t1, r0, v, r, w);
    LeafPath(m1, m2, t1, f, i, r, v, 3);
    LeafPath(m1, m2, t1, f, i, r0, v, 3);
    assert Walk(m1, r, w) == Walk(m, r, w);
  }

  lemma WrittenFramed(m: seq<byte>, t: Tables, m1: seq<byte>, t1: Tables, m2: seq<byte>, r0: Frame, f: Frame, i: nat)
    requires Grown(m, t, m1, t1, r0) && Tree(m1, t1) && f in t1 && t1[f].level == 1 && i < ENTRIES
    requires SameBut(m1, m2, t1, f, i) && Untouched(m1, m2, t1)
    ensures Framed(m, t, m2, t1, r0)
  {
    forall r, j | IsRoot(t, r) && 0 <= j < ENTRIES && (r != r0 || Child(m, r, j).Some?)
      ensures Child(m2, r, j) == Child(m, r, j)
    {
      assert KeptEntry(m, t, m1, r, j, r0);
      ChildSame(m1, m2, t1, f, i, r, j);
    }
  }

  /** Which spaces share a slot does not change while the roots are kept and the slot is there. */
  lemma SharingKept(m: seq<byte>, t: Tables, m': seq<byte>, r0: Frame, r: Frame, v: nat)
    requires RootsKept(m, t, m', r0) && IsRoot(t, r0) && IsRoot(t, r) && TableAt(m, r0, v, 3).Some?
    ensures TableAt(m', r0, v, 3) == TableAt(m, r0, v, 3)
    ensures SharesSlot(m', r, r0, v) <==> SharesSlot(m, r, r0, v)
  {
  }

  /** The root has an entry for each of the n pages. */
  ghost predicate SlotsThere(m: seq<byte>, r0: Frame, v0: nat, n: nat) {
    forall k: nat :: v0 <= k < v0 + n ==> TableAt(m, r0, k, 3).Some?
  }

  /** One more page: the flat views of two steps put together. */
  lemma RemappedStep(m: seq<byte>, t: Tables, m1: seq<byte>, t1: Tables, m2: seq<byte>, r0: Frame, v0: nat, n: nat,
                     w: nat, what: Meaning, next: Meaning)
    requires SameRoots(t, t1) && IsRoot(t, r0) && w == v0 + n < VIRTUAL_PAGES
    requires Remapped(m, t, m1, r0, v0, n, what) && Remapped(m1, t1, m2, r0, w, 1, next)
    requires RootsKept(m1, t1, m2, r0)
    requires MeaningOf(next, 0) == MeaningOf(what, n)
    requires SlotsThere(m1, r0, v0, n)
    ensures Remapped(m, t, m2, r0, v0, n + 1, what)
  {
    var n' := n + 1;
    forall r: Frame, v: nat | IsRoot(t, r) && v < VIRTUAL_PAGES
      ensures RemappedAt(m, m2, r0, v0, n', what, r, v)
    {
      assert IsRoot(t1, r) && IsRoot(t1, r0);
      assert RemappedAt(m, m1, r0, v0, n, what, r, v);
      assert RemappedAt(m1, m2, r0, w, 1, next, r, v);
      if v0 <= v < v0 + n {
        SharingKept(m1, t1, m2, r0, r, v);
      }
    }
  }

  // ---------- creating and destroying spaces ----------

  /** Entries of the new root c: those of the kernel from the first shared slot on. */
  ghost predicate RootCopied(m: seq<byte>, m': seq<byte>, tables: Tables, kernel: Frame, c: Frame, upto: nat) {
    && SameTables(m, m', tables) && InMemory(m, c) && InMemory(m, kernel)
    && forall j :: 0 <= j < ENTRIES ==>
         Entry(m', c, j) == if FIRST_SHARED <= j < upto then Entry(m, kernel, j) else 0
  }

  /** A new space sees what the kernel has in the shared slots and nothing below; the other
      spaces see what they saw. */
  ghost predicate Created(m: seq<byte>, tables: Tables, m': seq<byte>, tables': Tables, kernel: Frame, c: Frame) {
    && c !in tables && tables' == tables[c := Table(4, Top)] && IsRoot(tables, kernel)
    && Untouched(m, m', tables')
    && (forall j :: 0 <= j < ENTRIES ==> Child(m', c, j) == if j >= FIRST_SHARED then Child(m, kernel, j) else None)
    && (forall v :: Walk(m', c, v) == if Index(v, 4) >= FIRST_SHARED then Walk(m, kernel, v) else None)
    && (forall r, j :: IsRoot(tables, r) && 0 <= j < ENTRIES ==> Child(m', r, j) == Child(m, r, j))
    && (forall r, v :: IsRoot(tables, r) ==> Walk(m', r, v) == Walk(m, r, v))
  }

  lemma CopiedTree(m: seq<byte>, tables: Tables, m': seq<byte>, kernel: Frame, c: Frame)
    requires Tree(m, tables) && IsRoot(tables, kernel) && c !in tables
    requires RootCopied(m, m', tables, kernel, c, ENTRIES)
    ensures Tree(m', tables[c := Table(4, Top)])
  {
    var tables' := tables[c := Table(4, Top)];
    SameTablesTree(m, m', tables);
    forall g | g in tables'
      ensures TableOk(m', tables', g)
    {
      if g == c {
        assert TableOk(m, tables, kernel);
        forall j | 0 <= j < ENTRIES
          ensures LinkOk(m', tables', c, j)
        {
          assert LinkOk(m, tables, kernel, j);
        }
      } else {
        assert TableOk(m', tables, g);
        forall j | 0 <= j < ENTRIES
          ensures LinkOk(m', tables', g, j)
        {
          assert LinkOk(m', tables, g, j);
        }
      }
    }
  }

  lemma CopiedWalk(m: seq<byte>, tables: Tables, m': seq<byte>, kernel: Frame, c: Frame, v: nat)
    requires Tree(m, tables) && IsRoot(tables, kernel) && c !in tables
    requires RootCopied(m, m', tables, kernel, c, ENTRIES)
    ensures Walk(m', c, v) == if Index(v, 4) >= FIRST_SHARED then Walk(m, kernel, v) else None
  {
    var i := Index(v, 4);
    assert TableOk(m, tables, kernel);
    assert Entry(m', kernel, i) == Entry(m, kernel, i);
    assert TableAt(m', c, v, 4) == Some(c) && TableAt(m', kernel, v, 4) == Some(kernel);
    assert TableAt(m', c, v, 3) == Child(m', c, i) && TableAt(m', kernel, v, 3) == Child(m', kernel, i);
    if i >= FIRST_SHARED {
      SameWalk(m, m', tables, kernel, v);
      if TableAt(m', kernel, v, 3).Some? {
        SharedSlotSameTable(m', c, kernel, v);
      } else {
        NoSlotNoWalk(m', kernel, v);
        NoSlotNoWalk(m', c, v);
      }
    } else {
      NoSlotNoWalk(m', c, v);
    }
  }

  lemma NoSlotNoWalk(m: seq<byte>, r: Frame, v: nat)
    requires TableAt(m, r, v, 3).None?
    ensures Walk(m, r, v).None?
  {
  }

  lemma CopiedCreates(m: seq<byte>, tables: Tables, m': seq<byte>, kernel: Frame, c: Frame)
    requires Tree(m, tables) && IsRoot(tables, kernel) && c !in tables
    requires RootCopied(m, m', tables, kernel, c, ENTRIES) && Untouched(m, m', tables[c := Table(4, Top)])
    ensures Created(m, tables, m', tables[c := Table(4, Top)], kernel, c)
  {
    forall v
      ensures Walk(m', c, v) == if Index(v, 4) >= FIRST_SHARED then Walk(m, kernel, v) else None
    {
      CopiedWalk(m, tables, m', kernel, c, v);
    }
    forall r, v | IsRoot(tables, r)
      ensures Walk(m', r, v) == Walk(m, r, v)
    {
      SameWalk(m, m', tables, r, v);
    }
    forall r, j | IsRoot(tables, r) && 0 <= j < ENTRIES
      ensures Child(m', r, j) == Child(m, r, j)
    {
      assert TableOk(m, tables, r);
    }
  }

  /** A space that is destroyed takes nothing away from any other. */
  ghost predicate Destroyed(m: seq<byte>, tables: Tables, m': seq<byte>, tables': Tables, c: Frame) {
    && IsRoot(tables, c) && tables' == tables - {c} && Zeroed(m, m', c)
    && (forall r, j :: IsRoot(tables', r) && 0 <= j < ENTRIES ==> Child(m', r, j) == Child(m, r, j))
    && (forall r, v :: IsRoot(tables', r) ==> Walk(m', r, v) == Walk(m, r, v))
  }

  /** Nothing is hung under the slot of a root, so the tree does without it. */
  lemma TreeWithout(m: seq<byte>, tables: Tables, c: Frame)
    requires Tree(m, tables) && IsRoot(tables, c)
    ensures Tree(m, tables - {c})
  {
    forall g | g in tables - {c}
      ensures TableOk(m, tables - {c}, g)
    {
      assert TableOk(m, tables, g);
      forall j | 0 <= j < ENTRIES
        ensures LinkOk(m, tables - {c}, g, j)
      {
        assert LinkOk(m, tables, g, j);
      }
    }
  }

  lemma ZeroedDestroys(m: seq<byte>, tables: Tables, m': seq<byte>, c: Frame)
    requires Tree(m, tables) && IsRoot(tables, c) && Zeroed(m, m', c)
    ensures Tree(m', tables - {c}) && Destroyed(m, tables, m', tables - {c}, c)
  {
    var t := tables - {c};
    assert TableOk(m, tables, c);
    TreeWithout(m, tables, c);
    ZeroedFrame(m, m', t, c);
    SameTablesTree(m, m', t);
    forall r, v | IsRoot(t, r)
      ensures Walk(m', r, v) == Walk(m, r, v)
    {
      SameWalk(m, m', t, r, v);
    }
    forall r, j | IsRoot(t, r) && 0 <= j < ENTRIES
      ensures Child(m', r, j) == Child(m, r, j)
    {
      assert TableOk(m, t, r);
    }
  }
}
