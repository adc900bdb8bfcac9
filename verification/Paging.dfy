/** How the processor reads the tables (section 4.5 of the Intel SDM, volume 3A), down from the
    bytes in memory, and that the tables mean the same to it as to the model of vmm.c. */
module Paging {
  import opened Pages
  import opened Words
  import opened Memory
  import opened PageTables

  /** What an access meets: no mapping, or a byte of memory with rights. */
  datatype View = Fault | Byte(addr: nat, user: bool, writable: bool)

  /** Entry i of the table at an address; 0 outside of memory. */
  function EntryBytes(m: seq<byte>, table: nat, i: nat): nat {
    if table + 8 * i + 8 <= |m| then Decode(m[table + 8 * i..table + 8 * i + 8]) else 0
  }

  /** The walk through the tables for a linear address: nine bits of it for each table, and twelve
      for the byte.  An access is a user's, or may write, if all four entries say so. */
  function Access(m: seq<byte>, cr3: nat, la: nat): View {
    var e4 := EntryBytes(m, cr3, la / 0x80_0000_0000 % 512);
    if e4 % 2 == 0 then Fault else
    var e3 := EntryBytes(m, e4 / 4096 * 4096, la / 0x4000_0000 % 512);
    if e3 % 2 == 0 || e3 / 128 % 2 == 1 then Fault else
    var e2 := EntryBytes(m, e3 / 4096 * 4096, la / 0x20_0000 % 512);
    if e2 % 2 == 0 || e2 / 128 % 2 == 1 then Fault else
    var e1 := EntryBytes(m, e2 / 4096 * 4096, la / 4096 % 512);
    if e1 % 2 == 0 then Fault else
    Byte(e1 / 4096 * 4096 + la % 4096,
         e4 / 4 % 2 == 1 && e3 / 4 % 2 == 1 && e2 / 4 % 2 == 1 && e1 / 4 % 2 == 1,
         e4 / 2 % 2 == 1 && e3 / 2 % 2 == 1 && e2 / 2 % 2 == 1 && e1 / 2 % 2 == 1)
  }

  lemma EntryRead(m: seq<byte>, f: Frame, i: nat)
    requires InMemory(m, f) && i < ENTRIES
    ensures EntryBytes(m, f * 4096, i) == Entry(m, f, i)
  {
  }

  /** An entry on the way down reads as one that lets user code through, or as absent. */
  lemma LinkRead(m: seq<byte>, tables: Tables, f: Frame, i: nat, e: nat)
    requires Tree(m, tables) && f in tables && tables[f].level >= 2 && i < ENTRIES
    requires e == EntryBytes(m, f * 4096, i)
    ensures e % 2 == 0 <==> Child(m, f, i).None?
    ensures e % 2 == 1 ==> Child(m, f, i) == Some(e / 4096)
    ensures e % 2 == 1 ==> e / 2 % 2 == 1 && e / 4 % 2 == 1 && e / 128 % 2 == 0
    ensures e % 2 == 1 ==> e / 4096 in tables && tables[e / 4096].level == tables[f].level - 1
  {
    assert TableOk(m, tables, f) && LinkOk(m, tables, f, i);
    EntryRead(m, f, i);
    if e % 2 == 1 { ClearAbove(e); }
  }

  lemma ClearAbove(e: nat)
    requires e / 8 % 512 == 0
    ensures e / 128 % 2 == 0
  {
    SplitBy8(e);
    Multiple512(e / 8);
    LowBits(e, e / 8 / 512, e % 8);
  }

  lemma SplitBy8(e: nat)
    ensures e == 8 * (e / 8) + e % 8 && e % 8 < 8
  {
  }

  lemma Multiple512(a: nat)
    requires a % 512 == 0
    ensures a == 512 * (a / 512)
  {
  }

  lemma LowBits(e: nat, q: nat, low: nat)
    requires e == 8 * (512 * q) + low && low < 8
    ensures e / 128 % 2 == 0
  {
    QuotientIs(e, 2 * (16 * q), low);
  }

  lemma QuotientIs(e: nat, a: nat, low: nat)
    requires e == 128 * a + low && low < 128
    ensures e / 128 == a
  {
  }

  lemma LeafRead(m: seq<byte>, tables: Tables, f: Frame, i: nat, e: nat)
    requires Tree(m, tables) && f in tables && i < ENTRIES && e == EntryBytes(m, f * 4096, i)
    ensures InMemory(m, f) && Entry(m, f, i) == e
  {
    assert TableOk(m, tables, f);
    EntryRead(m, f, i);
  }

  /** What the walk of the model says of an access. */
  ghost function ViewOf(m: seq<byte>, r: Frame, la: nat): View {
    match Walk(m, r, PageOf(la))
    case None => Fault
    case Some(e) => Byte(e / 4096 * 4096 + la % 4096, e / 4 % 2 == 1, e / 2 % 2 == 1)
  }

  lemma LinearIndices(la: nat)
    ensures la / 0x80_0000_0000 % 512 == Index(PageOf(la), 4) && la / 0x4000_0000 % 512 == Index(PageOf(la), 3)
    ensures la / 0x20_0000 % 512 == Index(PageOf(la), 2) && la / 4096 % 512 == Index(PageOf(la), 1)
  {
    AddressIndexIsPageIndex(la, 4);
    AddressIndexIsPageIndex(la, 3);
    AddressIndexIsPageIndex(la, 2);
    AddressIndexIsPageIndex(la, 1);
  }

  /** The processor sees through the tables what the model says they mean. */
  lemma ProcessorSees(m: seq<byte>, tables: Tables, r: Frame, la: nat)
    requires Tree(m, tables) && IsRoot(tables, r)
    ensures Access(m, r * 4096, la) == ViewOf(m, r, la)
  {
    var v := PageOf(la);
    LinearIndices(la);
    var e4 := EntryBytes(m, r * 4096, Index(v, 4));
    LinkRead(m, tables, r, Index(v, 4), e4);
    if e4 % 2 == 1 {
      var e3 := EntryBytes(m, e4 / 4096 * 4096, Index(v, 3));
      LinkRead(m, tables, e4 / 4096, Index(v, 3), e3);
      if e3 % 2 == 1 {
        var e2 := EntryBytes(m, e3 / 4096 * 4096, Index(v, 2));
        LinkRead(m, tables, e3 / 4096, Index(v, 2), e2);
        if e2 % 2 == 1 {
          LeafRead(m, tables, e2 / 4096, Index(v, 1), EntryBytes(m, e2 / 4096 * 4096, Index(v, 1)));
        }
      }
    }
  }

  // ---------- ranges ----------

  ghost predicate ByteSeen(m: seq<byte>, r: Frame, la: nat, base: nat, off: nat, user: bool) {
    Access(m, r * 4096, la + off) == Byte(base + off, user, true)
  }

  /** The space of root r shows n bytes of memory from base on at the addresses from la on, to be
      written, and to user code if and only if user is set. */
  ghost predicate RangeSeen(m: seq<byte>, r: Frame, la: nat, base: nat, n: nat, user: bool) {
    forall off: nat :: off < n ==> ByteSeen(m, r, la, base, off, user)
  }

  ghost predicate Faults(m: seq<byte>, r: Frame, la: nat, off: nat) {
    Access(m, r * 4096, la + off) == Fault
  }

  ghost predicate RangeFaults(m: seq<byte>, r: Frame, la: nat, n: nat) {
    forall off: nat :: off < n ==> Faults(m, r, la, off)
  }

  ghost predicate SameAccess(m: seq<byte>, m': seq<byte>, r: Frame, la: nat) {
    Access(m', r * 4096, la) == Access(m, r * 4096, la)
  }

  /** Off n pages from v0 on nothing has changed for any space. */
  ghost predicate ElsewhereSame(m: seq<byte>, t: Tables, m': seq<byte>, v0: nat, n: nat) {
    forall r: Frame, la: nat :: IsRoot(t, r) && !(v0 <= PageOf(la) < v0 + n) ==> SameAccess(m, m', r, la)
  }

  /** Byte off of a range that begins on page v0. */
  lemma PageOfByte(virt: nat, off: nat, la: nat, n: nat)
    requires la == AlignDown(virt) + off && off < n * 4096 && PageOf(virt) + n <= VIRTUAL_PAGES
    ensures off / 4096 < n && PageOf(la) == PageOf(virt) + off / 4096 && la % 4096 == off % 4096
  {
    assert la / 4096 == virt / 4096 + off / 4096;
  }

  lemma ByteOfFrame(e: nat, base: nat, off: nat, user: bool)
    requires base % 4096 == 0 && LeadsTo(e, (base + off / 4096 * 4096) / 4096, user)
    ensures Byte(e / 4096 * 4096 + off % 4096, e / 4 % 2 == 1, e / 2 % 2 == 1) == Byte(base + off, user, true)
  {
    assert (base + off / 4096 * 4096) / 4096 * 4096 == base + off / 4096 * 4096;
  }

  lemma MappedIsSeen(m: seq<byte>, t: Tables, m': seq<byte>, t': Tables, r0: Frame, virt: nat, base: nat, n: nat,
                     user: bool)
    requires IsRoot(t, r0) && Tree(m', t') && IsRoot(t', r0) && base % 4096 == 0
    requires PageOf(virt) + n <= VIRTUAL_PAGES && SlotsThere(m', r0, PageOf(virt), n)
    requires Remapped(m, t, m', r0, PageOf(virt), n, Frames(base, user))
    ensures RangeSeen(m', r0, AlignDown(virt), base, n * 4096, user)
  {
    forall off: nat | off < n * 4096
      ensures ByteSeen(m', r0, AlignDown(virt), base, off, user)
    {
      var la, v0, k := AlignDown(virt) + off, PageOf(virt), off / 4096;
      PageOfByte(virt, off, la, n);
      assert RemappedAt(m, m', r0, v0, n, Frames(base, user), r0, v0 + k);
      assert TableAt(m', r0, v0 + k, 3).Some?;
      MadeEntry(base + k * 4096, user);
      ByteOfFrame(MakeEntry(base + k * 4096, user), base, off, user);
      ProcessorSees(m', t', r0, la);
    }
  }

  lemma UnmappedIsFault(m: seq<byte>, t: Tables, m': seq<byte>, r0: Frame, virt: nat, n: nat)
    requires IsRoot(t, r0) && Tree(m', t)
    requires PageOf(virt) + n <= VIRTUAL_PAGES
    requires Remapped(m, t, m', r0, PageOf(virt), n, Nothing)
    ensures RangeFaults(m', r0, AlignDown(virt), n * 4096)
  {
    forall off: nat | off < n * 4096
      ensures Faults(m', r0, AlignDown(virt), off)
    {
      var la, v0, k := AlignDown(virt) + off, PageOf(virt), off / 4096;
      PageOfByte(virt, off, la, n);
      assert RemappedAt(m, m', r0, v0, n, Nothing, r0, v0 + k);
      if TableAt(m', r0, v0 + k, 3).None? { NoSlotNoWalk(m', r0, v0 + k); }
      ProcessorSees(m', t, r0, la);
    }
  }

  lemma OffRangeSame(m: seq<byte>, t: Tables, m': seq<byte>, t': Tables, r0: Frame, v0: nat, n: nat, what: Meaning)
    requires Tree(m, t) && Tree(m', t') && SameRoots(t, t') && Remapped(m, t, m', r0, v0, n, what)
    ensures ElsewhereSame(m, t, m', v0, n)
  {
    forall r: Frame, la: nat | IsRoot(t, r) && !(v0 <= PageOf(la) < v0 + n)
      ensures SameAccess(m, m', r, la)
    {
      assert RemappedAt(m, m', r0, v0, n, what, r, PageOf(la)) && IsRoot(t', r);
      ProcessorSees(m, t, r, la);
      ProcessorSees(m', t', r, la);
    }
  }

  // ---------- new spaces ----------

  /** A new space shows what the kernel's shows from address 255 * 2^39 on, and nothing below. */
  ghost predicate KernelSeen(m: seq<byte>, kernel: Frame, m': seq<byte>, c: Frame) {
    forall la: nat :: SlotSeen(m, kernel, m', c, la)
  }

  ghost predicate SlotSeen(m: seq<byte>, kernel: Frame, m': seq<byte>, c: Frame, la: nat) {
    Access(m', c * 4096, la) == if la / 0x80_0000_0000 % 512 >= 255 then Access(m, kernel * 4096, la) else Fault
  }

  lemma CreatedIsSeen(m: seq<byte>, t: Tables, m': seq<byte>, t': Tables, kernel: Frame, c: Frame)
    requires Tree(m, t) && Tree(m', t') && Created(m, t, m', t', kernel, c)
    ensures KernelSeen(m, kernel, m', c) && ElsewhereSame(m, t, m', 0, 0)
  {
    forall la: nat
      ensures SlotSeen(m, kernel, m', c, la)
    {
      LinearIndices(la);
      ProcessorSees(m, t, kernel, la);
      ProcessorSees(m', t', c, la);
      assert Walk(m', c, PageOf(la)) == if Index(PageOf(la), 4) >= 255 then Walk(m, kernel, PageOf(la)) else None;
    }
    forall r: Frame, la: nat | IsRoot(t, r)
      ensures SameAccess(m, m', r, la)
    {
      assert IsRoot(t', r) && Walk(m', r, PageOf(la)) == Walk(m, r, PageOf(la));
      ProcessorSees(m, t, r, la);
      ProcessorSees(m', t', r, la);
    }
  }
}
