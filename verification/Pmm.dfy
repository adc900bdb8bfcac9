/** pmm.c: physical frames, handed out by a next-fit scan over a bitmap. */
module Pmm {
  import opened Bitmap
  import opened Pages

  // ---------- the scan ----------

  /** The n pages from i on are free and lie below the limit of the scan. */
  ghost predicate FreeRun(s: seq<bv8>, i: nat, n: nat, limit: nat)
    requires limit <= 8 * |s|
  {
    i + n <= limit && forall j: nat :: i <= j < i + n ==> !IsSet(s, j)
  }

  /** The first run of n free pages at or above from. */
  ghost function FirstRun(s: seq<bv8>, from: nat, n: nat, limit: nat): (r: Option<nat>)
    requires limit <= 8 * |s|
    ensures r.Some? ==> from <= r.value && FreeRun(s, r.value, n, limit)
    ensures forall i: nat :: from <= i < (if r.Some? then r.value else limit + 1) ==> !FreeRun(s, i, n, limit)
    decreases limit + 1 - from
  {
    if from + n > limit then None
    else if FreeRun(s, from, n, limit) then Some(from)
    else FirstRun(s, from + 1, n, limit)
  }

  lemma FirstRunIs(s: seq<bv8>, from: nat, n: nat, limit: nat, i: nat)
    requires limit <= 8 * |s| && from <= i && FreeRun(s, i, n, limit)
    requires forall j: nat :: from <= j < i ==> !FreeRun(s, j, n, limit)
    ensures FirstRun(s, from, n, limit) == Some(i)
  {
  }

  /** The scan from a page has come to page i behind c free pages, and there was no run of n
      pages before these. */
  ghost predicate Scanned(s: seq<bv8>, from: nat, i: nat, c: nat, n: nat) {
    && from <= i <= |s| && c <= i - from && c <= n
    && (forall j: nat :: i - c <= j < i ==> !IsSet(s, j))
    && (i - c == from || IsSet(s, i - c - 1))
    && (forall j: nat :: from <= j < i - c ==> !FreeRun(s, j, n, |s|))
  }

  lemma ScannedMore(s: seq<bv8>, from: nat, i: nat, c: nat, n: nat)
    requires Scanned(s, from, i, c, n) && i < |s| && c < n
    ensures Scanned(s, from, i + 1, if IsSet(s, i) then 0 else c + 1, n)
  {
    if IsSet(s, i) {
      forall j: nat | i - c <= j <= i
        ensures !FreeRun(s, j, n, |s|)
      {
      }
    }
  }

  lemma ScannedAll(s: seq<bv8>, from: nat, i: nat, c: nat, n: nat)
    requires Scanned(s, from, i, c, n) && (i == |s| || c == n)
    ensures FirstRun(s, from, n, |s|) == if c == n then Some(i - c) else None
  {
    if c == n {
      FirstRunIs(s, from, n, |s|, i - c);
    } else {
      NoFirstRun(s, from, n, |s|);
    }
  }

  ghost predicate NoRunAnywhere(s: seq<bv8>, n: nat) {
    forall i: nat :: !FreeRun(s, i, n, |s|)
  }

  /** A search from page 0 that finds nothing has missed nothing. */
  lemma NothingFromZero(s: seq<bv8>, n: nat)
    requires FirstRun(s, 0, n, |s|).None?
    ensures NoRunAnywhere(s, n)
  {
  }

  lemma NoFirstRun(s: seq<bv8>, from: nat, n: nat, limit: nat)
    requires limit <= 8 * |s|
    requires forall j: nat :: from <= j && j + n <= limit ==> !FreeRun(s, j, n, limit)
    ensures FirstRun(s, from, n, limit) == None
  {
  }

  /** Number of pages a request takes. */
  function PagesFor(amount: nat): nat {
    (amount + PAGE_SIZE - 1) / PAGE_SIZE
  }

  lemma PagesNeeded(c: nat, amount: nat)
    ensures c * PAGE_SIZE < amount <==> c < PagesFor(amount)
  {
  }

  // ---------- the retry ----------

  datatype Search = Run(start: nat) | NoRun | StillSearching

  /** pmm_find_pages, unrolled through at most fuel of its calls to itself.  The retry changes
      nothing before it calls itself, last_page included. */
  ghost function Attempt(s: seq<bv8>, last: nat, n: nat, fuel: nat): Search {
    match FirstRun(s, last, n, |s|)
    case Some(i) => Run(i)
    case None => if last == 0 then NoRun else if fuel == 0 then StillSearching else Attempt(s, last, n, fuel - 1)
  }

  /** The search ends exactly if it starts at page 0 or finds a run behind the last allocation. */
  lemma {:induction false} SearchEndsIff(s: seq<bv8>, last: nat, n: nat)
    ensures (exists fuel :: Attempt(s, last, n, fuel) != StillSearching)
            <==> last == 0 || exists i: nat :: last <= i && FreeRun(s, i, n, |s|)
  {
    if last != 0 && FirstRun(s, last, n, |s|).None? {
      forall fuel: nat
        ensures Attempt(s, last, n, fuel) == StillSearching
      {
        RetriesForever(s, last, n, fuel);
      }
    } else {
      assert Attempt(s, last, n, 0) != StillSearching;
    }
  }

  lemma {:induction false} RetriesForever(s: seq<bv8>, last: nat, n: nat, fuel: nat)
    requires last != 0 && FirstRun(s, last, n, |s|).None?
    ensures Attempt(s, last, n, fuel) == StillSearching
  {
    if fuel > 0 {
      RetriesForever(s, last, n, fuel - 1);
    }
  }

  /** A run can be there and yet never be found: of pages 0 to 15 all but page 0 are free, and
      page 1 was the last one allocated. */
  lemma RetryMissesLowRun()
    ensures forall p: nat :: 1 <= p < 16 ==> !IsSet([0x01, 0x00], p)
    ensures FirstRun([0x01, 0x00], 0, 1, 2) == Some(1)
    ensures forall fuel: nat :: Attempt([0x01, 0x00], 2, 1, fuel) == StillSearching
  {
    var s: seq<bv8> := [0x01, 0x00];
    forall p: nat | p < 16
      ensures IsSet(s, p) <==> p == 0
    {
      FirstBitSet(p);
    }
    assert IsSet(s, 0) && !FreeRun(s, 0, 1, 2);
    FirstRunIs(s, 0, 1, 2, 1);
    forall fuel: nat
      ensures Attempt(s, 2, 1, fuel) == StillSearching
    {
      RetriesForever(s, 2, 1, fuel);
    }
  }

  lemma FirstBitSet(p: nat)
    requires p < 16
    ensures IsSet([0x01, 0x00], p) <==> p == 0
  {
  }

  // ---------- live ranges ----------

  ghost function LivePages(live: set<Range>): set<nat> {
    set r, p | r in live && p in PagesOf(r) :: p
  }

  ghost predicate NotEmpty(live: set<Range>, r: Range) {
    r in live ==> PagesOf(r) != {}
  }

  ghost predicate RangesApart(live: set<Range>, r: Range, q: Range) {
    r in live && q in live && r != q ==> PagesOf(r) !! PagesOf(q)
  }

  /** A usable page is either free or on a live range. */
  ghost predicate Accounted(live: set<Range>, clear: set<nat>, avail: set<nat>, p: nat) {
    && (p in avail <==> p in clear || p in LivePages(live))
    && !(p in clear && p in LivePages(live))
  }

  /** The ranges handed out and not yet freed are disjoint, and together with the free pages
      they make up all the usable ones. */
  ghost predicate LiveOk(live: set<Range>, clear: set<nat>, avail: set<nat>) {
    && (forall r :: NotEmpty(live, r))
    && (forall r, q :: RangesApart(live, r, q))
    && (forall p :: Accounted(live, clear, avail, p))
  }

  lemma LiveFacts(live: set<Range>, clear: set<nat>, avail: set<nat>)
    requires LiveOk(live, clear, avail)
    ensures forall r :: r in live ==> PagesOf(r) != {}
    ensures forall r, q :: r in live && q in live && r != q ==> PagesOf(r) !! PagesOf(q)
    ensures clear !! LivePages(live) && avail == clear + LivePages(live)
  {
    forall r | r in live
      ensures PagesOf(r) != {}
    {
      assert NotEmpty(live, r);
    }
    forall r, q | r in live && q in live && r != q
      ensures PagesOf(r) !! PagesOf(q)
    {
      assert RangesApart(live, r, q);
    }
    forall p
      ensures p in avail <==> p in clear + LivePages(live)
      ensures !(p in clear && p in LivePages(live))
    {
      assert Accounted(live, clear, avail, p);
    }
  }

  lemma LiveAfterAlloc(live: set<Range>, clear: set<nat>, avail: set<nat>, r: Range)
    requires LiveOk(live, clear, avail) && PagesOf(r) <= clear && PagesOf(r) != {}
    ensures r !in live
    ensures LiveOk(live + {r}, clear - PagesOf(r), avail)
  {
    LiveFacts(live, clear, avail);
    var live', clear' := live + {r}, clear - PagesOf(r);
    var p :| p in PagesOf(r);
    assert r in live ==> p in LivePages(live);
    assert LivePages(live') == LivePages(live) + PagesOf(r);
    forall q | q in live
      ensures PagesOf(r) !! PagesOf(q)
    {
      assert PagesOf(q) <= LivePages(live);
    }
  }

  lemma LiveAfterFree(live: set<Range>, clear: set<nat>, avail: set<nat>, r: Range)
    requires LiveOk(live, clear, avail) && r in live
    ensures PagesOf(r) !! clear
    ensures LiveOk(live - {r}, clear + PagesOf(r), avail)
  {
    LiveFacts(live, clear, avail);
    assert LivePages(live) == LivePages(live - {r}) + PagesOf(r);
  }

  class Allocator {
    const bitmap: array<bv8>
    var usablePages: size_t
    var lastPage: nat
    ghost var live: set<Range>
    /** The usable pages that do not hold the bitmap. */
    ghost const avail: set<nat>
    /** The pages of the bitmap are counted off although they were never counted in. */
    ghost const bias: nat

    ghost function Clear(): set<nat>
      reads bitmap
    {
      ClearPages(bitmap[..])
    }

    ghost predicate Counted()
      reads this, bitmap
    {
      CountedAs(usablePages, Clear(), bias)
    }

    ghost predicate Valid()
      reads this, bitmap
    {
      && Counted() && LiveOk(live, Clear(), avail)
      && lastPage <= bitmap.Length && 8 * bitmap.Length < TWO_64
      && (forall p :: p in avail ==> p < 8 * bitmap.Length)
    }

    /** A bitmap of the given size in which every page is used. */
    constructor (size: nat, ghost avail: set<nat>, ghost bias: nat)
      ensures fresh(bitmap) && bitmap.Length == size && Clear() == {}
      ensures usablePages == 0 && lastPage == 0 && live == {}
      ensures this.avail == avail && this.bias == bias
    {
      bitmap := new bv8[size](i => 0xff);
      usablePages, lastPage, live := 0, 0, {};
      this.avail, this.bias := avail, bias;
      new;
      forall i: nat | i < 8 * size
        ensures IsSet(bitmap[..], i)
      {
        AllBitsSet(i % 8);
      }
    }

    method BitmapUnused(index: nat)
      requires index < 8 * bitmap.Length
      modifies this`usablePages, bitmap
      ensures Clear() == old(Clear()) + {index}
      ensures usablePages == Wrap(old(usablePages) + 1)
    {
      var bit, byte := index % 8, index / 8;
      bitmap[byte] := bitmap[byte] & !Mask(bit);
      usablePages := Wrap(usablePages + 1);
      assert bitmap[..] == old(bitmap[..])[byte := old(bitmap[byte]) & !Mask(bit)];
      forall j: nat | j < 8 * bitmap.Length
        ensures IsSet(bitmap[..], j) <==> j != index && IsSet(old(bitmap[..]), j)
      {
        ClearPage(old(bitmap[..]), index, j);
      }
    }

    method BitmapUsed(index: nat)
      requires index < 8 * bitmap.Length
      modifies this`usablePages, bitmap
      ensures Clear() == old(Clear()) - {index}
      ensures usablePages == Wrap(old(usablePages) - 1)
    {
      var bit, byte := index % 8, index / 8;
      bitmap[byte] := bitmap[byte] | Mask(bit);
      usablePages := Wrap(usablePages - 1);
      assert bitmap[..] == old(bitmap[..])[byte := old(bitmap[byte]) | Mask(bit)];
      forall j: nat | j < 8 * bitmap.Length
        ensures IsSet(bitmap[..], j) <==> j == index || IsSet(old(bitmap[..]), j)
      {
        SetPage(old(bitmap[..]), index, j);
      }
    }

    method IsSetPmm(index: nat) returns (b: bool)
      requires index < 8 * bitmap.Length
      ensures b == IsSet(bitmap[..], index)
    {
      b := BitSet(bitmap[index / 8], index % 8);
    }

    method RangeUsed(range: Range)
      requires range.base / PAGE_SIZE + range.length / PAGE_SIZE <= 8 * bitmap.Length < TWO_64
      modifies this`usablePages, bitmap
      ensures Clear() == old(Clear()) - PagesOf(range)
      ensures range.length / PAGE_SIZE < TWO_64 && usablePages == Wrap(old(usablePages) - range.length / PAGE_SIZE)
    {
      var target, i := range.base / PAGE_SIZE, 0;
      while i < range.length / PAGE_SIZE
        invariant i <= range.length / PAGE_SIZE
        invariant Clear() == old(Clear()) - Interval(target, i)
        invariant usablePages == Wrap(old(usablePages) - i)
      {
        BitmapUsed(target + i);
        i := i + 1;
      }
    }

    method RangeUnused(range: Range)
      requires range.base / PAGE_SIZE + range.length / PAGE_SIZE <= 8 * bitmap.Length < TWO_64
      modifies this`usablePages, bitmap
      ensures Clear() == old(Clear()) + PagesOf(range)
      ensures range.length / PAGE_SIZE < TWO_64 && usablePages == Wrap(old(usablePages) + range.length / PAGE_SIZE)
    {
      var target, i := range.base / PAGE_SIZE, 0;
      while i < range.length / PAGE_SIZE
        invariant i <= range.length / PAGE_SIZE
        invariant Clear() == old(Clear()) + Interval(target, i)
        invariant usablePages == Wrap(old(usablePages) + i)
      {
        BitmapUnused(target + i);
        i := i + 1;
      }
    }

    /** The loop of pmm_find_pages: the page bound is the size of the bitmap in bytes. */
    method Scan(amount: nat) returns (range: Range)
      requires lastPage <= bitmap.Length
      ensures amount == 0 ==> range == Range(0, 0)
      ensures amount > 0 ==>
                match FirstRun(bitmap[..], lastPage, PagesFor(amount), bitmap.Length)
                case Some(i) => range == Range(i * PAGE_SIZE, PagesFor(amount) * PAGE_SIZE)
                case None => range.length < amount
    {
      ghost var s, n, c := bitmap[..], PagesFor(amount), 0;
      var base, length, i := 0, 0, lastPage;
      while i < bitmap.Length && length < amount
        invariant Scanned(s, lastPage, i, c, n) && 0 <= base && (amount == 0 ==> base == length == 0)
        invariant length == c * PAGE_SIZE && (c > 0 ==> base == (i - c) * PAGE_SIZE)
        decreases bitmap.Length - i
      {
        PagesNeeded(c, amount);
        ScannedMore(s, lastPage, i, c, n);
        var used := IsSetPmm(i);
        if !used {
          if length == 0 {
            base := i * PAGE_SIZE;
          }
          length := length + PAGE_SIZE;
          c := c + 1;
        } else {
          length := 0;
          c := 0;
        }
        i := i + 1;
      }
      PagesNeeded(c, amount);
      if amount > 0 { ScannedAll(s, lastPage, i, c, n); }
      range := Range(base, length);
    }

    /** pmm_find_pages.  Where the source calls itself again, nothing has changed since the last
        call, so the search never ends. */
    method FindPages(amount: nat) returns (r: Outcome<Range>)
      requires lastPage <= bitmap.Length && 8 * bitmap.Length < TWO_64
      modifies this`usablePages, this`lastPage, bitmap
      ensures lastPage <= bitmap.Length
      ensures amount == 0 ==>
                r == Done(Range(0, 0)) && lastPage == 0 && Clear() == old(Clear()) && usablePages == old(usablePages)
      ensures amount > 0 ==>
                match FirstRun(old(bitmap[..]), old(lastPage), PagesFor(amount), bitmap.Length)
                case Some(i) =>
                  && r == Done(Range(i * PAGE_SIZE, PagesFor(amount) * PAGE_SIZE))
                  && Clear() == old(Clear()) - PagesOf(r.value)
                  && lastPage == i + PagesFor(amount)
                  && PagesFor(amount) < TWO_64 && usablePages == Wrap(old(usablePages) - PagesFor(amount))
                case None =>
                  && r == (if old(lastPage) == 0 then Done(Range(0, 0)) else Hung)
                  && unchanged(bitmap) && unchanged(`usablePages) && unchanged(`lastPage)
    {
      var range := Scan(amount);
      if range.length >= amount {
        lastPage := (range.base + range.length) / PAGE_SIZE;
        RangeUsed(range);
        return Done(range);
      }
      if lastPage == 0 {
        return Done(Range(0, 0));
      }
      return Hung;
    }

    /** pmm_alloc: besides what the search gives, a failed assertion when no page is counted free. */
    method Alloc(amount: nat) returns (r: Outcome<Range>)
      requires Valid()
      modifies this`usablePages, this`lastPage, this`live, bitmap
      ensures Valid()
      ensures r.Halted? <==> |old(Clear())| == bias
      ensures r.Done? && r.value.length > 0 ==>
                && Handed(r.value, amount, old(Clear()))
                && FirstRun(old(bitmap[..]), old(lastPage), PagesFor(amount), bitmap.Length)
                   == Some(r.value.base / PAGE_SIZE)
                && Clear() == old(Clear()) - PagesOf(r.value) && live == old(live) + {r.value}
      ensures !r.Done? || r.value.length == 0 ==>
                Clear() == old(Clear()) && live == old(live) && usablePages == old(usablePages)
      ensures r.Done? && r.value.length == 0 && amount > 0 ==> NoRunAnywhere(old(bitmap[..]), PagesFor(amount))
      ensures r.Hung? <==> |old(Clear())| != bias && amount > 0 && old(lastPage) != 0
                           && FirstRun(old(bitmap[..]), old(lastPage), PagesFor(amount), bitmap.Length).None?
      ensures r.Done? && r.value.length > 0 ==> lastPage == r.value.base / PAGE_SIZE + PagesFor(amount)
    {
      NothingCounted(usablePages, Clear(), bias);
      if usablePages == 0 {
        return Halted;
      }
      r := FindPages(amount);
      if r.Done? && r.value.length > 0 {
        ghost var range := r.value;
        HandedFacts(old(bitmap[..]), old(lastPage), amount, range);
        ghost var after := old(Clear()) - PagesOf(range);
        CountAlloc(old(usablePages), old(Clear()), bias, range, PagesFor(amount));
        LiveAfterAlloc(live, old(Clear()), avail, range);
        assert Clear() == after;
        live := live + {range};
      } else if r.Done? && amount > 0 {
        NothingFromZero(old(bitmap[..]), PagesFor(amount));
      }
    }

    /** pmm_free.  It does not look whether the pages are in use: a live range is given back, and
        of any other range the pages are free afterwards and counted once more. */
    method Free(range: Range)
      requires Valid() && range.base / PAGE_SIZE + range.length / PAGE_SIZE <= 8 * bitmap.Length
      modifies this`usablePages, this`live, bitmap
      ensures Clear() == old(Clear()) + PagesOf(range) && live == old(live) - {range}
      ensures range.length / PAGE_SIZE < TWO_64 && usablePages == Wrap(old(usablePages) + range.length / PAGE_SIZE)
      ensures range in old(live) ==> Valid()
    {
      ghost var after := Clear() + PagesOf(range);
      if range in live {
        LiveAfterFree(live, Clear(), avail, range);
        FreeBound(bitmap[..], range);
        CountFree(usablePages, Clear(), bias, range, range.length / PAGE_SIZE);
      }
      RangeUnused(range);
      assert Clear() == after;
      live := live - {range};
    }
  }

  /** What a caller of pmm_alloc gets: whole pages, at least as many bytes as asked for, all of
      them free before. */
  ghost predicate Handed(range: Range, amount: nat, clear: set<nat>) {
    && range.base % PAGE_SIZE == 0
    && range.length == PagesFor(amount) * PAGE_SIZE
    && amount <= range.length < amount + PAGE_SIZE
    && PagesOf(range) <= clear
  }

  lemma LiveInBitmap(live: set<Range>, clear: set<nat>, avail: set<nat>, range: Range, limit: nat)
    requires LiveOk(live, clear, avail) && range in live && forall p :: p in avail ==> p < limit
    ensures range.base / PAGE_SIZE + range.length / PAGE_SIZE <= limit
  {
    LiveFacts(live, clear, avail);
    var p :| p in PagesOf(range);
    var last := range.base / PAGE_SIZE + range.length / PAGE_SIZE - 1;
    assert last in PagesOf(range) && last in LivePages(live);
  }

  lemma FreeBound(s: seq<bv8>, range: Range)
    requires range.base / PAGE_SIZE + range.length / PAGE_SIZE <= 8 * |s|
    ensures |ClearPages(s) + PagesOf(range)| <= 8 * |s|
  {
    var all := Interval(0, 8 * |s|);
    IntervalSize(0, 8 * |s|);
    assert ClearPages(s) + PagesOf(range) <= all;
    RemoveSize(all, ClearPages(s) + PagesOf(range));
  }

  lemma HandedFacts(s: seq<bv8>, from: nat, amount: nat, range: Range)
    requires amount > 0
    requires var r := FirstRun(s, from, PagesFor(amount), |s|);
             r.Some? && range == Range(r.value * PAGE_SIZE, PagesFor(amount) * PAGE_SIZE)
    ensures Handed(range, amount, ClearPages(s)) && PagesOf(range) != {}
    ensures FirstRun(s, from, PagesFor(amount), |s|) == Some(range.base / PAGE_SIZE)
  {
    var i, n := FirstRun(s, from, PagesFor(amount), |s|).value, PagesFor(amount);
    WholePages(i, n, range);
    assert FreeRun(s, i, n, |s|);
    assert i in PagesOf(range);
  }

  lemma WholePages(i: nat, n: nat, range: Range)
    requires range == Range(i * PAGE_SIZE, n * PAGE_SIZE)
    ensures range.base % PAGE_SIZE == 0 && range.base / PAGE_SIZE == i && range.length / PAGE_SIZE == n
    ensures PagesOf(range) == Interval(i, n)
  {
  }

  /** The counter of usable pages: the number of clear bits less the pages of the bitmap. */
  ghost predicate CountedAs(usable: size_t, clear: set<nat>, bias: nat) {
    |clear| < TWO_64 && bias < TWO_64 && usable == Wrap(|clear| - bias)
  }

  /** The counter is 0 when as many pages are free as it is short by. */
  lemma NothingCounted(usable: size_t, clear: set<nat>, bias: nat)
    requires CountedAs(usable, clear, bias)
    ensures usable == 0 <==> |clear| == bias
  {
  }

  lemma CountAlloc(usable: size_t, clear: set<nat>, bias: nat, range: Range, n: nat)
    requires CountedAs(usable, clear, bias) && PagesOf(range) <= clear && n == range.length / PAGE_SIZE
    ensures n < TWO_64 && CountedAs(Wrap(usable - n), clear - PagesOf(range), bias)
  {
    RemoveSize(clear, PagesOf(range));
    IntervalSize(range.base / PAGE_SIZE, n);
  }

  lemma CountFree(usable: size_t, clear: set<nat>, bias: nat, range: Range, n: nat)
    requires CountedAs(usable, clear, bias) && PagesOf(range) !! clear && n == range.length / PAGE_SIZE
    requires |clear + PagesOf(range)| < TWO_64
    ensures n < TWO_64 && CountedAs(Wrap(usable + n), clear + PagesOf(range), bias)
  {
    AddSize(clear, PagesOf(range));
    IntervalSize(range.base / PAGE_SIZE, n);
  }

  /** The counter is right after a free if and only if none of the pages was free before. */
  lemma FreeCountsIff(usable: size_t, clear: set<nat>, bias: nat, range: Range)
    requires CountedAs(usable, clear, bias) && |clear + PagesOf(range)| < TWO_64 && range.length / PAGE_SIZE < TWO_64
    ensures CountedAs(Wrap(usable + range.length / PAGE_SIZE), clear + PagesOf(range), bias)
            <==> PagesOf(range) !! clear
  {
    var pages := PagesOf(range);
    IntervalSize(range.base / PAGE_SIZE, range.length / PAGE_SIZE);
    RemoveSize(pages, pages * clear);
    AddSize(clear, pages - pages * clear);
    assert clear + (pages - pages * clear) == clear + pages;
    if |pages * clear| == 0 { assert pages * clear == {}; }
  }

  // ---------- pmm_init ----------

  datatype MmapEntry = MmapEntry(range: Range, isFree: bool)

  /** The size of the bitmap in bytes, from the end of the last entry of the memory map. */
  function BitmapSize(mmap: seq<MmapEntry>): nat
    requires mmap != []
  {
    (mmap[|mmap| - 1].range.base + mmap[|mmap| - 1].range.length) / (PAGE_SIZE * 8)
  }

  /** What the boot protocol promises of usable entries, and that the bitmap covers them. */
  ghost predicate EntryOk(e: MmapEntry, size: nat) {
    e.isFree ==>
      && e.range.base % PAGE_SIZE == 0 && e.range.length % PAGE_SIZE == 0
      && e.range.base / PAGE_SIZE + e.range.length / PAGE_SIZE <= 8 * size
  }

  ghost predicate EntriesApart(d: MmapEntry, e: MmapEntry) {
    d.isFree && e.isFree ==> PagesOf(d.range) !! PagesOf(e.range)
  }

  ghost predicate MapOk(mmap: seq<MmapEntry>, size: nat) {
    && (forall i :: 0 <= i < |mmap| ==> EntryOk(mmap[i], size))
    && (forall i, j :: 0 <= i < j < |mmap| ==> EntriesApart(mmap[i], mmap[j]))
  }

  ghost function EntryPages(e: MmapEntry): set<nat> {
    if e.isFree then PagesOf(e.range) else {}
  }

  ghost function UsablePages(mmap: seq<MmapEntry>): set<nat> {
    if mmap == [] then {} else UsablePages(mmap[..|mmap| - 1]) + EntryPages(mmap[|mmap| - 1])
  }

  /** The first entry that holds the bitmap with a byte to spare. */
  function Home(mmap: seq<MmapEntry>, size: nat): (r: nat)
    ensures r <= |mmap|
    ensures r < |mmap| ==> mmap[r].isFree && mmap[r].range.length > size
    ensures forall i :: 0 <= i < r ==> !(mmap[i].isFree && mmap[i].range.length > size)
  {
    if mmap == [] then 0
    else if mmap[0].isFree && mmap[0].range.length > size then 0
    else 1 + Home(mmap[1..], size)
  }

  /** The entry behind the bitmap that was put at its start. */
  function Shrunk(e: MmapEntry, size: nat): MmapEntry
    requires e.range.length >= AlignUp(size)
  {
    e.(range := Range(e.range.base + AlignUp(size), e.range.length - AlignUp(size)))
  }

  lemma ShrunkOk(e: MmapEntry, size: nat)
    requires e.isFree && EntryOk(e, size) && e.range.length > size
    ensures e.range.length >= AlignUp(size)
    ensures EntryOk(Shrunk(e, size), size)
    ensures PagesOf(Shrunk(e, size).range) <= PagesOf(e.range)
    ensures e.range.base / PAGE_SIZE + size / PAGE_SIZE <= 8 * size
    ensures Interval(e.range.base / PAGE_SIZE, size / PAGE_SIZE)
            <= Interval(e.range.base / PAGE_SIZE, AlignUp(size) / PAGE_SIZE)
    ensures Interval(e.range.base / PAGE_SIZE, AlignUp(size) / PAGE_SIZE) !! PagesOf(Shrunk(e, size).range)
  {
    var first, n, up := e.range.base / PAGE_SIZE, e.range.length / PAGE_SIZE, AlignUp(size) / PAGE_SIZE;
    AlignedUp(size, up);
    WholeRange(e.range, first, n);
    ShrunkIs(e, size, first, n, up);
  }

  lemma AlignedUp(size: nat, up: nat)
    requires up == AlignUp(size) / PAGE_SIZE
    ensures AlignUp(size) == up * PAGE_SIZE && size <= up * PAGE_SIZE < size + PAGE_SIZE
    ensures size / PAGE_SIZE <= up && (size > 0 ==> size / PAGE_SIZE < size)
  {
  }

  lemma WholeRange(r: Range, first: nat, n: nat)
    requires r.base % PAGE_SIZE == 0 && r.length % PAGE_SIZE == 0
    requires first == r.base / PAGE_SIZE && n == r.length / PAGE_SIZE
    ensures r == Range(first * PAGE_SIZE, n * PAGE_SIZE) && PagesOf(r) == Interval(first, n)
  {
  }

  lemma ShrunkIs(e: MmapEntry, size: nat, first: nat, n: nat, up: nat)
    requires e.range == Range(first * PAGE_SIZE, n * PAGE_SIZE) && AlignUp(size) == up * PAGE_SIZE
    requires n * PAGE_SIZE > size && up * PAGE_SIZE < size + PAGE_SIZE
    ensures up <= n && Shrunk(e, size) == e.(range := Range((first + up) * PAGE_SIZE, (n - up) * PAGE_SIZE))
    ensures PagesOf(Shrunk(e, size).range) == Interval(first + up, n - up)
  {
    WholeRange(Range((first + up) * PAGE_SIZE, (n - up) * PAGE_SIZE), first + up, n - up);
  }

  lemma ShrunkMapOk(mmap: seq<MmapEntry>, size: nat, k: nat)
    requires MapOk(mmap, size) && k < |mmap| && mmap[k].isFree && mmap[k].range.length > size
    ensures mmap[k].range.length >= AlignUp(size)
    ensures MapOk(mmap[k := Shrunk(mmap[k], size)], size)
  {
    ShrunkOk(mmap[k], size);
    var s := mmap[k := Shrunk(mmap[k], size)];
    forall i, j | 0 <= i < j < |s|
      ensures EntriesApart(s[i], s[j])
    {
      assert EntriesApart(mmap[i], mmap[j]);
    }
  }

  lemma {:induction false} InUsable(mmap: seq<MmapEntry>, p: nat) returns (i: nat)
    requires p in UsablePages(mmap)
    ensures i < |mmap| && p in EntryPages(mmap[i])
  {
    if p in EntryPages(mmap[|mmap| - 1]) {
      i := |mmap| - 1;
    } else {
      i := InUsable(mmap[..|mmap| - 1], p);
    }
  }

  /** The pages of an entry are not among those of the entries before it. */
  lemma EntryIsNew(mmap: seq<MmapEntry>, size: nat, k: nat)
    requires MapOk(mmap, size) && k < |mmap|
    ensures UsablePages(mmap[..k]) !! EntryPages(mmap[k])
    ensures UsablePages(mmap[..k + 1]) == UsablePages(mmap[..k]) + EntryPages(mmap[k])
  {
    assert mmap[..k + 1][..k] == mmap[..k];
    forall p | p in UsablePages(mmap[..k])
      ensures p !in EntryPages(mmap[k])
    {
      var i := InUsable(mmap[..k], p);
      assert EntriesApart(mmap[i], mmap[k]);
    }
  }

  /** The pages under the bitmap are not among the usable ones that are left. */
  lemma BitmapNotUsable(mmap: seq<MmapEntry>, size: nat, k: nat)
    requires MapOk(mmap, size) && k < |mmap| && mmap[k].isFree && mmap[k].range.length > size
    requires mmap[k].range.length >= AlignUp(size)
    ensures Interval(mmap[k].range.base / PAGE_SIZE, AlignUp(size) / PAGE_SIZE)
            !! UsablePages(mmap[k := Shrunk(mmap[k], size)])
  {
    var s := mmap[k := Shrunk(mmap[k], size)];
    ShrunkOk(mmap[k], size);
    forall p | p in UsablePages(s)
      ensures p !in Interval(mmap[k].range.base / PAGE_SIZE, AlignUp(size) / PAGE_SIZE)
    {
      var i := InUsable(s, p);
      if i != k {
        if i < k { assert EntriesApart(mmap[i], mmap[k]); } else { assert EntriesApart(mmap[k], mmap[i]); }
        assert p !in PagesOf(mmap[k].range);
      }
    }
  }

  lemma {:induction false} EntryUsable(mmap: seq<MmapEntry>, i: nat)
    requires i < |mmap|
    ensures EntryPages(mmap[i]) <= UsablePages(mmap)
  {
    if i < |mmap| - 1 { EntryUsable(mmap[..|mmap| - 1], i); }
  }

  /** Page p lies in a free entry. */
  ghost predicate FreeAt(e: MmapEntry, p: nat) {
    e.isFree && e.range.base <= p * 4096 && (p + 1) * 4096 <= e.range.base + e.range.length
  }

  lemma FreeAtIs(e: MmapEntry, size: nat, p: nat)
    requires EntryOk(e, size)
    ensures p in EntryPages(e) <==> FreeAt(e, p)
  {
  }

  /** The usable pages are those that lie in a free entry. */
  lemma UsableIs(mmap: seq<MmapEntry>, size: nat, p: nat)
    requires MapOk(mmap, size)
    ensures p in UsablePages(mmap) <==> exists e :: e in mmap && FreeAt(e, p)
  {
    if p in UsablePages(mmap) {
      var i := InUsable(mmap, p);
      FreeAtIs(mmap[i], size, p);
      assert mmap[i] in mmap;
    }
    if e :| e in mmap && FreeAt(e, p) {
      var i :| 0 <= i < |mmap| && mmap[i] == e;
      FreeAtIs(e, size, p);
      EntryUsable(mmap, i);
    }
  }

  /** The bitmap costs exactly the pages that it touches: size bytes from the start of its entry,
      rounded up to whole pages. */
  lemma BitmapTakes(s: seq<MmapEntry>, size: nat, k: nat, t: seq<MmapEntry>, p: nat)
    requires MapOk(s, size) && BitmapPlaced(s, size, k, t) && s[k].isFree && s[k].range.length > size
    ensures p in UsablePages(t) <==>
              p in UsablePages(s) && !(s[k].range.base <= p * 4096 < s[k].range.base + size)
  {
    var under := Interval(s[k].range.base / PAGE_SIZE, AlignUp(size) / PAGE_SIZE);
    UnderBitmap(s[k], size, p);
    if p in UsablePages(t) {
      var i := InUsable(t, p);
      EntryUsable(s, i);
      assert p in EntryPages(s[i]);
    }
    if p in UsablePages(s) && p !in under {
      var i := InUsable(s, p);
      EntryUsable(t, i);
      assert p in EntryPages(t[i]);
    }
  }

  lemma UnderBitmap(e: MmapEntry, size: nat, p: nat)
    requires e.isFree && EntryOk(e, size) && e.range.length > size
    ensures e.range.length >= AlignUp(size)
    ensures EntryPages(Shrunk(e, size)) == EntryPages(e) - Interval(e.range.base / PAGE_SIZE, AlignUp(size) / PAGE_SIZE)
    ensures p in Interval(e.range.base / PAGE_SIZE, AlignUp(size) / PAGE_SIZE)
            <==> e.range.base <= p * 4096 < e.range.base + size
  {
  }

  /** The bitmap has a bit for each page below the end of the last entry, but for the up to seven
      pages that do not fill a byte. */
  lemma BitmapCovers(mmap: seq<MmapEntry>)
    requires mmap != []
    ensures var last := mmap[|mmap| - 1].range;
            8 * BitmapSize(mmap) * 4096 <= last.base + last.length < 8 * (BitmapSize(mmap) + 1) * 4096
  {
  }

  /** What pmm_init leaves of the map s: a halted kernel if no entry has room for the bitmap, and
      otherwise an allocator whose free pages are the usable ones that the bitmap does not touch. */
  twostate predicate Initialised(s: seq<MmapEntry>, size: nat, t: seq<MmapEntry>, new r: Outcome<Allocator>)
    reads if r.Done? then {r.value, r.value.bitmap} else {}
  {
    var k := Home(s, size);
    if k == |s| then r == Halted
    else
      && r.Done? && fresh(r.value) && fresh(r.value.bitmap) && r.value.Valid()
      && BitmapPlaced(s, size, k, t)
      && r.value.bitmap.Length == size && r.value.lastPage == 0 && r.value.live == {}
      && r.value.avail == r.value.Clear() == UsablePages(t)
      && r.value.bias == size / PAGE_SIZE
  }

  /** pmm_init over a memory map that the bitmap covers: a bitmap of used pages is put into the
      first entry with room, and then the usable pages are freed. */
  method Init(mmap: array<MmapEntry>) returns (r: Outcome<Allocator>)
    requires mmap.Length > 0 && MapOk(mmap[..], BitmapSize(mmap[..]))
    requires mmap[mmap.Length - 1].range.base + mmap[mmap.Length - 1].range.length < TWO_64
    modifies mmap
    ensures Initialised(old(mmap[..]), BitmapSize(old(mmap[..])), mmap[..], r)
  {
    var last := mmap[mmap.Length - 1].range;
    var size := (last.base + last.length) / (PAGE_SIZE * 8);
    r := InitBitmap(mmap, size);
  }

  method InitBitmap(mmap: array<MmapEntry>, size: nat) returns (r: Outcome<Allocator>)
    requires MapOk(mmap[..], size) && 8 * size < TWO_64
    modifies mmap
    ensures Initialised(old(mmap[..]), size, mmap[..], r)
  {
    var k := FindHome(mmap, size);
    if k == mmap.Length {
      return Halted;
    }
    var base := PlaceBitmap(mmap, size, k);
    r := FreeEntries(mmap, size, base);
  }

  /** The bitmap lies at the start of entry k, which gives up the pages that it touches; what is
      usable in the new map t keeps clear of them. */
  ghost predicate BitmapPlaced(s: seq<MmapEntry>, size: nat, k: nat, t: seq<MmapEntry>) {
    && k < |s| && s[k].range.length >= AlignUp(size) && t == s[k := Shrunk(s[k], size)]
    && Interval(s[k].range.base / PAGE_SIZE, AlignUp(size) / PAGE_SIZE) !! UsablePages(t)
  }

  method PlaceBitmap(mmap: array<MmapEntry>, size: nat, k: nat) returns (base: nat)
    requires MapOk(mmap[..], size) && k < mmap.Length && mmap[k].isFree && mmap[k].range.length > size
    modifies mmap
    ensures BitmapPlaced(old(mmap[..]), size, k, mmap[..]) && MapOk(mmap[..], size)
    ensures base / PAGE_SIZE + size / PAGE_SIZE <= 8 * size
    ensures Interval(base / PAGE_SIZE, size / PAGE_SIZE) !! UsablePages(mmap[..])
  {
    ghost var s := mmap[..];
    base := mmap[k].range.base;
    ShrunkOk(mmap[k], size);
    ShrunkMapOk(s, size, k);
    BitmapNotUsable(s, size, k);
    mmap[k] := Shrunk(mmap[k], size);
    assert mmap[..] == s[k := Shrunk(s[k], size)];
  }

  /** The second half of pmm_init: every page is used, then the usable ones are freed, then the
      pages of the bitmap are marked used once more. */
  method FreeEntries(mmap: array<MmapEntry>, size: nat, base: nat) returns (r: Outcome<Allocator>)
    requires MapOk(mmap[..], size) && base / PAGE_SIZE + size / PAGE_SIZE <= 8 * size < TWO_64
    requires Interval(base / PAGE_SIZE, size / PAGE_SIZE) !! UsablePages(mmap[..])
    ensures r.Done? && fresh(r.value) && fresh(r.value.bitmap) && r.value.Valid()
    ensures r.value.bitmap.Length == size && r.value.lastPage == 0 && r.value.live == {}
    ensures r.value.avail == r.value.Clear() == UsablePages(mmap[..])
    ensures r.value.bias == size / PAGE_SIZE
  {
    ghost var t := mmap[..];
    var p := new Allocator(size, UsablePages(t), size / PAGE_SIZE);
    FreeAll(p, mmap);
    assert PagesOf(Range(base, size)) == Interval(base / PAGE_SIZE, size / PAGE_SIZE);
    CountBitmap(p.usablePages, UsablePages(t), size / PAGE_SIZE);
    p.RangeUsed(Range(base, size));
    assert p.Clear() == UsablePages(t);
    NothingLive(UsablePages(t));
    r := Done(p);
  }

  method FreeAll(p: Allocator, mmap: array<MmapEntry>)
    requires MapOk(mmap[..], p.bitmap.Length) && 8 * p.bitmap.Length < TWO_64
    requires p.Clear() == {} && p.usablePages == 0 && (p.bitmap as object) != mmap
    modifies p`usablePages, p.bitmap
    ensures p.Clear() == UsablePages(mmap[..]) && CountedAs(p.usablePages, p.Clear(), 0)
    ensures mmap[..] == old(mmap[..])
  {
    ghost var t := mmap[..];
    var i := 0;
    while i < mmap.Length
      invariant i <= mmap.Length && mmap[..] == t
      invariant p.Clear() == UsablePages(t[..i])
      invariant CountedAs(p.usablePages, p.Clear(), 0)
    {
      EntryIsNew(t, p.bitmap.Length, i);
      FreeEntry(p, mmap[i]);
      i := i + 1;
    }
    assert t[..i] == t;
  }

  method FreeEntry(p: Allocator, e: MmapEntry)
    requires EntryOk(e, p.bitmap.Length) && 8 * p.bitmap.Length < TWO_64
    requires p.Clear() !! EntryPages(e) && CountedAs(p.usablePages, p.Clear(), 0)
    modifies p`usablePages, p.bitmap
    ensures p.Clear() == old(p.Clear()) + EntryPages(e)
    ensures CountedAs(p.usablePages, p.Clear(), 0)
  {
    if e.isFree {
      var range := Range(AlignDown(e.range.base), AlignUp(e.range.length));
      assert range == e.range;
      ghost var after := p.Clear() + PagesOf(range);
      FreeBound(p.bitmap[..], range);
      CountFree(p.usablePages, p.Clear(), 0, range, range.length / PAGE_SIZE);
      p.RangeUnused(range);
      assert p.Clear() == after;
    }
  }

  lemma CountBitmap(usable: size_t, clear: set<nat>, n: nat)
    requires CountedAs(usable, clear, 0) && n < TWO_64
    ensures CountedAs(Wrap(usable - n), clear, n)
  {
  }

  lemma NothingLive(clear: set<nat>)
    ensures LiveOk({}, clear, clear)
  {
  }

  method FindHome(mmap: array<MmapEntry>, size: nat) returns (k: nat)
    ensures k == Home(mmap[..], size)
  {
    k := 0;
    while k < mmap.Length && !(mmap[k].isFree && mmap[k].range.length > size)
      invariant k <= mmap.Length
      invariant forall i :: 0 <= i < k ==> !(mmap[i].isFree && mmap[i].range.length > size)
    {
      k := k + 1;
    }
    HomeIs(mmap[..], size, k);
  }

  lemma HomeIs(mmap: seq<MmapEntry>, size: nat, k: nat)
    requires k <= |mmap|
    requires k < |mmap| ==> mmap[k].isFree && mmap[k].range.length > size
    requires forall i :: 0 <= i < k ==> !(mmap[i].isFree && mmap[i].range.length > size)
    ensures Home(mmap, size) == k
  {
  }

  // ---------- a run that does not end ----------

  lemma OnlyBitmapUsed(s: seq<bv8>)
    requires |s| == 2 && ClearPages(s) == Interval(1, 15)
    ensures FirstRun(s, 0, 1, 2) == Some(1) && FirstRun(s, 2, 1, 2) == None
  {
    assert 1 in ClearPages(s) && 0 !in ClearPages(s);
    FirstRunIs(s, 0, 1, 2, 1);
  }

  lemma SixteenPages(s: seq<MmapEntry>)
    requires s == [MmapEntry(Range(0, 16 * PAGE_SIZE), true)]
    ensures BitmapSize(s) == 2 && MapOk(s, 2) && Home(s, 2) == 0
  {
  }

  lemma FifteenLeft(s: seq<MmapEntry>, t: seq<MmapEntry>)
    requires s == [MmapEntry(Range(0, 16 * PAGE_SIZE), true)] && BitmapPlaced(s, 2, 0, t)
    ensures UsablePages(t) == Interval(1, 15)
  {
    assert t == [MmapEntry(Range(PAGE_SIZE, 15 * PAGE_SIZE), true)];
    assert t[..0] == [];
  }

  /** Page 0 holds the bitmap, and pages 1 to 15 are free. */
  ghost predicate Sixteen(pmm: Allocator)
    reads pmm, pmm.bitmap
  {
    pmm.Valid() && pmm.bitmap.Length == 2 && pmm.bias == 0 && pmm.Clear() == Interval(1, 15)
  }

  /** pmm_init over pages 0 to 15: the bitmap goes to page 0. */
  method InitSixteen() returns (pmm: Allocator)
    ensures fresh(pmm) && fresh(pmm.bitmap) && pmm.live == {}
    ensures Sixteen(pmm) && pmm.lastPage == 0
  {
    var mmap := new MmapEntry[1](_ => MmapEntry(Range(0, 16 * PAGE_SIZE), true));
    ghost var s := mmap[..];
    assert s == [mmap[0]];
    SixteenPages(s);
    var r := Init(mmap);
    FifteenLeft(s, mmap[..]);
    pmm := r.value;
  }

  method FirstAlloc(pmm: Allocator) returns (first: Outcome<Range>)
    requires Sixteen(pmm) && pmm.live == {} && pmm.lastPage == 0
    modifies pmm, pmm.bitmap
    ensures pmm.Valid() && pmm.lastPage == 2 && pmm.Clear() == Interval(1, 15) - Interval(1, 1)
    ensures first == Done(Range(PAGE_SIZE, PAGE_SIZE)) && first.value in pmm.live
  {
    IntervalSize(1, 15);
    OnlyBitmapUsed(pmm.bitmap[..]);
    first := pmm.Alloc(1);
    FirstIsPageOne(first.value, Interval(1, 15));
  }

  lemma FirstIsPageOne(range: Range, clear: set<nat>)
    requires Handed(range, 1, clear) && range.base / PAGE_SIZE == 1
    ensures range == Range(PAGE_SIZE, PAGE_SIZE) && PagesOf(range) == Interval(1, 1)
  {
  }

  /** One allocation, and its free. */
  method AllocAndFree(pmm: Allocator) returns (first: Outcome<Range>)
    requires Sixteen(pmm) && pmm.live == {} && pmm.lastPage == 0
    modifies pmm, pmm.bitmap
    ensures Sixteen(pmm) && pmm.lastPage == 2 && first == Done(Range(PAGE_SIZE, PAGE_SIZE))
  {
    first := FirstAlloc(pmm);
    assert PagesOf(Range(PAGE_SIZE, PAGE_SIZE)) == Interval(1, 1);
    pmm.Free(first.value);
    assert pmm.Clear() == Interval(1, 15);
  }

  /** After one allocation and its free the next allocation never returns, although 15 pages are
      free. */
  method HangsAfterFree() returns (first: Outcome<Range>, again: Outcome<Range>, ghost free: set<nat>)
    ensures first == Done(Range(PAGE_SIZE, PAGE_SIZE)) && again == Hung && free == Interval(1, 15)
  {
    var pmm := InitSixteen();
    first := AllocAndFree(pmm);
    free := pmm.Clear();
    IntervalSize(1, 15);
    OnlyBitmapUsed(pmm.bitmap[..]);
    again := pmm.Alloc(1);
  }
}
