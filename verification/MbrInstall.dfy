/** limine-install.c: installing the boot loader on a disk with a master boot record. */
module MbrInstall {
  import opened BlockCache
  import opened Words

  const SECTOR: nat := 512
  const GPT_HEADER: nat := 92             // sizeof(struct gpt_table_header)
  const PROBED: nat := 4096 + GPT_HEADER  // what the search for one reads
  const EFI_PART: seq<byte> := [0x45, 0x46, 0x49, 0x20, 0x50, 0x41, 0x52, 0x54]
  const ECH_FS: seq<byte> := [0x5f, 0x45, 0x43, 0x48, 0x5f, 0x46, 0x53, 0x5f]
  const FAT: seq<byte> := [0x46, 0x41, 0x54]

  // ---------- stage 2 and its halves ----------

  function Sectors(size: nat): nat {
    (size + 511) / 512
  }

  /** What each half should hold; the fields that say so are 16 bits wide. */
  function HalfA(size: nat): nat {
    Sectors(size) / 2 * 512 + (if Sectors(size) % 2 != 0 then 512 else 0)
  }

  function HalfB(size: nat): nat {
    Sectors(size) / 2 * 512
  }

  function SizeA(size: nat): nat {
    HalfA(size) % 0x1_0000
  }

  function SizeB(size: nat): nat {
    HalfB(size) % 0x1_0000
  }

  /** The first half fits into stage 2 unless stage 2 is less than a sector. */
  lemma FirstHalfFits(size: nat)
    ensures SizeA(size) <= size <==> size == 0 || size >= SECTOR
  {
  }

  /** The two sizes that the boot sector is told cover stage 2 if and only if the first half is
      below 64 KiB. */
  lemma SizesCover(size: nat)
    ensures SizeA(size) + SizeB(size) >= size <==> HalfA(size) < 0x1_0000
  {
  }

  // ---------- the disk afterwards ----------

  /** Where stage 2 is, as the boot sector is told. */
  function Location(size: nat): (s: seq<byte>)
    ensures |s| == 20
  {
    Encode(SizeA(size), 2) + Encode(SizeB(size), 2) + Encode(SECTOR, 8) + Encode(SECTOR + SizeA(size), 8)
  }

  /** Byte i of the disk: the boot image, but for the timestamp and the partition table, which
      stay, and for the location of stage 2, which is filled in; the rest stays. */
  function FinalByte(was: seq<byte>, img: seq<byte>, i: nat): byte
    requires i < |was| && |img| >= SECTOR
  {
    if 218 <= i < 224 || 440 <= i < 510 then was[i]
    else if 420 <= i < 440 then Location(|img| - SECTOR)[i - 420]
    else if i < |img| then img[i]
    else was[i]
  }

  ghost predicate IsInstalled(was: seq<byte>, img: seq<byte>, now: seq<byte>)
    requires |img| >= SECTOR
  {
    |now| == |was| >= |img| && forall i :: 0 <= i < |was| ==> now[i] == FinalByte(was, img, i)
  }

  /** The writes of the installation, one after the other. */
  ghost function AfterWrites(was: seq<byte>, img: seq<byte>): seq<byte>
    requires |img| >= SECTOR && SizeA(|img| - SECTOR) <= |img| - SECTOR && |was| >= SECTOR
  {
    var size := |img| - SECTOR;
    var a := SizeA(size);
    var s1 := Overwrite(was, 0, img[..SECTOR]);
    var s2 := Overwrite(s1, SECTOR, img[SECTOR..SECTOR + a]);
    var s3 := Overwrite(s2, SECTOR + a, img[SECTOR + a..]);
    var s4 := Overwrite(s3, 420, Encode(a, 2));
    var s5 := Overwrite(s4, 422, Encode(SizeB(size), 2));
    var s6 := Overwrite(s5, 424, Encode(SECTOR, 8));
    var s7 := Overwrite(s6, 432, Encode(SECTOR + a, 8));
    var s8 := Overwrite(s7, 218, was[218..224]);
    Overwrite(s8, 440, was[440..510])
  }

  lemma ImageWrites(was: seq<byte>, img: seq<byte>, a: nat)
    requires |img| >= SECTOR && SECTOR + a <= |img|
    ensures Overwrite(Overwrite(Overwrite(was, 0, img[..SECTOR]), SECTOR, img[SECTOR..SECTOR + a]),
                      SECTOR + a, img[SECTOR + a..])
         == Overwrite(was, 0, img)
  {
  }

  lemma LocationWrites(s: seq<byte>, size: nat)
    ensures Overwrite(Overwrite(Overwrite(Overwrite(s, 420, Encode(SizeA(size), 2)), 422, Encode(SizeB(size), 2)),
              424, Encode(SECTOR, 8)), 432, Encode(SECTOR + SizeA(size), 8))
         == Overwrite(s, 420, Location(size))
  {
    var a, b, la, lb := Encode(SizeA(size), 2), Encode(SizeB(size), 2), Encode(SECTOR, 8),
        Encode(SECTOR + SizeA(size), 8);
    OverwriteAdjoining(s, 420, a, b);
    OverwriteAdjoining(s, 420, a + b, la);
    OverwriteAdjoining(s, 420, a + b + la, lb);
  }

  /** The overlapping writes leave exactly the disk that they should. */
  lemma WritesInstall(was: seq<byte>, img: seq<byte>)
    requires |img| >= SECTOR && SizeA(|img| - SECTOR) <= |img| - SECTOR && |was| >= |img|
    ensures IsInstalled(was, img, AfterWrites(was, img))
  {
    var size := |img| - SECTOR;
    ImageWrites(was, img, SizeA(size));
    LocationWrites(Overwrite(was, 0, img), size);
  }

  /** What a boot sector loads that follows its location fields. */
  ghost function Loaded(now: seq<byte>): seq<byte>
    requires |now| >= 440
  {
    var a, b := Decode(now[420..422]), Decode(now[422..424]);
    var la, lb := Decode(now[424..432]), Decode(now[432..440]);
    (if la + a <= |now| then now[la..la + a] else []) + (if lb + b <= |now| then now[lb..lb + b] else [])
  }

  /** A field of the boot sector that is part of the location of stage 2. */
  lemma LocationField(now: seq<byte>, location: seq<byte>, from: nat, n: nat, v: nat)
    requires |now| >= 440 && |location| == 20 && from + n <= 20
    requires now[420..440] == location && location[from..from + n] == Encode(v, n) && v < Power256(n)
    ensures Decode(now[420 + from..420 + from + n]) == v
  {
    DecodeEncode(v, n);
    var field := now[420 + from..420 + from + n];
    forall i | 0 <= i < n
      ensures field[i] == location[from + i]
    {
      assert now[420..440][from + i] == field[i];
    }
    assert field == location[from..from + n];
  }

  lemma LocationParts(size: nat)
    ensures Location(size)[0..2] == Encode(SizeA(size), 2) && Location(size)[2..4] == Encode(SizeB(size), 2)
    ensures Location(size)[4..12] == Encode(SECTOR, 8) && Location(size)[12..20] == Encode(SECTOR + SizeA(size), 8)
  {
  }

  lemma LocationFields(was: seq<byte>, img: seq<byte>, now: seq<byte>)
    requires |img| >= SECTOR && IsInstalled(was, img, now)
    ensures var size := |img| - SECTOR;
      && Decode(now[420..422]) == SizeA(size) && Decode(now[422..424]) == SizeB(size)
      && Decode(now[424..432]) == SECTOR && Decode(now[432..440]) == SECTOR + SizeA(size)
  {
    var size := |img| - SECTOR;
    var location, a, b := Location(size), SizeA(size), SizeB(size);
    assert now[420..440] == location;
    LocationParts(size);
    TwoBytes();
    EightBytes();
    LocationField(now, location, 0, 2, a);
    LocationField(now, location, 2, 2, b);
    LocationField(now, location, 4, 8, SECTOR);
    LocationField(now, location, 12, 8, SECTOR + a);
  }

  /** The disk afterwards, part by part. */
  ghost predicate DiskIs(was: seq<byte>, img: seq<byte>, now: seq<byte>)
    requires |was| >= |img| >= 512
  {
    var sectors := (|img| - 512 + 511) / 512;
    && |now| == |was|
    && now[..218] == img[..218] && now[218..224] == was[218..224] && now[224..420] == img[224..420]
    && Decode(now[420..422]) == (sectors + 1) / 2 * 512 % 0x1_0000
    && Decode(now[422..424]) == sectors / 2 * 512 % 0x1_0000
    && Decode(now[424..432]) == 512 && Decode(now[432..440]) == 512 + Decode(now[420..422])
    && now[440..510] == was[440..510] && now[510..|img|] == img[510..] && now[|img|..] == was[|img|..]
  }

  lemma InstalledIs(was: seq<byte>, img: seq<byte>, now: seq<byte>)
    requires |img| >= 512 && IsInstalled(was, img, now)
    ensures |was| >= |img| && DiskIs(was, img, now)
  {
    LocationFields(was, img, now);
    HalvesAre(|img| - 512);
    Part(was, img, now, img, 0, 218);
    Part(was, img, now, was, 218, 224);
    Part(was, img, now, img, 224, 420);
    Part(was, img, now, was, 440, 510);
    Part(was, img, now, img, 510, |img|);
    Part(was, img, now, was, |img|, |was|);
    assert now[0..218] == now[..218] && img[0..218] == img[..218] && img[510..|img|] == img[510..];
  }

  /** The bytes from lo to hi come from one source. */
  lemma Part(was: seq<byte>, img: seq<byte>, now: seq<byte>, source: seq<byte>, lo: nat, hi: nat)
    requires |img| >= SECTOR && IsInstalled(was, img, now) && lo <= hi <= |was| && hi <= |source|
    requires forall i :: lo <= i < hi ==> FinalByte(was, img, i) == source[i]
    ensures now[lo..hi] == source[lo..hi]
  {
  }

  lemma HalvesAre(size: nat)
    ensures SizeA(size) == ((size + 511) / 512 + 1) / 2 * 512 % 0x1_0000
    ensures SizeB(size) == (size + 511) / 512 / 2 * 512 % 0x1_0000
  {
  }

  /** The boot sector finds all of stage 2 if and only if the halves fit their fields. */
  lemma BootSectorLoadsStage2(was: seq<byte>, img: seq<byte>, now: seq<byte>)
    requires |img| >= SECTOR && IsInstalled(was, img, now)
    requires |was| >= SECTOR + SizeA(|img| - SECTOR) + SizeB(|img| - SECTOR)
    ensures img[SECTOR..] <= Loaded(now) <==> HalfA(|img| - SECTOR) < 0x1_0000
  {
    var size := |img| - SECTOR;
    var a, b := SizeA(size), SizeB(size);
    LocationFields(was, img, now);
    SizesCover(size);
    assert Loaded(now) == now[SECTOR..SECTOR + a] + now[SECTOR + a..SECTOR + a + b];
    assert Loaded(now) == now[SECTOR..SECTOR + a + b];
    if a + b >= size {
      assert now[SECTOR..SECTOR + a + b][..size] == img[SECTOR..];
    }
  }

  // ---------- is there a partition table ----------

  ghost predicate HasGpt(s: seq<byte>)
    requires |s| >= PROBED
  {
    s[512..520] == EFI_PART || s[4096..4104] == EFI_PART
  }

  predicate Active(b: byte) {
    b == 0x00 || b == 0x80
  }

  ghost predicate FlagsActive(s: seq<byte>)
    requires |s| >= 512
  {
    Active(s[446]) && Active(s[462]) && Active(s[478]) && Active(s[494])
  }

  ghost predicate HasFileSystem(s: seq<byte>)
    requires |s| >= 1082
  {
    s[4..12] == ECH_FS || s[54..57] == FAT || s[1080..1082] == [0x53, 0xef]
  }

  /** The checks that a disk passes before its first sector is replaced. */
  ghost predicate LooksLikeMbr(s: seq<byte>)
    requires |s| >= 1082
  {
    && s[218..220] == [0, 0]
    && (s[444..446] == [0, 0] || s[444..446] == [0x5a, 0x5a])
    && s[510..512] == [0x55, 0xaa]
    && FlagsActive(s) && !HasFileSystem(s)
  }

  /** The checks, byte by byte. */
  lemma LooksLikeMbrIs(s: seq<byte>)
    requires |s| >= 1082
    ensures LooksLikeMbr(s) <==>
      && s[218] == 0 && s[219] == 0
      && ((s[444] == 0 && s[445] == 0) || (s[444] == 0x5a && s[445] == 0x5a))
      && s[510] == 0x55 && s[511] == 0xaa
      && s[446] in {0x00, 0x80} && s[462] in {0x00, 0x80} && s[478] in {0x00, 0x80} && s[494] in {0x00, 0x80}
      && s[4..12] != ['_' as int, 'E' as int, 'C' as int, 'H' as int, '_' as int, 'F' as int, 'S' as int, '_' as int]
      && s[54..57] != ['F' as int, 'A' as int, 'T' as int] && !(s[1080] == 0x53 && s[1081] == 0xef)
  {
    assert s[218..220] == [s[218], s[219]] && s[444..446] == [s[444], s[445]];
    assert s[510..512] == [s[510], s[511]] && s[1080..1082] == [s[1080], s[1081]];
  }

  lemma HasGptIs(s: seq<byte>)
    requires |s| >= PROBED
    ensures var signature := ['E' as int, 'F' as int, 'I' as int, ' ' as int, 'P' as int, 'A' as int, 'R' as int,
                              'T' as int];
            HasGpt(s) <==> s[512..520] == signature || s[4096..4104] == signature
  {
  }

  // ---------- the installation ----------

  /** The device has whole blocks up to end. */
  ghost predicate Whole(c: Cache, end: nat)
    requires c.cache.Length > 0
  {
    HasBlocks(c.disk.Length, c.cache.Length, 0, end)
  }

  lemma WholeCovers(c: Cache, end: nat, loc: nat, count: nat)
    requires c.cache.Length > 0 && loc + count <= end
    ensures Whole(c, end) ==> HasBlocks(c.disk.Length, c.cache.Length, loc, count)
    ensures loc + count == end && count > 0 && HasBlocks(c.disk.Length, c.cache.Length, loc, count) ==> Whole(c, end)
  {
    if count > 0 { BlockEndsOrdered(loc + count - 1, end - 1, c.cache.Length); }
  }

  method Read(c: Cache, loc: nat, n: nat) returns (ok: bool, data: seq<byte>)
    requires c.Valid() && n > 0
    modifies c, c.disk, c.cache
    ensures ok <==> HasBlocks(c.disk.Length, c.cache.Length, loc, n)
    ensures ok ==> c.Valid() && c.Logical() == old(c.Logical())
    ensures ok ==> loc + n <= c.disk.Length && data == c.Logical()[loc..loc + n]
  {
    var buffer := new byte[n];
    ok := c.DeviceRead(buffer, loc, n);
    data := buffer[..];
  }

  method ProbeGpt(c: Cache) returns (ok: bool, gpt: bool)
    requires c.Valid()
    modifies c, c.disk, c.cache
    ensures Whole(c, PROBED) ==> ok
    ensures ok && !gpt ==> Whole(c, PROBED)
    ensures ok ==> c.Valid() && c.Logical() == old(c.Logical())
    ensures ok && |c.Logical()| >= PROBED ==> gpt == HasGpt(c.Logical())
  {
    WholeCovers(c, PROBED, 512, GPT_HEADER);
    WholeCovers(c, PROBED, 4096, GPT_HEADER);
    var header;
    gpt := false;
    ok, header := Read(c, 512, GPT_HEADER);
    if ok {
      assert header[..8] == c.Logical()[512..520];
      gpt := header[..8] == EFI_PART;
      if !gpt {
        ok, header := Read(c, 4096, GPT_HEADER);
        if ok {
          assert header[..8] == c.Logical()[4096..4104];
          gpt := header[..8] == EFI_PART;
        }
      }
    }
  }

  /** A read from the part of the device that the probe has shown to be there. */
  method ReadProbed(c: Cache, loc: nat, n: nat) returns (data: seq<byte>)
    requires c.Valid() && Whole(c, PROBED) && 0 < n && loc + n <= PROBED
    modifies c, c.disk, c.cache
    ensures c.Valid() && c.Logical() == old(c.Logical())
    ensures loc + n <= c.disk.Length && data == c.Logical()[loc..loc + n]
  {
    WholeCovers(c, PROBED, loc, n);
    var ok;
    ok, data := Read(c, loc, n);
  }

  method CheckFlag(c: Cache, loc: nat) returns (active: bool)
    requires c.Valid() && Whole(c, PROBED) && loc < PROBED
    modifies c, c.disk, c.cache
    ensures c.Valid() && c.Logical() == old(c.Logical())
    ensures loc < c.disk.Length && active == Active(c.Logical()[loc])
  {
    var hint := ReadProbed(c, loc, 1);
    active := Active(hint[0]);
  }

  method CheckFlags(c: Cache) returns (active: bool)
    requires c.Valid() && Whole(c, PROBED)
    modifies c, c.disk, c.cache
    ensures c.Valid() && c.Logical() == old(c.Logical())
    ensures c.disk.Length >= SECTOR && active == FlagsActive(c.Logical())
  {
    var first := CheckFlag(c, 446);
    var second := CheckFlag(c, 462);
    var third := CheckFlag(c, 478);
    var fourth := CheckFlag(c, 494);
    WholeCovers(c, PROBED, 0, PROBED);
    HasBlockOf(c.disk.Length, c.cache.Length, 0, PROBED, 0);
    active := first && second && third && fourth;
  }

  method CheckFileSystem(c: Cache) returns (found: bool)
    requires c.Valid() && Whole(c, PROBED)
    modifies c, c.disk, c.cache
    ensures c.Valid() && c.Logical() == old(c.Logical())
    ensures c.disk.Length >= 1082 && found == HasFileSystem(c.Logical())
  {
    var ech := ReadProbed(c, 4, 8);
    var fat := ReadProbed(c, 54, 3);
    var ext := ReadProbed(c, 1080, 2);
    found := ech == ECH_FS || fat == FAT || ext == [0x53, 0xef];
  }

  method CheckMbr(c: Cache) returns (mbr: bool)
    requires c.Valid() && Whole(c, PROBED)
    modifies c, c.disk, c.cache
    ensures c.Valid() && c.Logical() == old(c.Logical())
    ensures c.disk.Length >= 1082 && mbr == LooksLikeMbr(c.Logical())
  {
    var stamp := ReadProbed(c, 218, 2);
    var id := ReadProbed(c, 444, 2);
    var signature := ReadProbed(c, 510, 2);
    var flags := CheckFlags(c);
    var filesystem := CheckFileSystem(c);
    mbr := stamp == [0, 0] && (id == [0, 0] || id == [0x5a, 0x5a]) && signature == [0x55, 0xaa] && flags && !filesystem;
  }

  /** How the installation ends.  PastImage: with a write of bytes from behind the end of the boot
      image; nothing is known of the disk then. */
  datatype Result = Installed | NoTable | OnGpt | PastImage | Failed

  /** The boot image in its two halves, behind the boot sector. */
  method WriteImage(c: Cache, img: seq<byte>, a: nat) returns (ok: bool)
    requires c.Valid() && SECTOR + a <= |img| && Whole(c, PROBED)
    modifies c, c.disk, c.cache
    ensures ok <==> Whole(c, |img|)
    ensures ok ==> c.Valid() && |img| <= c.disk.Length
    ensures ok ==> c.Logical() == Overwrite(Overwrite(Overwrite(old(c.Logical()), 0, img[..SECTOR]),
                                     SECTOR, img[SECTOR..SECTOR + a]), SECTOR + a, img[SECTOR + a..])
  {
    WholeCovers(c, PROBED, 0, SECTOR);
    WholeCovers(c, |img|, SECTOR, a);
    WholeCovers(c, |img|, SECTOR + a, |img| - SECTOR - a);
    WholeCovers(c, |img|, 0, SECTOR);
    ok := c.DeviceWrite(img[..SECTOR], 0);
    ok := c.DeviceWrite(img[SECTOR..SECTOR + a], SECTOR);
    if ok {
      ok := c.DeviceWrite(img[SECTOR + a..], SECTOR + a);
    }
  }

  method WriteProbed(c: Cache, data: seq<byte>, loc: nat)
    requires c.Valid() && Whole(c, PROBED) && loc + |data| <= PROBED
    modifies c, c.disk, c.cache
    ensures c.Valid() && c.Logical() == Overwrite(old(c.Logical()), loc, data)
  {
    WholeCovers(c, PROBED, loc, |data|);
    var ok := c.DeviceWrite(data, loc);
  }

  method WriteLocation(c: Cache, size: nat)
    requires c.Valid() && Whole(c, PROBED)
    modifies c, c.disk, c.cache
    ensures c.Valid()
    ensures c.Logical() == Overwrite(Overwrite(Overwrite(Overwrite(old(c.Logical()), 420, Encode(SizeA(size), 2)),
              422, Encode(SizeB(size), 2)), 424, Encode(SECTOR, 8)), 432, Encode(SECTOR + SizeA(size), 8))
  {
    WriteProbed(c, Encode(SizeA(size), 2), 420);
    WriteProbed(c, Encode(SizeB(size), 2), 422);
    WriteProbed(c, Encode(SECTOR, 8), 424);
    WriteProbed(c, Encode(SECTOR + SizeA(size), 8), 432);
  }

  /** All that is written of the boot image is in it. */
  ghost predicate HalvesInside(img: seq<byte>) {
    |img| == SECTOR || |img| >= 2 * SECTOR
  }

  /** The writes to a disk that has passed the checks; the last of them may still be cached. */
  method WriteParts(c: Cache, img: seq<byte>) returns (ok: bool)
    requires c.Valid() && Whole(c, PROBED)
    requires |img| >= SECTOR && SizeA(|img| - SECTOR) <= |img| - SECTOR
    modifies c, c.disk, c.cache
    ensures ok <==> Whole(c, |img|)
    ensures ok ==> c.Valid() && |img| <= c.disk.Length == |old(c.Logical())|
    ensures ok ==> c.Logical() == AfterWrites(old(c.Logical()), img)
  {
    var stamp := ReadProbed(c, 218, 6);
    var table := ReadProbed(c, 440, 70);
    ok := WriteImage(c, img, SizeA(|img| - SECTOR));
    if ok {
      WriteLocation(c, |img| - SECTOR);
      WriteProbed(c, stamp, 218);
      WriteProbed(c, table, 440);
    }
  }

  method Write(c: Cache, img: seq<byte>) returns (ok: bool)
    requires c.Valid() && Whole(c, PROBED)
    requires |img| >= SECTOR && SizeA(|img| - SECTOR) <= |img| - SECTOR
    modifies c, c.disk, c.cache
    ensures ok <==> Whole(c, |img|)
    ensures ok ==> c.Valid() && IsInstalled(old(c.Logical()), img, c.disk[..])
  {
    ok := WriteParts(c, img);
    if ok {
      c.FlushCache();
      WritesInstall(old(c.Logical()), img);
    }
  }

  /** The device has all that is probed, and no GUID partition table in it. */
  ghost predicate WithoutGpt(c: Cache, s: seq<byte>)
    requires c.cache.Length > 0
  {
    Whole(c, PROBED) && |s| >= PROBED && !HasGpt(s)
  }

  /** What is looked at before anything is written. */
  method Inspect(c: Cache) returns (ok: bool, gpt: bool, mbr: bool)
    requires c.Valid()
    modifies c, c.disk, c.cache
    ensures ok ==> c.Valid() && c.Logical() == old(c.Logical())
    ensures ok && !gpt <==> WithoutGpt(c, old(c.Logical()))
    ensures ok && !gpt ==> mbr == LooksLikeMbr(old(c.Logical()))
  {
    mbr := false;
    ok, gpt := ProbeGpt(c);
    if ok && !gpt {
      HasBlockOf(c.disk.Length, c.cache.Length, 0, PROBED, 0);
      mbr := CheckMbr(c);
    }
  }

  /** The installation without --force-mbr: on a disk without a GUID partition table. */
  method Install(c: Cache, img: seq<byte>) returns (r: Result)
    requires c.Valid()
    modifies c, c.disk, c.cache
    ensures r == Installed ==> c.Valid() && |img| >= SECTOR && IsInstalled(old(c.Logical()), img, c.disk[..])
    ensures r == NoTable || r == OnGpt ==> c.Valid() && c.Logical() == old(c.Logical())
    ensures r == Installed <==> HalvesInside(img) && Whole(c, |img|)
                                && WithoutGpt(c, old(c.Logical())) && LooksLikeMbr(old(c.Logical()))
    ensures r == PastImage <==> !HalvesInside(img) && WithoutGpt(c, old(c.Logical())) && LooksLikeMbr(old(c.Logical()))
    ensures r == NoTable <==> WithoutGpt(c, old(c.Logical())) && !LooksLikeMbr(old(c.Logical()))
  {
    var ok, gpt, mbr := Inspect(c);
    if !ok {
      return Failed;
    }
    if gpt {
      return OnGpt;
    }
    if !mbr {
      return NoTable;
    }
    if |img| >= SECTOR { FirstHalfFits(|img| - SECTOR); }
    if |img| < SECTOR || SizeA(|img| - SECTOR) > |img| - SECTOR {
      return PastImage;
    }
    ok := Write(c, img);
    r := if ok then Installed else Failed;
  }
}
