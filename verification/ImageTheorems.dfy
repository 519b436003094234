/** What is written into the image is what the loader finds there. */
module ImageTheorems {
  import opened Base
  import opened Bytes
  import opened ImageSpec
  import opened LoaderSpec

  // ---------------------------------------------------------------- one directory entry

  predicate NoNul(name: seq<Byte>) { forall i | 0 <= i < |name| :: name[i] != 0 }

  lemma {:induction false} CStringOf(s: seq<Byte>, n: nat)
    requires NoNul(s)
    ensures CString(s + Zeros(n)) == s
  {
    if s == [] {
      assert s + Zeros(n) == Zeros(n);
    } else {
      CStringOf(s[1..], n);
      assert (s + Zeros(n))[1..] == s[1..] + Zeros(n);
    }
  }

  /** An entry comes back as it was written, its name cut to 15 bytes. */
  lemma EntryRoundTrip(dir: seq<Byte>, i: nat, name: seq<Byte>, lba: nat, sectors: nat, entry: nat)
    requires |dir| == 512 && i < DIR_ENTRIES && NoNul(name) && lba < WORD && sectors < WORD && entry < WORD
    requires dir[32 * i..32 * i + 32] == EntryBytes(name, lba, sectors, entry)
    ensures EntryAt(dir, i) == DirEntry(Truncated(name), lba, sectors, entry)
    ensures dir[32 * i] == 0 <==> name == []
  {
    var b := EntryBytes(name, lba, sectors, entry);
    assert b[..16] == Stored(name);
    assert b[16..20] == Le32(lba) && b[20..24] == Le32(sectors) && b[24..28] == Le32(entry);
    Le32RoundTrip(lba);
    Le32RoundTrip(sectors);
    Le32RoundTrip(entry);
    CStringOf(Truncated(name), 16 - |Truncated(name)|);
    assert dir[32 * i] == dir[32 * i..32 * i + 32][0] == Stored(name)[0];
  }

  // ---------------------------------------------------------------- the directory

  /** Where program `i` begins, when the first begins at `lba`. */
  function LbaOf(us: seq<Source>, lba: nat, i: nat): (r: nat)
    requires i < |us| && lba < WORD
    ensures r < WORD
  {
    if i == 0 then lba else LbaOf(us[1..], (lba + SectorCount(us[0].size)) % WORD, i - 1)
  }

  lemma {:induction false} EntriesAt(us: seq<Source>, lba: nat, i: nat)
    requires EntryPoints(us) && lba < WORD && i < |us|
    ensures Entries(us, lba)[32 * i..32 * i + 32] == EntryBytes(us[i].name, LbaOf(us, lba, i), SectorCount(us[i].size), us[i].entry)
  {
    var first := EntryBytes(us[0].name, lba, SectorCount(us[0].size), us[0].entry);
    if i == 0 {
      assert Entries(us, lba)[..32] == first;
    } else {
      var rest := Entries(us[1..], (lba + SectorCount(us[0].size)) % WORD);
      EntriesAt(us[1..], (lba + SectorCount(us[0].size)) % WORD, i - 1);
      assert Entries(us, lba)[32 * i..32 * i + 32] == rest[32 * (i - 1)..32 * (i - 1) + 32];
    }
  }

  lemma {:induction false} LbaOfPrefix(us: seq<Source>, n: nat, lba: nat, i: nat)
    requires i < n <= |us| && lba < WORD
    ensures LbaOf(us[..n], lba, i) == LbaOf(us, lba, i)
  {
    if i != 0 {
      assert us[..n][1..] == us[1..][..n - 1];
      LbaOfPrefix(us[1..], n - 1, (lba + SectorCount(us[0].size)) % WORD, i - 1);
    }
  }

  lemma DirectoryAt(us: seq<Source>, lba: nat, i: nat)
    requires EntryPoints(us) && lba < WORD && i < |us| && i < DIR_ENTRIES && NoNul(us[i].name)
    ensures var dir := Directory(us, lba);
            && EntryAt(dir, i) == DirEntry(Truncated(us[i].name), LbaOf(us, lba, i), SectorCount(us[i].size), us[i].entry)
            && (dir[32 * i] == 0 <==> us[i].name == [])
  {
    var n, dir := Min(DIR_ENTRIES, |us|), Directory(us, lba);
    EntriesAt(us[..n], lba, i);
    LbaOfPrefix(us, n, lba, i);
    assert dir[32 * i..32 * i + 32] == Entries(us[..n], lba)[32 * i..32 * i + 32];
    EntryRoundTrip(dir, i, us[i].name, LbaOf(us, lba, i), SectorCount(us[i].size), us[i].entry);
  }

  /** After the last entry there is a zero, or the sector ends. */
  lemma DirectoryEnds(us: seq<Source>, lba: nat)
    requires EntryPoints(us) && lba < WORD && |us| < DIR_ENTRIES
    ensures Directory(us, lba)[32 * |us|] == 0
  {
    assert us[..|us|] == us;
  }

  predicate Named(us: seq<Source>) { forall i | 0 <= i < |us| :: NoNul(us[i].name) }

  /** Program `i` is the one a search for `name` is after. */
  ghost predicate IsFirst(us: seq<Source>, name: seq<Byte>, i: nat) {
    && i < |us| && i < DIR_ENTRIES && Truncated(us[i].name) == name && us[i].name != []
    && (forall j | 0 <= j < i :: us[j].name != [] && Truncated(us[j].name) != name)
  }

  /** The scan finds the first program of that name, and only if no program before it has an empty name. */
  lemma {:induction false} FindIff(us: seq<Source>, lba: nat, name: seq<Byte>, k: nat, i: nat)
    requires EntryPoints(us) && lba < WORD && Named(us) && k <= DIR_ENTRIES && k <= |us| && k <= i
    requires forall j | 0 <= j < k :: us[j].name != [] && Truncated(us[j].name) != name
    ensures Find(Directory(us, lba), name, k) == Some(i) <==> IsFirst(us, name, i)
    decreases DIR_ENTRIES - k
  {
    if k == |us| {
      if k < DIR_ENTRIES { DirectoryEnds(us, lba); }
    } else if k < DIR_ENTRIES {
      DirectoryAt(us, lba, k);
      if us[k].name != [] && Truncated(us[k].name) != name && k < i {
        FindIff(us, lba, name, k + 1, i);
      }
    }
  }

  // ---------------------------------------------------------------- the layout of the image

  /** Sectors taken by the programs before number `i`. */
  function Before(us: seq<Source>, i: nat): nat
    requires i <= |us|
  {
    if i == 0 then 0 else Sectors(us[0].size) + Before(us[1..], i - 1)
  }

  predicate AllComplete(us: seq<Source>) { forall i | 0 <= i < |us| :: us[i].Complete() }

  lemma BlockLength(s: Source)
    requires s.Complete()
    ensures |s.Block()| == 512 * Sectors(s.size) && s.Block()[..s.size] == s.data[s.start..s.start + s.size]
  {
    PadFills(s.size);
  }

  lemma Padding(s: Source)
    requires s.Complete()
    ensures forall i | s.size <= i < |s.Block()| :: s.Block()[i] == 0
  {
    assert |s.Copied()| == s.size;
  }

  /** `part` lies in `whole` at place `at`. */
  ghost predicate LiesAt(whole: seq<Byte>, at: nat, part: seq<Byte>) {
    at + |part| <= |whole| && whole[at..at + |part|] == part
  }

  lemma LiesBehind(first: seq<Byte>, rest: seq<Byte>, at: nat, part: seq<Byte>)
    requires LiesAt(rest, at, part)
    ensures LiesAt(first + rest, |first| + at, part)
  {
    SliceAfter(first, rest, at, at + |part|);
  }

  lemma LiesFirst(first: seq<Byte>, rest: seq<Byte>)
    ensures LiesAt(first + rest, 0, first)
  {
  }

  lemma {:induction false} BlocksAt(us: seq<Source>, i: nat)
    requires AllComplete(us) && i < |us|
    ensures LiesAt(Blocks(us), 512 * Before(us, i), us[i].Block())
  {
    BlockLength(us[0]);
    if i == 0 {
      LiesFirst(us[0].Block(), Blocks(us[1..]));
    } else {
      BlocksAt(us[1..], i - 1);
      LiesBehind(us[0].Block(), Blocks(us[1..]), 512 * Before(us[1..], i - 1), us[i].Block());
    }
  }

  lemma SliceAfter(a: seq<Byte>, b: seq<Byte>, lo: nat, hi: nat)
    requires lo <= hi <= |b|
    ensures (a + b)[|a| + lo..|a| + hi] == b[lo..hi]
  {
  }

  lemma Fits(size: nat)
    requires Sectors(size) < WORD
    ensures SectorCount(size) == Sectors(size)
  {
  }

  lemma {:induction false} LbaIs(us: seq<Source>, lba: nat, i: nat)
    requires i < |us| && lba + Before(us, |us|) < WORD
    ensures lba < WORD && LbaOf(us, lba, i) == lba + Before(us, i) && SectorCount(us[i].size) == Sectors(us[i].size)
  {
    var rest, n := us[1..], Sectors(us[0].size);
    assert Before(us, |us|) == n + Before(rest, |rest|);
    Fits(us[0].size);
    if i != 0 {
      NextLba(us, lba, i, n);
      LbaIs(rest, lba + n, i - 1);
    }
  }

  lemma NextLba(us: seq<Source>, lba: nat, i: nat, n: nat)
    requires 0 < i < |us| && lba + n < WORD && SectorCount(us[0].size) == n == Sectors(us[0].size)
    ensures LbaOf(us, lba, i) == LbaOf(us[1..], lba + n, i - 1) && Before(us, i) == n + Before(us[1..], i - 1)
  {
  }

  /** The disk's size in sectors fits 32 bits and every file holds what its headers announce. */
  ghost predicate Writable(boot: Source, kernel: Source, us: seq<Source>) {
    && boot.Complete() && boot.size == 512 && kernel.Complete() && AllComplete(us) && Named(us)
    && kernel.entry < WORD && EntryPoints(us) && 2 + Sectors(kernel.size) + Before(us, |us|) < WORD
  }

  /** The sector after the boot sector, the kernel and the directory. */
  function Programs(kernel: Source): nat { 2 + Sectors(kernel.size) }

  lemma Counts(boot: Source, kernel: Source, us: seq<Source>)
    requires Writable(boot, kernel, us)
    ensures KernelSectors(kernel) == Sectors(kernel.size) && DirLba(kernel) == 1 + Sectors(kernel.size)
    ensures FirstLba(kernel) == Programs(kernel)
  {
  }

  lemma FourParts(a: seq<Byte>, b: seq<Byte>, c: seq<Byte>, d: seq<Byte>, at: nat)
    requires |a| + |b| == at && |c| == 512
    ensures var r := a + b + c + d; |r| == at + 512 + |d| && r[at..at + 512] == c && r[at + 512..] == d
  {
  }

  lemma BeforeDirectory(boot: Source, kernel: Source, us: seq<Source>)
    requires Writable(boot, kernel, us)
    ensures |boot.Copied()| + |kernel.Block()| == 512 * DirLba(kernel)
  {
    BlockLength(kernel);
    Counts(boot, kernel, us);
  }

  lemma BodyParts(boot: Source, kernel: Source, us: seq<Source>, at: nat)
    requires Writable(boot, kernel, us) && at == 512 * DirLba(kernel)
    ensures var b := Body(boot, kernel, us);
            |b| == at + 512 + |Blocks(us)| && b[at..at + 512] == Directory(us, FirstLba(kernel)) && b[at + 512..] == Blocks(us)
  {
    BeforeDirectory(boot, kernel, us);
    FourParts(boot.Copied(), kernel.Block(), Directory(us, FirstLba(kernel)), Blocks(us), at);
  }

  /** The three patches stay within the boot sector. */
  lemma PatchesStay(boot: Source, kernel: Source, us: seq<Source>)
    requires Writable(boot, kernel, us)
    ensures var b, r := Body(boot, kernel, us), Image(boot, kernel, us);
            && |r| == |b| && 512 <= |b| && r[512..] == b[512..]
            && r[2..6] == Le32(KernelSectors(kernel)) && r[6..10] == Le32(DirLba(kernel)) && r[503..507] == Le32(kernel.entry)
  {
    var b := Body(boot, kernel, us);
    BodyParts(boot, kernel, us, 512 * DirLba(kernel));
    var b1 := Patched(b, OS_SIZE_LOC, Le32(KernelSectors(kernel)));
    var b2 := Patched(b1, PROG_DIR_LOC, Le32(DirLba(kernel)));
    var r := Patched(b2, KERNEL_ENTRY_LOC, Le32(kernel.entry));
    assert r[OS_SIZE_LOC..OS_SIZE_LOC + 4] == b1[OS_SIZE_LOC..OS_SIZE_LOC + 4];
    assert r[PROG_DIR_LOC..PROG_DIR_LOC + 4] == b2[PROG_DIR_LOC..PROG_DIR_LOC + 4];
  }

  // ---------------------------------------------------------------- the loader on the image

  lemma SliceOfTail(r: seq<Byte>, b: seq<Byte>, lo: nat, hi: nat)
    requires |r| == |b| && 512 <= lo <= hi <= |b| && r[512..] == b[512..]
    ensures r[lo..hi] == b[lo..hi]
  {
    assert forall i | lo <= i < hi :: r[i] == r[512..][i - 512] && b[i] == b[512..][i - 512];
  }

  /** The loader reads directory `dir` at sector `lba`. */
  predicate DirectoryOn(disk: seq<Byte>, lba: nat, dir: seq<Byte>) {
    ReadProgDirLba(disk) == lba && 0 < lba && ReadSector(disk, lba) == Some(dir)
  }

  lemma ReadsDirectory(boot: Source, kernel: Source, us: seq<Source>)
    requires Writable(boot, kernel, us)
    ensures DirectoryOn(Image(boot, kernel, us), DirLba(kernel), Directory(us, Programs(kernel)))
  {
    var b, disk, at := Body(boot, kernel, us), Image(boot, kernel, us), 512 * DirLba(kernel);
    Counts(boot, kernel, us);
    BodyParts(boot, kernel, us, at);
    PatchesStay(boot, kernel, us);
    Le32RoundTrip(DirLba(kernel));
    assert disk[..512][PROG_DIR_LOC..PROG_DIR_LOC + 4] == disk[PROG_DIR_LOC..PROG_DIR_LOC + 4];
    SliceOfTail(disk, b, at, at + 512);
  }

  lemma FirstIsFound(us: seq<Source>, lba: nat, name: seq<Byte>, i: nat)
    requires EntryPoints(us) && Named(us) && lba + Before(us, |us|) < WORD && IsFirst(us, name, i)
    ensures var dir := Directory(us, lba);
            && Find(dir, name, 0) == Some(i)
            && EntryAt(dir, i) == DirEntry(name, lba + Before(us, i), Sectors(us[i].size), us[i].entry)
  {
    FindIff(us, lba, name, 0, i);
    DirectoryAt(us, lba, i);
    LbaIs(us, lba, i);
  }

  /** Writer and loader cut names to the same length. */
  lemma SameCut(name: seq<Byte>)
    ensures Cut(name) == Truncated(name)
  {
    assert |name| <= 15 ==> name[..|name|] == name;
  }

  lemma LookupIn(disk: seq<Byte>, lba: nat, dir: seq<Byte>, name: seq<Byte>, i: nat, e: DirEntry)
    requires DirectoryOn(disk, lba, dir)
    requires i < DIR_ENTRIES && Find(dir, Truncated(name), 0) == Some(i) && EntryAt(dir, i) == e
    ensures Lookup(disk, name) == Some(e)
  {
    SameCut(name);
  }

  /** What is not in the directory is not found. */
  lemma LookupNeeds(disk: seq<Byte>, lba: nat, dir: seq<Byte>, name: seq<Byte>)
    requires DirectoryOn(disk, lba, dir) && |dir| == 512
    ensures Lookup(disk, name).Some? ==> Find(dir, Truncated(name), 0).Some?
  {
    SameCut(name);
  }

  lemma FoundOn(disk: seq<Byte>, at: nat, lba: nat, us: seq<Source>, name: seq<Byte>, i: nat)
    requires EntryPoints(us) && Named(us) && lba + Before(us, |us|) < WORD
    requires DirectoryOn(disk, at, Directory(us, lba)) && IsFirst(us, Truncated(name), i)
    ensures Lookup(disk, name) == Some(DirEntry(Truncated(name), lba + Before(us, i), Sectors(us[i].size), us[i].entry))
  {
    FirstIsFound(us, lba, Truncated(name), i);
    LookupIn(disk, at, Directory(us, lba), name, i, EntryAt(Directory(us, lba), i));
  }

  lemma FoundBehind(disk: seq<Byte>, at: nat, kernel: Source, us: seq<Source>, name: seq<Byte>, i: nat)
    requires EntryPoints(us) && Named(us) && Programs(kernel) + Before(us, |us|) < WORD
    requires DirectoryOn(disk, at, Directory(us, Programs(kernel))) && IsFirst(us, Truncated(name), i)
    ensures Lookup(disk, name) == Some(DirEntry(Truncated(name), Programs(kernel) + Before(us, i), Sectors(us[i].size), us[i].entry))
  {
    FoundOn(disk, at, Programs(kernel), us, name, i);
  }

  /** Looking a name up in a written image gives that program's place, length and entry point. */
  lemma LookupFinds(boot: Source, kernel: Source, us: seq<Source>, name: seq<Byte>, i: nat)
    requires Writable(boot, kernel, us) && IsFirst(us, Truncated(name), i)
    ensures Lookup(Image(boot, kernel, us), name)
              == Some(DirEntry(Truncated(name), Programs(kernel) + Before(us, i), Sectors(us[i].size), us[i].entry))
  {
    ReadsDirectory(boot, kernel, us);
    FoundBehind(Image(boot, kernel, us), DirLba(kernel), kernel, us, name, i);
  }

  /** A name is found if and only if it is the name of a program the scan gets to. */
  lemma LookupIff(boot: Source, kernel: Source, us: seq<Source>, name: seq<Byte>)
    requires Writable(boot, kernel, us)
    ensures Lookup(Image(boot, kernel, us), name).Some? <==> exists i :: IsFirst(us, Truncated(name), i)
  {
    Counts(boot, kernel, us);
    ReadsDirectory(boot, kernel, us);
    LookupNeeds(Image(boot, kernel, us), DirLba(kernel), Directory(us, Programs(kernel)), name);
    var found := Find(Directory(us, Programs(kernel)), Truncated(name), 0);
    if found.Some? { FindIff(us, Programs(kernel), Truncated(name), 0, found.value); }
    if i :| IsFirst(us, Truncated(name), i) { LookupFinds(boot, kernel, us, name, i); }
  }

  /** With distinct names of 1 to 15 bytes, each of the first sixteen programs is the one its name finds. */
  lemma DistinctNames(us: seq<Source>, i: nat)
    requires i < |us| && i < DIR_ENTRIES
    requires forall j | 0 <= j < |us| :: 0 < |us[j].name| <= 15
    requires forall j, k | 0 <= j < k < |us| :: us[j].name != us[k].name
    ensures IsFirst(us, Truncated(us[i].name), i)
  {
    forall j | 0 <= j < i ensures Truncated(us[j].name) != Truncated(us[i].name) {
      assert Truncated(us[j].name) == us[j].name && Truncated(us[i].name) == us[i].name;
    }
  }

  /** A slice of a slice of a tail. */
  lemma Within(b: seq<Byte>, at: nat, rest: seq<Byte>, from: nat, block: seq<Byte>, lo: nat, hi: nat)
    requires at <= |b| && b[at..] == rest && from + |block| <= |rest| && rest[from..from + |block|] == block && lo <= hi <= |block|
    ensures at + from + hi <= |b| && b[at + from + lo..at + from + hi] == block[lo..hi]
  {
    forall i | lo <= i < hi ensures b[at + from + i] == block[i] {
      assert b[at + from + i] == rest[from + i];
      assert rest[from + i] == rest[from..from + |block|][i];
    }
  }

  lemma SectorIs(disk: seq<Byte>, lba: nat, at: nat)
    requires at == 512 * lba && at + 512 <= |disk|
    ensures ReadSector(disk, lba) == Some(disk[at..at + 512])
  {
  }

  /** Sector `s` of a block that begins `before` sectors after sector `first`. */
  lemma SectorOfBlock(disk: seq<Byte>, first: nat, rest: seq<Byte>, before: nat, block: seq<Byte>, s: nat)
    requires 512 * first <= |disk| && disk[512 * first..] == rest
    requires LiesAt(rest, 512 * before, block) && 512 * s + 512 <= |block|
    ensures ReadSector(disk, first + before + s) == Some(block[512 * s..512 * s + 512])
  {
    Within(disk, 512 * first, rest, 512 * before, block, 512 * s, 512 * s + 512);
    SectorIs(disk, first + before + s, 512 * first + 512 * before + 512 * s);
  }

  /** The programs make up the end of the image. */
  lemma ImageTail(boot: Source, kernel: Source, us: seq<Source>)
    requires Writable(boot, kernel, us)
    ensures var disk := Image(boot, kernel, us); 512 * Programs(kernel) <= |disk| && disk[512 * Programs(kernel)..] == Blocks(us)
  {
    var b, disk := Body(boot, kernel, us), Image(boot, kernel, us);
    Counts(boot, kernel, us);
    BodyParts(boot, kernel, us, 512 * DirLba(kernel));
    PatchesStay(boot, kernel, us);
    SliceOfTail(disk, b, 512 * Programs(kernel), |b|);
  }

  /** Sector `s` of program `i` lies `s` sectors after the place the directory gives. */
  lemma ProgramSector(disk: seq<Byte>, first: nat, us: seq<Source>, i: nat, s: nat)
    requires 512 * first <= |disk| && disk[512 * first..] == Blocks(us) && AllComplete(us) && i < |us| && s < Sectors(us[i].size)
    ensures |us[i].Block()| == 512 * Sectors(us[i].size)
    ensures ReadSector(disk, first + Before(us, i) + s) == Some(us[i].Block()[512 * s..512 * s + 512])
  {
    BlockLength(us[i]);
    BlocksAt(us, i);
    var block, before, n := us[i].Block(), Before(us, i), Sectors(us[i].size);
    assert |block| == 512 * n && s < n;
    SectorOfBlock(disk, first, Blocks(us), before, block, s);
  }

  // ---------------------------------------------------------------- what the boot sector finds

  lemma AfterFirst(a: seq<Byte>, b: seq<Byte>, c: seq<Byte>, d: seq<Byte>)
    requires |a| == 512
    ensures (a + b + c + d)[512..] == b + (c + d) && (a + b + c + d)[..512] == a
  {
  }

  lemma KernelPart(disk: seq<Byte>, block: seq<Byte>, rest: seq<Byte>)
    requires 512 <= |disk| && disk[512..] == block + rest
    ensures disk[512..][..|block|] == block
  {
  }

  /**
  The kernel lies from sector 1 on, as many sectors as the word at offset 2 says: what the boot sector's one
  disk read brings in is the kernel's range of its file, and its last sector is filled up with zeros.
  */
  lemma KernelSector(boot: Source, kernel: Source, us: seq<Source>, s: nat)
    requires Writable(boot, kernel, us) && s < Sectors(kernel.size)
    ensures |kernel.Block()| == 512 * Sectors(kernel.size) && kernel.Block()[..kernel.size] == kernel.data[kernel.start..kernel.start + kernel.size]
    ensures forall i | kernel.size <= i < |kernel.Block()| :: kernel.Block()[i] == 0
    ensures ReadSector(Image(boot, kernel, us), 1 + s) == Some(kernel.Block()[512 * s..512 * s + 512])
    ensures FromLe32(Image(boot, kernel, us)[2..6]) == Sectors(kernel.size)
  {
    var disk, block, rest := Image(boot, kernel, us), kernel.Block(), Directory(us, FirstLba(kernel)) + Blocks(us);
    PatchesStay(boot, kernel, us);
    Counts(boot, kernel, us);
    Le32RoundTrip(KernelSectors(kernel));
    BlockLength(kernel);
    Padding(kernel);
    AfterFirst(boot.Copied(), block, Directory(us, FirstLba(kernel)), Blocks(us));
    KernelPart(disk, block, rest);
    assert (block + rest)[512 * 0..512 * 0 + |block|] == block;
    SectorOfBlock(disk, 1, block + rest, 0, block, s);
  }

  predicate InPatch(i: nat) { 2 <= i < 10 || 503 <= i < 507 }

  /** Every other byte of the boot sector is that of its file. */
  lemma BootByte(boot: Source, kernel: Source, us: seq<Source>, i: nat)
    requires Writable(boot, kernel, us) && i < 512 && !InPatch(i)
    ensures i < |Image(boot, kernel, us)| && Image(boot, kernel, us)[i] == boot.data[boot.start + i]
  {
    var b := Body(boot, kernel, us);
    PatchesStay(boot, kernel, us);
    AfterFirst(boot.Copied(), kernel.Block(), Directory(us, FirstLba(kernel)), Blocks(us));
    assert Image(boot, kernel, us)[i] == b[i] == b[..512][i];
  }
}
