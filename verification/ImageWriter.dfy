/** `createimage` as it runs: files read and written piece by piece (tools/createimage.cpp). */
module ImageWriter {
  import opened Base
  import opened Bytes
  import opened ImageSpec

  /** A file open for reading; `whole` if a read is only ever cut short by the end of the file. */
  class InFile {
    const data: seq<Byte>
    const whole: bool
    var pos: nat

    constructor (data: seq<Byte>, whole: bool)
      ensures this.data == data && this.whole == whole && pos == 0
    {
      this.data := data;
      this.whole := whole;
      pos := 0;
    }

    method Seek(offset: nat)
      modifies this
      ensures pos == offset
    {
      pos := offset;
    }

    /** Up to `max` bytes; possibly fewer, but none only at the end of the file. */
    method Read(max: nat) returns (b: seq<Byte>)
      requires 0 < max
      modifies this
      ensures |b| <= max && pos == old(pos) + |b|
      ensures b == [] <==> |data| <= old(pos)
      ensures b != [] ==> pos <= |data| && b == data[old(pos)..pos]
      ensures whole && old(pos) + max <= |data| ==> |b| == max
    {
      if |data| <= pos { return []; }
      var most := Min(max, |data| - pos);
      var n: nat :| 1 <= n <= most && (whole ==> n == most);
      b := data[pos..pos + n];
      pos := pos + n;
    }
  }

  /** A file open for writing; `reliable` if every write is carried out in full. */
  class OutFile {
    const reliable: bool
    var data: seq<Byte>
    var pos: nat

    constructor (reliable: bool)
      ensures data == [] && pos == 0 && this.reliable == reliable
    {
      this.reliable := reliable;
      data := [];
      pos := 0;
    }

    method Seek(offset: nat)
      modifies `pos
      ensures pos == offset
    {
      pos := offset;
    }

    /** A write at the end of the file: the number of bytes carried out. */
    method Append(b: seq<Byte>) returns (n: nat)
      requires pos == |data|
      modifies this
      ensures n <= |b| && data == old(data) + b[..n] && pos == |data|
      ensures reliable ==> n == |b|
    {
      n :| 0 <= n <= |b| && (reliable ==> n == |b|);
      data := data + b[..n];
      pos := |data|;
    }

    /** A write anywhere; beyond the end the gap is filled with zeros. */
    method Write(b: seq<Byte>) returns (n: nat)
      modifies this
      ensures n <= |b| && (reliable ==> n == |b|)
      ensures old(pos) + n <= |old(data)| ==> data == Patched(old(data), old(pos), b[..n])
    {
      n :| 0 <= n <= |b| && (reliable ==> n == |b|);
      var front := if pos <= |data| then data[..pos] else data + Zeros(pos - |data|);
      data := front + b[..n] + data[Min(pos + n, |data|)..];
      pos := pos + n;
    }
  }

  // ---------------------------------------------------------------- program headers

  const PT_LOAD: nat := 1

  const EHDR_SIZE: nat := 52
  const PHDR_SIZE: nat := 32

  datatype Phdr = Phdr(kind: nat, offset: nat, filesz: nat) {
    predicate Words() { kind < WORD && offset < WORD && filesz < WORD }

    /** The end as `fill_metadata` computes it, in 32 bits. */
    function End(): nat { (offset + filesz) % WORD }
  }

  /** A program header, from its 32 bytes. */
  function PhdrOf(b: seq<Byte>): (h: Phdr)
    requires |b| == PHDR_SIZE
    ensures h.Words()
  {
    Phdr(FromLe32(b[0..4]), FromLe32(b[4..8]), FromLe32(b[16..20]))
  }

  /** The headers of a file: `ident` and `headers` are short when the file is. */
  datatype Elf = Elf(ident: seq<Byte>, entry: nat, phnum: nat, headers: seq<Phdr>) {
    /** A little-endian 32-bit ELF file all of whose program headers are there. */
    predicate Readable() {
      && |ident| >= 16 && ident[0] == 0x7F && ident[1] == 0x45 && ident[2] == 0x4C && ident[3] == 0x46 && ident[4] == 1 && ident[5] == 1
      && phnum <= |headers|
    }

    predicate Loads(i: int) { 0 <= i < phnum && i < |headers| && headers[i].kind == PT_LOAD }
  }

  /** How many of `n` program headers from offset `at` on are complete in the file. */
  function Complete(data: seq<Byte>, at: nat, n: nat): (k: nat)
    ensures k <= n && at + PHDR_SIZE * k <= at + |data|
    ensures forall i | 0 <= i < n :: i < k <==> at + PHDR_SIZE * i + PHDR_SIZE <= |data|
  {
    if |data| < at then 0 else Min(n, (|data| - at) / PHDR_SIZE)
  }

  /** The headers as they lie in the file, the file header at `pos`. */
  function ElfAt(data: seq<Byte>, pos: nat): (e: Elf)
    ensures forall i | 0 <= i < |e.headers| :: e.headers[i].Words()
  {
    if |data| < pos + EHDR_SIZE then Elf([], 0, 0, [])
    else
      var b := data[pos..pos + EHDR_SIZE];
      var at, n := FromLe32(b[28..32]), FromLe16(b[44..46]);
      Elf(b[..16], FromLe32(b[24..28]), n,
          seq(Complete(data, at, n), i requires 0 <= i < Complete(data, at, n) => PhdrOf(data[at + PHDR_SIZE * i..at + PHDR_SIZE * i + PHDR_SIZE])))
  }

  datatype Range = Range(start: nat, size: int, entry: nat)

  /** The lowest offset and the highest end of the segments to be loaded. */
  ghost predicate Spans(elf: Elf, r: Range) {
    && (forall i | elf.Loads(i) :: r.start <= elf.headers[i].offset && elf.headers[i].End() <= r.start + r.size)
    && (exists i :: elf.Loads(i) && elf.headers[i].offset == r.start)
    && (r.start + r.size == 0 || exists i :: elf.Loads(i) && elf.headers[i].End() == r.start + r.size)
  }

  /** The lowest offset and the highest end among the program headers. */
  method Scan(file: InFile, ghost elf: Elf, at: nat, phnum: nat) returns (min: Option<nat>, max: nat, ok: bool)
    requires elf.phnum == phnum && |elf.headers| == Complete(file.data, at, phnum)
    requires forall i | 0 <= i < |elf.headers| :: elf.headers[i] == PhdrOf(file.data[at + PHDR_SIZE * i..at + PHDR_SIZE * i + PHDR_SIZE])
    modifies file
    ensures ok ==> phnum <= |elf.headers| && Found(elf, phnum, min, max)
    ensures file.whole && phnum <= |elf.headers| ==> ok
  {
    file.Seek(at);
    min, max, ok := None, 0, true;
    for i := 0 to phnum
      invariant ok && i <= |elf.headers| && file.pos == at + PHDR_SIZE * i && Found(elf, i, min, max)
    {
      var b := file.Read(PHDR_SIZE);
      if |b| != PHDR_SIZE { return min, max, false; }
      var phdr := PhdrOf(b);
      assert b == file.data[at + PHDR_SIZE * i..at + PHDR_SIZE * i + PHDR_SIZE] && elf.headers[i] == phdr;
      ghost var min0, max0 := min, max;
      if phdr.kind == PT_LOAD {
        if min.None? || phdr.offset < min.value { min := Some(phdr.offset); }
        if phdr.End() > max { max := phdr.End(); }
        FoundNext(elf, i, min0, max0, phdr, min, max);
      } else {
        FoundSkip(elf, i, min, max);
      }
    }
  }

  /** What the loop over the headers knows after `i` of them. */
  ghost predicate Found(elf: Elf, i: int, min: Option<nat>, max: nat) {
    && (min.None? ==> forall j | 0 <= j < i :: !elf.Loads(j))
    && (min.Some? ==> exists j :: j < i && elf.Loads(j) && elf.headers[j].offset == min.value)
    && (forall j | 0 <= j < i && elf.Loads(j) :: min.Some? && min.value <= elf.headers[j].offset && elf.headers[j].End() <= max)
    && (max == 0 || exists j :: j < i && elf.Loads(j) && elf.headers[j].End() == max)
  }

  lemma FoundNext(elf: Elf, i: nat, min: Option<nat>, max: nat, phdr: Phdr, min': Option<nat>, max': nat)
    requires Found(elf, i, min, max) && elf.Loads(i) && elf.headers[i] == phdr
    requires min' == if min.None? || phdr.offset < min.value then Some(phdr.offset) else min
    requires max' == if phdr.End() > max then phdr.End() else max
    ensures Found(elf, i + 1, min', max')
  {
  }

  lemma FoundSkip(elf: Elf, i: nat, min: Option<nat>, max: nat)
    requires Found(elf, i, min, max) && !elf.Loads(i)
    ensures Found(elf, i + 1, min, max)
  {
  }

  lemma FoundSpans(elf: Elf, min: nat, max: nat, entry: nat)
    requires Found(elf, elf.phnum, Some(min), max)
    ensures Spans(elf, Range(min, max - min, entry)) && exists i :: elf.Loads(i)
  {
  }

  lemma ElfFields(data: seq<Byte>, pos: nat, b: seq<Byte>)
    requires pos + EHDR_SIZE <= |data| && b == data[pos..pos + EHDR_SIZE]
    ensures var elf, at := ElfAt(data, pos), FromLe32(b[28..32]);
            && elf.ident == b[..16] && elf.entry == FromLe32(b[24..28]) && elf.phnum == FromLe16(b[44..46])
            && |elf.headers| == Complete(data, at, elf.phnum)
            && forall i | 0 <= i < |elf.headers| :: elf.headers[i] == PhdrOf(data[at + PHDR_SIZE * i..at + PHDR_SIZE * i + PHDR_SIZE])
  {
  }

  /**
  `fill_metadata`: the range of the file to copy, or None if the file is not a 32-bit little-endian ELF file
  with something to load. A read cut short counts as the end of the file.
  */
  method FillMetadata(file: InFile) returns (r: Option<Range>)
    modifies file
    ensures file.pos == old(file.pos)
    ensures var elf := ElfAt(file.data, old(file.pos));
            && (r.Some? ==> elf.Readable() && Spans(elf, r.value) && r.value.entry == elf.entry)
            && (file.whole && elf.Readable() && (exists i :: elf.Loads(i)) ==> r.Some?)
  {
    var start := file.pos;
    ghost var elf := ElfAt(file.data, start);
    r := None;
    var b := file.Read(EHDR_SIZE);
    if |b| == EHDR_SIZE && IsElf(b) {
      var at, phnum := FromLe32(b[28..32]), FromLe16(b[44..46]);
      ElfFields(file.data, start, b);
      var min, max, ok := Scan(file, elf, at, phnum);
      if ok && min.Some? {
        var end: int := max;
        r := Some(Range(min.value, end - min.value, FromLe32(b[24..28])));
        FoundSpans(elf, min.value, max, elf.entry);
      }
    }
    file.Seek(start);
  }

  /** The tests on the identification bytes. */
  predicate IsElf(b: seq<Byte>)
    requires |b| >= 16
  {
    b[0] == 0x7F && b[1] == 0x45 && b[2] == 0x4C && b[3] == 0x46 && b[4] == 1 && b[5] == 1
  }

  /** The range holds every segment to be loaded. */
  ghost predicate Covers(elf: Elf, r: Range) {
    forall i | elf.Loads(i) :: r.start <= elf.headers[i].offset && elf.headers[i].offset + elf.headers[i].filesz <= r.start + r.size
  }

  /** The range found holds every segment if and only if no segment's end exceeds 32 bits. */
  lemma CoversIff(elf: Elf, r: Range)
    requires Spans(elf, r) && forall i | 0 <= i < |elf.headers| :: elf.headers[i].Words()
    ensures Covers(elf, r) <==> forall i | elf.Loads(i) :: elf.headers[i].offset + elf.headers[i].filesz < WORD
  {
    assert r.start + r.size < WORD;
    forall i | elf.Loads(i) && elf.headers[i].offset + elf.headers[i].filesz < WORD
      ensures elf.headers[i].End() == elf.headers[i].offset + elf.headers[i].filesz
    {
    }
  }

  /** Then the bytes copied for the file hold every segment, each at its distance from the start of the range. */
  lemma SegmentsCopied(s: Source, elf: Elf, r: Range, i: nat)
    requires Covers(elf, r) && elf.Loads(i) && s.start == r.start && s.size == r.size && s.Complete()
    ensures var at, n := elf.headers[i].offset, elf.headers[i].filesz;
            r.start <= at && s.Copied()[at - r.start..at - r.start + n] == s.data[at..at + n]
  {
    var at, n := elf.headers[i].offset, elf.headers[i].filesz;
    assert r.start <= at && at + n <= r.start + r.size;
    assert s.Copied() == s.data[s.start..s.start + s.size];
    SliceWithin(s.data, s.start, s.start + s.size, at, at + n);
  }

  lemma SliceWithin(d: seq<Byte>, from: nat, to: nat, lo: nat, hi: nat)
    requires from <= lo <= hi <= to <= |d|
    ensures d[from..to][lo - from..hi - from] == d[lo..hi]
  {
    var s := d[from..to][lo - from..hi - from];
    assert forall i | 0 <= i < hi - lo :: s[i] == d[from..to][lo - from + i] == d[lo + i];
  }

  // ---------------------------------------------------------------- copying

  lemma AppendedSlice(a: seq<Byte>, d: seq<Byte>, from: nat, mid: nat, to: nat, n: nat)
    requires from <= mid && mid + n <= to <= |d|
    ensures a + d[from..mid] + d[mid..to][..n] == a + d[from..mid + n]
  {
  }

  /** A prefix of `range` was appended, all of it if `ok` or `reliable`; then `ok` tells whether it has `size` bytes. */
  ghost predicate Transferred(before: seq<Byte>, after: seq<Byte>, range: seq<Byte>, size: nat, ok: bool, reliable: bool) {
    && before <= after <= before + range
    && (ok || reliable ==> after == before + range && ok == (|range| == size))
  }

  lemma AllTransferred(a: seq<Byte>, range: seq<Byte>, size: nat, reliable: bool)
    ensures Transferred(a, a + range, range, size, |range| == size, reliable)
  {
  }

  lemma PartTransferred(a: seq<Byte>, d: seq<Byte>, from: nat, mid: nat, to: nat, size: nat)
    requires from <= mid <= to <= |d|
    ensures Transferred(a, a + d[from..mid], d[from..to], size, false, false)
  {
  }

  /** Copies what there is of the range, however short the reads are; true if all of it was there and written. */
  method CopyRange(out: OutFile, file: InFile, offset: nat, size: nat) returns (ok: bool)
    requires out.pos == |out.data|
    modifies out, file
    ensures out.pos == |out.data|
    ensures var range := file.data[Min(offset, |file.data|)..Min(offset + size, |file.data|)];
            Transferred(old(out.data), out.data, range, size, ok, out.reliable)
  {
    file.Seek(offset);
    var rem := size;
    ghost var from, to, start := Min(offset, |file.data|), Min(offset + size, |file.data|), out.data;
    ghost var done := from;
    while rem > 0
      invariant 0 <= rem <= size && file.pos == offset + size - rem && out.pos == |out.data|
      invariant from <= done <= to && (done == file.pos || (rem == size && done == |file.data| < offset))
      invariant out.data == start + file.data[from..done]
    {
      var chunk := if rem < 8192 then rem else 8192;
      var b := file.Read(chunk);
      if |b| == 0 {
        AllTransferred(start, file.data[from..to], size, out.reliable);
        return false;
      }
      var n := out.Append(b);
      AppendedSlice(start, file.data, from, done, file.pos, n);
      if n != |b| {
        PartTransferred(start, file.data, from, done + n, to, size);
        return false;
      }
      rem, done := rem - |b|, file.pos;
    }
    AllTransferred(start, file.data[from..to], size, out.reliable);
    ok := true;
  }

  /** Zeros up to the next sector; true if all of them were written. */
  method PadToSector(out: OutFile, written: nat) returns (ok: bool)
    requires out.pos == |out.data|
    modifies out
    ensures old(out.data) <= out.data <= old(out.data) + Zeros(Pad(written)) && out.pos == |out.data|
    ensures ok <==> out.data == old(out.data) + Zeros(Pad(written))
    ensures out.reliable ==> ok
  {
    var remainder := written % 512;
    if remainder == 0 {
      assert Zeros(0) == [];
      return true;
    }
    var n := out.Append(Zeros(512 - remainder));
    ok := n == 512 - remainder;
  }

  // ---------------------------------------------------------------- the directory

  /** Where a program after `us` begins. */
  function NextLba(us: seq<Source>, lba: nat): (r: nat)
    requires lba < WORD
    ensures r < WORD
  {
    if us == [] then lba else NextLba(us[1..], (lba + SectorCount(us[0].size)) % WORD)
  }

  lemma {:induction false} EntriesSnoc(us: seq<Source>, u: Source, lba: nat)
    requires EntryPoints(us) && u.entry < WORD && lba < WORD
    ensures Entries(us + [u], lba) == Entries(us, lba) + EntryBytes(u.name, NextLba(us, lba), SectorCount(u.size), u.entry)
  {
    if us == [] {
      assert us + [u] == [u];
    } else {
      var rest, next := us[1..], (lba + SectorCount(us[0].size)) % WORD;
      assert us == [us[0]] + rest && us + [u] == [us[0]] + (rest + [u]);
      EntriesSnoc(rest, u, next);
      EntriesCons(us[0], rest, lba, next);
      EntriesCons(us[0], rest + [u], lba, next);
      Regrouped(EntryBytes(us[0].name, lba, SectorCount(us[0].size), us[0].entry), Entries(rest, next),
                EntryBytes(u.name, NextLba(rest, next), SectorCount(u.size), u.entry));
    }
  }

  lemma EntriesCons(u: Source, us: seq<Source>, lba: nat, next: nat)
    requires u.entry < WORD && EntryPoints(us) && lba < WORD && next == (lba + SectorCount(u.size)) % WORD
    ensures Entries([u] + us, lba) == EntryBytes(u.name, lba, SectorCount(u.size), u.entry) + Entries(us, next)
    ensures NextLba([u] + us, lba) == NextLba(us, next)
  {
    assert ([u] + us)[1..] == us;
  }

  lemma {:induction false} NextLbaSnoc(us: seq<Source>, u: Source, lba: nat)
    requires lba < WORD
    ensures NextLba(us + [u], lba) == (NextLba(us, lba) + SectorCount(u.size)) % WORD
  {
    if us == [] {
      assert us + [u] == [u];
    } else {
      assert (us + [u])[1..] == us[1..] + [u];
      NextLbaSnoc(us[1..], u, (lba + SectorCount(us[0].size)) % WORD);
    }
  }

  lemma Regrouped(a: seq<Byte>, b: seq<Byte>, c: seq<Byte>)
    ensures a + (b + c) == (a + b) + c
  {
  }

  lemma NextEntry(us: seq<Source>, first: nat, i: nat, lba: nat, sectors: nat)
    requires EntryPoints(us) && first < WORD && i < |us| && lba == NextLba(us[..i], first) && sectors == SectorCount(us[i].size)
    ensures Entries(us[..i + 1], first) == Entries(us[..i], first) + EntryBytes(us[i].name, lba, sectors, us[i].entry)
    ensures NextLba(us[..i + 1], first) == (lba + sectors) % WORD
  {
    assert us[..i + 1] == us[..i] + [us[i]];
    EntriesSnoc(us[..i], us[i], first);
    NextLbaSnoc(us[..i], us[i], first);
  }

  /** Writes bytes into a buffer. */
  method Put(buffer: array<Byte>, at: nat, b: seq<Byte>)
    requires at + |b| <= buffer.Length
    modifies buffer
    ensures buffer[..] == Patched(old(buffer[..]), at, b)
  {
    for i := 0 to |b|
      invariant buffer[at..at + i] == b[..i]
      invariant forall j | 0 <= j < buffer.Length && (j < at || at + i <= j) :: buffer[j] == old(buffer[j])
    {
      buffer[at + i] := b[i];
    }
    assert buffer[..] == Patched(old(buffer[..]), at, b);
  }

  lemma PutEntry(front: seq<Byte>, b: seq<Byte>, n: nat, dir: seq<Byte>)
    requires |b| <= n && dir == front + Zeros(n)
    ensures Patched(dir, |front|, b) == front + b + Zeros(n - |b|)
  {
  }

  method BuildDirectory(us: seq<Source>, first: nat) returns (dir: array<Byte>)
    requires EntryPoints(us) && first < WORD
    ensures fresh(dir) && dir[..] == Directory(us, first)
  {
    dir := new Byte[512](_ => 0);
    var lba, i := first, 0;
    assert dir[..] == Entries(us[..0], first) + Zeros(512);
    while i < |us| && i < DIR_ENTRIES
      invariant i <= |us| && i <= DIR_ENTRIES && fresh(dir) && dir.Length == 512
      invariant lba == NextLba(us[..i], first)
      invariant dir[..] == Entries(us[..i], first) + Zeros(512 - 32 * i)
    {
      var sectors := SectorCount(us[i].size);
      var entry := EntryBytes(us[i].name, lba, sectors, us[i].entry);
      NextEntry(us, first, i, lba, sectors);
      PutEntry(Entries(us[..i], first), entry, 512 - 32 * i, dir[..]);
      Put(dir, 32 * i, entry);
      lba := (lba + sectors) % WORD;
      i := i + 1;
    }
  }

  // ---------------------------------------------------------------- the image

  /** An open file and what `main` knows of it. */
  datatype FileInfo = FileInfo(file: InFile, start: nat, size: nat, entry: nat, name: seq<Byte>) {
    function Source(): Source { ImageSpec.Source(file.data, start, size, entry, name) }
  }

  function Sources(infos: seq<FileInfo>): (us: seq<Source>)
    ensures |us| == |infos| && forall i | 0 <= i < |us| :: us[i] == infos[i].Source()
  {
    seq(|infos|, i requires 0 <= i < |infos| => infos[i].Source())
  }

  ghost function Files(infos: seq<FileInfo>): (s: set<InFile>)
    ensures forall i | 0 <= i < |infos| :: infos[i].file in s
  {
    set i | 0 <= i < |infos| :: infos[i].file
  }

  lemma {:induction false} BlocksSnoc(us: seq<Source>, u: Source)
    ensures Blocks(us + [u]) == Blocks(us) + u.Block()
  {
    if us == [] {
      assert us + [u] == [u];
      assert Blocks([u]) == u.Block() + Blocks([]);
    } else {
      assert (us + [u])[1..] == us[1..] + [u];
      BlocksSnoc(us[1..], u);
    }
  }

  lemma AppendBlock(a: seq<Byte>, us: seq<Source>, i: nat)
    requires i < |us|
    ensures a + Blocks(us[..i + 1]) == a + Blocks(us[..i]) + us[i].Block()
  {
    assert us[..i + 1] == us[..i] + [us[i]];
    BlocksSnoc(us[..i], us[i]);
  }

  /** One file and its padding. The results of copying and padding are not looked at. */
  method WriteBlock(out: OutFile, info: FileInfo)
    requires out.pos == |out.data|
    modifies out, info.file
    ensures out.pos == |out.data| && (out.reliable ==> out.data == old(out.data) + info.Source().Block())
  {
    var _ := CopyRange(out, info.file, info.start, info.size);
    var _ := PadToSector(out, info.size);
  }

  method WriteBlocks(out: OutFile, users: seq<FileInfo>)
    requires out.pos == |out.data|
    modifies out, Files(users)
    ensures out.pos == |out.data| && (out.reliable ==> out.data == old(out.data) + Blocks(Sources(users)))
  {
    ghost var us := Sources(users);
    ghost var start := out.data;
    for i := 0 to |users|
      invariant out.pos == |out.data| && (out.reliable ==> out.data == start + Blocks(us[..i]))
    {
      AppendBlock(start, us, i);
      WriteBlock(out, users[i]);
    }
    assert us[..|users|] == us;
  }

  method Patch(out: OutFile, at: nat, word: nat)
    requires word < WORD
    modifies out
    ensures out.reliable && at + 4 <= |old(out.data)| ==> out.data == Patched(old(out.data), at, Le32(word))
  {
    out.Seek(at);
    var _ := out.Write(Le32(word));
  }

  /** Boot sector, kernel and directory. */
  method WriteFront(image: OutFile, boot: InFile, kernel: FileInfo, dir: seq<Byte>)
    requires image.data == [] && image.pos == 0
    modifies image, boot, kernel.file
    ensures image.pos == |image.data|
    ensures image.reliable ==> image.data == Source(boot.data, 0, 512, 0, []).Copied() + kernel.Source().Block() + dir
  {
    var _ := CopyRange(image, boot, 0, 512);
    assert image.reliable ==> image.data == Source(boot.data, 0, 512, 0, []).Copied();
    WriteBlock(image, kernel);
    var _ := image.Append(dir);
  }

  /** The image before the boot sector is patched. */
  method WriteBody(boot: InFile, kernel: FileInfo, users: seq<FileInfo>, reliable: bool) returns (image: OutFile)
    requires EntryPoints(Sources(users))
    modifies boot, kernel.file, Files(users)
    ensures fresh(image) && image.reliable == reliable
    ensures reliable ==> image.data == Body(Source(boot.data, 0, 512, 0, []), kernel.Source(), Sources(users))
  {
    var dir := BuildDirectory(Sources(users), FirstLba(kernel.Source()));
    image := new OutFile(reliable);
    WriteFront(image, boot, kernel, dir[..]);
    WriteBlocks(image, users);
  }

  /** `main`, from the layout on; what it writes is the image if every write is carried out. */
  method WriteImage(boot: InFile, kernel: FileInfo, users: seq<FileInfo>, reliable: bool) returns (image: OutFile)
    requires kernel.entry < WORD && EntryPoints(Sources(users))
    modifies boot, kernel.file, Files(users)
    ensures fresh(image)
    ensures reliable ==> image.data == Image(Source(boot.data, 0, 512, 0, []), kernel.Source(), Sources(users))
  {
    image := WriteBody(boot, kernel, users, reliable);
    Patch(image, OS_SIZE_LOC, KernelSectors(kernel.Source()));
    Patch(image, PROG_DIR_LOC, DirLba(kernel.Source()));
    Patch(image, KERNEL_ENTRY_LOC, kernel.entry);
  }
}
