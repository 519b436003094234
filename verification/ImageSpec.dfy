/**
The disk image on values (tools/createimage.cpp): boot sector, kernel padded to sectors, one directory
sector, then every program padded to sectors.
*/
module ImageSpec {
  import opened Base
  import opened Bytes

  const DIR_ENTRIES: nat := 16
  const OS_SIZE_LOC: nat := 2
  const PROG_DIR_LOC: nat := 6
  const KERNEL_ENTRY_LOC: nat := 503

  /** Sectors needed for `sz` bytes. */
  function Sectors(sz: nat): (n: nat)
    ensures sz <= 512 * n < sz + 512
  {
    (sz + 511) / 512
  }

  /** `sector_count` keeps 32 bits. */
  function SectorCount(sz: nat): (n: nat) ensures n < WORD { Sectors(sz) % WORD }

  /** What `pad_to_sector` adds after `written` bytes. */
  function Pad(written: nat): nat { if written % 512 == 0 then 0 else 512 - written % 512 }

  /** `pad_to_sector` and `sector_count` agree on where the next sector begins. */
  lemma PadFills(sz: nat)
    ensures sz + Pad(sz) == 512 * Sectors(sz)
  {
    assert sz == 512 * (sz / 512) + sz % 512;
  }

  function Zeros(n: nat): (z: seq<Byte>)
    ensures |z| == n && forall i | 0 <= i < n :: z[i] == 0
  {
    seq(n, _ => 0)
  }

  function Min(a: nat, b: nat): nat { if a < b then a else b }

  /** A file to be copied: its bytes, the range `fill_metadata` found in it, entry point and base name. */
  datatype Source = Source(data: seq<Byte>, start: nat, size: nat, entry: nat, name: seq<Byte>) {
    predicate Complete() { start + size <= |data| }

    /** The bytes `copy_range` finds. */
    function Copied(): seq<Byte> { data[Min(start, |data|)..Min(start + size, |data|)] }

    /** The bytes and their padding. */
    function Block(): seq<Byte> { Copied() + Zeros(Pad(size)) }
  }

  function Blocks(us: seq<Source>): seq<Byte> {
    if us == [] then [] else us[0].Block() + Blocks(us[1..])
  }

  // ---------------------------------------------------------------- the directory

  /** A name as the directory holds it: at most 15 bytes, filled up with zeros. */
  function Truncated(name: seq<Byte>): (r: seq<Byte>) ensures |r| <= 15 { name[..Min(15, |name|)] }

  function Stored(name: seq<Byte>): (r: seq<Byte>)
    ensures |r| == 16
  {
    Truncated(name) + Zeros(16 - |Truncated(name)|)
  }

  function EntryBytes(name: seq<Byte>, lba: nat, sectors: nat, entry: nat): (b: seq<Byte>)
    requires lba < WORD && sectors < WORD && entry < WORD
    ensures |b| == 32
  {
    Stored(name) + Le32(lba) + Le32(sectors) + Le32(entry) + Zeros(4)
  }

  predicate EntryPoints(us: seq<Source>) { forall i | 0 <= i < |us| :: us[i].entry < WORD }

  function Entries(us: seq<Source>, lba: nat): (b: seq<Byte>)
    requires EntryPoints(us) && lba < WORD
    ensures |b| == 32 * |us|
  {
    if us == [] then []
    else EntryBytes(us[0].name, lba, SectorCount(us[0].size), us[0].entry) + Entries(us[1..], (lba + SectorCount(us[0].size)) % WORD)
  }

  /** Programs beyond the sixteenth get no entry. */
  function Directory(us: seq<Source>, lba: nat): (b: seq<Byte>)
    requires EntryPoints(us) && lba < WORD
    ensures |b| == 512
  {
    var n := Min(DIR_ENTRIES, |us|);
    Entries(us[..n], lba) + Zeros(512 - 32 * n)
  }

  // ---------------------------------------------------------------- the image

  function KernelSectors(kernel: Source): nat { SectorCount(kernel.size) }

  function DirLba(kernel: Source): (n: nat) ensures n < WORD { (1 + KernelSectors(kernel)) % WORD }

  /** Where the first program begins. */
  function FirstLba(kernel: Source): (n: nat) ensures n < WORD { (DirLba(kernel) + 1) % WORD }

  function Body(boot: Source, kernel: Source, us: seq<Source>): seq<Byte>
    requires EntryPoints(us)
  {
    boot.Copied() + kernel.Block() + Directory(us, FirstLba(kernel)) + Blocks(us)
  }

  /** Writing over bytes already there. */
  function Patched(b: seq<Byte>, at: nat, bytes: seq<Byte>): (r: seq<Byte>)
    requires at + |bytes| <= |b|
    ensures |r| == |b|
    ensures forall i {:trigger r[i]} | 0 <= i < |r| && (i < at || at + |bytes| <= i) :: r[i] == b[i]
    ensures r[at..at + |bytes|] == bytes
  {
    b[..at] + bytes + b[at + |bytes|..]
  }

  function Image(boot: Source, kernel: Source, us: seq<Source>): (r: seq<Byte>)
    requires EntryPoints(us) && kernel.entry < WORD
  {
    var b := Body(boot, kernel, us);
    Patched(Patched(Patched(b, OS_SIZE_LOC, Le32(KernelSectors(kernel))), PROG_DIR_LOC, Le32(DirLba(kernel))),
            KERNEL_ENTRY_LOC, Le32(kernel.entry))
  }
}
