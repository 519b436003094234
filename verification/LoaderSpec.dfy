/** Finding a program on the disk (kernel/loader.cpp). */
module LoaderSpec {
  import opened Base
  import opened Bytes

  /** Where the boot sector holds the directory's sector, and how many entries a directory has. */
  const DIR_LBA_AT: nat := 6
  const MAX_ENTRIES: nat := 16

  /** The kernel's own copy of a name. */
  function Cut(name: seq<Byte>): seq<Byte> { if |name| <= 15 then name else name[..15] }

  /** `ata_read_sector`: the sector's bytes, or an error beyond the end of the disk. */
  function ReadSector(disk: seq<Byte>, lba: nat): (r: Option<seq<Byte>>)
    ensures r.Some? ==> |r.value| == 512
  {
    if 512 * lba + 512 <= |disk| then Some(disk[512 * lba..512 * lba + 512]) else None
  }

  /** The string in a field: everything before the first zero. */
  function CString(field: seq<Byte>): (s: seq<Byte>) {
    if field == [] || field[0] == 0 then [] else [field[0]] + CString(field[1..])
  }

  datatype DirEntry = DirEntry(name: seq<Byte>, lba: nat, sectors: nat, entry: nat)

  function EntryAt(dir: seq<Byte>, i: nat): (e: DirEntry)
    requires |dir| == 512 && i < MAX_ENTRIES
    ensures e.lba < WORD && e.sectors < WORD && e.entry < WORD
  {
    var b := dir[32 * i..32 * i + 32];
    DirEntry(CString(b[..16]), FromLe32(b[16..20]), FromLe32(b[20..24]), FromLe32(b[24..28]))
  }

  /** The scan of the directory from entry `i`: it stops at the name, at an empty name, or at the end. */
  function Find(dir: seq<Byte>, name: seq<Byte>, i: nat): (r: Option<nat>)
    requires |dir| == 512 && i <= MAX_ENTRIES
    ensures r.Some? ==> i <= r.value < MAX_ENTRIES
    decreases MAX_ENTRIES - i
  {
    if i == MAX_ENTRIES || dir[32 * i] == 0 then None
    else if EntryAt(dir, i).name == name then Some(i)
    else Find(dir, name, i + 1)
  }

  /** `read_prog_dir_lba`: 0 when the boot sector cannot be read. */
  function ReadProgDirLba(disk: seq<Byte>): nat {
    match ReadSector(disk, 0)
    case None => 0
    case Some(sector) => FromLe32(sector[DIR_LBA_AT..DIR_LBA_AT + 4])
  }

  function Lookup(disk: seq<Byte>, name: seq<Byte>): (r: Option<DirEntry>)
    ensures r.Some? ==> r.value.lba < WORD && r.value.sectors < WORD && r.value.entry < WORD
  {
    var lba := ReadProgDirLba(disk);
    if lba == 0 then None
    else
      match ReadSector(disk, lba)
      case None => None
      case Some(dir) =>
        match Find(dir, Cut(name), 0)
        case None => None
        case Some(i) => Some(EntryAt(dir, i))
  }
}
