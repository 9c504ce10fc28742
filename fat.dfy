/** The FAT12 tool itself: its global state (the boot sector and the file
    allocation table buffer), the boot-sector and sector readers, the FAT
    loader and the stage sequence of its entry point. */
module FatTool {
  import opened Bytes
  import opened Records
  import opened Stdio

  /** `sizeof(bufferOut)` in `readSectors`: the width of a pointer on a
      64-bit host. The function reads its `count` units in this size. */
  const PointerWidth: nat := 8

  /** The byte position `readSectors` seeks to: `lba * bytes_per_sector`
      evaluated in unsigned 32-bit arithmetic. */
  function SeekOffset(lba: U32, bytesPerSector: U16): (offset: U32)
    ensures lba * bytesPerSector < 0x1_0000_0000 ==> offset == lba * bytesPerSector
  {
    Wrap32(lba * bytesPerSector)
  }

  /** A sector address that fits in 16 bits, such as reserved_sectors, never
      wraps: the seek goes to the exact byte offset of the sector. */
  lemma {:induction false} SeekOffsetExact(lba: U32, bytesPerSector: U16)
    requires lba < 0x1_0000
    ensures SeekOffset(lba, bytesPerSector) == lba * bytesPerSector
  {
    MulMonotone(lba, bytesPerSector, 0xFFFF);
    MulMonotone(0xFFFF, lba, 0xFFFF);
    assert lba * bytesPerSector <= 0xFFFF * 0xFFFF;
  }

  /** Larger sector addresses do wrap: 0x20000 sectors of 0x8000 bytes lie
      at byte 2^32, and the seek goes to byte 0. */
  lemma SeekOffsetWraps()
    ensures SeekOffset(0x2_0000, 0x8000) == 0
  {
  }

  /** What one `readSectors` call leaves behind: its result, the caller's
      buffer and the stream position. */
  datatype SectorRead = SectorRead(ok: bool, buffer: seq<Byte>, pos: nat)

  /** The bytes a `readSectors` call stores fit a buffer of `capacity`
      bytes: nothing is read when the seek fails, and otherwise only the
      bytes that arrive are stored, however many were asked for. */
  predicate ReadFits(image: seq<Byte>, seekable: bool, bytesPerSector: U16, lba: U32, count: U32,
                     unitSize: nat, capacity: nat) {
    seekable ==> |Chunk(image, SeekOffset(lba, bytesPerSector), unitSize * count)| <= capacity
  }

  /** `readSectors` as a function of the image, whether it can be
      repositioned, the position and buffer before the call, the boot
      sector's bytes_per_sector, and the arguments: seek, and only if the
      seek succeeded, read `count` units of `unitSize` bytes. */
  function ReadSectorsSpec(image: seq<Byte>, seekable: bool, pos: nat, buffer: seq<Byte>,
                           bytesPerSector: U16, lba: U32, count: U32, unitSize: nat): (r: SectorRead)
    requires ReadFits(image, seekable, bytesPerSector, lba, count, unitSize, |buffer|)
    ensures |r.buffer| == |buffer|
    ensures unitSize * count <= |buffer| ==> r.buffer[unitSize * count..] == buffer[unitSize * count..]
    ensures !seekable ==> r == SectorRead(false, buffer, pos)
  {
    if !seekable then SectorRead(false, buffer, pos)
    else
      var offset := SeekOffset(lba, bytesPerSector);
      var c := Chunk(image, offset, unitSize * count);
      SectorRead(ItemsRead(image, offset, unitSize, count) == count, c + buffer[|c|..], offset + |c|)
  }

  /** The outcome of `readSectors`: it succeeds exactly when the seek
      succeeds and the image holds all `unitSize * count` bytes from the
      seek offset; then those bytes start the buffer. The rest of the buffer
      is never touched, and a failed seek changes neither buffer nor
      position. */
  lemma {:induction false} ReadSectorsOutcome(image: seq<Byte>, seekable: bool, pos: nat, buffer: seq<Byte>,
                                              bytesPerSector: U16, lba: U32, count: U32, unitSize: nat)
    requires unitSize > 0 && ReadFits(image, seekable, bytesPerSector, lba, count, unitSize, |buffer|)
    ensures var r := ReadSectorsSpec(image, seekable, pos, buffer, bytesPerSector, lba, count, unitSize);
      var offset := SeekOffset(lba, bytesPerSector);
      var len := unitSize * count;
      && |r.buffer| == |buffer| && (len <= |buffer| ==> r.buffer[len..] == buffer[len..])
      && (r.ok <==> seekable && (count == 0 || offset + len <= |image|))
      && (r.ok && count > 0 ==> offset + len <= |image| && len <= |buffer|
                                && r.buffer[..len] == image[offset..offset + len])
      && (r.ok && count > 0 ==> r.pos == offset + len)
      && (!seekable ==> r.buffer == buffer && r.pos == pos)
  {
    if seekable {
      var offset := SeekOffset(lba, bytesPerSector);
      var len := unitSize * count;
      ItemsReadComplete(image, offset, unitSize, count);
      var c := Chunk(image, offset, unitSize * count);
      assert |c| <= len;
      var r := ReadSectorsSpec(image, seekable, pos, buffer, bytesPerSector, lba, count, unitSize);
      assert r.buffer == c + buffer[|c|..];
      if len <= |buffer| {
        assert r.buffer[len..] == buffer[len..];
      }
    }
  }

  /** Byte offset of the table: it starts at sector reserved_sectors. */
  function FatStart(bs: BootSector): nat {
    bs.reservedSectors * bs.bytesPerSector
  }

  /** Bytes `readFat` allocates for the table: sectors_per_fat *
      bytes_per_sector. */
  function FatSize(bs: BootSector): nat {
    bs.bytesPerSector * bs.sectorsPerFat
  }

  /** A block of `n` zero bytes; the model's stand-in for what `malloc`
      returns. */
  function Zeros(n: nat): (z: seq<Byte>)
    ensures |z| == n && forall i :: 0 <= i < n ==> z[i] == 0
  {
    seq(n, _ => 0)
  }

  /** Reading sectors_per_fat units of `unitSize` bytes stays inside the
      allocated table exactly when the unit is at most a sector (or the table
      is empty), and fills it exactly when the unit is a sector. */
  lemma {:induction false} FatUnitCoverage(bs: BootSector, unitSize: nat)
    ensures unitSize * bs.sectorsPerFat <= FatSize(bs)
      <==> bs.sectorsPerFat == 0 || unitSize <= bs.bytesPerSector
    ensures unitSize * bs.sectorsPerFat == FatSize(bs)
      <==> bs.sectorsPerFat == 0 || unitSize == bs.bytesPerSector
  {
    var n: nat := bs.sectorsPerFat;
    if n > 0 {
      if unitSize <= bs.bytesPerSector {
        MulMonotone(n, unitSize, bs.bytesPerSector);
      } else {
        MulMonotone(n, bs.bytesPerSector + 1, unitSize);
      }
    }
  }

  /** As written, `readFat` reads in pointer-width units, so on a standard
      1.44 MB floppy (512-byte sectors, 9 sectors per FAT) it reports success
      after loading only the first 72 of the table's 4608 bytes; the other
      4536 bytes of the buffer keep whatever the allocation held. */
  lemma {:induction false} AsWrittenFatReadShortfall(image: seq<Byte>, bs: BootSector)
    requires bs.bytesPerSector == 512 && bs.sectorsPerFat == 9
    requires (bs.reservedSectors + 9) * 512 <= |image|
    ensures var r := ReadSectorsSpec(image, true, BootSectorSize, Zeros(FatSize(bs)), bs.bytesPerSector,
                                     bs.reservedSectors, bs.sectorsPerFat, PointerWidth);
      var offset := bs.reservedSectors * 512;
      && r.ok
      && |r.buffer| == 4608
      && r.buffer[..72] == image[offset..offset + 72]
      && r.buffer[72..] == Zeros(4608)[72..]
  {
    SeekOffsetExact(bs.reservedSectors, 512);
    ReadSectorsOutcome(image, true, BootSectorSize, Zeros(FatSize(bs)), bs.bytesPerSector,
                       bs.reservedSectors, bs.sectorsPerFat, PointerWidth);
  }

  /** As written, an image whose boot sector declares fewer bytes per sector
      than a pointer is wide passes the boot-sector read, and when the image
      holds sectors_per_fat pointer-width units from the table's start,
      `fread` delivers more bytes than `readFat` allocated: it writes past
      the end of the block. */
  lemma {:induction false} AsWrittenFatReadOverflows(image: seq<Byte>, bs: BootSector)
    requires WellFormedBootSector(bs)
    requires |image| >= BootSectorSize && image[..BootSectorSize] == EncodeBootSector(bs)
    requires 0 < bs.bytesPerSector < PointerWidth && bs.sectorsPerFat > 0
    requires FatStart(bs) + PointerWidth * bs.sectorsPerFat <= |image|
    ensures ParseBootSector(image) == Some(bs)
    ensures |Chunk(image, SeekOffset(bs.reservedSectors, bs.bytesPerSector), PointerWidth * bs.sectorsPerFat)|
            > FatSize(bs)
  {
    DecodeBootSectorPrefix(image);
    DecodeEncodeBootSector(bs);
    SeekOffsetExact(bs.reservedSectors, bs.bytesPerSector);
    FatUnitCoverage(bs, PointerWidth);
  }

  /** Reading the table in units of a sector, as intended (the write then
      always fits the allocation, by FatUnitCoverage): the read succeeds
      exactly when the stream can be repositioned and the image holds the
      whole table region starting at sector reserved_sectors; and then the
      buffer is that region. */
  lemma {:induction false} SectorUnitFatReadCoversFat(image: seq<Byte>, seekable: bool, pos: nat, bs: BootSector)
    ensures var r := ReadSectorsSpec(image, seekable, pos, Zeros(FatSize(bs)), bs.bytesPerSector,
                                     bs.reservedSectors, bs.sectorsPerFat, bs.bytesPerSector);
      var start := FatStart(bs);
      && (r.ok <==> seekable && (bs.sectorsPerFat == 0
                                 || (bs.bytesPerSector > 0 && start + FatSize(bs) <= |image|)))
      && (r.ok && FatSize(bs) > 0 ==> start + FatSize(bs) <= |image| && r.buffer == image[start..start + FatSize(bs)])
  {
    if bs.bytesPerSector > 0 {
      SectorUnitFatRead(image, seekable, pos, bs);
    } else if seekable {
      assert ItemsRead(image, SeekOffset(bs.reservedSectors, 0), 0, bs.sectorsPerFat) == 0;
    }
  }

  /** SectorUnitFatReadCoversFat for a boot sector with bytes_per_sector > 0. */
  lemma {:induction false} SectorUnitFatRead(image: seq<Byte>, seekable: bool, pos: nat, bs: BootSector)
    requires bs.bytesPerSector > 0
    ensures var r := ReadSectorsSpec(image, seekable, pos, Zeros(FatSize(bs)), bs.bytesPerSector,
                                     bs.reservedSectors, bs.sectorsPerFat, bs.bytesPerSector);
      var start := FatStart(bs);
      && (r.ok <==> seekable && (bs.sectorsPerFat == 0 || start + FatSize(bs) <= |image|))
      && (r.ok && FatSize(bs) > 0 ==> start + FatSize(bs) <= |image| && r.buffer == image[start..start + FatSize(bs)])
  {
    var size := FatSize(bs);
    var z := Zeros(size);
    SeekOffsetExact(bs.reservedSectors, bs.bytesPerSector);
    ReadSectorsOutcome(image, seekable, pos, z, bs.bytesPerSector,
                       bs.reservedSectors, bs.sectorsPerFat, bs.bytesPerSector);
    var r := ReadSectorsSpec(image, seekable, pos, z, bs.bytesPerSector,
                             bs.reservedSectors, bs.sectorsPerFat, bs.bytesPerSector);
    assert |r.buffer| == size;
    assert r.buffer == r.buffer[..size];
  }

  /** The opened disk image as `main` sees it. */
  datatype DiskImage = DiskImage(image: seq<Byte>, seekable: bool)

  /** The unit `readSectors` reads in: a pointer's width, as written, or the
      boot sector's bytes_per_sector, as intended. */
  datatype ReadUnit = PointerUnit | SectorUnit

  function UnitSize(unit: ReadUnit, bs: BootSector): nat {
    match unit
    case PointerUnit => PointerWidth
    case SectorUnit => bs.bytesPerSector
  }

  /** The bytes the table read of boot sector `bs` stores fit the block
      `readFat` allocates. */
  predicate FatReadFits(d: DiskImage, bs: BootSector, unit: ReadUnit) {
    ReadFits(d.image, d.seekable, bs.bytesPerSector, bs.reservedSectors, bs.sectorsPerFat,
             UnitSize(unit, bs), FatSize(bs))
  }

  /** The table read of the image's own boot sector stays inside the block
      `readFat` allocates (past it the C program's behaviour is undefined). */
  predicate ImageFatReadFits(d: DiskImage, unit: ReadUnit) {
    |d.image| >= BootSectorSize ==> FatReadFits(d, DecodeBootSector(d.image), unit)
  }

  /** Whether the table loads from the image once the boot sector `bs` has
      been read from its first bytes. */
  function LoadsFat(d: DiskImage, bs: BootSector, unit: ReadUnit): bool
    requires FatReadFits(d, bs, unit)
  {
    ReadSectorsSpec(d.image, d.seekable, BootSectorSize, Zeros(FatSize(bs)), bs.bytesPerSector,
                    bs.reservedSectors, bs.sectorsPerFat, UnitSize(unit, bs)).ok
  }

  /** `main`'s return value: the code of the first stage that fails, in the
      order usage, open, boot sector, FAT; `disk` is None when `fopen`
      failed. */
  function ExitCode(argc: int, disk: Option<DiskImage>, unit: ReadUnit): (code: int)
    requires disk.Some? ==> ImageFatReadFits(disk.value, unit)
    ensures code in {-4, -3, -2, -1, 0}
    ensures code == -1 <==> argc < 3
    ensures code == -2 <==> argc >= 3 && disk.None?
    ensures code == -3 <==> argc >= 3 && disk.Some? && |disk.value.image| < BootSectorSize
  {
    if argc < 3 then -1
    else if disk.None? then -2
    else match ParseBootSector(disk.value.image)
      case None => -3
      case Some(bs) => if LoadsFat(disk.value, bs, unit) then 0 else -4
  }

  /** The corrected `main` (sector units) returns 0 exactly when there are
      enough arguments, the image opened, it holds the boot-sector record,
      and it can be repositioned and holds the whole table region the boot
      sector declares. */
  lemma {:induction false} ExitCodeMeaning(argc: int, disk: Option<DiskImage>)
    ensures disk.Some? ==> ImageFatReadFits(disk.value, SectorUnit)
    ensures ExitCode(argc, disk, SectorUnit) == 0 <==>
      && argc >= 3
      && disk.Some?
      && |disk.value.image| >= BootSectorSize
      && var bs := DecodeBootSector(disk.value.image);
         && disk.value.seekable
         && (bs.sectorsPerFat == 0
             || (bs.bytesPerSector > 0 && FatStart(bs) + FatSize(bs) <= |disk.value.image|))
  {
    if argc >= 3 && disk.Some? && |disk.value.image| >= BootSectorSize {
      var bs := DecodeBootSector(disk.value.image);
      SectorUnitFatReadCoversFat(disk.value.image, disk.value.seekable, BootSectorSize, bs);
    }
  }

  /** `main` as written (pointer-width units), on images whose table read
      stores no more than its block holds, returns 0 exactly when there are enough arguments, the
      image opened, it holds the boot-sector record, and it can be
      repositioned and holds sectors_per_fat pointer-width units from the
      table's start: not the whole table region. */
  lemma {:induction false} ExitCodeAsWritten(argc: int, disk: Option<DiskImage>)
    requires disk.Some? ==> ImageFatReadFits(disk.value, PointerUnit)
    ensures ExitCode(argc, disk, PointerUnit) == 0 <==>
      && argc >= 3
      && disk.Some?
      && |disk.value.image| >= BootSectorSize
      && var bs := DecodeBootSector(disk.value.image);
         && disk.value.seekable
         && (bs.sectorsPerFat == 0 || FatStart(bs) + PointerWidth * bs.sectorsPerFat <= |disk.value.image|)
  {
    if argc >= 3 && disk.Some? && |disk.value.image| >= BootSectorSize {
      var bs := DecodeBootSector(disk.value.image);
      SeekOffsetExact(bs.reservedSectors, bs.bytesPerSector);
      ReadSectorsOutcome(disk.value.image, disk.value.seekable, BootSectorSize, Zeros(FatSize(bs)),
                         bs.bytesPerSector, bs.reservedSectors, bs.sectorsPerFat, PointerWidth);
    }
  }

  /** As written, on an image that declares sectors narrower than a pointer
      and a non-empty table, every run whose table read stays inside its
      block (for instance one that meets the image's end early) ends with
      -4: the read stores fewer bytes than sectors_per_fat pointer-width
      units, so `fread` returns fewer items than asked for. */
  lemma {:induction false} AsWrittenNarrowSectorsFail(argc: int, d: DiskImage)
    requires argc >= 3 && |d.image| >= BootSectorSize && ImageFatReadFits(d, PointerUnit)
    requires var bs := DecodeBootSector(d.image);
      bs.bytesPerSector < PointerWidth && bs.sectorsPerFat > 0
    ensures ExitCode(argc, Some(d), PointerUnit) == -4
  {
    var bs := DecodeBootSector(d.image);
    ExitCodeAsWritten(argc, Some(d));
    FatUnitCoverage(bs, PointerWidth);
    SeekOffsetExact(bs.reservedSectors, bs.bytesPerSector);
  }

  /** The two units part ways on an ordinary floppy geometry: a 600-byte
      image whose boot sector declares 512-byte sectors, one reserved sector
      and 9 sectors per FAT makes `main` as written return 0, while the
      corrected `main` returns -4 because the table region runs past the
      image's end. */
  lemma {:induction false} ExitCodesDiffer(image: seq<Byte>)
    requires |image| == 600
    requires var bs := DecodeBootSector(image);
      bs.bytesPerSector == 512 && bs.reservedSectors == 1 && bs.sectorsPerFat == 9
    ensures ImageFatReadFits(DiskImage(image, true), PointerUnit)
    ensures ImageFatReadFits(DiskImage(image, true), SectorUnit)
    ensures ExitCode(3, Some(DiskImage(image, true)), PointerUnit) == 0
    ensures ExitCode(3, Some(DiskImage(image, true)), SectorUnit) == -4
  {
    var bs := DecodeBootSector(image);
    FatUnitCoverage(bs, PointerWidth);
    ExitCodeAsWritten(3, Some(DiskImage(image, true)));
    ExitCodeMeaning(3, Some(DiskImage(image, true)));
  }

  /** The tool's global variables: the boot sector record `g_BootSector`,
      the table buffer `g_fat` and, as ghost state, whether `g_fat` holds a
      block that has not been freed. */
  class Program {
    var bootSector: BootSector
    var fat: array?<Byte>
    ghost var fatLive: bool

    ghost predicate Valid()
      reads this
    {
      WellFormedBootSector(bootSector) && (fatLive ==> fat != null)
    }

    /** Program start: static storage is zero. */
    constructor ()
      ensures Valid() && !fatLive && fat == null
      ensures bootSector == DecodeBootSector(Zeros(BootSectorSize))
    {
      bootSector := DecodeBootSector(Zeros(BootSectorSize));
      fat := null;
      fatLive := false;
    }

    /** `readBootSector`: one `fread` of the 62-byte record into
        `g_BootSector` at the stream's position. The bytes that arrive
        overwrite the front of the record, even when too few arrive; the
        call succeeds exactly when all 62 do. */
    method ReadBootSector(disk: Disk) returns (ok: bool)
      requires Valid()
      modifies this`bootSector, disk`pos
      ensures Valid()
      ensures var c := Chunk(disk.image, old(disk.pos), BootSectorSize);
        && bootSector == DecodeBootSector(c + EncodeBootSector(old(bootSector))[|c|..])
        && disk.pos == old(disk.pos) + |c|
      ensures ok <==> old(disk.pos) + BootSectorSize <= |disk.image|
      ensures ok ==> bootSector == DecodeBootSector(disk.image[old(disk.pos)..old(disk.pos) + BootSectorSize])
    {
      var record := EncodeBootSector(bootSector);
      var raw := new Byte[BootSectorSize](i => if 0 <= i < |record| then record[i] else 0);
      assert raw[..] == record;
      ghost var at := disk.pos;
      var items := disk.Read(raw, BootSectorSize, 1);
      ItemsReadComplete(disk.image, at, BootSectorSize, 1);
      bootSector := DecodeBootSector(raw[..]);
      ok := items > 0;
      if ok {
        assert raw[..] == disk.image[at..at + BootSectorSize];
      }
    }

    /** `readSectors`: seek to sector `lba` (bytes_per_sector taken from
        `g_BootSector`), and only if that succeeded read `count` units of
        `unitSize` bytes into `buffer`; success means every unit arrived. */
    method ReadSectors(disk: Disk, lba: U32, count: U32, unitSize: nat, buffer: array<Byte>) returns (ok: bool)
      requires ReadFits(disk.image, disk.seekable, bootSector.bytesPerSector, lba, count, unitSize, buffer.Length)
      modifies disk`pos, buffer
      ensures var r := ReadSectorsSpec(disk.image, disk.seekable, old(disk.pos), old(buffer[..]),
                                       bootSector.bytesPerSector, lba, count, unitSize);
        ok == r.ok && buffer[..] == r.buffer && disk.pos == r.pos
    {
      ok := true;
      var sought := disk.Seek(SeekOffset(lba, bootSector.bytesPerSector));
      ok := ok && sought;
      if ok {
        var items := disk.Read(buffer, unitSize, count);
        ok := items == count;
      }
    }

    /** `readFat`: allocate sectors_per_fat * bytes_per_sector bytes for
        `g_fat` and read sectors_per_fat units from sector reserved_sectors
        into it. The bytes the read stores must fit the allocation, as they
        always do in sector units (see FatUnitCoverage). */
    method ReadFat(disk: Disk, unitSize: nat) returns (ok: bool)
      requires Valid()
      requires ReadFits(disk.image, disk.seekable, bootSector.bytesPerSector, bootSector.reservedSectors,
                        bootSector.sectorsPerFat, unitSize, FatSize(bootSector))
      modifies this`fat, this`fatLive, disk`pos
      ensures Valid() && fatLive && fat != null && fresh(fat) && fat.Length == FatSize(bootSector)
      ensures var r := ReadSectorsSpec(disk.image, disk.seekable, old(disk.pos), Zeros(FatSize(bootSector)),
                                       bootSector.bytesPerSector, bootSector.reservedSectors,
                                       bootSector.sectorsPerFat, unitSize);
        ok == r.ok && fat[..] == r.buffer && disk.pos == r.pos
    {
      var size := FatSize(bootSector);
      fat := new Byte[size](_ => 0);
      fatLive := true;
      assert fat[..] == Zeros(size);
      ok := ReadSectors(disk, bootSector.reservedSectors, bootSector.sectorsPerFat, unitSize, fat);
    }

    /** `free(g_fat)`. */
    method FreeFat()
      modifies this`fatLive
      ensures !fatLive
    {
      fatLive := false;
    }

    /** `main`, with `disk` null when `fopen` failed, reading the table in
        `unit` (PointerUnit as written, SectorUnit as intended; as written
        only on images whose table read stores no more than its block
        holds): it returns the code of the first stage that
        fails, frees the table on every path that allocated it, and on the
        paths that reach the table load leaves the decoded boot sector and a
        table buffer of the declared size behind. */
    method Run(argc: int, disk: Disk?, unit: ReadUnit) returns (code: int)
      requires Valid() && !fatLive
      requires disk != null ==> disk.pos == 0 && ImageFatReadFits(DiskImage(disk.image, disk.seekable), unit)
      modifies this, disk
      ensures Valid() && !fatLive
      ensures code == ExitCode(argc, if disk == null then None else Some(DiskImage(disk.image, disk.seekable)), unit)
      ensures (code == 0 || code == -4) ==>
        && disk != null
        && |disk.image| >= BootSectorSize
        && bootSector == DecodeBootSector(disk.image)
        && fat != null && fat.Length == FatSize(bootSector)
      ensures (code == -1 || code == -2) ==> bootSector == old(bootSector) && fat == old(fat)
      ensures code == -3 ==> fat == old(fat)
    {
      if argc < 3 {
        return -1;
      }
      if disk == null {
        return -2;
      }
      var bootOk := ReadBootSector(disk);
      if !bootOk {
        return -3;
      }
      DecodeBootSectorPrefix(disk.image);
      assert disk.pos == BootSectorSize;
      var fatOk := ReadFat(disk, UnitSize(unit, bootSector));
      if !fatOk {
        FreeFat();
        return -4;
      }
      FreeFat();
      return 0;
    }
  }
}
