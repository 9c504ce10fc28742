/** The two packed on-disk records of a FAT12 volume that the tool declares:
    the boot sector with its BIOS parameter block and extended boot record,
    and the 32-byte directory entry. Both are C structs declared with
    `__attribute__((packed))`, so each member starts right after the previous
    one and every multi-byte member is little-endian. */
module Records {
  import opened Bytes

  /** Bytes in the packed boot-sector record (not a whole 512-byte sector). */
  const BootSectorSize: nat := 62

  /** Bytes in one packed directory entry. */
  const DirectoryEntrySize: nat := 32

  datatype BootSector = BootSector(
    bootJumpInstr: seq<Byte>,       // 3 bytes
    oemId: seq<Byte>,               // 8 bytes
    bytesPerSector: U16,
    sectorsPerCluster: Byte,
    reservedSectors: U16,
    numOfFats: Byte,
    numOfRootEntries: U16,
    totalSectors: U16,
    mediaDescriptorType: Byte,
    sectorsPerFat: U16,
    sectorsPerTrack: U16,
    head: U16,
    hiddenSectors: U32,
    largeSectorCount: U32,
    // extended boot record, kept as opaque values
    driveNumber: Byte,
    reserved: Byte,
    signature: Byte,
    volumeId: U32,
    volumeLabel: seq<Byte>,         // 11 bytes
    systemId: seq<Byte>             // 8 bytes
  )

  /** The byte arrays of the record have the lengths the struct declares. */
  predicate WellFormedBootSector(bs: BootSector) {
    |bs.bootJumpInstr| == 3 && |bs.oemId| == 8 && |bs.volumeLabel| == 11 && |bs.systemId| == 8
  }

  /** The record read from the first 62 bytes of `b`, each member at its
      packed offset. */
  function DecodeBootSector(b: seq<Byte>): (bs: BootSector)
    requires |b| >= BootSectorSize
    ensures WellFormedBootSector(bs)
  {
    BootSector(
      bootJumpInstr := b[0..3],
      oemId := b[3..11],
      bytesPerSector := Le16(b, 11),
      sectorsPerCluster := b[13],
      reservedSectors := Le16(b, 14),
      numOfFats := b[16],
      numOfRootEntries := Le16(b, 17),
      totalSectors := Le16(b, 19),
      mediaDescriptorType := b[21],
      sectorsPerFat := Le16(b, 22),
      sectorsPerTrack := Le16(b, 24),
      head := Le16(b, 26),
      hiddenSectors := Le32(b, 28),
      largeSectorCount := Le32(b, 32),
      driveNumber := b[36],
      reserved := b[37],
      signature := b[38],
      volumeId := Le32(b, 39),
      volumeLabel := b[43..54],
      systemId := b[54..62]
    )
  }

  /** The record's bytes as the C compiler lays them out: the members in
      declaration order, nothing between them. */
  function EncodeBootSector(bs: BootSector): (b: seq<Byte>)
    requires WellFormedBootSector(bs)
    ensures |b| == BootSectorSize
  {
    bs.bootJumpInstr + bs.oemId + ToLe16(bs.bytesPerSector) + [bs.sectorsPerCluster]
    + ToLe16(bs.reservedSectors) + [bs.numOfFats] + ToLe16(bs.numOfRootEntries)
    + ToLe16(bs.totalSectors) + [bs.mediaDescriptorType] + ToLe16(bs.sectorsPerFat)
    + ToLe16(bs.sectorsPerTrack) + ToLe16(bs.head) + ToLe32(bs.hiddenSectors)
    + ToLe32(bs.largeSectorCount) + [bs.driveNumber] + [bs.reserved] + [bs.signature]
    + ToLe32(bs.volumeId) + bs.volumeLabel + bs.systemId
  }

  /** Reading back the packed layout of a record gives the record: the
      decoder's offsets are exactly the packed, declaration-order offsets. */
  lemma {:induction false} DecodeEncodeBootSector(bs: BootSector)
    requires WellFormedBootSector(bs)
    ensures DecodeBootSector(EncodeBootSector(bs)) == bs
  {
    var b := EncodeBootSector(bs);
    var p0 := bs.bootJumpInstr + bs.oemId;
    var p1 := p0 + ToLe16(bs.bytesPerSector) + [bs.sectorsPerCluster];
    var p2 := p1 + ToLe16(bs.reservedSectors) + [bs.numOfFats];
    var p3 := p2 + ToLe16(bs.numOfRootEntries);
    var p4 := p3 + ToLe16(bs.totalSectors) + [bs.mediaDescriptorType];
    var p5 := p4 + ToLe16(bs.sectorsPerFat);
    var p6 := p5 + ToLe16(bs.sectorsPerTrack);
    var p7 := p6 + ToLe16(bs.head);
    var p8 := p7 + ToLe32(bs.hiddenSectors);
    var p9 := p8 + ToLe32(bs.largeSectorCount) + [bs.driveNumber] + [bs.reserved] + [bs.signature];
    var p10 := p9 + ToLe32(bs.volumeId);
    assert b == p10 + bs.volumeLabel + bs.systemId;
    Le16Within(p0, ToLe16(bs.bytesPerSector), b[|p0| + 2..]);
    Le16OfToLe16(bs.bytesPerSector);
    Le16Within(p1, ToLe16(bs.reservedSectors), b[|p1| + 2..]);
    Le16OfToLe16(bs.reservedSectors);
    Le16Within(p2, ToLe16(bs.numOfRootEntries), b[|p2| + 2..]);
    Le16OfToLe16(bs.numOfRootEntries);
    Le16Within(p3, ToLe16(bs.totalSectors), b[|p3| + 2..]);
    Le16OfToLe16(bs.totalSectors);
    Le16Within(p4, ToLe16(bs.sectorsPerFat), b[|p4| + 2..]);
    Le16OfToLe16(bs.sectorsPerFat);
    Le16Within(p5, ToLe16(bs.sectorsPerTrack), b[|p5| + 2..]);
    Le16OfToLe16(bs.sectorsPerTrack);
    Le16Within(p6, ToLe16(bs.head), b[|p6| + 2..]);
    Le16OfToLe16(bs.head);
    Le32Within(p7, ToLe32(bs.hiddenSectors), b[|p7| + 4..]);
    Le32OfToLe32(bs.hiddenSectors);
    Le32Within(p8, ToLe32(bs.largeSectorCount), b[|p8| + 4..]);
    Le32OfToLe32(bs.largeSectorCount);
    Le32Within(p9, ToLe32(bs.volumeId), b[|p9| + 4..]);
    Le32OfToLe32(bs.volumeId);
  }

  /** Every 62-byte block is the packed layout of the record decoded from it,
      so decoding loses nothing. */
  lemma {:induction false} EncodeDecodeBootSector(b: seq<Byte>)
    requires |b| == BootSectorSize
    ensures EncodeBootSector(DecodeBootSector(b)) == b
  {
    var bs := DecodeBootSector(b);
    ToLe16OfLe16(b, 11);
    ToLe16OfLe16(b, 14);
    ToLe16OfLe16(b, 17);
    ToLe16OfLe16(b, 19);
    ToLe16OfLe16(b, 22);
    ToLe16OfLe16(b, 24);
    ToLe16OfLe16(b, 26);
    ToLe32OfLe32(b, 28);
    ToLe32OfLe32(b, 32);
    ToLe32OfLe32(b, 39);
    assert b == b[0..3] + b[3..11] + b[11..13] + [b[13]] + b[14..16] + [b[16]] + b[17..19]
      + b[19..21] + [b[21]] + b[22..24] + b[24..26] + b[26..28] + b[28..32] + b[32..36]
      + [b[36]] + [b[37]] + [b[38]] + b[39..43] + b[43..54] + b[54..62];
  }

  /** Decoding looks at the first 62 bytes only. */
  lemma DecodeBootSectorPrefix(b: seq<Byte>)
    requires |b| >= BootSectorSize
    ensures DecodeBootSector(b) == DecodeBootSector(b[..BootSectorSize])
  {
  }

  /** readBootSector's result as a value: the record at the start of the
      image, which exists exactly when the image is at least as long as the
      packed record. */
  function ParseBootSector(image: seq<Byte>): (r: Option<BootSector>)
    ensures r.Some? <==> |image| >= BootSectorSize
    ensures r.Some? ==> WellFormedBootSector(r.value) && EncodeBootSector(r.value) == image[..BootSectorSize]
  {
    if |image| < BootSectorSize then None
    else
      var bs := DecodeBootSector(image);
      DecodeBootSectorPrefix(image);
      EncodeDecodeBootSector(image[..BootSectorSize]);
      Some(bs)
  }

  datatype Option<T> = None | Some(value: T)

  datatype DirectoryEntry = DirectoryEntry(
    name: seq<Byte>,                // 11 bytes, 8.3 form
    attributes: Byte,
    reserved: Byte,
    creationTimeTenths: Byte,
    creationTime: U16,
    creationDate: U16,
    accessDate: U16,
    firstClusterHigh: U16,
    modifiedDate: U16,
    modifiedTime: U16,
    firstClusterLow: U16,
    size: U32
  )

  predicate WellFormedDirectoryEntry(e: DirectoryEntry) {
    |e.name| == 11
  }

  /** The entry read from the first 32 bytes of `b`. */
  function DecodeDirectoryEntry(b: seq<Byte>): (e: DirectoryEntry)
    requires |b| >= DirectoryEntrySize
    ensures WellFormedDirectoryEntry(e)
  {
    DirectoryEntry(
      name := b[0..11],
      attributes := b[11],
      reserved := b[12],
      creationTimeTenths := b[13],
      creationTime := Le16(b, 14),
      creationDate := Le16(b, 16),
      accessDate := Le16(b, 18),
      firstClusterHigh := Le16(b, 20),
      modifiedDate := Le16(b, 22),
      modifiedTime := Le16(b, 24),
      firstClusterLow := Le16(b, 26),
      size := Le32(b, 28)
    )
  }

  /** The entry's packed layout: members in declaration order, no padding. */
  function EncodeDirectoryEntry(e: DirectoryEntry): (b: seq<Byte>)
    requires WellFormedDirectoryEntry(e)
    ensures |b| == DirectoryEntrySize
  {
    e.name + [e.attributes] + [e.reserved] + [e.creationTimeTenths]
    + ToLe16(e.creationTime) + ToLe16(e.creationDate) + ToLe16(e.accessDate)
    + ToLe16(e.firstClusterHigh) + ToLe16(e.modifiedDate) + ToLe16(e.modifiedTime)
    + ToLe16(e.firstClusterLow) + ToLe32(e.size)
  }

  /** Reading back an entry's packed layout gives the entry. */
  lemma {:induction false} DecodeEncodeDirectoryEntry(e: DirectoryEntry)
    requires WellFormedDirectoryEntry(e)
    ensures DecodeDirectoryEntry(EncodeDirectoryEntry(e)) == e
  {
    var b := EncodeDirectoryEntry(e);
    var p0 := e.name + [e.attributes] + [e.reserved] + [e.creationTimeTenths];
    var p1 := p0 + ToLe16(e.creationTime);
    var p2 := p1 + ToLe16(e.creationDate);
    var p3 := p2 + ToLe16(e.accessDate);
    var p4 := p3 + ToLe16(e.firstClusterHigh);
    var p5 := p4 + ToLe16(e.modifiedDate);
    var p6 := p5 + ToLe16(e.modifiedTime);
    var p7 := p6 + ToLe16(e.firstClusterLow);
    assert b == p7 + ToLe32(e.size);
    Le16Within(p0, ToLe16(e.creationTime), b[|p0| + 2..]);
    Le16OfToLe16(e.creationTime);
    Le16Within(p1, ToLe16(e.creationDate), b[|p1| + 2..]);
    Le16OfToLe16(e.creationDate);
    Le16Within(p2, ToLe16(e.accessDate), b[|p2| + 2..]);
    Le16OfToLe16(e.accessDate);
    Le16Within(p3, ToLe16(e.firstClusterHigh), b[|p3| + 2..]);
    Le16OfToLe16(e.firstClusterHigh);
    Le16Within(p4, ToLe16(e.modifiedDate), b[|p4| + 2..]);
    Le16OfToLe16(e.modifiedDate);
    Le16Within(p5, ToLe16(e.modifiedTime), b[|p5| + 2..]);
    Le16OfToLe16(e.modifiedTime);
    Le16Within(p6, ToLe16(e.firstClusterLow), b[|p6| + 2..]);
    Le16OfToLe16(e.firstClusterLow);
    Le32Within(p7, ToLe32(e.size), []);
    Le32OfToLe32(e.size);
  }

  /** Every 32-byte block is the packed layout of the entry decoded from it. */
  lemma {:induction false} EncodeDecodeDirectoryEntry(b: seq<Byte>)
    requires |b| == DirectoryEntrySize
    ensures EncodeDirectoryEntry(DecodeDirectoryEntry(b)) == b
  {
    ToLe16OfLe16(b, 14);
    ToLe16OfLe16(b, 16);
    ToLe16OfLe16(b, 18);
    ToLe16OfLe16(b, 20);
    ToLe16OfLe16(b, 22);
    ToLe16OfLe16(b, 24);
    ToLe16OfLe16(b, 26);
    ToLe32OfLe32(b, 28);
    assert b == b[0..11] + [b[11]] + [b[12]] + [b[13]] + b[14..16] + b[16..18] + b[18..20]
      + b[20..22] + b[22..24] + b[24..26] + b[26..28] + b[28..32];
  }

  /** Decoding looks at the first 32 bytes only. */
  lemma DecodeDirectoryEntryPrefix(b: seq<Byte>)
    requires |b| >= DirectoryEntrySize
    ensures DecodeDirectoryEntry(b) == DecodeDirectoryEntry(b[..DirectoryEntrySize])
  {
  }

  /** The starting cluster and the size occupy the last six bytes of an entry:
      bytes 26..27 and 28..31, least significant first. */
  lemma {:induction false} DirectoryEntryClusterAndSize(e: DirectoryEntry)
    requires WellFormedDirectoryEntry(e)
    ensures var b := EncodeDirectoryEntry(e);
      b[26] as int + 0x100 * b[27] as int == e.firstClusterLow
      && b[28] as int + 0x100 * b[29] as int + 0x1_0000 * b[30] as int + 0x100_0000 * b[31] as int == e.size
  {
    DecodeEncodeDirectoryEntry(e);
  }
}
