# FAT12 image reader: on-disk records, sector reader and FAT loader

A Dafny model of `tools/fat/fat.c`, a small tool that opens a raw FAT12 disk
image, reads its boot sector and loads its file allocation table (FAT) into
memory. It covers:

- the two packed on-disk records the tool declares. One is the boot sector:
  the BIOS parameter block (BPB) plus the extended boot record, 62 bytes.
  The other is the 32-byte directory entry. Both are decoded from bytes and
  encoded back. The offsets follow the "Boot Sector and BPB" and "FAT
  Directory Structure" sections of Microsoft's FAT specification (fatgen103);
  field names follow the C source.
- the C stream operations the tool relies on (`fopen` that succeeded, `fseek`
  with `SEEK_SET`, `fread`). The image is a byte sequence. A position moves
  over it. A flag says whether the stream can be repositioned.
- `readBootSector`, `readSectors` and `readFat`, with the tool's global
  variables (`g_BootSector`, `g_fat`) as fields of a class.
- `main`'s stage-by-stage exit codes and its freeing of the FAT buffer.

Files: `bytes.dfy` (module `Bytes`: fixed-width integers, little-endian
encoding), `records.dfy` (module `Records`), `stdio.dfy` (module `Stdio`),
`fat.dfy` (module `FatTool`).

## Model

| member | source | states |
|---|---|---|
| `Records.DecodeBootSector` | tools/fat/fat.c:5-30 | Decodes the record from the first 62 bytes. The byte-array members come out with their declared lengths (3, 8, 11 and 8). The round-trip lemmas below pin every member's offset. |
| `Records.DecodeEncodeBootSector` | tools/fat/fat.c:5-30 | Decoding the packed layout of any boot-sector record gives the record back. So each field is read at its declaration-order offset, little-endian, with no padding. |
| `Records.EncodeDecodeBootSector` | tools/fat/fat.c:5-30 | Every 62-byte block is the packed layout of the record decoded from it, so the decoder is a bijection on 62-byte blocks. |
| `Records.ParseBootSector` | tools/fat/fat.c:57-60 | Reading the boot sector from the start of the image succeeds exactly when the image holds at least 62 bytes. The record's packed layout is then the image's first 62 bytes. |
| `Records.DecodeBootSectorPrefix` | tools/fat/fat.c:59 | Decoding uses only the first 62 bytes of a longer input. |
| `Records.DecodeDirectoryEntry` | tools/fat/fat.c:32-46 | Decodes an entry from the first 32 bytes; the name comes out as 11 bytes. The round-trip lemmas below pin the offsets. |
| `Records.DecodeDirectoryEntryPrefix` | tools/fat/fat.c:32-46 | Decoding uses only the first 32 bytes of a longer input, so an entry consumes exactly 32 bytes. |
| `Records.DecodeEncodeDirectoryEntry` | tools/fat/fat.c:32-46 | Decoding a directory entry's packed layout gives the entry back. |
| `Records.EncodeDecodeDirectoryEntry` | tools/fat/fat.c:32-46 | Every 32-byte block is the packed layout of the entry decoded from it. |
| `Records.DirectoryEntryClusterAndSize` | tools/fat/fat.c:43-44 | In an entry's layout, `first_cluster_low` is bytes 26..27 and `size` is bytes 28..31, both least significant first. |
| `Stdio.Chunk` | tools/fat/fat.c:67 | The bytes a read of `len` bytes at `pos` delivers. It never delivers more than `len`. It delivers all of `image[pos..pos+len]` when the image holds them. It falls short only at the end of the image, and what it delivers is always the image's bytes from `pos`. |
| `Stdio.ItemsRead` | tools/fat/fat.c:67 | The count `fread` returns. It is 0 for item size 0. Otherwise it is the largest number of whole items that fit inside the bytes delivered. |
| `Stdio.Disk.Open` | tools/fat/fat.c:92 | A successfully opened stream is positioned at byte 0 of the image. |
| `Stdio.Disk.Seek` | tools/fat/fat.c:66 | `fseek` succeeds exactly on a repositionable stream and then sets the position, past the end included. On failure the position is unchanged. |
| `Stdio.Disk.Read` | tools/fat/fat.c:67 | Only the bytes that arrive must fit the buffer, not the whole request. `fread` copies the available requested bytes to the front of the buffer and leaves the rest of the buffer unchanged. It advances the position by the bytes copied and returns the count of whole items. |
| `Stdio.ItemsReadComplete` | tools/fat/fat.c:67 | `fread` never returns more than `count`. It returns exactly `count` when `count` is 0 or the image holds all `size*count` bytes from the position. |
| `FatTool.SeekOffset` | tools/fat/fat.c:66 | The seek offset is a 32-bit value, and it equals `lba*bytes_per_sector` whenever that product is below 2^32. |
| `FatTool.SeekOffsetExact` | tools/fat/fat.c:66 | The 32-bit product `lba*bytes_per_sector` equals the true byte offset when `lba` fits in 16 bits, as `reserved_sectors` does. |
| `FatTool.SeekOffsetWraps` | tools/fat/fat.c:66 | For larger `lba` the product wraps modulo 2^32: sector 0x20000 of 0x8000-byte sectors seeks to byte 0. |
| `FatTool.ReadSectorsSpec` | tools/fat/fat.c:63-70 | `readSectors` as a function, given that the bytes it stores fit the buffer. The buffer keeps its length and its bytes past `unitSize*count`. A failed seek yields false with buffer and position unchanged. |
| `FatTool.ReadSectorsOutcome` | tools/fat/fat.c:63-70 | `readSectors` succeeds iff the seek succeeds and the image holds all `count` units from the seek offset. On success the buffer starts with those image bytes. Bytes past `count*unitSize` are never touched. A failed seek changes neither buffer nor position. |
| `FatTool.Program.ReadSectors` | tools/fat/fat.c:63-70 | The method puts the buffer, the position and the result exactly where `ReadSectorsSpec` says: seek first, and read only if the seek succeeded. |
| `FatTool.Program.ReadBootSector` | tools/fat/fat.c:57-60 | The 62-byte read overwrites the front of `g_BootSector` with the bytes that arrive, even on a short read. It succeeds exactly when all 62 arrive, and the record is then the one decoded from them. |
| `FatTool.Program.ReadFat` | tools/fat/fat.c:73-80 | `g_fat` is a fresh block of `sectors_per_fat*bytes_per_sector` bytes. It is filled by reading `sectors_per_fat` units from sector `reserved_sectors`. The result, buffer and position are those of `readSectors`. It requires only that the bytes the read stores fit the block. |
| `FatTool.FatUnitCoverage` | tools/fat/fat.c:76-79 | The FAT read fits its allocation iff the unit is at most a sector or the FAT is empty. It fills the allocation iff the unit is exactly a sector or the FAT is empty. |
| `FatTool.AsWrittenFatReadShortfall` | tools/fat/fat.c:67 | With pointer-width units, a standard floppy geometry (512-byte sectors, 9 sectors per FAT) reports success after loading only 72 of the FAT's 4608 bytes. |
| `FatTool.AsWrittenFatReadOverflows` | tools/fat/fat.c:76-79 | Take an image whose boot sector declares sectors narrower than a pointer. Its boot sector parses. If the image holds `sectors_per_fat` pointer-width units from the FAT start, `fread` delivers more bytes than `readFat` allocated. |
| `FatTool.SectorUnitFatReadCoversFat` | tools/fat/fat.c:73-80 | With sector-sized units (which always fit, by `FatUnitCoverage`) the read succeeds iff the stream can be repositioned and the image holds the whole FAT region. The buffer is then exactly that region. |
| `FatTool.ExitCode` | tools/fat/fat.c:86-113 | `main`'s return value for a given read unit, on images whose FAT read stores no more than its block holds, is one of -1, -2, -3, -4, 0. It is -1 exactly when there are fewer than 3 arguments. It is -2 exactly when the open failed. It is -3 exactly when the image is shorter than the 62-byte record. |
| `FatTool.ExitCodeMeaning` | tools/fat/fat.c:86-113 | The corrected `main` (sector units) returns 0 exactly when the arguments, the open, the 62-byte record and the whole FAT region are all there. |
| `FatTool.ExitCodeAsWritten` | tools/fat/fat.c:67-113 | `main` as written (pointer-width units), on images whose FAT read stores no more than its block holds, returns 0 exactly when the arguments, the open and the 62-byte record are there. The stream must also be seekable and hold `8*sectors_per_fat` bytes from the FAT start. |
| `FatTool.AsWrittenNarrowSectorsFail` | tools/fat/fat.c:67-108 | Take `main` as written on an image declaring sectors narrower than 8 bytes and a non-empty FAT. Every run whose FAT read stays inside the block returns -4. |
| `FatTool.ExitCodesDiffer` | tools/fat/fat.c:67-113 | On a 600-byte image declaring 512-byte sectors, 1 reserved sector and 9 sectors per FAT, `main` as written returns 0 and the corrected `main` returns -4. |
| `FatTool.Program.Run` | tools/fat/fat.c:83-113 | `main`, reading in the given unit, returns `ExitCode`. It requires that the bytes the FAT read stores fit its block. The FAT buffer is freed on every path: the -1..-3 paths never allocate, and the -4 and 0 paths free. When it reaches the FAT load, the decoded boot sector and a buffer of the declared size remain. The -1 and -2 paths change neither global, and the -3 path leaves `g_fat` alone. |
| `FatTool.Program.FreeFat` | tools/fat/fat.c:107 | After `free(g_fat)` the FAT block is no longer live. |
| `FatTool.Program.constructor` | tools/fat/fat.c:51-53 | At start the globals are zero: a zero boot sector, a null `g_fat`, no live block. |

## Findings

| source | as written | input that shows it | evidently intended | confidence | as-written member | corrected member |
|---|---|---|---|---|---|---|
| tools/fat/fat.c:67 | `fread(bufferOut, sizeof(bufferOut), count, disk)` reads `count` units of pointer width (8 bytes). | Boot sector with bytes_per_sector 512, sectors_per_fat 9: `readFat` returns true after loading 72 of 4608 FAT bytes. On a 600-byte image `main` still returns 0 (`ExitCodesDiffer`). | Read `count` sectors of bytes_per_sector bytes each. | high; not executed | `FatTool.AsWrittenFatReadShortfall` | `FatTool.SectorUnitFatReadCoversFat` |
| tools/fat/fat.c:76-79 | Allocates `sectors_per_fat*bytes_per_sector` bytes but writes up to `sectors_per_fat*8`. | Boot sector with bytes_per_sector 4, sectors_per_fat 1, on an image holding 8 bytes from the FAT start: `fread` delivers 8 bytes into the 4-byte block. | The write never passes the end of the allocation. | high; not executed | `FatTool.AsWrittenFatReadOverflows` | `FatTool.SectorUnitFatReadCoversFat` |

`readSectors`, `readFat`, `ExitCode` and `Run` all take the read unit as a
parameter. `PointerUnit` (8 bytes) models the code as written. `SectorUnit`
(the boot sector's `bytes_per_sector`) models the code as intended.

## Left out

- FatTool.Program.Run: requires that the bytes the FAT read stores fit the allocated block. The model gives no outcome for a run in which `fread` stores past that block. Such a run can only happen with `PointerUnit` on images declaring sectors smaller than 8 bytes that hold enough bytes from the FAT start (see Findings), and its behaviour in C is undefined. Such images that end early are still covered: `AsWrittenNarrowSectorsFail` gives them -4. `FatTool.ExitCode` and `FatTool.ExitCodeAsWritten` carry the same precondition.
- The source file declares `g_DirectoryEntry` but never loads the root directory. It also has no 12-bit FAT entry decoding, cluster-chain walking, 8.3 name lookup or file extraction. The model has none of these either, since there is no code to model. The directory-entry record is modelled as a layout only.
- The comment at tools/fat/fat.c:98 says the boot sector is 512 bytes. The code reads only the 62-byte packed record, and the model follows the code.
- The extended boot record fields (volume id, label, system id) are decoded as opaque values.
- `printf`/`fprintf` messages and the contents of `argv` are I/O. The model keeps `argc` and whether `fopen` succeeded: a null `Disk` means it failed.
- `fseek` is modelled as always succeeding on a repositionable stream and always failing on any other. Seeking past the end succeeds, and the shortfall then shows in `fread`.
- `fread` leaves a partially read item's bytes indeterminate. The model copies the bytes that are there.
- `malloc` failure is unchecked in the source and is not modelled. The model's fresh block is zero-filled where `malloc` returns garbage. Both `Program.ReadFat`'s contract and `AsWrittenFatReadShortfall` give every byte the read did not write as 0. Those zeros stand only for bytes the read left alone, not for their actual values.
- The `malloc` argument `sectors_per_fat*bytes_per_sector` is computed in C `int` and overflows (undefined behaviour) above 2^31 - 1. The model uses the exact product.
- The host is assumed to be little-endian LP64. `PointerWidth` is 8, and the packed structs filled by `fread` are decoded little-endian. The unsigned seek offset reaches `fseek`'s `long` unchanged. On a 32-bit host `sizeof(void*)` is 4. On a big-endian host the multi-byte fields would read byte-swapped. On 64-bit Windows (LLP64) offsets of 2^31 or more become negative and `fseek` fails; the model does not capture that.
