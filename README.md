# FAT12 floppy image builder

A Dafny model of `create_disk_image.py`, a script that builds a bootable
1.44 MB FAT12 floppy image, and of `gerar_tabela.py`, which writes a
512-byte table of (name, sector) records.

**The image**
- The image is 2880 sectors of 512 bytes.
- Sector 0 holds the boot loader, zero-filled.
- Sectors 1-9 and 10-18 hold two identical FAT12 allocation tables.
- Sectors 19-32 hold the root directory: 224 records of 32 bytes.
- The data area starts at sector 33, which is cluster 2.

**The build**
- Files are added in order.
- Each non-empty file takes the next run of consecutive clusters.
  - Its data is written sector by sector, with the last sector zero-filled.
  - Its chain is written into both FAT copies: each cluster links to the next, and the last holds 0xFFF.
- Each file then gets a directory record, unless the directory is full.

**How the model is organised**
- `Layout` derives the region layout from the geometry constants.
- `Fat12` is the 12-bit packed table codec:
  - `write_fat_entry` as the function `SetEntry`;
  - an in-place method, `WriteFatEntry`, on an `array<byte>`;
  - a reader, `ReadEntry`. The script has no reader; the model defines one so that the writer can be specified against it.
- `DirEntry` is the 32-byte directory record, `create_fat_dir_entry`.
- `Allocation` is the sequential cluster allocator, as functions of the files done so far.
- `DiskImage` is the build lifted into the method `Build`.
  - The image, the two FATs and the directory are `array<byte>` buffers.
  - A loop over the files, and an inner loop over each file's clusters, update them in place.
  - It is proved equal to the specification function `Image`.
- `ImageFacts` states what the finished image holds:
  - the FAT chains, read back through `ReadEntry`;
  - the data sectors;
  - the directory records;
  - the equal FAT copies.
- `EndToEnd` has the concrete images: a zero-length file, and one file "HI.TXT" under a loader of 0xAA bytes.
- `SectorTable` is `gerar_tabela.py`: `escrever_entrada` and the zero-filled table, as pure functions with their error cases.
- `Bytes` holds little-endian packing and sequence helpers.

**Inputs and assumptions**
- The boot loader and the files are parameters. The script reads them from `loader.bin`, `MSG1.TXT` and `APP1.BIN`.
- The root-directory buffer `root_dir_data` is never created in `create_disk_image.py`.
  - As written, the first file reaches line 204 and the script stops with a `NameError`.
  - The model assumes the buffer the comment at line 212 and the copy at line 214 imply: 14 sectors, 7168 bytes, zero-filled.
- The FAT writer's range check (`offset + 1 >= len`) only prints a message in the script.
  - The model's `WriteFatEntry` returns `written` instead.
  - The build proves that no write of a data cluster is refused, so this check never fires on the 4608-byte table.

## Model

| member | source | states |
|---|---|---|
| Layout.RootDirSectors | create_disk_image.py:20-25 | the root directory's sector count is the least n with n·512 ≥ entries·32 (ceiling division) |
| Layout.LayoutOf | create_disk_image.py:14-27 | boot at 0; FAT1 at 1; FAT2 after FAT1; root after FAT2; data after the root sectors; root sectors is that ceiling |
| Layout.FloppyLayout | create_disk_image.py:5-27 | for the 1.44 MB geometry the layout is boot 0, FAT1 1, FAT2 10, root 19, 14 root sectors, data 33 |
| Layout.RegionsAreContiguous | create_disk_image.py:14-27 | for every geometry the regions are in order and the data area starts after the boot sector, both FATs and all root entries |
| DiskImage.FloppyConstants | create_disk_image.py:5-27 | the byte constants of the build (sector size, image size, FAT size, root size and slots, region offsets, data sectors) agree with the derived layout |
| Fat12.Word | create_disk_image.py:87 | the little-endian word read at an offset is below 0x10000 |
| Fat12.WordIsLe | create_disk_image.py:87 | the word read at an offset is the little-endian value of the two bytes there, the same decoding as `FromLe` |
| Fat12.Offset | create_disk_image.py:75 | the byte offset N + N/2 of entry N; `OffsetOfBits` states its meaning |
| Fat12.OffsetOfBits | create_disk_image.py:73-75 | entries are 12 bits wide: entry N starts in byte 12·N/8 |
| Fat12.InRange | create_disk_image.py:81 | the writer's range check: both bytes of the word lie in the table; `FloppyFatCapacity` states which entries it admits on the 4608-byte FAT |
| Fat12.Packed | create_disk_image.py:89-98 | the repacked word stays a 16-bit value |
| Fat12.SetEntry | create_disk_image.py:72-101 | a refused write returns the table unchanged; an accepted one changes only bytes N+N/2 and N+N/2+1; it keeps the neighbour's high nibble for even N and its low nibble for odd N |
| Fat12.KeptNibble | create_disk_image.py:93-98 | the masks 0xF000 (even) and 0x000F (odd) preserve the neighbour's nibble in the repacked bytes |
| Fat12.OffsetStep | create_disk_image.py:75 | consecutive entries start 1 byte apart after an even entry and 2 after an odd one |
| Fat12.ReadEntry | create_disk_image.py:75-98 | the reader, with the writer's offset and parity rule, yields a 12-bit value |
| Fat12.WriteFatEntry | create_disk_image.py:72-101 | the in-place writer: `written` is exactly the range check, and the array afterwards is SetEntry of the old contents |
| Fat12.ReadAfterWrite | create_disk_image.py:75-101 | entry N reads back as v & 0xFFF after write(t, N, v) |
| Fat12.ReadOtherEntry | create_disk_image.py:75-101 | every entry M ≠ N in range reads back unchanged after writing N, including the neighbour that shares a byte |
| Fat12.ReadAfterSet | create_disk_image.py:87-101 | one write through the reader: the written entry holds the 12-bit value and every other entry is unchanged |
| Fat12.ZeroTableIsFree | create_disk_image.py:118-119 | a zero-filled table reads as free entries |
| Fat12.FloppyFatCapacity | create_disk_image.py:81-85 | on the 4608-byte FAT the range check accepts exactly entries 0..3071 |
| DirEntry.BaseName | create_disk_image.py:57-58 | the text before the first '.', a prefix of the name with no dot, and all of it when there is no dot |
| DirEntry.Fit | create_disk_image.py:58-60 | ljust then cut: exactly n characters, the original's where it has them, spaces after |
| DirEntry.NameField | create_disk_image.py:57-58 | bytes 0-7 are the base name, space-padded or cut to 8, with each ASCII lower-case letter replaced by its capital and every other character kept |
| DirEntry.ExtField | create_disk_image.py:57-62 | bytes 8-10 are the text between the first and second '.' upper-cased and fitted to 3, or three spaces without a '.' |
| DirEntry.FieldsAreAscii | create_disk_image.py:65-66 | the name and extension fields of an ASCII name are ASCII, so `encode('ascii')` cannot fail |
| DirEntry.Encode | create_disk_image.py:54-70 | the record is 32 bytes: name in 0-7, extension in 8-10, attributes in 11, zeros in 12-25, first cluster as LE u16 in 26-27, size as LE u32 in 28-31 |
| DirEntry.HiTxtFields | create_disk_image.py:57-62 | "HI.TXT" gives the fields "HI      " and "TXT" |
| DirEntry.SplitAtFirstDot | create_disk_image.py:57-58 | the base name of a + "." + b is a when a has no dot, whatever b holds |
| Bytes.Le16RoundTrip | create_disk_image.py:68 | the 16-bit little-endian field decodes back to the value packed |
| Bytes.Le32RoundTrip | create_disk_image.py:69 | the 32-bit little-endian field decodes back to the value packed |
| Bytes.Le16 | create_disk_image.py:68 | `struct.pack_into('<H')`: two bytes, low byte first; `Le16RoundTrip` and `Le16OfFromLe` state that it is the inverse of the little-endian decoding |
| Bytes.Le32 | create_disk_image.py:69 | `struct.pack_into('<I')`: four bytes, low byte first; `Le32RoundTrip` states that it decodes back to the value |
| Bytes.Le16OfFromLe | create_disk_image.py:87-101 | unpacking two bytes with `'<H'` and packing the value back gives the same two bytes |
| Allocation.Clusters | create_disk_image.py:161-165 | the cluster count is the least n with n·512 ≥ size, and it is 0 exactly for an empty file |
| Allocation.Used | create_disk_image.py:152-197 | the clusters taken by the files so far, so that `current_data_cluster` is 2 + Used; `UsedStep`, `UsedPrefix` and `NoClustersUsed` state its meaning |
| Allocation.NoClustersUsed | create_disk_image.py:161-197 | no cluster is taken exactly when every file is empty |
| Allocation.FirstCluster | create_disk_image.py:167-170 | `first_cluster`: 0 for an empty file, the counter otherwise; `FirstClusterOf` and `ChainsDisjoint` state its meaning |
| Allocation.FirstClusterOf | create_disk_image.py:167-170 | the recorded first cluster is 0 exactly for an empty file and at least 2 otherwise |
| Allocation.Links | create_disk_image.py:152-197 | after allocating the files, one link per cluster used |
| Allocation.SectorData | create_disk_image.py:178-183 | each sector written is 512 bytes |
| Allocation.Padded | create_disk_image.py:173-185 | a file's sectors together hold Clusters(size)·512 bytes |
| Allocation.Data | create_disk_image.py:173-197 | the data area from cluster 2 holds Used(files)·512 bytes |
| Allocation.UsedStep | create_disk_image.py:197 | the counter advances by the file's cluster count |
| Allocation.UsedPrefix | create_disk_image.py:197 | the counter never goes back |
| Allocation.LinksPrefix | create_disk_image.py:187-197 | links written for earlier files stay as they are when later files are allocated |
| Allocation.DataPrefix | create_disk_image.py:173-197 | data written for earlier files stays as it is when later files are allocated |
| Allocation.ChainsDisjoint | create_disk_image.py:170-197 | the chain of a file ends before the chain of any later file starts, so chains never share a cluster |
| Allocation.LinksAt | create_disk_image.py:174-195 | cluster i of file j's chain links to the next cluster, or holds 0xFFF if it is the last |
| Allocation.SectorDataIsSlice | create_disk_image.py:178-183 | sector i is bytes [512·i, min(512·(i+1), L)) of the content, zero-filled |
| Allocation.DataAt | create_disk_image.py:174-185 | cluster 2 + Used(files before j) + i of the data area holds sector i of file j |
| Allocation.EmptyFile | create_disk_image.py:164-197 | a zero-length file gets first cluster 0 and changes neither the counter nor the chains nor the data |
| DiskImage.InitFat | create_disk_image.py:117-127 | the initialised FAT is 4608 bytes |
| DiskImage.WriteChain | create_disk_image.py:173-195 | writing a chain keeps the table's length |
| DiskImage.WriteChainStep | create_disk_image.py:188-195 | one cluster's FAT write is the next step of the chain |
| DiskImage.Fat | create_disk_image.py:117-195 | each FAT copy after the build is 4608 bytes |
| DiskImage.Records | create_disk_image.py:200-209 | the directory holds one 32-byte record per file, at most 224 |
| DiskImage.Appended | create_disk_image.py:204-209 | the directory-full test: the entry is appended unless offset + 32 exceeds the buffer; `AppendedKeeps` states its meaning |
| DiskImage.AppendedKeeps | create_disk_image.py:204-209 | appending keeps the stored records, never overflows the 7168-byte buffer, and leaves the records unchanged exactly when the buffer is full |
| DiskImage.BootSector | create_disk_image.py:104-110 | the boot sector is 512 bytes |
| DiskImage.RootRegion | create_disk_image.py:212-214 | the root region is 7168 bytes |
| DiskImage.DataRegion | create_disk_image.py:173-185 | the data area is 2847 sectors |
| DiskImage.Image | create_disk_image.py:104-220 | the image is exactly 2880·512 bytes |
| DiskImage.AllocateCluster | create_disk_image.py:174-195 | one cluster: its sector is written at 512·(33 + c − 2), and entry c of both FATs is set to the link |
| DiskImage.ClusterOffset | create_disk_image.py:175 | the byte offset of cluster c's sector, 512·(33 + c − 2); `ClusterInData` states its meaning |
| DiskImage.ClusterInData | create_disk_image.py:175-185 | the sector of every data cluster 2..2848 lies inside the data area of the image |
| DiskImage.ChainStep | create_disk_image.py:173-195 | one iteration of the cluster loop extends the written data and both FAT chains by one cluster |
| DiskImage.AllocateChain | create_disk_image.py:173-195 | the cluster loop writes the padded content from the first cluster's sector and the whole chain into both FATs |
| DiskImage.NewDisk | create_disk_image.py:104-110 | the fresh image is the boot loader followed by zeros |
| DiskImage.NewFat | create_disk_image.py:117-127 | a fresh FAT with entries 0 and 1 written is InitFat |
| DiskImage.DataStep | create_disk_image.py:173-197 | the data area grows by the file's padded content |
| DiskImage.FatStep | create_disk_image.py:187-197 | the FAT grows by the file's chain at the current counter |
| DiskImage.PrefixFits | create_disk_image.py:155 | the files done so far fit the data area and have ASCII names |
| DiskImage.RecordsStep | create_disk_image.py:201-209 | the record is appended unless offset + 32 exceeds the buffer, in which case the records stay as they were |
| DiskImage.AddData | create_disk_image.py:159-197 | the data and FAT half of one file: the counter advances by n; the first cluster is 0 for an empty file and the counter otherwise; the data and both FATs grow by the file's sectors and chain |
| DiskImage.AddRecord | create_disk_image.py:201-209 | the directory half: the record is copied at the offset and the offset advances by 32, unless the directory is full |
| DiskImage.Advance | create_disk_image.py:155-209 | the ghost state after file j+1 is the ghost state after file j advanced by the file's data, chain and record |
| DiskImage.AddFile | create_disk_image.py:155-209 | one iteration of the file loop on the buffers |
| DiskImage.Iteration | create_disk_image.py:155-209 | one iteration keeps buffers and specification in step |
| DiskImage.Start | create_disk_image.py:152-153 | before the first file the counter is 2, the offset 0, and nothing is written |
| DiskImage.Setup | create_disk_image.py:104-127 | the fresh buffers: boot sector, both initialised FATs, an empty directory |
| DiskImage.FillGap | create_disk_image.py:214-220 | a buffer copied into a zero run of the image |
| DiskImage.Assemble | create_disk_image.py:212-220 | the root directory and both FATs copied into the image give boot, FAT, FAT, root, data |
| DiskImage.Finish | create_disk_image.py:212-220 | after the file loop the image is Image(boot, files), and the offset counts min(files, 224) records |
| DiskImage.Build | create_disk_image.py:104-220 | the build returns Image(boot, files); `recorded` is min(files, 224), the records that fit the directory |
| ImageFacts.InitFatEntries | create_disk_image.py:117-127 | after initialisation entry 0 is 0xFF0, entry 1 is 0xFFF and every other entry is free |
| ImageFacts.InitFatBytes | create_disk_image.py:117-127 | the initialised FAT is F0 FF FF followed by zeros |
| ImageFacts.WriteChainRead | create_disk_image.py:173-195 | after the first k writes of a chain, its first k clusters hold their links and every other entry is unchanged |
| ImageFacts.LinksStep | create_disk_image.py:187-197 | the links grow by the file's chain |
| ImageFacts.FatEntries | create_disk_image.py:117-197 | after the build every cluster entry reads as its link, entries 0 and 1 as 0xFF0 and 0xFFF, all others as free |
| ImageFacts.FatChain | create_disk_image.py:174-195 | after the build, cluster i of file j's chain holds the next cluster or 0xFFF |
| ImageFacts.FatFree | create_disk_image.py:197 | entries past the last allocated cluster are free |
| ImageFacts.ImageRegions | create_disk_image.py:104-220 | the image is boot sector, FAT, FAT, root region, data area at sectors 0, 1, 10, 19, 33, and the two FAT copies are byte-equal |
| ImageFacts.BootSectorContent | create_disk_image.py:104-110 | the boot sector is the loader followed by zeros |
| ImageFacts.FirstFat | create_disk_image.py:219 | the FAT1 region of the image is 4608 bytes |
| ImageFacts.SecondFat | create_disk_image.py:220 | the FAT2 region of the image is 4608 bytes |
| ImageFacts.ImageFats | create_disk_image.py:187-220 | both FAT regions of the image are the FAT the allocator wrote |
| ImageFacts.ImageFatChain | create_disk_image.py:187-220 | in both FAT copies of the image, cluster i of file j's chain reads as the next cluster or 0xFFF |
| ImageFacts.ImageDataSector | create_disk_image.py:173-185 | the image's sector for cluster c = 2 + Used(files before j) + i, at byte 512·(33 + c − 2), holds sector i of file j |
| ImageFacts.ImageDataRegion | create_disk_image.py:185 | the image from sector 33 on is the data area, file data first |
| ImageFacts.RecordsNext | create_disk_image.py:200-209 | the records after file j are the earlier ones plus its record while fewer than 224 are stored, and unchanged after |
| ImageFacts.RecordsGrow | create_disk_image.py:204-209 | stored records are never changed by later files |
| ImageFacts.RecordsPrefix | create_disk_image.py:204-209 | the records of earlier files are a prefix of the records of later ones |
| ImageFacts.RecordAt | create_disk_image.py:200-209 | record k, at offset 32·k, is the entry of file k with its first cluster and size, for k < 224 |
| ImageFacts.ImageRecord | create_disk_image.py:200-214 | the image's bytes at 19·512 + 32·k hold file k's directory record |
| ImageFacts.ImageRootRegion | create_disk_image.py:212-214 | the image's root region is the records followed by zeros |
| ImageFacts.ImageRootFree | create_disk_image.py:212-214 | every root byte after the stored records is zero |
| EndToEnd.EmptyFileRecord | create_disk_image.py:164-208 | the image record of a zero-length file has first cluster 0 and size 0 |
| EndToEnd.HiTxtImage | create_disk_image.py:104-220 | with a 512-byte loader of 0xAA and the one file "HI.TXT" holding "hi": byte 0 is 0xAA; the first record is "HI      ", "TXT", cluster 2, size 2; cluster 2's sector is 'h', 'i' and 510 zeros |
| EndToEnd.FirstDataSector | create_disk_image.py:175-185 | the first image sector of the data area holds the first 512 bytes of file data |
| EndToEnd.TwoClusterFile | create_disk_image.py:161-195 | in the image of one 513-byte file, both FAT copies hold 3 for cluster 2 and 0xFFF for cluster 3 |
| SectorTable.EntryRecord | gerar_tabela.py:2-4 | a non-ASCII fitted name is an error, checked first; a sector outside 0..255 is an error; otherwise 9 bytes: the name space-padded or cut to 8 with no case change, then the sector byte |
| SectorTable.DecodeRecord | gerar_tabela.py:3-4 | reading a 9-byte record gives 8 characters and a sector in 0..255 |
| SectorTable.DecodeEntry | gerar_tabela.py:2-4 | a record decodes back to the fitted name and the sector |
| SectorTable.EncodeDecoded | gerar_tabela.py:2-4 | every 9-byte record with ASCII name bytes is what the encoder makes of its decoding |
| SectorTable.Records | gerar_tabela.py:7-8 | the records of k entries are 9·k bytes |
| SectorTable.RecordsOk | gerar_tabela.py:7-8 | the records succeed iff every entry does; otherwise the error is that of the first entry that fails |
| SectorTable.RecordInRecords | gerar_tabela.py:7-8 | bytes [9·k, 9·k + 9) are entry k's record, in call order |
| SectorTable.Table | gerar_tabela.py:6-10 | the table succeeds exactly when the records do and otherwise fails with their error; it is at least 512 bytes and starts with the records; `TableLayout` and `TableEntry` state the rest |
| SectorTable.TableLayout | gerar_tabela.py:6-10 | the table is max(512, 9·k) bytes: the records, then zeros |
| SectorTable.TableEntry | gerar_tabela.py:6-10 | entry k read back from the table is its fitted name and its sector |
| SectorTable.ScriptTable | gerar_tabela.py:6-10 | the script's table is "msg.txt " 02, "sobre.tx" 03, then 494 zeros |

## Left out

- Reading `loader.bin`, `MSG1.TXT` and `APP1.BIN`, the missing-file branches, `exit()` and writing `bootable_disk.img` (create_disk_image.py:107-114, 131-149, 224-227): the loader bytes and the file list are parameters and the image is returned.
- Opening and writing `tabela.bin` in gerar_tabela.py: `Table` returns the bytes, and `f.tell()` is the record length.
- A record that fails in gerar_tabela.py after earlier records were written leaves a partial file behind; the model returns only the error.
- All `print` output, including the layout report and the out-of-range and directory-full messages: `WriteFatEntry` returns `written`, and `Build` returns `recorded`.
- make_img.py is not part of this model: it only concatenates constants and file contents.
- DiskImage.Build: requires the whole of every file name to be ASCII (`NamesAscii`, and `IsAscii` for `Encode`). This rules out more names than the script rejects, because the script encodes only the fitted fields: `parts[0].ljust(8)[:8].upper()` and `parts[1].ljust(3)[:3].upper()` (create_disk_image.py:58, 60, 65-66).
  - A non-ASCII character that never reaches those fields does not matter to the script. Examples are a character past the 8th of the base name, past the 3rd of the extension, or after a second '.'. So "ABCDEFGHé.TXT" and "A.TXT.é" give an ordinary 32-byte record there.
  - `encode('ascii')` raises `UnicodeEncodeError` only for a character that is still non-ASCII after `upper()`, inside a fitted field.
  - Some non-ASCII characters upper-case to ASCII and are accepted. 'ı' becomes 'I' and 'ſ' becomes 'S'. 'ß' becomes "SS" and lengthens the field: for "ß.TXT" the assignment at line 65 receives 9 bytes and grows the entry to 33 bytes, and the copy at line 208 then grows `root_dir_data` by one byte.
  - The model describes none of these images.
- DiskImage.Build: requires `|boot| <= 512`, because the script loads `loader.bin` as the boot sector (create_disk_image.py:106-111, which reports it "loaded to boot sector"), and the boot sector is sector 0. The script itself accepts longer loaders.
  - The copy at create_disk_image.py:110 replaces exactly `len(bootloader_code)` bytes, so the image keeps its 2880·512 bytes for any loader of up to 1474560 bytes.
  - Loader bytes 512..16895 fall in sectors 1-32. Lines 214, 219 and 220 rewrite those sectors in full, so up to 16896 bytes the image is the one built from the first 512 bytes of the loader.
  - Past 16896 bytes, loader bytes reach the data area. Line 185 overwrites only the allocated clusters, so stray loader bytes stay in the unallocated data sectors. The model does not describe that image.
  - The `bytearray` grows only for a loader over 1474560 bytes, or for a cluster past 2848 at line 185. `Build` rules out the latter by requiring `Used(files) <= 2847`.
- Other geometries. The build fixes two FAT copies and one sector per cluster. `Layout` is general, but `DiskImage` uses the floppy constants.
- The BIOS parameter block, 8.3 character legality, deleted-entry markers and timestamps: the script does not write them.
- DirEntry.Encode: requires a first cluster below 0x10000 and a size below 2^32, the ranges `struct.pack_into('<H')` and `('<I')` accept; the script raises outside them. The attribute byte is also restricted: `entry[0x0B] = attributes` (create_disk_image.py:67) raises ValueError outside 0..255. The model excludes that case through its types, because `FileSpec.attributes` and `Encode`'s `attributes` parameter are of type `byte`.
- A 12-bit FAT12 cluster limit of 4095 for the record's first cluster is not imposed: the script packs it as a 16-bit word, and the model follows the code.
- DiskImage.Build: when the range check refuses a FAT write, the script only prints a message and carries on. The model does not report this as an error; it proves that such a refusal cannot happen under the build's preconditions.
- `root_dir_data` is an assumed 7168-byte zero-filled buffer, because the script never defines it.
