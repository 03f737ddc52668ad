/** What the finished floppy image holds, read back through the FAT12
    reader and the region offsets: the properties the image build of
    create_disk_image.py (lines 104-220) is meant to have. */
module ImageFacts {
  import opened Bytes
  import opened Fat12
  import opened DirEntry
  import opened Allocation
  import opened DiskImage

  /** After initialisation entry 0 holds the media pattern 0xFF0, entry 1
      the end-of-chain marker, and every cluster entry reads as free. */
  lemma InitFatEntries(c: nat)
    requires c < 3072
    ensures InRange(FAT_BYTES, c)
    ensures ReadEntry(InitFat(), c)
         == if c == 0 then MEDIA_ENTRY else if c == 1 then END_OF_CHAIN else 0
  {
    FloppyFatCapacity(0);
    FloppyFatCapacity(1);
    FloppyFatCapacity(c);
    var z := Zeros(FAT_BYTES);
    ZeroTableIsFree(FAT_BYTES, c);
    ReadAfterSet(z, 0, MEDIA_ENTRY, c);
    ReadAfterSet(SetEntry(z, 0, MEDIA_ENTRY), 1, END_OF_CHAIN, c);
  }

  /** The initialised FAT byte by byte: F0 FF FF, then zeros. */
  lemma InitFatBytes()
    ensures InitFat()[..3] == [0xF0, 0xFF, 0xFF]
    ensures AllZero(InitFat()[3..])
  {
    var z := Zeros(FAT_BYTES);
    ZerosAreZero(FAT_BYTES);
    var t1 := SetEntry(z, 0, MEDIA_ENTRY);
    assert t1[0] == 0xF0 && t1[1] == 0x0F;
    var t2 := SetEntry(t1, 1, END_OF_CHAIN);
    assert Word(t1, 1) == 0x0F;
    assert t2[1] == 0xFF && t2[2] == 0xFF && t2[0] == 0xF0;
    assert forall k :: 3 <= k < FAT_BYTES ==> t2[k] == t1[k] == z[k];
  }

  /** After the first `k` writes of a chain, the entries of the chain's
      first `k` clusters hold their links and every other entry is as
      before. */
  lemma {:induction false} WriteChainRead(t: seq<byte>, first: nat, n: nat, k: nat, c: nat)
    requires |t| == FAT_BYTES && k <= n && first + n <= 3072 && c < 3072
    ensures InRange(|t|, c)
    ensures ReadEntry(WriteChain(t, first, n, k), c)
         == if first <= c < first + k then Link(first, n, c - first) else ReadEntry(t, c)
  {
    FloppyFatCapacity(c);
    if k > 0 {
      var before := WriteChain(t, first, n, k - 1);
      WriteChainRead(t, first, n, k - 1, c);
      ChainReadStep(t, before, WriteChain(t, first, n, k), first, n, k, c);
    }
  }

  /** The inductive step of WriteChainRead, on the tables before and after
      the `k`-th write. */
  lemma ChainReadStep(t: seq<byte>, before: seq<byte>, after: seq<byte>, first: nat, n: nat, k: nat, c: nat)
    requires |t| == FAT_BYTES && |before| == FAT_BYTES && 0 < k <= n && first + n <= 3072 && c < 3072
    requires after == SetEntry(before, first + k - 1, Link(first, n, k - 1))
    requires InRange(FAT_BYTES, c)
    requires ReadEntry(before, c) == if first <= c < first + k - 1 then Link(first, n, c - first) else ReadEntry(t, c)
    ensures ReadEntry(after, c) == if first <= c < first + k then Link(first, n, c - first) else ReadEntry(t, c)
  {
    FloppyFatCapacity(first + k - 1);
    ReadAfterSet(before, first + k - 1, Link(first, n, k - 1), c);
  }

  lemma LinksStep(files: seq<FileSpec>, j: nat)
    requires j < |files|
    ensures Links(files[..j + 1])
         == Links(files[..j]) + ChainLinks(FIRST_CLUSTER + Used(files[..j]), Clusters(|files[j].content|))
  {
    assert Init(files[..j + 1]) == files[..j] && Last(files[..j + 1]) == files[j];
  }

  /** What entry `c` of a FAT holds after the links `l` of clusters 2, 3,
      ... have been written: the reserved entries, the links, and free
      entries after them. */
  ghost predicate Reads(t: seq<byte>, l: seq<nat>, c: nat)
  {
    |t| == FAT_BYTES && InRange(FAT_BYTES, c) &&
    ReadEntry(t, c) == if c == 0 then MEDIA_ENTRY
                       else if c == 1 then END_OF_CHAIN
                       else if c < FIRST_CLUSTER + |l| then l[c - FIRST_CLUSTER]
                       else 0
  }

  /** Writing the next chain keeps Reads. */
  lemma ReadsStep(t: seq<byte>, l: seq<nat>, first: nat, n: nat, c: nat)
    requires Reads(t, l, c) && first == FIRST_CLUSTER + |l| && first + n <= 3072 && c < 3072
    ensures Reads(WriteChain(t, first, n, n), l + ChainLinks(first, n), c)
  {
    var l' := l + ChainLinks(first, n);
    WriteChainRead(t, first, n, n, c);
    if FIRST_CLUSTER <= c < first + n {
      assert l'[c - FIRST_CLUSTER] == if c < first then l[c - FIRST_CLUSTER] else ChainLinks(first, n)[c - first];
    }
  }

  lemma FatEntries(files: seq<FileSpec>, c: nat)
    requires Used(files) <= DATA_SECTORS && c < 3072
    ensures InRange(FAT_BYTES, c)
    ensures ReadEntry(Fat(files), c)
         == if c == 0 then MEDIA_ENTRY
            else if c == 1 then END_OF_CHAIN
            else if c < FIRST_CLUSTER + Used(files) then Links(files)[c - FIRST_CLUSTER]
            else 0
  {
    FatEntriesUpTo(files, |files|, c);
    assert files[..|files|] == files;
  }

  lemma {:induction false} FatEntriesUpTo(files: seq<FileSpec>, j: nat, c: nat)
    requires j <= |files| && Used(files) <= DATA_SECTORS && c < 3072
    ensures Reads(Fat(files[..j]), Links(files[..j]), c)
  {
    if j == 0 {
      FatEntriesNone(files, c);
    } else {
      FatEntriesUpTo(files, j - 1, c);
      UsedPrefix(files, j);
      LastStep(files, j);
      ReadsStep(Fat(files[..j - 1]), Links(files[..j - 1]), FIRST_CLUSTER + Used(files[..j - 1]), Clusters(|files[j - 1].content|), c);
    }
  }

  /** The specification functions of the prefix `files[..j]` in terms of
      those of `files[..j - 1]`. */
  lemma LastStep(files: seq<FileSpec>, j: nat)
    requires 0 < j <= |files|
    ensures var n, u := Clusters(|files[j - 1].content|), Used(files[..j - 1]);
      Used(files[..j]) == u + n &&
      Links(files[..j]) == Links(files[..j - 1]) + ChainLinks(FIRST_CLUSTER + u, n) &&
      Fat(files[..j]) == WriteChain(Fat(files[..j - 1]), FIRST_CLUSTER + u, n, n)
  {
    var k := j - 1;
    assert files[..k + 1] == files[..j];
    UsedStep(files, k);
    LinksStep(files, k);
    FatStep(files, k, Fat(files[..k]), FIRST_CLUSTER + Used(files[..k]));
  }

  lemma FatEntriesNone(files: seq<FileSpec>, c: nat)
    requires c < 3072
    ensures Reads(Fat(files[..0]), Links(files[..0]), c)
  {
    assert files[..0] == [];
    FloppyFatCapacity(c);
    InitFatEntries(c);
  }

  /** The chain of file `j` in the finished FAT: entry `i` of its run of
      clusters points to the next cluster, and the entry of its last
      cluster ends the chain. */
  lemma FatChain(files: seq<FileSpec>, j: nat, i: nat)
    requires Used(files) <= DATA_SECTORS && j < |files| && i < Clusters(|files[j].content|)
    ensures var c := FIRST_CLUSTER + Used(files[..j]) + i;
      InRange(FAT_BYTES, c) &&
      ReadEntry(Fat(files), c)
        == if i < Clusters(|files[j].content|) - 1 then c + 1 else END_OF_CHAIN
  {
    LinksAt(files, j, i);
    FatEntries(files, FIRST_CLUSTER + Used(files[..j]) + i);
  }

  /** Clusters beyond the last allocated one stay free. */
  lemma FatFree(files: seq<FileSpec>, c: nat)
    requires Used(files) <= DATA_SECTORS && FIRST_CLUSTER + Used(files) <= c < 3072
    ensures InRange(FAT_BYTES, c) && ReadEntry(Fat(files), c) == 0
  {
    FatEntries(files, c);
  }

  /** The image region by region: the boot sector, FAT1 at sector 1, FAT2
      at sector 10, the root directory at sector 19 and the data area from
      sector 33 on; the two FAT copies are byte-equal. */
  lemma ImageRegions(boot: seq<byte>, files: seq<FileSpec>)
    requires |boot| <= BPS && NamesAscii(files) && Used(files) <= DATA_SECTORS
    ensures var img := Image(boot, files);
      img[..BPS] == BootSector(boot) &&
      img[FAT1_START..FAT2_START] == Fat(files) &&
      img[FAT2_START..ROOT_START] == Fat(files) &&
      img[ROOT_START..DATA_START] == RootRegion(files) &&
      img[DATA_START..] == DataRegion(files) &&
      img[FAT1_START..FAT2_START] == img[FAT2_START..ROOT_START]
  {
    FiveParts(BootSector(boot), Fat(files), Fat(files), RootRegion(files), DataRegion(files));
  }

  /** The boot sector: the loader bytes, then zeros up to 512 bytes. */
  lemma BootSectorContent(boot: seq<byte>)
    requires |boot| <= BPS
    ensures BootSector(boot)[..|boot|] == boot
    ensures forall k :: |boot| <= k < BPS ==> BootSector(boot)[k] == 0
  {
    ZerosAreZero(BPS - |boot|);
  }

  /** The first FAT copy of an image: sectors 1 to 9. */
  ghost function FirstFat(img: seq<byte>): (t: seq<byte>)
    requires |img| == IMAGE_BYTES
    ensures |t| == FAT_BYTES
  {
    img[FAT1_START..FAT2_START]
  }

  /** The second FAT copy of an image: sectors 10 to 18. */
  ghost function SecondFat(img: seq<byte>): (t: seq<byte>)
    requires |img| == IMAGE_BYTES
    ensures |t| == FAT_BYTES
  {
    img[FAT2_START..ROOT_START]
  }

  /** Both FAT copies in the image hold the chain of every file: entry `i`
      of file `j`'s run links to the next cluster and the last one ends the
      chain. */
  lemma ImageFatChain(boot: seq<byte>, files: seq<FileSpec>, j: nat, i: nat)
    requires |boot| <= BPS && NamesAscii(files) && Used(files) <= DATA_SECTORS
    requires j < |files| && i < Clusters(|files[j].content|)
    ensures var img, c := Image(boot, files), FIRST_CLUSTER + Used(files[..j]) + i;
      var link := if i < Clusters(|files[j].content|) - 1 then c + 1 else END_OF_CHAIN;
      InRange(FAT_BYTES, c) &&
      ReadEntry(FirstFat(img), c) == link && ReadEntry(SecondFat(img), c) == link
  {
    FatChain(files, j, i);
    ImageFats(boot, files);
  }

  lemma ImageFats(boot: seq<byte>, files: seq<FileSpec>)
    requires |boot| <= BPS && NamesAscii(files) && Used(files) <= DATA_SECTORS
    ensures FirstFat(Image(boot, files)) == Fat(files) && SecondFat(Image(boot, files)) == Fat(files)
  {
    ImageRegions(boot, files);
  }

  /** The data sector of cluster `c` (sector 33 + (c - 2)) holds sector `i`
      of file `j`: bytes [512 i, min(512 (i + 1), L)) of its content,
      zero-filled. */
  lemma ImageDataSector(boot: seq<byte>, files: seq<FileSpec>, j: nat, i: nat)
    requires |boot| <= BPS && NamesAscii(files) && Used(files) <= DATA_SECTORS
    requires j < |files| && i < Clusters(|files[j].content|)
    ensures ClusterOffset(FIRST_CLUSTER + Used(files[..j]) + i) + BPS <= IMAGE_BYTES
    ensures Image(boot, files)[ClusterOffset(FIRST_CLUSTER + Used(files[..j]) + i)..ClusterOffset(FIRST_CLUSTER + Used(files[..j]) + i) + BPS]
         == SectorData(files[j].content, i)
  {
    DataSectorAt(files, j, i);
    SectorOfFile(boot, files, j, i);
  }

  /** ImageDataSector once the sector has been located in the file data. */
  lemma SectorOfFile(boot: seq<byte>, files: seq<FileSpec>, j: nat, i: nat)
    requires |boot| <= BPS && NamesAscii(files) && Used(files) <= DATA_SECTORS
    requires j < |files| && i < Clusters(|files[j].content|)
    requires (Used(files[..j]) + i) * SECTOR_BYTES + BPS <= |Data(files)|
    requires Data(files)[(Used(files[..j]) + i) * SECTOR_BYTES..(Used(files[..j]) + i) * SECTOR_BYTES + BPS]
          == SectorData(files[j].content, i)
    requires ClusterOffset(FIRST_CLUSTER + Used(files[..j]) + i) == DATA_START + (Used(files[..j]) + i) * SECTOR_BYTES
    ensures ClusterOffset(FIRST_CLUSTER + Used(files[..j]) + i) + BPS <= IMAGE_BYTES
    ensures Image(boot, files)[ClusterOffset(FIRST_CLUSTER + Used(files[..j]) + i)..ClusterOffset(FIRST_CLUSTER + Used(files[..j]) + i) + BPS]
         == SectorData(files[j].content, i)
  {
    SectorOfImage(boot, files, (Used(files[..j]) + i) * SECTOR_BYTES, ClusterOffset(FIRST_CLUSTER + Used(files[..j]) + i));
  }

  /** A sector-sized slice of the file data, seen from the whole image. */
  lemma SectorOfImage(boot: seq<byte>, files: seq<FileSpec>, lo: nat, from: nat)
    requires |boot| <= BPS && NamesAscii(files) && Used(files) <= DATA_SECTORS
    requires lo + BPS <= |Data(files)| && from == DATA_START + lo
    ensures from + BPS <= IMAGE_BYTES && Image(boot, files)[from..from + BPS] == Data(files)[lo..lo + BPS]
  {
    ImageDataRegion(boot, files);
    SectorOfRegion(Image(boot, files), DataRegion(files), Data(files), Data(files)[lo..lo + BPS], lo, from);
  }

  /** A sector-sized slice of the data area, seen from the whole image. */
  lemma SectorOfRegion(img: seq<byte>, region: seq<byte>, data: seq<byte>, sd: seq<byte>, lo: nat, from: nat)
    requires |img| == IMAGE_BYTES && DATA_START <= |img| && img[DATA_START..] == region && data <= region
    requires lo + BPS <= |data| && data[lo..lo + BPS] == sd && from == DATA_START + lo
    ensures from + BPS <= IMAGE_BYTES && img[from..from + BPS] == sd
  {
    assert img[DATA_START..|img|] == region;
    SliceOfMid(img, DATA_START, |img|, region, data, lo, lo + BPS, from, from + BPS);
  }

  lemma ImageDataRegion(boot: seq<byte>, files: seq<FileSpec>)
    requires |boot| <= BPS && NamesAscii(files) && Used(files) <= DATA_SECTORS
    ensures Image(boot, files)[DATA_START..] == DataRegion(files) && Data(files) <= DataRegion(files)
  {
    ImageRegions(boot, files);
  }

  /** Sector `i` of file `j` within the file data, and the image offset of
      its cluster. */
  lemma DataSectorAt(files: seq<FileSpec>, j: nat, i: nat)
    requires Used(files) <= DATA_SECTORS && j < |files| && i < Clusters(|files[j].content|)
    ensures (Used(files[..j]) + i) * SECTOR_BYTES + BPS <= |Data(files)|
    ensures Data(files)[(Used(files[..j]) + i) * SECTOR_BYTES..(Used(files[..j]) + i) * SECTOR_BYTES + BPS]
         == SectorData(files[j].content, i)
    ensures ClusterOffset(FIRST_CLUSTER + Used(files[..j]) + i) == DATA_START + (Used(files[..j]) + i) * SECTOR_BYTES
  {
    DataAt(files, j, i);
    ClusterOffsetIs(Used(files[..j]), i);
  }

  /** Cluster `2 + u + i` starts `u + i` sectors into the data area. */
  lemma ClusterOffsetIs(u: nat, i: nat)
    ensures ClusterOffset(FIRST_CLUSTER + u + i) == DATA_START + (u + i) * SECTOR_BYTES
    ensures (u + i + 1) * SECTOR_BYTES == (u + i) * SECTOR_BYTES + BPS
  {
  }

  /** How the directory records grow by one file: its record is appended
      while fewer than ROOT_SLOTS files have one, and nothing is appended
      after that. */
  lemma RecordsNext(files: seq<FileSpec>, j: nat)
    requires j < |files| && NamesAscii(files) && Used(files) <= DATA_SECTORS
    ensures NamesAscii(files[..j]) && Used(files[..j]) <= DATA_SECTORS
    ensures NamesAscii(files[..j + 1]) && Used(files[..j + 1]) <= DATA_SECTORS
    ensures IsAscii(files[j].name)
    ensures FirstCluster(files[..j], files[j]) < 0x1_0000 && |files[j].content| < 0x1_0000_0000
    ensures Records(files[..j + 1])
         == if j < ROOT_SLOTS
            then Records(files[..j]) + Encode(files[j].name, files[j].attributes, FirstCluster(files[..j], files[j]), |files[j].content|)
            else Records(files[..j])
  {
    PrefixFits(files, j + 1);
    UsedPrefix(files, j + 1);
    LastStep(files, j + 1);
    assert files[..j + 1][..j] == files[..j];
    PrefixFits(files[..j + 1], j);
    RecordsStep(files, j, Records(files[..j]), FirstCluster(files[..j], files[j]),
                Encode(files[j].name, files[j].attributes, FirstCluster(files[..j], files[j]), |files[j].content|));
  }

  /** RecordsNext as a prefix relation. */
  lemma RecordsGrow(files: seq<FileSpec>, j: nat)
    requires j < |files| && NamesAscii(files) && Used(files) <= DATA_SECTORS
    ensures NamesAscii(files[..j]) && Used(files[..j]) <= DATA_SECTORS
    ensures NamesAscii(files[..j + 1]) && Used(files[..j + 1]) <= DATA_SECTORS
    ensures Records(files[..j]) <= Records(files[..j + 1])
  {
    RecordsNext(files, j);
  }

  /** The records of `files[..m]` start those of `files[..j]`. */
  ghost predicate RecordsStart(files: seq<FileSpec>, m: nat, j: nat)
    requires m <= j <= |files|
  {
    NamesAscii(files[..m]) && Used(files[..m]) <= DATA_SECTORS &&
    NamesAscii(files[..j]) && Used(files[..j]) <= DATA_SECTORS &&
    Records(files[..m]) <= Records(files[..j])
  }

  /** The records of a prefix of the files start the records of all of
      them. */
  lemma {:induction false} RecordsPrefix(files: seq<FileSpec>, m: nat, j: nat)
    requires m <= j <= |files| && NamesAscii(files) && Used(files) <= DATA_SECTORS
    ensures RecordsStart(files, m, j)
  {
    if m < j {
      RecordsPrefix(files, m, j - 1);
      RecordsGrow(files, j - 1);
      StartStep(files, m, j);
    } else {
      PrefixFits(files, m);
    }
  }

  /** The inductive step of RecordsPrefix. */
  lemma StartStep(files: seq<FileSpec>, m: nat, j: nat)
    requires m < j <= |files| && RecordsStart(files, m, j - 1)
    requires NamesAscii(files[..j]) && Used(files[..j]) <= DATA_SECTORS
    requires Records(files[..j - 1]) <= Records(files[..j])
    ensures RecordsStart(files, m, j)
  {
    PrefixTrans(Records(files[..m]), Records(files[..j - 1]), Records(files[..j]));
  }

  /** File `k`, while the directory has room for it, has the `k`-th record
      of the root directory: its 8.3 name, its attributes, its first
      cluster and its size. */
  lemma RecordAt(files: seq<FileSpec>, k: nat)
    requires k < |files| && k < ROOT_SLOTS && NamesAscii(files) && Used(files) <= DATA_SECTORS
    ensures IsAscii(files[k].name)
    ensures FirstCluster(files[..k], files[k]) < 0x1_0000 && |files[k].content| < 0x1_0000_0000
    ensures ENTRY_BYTES * k + ENTRY_BYTES <= |Records(files)|
    ensures Records(files)[ENTRY_BYTES * k..ENTRY_BYTES * k + ENTRY_BYTES]
         == Encode(files[k].name, files[k].attributes, FirstCluster(files[..k], files[k]), |files[k].content|)
  {
    RecordsNext(files, k);
    RecordsPrefix(files, k + 1, |files|);
    assert files[..|files|] == files;
    var e := Encode(files[k].name, files[k].attributes, FirstCluster(files[..k], files[k]), |files[k].content|);
    SliceInPrefix(Records(files), Records(files[..k]), e, 0, |e|, ENTRY_BYTES * k, ENTRY_BYTES * k + ENTRY_BYTES);
  }

  /** The `k`-th record of the root directory in the image, for a file that
      got one: at ROOT_START + 32 k. */
  lemma ImageRecord(boot: seq<byte>, files: seq<FileSpec>, k: nat)
    requires |boot| <= BPS && NamesAscii(files) && Used(files) <= DATA_SECTORS
    requires k < |files| && k < ROOT_SLOTS
    ensures IsAscii(files[k].name)
    ensures FirstCluster(files[..k], files[k]) < 0x1_0000 && |files[k].content| < 0x1_0000_0000
    ensures ROOT_START + ENTRY_BYTES * k + ENTRY_BYTES <= DATA_START
    ensures Image(boot, files)[ROOT_START + ENTRY_BYTES * k..ROOT_START + ENTRY_BYTES * k + ENTRY_BYTES]
         == Encode(files[k].name, files[k].attributes, FirstCluster(files[..k], files[k]), |files[k].content|)
  {
    RecordAt(files, k);
    RecordOfFile(boot, files, k);
  }

  /** ImageRecord once the record has been located among the records. */
  lemma RecordOfFile(boot: seq<byte>, files: seq<FileSpec>, k: nat)
    requires |boot| <= BPS && NamesAscii(files) && Used(files) <= DATA_SECTORS
    requires k < |files| && k < ROOT_SLOTS
    requires IsAscii(files[k].name)
    requires FirstCluster(files[..k], files[k]) < 0x1_0000 && |files[k].content| < 0x1_0000_0000
    requires ENTRY_BYTES * k + ENTRY_BYTES <= |Records(files)|
    requires Records(files)[ENTRY_BYTES * k..ENTRY_BYTES * k + ENTRY_BYTES]
          == Encode(files[k].name, files[k].attributes, FirstCluster(files[..k], files[k]), |files[k].content|)
    ensures ROOT_START + ENTRY_BYTES * k + ENTRY_BYTES <= DATA_START
    ensures Image(boot, files)[ROOT_START + ENTRY_BYTES * k..ROOT_START + ENTRY_BYTES * k + ENTRY_BYTES]
         == Encode(files[k].name, files[k].attributes, FirstCluster(files[..k], files[k]), |files[k].content|)
  {
    ImageRootRegion(boot, files);
    SliceOfMid(Image(boot, files), ROOT_START, DATA_START, RootRegion(files), Records(files),
               ENTRY_BYTES * k, ENTRY_BYTES * k + ENTRY_BYTES,
               ROOT_START + ENTRY_BYTES * k, ROOT_START + ENTRY_BYTES * k + ENTRY_BYTES);
  }

  lemma ImageRootRegion(boot: seq<byte>, files: seq<FileSpec>)
    requires |boot| <= BPS && NamesAscii(files) && Used(files) <= DATA_SECTORS
    ensures Image(boot, files)[ROOT_START..DATA_START] == RootRegion(files) && Records(files) <= RootRegion(files)
  {
    ImageRegions(boot, files);
  }

  /** The root directory past the last record is zero: no further entries. */
  lemma ImageRootFree(boot: seq<byte>, files: seq<FileSpec>, x: nat)
    requires |boot| <= BPS && NamesAscii(files) && Used(files) <= DATA_SECTORS
    requires ROOT_START + |Records(files)| <= x < DATA_START
    ensures Image(boot, files)[x] == 0
  {
    RootRegionIs(files);
    ImageRootRegion(boot, files);
    RootTail(Image(boot, files), RootRegion(files), Records(files), x);
  }

  lemma RootRegionIs(files: seq<FileSpec>)
    requires NamesAscii(files) && Used(files) <= DATA_SECTORS
    ensures |Records(files)| <= ROOT_BYTES
    ensures RootRegion(files) == Records(files) + Zeros(ROOT_BYTES - |Records(files)|)
  {
  }

  /** ImageRootFree once the root region has been located in the image. */
  lemma RootTail(img: seq<byte>, region: seq<byte>, rec: seq<byte>, x: nat)
    requires |img| == IMAGE_BYTES && |rec| <= ROOT_BYTES && img[ROOT_START..DATA_START] == region
    requires region == rec + Zeros(ROOT_BYTES - |rec|)
    requires ROOT_START + |rec| <= x < DATA_START
    ensures img[x] == 0
  {
    ZerosAreZero(ROOT_BYTES - |rec|);
    assert img[x] == region[x - ROOT_START];
  }
}
