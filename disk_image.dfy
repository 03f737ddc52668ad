/** The image build of create_disk_image.py (lines 104-220): boot sector,
    two identical FAT12 tables, the root directory and the data area,
    assembled into one buffer of 2880 sectors. Reading the boot loader and
    the data files is the caller's job: they arrive as arguments. */
module DiskImage {
  import opened Bytes
  import opened Layout
  import opened Fat12
  import opened DirEntry
  import opened Allocation

  /** The module-level constants of the build, for the 1.44 MB floppy
      (FloppyConstants ties them to LayoutOf(FLOPPY)). */
  const BPS := 512
  const IMAGE_BYTES := 2880 * 512
  const DATA_START_SECTOR := 33
  /** `fat_table_size_bytes`: 9 sectors. */
  const FAT_BYTES := 9 * 512
  /** Size of the root-directory buffer: the 14 sectors of the root
      directory region. */
  const ROOT_BYTES := 14 * 512
  const FAT1_START := 1 * 512
  const FAT2_START := 10 * 512
  const ROOT_START := 19 * 512
  const DATA_START := 33 * 512
  /** Sectors of the data area, i.e. clusters 2 .. DATA_SECTORS + 1. */
  const DATA_SECTORS := 2880 - 33
  /** How many 32-byte records the root-directory buffer holds. */
  const ROOT_SLOTS := 224

  lemma FloppyConstants()
    ensures var r := LayoutOf(FLOPPY);
      BPS == FLOPPY.bytesPerSector && BPS == SECTOR_BYTES &&
      IMAGE_BYTES == FLOPPY.totalSectors * BPS &&
      FAT_BYTES == FLOPPY.sectorsPerFat * BPS &&
      ROOT_BYTES == r.rootDirSectors * BPS && ROOT_SLOTS * ENTRY_BYTES == ROOT_BYTES &&
      FAT1_START == r.fat1 * BPS && FAT2_START == r.fat2 * BPS &&
      ROOT_START == r.rootDir * BPS && DATA_START == r.dataStart * BPS &&
      DATA_START_SECTOR == r.dataStart && DATA_SECTORS == FLOPPY.totalSectors - r.dataStart
  {
    FloppyLayout();
  }

  predicate NamesAscii(files: seq<FileSpec>)
  {
    forall k :: 0 <= k < |files| ==> IsAscii(files[k].name)
  }

  /** Both FAT copies right after initialisation: entry 0 is the media
      descriptor pattern, entry 1 the end-of-chain marker. */
  ghost function InitFat(): (t: seq<byte>)
    ensures |t| == FAT_BYTES
  {
    SetEntry(SetEntry(Zeros(FAT_BYTES), 0, MEDIA_ENTRY), 1, END_OF_CHAIN)
  }

  /** The table after the first `k` writes of a chain of `n` clusters from
      `first`. */
  ghost function WriteChain(t: seq<byte>, first: nat, n: nat, k: nat): (r: seq<byte>)
    requires k <= n
    ensures |r| == |t|
  {
    if k == 0 then t
    else SetEntry(WriteChain(t, first, n, k - 1), first + k - 1, Link(first, n, k - 1))
  }

  /** The step of the allocation loop on one FAT copy. */
  lemma WriteChainStep(t: seq<byte>, first: nat, n: nat, i: nat, before: seq<byte>, c: nat, link: int)
    requires i < n && before == WriteChain(t, first, n, i)
    requires c == first + i && link == if i < n - 1 then c + 1 else END_OF_CHAIN
    ensures SetEntry(before, c, link) == WriteChain(t, first, n, i + 1)
  {
  }

  /** Each FAT copy after allocating `files`. */
  ghost function Fat(files: seq<FileSpec>): (t: seq<byte>)
    ensures |t| == FAT_BYTES
  {
    if files == [] then InitFat()
    else
      var n := Clusters(|Last(files).content|);
      WriteChain(Fat(Init(files)), FIRST_CLUSTER + Used(Init(files)), n, n)
  }

  /** The records after appending `entry` to `rec`, the `if` of the
      directory-full check. */
  function Appended(rec: seq<byte>, entry: seq<byte>): seq<byte>
  {
    if |rec| + ENTRY_BYTES > ROOT_BYTES then rec else rec + entry
  }

  /** Appending keeps the stored records and never overflows the buffer. */
  lemma AppendedKeeps(rec: seq<byte>, entry: seq<byte>)
    requires |rec| <= ROOT_BYTES && |entry| == ENTRY_BYTES
    ensures rec <= Appended(rec, entry) && |Appended(rec, entry)| <= ROOT_BYTES
    ensures |Appended(rec, entry)| == |rec| <==> |rec| + ENTRY_BYTES > ROOT_BYTES
  {
  }

  /** The records written to the root directory: one per file until the
      buffer is full, after which files get clusters but no record. */
  ghost function Records(files: seq<FileSpec>): (r: seq<byte>)
    requires NamesAscii(files) && Used(files) <= DATA_SECTORS
    ensures |r| == ENTRY_BYTES * (if |files| < ROOT_SLOTS then |files| else ROOT_SLOTS)
  {
    if files == [] then []
    else
      var p, f := Init(files), Last(files);
      assert IsAscii(f.name);
      Appended(Records(p), Encode(f.name, f.attributes, FirstCluster(p, f), |f.content|))
  }

  ghost function BootSector(boot: seq<byte>): (r: seq<byte>)
    requires |boot| <= BPS
    ensures |r| == BPS
  {
    boot + Zeros(BPS - |boot|)
  }

  ghost function RootRegion(files: seq<FileSpec>): (r: seq<byte>)
    requires NamesAscii(files) && Used(files) <= DATA_SECTORS
    ensures |r| == ROOT_BYTES
  {
    Records(files) + Zeros(ROOT_BYTES - |Records(files)|)
  }

  ghost function DataRegion(files: seq<FileSpec>): (r: seq<byte>)
    requires Used(files) <= DATA_SECTORS
    ensures |r| == DATA_SECTORS * BPS
  {
    Data(files) + Zeros(DATA_SECTORS * BPS - |Data(files)|)
  }

  /** The finished image, region by region. */
  ghost function Image(boot: seq<byte>, files: seq<FileSpec>): (img: seq<byte>)
    requires |boot| <= BPS && NamesAscii(files) && Used(files) <= DATA_SECTORS
    ensures |img| == IMAGE_BYTES
  {
    BootSector(boot) + Fat(files) + Fat(files) + RootRegion(files) + DataRegion(files)
  }

  /** Byte offset of the data sector of cluster `c` (cluster 2 is the first
      sector of the data area). */
  function ClusterOffset(c: nat): nat
    requires c >= FIRST_CLUSTER
  {
    (DATA_START_SECTOR + (c - FIRST_CLUSTER)) * BPS
  }

  /** The sector of every data cluster lies in the data area of the image. */
  lemma ClusterInData(c: nat)
    requires FIRST_CLUSTER <= c < FIRST_CLUSTER + DATA_SECTORS
    ensures DATA_START <= ClusterOffset(c) && ClusterOffset(c) + BPS <= IMAGE_BYTES
  {
  }

  /** One step of the allocation loop: the data sector of cluster `c` is
      written to the image and entry `c` of both FAT copies is set to
      `link`. */
  method AllocateCluster(disk: array<byte>, fat1: array<byte>, fat2: array<byte>, c: nat, data: seq<byte>, link: nat)
    requires disk != fat1 && disk != fat2 && fat1 != fat2
    requires disk.Length == IMAGE_BYTES && fat1.Length == FAT_BYTES && fat2.Length == FAT_BYTES
    requires FIRST_CLUSTER <= c < FIRST_CLUSTER + DATA_SECTORS && |data| == BPS
    modifies disk, fat1, fat2
    ensures disk[..] == Overwrite(old(disk[..]), ClusterOffset(c), data)
    ensures fat1[..] == SetEntry(old(fat1[..]), c, link)
    ensures fat2[..] == SetEntry(old(fat2[..]), c, link)
  {
    var sector := DATA_START_SECTOR + (c - FIRST_CLUSTER);
    CopyInto(disk, sector * BPS, data);
    // Every cluster of the data area is a valid FAT entry, so the writer's
    // range check never refuses one here.
    FloppyFatCapacity(c);
    var ok := WriteFatEntry(fat1, c, link);
    assert ok;
    ok := WriteFatEntry(fat2, c, link);
  }

  /** Iteration `i` of the allocation loop of a file with `n` clusters from
      `first`: cluster `first + i` gets sector `i` of the file and its link
      in both FAT copies. `d0`, `f1` and `f2` are the buffers before the
      loop. */
  method ChainStep(disk: array<byte>, fat1: array<byte>, fat2: array<byte>,
                   ghost d0: seq<byte>, ghost f1: seq<byte>, ghost f2: seq<byte>,
                   first: nat, content: seq<byte>, n: nat, i: nat)
    requires disk != fat1 && disk != fat2 && fat1 != fat2
    requires disk.Length == IMAGE_BYTES && fat1.Length == FAT_BYTES && fat2.Length == FAT_BYTES
    requires n == Clusters(|content|) && i < n && |d0| == IMAGE_BYTES
    requires FIRST_CLUSTER <= first && first - FIRST_CLUSTER + n <= DATA_SECTORS
    requires fat1[..] == WriteChain(f1, first, n, i) && fat2[..] == WriteChain(f2, first, n, i)
    requires disk[..] == Overwrite(d0, ClusterOffset(first), Padded(content)[..i * BPS])
    modifies disk, fat1, fat2
    ensures fat1[..] == WriteChain(f1, first, n, i + 1) && fat2[..] == WriteChain(f2, first, n, i + 1)
    ensures disk[..] == Overwrite(d0, ClusterOffset(first), Padded(content)[..(i + 1) * BPS])
  {
    var c := first + i;
    var data := SectorData(content, i);
    var link := if i < n - 1 then c + 1 else END_OF_CHAIN;
    WriteChainStep(f1, first, n, i, fat1[..], c, link);
    WriteChainStep(f2, first, n, i, fat2[..], c, link);
    AllocateCluster(disk, fat1, fat2, c, data, link);
    SectorDataIsSlice(content, i);
    SliceConcat(Padded(content), i * BPS, (i + 1) * BPS);
    OverwriteAppend(d0, ClusterOffset(first), Padded(content)[..i * BPS], data);
  }

  /** The allocation loop for one non-empty file whose chain starts at
      cluster `first`: every cluster gets its data sector and its FAT entry
      in both copies. */
  method AllocateChain(disk: array<byte>, fat1: array<byte>, fat2: array<byte>, first: nat, content: seq<byte>)
    requires disk != fat1 && disk != fat2 && fat1 != fat2
    requires disk.Length == IMAGE_BYTES && fat1.Length == FAT_BYTES && fat2.Length == FAT_BYTES
    requires FIRST_CLUSTER <= first && first - FIRST_CLUSTER + Clusters(|content|) <= DATA_SECTORS
    modifies disk, fat1, fat2
    ensures disk[..] == Overwrite(old(disk[..]), ClusterOffset(first), Padded(content))
    ensures fat1[..] == WriteChain(old(fat1[..]), first, Clusters(|content|), Clusters(|content|))
    ensures fat2[..] == WriteChain(old(fat2[..]), first, Clusters(|content|), Clusters(|content|))
  {
    ghost var d0, f1, f2 := disk[..], fat1[..], fat2[..];
    var size := |content|;
    var n := (size + BPS - 1) / BPS;
    assert n == Clusters(size);
    OverwriteNothing(d0, ClusterOffset(first));
    var i := 0;
    while i < n
      invariant i <= n
      invariant fat1[..] == WriteChain(f1, first, n, i)
      invariant fat2[..] == WriteChain(f2, first, n, i)
      invariant disk[..] == Overwrite(d0, ClusterOffset(first), Padded(content)[..i * BPS])
    {
      ChainStep(disk, fat1, fat2, d0, f1, f2, first, content, n, i);
      i := i + 1;
    }
    assert Padded(content)[..n * BPS] == Padded(content);
  }

  /** The image buffer with the boot loader copied to its start. */
  method NewDisk(boot: seq<byte>) returns (disk: array<byte>)
    requires |boot| <= BPS
    ensures fresh(disk)
    ensures disk[..] == BootSector(boot) + Zeros(DATA_START - BPS) + Zeros(DATA_SECTORS * BPS)
  {
    disk := new byte[IMAGE_BYTES](_ => 0);
    assert disk[..] == Zeros(IMAGE_BYTES);
    CopyInto(disk, 0, boot);
    OverwriteGap([], IMAGE_BYTES, [], 0, boot);
    ZerosConcat(BPS - |boot|, DATA_START - BPS);
    ZerosConcat(DATA_START - |boot|, DATA_SECTORS * BPS);
  }

  /** A FAT buffer with its two reserved entries written. */
  method NewFat() returns (fat: array<byte>)
    ensures fresh(fat)
    ensures fat[..] == InitFat()
  {
    fat := new byte[FAT_BYTES](_ => 0);
    assert fat[..] == Zeros(FAT_BYTES);
    var ok := WriteFatEntry(fat, 0, MEDIA_ENTRY);
    ok := WriteFatEntry(fat, 1, END_OF_CHAIN);
  }

  /** How the data area of the specification advances by one file. */
  lemma DataStep(files: seq<FileSpec>, j: nat)
    requires j < |files|
    ensures Data(files[..j + 1]) == Data(files[..j]) + Padded(files[j].content)
  {
    assert Init(files[..j + 1]) == files[..j] && Last(files[..j + 1]) == files[j];
  }

  /** How the FAT of the specification advances by one file: `t` is the
      FAT after the files before it, `cluster` the next free cluster. */
  lemma FatStep(files: seq<FileSpec>, j: nat, t: seq<byte>, cluster: nat)
    requires j < |files| && t == Fat(files[..j]) && cluster == FIRST_CLUSTER + Used(files[..j])
    ensures var n := Clusters(|files[j].content|);
      WriteChain(t, cluster, n, n) == Fat(files[..j + 1])
  {
    assert Init(files[..j + 1]) == files[..j] && Last(files[..j + 1]) == files[j];
  }

  /** The prefixes of a list of files that fits the data area fit it too. */
  lemma PrefixFits(files: seq<FileSpec>, j: nat)
    requires j <= |files| && NamesAscii(files) && Used(files) <= DATA_SECTORS
    ensures NamesAscii(files[..j]) && Used(files[..j]) <= DATA_SECTORS
  {
    UsedPrefix(files, j);
  }

  /** How the root-directory records of the specification advance by one
      file: `rec` are the records of the files before it, `entry` its
      directory entry, which is appended unless the directory is full. */
  lemma RecordsStep(files: seq<FileSpec>, j: nat, rec: seq<byte>, first: nat, entry: seq<byte>)
    requires j < |files| && NamesAscii(files) && Used(files) <= DATA_SECTORS
    requires NamesAscii(files[..j]) && Used(files[..j]) + Clusters(|files[j].content|) <= DATA_SECTORS
    requires rec == Records(files[..j])
    requires first == FirstCluster(files[..j], files[j]) && IsAscii(files[j].name)
    requires entry == Encode(files[j].name, files[j].attributes, first, |files[j].content|)
    ensures NamesAscii(files[..j + 1]) && Used(files[..j + 1]) <= DATA_SECTORS
    ensures Appended(rec, entry) == Records(files[..j + 1])
  {
    PrefixFits(files, j + 1);
    assert Init(files[..j + 1]) == files[..j] && Last(files[..j + 1]) == files[j];
  }

  /** The data and FAT part of one iteration of the file loop: a file of
      `content` is given the clusters from `cluster` on, behind the data `d`
      already written after the header `h`; both FAT copies get its chain.
      `first` is the cluster recorded in the file's directory entry, 0 for an
      empty file. */
  method AddData(disk: array<byte>, fat1: array<byte>, fat2: array<byte>,
                 ghost h: seq<byte>, ghost d: seq<byte>, ghost t: seq<byte>, cluster: nat, content: seq<byte>)
    returns (first: nat, cluster': nat)
    requires disk != fat1 && disk != fat2 && fat1 != fat2
    requires disk.Length == IMAGE_BYTES && fat1.Length == FAT_BYTES && fat2.Length == FAT_BYTES
    requires |h| == DATA_START && FIRST_CLUSTER <= cluster && |d| == (cluster - FIRST_CLUSTER) * BPS
    requires cluster - FIRST_CLUSTER + Clusters(|content|) <= DATA_SECTORS
    requires disk[..] == h + d + Zeros(DATA_SECTORS * BPS - |d|)
    requires fat1[..] == t && fat2[..] == t
    modifies disk, fat1, fat2
    ensures cluster' == cluster + Clusters(|content|)
    ensures first == if content == [] then 0 else cluster
    ensures disk[..] == h + (d + Padded(content)) + Zeros(DATA_SECTORS * BPS - |d + Padded(content)|)
    ensures fat1[..] == WriteChain(t, cluster, Clusters(|content|), Clusters(|content|)) && fat2[..] == fat1[..]
  {
    var size := |content|;
    var n := (size + BPS - 1) / BPS;
    if size == 0 {
      n := 0;
    }
    assert n == Clusters(size);
    first := 0;
    cluster' := cluster;
    if n != 0 {
      first := cluster;
      ghost var k := DATA_SECTORS * BPS - |d|;
      GrowIntoZeros(h, d, k, Padded(content), d + Padded(content), k - |Padded(content)|);
      AllocateChain(disk, fat1, fat2, cluster, content);
      cluster' := cluster + n;
    } else {
      assert Padded(content) == [];
      assert d + [] == d;
    }
  }

  /** The directory part of one iteration of the file loop: the record
      `entry` is appended to the records `rec` unless the buffer is full. */
  method AddRecord(root: array<byte>, ghost rec: seq<byte>, offset: nat, entry: seq<byte>)
    returns (offset': nat)
    requires root.Length == ROOT_BYTES && |entry| == ENTRY_BYTES
    requires offset == |rec| <= ROOT_BYTES && root[..] == rec + Zeros(ROOT_BYTES - |rec|)
    modifies root
    ensures var rec' := if |rec| + ENTRY_BYTES > ROOT_BYTES then rec else rec + entry;
      offset' == |rec'| && root[..] == rec' + Zeros(ROOT_BYTES - |rec'|)
  {
    offset' := offset;
    if offset + ENTRY_BYTES <= root.Length {
      OverwriteTail(rec, ROOT_BYTES - |rec|, entry);
      CopyInto(root, offset, entry);
      offset' := offset + ENTRY_BYTES;
    }
  }

  /** The buffers of the build hold the header `h` followed by the data `d`
      written so far, two FAT copies `t` and the directory records `rec`, the
      rest zero. */
  ghost predicate Buffers(disk: seq<byte>, fat1: seq<byte>, fat2: seq<byte>, root: seq<byte>,
                          h: seq<byte>, d: seq<byte>, t: seq<byte>, rec: seq<byte>)
  {
    |h| == DATA_START && |d| <= DATA_SECTORS * BPS && disk == h + d + Zeros(DATA_SECTORS * BPS - |d|) &&
    fat1 == t && fat2 == t &&
    |rec| <= ROOT_BYTES && root == rec + Zeros(ROOT_BYTES - |rec|)
  }

  /** The ghost state of the build after the first `j` files: data area,
      FAT, directory records, next free cluster and directory offset, as
      the specification functions give them. */
  ghost predicate Tracks(files: seq<FileSpec>, j: nat, d: seq<byte>, t: seq<byte>, rec: seq<byte>, cluster: nat, offset: nat)
    requires j <= |files|
  {
    NamesAscii(files[..j]) && Used(files[..j]) <= DATA_SECTORS &&
    d == Data(files[..j]) && t == Fat(files[..j]) && rec == Records(files[..j]) &&
    cluster == FIRST_CLUSTER + Used(files[..j]) && offset == |rec|
  }

  /** The ghost state advances with each file exactly as the specification
      functions do. */
  lemma Advance(files: seq<FileSpec>, j: nat, d: seq<byte>, t: seq<byte>, rec: seq<byte>, cluster: nat, offset: nat)
    requires j < |files| && NamesAscii(files) && Used(files) <= DATA_SECTORS
    requires Tracks(files, j, d, t, rec, cluster, offset)
    ensures IsAscii(files[j].name) && |d| == (cluster - FIRST_CLUSTER) * BPS
    ensures cluster - FIRST_CLUSTER + Clusters(|files[j].content|) <= DATA_SECTORS
    ensures var f, n := files[j], Clusters(|files[j].content|);
      var entry := Encode(f.name, f.attributes, if f.content == [] then 0 else cluster, |f.content|);
      Tracks(files, j + 1, d + Padded(f.content), WriteChain(t, cluster, n, n),
             Appended(rec, entry), cluster + n, |Appended(rec, entry)|)
  {
    var f := files[j];
    UsedStep(files, j);
    DataStep(files, j);
    FatStep(files, j, t, cluster);
    PrefixFits(files, j + 1);
    assert IsAscii(f.name);
    var first := if f.content == [] then 0 else cluster;
    var entry := Encode(f.name, f.attributes, first, |f.content|);
    RecordsStep(files, j, rec, first, entry);
  }

  /** One iteration of the build's file loop on the buffers: the clusters of
      file `f` from `cluster` on get its data and chain, and its record is
      appended to the directory unless the directory is full. */
  method AddFile(disk: array<byte>, fat1: array<byte>, fat2: array<byte>, root: array<byte>,
                 ghost h: seq<byte>, ghost d: seq<byte>, ghost t: seq<byte>, ghost rec: seq<byte>,
                 cluster: nat, offset: nat, f: FileSpec)
    returns (cluster': nat, offset': nat)
    requires disk != fat1 && disk != fat2 && fat1 != fat2 && root != disk && root != fat1 && root != fat2
    requires disk.Length == IMAGE_BYTES && fat1.Length == FAT_BYTES && fat2.Length == FAT_BYTES && root.Length == ROOT_BYTES
    requires Buffers(disk[..], fat1[..], fat2[..], root[..], h, d, t, rec)
    requires IsAscii(f.name) && FIRST_CLUSTER <= cluster && |d| == (cluster - FIRST_CLUSTER) * BPS
    requires cluster - FIRST_CLUSTER + Clusters(|f.content|) <= DATA_SECTORS && offset == |rec|
    modifies disk, fat1, fat2, root
    ensures var n := Clusters(|f.content|);
      var entry := Encode(f.name, f.attributes, if f.content == [] then 0 else cluster, |f.content|);
      cluster' == cluster + n && offset' == |Appended(rec, entry)| &&
      Buffers(disk[..], fat1[..], fat2[..], root[..], h, d + Padded(f.content), WriteChain(t, cluster, n, n), Appended(rec, entry))
  {
    var first;
    first, cluster' := AddData(disk, fat1, fat2, h, d, t, cluster, f.content);
    var entry := Encode(f.name, f.attributes, first, |f.content|);
    offset' := AddRecord(root, rec, offset, entry);
  }

  /** The file loop's iteration `j` with the ghost state that follows it:
      AddFile on the buffers, Advance on the specification. */
  method Iteration(disk: array<byte>, fat1: array<byte>, fat2: array<byte>, root: array<byte>,
                   ghost h: seq<byte>, ghost files: seq<FileSpec>, j: nat, ghost d: seq<byte>, ghost t: seq<byte>, ghost rec: seq<byte>,
                   cluster: nat, offset: nat, f: FileSpec)
    returns (cluster': nat, offset': nat, ghost d': seq<byte>, ghost t': seq<byte>, ghost rec': seq<byte>)
    requires disk != fat1 && disk != fat2 && fat1 != fat2 && root != disk && root != fat1 && root != fat2
    requires disk.Length == IMAGE_BYTES && fat1.Length == FAT_BYTES && fat2.Length == FAT_BYTES && root.Length == ROOT_BYTES
    requires j < |files| && f == files[j] && NamesAscii(files) && Used(files) <= DATA_SECTORS
    requires Tracks(files, j, d, t, rec, cluster, offset)
    requires Buffers(disk[..], fat1[..], fat2[..], root[..], h, d, t, rec)
    modifies disk, fat1, fat2, root
    ensures Tracks(files, j + 1, d', t', rec', cluster', offset')
    ensures Buffers(disk[..], fat1[..], fat2[..], root[..], h, d', t', rec')
  {
    Advance(files, j, d, t, rec, cluster, offset);
    ghost var n := Clusters(|f.content|);
    ghost var entry := Encode(f.name, f.attributes, if f.content == [] then 0 else cluster, |f.content|);
    cluster', offset' := AddFile(disk, fat1, fat2, root, h, d, t, rec, cluster, offset, f);
    d', t', rec' := d + Padded(f.content), WriteChain(t, cluster, n, n), Appended(rec, entry);
  }

  /** The build. `boot` is the boot loader, `files` the files in the order
      they are added. The boot loader must fit the boot sector and the files
      must fit the data area, the conditions under which every slice
      assignment of the build keeps the buffer at its size. `recorded` is the
      number of files that got a root-directory record; the remaining ones
      were refused because the directory was full. */
  method Build(boot: seq<byte>, files: seq<FileSpec>) returns (img: seq<byte>, recorded: nat)
    requires |boot| <= BPS
    requires NamesAscii(files)
    requires Used(files) <= DATA_SECTORS
    ensures img == Image(boot, files)
    ensures recorded == if |files| < ROOT_SLOTS then |files| else ROOT_SLOTS
  {
    var disk, fat1, fat2, root := Setup(boot);
    ghost var h := BootSector(boot) + Zeros(DATA_START - BPS);
    // `d`, `t` and `rec` follow the data area, the FAT and the directory
    // records of the files done so far.
    ghost var d: seq<byte>, t, rec: seq<byte> := [], InitFat(), [];
    var cluster: nat := FIRST_CLUSTER;
    var offset: nat := 0;
    Start(files);
    var j := 0;
    while j < |files|
      invariant j <= |files| && Tracks(files, j, d, t, rec, cluster, offset)
      invariant Buffers(disk[..], fat1[..], fat2[..], root[..], h, d, t, rec)
    {
      cluster, offset, d, t, rec := Iteration(disk, fat1, fat2, root, h, files, j, d, t, rec, cluster, offset, files[j]);
      j := j + 1;
    }
    recorded := offset / ENTRY_BYTES;
    img := Finish(disk, fat1, fat2, root, boot, files, d, t, rec, cluster, offset);
  }

  /** The buffers before the first file: the image with the boot sector,
      both FAT copies with their reserved entries, an empty directory. */
  method Setup(boot: seq<byte>) returns (disk: array<byte>, fat1: array<byte>, fat2: array<byte>, root: array<byte>)
    requires |boot| <= BPS
    ensures fresh(disk) && fresh(fat1) && fresh(fat2) && fresh(root)
    ensures disk != fat1 && disk != fat2 && fat1 != fat2 && root != disk && root != fat1 && root != fat2
    ensures disk.Length == IMAGE_BYTES && fat1.Length == FAT_BYTES && fat2.Length == FAT_BYTES && root.Length == ROOT_BYTES
    ensures Buffers(disk[..], fat1[..], fat2[..], root[..], BootSector(boot) + Zeros(DATA_START - BPS), [], InitFat(), [])
  {
    disk := NewDisk(boot);
    fat1 := NewFat();
    fat2 := NewFat();
    root := new byte[ROOT_BYTES](_ => 0);
    assert root[..] == Zeros(ROOT_BYTES);
    assert BootSector(boot) + Zeros(DATA_START - BPS) + [] == BootSector(boot) + Zeros(DATA_START - BPS);
  }

  /** The ghost state before the first file. */
  lemma Start(files: seq<FileSpec>)
    ensures Tracks(files, 0, [], InitFat(), [], FIRST_CLUSTER, 0)
  {
    assert files[..0] == [];
  }

  /** After the last file: the buffers are assembled into the image. */
  method Finish(disk: array<byte>, fat1: array<byte>, fat2: array<byte>, root: array<byte>,
                ghost boot: seq<byte>, ghost files: seq<FileSpec>, ghost d: seq<byte>, ghost t: seq<byte>, ghost rec: seq<byte>,
                ghost cluster: nat, offset: nat)
    returns (img: seq<byte>)
    requires disk != fat1 && disk != fat2 && disk != root
    requires disk.Length == IMAGE_BYTES && fat1.Length == FAT_BYTES && fat2.Length == FAT_BYTES && root.Length == ROOT_BYTES
    requires |boot| <= BPS && NamesAscii(files) && Used(files) <= DATA_SECTORS
    requires Tracks(files, |files|, d, t, rec, cluster, offset)
    requires Buffers(disk[..], fat1[..], fat2[..], root[..], BootSector(boot) + Zeros(DATA_START - BPS), d, t, rec)
    modifies disk
    ensures img == Image(boot, files)
    ensures offset / ENTRY_BYTES == if |files| < ROOT_SLOTS then |files| else ROOT_SLOTS
  {
    assert files[..|files|] == files;
    assert disk[..] == BootSector(boot) + Zeros(DATA_START - BPS) + DataRegion(files);
    img := Assemble(disk, fat1, fat2, root, BootSector(boot), t, RootRegion(files), DataRegion(files));
  }

  /** `buf` copied into the run of zeros between `a` and `b`, `p` bytes
      into it. */
  method FillGap(disk: array<byte>, at: nat, buf: array<byte>, ghost a: seq<byte>, ghost k: nat, ghost b: seq<byte>, ghost p: nat)
    requires disk != buf && disk[..] == a + Zeros(k) + b && p + buf.Length <= k && at == |a| + p
    modifies disk
    ensures disk[..] == a + Zeros(p) + buf[..] + Zeros(k - p - buf.Length) + b
  {
    CopyInto(disk, at, buf[..]);
    OverwriteGap(a, k, b, p, buf[..]);
  }

  /** The last steps of the build: the root directory `r` and both FAT
      copies `t` are copied into the image between the boot sector `bs` and
      the data area `data`. */
  method Assemble(disk: array<byte>, fat1: array<byte>, fat2: array<byte>, root: array<byte>,
                  ghost bs: seq<byte>, ghost t: seq<byte>, ghost r: seq<byte>, ghost data: seq<byte>)
    returns (img: seq<byte>)
    requires disk != fat1 && disk != fat2 && disk != root
    requires disk.Length == IMAGE_BYTES && fat1.Length == FAT_BYTES && fat2.Length == FAT_BYTES && root.Length == ROOT_BYTES
    requires |bs| == BPS && disk[..] == bs + Zeros(DATA_START - BPS) + data
    requires fat1[..] == t && fat2[..] == t && root[..] == r
    modifies disk
    ensures img == bs + t + t + r + data
  {
    assert Zeros(0) == [];
    FillGap(disk, ROOT_START, root, bs, DATA_START - BPS, data, ROOT_START - BPS);
    assert disk[..] == bs + Zeros(ROOT_START - BPS) + (r + data);
    FillGap(disk, FAT1_START, fat1, bs, ROOT_START - BPS, r + data, 0);
    assert disk[..] == (bs + t) + Zeros(FAT_BYTES) + (r + data);
    FillGap(disk, FAT2_START, fat2, bs + t, FAT_BYTES, r + data, 0);
    img := disk[..];
  }
}
