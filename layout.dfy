/** The on-disk layout of the floppy image: where each region starts, derived
    from the disk geometry (create_disk_image.py, lines 5-27). */
module Layout {

  /** The configuration constants the layout depends on. The number of FAT
      copies is fixed at two: FAT2 is placed directly after FAT1 and the root
      directory directly after FAT2. */
  datatype Geometry = Geometry(
    totalSectors: nat,
    sectorsPerFat: nat,
    rootEntries: nat,
    bytesPerSector: nat,
    bytesPerDirEntry: nat)

  /** First sector (LBA) of every region, plus the size of the root directory. */
  datatype Regions = Regions(
    boot: nat,
    fat1: nat,
    fat2: nat,
    rootDir: nat,
    rootDirSectors: nat,
    dataStart: nat)

  /** The 1.44 MB floppy the image is built for. */
  const FLOPPY := Geometry(2880, 9, 224, 512, 32)

  /** Sectors taken by the root directory: the byte size of all its entries
      divided by the sector size, rounded up. */
  function RootDirSectors(g: Geometry): (n: nat)
    requires g.bytesPerSector > 0
    ensures n * g.bytesPerSector >= g.rootEntries * g.bytesPerDirEntry
    ensures n == 0 || (n - 1) * g.bytesPerSector < g.rootEntries * g.bytesPerDirEntry
  {
    var bytes := g.rootEntries * g.bytesPerDirEntry;
    var q := bytes / g.bytesPerSector;
    assert bytes == q * g.bytesPerSector + bytes % g.bytesPerSector;
    if bytes % g.bytesPerSector != 0 then q + 1 else q
  }

  /** The region layout: boot sector first, then FAT1, FAT2, the root
      directory and the data area, each starting where the previous ends. */
  function LayoutOf(g: Geometry): (r: Regions)
    requires g.bytesPerSector > 0
    ensures r.boot == 0
    ensures r.fat1 == r.boot + 1 && r.fat2 == r.fat1 + g.sectorsPerFat
    ensures r.rootDir == r.fat2 + g.sectorsPerFat
    ensures r.dataStart == r.rootDir + r.rootDirSectors
    ensures r.rootDirSectors * g.bytesPerSector >= g.rootEntries * g.bytesPerDirEntry
    ensures r.rootDirSectors == 0 || (r.rootDirSectors - 1) * g.bytesPerSector < g.rootEntries * g.bytesPerDirEntry
  {
    var boot := 0;
    var fat1 := boot + 1;
    var fat2 := fat1 + g.sectorsPerFat;
    var rootDir := fat2 + g.sectorsPerFat;
    var rootDirSectors := RootDirSectors(g);
    Regions(boot, fat1, fat2, rootDir, rootDirSectors, rootDir + rootDirSectors)
  }

  /** The sector numbers the boot loader is built against. */
  lemma FloppyLayout()
    ensures LayoutOf(FLOPPY) == Regions(0, 1, 10, 19, 14, 33)
  {
  }

  /** The regions come in order, and the data area starts only after the
      boot sector, both FAT copies and every byte of the root directory
      entries. */
  lemma {:induction false} RegionsAreContiguous(g: Geometry)
    requires g.bytesPerSector > 0
    ensures var r := LayoutOf(g);
      r.boot < r.fat1 <= r.fat2 <= r.rootDir <= r.dataStart &&
      r.dataStart * g.bytesPerSector >= (1 + 2 * g.sectorsPerFat) * g.bytesPerSector + g.rootEntries * g.bytesPerDirEntry
  {
    var r := LayoutOf(g);
    assert r.dataStart * g.bytesPerSector
        == (1 + 2 * g.sectorsPerFat) * g.bytesPerSector + r.rootDirSectors * g.bytesPerSector;
  }
}
