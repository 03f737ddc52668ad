/** Concrete images: a zero-length file's directory record, and the image
    of a 512-byte loader of 0xAA bytes with the single file "HI.TXT"
    holding "hi". */
module EndToEnd {
  import opened Bytes
  import opened Fat12
  import opened DirEntry
  import opened Allocation
  import opened DiskImage
  import opened ImageFacts

  /** The record of a zero-length file stores first cluster 0 and size 0. */
  lemma EmptyFileRecord(boot: seq<byte>, files: seq<FileSpec>, k: nat)
    requires |boot| <= BPS && NamesAscii(files) && Used(files) <= DATA_SECTORS
    requires k < |files| && k < ROOT_SLOTS && files[k].content == []
    ensures ROOT_START + ENTRY_BYTES * k + ENTRY_BYTES <= DATA_START
    ensures var at := ROOT_START + ENTRY_BYTES * k;
      FromLe(Image(boot, files)[at + 26..at + 28]) == 0 && FromLe(Image(boot, files)[at + 28..at + 32]) == 0
  {
    ImageRecord(boot, files, k);
    EmptyFile(files, k);
    var f := files[k];
    RecordFields(Image(boot, files), ROOT_START + ENTRY_BYTES * k, Encode(f.name, f.attributes, 0, 0));
  }

  /** The fields of a 32-byte record found at offset `at` of `img`. */
  lemma RecordFields(img: seq<byte>, at: nat, e: seq<byte>)
    requires |e| == ENTRY_BYTES && at + ENTRY_BYTES <= |img| && img[at..at + ENTRY_BYTES] == e
    ensures img[at + 26..at + 28] == e[26..28] && img[at + 28..at + 32] == e[28..32]
    ensures forall i :: 0 <= i < ENTRY_BYTES ==> img[at + i] == e[i]
  {
    SliceOfMid(img, at, at + ENTRY_BYTES, e, e, 26, 28, at + 26, at + 28);
    SliceOfMid(img, at, at + ENTRY_BYTES, e, e, 28, 32, at + 28, at + 32);
    forall i | 0 <= i < ENTRY_BYTES
      ensures img[at + i] == e[i]
    {
      assert img[at..at + ENTRY_BYTES][i] == img[at + i];
    }
  }

  function Loader(): (boot: seq<byte>)
    ensures |boot| == BPS
  {
    seq(BPS, _ => 0xAA)
  }

  function HiFiles(attributes: byte): (files: seq<FileSpec>)
    ensures |files| == 1
  {
    [FileSpec("HI.TXT", attributes, [0x68, 0x69])]
  }

  /** The one file fits: an ASCII name and one cluster. */
  lemma HiFits(attributes: byte)
    ensures NamesAscii(HiFiles(attributes)) && Used(HiFiles(attributes)) == 1
    ensures Used(HiFiles(attributes)[..0]) == 0
  {
    var files := HiFiles(attributes);
    assert IsAscii(files[0].name);
    assert Init(files) == [] && Used([]) == 0;
  }

  /** The image of the example: byte 0 is the loader's 0xAA, the first
      root-directory record names "HI      " "TXT" with first cluster 2 and
      size 2, and the sector of cluster 2 is 'h', 'i' and 510 zeros. */
  lemma HiTxtImage(attributes: byte)
    ensures NamesAscii(HiFiles(attributes)) && Used(HiFiles(attributes)) <= DATA_SECTORS
    ensures Image(Loader(), HiFiles(attributes))[0] == 0xAA
    ensures forall i :: 0 <= i < 8 ==>
      Image(Loader(), HiFiles(attributes))[ROOT_START + i] as int == "HI      "[i] as int
    ensures forall i :: 0 <= i < 3 ==>
      Image(Loader(), HiFiles(attributes))[ROOT_START + 8 + i] as int == "TXT"[i] as int
    ensures FromLe(Image(Loader(), HiFiles(attributes))[ROOT_START + 26..ROOT_START + 28]) == 2
    ensures FromLe(Image(Loader(), HiFiles(attributes))[ROOT_START + 28..ROOT_START + 32]) == 2
    ensures Image(Loader(), HiFiles(attributes))[DATA_START..DATA_START + BPS] == [0x68, 0x69] + Zeros(510)
  {
    var boot, files := Loader(), HiFiles(attributes);
    HiFits(attributes);
    var img := Image(boot, files);
    HiBoot(boot, files);
    HiRecord(boot, files, attributes);
    HiSector(boot, files);
  }

  lemma HiBoot(boot: seq<byte>, files: seq<FileSpec>)
    requires boot == Loader() && NamesAscii(files) && Used(files) <= DATA_SECTORS
    ensures Image(boot, files)[0] == 0xAA
  {
    ImageRegions(boot, files);
    BootSectorContent(boot);
    FirstByte(Image(boot, files), BootSector(boot), boot);
  }

  lemma FirstByte(img: seq<byte>, bs: seq<byte>, boot: seq<byte>)
    requires |img| >= BPS && |bs| == BPS && img[..BPS] == bs && boot == Loader() && bs[..|boot|] == boot
    ensures img[0] == 0xAA
  {
    assert img[0] == bs[0] == boot[0];
  }

  lemma HiRecord(boot: seq<byte>, files: seq<FileSpec>, attributes: byte)
    requires boot == Loader() && files == HiFiles(attributes)
    requires NamesAscii(files) && Used(files) <= DATA_SECTORS && Used(files[..0]) == 0
    ensures forall i :: 0 <= i < 8 ==> Image(boot, files)[ROOT_START + i] as int == "HI      "[i] as int
    ensures forall i :: 0 <= i < 3 ==> Image(boot, files)[ROOT_START + 8 + i] as int == "TXT"[i] as int
    ensures FromLe(Image(boot, files)[ROOT_START + 26..ROOT_START + 28]) == 2
    ensures FromLe(Image(boot, files)[ROOT_START + 28..ROOT_START + 32]) == 2
  {
    ImageRecord(boot, files, 0);
    HiEncode(files, attributes);
    HiFields(Image(boot, files), Encode("HI.TXT", attributes, 2, 2), attributes);
  }

  /** The record the build encodes for the example file. */
  lemma HiEncode(files: seq<FileSpec>, attributes: byte)
    requires files == HiFiles(attributes) && Used(files[..0]) == 0
    ensures IsAscii(files[0].name)
    ensures Encode(files[0].name, files[0].attributes, FirstCluster(files[..0], files[0]), |files[0].content|)
         == Encode("HI.TXT", attributes, 2, 2)
  {
    assert FirstCluster(files[..0], files[0]) == 2;
  }

  lemma HiFields(img: seq<byte>, e: seq<byte>, attributes: byte)
    requires ROOT_START + ENTRY_BYTES <= |img| && e == Encode("HI.TXT", attributes, 2, 2)
    requires img[ROOT_START..ROOT_START + ENTRY_BYTES] == e
    ensures forall i :: 0 <= i < 8 ==> img[ROOT_START + i] as int == "HI      "[i] as int
    ensures forall i :: 0 <= i < 3 ==> img[ROOT_START + 8 + i] as int == "TXT"[i] as int
    ensures FromLe(img[ROOT_START + 26..ROOT_START + 28]) == 2
    ensures FromLe(img[ROOT_START + 28..ROOT_START + 32]) == 2
  {
    HiTxtRecord(attributes);
    RecordFields(img, ROOT_START, e);
  }

  /** The record of "HI.TXT" with first cluster 2 and size 2. */
  lemma HiTxtRecord(attributes: byte)
    ensures var e := Encode("HI.TXT", attributes, 2, 2);
      (forall i :: 0 <= i < 8 ==> e[i] as int == "HI      "[i] as int) &&
      (forall i :: 0 <= i < 3 ==> e[8 + i] as int == "TXT"[i] as int) &&
      FromLe(e[26..28]) == 2 && FromLe(e[28..32]) == 2
  {
    HiTxtFields();
  }

  lemma HiSector(boot: seq<byte>, files: seq<FileSpec>)
    requires boot == Loader() && |files| == 1 && files[0].content == [0x68, 0x69]
    requires NamesAscii(files) && Used(files) <= DATA_SECTORS
    ensures Image(boot, files)[DATA_START..DATA_START + BPS] == [0x68, 0x69] + Zeros(510)
  {
    HiData(files);
    FirstDataSector(boot, files);
  }

  /** The first sector of the data area holds the first 512 bytes of the
      file data. */
  lemma FirstDataSector(boot: seq<byte>, files: seq<FileSpec>)
    requires |boot| <= BPS && NamesAscii(files) && Used(files) <= DATA_SECTORS && BPS <= |Data(files)|
    ensures Image(boot, files)[DATA_START..DATA_START + BPS] == Data(files)[0..BPS]
  {
    ImageDataRegion(boot, files);
    SectorOfRegion(Image(boot, files), DataRegion(files), Data(files), Data(files)[0..BPS], 0, DATA_START);
  }

  /** The data area of the example: one sector, the content and 510 zeros. */
  lemma HiData(files: seq<FileSpec>)
    requires |files| == 1 && files[0].content == [0x68, 0x69]
    ensures Data(files) == [0x68, 0x69] + Zeros(510) && Data(files)[0..BPS] == Data(files)
  {
    assert Init(files) == [] && Last(files) == files[0];
    assert Clusters(2) == 1;
  }

  /** A file of 513 bytes, alone on the disk, takes clusters 2 and 3: in
      both FAT copies of the image cluster 2 links to 3 and cluster 3 ends
      the chain. */
  lemma TwoClusterFile(boot: seq<byte>, name: string, attributes: byte, content: seq<byte>)
    requires |boot| <= BPS && IsAscii(name) && |content| == 513
    ensures var img := Image(boot, [FileSpec(name, attributes, content)]);
      ReadEntry(FirstFat(img), 2) == 3 && ReadEntry(SecondFat(img), 2) == 3 &&
      ReadEntry(FirstFat(img), 3) == END_OF_CHAIN && ReadEntry(SecondFat(img), 3) == END_OF_CHAIN
  {
    var files := [FileSpec(name, attributes, content)];
    TwoClusterFits(files);
    TwoClusterChain(boot, files);
  }

  /** The one 513-byte file fits and takes two clusters from cluster 2. */
  lemma TwoClusterFits(files: seq<FileSpec>)
    requires |files| == 1 && IsAscii(files[0].name) && |files[0].content| == 513
    ensures NamesAscii(files) && Used(files) == 2 && Used(files[..0]) == 0
    ensures Clusters(|files[0].content|) == 2
  {
    assert Init(files) == [] && files[..0] == [];
  }

  lemma TwoClusterChain(boot: seq<byte>, files: seq<FileSpec>)
    requires |boot| <= BPS && |files| == 1 && NamesAscii(files) && Used(files) == 2
    requires Used(files[..0]) == 0 && Clusters(|files[0].content|) == 2
    ensures var img := Image(boot, files);
      ReadEntry(FirstFat(img), 2) == 3 && ReadEntry(SecondFat(img), 2) == 3 &&
      ReadEntry(FirstFat(img), 3) == END_OF_CHAIN && ReadEntry(SecondFat(img), 3) == END_OF_CHAIN
  {
    ImageFatChain(boot, files, 0, 0);
    ImageFatChain(boot, files, 0, 1);
  }
}
