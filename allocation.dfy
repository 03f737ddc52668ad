/** The sequential cluster allocator of the image build
    (create_disk_image.py, lines 152-197), as functions of the files
    processed so far. One cluster is one 512-byte sector; clusters 0 and 1
    are reserved, so the counter starts at 2 and every file with content
    takes the next run of consecutive clusters. */
module Allocation {
  import opened Bytes
  import Fat12

  const SECTOR_BYTES := 512
  const FIRST_CLUSTER := 2

  /** One element of the build's file list. */
  datatype FileSpec = FileSpec(name: string, attributes: byte, content: seq<byte>)

  /** `num_clusters_needed`: the size divided by the sector size, rounded up;
      an empty file needs none. */
  function Clusters(size: nat): (n: nat)
    ensures n * SECTOR_BYTES >= size
    ensures n == 0 || (n - 1) * SECTOR_BYTES < size
    ensures n == 0 <==> size == 0
  {
    var n := (size + SECTOR_BYTES - 1) / SECTOR_BYTES;
    if size == 0 then 0 else n
  }

  function Init(files: seq<FileSpec>): seq<FileSpec>
    requires files != []
  {
    files[..|files| - 1]
  }

  function Last(files: seq<FileSpec>): FileSpec
    requires files != []
  {
    files[|files| - 1]
  }

  /** Clusters taken by `files`, allocated in order; the counter
      `current_data_cluster` is FIRST_CLUSTER + Used(files) once they are
      done. */
  function Used(files: seq<FileSpec>): nat
  {
    if files == [] then 0 else Used(Init(files)) + Clusters(|Last(files).content|)
  }

  /** No cluster is taken exactly when every file is empty. */
  lemma {:induction false} NoClustersUsed(files: seq<FileSpec>)
    ensures Used(files) == 0 <==> forall k :: 0 <= k < |files| ==> files[k].content == []
  {
    if files != [] {
      NoClustersUsed(Init(files));
      assert forall k :: 0 <= k < |files| - 1 ==> Init(files)[k] == files[k];
    }
  }

  /** `first_cluster` of file `f` after the files `done`: 0 for an empty
      file, the counter otherwise. */
  function FirstCluster(done: seq<FileSpec>, f: FileSpec): nat
  {
    if |f.content| == 0 then 0 else FIRST_CLUSTER + Used(done)
  }

  /** The recorded first cluster is 0 exactly for an empty file, and a
      data cluster (2 or more) otherwise. */
  lemma FirstClusterOf(done: seq<FileSpec>, f: FileSpec)
    ensures FirstCluster(done, f) == 0 <==> f.content == []
    ensures f.content != [] ==> FIRST_CLUSTER <= FirstCluster(done, f)
  {
  }

  /** The FAT value written for cluster `i` of a chain of `n` clusters from
      `first`: the next cluster, or the end-of-chain marker for the last. */
  function Link(first: nat, n: nat, i: nat): nat
  {
    if i < n - 1 then first + i + 1 else Fat12.END_OF_CHAIN
  }

  /** The FAT values of a whole chain. */
  function ChainLinks(first: nat, n: nat): (r: seq<nat>)
    ensures |r| == n
    ensures forall i :: 0 <= i < n ==> r[i] == Link(first, n, i)
  {
    seq(n, i requires 0 <= i < n => Link(first, n, i))
  }

  /** The FAT values of clusters 2, 3, ... after allocating `files`. */
  ghost function Links(files: seq<FileSpec>): (r: seq<nat>)
    ensures |r| == Used(files)
  {
    if files == [] then []
    else Links(Init(files)) + ChainLinks(FIRST_CLUSTER + Used(Init(files)), Clusters(|Last(files).content|))
  }

  /** `sector_data` for cluster `i` of a file: bytes
      [i*512, min((i+1)*512, len)) of the content, zero-filled to a sector. */
  function SectorData(content: seq<byte>, i: nat): (r: seq<byte>)
    requires i < Clusters(|content|)
    ensures |r| == SECTOR_BYTES
  {
    var start := i * SECTOR_BYTES;
    var end := if (i + 1) * SECTOR_BYTES < |content| then (i + 1) * SECTOR_BYTES else |content|;
    content[start..end] + Zeros(SECTOR_BYTES - (end - start))
  }

  /** All data sectors of a file: its content followed by zeros up to the
      end of its last sector. */
  ghost function Padded(content: seq<byte>): (r: seq<byte>)
    ensures |r| == Clusters(|content|) * SECTOR_BYTES
  {
    content + Zeros(Clusters(|content|) * SECTOR_BYTES - |content|)
  }

  /** The data area from cluster 2 on, after allocating `files`. */
  ghost function Data(files: seq<FileSpec>): (r: seq<byte>)
    ensures |r| == Used(files) * SECTOR_BYTES
  {
    if files == [] then [] else Data(Init(files)) + Padded(Last(files).content)
  }

  /** Allocating one more file advances the counter by that file's cluster
      count. */
  lemma UsedStep(files: seq<FileSpec>, j: nat)
    requires j < |files|
    ensures Used(files[..j + 1]) == Used(files[..j]) + Clusters(|files[j].content|)
  {
    assert Init(files[..j + 1]) == files[..j];
  }

  /** The counter never goes back. */
  lemma {:induction false} UsedPrefix(files: seq<FileSpec>, k: nat)
    requires k <= |files|
    ensures Used(files[..k]) <= Used(files)
    decreases |files|
  {
    if k < |files| {
      assert files[..k] == Init(files)[..k];
      UsedPrefix(Init(files), k);
    } else {
      assert files[..k] == files;
    }
  }

  /** Chains of different files never share a cluster: the chain of file `j`
      ends before the chain of any later file `k` starts. */
  lemma ChainsDisjoint(files: seq<FileSpec>, j: nat, k: nat)
    requires j < k < |files|
    ensures FIRST_CLUSTER + Used(files[..j]) + Clusters(|files[j].content|) <= FIRST_CLUSTER + Used(files[..k])
  {
    UsedStep(files, j);
    UsedPrefix(files[..k], j + 1);
    assert files[..k][..j + 1] == files[..j + 1];
  }

  lemma {:induction false} LinksPrefix(files: seq<FileSpec>, k: nat)
    requires k <= |files|
    ensures Links(files[..k]) <= Links(files)
    decreases |files|
  {
    if k < |files| {
      assert files[..k] == Init(files)[..k];
      LinksPrefix(Init(files), k);
    } else {
      assert files[..k] == files;
    }
  }

  /** The FAT chain of file `j`: its cluster `i` links to the next cluster,
      and its last cluster holds the end-of-chain marker. */
  lemma LinksAt(files: seq<FileSpec>, j: nat, i: nat)
    requires j < |files| && i < Clusters(|files[j].content|)
    ensures Used(files[..j]) + i < Used(files)
    ensures var n, first := Clusters(|files[j].content|), FIRST_CLUSTER + Used(files[..j]);
      Links(files)[Used(files[..j]) + i] == if i < n - 1 then first + i + 1 else Fat12.END_OF_CHAIN
  {
    var p := files[..j + 1];
    assert Init(p) == files[..j] && Last(p) == files[j];
    LinksPrefix(files, j + 1);
    UsedPrefix(files, j + 1);
    assert Links(files)[Used(files[..j]) + i] == Links(p)[Used(files[..j]) + i];
  }

  /** Sector `i` of a file, as the allocation loop cuts it, is the `i`-th
      512-byte slice of the zero-padded content. */
  lemma SectorDataIsSlice(content: seq<byte>, i: nat)
    requires i < Clusters(|content|)
    ensures (i + 1) * SECTOR_BYTES <= |Padded(content)|
    ensures SectorData(content, i) == Padded(content)[i * SECTOR_BYTES..(i + 1) * SECTOR_BYTES]
  {
    var p := Padded(content);
    var s := SectorData(content, i);
    forall x | 0 <= x < SECTOR_BYTES
      ensures s[x] == p[i * SECTOR_BYTES + x]
    {
    }
  }

  lemma {:induction false} DataPrefix(files: seq<FileSpec>, k: nat)
    requires k <= |files|
    ensures Data(files[..k]) <= Data(files)
    decreases |files|
  {
    if k < |files| {
      assert files[..k] == Init(files)[..k];
      DataPrefix(Init(files), k);
    } else {
      assert files[..k] == files;
    }
  }

  /** Cluster FIRST_CLUSTER + Used(files[..j]) + i of the data area holds
      sector `i` of file `j`. */
  lemma DataAt(files: seq<FileSpec>, j: nat, i: nat)
    requires j < |files| && i < Clusters(|files[j].content|)
    ensures (Used(files[..j]) + i + 1) * SECTOR_BYTES <= |Data(files)|
    ensures Data(files)[(Used(files[..j]) + i) * SECTOR_BYTES..(Used(files[..j]) + i + 1) * SECTOR_BYTES]
         == SectorData(files[j].content, i)
  {
    var p := files[..j + 1];
    assert Init(p) == files[..j] && Last(p) == files[j];
    DataPrefix(files, j + 1);
    UsedPrefix(files, j + 1);
    var c := files[j].content;
    SectorDataIsSlice(c, i);
    SectorOfPrefix(Data(files), Data(files[..j]), Padded(c), Used(files[..j]), i);
  }

  /** Sector `i` of the part `mid` behind `u` sectors `pre`, found in `whole`. */
  lemma SectorOfPrefix(whole: seq<byte>, pre: seq<byte>, mid: seq<byte>, u: nat, i: nat)
    requires pre + mid <= whole && |pre| == u * SECTOR_BYTES && (i + 1) * SECTOR_BYTES <= |mid|
    ensures (u + i + 1) * SECTOR_BYTES <= |whole|
    ensures whole[(u + i) * SECTOR_BYTES..(u + i + 1) * SECTOR_BYTES] == mid[i * SECTOR_BYTES..(i + 1) * SECTOR_BYTES]
  {
    assert (u + i) * SECTOR_BYTES == u * SECTOR_BYTES + i * SECTOR_BYTES;
    assert (u + i + 1) * SECTOR_BYTES == u * SECTOR_BYTES + (i + 1) * SECTOR_BYTES;
    SliceInPrefix(whole, pre, mid, i * SECTOR_BYTES, (i + 1) * SECTOR_BYTES,
                  (u + i) * SECTOR_BYTES, (u + i + 1) * SECTOR_BYTES);
  }

  /** A zero-length file gets first cluster 0 and takes nothing: the
      counter, the chains and the data area stay as they were. */
  lemma EmptyFile(files: seq<FileSpec>, j: nat)
    requires j < |files| && files[j].content == []
    ensures FirstCluster(files[..j], files[j]) == 0
    ensures Used(files[..j + 1]) == Used(files[..j])
    ensures Links(files[..j + 1]) == Links(files[..j])
    ensures Data(files[..j + 1]) == Data(files[..j])
  {
    var p := files[..j + 1];
    assert Init(p) == files[..j] && Last(p) == files[j];
    assert Padded([]) == [];
    assert ChainLinks(FIRST_CLUSTER + Used(files[..j]), 0) == [];
  }

  /** A 513-byte file takes two clusters: the first links to the second, the
      second ends the chain. */
}
