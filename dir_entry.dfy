/** The 32-byte FAT directory record (create_disk_image.py, lines 41-70):
    8.3 name, attribute byte, first cluster and file size. */
module DirEntry {
  import opened Bytes

  const ENTRY_BYTES := 32

  predicate IsAscii(s: string)
  {
    forall i :: 0 <= i < |s| ==> s[i] < 128 as char
  }

  /** The text before the first '.', i.e. `s.split('.')[0]`. */
  function BaseName(s: string): (r: string)
    ensures r <= s && '.' !in r
    ensures |r| == |s| || s[|r|] == '.'
  {
    if s == [] || s[0] == '.' then [] else [s[0]] + BaseName(s[1..])
  }

  /** `s.ljust(w, ' ')[:w]`: padded with spaces or cut to exactly `w`. */
  function Fit(s: string, w: nat): (r: string)
    ensures |r| == w
    ensures forall i :: 0 <= i < w ==> r[i] == if i < |s| then s[i] else ' '
  {
    if |s| >= w then s[..w] else s + seq(w - |s|, _ => ' ')
  }

  /** `str.upper()` on ASCII: only 'a'..'z' change. */
  function UpperChar(c: char): char
  {
    if 'a' <= c <= 'z' then (c as int - 32) as char else c
  }

  function Upper(s: string): (r: string)
    ensures |r| == |s| && forall i :: 0 <= i < |s| ==> r[i] == UpperChar(s[i])
  {
    seq(|s|, i requires 0 <= i < |s| => UpperChar(s[i]))
  }

  /** Bytes 0-7: the base name, fitted to 8 and upper-cased. */
  function NameField(filename: string): (r: string)
    ensures |r| == 8
    ensures forall i :: 0 <= i < 8 ==>
      r[i] == if i < |BaseName(filename)| then UpperChar(filename[i]) else ' '
  {
    Upper(Fit(BaseName(filename), 8))
  }

  /** Bytes 8-10: the text between the first and the second '.', fitted to 3
      and upper-cased; three spaces when the name has no '.'. */
  function ExtField(filename: string): (r: string)
    ensures |r| == 3
    ensures '.' !in filename ==> r == "   "
    ensures '.' in filename ==>
      var rest := filename[|BaseName(filename)| + 1..];
      forall i :: 0 <= i < 3 ==> r[i] == if i < |BaseName(rest)| then UpperChar(rest[i]) else ' '
  {
    var base := BaseName(filename);
    if |base| < |filename| then Upper(Fit(BaseName(filename[|base| + 1..]), 3)) else "   "
  }

  /** `str.encode('ascii')`. */
  function Ascii(s: string): (r: seq<byte>)
    requires IsAscii(s)
    ensures |r| == |s| && forall i :: 0 <= i < |s| ==> r[i] as int == s[i] as int
  {
    seq(|s|, i requires 0 <= i < |s| => s[i] as int as byte)
  }

  lemma {:induction false} FieldsAreAscii(filename: string)
    requires IsAscii(filename)
    ensures IsAscii(NameField(filename)) && IsAscii(ExtField(filename))
  {
    var base := BaseName(filename);
    if |base| < |filename| {
      var rest := filename[|base| + 1..];
      assert forall i :: 0 <= i < |BaseName(rest)| ==> BaseName(rest)[i] == rest[i];
    }
  }

  /** `create_fat_dir_entry`. The first cluster and the size must fit the
      16- and 32-bit fields `struct.pack_into` writes them to, and the name
      must be ASCII for `encode('ascii')` to succeed. */
  function Encode(filename: string, attributes: byte, firstCluster: nat, size: nat): (r: seq<byte>)
    requires IsAscii(filename)
    requires firstCluster < 0x1_0000 && size < 0x1_0000_0000
    ensures |r| == ENTRY_BYTES
    ensures forall i :: 0 <= i < 8 ==> r[i] as int == NameField(filename)[i] as int
    ensures forall i :: 0 <= i < 3 ==> r[8 + i] as int == ExtField(filename)[i] as int
    ensures r[11] == attributes
    ensures AllZero(r[12..26])
    ensures FromLe(r[26..28]) == firstCluster
    ensures FromLe(r[28..32]) == size
  {
    FieldsAreAscii(filename);
    var a, e := Ascii(NameField(filename)), Ascii(ExtField(filename));
    var c, s := Le16(firstCluster), Le32(size);
    RecordBytes(a, e, attributes, Zeros(14), c, s);
    ZerosAreZero(14);
    Le16RoundTrip(firstCluster);
    Le32RoundTrip(size);
    a + e + [attributes] + Zeros(14) + c + s
  }

  /** Where each field lands in the concatenated record. */
  lemma RecordBytes(a: seq<byte>, e: seq<byte>, attributes: byte, z: seq<byte>, c: seq<byte>, s: seq<byte>)
    requires |a| == 8 && |e| == 3 && |z| == 14 && |c| == 2 && |s| == 4
    ensures var r := a + e + [attributes] + z + c + s;
      |r| == ENTRY_BYTES &&
      (forall i :: 0 <= i < 8 ==> r[i] == a[i]) &&
      (forall i :: 0 <= i < 3 ==> r[8 + i] == e[i]) &&
      r[11] == attributes && r[12..26] == z && r[26..28] == c && r[28..32] == s
  {
    var r := a + e + [attributes] + z + c + s;
    assert r[12..26] == z;
    assert r[26..28] == c;
    assert r[28..32] == s;
  }

  /** The 8.3 fields of the example name "HI.TXT". */
  lemma HiTxtFields()
    ensures NameField("HI.TXT") == "HI      " && ExtField("HI.TXT") == "TXT"
  {
    var f := "HI.TXT";
    assert f[1..][1..] == ".TXT";
    assert BaseName(f) == "HI";
    var rest := f[3..];
    assert rest == "TXT";
    assert rest[1..][1..][1..] == [];
    assert BaseName(rest) == "TXT";
  }

  /** Splitting on the first '.': a dot-free prefix followed by '.' is the
      base name, whatever follows. */
  lemma {:induction false} SplitAtFirstDot(a: string, b: string)
    requires '.' !in a
    ensures BaseName(a + "." + b) == a
  {
    var s := a + "." + b;
    if a != [] {
      assert s[0] == a[0] && s[1..] == a[1..] + "." + b;
      SplitAtFirstDot(a[1..], b);
    }
  }
}
