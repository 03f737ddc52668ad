/** FAT12 allocation-table codec (create_disk_image.py, lines 72-101).
    Entries are 12 bits wide and two consecutive entries share three bytes:
    entry N lives in the little-endian 16-bit word at byte offset N + N/2, in
    bits 0-11 of that word when N is even and in bits 4-15 when N is odd. */
module Fat12 {
  import opened Bytes

  /** Entry 0 holds the media descriptor pattern, entry 1 (and the last
      cluster of every chain) the end-of-chain marker. */
  const MEDIA_ENTRY := 0xFF0
  const END_OF_CHAIN := 0xFFF

  /** Byte offset of entry `n`. */
  function Offset(n: nat): nat
  {
    n + n / 2
  }

  /** Entries are 12 bits wide, so entry `n` starts in byte 12n / 8. */
  lemma OffsetOfBits(n: nat)
    ensures Offset(n) == 12 * n / 8
  {
    var q, r := n / 2, n % 2;
    assert n == 2 * q + r;
    assert 12 * n == 8 * (3 * q + r) + 4 * r;
  }

  /** The writer's bound check: both bytes of the word must lie in the table. */
  predicate InRange(len: nat, n: nat)
  {
    Offset(n) + 1 < len
  }

  /** The little-endian 16-bit word at `o`. */
  function Word(t: seq<byte>, o: nat): (w: nat)
    requires o + 1 < |t|
    ensures w < 0x1_0000
  {
    t[o] as int + 256 * t[o + 1] as int
  }

  /** The word is the little-endian value of the two bytes at `o`, the
      `'<H'` format of `struct.unpack_from`. */
  lemma WordIsLe(t: seq<byte>, o: nat)
    requires o + 1 < |t|
    ensures Word(t, o) == FromLe(t[o..o + 2])
  {
    var s := t[o..o + 2];
    assert s[1..] == [t[o + 1]] && s[1..][1..] == [];
    assert FromLe(s[1..]) == t[o + 1] as int + 256 * FromLe(s[1..][1..]);
  }

  /** The word after entry `n` is set to `v`. For even `n` this is
      (w & 0xF000) | (v & 0x0FFF), for odd `n` it is
      (w & 0x000F) | ((v & 0x0FFF) << 4); the masks select disjoint bits, so
      the OR is an addition. `v % 0x1000` is `v & 0x0FFF` for every integer,
      negative ones included, since Dafny's `%` never yields a negative
      remainder. */
  function Packed(w: nat, n: nat, v: int): (p: nat)
    requires w < 0x1_0000
    ensures p < 0x1_0000
  {
    if n % 2 == 0 then (w / 0x1000) * 0x1000 + v % 0x1000
    else w % 0x10 + (v % 0x1000) * 0x10
  }

  /** The table after `write_fat_entry(t, n, v)`. Out of range, the write is
      refused and the table is returned as it was. In range, only the two
      bytes of entry `n`'s word change, and of those the nibble that belongs
      to the neighbouring entry keeps its value. */
  function SetEntry(t: seq<byte>, n: nat, v: int): (r: seq<byte>)
    ensures |r| == |t|
    ensures !InRange(|t|, n) ==> r == t
    ensures InRange(|t|, n) ==>
      forall k :: 0 <= k < |t| && k != Offset(n) && k != Offset(n) + 1 ==> r[k] == t[k]
    ensures InRange(|t|, n) && n % 2 == 0 ==> r[Offset(n) + 1] / 0x10 == t[Offset(n) + 1] / 0x10
    ensures InRange(|t|, n) && n % 2 == 1 ==> r[Offset(n)] % 0x10 == t[Offset(n)] % 0x10
  {
    if !InRange(|t|, n) then t
    else
      var o := Offset(n);
      var p := Packed(Word(t, o), n, v);
      KeptNibble(t[o] as int, t[o + 1] as int, n, v);
      t[o := (p % 0x100) as byte][o + 1 := (p / 0x100) as byte]
  }

  /** The arithmetic behind the kept nibble: the high nibble of the word's
      upper byte survives an even write, the low nibble of its lower byte an
      odd one. */
  lemma KeptNibble(a: nat, b: nat, n: nat, v: int)
    requires a < 0x100 && b < 0x100
    ensures var p := Packed(a + 256 * b, n, v);
      (n % 2 == 0 ==> p / 0x100 / 0x10 == b / 0x10) &&
      (n % 2 == 1 ==> p % 0x100 % 0x10 == a % 0x10)
  {
    var x := v % 0x1000;
    if n % 2 == 0 {
      HighBits(a, b);
      HighNibbleOfSum(b / 0x10, x);
    } else {
      LowNibble(a, b);
      LowNibbleOfSum(a, x);
    }
  }

  lemma HighBits(a: nat, b: nat)
    requires a < 0x100 && b < 0x100
    ensures (a + 256 * b) / 0x1000 == b / 0x10
  {
    var q, s := b / 0x10, b % 0x10;
    assert b == 0x10 * q + s;
    assert a + 256 * b == 0x1000 * q + (256 * s + a);
  }

  lemma HighNibbleOfSum(q: nat, x: nat)
    requires x < 0x1000
    ensures (0x1000 * q + x) / 0x100 / 0x10 == q
  {
  }

  lemma LowNibble(a: nat, b: nat)
    requires a < 0x100 && b < 0x100
    ensures (a + 256 * b) % 0x10 == a % 0x10
  {
  }

  lemma LowNibbleOfSum(a: nat, x: nat)
    requires a < 0x100 && x < 0x1000
    ensures (a % 0x10 + 0x10 * x) % 0x100 % 0x10 == a % 0x10
  {
  }

  /** Decoding the upper 12 bits of a word depends on its low byte only
      through that byte's high nibble. */
  lemma UpperTwelve(x: nat, y: nat)
    requires x < 0x100 && y < 0x100
    ensures (x + 256 * y) / 0x10 == x / 0x10 + 0x10 * y
  {
  }

  /** Decoding the lower 12 bits of a word depends on its high byte only
      through that byte's low nibble. */
  lemma LowerTwelve(x: nat, y: nat)
    requires x < 0x100 && y < 0x100
    ensures (x + 256 * y) % 0x1000 == x + 256 * (y % 0x10)
  {
    var q, s := y / 0x10, y % 0x10;
    assert y == 0x10 * q + s;
    assert x + 256 * y == 0x1000 * q + (x + 256 * s);
  }

  /** Consecutive entries start one byte apart after an even entry and two
      bytes apart after an odd one. */
  lemma OffsetStep(n: nat)
    ensures Offset(n + 1) == Offset(n) + (if n % 2 == 0 then 1 else 2)
  {
  }

  lemma {:induction false} OffsetGap(n: nat, m: nat)
    requires n + 2 <= m
    ensures Offset(n) + 3 <= Offset(m)
    decreases m - n
  {
    OffsetStep(n);
    OffsetStep(n + 1);
    if n + 2 < m {
      OffsetGap(n + 1, m);
      OffsetStep(n);
    }
  }

  /** The value of entry `n`: the reader the writer is the inverse of. */
  ghost function ReadEntry(t: seq<byte>, n: nat): (e: nat)
    requires InRange(|t|, n)
    ensures e < 0x1000
  {
    var w := Word(t, Offset(n));
    if n % 2 == 0 then w % 0x1000 else w / 0x10
  }

  /** `write_fat_entry`: read-modify-write of the word holding entry `n`. The
      result says whether the write was accepted; a refused write leaves the
      table untouched. */
  method WriteFatEntry(fat: array<byte>, n: nat, value: int) returns (written: bool)
    modifies fat
    ensures written == InRange(fat.Length, n)
    ensures fat[..] == SetEntry(old(fat[..]), n, value)
  {
    var o := n + n / 2;
    if o + 1 >= fat.Length {
      return false;
    }
    ghost var t := fat[..];
    var packed := fat[o] as int + 256 * fat[o + 1] as int;
    assert packed == Word(t, Offset(n));
    if n % 2 == 0 {
      packed := (packed / 0x1000) * 0x1000 + value % 0x1000;
    } else {
      packed := packed % 0x10 + (value % 0x1000) * 0x10;
    }
    assert packed == Packed(Word(t, Offset(n)), n, value);
    fat[o] := (packed % 0x100) as byte;
    fat[o + 1] := (packed / 0x100) as byte;
    assert fat[..] == t[o := (packed % 0x100) as byte][o + 1 := (packed / 0x100) as byte];
    return true;
  }

  /** Writing an entry and reading it back yields the value masked to 12 bits. */
  lemma ReadAfterWrite(t: seq<byte>, n: nat, v: int)
    requires InRange(|t|, n)
    ensures ReadEntry(SetEntry(t, n, v), n) == v % 0x1000
  {
    var o := Offset(n);
    var w := Word(t, o);
    var p := Packed(w, n, v);
    var r := SetEntry(t, n, v);
    assert r[o] == (p % 0x100) as byte && r[o + 1] == (p / 0x100) as byte;
    ByteSplit(p);
    assert Word(r, o) == p;
    if n % 2 == 0 {
      EvenRead(w / 0x1000, v % 0x1000);
    } else {
      OddRead(w % 0x10, v % 0x1000);
    }
  }

  /** A 16-bit word is its low byte plus 256 times its high byte. */
  lemma ByteSplit(p: nat)
    ensures p % 0x100 + 256 * (p / 0x100) == p
  {
  }

  /** Reading an even entry recovers the 12 bits written below a kept high
      nibble. */
  lemma EvenRead(q: nat, x: nat)
    requires x < 0x1000
    ensures (q * 0x1000 + x) % 0x1000 == x
  {
  }

  /** Reading an odd entry recovers the 12 bits written above a kept low
      nibble. */
  lemma OddRead(a: nat, x: nat)
    requires a < 0x10
    ensures (a + x * 0x10) / 0x10 == x
  {
  }

  /** Writing entry `n` leaves every other entry as it was, including the
      neighbour that shares a byte with it. */
  lemma ReadOtherEntry(t: seq<byte>, n: nat, m: nat, v: int)
    requires InRange(|t|, n) && InRange(|t|, m) && m != n
    ensures ReadEntry(SetEntry(t, n, v), m) == ReadEntry(t, m)
  {
    var r := SetEntry(t, n, v);
    var o, q := Offset(n), Offset(m);
    if n % 2 == 0 && m == n + 1 {
      OffsetStep(n);
      assert r[q + 1] == t[q + 1];
      UpperTwelve(r[q] as int, r[q + 1] as int);
      UpperTwelve(t[q] as int, t[q + 1] as int);
    } else if n % 2 == 1 && m == n - 1 {
      OffsetStep(m);
      assert r[q] == t[q];
      LowerTwelve(r[q] as int, r[o] as int);
      LowerTwelve(t[q] as int, t[o] as int);
    } else {
      if m < n {
        if m + 1 == n {
          OffsetStep(m);
        } else {
          OffsetGap(m, n);
        }
      } else {
        if n + 1 == m {
          OffsetStep(n);
        } else {
          OffsetGap(n, m);
        }
      }
      assert r[q] == t[q] && r[q + 1] == t[q + 1];
    }
  }

  /** One write seen through the reader: entry `m` now holds the 12-bit
      value `v`, and every other entry is unchanged. */
  lemma ReadAfterSet(t: seq<byte>, m: nat, v: int, c: nat)
    requires InRange(|t|, m) && InRange(|t|, c) && 0 <= v < 0x1000
    ensures ReadEntry(SetEntry(t, m, v), c) == if c == m then v else ReadEntry(t, c)
  {
    if c == m {
      ReadAfterWrite(t, m, v);
    } else {
      ReadOtherEntry(t, m, c, v);
    }
  }

  /** A zero-filled table reads as all-free entries. */
  lemma ZeroTableIsFree(len: nat, n: nat)
    requires InRange(len, n)
    ensures ReadEntry(Zeros(len), n) == 0
  {
  }

  /** The writer's bound check on the 4608-byte FAT of the floppy (9 sectors
      of 512 bytes) accepts exactly the cluster numbers 0 to 3071. */
  lemma FloppyFatCapacity(n: nat)
    ensures InRange(9 * 512, n) <==> n < 3072
  {
  }
}
