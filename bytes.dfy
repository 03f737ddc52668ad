/** Byte-level building blocks shared by the encoders: the byte type, runs of
    zero bytes, same-length slice assignment (`buf[a:a+len(src)] = src` on a
    Python bytearray) and the little-endian packing of `struct.pack_into`. */
module Bytes {

  /** One octet, as stored in a bytearray. */
  newtype byte = x: int | 0 <= x < 256

  /** `n` zero bytes, the contents of a fresh `bytearray(n)`. */
  function Zeros(n: nat): (z: seq<byte>)
    ensures |z| == n
  {
    seq(n, _ => 0)
  }

  predicate AllZero(s: seq<byte>)
  {
    forall i :: 0 <= i < |s| ==> s[i] == 0
  }

  lemma ZerosAreZero(n: nat)
    ensures AllZero(Zeros(n))
  {
  }

  lemma ZerosConcat(a: nat, b: nat)
    ensures Zeros(a) + Zeros(b) == Zeros(a + b)
  {
    assert forall i :: 0 <= i < a + b ==> (Zeros(a) + Zeros(b))[i] == 0;
  }

  /** `s` with `src` written over it from offset `at`: a slice assignment whose
      slice is exactly as long as the value assigned, so the buffer keeps its
      length. */
  function Overwrite(s: seq<byte>, at: nat, src: seq<byte>): (r: seq<byte>)
    requires at + |src| <= |s|
    ensures |r| == |s|
    ensures forall x :: 0 <= x < |s| ==> r[x] == if at <= x < at + |src| then src[x - at] else s[x]
  {
    s[..at] + src + s[at + |src|..]
  }

  /** Writing into a run of zeros splits the run around what was written. */
  lemma {:induction false} OverwriteGap(a: seq<byte>, k: nat, b: seq<byte>, p: nat, src: seq<byte>)
    requires p + |src| <= k
    ensures Overwrite(a + Zeros(k) + b, |a| + p, src) == a + Zeros(p) + src + Zeros(k - p - |src|) + b
  {
    var lhs := Overwrite(a + Zeros(k) + b, |a| + p, src);
    var rhs := a + Zeros(p) + src + Zeros(k - p - |src|) + b;
    assert |lhs| == |rhs|;
    forall x | 0 <= x < |lhs|
      ensures lhs[x] == rhs[x]
    {
      if x < |a| {
      } else if x < |a| + p {
      } else if x < |a| + p + |src| {
      } else if x < |a| + k {
      } else {
      }
    }
  }

  /** Writing at the start of a trailing run of zeros appends. */
  lemma OverwriteTail(a: seq<byte>, k: nat, src: seq<byte>)
    requires |src| <= k
    ensures Overwrite(a + Zeros(k), |a|, src) == a + src + Zeros(k - |src|)
  {
    OverwriteGap(a, k, [], 0, src);
    assert a + Zeros(k) + [] == a + Zeros(k);
    assert Zeros(0) == [];
  }

  /** The same, with the written part named as the growth of `d`. */
  lemma GrowIntoZeros(h: seq<byte>, d: seq<byte>, k: nat, src: seq<byte>, d': seq<byte>, k': nat)
    requires |src| <= k && d' == d + src && k' == k - |src|
    ensures Overwrite(h + d + Zeros(k), |h| + |d|, src) == h + d' + Zeros(k')
  {
    OverwriteTail(h + d, k, src);
    assert h + d + src == h + d';
  }

  /** Adjacent slices put together. */
  lemma SliceConcat(s: seq<byte>, a: nat, b: nat)
    requires a <= b <= |s|
    ensures s[..a] + s[a..b] == s[..b]
  {
  }

  lemma PrefixTrans(a: seq<byte>, b: seq<byte>, c: seq<byte>)
    requires a <= b && b <= c
    ensures a <= c
  {
  }

  /** A slice of the part `mid` of a prefix `pre + mid` of `whole`: bytes
      [lo, hi) of `mid` are bytes [from, to) of `whole`. */
  lemma SliceInPrefix(whole: seq<byte>, pre: seq<byte>, mid: seq<byte>, lo: nat, hi: nat, from: nat, to: nat)
    requires pre + mid <= whole && lo <= hi <= |mid| && from == |pre| + lo && to == |pre| + hi
    ensures to <= |whole| && whole[from..to] == mid[lo..hi]
    ensures lo == 0 && hi == |mid| ==> whole[from..to] == mid
  {
    assert forall x :: from <= x < to ==> whole[x] == (pre + mid)[x];
  }

  /** A slice of a part `p` that starts the slice `s[at..end]` of `s`. */
  lemma SliceOfMid(s: seq<byte>, at: nat, end: nat, region: seq<byte>, p: seq<byte>, lo: nat, hi: nat, from: nat, to: nat)
    requires at <= end <= |s| && s[at..end] == region && p <= region && lo <= hi <= |p|
    requires from == at + lo && to == at + hi
    ensures from <= to <= end && s[from..to] == p[lo..hi]
  {
    assert forall k :: from <= k < to ==> s[k] == region[k - at] == p[k - at];
  }

  /** The five parts of a concatenation, read back by slicing. */
  lemma FiveParts(a: seq<byte>, b: seq<byte>, c: seq<byte>, d: seq<byte>, e: seq<byte>)
    ensures var s, i, j, k, m := a + b + c + d + e, |a|, |a| + |b|, |a| + |b| + |c|, |a| + |b| + |c| + |d|;
      s[..i] == a && s[i..j] == b && s[j..k] == c && s[k..m] == d && s[m..] == e
  {
    var s := a + b + c + d + e;
    var i, j, k, m := |a|, |a| + |b|, |a| + |b| + |c|, |a| + |b| + |c| + |d|;
    assert s[..i] == a;
    assert s[i..j] == b;
    assert s[j..k] == c;
    assert s[k..m] == d;
    assert s[m..] == e;
  }

  /** Two writes side by side are one write of their concatenation. */
  lemma OverwriteAppend(s: seq<byte>, at: nat, x: seq<byte>, y: seq<byte>)
    requires at + |x| + |y| <= |s|
    ensures Overwrite(Overwrite(s, at, x), at + |x|, y) == Overwrite(s, at, x + y)
  {
    var lhs, rhs := Overwrite(Overwrite(s, at, x), at + |x|, y), Overwrite(s, at, x + y);
    assert forall i :: 0 <= i < |s| ==> lhs[i] == rhs[i];
  }

  lemma OverwriteNothing(s: seq<byte>, at: nat)
    requires at <= |s|
    ensures Overwrite(s, at, []) == s
  {
    assert forall i :: 0 <= i < |s| ==> Overwrite(s, at, [])[i] == s[i];
  }

  /** The in-place slice assignment on a buffer. */
  method CopyInto(dst: array<byte>, at: nat, src: seq<byte>)
    requires at + |src| <= dst.Length
    modifies dst
    ensures dst[..] == Overwrite(old(dst[..]), at, src)
  {
    var k := 0;
    while k < |src|
      invariant 0 <= k <= |src|
      invariant forall x :: 0 <= x < dst.Length ==>
        dst[x] == if at <= x < at + k then src[x - at] else old(dst[x])
    {
      dst[at + k] := src[k];
      k := k + 1;
    }
    assert dst[..] == Overwrite(old(dst[..]), at, src);
  }

  /** The unsigned little-endian value of a byte string (what
      `struct.unpack_from('<H' / '<I', ...)` reads back). */
  function FromLe(s: seq<byte>): nat
  {
    if s == [] then 0 else s[0] as int + 256 * FromLe(s[1..])
  }

  /** `struct.pack('<H', x)`: two bytes, low byte first. */
  function Le16(x: nat): (r: seq<byte>)
    requires x < 0x1_0000
    ensures |r| == 2
  {
    [(x % 0x100) as byte, (x / 0x100) as byte]
  }

  /** `struct.pack('<I', x)`: four bytes, least significant first. */
  function Le32(x: nat): (r: seq<byte>)
    requires x < 0x1_0000_0000
    ensures |r| == 4
  {
    Le16(x % 0x1_0000) + Le16(x / 0x1_0000)
  }

  lemma {:induction false} Le16RoundTrip(x: nat)
    requires x < 0x1_0000
    ensures FromLe(Le16(x)) == x
  {
    var r := Le16(x);
    assert r[1..][1..] == [];
    assert FromLe(r[1..]) == r[1] as int;
  }

  lemma {:induction false} Le16OfFromLe(s: seq<byte>)
    requires |s| == 2
    ensures FromLe(s) < 0x1_0000 && Le16(FromLe(s)) == s
  {
    assert s[1..][1..] == [];
    assert FromLe(s[1..]) == s[1] as int;
  }

  /** Two low bytes in front of a little-endian number shift it by 16 bits. */
  lemma {:induction false} FromLeAfterTwo(a: seq<byte>, b: seq<byte>)
    requires |a| == 2
    ensures FromLe(a + b) == FromLe(a) + 0x1_0000 * FromLe(b)
  {
    var ab := a + b;
    assert ab[1..][1..] == b;
    assert FromLe(ab[1..]) == a[1] as int + 256 * FromLe(b);
    assert a[1..][1..] == [];
    assert FromLe(a[1..]) == a[1] as int;
  }

  lemma {:induction false} Le32RoundTrip(x: nat)
    requires x < 0x1_0000_0000
    ensures FromLe(Le32(x)) == x
  {
    FromLeAfterTwo(Le16(x % 0x1_0000), Le16(x / 0x1_0000));
    Le16RoundTrip(x % 0x1_0000);
    Le16RoundTrip(x / 0x1_0000);
  }
}
