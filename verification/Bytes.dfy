/**
 Bytes, little-endian words and 32-bit conversions (include/nop/arch/i386/types.h, lib/endian.c).

 Memory is a flat sequence of bytes indexed by address.  Words are four bytes, least significant
 first, at any address.
 */
module Bytes {

  newtype byte = x: int | 0 <= x < 256

  const TWO_31 := 0x8000_0000
  const TWO_32 := 0x1_0000_0000

  function Min(x: int, y: int): int {
    if x <= y then x else y
  }

  function Max(x: int, y: int): int {
    if x >= y then x else y
  }

  function Abs(x: int): nat {
    if x < 0 then -x else x
  }

  function Pow(b: nat, n: nat): (p: nat)
    ensures b > 0 ==> p > 0
  {
    if n == 0 then 1 else b * Pow(b, n - 1)
  }

  /** The C cast from a 32-bit unsigned to a 32-bit signed integer, and back. */
  function ToSigned(u: int): int {
    if u < TWO_31 then u else u - TWO_32
  }

  function ToUnsigned(i: int): int {
    if i < 0 then i + TWO_32 else i
  }

  /** Quotient and remainder are determined by their defining equation. */
  lemma ModUnique(v: int, m: int, q: int, r: int)
    requires 0 <= r < m && v == m * q + r
    ensures v % m == r && v / m == q
  {
    var d := v / m - q;
    assert m * d == r - v % m;
    assert d >= 1 ==> m * d >= m;
    assert d <= -1 ==> m * d <= -m;
  }

  // ----- Little-endian numbers -----

  function LEBytes(v: nat, n: nat): (s: seq<byte>)
    ensures |s| == n
    decreases n
  {
    if n == 0 then [] else [(v % 256) as byte] + LEBytes(v / 256, n - 1)
  }

  function LEValue(s: seq<byte>): (v: nat) {
    if s == [] then 0 else s[0] as int + 256 * LEValue(s[1..])
  }

  lemma QuotientBound(v: nat, p: nat)
    requires v < 256 * p
    ensures v / 256 < p
  {
  }

  lemma {:induction false} LEValueOfBytes(v: nat, n: nat)
    requires v < Pow(256, n)
    ensures LEValue(LEBytes(v, n)) == v
    decreases n
  {
    if n == 0 {
    } else {
      QuotientBound(v, Pow(256, n - 1));
      LEValueOfBytes(v / 256, n - 1);
      assert LEBytes(v, n)[1..] == LEBytes(v / 256, n - 1);
    }
  }

  lemma QuotientRemainder(x: int, y: int)
    requires 0 <= x < 256
    ensures (x + 256 * y) % 256 == x && (x + 256 * y) / 256 == y
  {
  }

  lemma {:induction false} LEBytesOfValue(s: seq<byte>)
    ensures LEBytes(LEValue(s), |s|) == s
  {
    if s == [] {
    } else {
      LEBytesOfValue(s[1..]);
      QuotientRemainder(s[0] as int, LEValue(s[1..]));
    }
  }

  lemma Pow256Of4()
    ensures Pow(256, 4) == TWO_32
  {
    assert Pow(256, 1) == 256;
    assert Pow(256, 2) == 65536;
    assert Pow(256, 3) == 16777216;
  }

  /** The first byte counts least. */
  lemma FourBytes(s: seq<byte>)
    requires |s| == 4
    ensures LEValue(s) == s[0] as int + 0x100 * s[1] as int + 0x1_0000 * s[2] as int + 0x100_0000 * s[3] as int
  {
    assert LEValue(s[4..]) == 0;
    assert s[3..][1..] == s[4..] && s[2..][1..] == s[3..] && s[1..][1..] == s[2..];
    assert LEValue(s[3..]) == s[3] as int;
    assert LEValue(s[2..]) == s[2] as int + 256 * LEValue(s[3..]);
    assert LEValue(s[1..]) == s[1] as int + 256 * LEValue(s[2..]);
  }

  /** The casts keep the 32 bits, and give a number of their range. */
  lemma CastsKeepBits(u: nat, i: int)
    requires u < TWO_32 && -TWO_31 <= i < TWO_31
    ensures -TWO_31 <= ToSigned(u) < TWO_31 && (ToSigned(u) == u || ToSigned(u) == u - TWO_32)
    ensures 0 <= ToUnsigned(i) < TWO_32 && (ToUnsigned(i) == i || ToUnsigned(i) == i + TWO_32)
    ensures ToUnsigned(ToSigned(u)) == u && ToSigned(ToUnsigned(i)) == i
  {
  }

  // ----- Replacing a stretch of memory -----

  /** `m` with the elements from address `a` on replaced by `s`. */
  function Blit<T>(m: seq<T>, a: nat, s: seq<T>): (r: seq<T>)
    requires a + |s| <= |m|
    ensures |r| == |m|
  {
    m[..a] + s + m[a + |s|..]
  }

  /** The two memories hold the same elements from `lo` up to `hi`. */
  ghost predicate Agree<T>(m: seq<T>, m': seq<T>, lo: int, hi: int)
    requires |m| == |m'|
  {
    forall k :: lo <= k < hi && 0 <= k < |m| ==> m'[k] == m[k]
  }

  /** The two memories hold the same elements everywhere except from `lo` up to `hi`. */
  ghost predicate AgreeOutside<T>(m: seq<T>, m': seq<T>, lo: int, hi: int)
  {
    |m| == |m'| && forall k :: 0 <= k < |m| && !(lo <= k < hi) ==> m'[k] == m[k]
  }

  lemma BlitNothing<T>(m: seq<T>, a: nat)
    requires a <= |m|
    ensures Blit(m, a, []) == m
  {
  }

  lemma BlitItself<T>(m: seq<T>, a: nat, n: nat)
    requires a + n <= |m|
    ensures Blit(m, a, m[a..a + n]) == m
  {
  }

  lemma BlitTwice<T>(m: seq<T>, a: nat, s: seq<T>, t: seq<T>)
    requires a + |s| + |t| <= |m|
    ensures Blit(Blit(m, a, s), a + |s|, t) == Blit(m, a, s + t)
  {
  }

  /** Laying bytes over a stretch of memory and putting it back changes these bytes only. */
  lemma PatchIsBlit<T>(m: seq<T>, a: nat, n: nat, k: nat, s: seq<T>)
    requires a + n <= |m| && k + |s| <= n
    ensures Blit(m, a, Blit(m[a..a + n], k, s)) == Blit(m, a + k, s)
  {
  }

  /** An element after two replacements, the second over the first. */
  lemma BlitOver<T>(m: seq<T>, a: nat, s: seq<T>, b: nat, t: seq<T>, i: nat)
    requires a + |s| <= |m| && b + |t| <= |m| && i < |m|
    ensures Blit(Blit(m, a, s), b, t)[i] ==
            if b <= i < b + |t| then t[i - b] else if a <= i < a + |s| then s[i - a] else m[i]
  {
  }

  lemma BlitOneMore<T>(m: seq<T>, a: nat, s: seq<T>, b: T)
    requires a + |s| < |m|
    ensures Blit(m, a, s)[a + |s| := b] == Blit(m, a, s + [b])
  {
  }

  lemma SliceOfSlice<T>(m: seq<T>, a: nat, b: nat, c: nat, d: nat)
    requires a <= b <= |m| && c <= d <= b - a
    ensures m[a..b][c..d] == m[a + c..a + d]
  {
    forall i | 0 <= i < d - c
      ensures m[a..b][c..d][i] == m[a + c..a + d][i]
    {
      assert m[a..b][c + i] == m[a + c + i];
    }
  }

  // ----- Words in memory -----

  function Load(m: seq<byte>, a: nat): (v: nat)
    requires a + 4 <= |m|
  {
    LEValue(m[a..a + 4])
  }

  function LoadSigned(m: seq<byte>, a: nat): int
    requires a + 4 <= |m|
  {
    ToSigned(Load(m, a))
  }

  function Store(m: seq<byte>, a: nat, v: nat): (r: seq<byte>)
    requires a + 4 <= |m|
    ensures |r| == |m|
  {
    Blit(m, a, LEBytes(v, 4))
  }

  function StoreSigned(m: seq<byte>, a: nat, i: int): (r: seq<byte>)
    requires a + 4 <= |m| && -TWO_31 <= i < TWO_31
    ensures |r| == |m|
  {
    Store(m, a, ToUnsigned(i))
  }

  /** A word stored at `a` is read back, and bytes outside the word keep their value. */
  lemma LoadOfStore(m: seq<byte>, a: nat, v: nat)
    requires a + 4 <= |m| && v < TWO_32
    ensures Load(Store(m, a, v), a) == v
    ensures AgreeOutside(m, Store(m, a, v), a, a + 4)
  {
    Pow256Of4();
    LEValueOfBytes(v, 4);
    assert Store(m, a, v)[a..a + 4] == LEBytes(v, 4);
  }

  lemma LoadOfStoreSigned(m: seq<byte>, a: nat, i: int)
    requires a + 4 <= |m| && -TWO_31 <= i < TWO_31
    ensures LoadSigned(StoreSigned(m, a, i), a) == i
    ensures AgreeOutside(m, StoreSigned(m, a, i), a, a + 4)
  {
    LoadOfStore(m, a, ToUnsigned(i));
  }

  lemma LoadOfAgree(m: seq<byte>, m': seq<byte>, a: nat)
    requires |m| == |m'| && a + 4 <= |m| && Agree(m, m', a, a + 4)
    ensures Load(m', a) == Load(m, a) && LoadSigned(m', a) == LoadSigned(m, a)
  {
    assert m[a..a + 4] == m'[a..a + 4];
  }

  /** Writes a word into memory one byte at a time. */
  method StoreWord(mem: array<byte>, a: nat, v: nat)
    requires a + 4 <= mem.Length
    modifies mem
    ensures mem[..] == Store(old(mem[..]), a, v)
  {
    var s := LEBytes(v, 4);
    mem[a] := s[0];
    mem[a + 1] := s[1];
    mem[a + 2] := s[2];
    mem[a + 3] := s[3];
    assert mem[..] == Store(old(mem[..]), a, v);
  }

  /** Copies bytes into a buffer. */
  method CopyInto(buffer: array<byte>, to: nat, bytes: seq<byte>)
    requires to + |bytes| <= buffer.Length
    modifies buffer
    ensures buffer[..] == Blit(old(buffer[..]), to, bytes)
  {
    forall i | 0 <= i < |bytes| {
      buffer[to + i] := bytes[i];
    }
    assert buffer[..] == Blit(old(buffer[..]), to, bytes);
  }
}
