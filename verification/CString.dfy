/**
 The memory and string functions of lib/string.c, on a flat memory indexed by address.
 */
module CString {
  import opened Bytes

  // ----- Copying -----

  /** Copying upwards one element at a time, each step seeing the writes of the earlier ones. */
  function CopyUp<T>(m: seq<T>, dst: nat, src: nat, n: nat): (r: seq<T>)
    requires dst + n <= |m| && src + n <= |m|
    ensures |r| == |m|
  {
    if n == 0 then m
    else
      var r := CopyUp(m, dst, src, n - 1);
      r[dst + n - 1 := r[src + n - 1]]
  }

  /** Only the target changes, and it ends with what the last steps found in the source. */
  lemma {:induction false} CopyUpFrame<T>(m: seq<T>, dst: nat, src: nat, n: nat, k: nat)
    requires dst + n <= |m| && src + n <= |m| && k < |m|
    requires !(dst <= k < dst + n)
    ensures CopyUp(m, dst, src, n)[k] == m[k]
  {
    if n > 0 {
      CopyUpFrame(m, dst, src, n - 1, k);
    }
  }

  lemma {:induction false} CopyUpIsBlit<T>(m: seq<T>, dst: nat, src: nat, n: nat)
    requires dst + n <= |m| && src + n <= |m|
    requires dst <= src || src + n <= dst
    ensures CopyUp(m, dst, src, n) == Blit(m, dst, m[src..src + n])
  {
    hide Blit, CopyUp;
    CopyUpSteps(m, dst, src, n);
    if n == 0 {
      BlitNothing(m, dst);
      assert m[src..src] == [];
    } else {
      CopyUpIsBlit(m, dst, src, n - 1);
      CopyUpFrame(m, dst, src, n - 1, src + n - 1);
      var front := m[src..src + n - 1];
      BlitOneMore(m, dst, front, m[src + n - 1]);
      assert m[src..src + n] == front + [m[src + n - 1]];
    }
  }

  lemma CopyUpSteps<T>(m: seq<T>, dst: nat, src: nat, n: nat)
    requires dst + n <= |m| && src + n <= |m|
    ensures n == 0 ==> CopyUp(m, dst, src, n) == m
    ensures n > 0 ==>
              var r := CopyUp(m, dst, src, n - 1);
              CopyUp(m, dst, src, n) == r[dst + n - 1 := r[src + n - 1]]
  {
  }

  /** A memory with a single non-zero byte. */
  function Lone(length: nat, a: nat): (m: seq<byte>)
    ensures |m| == length
  {
    seq(length, k => if k == a then 1 else 0)
  }

  lemma OverlapRepeats(length: nat, dst: nat, src: nat, n: nat)
    requires dst + n <= length && src < dst < src + n
    ensures CopyUp(Lone(length, src), dst, src, n) != Blit(Lone(length, src), dst, Lone(length, src)[src..src + n])
  {
    var m, d := Lone(length, src), dst - src;
    assert CopyUp(m, dst, src, d)[dst] == 1 by {
      CopyUpIsBlit(m, dst, src, d);
    }
    assert CopyUp(m, dst, src, d + 1)[dst + d] == 1;
    LaterStepsKeep(m, dst, src, d + 1, n, dst + d);
    assert Blit(m, dst, m[src..src + n])[dst + d] == m[dst] == 0;
  }

  lemma {:induction false} LaterStepsKeep<T>(m: seq<T>, dst: nat, src: nat, n: nat, n': nat, k: nat)
    requires n <= n' && dst + n' <= |m| && src + n' <= |m| && k < dst + n
    ensures CopyUp(m, dst, src, n')[k] == CopyUp(m, dst, src, n)[k]
  {
    if n < n' {
      LaterStepsKeep(m, dst, src, n, n' - 1, k);
    }
  }

  /** `memcpy` moves any contents faithfully exactly when the target does not start inside the source. */
  lemma MemcpyIsFaithful(length: nat, dst: nat, src: nat, n: nat)
    requires dst + n <= length && src + n <= length
    ensures (forall m: seq<byte> | |m| == length :: CopyUp(m, dst, src, n) == Blit(m, dst, m[src..src + n]))
            <==> dst <= src || src + n <= dst
  {
    if dst <= src || src + n <= dst {
      forall m: seq<byte> | |m| == length
        ensures CopyUp(m, dst, src, n) == Blit(m, dst, m[src..src + n])
      {
        CopyUpIsBlit(m, dst, src, n);
      }
    } else {
      OverlapRepeats(length, dst, src, n);
      assert |Lone(length, src)| == length;
    }
  }

  /** If the target starts inside the source, the bytes between the two starts are repeated. */
  lemma {:induction false} CopyUpRepeats<T>(m: seq<T>, dst: nat, src: nat, n: nat, i: nat)
    requires dst + n <= |m| && src < dst && i < n
    ensures CopyUp(m, dst, src, n)[dst + i] == if i < dst - src then m[src + i] else CopyUp(m, dst, src, n)[src + i]
  {
    LaterStepsKeep(m, dst, src, i + 1, n, dst + i);
    var before := CopyUp(m, dst, src, i);
    assert CopyUp(m, dst, src, i + 1)[dst + i] == before[src + i];
    if i < dst - src {
      CopyUpFrame(m, dst, src, i, src + i);
    } else {
      LaterStepsKeep(m, dst, src, i, n, src + i);
    }
  }

  method Memcpy<T>(mem: array<T>, dst: nat, src: nat, n: nat)
    requires dst + n <= mem.Length && src + n <= mem.Length
    modifies mem
    ensures mem[..] == CopyUp(old(mem[..]), dst, src, n)
  {
    ghost var m := mem[..];
    for i := 0 to n
      invariant mem[..] == CopyUp(m, dst, src, i)
    {
      mem[dst + i] := mem[src + i];
    }
  }

  lemma BlitOneBelow<T>(m: seq<T>, dst: nat, src: nat, n: nat, i: nat)
    requires i < n && dst + n <= |m| && src + n <= |m| && src <= dst
    ensures var r := Blit(m, dst + i + 1, m[src + i + 1..src + n]);
            && r[src + i] == m[src + i]
            && r[dst + i := m[src + i]] == Blit(m, dst + i, m[src + i..src + n])
  {
  }

  /** The second loop of `memmove`, downwards. */
  method CopyDown<T>(mem: array<T>, dst: nat, src: nat, n: nat)
    requires dst + n <= mem.Length && src + n <= mem.Length && src <= dst
    modifies mem
    ensures mem[..] == Blit(old(mem[..]), dst, old(mem[..])[src..src + n])
  {
    hide Blit;
    ghost var m := mem[..];
    BlitNothing(m, dst + n);
    assert m[src + n..src + n] == [];
    var i := n;
    while i > 0
      invariant 0 <= i <= n
      invariant mem[..] == Blit(m, dst + i, m[src + i..src + n])
    {
      i := i - 1;
      BlitOneBelow(m, dst, src, n, i);
      assert mem[..][src + i] == m[src + i];
      mem[dst + i] := mem[src + i];
    }
  }

  /** Overlapping or not, the target gets the old contents of the source. */
  method Memmove<T>(mem: array<T>, dst: nat, src: nat, n: nat)
    requires dst + n <= mem.Length && src + n <= mem.Length
    modifies mem
    ensures mem[..] == Blit(old(mem[..]), dst, old(mem[..])[src..src + n])
  {
    hide Blit, CopyUp;
    if src > dst {
      CopyUpIsBlit(mem[..], dst, src, n);
      Memcpy(mem, dst, src, n);
    } else {
      CopyDown(mem, dst, src, n);
    }
  }

  // ----- Zero-terminated strings -----

  /** The bytes from `a` up to the first zero. */
  function CStr(m: seq<byte>, a: nat): (s: seq<byte>)
    ensures a + |s| <= |m| || s == []
    ensures 0 !in s
    decreases |m| - a
  {
    if a >= |m| || m[a] == 0 then [] else [m[a]] + CStr(m, a + 1)
  }

  ghost predicate HasNul(m: seq<byte>, a: nat) {
    a + |CStr(m, a)| < |m|
  }

  lemma {:induction false} CStrInMemory(m: seq<byte>, a: nat)
    requires a <= |m|
    ensures a + |CStr(m, a)| <= |m| && m[a..a + |CStr(m, a)|] == CStr(m, a)
    ensures HasNul(m, a) ==> m[a + |CStr(m, a)|] == 0
    decreases |m| - a
  {
    if a < |m| && m[a] != 0 {
      CStrInMemory(m, a + 1);
      assert m[a..a + |CStr(m, a)|] == [m[a]] + m[a + 1..a + |CStr(m, a)|];
    }
  }

  /** A zero-terminated text in memory is what `CStr` reads. */
  lemma {:induction false} CStrOf(m: seq<byte>, a: nat, s: seq<byte>)
    requires a + |s| < |m| && m[a..a + |s|] == s && m[a + |s|] == 0 && 0 !in s
    ensures CStr(m, a) == s
    decreases |s|
  {
    if s == [] {
    } else {
      assert m[a] == s[0] && s[0] in s;
      assert m[a + 1..a + 1 + |s[1..]|] == s[1..];
      CStrOf(m, a + 1, s[1..]);
    }
  }

  method Strlen(m: seq<byte>, str: nat) returns (n: nat)
    requires HasNul(m, str)
    ensures n == |CStr(m, str)|
  {
    n := 0;
    while m[str + n] != 0
      invariant n <= |CStr(m, str)| && CStr(m, str)[n..] == CStr(m, str + n)
      decreases |CStr(m, str)| - n
    {
      n := n + 1;
    }
  }

  /** A `char` as the signed byte it is on i386. */
  function Signed(b: byte): (v: int)
    ensures -128 <= v < 128 && (v == b as int || v == b as int - 256)
  {
    if b < 128 then b as int else b as int - 256
  }

  /** The first `i` bytes of both exist and are the same. */
  ghost predicate SameFor(m: seq<byte>, s1: nat, s2: nat, i: nat) {
    s1 + i <= |m| && s2 + i <= |m| && m[s1..s1 + i] == m[s2..s2 + i]
  }

  lemma SameAt(m: seq<byte>, s1: nat, s2: nat, n: nat, i: nat)
    requires i < n && s1 + i < |m| && s2 + i < |m|
    ensures SameFor(m, s1, s2, n) ==> m[s1 + i] == m[s2 + i]
  {
    if SameFor(m, s1, s2, n) {
      assert m[s1..s1 + n][i] == m[s2..s2 + n][i];
    }
  }

  /** Every byte that is compared exists. */
  ghost predicate Comparable(m: seq<byte>, s1: nat, s2: nat, n: nat) {
    forall i: nat :: i < n && SameFor(m, s1, s2, i) ==> s1 + i < |m| && s2 + i < |m|
  }

  /** The result of a comparison that first differs at byte `i`. */
  ghost predicate DiffersAt(m: seq<byte>, s1: nat, s2: nat, i: nat, r: int) {
    && s1 + i < |m| && s2 + i < |m| && SameFor(m, s1, s2, i)
    && m[s1 + i] != m[s2 + i] && r == Signed(m[s1 + i]) - Signed(m[s2 + i])
  }

  /** Zero exactly if the `n` bytes are the same, otherwise the difference of the first ones that differ. */
  method Memcmp(m: seq<byte>, s1: nat, s2: nat, n: nat) returns (r: int)
    requires s1 <= |m| && s2 <= |m| && Comparable(m, s1, s2, n)
    ensures r == 0 <==> SameFor(m, s1, s2, n)
    ensures r != 0 ==> exists i: nat :: i < n && DiffersAt(m, s1, s2, i, r)
  {
    var i: nat := 0;
    while i < n
      invariant i <= n && SameFor(m, s1, s2, i)
    {
      if m[s1 + i] != m[s2 + i] {
        SameAt(m, s1, s2, n, i);
        r := Signed(m[s1 + i]) - Signed(m[s2 + i]);
        assert DiffersAt(m, s1, s2, i, r);
        return;
      }
      assert m[s1..s1 + i + 1] == m[s1..s1 + i] + [m[s1 + i]];
      assert m[s2..s2 + i + 1] == m[s2..s2 + i] + [m[s2 + i]];
      i := i + 1;
    }
    return 0;
  }

  /** Bytes of the first string that are also found at `s2` lie inside the second string. */
  lemma SameIsInside(m: seq<byte>, s1: nat, s2: nat, i: nat)
    requires HasNul(m, s1) && s2 <= |m| && i <= |CStr(m, s1)|
    ensures SameFor(m, s1, s2, i) ==> i <= |CStr(m, s2)|
  {
    var a, b := CStr(m, s1), CStr(m, s2);
    if |b| < i {
      CStrInMemory(m, s1);
      CStrInMemory(m, s2);
      assert m[s1 + |b|] == m[s1..s1 + |a|][|b|] == a[|b|] && a[|b|] in a;
      if s2 + |b| < |m| {
        SameAt(m, s1, s2, i, |b|);
      }
    }
  }

  lemma StrcmpStops(m: seq<byte>, s1: nat, s2: nat)
    requires HasNul(m, s1) && HasNul(m, s2)
    ensures Comparable(m, s1, s2, |CStr(m, s1)|)
  {
    hide CStr, SameFor;
    forall i: nat | i < |CStr(m, s1)| && SameFor(m, s1, s2, i)
      ensures s2 + i < |m|
    {
      SameIsInside(m, s1, s2, i);
    }
  }

  /**
   This `strcmp` compares no further than its first argument: zero means a prefix.  The second one
   need not be terminated if it differs before its memory ends.
   */
  method Strcmp(m: seq<byte>, s1: nat, s2: nat) returns (r: int)
    requires HasNul(m, s1) && s2 <= |m| && Comparable(m, s1, s2, |CStr(m, s1)|)
    ensures r == 0 <==> CStr(m, s1) <= CStr(m, s2)
    ensures r != 0 ==> exists i: nat :: i < |CStr(m, s1)| && DiffersAt(m, s1, s2, i, r)
  {
    var n := Strlen(m, s1);
    r := Memcmp(m, s1, s2, n);
    PrefixInMemory(m, s1, s2);
  }

  lemma PrefixInMemory(m: seq<byte>, s1: nat, s2: nat)
    requires HasNul(m, s1) && s2 <= |m|
    ensures var n := |CStr(m, s1)|;
            SameFor(m, s1, s2, n) <==> CStr(m, s1) <= CStr(m, s2)
  {
    hide CStr;
    var a, b := CStr(m, s1), CStr(m, s2);
    CStrInMemory(m, s1);
    CStrInMemory(m, s2);
    SameIsInside(m, s1, s2, |a|);
    if |a| <= |b| {
      assert b[..|a|] == m[s2..s2 + |b|][..|a|] == m[s2..s2 + |a|];
    }
  }
}
