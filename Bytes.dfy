/** Byte-level vocabulary shared by the whole model: bytes, WORDs and DWORDs,
    little- and big-endian field access inside one buffer, 32- and 64-bit
    wrap-around, the C library's isprint test and upper-case hexadecimal. */
module Bytes {

  type byte = b: int | 0 <= b < 0x100
  type u16 = x: int | 0 <= x < 0x1_0000
  type u32 = x: int | 0 <= x < 0x1_0000_0000

  const TWO31: int := 0x8000_0000
  const TWO32: int := 0x1_0000_0000
  const TWO64: int := 0x1_0000_0000_0000_0000

  datatype Option<T> = None | Some(value: T)

  /** Value of a DWORD after an unsigned 32-bit computation wrapped around. */
  function U32(x: int): (r: u32)
    ensures 0 <= x < TWO32 ==> r == x
  {
    x % TWO32
  }

  /** Value of a 64-bit unsigned computation (and of a signed operand converted to UINT64). */
  function U64(x: int): (r: int)
    ensures 0 <= r < TWO64
    ensures 0 <= x < TWO64 ==> r == x
  {
    x % TWO64
  }

  /** A DWORD reinterpreted as a two's-complement LONG. */
  function AsInt32(u: u32): (r: int)
    ensures -TWO31 <= r < TWO31
    ensures U32(r) == u
  {
    if u < TWO31 then u else u - TWO32
  }

  /** Signed 32-bit wrap-around of a C int computation. */
  function I32(x: int): (r: int)
    ensures -TWO31 <= r < TWO31
    ensures -TWO31 <= x < TWO31 ==> r == x
  {
    AsInt32(U32(x))
  }

  /** C integer division, which truncates toward zero (Dafny's `/` is Euclidean). */
  function CDiv(a: int, d: int): (r: int)
    requires d > 0
    ensures a >= 0 ==> r == a / d
    ensures a < 0 ==> r == -((-a) / d)
  {
    if a >= 0 then a / d else -((-a) / d)
  }

  function LE16(b: seq<byte>, off: nat): u16
    requires off + 2 <= |b|
  {
    b[off] as int + 0x100 * b[off + 1] as int
  }

  function LE32(b: seq<byte>, off: nat): u32
    requires off + 4 <= |b|
  {
    b[off] as int + 0x100 * b[off + 1] as int + 0x1_0000 * b[off + 2] as int + 0x100_0000 * b[off + 3] as int
  }

  function BE16(b: seq<byte>, off: nat): u16
    requires off + 2 <= |b|
  {
    0x100 * b[off] as int + b[off + 1] as int
  }

  function BE32(b: seq<byte>, off: nat): u32
    requires off + 4 <= |b|
  {
    0x100_0000 * b[off] as int + 0x1_0000 * b[off + 1] as int + 0x100 * b[off + 2] as int + b[off + 3] as int
  }

  /** The low `n` bytes of `v`, least significant first. */
  function LEBytes(v: nat, n: nat): (r: seq<byte>)
    ensures |r| == n
  {
    if n == 0 then [] else [v % 0x100] + LEBytes(v / 0x100, n - 1)
  }

  /** The four bytes that store `v` as a little-endian DWORD. */
  function LE32Bytes(v: u32): (r: seq<byte>)
    ensures |r| == 4 && LE32(r, 0) == v
  {
    LE32BytesRoundTrip(v);
    LEBytes(v, 4)
  }

  /** The four bytes of a DWORD, written out. */
  lemma LEBytesFour(v: nat)
    ensures LEBytes(v, 4) == [v % 0x100, (v / 0x100) % 0x100, (v / 0x1_0000) % 0x100, (v / 0x100_0000) % 0x100]
  {
    var q1 := v / 0x100;
    var q2 := q1 / 0x100;
    var q3 := q2 / 0x100;
    assert v / 0x1_0000 == q2;
    assert v / 0x100_0000 == q3;
    assert LEBytes(q3, 1) == [q3 % 0x100] + LEBytes(q3 / 0x100, 0);
    assert LEBytes(q2, 2) == [q2 % 0x100] + LEBytes(q3, 1);
    assert LEBytes(q1, 3) == [q1 % 0x100] + LEBytes(q2, 2);
    assert LEBytes(v, 4) == [v % 0x100] + LEBytes(q1, 3);
  }

  lemma LE32BytesRoundTrip(v: u32)
    ensures LE32(LEBytes(v, 4), 0) == v
  {
    LEBytesFour(v);
    var q1 := v / 0x100;
    var q2 := q1 / 0x100;
    var q3 := q2 / 0x100;
    assert v == v % 0x100 + 0x100 * q1;
    assert q1 == q1 % 0x100 + 0x100 * q2;
    assert q2 == q2 % 0x100 + 0x100 * q3;
    assert v / 0x1_0000 == q2;
    assert v / 0x100_0000 == q3 && q3 % 0x100 == q3;
  }

  /** The four bytes that store `v` as a big-endian DWORD. */
  function BE32Bytes(v: u32): (r: seq<byte>)
    ensures |r| == 4 && BE32(r, 0) == v
  {
    var r := [(v / 0x100_0000) % 0x100, (v / 0x1_0000) % 0x100, (v / 0x100) % 0x100, v % 0x100];
    BE32Parts(v);
    r
  }

  lemma BE32Parts(v: u32)
    ensures v == 0x100_0000 * ((v / 0x100_0000) % 0x100) + 0x1_0000 * ((v / 0x1_0000) % 0x100)
                 + 0x100 * ((v / 0x100) % 0x100) + v % 0x100
  {
    var q1 := v / 0x100;
    var q2 := q1 / 0x100;
    var q3 := q2 / 0x100;
    assert v == v % 0x100 + 0x100 * q1;
    assert q1 == q1 % 0x100 + 0x100 * q2;
    assert q2 == q2 % 0x100 + 0x100 * q3;
    assert v / 0x1_0000 == q2;
    assert v / 0x100_0000 == q3 && q3 % 0x100 == q3;
  }

  /** The four stored bytes are recovered from the big-endian DWORD they encode. */
  lemma BE32Decompose(x: seq<byte>)
    requires |x| == 4
    ensures x == BE32Bytes(BE32(x, 0))
  {
    var v := BE32(x, 0);
    var k2: int := x[1] as int + 0x100 * x[0] as int;
    var k1: int := x[2] + 0x100 * k2;
    assert v == x[3] + 0x100 * k1;
    assert v % 0x100 == x[3] && v / 0x100 == k1;
    assert k1 % 0x100 == x[2] && k1 / 0x100 == k2;
    assert k2 % 0x100 == x[1] && k2 / 0x100 == x[0];
    assert v / 0x1_0000 == k2;
    assert v / 0x100_0000 == x[0] && x[0] % 0x100 == x[0];
  }

  /** The two bytes that store `v` as a big-endian WORD. */
  function BE16Bytes(v: u16): (r: seq<byte>)
    ensures |r| == 2 && BE16(r, 0) == v
  {
    [v / 0x100, v % 0x100]
  }

  /** The two bytes that store `v` as a little-endian WORD. */
  function LE16Bytes(v: u16): (r: seq<byte>)
    ensures |r| == 2 && LE16(r, 0) == v
  {
    [v % 0x100, v / 0x100]
  }

  /** `b` with the DWORD at `off` overwritten by `v` (little-endian). */
  function PutLE32(b: seq<byte>, off: nat, v: u32): (r: seq<byte>)
    requires off + 4 <= |b|
    ensures |r| == |b| && LE32(r, off) == v
  {
    var r := b[..off] + LE32Bytes(v) + b[off + 4..];
    assert r[off..off + 4] == LE32Bytes(v);
    r
  }

  /** A DWORD write changes only its own four bytes. */
  lemma PutLE32Keeps(b: seq<byte>, off: nat, v: u32)
    requires off + 4 <= |b|
    ensures forall i | 0 <= i < |b| && !(off <= i < off + 4) :: PutLE32(b, off, v)[i] == b[i]
  {
  }

  /** A DWORD that does not overlap a written one reads back unchanged. */
  lemma PutLE32Elsewhere(b: seq<byte>, off: nat, v: u32, other: nat)
    requires off + 4 <= |b| && other + 4 <= |b|
    requires other + 4 <= off || off + 4 <= other
    ensures LE32(PutLE32(b, off, v), other) == LE32(b, other)
  {
  }

  /** `b` with the WORD at `off` overwritten by `v` (little-endian). */
  function PutLE16(b: seq<byte>, off: nat, v: u16): (r: seq<byte>)
    requires off + 2 <= |b|
    ensures |r| == |b| && LE16(r, off) == v
  {
    var r := b[..off] + LE16Bytes(v) + b[off + 2..];
    assert r[off..off + 2] == LE16Bytes(v);
    r
  }

  /** A WORD write changes only its own two bytes. */
  lemma PutLE16Keeps(b: seq<byte>, off: nat, v: u16)
    requires off + 2 <= |b|
    ensures forall i | 0 <= i < |b| && !(off <= i < off + 2) :: PutLE16(b, off, v)[i] == b[i]
  {
  }

  /** A WORD that does not overlap a written DWORD reads back unchanged. */
  lemma PutLE32ElsewhereWord(b: seq<byte>, off: nat, v: u32, other: nat)
    requires off + 4 <= |b| && other + 2 <= |b|
    requires other + 2 <= off || off + 4 <= other
    ensures LE16(PutLE32(b, off, v), other) == LE16(b, other)
  {
  }

  /** A DWORD that does not overlap a written WORD reads back unchanged. */
  lemma PutLE16Elsewhere(b: seq<byte>, off: nat, v: u16, other: nat)
    requires off + 2 <= |b| && other + 4 <= |b|
    requires other + 4 <= off || off + 2 <= other
    ensures LE32(PutLE16(b, off, v), other) == LE32(b, other)
  {
  }

  /** A WORD that does not overlap a written WORD reads back unchanged. */
  lemma PutLE16ElsewhereWord(b: seq<byte>, off: nat, v: u16, other: nat)
    requires off + 2 <= |b| && other + 2 <= |b|
    requires other + 2 <= off || off + 2 <= other
    ensures LE16(PutLE16(b, off, v), other) == LE16(b, other)
  {
  }

  /** A freshly zero-initialised block (GMEM_ZEROINIT). */
  function Zeros(n: nat): (r: seq<byte>)
    ensures |r| == n && forall i | 0 <= i < n :: r[i] == 0
  {
    seq(n, _ => 0)
  }

  /** Stores a DWORD into a buffer in place. */
  method WriteLE32(a: array<byte>, off: nat, v: u32)
    requires off + 4 <= a.Length
    modifies a
    ensures a[..] == PutLE32(old(a[..]), off, v)
  {
    var bytes := LE32Bytes(v);
    LEBytesFour(v);
    a[off] := bytes[0];
    a[off + 1] := bytes[1];
    a[off + 2] := bytes[2];
    a[off + 3] := bytes[3];
  }

  /** Stores a WORD into a buffer in place. */
  method WriteLE16(a: array<byte>, off: nat, v: u16)
    requires off + 2 <= a.Length
    modifies a
    ensures a[..] == PutLE16(old(a[..]), off, v)
  {
    var bytes := LE16Bytes(v);
    a[off] := bytes[0];
    a[off + 1] := bytes[1];
  }

  /** CopyMemory: `n` bytes of `src` from `from` into `dst` at `at`. */
  method CopyBytes(dst: array<byte>, at: nat, src: seq<byte>, from: nat, n: nat)
    requires at + n <= dst.Length && from + n <= |src|
    modifies dst
    ensures dst[..] == old(dst[..])[..at] + src[from..from + n] + old(dst[..])[at + n..]
  {
    var i := 0;
    while i < n
      invariant 0 <= i <= n
      invariant forall k | 0 <= k < dst.Length ::
                  dst[k] == (if at <= k < at + i then src[from + k - at] else old(dst[k]))
    {
      dst[at + i] := src[from + i];
      i := i + 1;
    }
  }

  /** MoveMemory: `n` bytes from `from` to `to` within one buffer, correct
      whichever way the two ranges overlap. */
  method MoveBytes(a: array<byte>, to: nat, from: nat, n: nat)
    requires to + n <= a.Length && from + n <= a.Length
    modifies a
    ensures a[..] == old(a[..])[..to] + old(a[..])[from..from + n] + old(a[..])[to + n..]
  {
    ghost var s := a[..];
    if to <= from {
      MoveDown(a, to, from, n);
    } else {
      MoveUp(a, to, from, n);
    }
    Splice(s, a[..], to, from, n);
  }

  /** The forward copy loop of MoveMemory, for a destination below the source. */
  method MoveDown(a: array<byte>, to: nat, from: nat, n: nat)
    requires to <= from && from + n <= a.Length
    modifies a
    ensures forall k | 0 <= k < a.Length && !(to <= k < to + n) :: a[k] == old(a[k])
    ensures forall k | to <= k < to + n :: a[k] == old(a[from + k - to])
  {
    var i := 0;
    while i < n
      invariant 0 <= i <= n
      invariant forall k | 0 <= k < a.Length :: a[k] == (if to <= k < to + i then old(a[from + k - to]) else old(a[k]))
    {
      a[to + i] := a[from + i];
      i := i + 1;
    }
  }

  /** The backward copy loop of MoveMemory, for a destination above the source. */
  method MoveUp(a: array<byte>, to: nat, from: nat, n: nat)
    requires from < to && to + n <= a.Length
    modifies a
    ensures forall k | 0 <= k < a.Length && !(to <= k < to + n) :: a[k] == old(a[k])
    ensures forall k | to <= k < to + n :: a[k] == old(a[from + k - to])
  {
    var i := n;
    while i > 0
      invariant 0 <= i <= n
      invariant forall k | 0 <= k < a.Length :: a[k] == (if to + i <= k < to + n then old(a[from + k - to]) else old(a[k]))
    {
      a[to + i - 1] := a[from + i - 1];
      i := i - 1;
    }
  }

  /** A block that holds `x`'s bytes from `from` on at `to..to + n` and
      `x`'s own bytes elsewhere is that splice of `x`. */
  lemma Splice(x: seq<byte>, y: seq<byte>, to: nat, from: nat, n: nat)
    requires |x| == |y| && to + n <= |x| && from + n <= |x|
    requires forall k | 0 <= k < |x| && !(to <= k < to + n) :: y[k] == x[k]
    requires forall k | to <= k < to + n :: y[k] == x[from + k - to]
    ensures y == x[..to] + x[from..from + n] + x[to + n..]
  {
    var p, m, t := x[..to], x[from..from + n], x[to + n..];
    var z := p + m + t;
    forall k | 0 <= k < |x|
      ensures y[k] == z[k]
    {
      if k < to {
        assert z[k] == (p + m)[k] == p[k];
      } else if k < to + n {
        assert z[k] == (p + m)[k] == m[k - to];
      } else {
        assert z[k] == t[k - to - n];
      }
    }
  }

  /** ZeroMemory: `n` zero bytes at `at`. */
  method ZeroBytes(a: array<byte>, at: nat, n: nat)
    requires at + n <= a.Length
    modifies a
    ensures a[..] == old(a[..])[..at] + Zeros(n) + old(a[..])[at + n..]
  {
    var i := 0;
    while i < n
      invariant 0 <= i <= n
      invariant forall k | 0 <= k < a.Length :: a[k] == (if at <= k < at + i then 0 else old(a[k]))
    {
      a[at + i] := 0;
      i := i + 1;
    }
    assert a[..] == old(a[..])[..at] + Zeros(n) + old(a[..])[at + n..];
  }

  /** GlobalReAlloc of a block to `n` bytes: the common prefix is kept and
      a grown block is zero-filled (GHND). */
  method Resize(a: array<byte>, n: nat) returns (c: array<byte>)
    ensures fresh(c) && c.Length == n
    ensures n <= a.Length ==> c[..] == a[..n]
    ensures n > a.Length ==> c[..] == a[..] + Zeros(n - a.Length)
  {
    c := new byte[n](i => 0);
    var m := if n <= a.Length then n else a.Length;
    CopyBytes(c, 0, a[..], 0, m);
    if n > a.Length {
      assert c[..] == a[..] + Zeros(n - a.Length);
    } else {
      assert c[..] == a[..n];
    }
  }

  lemma LE32Injective(x: seq<byte>, y: seq<byte>)
    requires |x| == 4 && |y| == 4
    ensures LE32(x, 0) == LE32(y, 0) <==> x == y
  {
    LE32Decompose(x);
    LE32Decompose(y);
  }

  /** The four stored bytes are recovered from the DWORD they encode. */
  lemma LE32Decompose(x: seq<byte>)
    requires |x| == 4
    ensures x == LE32Bytes(LE32(x, 0))
  {
    var v := LE32(x, 0);
    var k2: int := x[2] as int + 0x100 * x[3] as int;
    var k1: int := x[1] + 0x100 * k2;
    assert v == x[0] + 0x100 * k1;
    DivUnique(v, 0x100, k1, x[0]);
    DivUnique(k1, 0x100, k2, x[1]);
    DivUnique(k2, 0x100, x[3], x[2]);
    DivUnique(v, 0x1_0000, k2, x[0] as int + 0x100 * x[1] as int);
    DivUnique(v, 0x100_0000, x[3], x[0] as int + 0x100 * x[1] as int + 0x1_0000 * x[2] as int);
    DivUnique(x[3], 0x100, 0, x[3]);
    LEBytesFour(v);
  }

  /** Writing the value a DWORD already holds changes nothing. */
  lemma PutLE32Same(b: seq<byte>, off: nat)
    requires off + 4 <= |b|
    ensures PutLE32(b, off, LE32(b, off)) == b
  {
    LE32Decompose(b[off..off + 4]);
    assert LE32(b[off..off + 4], 0) == LE32(b, off);
    assert b == b[..off] + b[off..off + 4] + b[off + 4..];
  }

  /** The second of two writes to the same DWORD wins. */
  lemma PutLE32Twice(b: seq<byte>, off: nat, v: u32, w: u32)
    requires off + 4 <= |b|
    ensures PutLE32(PutLE32(b, off, v), off, w) == PutLE32(b, off, w)
  {
    var x := PutLE32(PutLE32(b, off, v), off, w);
    var y := PutLE32(b, off, w);
    LE32Injective(x[off..off + 4], y[off..off + 4]);
    assert x[off..off + 4] == y[off..off + 4];
    assert forall i | 0 <= i < |b| :: x[i] == y[i] by {
      forall i | 0 <= i < |b|
        ensures x[i] == y[i]
      {
        if off <= i < off + 4 {
          assert x[i] == x[off..off + 4][i - off];
        }
      }
    }
  }

  /** A write inside a prefix leaves what follows the prefix alone. */
  lemma PutLE32Prefix(a: seq<byte>, c: seq<byte>, off: nat, v: u32)
    requires off + 4 <= |a|
    ensures PutLE32(a + c, off, v) == PutLE32(a, off, v) + c
  {
    assert (a + c)[..off] == a[..off];
    assert (a + c)[off + 4..] == a[off + 4..] + c;
  }

  /** Two blocks that agree everywhere except perhaps on the four bytes of a
      DWORD, and agree on that DWORD's value, are equal. */
  lemma SameAroundDword(a: seq<byte>, b: seq<byte>, off: nat, mid: nat)
    requires |a| == |b| && off + 4 <= mid <= |a|
    requires a[..off] == b[..off] && a[off + 4..mid] == b[off + 4..mid] && a[mid..] == b[mid..]
    requires LE32(a, off) == LE32(b, off)
    ensures a == b
  {
    var x := a[off..off + 4];
    var y := b[off..off + 4];
    assert LE32(x, 0) == LE32(a, off);
    assert LE32(y, 0) == LE32(b, off);
    LE32Injective(x, y);
    assert a == a[..off] + x + a[off + 4..mid] + a[mid..];
    assert b == b[..off] + y + b[off + 4..mid] + b[mid..];
  }

  /** A WORD write inside a prefix leaves what follows the prefix alone. */
  lemma PutLE16Prefix(a: seq<byte>, c: seq<byte>, off: nat, v: u16)
    requires off + 2 <= |a|
    ensures PutLE16(a + c, off, v) == PutLE16(a, off, v) + c
  {
    assert (a + c)[..off] == a[..off];
    assert (a + c)[off + 2..] == a[off + 2..] + c;
  }

  /** A DWORD read is the read of its four-byte slice. */
  lemma LE32Slice(a: seq<byte>, off: nat)
    requires off + 4 <= |a|
    ensures LE32(a, off) == LE32(a[off..off + 4], 0)
  {
  }

  /** A DWORD read only looks at its own four bytes. */
  /** A slice of a slice is a slice of the whole. */
  lemma SliceOfSlice<T>(p: seq<T>, lo: nat, hi: nat, i: nat, j: nat)
    requires lo <= hi <= |p| && i <= j <= hi - lo
    ensures p[lo..hi][i..j] == p[lo + i..lo + j]
  {
    var a, b := p[lo..hi][i..j], p[lo + i..lo + j];
    forall k | 0 <= k < j - i
      ensures a[k] == b[k]
    {
      assert a[k] == p[lo..hi][i + k] == p[lo + i + k];
    }
  }

  /** A big-endian DWORD read where its four bytes are known. */
  lemma BE32At(a: seq<byte>, off: nat, v: u32)
    requires off + 4 <= |a| && a[off..off + 4] == BE32Bytes(v)
    ensures BE32(a, off) == v
  {
    var w := a[off..off + 4];
    assert a[off] == w[0] && a[off + 1] == w[1] && a[off + 2] == w[2] && a[off + 3] == w[3];
    assert BE32(a, off) == BE32(w, 0);
  }

  /** A big-endian WORD read where its two bytes are known. */
  lemma BE16At(a: seq<byte>, off: nat, v: u16)
    requires off + 2 <= |a| && a[off..off + 2] == BE16Bytes(v)
    ensures BE16(a, off) == v
  {
    var w := a[off..off + 2];
    assert a[off] == w[0] && a[off + 1] == w[1];
    assert BE16(a, off) == BE16(w, 0);
  }

  /** The part of a block that lies inside a buffer, read from the buffer. */
  lemma PartAt(p: seq<byte>, at: nat, block: seq<byte>, lo: nat, hi: nat)
    requires at + |block| <= |p| && p[at..at + |block|] == block && lo <= hi <= |block|
    ensures p[at + lo..at + hi] == block[lo..hi]
  {
    SliceOfSlice(p, at, at + |block|, lo, hi);
  }

  /** A big-endian DWORD of a block that lies inside a buffer. */
  lemma BE32Within(p: seq<byte>, at: nat, block: seq<byte>, off: nat, v: u32)
    requires at + |block| <= |p| && p[at..at + |block|] == block
    requires off + 4 <= |block| && block[off..off + 4] == BE32Bytes(v)
    ensures BE32(p, at + off) == v
  {
    PartAt(p, at, block, off, off + 4);
    BE32At(p, at + off, v);
  }

  lemma LE32Local(a: seq<byte>, b: seq<byte>, off: nat)
    requires off + 4 <= |a| && off + 4 <= |b|
    requires a[off..off + 4] == b[off..off + 4]
    ensures LE32(a, off) == LE32(b, off)
  {
    assert a[off] == a[off..off + 4][0] && a[off + 3] == a[off..off + 4][3];
    assert a[off + 1] == a[off..off + 4][1] && a[off + 2] == a[off..off + 4][2];
  }

  /** A WORD read only looks at its own two bytes. */
  lemma LE16Local(a: seq<byte>, b: seq<byte>, off: nat)
    requires off + 2 <= |a| && off + 2 <= |b|
    requires a[off..off + 2] == b[off..off + 2]
    ensures LE16(a, off) == LE16(b, off)
  {
    assert a[off] == a[off..off + 2][0] && a[off + 1] == a[off..off + 2][1];
  }

  /** isprint in the "C" locale: the printable ASCII range. */
  predicate IsPrint(c: int)
  {
    0x20 <= c <= 0x7E
  }

  const HexDigits: string := "0123456789ABCDEF"

  function HexDigit(d: int): char
    requires 0 <= d < 16
  {
    HexDigits[d]
  }

  /** Inverse of HexDigit on upper-case digits; -1 for any other character. */
  function HexValue(c: char): (r: int)
    ensures -1 <= r < 16
  {
    if '0' <= c <= '9' then c as int - '0' as int
    else if 'A' <= c <= 'F' then c as int - 'A' as int + 10
    else -1
  }

  lemma HexDigitRoundTrip(d: int)
    requires 0 <= d < 16
    ensures HexValue(HexDigit(d)) == d
  {
  }

  /** printf "%02X" of a byte. */
  function Hex2(b: byte): (r: string)
    ensures |r| == 2
  {
    [HexDigit(b / 16), HexDigit(b % 16)]
  }

  /** The byte a two-digit upper-case hex string stands for. */
  function ReadHex2(s: string): int
    requires |s| == 2
  {
    16 * HexValue(s[0]) + HexValue(s[1])
  }

  lemma {:induction false} Hex2RoundTrip(b: byte)
    ensures ReadHex2(Hex2(b)) == b
  {
    HexDigitRoundTrip(b / 16);
    HexDigitRoundTrip(b % 16);
  }

  /** printf "%0<n>X": `n` upper-case hex digits of `x`, most significant first. */
  function HexN(x: nat, n: nat): (r: string)
    ensures |r| == n
  {
    if n == 0 then [] else HexN(x / 16, n - 1) + [HexDigit(x % 16)]
  }

  /** The value a string of upper-case hex digits stands for. */
  function ReadHex(s: string): int
  {
    if s == [] then 0 else 16 * ReadHex(s[..|s| - 1]) + HexValue(s[|s| - 1])
  }

  function Pow16(n: nat): (r: nat)
    ensures r > 0
  {
    if n == 0 then 1 else 16 * Pow16(n - 1)
  }

  lemma {:induction false} HexNRoundTrip(x: nat, n: nat)
    requires x < Pow16(n)
    ensures ReadHex(HexN(x, n)) == x
  {
    if n > 0 {
      var s := HexN(x, n);
      assert s[..|s| - 1] == HexN(x / 16, n - 1);
      HexNRoundTrip(x / 16, n - 1);
      HexDigitRoundTrip(x % 16);
    }
  }

  lemma Pow16Is(n: nat)
    requires n == 8 || n == 16
    ensures n == 8 ==> Pow16(n) == TWO32
    ensures n == 16 ==> Pow16(n) == TWO64
  {
    assert Pow16(4) == 0x1_0000 by {
      assert Pow16(1) == 16 && Pow16(2) == 0x100 && Pow16(3) == 0x1000;
    }
    assert Pow16(8) == TWO32 by {
      assert Pow16(5) == 0x10_0000 && Pow16(6) == 0x100_0000 && Pow16(7) == 0x1000_0000;
    }
    if n == 16 {
      assert Pow16(12) == 0x1_0000_0000_0000 by {
        assert Pow16(9) == 0x10_0000_0000 && Pow16(10) == 0x100_0000_0000 && Pow16(11) == 0x1000_0000_0000;
      }
      assert Pow16(13) == 0x10_0000_0000_0000 && Pow16(14) == 0x100_0000_0000_0000 && Pow16(15) == 0x1000_0000_0000_0000;
    }
  }

  lemma ConcatAssoc<T>(a: seq<T>, b: seq<T>, c: seq<T>)
    ensures a + b + c == a + (b + c)
  {
  }

  lemma MulSucc(c: int, d: int)
    ensures (1 + c) * d == d + c * d
  {
  }

  lemma MulNonZero(c: int, d: int)
    requires c >= 1 && d != 0
    ensures c * d != 0
  {
    if d > 0 {
      MulAtLeast(d, c);
    } else {
      MulAtLeast(-d, c);
      assert c * d == -((-d) * c);
    }
  }

  lemma MulAtLeast(d: nat, k: nat)
    requires k >= 1
    ensures d * k >= d
  {
    assert d * k == d * (k - 1) + d;
    assert d * (k - 1) >= 0;
  }

  lemma MulLe(x: nat, y: nat, m: nat)
    requires x <= y
    ensures x * m <= y * m
  {
    var k: nat := y - x;
    assert k * m >= 0;
    assert y * m == x * m + k * m;
  }

  /** Quotient and remainder are the only pair that fits. */
  lemma DivUnique(v: int, d: int, q: int, r: int)
    requires d > 0 && v == d * q + r && 0 <= r < d
    ensures v / d == q && v % d == r
  {
    var q0, r0 := v / d, v % d;
    assert v == d * q0 + r0;
    assert d * (q - q0) == r0 - r;
    if q > q0 {
      MulAtLeast(d, q - q0);
    } else if q < q0 {
      MulAtLeast(d, q0 - q);
    }
  }

  /** The remainder modulo 2b is the remainder modulo b plus bit b. */
  lemma SplitLow(v: nat, b: nat)
    requires b > 0
    ensures v % (2 * b) == v % b + b * ((v / b) % 2)
  {
    var q := v / b;
    assert v == b * q + v % b;
    assert q == 2 * (q / 2) + q % 2;
    assert v == (2 * b) * (q / 2) + (b * (q % 2) + v % b);
    DivUnique(v, 2 * b, q / 2, b * (q % 2) + v % b);
  }

  lemma ModBelow(v: nat, m: nat)
    requires m > 0
    ensures v % m <= v
  {
    assert v == m * (v / m) + v % m;
    assert m * (v / m) >= 0;
  }

  /** The characters of a NUL-terminated string: everything before the first NUL. */
  function CString<T(==)>(s: seq<T>, nul: T): (r: seq<T>)
    ensures |r| <= |s| && r == s[..|r|] && nul !in r
    ensures |r| < |s| ==> s[|r|] == nul
  {
    if s == [] || s[0] == nul then [] else [s[0]] + CString(s[1..], nul)
  }

  /** The characters before an appended NUL are the whole string. */
  lemma {:induction false} CStringOfTerminated<T>(t: seq<T>, nul: T, rest: seq<T>)
    requires nul !in t
    ensures CString(t + [nul] + rest, nul) == t
  {
    if t != [] {
      assert (t + [nul] + rest)[1..] == t[1..] + [nul] + rest;
      CStringOfTerminated(t[1..], nul, rest);
    }
  }
}
