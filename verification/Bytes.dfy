/** Machine integers as subset types, and the byte orders the drivers use. */
module Bytes {

  const TWO_16 := 0x1_0000
  const TWO_32 := 0x1_0000_0000
  const TWO_64 := 0x1_0000_0000_0000_0000

  type byte = b: int | 0 <= b < 0x100
  type uint16 = w: int | 0 <= w < 0x1_0000
  type uint32 = w: int | 0 <= w < 0x1_0000_0000
  type uint64 = w: int | 0 <= w < 0x1_0000_0000_0000_0000

  /** Unsigned 32-bit arithmetic: the result modulo 2^32. */
  function Wrap32(n: int): uint32 {
    n % TWO_32
  }

  function Wrap64(n: int): uint64 {
    n % TWO_64
  }

  function Min(a: int, b: int): int {
    if a <= b then a else b
  }

  function Max(a: int, b: int): int {
    if a <= b then b else a
  }

  /** Little-endian image of a 16-bit word. */
  function Le16(v: uint16): (s: seq<byte>)
    ensures |s| == 2
  {
    [v % 0x100, v / 0x100]
  }

  /** Little-endian image of a 32-bit word; `FromLe32` undoes it. */
  function Le32(v: uint32): (s: seq<byte>)
    ensures |s| == 4 && FromLe32(s) == v
  {
    var h, hh, hhh := v / 0x100, v / 0x100 / 0x100, v / 0x100 / 0x100 / 0x100;
    [v % 0x100, h % 0x100, hh % 0x100, hhh]
  }

  function FromLe32(s: seq<byte>): uint32
    requires |s| == 4
  {
    s[0] as int + 0x100 * s[1] as int + 0x1_0000 * s[2] as int + 0x100_0000 * s[3] as int
  }

  /** Big-endian image of a 32-bit word, as SCSI orders its fields. */
  function Be32(v: uint32): (s: seq<byte>)
    ensures |s| == 4 && FromBe32(s) == v
  {
    var l := Le32(v);
    [l[3], l[2], l[1], l[0]]
  }

  function FromBe32(s: seq<byte>): uint32
    requires |s| == 4
  {
    FromLe32([s[3], s[2], s[1], s[0]])
  }

  /** `base` with its first bytes replaced by as much of `top` as fits. */
  function Overlay<T>(base: seq<T>, top: seq<T>): (r: seq<T>)
    ensures |r| == |base|
    ensures |top| == |base| ==> r == top
  {
    if |top| <= |base| then top + base[|top|..] else top[..|base|]
  }

  /** `s` with the elements from `at` on replaced by `part`. */
  function Splice<T>(s: seq<T>, at: nat, part: seq<T>): (r: seq<T>)
    requires at + |part| <= |s|
    ensures |r| == |s|
  {
    s[..at] + part + s[at + |part|..]
  }

  predicate SameOutside<T(==)>(s: seq<T>, r: seq<T>, from: nat, to: nat) {
    |s| == |r| && forall k :: 0 <= k < |s| && !(from <= k < to) ==> r[k] == s[k]
  }

  /** Two adjoining splices are one splice of the joined part. */
  lemma SpliceAppend<T>(s: seq<T>, at: nat, p: seq<T>, q: seq<T>)
    requires at + |p| + |q| <= |s|
    ensures Splice(Splice(s, at, p), at + |p|, q) == Splice(s, at, p + q)
  {
    var one := Splice(s, at, p);
    assert one[..at + |p|] == s[..at] + p;
    assert one[at + |p| + |q|..] == s[at + |p| + |q|..];
  }

  lemma SliceJoin<T>(s: seq<T>, a: nat, b: nat, c: nat)
    requires a <= b <= c <= |s|
    ensures s[a..b] + s[b..c] == s[a..c]
  {
  }
}
