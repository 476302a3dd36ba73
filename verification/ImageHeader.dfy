/**
 * Two builders of boot images: one writes the fields of a C structure into a
 * mapped file, the other packs a list of fields and writes them one after the
 * other.  The images are compared byte for byte.
 */
module ImageHeader {
  import opened Bytes

  // ---- A header as a list of fields

  function Flatten(fs: seq<seq<byte>>): seq<byte> {
    if fs == [] then [] else fs[0] + Flatten(fs[1..])
  }

  /** Where field `i` starts: the C offsetof. */
  function Offset(sizes: seq<nat>, i: nat): nat
    requires i <= |sizes|
  {
    if i == 0 then 0 else sizes[0] + Offset(sizes[1..], i - 1)
  }

  predicate Fits(fs: seq<seq<byte>>, sizes: seq<nat>) {
    |fs| == |sizes| && forall i :: 0 <= i < |fs| ==> |fs[i]| == sizes[i]
  }

  lemma {:induction false} FieldAt(fs: seq<seq<byte>>, sizes: seq<nat>, i: nat)
    requires Fits(fs, sizes) && i < |fs|
    ensures Offset(sizes, i) + sizes[i] <= |Flatten(fs)|
    ensures Flatten(fs)[Offset(sizes, i)..Offset(sizes, i) + sizes[i]] == fs[i]
  {
    if i > 0 {
      FieldAt(fs[1..], sizes[1..], i - 1);
      Shift(fs[0], Flatten(fs[1..]), Offset(sizes[1..], i - 1), sizes[i]);
    }
  }

  lemma Shift(a: seq<byte>, b: seq<byte>, at: nat, n: nat)
    requires at + n <= |b|
    ensures (a + b)[|a| + at..|a| + at + n] == b[at..at + n]
  {
  }

  /** Writing a field in place is replacing it in the list. */
  lemma {:induction false} WriteIsUpdate(fs: seq<seq<byte>>, sizes: seq<nat>, i: nat, x: seq<byte>)
    requires Fits(fs, sizes) && i < |fs| && |x| == sizes[i]
    ensures Offset(sizes, i) + |x| <= |Flatten(fs)|
    ensures Flatten(fs[i := x]) == Splice(Flatten(fs), Offset(sizes, i), x)
  {
    var f, rest := fs[0], Flatten(fs[1..]);
    var gs := fs[i := x];
    if i == 0 {
      assert gs[1..] == fs[1..];
      assert x + rest == Splice(f + rest, 0, x);
    } else {
      var at := Offset(sizes[1..], i - 1);
      WriteIsUpdate(fs[1..], sizes[1..], i - 1, x);
      assert gs[1..] == fs[1..][i - 1 := x];
      assert f + Splice(rest, at, x) == Splice(f + rest, |f| + at, x);
    }
  }

  lemma {:induction false} FlattenLength(fs: seq<seq<byte>>, sizes: seq<nat>)
    requires Fits(fs, sizes)
    ensures |Flatten(fs)| == Offset(sizes, |sizes|)
  {
    if fs != [] { FlattenLength(fs[1..], sizes[1..]); }
  }

  function Zeros(n: nat): (s: seq<byte>)
    ensures |s| == n
  {
    seq(n, _ => 0)
  }

  function Blank(sizes: seq<nat>): (fs: seq<seq<byte>>)
    ensures Fits(fs, sizes)
  {
    seq(|sizes|, i requires 0 <= i < |sizes| => Zeros(sizes[i]))
  }

  // ---- The checksum

  function ByteSum(s: seq<byte>): nat
    decreases |s|
  {
    if s == [] then 0 else ByteSum(s[..|s| - 1]) + s[|s| - 1]
  }

  /** stm32image_checksum: a 32-bit sum over what follows the header, zero for a file shorter than that. */
  method MappedChecksum(img: array<byte>, headerSize: nat) returns (csum: uint32)
    ensures csum == if headerSize <= img.Length then ByteSum(img[headerSize..]) % TWO_32 else 0
  {
    csum := 0;
    if img.Length < headerSize {
      return;
    }
    ghost var body := img[headerSize..];
    var p := headerSize;
    assert body[..0] == [];
    while p < img.Length
      invariant headerSize <= p <= img.Length && csum == ByteSum(body[..p - headerSize]) % TWO_32
    {
      assert body[..p + 1 - headerSize][..p - headerSize] == body[..p - headerSize];
      csum := Wrap32(csum + img[p]);
      p := p + 1;
    }
    assert body[..p - headerSize] == body;
  }

  /** _stm32image_checksum: an unbounded sum, masked at the end. */
  method ListChecksum(image: seq<byte>) returns (csum: uint32)
    ensures csum == ByteSum(image) % TWO_32
  {
    var sum := 0;
    var i := 0;
    while i < |image|
      invariant 0 <= i <= |image| && sum == ByteSum(image[..i])
    {
      assert image[..i + 1][..i] == image[..i];
      sum := sum + image[i];
      i := i + 1;
    }
    assert image[..i] == image;
    csum := sum % TWO_32;
  }

  // ---- The fields both builders are to produce

  datatype Params = Params(
    load: uint32, entry: uint32, version: uint32, major: byte, minor: byte, binaryType: uint32)

  /** With the largest header in front, the file size still fits the C builder's 32-bit variables. */
  const MAX_PAYLOAD := TWO_32 - 577

  const MAGIC: seq<byte> := [0x53, 0x54, 0x4D, 0x32]
  const PADDING_MAGIC: seq<byte> := [0x53, 0x54, 0xFF, 0xFF]
  const PADDING_FLAG := 0x8000_0000
  const PADDING_LENGTH := 0x180
  const PADDING_LENGTH_V23 := 0x1A0

  /** The structures agree on their first ten fields: all words, but for the signature. */
  predicate IsLayout(sizes: seq<nat>) {
    |sizes| >= 10 && forall i :: 0 <= i < 10 && i != 1 ==> sizes[i] == 4
  }

  function CommonSizes(sig: nat): (s: seq<nat>)
    ensures |s| == 10 && IsLayout(s) && s[1] == sig
  {
    [4, sig] + Words(8)
  }

  function Words(n: nat): (s: seq<nat>)
    ensures |s| == n && forall i :: 0 <= i < n ==> s[i] == 4
  {
    seq(n, _ => 4)
  }

  function V1Sizes(): (s: seq<nat>)
    ensures |s| == 15 && IsLayout(s)
  {
    CommonSizes(64) + [4, 4, 64, 83, 1]
  }

  function V2Sizes(): (s: seq<nat>)
    ensures |s| == 17 && IsLayout(s)
  {
    CommonSizes(64) + [4, 4, 4, 16, 4, 4, 376]
  }

  function V23Sizes(): (s: seq<nat>)
    ensures |s| == 19 && IsLayout(s)
  {
    CommonSizes(96) + [4, 4, 4, 8, 4, 4, 4, 4, 408]
  }

  function SizeOf(sizes: seq<nat>): nat {
    Offset(sizes, |sizes|)
  }

  /** The ten fields all layouts begin with; the signature is `sig` bytes of zeros. */
  function Common(p: Params, sig: nat, checksum: uint32, length: uint32): seq<seq<byte>> {
    [MAGIC, Zeros(sig), Le32(checksum), [0, p.minor, p.major, 0], Le32(length), Le32(p.entry),
     Zeros(4), Le32(p.load), Zeros(4), Le32(p.version)]
  }

  function V1Fields(p: Params, checksum: uint32, length: uint32): (fs: seq<seq<byte>>)
    requires p.binaryType < 0x100
    ensures |fs| == 15
  {
    Common(p, 64, checksum, length) + [Le32(1), Le32(1), Zeros(64), Zeros(83), [p.binaryType]]
  }

  function V2Fields(p: Params, checksum: uint32, length: uint32): (fs: seq<seq<byte>>)
    ensures |fs| == 17
  {
    Common(p, 64, checksum, length)
    + [Le32(PADDING_FLAG), Le32(PADDING_LENGTH), Le32(p.binaryType), Zeros(16)]
    + [PADDING_MAGIC, Le32(PADDING_LENGTH), Zeros(376)]
  }

  function V23Fields(p: Params, checksum: uint32, length: uint32): (fs: seq<seq<byte>>)
    ensures |fs| == 19
  {
    Common(p, 96, checksum, length)
    + [Le32(PADDING_FLAG), Le32(PADDING_LENGTH_V23), Le32(p.binaryType), Zeros(8), Zeros(4), Zeros(4), PADDING_MAGIC,
       Le32(PADDING_LENGTH_V23), Zeros(408)]
  }

  // ---- The C builder

  /** What is mapped: a header with these fields, and the payload behind it. */
  ghost predicate Shows(img: array<byte>, sizes: seq<nat>, fs: seq<seq<byte>>, payload: seq<byte>)
    reads img
  {
    Fits(fs, sizes) && img[..] == Flatten(fs) + payload
  }

  /** An assignment to a structure member. */
  method WriteField(img: array<byte>, sizes: seq<nat>, i: nat, x: seq<byte>, ghost fs: seq<seq<byte>>,
      ghost payload: seq<byte>)
    requires Shows(img, sizes, fs, payload) && i < |sizes| && |x| == sizes[i]
    modifies img
    ensures Shows(img, sizes, fs[i := x], payload)
  {
    WriteIsUpdate(fs, sizes, i, x);
    ghost var header := Flatten(fs);
    var at := Offset(sizes, i);
    forall k | 0 <= k < |x| {
      img[at + k] := x[k];
    }
    assert img[..] == Splice(header, at, x) + payload;
  }

  function WithByte(f: seq<byte>, k: nat, b: byte): (g: seq<byte>)
    requires k < |f|
    ensures |g| == |f|
  {
    f[k := b]
  }

  /** An assignment to one byte of an array member. */
  method WriteByteOf(img: array<byte>, sizes: seq<nat>, i: nat, k: nat, b: byte, ghost fs: seq<seq<byte>>,
      ghost payload: seq<byte>)
    requires Shows(img, sizes, fs, payload) && i < |sizes| && k < sizes[i]
    modifies img
    ensures Shows(img, sizes, fs[i := WithByte(fs[i], k, b)], payload)
  {
    hide Flatten, Splice, WithByte, Offset;
    ghost var x := WithByte(fs[i], k, b);
    WriteIsUpdate(fs, sizes, i, x);
    FieldAt(fs, sizes, i);
    ghost var header := Flatten(fs);
    var at := Offset(sizes, i);
    ByteOf(header, at, fs[i], k, b);
    img[at + k] := b;
    assert img[..] == header[at + k := b] + payload;
  }

  lemma ByteOf(header: seq<byte>, at: nat, f: seq<byte>, k: nat, b: byte)
    requires at + |f| <= |header| && header[at..at + |f|] == f && k < |f|
    ensures header[at + k := b] == Splice(header, at, WithByte(f, k, b))
  {
    assert forall j :: at <= j < at + |f| ==> header[j] == header[at..at + |f|][j - at];
  }

  const VER_MAJOR := 2
  const VER_MINOR := 1

  /** The fields after the assignments every layout shares, in the order they are made. */
  function CommonWritten(sizes: seq<nat>, p: Params, checksum: uint32, length: uint32): (fs: seq<seq<byte>>)
    requires IsLayout(sizes)
    ensures Fits(fs, sizes)
  {
    Blank(sizes)[0 := MAGIC][9 := Le32(0)][3 := [0, p.minor, p.major, 0]][7 := Le32(p.load)][5 := Le32(p.entry)]
      [4 := Le32(length)][2 := Le32(checksum)]
  }

  /** stm32image_default_header and the common part of stm32image_set_header. */
  method SetCommon(img: array<byte>, sizes: seq<nat>, headerSize: nat, p: Params, ghost payload: seq<byte>)
    requires IsLayout(sizes) && headerSize + |payload| == img.Length && |payload| <= MAX_PAYLOAD
    requires Shows(img, sizes, Blank(sizes), payload)
    modifies img
    ensures Shows(img, sizes, CommonWritten(sizes, p, ByteSum(payload) % TWO_32, |payload|), payload)
  {
    hide Shows, Le32, ByteSum, Fits, Offset, Flatten;
    ghost var fs := Blank(sizes);
    WriteField(img, sizes, 0, MAGIC, fs, payload);
    fs := fs[0 := MAGIC];
    WriteField(img, sizes, 9, Le32(0), fs, payload);
    fs := fs[9 := Le32(0)];
    WriteByteOf(img, sizes, 3, VER_MAJOR, p.major, fs, payload);
    fs := fs[3 := WithByte(fs[3], VER_MAJOR, p.major)];
    WriteByteOf(img, sizes, 3, VER_MINOR, p.minor, fs, payload);
    fs := fs[3 := WithByte(fs[3], VER_MINOR, p.minor)];
    assert WithByte(WithByte(Zeros(4), VER_MAJOR, p.major), VER_MINOR, p.minor) == [0, p.minor, p.major, 0];
    assert fs == Blank(sizes)[0 := MAGIC][9 := Le32(0)][3 := [0, p.minor, p.major, 0]];
    WriteField(img, sizes, 7, Le32(p.load), fs, payload);
    fs := fs[7 := Le32(p.load)];
    WriteField(img, sizes, 5, Le32(p.entry), fs, payload);
    fs := fs[5 := Le32(p.entry)];
    PayloadOf(img, sizes, fs, payload, headerSize);
    WriteField(img, sizes, 4, Le32(img.Length - headerSize), fs, payload);
    fs := fs[4 := Le32(|payload|)];
    PayloadOf(img, sizes, fs, payload, headerSize);
    var csum := MappedChecksum(img, headerSize);
    WriteField(img, sizes, 2, Le32(csum), fs, payload);
  }

  lemma PayloadOf(img: array<byte>, sizes: seq<nat>, fs: seq<seq<byte>>, payload: seq<byte>, headerSize: nat)
    requires Shows(img, sizes, fs, payload) && headerSize + |payload| == img.Length
    ensures img[headerSize..] == payload
  {
    assert |img[..]| == |Flatten(fs)| + |payload|;
  }

  /** stm32image_set_header for version 1. */
  method SetHeaderV1(img: array<byte>, sizes: seq<nat>, p: Params, headerSize: nat, ghost payload: seq<byte>)
    requires sizes == V1Sizes() && headerSize + |payload| == img.Length && |payload| <= MAX_PAYLOAD
    requires Shows(img, sizes, Blank(sizes), payload)
    modifies img
    ensures Shows(img, sizes, V1Fields(p.(binaryType := p.binaryType % 0x100), ByteSum(payload) % TWO_32, |payload|),
      payload)
  {
    hide Shows, Le32, ByteSum, Fits, Flatten, V1Sizes, IsLayout;
    SetCommon(img, sizes, headerSize, p, payload);
    ghost var c, n := ByteSum(payload) % TWO_32, |payload|;
    ghost var fs := CommonWritten(sizes, p, c, n);
    V1SizesAre();
    WriteField(img, sizes, 10, Le32(1), fs, payload);
    fs := fs[10 := Le32(1)];
    WriteField(img, sizes, 11, Le32(1), fs, payload);
    fs := fs[11 := Le32(1)];
    WriteField(img, sizes, 14, [p.binaryType % 0x100], fs, payload);
    fs := fs[14 := [p.binaryType % 0x100]];
    WriteField(img, sizes, 9, Le32(p.version), fs, payload);
    fs := fs[9 := Le32(p.version)];
    assert fs == V1Fields(p.(binaryType := p.binaryType % 0x100), c, n);
  }

  lemma V1SizesAre()
    ensures
      var s := V1Sizes();
      s[0] == 4 && s[2] == 4 && s[3] == 4 && s[4] == 4 && s[5] == 4 &&
      s[6] == 4 && s[7] == 4 && s[8] == 4 && s[9] == 4 &&
      s[1] == 64 && s[10] == 4 && s[11] == 4 && s[12] == 64 && s[13] == 83 && s[14] == 1
  {
  }

  lemma V2SizesAre()
    ensures
      var s := V2Sizes();
      s[0] == 4 && s[2] == 4 && s[3] == 4 && s[4] == 4 && s[5] == 4 &&
      s[6] == 4 && s[7] == 4 && s[8] == 4 && s[9] == 4 &&
      s[1] == 64 && s[10] == 4 && s[11] == 4 && s[12] == 4 && s[13] == 16 && s[14] == 4 && s[15] == 4 && s[16] == 376
  {
  }

  lemma V23SizesAre()
    ensures
      var s := V23Sizes();
      s[0] == 4 && s[2] == 4 && s[3] == 4 && s[4] == 4 && s[5] == 4 &&
      s[6] == 4 && s[7] == 4 && s[8] == 4 && s[9] == 4 &&
      s[1] == 96 && s[10] == 4 && s[11] == 4 && s[12] == 4 && s[13] == 8 && s[14] == 4 && s[15] == 4 &&
      s[16] == 4 && s[17] == 4 && s[18] == 408
  {
  }

  lemma V2Written(p: Params, checksum: uint32, length: uint32)
    ensures |CommonWritten(V2Sizes(), p, checksum, length)| == 17
    ensures
      CommonWritten(V2Sizes(), p, checksum, length)[12 := Le32(p.binaryType)][10 := Le32(PADDING_FLAG)]
        [11 := Le32(PADDING_LENGTH)][14 := PADDING_MAGIC][15 := Le32(PADDING_LENGTH)][9 := Le32(p.version)]
      == V2Fields(p, checksum, length)
  {
    hide Le32, V2Sizes, IsLayout;
    V2SizesAre();
  }

  /** The same for version 2. */
  method SetHeaderV2(img: array<byte>, sizes: seq<nat>, p: Params, headerSize: nat, ghost payload: seq<byte>)
    requires sizes == V2Sizes() && headerSize + |payload| == img.Length && |payload| <= MAX_PAYLOAD
    requires Shows(img, sizes, Blank(sizes), payload)
    modifies img
    ensures Shows(img, sizes, V2Fields(p, ByteSum(payload) % TWO_32, |payload|), payload)
  {
    hide Shows, Le32, ByteSum, Flatten, Fits, V2Sizes, IsLayout, CommonWritten, V2Fields;
    SetCommon(img, sizes, headerSize, p, payload);
    ghost var c, n := ByteSum(payload) % TWO_32, |payload|;
    ghost var fs := CommonWritten(sizes, p, c, n);
    V2SizesAre();
    V2Written(p, c, n);
    WriteField(img, sizes, 12, Le32(p.binaryType), fs, payload);
    fs := fs[12 := Le32(p.binaryType)];
    WriteField(img, sizes, 10, Le32(PADDING_FLAG), fs, payload);
    fs := fs[10 := Le32(PADDING_FLAG)];
    WriteField(img, sizes, 11, Le32(PADDING_LENGTH), fs, payload);
    fs := fs[11 := Le32(PADDING_LENGTH)];
    WriteField(img, sizes, 14, PADDING_MAGIC, fs, payload);
    fs := fs[14 := PADDING_MAGIC];
    WriteField(img, sizes, 15, Le32(PADDING_LENGTH), fs, payload);
    fs := fs[15 := Le32(PADDING_LENGTH)];
    WriteField(img, sizes, 9, Le32(p.version), fs, payload);
    fs := fs[9 := Le32(p.version)];
  }

  lemma V23Written(p: Params, checksum: uint32, length: uint32)
    ensures |CommonWritten(V23Sizes(), p, checksum, length)| == 19
    ensures
      CommonWritten(V23Sizes(), p, checksum, length)[12 := Le32(p.binaryType)][10 := Le32(PADDING_FLAG)]
        [11 := Le32(PADDING_LENGTH_V23)][16 := PADDING_MAGIC][17 := Le32(PADDING_LENGTH_V23)][9 := Le32(p.version)]
      == V23Fields(p, checksum, length)
  {
    hide Le32, V23Sizes, IsLayout;
    V23SizesAre();
  }

  /** The same for subversion 3, whichever the version. */
  method SetHeaderV23(img: array<byte>, sizes: seq<nat>, p: Params, headerSize: nat, ghost payload: seq<byte>)
    requires sizes == V23Sizes() && headerSize + |payload| == img.Length && |payload| <= MAX_PAYLOAD
    requires Shows(img, sizes, Blank(sizes), payload)
    modifies img
    ensures Shows(img, sizes, V23Fields(p, ByteSum(payload) % TWO_32, |payload|), payload)
  {
    hide Shows, Le32, ByteSum, Flatten, Fits, V23Sizes, IsLayout, CommonWritten, V23Fields;
    SetCommon(img, sizes, headerSize, p, payload);
    ghost var c, n := ByteSum(payload) % TWO_32, |payload|;
    ghost var fs := CommonWritten(sizes, p, c, n);
    V23SizesAre();
    V23Written(p, c, n);
    WriteField(img, sizes, 12, Le32(p.binaryType), fs, payload);
    fs := fs[12 := Le32(p.binaryType)];
    WriteField(img, sizes, 10, Le32(PADDING_FLAG), fs, payload);
    fs := fs[10 := Le32(PADDING_FLAG)];
    WriteField(img, sizes, 11, Le32(PADDING_LENGTH_V23), fs, payload);
    fs := fs[11 := Le32(PADDING_LENGTH_V23)];
    WriteField(img, sizes, 16, PADDING_MAGIC, fs, payload);
    fs := fs[16 := PADDING_MAGIC];
    WriteField(img, sizes, 17, Le32(PADDING_LENGTH_V23), fs, payload);
    fs := fs[17 := Le32(PADDING_LENGTH_V23)];
    WriteField(img, sizes, 9, Le32(p.version), fs, payload);
    fs := fs[9 := Le32(p.version)];
  }

  /** The header the C builder makes, or none for an empty payload, which cannot be mapped, or an unknown version. */
  function CHeader(p: Params, payload: seq<byte>): Option<seq<seq<byte>>>
    requires |payload| <= MAX_PAYLOAD
  {
    var c, n := ByteSum(payload) % TWO_32, |payload|;
    if payload == [] then None
    else if p.minor == 3 then Some(V23Fields(p, c, n))
    else if p.major == 1 then Some(V1Fields(p.(binaryType := p.binaryType % 0x100), c, n))
    else if p.major == 2 then Some(V2Fields(p, c, n))
    else None
  }

  datatype Option<T> = None | Some(value: T)

  /** stm32image_create_header_file: a blank header, the payload, and then the fields in place. */
  method CreateHeaderFile(p: Params, payload: seq<byte>) returns (ok: bool, img: array<byte>)
    requires |payload| <= MAX_PAYLOAD
    ensures ok <==> CHeader(p, payload).Some?
    ensures ok ==> img[..] == Flatten(CHeader(p, payload).value) + payload
  {
    hide Flatten, V1Sizes, V2Sizes, V23Sizes, Offset, Le32;
    if payload == [] || (p.minor != 3 && p.major != 1 && p.major != 2) {
      img := new byte[0];
      return false, img;
    }
    var sizes := if p.minor == 3 then V23Sizes() else if p.major == 1 then V1Sizes() else V2Sizes();
    var headerSize := SizeOf(sizes);
    img := new byte[headerSize + |payload|](k requires 0 <= k < headerSize + |payload| =>
      if k < headerSize then 0 else payload[k - headerSize]);
    BlankIsZeros(sizes);
    assert img[..] == Zeros(headerSize) + payload;
    if p.minor == 3 {
      SetHeaderV23(img, sizes, p, headerSize, payload);
    } else if p.major == 1 {
      SetHeaderV1(img, sizes, p, headerSize, payload);
    } else {
      SetHeaderV2(img, sizes, p, headerSize, payload);
    }
    ok := true;
  }

  lemma {:induction false} BlankIsZeros(sizes: seq<nat>)
    ensures Flatten(Blank(sizes)) == Zeros(SizeOf(sizes))
  {
    if sizes != [] {
      BlankIsZeros(sizes[1..]);
      assert Blank(sizes)[1..] == Blank(sizes[1..]);
    }
  }

  // ---- The Python builder

  /** The fields it packs; the packing of a byte that is too large fails. */
  function PyHeader(p: Params, payload: seq<byte>): Option<seq<seq<byte>>>
    requires |payload| <= MAX_PAYLOAD
  {
    var c, n := ByteSum(payload) % TWO_32, |payload|;
    var q := p.(version := 0);
    if p.major != 1 then Some(V2Fields(q, c, n))
    else if p.binaryType < 0x100 then Some(V1Fields(q, c, n))
    else None
  }

  /** Stm32Image.generate */
  method Generate(p: Params, payload: seq<byte>) returns (ok: bool, file: seq<byte>)
    requires |payload| <= MAX_PAYLOAD
    ensures ok <==> PyHeader(p, payload).Some?
    ensures ok ==> file == Flatten(PyHeader(p, payload).value) + payload
  {
    hide Flatten, Le32, ByteSum;
    var length := |payload|;
    var checksum := ListChecksum(payload);
    var nbfields := 17;
    var field: seq<seq<byte>> := seq(nbfields, _ => []);
    field := field[0 := MAGIC][1 := Zeros(64)][2 := Le32(checksum)][3 := [0, p.minor, p.major, 0]][4 := Le32(length)];
    field := field[5 := Le32(p.entry)][6 := Zeros(4)][7 := Le32(p.load)][8 := Zeros(4)][9 := Le32(0)];
    if p.major == 1 {
      nbfields := 15;
      if p.binaryType >= 0x100 {
        return false, [];
      }
      field := field[10 := Le32(1)][11 := Le32(1)][12 := Zeros(64)][13 := Zeros(83)][14 := [p.binaryType]];
    } else {
      field := field[10 := Le32(PADDING_FLAG)][11 := Le32(512 - 128)][12 := Le32(p.binaryType)][13 := Zeros(16)];
      field := field[14 := PADDING_MAGIC][15 := Le32(512 - 128)][16 := Zeros(512 - 128 - 8)];
    }
    file := WriteFields(field, nbfields);
    assert field[..nbfields] == PyHeader(p, payload).value;
    file := file + payload;
    ok := true;
  }

  /** The writing loop, which leaves out fields that were never filled. */
  method WriteFields(field: seq<seq<byte>>, nbfields: nat) returns (file: seq<byte>)
    requires nbfields <= |field|
    ensures file == Flatten(field[..nbfields])
  {
    file := [];
    var i := 0;
    while i < nbfields
      invariant i <= nbfields && file == Flatten(field[..i])
    {
      FlattenSnoc(field[..i], field[i]);
      assert field[..i + 1] == field[..i] + [field[i]];
      if field[i] != [] {
        file := file + field[i];
      }
      i := i + 1;
    }
  }

  lemma {:induction false} FlattenSnoc(fs: seq<seq<byte>>, f: seq<byte>)
    ensures Flatten(fs + [f]) == Flatten(fs) + f
  {
    if fs == [] {
      assert [f][1..] == [];
      assert f + [] == f;
    } else {
      assert (fs + [f])[1..] == fs[1..] + [f];
      FlattenSnoc(fs[1..], f);
    }
  }

  // ---- Where they agree

  lemma {:induction false} SizeOfJoin(a: seq<nat>, b: seq<nat>)
    ensures SizeOf(a + b) == SizeOf(a) + SizeOf(b)
  {
    if a == [] {
      assert [] + b == b;
    } else {
      assert (a + b)[1..] == a[1..] + b;
      SizeOfJoin(a[1..], b);
    }
  }

  lemma {:induction false} SizeOfWords(n: nat)
    ensures SizeOf(Words(n)) == 4 * n
  {
    if n > 0 {
      assert Words(n)[1..] == Words(n - 1);
      SizeOfWords(n - 1);
    }
  }

  lemma SizeOfOne(a: nat)
    ensures SizeOf([a]) == a
  {
    assert Offset([a], 1) == a + Offset([], 0);
  }

  lemma CommonSize(sig: nat)
    ensures SizeOf(CommonSizes(sig)) == 36 + sig
  {
    hide SizeOf;
    SizeOfOne(4);
    SizeOfOne(sig);
    SizeOfJoin([4], [sig]);
    SizeOfWords(8);
    assert [4, sig] == [4] + [sig];
    SizeOfJoin([4, sig], Words(8));
  }

  /** A layout that ends in some words, a block, more words and another block. */
  lemma TailSize(sig: nat, m: nat, x: nat, n: nat, y: nat)
    ensures SizeOf(CommonSizes(sig) + (Words(m) + ([x] + (Words(n) + [y])))) == 36 + sig + 4 * m + x + 4 * n + y
  {
    hide SizeOf, Words, CommonSizes;
    CommonSize(sig);
    SizeOfWords(m);
    SizeOfWords(n);
    SizeOfOne(x);
    SizeOfOne(y);
    SizeOfJoin(Words(n), [y]);
    SizeOfJoin([x], Words(n) + [y]);
    SizeOfJoin(Words(m), [x] + (Words(n) + [y]));
    SizeOfJoin(CommonSizes(sig), Words(m) + ([x] + (Words(n) + [y])));
  }

  /** The headers are 256, 512 and 576 bytes long. */
  lemma Sizes()
    ensures SizeOf(V1Sizes()) == 256 && SizeOf(V2Sizes()) == 512 && SizeOf(V23Sizes()) == 576
  {
    hide SizeOf, CommonSizes;
    TailSize(64, 3, 16, 2, 376);
    TailSize(96, 3, 8, 4, 408);
    TailSize(64, 2, 64, 0, 83);
    SizeOfOne(1);
    SizeOfJoin(CommonSizes(64) + (Words(2) + ([64] + (Words(0) + [83]))), [1]);
    assert V1Sizes() == CommonSizes(64) + (Words(2) + ([64] + (Words(0) + [83]))) + [1];
    assert V2Sizes() == CommonSizes(64) + (Words(3) + ([16] + (Words(2) + [376])));
    assert V23Sizes() == CommonSizes(96) + (Words(3) + ([8] + (Words(4) + [408])));
  }

  lemma HeaderFits(p: Params, checksum: uint32, length: uint32)
    ensures p.binaryType < 0x100 ==> Fits(V1Fields(p, checksum, length), V1Sizes())
    ensures Fits(V2Fields(p, checksum, length), V2Sizes())
    ensures Fits(V23Fields(p, checksum, length), V23Sizes())
  {
    hide Le32;
  }

  /** The version is part of the image. */
  lemma VersionShows(p: Params, q: Params, sizes: seq<nat>, fs: seq<seq<byte>>, gs: seq<seq<byte>>)
    requires Fits(fs, sizes) && Fits(gs, sizes) && |sizes| > 9
    requires fs[9] == Le32(p.version) && gs[9] == Le32(q.version) && Flatten(fs) == Flatten(gs)
    ensures p.version == q.version
  {
    FieldAt(fs, sizes, 9);
    FieldAt(gs, sizes, 9);
    assert p.version == FromLe32(fs[9]) == FromLe32(gs[9]) == q.version;
  }

  /** The length of the image each builder makes. */
  lemma ImageLengths(p: Params, payload: seq<byte>)
    requires |payload| <= MAX_PAYLOAD
    ensures CHeader(p, payload).Some? ==>
      |Flatten(CHeader(p, payload).value)| == if p.minor == 3 then 576 else if p.major == 1 then 256 else 512
    ensures PyHeader(p, payload).Some? ==> |Flatten(PyHeader(p, payload).value)| == if p.major == 1 then 256 else 512
  {
    hide Le32, Flatten, SizeOf, V1Sizes, V2Sizes, V23Sizes, V1Fields, V2Fields, V23Fields;
    Sizes();
    var c, n := ByteSum(payload) % TWO_32, |payload|;
    var masked := p.(binaryType := p.binaryType % 0x100);
    var q := p.(version := 0);
    HeaderFits(p, c, n);
    HeaderFits(masked, c, n);
    HeaderFits(q, c, n);
    if p.minor == 3 {
      Length(V23Fields(p, c, n), V23Sizes());
    } else if p.major == 1 {
      Length(V1Fields(masked, c, n), V1Sizes());
    } else {
      Length(V2Fields(p, c, n), V2Sizes());
    }
    if p.major != 1 {
      Length(V2Fields(q, c, n), V2Sizes());
    } else if p.binaryType < 0x100 {
      Length(V1Fields(q, c, n), V1Sizes());
    }
  }

  lemma Length(fs: seq<seq<byte>>, sizes: seq<nat>)
    requires Fits(fs, sizes)
    ensures |Flatten(fs)| == SizeOf(sizes)
  {
    FlattenLength(fs, sizes);
  }

  ghost predicate SameImage(p: Params, payload: seq<byte>)
    requires |payload| <= MAX_PAYLOAD
  {
    CHeader(p, payload).Some? && PyHeader(p, payload).Some? &&
    Flatten(CHeader(p, payload).value) + payload == Flatten(PyHeader(p, payload).value) + payload
  }

  /**
   * The two builders make the same image exactly for a payload that is not empty,
   * version 1 or 2, any subversion but 3, version number 0, and a binary type that
   * fits its field.
   */
  lemma BuildersAgree(p: Params, payload: seq<byte>)
    requires |payload| <= MAX_PAYLOAD
    ensures SameImage(p, payload) <==>
      payload != [] && (p.major == 1 || p.major == 2) && p.minor != 3 && p.version == 0 &&
      (p.major == 1 ==> p.binaryType < 0x100)
  {
    hide Le32, Flatten, ByteSum, V1Fields, V2Fields, V23Fields;
    ImageLengths(p, payload);
    var c, n := ByteSum(payload) % TWO_32, |payload|;
    var q := p.(version := 0);
    assert p.version == 0 ==> q == p;
    assert p.binaryType < 0x100 ==> p.(binaryType := p.binaryType % 0x100) == p;
    if SameImage(p, payload) {
      Unsuffix(Flatten(CHeader(p, payload).value), Flatten(PyHeader(p, payload).value), payload);
      HeaderFits(p, c, n);
      HeaderFits(q, c, n);
      VersionField(p, c, n);
      VersionField(q, c, n);
      if p.major == 1 {
        VersionShows(p, q, V1Sizes(), V1Fields(p, c, n), V1Fields(q, c, n));
      } else {
        VersionShows(p, q, V2Sizes(), V2Fields(p, c, n), V2Fields(q, c, n));
      }
    }
  }

  lemma VersionField(p: Params, checksum: uint32, length: uint32)
    ensures p.binaryType < 0x100 ==> V1Fields(p, checksum, length)[9] == Le32(p.version)
    ensures V2Fields(p, checksum, length)[9] == Le32(p.version)
  {
    hide Le32;
  }

  lemma Unsuffix(a: seq<byte>, b: seq<byte>, t: seq<byte>)
    requires a + t == b + t
    ensures a == b
  {
    assert |a + t| == |b + t|;
    assert (a + t)[..|a|] == a && (b + t)[..|b|] == b;
  }
}
