/**
 * The boot images byte by byte: at which offset of the file each value stands, lowest
 * byte first, for every header version and both builders.
 */
module ImageBytes {
  import opened Bytes
  import opened ImageHeader

  /** A word at an offset, its lowest byte first. */
  predicate WordAt(f: seq<byte>, at: nat, v: int) {
    && at + 4 <= |f|
    && f[at] as int + 256 * f[at + 1] as int + 65536 * f[at + 2] as int + 16777216 * f[at + 3] as int == v
  }

  predicate ZerosAt(f: seq<byte>, from: nat, to: nat) {
    to <= |f| && forall k :: from <= k < to ==> f[k] == 0
  }

  predicate BytesAt(f: seq<byte>, at: nat, a: byte, b: byte, c: byte, d: byte) {
    at + 4 <= |f| && f[at] == a && f[at + 1] == b && f[at + 2] == c && f[at + 3] == d
  }

  /** What every header begins with: the magic number, room for a signature, and eight words behind it. */
  predicate Begins(f: seq<byte>, p: Params, sig: nat, sum: nat, length: nat, version: nat) {
    && BytesAt(f, 0, 0x53, 0x54, 0x4D, 0x32) && ZerosAt(f, 4, 4 + sig) && WordAt(f, 4 + sig, sum)
    && BytesAt(f, 8 + sig, 0, p.minor, p.major, 0) && WordAt(f, 12 + sig, length) && WordAt(f, 16 + sig, p.entry)
    && WordAt(f, 20 + sig, 0) && WordAt(f, 24 + sig, p.load) && WordAt(f, 28 + sig, 0) && WordAt(f, 32 + sig, version)
  }

  predicate IsV1(f: seq<byte>, p: Params, sum: nat, payload: seq<byte>, version: nat) {
    && Begins(f, p, 64, sum, |payload|, version) && WordAt(f, 100, 1) && WordAt(f, 104, 1) && ZerosAt(f, 108, 255)
    && |f| == 256 + |payload| && f[255] == p.binaryType % 256 && f[256..] == payload
  }

  predicate IsV2(f: seq<byte>, p: Params, sum: nat, payload: seq<byte>, version: nat) {
    && Begins(f, p, 64, sum, |payload|, version) && WordAt(f, 100, 0x8000_0000) && WordAt(f, 104, 384)
    && WordAt(f, 108, p.binaryType) && ZerosAt(f, 112, 128) && BytesAt(f, 128, 0x53, 0x54, 0xFF, 0xFF)
    && WordAt(f, 132, 384) && ZerosAt(f, 136, 512) && |f| == 512 + |payload| && f[512..] == payload
  }

  predicate IsV23(f: seq<byte>, p: Params, sum: nat, payload: seq<byte>, version: nat) {
    && Begins(f, p, 96, sum, |payload|, version) && WordAt(f, 132, 0x8000_0000) && WordAt(f, 136, 416)
    && WordAt(f, 140, p.binaryType) && ZerosAt(f, 144, 160) && BytesAt(f, 160, 0x53, 0x54, 0xFF, 0xFF)
    && WordAt(f, 164, 416) && ZerosAt(f, 168, 576) && |f| == 576 + |payload| && f[576..] == payload
  }

  // ---- Fields at their offsets

  lemma {:induction false} OffsetNext(sizes: seq<nat>, i: nat)
    requires i < |sizes|
    ensures Offset(sizes, 0) == 0 && Offset(sizes, i + 1) == Offset(sizes, i) + sizes[i]
  {
    if i > 0 { OffsetNext(sizes[1..], i - 1); }
  }

  /** One field of a file: where it stands, and where the next one does. */
  lemma Field(f: seq<byte>, fs: seq<seq<byte>>, sizes: seq<nat>, payload: seq<byte>, i: nat)
    requires Fits(fs, sizes) && i < |fs| && f == Flatten(fs) + payload
    ensures
      var at := Offset(sizes, i);
      && at + sizes[i] <= |f| && f[at..at + sizes[i]] == fs[i] && |fs[i]| == sizes[i]
      && Offset(sizes, i + 1) == at + sizes[i]
  {
    hide Offset, Flatten;
    FieldAt(fs, sizes, i);
    OffsetNext(sizes, i);
  }

  lemma WordHere(f: seq<byte>, at: nat, v: uint32)
    requires at + 4 <= |f| && f[at..at + 4] == Le32(v)
    ensures WordAt(f, at, v)
  {
    hide Le32;
    var s := f[at..at + 4];
    assert s[0] == f[at] && s[1] == f[at + 1] && s[2] == f[at + 2] && s[3] == f[at + 3];
    assert FromLe32(s) == v;
  }

  lemma ZerosHere(f: seq<byte>, at: nat, n: nat)
    requires at + n <= |f| && f[at..at + n] == Zeros(n)
    ensures ZerosAt(f, at, at + n)
    ensures n == 4 ==> WordAt(f, at, 0)
  {
    assert forall k :: at <= k < at + n ==> f[k] == f[at..at + n][k - at];
  }

  lemma BytesHere(f: seq<byte>, at: nat, s: seq<byte>)
    requires |s| == 4 && at + 4 <= |f| && f[at..at + 4] == s
    ensures BytesAt(f, at, s[0], s[1], s[2], s[3])
  {
    assert forall k :: at <= k < at + 4 ==> f[k] == f[at..at + 4][k - at];
  }

  // ---- The headers

  lemma {:induction false} CommonBytes(f: seq<byte>, fs: seq<seq<byte>>, sizes: seq<nat>, p: Params, sig: nat,
                                       sum: uint32, length: uint32, payload: seq<byte>)
    requires Fits(fs, sizes) && f == Flatten(fs) + payload && |fs| > 10 && IsLayout(sizes)
    requires sizes[1] == sig && fs[..10] == Common(p, sig, sum, length)
    ensures Begins(f, p, sig, sum, length, p.version) && Offset(sizes, 10) == 36 + sig
  {
    hide Flatten, Offset, Le32, Zeros, WordAt, ZerosAt, BytesAt, Fits;
    var c := Common(p, sig, sum, length);
    forall i | 0 <= i < 10 ensures fs[i] == c[i] { assert fs[..10][i] == fs[i]; }
    OffsetNext(sizes, 0);
    Field(f, fs, sizes, payload, 0);
    Field(f, fs, sizes, payload, 1);
    Field(f, fs, sizes, payload, 2);
    Field(f, fs, sizes, payload, 3);
    Field(f, fs, sizes, payload, 4);
    Field(f, fs, sizes, payload, 5);
    Field(f, fs, sizes, payload, 6);
    Field(f, fs, sizes, payload, 7);
    Field(f, fs, sizes, payload, 8);
    Field(f, fs, sizes, payload, 9);
    BytesHere(f, 0, MAGIC);
    ZerosHere(f, 4, sig);
    WordHere(f, 4 + sig, sum);
    BytesHere(f, 8 + sig, [0, p.minor, p.major, 0]);
    WordHere(f, 12 + sig, length);
    WordHere(f, 16 + sig, p.entry);
    ZerosHere(f, 20 + sig, 4);
    WordHere(f, 24 + sig, p.load);
    ZerosHere(f, 28 + sig, 4);
    WordHere(f, 32 + sig, p.version);
  }

  lemma V1Bytes(f: seq<byte>, p: Params, sum: uint32, payload: seq<byte>)
    requires |payload| <= MAX_PAYLOAD && p.binaryType < 0x100 && f == Flatten(V1Fields(p, sum, |payload|)) + payload
    ensures IsV1(f, p, sum, payload, p.version)
  {
    hide Flatten, Offset, Le32, Zeros, WordAt, ZerosAt, BytesAt, V1Sizes, SizeOf;
    var fs, sizes := V1Fields(p, sum, |payload|), V1Sizes();
    HeaderFits(p, sum, |payload|);
    V1SizesAre();
    Sizes();
    Length(fs, sizes);
    CommonBytes(f, fs, sizes, p, 64, sum, |payload|, payload);
    hide Fits;
    Field(f, fs, sizes, payload, 10);
    Field(f, fs, sizes, payload, 11);
    Field(f, fs, sizes, payload, 12);
    Field(f, fs, sizes, payload, 13);
    Field(f, fs, sizes, payload, 14);
    WordHere(f, 100, 1);
    WordHere(f, 104, 1);
    ZerosHere(f, 108, 64);
    ZerosHere(f, 172, 83);
    assert ZerosAt(f, 108, 255) by { ZerosJoin(f, 108, 172, 255); }
    assert f[255..256] == [p.binaryType];
    assert f[255] == f[255..256][0];
  }

  lemma ZerosJoin(f: seq<byte>, a: nat, b: nat, c: nat)
    requires a <= b <= c && ZerosAt(f, a, b) && ZerosAt(f, b, c)
    ensures ZerosAt(f, a, c)
  {
  }

  lemma V2Bytes(f: seq<byte>, p: Params, sum: uint32, payload: seq<byte>)
    requires |payload| <= MAX_PAYLOAD && f == Flatten(V2Fields(p, sum, |payload|)) + payload
    ensures IsV2(f, p, sum, payload, p.version)
  {
    hide Flatten, Offset, Le32, Zeros, WordAt, ZerosAt, BytesAt, V2Sizes, SizeOf;
    var fs, sizes := V2Fields(p, sum, |payload|), V2Sizes();
    HeaderFits(p, sum, |payload|);
    V2SizesAre();
    Sizes();
    Length(fs, sizes);
    CommonBytes(f, fs, sizes, p, 64, sum, |payload|, payload);
    hide Fits;
    Field(f, fs, sizes, payload, 10);
    Field(f, fs, sizes, payload, 11);
    Field(f, fs, sizes, payload, 12);
    Field(f, fs, sizes, payload, 13);
    Field(f, fs, sizes, payload, 14);
    Field(f, fs, sizes, payload, 15);
    Field(f, fs, sizes, payload, 16);
    WordHere(f, 100, PADDING_FLAG);
    WordHere(f, 104, PADDING_LENGTH);
    WordHere(f, 108, p.binaryType);
    ZerosHere(f, 112, 16);
    BytesHere(f, 128, PADDING_MAGIC);
    WordHere(f, 132, PADDING_LENGTH);
    ZerosHere(f, 136, 376);
  }

  lemma V23Bytes(f: seq<byte>, p: Params, sum: uint32, payload: seq<byte>)
    requires |payload| <= MAX_PAYLOAD && f == Flatten(V23Fields(p, sum, |payload|)) + payload
    ensures IsV23(f, p, sum, payload, p.version)
  {
    hide Flatten, Offset, Le32, Zeros, WordAt, ZerosAt, BytesAt, V23Sizes, SizeOf;
    var fs, sizes := V23Fields(p, sum, |payload|), V23Sizes();
    HeaderFits(p, sum, |payload|);
    V23SizesAre();
    Sizes();
    Length(fs, sizes);
    CommonBytes(f, fs, sizes, p, 96, sum, |payload|, payload);
    hide Fits;
    Field(f, fs, sizes, payload, 10);
    Field(f, fs, sizes, payload, 11);
    Field(f, fs, sizes, payload, 12);
    Field(f, fs, sizes, payload, 13);
    Field(f, fs, sizes, payload, 14);
    Field(f, fs, sizes, payload, 15);
    Field(f, fs, sizes, payload, 16);
    Field(f, fs, sizes, payload, 17);
    Field(f, fs, sizes, payload, 18);
    WordHere(f, 132, PADDING_FLAG);
    WordHere(f, 136, PADDING_LENGTH_V23);
    WordHere(f, 140, p.binaryType);
    ZerosHere(f, 144, 8);
    ZerosHere(f, 152, 4);
    ZerosHere(f, 156, 4);
    ZerosJoin(f, 144, 152, 156);
    ZerosJoin(f, 144, 156, 160);
    BytesHere(f, 160, PADDING_MAGIC);
    WordHere(f, 164, PADDING_LENGTH_V23);
    ZerosHere(f, 168, 408);
  }

  // ---- The two builders

  /** The checksum counts every byte once. */
  lemma {:induction false} SumIs(b: byte, s: seq<byte>)
    ensures ByteSum([]) == 0 && ByteSum([b] + s) == b + ByteSum(s)
    decreases |s|
  {
    var t := [b] + s;
    if s == [] {
      assert t[..0] == [] && t[|t| - 1] == b;
    } else {
      assert t[..|t| - 1] == [b] + s[..|s| - 1] && t[|t| - 1] == s[|s| - 1];
      SumIs(b, s[..|s| - 1]);
    }
  }

  /**
   * The C builder: version 2.3 for subversion 3 whatever the version, version 1 with
   * the binary type cut to a byte, version 2, and nothing else; never for an empty payload.
   */
  lemma {:induction false} CImageIs(p: Params, payload: seq<byte>)
    requires |payload| <= MAX_PAYLOAD
    ensures CHeader(p, payload).Some? <==> payload != [] && (p.minor == 3 || p.major == 1 || p.major == 2)
    ensures CHeader(p, payload).Some? ==>
      var f, sum := Flatten(CHeader(p, payload).value) + payload, ByteSum(payload) % 0x1_0000_0000;
      if p.minor == 3 then IsV23(f, p, sum, payload, p.version)
      else if p.major == 1 then IsV1(f, p, sum, payload, p.version) else IsV2(f, p, sum, payload, p.version)
  {
    hide Flatten, ByteSum, IsV1, IsV2, IsV23, V1Fields, V2Fields, V23Fields;
    var sum := ByteSum(payload) % 0x1_0000_0000;
    if CHeader(p, payload).Some? {
      var f := Flatten(CHeader(p, payload).value) + payload;
      var cut := p.(binaryType := p.binaryType % 0x100);
      if p.minor == 3 {
        V23Bytes(f, p, sum, payload);
      } else if p.major == 1 {
        V1Bytes(f, cut, sum, payload);
        CutType(f, p, cut, sum, payload);
      } else {
        V2Bytes(f, p, sum, payload);
      }
    }
  }

  lemma CutType(f: seq<byte>, p: Params, cut: Params, sum: nat, payload: seq<byte>)
    requires cut == p.(binaryType := p.binaryType % 0x100) && IsV1(f, cut, sum, payload, p.version)
    ensures IsV1(f, p, sum, payload, p.version)
  {
    hide WordAt, ZerosAt, BytesAt;
  }

  /** The Python builder: version 1, if the binary type is a byte, and version 2 for any other; version number 0. */
  lemma {:induction false} PythonImageIs(p: Params, payload: seq<byte>)
    requires |payload| <= MAX_PAYLOAD
    ensures PyHeader(p, payload).Some? <==> (p.major == 1 ==> p.binaryType < 256)
    ensures PyHeader(p, payload).Some? ==>
      var f, sum := Flatten(PyHeader(p, payload).value) + payload, ByteSum(payload) % 0x1_0000_0000;
      if p.major == 1 then IsV1(f, p, sum, payload, 0) else IsV2(f, p, sum, payload, 0)
  {
    hide Flatten, ByteSum, V1Fields, V2Fields, WordAt, ZerosAt, BytesAt;
    var q, sum := p.(version := 0), ByteSum(payload) % 0x1_0000_0000;
    if PyHeader(p, payload).Some? {
      var f := Flatten(PyHeader(p, payload).value) + payload;
      if p.major == 1 {
        V1Bytes(f, q, sum, payload);
      } else {
        V2Bytes(f, q, sum, payload);
      }
    }
  }
}
