/**
 * Loading images from the SD card into memory, and the two loads of the boot
 * command.  Memory is indexed by physical address; the variables of the program
 * are 32 bits wide and wrap.
 */
module Boot {
  import opened Bytes
  import opened SdCard

  const LOAD_CHUNK_BLOCKS := 2048
  const KERNEL_LBA := 262144
  const KERNEL_BLOCKS := 49152
  const KERNEL_ADDR := 0x8400_0000
  const DTB_LBA := 327680
  const DTB_BLOCKS := 512
  const DTB_ADDR := 0x8600_0000

  /** Room for whatever a 32-bit start address and a 32-bit count of words can reach. */
  const MEMORY := TWO_32 + 4 * TWO_32

  // ---- Reading and loading on values

  /** A read of whole blocks into memory: an error may leave anything in the destination, and nowhere else. */
  function ReadInto(m: seq<byte>, card: seq<byte>, lba: nat, blocks: nat, addr: nat,
      luck: SdOutcome): (r: (bool, seq<byte>))
    requires addr + BLOCK * blocks <= |m|
    ensures |r.1| == |m|
  {
    var (ok, data) := SdRead(card, lba, blocks, m[addr..addr + BLOCK * blocks], luck);
    (ok, Splice(m, addr, data))
  }

  function Chunk(n: uint32, done: nat): nat
    requires done < n
  {
    Min(n - done, LOAD_CHUNK_BLOCKS)
  }

  /** load_region from its progress `done` on; `luck` tells how the reads still to come turn out. */
  function Load(m: seq<byte>, card: seq<byte>, n: uint32, lba: uint32, dest: uint32, done: nat,
      luck: seq<SdOutcome>): (r: (bool, seq<byte>))
    requires |m| == MEMORY && done <= n
    ensures |r.1| == |m|
    decreases n - done
  {
    if done == n then (true, m)
    else
      var cnt := Chunk(n, done);
      var (ok, m') := ReadInto(m, card, Wrap32(lba + done), cnt, Wrap32(dest + BLOCK * done), First(luck));
      if ok then Load(m', card, n, lba, dest, done + cnt, Later(luck)) else (false, m')
  }

  function First(luck: seq<SdOutcome>): SdOutcome {
    if luck == [] then SdOk else luck[0]
  }

  function Later(luck: seq<SdOutcome>): seq<SdOutcome> {
    if luck == [] then [] else luck[1..]
  }

  /** One read: so many blocks from a block on to an address. */
  datatype Read = Read(lba: nat, addr: nat, blocks: nat)

  /** The reads of a load, in order. */
  function Reads(n: uint32, lba: uint32, dest: uint32, done: nat): seq<Read>
    requires done <= n
    decreases n - done
  {
    if done == n then []
    else
      var cnt := Chunk(n, done);
      [Read(Wrap32(lba + done), Wrap32(dest + BLOCK * done), cnt)] + Reads(n, lba, dest, done + cnt)
  }

  method LoadRegion(mem: array<byte>, card: seq<byte>, n: uint32, lba: uint32, dest: uint32, luck: seq<SdOutcome>)
      returns (ok: bool, ghost trace: seq<Read>)
    requires mem.Length == MEMORY
    modifies mem
    ensures (ok, mem[..]) == Load(old(mem[..]), card, n, lba, dest, 0, luck)
    ensures trace <= Reads(n, lba, dest, 0) && (ok ==> trace == Reads(n, lba, dest, 0))
  {
    hide ReadInto, First, Later, Load, Wrap32;
    var done, coming := 0, luck;
    trace := [];
    while done < n
      invariant 0 <= done <= n && Reads(n, lba, dest, 0) == trace + Reads(n, lba, dest, done)
      invariant Load(old(mem[..]), card, n, lba, dest, 0, luck) == Load(mem[..], card, n, lba, dest, done, coming)
    {
      LoadStep(mem[..], card, n, lba, dest, done, coming);
      WrapTwice(dest, BLOCK * done);
      var cnt := n - done;
      if cnt > LOAD_CHUNK_BLOCKS {
        cnt := LOAD_CHUNK_BLOCKS;
      }
      ghost var r;
      ok, r := ReadCard(mem, card, Wrap32(lba + done), cnt, Wrap32(dest + Wrap32(BLOCK * done)), First(coming));
      assert Reads(n, lba, dest, 0) == (trace + [r]) + Reads(n, lba, dest, done + cnt);
      trace := trace + [r];
      if !ok {
        assert Load(old(mem[..]), card, n, lba, dest, 0, luck) == (false, mem[..]);
        return;
      }
      done, coming := done + cnt, Later(coming);
    }
    ok := true;
    LoadEnd(mem[..], card, n, lba, dest, coming);
  }

  lemma LoadEnd(m: seq<byte>, card: seq<byte>, n: uint32, lba: uint32, dest: uint32, luck: seq<SdOutcome>)
    requires |m| == MEMORY
    ensures Load(m, card, n, lba, dest, n, luck) == (true, m)
  {
  }

  lemma WrapTwice(a: nat, b: nat)
    ensures Wrap32(a + Wrap32(b)) == Wrap32(a + b)
  {
  }

  /** sd_read. */
  method ReadCard(mem: array<byte>, card: seq<byte>, lba: nat, blocks: nat, addr: nat, luck: SdOutcome)
      returns (ok: bool, ghost r: Read)
    requires addr + BLOCK * blocks <= mem.Length
    modifies mem
    ensures r == Read(lba, addr, blocks)
    ensures (ok, mem[..]) == ReadInto(old(mem[..]), card, lba, blocks, addr, luck)
  {
    hide SdRead;
    var read := SdRead(card, lba, blocks, mem[addr..addr + BLOCK * blocks], luck);
    var data := read.1;
    forall k | 0 <= k < |data| {
      mem[addr + k] := data[k];
    }
    assert old(mem[..])[addr..addr + BLOCK * blocks] == old(mem[addr..addr + BLOCK * blocks]);
    assert mem[..] == Splice(old(mem[..]), addr, data);
    ok, r := read.0, Read(lba, addr, blocks);
  }

  // ---- What a load does

  /** Where the last chunk of a load starts. */
  function LastChunk(n: nat): nat {
    if n == 0 then 0 else LOAD_CHUNK_BLOCKS * ((n - 1) / LOAD_CHUNK_BLOCKS)
  }

  /** Every chunk of the load starts below 2^32, on the card and in memory. */
  predicate NoWrap(n: uint32, lba: uint32, dest: uint32): (b: bool)
    ensures b ==> dest + BLOCK * n <= TWO_32 + BLOCK * LOAD_CHUNK_BLOCKS
  {
    lba + LastChunk(n) < TWO_32 && dest + BLOCK * LastChunk(n) < TWO_32
  }

  /** Progress of a load is a multiple of the chunk length, or the load is over. */
  predicate AtChunk(n: nat, done: nat) {
    done <= n && (done == n || (done % LOAD_CHUNK_BLOCKS == 0 && done <= LastChunk(n)))
  }

  lemma NextChunk(n: uint32, done: nat)
    requires AtChunk(n, done) && done < n
    ensures AtChunk(n, done + Chunk(n, done))
  {
  }

  /** One chunk that was read, and the rest of the load behind it, are one splice. */
  lemma ChunkJoins(m: seq<byte>, card: seq<byte>, lba: nat, a: nat, b: nat, at: nat)
    requires OnCard(card, lba, a + b) && at + BLOCK * (a + b) <= |m|
    ensures Splice(Splice(m, at, Blocks(card, lba, a)), at + BLOCK * a, Blocks(card, lba + a, b))
         == Splice(m, at, Blocks(card, lba, a + b))
  {
    SpliceAppend(m, at, Blocks(card, lba, a), Blocks(card, lba + a, b));
    SliceJoin(card, BLOCK * lba, BLOCK * (lba + a), BLOCK * (lba + a + b));
  }

  /** Memory with `blocks` blocks of the card from `lba` on copied to `at`. */
  function Copied(m: seq<byte>, card: seq<byte>, lba: nat, blocks: nat, at: nat): (r: seq<byte>)
    requires at + BLOCK * blocks <= |m|
    ensures |r| == |m|
  {
    if blocks > 0 && OnCard(card, lba, blocks) then Splice(m, at, Blocks(card, lba, blocks)) else m
  }

  lemma CopiedJoins(m: seq<byte>, card: seq<byte>, lba: nat, a: nat, b: nat, at: nat)
    requires at + BLOCK * (a + b) <= |m| && a > 0 && OnCard(card, lba, a) && (b > 0 ==> OnCard(card, lba + a, b))
    ensures Copied(Splice(m, at, Blocks(card, lba, a)), card, lba + a, b, at + BLOCK * a)
      == Copied(m, card, lba, a + b, at)
    ensures OnCard(card, lba, a + b)
  {
    hide Splice, Blocks;
    if b > 0 { ChunkJoins(m, card, lba, a, b, at); }
  }

  lemma ReadIs(m: seq<byte>, card: seq<byte>, lba: nat, blocks: nat, addr: nat, luck: SdOutcome)
    requires addr + BLOCK * blocks <= |m| && ReadInto(m, card, lba, blocks, addr, luck).0
    ensures OnCard(card, lba, blocks)
    ensures ReadInto(m, card, lba, blocks, addr, luck).1 == Splice(m, addr, Blocks(card, lba, blocks))
  {
  }

  /** A load that succeeds puts exactly the card's blocks at the destination and changes nothing else. */
  lemma {:induction false} LoadIs(m: seq<byte>, card: seq<byte>, n: uint32, lba: uint32, dest: uint32, done: nat,
      luck: seq<SdOutcome>)
    requires |m| == MEMORY && AtChunk(n, done) && NoWrap(n, lba, dest) && Load(m, card, n, lba, dest, done, luck).0
    ensures done < n ==> OnCard(card, lba + done, n - done)
    ensures Load(m, card, n, lba, dest, done, luck).1 == Copied(m, card, lba + done, n - done, dest + BLOCK * done)
    decreases n - done
  {
    hide Load, Copied, Splice, Blocks, ReadInto, First, Later, OnCard, Wrap32;
    if done < n {
      var cnt := Chunk(n, done);
      var l, left, at := lba + done, n - done - cnt, dest + BLOCK * done;
      LoadStep(m, card, n, lba, dest, done, luck);
      NoWrapHere(l);
      NoWrapHere(at);
      var m' := ReadInto(m, card, l, cnt, at, First(luck)).1;
      NextChunk(n, done);
      LoadIs(m', card, n, lba, dest, done + cnt, Later(luck));
      assert Load(m', card, n, lba, dest, done + cnt, Later(luck)).1
        == Copied(m', card, l + cnt, left, at + BLOCK * cnt);
      ReadIs(m, card, l, cnt, at, First(luck));
      CopiedJoins(m, card, l, cnt, left, at);
      assert cnt + left == n - done;
    } else {
      LoadEnd(m, card, n, lba, dest, luck);
      CopiedNone(m, card, lba + done, dest + BLOCK * done);
    }
  }

  lemma WholeLoadIs(m: seq<byte>, card: seq<byte>, n: uint32, lba: uint32, dest: uint32, luck: seq<SdOutcome>)
    requires |m| == MEMORY && NoWrap(n, lba, dest) && Load(m, card, n, lba, dest, 0, luck).0
    ensures n > 0 ==> OnCard(card, lba, n)
    ensures Load(m, card, n, lba, dest, 0, luck).1 == Copied(m, card, lba, n, dest)
  {
    LoadIs(m, card, n, lba, dest, 0, luck);
  }

  lemma NoWrapHere(a: nat)
    requires a < TWO_32
    ensures Wrap32(a) == a
  {
  }

  lemma CopiedNone(m: seq<byte>, card: seq<byte>, lba: nat, at: nat)
    requires at <= |m|
    ensures Copied(m, card, lba, 0, at) == m
  {
  }

  /** Some read of the list stores at this address. */
  predicate Hit(rs: seq<Read>, x: nat) {
    rs != [] && (rs[0].addr <= x < rs[0].addr + BLOCK * rs[0].blocks || Hit(rs[1..], x))
  }

  /** A load, failed or not, wrapping or not, changes nothing its reads do not store to. */
  lemma {:induction false} LoadStaysInside(m: seq<byte>, card: seq<byte>, n: uint32, lba: uint32, dest: uint32,
                                           done: nat, luck: seq<SdOutcome>, x: nat)
    requires |m| == MEMORY && done <= n && x < |m| && !Hit(Reads(n, lba, dest, done), x)
    ensures Load(m, card, n, lba, dest, done, luck).1[x] == m[x]
    decreases n - done
  {
    hide Load, ReadInto, Wrap32;
    if done < n {
      var cnt := Chunk(n, done);
      LoadStep(m, card, n, lba, dest, done, luck);
      var r := ReadInto(m, card, Wrap32(lba + done), cnt, Wrap32(dest + BLOCK * done), First(luck));
      ReadStaysInside(m, card, Wrap32(lba + done), cnt, Wrap32(dest + BLOCK * done), First(luck));
      assert Reads(n, lba, dest, done)[1..] == Reads(n, lba, dest, done + cnt);
      if r.0 {
        LoadStaysInside(r.1, card, n, lba, dest, done + cnt, Later(luck), x);
      }
    } else {
      LoadEnd(m, card, n, lba, dest, luck);
    }
  }

  lemma ReadStaysInside(m: seq<byte>, card: seq<byte>, lba: nat, blocks: nat, addr: nat, luck: SdOutcome)
    requires addr + BLOCK * blocks <= |m|
    ensures SameOutside(m, ReadInto(m, card, lba, blocks, addr, luck).1, addr, addr + BLOCK * blocks)
  {
  }

  /** Without a wrap the reads store exactly to the destination. */
  lemma {:induction false} HitsDestination(n: uint32, lba: uint32, dest: uint32, done: nat, x: nat)
    requires AtChunk(n, done) && NoWrap(n, lba, dest)
    ensures Hit(Reads(n, lba, dest, done), x) <==> dest + BLOCK * done <= x < dest + BLOCK * n
    decreases n - done
  {
    if done < n {
      var cnt := Chunk(n, done);
      NoWrapHere(dest + BLOCK * done);
      NextChunk(n, done);
      HitsDestination(n, lba, dest, done + cnt, x);
      assert Reads(n, lba, dest, done)[1..] == Reads(n, lba, dest, done + cnt);
    }
  }

  /** So a load without a wrap, failed or not, leaves everything but its destination alone. */
  lemma {:induction false} LoadKeepsRest(m: seq<byte>, card: seq<byte>, n: uint32, lba: uint32, dest: uint32,
                                         luck: seq<SdOutcome>)
    requires |m| == MEMORY && NoWrap(n, lba, dest)
    ensures SameOutside(m, Load(m, card, n, lba, dest, 0, luck).1, dest, dest + BLOCK * n)
  {
    hide Load, Reads, Hit;
    var r := Load(m, card, n, lba, dest, 0, luck).1;
    forall x | 0 <= x < |m| && !(dest <= x < dest + BLOCK * n)
      ensures r[x] == m[x]
    {
      HitsDestination(n, lba, dest, 0, x);
      LoadStaysInside(m, card, n, lba, dest, 0, luck, x);
    }
  }

  lemma LoadStep(m: seq<byte>, card: seq<byte>, n: uint32, lba: uint32, dest: uint32, done: nat, luck: seq<SdOutcome>)
    requires |m| == MEMORY && done < n
    ensures
      var cnt := Chunk(n, done);
      var (ok, m') := ReadInto(m, card, Wrap32(lba + done), cnt, Wrap32(dest + BLOCK * done), First(luck));
      Load(m, card, n, lba, dest, done, luck) ==
        if ok then Load(m', card, n, lba, dest, done + cnt, Later(luck)) else (false, m')
  {
  }

  // ---- Chunks

  function Chunks(n: nat): nat {
    (n + LOAD_CHUNK_BLOCKS - 1) / LOAD_CHUNK_BLOCKS
  }

  /**
   * The range is read once, in order, in full chunks and a last one, whatever the
   * length; block numbers and addresses are those of the range modulo 2^32.
   */
  lemma {:induction false} ReadsCover(n: uint32, lba: uint32, dest: uint32, done: nat, k: nat)
    requires done <= n && (done == n || done % LOAD_CHUNK_BLOCKS == 0)
    ensures |Reads(n, lba, dest, done)| == Chunks(n - done)
    ensures k < Chunks(n - done) ==> done + LOAD_CHUNK_BLOCKS * k < n
    ensures k < Chunks(n - done) ==>
      var at := done + LOAD_CHUNK_BLOCKS * k;
      Reads(n, lba, dest, done)[k] == Read(Wrap32(lba + at), Wrap32(dest + BLOCK * at), Min(n - at, LOAD_CHUNK_BLOCKS))
    decreases n - done
  {
    hide Wrap32;
    if done < n {
      ReadsCover(n, lba, dest, done + Chunk(n, done), if k == 0 then 0 else k - 1);
    }
  }

  /** The reads are the range itself exactly when no chunk starts at 2^32 or beyond. */
  lemma StraightIff(n: uint32, lba: uint32, dest: uint32)
    requires n > 0
    ensures NoWrap(n, lba, dest) <==>
      forall k :: 0 <= k < |Reads(n, lba, dest, 0)| ==>
        Reads(n, lba, dest, 0)[k].lba == lba + LOAD_CHUNK_BLOCKS * k &&
        Reads(n, lba, dest, 0)[k].addr == dest + BLOCK * LOAD_CHUNK_BLOCKS * k
  {
    hide Reads;
    var r := Reads(n, lba, dest, 0);
    ReadsCover(n, lba, dest, 0, Chunks(n) - 1);
    assert LastChunk(n) == LOAD_CHUNK_BLOCKS * (Chunks(n) - 1);
    var last := r[Chunks(n) - 1];
    assert last.lba == Wrap32(lba + LastChunk(n)) && last.addr == Wrap32(dest + BLOCK * LastChunk(n));
    forall k | 0 <= k < |r|
      ensures r[k].lba == Wrap32(lba + LOAD_CHUNK_BLOCKS * k)
      ensures r[k].addr == Wrap32(dest + BLOCK * LOAD_CHUNK_BLOCKS * k)
      ensures LOAD_CHUNK_BLOCKS * k <= LastChunk(n)
    {
      ReadsCover(n, lba, dest, 0, k);
    }
  }

  // ---- load_sd

  /** The sum of the little-endian words of a text. */
  function WordSum(s: seq<byte>): nat
    decreases |s|
  {
    if |s| < 4 then 0 else WordSum(s[..|s| - 4]) + FromLe32(s[|s| - 4..])
  }

  /** Every four bytes count once, the lowest first. */
  lemma {:induction false} WordSumIs(a: byte, b: byte, c: byte, d: byte, s: seq<byte>)
    requires |s| % 4 == 0
    ensures WordSum([]) == 0
    ensures WordSum([a, b, c, d] + s) == a + 256 * b + 65536 * c + 16777216 * d + WordSum(s)
    decreases |s|
  {
    hide WordSum, FromLe32;
    var t := [a, b, c, d] + s;
    WordSumLast(t);
    WordSumLast(s);
    if s == [] {
      assert t[..0] == [] && t[0..] == [a, b, c, d];
      WordIs([a, b, c, d]);
    } else {
      var n := |s| - 4;
      assert t[..|t| - 4] == [a, b, c, d] + s[..n] && t[|t| - 4..] == s[n..];
      WordSumIs(a, b, c, d, s[..n]);
    }
  }

  lemma WordSumLast(s: seq<byte>)
    ensures s == [] ==> WordSum(s) == 0
    ensures |s| >= 4 ==> WordSum(s) == WordSum(s[..|s| - 4]) + FromLe32(s[|s| - 4..])
  {
  }

  lemma WordIs(s: seq<byte>)
    requires |s| == 4
    ensures FromLe32(s) == s[0] as int + 256 * s[1] as int + 65536 * s[2] as int + 16777216 * s[3] as int
  {
  }

  /** The command's default range, overridden by up to three arguments. */
  function Range(args: seq<uint32>): (uint32, uint32, uint32)
    requires |args| <= 3
  {
    (if |args| >= 1 then args[0] else KERNEL_BLOCKS, if |args| >= 2 then args[1] else KERNEL_LBA,
     if |args| >= 3 then args[2] else KERNEL_ADDR)
  }

  /** The bytes the checksum loop reads. */
  function Summed(m: seq<byte>, dest: uint32, n: uint32): seq<byte>
    requires |m| == MEMORY
  {
    m[dest..dest + 4 * Wrap32(n * (BLOCK / 4))]
  }

  /** Memory after a load, byte by byte: the card's in the destination, and as before everywhere else. */
  ghost predicate Replaced(m: seq<byte>, r: seq<byte>, card: seq<byte>, n: nat, lba: nat, dest: nat) {
    && |r| == |m| && dest + 512 * n <= |m| && (n > 0 ==> 512 * (lba + n) <= |card|)
    && (forall k :: dest <= k < dest + 512 * n ==> r[k] == card[512 * lba + (k - dest)])
    && (forall k :: 0 <= k < |m| && !(dest <= k < dest + 512 * n) ==> r[k] == m[k])
  }

  /** Neither the block number nor the address of a read reaches 2^32; a read is 2048 blocks, or what is left. */
  predicate Straight(n: nat, lba: nat, dest: nat) {
    var last := if n == 0 then 0 else n - 1 - (n - 1) % 2048;
    lba + last < 0x1_0000_0000 && dest + 512 * last < 0x1_0000_0000
  }

  ghost predicate NoFault(luck: seq<SdOutcome>) {
    forall k :: 0 <= k < |luck| ==> luck[k] == SdOk
  }

  lemma StraightIs(n: uint32, lba: uint32, dest: uint32)
    ensures Straight(n, lba, dest) <==> NoWrap(n, lba, dest)
  {
  }

  lemma CopiedIs(m: seq<byte>, card: seq<byte>, n: uint32, lba: uint32, dest: uint32)
    requires |m| == MEMORY && NoWrap(n, lba, dest) && (n > 0 ==> OnCard(card, lba, n))
    ensures Replaced(m, Copied(m, card, lba, n, dest), card, n, lba, dest)
  {
  }

  /** A load within the card fails only when a read does. */
  lemma {:induction false} LoadSucceeds(m: seq<byte>, card: seq<byte>, n: uint32, lba: uint32, dest: uint32,
                                        done: nat, luck: seq<SdOutcome>)
    requires |m| == MEMORY && AtChunk(n, done) && NoWrap(n, lba, dest)
    requires NoFault(luck) && 512 * (lba + n) <= |card|
    ensures Load(m, card, n, lba, dest, done, luck).0
    decreases n - done
  {
    hide Load, Wrap32;
    if done < n {
      var cnt, l, at := Chunk(n, done), lba + done, dest + BLOCK * done;
      LoadStep(m, card, n, lba, dest, done, luck);
      NoWrapHere(l);
      NoWrapHere(at);
      NextChunk(n, done);
      LoadSucceeds(ReadInto(m, card, l, cnt, at, First(luck)).1, card, n, lba, dest, done + cnt, Later(luck));
    } else {
      LoadEnd(m, card, n, lba, dest, luck);
    }
  }

  /**
   * The command in numbers: blocks, first block and address in this order, with the
   * defaults of a kernel image, and the sum of the words copied.
   */
  ghost predicate LoadsAsAsked(m: seq<byte>, r: seq<byte>, card: seq<byte>, args: seq<uint32>, luck: seq<SdOutcome>,
                               ok: bool, sum: uint32)
  {
    var n := if |args| > 0 then args[0] else 49152;
    var lba := if |args| > 1 then args[1] else 262144;
    var dest := if |args| > 2 then args[2] else 0x8400_0000;
    Straight(n, lba, dest) ==>
      && (ok ==> Replaced(m, r, card, n, lba, dest))
      && (ok && n > 0 ==> sum == WordSum(card[512 * lba..512 * (lba + n)]) % 0x1_0000_0000)
      && (NoFault(luck) && 512 * (lba + n) <= |card| ==> ok)
      && |r| == |m| && forall k :: 0 <= k < |m| && !(dest <= k < dest + 512 * n) ==> r[k] == m[k]
  }

  lemma {:induction false} AsAsked(m: seq<byte>, r: seq<byte>, card: seq<byte>, args: seq<uint32>, luck: seq<SdOutcome>,
                ok: bool, sum: uint32)
    requires |m| == MEMORY && |args| <= 3
    requires
      var (n, lba, dest) := Range(args);
      && (ok, r) == Load(m, card, n, lba, dest, 0, luck)
      && (ok ==> sum == WordSum(Summed(r, dest, n)) % TWO_32)
    ensures LoadsAsAsked(m, r, card, args, luck, ok, sum)
  {
    hide Load, WordSum, Summed, Copied, NoWrap, Straight, OnCard, Replaced;
    var (n, lba, dest) := Range(args);
    StraightIs(n, lba, dest);
    if NoWrap(n, lba, dest) {
      LoadKeepsRest(m, card, n, lba, dest, luck);
      if NoFault(luck) && 512 * (lba + n) <= |card| { LoadSucceeds(m, card, n, lba, dest, 0, luck); }
      if ok {
        WholeLoadIs(m, card, n, lba, dest, luck);
        CopiedIs(m, card, n, lba, dest);
        SummedIsBlocks(m, card, n, lba, dest);
      }
    }
  }

  /**
   * cmd_load_sd, with the hardware up: the checksum it reports is that of the
   * memory loaded and, unless the load wraps, that of the card's blocks, so that
   * comparing it checks the copy from end to end.
   */
  method LoadSd(mem: array<byte>, card: seq<byte>, args: seq<uint32>, luck: seq<SdOutcome>)
      returns (ok: bool, sum: uint32)
    requires mem.Length == MEMORY && |args| <= 3
    modifies mem
    ensures
      var (n, lba, dest) := Range(args);
      (ok, mem[..]) == Load(old(mem[..]), card, n, lba, dest, 0, luck) &&
      (ok ==> sum == WordSum(Summed(mem[..], dest, n)) % TWO_32)
    ensures
      var (n, lba, dest) := Range(args);
      ok && NoWrap(n, lba, dest) ==>
        mem[..] == Copied(old(mem[..]), card, lba, n, dest) &&
        (n > 0 ==> OnCard(card, lba, n) && sum == WordSum(Blocks(card, lba, n)) % TWO_32)
    ensures
      var (n, lba, dest) := Range(args);
      NoWrap(n, lba, dest) ==> SameOutside(old(mem[..]), mem[..], dest, dest + BLOCK * n)
    ensures LoadsAsAsked(old(mem[..]), mem[..], card, args, luck, ok, sum)
  {
    hide Load, WordSum, LoadsAsAsked;
    var (n, lba, dest) := Range(args);
    sum := 0;
    ghost var trace;
    ok, trace := LoadRegion(mem, card, n, lba, dest, luck);
    if NoWrap(n, lba, dest) {
      LoadKeepsRest(old(mem[..]), card, n, lba, dest, luck);
    }
    if !ok {
      AsAsked(old(mem[..]), mem[..], card, args, luck, ok, sum);
      return;
    }
    sum := SumWords(mem, dest, n);
    AsAsked(old(mem[..]), mem[..], card, args, luck, ok, sum);
    if NoWrap(n, lba, dest) {
      WholeLoadIs(old(mem[..]), card, n, lba, dest, luck);
      SummedIsBlocks(old(mem[..]), card, n, lba, dest);
    }
  }

  lemma SummedIsBlocks(m: seq<byte>, card: seq<byte>, n: uint32, lba: uint32, dest: uint32)
    requires |m| == MEMORY && NoWrap(n, lba, dest) && (n > 0 ==> OnCard(card, lba, n))
    ensures n > 0 ==> Summed(Copied(m, card, lba, n, dest), dest, n) == Blocks(card, lba, n)
  {
    if n > 0 {
      WordCount(n);
      var r := Copied(m, card, lba, n, dest);
      assert r[dest..dest + BLOCK * n] == Blocks(card, lba, n);
    }
  }

  lemma WordSumNone(s: seq<byte>)
    ensures WordSum(s[..0]) == 0
  {
  }

  lemma WordSumSnoc(s: seq<byte>, i: nat)
    requires 4 * i + 4 <= |s|
    ensures WordSum(s[..4 * (i + 1)]) == WordSum(s[..4 * i]) + FromLe32(s[4 * i..4 * i + 4])
  {
    var t := s[..4 * (i + 1)];
    assert t[..|t| - 4] == s[..4 * i] && t[|t| - 4..] == s[4 * i..4 * i + 4];
  }

  lemma SubSlice(m: seq<byte>, a: nat, b: nat, i: nat, j: nat)
    requires a <= b <= |m| && i <= j <= b - a
    ensures m[a..b][i..j] == m[a + i..a + j]
  {
    var s, t := m[a..b][i..j], m[a + i..a + j];
    assert forall k :: 0 <= k < |t| ==> s[k] == m[a..b][i + k] == t[k];
  }

  lemma WrapSum(a: nat, b: nat)
    ensures Wrap32(a % TWO_32 + b) == (a + b) % TWO_32
  {
  }

  lemma WordCount(n: uint32)
    requires BLOCK * n < 2 * TWO_32
    ensures Wrap32(n * (BLOCK / 4)) == 128 * n
  {
  }

  /** The checksum loop. */
  method SumWords(mem: array<byte>, dest: uint32, n: uint32) returns (sum: uint32)
    requires mem.Length == MEMORY
    ensures sum == WordSum(Summed(mem[..], dest, n)) % TWO_32
  {
    hide WordSum, FromLe32, Wrap32;
    var words: nat := Wrap32(n * (BLOCK / 4));
    ghost var s := Summed(mem[..], dest, n);
    sum := 0;
    WordSumNone(s);
    for i := 0 to words
      invariant sum == WordSum(s[..4 * i]) % TWO_32
    {
      var p := dest + 4 * i;
      var word := FromLe32(mem[p..p + 4]);
      WordSumSnoc(s, i);
      SubSlice(mem[..], dest, dest + 4 * words, 4 * i, 4 * i + 4);
      WrapSum(WordSum(s[..4 * i]), word);
      sum := Wrap32(sum + word);
    }
    assert s[..4 * words] == s;
  }

  // ---- boot

  function KernelLength(args: seq<uint32>): uint32 {
    if |args| >= 1 then args[0] else KERNEL_BLOCKS
  }

  /** The boot command in numbers: which blocks of the card stand where afterwards. */
  ghost predicate BootsAsMeant(m: seq<byte>, r: seq<byte>, card: seq<byte>, args: seq<uint32>, luck: seq<SdOutcome>,
                               dtbLuck: seq<SdOutcome>, ok: bool)
  {
    var n := if |args| > 0 then args[0] else 49152;
    Straight(n, 262144, 0x8400_0000) ==>
      && (ok ==> BothStand(m, r, card, n))
      && (NoFault(luck) && NoFault(dtbLuck) && 512 * (262144 + n) <= |card| && 512 * (327680 + 512) <= |card| ==> ok)
      && |r| == |m| && forall k :: 0 <= k < |m| && !InBoth(k, n) ==> r[k] == m[k]
  }

  predicate InBoth(k: nat, n: nat) {
    0x8400_0000 <= k < 0x8400_0000 + 512 * n || 0x8600_0000 <= k < 0x8600_0000 + 0x4_0000
  }

  /** The device tree's 512 blocks lie over the kernel image, where the two meet. */
  ghost predicate BothStand(m: seq<byte>, r: seq<byte>, card: seq<byte>, n: nat) {
    && |r| == |m| && 0x8400_0000 + 512 * n <= |m| && 0x8604_0000 <= |m| && 512 * (327680 + 512) <= |card|
    && (n > 0 ==> 512 * (262144 + n) <= |card|)
    && (forall k :: 0x8600_0000 <= k < 0x8604_0000 ==> r[k] == card[512 * 327680 + (k - 0x8600_0000)])
    && (forall k :: 0x8400_0000 <= k < 0x8400_0000 + 512 * n && !(0x8600_0000 <= k < 0x8604_0000) ==>
          r[k] == card[512 * 262144 + (k - 0x8400_0000)])
  }

  lemma BootKeepsRest(m: seq<byte>, card: seq<byte>, n: uint32, luck: seq<SdOutcome>, dtbLuck: seq<SdOutcome>)
    requires |m| == MEMORY && Straight(n, 262144, 0x8400_0000)
    ensures
      var kernel := Load(m, card, n, KERNEL_LBA, KERNEL_ADDR, 0, luck);
      var dtb := Load(kernel.1, card, DTB_BLOCKS, DTB_LBA, DTB_ADDR, 0, dtbLuck);
      forall k :: 0 <= k < |m| && !InBoth(k, n) ==> kernel.1[k] == dtb.1[k] == m[k]
  {
    hide Load;
    var kernel := Load(m, card, n, KERNEL_LBA, KERNEL_ADDR, 0, luck);
    DtbFits();
    LoadKeepsRest(m, card, n, KERNEL_LBA, KERNEL_ADDR, luck);
    LoadKeepsRest(kernel.1, card, DTB_BLOCKS, DTB_LBA, DTB_ADDR, dtbLuck);
  }

  lemma AsMeant(m: seq<byte>, r: seq<byte>, card: seq<byte>, args: seq<uint32>, luck: seq<SdOutcome>,
                dtbLuck: seq<SdOutcome>, ok: bool)
    requires |m| == MEMORY
    requires
      var kernel := Load(m, card, KernelLength(args), KERNEL_LBA, KERNEL_ADDR, 0, luck);
      (ok, r) == if kernel.0 then Load(kernel.1, card, DTB_BLOCKS, DTB_LBA, DTB_ADDR, 0, dtbLuck) else kernel
    ensures BootsAsMeant(m, r, card, args, luck, dtbLuck, ok)
  {
    hide Load, Copied, NoWrap, Straight, OnCard, NoFault, Replaced;
    var n := KernelLength(args);
    StraightIs(n, KERNEL_LBA, KERNEL_ADDR);
    if NoWrap(n, KERNEL_LBA, KERNEL_ADDR) {
      var kernel := Load(m, card, n, KERNEL_LBA, KERNEL_ADDR, 0, luck);
      BootKeepsRest(m, card, n, luck, dtbLuck);
      DtbFits();
      if NoFault(luck) && 512 * (262144 + n) <= |card| { LoadSucceeds(m, card, n, KERNEL_LBA, KERNEL_ADDR, 0, luck); }
      if NoFault(dtbLuck) && 512 * (327680 + 512) <= |card| {
        LoadSucceeds(kernel.1, card, DTB_BLOCKS, DTB_LBA, DTB_ADDR, 0, dtbLuck);
      }
      if ok {
        WholeLoadIs(m, card, n, KERNEL_LBA, KERNEL_ADDR, luck);
        CopiedIs(m, card, n, KERNEL_LBA, KERNEL_ADDR);
        WholeLoadIs(kernel.1, card, DTB_BLOCKS, DTB_LBA, DTB_ADDR, dtbLuck);
        CopiedIs(kernel.1, card, DTB_BLOCKS, DTB_LBA, DTB_ADDR);
        OneOverOther(m, kernel.1, r, card, n);
      }
    }
  }

  lemma OneOverOther(m: seq<byte>, kernel: seq<byte>, r: seq<byte>, card: seq<byte>, n: nat)
    requires Replaced(m, kernel, card, n, KERNEL_LBA, KERNEL_ADDR)
    requires Replaced(kernel, r, card, DTB_BLOCKS, DTB_LBA, DTB_ADDR)
    ensures BothStand(m, r, card, n)
  {
  }

  /** The loads of cmd_boot, with the hardware up; success means the hand-off is reached. */
  method LoadBoth(mem: array<byte>, card: seq<byte>, args: seq<uint32>, luck: seq<SdOutcome>,
      dtbLuck: seq<SdOutcome>) returns (ok: bool)
    requires mem.Length == MEMORY
    modifies mem
    ensures
      var kernel := Load(old(mem[..]), card, KernelLength(args), KERNEL_LBA, KERNEL_ADDR, 0, luck);
      (ok, mem[..]) == if kernel.0 then Load(kernel.1, card, DTB_BLOCKS, DTB_LBA, DTB_ADDR, 0, dtbLuck) else kernel
    ensures ok && NoWrap(KernelLength(args), KERNEL_LBA, KERNEL_ADDR) ==>
      Loaded(old(mem[..]), mem[..], card, KernelLength(args))
    ensures BootsAsMeant(old(mem[..]), mem[..], card, args, luck, dtbLuck, ok)
  {
    hide Load, Loaded, Copied, OnCard, Reads, BootsAsMeant;
    var kernelBlocks: uint32 := KERNEL_BLOCKS;
    if |args| >= 1 {
      kernelBlocks := args[0];
    }
    ghost var trace;
    ok, trace := LoadRegion(mem, card, kernelBlocks, KERNEL_LBA, KERNEL_ADDR, luck);
    if !ok {
      AsMeant(old(mem[..]), mem[..], card, args, luck, dtbLuck, ok);
      return;
    }
    ghost var m := mem[..];
    ok, trace := LoadRegion(mem, card, DTB_BLOCKS, DTB_LBA, DTB_ADDR, dtbLuck);
    AsMeant(old(mem[..]), mem[..], card, args, luck, dtbLuck, ok);
    if ok && NoWrap(kernelBlocks, KERNEL_LBA, KERNEL_ADDR) {
      WholeLoadIs(old(mem[..]), card, kernelBlocks, KERNEL_LBA, KERNEL_ADDR, luck);
      DtbFits();
      WholeLoadIs(m, card, DTB_BLOCKS, DTB_LBA, DTB_ADDR, dtbLuck);
      BothIntact(old(mem[..]), card, kernelBlocks);
    }
  }

  lemma DtbFits()
    ensures NoWrap(DTB_BLOCKS, DTB_LBA, DTB_ADDR)
  {
  }

  /** Both images stand where they belong, and nothing else has changed. */
  predicate Loaded(m: seq<byte>, r: seq<byte>, card: seq<byte>, kernelBlocks: nat) {
    |m| == |r| == MEMORY && KERNEL_ADDR + BLOCK * kernelBlocks <= MEMORY &&
    (kernelBlocks > 0 ==> OnCard(card, KERNEL_LBA, kernelBlocks)) && OnCard(card, DTB_LBA, DTB_BLOCKS) &&
    (kernelBlocks > 0 ==>
      r[KERNEL_ADDR..KERNEL_ADDR + BLOCK * kernelBlocks] == Blocks(card, KERNEL_LBA, kernelBlocks)) &&
    r[DTB_ADDR..DTB_ADDR + BLOCK * DTB_BLOCKS] == Blocks(card, DTB_LBA, DTB_BLOCKS) &&
    forall k :: 0 <= k < |m| && !InImage(k, kernelBlocks) ==> r[k] == m[k]
  }

  predicate InImage(k: nat, kernelBlocks: nat) {
    KERNEL_ADDR <= k < KERNEL_ADDR + BLOCK * kernelBlocks || DTB_ADDR <= k < DTB_ADDR + BLOCK * DTB_BLOCKS
  }

  lemma CopiedAt(m: seq<byte>, card: seq<byte>, lba: nat, blocks: nat, at: nat, k: nat)
    requires at + BLOCK * blocks <= |m| && k < |m| && (blocks > 0 ==> OnCard(card, lba, blocks))
    ensures Copied(m, card, lba, blocks, at)[k]
         == if at <= k < at + BLOCK * blocks then card[BLOCK * lba + (k - at)] else m[k]
  {
  }

  lemma BlocksAt(card: seq<byte>, lba: nat, blocks: nat, i: nat)
    requires OnCard(card, lba, blocks) && i < BLOCK * blocks
    ensures Blocks(card, lba, blocks)[i] == card[BLOCK * lba + i]
  {
  }

  /**
   * The second load does not spoil the first, whatever the kernel's length: up to
   * 65536 blocks the images lie apart, and a longer kernel image takes in on the
   * card the very blocks that are loaded over it.
   */
  lemma BothIntact(m: seq<byte>, card: seq<byte>, kernelBlocks: uint32)
    requires |m| == MEMORY && NoWrap(kernelBlocks, KERNEL_LBA, KERNEL_ADDR)
    requires kernelBlocks > 0 ==> OnCard(card, KERNEL_LBA, kernelBlocks)
    requires OnCard(card, DTB_LBA, DTB_BLOCKS)
    ensures
      var k := Copied(m, card, KERNEL_LBA, kernelBlocks, KERNEL_ADDR);
      Loaded(m, Copied(k, card, DTB_LBA, DTB_BLOCKS, DTB_ADDR), card, kernelBlocks)
  {
    hide Copied, Blocks;
    var kernel := Copied(m, card, KERNEL_LBA, kernelBlocks, KERNEL_ADDR);
    var r := Copied(kernel, card, DTB_LBA, DTB_BLOCKS, DTB_ADDR);
    forall k | 0 <= k < |m|
      ensures r[k] == if DTB_ADDR <= k < DTB_ADDR + BLOCK * DTB_BLOCKS then card[BLOCK * DTB_LBA + (k - DTB_ADDR)]
        else if KERNEL_ADDR <= k < KERNEL_ADDR + BLOCK * kernelBlocks
          then card[BLOCK * KERNEL_LBA + (k - KERNEL_ADDR)] else m[k]
    {
      CopiedAt(m, card, KERNEL_LBA, kernelBlocks, KERNEL_ADDR, k);
      CopiedAt(kernel, card, DTB_LBA, DTB_BLOCKS, DTB_ADDR, k);
    }
    forall i | 0 <= i < BLOCK * kernelBlocks
      ensures r[KERNEL_ADDR + i] == Blocks(card, KERNEL_LBA, kernelBlocks)[i]
    {
      BlocksAt(card, KERNEL_LBA, kernelBlocks, i);
    }
    forall i | 0 <= i < BLOCK * DTB_BLOCKS
      ensures r[DTB_ADDR + i] == Blocks(card, DTB_LBA, DTB_BLOCKS)[i]
    {
      BlocksAt(card, DTB_LBA, DTB_BLOCKS, i);
    }
  }
}
