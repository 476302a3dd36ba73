/**
 * Which registers the LPDDR4 save routine tracks: the loops over byte lanes,
 * nibbles and address blocks, and the count that must fit the retention list.
 */
module RetentionList {
  import opened Retention

  const R_MIN := 0
  const R_MAX := 8
  const B_MAX := 1

  const TANIB := 0
  const TDBYTE := 1
  const TMASTER := 2
  const TACSM := 4
  const TINITENG := 9

  /** A register address by its fields: block, unit in the block, lane or nibble or page, register. */
  datatype Reg = Reg(block: nat, unit: nat, group: nat, csr: nat)

  predicate InField(r: Reg) {
    r.block < 16 && r.unit < 16 && r.group < 16 && r.csr < 256
  }

  /** The fields do not overlap, so joining them is addition. */
  function Address(r: Reg): nat {
    0x1_0000 * r.block + 0x1000 * r.unit + 0x100 * r.group + r.csr
  }

  lemma AddressIsOne(r: Reg, q: Reg)
    requires InField(r) && InField(q) && Address(r) == Address(q)
    ensures r == q
  {
    OnePair(0x100, r.group, r.csr, q.group, q.csr);
    OnePair(0x1000, r.unit, 0x100 * r.group + r.csr, q.unit, 0x100 * q.group + q.csr);
    OnePair(0x1_0000, r.block, 0x1000 * r.unit + (0x100 * r.group + r.csr), q.block,
            0x1000 * q.unit + (0x100 * q.group + q.csr));
  }

  lemma OnePair(c: nat, a: nat, x: nat, b: nat, y: nat)
    requires x < c && y < c
    ensures c * a + x == c * b + y ==> a == b && x == y
  {
    var d := a - b;
    assert c * d == c * a - c * b;
    assert d >= 1 ==> c * d >= c;
    assert d <= -1 ==> c * d <= 0 - c;
  }

  // ---- The list, entry by entry

  /** First pass over a byte: two delays for each lane, then eleven settings. */
  function FirstPass(k: nat): (nat, nat) {
    if k < 18 then (k / 2, 0x68 + k % 2)
    else (0, if k == 18 then 0xAA else if k == 19 then 0x62 else if k == 20 then 0x01 else 0xA0 + (k - 21))
  }

  const NIBBLE_CSRS: seq<nat> := [0x80, 0x81, 0xD0, 0xD1, 0x8C, 0x8D]

  /** Second pass: latency, two receiver controls, six delays a nibble, two delays a lane, two counts. */
  function SecondPass(k: nat): (nat, nat) {
    if k == 0 then (0, 0x20)
    else if k < 3 then (k - 1, 0x43)
    else if k < 9 then (0, NIBBLE_CSRS[k - 3])
    else if k < 15 then (1, NIBBLE_CSRS[k - 9])
    else if k < 33 then ((k - 15) / 2, 0xC0 + (k - 15) % 2)
    else (0, 0xAE + (k - 33) % 2)
  }

  function Pie(): (s: seq<Reg>)
    ensures |s| == 8
  {
    seq(8, k requires 0 <= k < 8 => Reg(TINITENG, 0, 2, 1 + k))
  }

  function Masters(): (s: seq<Reg>)
    ensures |s| == 9
  {
    [Reg(TMASTER, 0, 0, 0x7C), Reg(TMASTER, 0, 0, 0x7D), Reg(TMASTER, 0, 0, 0x20), Reg(TINITENG, 0, 0, 0x12),
     Reg(TMASTER, 0, 0, 0x77), Reg(TMASTER, 0, 0, 0x72), Reg(TMASTER, 0, 0, 0x73),
     Reg(TACSM, 0, 0, 0xFD), Reg(TACSM, 0, 0, 0xC0)]
  }

  /** What follows the bytes: eight sequencer registers, then single ones. */
  function Tail(): (s: seq<Reg>)
    ensures |s| == 17
  {
    Pie() + Masters()
  }

  const PLLCTRL3 := Reg(TMASTER, 0, 0, 0xCB)
  const VREFINGLOBAL := Reg(TMASTER, 0, 0, 0xB2)
  const FIRST := 29
  const SECOND := 35

  function ByteReg(byte: nat, f: (nat, nat)): Reg {
    Reg(TDBYTE, byte, f.0, f.1)
  }

  function FirstList(byte: nat): (s: seq<Reg>)
    ensures |s| == FIRST
  {
    seq(FIRST, k requires 0 <= k < FIRST => ByteReg(byte, FirstPass(k)))
  }

  function SecondList(byte: nat): (s: seq<Reg>)
    ensures |s| == SECOND
  {
    seq(SECOND, k requires 0 <= k < SECOND => ByteReg(byte, SecondPass(k)))
  }

  function Firsts(n: nat): (s: seq<Reg>)
    ensures |s| == FIRST * n
  {
    if n == 0 then [] else Firsts(n - 1) + FirstList(n - 1)
  }

  function Seconds(n: nat): (s: seq<Reg>)
    ensures |s| == SECOND * n
  {
    if n == 0 then [] else Seconds(n - 1) + SecondList(n - 1)
  }

  function Anibs(n: nat): (s: seq<Reg>)
    ensures |s| == n
  {
    if n == 0 then [] else Anibs(n - 1) + [Reg(TANIB, n - 1, 0, 0x80)]
  }

  /** Every register the routine tracks, in its order. */
  function SaveList(anibs: nat, dbytes: nat): (s: seq<Reg>)
    ensures |s| == 19 + anibs + 64 * dbytes
  {
    [PLLCTRL3] + Firsts(dbytes) + [VREFINGLOBAL] + Anibs(anibs) + Seconds(dbytes) + Tail()
  }

  // ---- No register is in it twice

  predicate NoTwice(s: seq<Reg>) {
    forall i, j :: 0 <= i < j < |s| ==> s[i] != s[j]
  }

  predicate Apart(s: seq<Reg>, t: seq<Reg>) {
    forall i, j :: 0 <= i < |s| && 0 <= j < |t| ==> s[i] != t[j]
  }

  lemma Joined(s: seq<Reg>, t: seq<Reg>)
    requires NoTwice(s) && NoTwice(t) && Apart(s, t)
    ensures NoTwice(s + t)
  {
  }

  /** The first pass never names the register of the second. */
  lemma PassesDiffer(k: nat, m: nat)
    requires k < FIRST && m < SECOND
    ensures FirstPass(k).1 != SecondPass(m).1
  {
  }

  lemma FirstOnce(j: nat, k: nat)
    requires j < k < FIRST
    ensures FirstPass(j) != FirstPass(k)
  {
  }

  lemma SecondOnce(j: nat, k: nat)
    requires j < k < SECOND
    ensures SecondPass(j) != SecondPass(k)
  {
  }

  predicate OfByte(r: Reg, n: nat) {
    r.block == TDBYTE && r.unit < n
  }

  ghost predicate InFirsts(r: Reg, n: nat) {
    OfByte(r, n) && exists k :: 0 <= k < FIRST && FirstPass(k) == (r.group, r.csr)
  }

  ghost predicate InSeconds(r: Reg, n: nat) {
    OfByte(r, n) && exists k :: 0 <= k < SECOND && SecondPass(k) == (r.group, r.csr)
  }

  lemma FirstListOnce(byte: nat)
    ensures NoTwice(FirstList(byte)) && forall i :: 0 <= i < FIRST ==> InFirsts(FirstList(byte)[i], byte + 1)
  {
    hide FirstPass;
    var s := FirstList(byte);
    forall j, k | 0 <= j < k < |s|
      ensures s[j] != s[k]
    {
      FirstOnce(j, k);
    }
    forall i | 0 <= i < FIRST
      ensures InFirsts(s[i], byte + 1)
    {
      assert FirstPass(i) == (s[i].group, s[i].csr);
    }
  }

  lemma SecondListOnce(byte: nat)
    ensures NoTwice(SecondList(byte)) && forall i :: 0 <= i < SECOND ==> InSeconds(SecondList(byte)[i], byte + 1)
  {
    hide SecondPass;
    var s := SecondList(byte);
    forall j, k | 0 <= j < k < |s|
      ensures s[j] != s[k]
    {
      SecondOnce(j, k);
    }
    forall i | 0 <= i < SECOND
      ensures InSeconds(s[i], byte + 1)
    {
      assert SecondPass(i) == (s[i].group, s[i].csr);
    }
  }

  lemma {:induction false} FirstsOnce(n: nat)
    ensures NoTwice(Firsts(n)) && forall i :: 0 <= i < |Firsts(n)| ==> InFirsts(Firsts(n)[i], n)
  {
    hide FirstPass, FirstList;
    if n > 0 {
      FirstsOnce(n - 1);
      FirstListOnce(n - 1);
      FirstListUnit(n - 1);
      Joined(Firsts(n - 1), FirstList(n - 1));
    }
  }

  lemma FirstListUnit(byte: nat)
    ensures forall i :: 0 <= i < FIRST ==> FirstList(byte)[i].unit == byte
    ensures forall i :: 0 <= i < SECOND ==> SecondList(byte)[i].unit == byte
  {
  }

  lemma {:induction false} SecondsOnce(n: nat)
    ensures NoTwice(Seconds(n)) && forall i :: 0 <= i < |Seconds(n)| ==> InSeconds(Seconds(n)[i], n)
  {
    hide SecondPass, SecondList;
    if n > 0 {
      SecondsOnce(n - 1);
      SecondListOnce(n - 1);
      FirstListUnit(n - 1);
      Joined(Seconds(n - 1), SecondList(n - 1));
    }
  }

  lemma {:induction false} AnibsOnce(n: nat)
    ensures NoTwice(Anibs(n)) && forall i :: 0 <= i < n ==> Anibs(n)[i].block == TANIB && Anibs(n)[i].unit < n
  {
    if n > 0 { AnibsOnce(n - 1); }
  }

  lemma BytesApart(n: nat)
    ensures Apart(Firsts(n), Seconds(n))
  {
    hide FirstPass, SecondPass, Firsts, Seconds;
    FirstsOnce(n);
    SecondsOnce(n);
    forall i, j | 0 <= i < |Firsts(n)| && 0 <= j < |Seconds(n)|
      ensures Firsts(n)[i] != Seconds(n)[j]
    {
      var r, q := Firsts(n)[i], Seconds(n)[j];
      var k :| 0 <= k < FIRST && FirstPass(k) == (r.group, r.csr);
      var m :| 0 <= m < SECOND && SecondPass(m) == (q.group, q.csr);
      PassesDiffer(k, m);
    }
  }

  lemma TailOnce()
    ensures NoTwice(Tail()) && forall i :: 0 <= i < 17 ==>
      Tail()[i].block != TDBYTE && Tail()[i].block != TANIB && Tail()[i] != PLLCTRL3 && Tail()[i] != VREFINGLOBAL
    ensures AllInField(Tail())
  {
    assert NoTwice(Pie()) && NoTwice(Masters());
    Joined(Pie(), Masters());
  }

  lemma SaveListOnce(anibs: nat, dbytes: nat)
    ensures NoTwice(SaveList(anibs, dbytes))
  {
    hide Firsts, Seconds, Anibs, FirstPass, SecondPass, Tail;
    var f, a, g := Firsts(dbytes), Anibs(anibs), Seconds(dbytes);
    var tail := Tail();
    FirstsOnce(dbytes);
    SecondsOnce(dbytes);
    AnibsOnce(anibs);
    BytesApart(dbytes);
    TailOnce();
    Joined([PLLCTRL3], f);
    Joined([PLLCTRL3] + f, [VREFINGLOBAL]);
    Joined([PLLCTRL3] + f + [VREFINGLOBAL], a);
    Joined([PLLCTRL3] + f + [VREFINGLOBAL] + a, g);
    Joined([PLLCTRL3] + f + [VREFINGLOBAL] + a + g, tail);
  }

  // ---- Tracking the list

  predicate Reaches(s: State, rs: seq<Reg>)
  {
    forall i :: 0 <= i < |rs| ==> Address(rs[i]) < |s.phy|
  }

  function TrackAll(s: State, rs: seq<Reg>): (r: State)
    requires Shaped(s) && Reaches(s, rs)
    ensures Shaped(r) && r.num <= s.num + |rs| && r == s.(addrs := r.addrs, num := r.num)
    decreases |rs|
  {
    if rs == [] then s else Track(TrackAll(s, rs[..|rs| - 1]), Address(rs[|rs| - 1]))
  }

  /** No call is refused. */
  predicate TakesAll(s: State, rs: seq<Reg>)
    requires Shaped(s) && Reaches(s, rs)
    decreases |rs|
  {
    rs == [] ||
    (TakesAll(s, rs[..|rs| - 1]) && !Refused(TrackAll(s, rs[..|rs| - 1]), Address(rs[|rs| - 1])))
  }

  lemma TrackSnoc(s: State, rs: seq<Reg>, r: Reg)
    requires Shaped(s) && Reaches(s, rs + [r])
    ensures Reaches(s, rs) && Address(r) < |s.phy|
    ensures TrackAll(s, rs + [r]) == Track(TrackAll(s, rs), Address(r))
    ensures TakesAll(s, rs + [r]) <==> TakesAll(s, rs) && !Refused(TrackAll(s, rs), Address(r))
  {
    assert (rs + [r])[|rs|] == r && (rs + [r])[..|rs|] == rs;
    assert forall i :: 0 <= i < |rs| ==> (rs + [r])[i] == rs[i];
  }

  lemma {:induction false} TakesPrefix(s: State, rs: seq<Reg>, k: nat)
    requires Shaped(s) && Reaches(s, rs) && k <= |rs| && TakesAll(s, rs)
    ensures TakesAll(s, rs[..k])
    decreases |rs|
  {
    if k < |rs| {
      assert rs[..|rs| - 1][..k] == rs[..k];
      TakesPrefix(s, rs[..|rs| - 1], k);
    } else {
      assert rs[..k] == rs;
    }
  }

  /** Room for all of them is enough. */
  lemma {:induction false} RoomIsEnough(s: State, rs: seq<Reg>)
    requires Shaped(s) && Reaches(s, rs) && s.num + |rs| <= LIST_LIMIT
    ensures TakesAll(s, rs)
    decreases |rs|
  {
    if rs != [] { RoomIsEnough(s, rs[..|rs| - 1]); }
  }

  /** Registers that are listed already need no room. */
  lemma {:induction false} ListedAlready(s: State, rs: seq<Reg>)
    requires Shaped(s) && Reaches(s, rs) && forall i :: 0 <= i < |rs| ==> Address(rs[i]) in s.addrs[..s.num]
    ensures TakesAll(s, rs) && TrackAll(s, rs) == s
    decreases |rs|
  {
    if rs != [] { ListedAlready(s, rs[..|rs| - 1]); }
  }

  predicate AllInField(rs: seq<Reg>) {
    forall i :: 0 <= i < |rs| ==> InField(rs[i])
  }

  /** Distinct registers, tracked from an empty list that is large enough, are the list. */
  lemma {:induction false} TrackAllIs(s: State, rs: seq<Reg>)
    requires Shaped(s) && Reaches(s, rs) && NoTwice(rs) && AllInField(rs)
    requires s.enabled && s.num == 0 && |rs| <= LIST_LIMIT
    ensures TrackAll(s, rs).num == |rs| && forall i :: 0 <= i < |rs| ==> TrackAll(s, rs).addrs[i] == Address(rs[i])
    decreases |rs|
  {
    if rs != [] {
      hide Address, InField;
      var n := |rs| - 1;
      TrackAllIs(s, rs[..n]);
      var t := TrackAll(s, rs[..n]);
      forall i | 0 <= i < n
        ensures t.addrs[i] != Address(rs[n])
      {
        assert rs[i] != rs[n] && t.addrs[i] == Address(rs[..n][i]);
        AddressDiffers(rs[i], rs[n]);
      }
    }
  }

  lemma AddressDiffers(r: Reg, q: Reg)
    requires InField(r) && InField(q) && r != q
    ensures Address(r) != Address(q)
  {
    if Address(r) == Address(q) { AddressIsOne(r, q); }
  }

  lemma SaveListInField(anibs: nat, dbytes: nat)
    requires anibs <= 16 && dbytes <= 16
    ensures AllInField(SaveList(anibs, dbytes))
  {
    hide Firsts, Seconds, Anibs, Tail;
    AnibsInField(anibs);
    FirstsInField(dbytes);
    SecondsInField(dbytes);
    TailOnce();
  }

  lemma {:induction false} AnibsInField(n: nat)
    requires n <= 16
    ensures AllInField(Anibs(n))
  {
    if n > 0 { AnibsInField(n - 1); }
  }

  lemma {:induction false} FirstsInField(n: nat)
    requires n <= 16
    ensures AllInField(Firsts(n))
  {
    if n > 0 { FirstsInField(n - 1); }
  }

  lemma {:induction false} SecondsInField(n: nat)
    requires n <= 16
    ensures AllInField(Seconds(n))
  {
    if n > 0 { SecondsInField(n - 1); }
  }

  function Addresses(rs: seq<Reg>): (a: seq<nat>)
    ensures |a| == |rs|
  {
    seq(|rs|, i requires 0 <= i < |rs| => Address(rs[i]))
  }

  /**
   * Tracking registers on top of any list with room for them keeps what is listed,
   * in order, and adds exactly those that are new, each once.
   */
  lemma {:induction false} TracksNew(s: State, rs: seq<Reg>)
    requires Shaped(s) && Reaches(s, rs) && s.enabled && TakesAll(s, rs) && Distinct(s.addrs[..s.num])
    ensures
      var t := TrackAll(s, rs);
      s.num <= t.num && t.addrs[..s.num] == s.addrs[..s.num] && Distinct(t.addrs[..t.num])
    ensures
      var t := TrackAll(s, rs);
      forall a :: a in t.addrs[..t.num] <==> a in s.addrs[..s.num] || a in Addresses(rs)
    decreases |rs|
  {
    if rs != [] {
      hide Address;
      var n := |rs| - 1;
      TracksNew(s, rs[..n]);
      var q := TrackAll(s, rs[..n]);
      StepDistinct(q, Tracked(Address(rs[n])));
      assert Addresses(rs) == Addresses(rs[..n]) + [Address(rs[n])];
      TrackAdds(q, Address(rs[n]), s.num);
    }
  }

  lemma TrackAdds(q: State, adr: nat, kept: nat)
    requires Shaped(q) && adr < |q.phy| && q.enabled && !Refused(q, adr) && kept <= q.num
    ensures
      var t := Track(q, adr);
      q.num <= t.num && t.addrs[..kept] == q.addrs[..kept] &&
      forall a :: a in t.addrs[..t.num] <==> a in q.addrs[..q.num] || a == adr
  {
    var t := Track(q, adr);
    if t.num > q.num {
      assert t.addrs[..t.num] == q.addrs[..q.num] + [adr];
    }
  }

  /**
   * The routine lists each of its registers that is not listed yet, once, and no
   * other; from an empty list these are exactly 19 + anibs + 64 * dbytes, in order,
   * which for 8 address blocks and 4 bytes is the limit of 283.
   */
  lemma TracksExactly(s: State, anibs: nat, dbytes: nat)
    requires Shaped(s) && s.enabled && Distinct(s.addrs[..s.num]) && anibs <= 16 && dbytes <= 16
    requires Reaches(s, SaveList(anibs, dbytes)) && TakesAll(s, SaveList(anibs, dbytes))
    ensures
      var t := TrackAll(s, SaveList(anibs, dbytes));
      s.num <= t.num && t.addrs[..s.num] == s.addrs[..s.num] && Distinct(t.addrs[..t.num]) &&
      forall a :: a in t.addrs[..t.num] <==> a in s.addrs[..s.num] || a in Addresses(SaveList(anibs, dbytes))
    ensures s.num == 0 && 19 + anibs + 64 * dbytes <= LIST_LIMIT ==>
      var t := TrackAll(s, SaveList(anibs, dbytes));
      t.num == 19 + anibs + 64 * dbytes && t.addrs[..t.num] == Addresses(SaveList(anibs, dbytes))
    ensures s.num == 0 && anibs == 8 && dbytes == 4 ==> TrackAll(s, SaveList(anibs, dbytes)).num == MAX_NUM_RET_REGS
  {
    hide SaveList, Address;
    TracksNew(s, SaveList(anibs, dbytes));
    if s.num == 0 && 19 + anibs + 64 * dbytes <= LIST_LIMIT {
      SaveListOnce(anibs, dbytes);
      SaveListInField(anibs, dbytes);
      TrackAllIs(s, SaveList(anibs, dbytes));
    }
  }

  // ---- The routine

  lemma {:induction false} FirstsAt(n: nat, byte: nat, k: nat)
    requires byte < n && k < FIRST
    ensures FIRST * byte + k < |Firsts(n)| && Firsts(n)[FIRST * byte + k] == ByteReg(byte, FirstPass(k))
  {
    if byte < n - 1 { FirstsAt(n - 1, byte, k); }
  }

  lemma {:induction false} SecondsAt(n: nat, byte: nat, k: nat)
    requires byte < n && k < SECOND
    ensures SECOND * byte + k < |Seconds(n)| && Seconds(n)[SECOND * byte + k] == ByteReg(byte, SecondPass(k))
  {
    if byte < n - 1 { SecondsAt(n - 1, byte, k); }
  }

  lemma {:induction false} AnibsAt(n: nat, k: nat)
    requires k < n
    ensures Anibs(n)[k] == Reg(TANIB, k, 0, 0x80)
  {
    if k < n - 1 { AnibsAt(n - 1, k); }
  }

  /** Where each section of the list starts. */
  function VrefAt(dbytes: nat): nat { 1 + FIRST * dbytes }

  function SecondsStart(anibs: nat, dbytes: nat): nat { VrefAt(dbytes) + 1 + anibs }

  function TailAt(anibs: nat, dbytes: nat): nat { SecondsStart(anibs, dbytes) + SECOND * dbytes }

  lemma Sections(anibs: nat, dbytes: nat)
    ensures
      var s := SaveList(anibs, dbytes);
      s[0] == PLLCTRL3 && s[1..VrefAt(dbytes)] == Firsts(dbytes) && s[VrefAt(dbytes)] == VREFINGLOBAL &&
      s[VrefAt(dbytes) + 1..SecondsStart(anibs, dbytes)] == Anibs(anibs) &&
      s[SecondsStart(anibs, dbytes)..TailAt(anibs, dbytes)] == Seconds(dbytes) && s[TailAt(anibs, dbytes)..] == Tail()
  {
    hide Firsts, Seconds, Anibs, Tail;
    var f, a, g := Firsts(dbytes), Anibs(anibs), Seconds(dbytes);
    var tail := Tail();
    var p := [PLLCTRL3] + f;
    var q := p + [VREFINGLOBAL] + a;
    assert SaveList(anibs, dbytes) == q + g + tail;
    assert (q + g + tail)[..|q|] == q && q[..|p|] == p;
  }

  /** A section of the list, element by element. */
  lemma InSection(s: seq<Reg>, from: nat, to: nat, part: seq<Reg>, k: nat)
    requires from <= to <= |s| && s[from..to] == part && k < |part|
    ensures from + k < |s| && s[from + k] == part[k]
  {
    assert s[from..to][k] == s[from + k];
  }

  /** What is known between two calls: the first `pos` registers of `list` have been tracked. */
  ghost predicate At(regs: Registers, s0: State, list: seq<Reg>, pos: nat)
    reads regs, regs.addrs, regs.vals, regs.phy
  {
    regs.Valid() && Shaped(s0) && Reaches(s0, list) && |s0.phy| == regs.phy.Length &&
    pos <= |list| && Reaches(s0, list[..pos]) && TakesAll(s0, list[..pos]) && regs.Model() == TrackAll(s0, list[..pos])
  }

  /** One tracking call with its error return; it fails only when the list is full. */
  method TrackOne(regs: Registers, r: Reg, ghost s0: State, ghost list: seq<Reg>, ghost pos: nat) returns (ok: bool)
    requires At(regs, s0, list, pos) && pos < |list| && list[pos] == r
    modifies regs`num, regs.addrs
    ensures ok ==> At(regs, s0, list, pos + 1)
    ensures !ok ==> Gave(regs, s0, list)
  {
    assert list[..pos + 1] == list[..pos] + [r];
    TrackSnoc(s0, list[..pos], r);
    ok := regs.TrackReg(Address(r));
    if !ok {
      if TakesAll(s0, list) { TakesPrefix(s0, list, pos + 1); }
      assert At(regs, s0, list, pos);
    }
  }

  /** A run of calls without a loop around them. */
  method TrackEach(regs: Registers, rs: seq<Reg>, ghost s0: State, ghost list: seq<Reg>, ghost pos: nat)
      returns (ok: bool)
    requires At(regs, s0, list, pos) && pos + |rs| <= |list| && list[pos..pos + |rs|] == rs
    modifies regs`num, regs.addrs
    ensures ok ==> At(regs, s0, list, pos + |rs|)
    ensures !ok ==> Gave(regs, s0, list)
  {
    hide At;
    for i := 0 to |rs|
      invariant At(regs, s0, list, pos + i)
    {
      InSection(list, pos, pos + |rs|, rs, i);
      ok := TrackOne(regs, rs[i], s0, list, pos + i);
      if !ok {
        return;
      }
    }
    ok := true;
  }

  /** First loop over the bytes: lane delays, then eleven settings. */
  method TrackFirsts(regs: Registers, anibs: nat, dbytes: nat, ghost s0: State) returns (ok: bool)
    requires At(regs, s0, SaveList(anibs, dbytes), 1)
    modifies regs`num, regs.addrs
    ensures ok ==> At(regs, s0, SaveList(anibs, dbytes), VrefAt(dbytes))
    ensures !ok ==> Gave(regs, s0, SaveList(anibs, dbytes))
  {
    hide At, SaveList, FirstPass, FirstList, Firsts;
    ghost var list := SaveList(anibs, dbytes);
    for byte := 0 to dbytes
      invariant At(regs, s0, list, 1 + FIRST * byte)
    {
      for lane := 0 to R_MAX + 1
        invariant At(regs, s0, list, 1 + FIRST * byte + 2 * lane)
      {
        FirstReg(anibs, dbytes, byte, 2 * lane);
        FirstReg(anibs, dbytes, byte, 2 * lane + 1);
        FirstLane(lane);
        ok := TrackOne(regs, Reg(TDBYTE, byte, lane, 0x68), s0, list, 1 + FIRST * byte + 2 * lane);
        if !ok {
          return;
        }
        ok := TrackOne(regs, Reg(TDBYTE, byte, lane, 0x69), s0, list, 1 + FIRST * byte + 2 * lane + 1);
        if !ok {
          return;
        }
      }
      FirstSettings(anibs, dbytes, byte);
      ok := TrackEach(regs, Settings(byte), s0, list, 1 + FIRST * byte + 18);
      if !ok {
        return;
      }
    }
    ok := true;
  }

  function Settings(byte: nat): (s: seq<Reg>)
    ensures |s| == 11
  {
    [Reg(TDBYTE, byte, 0, 0xAA), Reg(TDBYTE, byte, 0, 0x62), Reg(TDBYTE, byte, 0, 0x01),
     Reg(TDBYTE, byte, 0, 0xA0), Reg(TDBYTE, byte, 0, 0xA1), Reg(TDBYTE, byte, 0, 0xA2), Reg(TDBYTE, byte, 0, 0xA3),
     Reg(TDBYTE, byte, 0, 0xA4), Reg(TDBYTE, byte, 0, 0xA5), Reg(TDBYTE, byte, 0, 0xA6), Reg(TDBYTE, byte, 0, 0xA7)]
  }

  /** The calls for one nibble of the second pass. */
  function NibbleRegs(byte: nat, nibble: nat): (s: seq<Reg>)
    ensures |s| == 6
  {
    [Reg(TDBYTE, byte, nibble, 0x80), Reg(TDBYTE, byte, nibble, 0x81), Reg(TDBYTE, byte, nibble, 0xD0),
     Reg(TDBYTE, byte, nibble, 0xD1), Reg(TDBYTE, byte, nibble, 0x8C), Reg(TDBYTE, byte, nibble, 0x8D)]
  }

  /** A failed run: some part of the list is tracked, and not all of it can be. */
  ghost predicate Gave(regs: Registers, s0: State, list: seq<Reg>)
    reads regs, regs.addrs, regs.vals, regs.phy
  {
    (exists k: nat :: At(regs, s0, list, k)) && !TakesAll(s0, list)
  }

  lemma FirstReg(anibs: nat, dbytes: nat, byte: nat, k: nat)
    requires byte < dbytes && k < FIRST
    ensures 1 + FIRST * byte + k < |SaveList(anibs, dbytes)|
    ensures SaveList(anibs, dbytes)[1 + FIRST * byte + k] == ByteReg(byte, FirstPass(k))
  {
    hide SaveList, Firsts, FirstPass;
    Sections(anibs, dbytes);
    FirstsAt(dbytes, byte, k);
    InSection(SaveList(anibs, dbytes), 1, VrefAt(dbytes), Firsts(dbytes), FIRST * byte + k);
  }

  lemma SecondReg(anibs: nat, dbytes: nat, byte: nat, k: nat)
    requires byte < dbytes && k < SECOND
    ensures SecondsStart(anibs, dbytes) + SECOND * byte + k < |SaveList(anibs, dbytes)|
    ensures SaveList(anibs, dbytes)[SecondsStart(anibs, dbytes) + SECOND * byte + k] == ByteReg(byte, SecondPass(k))
  {
    hide SaveList, Seconds, SecondPass;
    Sections(anibs, dbytes);
    SecondsAt(dbytes, byte, k);
    InSection(SaveList(anibs, dbytes), SecondsStart(anibs, dbytes), TailAt(anibs, dbytes), Seconds(dbytes),
      SECOND * byte + k);
  }

  lemma FirstLane(lane: nat)
    requires lane <= R_MAX
    ensures FirstPass(2 * lane) == (lane, 0x68) && FirstPass(2 * lane + 1) == (lane, 0x69)
  {
  }

  lemma FirstSettings(anibs: nat, dbytes: nat, byte: nat)
    requires byte < dbytes
    ensures
      var list := SaveList(anibs, dbytes);
      var from := 1 + FIRST * byte + 18;
      from + 11 <= |list| && list[from..from + 11] == Settings(byte)
  {
    hide SaveList;
    var list := SaveList(anibs, dbytes);
    var from := 1 + FIRST * byte + 18;
    FirstReg(anibs, dbytes, byte, 28);
    forall k | 0 <= k < 11
      ensures list[from..from + 11][k] == Settings(byte)[k]
    {
      FirstReg(anibs, dbytes, byte, 18 + k);
    }
  }

  /** The address blocks, one register each. */
  method TrackAnibs(regs: Registers, anibs: nat, dbytes: nat, ghost s0: State) returns (ok: bool)
    requires At(regs, s0, SaveList(anibs, dbytes), VrefAt(dbytes) + 1)
    modifies regs`num, regs.addrs
    ensures ok ==> At(regs, s0, SaveList(anibs, dbytes), SecondsStart(anibs, dbytes))
    ensures !ok ==> Gave(regs, s0, SaveList(anibs, dbytes))
  {
    hide At, SaveList, Anibs, Firsts, Seconds;
    ghost var list := SaveList(anibs, dbytes);
    Sections(anibs, dbytes);
    for anib := 0 to anibs
      invariant At(regs, s0, list, VrefAt(dbytes) + 1 + anib)
    {
      AnibsAt(anibs, anib);
      InSection(list, VrefAt(dbytes) + 1, SecondsStart(anibs, dbytes), Anibs(anibs), anib);
      ok := TrackOne(regs, Reg(TANIB, anib, 0, 0x80), s0, list, VrefAt(dbytes) + 1 + anib);
      if !ok {
        return;
      }
    }
    ok := true;
  }

  lemma SecondFixed(anibs: nat, dbytes: nat, byte: nat)
    requires byte < dbytes
    ensures
      var list := SaveList(anibs, dbytes);
      var at := SecondsStart(anibs, dbytes) + SECOND * byte;
      at + SECOND <= |list| &&
      list[at] == Reg(TDBYTE, byte, 0, 0x20) &&
      list[at + 33] == Reg(TDBYTE, byte, 0, 0xAE) && list[at + 34] == Reg(TDBYTE, byte, 0, 0xAF)
  {
    hide SaveList;
    SecondReg(anibs, dbytes, byte, 0);
    SecondReg(anibs, dbytes, byte, 33);
    SecondReg(anibs, dbytes, byte, 34);
  }

  lemma SecondNibble(anibs: nat, dbytes: nat, byte: nat, nibble: nat)
    requires byte < dbytes && nibble < 2
    ensures
      var list := SaveList(anibs, dbytes);
      var at := SecondsStart(anibs, dbytes) + SECOND * byte;
      at + SECOND <= |list| && list[at + 1 + nibble] == Reg(TDBYTE, byte, nibble, 0x43) &&
      list[at + 3 + 6 * nibble..at + 3 + 6 * nibble + 6] == NibbleRegs(byte, nibble)
  {
    hide SaveList;
    var list, at := SaveList(anibs, dbytes), SecondsStart(anibs, dbytes) + SECOND * byte;
    SecondReg(anibs, dbytes, byte, 34);
    SecondReg(anibs, dbytes, byte, 1 + nibble);
    forall k | 0 <= k < 6
      ensures list[at + 3 + 6 * nibble..at + 3 + 6 * nibble + 6][k] == NibbleRegs(byte, nibble)[k]
    {
      SecondReg(anibs, dbytes, byte, 3 + 6 * nibble + k);
    }
  }

  lemma SecondLane(anibs: nat, dbytes: nat, byte: nat, lane: nat)
    requires byte < dbytes && lane <= R_MAX
    ensures
      var list := SaveList(anibs, dbytes);
      var at := SecondsStart(anibs, dbytes) + SECOND * byte + 15 + 2 * lane;
      at + 2 <= |list| && list[at..at + 2] == LaneRegs(byte, lane)
  {
    hide SaveList;
    SecondReg(anibs, dbytes, byte, 15 + 2 * lane);
    SecondReg(anibs, dbytes, byte, 16 + 2 * lane);
  }

  function LaneRegs(byte: nat, lane: nat): (s: seq<Reg>)
    ensures |s| == 2
  {
    [Reg(TDBYTE, byte, lane, 0xC0), Reg(TDBYTE, byte, lane, 0xC1)]
  }

  /** The body of the second loop over the bytes. */
  method TrackSecond(regs: Registers, anibs: nat, dbytes: nat, byte: nat, ghost s0: State) returns (ok: bool)
    requires byte < dbytes && At(regs, s0, SaveList(anibs, dbytes), SecondsStart(anibs, dbytes) + SECOND * byte)
    modifies regs`num, regs.addrs
    ensures ok ==> At(regs, s0, SaveList(anibs, dbytes), SecondsStart(anibs, dbytes) + SECOND * (byte + 1))
    ensures !ok ==> Gave(regs, s0, SaveList(anibs, dbytes))
  {
    hide At, SaveList, NibbleRegs, LaneRegs;
    ghost var list, at := SaveList(anibs, dbytes), SecondsStart(anibs, dbytes) + SECOND * byte;
    SecondFixed(anibs, dbytes, byte);
    ok := TrackOne(regs, Reg(TDBYTE, byte, 0, 0x20), s0, list, at);
    if !ok {
      return;
    }
    for nibble := 0 to B_MAX + 1
      invariant At(regs, s0, list, at + 1 + nibble)
    {
      SecondNibble(anibs, dbytes, byte, nibble);
      ok := TrackOne(regs, Reg(TDBYTE, byte, nibble, 0x43), s0, list, at + 1 + nibble);
      if !ok {
        return;
      }
    }
    for nibble := 0 to 2
      invariant At(regs, s0, list, at + 3 + 6 * nibble)
    {
      SecondNibble(anibs, dbytes, byte, nibble);
      ok := TrackEach(regs, NibbleRegs(byte, nibble), s0, list, at + 3 + 6 * nibble);
      if !ok {
        return;
      }
    }
    for lane := R_MIN to R_MAX + 1
      invariant At(regs, s0, list, at + 15 + 2 * lane)
    {
      SecondLane(anibs, dbytes, byte, lane);
      ok := TrackEach(regs, LaneRegs(byte, lane), s0, list, at + 15 + 2 * lane);
      if !ok {
        return;
      }
    }
    ok := TrackOne(regs, Reg(TDBYTE, byte, 0, 0xAE), s0, list, at + 33);
    if !ok {
      return;
    }
    ok := TrackOne(regs, Reg(TDBYTE, byte, 0, 0xAF), s0, list, at + 34);
  }

  const MICROCONTMUXSEL := 0xD_0000
  const UCCLKHCLKENABLES := 0xC_0080

  /** The state a successful run leaves: everything tracked, and saved while the internal registers are readable. */
  function SavedState(s: State, anibs: nat, dbytes: nat): State
    requires Shaped(s) && Reaches(s, SaveList(anibs, dbytes)) && UCCLKHCLKENABLES < MICROCONTMUXSEL < |s.phy|
  {
    var t := TrackAll(s, SaveList(anibs, dbytes));
    var open := Save(t.(phy := t.phy[MICROCONTMUXSEL := 0][UCCLKHCLKENABLES := 3]));
    open.(phy := open.phy[UCCLKHCLKENABLES := 0][MICROCONTMUXSEL := 1])
  }

  /**
   * ddrphy_phyinit_usercustom_saveretregs: track the whole list, then save.  It fails
   * exactly when a tracking call is refused, and then nothing is saved.
   */
  method SaveRetRegs(regs: Registers, anibs: nat, dbytes: nat) returns (ok: bool)
    requires regs.Valid() && MICROCONTMUXSEL < regs.phy.Length && Reaches(regs.Model(), SaveList(anibs, dbytes))
    modifies regs`num, regs`size, regs.addrs, regs.vals, regs.phy
    ensures regs.Valid()
    ensures ok <==> TakesAll(old(regs.Model()), SaveList(anibs, dbytes))
    ensures ok ==> regs.Model() == SavedState(old(regs.Model()), anibs, dbytes)
    ensures !ok ==> regs.size == old(regs.size) && regs.vals[..] == old(regs.vals[..])
    ensures !ok ==> regs.phy[..] == old(regs.phy[..])
  {
    hide SaveList, TrackAll, TakesAll, Shaped, Tail;
    ghost var s0, list := regs.Model(), SaveList(anibs, dbytes);
    Sections(anibs, dbytes);
    Begins(regs, list);
    ok := Start(regs, anibs, dbytes, s0);
    if !ok {
      GaveUp(regs, s0, list);
      return;
    }
    for byte := 0 to dbytes
      invariant At(regs, s0, list, SecondsStart(anibs, dbytes) + SECOND * byte) && regs.Valid()
      invariant regs.size == s0.size && regs.vals[..] == s0.vals && regs.phy[..] == s0.phy
    {
      ok := TrackSecond(regs, anibs, dbytes, byte, s0);
      if !ok {
        GaveUp(regs, s0, list);
        return;
      }
    }
    ok := TrackEach(regs, Tail(), s0, list, TailAt(anibs, dbytes));
    if !ok {
      GaveUp(regs, s0, list);
      return;
    }
    assert list[..|list|] == list;
    regs.Write(MICROCONTMUXSEL, 0);
    regs.Write(UCCLKHCLKENABLES, 3);
    regs.SaveRegs();
    regs.Write(UCCLKHCLKENABLES, 0);
    regs.Write(MICROCONTMUXSEL, 1);
  }

  lemma Begins(regs: Registers, list: seq<Reg>)
    requires regs.Valid() && Reaches(regs.Model(), list)
    ensures At(regs, regs.Model(), list, 0)
  {
  }

  lemma GaveUp(regs: Registers, s0: State, list: seq<Reg>)
    requires Gave(regs, s0, list)
    ensures regs.Valid() && regs.Model() == s0.(addrs := regs.addrs[..], num := regs.num)
    ensures Shaped(s0) && Reaches(s0, list) && !TakesAll(s0, list)
  {
  }

  /** The calls before the second loop over the bytes. */
  method Start(regs: Registers, anibs: nat, dbytes: nat, ghost s0: State) returns (ok: bool)
    requires At(regs, s0, SaveList(anibs, dbytes), 0)
    modifies regs`num, regs.addrs
    ensures ok ==> At(regs, s0, SaveList(anibs, dbytes), SecondsStart(anibs, dbytes))
    ensures !ok ==> Gave(regs, s0, SaveList(anibs, dbytes))
  {
    hide At, SaveList;
    ghost var list := SaveList(anibs, dbytes);
    Sections(anibs, dbytes);
    ok := TrackOne(regs, PLLCTRL3, s0, list, 0);
    if !ok {
      return;
    }
    ok := TrackFirsts(regs, anibs, dbytes, s0);
    if !ok {
      return;
    }
    ok := TrackOne(regs, VREFINGLOBAL, s0, list, VrefAt(dbytes));
    if !ok {
      return;
    }
    ok := TrackAnibs(regs, anibs, dbytes, s0);
  }
}
