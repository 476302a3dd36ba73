/**
 * The retention list in numbers: at which place of the list which address of the PHY
 * stands, what one tracking call does to 284 places, and which registers are open
 * while their values are saved.
 */
module RetentionNumbers {
  import opened Bytes
  import opened Retention
  import opened RetentionList

  // ---- One call

  /** A new address goes behind those listed while one of 284 places is free; any other call changes nothing. */
  lemma TrackIs(s: State, adr: nat)
    requires Shaped(s) && adr < |s.phy|
    ensures |s.addrs| == 284 && |s.vals| == 284
    ensures Refused(s, adr) <==> s.enabled && s.num == 284 && forall k :: 0 <= k < 284 ==> s.addrs[k] != adr
    ensures
      if s.enabled && s.num < 284 && (forall k :: 0 <= k < s.num ==> s.addrs[k] != adr)
      then Track(s, adr) == s.(addrs := s.addrs[..s.num] + [adr] + s.addrs[s.num + 1..], num := s.num + 1)
      else Track(s, adr) == s
  {
    if s.num < 284 {
      assert s.addrs[s.num := adr] == s.addrs[..s.num] + [adr] + s.addrs[s.num + 1..];
    }
  }

  /** Saving stores the value of every listed register, and how many there are. */
  lemma SaveIs(s: State)
    requires Shaped(s)
    ensures Save(s).size == s.num && Save(s) == s.(vals := Save(s).vals, size := s.num)
    ensures forall k :: 0 <= k < 284 ==> Save(s).vals[k] == if k < s.num then s.phy[s.addrs[k]] else s.vals[k]
  {
  }

  // ---- The list

  /** How many registers stand in front of the second pass over the bytes, and behind it. */
  function Second(anibs: nat, dbytes: nat): nat { 2 + 29 * dbytes + anibs }

  function Last(anibs: nat, dbytes: nat): nat { 2 + 29 * dbytes + anibs + 35 * dbytes }

  ghost predicate Stands(list: seq<Reg>, at: nat, number: nat) {
    at < |list| && Address(list[at]) == number
  }

  /** The two delays of each lane, then eleven settings. */
  lemma FirstNumbers(anibs: nat, dbytes: nat, byte: nat, k: nat)
    requires byte < dbytes && k < 9
    ensures
      var list, at, base := SaveList(anibs, dbytes), 1 + 29 * byte, 0x1_0000 + 0x1000 * byte;
      && Stands(list, at + 2 * k, base + 0x100 * k + 0x68) && Stands(list, at + 2 * k + 1, base + 0x100 * k + 0x69)
      && Stands(list, at + 18, base + 0xAA) && Stands(list, at + 19, base + 0x62) && Stands(list, at + 20, base + 0x01)
      && (k < 8 ==> Stands(list, at + 21 + k, base + 0xA0 + k))
  {
    hide SaveList;
    FirstReg(anibs, dbytes, byte, 2 * k);
    FirstReg(anibs, dbytes, byte, 2 * k + 1);
    FirstReg(anibs, dbytes, byte, 18);
    FirstReg(anibs, dbytes, byte, 19);
    FirstReg(anibs, dbytes, byte, 20);
    if k < 8 { FirstReg(anibs, dbytes, byte, 21 + k); }
  }

  /** Latency and receiver controls, six delays for each of two nibbles. */
  lemma NibbleNumbers(anibs: nat, dbytes: nat, byte: nat, n: nat)
    requires byte < dbytes && n < 2
    ensures
      var list, at := SaveList(anibs, dbytes), Second(anibs, dbytes) + 35 * byte;
      var base, six := 0x1_0000 + 0x1000 * byte, 0x1_0000 + 0x1000 * byte + 0x100 * n;
      && Stands(list, at, base + 0x20) && Stands(list, at + 1 + n, six + 0x43)
      && Stands(list, at + 3 + 6 * n, six + 0x80) && Stands(list, at + 4 + 6 * n, six + 0x81)
      && Stands(list, at + 5 + 6 * n, six + 0xD0) && Stands(list, at + 6 + 6 * n, six + 0xD1)
      && Stands(list, at + 7 + 6 * n, six + 0x8C) && Stands(list, at + 8 + 6 * n, six + 0x8D)
  {
    hide SaveList;
    SecondFixed(anibs, dbytes, byte);
    SecondReg(anibs, dbytes, byte, 1 + n);
    NibbleNumber(anibs, dbytes, byte, n, 0, 0x80);
    NibbleNumber(anibs, dbytes, byte, n, 1, 0x81);
    NibbleNumber(anibs, dbytes, byte, n, 2, 0xD0);
    NibbleNumber(anibs, dbytes, byte, n, 3, 0xD1);
    NibbleNumber(anibs, dbytes, byte, n, 4, 0x8C);
    NibbleNumber(anibs, dbytes, byte, n, 5, 0x8D);
  }

  lemma NibbleNumber(anibs: nat, dbytes: nat, byte: nat, n: nat, j: nat, csr: nat)
    requires byte < dbytes && n < 2 && j < 6 && SecondPass(3 + 6 * n + j) == (n, csr)
    ensures Stands(SaveList(anibs, dbytes), Second(anibs, dbytes) + 35 * byte + 3 + 6 * n + j,
                   0x1_0000 + 0x1000 * byte + 0x100 * n + csr)
  {
    hide SaveList, SecondPass;
    SecondReg(anibs, dbytes, byte, 3 + 6 * n + j);
  }

  /** Two delays for each lane and two counts. */
  lemma LaneNumbers(anibs: nat, dbytes: nat, byte: nat, lane: nat)
    requires byte < dbytes && lane < 9
    ensures
      var list, at := SaveList(anibs, dbytes), Second(anibs, dbytes) + 35 * byte;
      var base := 0x1_0000 + 0x1000 * byte;
      && Stands(list, at + 15 + 2 * lane, base + 0x100 * lane + 0xC0)
      && Stands(list, at + 16 + 2 * lane, base + 0x100 * lane + 0xC1)
      && Stands(list, at + 33, base + 0xAE) && Stands(list, at + 34, base + 0xAF)
  {
    hide SaveList;
    SecondFixed(anibs, dbytes, byte);
    SecondReg(anibs, dbytes, byte, 15 + 2 * lane);
    SecondReg(anibs, dbytes, byte, 16 + 2 * lane);
  }

  /** The single registers and one for each address block. */
  lemma SingleNumbers(anibs: nat, dbytes: nat, k: nat)
    ensures
      var list := SaveList(anibs, dbytes);
      && |list| == 19 + anibs + 64 * dbytes
      && Stands(list, 0, 0x2_00CB) && Stands(list, 1 + 29 * dbytes, 0x2_00B2)
      && (k < anibs ==> Stands(list, 2 + 29 * dbytes + k, 0x1000 * k + 0x80))
  {
    hide SaveList, Tail, Anibs, Firsts, Seconds;
    Sections(anibs, dbytes);
    if k < anibs {
      AnibsAt(anibs, k);
      InSection(SaveList(anibs, dbytes), VrefAt(dbytes) + 1, SecondsStart(anibs, dbytes), Anibs(anibs), k);
    }
  }

  /** The seventeen registers at the end. */
  lemma LastNumbers(anibs: nat, dbytes: nat, k: nat)
    ensures
      var list, at := SaveList(anibs, dbytes), Last(anibs, dbytes);
      && (k < 8 ==> Stands(list, at + k, 0x9_0201 + k))
      && Stands(list, at + 8, 0x2_007C) && Stands(list, at + 9, 0x2_007D) && Stands(list, at + 10, 0x2_0020)
      && Stands(list, at + 11, 0x9_0012) && Stands(list, at + 12, 0x2_0077) && Stands(list, at + 13, 0x2_0072)
      && Stands(list, at + 14, 0x2_0073) && Stands(list, at + 15, 0x4_00FD) && Stands(list, at + 16, 0x4_00C0)
  {
    hide SaveList, Anibs, Firsts, Seconds, Tail;
    var list, at := SaveList(anibs, dbytes), Last(anibs, dbytes);
    Sections(anibs, dbytes);
    assert at == TailAt(anibs, dbytes);
    forall j | 0 <= j < 17 ensures at + j < |list| && list[at + j] == Tail()[j] {
      assert list[at..][j] == list[at + j];
    }
    TailNumbers();
    TailAddresses();
  }

  lemma TailNumbers()
    ensures forall k :: 0 <= k < 8 ==> Tail()[k] == Reg(9, 0, 2, 1 + k)
    ensures forall k :: 0 <= k < 9 ==> Tail()[8 + k] == Masters()[k]
  {
  }

  lemma TailAddresses()
    ensures
      var m := Masters();
      && Address(m[0]) == 0x2_007C && Address(m[1]) == 0x2_007D && Address(m[2]) == 0x2_0020
      && Address(m[3]) == 0x9_0012 && Address(m[4]) == 0x2_0077 && Address(m[5]) == 0x2_0072
      && Address(m[6]) == 0x2_0073 && Address(m[7]) == 0x4_00FD && Address(m[8]) == 0x4_00C0
  {
  }

  // ---- The save

  /**
   * While the values are taken, register 0xD0000 is 0 and 0xC0080 is 3; afterwards
   * they are 1 and 0, and the PHY is otherwise as it was.
   */
  lemma SavedIs(s: State, anibs: nat, dbytes: nat)
    requires Shaped(s) && Reaches(s, SaveList(anibs, dbytes)) && |s.phy| > 0xD_0000
    ensures
      var t, r := TrackAll(s, SaveList(anibs, dbytes)), SavedState(s, anibs, dbytes);
      && r.addrs == t.addrs && r.num == t.num && r.size == t.num && r.enabled == s.enabled
      && r.phy == s.phy[0xD_0000 := 1][0xC_0080 := 0]
      && forall k :: 0 <= k < t.num ==>
           r.vals[k] == if t.addrs[k] == 0xD_0000 then 0 else if t.addrs[k] == 0xC_0080 then 3 else s.phy[t.addrs[k]]
  {
    hide SaveList, TrackAll;
    var t, r := TrackAll(s, SaveList(anibs, dbytes)), SavedState(s, anibs, dbytes);
    SaveIs(t.(phy := t.phy[0xD_0000 := 0][0xC_0080 := 3]));
    assert r.phy == s.phy[0xD_0000 := 1][0xC_0080 := 0];
  }

  // ---- The area

  /**
   * The area in bytes: a count of four, and eight for each register, its address in
   * front of its value; a save stays inside 2272 bytes for up to 283 registers.
   */
  lemma AreaIs(s: State, adr: nat, k: nat)
    requires Shaped(s) && adr < |s.phy|
    ensures k < s.num ==> Write(8 + 8 * k, 2) in SaveWrites(s)
    ensures Write(0, 4) in SaveWrites(s)
    ensures TrackWrites(s, adr) == if Track(s, adr).num == s.num then [] else [Write(4 + 8 * s.num, 4)]
    ensures (forall w :: w in SaveWrites(s) ==> w.at + w.bytes <= 2272) <==> s.num <= 283
  {
    assert SaveWrites(s)[s.num] == Write(0, 4);
    if k < s.num { assert SaveWrites(s)[k] == Write(8 + 8 * k, 2); }
    SaveFitsIff(s);
    assert forall w :: w in SaveWrites(s) ==> (Inside(w) <==> w.at + w.bytes <= 2272);
  }
}
