/**
 * The PHY retention list: addresses are tracked, their registers saved to
 * retention memory, and written back after a reset that keeps only that memory.
 */
module Retention {
  import opened Bytes

  const MAX_NUM_RET_REGS := 283

  /** The test for a full list lets one more entry in than the constant says. */
  const LIST_LIMIT := MAX_NUM_RET_REGS + 1

  /** The list and the saved count live in retention memory; the number tracked and the switch do not. */
  datatype State = State(
    addrs: seq<nat>, vals: seq<uint16>, size: nat, num: nat, enabled: bool, phy: seq<uint16>)

  predicate Shaped(s: State) {
    |s.addrs| == |s.vals| == LIST_LIMIT && s.size <= LIST_LIMIT && s.num <= LIST_LIMIT &&
    (forall i :: 0 <= i < LIST_LIMIT ==> s.addrs[i] < |s.phy|)
  }

  predicate Distinct(a: seq<nat>) {
    forall i, j :: 0 <= i < j < |a| ==> a[i] != a[j]
  }

  // ---- Operations on values

  /** Whether a call of trackreg fails. */
  predicate Refused(s: State, adr: nat)
    requires Shaped(s)
  {
    s.enabled && adr !in s.addrs[..s.num] && s.num == LIST_LIMIT
  }

  function Track(s: State, adr: nat): (r: State)
    requires Shaped(s) && adr < |s.phy|
    ensures Shaped(r)
  {
    if !s.enabled || adr in s.addrs[..s.num] || s.num == LIST_LIMIT then s
    else s.(addrs := s.addrs[s.num := adr], num := s.num + 1)
  }

  function Save(s: State): (r: State)
    requires Shaped(s)
    ensures Shaped(r)
  {
    s.(vals := seq(LIST_LIMIT, i requires 0 <= i < LIST_LIMIT => if i < s.num then s.phy[s.addrs[i]] else s.vals[i]),
       size := s.num)
  }

  /** Writing back the first `n` entries, in order. */
  function Restored(s: State, n: nat): (phy: seq<uint16>)
    requires Shaped(s) && n <= s.size
    ensures |phy| == |s.phy|
  {
    if n == 0 then s.phy else Restored(s, n - 1)[s.addrs[n - 1] := s.vals[n - 1]]
  }

  /** A reset of everything but retention memory; the PHY comes up in any state. */
  function Reset(s: State, phy: seq<uint16>): (r: State)
    requires Shaped(s) && |phy| == |s.phy|
    ensures Shaped(r)
  {
    s.(num := 0, enabled := true, phy := phy)
  }

  // ---- The class

  class Registers {
    const addrs: array<nat>
    const vals: array<uint16>
    const phy: array<uint16>
    var size: nat
    var num: nat
    var enabled: bool

    ghost predicate Valid()
      reads this, addrs, vals, phy
    {
      vals != phy && Shaped(Model())
    }

    ghost function Model(): State
      reads this, addrs, vals, phy
    {
      State(addrs[..], vals[..], size, num, enabled, phy[..])
    }

    constructor (registers: nat)
      requires registers > 0
      ensures Valid() && num == 0 && enabled && |Model().phy| == registers
    {
      addrs := new nat[LIST_LIMIT](_ => 0);
      vals := new uint16[LIST_LIMIT](_ => 0);
      phy := new uint16[registers](_ => 0);
      size, num, enabled := 0, 0, true;
    }

    /** ddrphy_phyinit_trackreg */
    method TrackReg(adr: nat) returns (ok: bool)
      requires Valid() && adr < phy.Length
      modifies this`num, addrs
      ensures Valid() && Model() == Track(old(Model()), adr) && ok == !Refused(old(Model()), adr)
    {
      if !enabled {
        return true;
      }
      var i := 0;
      while i < num
        invariant i <= num && adr !in addrs[..i]
      {
        if addrs[i] == adr {
          return true;
        }
        i := i + 1;
      }
      if num > MAX_NUM_RET_REGS {
        return false;
      }
      addrs[i] := adr;
      num := num + 1;
      ok := true;
    }

    /** SAVEREGS */
    method SaveRegs()
      requires Valid()
      modifies this`size, vals
      ensures Valid() && Model() == Save(old(Model()))
    {
      ghost var s := Model();
      var i := 0;
      while i < num
        invariant i <= num && Shaped(Model()) && Model() == s.(vals := vals[..])
        invariant forall k :: 0 <= k < LIST_LIMIT ==> vals[k] == if k < i then phy[addrs[k]] else s.vals[k]
      {
        vals[i] := phy[addrs[i]];
        i := i + 1;
      }
      size := num;
      assert vals[..] == Save(s).vals;
    }

    /** RESTOREREGS */
    method RestoreRegs()
      requires Valid()
      modifies phy
      ensures Valid() && Model() == old(Model()).(phy := Restored(old(Model()), size))
    {
      ghost var s := Model();
      var i := 0;
      while i < size
        invariant i <= size && Shaped(Model()) && Model() == s.(phy := Restored(s, i))
      {
        phy[addrs[i]] := vals[i];
        i := i + 1;
      }
    }

    /** A register write that goes past the tracking. */
    method Write(adr: nat, value: uint16)
      requires Valid() && adr < phy.Length
      modifies phy
      ensures Valid() && Model() == old(Model()).(phy := old(phy[..])[adr := value])
    {
      phy[adr] := value;
    }

    method SetTracking(on: bool)
      requires Valid()
      modifies this`enabled
      ensures Valid() && Model() == old(Model()).(enabled := on)
    {
      enabled := on;
    }
  }

  // ---- Runs

  datatype Event = Tracked(adr: nat) | Switch(on: bool) | Saved | PutBack
    | Lost(phy: seq<uint16>) | Changed(phy: seq<uint16>)

  predicate Possible(s: State, e: Event) {
    (e.Tracked? ==> e.adr < |s.phy|) && (e.Lost? || e.Changed? ==> |e.phy| == |s.phy|)
  }

  function Step(s: State, e: Event): (r: State)
    requires Shaped(s) && Possible(s, e)
    ensures Shaped(r) && |r.phy| == |s.phy|
  {
    match e
    case Tracked(adr) => Track(s, adr)
    case Switch(on) => s.(enabled := on)
    case Saved => Save(s)
    case PutBack => s.(phy := Restored(s, s.size))
    case Lost(phy) => Reset(s, phy)
    case Changed(phy) => s.(phy := phy)
  }

  /** The tracked part of the list never holds an address twice. */
  lemma StepDistinct(s: State, e: Event)
    requires Shaped(s) && Possible(s, e) && Distinct(s.addrs[..s.num])
    ensures Distinct(Step(s, e).addrs[..Step(s, e).num])
  {
    if e.Tracked? && Track(s, e.adr) != s {
      var t := Track(s, e.adr);
      assert t.addrs[..t.num] == s.addrs[..s.num] + [e.adr];
    }
  }

  /** The list still holds what a save of the registers `old` under the addresses `saved` put there. */
  ghost predicate Holds(s: State, saved: seq<nat>, old_: seq<uint16>)
    requires Shaped(s)
  {
    s.size == |saved| && (forall k :: 0 <= k < |saved| ==> saved[k] < |old_|) &&
    forall k :: 0 <= k < |saved| ==> s.addrs[k] == saved[k] && s.vals[k] == old_[saved[k]]
  }

  lemma SaveHolds(s: State)
    requires Shaped(s)
    ensures Holds(Save(s), s.addrs[..s.num], s.phy)
  {
  }

  /** An address that takes the place of another one that was saved: only after a reset, before the next save. */
  predicate Overwrites(s: State, e: Event)
    requires Shaped(s)
  {
    e.Tracked? && s.enabled && s.num < s.size && e.adr !in s.addrs[..s.num] && e.adr != s.addrs[s.num]
  }

  /** Anything but a save keeps what was saved, exactly unless it overwrites an entry. */
  lemma StepHolds(s: State, e: Event, saved: seq<nat>, old_: seq<uint16>)
    requires Shaped(s) && Possible(s, e) && !e.Saved? && Holds(s, saved, old_)
    ensures Holds(Step(s, e), saved, old_) <==> !Overwrites(s, e)
  {
    if e.Tracked? && Track(s, e.adr) != s {
      assert Step(s, e).addrs[s.num] == e.adr;
    }
  }

  ghost predicate Quiet(s: State, es: seq<Event>)
    requires Shaped(s)
    decreases |es|
  {
    es == [] ||
    (Possible(s, es[0]) && !es[0].Saved? && !Overwrites(s, es[0]) && Quiet(Step(s, es[0]), es[1..]))
  }

  ghost function After(s: State, es: seq<Event>): (r: State)
    requires Shaped(s) && Quiet(s, es)
    ensures Shaped(r) && |r.phy| == |s.phy|
    decreases |es|
  {
    if es == [] then s else After(Step(s, es[0]), es[1..])
  }

  lemma {:induction false} RunHolds(s: State, es: seq<Event>, saved: seq<nat>, old_: seq<uint16>)
    requires Shaped(s) && Quiet(s, es) && Holds(s, saved, old_)
    ensures Holds(After(s, es), saved, old_)
    decreases |es|
  {
    if es != [] {
      StepHolds(s, es[0], saved, old_);
      RunHolds(Step(s, es[0]), es[1..], saved, old_);
    }
  }

  lemma {:induction false} RestoredAgrees(s: State, n: nat, old_: seq<uint16>)
    requires Shaped(s) && n <= s.size && |old_| == |s.phy|
    requires forall k :: 0 <= k < n ==> s.vals[k] == old_[s.addrs[k]]
    ensures forall a :: 0 <= a < |s.phy| ==> Restored(s, n)[a] == if a in s.addrs[..n] then old_[a] else s.phy[a]
  {
    if n > 0 {
      RestoredAgrees(s, n - 1, old_);
      assert s.addrs[..n] == s.addrs[..n - 1] + [s.addrs[n - 1]];
    }
  }

  /**
   * Retention: save the registers, let anything happen (resets, any change of the
   * PHY, tracking that overwrites nothing), restore.  Every register tracked at the
   * time of the save is back at its value of that time; no other register changes.
   */
  lemma RestoreAfterAnything(s: State, es: seq<Event>)
    requires Shaped(s) && Quiet(Save(s), es)
    ensures
      var before := After(Save(s), es);
      var phy := Step(before, PutBack).phy;
      forall a :: 0 <= a < |s.phy| ==> phy[a] == if a in s.addrs[..s.num] then s.phy[a] else before.phy[a]
  {
    SaveHolds(s);
    RunHolds(Save(s), es, s.addrs[..s.num], s.phy);
    var t := After(Save(s), es);
    assert t.addrs[..t.size] == s.addrs[..s.num];
    RestoredAgrees(t, t.size, s.phy);
  }

  /** Without the condition it fails: a reset, one new address tracked, and the restore writes a foreign value. */
  lemma OverwritingLoses(s: State, phy: seq<uint16>, adr: nat)
    requires Shaped(s) && |phy| == |s.phy| && s.num == 1 && s.addrs[0] != adr < |phy|
    ensures
      var t := Step(Step(Step(Save(s), Lost(phy)), Tracked(adr)), PutBack);
      t.phy[adr] == s.phy[s.addrs[0]] && t.phy[s.addrs[0]] == phy[s.addrs[0]]
  {
    var r := Step(Step(Save(s), Lost(phy)), Tracked(adr));
    assert Restored(r, 0) == phy;
    assert Restored(r, 1) == phy[adr := s.phy[s.addrs[0]]];
  }

  // ---- The retention area

  const COUNT_BYTES := 4
  const ENTRY_BYTES := 8

  /** Sized for one entry more than the limit, but the count comes out of that too. */
  const AREA_BYTES := LIST_LIMIT * ENTRY_BYTES

  /** A write of the program: so many bytes at an offset into the area. */
  datatype Write = Write(at: nat, bytes: nat)

  predicate Inside(w: Write) {
    w.at + w.bytes <= AREA_BYTES
  }

  function AddressWrite(i: nat): Write {
    Write(COUNT_BYTES + ENTRY_BYTES * i, 4)
  }

  function ValueWrite(i: nat): Write {
    Write(COUNT_BYTES + ENTRY_BYTES * i + 4, 2)
  }

  /** What a tracking call writes: the address of an entry it adds. */
  function TrackWrites(s: State, adr: nat): seq<Write>
    requires Shaped(s) && adr < |s.phy|
  {
    if Track(s, adr).num == s.num then [] else [AddressWrite(s.num)]
  }

  /** What a save writes: the value of every tracked entry, and the count. */
  function SaveWrites(s: State): seq<Write>
    requires Shaped(s)
  {
    seq(s.num, i requires 0 <= i < s.num => ValueWrite(i)) + [Write(0, COUNT_BYTES)]
  }

  /** Tracking itself stays inside: the address of a 284th entry ends with the area. */
  lemma TrackStaysInside(s: State, adr: nat, w: Write)
    requires Shaped(s) && adr < |s.phy| && w in TrackWrites(s, adr)
    ensures Inside(w) && Track(s, adr).addrs == s.addrs[s.num := adr]
  {
  }

  ghost predicate SaveFits(s: State)
    requires Shaped(s)
  {
    forall w :: w in SaveWrites(s) ==> Inside(w)
  }

  /** A save stays inside the area exactly for the 283 entries it is meant for. */
  lemma SaveFitsIff(s: State)
    requires Shaped(s)
    ensures SaveFits(s) <==> s.num <= MAX_NUM_RET_REGS
  {
    if s.num > MAX_NUM_RET_REGS {
      assert SaveWrites(s)[MAX_NUM_RET_REGS] == ValueWrite(MAX_NUM_RET_REGS);
      assert ValueWrite(MAX_NUM_RET_REGS) in SaveWrites(s);
    } else {
      forall w | w in SaveWrites(s) ensures Inside(w) {
        var i :| 0 <= i < |SaveWrites(s)| && SaveWrites(s)[i] == w;
      }
    }
  }

  /** And a tracking call makes the list one that does not fit exactly when it adds a register to a list of 283. */
  lemma OverfullIff(s: State, adr: nat)
    requires Shaped(s) && adr < |s.phy| && s.num <= MAX_NUM_RET_REGS
    ensures !SaveFits(Track(s, adr)) <==> s.enabled && adr !in s.addrs[..s.num] && s.num == MAX_NUM_RET_REGS
  {
    hide SaveFits;
    SaveFitsIff(Track(s, adr));
  }

  /** Such a call is not refused, and the value of its entry lies behind the area. */
  lemma OverfullTaken(s: State, adr: nat)
    requires Shaped(s) && adr < |s.phy| && s.enabled && adr !in s.addrs[..s.num] && s.num == MAX_NUM_RET_REGS
    ensures !Refused(s, adr) && Track(s, adr).num == 284
    ensures ValueWrite(283) in SaveWrites(Track(s, adr)) && !Inside(ValueWrite(283))
  {
    assert SaveWrites(Track(s, adr))[283] == ValueWrite(283);
  }
}
