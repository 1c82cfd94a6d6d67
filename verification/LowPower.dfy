/**
  Saving SDRAM parameters in PMC scratch registers for warm boot: a long sequence of
  `pack` operations, each copying a bit range of a parameter into a bit range of a
  register.
*/
module LowPower {
  // A u32, bit 0 first.
  type Word = w: seq<bool> | |w| == 32 witness Constant(false)

  function Constant(b: bool): (w: seq<bool>)
    ensures |w| == 32
  {
    seq(32, i => b)
  }

  // ----- the operators of the macro -----

  function Shr(x: Word, n: nat): Word { seq(32, i requires 0 <= i < 32 => i + n < 32 && x[i + n]) }
  function Shl(x: Word, n: nat): Word { seq(32, i requires 0 <= i < 32 => i >= n && x[i - n]) }
  function And(x: Word, y: Word): Word { seq(32, i requires 0 <= i < 32 => x[i] && y[i]) }
  function Or(x: Word, y: Word): Word { seq(32, i requires 0 <= i < 32 => x[i] || y[i]) }
  function Not(x: Word): Word { seq(32, i requires 0 <= i < 32 => !x[i]) }

  // One line of the table: the bits hi:lo of src go to register reg from bit `at` on.
  datatype Op = Op(src: Word, hi: nat, lo: nat, reg: nat, at: nat) {
    predicate Valid() { lo <= hi <= 31 && at + (hi - lo) <= 31 }
    predicate Covers(r: nat, k: nat) { reg == r && at <= k && k + lo <= at + hi }
  }

  // pack(src, hi:lo, dst, at + hi - lo:at)
  function PackWord(op: Op, dst: Word): Word
    requires op.Valid()
  {
    var mask := Shr(Constant(true), 31 - (op.hi - op.lo));
    var cleared := And(dst, Not(Shl(mask, op.at)));
    Or(cleared, Shl(And(Shr(op.src, op.lo), mask), op.at))
  }

  predicate Fits(ops: seq<Op>, n: nat) {
    forall i :: 0 <= i < |ops| ==> ops[i].Valid() && ops[i].reg < n
  }

  // The registers after the operations, in order.
  function Save(regs: seq<Word>, ops: seq<Op>): (r: seq<Word>)
    requires Fits(ops, |regs|)
    ensures |r| == |regs|
  {
    if ops == [] then regs
    else
      var op, before := ops[|ops| - 1], Save(regs, ops[..|ops| - 1]);
      before[op.reg := PackWord(op, before[op.reg])]
  }

  class Pmc {
    var regs: seq<Word>

    constructor (regs: seq<Word>)
      ensures this.regs == regs
    {
      this.regs := regs;
    }

    // `pack` with the destination pmc->reg
    method Pack(op: Op)
      requires op.Valid() && op.reg < |regs|
      modifies this
      ensures regs == old(regs)[op.reg := PackWord(op, old(regs)[op.reg])]
    {
      var mask := Shr(Constant(true), 31 - (op.hi - op.lo));
      regs := regs[op.reg := And(regs[op.reg], Not(Shl(mask, op.at)))];
      regs := regs[op.reg := Or(regs[op.reg], Shl(And(Shr(op.src, op.lo), mask), op.at))];
    }

    // the body of _sdram_lp0_save_params_t210 as a table
    method SaveAll(ops: seq<Op>)
      requires Fits(ops, |regs|)
      modifies this
      ensures regs == Save(old(regs), ops)
    {
      for i := 0 to |ops|
        invariant regs == Save(old(regs), ops[..i])
      {
        Pack(ops[i]);
        assert ops[..i + 1][..i] == ops[..i];
      }
      assert ops[..|ops|] == ops;
    }
  }

  // ----- what one pack does to each bit -----

  lemma PackBit(op: Op, dst: Word, k: nat)
    requires op.Valid() && k < 32
    ensures PackWord(op, dst)[k] == if op.Covers(op.reg, k) then op.src[k - op.at + op.lo] else dst[k]
  {
  }

  // ----- any table -----

  // The last operation to write bit k of register r, or |ops| if there is none.
  function LastWrite(ops: seq<Op>, r: nat, k: nat): (i: nat)
    ensures i <= |ops|
    ensures i < |ops| ==> ops[i].Covers(r, k)
    ensures forall j :: 0 <= j < |ops| && (j > i || i == |ops|) ==> !ops[j].Covers(r, k)
  {
    if ops == [] then 0
    else
      var n := |ops| - 1;
      if ops[n].Covers(r, k) then n
      else
        var i := LastWrite(ops[..n], r, k);
        if i < n then i else |ops|
  }

  // Every bit is what the last operation that covers it says, or what it was.
  lemma {:induction false} SaveBit(regs: seq<Word>, ops: seq<Op>, r: nat, k: nat)
    requires Fits(ops, |regs|) && r < |regs| && k < 32
    ensures var i := LastWrite(ops, r, k);
            Save(regs, ops)[r][k] == if i < |ops| then ops[i].src[k - ops[i].at + ops[i].lo] else regs[r][k]
    decreases |ops|
  {
    hide PackWord;
    if ops != [] {
      var n := |ops| - 1;
      SaveBit(regs, ops[..n], r, k);
      PackBit(ops[n], Save(regs, ops[..n])[ops[n].reg], k);
    }
  }

  // ----- tables with disjoint destinations -----

  predicate Overlap(a: Op, b: Op) {
    a.reg == b.reg && a.at + b.lo <= b.at + b.hi && b.at + a.lo <= a.at + a.hi
  }

  predicate Disjoint(ops: seq<Op>) {
    forall i, j :: 0 <= i < j < |ops| ==> !Overlap(ops[i], ops[j])
  }

  // The w bits of x from bit `at` on.
  function Field(x: Word, at: nat, w: nat): seq<bool>
    requires at + w <= 32
  {
    x[at..at + w]
  }

  lemma OnlyWriter(ops: seq<Op>, i: nat, k: nat)
    requires Disjoint(ops) && i < |ops| && ops[i].Covers(ops[i].reg, k)
    ensures LastWrite(ops, ops[i].reg, k) == i
  {
  }

  lemma ReadBackBit(regs: seq<Word>, ops: seq<Op>, i: nat, d: nat)
    requires Fits(ops, |regs|) && Disjoint(ops) && i < |ops| && d <= ops[i].hi - ops[i].lo
    ensures Save(regs, ops)[ops[i].reg][ops[i].at + d] == ops[i].src[ops[i].lo + d]
  {
    hide Save, Disjoint, LastWrite;
    SaveBit(regs, ops, ops[i].reg, ops[i].at + d);
    OnlyWriter(ops, i, ops[i].at + d);
  }

  // Every destination field reads back its source field.
  lemma ReadBack(regs: seq<Word>, ops: seq<Op>, i: nat)
    requires Fits(ops, |regs|) && Disjoint(ops) && i < |ops|
    ensures var op := ops[i]; var w := op.hi - op.lo + 1;
            Field(Save(regs, ops)[op.reg], op.at, w) == Field(op.src, op.lo, w)
  {
    hide Save, Disjoint;
    var op := ops[i];
    var w := op.hi - op.lo + 1;
    var x := Save(regs, ops)[op.reg];
    var f, g := Field(x, op.at, w), Field(op.src, op.lo, w);
    forall d | 0 <= d < w ensures f[d] == g[d] {
      ReadBackBit(regs, ops, i, d);
    }
  }

  // The order of the operations does not matter.
  lemma OrderIndependent(regs: seq<Word>, ops: seq<Op>, ops': seq<Op>)
    requires Fits(ops, |regs|) && Disjoint(ops) && multiset(ops) == multiset(ops')
    ensures Fits(ops', |regs|) && Save(regs, ops) == Save(regs, ops')
  {
    hide Save;
    SameElements(ops, ops');
    forall i | 0 <= i < |ops'| ensures ops'[i].Valid() && ops'[i].reg < |regs| { assert ops'[i] in ops; }
    forall r, k | 0 <= r < |regs| && 0 <= k < 32
      ensures Save(regs, ops)[r][k] == Save(regs, ops')[r][k]
    {
      SaveBit(regs, ops, r, k);
      SaveBit(regs, ops', r, k);
      var i, i' := LastWrite(ops, r, k), LastWrite(ops', r, k);
      if i' < |ops'| { assert ops'[i'] in ops; }
      if i < |ops| { assert ops[i] in ops'; }
    }
    forall r | 0 <= r < |regs| ensures Save(regs, ops)[r] == Save(regs, ops')[r] {
    }
  }

  lemma SameElements(ops: seq<Op>, ops': seq<Op>)
    requires multiset(ops) == multiset(ops')
    ensures forall op :: op in ops <==> op in ops'
  {
    forall op ensures op in ops <==> op in ops' {
      assert op in ops <==> op in multiset(ops);
      assert op in ops' <==> op in multiset(ops');
    }
  }

  // The operations of a table that concern one register.
  function OnReg(ops: seq<Op>, r: nat): seq<Op> {
    if ops == [] then []
    else OnReg(ops[..|ops| - 1], r) + (if ops[|ops| - 1].reg == r then [ops[|ops| - 1]] else [])
  }

  lemma {:induction false} OnRegFits(ops: seq<Op>, r: nat, n: nat)
    requires Fits(ops, n)
    ensures Fits(OnReg(ops, r), n)
    decreases |ops|
  {
    if ops != [] { OnRegFits(ops[..|ops| - 1], r, n); }
  }

  // The rest of the table does not affect the register.
  lemma {:induction false} SaveOnReg(regs: seq<Word>, ops: seq<Op>, r: nat)
    requires Fits(ops, |regs|) && r < |regs|
    ensures Fits(OnReg(ops, r), |regs|) && Save(regs, ops)[r] == Save(regs, OnReg(ops, r))[r]
    decreases |ops|
  {
    hide PackWord;
    OnRegFits(ops, r, |regs|);
    if ops != [] {
      var n := |ops| - 1;
      SaveOnReg(regs, ops[..n], r);
      var on := OnReg(ops[..n], r);
      if ops[n].reg == r {
        assert OnReg(ops, r) == on + [ops[n]] && (on + [ops[n]])[..|on|] == on;
      } else {
        assert OnReg(ops, r) == on;
      }
    }
  }

  // The operations fill register r: each bit is written by exactly one of them.
  ghost predicate Fills(ops: seq<Op>, r: nat) {
    && Disjoint(ops)
    && (forall i :: 0 <= i < |ops| ==> ops[i].Valid() && ops[i].reg == r)
    && forall k :: 0 <= k < 32 ==> LastWrite(ops, r, k) < |ops|
  }

  // A register that its operations fill holds nothing but their fields: every field
  // reads back, and what the register held before, and the rest of the table, is gone.
  lemma FilledRegister(regs: seq<Word>, regs': seq<Word>, ops: seq<Op>, ops': seq<Op>, r: nat, i: nat)
    requires Fits(ops, |regs|) && Fits(ops', |regs'|) && r < |regs| && r < |regs'|
    requires Fills(OnReg(ops, r), r) && OnReg(ops', r) == OnReg(ops, r) && i < |OnReg(ops, r)|
    ensures Save(regs, ops)[r] == Save(regs', ops')[r]
    ensures var op := OnReg(ops, r)[i]; var w := op.hi - op.lo + 1;
            Field(Save(regs, ops)[r], op.at, w) == Field(op.src, op.lo, w)
  {
    hide Save, Fills;
    assert Fits(OnReg(ops, r), |regs|) && Save(regs, ops)[r] == Save(regs, OnReg(ops, r))[r] by {
      SaveOnReg(regs, ops, r);
    }
    assert Fits(OnReg(ops, r), |regs'|) && Save(regs', ops')[r] == Save(regs', OnReg(ops, r))[r] by {
      SaveOnReg(regs', ops', r);
    }
    hide OnReg, Fits;
    FilledAlike(regs, regs', OnReg(ops, r), r);
    FilledReadBack(regs, OnReg(ops, r), r, i);
  }

  lemma FilledAlike(regs: seq<Word>, regs': seq<Word>, ops: seq<Op>, r: nat)
    requires Fits(ops, |regs|) && Fits(ops, |regs'|) && r < |regs| && r < |regs'| && Fills(ops, r)
    ensures Save(regs, ops)[r] == Save(regs', ops)[r]
  {
    hide Save, LastWrite;
    var x, y := Save(regs, ops)[r], Save(regs', ops)[r];
    forall k | 0 <= k < 32 ensures x[k] == y[k] {
      SaveBit(regs, ops, r, k);
      SaveBit(regs', ops, r, k);
    }
  }

  lemma FilledReadBack(regs: seq<Word>, ops: seq<Op>, r: nat, i: nat)
    requires Fits(ops, |regs|) && Fills(ops, r) && i < |ops|
    ensures var op := ops[i]; var w := op.hi - op.lo + 1;
            op.reg == r && r < |regs| && op.Valid() && Field(Save(regs, ops)[r], op.at, w) == Field(op.src, op.lo, w)
  {
    hide Save, LastWrite, Field;
    ReadBack(regs, ops, i);
  }

  // ----- registers written from distant places of the T210 table -----

  // What the table's switch distinguishes.
  datatype MemoryType = LpDdr2 | LpDdr4 | Ddr3 | OtherMemory {
    predicate LowPowerDdr() { LpDdr2? || LpDdr4? }
  }

  // The parameters, by their names in the boot configuration.
  datatype Params = Params(
    memoryType: MemoryType,
    emcClockSource: Word,
    emcClockSourceDll: Word,
    emcFbioSpare: Word,
    emcDllCfg0: Word,
    emcPmacroDdllBypass: Word,
    mcEmemArbMisc0: Word,
    emcFdpdCtrlCmd: Word,
    emcPinGpio: Word,
    mcClkenOverrideAllWarmBoot: Word,
    emcClkenOverrideAllWarmBoot: Word,
    emcMrsWarmBootEnable: Word,
    clearClk2Mc1: Word,
    emcWarmBootExtraModeRegWriteEnable: Word,
    clkRstControllerPllmMisc2OverrideEnable: Word,
    emcDbgWriteMux: Word,
    emcExtraRefreshNum: Word,
    emcMrwLpddr2ZcalWarmBoot: Word,
    emcWarmBootMrwExtra: Word,
    emcMrw6: Word,
    emcEmrs: Word,
    emcEmrs2: Word,
    emcEmrs3: Word,
    pllMInputDivider: Word,
    pllMFeedbackDivider: Word,
    pllMPostDivider: Word,
    pllMKVCO: Word,
    pllMKCP: Word,
    pllMSetupControl: Word,
    pllMStableTime: Word)

  function Scratch6(p: Params): seq<Op> {
    [Op(p.emcClockSource, 7, 0, 6, 8),
     Op(p.emcClockSourceDll, 7, 0, 6, 16),
     Op(p.emcClockSource, 31, 29, 6, 24),
     Op(p.emcClockSourceDll, 31, 29, 6, 27),
     Op(p.emcClockSourceDll, 11, 10, 6, 30)]
    + if p.memoryType.LowPowerDdr() then
        [Op(p.emcMrwLpddr2ZcalWarmBoot, 31, 30, 6, 0),
         Op(p.emcWarmBootMrwExtra, 31, 30, 6, 2),
         Op(p.emcMrwLpddr2ZcalWarmBoot, 27, 26, 6, 4),
         Op(p.emcWarmBootMrwExtra, 27, 26, 6, 6)]
      else []
  }

  function Scratch8(p: Params): seq<Op> {
    [Op(p.emcPinGpio, 1, 0, 8, 30)]
    + match p.memoryType
      case LpDdr2 => [Op(p.emcMrw6, 27, 0, 8, 0), Op(p.emcMrw6, 31, 30, 8, 28)]
      case LpDdr4 => [Op(p.emcMrw6, 27, 0, 8, 0), Op(p.emcMrw6, 31, 30, 8, 28)]
      case Ddr3 => [Op(p.emcEmrs2, 13, 0, 8, 0), Op(p.emcEmrs3, 13, 0, 8, 14), Op(p.emcEmrs, 21, 20, 8, 28)]
      case OtherMemory => []
  }

  function Scratch58(p: Params): seq<Op> {
    [Op(p.emcFbioSpare, 31, 24, 58, 0),
     Op(p.emcFbioSpare, 23, 16, 58, 8),
     Op(p.emcFbioSpare, 15, 8, 58, 16),
     Op(p.emcFbioSpare, 7, 2, 58, 24),
     Op(p.emcFbioSpare, 0, 0, 58, 30),
     Op(p.mcClkenOverrideAllWarmBoot, 0, 0, 58, 31)]
  }

  function Scratch59(p: Params): seq<Op> {
    [Op(p.emcDllCfg0, 29, 0, 59, 0),
     Op(p.emcClkenOverrideAllWarmBoot, 0, 0, 59, 30),
     Op(p.emcMrsWarmBootEnable, 0, 0, 59, 31)]
  }

  function Scratch60(p: Params): seq<Op> {
    [Op(p.emcPmacroDdllBypass, 11, 0, 60, 0),
     Op(p.emcPmacroDdllBypass, 27, 13, 60, 12),
     Op(p.emcPmacroDdllBypass, 31, 29, 60, 27),
     Op(p.clearClk2Mc1, 0, 0, 60, 30),
     Op(p.emcWarmBootExtraModeRegWriteEnable, 0, 0, 60, 31)]
  }

  function Scratch61(p: Params): seq<Op> {
    [Op(p.mcEmemArbMisc0, 14, 0, 61, 0),
     Op(p.mcEmemArbMisc0, 30, 16, 61, 15),
     Op(p.clkRstControllerPllmMisc2OverrideEnable, 0, 0, 61, 30),
     Op(p.emcDbgWriteMux, 0, 0, 61, 31)]
  }

  function Scratch62(p: Params): seq<Op> {
    [Op(p.emcFdpdCtrlCmd, 16, 0, 62, 0),
     Op(p.emcFdpdCtrlCmd, 31, 20, 62, 17),
     Op(p.emcExtraRefreshNum, 2, 0, 62, 29)]
  }

  // Each bit of scratch6 is written exactly once, but only for LPDDR memory.
  lemma Scratch6Filled(p: Params)
    ensures Fills(Scratch6(p), 6) <==> p.memoryType.LowPowerDdr()
  {
    hide LastWrite;
    var ops := Scratch6(p);
    if p.memoryType.LowPowerDdr() {
      forall k | 0 <= k < 32 ensures LastWrite(ops, 6, k) < |ops| {
        assert
          || ops[0].Covers(6, k) || ops[1].Covers(6, k) || ops[2].Covers(6, k)
          || ops[3].Covers(6, k) || ops[4].Covers(6, k) || ops[5].Covers(6, k)
          || ops[6].Covers(6, k) || ops[7].Covers(6, k) || ops[8].Covers(6, k);
      }
    } else {
      assert LastWrite(ops, 6, 0) == |ops|;
    }
  }

  // Each bit of scratch8 is, for every kind of memory that the switch knows.
  lemma Scratch8Filled(p: Params)
    ensures Fills(Scratch8(p), 8) <==> !p.memoryType.OtherMemory?
  {
    hide LastWrite;
    var ops := Scratch8(p);
    if p.memoryType.OtherMemory? {
      assert LastWrite(ops, 8, 0) == |ops|;
    } else {
      forall k | 0 <= k < 32 ensures LastWrite(ops, 8, k) < |ops| {
        assert ops[0].Covers(8, k) || ops[1].Covers(8, k) || ops[2].Covers(8, k) || (|ops| == 4 && ops[3].Covers(8, k));
      }
    }
  }

  lemma Scratch58Filled(p: Params)
    ensures Fills(Scratch58(p), 58)
  {
    hide LastWrite;
    var ops := Scratch58(p);
    forall k | 0 <= k < 32 ensures LastWrite(ops, 58, k) < |ops| {
      assert
        || ops[0].Covers(58, k) || ops[1].Covers(58, k) || ops[2].Covers(58, k)
        || ops[3].Covers(58, k) || ops[4].Covers(58, k) || ops[5].Covers(58, k);
    }
  }

  lemma Scratch59Filled(p: Params)
    ensures Fills(Scratch59(p), 59)
  {
    hide LastWrite;
    var ops := Scratch59(p);
    forall k | 0 <= k < 32 ensures LastWrite(ops, 59, k) < |ops| {
      assert ops[0].Covers(59, k) || ops[1].Covers(59, k) || ops[2].Covers(59, k);
    }
  }

  lemma Scratch60Filled(p: Params)
    ensures Fills(Scratch60(p), 60)
  {
    hide LastWrite;
    var ops := Scratch60(p);
    forall k | 0 <= k < 32 ensures LastWrite(ops, 60, k) < |ops| {
      assert
        || ops[0].Covers(60, k) || ops[1].Covers(60, k) || ops[2].Covers(60, k)
        || ops[3].Covers(60, k) || ops[4].Covers(60, k);
    }
  }

  lemma Scratch61Filled(p: Params)
    ensures Fills(Scratch61(p), 61)
  {
    hide LastWrite;
    var ops := Scratch61(p);
    forall k | 0 <= k < 32 ensures LastWrite(ops, 61, k) < |ops| {
      assert ops[0].Covers(61, k) || ops[1].Covers(61, k) || ops[2].Covers(61, k) || ops[3].Covers(61, k);
    }
  }

  lemma Scratch62Filled(p: Params)
    ensures Fills(Scratch62(p), 62)
  {
    hide LastWrite;
    var ops := Scratch62(p);
    forall k | 0 <= k < 32 ensures LastWrite(ops, 62, k) < |ops| {
      assert ops[0].Covers(62, k) || ops[1].Covers(62, k) || ops[2].Covers(62, k);
    }
  }

  // ----- what the whole table leaves in these registers -----

  // Bit d of a field is bit at + d of the word.
  lemma FieldBit(x: Word, at: nat, w: nat, d: nat)
    requires at + w <= 32 && d < w
    ensures |Field(x, at, w)| == w && Field(x, at, w)[d] == x[at + d]
  {
  }

  // A line of the table whose bits no other line writes: the w bits of src from bit lo on are
  // those of the register from bit `at` on.
  lemma LineHeld(regs: seq<Word>, ops: seq<Op>, r: nat, on: seq<Op>, i: nat, src: Word, lo: nat, w: nat, at: nat)
    requires Fits(ops, |regs|) && r < |regs| && OnReg(ops, r) == on && Disjoint(on) && i < |on|
    requires w > 0 && lo + w <= 32 && at + w <= 32 && on[i] == Op(src, lo + w - 1, lo, r, at)
    ensures Field(Save(regs, ops)[r], at, w) == Field(src, lo, w)
  {
    hide Save, Disjoint;
    SaveOnReg(regs, ops, r);
    hide OnReg;
    ReadBack(regs, on, i);
  }

  // Bits that no line writes stay.
  lemma BitsKept(regs: seq<Word>, ops: seq<Op>, r: nat, on: seq<Op>, from: nat, to: nat)
    requires Fits(ops, |regs|) && r < |regs| && OnReg(ops, r) == on && from <= to <= 32
    requires forall i, k :: 0 <= i < |on| && from <= k < to ==> !on[i].Covers(r, k)
    ensures Field(Save(regs, ops)[r], from, to - from) == Field(regs[r], from, to - from)
  {
    hide Save, LastWrite;
    SaveOnReg(regs, ops, r);
    hide OnReg, Fits;
    var x := Save(regs, on)[r];
    forall k | from <= k < to ensures x[k] == regs[r][k] { SaveBit(regs, on, r, k); }
    assert Field(x, from, to - from) == Field(regs[r], from, to - from);
  }

  lemma Scratch6Disjoint(p: Params)
    ensures Disjoint(Scratch6(p))
  {
  }

  // Scratch6.  Without LPDDR memory its first eight bits are what they were.
  lemma Scratch6Holds(regs: seq<Word>, ops: seq<Op>, p: Params)
    requires Fits(ops, |regs|) && |regs| > 6 && OnReg(ops, 6) == Scratch6(p)
    ensures var x := Save(regs, ops)[6];
            && Field(x, 8, 8) == Field(p.emcClockSource, 0, 8)
            && Field(x, 16, 8) == Field(p.emcClockSourceDll, 0, 8)
            && Field(x, 24, 3) == Field(p.emcClockSource, 29, 3)
            && Field(x, 27, 3) == Field(p.emcClockSourceDll, 29, 3)
            && Field(x, 30, 2) == Field(p.emcClockSourceDll, 10, 2)
            && if p.memoryType.LowPowerDdr() then
                 && Field(x, 0, 2) == Field(p.emcMrwLpddr2ZcalWarmBoot, 30, 2)
                 && Field(x, 2, 2) == Field(p.emcWarmBootMrwExtra, 30, 2)
                 && Field(x, 4, 2) == Field(p.emcMrwLpddr2ZcalWarmBoot, 26, 2)
                 && Field(x, 6, 2) == Field(p.emcWarmBootMrwExtra, 26, 2)
               else
                 Field(x, 0, 8) == Field(regs[6], 0, 8)
  {
    hide OnReg, Save, Fits, Disjoint, Field;
    var on := Scratch6(p);
    Scratch6Disjoint(p);
    LineHeld(regs, ops, 6, on, 0, p.emcClockSource, 0, 8, 8);
    LineHeld(regs, ops, 6, on, 1, p.emcClockSourceDll, 0, 8, 16);
    LineHeld(regs, ops, 6, on, 2, p.emcClockSource, 29, 3, 24);
    LineHeld(regs, ops, 6, on, 3, p.emcClockSourceDll, 29, 3, 27);
    LineHeld(regs, ops, 6, on, 4, p.emcClockSourceDll, 10, 2, 30);
    if p.memoryType.LowPowerDdr() {
      LineHeld(regs, ops, 6, on, 5, p.emcMrwLpddr2ZcalWarmBoot, 30, 2, 0);
      LineHeld(regs, ops, 6, on, 6, p.emcWarmBootMrwExtra, 30, 2, 2);
      LineHeld(regs, ops, 6, on, 7, p.emcMrwLpddr2ZcalWarmBoot, 26, 2, 4);
      LineHeld(regs, ops, 6, on, 8, p.emcWarmBootMrwExtra, 26, 2, 6);
    } else {
      BitsKept(regs, ops, 6, on, 0, 8);
    }
  }

  lemma Scratch8Disjoint(p: Params)
    ensures Disjoint(Scratch8(p))
  {
  }

  // Scratch8.  With memory that the switch does not know its first thirty bits are what they were.
  lemma Scratch8Holds(regs: seq<Word>, ops: seq<Op>, p: Params)
    requires Fits(ops, |regs|) && |regs| > 8 && OnReg(ops, 8) == Scratch8(p)
    ensures var x := Save(regs, ops)[8];
            && Field(x, 30, 2) == Field(p.emcPinGpio, 0, 2)
            && if p.memoryType.LowPowerDdr() then
                 && Field(x, 0, 28) == Field(p.emcMrw6, 0, 28)
                 && Field(x, 28, 2) == Field(p.emcMrw6, 30, 2)
               else if p.memoryType.Ddr3? then
                 && Field(x, 0, 14) == Field(p.emcEmrs2, 0, 14)
                 && Field(x, 14, 14) == Field(p.emcEmrs3, 0, 14)
                 && Field(x, 28, 2) == Field(p.emcEmrs, 20, 2)
               else
                 Field(x, 0, 30) == Field(regs[8], 0, 30)
  {
    hide OnReg, Save, Fits, Disjoint, Field;
    var on := Scratch8(p);
    Scratch8Disjoint(p);
    LineHeld(regs, ops, 8, on, 0, p.emcPinGpio, 0, 2, 30);
    if p.memoryType.LowPowerDdr() {
      LineHeld(regs, ops, 8, on, 1, p.emcMrw6, 0, 28, 0);
      LineHeld(regs, ops, 8, on, 2, p.emcMrw6, 30, 2, 28);
    } else if p.memoryType.Ddr3? {
      LineHeld(regs, ops, 8, on, 1, p.emcEmrs2, 0, 14, 0);
      LineHeld(regs, ops, 8, on, 2, p.emcEmrs3, 0, 14, 14);
      LineHeld(regs, ops, 8, on, 3, p.emcEmrs, 20, 2, 28);
    } else {
      BitsKept(regs, ops, 8, on, 0, 30);
    }
  }

  lemma Scratch58Disjoint(p: Params)
    ensures Disjoint(Scratch58(p))
  {
  }

  lemma Scratch58Holds(regs: seq<Word>, ops: seq<Op>, p: Params)
    requires Fits(ops, |regs|) && |regs| > 58 && OnReg(ops, 58) == Scratch58(p)
    ensures var x := Save(regs, ops)[58];
            && Field(x, 0, 8) == Field(p.emcFbioSpare, 24, 8)
            && Field(x, 8, 8) == Field(p.emcFbioSpare, 16, 8)
            && Field(x, 16, 8) == Field(p.emcFbioSpare, 8, 8)
            && Field(x, 24, 6) == Field(p.emcFbioSpare, 2, 6)
            && Field(x, 30, 1) == Field(p.emcFbioSpare, 0, 1)
            && Field(x, 31, 1) == Field(p.mcClkenOverrideAllWarmBoot, 0, 1)
  {
    hide OnReg, Save, Fits, Disjoint, Field;
    var on := Scratch58(p);
    Scratch58Disjoint(p);
    LineHeld(regs, ops, 58, on, 0, p.emcFbioSpare, 24, 8, 0);
    LineHeld(regs, ops, 58, on, 1, p.emcFbioSpare, 16, 8, 8);
    LineHeld(regs, ops, 58, on, 2, p.emcFbioSpare, 8, 8, 16);
    LineHeld(regs, ops, 58, on, 3, p.emcFbioSpare, 2, 6, 24);
    LineHeld(regs, ops, 58, on, 4, p.emcFbioSpare, 0, 1, 30);
    LineHeld(regs, ops, 58, on, 5, p.mcClkenOverrideAllWarmBoot, 0, 1, 31);
  }

  lemma Scratch59Disjoint(p: Params)
    ensures Disjoint(Scratch59(p))
  {
  }

  lemma Scratch59Holds(regs: seq<Word>, ops: seq<Op>, p: Params)
    requires Fits(ops, |regs|) && |regs| > 59 && OnReg(ops, 59) == Scratch59(p)
    ensures var x := Save(regs, ops)[59];
            && Field(x, 0, 30) == Field(p.emcDllCfg0, 0, 30)
            && Field(x, 30, 1) == Field(p.emcClkenOverrideAllWarmBoot, 0, 1)
            && Field(x, 31, 1) == Field(p.emcMrsWarmBootEnable, 0, 1)
  {
    hide OnReg, Save, Fits, Disjoint, Field;
    var on := Scratch59(p);
    Scratch59Disjoint(p);
    LineHeld(regs, ops, 59, on, 0, p.emcDllCfg0, 0, 30, 0);
    LineHeld(regs, ops, 59, on, 1, p.emcClkenOverrideAllWarmBoot, 0, 1, 30);
    LineHeld(regs, ops, 59, on, 2, p.emcMrsWarmBootEnable, 0, 1, 31);
  }

  lemma Scratch60Disjoint(p: Params)
    ensures Disjoint(Scratch60(p))
  {
  }

  lemma Scratch60Holds(regs: seq<Word>, ops: seq<Op>, p: Params)
    requires Fits(ops, |regs|) && |regs| > 60 && OnReg(ops, 60) == Scratch60(p)
    ensures var x := Save(regs, ops)[60];
            && Field(x, 0, 12) == Field(p.emcPmacroDdllBypass, 0, 12)
            && Field(x, 12, 15) == Field(p.emcPmacroDdllBypass, 13, 15)
            && Field(x, 27, 3) == Field(p.emcPmacroDdllBypass, 29, 3)
            && Field(x, 30, 1) == Field(p.clearClk2Mc1, 0, 1)
            && Field(x, 31, 1) == Field(p.emcWarmBootExtraModeRegWriteEnable, 0, 1)
  {
    hide OnReg, Save, Fits, Disjoint, Field;
    var on := Scratch60(p);
    Scratch60Disjoint(p);
    LineHeld(regs, ops, 60, on, 0, p.emcPmacroDdllBypass, 0, 12, 0);
    LineHeld(regs, ops, 60, on, 1, p.emcPmacroDdllBypass, 13, 15, 12);
    LineHeld(regs, ops, 60, on, 2, p.emcPmacroDdllBypass, 29, 3, 27);
    LineHeld(regs, ops, 60, on, 3, p.clearClk2Mc1, 0, 1, 30);
    LineHeld(regs, ops, 60, on, 4, p.emcWarmBootExtraModeRegWriteEnable, 0, 1, 31);
  }

  lemma Scratch61Disjoint(p: Params)
    ensures Disjoint(Scratch61(p))
  {
  }

  lemma Scratch61Holds(regs: seq<Word>, ops: seq<Op>, p: Params)
    requires Fits(ops, |regs|) && |regs| > 61 && OnReg(ops, 61) == Scratch61(p)
    ensures var x := Save(regs, ops)[61];
            && Field(x, 0, 15) == Field(p.mcEmemArbMisc0, 0, 15)
            && Field(x, 15, 15) == Field(p.mcEmemArbMisc0, 16, 15)
            && Field(x, 30, 1) == Field(p.clkRstControllerPllmMisc2OverrideEnable, 0, 1)
            && Field(x, 31, 1) == Field(p.emcDbgWriteMux, 0, 1)
  {
    hide OnReg, Save, Fits, Disjoint, Field;
    var on := Scratch61(p);
    Scratch61Disjoint(p);
    LineHeld(regs, ops, 61, on, 0, p.mcEmemArbMisc0, 0, 15, 0);
    LineHeld(regs, ops, 61, on, 1, p.mcEmemArbMisc0, 16, 15, 15);
    LineHeld(regs, ops, 61, on, 2, p.clkRstControllerPllmMisc2OverrideEnable, 0, 1, 30);
    LineHeld(regs, ops, 61, on, 3, p.emcDbgWriteMux, 0, 1, 31);
  }

  lemma Scratch62Disjoint(p: Params)
    ensures Disjoint(Scratch62(p))
  {
  }

  lemma Scratch62Holds(regs: seq<Word>, ops: seq<Op>, p: Params)
    requires Fits(ops, |regs|) && |regs| > 62 && OnReg(ops, 62) == Scratch62(p)
    ensures var x := Save(regs, ops)[62];
            && Field(x, 0, 17) == Field(p.emcFdpdCtrlCmd, 0, 17)
            && Field(x, 17, 12) == Field(p.emcFdpdCtrlCmd, 20, 12)
            && Field(x, 29, 3) == Field(p.emcExtraRefreshNum, 0, 3)
  {
    hide OnReg, Save, Fits, Disjoint, Field;
    var on := Scratch62(p);
    Scratch62Disjoint(p);
    LineHeld(regs, ops, 62, on, 0, p.emcFdpdCtrlCmd, 0, 17, 0);
    LineHeld(regs, ops, 62, on, 1, p.emcFdpdCtrlCmd, 20, 12, 17);
    LineHeld(regs, ops, 62, on, 2, p.emcExtraRefreshNum, 0, 3, 29);
  }

  // ----- registers that are reset first -----

  // c32(0, reg)
  function Reset(r: nat): Op { Op(Constant(false), 31, 0, r, 0) }

  function Scratch2(p: Params): seq<Op> {
    [Op(p.pllMInputDivider, 7, 0, 2, 0),
     Op(p.pllMFeedbackDivider, 7, 0, 2, 8),
     Op(p.pllMPostDivider, 4, 0, 2, 16),
     Op(p.pllMKVCO, 0, 0, 2, 21),
     Op(p.pllMKCP, 1, 0, 2, 22)]
  }

  function Scratch35(p: Params): seq<Op> { [Op(p.pllMSetupControl, 15, 0, 35, 0)] }

  // The constant 0x3e.
  function Word3E(): Word { seq(32, i => 1 <= i <= 5) }

  function Scratch3(p: Params): seq<Op> {
    [Op(p.pllMInputDivider, 7, 0, 3, 0),
     Op(Word3E(), 7, 0, 3, 8),
     Op(Constant(false), 4, 0, 3, 16),
     Op(p.pllMKVCO, 0, 0, 3, 21),
     Op(p.pllMKCP, 1, 0, 3, 22)]
  }

  function Scratch36(p: Params): seq<Op> { [Op(p.pllMSetupControl, 23, 0, 36, 0)] }
  function Scratch4(p: Params): seq<Op> { [Op(p.pllMStableTime, 9, 0, 4, 0)] }

  lemma LastAfter(front: seq<Op>, fields: seq<Op>, r: nat, k: nat)
    requires k < 32
    ensures var i, j := LastWrite(front + [Reset(r)] + fields, r, k), LastWrite(fields, r, k);
            i == |front| + 1 + (if j < |fields| then j else -1)
  {
    hide LastWrite;
    var ops := front + [Reset(r)] + fields;
    var i, j := LastWrite(ops, r, k), LastWrite(fields, r, k);
    assert ops[|front|] == Reset(r) && Reset(r).Covers(r, k);
    assert forall l :: 0 <= l < |fields| ==> ops[|front| + 1 + l] == fields[l];
  }

  lemma ResetBitOn(regs: seq<Word>, r: nat, front: seq<Op>, fields: seq<Op>, k: nat)
    requires r < |regs| && k < 32 && Fits(front + [Reset(r)] + fields, |regs|) && Fits(fields, |regs|)
    ensures var j := LastWrite(fields, r, k);
            Save(regs, front + [Reset(r)] + fields)[r][k] <==> j < |fields| && fields[j].src[k - fields[j].at + fields[j].lo]
  {
    hide Save, LastWrite, Fits;
    var on := front + [Reset(r)] + fields;
    SaveBit(regs, on, r, k);
    LastAfter(front, fields, r, k);
    var j := LastWrite(fields, r, k);
    if j < |fields| {
      assert on[|front| + 1 + j] == fields[j];
    } else {
      assert on[|front|] == Reset(r);
    }
  }

  lemma FieldsFit(front: seq<Op>, fields: seq<Op>, r: nat, n: nat)
    requires Fits(front + [Reset(r)] + fields, n)
    ensures Fits(fields, n)
  {
    var on := front + [Reset(r)] + fields;
    forall l | 0 <= l < |fields| ensures fields[l].Valid() && fields[l].reg < n { assert on[|front| + 1 + l] == fields[l]; }
  }

  // After a reset followed by fields each bit is that of the last field that covers it, else
  // zero: nothing is left of what the register held or what was packed into it before.
  lemma ResetBit(regs: seq<Word>, ops: seq<Op>, r: nat, front: seq<Op>, fields: seq<Op>, k: nat)
    requires Fits(ops, |regs|) && r < |regs| && k < 32 && OnReg(ops, r) == front + [Reset(r)] + fields
    ensures Fits(fields, |regs|)
    ensures var j := LastWrite(fields, r, k);
            Save(regs, ops)[r][k] <==> j < |fields| && fields[j].src[k - fields[j].at + fields[j].lo]
  {
    hide Save, LastWrite;
    SaveOnReg(regs, ops, r);
    hide OnReg, Fits;
    FieldsFit(front, fields, r, |regs|);
    ResetBitOn(regs, r, front, fields, k);
  }

  // No bit is set from bit n up.
  predicate ZeroFrom(x: Word, n: nat) { forall k :: n <= k < 32 ==> !x[k] }

  lemma ResetLine(regs: seq<Word>, ops: seq<Op>, r: nat, front: seq<Op>, fields: seq<Op>, i: nat, src: Word, lo: nat, w: nat, at: nat)
    requires Fits(ops, |regs|) && r < |regs| && OnReg(ops, r) == front + [Reset(r)] + fields && Disjoint(fields) && i < |fields|
    requires w > 0 && lo + w <= 32 && at + w <= 32 && fields[i] == Op(src, lo + w - 1, lo, r, at)
    ensures Field(Save(regs, ops)[r], at, w) == Field(src, lo, w)
  {
    hide Save, LastWrite, OnReg, Disjoint;
    var f, g := Field(Save(regs, ops)[r], at, w), Field(src, lo, w);
    forall d | 0 <= d < w ensures f[d] == g[d] {
      ResetBit(regs, ops, r, front, fields, at + d);
      OnlyWriter(fields, i, at + d);
    }
  }

  lemma ConstantFields()
    ensures Field(Word3E(), 0, 8) == [false, true, true, true, true, true, false, false]
    ensures Field(Constant(false), 0, 5) == [false, false, false, false, false]
  {
  }

  lemma ResetRest(regs: seq<Word>, ops: seq<Op>, r: nat, front: seq<Op>, fields: seq<Op>, from: nat)
    requires Fits(ops, |regs|) && r < |regs| && OnReg(ops, r) == front + [Reset(r)] + fields
    requires forall i, k :: 0 <= i < |fields| && from <= k < 32 ==> !fields[i].Covers(r, k)
    ensures ZeroFrom(Save(regs, ops)[r], from)
  {
    hide Save, LastWrite, OnReg, Fits;
    var x := Save(regs, ops)[r];
    forall k | from <= k < 32 ensures !x[k] { ResetBit(regs, ops, r, front, fields, k); }
  }

  lemma Scratch2Disjoint(p: Params)
    ensures Disjoint(Scratch2(p))
  {
  }

  lemma Scratch2Holds(regs: seq<Word>, ops: seq<Op>, p: Params, front: seq<Op>)
    requires Fits(ops, |regs|) && |regs| > 2 && OnReg(ops, 2) == front + [Reset(2)] + Scratch2(p)
    ensures var x := Save(regs, ops)[2];
            && Field(x, 0, 8) == Field(p.pllMInputDivider, 0, 8)
            && Field(x, 8, 8) == Field(p.pllMFeedbackDivider, 0, 8)
            && Field(x, 16, 5) == Field(p.pllMPostDivider, 0, 5)
            && Field(x, 21, 1) == Field(p.pllMKVCO, 0, 1)
            && Field(x, 22, 2) == Field(p.pllMKCP, 0, 2)
            && ZeroFrom(x, 24)
  {
    hide OnReg, Save, Fits, Disjoint, Field;
    var fields := Scratch2(p);
    Scratch2Disjoint(p);
    ResetLine(regs, ops, 2, front, fields, 0, p.pllMInputDivider, 0, 8, 0);
    ResetLine(regs, ops, 2, front, fields, 1, p.pllMFeedbackDivider, 0, 8, 8);
    ResetLine(regs, ops, 2, front, fields, 2, p.pllMPostDivider, 0, 5, 16);
    ResetLine(regs, ops, 2, front, fields, 3, p.pllMKVCO, 0, 1, 21);
    ResetLine(regs, ops, 2, front, fields, 4, p.pllMKCP, 0, 2, 22);
    ResetRest(regs, ops, 2, front, fields, 24);
  }

  lemma Scratch35Disjoint(p: Params)
    ensures Disjoint(Scratch35(p))
  {
  }

  lemma Scratch35Holds(regs: seq<Word>, ops: seq<Op>, p: Params, front: seq<Op>)
    requires Fits(ops, |regs|) && |regs| > 35 && OnReg(ops, 35) == front + [Reset(35)] + Scratch35(p)
    ensures var x := Save(regs, ops)[35];
            && Field(x, 0, 16) == Field(p.pllMSetupControl, 0, 16)
            && ZeroFrom(x, 16)
  {
    hide OnReg, Save, Fits, Disjoint, Field;
    var fields := Scratch35(p);
    Scratch35Disjoint(p);
    ResetLine(regs, ops, 35, front, fields, 0, p.pllMSetupControl, 0, 16, 0);
    ResetRest(regs, ops, 35, front, fields, 16);
  }

  lemma Scratch3Disjoint(p: Params)
    ensures Disjoint(Scratch3(p))
  {
  }

  lemma Scratch3Holds(regs: seq<Word>, ops: seq<Op>, p: Params, front: seq<Op>)
    requires Fits(ops, |regs|) && |regs| > 3 && OnReg(ops, 3) == front + [Reset(3)] + Scratch3(p)
    ensures var x := Save(regs, ops)[3];
            && Field(x, 0, 8) == Field(p.pllMInputDivider, 0, 8)
            && Field(x, 21, 1) == Field(p.pllMKVCO, 0, 1)
            && Field(x, 22, 2) == Field(p.pllMKCP, 0, 2)
            && Field(x, 8, 8) == [false, true, true, true, true, true, false, false]
            && Field(x, 16, 5) == [false, false, false, false, false]
            && ZeroFrom(x, 24)
  {
    hide OnReg, Save, Fits, Disjoint, Field;
    var fields := Scratch3(p);
    Scratch3Disjoint(p);
    ResetLine(regs, ops, 3, front, fields, 0, p.pllMInputDivider, 0, 8, 0);
    ResetLine(regs, ops, 3, front, fields, 3, p.pllMKVCO, 0, 1, 21);
    ResetLine(regs, ops, 3, front, fields, 4, p.pllMKCP, 0, 2, 22);
    ResetLine(regs, ops, 3, front, fields, 1, Word3E(), 0, 8, 8);
    ResetLine(regs, ops, 3, front, fields, 2, Constant(false), 0, 5, 16);
    ConstantFields();
    ResetRest(regs, ops, 3, front, fields, 24);
  }

  lemma Scratch36Disjoint(p: Params)
    ensures Disjoint(Scratch36(p))
  {
  }

  lemma Scratch36Holds(regs: seq<Word>, ops: seq<Op>, p: Params, front: seq<Op>)
    requires Fits(ops, |regs|) && |regs| > 36 && OnReg(ops, 36) == front + [Reset(36)] + Scratch36(p)
    ensures var x := Save(regs, ops)[36];
            && Field(x, 0, 24) == Field(p.pllMSetupControl, 0, 24)
            && ZeroFrom(x, 24)
  {
    hide OnReg, Save, Fits, Disjoint, Field;
    var fields := Scratch36(p);
    Scratch36Disjoint(p);
    ResetLine(regs, ops, 36, front, fields, 0, p.pllMSetupControl, 0, 24, 0);
    ResetRest(regs, ops, 36, front, fields, 24);
  }

  lemma Scratch4Disjoint(p: Params)
    ensures Disjoint(Scratch4(p))
  {
  }

  lemma Scratch4Holds(regs: seq<Word>, ops: seq<Op>, p: Params, front: seq<Op>)
    requires Fits(ops, |regs|) && |regs| > 4 && OnReg(ops, 4) == front + [Reset(4)] + Scratch4(p)
    ensures var x := Save(regs, ops)[4];
            && Field(x, 0, 10) == Field(p.pllMStableTime, 0, 10)
            && ZeroFrom(x, 10)
  {
    hide OnReg, Save, Fits, Disjoint, Field;
    var fields := Scratch4(p);
    Scratch4Disjoint(p);
    ResetLine(regs, ops, 4, front, fields, 0, p.pllMStableTime, 0, 10, 0);
    ResetRest(regs, ops, 4, front, fields, 10);
  }

  lemma ResetLast(regs: seq<Word>, r: nat, fields: seq<Op>)
    requires r < |regs| && Fits(fields, |regs|)
    ensures Fits(fields + [Reset(r)], |regs|) && Save(regs, fields + [Reset(r)])[r] == Constant(false)
  {
    hide Save, LastWrite;
    assert fields + [Reset(r)] + [] == fields + [Reset(r)];
    var x := Save(regs, fields + [Reset(r)])[r];
    forall k | 0 <= k < 32 ensures x[k] == Constant(false)[k] { ResetBitOn(regs, r, fields, [], k); }
  }

  lemma ResetFirstBit(regs: seq<Word>, r: nat, fields: seq<Op>, k: nat)
    requires r < |regs| && k < 32 && Fits(fields, |regs|)
    ensures Fits([Reset(r)] + fields, |regs|)
    ensures var j := LastWrite(fields, r, k);
            Save(regs, [Reset(r)] + fields)[r][k] <==> j < |fields| && fields[j].src[k - fields[j].at + fields[j].lo]
  {
    hide Save, LastWrite;
    assert [] + [Reset(r)] + fields == [Reset(r)] + fields;
    ResetBitOn(regs, r, [], fields, k);
  }

  // Every bit that a field carries is zero.
  ghost predicate AllZero(fields: seq<Op>) {
    forall i, k :: 0 <= i < |fields| && fields[i].lo <= k <= fields[i].hi && k < 32 ==> !fields[i].src[k]
  }

  lemma ZeroFields(regs: seq<Word>, r: nat, fields: seq<Op>)
    requires r < |regs| && Fits(fields, |regs|) && AllZero(fields)
    ensures Fits([Reset(r)] + fields, |regs|) && Save(regs, [Reset(r)] + fields)[r] == Constant(false)
  {
    hide Save, LastWrite;
    ResetFirstBit(regs, r, fields, 0);
    var x := Save(regs, [Reset(r)] + fields)[r];
    forall k | 0 <= k < 32 ensures x[k] == Constant(false)[k] { ResetFirstBit(regs, r, fields, k); }
  }

  lemma NonzeroField(regs: seq<Word>, r: nat, fields: seq<Op>, i: nat, k: nat)
    requires r < |regs| && Fits(fields, |regs|) && Disjoint(fields) && i < |fields| && fields[i].reg == r
    requires fields[i].lo <= k <= fields[i].hi && fields[i].src[k]
    ensures Fits([Reset(r)] + fields, |regs|) && Save(regs, [Reset(r)] + fields)[r] != Constant(false)
  {
    hide Save, LastWrite, Disjoint;
    var l := fields[i].at + k - fields[i].lo;
    ResetFirstBit(regs, r, fields, l);
    OnlyWriter(fields, i, l);
    assert !Constant(false)[l];
  }

  // The order matters: with the reset last the register is zero, which is the same only if
  // every field is.
  lemma ResetOrder(regs: seq<Word>, r: nat, fields: seq<Op>)
    requires r < |regs| && Fits(fields, |regs|) && Disjoint(fields)
    requires forall i :: 0 <= i < |fields| ==> fields[i].reg == r
    ensures Fits([Reset(r)] + fields, |regs|) && Fits(fields + [Reset(r)], |regs|)
    ensures Save(regs, fields + [Reset(r)])[r] == Constant(false)
    ensures Save(regs, [Reset(r)] + fields)[r] == Save(regs, fields + [Reset(r)])[r] <==> AllZero(fields)
  {
    hide Save, Disjoint, Constant;
    ResetLast(regs, r, fields);
    if AllZero(fields) {
      ZeroFields(regs, r, fields);
    } else {
      var i, k :| 0 <= i < |fields| && fields[i].lo <= k <= fields[i].hi && k < 32 && fields[i].src[k];
      NonzeroField(regs, r, fields, i, k);
    }
  }
}
