/** `ATR_backtrace_up` starts on an `exec_env` whose CFA register, CFA offset, factors and return
    column C leaves uninitialised. This module says exactly when what they hold cannot matter. */
module StartState {
  import opened Words
  import opened Leb128
  import opened CfaMachine
  import opened CfaEncoding
  import opened EhFrame
  import opened EhFrameEncoding

  /** What is on the C stack before the first CIE: no rules, no columns, no augmentation. The
      other fields may hold anything. */
  predicate Blank(st: CieState) {
    st.row.rules == map[] && st.width == 0 && !st.haveAug
  }

  // ---------------------------------------------------------------- which CFA fields are defined

  /** Whether the CFA register and the CFA offset of a row were set by an instruction. */
  datatype Known = Known(reg: bool, off: bool)

  const UNKNOWN := Known(false, false)
  const ALL_KNOWN := Known(true, true)

  /** One instruction, on the current row (last) and the rows remembered under it. */
  function StepKnown(i: Instr, ks: seq<Known>): (r: seq<Known>)
    requires ks != []
    ensures r != []
  {
    var top := |ks| - 1;
    match i
    case DefCfa(_, _) => ks[top := ALL_KNOWN]
    case DefCfaRegister(_) => ks[top := ks[top].(reg := true)]
    case DefCfaOffset(_) => ks[top := ks[top].(off := true)]
    case Remember => ks + [ks[top]]
    case Restore(_) => if top == 0 then ks else ks[..top]
    case _ => ks
  }

  function AllKnown(executed: seq<Instr>, ks: seq<Known>): (r: seq<Known>)
    requires ks != []
    ensures r != []
    decreases |executed|
  {
    if executed == [] then ks else AllKnown(executed[1..], StepKnown(executed[0], ks))
  }

  /** The same for the instructions a run executes. */
  function RunKnown(prog: seq<Instr>, m: Machine, pc: nat, dataAlign: Int32, ks: seq<Known>): (r: seq<Known>)
    requires ks != []
    ensures r != []
  {
    AllKnown(prog[..Run(prog, m, pc, dataAlign).2], ks)
  }

  function Top(ks: seq<Known>): Known
    requires ks != []
  {
    ks[|ks| - 1]
  }

  lemma RunKnownOne(prog: seq<Instr>, m: Machine, pc: nat, dataAlign: Int32, ks: seq<Known>)
    requires ks != [] && prog != [] && |ks| == |m.saved| + 1
    ensures var r := RunKnown(prog, m, pc, dataAlign, ks);
            if prog[0].Advance? then
              var moved := m.(loc := m.loc + prog[0].delta);
              r == if moved.loc >= pc then ks else RunKnown(prog[1..], moved, pc, dataAlign, ks)
            else if !Failure(m, prog[0]).AtEnd? then r == ks
            else r == RunKnown(prog[1..], Step(m, prog[0], dataAlign), pc, dataAlign, StepKnown(prog[0], ks))
  {
    var n := Run(prog, m, pc, dataAlign).2;
    assert n > 0 && prog[..n][0] == prog[0] && prog[..n][1..] == prog[1..][..n - 1];
    assert RunKnown(prog, m, pc, dataAlign, ks) == AllKnown(prog[1..][..n - 1], StepKnown(prog[0], ks));
    if prog[0].Advance? || !Failure(m, prog[0]).AtEnd? {
      assert StepKnown(prog[0], ks) == ks;
      assert n == 1 ==> AllKnown(prog[1..][..0], ks) == ks;
    }
  }

  // ---------------------------------------------------------------- runs from two starts

  /** Rows of two runs that began with the CFA fields of a0 and b0: the rules agree, and so does
      each CFA field that is known; an unknown one is still the one of the beginning. */
  predicate Alike(a: Row, b: Row, k: Known, a0: Row, b0: Row) {
    && a.rules == b.rules
    && (if k.reg then a.cfaReg == b.cfaReg else a.cfaReg == a0.cfaReg && b.cfaReg == b0.cfaReg)
    && (if k.off then a.cfaOffset == b.cfaOffset else a.cfaOffset == a0.cfaOffset && b.cfaOffset == b0.cfaOffset)
  }

  ghost predicate AlikeMachines(a: Machine, b: Machine, ks: seq<Known>, a0: Row, b0: Row) {
    && a.loc == b.loc
    && |ks| == |a.saved| + 1 == |b.saved| + 1
    && Alike(a.row, b.row, ks[|ks| - 1], a0, b0)
    && forall i :: 0 <= i < |a.saved| ==> Alike(a.saved[i], b.saved[i], ks[i], a0, b0)
  }

  lemma StepKeepsAlike(a: Machine, b: Machine, i: Instr, dataAlign: Int32, ks: seq<Known>, a0: Row, b0: Row)
    requires AlikeMachines(a, b, ks, a0, b0) && Failure(a, i).AtEnd?
    ensures Failure(b, i).AtEnd?
    ensures AlikeMachines(Step(a, i, dataAlign), Step(b, i, dataAlign), StepKnown(i, ks), a0, b0)
  {
  }

  /** Where a run stops depends on the location and on how many rows are saved, and on nothing else. */
  lemma {:induction false} RunsStopAlike(prog: seq<Instr>, a: Machine, b: Machine, pc: nat, da: Int32, db: Int32)
    requires a.loc == b.loc && |a.saved| == |b.saved|
    ensures Run(prog, a, pc, da).0 == Run(prog, b, pc, db).0
    ensures Run(prog, a, pc, da).2 == Run(prog, b, pc, db).2
    decreases |prog|
  {
    if prog != [] {
      if prog[0].Advance? {
        RunsStopAlike(prog[1..], a.(loc := a.loc + prog[0].delta), b.(loc := b.loc + prog[0].delta), pc, da, db);
      } else if Failure(a, prog[0]).AtEnd? {
        RunsStopAlike(prog[1..], Step(a, prog[0], da), Step(b, prog[0], db), pc, da, db);
      }
    }
  }

  lemma {:induction false} RunsEndAlike(prog: seq<Instr>, a: Machine, b: Machine, pc: nat, da: Int32, ks: seq<Known>,
                                        a0: Row, b0: Row)
    requires AlikeMachines(a, b, ks, a0, b0)
    ensures AlikeMachines(Run(prog, a, pc, da).1, Run(prog, b, pc, da).1, RunKnown(prog, a, pc, da, ks), a0, b0)
    decreases |prog|
  {
    hide Alike, Step, StepKnown, RunKnown;
    if prog == [] {
      assert RunKnown(prog, a, pc, da, ks) == ks by { NothingRun(a, pc, da, ks); }
    } else {
      RunKnownOne(prog, a, pc, da, ks);
      if prog[0].Advance? {
        RunsEndAlike(prog[1..], a.(loc := a.loc + prog[0].delta), b.(loc := b.loc + prog[0].delta), pc, da, ks, a0, b0);
      } else if Failure(a, prog[0]).AtEnd? {
        StepKeepsAlike(a, b, prog[0], da, ks, a0, b0);
        RunsEndAlike(prog[1..], Step(a, prog[0], da), Step(b, prog[0], da), pc, da, StepKnown(prog[0], ks), a0, b0);
      }
    }
  }

  lemma NothingRun(m: Machine, pc: nat, da: Int32, ks: seq<Known>)
    requires ks != []
    ensures RunKnown([], m, pc, da, ks) == ks
  {
  }

  // ---------------------------------------------------------------- records from two starts

  /** States reached from a0 and b0 over the same records, of which some was a CIE or none was. */
  predicate AlikeStates(a: CieState, b: CieState, cie: bool, k: Known, a0: CieState, b0: CieState) {
    && Alike(a.row, b.row, k, a0.row, b0.row)
    && a.width == b.width && a.haveAug == b.haveAug
    && if cie then a.codeAlign == b.codeAlign && a.dataAlign == b.dataAlign && a.returnColumn == b.returnColumn
       else a == a0 && b == b0
  }

  function CieKnown(base: seq<Byte>, at: nat, st: CieState, pc: Word64, k: Known): Known
    requires at + 4 <= |base|
  {
    var h := CieHeader(base, at);
    if h.NoHeader? then k
    else Top(RunKnown(Program(base, h.next, at + Read4(base, at) + 4), Machine(0, st.row, []), pc, h.dataAlign, [k]))
  }

  function FdeKnown(base: seq<Byte>, at: nat, st: CieState, section: Word64, pc: Word64, k: Known): Known
    requires at + 16 <= |base|
  {
    var skip := SkipAugmentation(base, at + 16, st.haveAug);
    if skip.Undefined? then k
    else Top(RunKnown(Program(base, skip.next, at + Read4(base, at) + 4),
                      Machine(FdeBegin(base, at, section), st.row, []), pc, st.dataAlign, [k]))
  }

  /** Two runs of one program from rows that are alike. */
  lemma ProgramAlike(prog: seq<Instr>, loc: nat, a: Row, b: Row, pc: nat, da: Int32, w: nat, k: Known, a0: Row, b0: Row)
    requires Alike(a, b, k, a0, b0)
    ensures var (sa, ma, na) := Run(prog, Machine(loc, a, []), pc, da);
            var (sb, mb, nb) := Run(prog, Machine(loc, b, []), pc, da);
            && sa == sb && na == nb
            && RunWidths(prog, Machine(loc, a, []), pc, da, [w]) == RunWidths(prog, Machine(loc, b, []), pc, da, [w])
            && RunKnown(prog, Machine(loc, a, []), pc, da, [k]) == RunKnown(prog, Machine(loc, b, []), pc, da, [k])
            && Alike(ma.row, mb.row, Top(RunKnown(prog, Machine(loc, a, []), pc, da, [k])), a0, b0)
  {
    hide Alike, Run, AllKnown, Widths;
    RunsStopAlike(prog, Machine(loc, a, []), Machine(loc, b, []), pc, da, da);
    RunsEndAlike(prog, Machine(loc, a, []), Machine(loc, b, []), pc, da, [k], a0, b0);
  }

  /** A CIE replaces the factors and the return column, so from it on only the CFA fields can differ. */
  lemma CieAlike(base: seq<Byte>, at: nat, a: CieState, b: CieState, cie: bool, k: Known, a0: CieState, b0: CieState, pc: Word64)
    requires at + 4 <= |base| && AlikeStates(a, b, cie, k, a0, b0)
    ensures CieKnown(base, at, a, pc, k) == CieKnown(base, at, b, pc, k)
    ensures var ra, rb := ExecCie(base, at, a, pc), ExecCie(base, at, b, pc);
            if ra.CieOk? then rb.CieOk? && AlikeStates(ra.st, rb.st, true, CieKnown(base, at, a, pc, k), a0, b0) else ra == rb
  {
    hide Run, RunWidths, RunKnown, Program, CieHeader, Read4, Alike, Top, Collapsed;
    var h := CieHeader(base, at);
    if h.Header? {
      ProgramAlike(Program(base, h.next, at + Read4(base, at) + 4), 0, a.row, b.row, pc, h.dataAlign,
                   Widened(a.width, h.returnColumn), k, a0.row, b0.row);
    }
  }

  /** What the two starts have in common when the walks are over. */
  predicate AlikeOutcomes(oa: Outcome, ob: Outcome, cie: bool, k: Known, a0: CieState, b0: CieState) {
    if !oa.Found? then oa == ob
    else
      && ob.Found? && oa.at == ob.at && oa.st.width == ob.st.width && oa.st.haveAug == ob.st.haveAug
      && if cie then
           && oa.st.codeAlign == ob.st.codeAlign && oa.st.dataAlign == ob.st.dataAlign
           && oa.st.returnColumn == ob.st.returnColumn && oa.st.row.rules == ob.st.row.rules
           && Alike(oa.row, ob.row, k, a0.row, b0.row)
         else oa.st == a0 && ob.st == b0
  }

  lemma FdeAlike(base: seq<Byte>, at: nat, a: CieState, b: CieState, cie: bool, k: Known, a0: CieState, b0: CieState,
                 section: Word64, pc: Word64)
    requires at + 16 <= |base| && AlikeStates(a, b, cie, k, a0, b0)
    ensures cie ==> FdeKnown(base, at, a, section, pc, k) == FdeKnown(base, at, b, section, pc, k)
    ensures AlikeOutcomes(ExecFde(base, at, a, section, pc), ExecFde(base, at, b, section, pc), cie,
                          FdeKnown(base, at, a, section, pc, k), a0, b0)
  {
    hide Run, RunKnown, Program, Read4, FdeBegin, Top, SkipAugmentation;
    var skip := SkipAugmentation(base, at + 16, a.haveAug);
    if skip.Read? {
      var prog, loc := Program(base, skip.next, at + Read4(base, at) + 4), FdeBegin(base, at, section);
      RunsStopAlike(prog, Machine(loc, a.row, []), Machine(loc, b.row, []), pc, a.dataAlign, b.dataAlign);
      if cie {
        ProgramAlike(prog, loc, a.row, b.row, pc, a.dataAlign, 0, k, a0.row, b0.row);
      }
    }
  }

  // ---------------------------------------------------------------- walks from two starts

  /** Whether a CIE was executed, and which CFA fields were set, when the walk is over. */
  function WalkKnown(base: seq<Byte>, at: nat, length: nat, st: CieState, cie: bool, k: Known, section: Word64, pc: Word64)
    : (bool, Known)
    requires length <= |base| && WellFormed(base, at, length)
    decreases length - at
  {
    if at >= length || Read4(base, at) == 0 then (cie, k)
    else if !IsFde(base, at) then
      var r := ExecCie(base, at, st, pc);
      if r.CieOk? then WalkKnown(base, Next(base, at), length, r.st, true, CieKnown(base, at, st, pc, k), section, pc)
      else (cie, k)
    else if FdeHolds(base, at, section, pc) then (cie, if cie then FdeKnown(base, at, st, section, pc, k) else k)
    else WalkKnown(base, Next(base, at), length, st, cie, k, section, pc)
  }

  lemma {:induction false} WalksAlike(base: seq<Byte>, at: nat, length: nat, a: CieState, b: CieState, cie: bool, k: Known,
                                      a0: CieState, b0: CieState, section: Word64, pc: Word64)
    requires length <= |base| && WellFormed(base, at, length) && AlikeStates(a, b, cie, k, a0, b0)
    ensures WalkKnown(base, at, length, a, cie, k, section, pc) == WalkKnown(base, at, length, b, cie, k, section, pc)
    ensures var (cie', k') := WalkKnown(base, at, length, a, cie, k, section, pc);
            AlikeOutcomes(Walk(base, at, length, a, section, pc), Walk(base, at, length, b, section, pc), cie', k', a0, b0)
    decreases length - at
  {
    hide ExecCie, ExecFde, CieKnown, FdeKnown, Read4, FdeHolds, AlikeStates;
    if at < length && Read4(base, at) != 0 {
      if !IsFde(base, at) {
        CieAlike(base, at, a, b, cie, k, a0, b0, pc);
        var ra, rb := ExecCie(base, at, a, pc), ExecCie(base, at, b, pc);
        if ra.CieOk? {
          WalksAlike(base, Next(base, at), length, ra.st, rb.st, true, CieKnown(base, at, a, pc, k), a0, b0, section, pc);
        }
      } else if FdeHolds(base, at, section, pc) {
        HolderIsComplete(base, at, section, pc);
        FdeAlike(base, at, a, b, cie, k, a0, b0, section, pc);
      } else {
        WalksAlike(base, Next(base, at), length, a, b, cie, k, a0, b0, section, pc);
      }
    }
  }

  lemma HolderIsComplete(base: seq<Byte>, at: nat, section: Word64, pc: Word64)
    requires FdeHolds(base, at, section, pc)
    ensures at + 16 <= |base|
  {
  }

  // ---------------------------------------------------------------- the theorem

  const ZERO := CieState(Row(0, 0, map[]), 0, 0, 0, 0, false)

  /** The walk finds no frame, or a frame whose factors, return column and CFA were all defined by
      the section. This is a condition on the section and pc alone. */
  predicate Determined(base: seq<Byte>, length: nat, section: Word64, pc: Word64)
    requires length <= |base| && WellFormed(base, 0, length)
  {
    Walk(base, 0, length, ZERO, section, pc).Found? ==>
      WalkKnown(base, 0, length, ZERO, false, UNKNOWN, section, pc) == (true, ALL_KNOWN)
  }

  /** What the registers of the caller are computed from. */
  predicate SameFrame(oa: Outcome, ob: Outcome) {
    if !oa.Found? then oa == ob
    else
      ob.Found? && oa.at == ob.at && oa.row == ob.row
      && oa.st.width == ob.st.width && oa.st.returnColumn == ob.st.returnColumn
  }

  /** From any two blank states the walk ends at the same record in the same way. After a CIE the
      two frames have the same rules, width and return column, and they have the same row exactly
      when each CFA field was set by the section or happened to be the same on the stack. */
  lemma BlankStartsAgree(base: seq<Byte>, length: nat, a: CieState, b: CieState, section: Word64, pc: Word64)
    requires length <= |base| && WellFormed(base, 0, length) && Blank(a) && Blank(b)
    ensures var oa, ob := Walk(base, 0, length, a, section, pc), Walk(base, 0, length, b, section, pc);
            var (cie, k) := WalkKnown(base, 0, length, ZERO, false, UNKNOWN, section, pc);
            && (if oa.Found? then ob.Found? && oa.at == ob.at && oa.st.width == ob.st.width else oa == ob)
            && (oa.Found? && cie ==>
                  && oa.st.returnColumn == ob.st.returnColumn && oa.row.rules == ob.row.rules
                  && (SameFrame(oa, ob) <==>
                      && (k.reg || a.row.cfaReg == b.row.cfaReg)
                      && (k.off || a.row.cfaOffset == b.row.cfaOffset)))
            && (oa.Found? && !cie ==> oa.st == a && ob.st == b)
  {
    hide Walk, WalkKnown;
    WalksAlike(base, 0, length, ZERO, a, false, UNKNOWN, ZERO, a, section, pc);
    WalksAlike(base, 0, length, a, b, false, UNKNOWN, a, b, section, pc);
  }

  /** What the stack holds cannot matter exactly when the section defines everything. */
  lemma DeterminedExactly(base: seq<Byte>, length: nat, section: Word64, pc: Word64)
    requires length <= |base| && WellFormed(base, 0, length)
    ensures Determined(base, length, section, pc) <==>
            forall a, b :: Blank(a) && Blank(b) ==>
              SameFrame(Walk(base, 0, length, a, section, pc), Walk(base, 0, length, b, section, pc))
  {
    hide Walk, WalkKnown;
    forall a, b | Blank(a) && Blank(b) && Determined(base, length, section, pc)
      ensures SameFrame(Walk(base, 0, length, a, section, pc), Walk(base, 0, length, b, section, pc))
    {
      BlankStartsAgree(base, length, ZERO, a, section, pc);
      BlankStartsAgree(base, length, a, b, section, pc);
    }
    if !Determined(base, length, section, pc) {
      var other := CieState(Row(1, 1, map[]), 0, 0, 0, 1, false);
      BlankStartsAgree(base, length, ZERO, other, section, pc);
      assert Blank(ZERO) && Blank(other);
    }
  }

  /** A section that does not: a CIE and an FDE that describe no CFA, as nothing forbids. */
  lemma UndescribedFrame() returns (base: seq<Byte>, pc: Word64)
    ensures |base| < TWO32 && WellFormed(base, 0, |base|)
    ensures Walk(base, 0, |base|, ZERO, 0, pc).Found? && !Determined(base, |base|, 0, pc)
  {
    var cie, fde := Cie([], 1, -8, 16, [], []), Fde(1, 0, 1, [], []);
    var records := [cie, fde];
    base := EncodeSection(records, false);
    var at := |EncodeRecord(cie, false)|;
    pc := Start(fde, at, 0);
    var other := ZERO.(row := Row(1, 0, map[]));
    ShortSection(cie, fde);
    WalkIsMeaning(base, 0, |base|, records, ZERO, 0, pc);
    WalkIsMeaning(base, 0, |base|, records, other, 0, pc);
    TwoRecords(cie, fde, ZERO, pc);
    TwoRecords(cie, fde, other, pc);
    BlankStartsAgree(base, |base|, ZERO, other, 0, pc);
  }

  /** The encoding of the two records is short, and it is a whole section. */
  lemma ShortSection(cie: Record, fde: Record)
    requires cie == Cie([], 1, -8, 16, [], []) && fde == Fde(1, 0, 1, [], [])
    ensures AllEncodable([cie, fde]) && |EncodeRecord(cie, false)| == 13
    ensures var base := EncodeSection([cie, fde], false); |base| < 100 && EncodedAt(base, 0, |base|, [cie, fde], false)
  {
    assert EncodeSection([fde], false) == EncodeRecord(fde, false);
    assert |EncodeRecord(fde, false)| == 16;
    var base := EncodeSection([cie, fde], false);
    assert base[0..|base|] == base;
  }

  lemma TwoRecords(cie: Record, fde: Record, st: CieState, pc: Word64)
    requires cie == Cie([], 1, -8, 16, [], []) && fde == Fde(1, 0, 1, [], [])
    requires AllEncodable([cie, fde]) && |EncodeRecord(cie, false)| == 13 && !st.haveAug
    requires pc == Start(fde, 13, 0)
    ensures var o := Meaning([cie, fde], 0, st, 0, pc); o.Found? && o.row == st.row && o.st.returnColumn == 16
  {
    hide EncodeRecord;
    assert [cie, fde][1..] == [fde];
  }
}
