/** anytrace/atr-backtrace.c: one unwinding step, from the section walk to the restored registers. */
module Backtrace {
  import opened Words
  import opened Leb128
  import opened CfaMachine
  import opened CfaInterp
  import opened EhFrame
  import opened StartState
  import FrameLoop

  const NUM_REG := 18
  const RSP := 7

  class Backtracer {
    var state: FrameLoop.TracerState
    var cfaRegs: array<Word64>
    var pcOffset: Word64

    constructor (regs: seq<Word64>, pcOffset: Word64)
      requires |regs| == NUM_REG
      ensures Valid() && fresh(cfaRegs) && cfaRegs[..] == regs && this.pcOffset == pcOffset
      ensures state == FrameLoop.Running
    {
      state := FrameLoop.Running;
      cfaRegs := new Word64[NUM_REG](i requires 0 <= i < NUM_REG => regs[i]);
      this.pcOffset := pcOffset;
    }

    predicate Valid()
      reads this
    {
      cfaRegs.Length == NUM_REG
    }
  }

  /** What `exec_env` and `have_aug` amount to. */
  function StateOf(exec: CfaEnv, haveAug: bool): CieState
    reads exec
  {
    CieState(RowOf(exec), |exec.regs|, exec.codeAlign, exec.dataAlign, exec.returnColumn, haveAug)
  }

  // ---------------------------------------------------------------- reading a CIE

  method ReadSkip(base: seq<Byte>, cur: nat, haveAug: bool) returns (r: ReadResult)
    ensures r == SkipAugmentation(base, cur, haveAug)
  {
    if !haveAug {
      return Read(0, cur);
    }
    var n := ReadLeb128(base, cur);
    if n.Undefined? {
      return Undefined;
    }
    return Read(0, ToWord32(n.next + ToWord32(n.value)));
  }

  method ReadAugmentation(base: seq<Byte>, start: nat) returns (ok: bool, cur: nat, haveAug: bool)
    ensures (ok, cur, haveAug) == ScanAugmentation(base, start, false)
  {
    cur, haveAug := start, false;
    while true
      invariant ScanAugmentation(base, start, false) == ScanAugmentation(base, cur, haveAug)
      decreases |base| - cur
    {
      if cur >= |base| {
        return false, cur, haveAug;
      }
      var c := base[cur];
      cur := cur + 1;
      if c == 0 {
        return true, cur, haveAug;
      }
      if c == 0x7a {
        haveAug := true;
      }
    }
  }

  method ReadCieHeader(base: seq<Byte>, at: nat) returns (h: Header)
    ensures h == CieHeader(base, at)
  {
    var ok, cur, haveAug := ReadAugmentation(base, at + 9);
    if !ok { return NoHeader; }
    var code := ReadLeb128(base, cur);
    if code.Undefined? { return NoHeader; }
    var data := ReadLeb128(base, code.next);
    if data.Undefined? { return NoHeader; }
    var ret := ReadLeb128(base, data.next);
    if ret.Undefined? { return NoHeader; }
    var skip := ReadSkip(base, ret.next, haveAug);
    if skip.Undefined? { return NoHeader; }
    return Header(code.value, data.value, ret.value, haveAug, skip.next);
  }

  /** The CIE branch of the record loop: factors are replaced, the return column gets a slot, and
      the initial instructions run on whatever rows earlier CIEs left. */
  method DoCie(heap: Heap, exec: CfaEnv, base: seq<Byte>, at: nat, pc: Word64, ghost haveAug0: bool)
    returns (r: int, haveAug: bool, ghost result: CieResult)
    requires Sized(exec) && exec in heap.live
    requires at + 4 <= |base| < TWO32
    modifies heap, exec
    ensures result == ExecCie(base, at, old(StateOf(exec, haveAug0)), pc)
    ensures r < 0 <==> !result.CieOk?
    ensures result.CieOk? ==> StateOf(exec, haveAug) == result.st && exec.returnColumn < |exec.regs|
    ensures Sized(exec) && heap.live == old(heap.live)
  {
    hide Run, RunWidths, Program, CieHeader, Read4;
    var h := ReadCieHeader(base, at);
    if h.NoHeader? {
      return -1, false, CieUnreadable;
    }
    exec.codeAlign := h.codeAlign;
    exec.dataAlign := h.dataAlign;
    exec.returnColumn := h.returnColumn;
    ReserveColumnWidth(exec, exec.returnColumn);
    haveAug := h.haveAug;
    ghost var stop;
    r, stop := ExecCfa(heap, exec, base, h.next, at + Read4(base, at) + 4, 0, pc);
    result := ExecCie(base, at, old(StateOf(exec, haveAug0)), pc);
  }

  // ---------------------------------------------------------------- executing an FDE

  /** The instructions of the FDE that holds pc run on a copy of `exec`, one column wider. */
  method DoFde(heap: Heap, exec: CfaEnv, base: seq<Byte>, at: nat, haveAug: bool, section: Word64, pc: Word64)
    returns (r: int, fde: CfaEnv?)
    requires Sized(exec) && exec in heap.live
    requires at + 16 <= |base| < TWO32
    modifies heap
    ensures var o := ExecFde(base, at, StateOf(exec, haveAug), section, pc);
            && (r == 0 || r == -1) && (r == 0 <==> o.Found?)
            && (r == 0 ==> fde != null && Sized(fde) && RowOf(fde) == o.row && |exec.regs| < |fde.regs|
                           && fde.returnColumn == exec.returnColumn)
    ensures if fde == null then heap.live == old(heap.live) else fresh(fde) && heap.live == old(heap.live) + {fde}
  {
    hide Run, RunWidths, Program, Read4;
    var skip := ReadSkip(base, at + 16, haveAug);
    if skip.Undefined? {
      return -1, null;
    }
    var env := PushEnv(heap, exec);
    ghost var stop;
    r, stop := ExecCfa(heap, env, base, skip.next, at + Read4(base, at) + 4, FdeBegin(base, at, section), pc);
    fde := env;
  }

  // ---------------------------------------------------------------- restoring the caller's registers

  function Address(top: Word64, off: Int32): Word64 {
    (top + off) % TWO64
  }

  /** Register c after the columns below `done` have been restored. */
  function RestoredReg(before: seq<Word64>, rules: map<nat, Int32>, done: nat, top: Word64,
                       peek: Word64 -> Option<Word64>, c: nat): Word64
    requires c < |before|
  {
    if c < done && c in rules then peek(Address(top, rules[c])).GetOr(before[c]) else before[c]
  }

  ghost predicate Readable(rules: map<nat, Int32>, done: nat, top: Word64, peek: Word64 -> Option<Word64>) {
    forall c: nat :: c < done && c in rules ==> peek(Address(top, rules[c])).Some?
  }

  /** Of the columns below `done` every one with a rule could be read, and exactly the registers
      among them have been replaced by what was read. */
  ghost predicate RestoredUpTo(before: seq<Word64>, after: seq<Word64>, rules: map<nat, Int32>, done: nat,
                               top: Word64, peek: Word64 -> Option<Word64>) {
    && |after| == |before|
    && Readable(rules, done, top, peek)
    && forall c: nat :: c < |before| ==> after[c] == RestoredReg(before, rules, done, top, peek, c)
  }

  /** The loop over the columns; `done` is where it stopped. */
  method RestoreColumns(tr: Backtracer, fde: CfaEnv, nc: nat, top: Word64, peek: Word64 -> Option<Word64>)
    returns (ok: bool, ghost done: nat)
    requires tr.Valid() && nc <= |fde.regs|
    modifies tr.cfaRegs
    ensures RestoredUpTo(old(tr.cfaRegs[..]), tr.cfaRegs[..], Rules(fde.regs), done, top, peek)
    ensures done <= nc && (ok <==> done == nc)
    ensures !ok ==> done in Rules(fde.regs) && peek(Address(top, Rules(fde.regs)[done])).None?
    ensures forall c: nat :: c < done && c < 18 ==>
              if fde.regs[c].defined
              then peek((top + fde.regs[c].cfaOffset) % 0x1_0000_0000_0000_0000) == Some(tr.cfaRegs[c])
              else tr.cfaRegs[c] == old(tr.cfaRegs[c])
  {
    var ci := 0;
    while ci < nc
      invariant ci <= nc
      invariant RestoredUpTo(old(tr.cfaRegs[..]), tr.cfaRegs[..], Rules(fde.regs), ci, top, peek)
    {
      if fde.regs[ci].defined {
        var value := peek(Address(top, fde.regs[ci].cfaOffset));
        if value.None? {
          return false, ci;
        }
        if ci < NUM_REG {
          tr.cfaRegs[ci] := value.value;
        }
      }
      ci := ci + 1;
    }
    return true, nc;
  }

  /** The registers there are; `cfa_regs` is indexed without a check. */
  predicate InRange(reg: Int32) {
    0 <= reg < NUM_REG
  }

  function FrameTop(regs: seq<Word64>, row: Row): Word64
    requires |regs| == NUM_REG && InRange(row.cfaReg)
  {
    Address(regs[row.cfaReg], row.cfaOffset)
  }

  /** Entering the module mapped at a return address: nothing is mapped there, or its file opens
      or does not, with the address's offset in it. */
  type Mapping = Word64 -> Option<(bool, Word64)>

  /** A successful step: every ruled column below `nc` came from memory, the stack pointer is the
      frame's top, and the return address is the return column before that was set. */
  ghost predicate CallerRegs(before: seq<Word64>, after: seq<Word64>, row: Row, returnColumn: Int32, nc: nat,
                             returnAddress: Word64, peek: Word64 -> Option<Word64>) {
    && |before| == NUM_REG && InRange(row.cfaReg) && InRange(returnColumn)
    && var top := FrameTop(before, row);
       && Readable(row.rules, nc, top, peek)
       && returnAddress == RestoredReg(before, row.rules, nc, top, peek, returnColumn)
       && |after| == NUM_REG
       && forall c: nat :: c < NUM_REG ==>
            after[c] == if c == RSP then top else RestoredReg(before, row.rules, nc, top, peek, c)
  }

  /** A failing step: a column was unreadable, and the ones before it stay restored. */
  ghost predicate CallerFailed(before: seq<Word64>, after: seq<Word64>, row: Row, nc: nat, done: nat,
                               peek: Word64 -> Option<Word64>) {
    && |before| == NUM_REG && InRange(row.cfaReg) && done < nc
    && var top := FrameTop(before, row);
       && RestoredUpTo(before, after, row.rules, done, top, peek)
       && done in row.rules && peek(Address(top, row.rules[done])).None?
  }

  /** A step C does not define: `cfa_regs` is read at the CFA register, or at the return column
      once all columns are restored, and there is no such register. */
  ghost predicate CallerWild(before: seq<Word64>, after: seq<Word64>, row: Row, returnColumn: Int32, nc: nat,
                             peek: Word64 -> Option<Word64>) {
    && |before| == NUM_REG
    && if !InRange(row.cfaReg) then after == before
       else RestoredUpTo(before, after, row.rules, nc, FrameTop(before, row), peek) && !InRange(returnColumn)
  }

  /** Success, failure and undefined behaviour exclude each other, and a successful step has one result. */
  lemma OutcomesExclude(before: seq<Word64>, after: seq<Word64>, after': seq<Word64>, row: Row, returnColumn: Int32,
                        nc: nat, done: nat, ra: Word64, ra': Word64, peek: Word64 -> Option<Word64>)
    requires CallerRegs(before, after, row, returnColumn, nc, ra, peek)
    ensures !CallerFailed(before, after', row, nc, done, peek) && !CallerWild(before, after', row, returnColumn, nc, peek)
    ensures CallerRegs(before, after', row, returnColumn, nc, ra', peek) ==> after' == after && ra' == ra
  {
  }

  /** When the section defines the frame, two steps that start with different bytes on the stack
      either both succeed, with the same registers and return address, or both do not. */
  lemma StepIsDetermined(base: seq<Byte>, length: nat, section: Word64, pc: Word64, a: CieState, b: CieState,
                         before: seq<Word64>, after: seq<Word64>, after': seq<Word64>, done: nat, ra: Word64, ra': Word64,
                         peek: Word64 -> Option<Word64>)
    requires length <= |base| && WellFormed(base, 0, length) && Determined(base, length, section, pc)
    requires Blank(a) && Blank(b) && Walk(base, 0, length, a, section, pc).Found?
    requires var o := Walk(base, 0, length, a, section, pc);
             CallerRegs(before, after, o.row, o.st.returnColumn, o.st.width, ra, peek)
    ensures var o := Walk(base, 0, length, b, section, pc);
            && o.Found?
            && !CallerFailed(before, after', o.row, o.st.width, done, peek)
            && !CallerWild(before, after', o.row, o.st.returnColumn, o.st.width, peek)
            && (CallerRegs(before, after', o.row, o.st.returnColumn, o.st.width, ra', peek) ==> after' == after && ra' == ra)
  {
    hide Walk, Determined, CallerRegs, CallerFailed, CallerWild;
    DeterminedExactly(base, length, section, pc);
    var o := Walk(base, 0, length, a, section, pc);
    assert SameFrame(o, Walk(base, 0, length, b, section, pc));
    OutcomesExclude(before, after, after', o.row, o.st.returnColumn, o.st.width, done, ra, ra', peek);
  }

  /** A successful step in numbers. The CFA is the CFA register plus the offset; it is the caller's
      stack pointer (register 7). Every other one of the 18 registers that has a rule in a column
      below the width comes from the word at the CFA plus the rule's offset, the rest stay. The
      return address is what the return column got, or held when it has no rule. */
  ghost predicate CallerInNumbers(before: seq<Word64>, after: seq<Word64>, row: Row, returnColumn: Int32, width: nat,
                                  returnAddress: Word64, peek: Word64 -> Option<Word64>) {
    && |before| == |after| == 18 && 0 <= row.cfaReg < 18 && 0 <= returnColumn < 18
    && var cfa := before[row.cfaReg] + row.cfaOffset;
       && after[7] == cfa % 0x1_0000_0000_0000_0000
       && (forall c: nat :: c < 18 && c != 7 && c < width && c in row.rules ==>
             peek((cfa + row.rules[c]) % 0x1_0000_0000_0000_0000) == Some(after[c]))
       && (forall c: nat :: c < 18 && c != 7 && !(c < width && c in row.rules) ==> after[c] == before[c])
       && (if returnColumn < width && returnColumn in row.rules
           then peek((cfa + row.rules[returnColumn]) % 0x1_0000_0000_0000_0000) == Some(returnAddress)
           else returnAddress == before[returnColumn])
  }

  lemma InNumbers(before: seq<Word64>, after: seq<Word64>, row: Row, returnColumn: Int32, nc: nat,
                  returnAddress: Word64, peek: Word64 -> Option<Word64>)
    requires CallerRegs(before, after, row, returnColumn, nc, returnAddress, peek)
    ensures CallerInNumbers(before, after, row, returnColumn, nc, returnAddress, peek)
  {
    var top := FrameTop(before, row);
    assert top == (before[row.cfaReg] + row.cfaOffset) % 0x1_0000_0000_0000_0000;
    forall c: nat | c < 18 && c in row.rules
      ensures Address(top, row.rules[c]) == (before[row.cfaReg] + row.cfaOffset + row.rules[c]) % 0x1_0000_0000_0000_0000
    {
      AddedTwice(before[row.cfaReg] + row.cfaOffset, row.rules[c]);
    }
    hide Address, FrameTop;
  }

  lemma AddedTwice(x: int, y: int)
    ensures (x % 0x1_0000_0000_0000_0000 + y) % 0x1_0000_0000_0000_0000 == (x + y) % 0x1_0000_0000_0000_0000
  {
  }

  /** The results of a step on a found frame, in numbers: -1 says that a column below the width has
      a rule whose word is unreadable, -2 that the CFA register or the return column is not one of
      the 18 registers. */
  ghost predicate StepInNumbers(ret: int, before: seq<Word64>, after: seq<Word64>, o: Outcome, done: nat,
                                returnAddress: Word64, peek: Word64 -> Option<Word64>)
    requires o.Found?
  {
    && (ret == 0 ==> CallerInNumbers(before, after, o.row, o.st.returnColumn, o.st.width, returnAddress, peek))
    && (ret == -1 ==>
          && |before| == 18 && 0 <= o.row.cfaReg < 18 && done < o.st.width && done in o.row.rules
          && peek((before[o.row.cfaReg] + o.row.cfaOffset + o.row.rules[done]) % 0x1_0000_0000_0000_0000).None?)
    && (ret == -2 ==> !(0 <= o.row.cfaReg < 18 && 0 <= o.st.returnColumn < 18))
  }

  lemma Consequences(ret: int, before: seq<Word64>, after: seq<Word64>, o: Outcome, done: nat, returnAddress: Word64,
                     peek: Word64 -> Option<Word64>)
    requires o.Found?
    requires ret == 0 ==> CallerRegs(before, after, o.row, o.st.returnColumn, o.st.width, returnAddress, peek)
    requires ret == -1 ==> CallerFailed(before, after, o.row, o.st.width, done, peek)
    requires ret == -2 ==> CallerWild(before, after, o.row, o.st.returnColumn, o.st.width, peek)
    ensures StepInNumbers(ret, before, after, o, done, returnAddress, peek)
  {
    hide CallerRegs, CallerInNumbers;
    if ret == 0 {
      InNumbers(before, after, o.row, o.st.returnColumn, o.st.width, returnAddress, peek);
    } else if ret == -1 {
      AddedTwice(before[o.row.cfaReg] + o.row.cfaOffset, o.row.rules[done]);
    }
  }

  /** From the executed row to the caller's registers and module. The result -2 stands for an index
      outside `cfa_regs`, behind which C defines nothing. */
  method FinishFrame(tr: Backtracer, fde: CfaEnv, nc: nat, peek: Word64 -> Option<Word64>, enter: Mapping)
    returns (ret: int, ghost done: nat, ghost returnAddress: Word64)
    requires tr.Valid() && nc <= |fde.regs|
    modifies tr`state, tr`pcOffset, tr.cfaRegs
    ensures ret == 0 || ret == -1 || ret == -2
    ensures ret == 0 ==>
              && CallerRegs(old(tr.cfaRegs[..]), tr.cfaRegs[..], RowOf(fde), fde.returnColumn, nc, returnAddress, peek)
              && tr.state == (if enter(returnAddress).Some? && enter(returnAddress).value.0
                              then old(tr.state) else FrameLoop.FrameBottom)
              && tr.pcOffset == (if enter(returnAddress).Some? then enter(returnAddress).value.1 else old(tr.pcOffset))
    ensures ret == 0 ==>
              CallerInNumbers(old(tr.cfaRegs[..]), tr.cfaRegs[..], RowOf(fde), fde.returnColumn, nc, returnAddress, peek)
    ensures ret == -1 ==> CallerFailed(old(tr.cfaRegs[..]), tr.cfaRegs[..], RowOf(fde), nc, done, peek)
    ensures ret == -2 ==> CallerWild(old(tr.cfaRegs[..]), tr.cfaRegs[..], RowOf(fde), fde.returnColumn, nc, peek)
    ensures ret < 0 ==> tr.state == old(tr.state) && tr.pcOffset == old(tr.pcOffset)
  {
    hide Readable, RestoredReg, Rules, CallerInNumbers;
    done, returnAddress := 0, 0;
    if !(0 <= fde.cfaReg < NUM_REG) {
      return -2, done, returnAddress;
    }
    var cfaTop := Address(tr.cfaRegs[fde.cfaReg], fde.cfaOffset);
    var ok;
    ok, done := RestoreColumns(tr, fde, nc, cfaTop, peek);
    if !ok {
      return -1, done, returnAddress;
    }
    if !(0 <= fde.returnColumn < NUM_REG) {
      return -2, done, returnAddress;
    }
    var returnAddr := tr.cfaRegs[fde.returnColumn];
    tr.cfaRegs[RSP] := cfaTop;
    var landing := enter(returnAddr);
    if landing.Some? {
      tr.pcOffset := landing.value.1;
    }
    if landing.None? || !landing.value.0 {
      tr.state := FrameLoop.FrameBottom;
    }
    InNumbers(old(tr.cfaRegs[..]), tr.cfaRegs[..], RowOf(fde), fde.returnColumn, nc, returnAddr, peek);
    return 0, done, returnAddr;
  }

  // ---------------------------------------------------------------- the whole step

  lemma RulesFitColumns(regs: seq<CfaReg>)
    ensures forall c <- Rules(regs) :: c < |regs|
  {
  }

  /** The record loop of `ATR_backtrace_up`, up to the executed FDE. */
  method WalkRecords(heap: Heap, exec: CfaEnv, base: seq<Byte>, length: nat, section: Word64, pc: Word64)
    returns (r: int, fde: CfaEnv?, ghost o: Outcome)
    requires Sized(exec) && exec in heap.live && exec.regs == []
    requires length <= |base| < TWO32 && WellFormed(base, 0, length)
    modifies heap, exec
    ensures o == Walk(base, 0, length, old(StateOf(exec, false)), section, pc)
    ensures (r == 0 || r == -1) && (r == 0 <==> o.Found?)
    ensures if fde == null then heap.live == old(heap.live) else fresh(fde) && heap.live == old(heap.live) + {fde}
    ensures r == 0 ==> && fde != null && Sized(exec) && |exec.regs| < |fde.regs|
                       && RowOf(fde) == o.row && fde.returnColumn == o.st.returnColumn
                       && o.st.width == |exec.regs|
                       && (o.st == old(StateOf(exec, false)) || o.st.returnColumn < |exec.regs|)
                       && (forall c <- o.st.row.rules :: c < |exec.regs|)
  {
    hide ExecCie, ExecFde, Read4, FdeBegin, Rules;
    var at, haveAug := 0, false;
    ghost var st0 := StateOf(exec, false);
    o := Walk(base, 0, length, st0, section, pc);
    while at < length
      invariant WellFormed(base, at, length)
      invariant Sized(exec) && heap.live == old(heap.live)
      invariant o == Walk(base, at, length, StateOf(exec, haveAug), section, pc)
      invariant StateOf(exec, haveAug) == st0 || exec.returnColumn < |exec.regs|
      decreases length - at
    {
      var recordLength := Read4(base, at);
      if recordLength == 0 {
        break;
      }
      if Read4(base, at + 4) == 0 {
        var s;
        ghost var result;
        s, haveAug, result := DoCie(heap, exec, base, at, pc, haveAug);
        if s < 0 {
          return -1, null, o;
        }
      } else if FdeHolds(base, at, section, pc) {
        r, fde := DoFde(heap, exec, base, at, haveAug, section, pc);
        RulesFitColumns(exec.regs);
        return r, fde, o;
      }
      at := at + ToWord32(recordLength + 4);
    }
    return -1, null, o;
  }

  /** `ATR_backtrace_up`. The frame is decided by `Walk` on the section from a blank state; every
      environment allocated on the way is freed on every path. The columns restored are those of
      the CIE state the FDE ran on: its rules and its return column, but no column the FDE adds.
      The result -2 is as in `FinishFrame`. */
  method BacktraceUp(heap: Heap, tr: Backtracer, base: seq<Byte>, length: nat, section: Word64,
                     peek: Word64 -> Option<Word64>, enter: Mapping)
    returns (ret: int, ghost st0: CieState, ghost o: Outcome, ghost done: nat, ghost returnAddress: Word64)
    requires tr.Valid()
    requires length <= |base| < TWO32 && WellFormed(base, 0, length)
    modifies heap, tr`state, tr`pcOffset, tr.cfaRegs
    ensures heap.live == old(heap.live)
    ensures old(tr.state) != FrameLoop.Running ==> ret == 0 && Untouched(tr)
    ensures old(tr.state) == FrameLoop.Running && length == 0 ==> ret == -1 && Untouched(tr)
    ensures old(tr.state) == FrameLoop.Running && length > 0 ==>
              && Blank(st0) && o == Walk(base, 0, length, st0, section, old(tr.pcOffset))
              && (ret == 0 || ret == -1 || ret == -2)
              && (ret == -1 ==> tr.state == FrameLoop.HaveError && tr.pcOffset == old(tr.pcOffset))
              && (!o.Found? ==> ret == -1 && tr.cfaRegs[..] == old(tr.cfaRegs[..]))
    ensures old(tr.state) == FrameLoop.Running && length > 0 && o.Found? ==>
              && (o.st == st0 || o.st.returnColumn < o.st.width) && (forall c <- o.st.row.rules :: c < o.st.width)
              && (ret == -1 ==> CallerFailed(old(tr.cfaRegs[..]), tr.cfaRegs[..], o.row, o.st.width, done, peek))
              && (ret == -2 ==> CallerWild(old(tr.cfaRegs[..]), tr.cfaRegs[..], o.row, o.st.returnColumn, o.st.width, peek))
              && (ret == 0 ==>
                    && CallerRegs(old(tr.cfaRegs[..]), tr.cfaRegs[..], o.row, o.st.returnColumn, o.st.width, returnAddress, peek)
                    && tr.state == (if enter(returnAddress).Some? && enter(returnAddress).value.0
                                    then FrameLoop.Running else FrameLoop.FrameBottom)
                    && tr.pcOffset == (if enter(returnAddress).Some? then enter(returnAddress).value.1 else old(tr.pcOffset)))
    ensures old(tr.state) == FrameLoop.Running && length > 0 && o.Found? ==>
              StepInNumbers(ret, old(tr.cfaRegs[..]), tr.cfaRegs[..], o, done, returnAddress, peek)
  {
    assert Rules([]) == map[];
    hide CallerRegs, CallerFailed, CallerWild, StepInNumbers, Walk, Rules;
    done, returnAddress, o := 0, 0, NotFound;
    if tr.state != FrameLoop.Running || length == 0 {
      ret := if tr.state != FrameLoop.Running then 0 else -1;
      st0 := CieState(Row(0, 0, map[]), 0, 0, 0, 0, false);
      return;
    }
    var exec := heap.Malloc();
    exec.chain := null;
    exec.regs := [];
    exec.columnWidth := 0;
    st0 := StateOf(exec, false);
    var fde;
    ret, fde, o := WalkRecords(heap, exec, base, length, section, tr.pcOffset);
    if ret == 0 {
      ret, done, returnAddress := FinishFrame(tr, fde, exec.columnWidth, peek, enter);
    }
    if o.Found? {
      Consequences(ret, old(tr.cfaRegs[..]), tr.cfaRegs[..], o, done, returnAddress, peek);
    }
    if fde != null {
      heap.Free(fde);
    }
    heap.Free(exec);
    if ret == -1 {
      tr.state := FrameLoop.HaveError;
    }
  }

  twostate predicate Untouched(tr: Backtracer)
    reads tr, tr.cfaRegs
  {
    unchanged(tr) && unchanged(tr.cfaRegs)
  }
}
