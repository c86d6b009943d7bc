/** anytrace/atr-backtrace.c: the call-frame interpreter. The rows a program remembers live in a
    chain of heap environments whose column buffers grow; the chain is collapsed into the
    caller's environment at the end. */
module CfaInterp {
  import opened Words
  import opened Lists
  import opened Leb128
  import opened CfaMachine

  datatype CfaReg = CfaReg(defined: bool, cfaOffset: Int32)

  const UNDEFINED_REG := CfaReg(false, 0)

  class CfaEnv {
    var chain: CfaEnv?
    var regs: seq<CfaReg>
    var columnWidth: int
    var dataAlign: Int32
    var codeAlign: Int32
    var cfaOffset: Int32
    var cfaReg: Int32
    var returnColumn: Int32
  }

  /** Which environments are allocated: `malloc` adds one, `free` needs one that is there. */
  class Heap {
    ghost var live: set<CfaEnv>

    method Malloc() returns (env: CfaEnv)
      modifies this
      ensures fresh(env) && live == old(live) + {env}
    {
      env := new CfaEnv;
      live := live + {env};
    }

    method Free(env: CfaEnv)
      requires env in live
      modifies this
      ensures live == old(live) - {env}
    {
      live := live - {env};
    }
  }

  predicate Sized(env: CfaEnv)
    reads env
  {
    env.columnWidth == |env.regs|
  }

  /** The columns with a rule. Width is not part of it. */
  function Rules(regs: seq<CfaReg>): map<nat, Int32> {
    map i: nat | i < |regs| && regs[i].defined :: regs[i].cfaOffset
  }

  function RowOf(env: CfaEnv): Row
    reads env
  {
    Row(env.cfaReg, env.cfaOffset, Rules(env.regs))
  }

  function Undefineds(n: nat): seq<CfaReg> {
    seq(n, _ => UNDEFINED_REG)
  }

  lemma WideningKeepsRules(regs: seq<CfaReg>, n: nat)
    ensures Rules(regs + Undefineds(n)) == Rules(regs)
  {
    var wide := regs + Undefineds(n);
    assert forall i: nat :: i in Rules(wide) <==> i in Rules(regs);
  }

  // ---------------------------------------------------------------- environments

  method ReserveColumnWidth(env: CfaEnv, column: int)
    requires Sized(env)
    modifies env`regs, env`columnWidth
    ensures Sized(env)
    ensures env.regs == old(env.regs) + Undefineds(Widened(|old(env.regs)|, column) - |old(env.regs)|)
    ensures RowOf(env) == old(RowOf(env))
  {
    ghost var before := env.regs;
    if env.columnWidth < column + 1 {
      var prev := env.columnWidth;
      env.columnWidth := column + 1;
      var ri := prev;
      while ri < column + 1
        invariant prev <= ri <= column + 1
        invariant env.regs == before + Undefineds(ri - prev)
        modifies env`regs
      {
        env.regs := env.regs + [UNDEFINED_REG];
        ri := ri + 1;
      }
    }
    assert env.regs == before + Undefineds(Widened(|before|, column) - |before|);
    WideningKeepsRules(before, Widened(|before|, column) - |before|);
  }

  /** `copy_cfa_env`: afterwards `dst` holds the columns of `src`, and whatever columns of its own
      lie beyond them; it is at least one column wider than `src`. */
  method CopyEnv(dst: CfaEnv, src: CfaEnv)
    requires dst != src && Sized(dst) && Sized(src)
    modifies dst
    ensures Sized(dst) && dst.chain == old(dst.chain) && Constants(dst) == Constants(src)
    ensures |src.regs| < |dst.regs| && dst.regs[..|src.regs|] == src.regs
    ensures |old(dst.regs)| <= |src.regs| ==> dst.regs == src.regs + [UNDEFINED_REG] && RowOf(dst) == RowOf(src)
  {
    ReserveColumnWidth(dst, src.columnWidth);
    dst.regs := src.regs + dst.regs[src.columnWidth..];
    dst.dataAlign := src.dataAlign;
    dst.codeAlign := src.codeAlign;
    dst.cfaOffset := src.cfaOffset;
    dst.cfaReg := src.cfaReg;
    dst.returnColumn := src.returnColumn;
    if |old(dst.regs)| <= |src.regs| {
      assert dst.regs == src.regs + Undefineds(1);
      WideningKeepsRules(src.regs, 1);
    }
  }

  /** The fields the instructions never change. */
  function Constants(env: CfaEnv): (Int32, Int32, Int32)
    reads env
  {
    (env.dataAlign, env.codeAlign, env.returnColumn)
  }

  method PushEnv(heap: Heap, env: CfaEnv) returns (top: CfaEnv)
    requires Sized(env) && env in heap.live
    modifies heap
    ensures fresh(top) && heap.live == old(heap.live) + {top}
    ensures Sized(top) && top.chain == env && Constants(top) == Constants(env)
    ensures top.regs == env.regs + [UNDEFINED_REG] && RowOf(top) == RowOf(env)
  {
    top := heap.Malloc();
    top.regs := [];
    top.columnWidth := 0;
    CopyEnv(top, env);
    top.chain := env;
  }

  method PopEnv(heap: Heap, env: CfaEnv) returns (next: CfaEnv?)
    requires env in heap.live
    modifies heap
    ensures next == env.chain && heap.live == old(heap.live) - {env}
  {
    next := env.chain;
    heap.Free(env);
  }

  // ---------------------------------------------------------------- the chain

  lemma ElemsPrefix(stack: seq<CfaEnv>, k: nat)
    requires k < |stack|
    requires forall i, j :: 0 <= i < j < |stack| ==> stack[i] != stack[j]
    ensures Elems(stack[..k]) == Elems(stack[..k + 1]) - {stack[k]}
    ensures stack[k] in Elems(stack[..k + 1]) && Elems(stack[..k + 1]) <= Elems(stack)
  {
    assert stack[..k + 1] == stack[..k] + [stack[k]];
  }

  /** `stack` is the chain of live environments, from the caller's up to the current one. They
      are distinct, each is wider than the one below, and `others` are the rest of the heap. */
  ghost predicate Chain(heap: Heap, others: set<CfaEnv>, stack: seq<CfaEnv>)
    reads heap, stack
  {
    && stack != []
    && heap.live == others + Elems(stack) && others !! Elems(stack)
    && (forall i :: 0 <= i < |stack| ==> Sized(stack[i]) && Constants(stack[i]) == Constants(stack[0]))
    && (forall i, j :: 0 <= i < j < |stack| ==> stack[i] != stack[j] && |stack[i].regs| < |stack[j].regs|)
    && (forall i :: 0 < i < |stack| ==> stack[i].chain == stack[i - 1])
  }

  /** The chain holds the machine's rows: the current one on top, the saved ones below. */
  ghost predicate Holds(stack: seq<CfaEnv>, m: Machine)
    reads stack
  {
    && |stack| == |m.saved| + 1
    && RowOf(stack[|m.saved|]) == m.row
    && forall i :: 0 <= i < |m.saved| ==> RowOf(stack[i]) == m.saved[i]
  }

  /** The column buffers of the chain have the widths `ws`. */
  ghost predicate HasWidths(stack: seq<CfaEnv>, ws: seq<nat>)
    reads stack
  {
    && |ws| == |stack| > 0
    && forall i :: 0 <= i < |stack| ==> |stack[i].regs| == ws[i]
  }

  /** `cleanup_cfa_stack`: the top row moves into the bottom environment, everything above it is
      freed once, and the bottom is as wide as the top was, plus one undefined column. */
  method Cleanup(heap: Heap, top: CfaEnv, last: CfaEnv, ghost others: set<CfaEnv>, ghost stack: seq<CfaEnv>)
    requires Chain(heap, others, stack) && top == stack[|stack| - 1] && last == stack[0]
    modifies heap, last
    ensures heap.live == others + {last}
    ensures Sized(last) && last.chain == old(last.chain)
    ensures Constants(last) == old(Constants(last))
    ensures RowOf(last) == old(RowOf(top))
    ensures if |stack| == 1 then last.regs == old(last.regs) else last.regs == old(top.regs) + [UNDEFINED_REG]
  {
    assert Elems(stack[..1]) == {last} && stack[..|stack|] == stack;
    if top == last {
      return;
    }
    CopyEnv(last, top);
    var env := top;
    ghost var k := |stack| - 1;
    while env != last
      invariant 0 <= k < |stack| && env == stack[k]
      invariant heap.live == others + Elems(stack[..k + 1])
      decreases k
      modifies heap
    {
      ElemsPrefix(stack, k);
      var n := env.chain;
      heap.Free(env);
      env := n;
      k := k - 1;
    }
  }

  // ---------------------------------------------------------------- the interpreter

  /** The decoding half of the big `switch`: the instruction at the cursor, operands read. */
  method ReadInstr(base: seq<Byte>, start: nat) returns (i: Instr, cur: nat)
    ensures (i, cur) == Fetch(base, start)
  {
    if start >= |base| {
      return Wild, start;
    }
    var opc := base[start];
    cur := start + 1;
    if opc / 0x40 == 1 {
      return Advance(opc % 0x40), cur;
    } else if opc / 0x40 == 2 {
      var off := ReadLeb128(base, cur);
      if off.Undefined? { return Wild, start; }
      return Offset(opc % 0x40, off.value), off.next;
    } else if opc / 0x40 == 3 {
      return Nop, cur;
    }
    i, cur := ReadLongInstr(base, start, opc);
  }

  method ReadLongInstr(base: seq<Byte>, start: nat, opc: Byte) returns (i: Instr, cur: nat)
    requires start < |base| && base[start] == opc && opc < 0x40
    ensures (i, cur) == Fetch(base, start)
  {
    cur := start + 1;
    if opc == OP_ADVANCE1 {
      if cur >= |base| { return Wild, start; }
      return Advance(base[cur]), cur + 1;
    } else if opc == OP_ADVANCE2 {
      if cur + 1 >= |base| { return Wild, start; }
      return Advance(Read2(base, cur)), cur + 2;
    } else if opc == OP_DEF_CFA {
      var reg := ReadLeb128(base, cur);
      if reg.Undefined? { return Wild, start; }
      var off := ReadLeb128(base, reg.next);
      if off.Undefined? { return Wild, start; }
      return DefCfa(reg.value, off.value), off.next;
    } else if opc == OP_REGISTER {
      var reg := ReadLeb128(base, cur);
      if reg.Undefined? { return Wild, start; }
      return DefCfaRegister(reg.value), reg.next;
    } else if opc == OP_DEF_CFA_OFFSET {
      var off := ReadUleb128(base, cur);
      if off.Undefined? { return Wild, start; }
      return DefCfaOffset(off.value), off.next;
    } else if opc == OP_NOP {
      return Nop, cur;
    } else if opc == OP_UNDEFINED {
      var reg := ReadUleb128(base, cur);
      if reg.Undefined? { return Wild, start; }
      return Undef(reg.value), reg.next;
    } else if opc == OP_DEF_CFA_REGISTER {
      var reg := ReadUleb128(base, cur);
      if reg.Undefined? { return Wild, start; }
      return DefCfaRegister(reg.value), reg.next;
    } else if opc == OP_REMEMBER {
      return Remember, cur;
    } else if opc == OP_RESTORE_STATE {
      return Restore(opc), cur;
    } else {
      return Unknown(opc), cur;
    }
  }

  /** The instructions that act on the current environment alone. */
  method EditEnv(env: CfaEnv, i: Instr)
    requires Sized(env)
    requires !i.Advance? && !i.Remember? && !i.Restore? && !i.Unknown? && !i.Wild?
    modifies env
    ensures Sized(env) && env.chain == old(env.chain) && Constants(env) == old(Constants(env))
    ensures |old(env.regs)| <= |env.regs| && StepWidths(i, [|old(env.regs)|]) == [|env.regs|]
    ensures forall m: Machine :: m.row == old(RowOf(env)) ==>
              Step(m, i, env.dataAlign) == m.(row := RowOf(env))
  {
    match i
    case Offset(reg, factored) =>
      ReserveColumnWidth(env, reg);
      SettingOneRule(env.regs, reg, Scaled(factored, env.dataAlign));
      env.regs := env.regs[reg := CfaReg(true, Scaled(factored, env.dataAlign))];
    case DefCfa(reg, off) =>
      env.cfaReg := reg;
      env.cfaOffset := off;
    case DefCfaRegister(reg) =>
      env.cfaReg := reg;
    case DefCfaOffset(off) =>
      env.cfaOffset := off;
    case Undef(column) =>
      ReserveColumnWidth(env, column);
    case Nop =>
  }

  lemma SettingOneRule(regs: seq<CfaReg>, reg: nat, off: Int32)
    requires reg < |regs|
    ensures Rules(regs[reg := CfaReg(true, off)]) == Rules(regs)[reg := off]
  {
  }

  /** `DW_CFA_remember_state`: the chain grows by a copy of its top. */
  method RememberOn(heap: Heap, env: CfaEnv, ghost others: set<CfaEnv>, ghost stack: seq<CfaEnv>, ghost m: Machine,
                    ghost ws: seq<nat>)
    returns (top: CfaEnv)
    requires Chain(heap, others, stack) && Holds(stack, m) && env == stack[|stack| - 1] && HasWidths(stack, ws)
    modifies heap
    ensures fresh(top) && Chain(heap, others, stack + [top])
    ensures Holds(stack + [top], Step(m, Remember, env.dataAlign))
    ensures HasWidths(stack + [top], StepWidths(Remember, ws))
  {
    hide Rules;
    assert env in Elems(stack);
    top := PushEnv(heap, env);
    ghost var longer := stack + [top];
    assert Elems(longer) == Elems(stack) + {top};
    assert forall i :: 0 <= i < |stack| ==> longer[i] == stack[i];
  }

  lemma DroppingTop(stack: seq<CfaEnv>, m: Machine, i: Instr, da: Int32, ws: seq<nat>)
    requires Holds(stack, m) && HasWidths(stack, ws) && i.Restore? && |stack| > 1
    ensures Holds(stack[..|stack| - 1], Step(m, i, da)) && HasWidths(stack[..|stack| - 1], StepWidths(i, ws))
  {
  }

  /** `DW_CFA_restore_state` above the bottom: the top is freed once, the row below is current. */
  method RestoreOn(heap: Heap, env: CfaEnv, ghost others: set<CfaEnv>, ghost stack: seq<CfaEnv>, ghost m: Machine, i: Instr,
                   ghost ws: seq<nat>)
    returns (next: CfaEnv)
    requires Chain(heap, others, stack) && Holds(stack, m) && env == stack[|stack| - 1] && HasWidths(stack, ws)
    requires i.Restore? && |stack| > 1
    modifies heap
    ensures next == stack[|stack| - 2] && Chain(heap, others, stack[..|stack| - 1])
    ensures Holds(stack[..|stack| - 1], Step(m, i, env.dataAlign))
    ensures HasWidths(stack[..|stack| - 1], StepWidths(i, ws))
  {
    hide RowOf, Step, Holds, HasWidths, StepWidths;
    DroppingTop(stack, m, i, env.dataAlign, ws);
    ElemsPrefix(stack, |stack| - 1);
    assert stack[..|stack|] == stack;
    assert env.chain == stack[|stack| - 2];
    var below := PopEnv(heap, env);
    next := below;
  }

  /** An edit of the top environment is the machine's step on the current row. */
  method EditTop(heap: Heap, env: CfaEnv, i: Instr, ghost others: set<CfaEnv>, ghost stack: seq<CfaEnv>, ghost m: Machine,
                 ghost ws: seq<nat>)
    requires Chain(heap, others, stack) && Holds(stack, m) && env == stack[|stack| - 1] && HasWidths(stack, ws)
    requires !i.Advance? && !i.Remember? && !i.Restore? && !i.Unknown? && !i.Wild?
    modifies env
    ensures Chain(heap, others, stack) && Holds(stack, Step(m, i, env.dataAlign)) && HasWidths(stack, StepWidths(i, ws))
    ensures env.chain == old(env.chain) && Constants(env) == old(Constants(env))
    ensures |old(env.regs)| <= |env.regs|
  {
    hide Rules, StepWidths, Step;
    EditEnv(env, i);
    assert Step(m, i, env.dataAlign) == m.(row := RowOf(env));
    EditedWidths(i, ws, |env.regs|);
  }

  /** Widths below the top are not touched by an edit of the top. */
  lemma EditedWidths(i: Instr, ws: seq<nat>, w: nat)
    requires ws != [] && !i.Remember? && !i.Restore?
    requires StepWidths(i, [ws[|ws| - 1]]) == [w]
    ensures StepWidths(i, ws) == ws[|ws| - 1 := w]
  {
    var top := ws[|ws| - 1];
    assert [top][0 := w] == [w];
    assert StepWidths(i, [top])[0] == w;
  }

  /** Any instruction that neither advances nor fails. */
  method ExecInstr(heap: Heap, env: CfaEnv, i: Instr, ghost others: set<CfaEnv>, ghost stack: seq<CfaEnv>, ghost m: Machine,
                   ghost ws: seq<nat>)
    returns (top: CfaEnv, ghost stack': seq<CfaEnv>)
    requires Chain(heap, others, stack) && Holds(stack, m) && env == stack[|stack| - 1] && HasWidths(stack, ws)
    requires !i.Advance? && Failure(m, i).AtEnd?
    modifies heap, env
    ensures Chain(heap, others, stack') && Holds(stack', Step(m, i, old(env.dataAlign)))
    ensures HasWidths(stack', StepWidths(i, ws))
    ensures stack' != [] && stack'[0] == stack[0] && top == stack'[|stack'| - 1]
    ensures forall k :: 0 < k < |stack'| ==> stack'[k] in stack[1..] || fresh(stack'[k])
    ensures env.chain == old(env.chain) && Constants(env) == old(Constants(env))
    ensures |old(env.regs)| <= |env.regs|
  {
    BottomOfChain(heap, others, stack, m, ws);
    assert i.Restore? ==> m.saved != [];
    hide Chain, Holds, HasWidths, Step, StepWidths, Failure, Rules, Sized;
    if i.Remember? {
      top := RememberOn(heap, env, others, stack, m, ws);
      stack' := stack + [top];
    } else if i.Restore? {
      top := RestoreOn(heap, env, others, stack, m, i, ws);
      stack' := stack[..|stack| - 1];
    } else {
      EditTop(heap, env, i, others, stack, m, ws);
      top, stack' := env, stack;
    }
    Above(stack, stack');
  }

  /** Whatever lies above the bottom after an instruction lay above it before, or is the last. */
  lemma Above(stack: seq<CfaEnv>, stack': seq<CfaEnv>)
    requires |stack| > 0 && |stack'| > 0
    requires stack' == stack || stack' == stack[..|stack| - 1] || stack'[..|stack'| - 1] == stack
    ensures forall k :: 0 < k < |stack'| ==> stack'[k] in stack[1..] || k == |stack| == |stack'| - 1
  {
    forall k | 0 < k < |stack'| && k < |stack| ensures stack'[k] in stack[1..] {
      assert stack'[k] == stack[1..][k - 1];
    }
  }

  /** The chain is at its bottom exactly when no row is saved. */
  lemma BottomOfChain(heap: Heap, others: set<CfaEnv>, stack: seq<CfaEnv>, m: Machine, ws: seq<nat>)
    requires Chain(heap, others, stack) && Holds(stack, m) && HasWidths(stack, ws)
    ensures stack[|stack| - 1] == stack[0] <==> m.saved == []
    ensures RowOf(stack[|stack| - 1]) == m.row
    ensures Constants(stack[|stack| - 1]) == Constants(stack[0])
    ensures |stack[0].regs| <= |stack[|stack| - 1].regs| == ws[|ws| - 1]
    ensures |ws| == |m.saved| + 1 == |stack|
  {
  }

  lemma SingleChain(heap: Heap, env: CfaEnv, m: Machine)
    requires env in heap.live && Sized(env) && m.saved == [] && m.row == RowOf(env)
    ensures Chain(heap, heap.live - {env}, [env]) && Holds([env], m) && HasWidths([env], [|env.regs|])
  {
    assert Elems([env]) == {env};
  }

  lemma MovingHolds(stack: seq<CfaEnv>, m: Machine, loc: nat)
    requires Holds(stack, m)
    ensures Holds(stack, m.(loc := loc))
  {
  }

  /** `exec_cfa`. Whatever bytes it is given, the caller's environment ends up holding exactly
      the row the machine holds when it stops, also inside unmatched remembers and on errors;
      every environment pushed on the way is freed once, and nothing else is. */
  method ExecCfa(heap: Heap, envStart: CfaEnv, base: seq<Byte>, start: nat, end: nat, pcStart: nat, realPc: Word64)
    returns (ret: int, ghost stop: Stop)
    requires Sized(envStart) && envStart in heap.live
    requires |base| <= TWO32 && pcStart < TWO32
    modifies heap, envStart
    ensures var (s, m, _) := Run(Program(base, start, end), Machine(pcStart, old(RowOf(envStart)), []), realPc,
                                 old(envStart.dataAlign));
            && stop == s && RowOf(envStart) == m.row
    ensures ret == if stop.AtEnd? || stop.AtPc? then 0 else -1
    ensures heap.live == old(heap.live)
    ensures Sized(envStart) && envStart.chain == old(envStart.chain) && Constants(envStart) == old(Constants(envStart))
    ensures |old(envStart.regs)| <= |envStart.regs|
    ensures |envStart.regs| == Collapsed(RunWidths(Program(base, start, end), Machine(pcStart, old(RowOf(envStart)), []), realPc,
                                                   old(envStart.dataAlign), [|old(envStart.regs)|]))
  {
    hide HasWidths, RunWidths, StepWidths, Chain, Holds, Run, Program, Fetch, RowOf, Step, Elems, Failure;
    var env, cur, cfaPc := envStart, start, pcStart;
    ghost var da := envStart.dataAlign;
    ghost var others, stack := heap.live - {envStart}, [envStart];
    ghost var m := Machine(pcStart, RowOf(envStart), []);
    ghost var goal := Run(Program(base, start, end), m, realPc, da);
    ghost var ws: seq<nat> := [|envStart.regs|];
    ghost var goalWidths := RunWidths(Program(base, start, end), m, realPc, da, ws);
    ret, stop := 0, AtEnd;
    SingleChain(heap, envStart, m);
    while cur < end
      invariant cur == start || cur <= |base|
      invariant stack != [] && Chain(heap, others, stack) && Holds(stack, m)
      invariant stack[0] == envStart && env == stack[|stack| - 1]
      invariant forall i :: 0 < i < |stack| ==> fresh(stack[i])
      invariant envStart.chain == old(envStart.chain) && Constants(envStart) == old(Constants(envStart))
      invariant |old(envStart.regs)| <= |envStart.regs|
      invariant start <= cur && m.loc == cfaPc <= pcStart + 0xffff * (cur - start)
      invariant Reaches(goal, Run(Program(base, cur, end), m, realPc, da))
      invariant ws != [] && HasWidths(stack, ws) && goalWidths == RunWidths(Program(base, cur, end), m, realPc, da, ws)
      invariant ret == 0 && stop == AtEnd
      decreases end - cur
    {
      ghost var before := cur;
      var i;
      i, cur := ReadInstr(base, cur);
      BottomOfChain(heap, others, stack, m, ws);
      RunOne(base, before, end, m, realPc, da, ws);
      if i.Advance? {
        NoWrap(pcStart, start, before, cur, |base|, cfaPc, i.delta);
        cfaPc := (cfaPc + i.delta) % TWO64;
        MovingHolds(stack, m, m.loc + i.delta);
        m := m.(loc := m.loc + i.delta);
        if cfaPc >= realPc {
          stop := AtPc;
          break;
        }
      } else if i.Wild? || i.Unknown? || (i.Restore? && env == envStart) {
        ret, stop := -1, Failure(m, i);
        break;
      } else {
        ghost var m' := Step(m, i, da);
        env, stack := ExecInstr(heap, env, i, others, stack, m, ws);
        m, ws := m', StepWidths(i, ws);
      }
    }
    if stop.AtEnd? {
      RunEnds(base, cur, end, m, realPc, da, ws);
    }
    BottomOfChain(heap, others, stack, m, ws);
    assert goalWidths == ws;
    Cleanup(heap, env, envStart, others, stack);
  }

  /** The two runs end alike. */
  predicate Reaches(goal: (Stop, Machine, nat), r: (Stop, Machine, nat)) {
    r.0 == goal.0 && r.1 == goal.1
  }

  lemma RunEnds(base: seq<Byte>, cur: nat, end: nat, m: Machine, pc: nat, da: Int32, ws: seq<nat>)
    requires cur >= end && ws != []
    ensures Run(Program(base, cur, end), m, pc, da) == (AtEnd, m, 0)
    ensures RunWidths(Program(base, cur, end), m, pc, da, ws) == ws
  {
  }

  /** Unfolding one instruction of a run. */
  lemma RunOne(base: seq<Byte>, cur: nat, end: nat, m: Machine, pc: nat, da: Int32, ws: seq<nat>)
    requires cur < end && |ws| == |m.saved| + 1
    ensures var (i, next) := Fetch(base, cur);
            var prog := Program(base, cur, end);
            var (s, m', _) := Run(prog, m, pc, da);
            var ws' := RunWidths(prog, m, pc, da, ws);
            if i.Advance? then
              var moved := m.(loc := m.loc + i.delta);
              var rest := Run(Program(base, next, end), moved, pc, da);
              if moved.loc >= pc then s == AtPc && m' == moved && ws' == ws
              else s == rest.0 && m' == rest.1 && ws' == RunWidths(Program(base, next, end), moved, pc, da, ws)
            else if !Failure(m, i).AtEnd? then s == Failure(m, i) && m' == m && ws' == ws
            else
              var after := Step(m, i, da);
              var rest := Run(Program(base, next, end), after, pc, da);
              s == rest.0 && m' == rest.1 && ws' == RunWidths(Program(base, next, end), after, pc, da, StepWidths(i, ws))
  {
    var (i, next) := Fetch(base, cur);
    var prog := Program(base, cur, end);
    assert prog[0] == i && (!i.Wild? ==> prog[1..] == Program(base, next, end)) by {
      hide Run;
      if !i.Wild? {
        assert ([i] + Program(base, next, end))[1..] == Program(base, next, end);
      }
    }
    hide Fetch, Step, Program, RunWidths, StepWidths;
    RunWidthsOne(prog, m, pc, da, ws);
  }

  /** An instruction advances by at most 65535 a byte, so a 32-bit start never reaches 2^64. */
  lemma NoWrap(pcStart: nat, start: nat, before: nat, cur: nat, size: nat, pc: nat, delta: nat)
    requires pcStart < TWO32 && start <= before < cur <= size <= TWO32
    requires pc <= pcStart + 0xffff * (before - start) && delta <= 0xffff * (cur - before)
    ensures (pc + delta) % TWO64 == pc + delta
    ensures pc + delta <= pcStart + 0xffff * (cur - start)
  {
  }
}
