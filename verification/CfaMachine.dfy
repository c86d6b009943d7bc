/** The call-frame instructions of anytrace/atr-backtrace.c, decoded as the code decodes them,
    and the machine of section 6.4.2 of DWARF 4 they are meant for: a current row and a stack
    of saved rows. */
module CfaMachine {
  import opened Words
  import opened Leb128

  /** One decoded instruction. `Unknown` is any opcode the code does not implement; `Wild` stands
      for an operand C has no defined way to read. */
  datatype Instr =
    | Advance(delta: nat)
    | Offset(reg: nat, factored: Int32)
    | DefCfa(cfaReg: Int32, cfaOffset: Int32)
    | DefCfaRegister(cfaReg: Int32)
    | DefCfaOffset(cfaOffset: Int32)
    | Undef(column: Int32)
    | Remember
    | Restore(opc: Byte)
    | Nop
    | Unknown(opc: Byte)
    | Wild

  /** A row: where the frame address comes from, and the columns saved at an offset from it. */
  datatype Row = Row(cfaReg: Int32, cfaOffset: Int32, rules: map<nat, Int32>)

  datatype Machine = Machine(loc: nat, row: Row, saved: seq<Row>)

  datatype Stop = AtEnd | AtPc | BadRestore(opc: Byte) | BadOpcode(opc: Byte) | Unreadable

  predicate Succeeds(s: Stop) {
    s.AtEnd? || s.AtPc?
  }

  // ---------------------------------------------------------------- decoding

  const OP_SET_OFFSET := 0x80
  const OP_NOP := 0x00
  const OP_ADVANCE1 := 0x02
  const OP_ADVANCE2 := 0x03
  const OP_UNDEFINED := 0x07
  const OP_REGISTER := 0x09
  const OP_REMEMBER := 0x0a
  const OP_RESTORE_STATE := 0x0b
  const OP_DEF_CFA := 0x0c
  const OP_DEF_CFA_REGISTER := 0x0d
  const OP_DEF_CFA_OFFSET := 0x0e

  /** The instruction at `cur` and the cursor after it. The top two bits select the three
      compact forms (advance, offset, restore); `DW_CFA_restore` does nothing. */
  function Fetch(base: seq<Byte>, cur: nat): (r: (Instr, nat))
    ensures !r.0.Wild? ==> cur < r.1 <= |base|
    ensures r.0.Advance? ==> r.0.delta <= 0xffff * (r.1 - cur)
  {
    if cur >= |base| then (Wild, cur)
    else
      var opc, next := base[cur], cur + 1;
      if opc / 0x40 == 1 then (Advance(opc % 0x40), next)
      else if opc / 0x40 == 2 then
        var off := DecodeSigned(base, next);
        if off.Undefined? then (Wild, cur) else (Offset(opc % 0x40, off.value), off.next)
      else if opc / 0x40 == 3 then (Nop, next)
      else if opc == OP_ADVANCE1 then
        if next >= |base| then (Wild, cur) else (Advance(base[next]), next + 1)
      else if opc == OP_ADVANCE2 then
        if next + 1 >= |base| then (Wild, cur) else (Advance(Read2(base, next)), next + 2)
      else if opc == OP_DEF_CFA then
        var reg := DecodeSigned(base, next);
        if reg.Undefined? then (Wild, cur) else
          var off := DecodeSigned(base, reg.next);
          if off.Undefined? then (Wild, cur) else (DefCfa(reg.value, off.value), off.next)
      else if opc == OP_REGISTER then
        var reg := DecodeSigned(base, next);
        if reg.Undefined? then (Wild, cur) else (DefCfaRegister(reg.value), reg.next)
      else if opc == OP_DEF_CFA_OFFSET then
        var off := DecodeUnsigned(base, next);
        if off.Undefined? then (Wild, cur) else (DefCfaOffset(off.value), off.next)
      else if opc == OP_NOP then (Nop, next)
      else if opc == OP_UNDEFINED then
        var reg := DecodeUnsigned(base, next);
        if reg.Undefined? then (Wild, cur) else (Undef(reg.value), reg.next)
      else if opc == OP_DEF_CFA_REGISTER then
        var reg := DecodeUnsigned(base, next);
        if reg.Undefined? then (Wild, cur) else (DefCfaRegister(reg.value), reg.next)
      else if opc == OP_REMEMBER then (Remember, next)
      else if opc == OP_RESTORE_STATE then (Restore(opc), next)
      else (Unknown(opc), next)
  }

  /** The usual way to save a register suffers from the signed reader: the encoding of "register 6
      is saved at factored offset 64" is taken for offset -64. */
  lemma OffsetFactorIsMisread()
    ensures EncodeUnsigned(64) == [0x40] && Fetch([0x86, 0x40], 0) == (Offset(6, -64), 2)
  {
    assert [0x86] + EncodeUnsigned(64) + [] == [0x86, 0x40];
    UnsignedReadAsSigned([0x86], 64, []);
    assert Pow128(1) == 0x80;
  }

  /** `read2` on a little-endian machine. */
  function Read2(base: seq<Byte>, cur: nat): nat
    requires cur + 1 < |base|
  {
    var low: nat, high: nat := base[cur], base[cur + 1];
    low + 0x100 * high
  }

  /** The instructions between `cur` and `end`. There are no jumps, so the list does not depend
      on the machine; an instruction that starts before `end` may have operands beyond it. */
  function Program(base: seq<Byte>, cur: nat, end: nat): seq<Instr>
    decreases end - cur
  {
    if cur >= end then []
    else
      var (i, next) := Fetch(base, cur);
      if i.Wild? then [Wild] else [i] + Program(base, next, end)
  }

  // ---------------------------------------------------------------- execution

  /** What the non-advancing instructions do. */
  function Step(m: Machine, i: Instr, dataAlign: Int32): (m': Machine)
    ensures m'.loc == m.loc
  {
    match i
    case Offset(reg, factored) => m.(row := m.row.(rules := m.row.rules[reg := Scaled(factored, dataAlign)]))
    case DefCfa(reg, off) => m.(row := m.row.(cfaReg := reg, cfaOffset := off))
    case DefCfaRegister(reg) => m.(row := m.row.(cfaReg := reg))
    case DefCfaOffset(off) => m.(row := m.row.(cfaOffset := off))
    case Remember => m.(saved := m.saved + [m.row])
    case Restore(_) => if m.saved == [] then m else Machine(m.loc, m.saved[|m.saved| - 1], m.saved[..|m.saved| - 1])
    case _ => m
  }

  /** `off * env->data_align` in 32 bits. */
  function Scaled(factored: Int32, dataAlign: Int32): Int32 {
    ToInt32(factored * dataAlign)
  }

  /** The reason the code gives up at `i`, if it does. */
  function Failure(m: Machine, i: Instr): (s: Stop)
    ensures !s.AtPc?
    ensures s.AtEnd? <==> !(i.Unknown? || i.Wild? || (i.Restore? && m.saved == []))
  {
    match i
    case Unknown(opc) => BadOpcode(opc)
    case Wild => Unreadable
    case Restore(opc) => if m.saved == [] then BadRestore(opc) else AtEnd
    case _ => AtEnd
  }

  /** Execute until the program ends, an instruction fails, or an advance reaches `pc`; the third
      result counts the instructions taken from the program. */
  function Run(prog: seq<Instr>, m: Machine, pc: nat, dataAlign: Int32): (r: (Stop, Machine, nat))
    ensures r.2 <= |prog|
  {
    if prog == [] then (AtEnd, m, 0)
    else if prog[0].Advance? then
      var m' := m.(loc := m.loc + prog[0].delta);
      if m'.loc >= pc then (AtPc, m', 1) else Count(Run(prog[1..], m', pc, dataAlign))
    else if !Failure(m, prog[0]).AtEnd? then (Failure(m, prog[0]), m, 1)
    else Count(Run(prog[1..], Step(m, prog[0], dataAlign), pc, dataAlign))
  }

  function Count(r: (Stop, Machine, nat)): (Stop, Machine, nat) {
    (r.0, r.1, r.2 + 1)
  }

  /** An advance that does not reach pc, and any other instruction that does not fail. */
  lemma RunStep(i: Instr, rest: seq<Instr>, m: Machine, pc: nat, da: Int32)
    requires if i.Advance? then m.loc + i.delta < pc else Failure(m, i).AtEnd?
    ensures var m' := if i.Advance? then m.(loc := m.loc + i.delta) else Step(m, i, da);
            Run([i] + rest, m, pc, da) == Count(Run(rest, m', pc, da))
  {
    assert ([i] + rest)[1..] == rest;
  }

  /** An advance that does. */
  lemma RunStops(delta: nat, rest: seq<Instr>, m: Machine, pc: nat, da: Int32)
    requires m.loc + delta >= pc
    ensures Run([Advance(delta)] + rest, m, pc, da) == (AtPc, m.(loc := m.loc + delta), 1)
  {
  }

  // ---------------------------------------------------------------- column widths

  /** A buffer of w columns after room has been made for `column`. */
  function Widened(w: nat, column: int): nat {
    if w <= column then column + 1 else w
  }

  /** The widths of the column buffers, the current one last: a remembered buffer is copied into
      one that is a column wider. No row depends on them, but they bound what is restored. */
  function StepWidths(i: Instr, ws: seq<nat>): (r: seq<nat>)
    requires ws != []
    ensures r != []
  {
    var top := |ws| - 1;
    match i
    case Offset(reg, _) => ws[top := Widened(ws[top], reg)]
    case Undef(column) => ws[top := Widened(ws[top], column)]
    case Remember => ws + [ws[top] + 1]
    case Restore(_) => if top == 0 then ws else ws[..top]
    case _ => ws
  }

  function Widths(executed: seq<Instr>, ws: seq<nat>): (r: seq<nat>)
    requires ws != []
    ensures r != []
    decreases |executed|
  {
    if executed == [] then ws else Widths(executed[1..], StepWidths(executed[0], ws))
  }

  /** The widths when `Run` stops. */
  function RunWidths(prog: seq<Instr>, m: Machine, pc: nat, dataAlign: Int32, ws: seq<nat>): (r: seq<nat>)
    requires ws != []
    ensures r != []
  {
    Widths(prog[..Run(prog, m, pc, dataAlign).2], ws)
  }

  /** The caller's width at the end: an unmatched remember leaves one column more. */
  function Collapsed(ws: seq<nat>): nat
    requires ws != []
  {
    if |ws| == 1 then ws[0] else ws[|ws| - 1] + 1
  }

  /** One instruction of `RunWidths`. */
  lemma RunWidthsOne(prog: seq<Instr>, m: Machine, pc: nat, dataAlign: Int32, ws: seq<nat>)
    requires ws != [] && prog != [] && |ws| == |m.saved| + 1
    ensures var r := RunWidths(prog, m, pc, dataAlign, ws);
            if prog[0].Advance? then
              var moved := m.(loc := m.loc + prog[0].delta);
              r == if moved.loc >= pc then ws else RunWidths(prog[1..], moved, pc, dataAlign, ws)
            else if !Failure(m, prog[0]).AtEnd? then r == ws
            else r == RunWidths(prog[1..], Step(m, prog[0], dataAlign), pc, dataAlign, StepWidths(prog[0], ws))
  {
    var n := Run(prog, m, pc, dataAlign).2;
    assert n > 0 && prog[..n][0] == prog[0] && prog[..n][1..] == prog[1..][..n - 1];
    assert RunWidths(prog, m, pc, dataAlign, ws) == Widths(prog[1..][..n - 1], StepWidths(prog[0], ws));
    if prog[0].Advance? || !Failure(m, prog[0]).AtEnd? {
      assert StepWidths(prog[0], ws) == ws;
      assert n == 1 ==> Widths(prog[1..][..0], ws) == ws;
    }
  }

  // ---------------------------------------------------------------- the table

  /** The whole location/row table of a program, one entry per location it establishes: the row
      in force when the location ends. An error ends the table. */
  function Table(prog: seq<Instr>, m: Machine, dataAlign: Int32): (t: seq<(nat, Row)>)
    ensures t != []
  {
    if prog == [] then [(m.loc, m.row)]
    else if prog[0].Advance? then
      [(m.loc, m.row)] + Table(prog[1..], m.(loc := m.loc + prog[0].delta), dataAlign)
    else if !Failure(m, prog[0]).AtEnd? then [(m.loc, m.row)]
    else Table(prog[1..], Step(m, prog[0], dataAlign), dataAlign)
  }

  /** `row` is the row of the last entry strictly below `pc`, or of the first entry if none is. */
  ghost predicate IsLookup(t: seq<(nat, Row)>, pc: nat, row: Row) {
    exists k :: 0 <= k < |t| && t[k].1 == row && LastBelow(t, pc, k)
  }

  ghost predicate LastBelow(t: seq<(nat, Row)>, pc: nat, k: nat)
    requires k < |t|
  {
    && (k == 0 || t[k].0 < pc)
    && forall j :: k < j < |t| ==> t[j].0 >= pc
  }

  lemma {:induction false} TableLocationsGrow(prog: seq<Instr>, m: Machine, dataAlign: Int32)
    ensures forall k :: 0 <= k < |Table(prog, m, dataAlign)| ==> Table(prog, m, dataAlign)[k].0 >= m.loc
    ensures Table(prog, m, dataAlign)[0].0 == m.loc
  {
    if prog != [] {
      if prog[0].Advance? {
        TableLocationsGrow(prog[1..], m.(loc := m.loc + prog[0].delta), dataAlign);
      } else if Failure(m, prog[0]).AtEnd? {
        TableLocationsGrow(prog[1..], Step(m, prog[0], dataAlign), dataAlign);
      }
    }
  }

  /** The scan that stops at the first advance reaching `pc` finds the row a lookup in the whole
      table would find, for every program, also one that fails before or after `pc`. */
  lemma {:induction false} ScanIsLookup(prog: seq<Instr>, m: Machine, pc: nat, dataAlign: Int32)
    ensures IsLookup(Table(prog, m, dataAlign), pc, Run(prog, m, pc, dataAlign).1.row)
  {
    var t := Table(prog, m, dataAlign);
    var row := Run(prog, m, pc, dataAlign).1.row;
    if prog == [] {
      assert LastBelow(t, pc, 0);
    } else if prog[0].Advance? {
      var m' := m.(loc := m.loc + prog[0].delta);
      TableLocationsGrow(prog[1..], m', dataAlign);
      var rest := Table(prog[1..], m', dataAlign);
      if m'.loc >= pc {
        assert LastBelow(t, pc, 0);
      } else {
        ScanIsLookup(prog[1..], m', pc, dataAlign);
        var k :| 0 <= k < |rest| && rest[k].1 == row && LastBelow(rest, pc, k);
        assert t[k + 1] == rest[k] && LastBelow(t, pc, k + 1);
      }
    } else if !Failure(m, prog[0]).AtEnd? {
      assert LastBelow(t, pc, 0);
    } else {
      ScanIsLookup(prog[1..], Step(m, prog[0], dataAlign), pc, dataAlign);
    }
  }

  lemma LookupIsUnique(t: seq<(nat, Row)>, pc: nat, row1: Row, row2: Row)
    requires IsLookup(t, pc, row1) && IsLookup(t, pc, row2)
    ensures row1 == row2
  {
    var k1 :| 0 <= k1 < |t| && t[k1].1 == row1 && LastBelow(t, pc, k1);
    var k2 :| 0 <= k2 < |t| && t[k2].1 == row2 && LastBelow(t, pc, k2);
    assert k1 == k2;
  }

  /** A higher pc only makes the scan go further: the instructions taken for pc1 are a prefix of
      those taken for pc2, and a scan that pc1 did not stop is the same for pc2. */
  lemma {:induction false} HigherPcRunsLonger(prog: seq<Instr>, m: Machine, pc1: nat, pc2: nat, dataAlign: Int32)
    requires pc1 <= pc2
    ensures var n1, n2 := Run(prog, m, pc1, dataAlign).2, Run(prog, m, pc2, dataAlign).2;
            n1 <= n2 && prog[..n1] <= prog[..n2]
    ensures Run(prog, m, pc1, dataAlign).0 != AtPc ==> Run(prog, m, pc2, dataAlign) == Run(prog, m, pc1, dataAlign)
  {
    if prog != [] {
      if prog[0].Advance? {
        HigherPcRunsLonger(prog[1..], m.(loc := m.loc + prog[0].delta), pc1, pc2, dataAlign);
      } else if Failure(m, prog[0]).AtEnd? {
        HigherPcRunsLonger(prog[1..], Step(m, prog[0], dataAlign), pc1, pc2, dataAlign);
      }
    }
  }

  // ---------------------------------------------------------------- remember and restore

  /** How far the advances of a program move. */
  function Distance(prog: seq<Instr>): nat {
    if prog == [] then 0
    else (if prog[0].Advance? then prog[0].delta else 0) + Distance(prog[1..])
  }

  /** Nothing fails, and starting with `depth` own remembers open, every restore closes an own
      remember and none is open at the end. */
  predicate Balanced(prog: seq<Instr>, depth: nat) {
    if prog == [] then depth == 0
    else
      match prog[0]
      case Unknown(_) => false
      case Wild => false
      case Remember => Balanced(prog[1..], depth + 1)
      case Restore(_) => depth > 0 && Balanced(prog[1..], depth - 1)
      case _ => Balanced(prog[1..], depth)
  }

  /** The machine after a balanced program that does not reach pc. */
  function Final(prog: seq<Instr>, m: Machine, dataAlign: Int32): Machine
    decreases |prog|
  {
    if prog == [] then m
    else if prog[0].Advance? then Final(prog[1..], m.(loc := m.loc + prog[0].delta), dataAlign)
    else Final(prog[1..], Step(m, prog[0], dataAlign), dataAlign)
  }

  /** The rows saved before a balanced program are untouched by it. */
  lemma {:induction false} BalancedKeepsSaved(prog: seq<Instr>, depth: nat, m: Machine, dataAlign: Int32)
    requires Balanced(prog, depth) && depth <= |m.saved|
    ensures Final(prog, m, dataAlign).saved == m.saved[..|m.saved| - depth]
    ensures Final(prog, m, dataAlign).loc == m.loc + Distance(prog)
    decreases |prog|
  {
    if prog != [] {
      var m' := if prog[0].Advance? then m.(loc := m.loc + prog[0].delta) else Step(m, prog[0], dataAlign);
      var depth' := if prog[0].Remember? then depth + 1 else if prog[0].Restore? then depth - 1 else depth;
      BalancedKeepsSaved(prog[1..], depth', m', dataAlign);
    }
  }

  /** A run passes through a balanced program that does not reach pc, and goes on behind it. */
  lemma {:induction false} RunPasses(prog: seq<Instr>, depth: nat, m: Machine, rest: seq<Instr>, pc: nat, dataAlign: Int32)
    requires Balanced(prog, depth) && depth <= |m.saved|
    requires m.loc + Distance(prog) < pc
    ensures Run(prog + rest, m, pc, dataAlign).0 == Run(rest, Final(prog, m, dataAlign), pc, dataAlign).0
    ensures Run(prog + rest, m, pc, dataAlign).1 == Run(rest, Final(prog, m, dataAlign), pc, dataAlign).1
    decreases |prog|
  {
    if prog == [] {
      assert prog + rest == rest;
    } else {
      assert (prog + rest)[1..] == prog[1..] + rest;
      var m' := if prog[0].Advance? then m.(loc := m.loc + prog[0].delta) else Step(m, prog[0], dataAlign);
      var depth' := if prog[0].Remember? then depth + 1 else if prog[0].Restore? then depth - 1 else depth;
      RunPasses(prog[1..], depth', m', rest, pc, dataAlign);
    }
  }

  /** `DW_CFA_remember_state` and the matching `DW_CFA_restore_state` bracket whatever lies
      between them: behind them the row and the saved rows are the ones before, and only the
      location has moved. */
  lemma RestoreBringsBack(body: seq<Instr>, m: Machine, opc: Byte, rest: seq<Instr>, pc: nat, dataAlign: Int32)
    requires Balanced(body, 0) && m.loc + Distance(body) < pc
    ensures var bracket := Run([Remember] + body + [Restore(opc)] + rest, m, pc, dataAlign);
            var after := Run(rest, m.(loc := m.loc + Distance(body)), pc, dataAlign);
            bracket.0 == after.0 && bracket.1 == after.1
  {
    var inner := m.(saved := m.saved + [m.row]);
    var all := [Remember] + body + [Restore(opc)] + rest;
    var tail := [Restore(opc)] + rest;
    assert all[1..] == body + tail && tail[1..] == rest;
    RunPasses(body, 0, inner, tail, pc, dataAlign);
    BalancedKeepsSaved(body, 0, inner, dataAlign);
    assert inner.saved[..|inner.saved|] == inner.saved && inner.saved[..|inner.saved| - 1] == m.saved;
  }

  lemma {:induction false} BalancedKeepsWidths(prog: seq<Instr>, depth: nat, ws: seq<nat>)
    requires Balanced(prog, depth) && depth < |ws|
    ensures var r := Widths(prog, ws); |r| == |ws| - depth && r[..|r| - 1] == ws[..|r| - 1]
    decreases |prog|
  {
    if prog != [] {
      var depth' := if prog[0].Remember? then depth + 1 else if prog[0].Restore? then depth - 1 else depth;
      BalancedKeepsWidths(prog[1..], depth', StepWidths(prog[0], ws));
    }
  }

  /** The bracket restores the column width too, however far its body widened the columns. */
  lemma RestoreBringsWidthBack(body: seq<Instr>, opc: Byte, rest: seq<Instr>, ws: seq<nat>)
    requires Balanced(body, 0) && ws != []
    ensures Widths([Remember] + body + [Restore(opc)] + rest, ws) == Widths(rest, ws)
  {
    var inner := StepWidths(Remember, ws);
    var all, tail := [Remember] + body + [Restore(opc)] + rest, [Restore(opc)] + rest;
    assert all[1..] == body + tail && tail[1..] == rest;
    WidthsAppend(body, tail, inner);
    BalancedKeepsWidths(body, 0, inner);
    assert inner[..|ws|] == ws;
  }

  lemma {:induction false} WidthsAppend(prog: seq<Instr>, rest: seq<Instr>, ws: seq<nat>)
    requires ws != []
    ensures Widths(prog + rest, ws) == Widths(rest, Widths(prog, ws))
    decreases |prog|
  {
    if prog == [] {
      assert prog + rest == rest;
    } else {
      assert (prog + rest)[1..] == prog[1..] + rest;
      WidthsAppend(prog[1..], rest, StepWidths(prog[0], ws));
    }
  }

  // ---------------------------------------------------------------- what a row says

  /** No remembering, no restoring, nothing that fails. */
  predicate Plain(prog: seq<Instr>) {
    forall i <- prog :: !i.Remember? && !i.Restore? && !i.Unknown? && !i.Wild?
  }

  predicate SetsCfaReg(i: Instr) {
    i.DefCfa? || i.DefCfaRegister?
  }

  predicate SetsCfaOffset(i: Instr) {
    i.DefCfa? || i.DefCfaOffset?
  }

  predicate SetsRule(i: Instr, c: nat) {
    i.Offset? && i.reg == c
  }

  /** What the instructions do not mention stays as it was. */
  lemma {:induction false} UnsaidStays(prog: seq<Instr>, m: Machine, dataAlign: Int32, c: nat)
    requires Plain(prog)
    ensures var r := Final(prog, m, dataAlign).row;
            && ((forall i <- prog :: !SetsCfaReg(i)) ==> r.cfaReg == m.row.cfaReg)
            && ((forall i <- prog :: !SetsCfaOffset(i)) ==> r.cfaOffset == m.row.cfaOffset)
            && ((forall i <- prog :: !SetsRule(i, c)) ==>
                  (c in r.rules <==> c in m.row.rules) && (c in m.row.rules ==> r.rules[c] == m.row.rules[c]))
    decreases |prog|
  {
    if prog != [] {
      var m' := if prog[0].Advance? then m.(loc := m.loc + prog[0].delta) else Step(m, prog[0], dataAlign);
      assert prog[0] in prog && forall i <- prog[1..] :: i in prog;
      UnsaidStays(prog[1..], m', dataAlign, c);
    }
  }

  /** The CFA register is the operand of the last instruction that names one, the CFA offset is
      the operand of the last that gives one, and a column is saved at the last factor given for
      it times the data alignment factor. */
  lemma {:induction false} LastWordCounts(prog: seq<Instr>, k: nat, m: Machine, dataAlign: Int32)
    requires Plain(prog) && k < |prog|
    ensures var r, later := Final(prog, m, dataAlign).row, prog[k + 1..];
            && (SetsCfaReg(prog[k]) && (forall i <- later :: !SetsCfaReg(i)) ==> r.cfaReg == prog[k].cfaReg)
            && (SetsCfaOffset(prog[k]) && (forall i <- later :: !SetsCfaOffset(i)) ==> r.cfaOffset == prog[k].cfaOffset)
            && (prog[k].Offset? && (forall i <- later :: !SetsRule(i, prog[k].reg)) ==>
                  && prog[k].reg in r.rules
                  && (r.rules[prog[k].reg] - prog[k].factored * dataAlign) % 0x1_0000_0000 == 0)
    decreases k
  {
    var m' := if prog[0].Advance? then m.(loc := m.loc + prog[0].delta) else Step(m, prog[0], dataAlign);
    assert forall i <- prog[1..] :: i in prog;
    assert prog[0] in prog;
    if k == 0 {
      UnsaidStays(prog[1..], m', dataAlign, if prog[0].Offset? then prog[0].reg else 0);
    } else {
      LastWordCounts(prog[1..], k - 1, m', dataAlign);
      assert prog[1..][k - 1] == prog[k] && prog[1..][k..] == prog[k + 1..];
    }
  }

  lemma {:induction false} PlainIsBalanced(prog: seq<Instr>)
    requires Plain(prog)
    ensures Balanced(prog, 0)
    decreases |prog|
  {
    if prog != [] {
      assert prog[0] in prog && forall i <- prog[1..] :: i in prog;
      PlainIsBalanced(prog[1..]);
    }
  }

  /** So that is what a run ends with that is not stopped by pc. */
  lemma PlainRunsToTheEnd(prog: seq<Instr>, m: Machine, pc: nat, dataAlign: Int32)
    requires Plain(prog) && m.loc + Distance(prog) < pc
    ensures Run(prog, m, pc, dataAlign).0 == AtEnd && Run(prog, m, pc, dataAlign).1 == Final(prog, m, dataAlign)
  {
    PlainIsBalanced(prog);
    RunPasses(prog, 0, m, [], pc, dataAlign);
    assert prog + [] == prog;
  }

  /** The widths in numbers: a column c takes c + 1 columns, a remember that is not matched leaves
      the caller two more (one for the copy, one for the copy back), a matched one none. */
  lemma WidthsInNumbers(w: nat, c: nat, factored: Int32)
    requires c < 0x7fff_ffff
    ensures Collapsed(Widths([Offset(c, factored)], [w])) == if w < c + 1 then c + 1 else w
    ensures Collapsed(Widths([Undef(c)], [w])) == if w < c + 1 then c + 1 else w
    ensures Collapsed(Widths([Remember], [w])) == w + 2
    ensures Collapsed(Widths([Remember, Restore(0x0b)], [w])) == w
  {
    assert StepWidths(Remember, [w]) == [w, w + 1] && StepWidths(Restore(0x0b), [w, w + 1]) == [w];
    assert [Remember, Restore(0x0b)][1..] == [Restore(0x0b)] && [Restore(0x0b)][1..] == [];
  }
}
