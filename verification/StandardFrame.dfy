/** What the rows are for. A function begins with `push rbp` (one byte), `mov rbp, rsp` (three
    bytes) and `sub rsp, n`; the section that compilers emit for it on x86-64 is written out byte
    by byte; and the step is followed down to the caller's registers. */
module StandardFrame {
  import opened Words
  import opened Leb128
  import opened CfaMachine
  import opened CfaEncoding
  import opened CfaInterp
  import opened EhFrame
  import opened EhFrameEncoding
  import opened StartState
  import opened Backtrace
  import FrameLoop

  /** A CIE: augmentation "zR", code alignment 1, data alignment -8, return column 16, the frame
      address is register 7 plus 8, column 16 is saved one slot below it. An FDE for the code at
      `begin` (relative to its own place) of size `range`: after one byte the offset is 16 and
      column 6 is saved two slots below; after three more the frame register is 6. A zero ends
      the section. */
  function Section(begin: Word32, range: Word32): seq<Byte> {
    [0x14, 0, 0, 0, 0, 0, 0, 0, 0x01, 0x7a, 0x52, 0x00, 0x01, 0x78, 0x10, 0x01, 0x1b,
     0x0c, 0x07, 0x08, 0x90, 0x01, 0x00, 0x00]
    + [0x18, 0, 0, 0, 0x1c, 0, 0, 0]
    + [begin % 0x100, begin / 0x100 % 0x100, begin / 0x100 / 0x100 % 0x100, begin / 0x100 / 0x100 / 0x100]
    + [range % 0x100, range / 0x100 % 0x100, range / 0x100 / 0x100 % 0x100, range / 0x100 / 0x100 / 0x100]
    + [0x00, 0x41, 0x0e, 0x10, 0x86, 0x02, 0x43, 0x0d, 0x06, 0, 0, 0]
    + [0, 0, 0, 0]
  }

  /** The address of the function: the FDE's field lies 32 bytes into the section. */
  function Entry(section: Word64, begin: Word32): nat {
    (section + 32 + begin) % 0x1_0000_0000
  }

  // ---------------------------------------------------------------- the two records

  const CIE := Cie([0x7a, 0x52], 1, -8, 16, [0x1b], [DefCfa(7, 8), Offset(16, 1), Nop, Nop])

  const PROLOGUE := [Advance(1), DefCfaOffset(16), Offset(6, 2), Advance(3), DefCfaRegister(6)]

  const PADDING := [Nop, Nop, Nop]

  function TheFde(begin: Word32, range: Word32): Record {
    Fde(0x1c, begin, range, [], PROLOGUE + PADDING)
  }

  lemma OneMore(i: Instr, rest: seq<Instr>)
    requires Encodable(i) && forall j <- rest :: Encodable(j)
    ensures forall j <- [i] + rest :: Encodable(j)
    ensures EncodeAll([i] + rest) == Encode(i) + EncodeAll(rest)
  {
    assert ([i] + rest)[1..] == rest;
  }

  lemma InstructionBytes()
    ensures Encodable(DefCfa(7, 8)) && Encode(DefCfa(7, 8)) == [0x0c, 0x07, 0x08]
    ensures Encodable(Offset(16, 1)) && Encode(Offset(16, 1)) == [0x90, 0x01]
    ensures Encodable(Offset(6, 2)) && Encode(Offset(6, 2)) == [0x86, 0x02]
    ensures Encodable(DefCfaOffset(16)) && Encode(DefCfaOffset(16)) == [0x0e, 0x10]
    ensures Encodable(DefCfaRegister(6)) && Encode(DefCfaRegister(6)) == [0x0d, 0x06]
    ensures Encodable(Advance(1)) && Encode(Advance(1)) == [0x41] && Encodable(Advance(3)) && Encode(Advance(3)) == [0x43]
    ensures Encodable(Nop) && Encode(Nop) == [0x00]
  {
  }

  lemma CieProgram()
    ensures (forall i <- CIE.prog :: Encodable(i)) && EncodeAll(CIE.prog) == [0x0c, 0x07, 0x08, 0x90, 0x01, 0x00, 0x00]
  {
    InstructionBytes();
    assert EncodeAll([]) == [];
    hide *;
    OneMore(Nop, []);
    OneMore(Nop, [Nop] + []);
    OneMore(Offset(16, 1), [Nop] + ([Nop] + []));
    OneMore(DefCfa(7, 8), [Offset(16, 1)] + ([Nop] + ([Nop] + [])));
    assert CIE.prog == [DefCfa(7, 8)] + ([Offset(16, 1)] + ([Nop] + ([Nop] + [])));
  }

  lemma FramedBytes()
    ensures var p := [Advance(3)] + ([DefCfaRegister(6)] + PADDING);
            (forall i <- p :: Encodable(i)) && EncodeAll(p) == [0x43, 0x0d, 0x06, 0, 0, 0]
  {
    InstructionBytes();
    assert EncodeAll([]) == [];
    hide *;
    OneMore(Nop, []);
    OneMore(Nop, [Nop] + []);
    OneMore(Nop, [Nop] + ([Nop] + []));
    assert PADDING == [Nop] + ([Nop] + ([Nop] + []));
    OneMore(DefCfaRegister(6), PADDING);
    OneMore(Advance(3), [DefCfaRegister(6)] + PADDING);
  }

  lemma Grouped<T>(a: seq<T>, b: seq<T>, c: seq<T>, d: seq<T>, e: seq<T>, f: seq<T>)
    ensures a + b + c + d + e + f == a + (b + (c + (d + (e + f)))) == a + (b + c + d + e) + f
  {
  }

  lemma PrologueIs()
    ensures PROLOGUE + PADDING ==
            [Advance(1)] + ([DefCfaOffset(16)] + ([Offset(6, 2)] + ([Advance(3)] + ([DefCfaRegister(6)] + PADDING))))
  {
    Grouped([Advance(1)], [DefCfaOffset(16)], [Offset(6, 2)], [Advance(3)], [DefCfaRegister(6)], PADDING);
  }

  lemma PrologueBytes()
    ensures forall i <- PROLOGUE + PADDING :: Encodable(i)
    ensures EncodeAll(PROLOGUE + PADDING) == [0x41, 0x0e, 0x10, 0x86, 0x02, 0x43, 0x0d, 0x06, 0, 0, 0]
  {
    InstructionBytes();
    FramedBytes();
    PrologueIs();
    hide *;
    var p3 := [Advance(3)] + ([DefCfaRegister(6)] + PADDING);
    OneMore(Offset(6, 2), p3);
    OneMore(DefCfaOffset(16), [Offset(6, 2)] + p3);
    OneMore(Advance(1), [DefCfaOffset(16)] + ([Offset(6, 2)] + p3));
  }

  lemma CieHead()
    ensures Head(CIE, false) == [0, 0, 0, 0, 0x01, 0x7a, 0x52, 0x00, 0x01, 0x78, 0x10, 0x01, 0x1b]
  {
    assert HasZ(CIE.augmentation);
    assert EncodeSigned(1) == [0x01] && EncodeSigned(-8) == [0x78] && EncodeSigned(16) == [0x10];
    assert CieFields(CIE) == [0x01, 0x78, 0x10, 0x01, 0x1b];
    assert WordBytes(0) == [0, 0, 0, 0];
  }

  lemma CieBytes()
    ensures EncodableRecord(CIE)
    ensures EncodeRecord(CIE, false) ==
            [0x14, 0, 0, 0, 0, 0, 0, 0, 0x01, 0x7a, 0x52, 0x00, 0x01, 0x78, 0x10, 0x01, 0x1b,
             0x0c, 0x07, 0x08, 0x90, 0x01, 0x00, 0x00]
  {
    CieProgram();
    CieHead();
    hide EncodeAll, Head, Encodable;
    assert RecordLength(CIE, false) == 20 && WordBytes(20) == [0x14, 0, 0, 0];
  }

  lemma FdeHead(begin: Word32, range: Word32)
    ensures Head(TheFde(begin, range), true) == WordBytes(0x1c) + WordBytes(begin) + WordBytes(range) + [0x00]
    ensures WordBytes(0x1c) == [0x1c, 0, 0, 0] && |WordBytes(begin)| == |WordBytes(range)| == 4
  {
    assert ExtraBytes(true, []) == [0x00];
  }

  lemma FdeBytes(begin: Word32, range: Word32)
    ensures EncodableRecord(TheFde(begin, range))
    ensures EncodeRecord(TheFde(begin, range), true) ==
            [0x18, 0, 0, 0, 0x1c, 0, 0, 0] + WordBytes(begin) + WordBytes(range)
            + [0x00, 0x41, 0x0e, 0x10, 0x86, 0x02, 0x43, 0x0d, 0x06, 0, 0, 0]
  {
    PrologueBytes();
    FdeHead(begin, range);
    assert WordBytes(24) == [0x18, 0, 0, 0];
    hide EncodeAll, Head, Encodable, WordBytes;
    assert RecordLength(TheFde(begin, range), true) == 24;
  }

  lemma TwoRecords(fde: Record)
    requires EncodableRecord(CIE) && EncodableRecord(fde)
    ensures AllEncodable([CIE, fde]) && EncodeSection([CIE, fde], false) == EncodeRecord(CIE, false) + EncodeRecord(fde, true)
  {
    assert AugAfter(CIE, false);
    hide EncodeRecord, EncodableRecord, AugAfter;
    assert [CIE, fde][1..] == [fde] && [fde][1..] == [];
    assert EncodeSection([fde], true) == EncodeRecord(fde, true) + EncodeSection([], AugAfter(fde, true));
    assert EncodeSection([], AugAfter(fde, true)) == [];
  }

  lemma EndsWithZero(base: seq<Byte>, encoded: seq<Byte>, records: seq<Record>)
    requires AllEncodable(records) && encoded == EncodeSection(records, false) && base == encoded + [0, 0, 0, 0]
    requires |base| < TWO32
    ensures EncodedAt(base, 0, |base|, records, false)
  {
    hide EncodeSection, AllEncodable;
    assert base[0..|encoded|] == encoded;
    assert Read4(base, |encoded|) == 0;
  }

  lemma SectionIs(begin: Word32, range: Word32)
    ensures Section(begin, range) ==
            [0x14, 0, 0, 0, 0, 0, 0, 0, 0x01, 0x7a, 0x52, 0x00, 0x01, 0x78, 0x10, 0x01, 0x1b,
             0x0c, 0x07, 0x08, 0x90, 0x01, 0x00, 0x00]
            + [0x18, 0, 0, 0, 0x1c, 0, 0, 0] + WordBytes(begin) + WordBytes(range)
            + [0x00, 0x41, 0x0e, 0x10, 0x86, 0x02, 0x43, 0x0d, 0x06, 0, 0, 0] + [0, 0, 0, 0]
  {
  }

  lemma SectionBytes(begin: Word32, range: Word32)
    ensures AllEncodable([CIE, TheFde(begin, range)])
    ensures EncodedAt(Section(begin, range), 0, |Section(begin, range)|, [CIE, TheFde(begin, range)], false)
    ensures EncodableRecord(CIE) && |EncodeRecord(CIE, false)| == 24
  {
    CieBytes();
    FdeBytes(begin, range);
    TwoRecords(TheFde(begin, range));
    var base, fde := Section(begin, range), TheFde(begin, range);
    assert |base| == 56;
    SectionIs(begin, range);
    hide *;
    Grouped(EncodeRecord(CIE, false), [0x18, 0, 0, 0, 0x1c, 0, 0, 0], WordBytes(begin), WordBytes(range),
            [0x00, 0x41, 0x0e, 0x10, 0x86, 0x02, 0x43, 0x0d, 0x06, 0, 0, 0], [0, 0, 0, 0]);
    EndsWithZero(base, EncodeSection([CIE, fde], false), [CIE, fde]);
  }

  // ---------------------------------------------------------------- the row at pc

  const AT_ENTRY := Row(7, 8, map[16 := -8])
  const PUSHED := Row(7, 16, map[16 := -8, 6 := -16])
  const FRAMED := Row(6, 16, map[16 := -8, 6 := -16])

  lemma {:induction false} NopsRun(prog: seq<Instr>, m: Machine, pc: nat, da: Int32)
    requires forall i <- prog :: i == Nop
    ensures Run(prog, m, pc, da) == (AtEnd, m, |prog|)
    decreases |prog|
  {
    if prog != [] {
      assert prog[0] in prog && forall i <- prog[1..] :: i in prog;
      NopsRun(prog[1..], m, pc, da);
    }
  }

  lemma CieRuns(st: CieState, pc: Word64)
    requires Blank(st)
    ensures RunCie(CIE, st, pc) == CieOk(CieState(AT_ENTRY, 17, 1, -8, 16, true))
  {
    var m0 := Machine(0, st.row, []);
    var m1 := Machine(0, Row(7, 8, map[]), []);
    var m2 := Machine(0, AT_ENTRY, []);
    var p1, p2 := [Offset(16, 1), Nop, Nop], [Nop, Nop];
    assert CIE.prog[1..] == p1 && p1[1..] == p2;
    assert Step(m0, DefCfa(7, 8), -8) == m1 && Step(m1, Offset(16, 1), -8) == m2;
    NopsRun(p2, m2, pc, -8);
    assert Run(p1, m1, pc, -8) == (AtEnd, m2, 3);
    assert Run(CIE.prog, m0, pc, -8) == (AtEnd, m2, 4);
    CieWidths();
    assert CIE.prog[..4] == CIE.prog;
    assert HasZ(CIE.augmentation);
  }

  lemma CieWidths()
    ensures Widths(CIE.prog, [17]) == [17]
  {
    var p1, p2 := [Offset(16, 1), Nop, Nop], [Nop, Nop];
    assert CIE.prog[1..] == p1 && p1[1..] == p2 && p2[1..] == [Nop] && [Nop][1..] == [];
    assert StepWidths(DefCfa(7, 8), [17]) == [17] && StepWidths(Offset(16, 1), [17]) == [17] && StepWidths(Nop, [17]) == [17];
    assert Widths([Nop], [17]) == [17];
    assert Widths(p2, [17]) == [17];
    assert Widths(p1, [17]) == [17];
  }

  /** The second half of the prologue. */
  lemma FramedRuns(loc: nat, pc: nat)
    requires loc < pc
    ensures var (s, m, _) := Run([Advance(3)] + ([DefCfaRegister(6)] + PADDING), Machine(loc, PUSHED, []), pc, -8);
            Succeeds(s) && m.row == if pc <= loc + 3 then PUSHED else FRAMED
  {
    var tail := [DefCfaRegister(6)] + PADDING;
    if pc <= loc + 3 {
      RunStops(3, tail, Machine(loc, PUSHED, []), pc, -8);
    } else {
      RunStep(Advance(3), tail, Machine(loc, PUSHED, []), pc, -8);
      RunStep(DefCfaRegister(6), PADDING, Machine(loc + 3, PUSHED, []), pc, -8);
      NopsRun(PADDING, Machine(loc + 3, FRAMED, []), pc, -8);
    }
  }

  lemma PushedSteps(loc: nat)
    ensures var m := Machine(loc, AT_ENTRY, []);
            Step(Step(m, DefCfaOffset(16), -8), Offset(6, 2), -8) == Machine(loc, PUSHED, [])
    ensures forall m: Machine :: Failure(m, DefCfaOffset(16)).AtEnd? && Failure(m, Offset(6, 2)).AtEnd?
  {
  }

  lemma FdeRuns(loc: nat, pc: nat)
    requires loc <= pc
    ensures var (s, m, _) := Run(PROLOGUE + PADDING, Machine(loc, AT_ENTRY, []), pc, -8);
            && Succeeds(s)
            && m.row == if pc <= loc + 1 then AT_ENTRY else if pc <= loc + 4 then PUSHED else FRAMED
  {
    var p3 := [Advance(3)] + ([DefCfaRegister(6)] + PADDING);
    var p2 := [Offset(6, 2)] + p3;
    var p1 := [DefCfaOffset(16)] + p2;
    PrologueIs();
    PushedSteps(loc + 1);
    hide Run, Step, Failure;
    if pc <= loc + 1 {
      RunStops(1, p1, Machine(loc, AT_ENTRY, []), pc, -8);
    } else {
      RunStep(Advance(1), p1, Machine(loc, AT_ENTRY, []), pc, -8);
      RunStep(DefCfaOffset(16), p2, Machine(loc + 1, AT_ENTRY, []), pc, -8);
      RunStep(Offset(6, 2), p3, Step(Machine(loc + 1, AT_ENTRY, []), DefCfaOffset(16), -8), pc, -8);
      FramedRuns(loc + 1, pc);
    }
  }

  /** The row the walk reaches at pc, from any uninitialised start: up to and including the address
      behind the push the one of the entry, then with the larger offset, and from behind the move
      on with the frame register. Seventeen columns are restored. */
  lemma RowAtPc(section: Word64, begin: Word32, range: Word32, st: CieState, pc: Word64)
    requires Blank(st) && Entry(section, begin) <= pc < Entry(section, begin) + range < 0x1_0000_0000
    ensures var base := Section(begin, range);
            && |base| == 56 && WellFormed(base, 0, 56)
            && var o := Walk(base, 0, 56, st, section, pc);
               && o.Found? && o.at == 24 && o.st.returnColumn == 16 && o.st.width == 17
               && o.row.cfaReg == (if pc <= Entry(section, begin) + 4 then 7 else 6)
               && o.row.cfaOffset == (if pc <= Entry(section, begin) + 1 then 8 else 16)
               && o.row.rules == if pc <= Entry(section, begin) + 1 then map[16 := -8] else map[16 := -8, 6 := -16]
  {
    var fde, base := TheFde(begin, range), Section(begin, range);
    SectionBytes(begin, range);
    assert |base| == 56;
    WalkIsMeaning(base, 0, 56, [CIE, fde], st, section, pc);
    CieRuns(st, pc);
    FdeRuns(Entry(section, begin), pc);
    MeaningIs(section, begin, range, st, pc);
  }

  lemma MeaningIs(section: Word64, begin: Word32, range: Word32, st: CieState, pc: Word64)
    requires Blank(st) && Entry(section, begin) <= pc < Entry(section, begin) + range < 0x1_0000_0000
    requires AllEncodable([CIE, TheFde(begin, range)]) && EncodableRecord(CIE) && |EncodeRecord(CIE, false)| == 24
    requires RunCie(CIE, st, pc) == CieOk(CieState(AT_ENTRY, 17, 1, -8, 16, true))
    ensures var fde := TheFde(begin, range);
            var (s, m, _) := Run(fde.prog, Machine(Entry(section, begin), AT_ENTRY, []), pc, -8);
            Succeeds(s) ==> Meaning([CIE, fde], 0, st, section, pc) == Found(24, CieState(AT_ENTRY, 17, 1, -8, 16, true), m.row)
  {
    var fde := TheFde(begin, range);
    assert [CIE, fde][1..] == [fde];
    assert Start(fde, 24, section) == Entry(section, begin);
    hide EncodeRecord, RunCie, Run, Start, EncodableRecord;
    assert AllEncodable([fde]);
  }

  // ---------------------------------------------------------------- the caller's registers

  /** The machine when it stops at pc in the function that was entered at `start` with the stack
      pointer `sp`: the return address is at sp; behind the push the caller's rbp lies under it; up
      to the move, the stack pointer is where these two instructions leave it; from then on rbp
      points at the saved one, and the stack pointer may be anywhere. */
  ghost predicate Stopped(regs: seq<Word64>, peek: Word64 -> Option<Word64>, start: nat, pc: nat,
                          sp: Word64, rbp: Word64, ra: Word64) {
    && |regs| == 18 && start <= pc && 8 <= sp < 0x1_0000_0000_0000_0000 - 8
    && peek(sp) == Some(ra)
    && (pc > start ==> peek(sp - 8) == Some(rbp))
    && (pc == start ==> regs[7] == sp)
    && (start < pc <= start + 4 ==> regs[7] == sp - 8)
    && regs[6] == if pc < start + 4 then rbp else sp - 8
  }

  /** The row at pc, applied to such a machine. The frame address, the caller's stack pointer, is
      sp + 8 everywhere but at start + 1: there the code still takes the row of the entry, since
      it stops where the location reaches pc, and is 8 too low. */
  lemma FrameAddress(regs: seq<Word64>, peek: Word64 -> Option<Word64>, start: nat, pc: nat, sp: Word64, rbp: Word64, ra: Word64,
                     row: Row)
    requires Stopped(regs, peek, start, pc, sp, rbp, ra)
    requires row.cfaReg == if pc <= start + 4 then 7 else 6
    requires row.cfaOffset == if pc <= start + 1 then 8 else 16
    ensures regs[row.cfaReg] + row.cfaOffset == if pc == start + 1 then sp else sp + 8
  {
  }

  /** What a successful step makes of it. */
  lemma CallerOf(before: seq<Word64>, after: seq<Word64>, peek: Word64 -> Option<Word64>, start: nat, pc: nat,
                 sp: Word64, rbp: Word64, ra: Word64, row: Row, returnAddress: Word64)
    requires Stopped(before, peek, start, pc, sp, rbp, ra)
    requires row.cfaReg == if pc <= start + 4 then 7 else 6
    requires row.cfaOffset == if pc <= start + 1 then 8 else 16
    requires row.rules == if pc <= start + 1 then map[16 := -8] else map[16 := -8, 6 := -16]
    requires CallerInNumbers(before, after, row, 16, 17, returnAddress, peek)
    ensures if pc == start + 1 then after[7] == sp && returnAddress == after[16] == rbp
            else after[7] == sp + 8 && after[6] == rbp && returnAddress == after[16] == ra
    ensures forall c :: 0 <= c < 18 && c !in {6, 7, 16} ==> after[c] == before[c]
  {
    FrameAddress(before, peek, start, pc, sp, rbp, ra, row);
    var cfa := before[row.cfaReg] + row.cfaOffset;
    Restored(before, after, row, returnAddress, peek, cfa, 16);
    if pc > start + 1 {
      Restored(before, after, row, returnAddress, peek, cfa, 6);
    }
  }

  /** A register saved below the frame address, when nothing wraps. */
  lemma Restored(before: seq<Word64>, after: seq<Word64>, row: Row, returnAddress: Word64, peek: Word64 -> Option<Word64>,
                 cfa: int, c: nat)
    requires CallerInNumbers(before, after, row, 16, 17, returnAddress, peek)
    requires c < 17 && c != 7 && c in row.rules && cfa == before[row.cfaReg] + row.cfaOffset
    requires 0 <= cfa < 0x1_0000_0000_0000_0000 && 0 <= cfa + row.rules[c] < 0x1_0000_0000_0000_0000
    ensures peek(cfa + row.rules[c]) == Some(after[c]) && after[7] == cfa
    ensures 16 in row.rules && c == 16 ==> returnAddress == after[16]
  {
  }

  /** And no column it needs is unreadable. */
  lemma NothingUnreadable(before: seq<Word64>, peek: Word64 -> Option<Word64>, start: nat, pc: nat,
                          sp: Word64, rbp: Word64, ra: Word64, row: Row, done: nat)
    requires Stopped(before, peek, start, pc, sp, rbp, ra)
    requires row.cfaReg == if pc <= start + 4 then 7 else 6
    requires row.cfaOffset == if pc <= start + 1 then 8 else 16
    requires row.rules == if pc <= start + 1 then map[16 := -8] else map[16 := -8, 6 := -16]
    requires done in row.rules
    ensures peek((before[row.cfaReg] + row.cfaOffset + row.rules[done]) % 0x1_0000_0000_0000_0000).Some?
  {
    FrameAddress(before, peek, start, pc, sp, rbp, ra, row);
  }

  /** The step from such a machine succeeds. Unless pc is the address behind the push, it gives the
      caller's stack pointer (what it was before the call pushed the return address), the caller's
      rbp and the return address; at that one address it gives a stack pointer that is 8 too low
      and takes the caller's rbp for the return address. */
  method UnwindStandardFrame(heap: Heap, tr: Backtracer, begin: Word32, range: Word32, section: Word64,
                             peek: Word64 -> Option<Word64>, enter: Mapping,
                             ghost sp: Word64, ghost rbp: Word64, ghost ra: Word64)
    returns (ret: int)
    requires tr.Valid() && tr.state == FrameLoop.Running
    requires Entry(section, begin) <= tr.pcOffset < Entry(section, begin) + range < 0x1_0000_0000
    requires Stopped(tr.cfaRegs[..], peek, Entry(section, begin), tr.pcOffset, sp, rbp, ra)
    modifies heap, tr`state, tr`pcOffset, tr.cfaRegs
    ensures ret == 0 && heap.live == old(heap.live) && tr.cfaRegs.Length == 18
    ensures old(tr.pcOffset) != Entry(section, begin) + 1 ==>
              tr.cfaRegs[7] == sp + 8 && tr.cfaRegs[6] == rbp && tr.cfaRegs[16] == ra
    ensures old(tr.pcOffset) == Entry(section, begin) + 1 ==> tr.cfaRegs[7] == sp && tr.cfaRegs[16] == rbp
    ensures forall c :: 0 <= c < 18 && c !in {6, 7, 16} ==> tr.cfaRegs[c] == old(tr.cfaRegs[c])
    ensures var caller := if old(tr.pcOffset) == Entry(section, begin) + 1 then rbp else ra;
            && tr.state == (if enter(caller).Some? && enter(caller).value.0 then FrameLoop.Running else FrameLoop.FrameBottom)
            && tr.pcOffset == (if enter(caller).Some? then enter(caller).value.1 else old(tr.pcOffset))
  {
    hide Stopped, Walk, CallerRegs, CallerFailed, CallerWild, CallerInNumbers, Section, Blank;
    ghost var before, pc, start := tr.cfaRegs[..], tr.pcOffset, Entry(section, begin);
    SectionIsComplete(begin, range);
    ghost var st0, o, done, returnAddress;
    ret, st0, o, done, returnAddress := BacktraceUp(heap, tr, Section(begin, range), 56, section, peek, enter);
    RowAtPc(section, begin, range, st0, pc);
    StoppedHasRegs(before, peek, start, pc, sp, rbp, ra);
    if ret == -1 {
      NothingUnreadable(before, peek, start, pc, sp, rbp, ra, o.row, done);
    } else if ret == 0 {
      CallerOf(before, tr.cfaRegs[..], peek, start, pc, sp, rbp, ra, o.row, returnAddress);
    }
  }

  lemma StoppedHasRegs(regs: seq<Word64>, peek: Word64 -> Option<Word64>, start: nat, pc: nat,
                       sp: Word64, rbp: Word64, ra: Word64)
    requires Stopped(regs, peek, start, pc, sp, rbp, ra)
    ensures |regs| == 18
  {
  }

  lemma SectionIsComplete(begin: Word32, range: Word32)
    ensures |Section(begin, range)| == 56 && WellFormed(Section(begin, range), 0, 56)
  {
    SectionBytes(begin, range);
    assert |Section(begin, range)| == 56;
    SectionWellFormed(Section(begin, range), 0, 56, [CIE, TheFde(begin, range)], ZERO);
  }
}
