/** Encodings of the call-frame instructions (section 7.23 of DWARF 4), against which the decoder
    is checked. Operands the code reads as signed are encoded as signed. */
module CfaEncoding {
  import opened Words
  import opened Leb128
  import opened CfaMachine

  predicate SignedOperand(v: int) {
    -0x800_0000 <= v < 0x8000_0000
  }

  /** The instructions that have an encoding: operands in the range their reader covers. */
  predicate Encodable(i: Instr) {
    match i
    case Advance(delta) => delta < 0x1_0000
    case Offset(reg, off) => reg < 0x40 && SignedOperand(off)
    case DefCfa(reg, off) => SignedOperand(reg) && SignedOperand(off)
    case DefCfaRegister(reg) => true
    case DefCfaOffset(off) => true
    case Undef(column) => true
    case Remember => true
    case Restore(opc) => opc == 0x0b
    case Nop => true
    case Unknown(_) => false
    case Wild => false
  }

  /** The opcodes are the numbers of the standard's table. */
  function Encode(i: Instr): seq<Byte>
    requires Encodable(i)
  {
    match i
    case Advance(delta) =>
      if delta < 0x40 then [0x40 + delta]
      else if delta < 0x100 then [0x02, delta]
      else [0x03, delta % 0x100, delta / 0x100]
    case Offset(reg, off) => [0x80 + reg] + EncodeSigned(off)
    case DefCfa(reg, off) => [0x0c] + EncodeSigned(reg) + EncodeSigned(off)
    case DefCfaRegister(reg) => [0x0d] + EncodeUnsigned(ToWord32(reg))
    case DefCfaOffset(off) => [0x0e] + EncodeUnsigned(ToWord32(off))
    case Undef(column) => [0x07] + EncodeUnsigned(ToWord32(column))
    case Remember => [0x0a]
    case Restore(_) => [0x0b]
    case Nop => [0x00]
  }

  function EncodeAll(prog: seq<Instr>): seq<Byte>
    requires forall i <- prog :: Encodable(i)
  {
    if prog == [] then [] else Encode(prog[0]) + EncodeAll(prog[1..])
  }

  lemma UnsignedOperand(pre: seq<Byte>, v: Int32, suffix: seq<Byte>)
    ensures DecodeUnsigned(pre + EncodeUnsigned(ToWord32(v)) + suffix, |pre|)
         == Read(v, |pre| + |EncodeUnsigned(ToWord32(v))|)
  {
    hide EncodeUnsigned, DecodeUnsigned, ToWord32;
    UnsignedRoundTrip(pre, ToWord32(v), suffix);
    var r := DecodeUnsigned(pre + EncodeUnsigned(ToWord32(v)) + suffix, |pre|);
    SameWordSameInt(r.value, v);
  }

  lemma SameWordSameInt(a: Int32, b: Int32)
    requires ToWord32(a) == ToWord32(b)
    ensures a == b
  {
  }

  lemma SignedOperandRead(pre: seq<Byte>, v: Int32, suffix: seq<Byte>)
    requires SignedOperand(v)
    ensures DecodeSigned(pre + EncodeSigned(v) + suffix, |pre|) == Read(v, |pre| + |EncodeSigned(v)|)
  {
    SignedRoundTrip(pre, v, suffix);
  }

  lemma FetchesBareOpcode(pre: seq<Byte>, i: Instr, suffix: seq<Byte>)
    requires Encodable(i) && (i.Advance? || i.Remember? || i.Restore? || i.Nop?)
    ensures Fetch(pre + Encode(i) + suffix, |pre|) == (i, |pre| + |Encode(i)|)
  {
    hide DecodeSigned, DecodeUnsigned;
  }

  lemma FetchesUnsignedOperand(pre: seq<Byte>, i: Instr, suffix: seq<Byte>)
    requires i.DefCfaRegister? || i.DefCfaOffset? || i.Undef?
    ensures Fetch(pre + Encode(i) + suffix, |pre|) == (i, |pre| + |Encode(i)|)
  {
    hide DecodeSigned, DecodeUnsigned, EncodeUnsigned, ToWord32;
    var (opc, v) :=
      match i
      case DefCfaRegister(reg) => (0x0d, reg)
      case DefCfaOffset(off) => (0x0e, off)
      case Undef(column) => (0x07, column);
    var base := pre + Encode(i) + suffix;
    assert base == (pre + [opc]) + EncodeUnsigned(ToWord32(v)) + suffix;
    UnsignedOperand(pre + [opc], v, suffix);
  }

  lemma FetchesOffset(pre: seq<Byte>, reg: nat, off: Int32, suffix: seq<Byte>)
    requires Encodable(Offset(reg, off))
    ensures Fetch(pre + Encode(Offset(reg, off)) + suffix, |pre|) == (Offset(reg, off), |pre| + |Encode(Offset(reg, off))|)
  {
    hide DecodeSigned, DecodeUnsigned, EncodeSigned;
    var head := pre + [0x80 + reg];
    assert pre + Encode(Offset(reg, off)) + suffix == head + EncodeSigned(off) + suffix;
    SignedOperandRead(head, off, suffix);
  }

  lemma FetchesDefCfa(pre: seq<Byte>, reg: Int32, off: Int32, suffix: seq<Byte>)
    requires Encodable(DefCfa(reg, off))
    ensures Fetch(pre + Encode(DefCfa(reg, off)) + suffix, |pre|) == (DefCfa(reg, off), |pre| + |Encode(DefCfa(reg, off))|)
  {
    hide DecodeSigned, DecodeUnsigned, EncodeSigned;
    var base, head := pre + Encode(DefCfa(reg, off)) + suffix, pre + [0x0c];
    assert base == head + EncodeSigned(reg) + (EncodeSigned(off) + suffix);
    SignedOperandRead(head, reg, EncodeSigned(off) + suffix);
    assert base == (head + EncodeSigned(reg)) + EncodeSigned(off) + suffix;
    SignedOperandRead(head + EncodeSigned(reg), off, suffix);
  }

  /** Decoding inverts encoding, in any context. */
  lemma FetchInvertsEncode(pre: seq<Byte>, i: Instr, suffix: seq<Byte>)
    requires Encodable(i)
    ensures Fetch(pre + Encode(i) + suffix, |pre|) == (i, |pre| + |Encode(i)|)
  {
    hide Fetch, Encode;
    if i.Offset? {
      FetchesOffset(pre, i.reg, i.factored, suffix);
    } else if i.DefCfa? {
      FetchesDefCfa(pre, i.cfaReg, i.cfaOffset, suffix);
    } else if i.DefCfaRegister? || i.DefCfaOffset? || i.Undef? {
      FetchesUnsignedOperand(pre, i, suffix);
    } else {
      FetchesBareOpcode(pre, i, suffix);
    }
  }

  /** The interpreter executes exactly the program that was encoded. */
  lemma {:induction false} ProgramRoundTrip(pre: seq<Byte>, prog: seq<Instr>, suffix: seq<Byte>)
    requires forall i <- prog :: Encodable(i)
    ensures Program(pre + EncodeAll(prog) + suffix, |pre|, |pre| + |EncodeAll(prog)|) == prog
    decreases |prog|
  {
    hide Fetch, Encode;
    if prog != [] {
      var first, rest := Encode(prog[0]), EncodeAll(prog[1..]);
      var base := pre + EncodeAll(prog) + suffix;
      assert base == pre + first + (rest + suffix) == (pre + first) + rest + suffix;
      FetchInvertsEncode(pre, prog[0], rest + suffix);
      ProgramRoundTrip(pre + first, prog[1..], suffix);
    }
  }

  // ---------------------------------------------------------------- the table of opcodes

  /** Instructions without operands: advances by less than 64, `DW_CFA_nop`, every compact restore
      (which does nothing), `DW_CFA_remember_state` and `DW_CFA_restore_state`. */
  lemma DecodesSingleBytes(pre: seq<Byte>, low: nat, suffix: seq<Byte>)
    requires low < 0x40
    ensures Fetch(pre + [0x40 + low] + suffix, |pre|) == (Advance(low), |pre| + 1)
    ensures Fetch(pre + [0xc0 + low] + suffix, |pre|) == (Nop, |pre| + 1)
    ensures Fetch(pre + [0x00] + suffix, |pre|) == (Nop, |pre| + 1)
    ensures Fetch(pre + [0x0a] + suffix, |pre|) == (Remember, |pre| + 1)
    ensures Fetch(pre + [0x0b] + suffix, |pre|) == (Restore(0x0b), |pre| + 1)
  {
    hide DecodeSigned, DecodeUnsigned;
  }

  /** The two longer advances, the second with a little-endian operand; cut off, they are wild. */
  lemma DecodesAdvances(pre: seq<Byte>, low: Byte, high: Byte, suffix: seq<Byte>)
    ensures Fetch(pre + [0x02, low] + suffix, |pre|) == (Advance(low), |pre| + 2)
    ensures Fetch(pre + [0x03, low, high] + suffix, |pre|) == (Advance(low + 256 * high), |pre| + 3)
    ensures Fetch(pre + [0x02], |pre|).0 == Fetch(pre + [0x03, low], |pre|).0 == Fetch(pre, |pre|).0 == Wild
  {
    hide DecodeSigned, DecodeUnsigned;
  }

  /** `DW_CFA_def_cfa_offset`, `DW_CFA_def_cfa_register` and `DW_CFA_undefined`: an unsigned
      operand, stored in an `int`. */
  lemma DecodesUnsignedOperands(pre: seq<Byte>, v: Int32, suffix: seq<Byte>)
    ensures var x := EncodeUnsigned(ToWord32(v));
            && Fetch(pre + ([0x0e] + x) + suffix, |pre|) == (DefCfaOffset(v), |pre| + 1 + |x|)
            && Fetch(pre + ([0x0d] + x) + suffix, |pre|) == (DefCfaRegister(v), |pre| + 1 + |x|)
            && Fetch(pre + ([0x07] + x) + suffix, |pre|) == (Undef(v), |pre| + 1 + |x|)
  {
    hide Fetch, DecodeUnsigned, EncodeUnsigned, ToWord32;
    FetchesUnsignedOperand(pre, DefCfaOffset(v), suffix);
    FetchesUnsignedOperand(pre, DefCfaRegister(v), suffix);
    FetchesUnsignedOperand(pre, Undef(v), suffix);
  }

  /** `DW_CFA_offset` for each register, and `DW_CFA_register`, which the code takes to set the CFA
      register: a signed operand. */
  lemma DecodesSignedOperands(pre: seq<Byte>, reg: nat, v: Int32, suffix: seq<Byte>)
    requires reg < 0x40 && SignedOperand(v)
    ensures var x := EncodeSigned(v);
            && Fetch(pre + ([0x80 + reg] + x) + suffix, |pre|) == (Offset(reg, v), |pre| + 1 + |x|)
            && Fetch(pre + ([0x09] + x) + suffix, |pre|) == (DefCfaRegister(v), |pre| + 1 + |x|)
  {
    hide DecodeSigned, DecodeUnsigned, EncodeSigned;
    FetchesOffset(pre, reg, v, suffix);
    var x := EncodeSigned(v);
    assert pre + ([0x09] + x) + suffix == (pre + [0x09]) + x + suffix;
    SignedOperandRead(pre + [0x09], v, suffix);
  }

  /** `DW_CFA_def_cfa`: the register comes first, then the offset. */
  lemma DecodesDefCfa(pre: seq<Byte>, reg: Int32, off: Int32, suffix: seq<Byte>)
    requires SignedOperand(reg) && SignedOperand(off)
    ensures var x := EncodeSigned(reg) + EncodeSigned(off);
            Fetch(pre + ([0x0c] + x) + suffix, |pre|) == (DefCfa(reg, off), |pre| + 1 + |x|)
  {
    hide Fetch, DecodeSigned, EncodeSigned;
    var x := EncodeSigned(reg) + EncodeSigned(off);
    assert [0x0c] + x == [0x0c] + EncodeSigned(reg) + EncodeSigned(off);
    FetchesDefCfa(pre, reg, off, suffix);
  }

  /** Every other opcode is one the code gives up at. */
  lemma DecodesNothingElse(pre: seq<Byte>, opc: Byte, suffix: seq<Byte>)
    requires opc < 0x40 && opc !in {0x00, 0x02, 0x03, 0x07, 0x09, 0x0a, 0x0b, 0x0c, 0x0d, 0x0e}
    ensures Fetch(pre + [opc] + suffix, |pre|) == (Unknown(opc), |pre| + 1)
  {
    hide DecodeSigned, DecodeUnsigned;
  }
}
