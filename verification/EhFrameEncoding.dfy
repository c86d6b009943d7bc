/** Encoded .eh_frame sections: a list of records written out as bytes, against which the walk is
    checked. What the walk does to the bytes is what the list means. */
module EhFrameEncoding {
  import opened Words
  import opened Leb128
  import opened CfaMachine
  import opened CfaEncoding
  import opened EhFrame

  /** The fields of a record that the code looks at, and the bytes it skips (`extra`). An FDE's
      augmentation data is announced by the CIE before it. */
  datatype Record =
    | Cie(augmentation: seq<Byte>, codeAlign: Int32, dataAlign: Int32, returnColumn: Int32, extra: seq<Byte>, prog: seq<Instr>)
    | Fde(id: Word32, begin: Word32, range: Word32, extra: seq<Byte>, prog: seq<Instr>)

  predicate HasZ(augmentation: seq<Byte>) {
    0x7a in augmentation
  }

  predicate EncodableRecord(r: Record) {
    && |r.extra| < TWO31 && (forall i <- r.prog :: Encodable(i))
    && match r
       case Cie(augmentation, code, data, ret, _, _) =>
         0 !in augmentation && SignedOperand(code) && SignedOperand(data) && SignedOperand(ret)
       case Fde(id, _, _, _, _) => id != 0
  }

  // ---------------------------------------------------------------- bytes

  function WordBytes(w: Word32): seq<Byte> {
    [w % 0x100, w / 0x100 % 0x100, w / 0x100 / 0x100 % 0x100, w / 0x100 / 0x100 / 0x100]
  }

  function ExtraBytes(haveAug: bool, extra: seq<Byte>): seq<Byte> {
    if haveAug then EncodeSigned(|extra|) + extra else []
  }

  /** What follows the augmentation string of a CIE, up to its instructions. */
  function CieFields(c: Record): seq<Byte>
    requires c.Cie?
  {
    EncodeSigned(c.codeAlign) + EncodeSigned(c.dataAlign) + EncodeSigned(c.returnColumn)
    + ExtraBytes(HasZ(c.augmentation), c.extra)
  }

  /** A record before its instructions, without its length. */
  function Head(r: Record, haveAug: bool): seq<Byte> {
    match r
    case Cie(augmentation, _, _, _, _, _) => WordBytes(0) + [1] + augmentation + [0] + CieFields(r)
    case Fde(id, begin, range, extra, _) => WordBytes(id) + WordBytes(begin) + WordBytes(range) + ExtraBytes(haveAug, extra)
  }

  function RecordLength(r: Record, haveAug: bool): nat
    requires EncodableRecord(r)
  {
    |Head(r, haveAug)| + |EncodeAll(r.prog)|
  }

  function EncodeRecord(r: Record, haveAug: bool): seq<Byte>
    requires EncodableRecord(r)
  {
    WordBytes(ToWord32(RecordLength(r, haveAug))) + Head(r, haveAug) + EncodeAll(r.prog)
  }

  function AugAfter(r: Record, haveAug: bool): bool {
    if r.Cie? then HasZ(r.augmentation) else haveAug
  }

  predicate AllEncodable(records: seq<Record>) {
    forall r <- records :: EncodableRecord(r)
  }

  function EncodeSection(records: seq<Record>, haveAug: bool): seq<Byte>
    requires AllEncodable(records)
  {
    if records == [] then []
    else EncodeRecord(records[0], haveAug) + EncodeSection(records[1..], AugAfter(records[0], haveAug))
  }

  // ---------------------------------------------------------------- what a list of records means

  function RunCie(c: Record, st: CieState, pc: Word64): (r: CieResult)
    requires c.Cie?
    ensures r.CieOk? ==> r.st.haveAug == AugAfter(c, st.haveAug)
  {
    var start := Machine(0, st.row, []);
    var (s, m, _) := Run(c.prog, start, pc, c.dataAlign);
    var width := Collapsed(RunWidths(c.prog, start, pc, c.dataAlign, [Widened(st.width, c.returnColumn)]));
    if Succeeds(s) then CieOk(CieState(m.row, width, c.codeAlign, c.dataAlign, c.returnColumn, HasZ(c.augmentation)))
    else if s.Unreadable? then CieUnreadable else CieFailed
  }

  /** Where the code range of an FDE at offset `at` starts. */
  function Start(f: Record, at: nat, section: Word64): Word32
    requires f.Fde?
  {
    ToWord32(section + at + 8 + f.begin)
  }

  function RunFde(f: Record, at: nat, st: CieState, section: Word64, pc: Word64): Outcome
    requires f.Fde?
  {
    var (s, m, _) := Run(f.prog, Machine(Start(f, at, section), st.row, []), pc, st.dataAlign);
    if Succeeds(s) then Found(at, st, m.row) else if s.Unreadable? then NotReadable else Failed
  }

  /** Run the CIEs in order; the first FDE that holds pc decides. */
  function Meaning(records: seq<Record>, at: nat, st: CieState, section: Word64, pc: Word64): Outcome
    requires AllEncodable(records)
  {
    if records == [] then NotFound
    else
      var next := at + |EncodeRecord(records[0], st.haveAug)|;
      match records[0]
      case Cie(_, _, _, _, _, _) =>
        var r := RunCie(records[0], st, pc);
        if r.CieOk? then Meaning(records[1..], next, r.st, section, pc) else CieFailure(r)
      case Fde(_, _, range, _, _) =>
        var start := Start(records[0], at, section);
        if start <= pc < ToWord32(start + range) then RunFde(records[0], at, st, section, pc)
        else Meaning(records[1..], next, st, section, pc)
  }

  // ---------------------------------------------------------------- reading at a position

  /** The bytes `x` are in `base` at `at`. */
  predicate IsAt(base: seq<Byte>, at: nat, x: seq<Byte>) {
    at + |x| <= |base| && base[at..at + |x|] == x
  }

  lemma SplitAt(base: seq<Byte>, at: nat, x: seq<Byte>, y: seq<Byte>)
    requires IsAt(base, at, x + y)
    ensures IsAt(base, at, x) && IsAt(base, at + |x|, y)
  {
    var both := base[at..at + |x + y|];
    assert both[..|x|] == x && both[|x|..] == y;
  }

  lemma AroundIt(base: seq<Byte>, at: nat, x: seq<Byte>)
    requires IsAt(base, at, x)
    ensures base == base[..at] + x + base[at + |x|..]
  {
  }

  lemma SignedAt(base: seq<Byte>, at: nat, v: Int32)
    requires SignedOperand(v) && IsAt(base, at, EncodeSigned(v))
    ensures DecodeSigned(base, at) == Read(v, at + |EncodeSigned(v)|)
  {
    hide DecodeSigned, EncodeSigned;
    AroundIt(base, at, EncodeSigned(v));
    SignedOperandRead(base[..at], v, base[at + |EncodeSigned(v)|..]);
  }

  lemma ProgramAt(base: seq<Byte>, at: nat, prog: seq<Instr>)
    requires (forall i <- prog :: Encodable(i)) && IsAt(base, at, EncodeAll(prog))
    ensures Program(base, at, at + |EncodeAll(prog)|) == prog
  {
    hide Program, EncodeAll;
    AroundIt(base, at, EncodeAll(prog));
    ProgramRoundTrip(base[..at], prog, base[at + |EncodeAll(prog)|..]);
  }

  lemma WordOfBytes(w: Word32)
    ensures var b := WordBytes(w); FourBytes(b[0], b[1], b[2], b[3]) == w
  {
    var q1 := w / 0x100;
    var q2 := q1 / 0x100;
    var q3 := q2 / 0x100;
    assert w == w % 0x100 + 0x100 * q1 && q1 == q1 % 0x100 + 0x100 * q2 && q2 == q2 % 0x100 + 0x100 * q3;
  }

  lemma WordAt(base: seq<Byte>, at: nat, w: Word32)
    requires IsAt(base, at, WordBytes(w))
    ensures at + 4 <= |base| && Read4(base, at) == w
  {
    WordOfBytes(w);
    var b := WordBytes(w);
    assert forall k :: 0 <= k < 4 ==> base[at + k] == base[at..at + 4][k] == b[k];
    assert base[at + 0] == b[0];
  }

  lemma {:induction false} AugmentationAt(base: seq<Byte>, cur: nat, augmentation: seq<Byte>, z: bool)
    requires IsAt(base, cur, augmentation + [0]) && 0 !in augmentation
    ensures ScanAugmentation(base, cur, z) == (true, cur + |augmentation| + 1, z || HasZ(augmentation))
    decreases |augmentation|
  {
    var all := augmentation + [0];
    assert base[cur] == base[cur..cur + |all|][0] == all[0];
    if augmentation != [] {
      assert all == [augmentation[0]] + (augmentation[1..] + [0]);
      SplitAt(base, cur, [augmentation[0]], augmentation[1..] + [0]);
      AugmentationAt(base, cur + 1, augmentation[1..], z || augmentation[0] == 0x7a);
    }
  }

  lemma ExtraAt(base: seq<Byte>, cur: nat, haveAug: bool, extra: seq<Byte>)
    requires |extra| < TWO31 && |base| < TWO32 && IsAt(base, cur, ExtraBytes(haveAug, extra))
    ensures SkipAugmentation(base, cur, haveAug) == Read(0, cur + |ExtraBytes(haveAug, extra)|)
  {
    hide DecodeSigned, EncodeSigned;
    if haveAug {
      SplitAt(base, cur, EncodeSigned(|extra|), extra);
      SignedAt(base, cur, |extra|);
    }
  }

  // ---------------------------------------------------------------- records

  /** Three numbers and the augmentation data are read from `cur` on, up to `next`. */
  predicate FieldsAre(base: seq<Byte>, cur: nat, z: bool, codeAlign: Int32, dataAlign: Int32, returnColumn: Int32, next: nat) {
    var code := DecodeSigned(base, cur);
    && code.Read? && code.value == codeAlign
    && var data := DecodeSigned(base, code.next);
       && data.Read? && data.value == dataAlign
       && var ret := DecodeSigned(base, data.next);
          && ret.Read? && ret.value == returnColumn
          && SkipAugmentation(base, ret.next, z) == Read(0, next)
  }

  lemma HeaderFrom(base: seq<Byte>, at: nat, cur: nat, z: bool, codeAlign: Int32, dataAlign: Int32, returnColumn: Int32,
                   next: nat)
    requires ScanAugmentation(base, at + 9, false) == (true, cur, z)
    requires FieldsAre(base, cur, z, codeAlign, dataAlign, returnColumn, next)
    ensures CieHeader(base, at) == Header(codeAlign, dataAlign, returnColumn, z, next)
  {
    hide DecodeSigned, SkipAugmentation, ScanAugmentation;
  }

  /** The three factors and the augmentation data of a CIE. */
  lemma CieFieldsAt(base: seq<Byte>, cur: nat, c: Record)
    requires c.Cie? && EncodableRecord(c) && |base| < TWO32 && IsAt(base, cur, CieFields(c))
    ensures FieldsAre(base, cur, HasZ(c.augmentation), c.codeAlign, c.dataAlign, c.returnColumn, cur + |CieFields(c)|)
  {
    hide DecodeSigned, EncodeSigned, ExtraBytes, HasZ, SkipAugmentation;
    var a, b, r := EncodeSigned(c.codeAlign), EncodeSigned(c.dataAlign), EncodeSigned(c.returnColumn);
    var x := ExtraBytes(HasZ(c.augmentation), c.extra);
    SplitAt(base, cur, a + b + r, x);
    SplitAt(base, cur, a + b, r);
    SplitAt(base, cur, a, b);
    SignedAt(base, cur, c.codeAlign);
    SignedAt(base, cur + |a|, c.dataAlign);
    SignedAt(base, cur + |a| + |b|, c.returnColumn);
    ExtraAt(base, cur + |a| + |b| + |r|, HasZ(c.augmentation), c.extra);
  }

  /** The augmentation string of a CIE, behind its first five bytes. */
  lemma NameAt(base: seq<Byte>, at: nat, front: seq<Byte>, c: Record)
    requires c.Cie? && 0 !in c.augmentation && |front| == 5 && IsAt(base, at + 4, front + (c.augmentation + [0]))
    ensures ScanAugmentation(base, at + 9, false) == (true, at + 10 + |c.augmentation|, HasZ(c.augmentation))
  {
    hide *;
    SplitAt(base, at + 4, front, c.augmentation + [0]);
    AugmentationAt(base, at + 9, c.augmentation, false);
  }

  /** The header, once its two parts are in place. */
  lemma HeaderOfParts(base: seq<Byte>, at: nat, cur: nat, c: Record)
    requires c.Cie? && EncodableRecord(c) && |base| < TWO32 && IsAt(base, cur, CieFields(c))
    requires ScanAugmentation(base, at + 9, false) == (true, cur, HasZ(c.augmentation))
    ensures CieHeader(base, at) == Header(c.codeAlign, c.dataAlign, c.returnColumn, HasZ(c.augmentation), cur + |CieFields(c)|)
  {
    hide *;
    CieFieldsAt(base, cur, c);
    HeaderFrom(base, at, cur, HasZ(c.augmentation), c.codeAlign, c.dataAlign, c.returnColumn, cur + |CieFields(c)|);
  }

  lemma CiePartsAt(base: seq<Byte>, at: nat, front: seq<Byte>, c: Record)
    requires c.Cie? && EncodableRecord(c) && |base| < TWO32 && |front| == 5
    requires IsAt(base, at + 4, front + (c.augmentation + [0]) + CieFields(c))
    ensures CieHeader(base, at) == Header(c.codeAlign, c.dataAlign, c.returnColumn, HasZ(c.augmentation),
                                          at + 10 + |c.augmentation| + |CieFields(c)|)
  {
    hide *;
    var name := front + (c.augmentation + [0]);
    SplitAt(base, at + 4, name, CieFields(c));
    NoNulInName(c);
    NameAt(base, at, front, c);
    assert |name| == 6 + |c.augmentation|;
    HeaderOfParts(base, at, at + 4 + |name|, c);
  }

  lemma NoNulInName(c: Record)
    requires c.Cie? && EncodableRecord(c)
    ensures 0 !in c.augmentation
  {
  }

  /** The header of an encoded CIE is read field by field, and the cursor is at its instructions. */
  lemma CieHeaderAt(base: seq<Byte>, at: nat, c: Record, haveAug: bool)
    requires c.Cie? && EncodableRecord(c) && |base| < TWO32 && IsAt(base, at + 4, Head(c, haveAug))
    ensures CieHeader(base, at) == Header(c.codeAlign, c.dataAlign, c.returnColumn, HasZ(c.augmentation),
                                          at + 4 + |Head(c, haveAug)|)
  {
    hide *;
    HeadOfCie(c, haveAug);
    CiePartsAt(base, at, WordBytes(0) + [1], c);
  }

  lemma HeadOfCie(c: Record, haveAug: bool)
    requires c.Cie?
    ensures Head(c, haveAug) == (WordBytes(0) + [1]) + (c.augmentation + [0]) + CieFields(c) && |WordBytes(0) + [1]| == 5
  {
    hide CieFields;
  }

  /** Length, kind and instructions of an encoded record are read back, and it is complete. */
  lemma RecordAt(base: seq<Byte>, at: nat, r: Record, haveAug: bool)
    requires EncodableRecord(r) && |base| < TWO32 && IsAt(base, at, EncodeRecord(r, haveAug))
    ensures var n := |EncodeRecord(r, haveAug)|;
            && at + 8 <= at + n <= |base| && IsAt(base, at + 4, Head(r, haveAug))
            && Read4(base, at) == n - 4 > 0 && Next(base, at) == at + n
            && (IsFde(base, at) <==> r.Fde?) && (r.Fde? ==> n >= 16)
            && Program(base, at + 4 + |Head(r, haveAug)|, at + Read4(base, at) + 4) == r.prog
  {
    hide Program, EncodeAll, Read4, ExtraBytes, CieFields, WordBytes;
    var head, code := Head(r, haveAug), EncodeAll(r.prog);
    var length, id := WordBytes(ToWord32(RecordLength(r, haveAug))), WordBytes(if r.Cie? then 0 else r.id);
    FourBytesLong(ToWord32(RecordLength(r, haveAug)));
    FourBytesLong(if r.Cie? then 0 else r.id);
    SplitAt(base, at, length + head, code);
    SplitAt(base, at, length, head);
    HeadStartsWithId(r, haveAug);
    SplitAt(base, at + 4, id, head[4..]);
    WordAt(base, at, ToWord32(RecordLength(r, haveAug)));
    WordAt(base, at + 4, if r.Cie? then 0 else r.id);
    ProgramAt(base, at + 4 + |head|, r.prog);
  }

  lemma FourBytesLong(w: Word32)
    ensures |WordBytes(w)| == 4
  {
  }

  lemma HeadStartsWithId(r: Record, haveAug: bool)
    ensures var id := WordBytes(if r.Cie? then 0 else r.id);
            |Head(r, haveAug)| >= 4 && Head(r, haveAug) == id + Head(r, haveAug)[4..] && (r.Fde? ==> |Head(r, haveAug)| >= 12)
  {
    hide CieFields, ExtraBytes;
  }

  /** An encoded CIE does to the state what the CIE means. */
  lemma CieRuns(base: seq<Byte>, at: nat, c: Record, st: CieState, pc: Word64)
    requires c.Cie? && EncodableRecord(c) && |base| < TWO32 && IsAt(base, at, EncodeRecord(c, st.haveAug))
    ensures at + 4 <= |base| && ExecCie(base, at, st, pc) == RunCie(c, st, pc)
  {
    hide Program, Run, RunWidths, CieHeader, Read4, EncodeRecord, Head, HasZ, IsAt;
    RecordAt(base, at, c, st.haveAug);
    CieHeaderAt(base, at, c, st.haveAug);
  }

  /** The locations of a CIE's own instructions count from 0: what follows an advance by d applies
      only to a pc above d. */
  lemma CieCountsFromZero(base: seq<Byte>, at: nat, c: Record, st: CieState, pc: Word64, d: nat, v: Int32)
    requires c.Cie? && EncodableRecord(c) && |base| < TWO32 && IsAt(base, at, EncodeRecord(c, st.haveAug))
    requires c.prog == [Advance(d), DefCfaOffset(v)]
    ensures at + 4 <= |base| && ExecCie(base, at, st, pc).CieOk?
    ensures ExecCie(base, at, st, pc).st.row.cfaOffset == if d < pc then v else st.row.cfaOffset
  {
    CieRuns(base, at, c, st, pc);
    OffsetBehindAdvance(Machine(0, st.row, []), d, v, pc, c.dataAlign);
    hide ExecCie, EncodeRecord, IsAt, EncodableRecord, Run, RunWidths, Collapsed, HasZ;
  }

  lemma OffsetBehindAdvance(m: Machine, d: nat, v: Int32, pc: nat, dataAlign: Int32)
    ensures var (s, m', _) := Run([Advance(d), DefCfaOffset(v)], m, pc, dataAlign);
            Succeeds(s) && m'.row.cfaOffset == if m.loc + d < pc then v else m.row.cfaOffset
  {
    var rest := [DefCfaOffset(v)];
    assert [Advance(d), DefCfaOffset(v)] == [Advance(d)] + rest && rest == rest + [];
    if m.loc + d >= pc {
      RunStops(d, rest, m, pc, dataAlign);
    } else {
      RunStep(Advance(d), rest, m, pc, dataAlign);
      RunStep(DefCfaOffset(v), [], m.(loc := m.loc + d), pc, dataAlign);
    }
  }

  /** An encoded FDE has the range and the effect the FDE means. */
  lemma FdeRuns(base: seq<Byte>, at: nat, f: Record, st: CieState, section: Word64, pc: Word64)
    requires f.Fde? && EncodableRecord(f) && |base| < TWO32 && IsAt(base, at, EncodeRecord(f, st.haveAug))
    ensures at + 16 <= |base|
    ensures FdeHolds(base, at, section, pc) <==>
            Start(f, at, section) <= pc < ToWord32(Start(f, at, section) + f.range)
    ensures ExecFde(base, at, st, section, pc) == RunFde(f, at, st, section, pc)
  {
    hide Program, Run, Read4, EncodeRecord, WordBytes, ExtraBytes, SkipAugmentation;
    RecordAt(base, at, f, st.haveAug);
    FourBytesLong(f.id);
    FourBytesLong(f.begin);
    FourBytesLong(f.range);
    var x := ExtraBytes(st.haveAug, f.extra);
    SplitAt(base, at + 4, WordBytes(f.id) + WordBytes(f.begin) + WordBytes(f.range), x);
    SplitAt(base, at + 4, WordBytes(f.id) + WordBytes(f.begin), WordBytes(f.range));
    SplitAt(base, at + 4, WordBytes(f.id), WordBytes(f.begin));
    WordAt(base, at + 8, f.begin);
    WordAt(base, at + 12, f.range);
    ExtraAt(base, at + 16, st.haveAug, f.extra);
  }

  // ---------------------------------------------------------------- sections

  /** From `at` on the section is the encoding of `records`, and then it ends: by its length or by
      a record of length 0. */
  predicate EncodedAt(base: seq<Byte>, at: nat, length: nat, records: seq<Record>, haveAug: bool) {
    && AllEncodable(records)
    && length <= |base| < TWO32 && IsAt(base, at, EncodeSection(records, haveAug))
    && var end := at + |EncodeSection(records, haveAug)|;
       end == length || (end + 4 <= length && Read4(base, end) == 0)
  }

  lemma FirstRecord(base: seq<Byte>, at: nat, length: nat, records: seq<Record>, haveAug: bool)
    requires EncodedAt(base, at, length, records, haveAug) && records != []
    ensures EncodableRecord(records[0]) && AllEncodable(records[1..])
    ensures at < length <= |base| < TWO32 && IsAt(base, at, EncodeRecord(records[0], haveAug))
    ensures var next := at + |EncodeRecord(records[0], haveAug)|;
            next <= length && EncodedAt(base, next, length, records[1..], AugAfter(records[0], haveAug))
  {
    hide Head, EncodeAll, IsAt, AugAfter, Read4, EncodableRecord;
    SplitAt(base, at, EncodeRecord(records[0], haveAug), EncodeSection(records[1..], AugAfter(records[0], haveAug)));
    assert |EncodeRecord(records[0], haveAug)| >= 4;
  }

  /** Behind the last record the walk stops. */
  lemma SectionEnd(base: seq<Byte>, at: nat, length: nat, st: CieState, section: Word64, pc: Word64)
    requires EncodedAt(base, at, length, [], st.haveAug)
    ensures length <= |base| && WellFormed(base, at, length)
    ensures Walk(base, at, length, st, section, pc) == NotFound
  {
    hide IsAt, Read4;
    assert EncodeSection([], st.haveAug) == [];
  }

  /** Encoded sections are the complete sections the walk is specified on. */
  lemma {:induction false} SectionWellFormed(base: seq<Byte>, at: nat, length: nat, records: seq<Record>, st: CieState)
    requires EncodedAt(base, at, length, records, st.haveAug)
    ensures length <= |base| && WellFormed(base, at, length)
    decreases |records|
  {
    hide *;
    if records == [] {
      SectionEnd(base, at, length, st, 0, 0);
    } else {
      FirstRecord(base, at, length, records, st.haveAug);
      RecordAt(base, at, records[0], st.haveAug);
      var next := at + |EncodeRecord(records[0], st.haveAug)|;
      SectionWellFormed(base, next, length, records[1..], st.(haveAug := AugAfter(records[0], st.haveAug)));
      OneMoreRecord(base, at, length);
    }
  }

  lemma OneMoreRecord(base: seq<Byte>, at: nat, length: nat)
    requires at + 8 <= length <= |base| < TWO32 && 4 <= Read4(base, at) && at + 4 + Read4(base, at) <= length
    requires IsFde(base, at) ==> 12 <= Read4(base, at)
    requires WellFormed(base, Next(base, at), length)
    ensures WellFormed(base, at, length)
  {
    hide Read4;
  }

  /** One record of the walk. */
  lemma WalkOne(base: seq<Byte>, at: nat, next: nat, length: nat, r: Record, st: CieState, section: Word64, pc: Word64)
    requires EncodableRecord(r) && at < length <= |base| < TWO32
    requires IsAt(base, at, EncodeRecord(r, st.haveAug)) && next == at + |EncodeRecord(r, st.haveAug)|
    requires WellFormed(base, at, length) && WellFormed(base, next, length)
    ensures Walk(base, at, length, st, section, pc) ==
            match r
            case Cie(_, _, _, _, _, _) =>
              (var result := RunCie(r, st, pc);
               if result.CieOk? then Walk(base, next, length, result.st, section, pc) else CieFailure(result))
            case Fde(_, _, range, _, _) =>
              (var start := Start(r, at, section);
               if start <= pc < ToWord32(start + range) then RunFde(r, at, st, section, pc)
               else Walk(base, next, length, st, section, pc))
  {
    hide ExecCie, ExecFde, RunCie, RunFde, FdeHolds, EncodeRecord, EncodableRecord, Read4, HasZ, Start, Head, EncodeAll;
    RecordAt(base, at, r, st.haveAug);
    if r.Cie? {
      CieRuns(base, at, r, st, pc);
    } else {
      FdeRuns(base, at, r, st, section, pc);
    }
  }

  /** One record of the meaning. */
  lemma MeaningOne(records: seq<Record>, at: nat, st: CieState, section: Word64, pc: Word64)
    requires records != [] && EncodableRecord(records[0]) && AllEncodable(records) && AllEncodable(records[1..])
    ensures var r, next := records[0], at + |EncodeRecord(records[0], st.haveAug)|;
            Meaning(records, at, st, section, pc) ==
            match r
            case Cie(_, _, _, _, _, _) =>
              (var result := RunCie(r, st, pc);
               if result.CieOk? then Meaning(records[1..], next, result.st, section, pc) else CieFailure(result))
            case Fde(_, _, range, _, _) =>
              (var start := Start(r, at, section);
               if start <= pc < ToWord32(start + range) then RunFde(r, at, st, section, pc)
               else Meaning(records[1..], next, st, section, pc))
  {
    hide RunCie, RunFde, EncodeRecord, EncodableRecord, AllEncodable, Start, CieFailure;
  }

  lemma RecordsAreEncodable(base: seq<Byte>, at: nat, length: nat, records: seq<Record>, haveAug: bool)
    requires EncodedAt(base, at, length, records, haveAug)
    ensures AllEncodable(records)
  {
  }

  /** The walk over the bytes of an encoded section gives what the list of its records means, from
      any state that agrees with the encoding on whether augmentation data is present. */
  lemma {:induction false} WalkIsMeaning(base: seq<Byte>, at: nat, length: nat, records: seq<Record>, st: CieState,
                                         section: Word64, pc: Word64)
    requires EncodedAt(base, at, length, records, st.haveAug)
    ensures length <= |base| && WellFormed(base, at, length)
    ensures AllEncodable(records)
    ensures Walk(base, at, length, st, section, pc) == Meaning(records, at, st, section, pc)
    decreases |records|
  {
    hide *;
    RecordsAreEncodable(base, at, length, records, st.haveAug);
    SectionWellFormed(base, at, length, records, st);
    if records == [] {
      SectionEnd(base, at, length, st, section, pc);
      MeaningOfNothing(at, st, section, pc);
    } else {
      FirstRecord(base, at, length, records, st.haveAug);
      var r, next := records[0], at + |EncodeRecord(records[0], st.haveAug)|;
      SectionWellFormed(base, next, length, records[1..], st.(haveAug := AugAfter(r, st.haveAug)));
      WalkOne(base, at, next, length, r, st, section, pc);
      MeaningOne(records, at, st, section, pc);
      if r.Cie? {
        var result := RunCie(r, st, pc);
        if result.CieOk? {
          WalkIsMeaning(base, next, length, records[1..], result.st, section, pc);
        }
      } else {
        FdeKeepsAug(r, st.haveAug);
        WalkIsMeaning(base, next, length, records[1..], st, section, pc);
      }
    }
  }

  lemma MeaningOfNothing(at: nat, st: CieState, section: Word64, pc: Word64)
    ensures Meaning([], at, st, section, pc) == NotFound
  {
  }

  lemma FdeKeepsAug(f: Record, haveAug: bool)
    requires f.Fde?
    ensures AugAfter(f, haveAug) == haveAug
  {
  }
}
