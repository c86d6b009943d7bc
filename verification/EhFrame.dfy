/** The records of an .eh_frame section as `ATR_backtrace_up` (anytrace/atr-backtrace.c) reads
    them: which record is visited when, and which frame description is executed on what state. */
module EhFrame {
  import opened Words
  import opened Leb128
  import opened CfaMachine

  /** `read4` on a little-endian machine. */
  function Read4(base: seq<Byte>, at: nat): Word32
    requires at + 4 <= |base|
  {
    FourBytes(base[at], base[at + 1], base[at + 2], base[at + 3])
  }

  function FourBytes(b0: Byte, b1: Byte, b2: Byte, b3: Byte): Word32 {
    var x0: int, x1: int, x2: int, x3: int := b0, b1, b2, b3;
    x0 + 0x100 * x1 + 0x1_0000 * x2 + 0x100_0000 * x3
  }

  // ---------------------------------------------------------------- tiling

  /** The record at `at` lies inside the section, its header inside the record. */
  predicate CompleteRecord(base: seq<Byte>, at: nat, length: nat)
    requires length <= |base|
  {
    && at + 4 <= length
    && (Read4(base, at) != 0 ==>
          && 4 <= Read4(base, at) < TWO32 - 4 && at + 4 + Read4(base, at) <= length
          && (IsFde(base, at) ==> 12 <= Read4(base, at)))
  }

  predicate IsFde(base: seq<Byte>, at: nat)
    requires at + 8 <= |base|
  {
    Read4(base, at + 4) != 0
  }

  /** From `at` on the section is a sequence of complete records, ended by its own end or by a
      record of length 0. */
  predicate WellFormed(base: seq<Byte>, at: nat, length: nat)
    requires length <= |base|
    decreases length - at
  {
    at < length ==>
      && CompleteRecord(base, at, length)
      && (Read4(base, at) != 0 ==> WellFormed(base, Next(base, at), length))
  }

  /** `cur += length + 4`, with the addition of 4 in 32 bits. */
  function Next(base: seq<Byte>, at: nat): (n: nat)
    requires at + 4 <= |base|
    ensures Read4(base, at) < TWO32 - 4 ==> n == at + 4 + Read4(base, at)
  {
    at + ToWord32(Read4(base, at) + 4)
  }

  /** Why complete records are demanded: a length whose + 4 wraps to 0 makes no progress. */
  lemma WrappingLengthStalls(base: seq<Byte>, at: nat)
    requires at + 4 <= |base|
    ensures Next(base, at) == at <==> Read4(base, at) == 0xffff_fffc
  {
  }

  /** The records the walk looks at, unless it stops early. */
  function Visited(base: seq<Byte>, at: nat, length: nat): seq<nat>
    requires length <= |base| && WellFormed(base, at, length)
    decreases length - at
  {
    if at >= length || Read4(base, at) == 0 then []
    else [at] + Visited(base, Next(base, at), length)
  }

  /** They tile a prefix of the section: the first starts at the start, each next one where the
      one before it ends, and the last ends inside the section. */
  lemma {:induction false} VisitedTile(base: seq<Byte>, at: nat, length: nat)
    requires length <= |base| && WellFormed(base, at, length)
    ensures var v := Visited(base, at, length);
            && (v != [] ==> v[0] == at)
            && (forall k :: 0 <= k < |v| ==> at <= v[k] && v[k] + 8 <= v[k] + 4 + Read4At(base, v[k]) <= length)
            && (forall k :: 0 < k < |v| ==> v[k] == v[k - 1] + 4 + Read4At(base, v[k - 1]))
    decreases length - at
  {
    if at < length && Read4(base, at) != 0 {
      VisitedTile(base, Next(base, at), length);
    }
  }

  function Read4At(base: seq<Byte>, at: nat): Word32 {
    if at + 4 <= |base| then Read4(base, at) else 0
  }

  // ---------------------------------------------------------------- common information entries

  /** What the CIEs read so far have left in `exec_env` and `have_aug`. */
  datatype CieState = CieState(row: Row, width: nat, codeAlign: Int32, dataAlign: Int32, returnColumn: Int32, haveAug: bool)

  datatype Header = Header(codeAlign: Int32, dataAlign: Int32, returnColumn: Int32, haveAug: bool, next: nat) | NoHeader

  /** The augmentation string from `cur` on: the cursor past its NUL, and whether it holds a 'z'. */
  function ScanAugmentation(base: seq<Byte>, cur: nat, z: bool): (r: (bool, nat, bool))
    ensures r.0 ==> cur < r.1 <= |base|
    decreases |base| - cur
  {
    if cur >= |base| then (false, cur, z)
    else if base[cur] == 0 then (true, cur + 1, z)
    else ScanAugmentation(base, cur + 1, z || base[cur] == 0x7a)
  }

  /** The string ends at the first NUL there is, and the flag says whether a 'z' comes before it;
      the scan is lost exactly when there is no NUL. */
  lemma {:induction false} ScanFindsNul(base: seq<Byte>, cur: nat, z: bool)
    requires cur <= |base|
    ensures var (ok, next, flag) := ScanAugmentation(base, cur, z);
            if ok then
              var name := base[cur..next - 1];
              base[next - 1] == 0 && 0 !in name && (flag <==> z || 0x7a in name)
            else 0 !in base[cur..]
    decreases |base| - cur
  {
    if cur < |base| && base[cur] != 0 {
      ScanFindsNul(base, cur + 1, z || base[cur] == 0x7a);
      var (ok, next, _) := ScanAugmentation(base, cur, z);
      if ok {
        assert base[cur..next - 1] == [base[cur]] + base[cur + 1..next - 1];
      } else {
        assert base[cur..] == [base[cur]] + base[cur + 1..];
      }
    }
  }

  /** Skip the augmentation data when there is any; the length is added in 32 bits. */
  function SkipAugmentation(base: seq<Byte>, cur: nat, haveAug: bool): ReadResult {
    if !haveAug then Read(0, cur)
    else
      var n := DecodeSigned(base, cur);
      if n.Undefined? then Undefined else Read(0, ToWord32(n.next + ToWord32(n.value)))
  }

  function CieHeader(base: seq<Byte>, at: nat): Header {
    var (ok, cur, z) := ScanAugmentation(base, at + 9, false);
    if !ok then NoHeader
    else
      var code := DecodeSigned(base, cur);
      if code.Undefined? then NoHeader else
        var data := DecodeSigned(base, code.next);
        if data.Undefined? then NoHeader else
          var ret := DecodeSigned(base, data.next);
          if ret.Undefined? then NoHeader else
            var skip := SkipAugmentation(base, ret.next, z);
            if skip.Undefined? then NoHeader
            else Header(code.value, data.value, ret.value, z, skip.next)
  }

  datatype CieResult = CieOk(st: CieState) | CieFailed | CieUnreadable

  /** Execute a CIE on what the CIEs before it left. Rules and columns accumulate, factors are
      replaced, and the return column gets a slot. */
  function ExecCie(base: seq<Byte>, at: nat, st: CieState, pc: Word64): CieResult
    requires at + 4 <= |base|
  {
    var h := CieHeader(base, at);
    if h.NoHeader? then CieUnreadable
    else
      var prog, start := Program(base, h.next, at + Read4(base, at) + 4), Machine(0, st.row, []);
      var (s, m, _) := Run(prog, start, pc, h.dataAlign);
      var width := Collapsed(RunWidths(prog, start, pc, h.dataAlign, [Widened(st.width, h.returnColumn)]));
      if Succeeds(s) then CieOk(CieState(m.row, width, h.codeAlign, h.dataAlign, h.returnColumn, h.haveAug))
      else if s.Unreadable? then CieUnreadable else CieFailed
  }

  // ---------------------------------------------------------------- frame description entries

  /** The 32-bit start of the code range an FDE describes; its pointer is relative to itself. */
  function FdeBegin(base: seq<Byte>, at: nat, section: Word64): Word32
    requires at + 16 <= |base|
  {
    ToWord32(section + at + 8 + Read4(base, at + 8))
  }

  predicate FdeHolds(base: seq<Byte>, at: nat, section: Word64, pc: Word64) {
    && at + 16 <= |base| && IsFde(base, at)
    && FdeBegin(base, at, section) <= pc < ToWord32(FdeBegin(base, at, section) + Read4(base, at + 12))
  }

  datatype Outcome = Found(at: nat, st: CieState, row: Row) | NotFound | Failed | NotReadable

  function ExecFde(base: seq<Byte>, at: nat, st: CieState, section: Word64, pc: Word64): (o: Outcome)
    requires at + 16 <= |base|
    ensures o.Found? ==> o.at == at && o.st == st
  {
    var skip := SkipAugmentation(base, at + 16, st.haveAug);
    if skip.Undefined? then NotReadable
    else
      var (s, m, _) := Run(Program(base, skip.next, at + Read4(base, at) + 4),
                           Machine(FdeBegin(base, at, section), st.row, []), pc, st.dataAlign);
      if Succeeds(s) then Found(at, st, m.row) else if s.Unreadable? then NotReadable else Failed
  }

  // ---------------------------------------------------------------- the walk

  /** The record loop of `ATR_backtrace_up` from `at` on. */
  function Walk(base: seq<Byte>, at: nat, length: nat, st: CieState, section: Word64, pc: Word64): Outcome
    requires length <= |base| && WellFormed(base, at, length)
    decreases length - at
  {
    if at >= length || Read4(base, at) == 0 then NotFound
    else if !IsFde(base, at) then
      var r := ExecCie(base, at, st, pc);
      if r.CieOk? then Walk(base, Next(base, at), length, r.st, section, pc)
      else CieFailure(r)
    else if FdeHolds(base, at, section, pc) then ExecFde(base, at, st, section, pc)
    else Walk(base, Next(base, at), length, st, section, pc)
  }

  /** The state after the CIEs among the given records, FDEs being passed over. */
  function AfterCies(base: seq<Byte>, records: seq<nat>, st: CieState, pc: Word64): CieResult
    requires forall k :: 0 <= k < |records| ==> records[k] + 8 <= |base|
  {
    if records == [] then CieOk(st)
    else if IsFde(base, records[0]) then AfterCies(base, records[1..], st, pc)
    else
      var r := ExecCie(base, records[0], st, pc);
      if r.CieOk? then AfterCies(base, records[1..], r.st, pc) else r
  }

  /** `o` is decided at record k, reached in state st': no record before k holds pc, and st' is
      what the CIEs before k leave. Past the last record nothing is found; a CIE decides only by
      failing; an FDE decides only by holding pc, and then by executing on st'. */
  ghost predicate DecidedAt(base: seq<Byte>, v: seq<nat>, k: nat, st: CieState, st': CieState,
                            section: Word64, pc: Word64, o: Outcome)
    requires forall j :: 0 <= j < |v| ==> v[j] + 8 <= |base|
    requires k <= |v|
  {
    && (forall j :: 0 <= j < k ==> !FdeHolds(base, v[j], section, pc))
    && AfterCies(base, v[..k], st, pc) == CieOk(st')
    && if k == |v| then o == NotFound
       else if IsFde(base, v[k]) then FdeHolds(base, v[k], section, pc) && o == ExecFde(base, v[k], st', section, pc)
       else !ExecCie(base, v[k], st', pc).CieOk? && o == CieFailure(ExecCie(base, v[k], st', pc))
  }

  function CieFailure(r: CieResult): Outcome {
    if r.CieUnreadable? then NotReadable else Failed
  }

  /** The walk executes one FDE at most: the first visited record that holds pc, on the state the
      CIEs before it accumulated, unless one of those CIEs fails first. */
  lemma {:induction false} WalkFindsFirst(base: seq<Byte>, at: nat, length: nat, st: CieState, section: Word64, pc: Word64)
    returns (k: nat, st': CieState)
    requires length <= |base| && WellFormed(base, at, length)
    ensures forall j :: 0 <= j < |Visited(base, at, length)| ==> Visited(base, at, length)[j] + 8 <= |base|
    ensures k <= |Visited(base, at, length)|
    ensures DecidedAt(base, Visited(base, at, length), k, st, st', section, pc, Walk(base, at, length, st, section, pc))
    decreases length - at
  {
    hide ExecCie, ExecFde, Read4, FdeBegin;
    var v := Visited(base, at, length);
    VisitedTile(base, at, length);
    k, st' := 0, st;
    if at < length && Read4(base, at) != 0 && !FdeHolds(base, at, section, pc) {
      var rest := Visited(base, Next(base, at), length);
      var here := if IsFde(base, at) then CieOk(st) else ExecCie(base, at, st, pc);
      if here.CieOk? {
        k, st' := WalkFindsFirst(base, Next(base, at), length, here.st, section, pc);
        assert v[..k + 1] == [at] + rest[..k] && v[..k + 1][1..] == rest[..k];
        k := k + 1;
      }
    }
  }
}
