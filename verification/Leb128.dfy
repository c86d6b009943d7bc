/** The two LEB128 readers of anytrace/atr-backtrace.c (section 7.6 of DWARF 4). A read that C
    leaves undefined (past the mapped bytes, or a shift of 32 or more) has result `Undefined`. */
module Leb128 {
  import opened Words

  datatype ReadResult = Read(value: Int32, next: nat) | Undefined

  // ---------------------------------------------------------------- what a byte run denotes

  /** The n bytes at `cur` are one LEB128 number: only the last has its high bit clear. */
  predicate RunAt(base: seq<Byte>, cur: nat, n: nat) {
    && 1 <= n && cur + n <= |base|
    && base[cur + n - 1] < 0x80
    && forall i :: cur <= i < cur + n - 1 ==> base[i] >= 0x80
  }

  /** The seven-bit groups of the run, least significant first. */
  function Groups(bytes: seq<Byte>): nat {
    if bytes == [] then 0 else bytes[0] % 0x80 + 0x80 * Groups(bytes[1..])
  }

  function Pow128(n: nat): (p: nat)
    ensures p >= 1
  {
    if n == 0 then 1 else 0x80 * Pow128(n - 1)
  }

  /** Sign bit of the last group, which stands for every higher bit. */
  predicate Negative(bytes: seq<Byte>) {
    bytes != [] && bytes[|bytes| - 1] % 0x80 >= 0x40
  }

  function SignedGroups(bytes: seq<Byte>): int {
    Groups(bytes) - if Negative(bytes) then Pow128(|bytes|) else 0
  }

  // ---------------------------------------------------------------- the readers

  /** `x << shift` in 32 bits, and `a | b` of numbers without a common bit. */
  function ShiftLeft(x: nat, shift: nat): Word32 {
    ToWord32(x * Pow2(shift))
  }

  /** The variables of either loop when it ends; `Lost` when C would leave the run undefined. */
  datatype LoopEnd = LoopEnd(ret: Word32, shift: nat, cur: nat, last: Byte) | Lost

  /** The loop both readers share, from a given state on. */
  function Accumulate(base: seq<Byte>, cur: nat, shift: nat, ret: Word32): (end: LoopEnd)
    ensures end.LoopEnd? ==> cur < end.cur <= |base|
    decreases 32 - shift
  {
    if cur >= |base| || shift >= 32 then Lost
    else
      var val := base[cur];
      var ret' := ToWord32(ret + ShiftLeft(val % 0x80, shift));
      if val < 0x80 then LoopEnd(ret', shift + 7, cur + 1, val)
      else Accumulate(base, cur + 1, shift + 7, ret')
  }

  function DecodeUnsigned(base: seq<Byte>, cur: nat): (r: ReadResult)
    ensures r.Read? ==> cur < r.next <= |base|
  {
    var end := Accumulate(base, cur, 0, 0);
    if end.Lost? then Undefined else Read(ToInt32(end.ret), end.cur)
  }

  /** The sign extension after the loop of `read_leb128`. */
  function Extend(end: LoopEnd): ReadResult {
    if end.Lost? then Undefined
    else if end.last < 0x40 then Read(ToInt32(end.ret), end.cur)
    else if end.shift >= 32 then Undefined
    else Read(ToInt32(end.ret - Pow2(end.shift)), end.cur)
  }

  function DecodeSigned(base: seq<Byte>, cur: nat): (r: ReadResult)
    ensures r.Read? ==> cur < r.next <= |base|
  {
    Extend(Accumulate(base, cur, 0, 0))
  }

  method ReadUleb128(base: seq<Byte>, start: nat) returns (r: ReadResult)
    ensures r == DecodeUnsigned(base, start)
  {
    var shift: nat, ret: Word32, cur: nat := 0, 0, start;
    while true
      invariant Accumulate(base, start, 0, 0) == Accumulate(base, cur, shift, ret)
      decreases 32 - shift
    {
      if cur >= |base| || shift >= 32 {
        return Undefined;
      }
      var val := base[cur];
      cur := cur + 1;
      ret := ToWord32(ret + ShiftLeft(val % 0x80, shift));
      shift := shift + 7;
      if val < 0x80 {
        break;
      }
    }
    return Read(ToInt32(ret), cur);
  }

  method ReadLeb128(base: seq<Byte>, start: nat) returns (r: ReadResult)
    ensures r == DecodeSigned(base, start)
  {
    hide ToWord32, ToInt32, ShiftLeft;
    var shift: nat, ret: Word32, cur: nat, val: Byte := 0, 0, start, 0;
    while true
      invariant Accumulate(base, start, 0, 0) == Accumulate(base, cur, shift, ret)
      decreases 32 - shift
    {
      if cur >= |base| || shift >= 32 {
        return Undefined;
      }
      val := base[cur];
      cur := cur + 1;
      ret := ToWord32(ret + ShiftLeft(val % 0x80, shift));
      shift := shift + 7;
      if val < 0x80 {
        break;
      }
    }
    r := SignExtend(ret, shift, cur, val);
  }

  /** The `if (val & 0x40)` at the end of `read_leb128`. */
  method SignExtend(ret: Word32, shift: nat, cur: nat, val: Byte) returns (r: ReadResult)
    ensures r == Extend(LoopEnd(ret, shift, cur, val))
  {
    var value := ret;
    if val >= 0x40 {
      if shift >= 32 {
        return Undefined;
      }
      value := ToWord32(value - Pow2(shift));
      SameLowBits(value, ret - Pow2(shift));
    }
    return Read(ToInt32(value), cur);
  }

  // ---------------------------------------------------------------- what the readers compute

  lemma {:induction false} Pow2Of7(k: nat)
    ensures Pow2(7 * k) == Pow128(k)
  {
    if k > 0 {
      Pow2Of7(k - 1);
      var e := 7 * (k - 1);
      assert Pow2(e + 1) == 2 * Pow2(e) && Pow2(e + 2) == 2 * Pow2(e + 1);
      assert Pow2(e + 3) == 2 * Pow2(e + 2) && Pow2(e + 4) == 2 * Pow2(e + 3);
      assert Pow2(e + 5) == 2 * Pow2(e + 4) && Pow2(e + 6) == 2 * Pow2(e + 5);
    }
  }

  lemma SameLowBits(a: int, b: int)
    requires a % TWO32 == b % TWO32
    ensures ToInt32(a) == ToInt32(b) && ToWord32(a) == ToWord32(b)
  {
  }

  /** One more group: adding it reduced or unreduced, before or after the rest, is the same mod 2^32. */
  lemma AccumulateGroup(ret: int, group: int, rest: int, p: int)
    ensures (ToWord32(ret + ToWord32(group * p)) + rest * (0x80 * p)) % TWO32
         == (ret + (group + 0x80 * rest) * p) % TWO32
  {
    var q := (group * p) / TWO32;
    var s := ret + ToWord32(group * p);
    assert (group + 0x80 * rest) * p == group * p + rest * (0x80 * p);
    assert s + rest * (0x80 * p) == ret + (group + 0x80 * rest) * p - q * TWO32;
    AddMultiple(s % TWO32 + rest * (0x80 * p), s / TWO32);
    AddMultiple(s + rest * (0x80 * p), q);
  }

  /** The weight of `x` when k groups lie below it. */
  function Scale(x: int, k: nat): int {
    x * Pow128(k)
  }

  lemma ScaleAddsGroup(ret: Word32, group: nat, rest: nat, k: nat)
    ensures ToWord32(ToWord32(ret + ShiftLeft(group, 7 * k)) + Scale(rest, k + 1))
         == ToWord32(ret + Scale(group + 0x80 * rest, k))
  {
    Pow2Of7(k);
    var p := Pow128(k);
    assert Pow128(k + 1) == 0x80 * p;
    AccumulateGroup(ret, group, rest, p);
  }

  lemma ScaleAddsLast(ret: Word32, group: nat, k: nat)
    ensures ToWord32(ret + ShiftLeft(group, 7 * k)) == ToWord32(ret + Scale(group, k))
  {
    Pow2Of7(k);
    AccumulateGroup(ret, group, 0, Pow128(k));
  }

  /** From a state that has consumed k groups, the loop adds the remaining run; it is lost
      when the run has more than five groups in all. */
  lemma {:induction false} LoopAddsRun(base: seq<Byte>, cur: nat, n: nat, k: nat, ret: Word32)
    requires RunAt(base, cur, n)
    ensures Accumulate(base, cur, 7 * k, ret) ==
            if k + n <= 5
            then LoopEnd(ToWord32(ret + Scale(Groups(base[cur..cur + n]), k)), 7 * (k + n), cur + n, base[cur + n - 1])
            else Lost
    decreases n
  {
    hide Scale, ShiftLeft;
    if k < 5 {
      var run := base[cur..cur + n];
      var group := base[cur] % 0x80;
      assert run[1..] == base[cur + 1..cur + n];
      ScaleAddsGroup(ret, group, Groups(run[1..]), k);
      ScaleAddsLast(ret, group, k);
      if n > 1 {
        LoopAddsRun(base, cur + 1, n - 1, k + 1, ToWord32(ret + ShiftLeft(group, 7 * k)));
      }
    }
  }

  lemma RunFromStart(base: seq<Byte>, cur: nat, n: nat)
    requires RunAt(base, cur, n)
    ensures Accumulate(base, cur, 0, 0) ==
            if n <= 5 then LoopEnd(ToWord32(Groups(base[cur..cur + n])), 7 * n, cur + n, base[cur + n - 1]) else Lost
  {
    LoopAddsRun(base, cur, n, 0, 0);
  }

  /** A byte run is read as the number it denotes, viewed in 32 bits, and the cursor moves just
      past it; C leaves longer runs undefined. */
  lemma ReadsUnsignedRun(base: seq<Byte>, cur: nat, n: nat)
    requires RunAt(base, cur, n)
    ensures DecodeUnsigned(base, cur) ==
            if n <= 5 then Read(ToInt32(Groups(base[cur..cur + n])), cur + n) else Undefined
  {
    hide Accumulate, Groups;
    RunFromStart(base, cur, n);
    SameLowBits(ToWord32(Groups(base[cur..cur + n])), Groups(base[cur..cur + n]));
  }

  lemma ReadsSignedRun(base: seq<Byte>, cur: nat, n: nat)
    requires RunAt(base, cur, n)
    ensures var run := base[cur..cur + n];
            DecodeSigned(base, cur) ==
            if n <= 4 || (n == 5 && !Negative(run)) then Read(ToInt32(SignedGroups(run)), cur + n) else Undefined
  {
    hide Accumulate, Groups, Pow128, Pow2, ToInt32, ToWord32;
    var run := base[cur..cur + n];
    assert Negative(run) <==> base[cur + n - 1] >= 0x40;
    RunFromStart(base, cur, n);
    if n <= 5 {
      ExtendsRun(Groups(run), n, cur + n, base[cur + n - 1]);
    } else {
    }
  }

  lemma ExtendsRun(g: nat, n: nat, next: nat, last: Byte)
    requires last < 0x80 && n <= 5
    ensures Extend(LoopEnd(ToWord32(g), 7 * n, next, last)) ==
            if last < 0x40 then Read(ToInt32(g), next)
            else if n <= 4 then Read(ToInt32(g - Pow128(n)), next) else Undefined
  {
    Pow2Of7(n);
    LowBitsOfDifference(g, Pow128(n));
    hide ToInt32, ToWord32, Pow2, Pow128;
  }

  lemma LowBitsOfDifference(g: nat, p: nat)
    ensures ToInt32(ToWord32(g)) == ToInt32(g)
    ensures ToInt32(ToWord32(g) - p) == ToInt32(g - p)
  {
    SameLowBits(ToWord32(g), g);
    SameLowBits(ToWord32(g) - p, g - p);
  }

  /** Without a terminated run of at most five bytes there is nothing C defines to read. */
  lemma {:induction false} ReadsOnlyRuns(base: seq<Byte>, cur: nat, shift: nat, ret: Word32)
    requires Accumulate(base, cur, shift, ret).LoopEnd?
    ensures var end := Accumulate(base, cur, shift, ret);
            cur < end.cur && RunAt(base, cur, end.cur - cur) && shift + 7 * (end.cur - cur) <= 38
    decreases 32 - shift
  {
    if base[cur] >= 0x80 {
      ReadsOnlyRuns(base, cur + 1, shift + 7, ToWord32(ret + ShiftLeft(base[cur] % 0x80, shift)));
    }
  }

  // ---------------------------------------------------------------- minimal encodings

  function EncodeUnsigned(v: nat): seq<Byte> {
    if v < 0x80 then [v] else [0x80 + v % 0x80] + EncodeUnsigned(v / 0x80)
  }

  /** Division rounds down, so the quotient ends at 0 or at -1. */
  function EncodeSigned(v: int): seq<Byte>
    decreases if v < 0 then -v else v
  {
    if -0x40 <= v < 0x40 then [v % 0x80] else [0x80 + v % 0x80] + EncodeSigned(v / 0x80)
  }

  lemma SignedGroupsStep(run: seq<Byte>)
    requires |run| > 1
    ensures SignedGroups(run) == run[0] % 0x80 + 0x80 * SignedGroups(run[1..])
    ensures Negative(run) <==> Negative(run[1..])
  {
  }

  lemma {:induction false} UnsignedEncodingDenotes(v: nat)
    ensures Groups(EncodeUnsigned(v)) == v
    ensures RunAt(EncodeUnsigned(v), 0, |EncodeUnsigned(v)|)
  {
    if v >= 0x80 {
      UnsignedEncodingDenotes(v / 0x80);
      var rest := EncodeUnsigned(v / 0x80);
      assert EncodeUnsigned(v)[1..] == rest;
    }
  }

  /** Minimal: k bytes reach exactly the numbers below 128^k. */
  lemma {:induction false} UnsignedEncodingSize(v: nat, k: nat)
    requires k > 0
    ensures |EncodeUnsigned(v)| <= k <==> v < Pow128(k)
    decreases k
  {
    if k == 1 {
      assert Pow128(1) == 0x80;
    } else if v >= 0x80 {
      UnsignedEncodingSize(v / 0x80, k - 1);
    }
  }

  lemma OneSignedGroup(b: Byte)
    requires b < 0x80
    ensures SignedGroups([b]) == (if b < 0x40 then b else b - 0x80) && RunAt([b], 0, 1)
    ensures Negative([b]) <==> b >= 0x40
  {
    assert [b][1..] == [] && Groups([b]) == b && Pow128(1) == 0x80;
  }

  lemma SignedGroupsCons(b: Byte, rest: seq<Byte>)
    requires rest != []
    ensures SignedGroups([b] + rest) == b % 0x80 + 0x80 * SignedGroups(rest)
    ensures Negative([b] + rest) <==> Negative(rest)
    ensures b >= 0x80 && RunAt(rest, 0, |rest|) ==> RunAt([b] + rest, 0, |rest| + 1)
  {
    assert ([b] + rest)[1..] == rest;
    SignedGroupsStep([b] + rest);
  }

  lemma {:induction false} SignedEncodingDenotes(v: int)
    ensures SignedGroups(EncodeSigned(v)) == v
    ensures RunAt(EncodeSigned(v), 0, |EncodeSigned(v)|)
    ensures Negative(EncodeSigned(v)) <==> v < 0
    decreases if v < 0 then -v else v
  {
    hide SignedGroups, Negative, RunAt;
    if -0x40 <= v < 0x40 {
      OneSignedGroup(v % 0x80);
    } else {
      SignedEncodingDenotes(v / 0x80);
      SignedGroupsCons(0x80 + v % 0x80, EncodeSigned(v / 0x80));
    }
  }

  lemma {:induction false} SignedEncodingSize(v: int, k: nat)
    requires k > 0
    ensures |EncodeSigned(v)| <= k <==> -2 * v <= Pow128(k) && 2 * v < Pow128(k)
    decreases k
  {
    if k == 1 {
      assert Pow128(1) == 0x80;
    } else if !(-0x40 <= v < 0x40) {
      SignedEncodingSize(v / 0x80, k - 1);
      SignedRangeStep(v, 0x40 * Pow128(k - 2));
    }
  }

  lemma SignedRangeStep(v: int, half: nat)
    ensures -2 * (v / 0x80) <= 2 * half && 2 * (v / 0x80) < 2 * half
            <==> -2 * v <= 0x80 * (2 * half) && 2 * v < 0x80 * (2 * half)
  {
  }

  // ---------------------------------------------------------------- round trips

  lemma RunInContext(pre: seq<Byte>, run: seq<Byte>, suffix: seq<Byte>)
    requires RunAt(run, 0, |run|)
    ensures RunAt(pre + run + suffix, |pre|, |run|)
    ensures (pre + run + suffix)[|pre|..|pre| + |run|] == run
  {
    var base := pre + run + suffix;
    assert forall i :: 0 <= i < |run| ==> base[|pre| + i] == run[i];
  }

  /** Reading the minimal encoding of v gives v back (as 32 bits) with the cursor just past it,
      whatever surrounds it, exactly when v fits in 32 bits. */
  lemma UnsignedRoundTrip(pre: seq<Byte>, v: nat, suffix: seq<Byte>)
    ensures var r := DecodeUnsigned(pre + EncodeUnsigned(v) + suffix, |pre|);
            v < TWO32 <==> r.Read? && ToWord32(r.value) == v && r.next == |pre| + |EncodeUnsigned(v)|
  {
    var run := EncodeUnsigned(v);
    UnsignedEncodingDenotes(v);
    UnsignedEncodingSize(v, 5);
    Pow128Of5();
    RunInContext(pre, run, suffix);
    ReadsUnsignedRun(pre + run + suffix, |pre|, |run|);
    BackToWord(v);
    hide *;
  }

  lemma BackToWord(v: nat)
    ensures ToWord32(ToInt32(v)) == v <==> v < TWO32
  {
    assert ToWord32(ToInt32(v)) == v % TWO32;
  }

  /** The same for signed numbers. A negative number is read back only down to -2^27: the fifth
      group of a smaller one would be sign-extended by a shift of 35. */
  lemma SignedRoundTrip(pre: seq<Byte>, v: int, suffix: seq<Byte>)
    ensures DecodeSigned(pre + EncodeSigned(v) + suffix, |pre|).Read? &&
            DecodeSigned(pre + EncodeSigned(v) + suffix, |pre|) == Read(ToInt32(v), |pre| + |EncodeSigned(v)|) &&
            ToInt32(v) == v
            <==> -0x800_0000 <= v < 0x8000_0000
  {
    var run := EncodeSigned(v);
    SignedEncodingDenotes(v);
    SignedEncodingSize(v, 4);
    SignedEncodingSize(v, 5);
    Pow128Of5();
    RunInContext(pre, run, suffix);
    ReadsSignedRun(pre + run + suffix, |pre|, |run|);
  }

  /** The code reads operands with the signed reader that DWARF 4 gives as unsigned (section 6.4.2:
      those of `DW_CFA_def_cfa` and `DW_CFA_register` and the factored offset of `DW_CFA_offset`;
      section 6.4.1: a CIE's code alignment and return column; and the lengths of augmentation
      data). That is right exactly for the numbers below 2^31 with the top bit of their last group
      clear. Another one below 2^31 is read too small by 128^n, n being the length of its encoding. */
  lemma UnsignedReadAsSigned(pre: seq<Byte>, v: nat, suffix: seq<Byte>)
    ensures var n := |EncodeUnsigned(v)|;
            var r := DecodeSigned(pre + EncodeUnsigned(v) + suffix, |pre|);
            && (r.Read? && r.value == v && r.next == |pre| + n <==> v < TWO31 && 2 * v < Pow128(n))
            && (v < TWO31 && 2 * v >= Pow128(n) ==> r == Read(v - Pow128(n), |pre| + n))
  {
    if v < TWO31 {
      SmallReadAsSigned(pre, v, suffix);
    }
    hide *;
  }

  lemma SmallReadAsSigned(pre: seq<Byte>, v: nat, suffix: seq<Byte>)
    requires v < TWO31
    ensures var n := |EncodeUnsigned(v)|;
            var r := DecodeSigned(pre + EncodeUnsigned(v) + suffix, |pre|);
            && r.Read? && r.next == |pre| + n
            && (r.value == v <==> 2 * v < Pow128(n))
            && (r.value != v ==> r.value == v - Pow128(n))
  {
    var run := EncodeUnsigned(v);
    UnsignedEncodingDenotes(v);
    UnsignedEncodingSize(v, 4);
    UnsignedEncodingSize(v, 5);
    Pow128Of5();
    LastGroup(v);
    RunInContext(pre, run, suffix);
    ReadsSignedRun(pre + run + suffix, |pre|, |run|);
    if |run| <= 4 {
      PowersGrow(|run|);
    }
    SignedGroupsInRange(run, v);
    hide *;
  }

  lemma SignedGroupsInRange(run: seq<Byte>, v: nat)
    requires Groups(run) == v < TWO31 && 0 < |run|
    requires |run| <= 4 ==> Pow128(|run|) <= 0x1000_0000
    requires |run| > 4 ==> !Negative(run)
    ensures SignedGroups(run) == v - (if Negative(run) then Pow128(|run|) else 0)
    ensures ToInt32(SignedGroups(run)) == SignedGroups(run)
  {
  }

  lemma {:induction false} LastGroup(v: nat)
    ensures Negative(EncodeUnsigned(v)) <==> 2 * v >= Pow128(|EncodeUnsigned(v)|)
  {
    hide Negative;
    if v < 0x80 {
      OneSignedGroup(v);
      assert Pow128(1) == 0x80;
    } else {
      LastGroup(v / 0x80);
      var rest := EncodeUnsigned(v / 0x80);
      SignedGroupsCons(0x80 + v % 0x80, rest);
      TopBitStep(v, 0x40 * Pow128(|rest| - 1));
    }
  }

  lemma TopBitStep(v: nat, half: nat)
    ensures 2 * (v / 0x80) >= 2 * half <==> 2 * v >= 0x80 * (2 * half)
  {
  }

  lemma PowersGrow(n: nat)
    requires 1 <= n <= 4
    ensures Pow128(n) <= 0x1000_0000
  {
    assert Pow128(1) == 0x80 && Pow128(2) == 0x4000 && Pow128(3) == 0x20_0000;
    Pow128Of5();
  }

  /** The smallest such operand: a frame offset of 64 is read as -64. */
  lemma OffsetSixtyFourIsMisread()
    ensures EncodeUnsigned(64) == [0x40] && DecodeSigned([0x40], 0) == Read(-64, 1)
  {
    assert [] + EncodeUnsigned(64) + [] == [0x40];
    UnsignedReadAsSigned([], 64, []);
    assert Pow128(1) == 0x80;
  }

  lemma Pow128Of5()
    ensures Pow128(4) == 0x1000_0000 && Pow128(5) == 0x8_0000_0000
  {
    assert Pow128(2) == 0x4000 && Pow128(3) == 0x20_0000;
  }

  /** The examples of section 7.6 of DWARF 4. */
  lemma PublishedExamples()
    ensures EncodeUnsigned(2) == [2] && EncodeUnsigned(127) == [127] && EncodeUnsigned(128) == [0x80, 1]
    ensures EncodeUnsigned(129) == [1 + 0x80, 1] && EncodeUnsigned(12857) == [57 + 0x80, 100]
    ensures EncodeSigned(2) == [2] && EncodeSigned(-2) == [0x7e] && EncodeSigned(127) == [127 + 0x80, 0]
    ensures EncodeSigned(-127) == [1 + 0x80, 0x7f] && EncodeSigned(128) == [0x80, 1] && EncodeSigned(-128) == [0x80, 0x7f]
    ensures EncodeSigned(129) == [1 + 0x80, 1] && EncodeSigned(-129) == [0x7f + 0x80, 0x7e]
  {
  }
}
