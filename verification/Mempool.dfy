/** npr/mempool-c.c: the bump allocator with alignment, on top of the system's malloc. */
module Mempool {
  import opened Words
  import opened Lists
  import opened Bits

  /** The bytes addr, ..., addr + size - 1. */
  datatype Region = Region(addr: nat, size: nat)

  predicate Apart(r1: Region, r2: Region) {
    r1.addr + r1.size <= r2.addr || r2.addr + r2.size <= r1.addr
  }

  predicate Inside(r: Region, outer: Region) {
    outer.addr <= r.addr && r.addr + r.size <= outer.addr + outer.size
  }

  /** malloc and free. Clients see only that live regions are apart and freed once. */
  class System {
    ghost var regions: set<Region>
    var brk: nat

    ghost predicate Valid()
      reads this
    {
      && (forall r <- regions :: r.addr + r.size < brk)
      && (forall r1 <- regions, r2 <- regions :: r1 != r2 ==> Apart(r1, r2))
    }

    constructor ()
      ensures Valid() && regions == {}
    {
      regions, brk := {}, 1;
    }

    method Malloc(size: nat) returns (p: nat)
      requires Valid()
      modifies this
      ensures Valid() && Region(p, size) !in old(regions) && regions == old(regions) + {Region(p, size)}
    {
      p := brk;
      brk := brk + size + 1;
      regions := regions + {Region(p, size)};
    }

    method Free(p: nat, ghost size: nat)
      requires Valid() && Region(p, size) in regions
      modifies this
      ensures Valid() && regions == old(regions) - {Region(p, size)}
    {
      regions := regions - {Region(p, size)};
    }
  }

  /** `(x + (align - 1)) & ~(align - 1)` for a power of two. */
  function AlignUp(x: nat, align: nat): (r: nat)
    requires align > 0
    ensures r % align == 0 && x <= r < x + align
  {
    var q := (x + (align - 1)) / align;
    MultipleIsAligned(align, q);
    align * q
  }

  lemma MultipleIsAligned(align: nat, q: nat)
    requires align > 0
    ensures (align * q) % align == 0
  {
    var r := align * q;
    var d := q - r / align;
    ProductIsFar(align, d);
    assert align * d == r % align;
  }

  lemma ProductIsFar(a: int, d: int)
    requires a > 0
    ensures d >= 1 ==> a * d >= a
    ensures d <= -1 ==> a * d <= -a
  {
  }

  lemma AppendDistinct(s: seq<Region>, r: Region)
    requires Distinct(s) && r !in s
    ensures Distinct(s + [r])
  {
  }

  /** A live block is a whole large region, or lies in an entry, below the cursor if that is the
      current (last) one. */
  ghost predicate Housed(b: Region, entries: seq<Region>, pos: nat, larges: seq<Region>)
    requires entries != []
  {
    var cur := |entries| - 1;
    || b in larges
    || (exists i :: 0 <= i < cur && Inside(b, entries[i]))
    || (Inside(b, entries[cur]) && b.addr + b.size <= entries[cur].addr + pos)
  }

  lemma HomeOf(b: Region, entries: seq<Region>, pos: nat, larges: seq<Region>) returns (g: Region)
    requires entries != [] && Housed(b, entries, pos, larges)
    ensures (g in entries || g in larges) && Inside(b, g)
  {
    if b in larges {
      return b;
    } else if i :| 0 <= i < |entries| - 1 && Inside(b, entries[i]) {
      return entries[i];
    } else {
      return entries[|entries| - 1];
    }
  }

  lemma HousedBelowNewEntry(b: Region, entries: seq<Region>, pos: nat, larges: seq<Region>, r: Region)
    requires entries != [] && Housed(b, entries, pos, larges)
    ensures Housed(b, entries + [r], 0, larges)
  {
    var longer := entries + [r];
    if b !in larges {
      if i :| 0 <= i < |entries| - 1 && Inside(b, entries[i]) {
        assert Inside(b, longer[i]);
      } else {
        assert Inside(b, longer[|entries| - 1]);
      }
    }
  }

  class Pool {
    const sys: System
    var entryNum: nat
    var entryIndex: nat
    var entryByteSize: nat
    var entryByteRemain: int
    var entryBytePos: nat
    var dataEntry: seq<nat>
    var largeNum: nat
    var largeIndex: nat
    var large: seq<nat>
    var allocSmall: nat

    /** The regions behind `dataEntry` and `large`, and the blocks handed out since the last clear. */
    ghost var entries: seq<Region>
    ghost var larges: seq<Region>
    ghost var live: seq<Region>

    ghost predicate Shape()
      reads this
    {
      && |dataEntry| == |entries| == entryIndex + 1 <= entryNum
      && |large| == |larges| == largeIndex <= largeNum && largeNum > 0
      && (forall i :: 0 <= i < |entries| ==> dataEntry[i] == entries[i].addr)
      && (forall i :: 0 <= i < |larges| ==> large[i] == larges[i].addr)
      && entries[entryIndex].size == entryByteSize
      && entryBytePos + entryByteRemain <= entryByteSize
    }

    /** The pool's regions are distinct malloc regions. */
    ghost predicate Owned()
      reads this, sys
    {
      && sys.Valid()
      && Distinct(entries) && Distinct(larges)
      && (forall e <- entries :: e in sys.regions && e !in larges)
      && (forall l <- larges :: l in sys.regions)
    }

    ghost predicate Valid()
      reads this, sys
    {
      && Shape() && Owned()
      && (forall b <- live :: Housed(b, entries, entryBytePos, larges))
      && (forall i, j :: 0 <= i < j < |live| ==> Apart(live[i], live[j]))
    }

    constructor (sys: System, sizeHint: nat)
      requires sys.Valid()
      modifies sys
      ensures Valid() && this.sys == sys && live == []
      ensures entryBytePos == 0 && entryByteRemain == entryByteSize == sizeHint
      ensures sys.regions == old(sys.regions) + {entries[0]} && |entries| == 1 && larges == []
    {
      this.sys := sys;
      new;
      Init(sizeHint);
    }

    /** `npr_mempool_init`. */
    method Init(sizeHint: nat)
      requires sys.Valid()
      modifies this, sys
      ensures Valid() && live == []
      ensures entryBytePos == 0 && entryByteRemain == entryByteSize == sizeHint
      ensures sys.regions == old(sys.regions) + {entries[0]} && |entries| == 1 && larges == []
    {
      var p := sys.Malloc(sizeHint);
      dataEntry, entries := [p], [Region(p, sizeHint)];
      entryNum, entryIndex := 16, 0;
      entryByteRemain, entryByteSize, entryBytePos := sizeHint, sizeHint, 0;
      assert sys.Valid();
      largeNum, largeIndex, large, larges := 16, 0, [], [];
      allocSmall, live := 0, [];
    }

    /** Live blocks lie in malloc regions the pool had before, so a new region is apart from them. */
    lemma NewRegionIsApart(before: set<Region>, r: Region)
      requires Shape() && (forall b <- live :: Housed(b, entries, entryBytePos, larges))
      requires sys.Valid() && r !in before && sys.regions == before + {r}
      requires (forall e <- entries :: e in before) && (forall l <- larges :: l in before)
      ensures forall b <- live :: Apart(b, r)
    {
      forall b <- live ensures Apart(b, r) {
        var g := HomeOf(b, entries, entryBytePos, larges);
        assert Apart(g, r);
      }
    }

    /** `alloc_large`: the block is a malloc region of its own. */
    method AllocLarge(size: nat) returns (p: nat)
      requires Valid()
      modifies this, sys
      ensures Valid() && live == old(live) + [Region(p, size)]
      ensures forall b <- old(live) :: Apart(b, Region(p, size))
      ensures larges == old(larges) + [Region(p, size)] && entries == old(entries)
      ensures UnchangedEntry()
    {
      if largeIndex + 1 >= largeNum {
        largeNum := largeNum * 2;
      }
      ghost var before := sys.regions;
      p := sys.Malloc(size);
      NewRegionIsApart(before, Region(p, size));
      large := large + [p];
      largeIndex := largeIndex + 1;
      AppendDistinct(larges, Region(p, size));
      larges, live := larges + [Region(p, size)], live + [Region(p, size)];
    }

    /** The bytes skipped to reach an aligned address from the cursor. */
    function Padding(align: nat): (n: nat)
      requires align > 0 && |dataEntry| == entryIndex + 1
      reads this
      ensures n < align
    {
      var ptr := dataEntry[entryIndex] + entryBytePos;
      AlignUp(ptr, align) - ptr
    }

    lemma StillHoused(r: Region)
      requires entries != [] && forall b <- live :: Housed(b, entries, entryBytePos, larges)
      ensures forall b <- live :: Housed(b, entries + [r], 0, larges)
    {
      forall b <- live ensures Housed(b, entries + [r], 0, larges) {
        HousedBelowNewEntry(b, entries, entryBytePos, larges, r);
      }
    }

    /** The branch before `goto retry`: a new entry, large enough for this request at any alignment:
        twice the current entry, or twice the request when that is larger. */
    method NewEntry(size: nat, align: nat)
      requires Valid()
      modifies this, sys
      ensures Valid() && live == old(live) && larges == old(larges)
      ensures entryIndex == old(entryIndex) + 1
      ensures |entries| == |old(entries)| + 1 && entries[..|old(entries)|] == old(entries)
      ensures entryBytePos == 0 && entryByteRemain == entryByteSize >= size + align
      ensures entryByteSize == if size + align > 2 * old(entryByteSize) then 2 * (size + align) else 2 * old(entryByteSize)
      ensures allocSmall == old(allocSmall)
    {
      hide Valid;
      var allocSize := entryByteSize * 2;
      if size + align > allocSize {
        allocSize := (size + align) * 2;
      }
      TakeEntry(allocSize);
    }

    method TakeEntry(allocSize: nat)
      requires Valid()
      modifies this, sys
      ensures Valid() && live == old(live) && larges == old(larges)
      ensures entryIndex == old(entryIndex) + 1
      ensures |entries| == |old(entries)| + 1 && entries[..|old(entries)|] == old(entries)
      ensures entryBytePos == 0 && entryByteRemain == entryByteSize == allocSize && allocSmall == old(allocSmall)
    {
      hide Housed, Apart;
      var nextIndex := entryIndex + 1;
      if nextIndex >= entryNum {
        entryNum := entryNum * 2;
      }
      var p := sys.Malloc(allocSize);
      StillHoused(Region(p, allocSize));
      entryByteRemain, entryByteSize, entryIndex, entryBytePos := allocSize, allocSize, nextIndex, 0;
      AddEntry(p, allocSize);
    }

    method AddEntry(p: nat, ghost size: nat)
      requires |dataEntry| == |entries| == entryIndex < entryNum
      requires Distinct(entries) && Region(p, size) !in entries
      requires forall i :: 0 <= i < |entries| ==> dataEntry[i] == entries[i].addr
      modifies this`dataEntry, this`entries
      ensures |dataEntry| == |entries| == entryIndex + 1 && entries == old(entries) + [Region(p, size)]
      ensures Distinct(entries) && forall i :: 0 <= i < |entries| ==> dataEntry[i] == entries[i].addr
    {
      AppendDistinct(entries, Region(p, size));
      dataEntry, entries := dataEntry + [p], entries + [Region(p, size)];
    }

    /** A block taken at the cursor is apart from every live block. */
    lemma CursorBlockIsApart(r: Region)
      requires Valid()
      requires Inside(r, entries[entryIndex]) && r.addr >= entries[entryIndex].addr + entryBytePos
      ensures forall b <- live :: Apart(b, r)
    {
      forall b <- live ensures Apart(b, r) {
        assert Housed(b, entries, entryBytePos, larges);
        if b in larges {
          assert Apart(b, entries[entryIndex]);
        } else if !(Inside(b, entries[entryIndex]) && b.addr + b.size <= entries[entryIndex].addr + entryBytePos) {
          var i :| 0 <= i < entryIndex && Inside(b, entries[i]);
          assert Apart(entries[i], entries[entryIndex]);
        }
      }
    }

    /** The cursor after a small block at p, and what is left: the padding before p is charged once
        to the cursor but twice to what remains. */
    ghost predicate Charged(p: nat, size: nat, alignShift: nat, retries: nat, pos: nat, remain: int, entrySize: nat, small: nat)
      requires |entries| == entryIndex + 1
      reads this
    {
      var align := Pow2(alignShift);
      var (pos', remain', entrySize') :=
        if retries == 0 then (pos, remain, entrySize)
        else if size + align > 2 * entrySize then (0, 2 * (size + align), 2 * (size + align))
        else (0, 2 * entrySize, 2 * entrySize);
      var padding := p - (entries[entryIndex].addr + pos');
      && 0 <= padding < align && entryByteSize == entrySize'
      && entryBytePos == pos' + padding + AlignUp(size, align)
      && entryByteRemain == remain' - 2 * padding - AlignUp(size, align)
      && allocSmall == small + padding + AlignUp(size, align)
    }

    /** `npr_mempool_alloc_align_stat`. A small block is aligned, lies inside the current entry and
        is apart from everything handed out since the last clear; a new entry is taken at most
        once, exactly when the request and its padding do not fit in what is left. The bounds
        keep every 32-bit computation of the original from wrapping. */
    method AllocAlign(alignShift: nat, size: nat) returns (p: nat, ghost retries: nat)
      requires Valid()
      requires alignShift < 30 && entryByteSize < 0x4000_0000
      modifies this, sys
      ensures Valid() && live == old(live) + [Region(p, size)]
      ensures forall b <- old(live) :: Apart(b, Region(p, size))
      ensures size >= 1024 ==> larges == old(larges) + [Region(p, size)]
      ensures size < 1024 ==> p % Pow2(alignShift) == 0 && Inside(Region(p, size), entries[entryIndex])
      ensures size < 1024 ==> retries == (if size > old(entryByteRemain) - old(Padding(Pow2(alignShift))) then 1 else 0)
      ensures size < 1024 ==> entryIndex == old(entryIndex) + retries && larges == old(larges)
      ensures size < 1024 ==>
                Charged(p, size, alignShift, retries, old(entryBytePos), old(entryByteRemain), old(entryByteSize),
                        old(allocSmall))
    {
      hide Apart, Shape, Owned, Charged, Inside, Housed, Pow2, AlignUp, Padding;
      if size >= 1024 {
        p := AllocLarge(size);
        return p, 0;
      }
      p, retries := AllocSmall(alignShift, size);
    }

    /** The part of it behind the test for large blocks. */
    method AllocSmall(alignShift: nat, size: nat) returns (p: nat, ghost retries: nat)
      requires Valid()
      modifies this, sys
      ensures Valid() && live == old(live) + [Region(p, size)] && larges == old(larges)
      ensures forall b <- old(live) :: Apart(b, Region(p, size))
      ensures p % Pow2(alignShift) == 0 && Inside(Region(p, size), entries[entryIndex])
      ensures retries == (if size > old(entryByteRemain) - old(Padding(Pow2(alignShift))) then 1 else 0)
      ensures entryIndex == old(entryIndex) + retries
      ensures Charged(p, size, alignShift, retries, old(entryBytePos), old(entryByteRemain), old(entryByteSize), old(allocSmall))
    {
      hide Apart, Housed, Pow2, Inside;
      var align := Pow2(alignShift);
      var alignedSize := AlignUp(size, align);
      retries := 0;
      var ptrDiff := Padding(align);
      while size > entryByteRemain - ptrDiff
        invariant Valid() && live == old(live) && larges == old(larges) && ptrDiff == Padding(align)
        invariant allocSmall == old(allocSmall)
        invariant if retries == 0 then UnchangedEntry() && dataEntry == old(dataEntry)
                  else retries == 1 && entryIndex == old(entryIndex) + 1 && entryBytePos == 0
                       && size + align <= entryByteRemain == entryByteSize
                       && entryByteSize == (if size + align > 2 * old(entryByteSize) then 2 * (size + align)
                                            else 2 * old(entryByteSize))
                       && size > old(entryByteRemain) - old(Padding(align))
        decreases 1 - retries
      {
        NewEntry(size, align);
        retries := retries + 1;
        ptrDiff := Padding(align);
      }
      p := TakeAtCursor(ptrDiff, size, alignedSize);
    }

    /** The block at the cursor; the padding is charged twice to what remains. */
    method TakeAtCursor(ptrDiff: nat, size: nat, alignedSize: nat) returns (p: nat)
      requires Valid() && size <= entryByteRemain - ptrDiff && size <= alignedSize
      modifies this
      ensures Valid() && p == dataEntry[entryIndex] + old(entryBytePos) + ptrDiff
      ensures live == old(live) + [Region(p, size)] && Inside(Region(p, size), entries[entryIndex])
      ensures forall b <- old(live) :: Apart(b, Region(p, size))
      ensures entries == old(entries) && larges == old(larges) && entryIndex == old(entryIndex)
      ensures entryBytePos == old(entryBytePos) + ptrDiff + alignedSize
      ensures entryByteRemain == old(entryByteRemain) - 2 * ptrDiff - alignedSize
      ensures entryByteSize == old(entryByteSize) && allocSmall == old(allocSmall) + ptrDiff + alignedSize
    {
      p := dataEntry[entryIndex] + entryBytePos + ptrDiff;
      CursorBlockIsApart(Region(p, size));
      var allocSize := ptrDiff + alignedSize;
      var remain := entryByteRemain - ptrDiff;
      remain := remain - allocSize;
      entryByteRemain := remain;
      entryBytePos := entryBytePos + allocSize;
      allocSmall := allocSmall + allocSize;
      live := live + [Region(p, size)];
    }

    /** Every region of the pool. */
    ghost function Regions(): set<Region>
      reads this
    {
      (set e | e in entries) + (set l | l in larges)
    }

    /** `npr_mempool_fini`: every region is freed exactly once, and nothing else. */
    method Fini()
      requires Valid()
      modifies sys
      ensures sys.Valid() && sys.regions == old(sys.regions) - Regions()
    {
      FreeAll(dataEntry, entries);
      FreeAll(large, larges);
    }

    method FreeAll(data: seq<nat>, ghost rs: seq<Region>)
      requires sys.Valid() && |data| == |rs| && Distinct(rs)
      requires forall i :: 0 <= i < |rs| ==> data[i] == rs[i].addr && rs[i] in sys.regions
      modifies sys
      ensures sys.Valid() && sys.regions == old(sys.regions) - (set r | r in rs)
    {
      var i := 0;
      while i < |data|
        invariant 0 <= i <= |data| && sys.Valid()
        invariant sys.regions == old(sys.regions) - (set r | r in rs[..i])
      {
        assert rs[i] !in rs[..i] && rs[i] == Region(data[i], rs[i].size);
        assert rs[..i + 1] == rs[..i] + [rs[i]];
        sys.Free(data[i], rs[i].size);
        i := i + 1;
      }
      assert rs[..|data|] == rs;
    }

    /** `npr_mempool_clear`: nothing is live afterwards. The short path rewinds the cursor but
        not `entryByteRemain`, so what was charged to the entry stays charged; the long path gives
        every region back and starts over with one entry. */
    method Clear()
      requires Valid()
      modifies this, sys
      ensures Valid() && live == [] && entryBytePos == 0
      ensures if old(entryIndex) == 0 && old(largeIndex) == 0
              then entryByteRemain == old(entryByteRemain) && entries == old(entries) && sys.regions == old(sys.regions)
              else entryByteRemain == entryByteSize == RoundUp2(ToWord32(old(allocSmall))) && |entries| == 1 && larges == []
                   && sys.regions == old(sys.regions) - old(Regions()) + {entries[0]}
    {
      live := [];
      if entryIndex == 0 && largeIndex == 0 {
        entryBytePos := 0;
        return;
      }
      Fini();
      Init(RoundUp2(ToWord32(allocSmall)));
    }

    twostate predicate UnchangedEntry()
      reads this
    {
      && entryIndex == old(entryIndex) && entryByteSize == old(entryByteSize)
      && entryByteRemain == old(entryByteRemain) && entryBytePos == old(entryBytePos)
    }
  }
}
