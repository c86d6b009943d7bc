/** npr/int-map.c: a hash table from symbols to data, with chains that are re-linked, cell by
    cell, into a larger table when they grow. */
module IntMap {
  import opened Words
  import opened Lists
  import opened SymbolTable

  // ---------------------------------------------------------------- table sizes

  const PRIMES: seq<nat> := [
    8 + 3, 16 + 3, 32 + 5, 64 + 3, 128 + 3, 256 + 27, 512 + 9, 1024 + 9, 2048 + 5, 4096 + 3,
    8192 + 27, 16384 + 43, 32768 + 3, 65536 + 45, 131072 + 29, 262144 + 3, 524288 + 21,
    1048576 + 7, 2097152 + 17, 4194304 + 15, 8388608 + 9, 16777216 + 43, 33554432 + 35,
    67108864 + 15, 134217728 + 29, 268435456 + 3, 536870912 + 11, 1073741824 + 85]

  const MINSIZE := 8

  /** Each table size lies above the power of two it is listed for. */
  lemma PrimesAreAbove(i: nat)
    requires i < |PRIMES|
    ensures PRIMES[i] > MINSIZE * Pow2(i)
  {
    SmallPowers();
    LargePowers();
    hide Pow2;
  }

  lemma SmallPowers()
    ensures Pow2(0) == 1 && Pow2(1) == 2 && Pow2(2) == 4 && Pow2(3) == 8 && Pow2(4) == 16 && Pow2(5) == 32 && Pow2(6) == 64
    ensures Pow2(7) == 128 && Pow2(8) == 256 && Pow2(9) == 512 && Pow2(10) == 1024 && Pow2(11) == 2048
    ensures Pow2(12) == 4096 && Pow2(13) == 8192
  {
  }

  lemma LargePowers()
    ensures Pow2(14) == 16384 && Pow2(15) == 32768 && Pow2(16) == 65536 && Pow2(17) == 131072 && Pow2(18) == 262144
    ensures Pow2(19) == 524288 && Pow2(20) == 1048576 && Pow2(21) == 2097152 && Pow2(22) == 4194304
    ensures Pow2(23) == 8388608 && Pow2(24) == 16777216 && Pow2(25) == 33554432 && Pow2(26) == 67108864
    ensures Pow2(27) == 134217728
  {
    SmallPowers();
  }

  /** The i-th table size is the one `new_size` gives: i counts the doublings of `MINSIZE` it takes
      to get above `size`. */
  predicate IsSizeFor(size: int, i: nat) {
    i < |PRIMES| && MINSIZE * Pow2(i) > size && (i > 0 ==> MINSIZE * Pow2(i - 1) <= size)
  }

  /** The table size that `new_size` gives for `size`. */
  ghost predicate IsTableSize(size: int, n: int) {
    exists i: nat :: IsSizeFor(size, i) && n == PRIMES[i]
  }

  /** `new_size`: always above its argument. None stands for the call of `abort`, which the code
      reaches (through a shift that overflows) exactly from 2^30 on. */
  method NewSize(size: int) returns (r: Option<nat>)
    ensures r.Some? <==> size < 0x4000_0000
    ensures r.Some? ==> r.value > size && r.value > MINSIZE
    ensures r.Some? ==> IsTableSize(size, r.value)
  {
    hide Pow2;
    var i, newsize := 0, MINSIZE;
    assert Pow2(0) == 1 && Pow2(27) == 0x800_0000 by { PowerBounds(); }
    while i < |PRIMES|
      invariant 0 <= i <= |PRIMES| && newsize == MINSIZE * Pow2(i)
      invariant i > 0 ==> MINSIZE * Pow2(i - 1) <= size
    {
      if newsize > size {
        PrimesAreAbove(i);
        assert IsSizeFor(size, i);
        Pow2Monotone(i, 27);
        return Some(PRIMES[i]);
      }
      DoublePower(i);
      i, newsize := i + 1, newsize * 2;
    }
    return None;
  }

  /** The sizes in numbers: of the smallest tables, of the hook table and of its first rehash, and of
      the largest table there is. */
  lemma SizesInNumbers(i: nat)
    ensures IsSizeFor(7, i) ==> PRIMES[i] == 11
    ensures IsSizeFor(8, i) ==> PRIMES[i] == 19
    ensures IsSizeFor(16, i) ==> PRIMES[i] == 37
    ensures IsSizeFor(37 + 1, i) ==> PRIMES[i] == 67
    ensures IsSizeFor(0x3fff_ffff, i) ==> PRIMES[i] == 1073741909
  {
    LargePowers();
    SmallPowers();
    if i < |PRIMES| {
      if 0 < i { Pow2Monotone(0, i - 1); }
      if 1 < i { Pow2Monotone(1, i - 1); }
      if 2 < i { Pow2Monotone(2, i - 1); }
      if 3 < i { Pow2Monotone(3, i - 1); }
      Pow2Monotone(i, 27);
      if i < 27 { Pow2Monotone(i, 26); }
    }
    hide Pow2;
  }

  lemma PowerBounds()
    ensures Pow2(0) == 1 && Pow2(27) == 0x800_0000
  {
    LargePowers();
  }

  lemma DoublePower(i: nat)
    ensures Pow2(i + 1) == 2 * Pow2(i)
  {
  }

  // ---------------------------------------------------------------- cells and chains

  /** A cell; its symbol is written once, by the append that makes it. */
  class Entry<D> {
    const sym: Symbol
    var data: Option<D>
    var chain: Entry?<D>

    constructor (sym: Symbol)
      ensures this.sym == sym && data == None && chain == null
    {
      this.sym, data, chain := sym, None, null;
    }
  }

  ghost function At<D>(s: seq<Entry<D>>, i: nat): Entry?<D> {
    if i < |s| then s[i] else null
  }

  ghost predicate Linked<D>(first: Entry?<D>, s: seq<Entry<D>>)
    reads s
  {
    && first == At(s, 0)
    && forall i :: 0 <= i < |s| ==> s[i].chain == At(s, i + 1)
  }

  function Bin(sym: Symbol, size: nat): (b: nat)
    requires size > 0
    ensures b < size
  {
    sym.hashcode % size
  }

  /** The bins hold exactly `cells`, each once, in the bin of its symbol. */
  ghost predicate Partition<D>(bins: seq<seq<Entry<D>>>, cells: set<Entry<D>>) {
    && bins != []
    && (forall b :: 0 <= b < |bins| ==> Distinct(bins[b]))
    && (forall b, e :: 0 <= b < |bins| && e in bins[b] ==> e in cells && Bin(e.sym, |bins|) == b)
    && (forall e <- cells :: e in bins[Bin(e.sym, |bins|)])
  }

  /** The chains of the table are the bins. */
  ghost predicate Chains<D>(table: array<Entry?<D>>, bins: seq<seq<Entry<D>>>, cells: set<Entry<D>>)
    requires Partition(bins, cells)
    reads table, cells
  {
    && table.Length == |bins|
    && forall b :: 0 <= b < |bins| ==> Linked(table[b], bins[b])
  }

  /** A symbol's cell can only be in the symbol's bin. */
  lemma OnlyInItsBin<D>(bins: seq<seq<Entry<D>>>, cells: set<Entry<D>>, sym: Symbol)
    requires Partition(bins, cells)
    ensures var bin := bins[Bin(sym, |bins|)];
            && (forall e <- bin :: e in cells)
            && (forall e <- cells :: e.sym == sym ==> e in bin)
  {
  }

  lemma PutInFront<D>(bins: seq<seq<Entry<D>>>, cells: set<Entry<D>>, e: Entry<D>)
    requires Partition(bins, cells) && e !in cells
    ensures var b := Bin(e.sym, |bins|); Partition(bins[b := [e] + bins[b]], cells + {e})
  {
    var b := Bin(e.sym, |bins|);
    var front := [e] + bins[b];
    assert forall i :: 0 < i < |front| ==> front[i] == bins[b][i - 1] && front[i] in bins[b];
    assert Distinct(front);
  }

  lemma LinkedFront<D>(e: Entry<D>, first: Entry?<D>, s: seq<Entry<D>>)
    requires Linked(first, s) && e.chain == first
    ensures Linked(e, [e] + s)
  {
  }

  /** Write `e` in front of its chain: the rehash step, and the end of an append after a rehash. */
  method PushFront<D>(e: Entry<D>, table: array<Entry?<D>>, ghost bins: seq<seq<Entry<D>>>, ghost cells: set<Entry<D>>)
    returns (ghost bins': seq<seq<Entry<D>>>)
    requires Partition(bins, cells) && Chains(table, bins, cells) && e !in cells
    modifies table, e`chain
    ensures Partition(bins', cells + {e}) && Chains(table, bins', cells + {e}) && |bins'| == |bins|
  {
    var newIdx := Bin(e.sym, table.Length);
    PutInFront(bins, cells, e);
    assert forall b :: 0 <= b < |bins| ==> e !in bins[b];
    e.chain := table[newIdx];
    assert forall b :: 0 <= b < |bins| ==> Linked(table[b], bins[b]);
    LinkedFront(e, table[newIdx], bins[newIdx]);
    bins' := bins[newIdx := [e] + bins[newIdx]];
    hide Partition, Distinct, Linked;
    table[newIdx] := e;
    assert forall b :: 0 <= b < |bins'| ==> Linked(table[b], bins'[b]);
  }

  lemma PutAtEnd<D>(bins: seq<seq<Entry<D>>>, cells: set<Entry<D>>, e: Entry<D>)
    requires Partition(bins, cells) && e !in cells
    ensures var b := Bin(e.sym, |bins|); Partition(bins[b := bins[b] + [e]], cells + {e})
  {
    var b := Bin(e.sym, |bins|);
    assert Distinct(bins[b] + [e]);
  }

  /** `*ep = e` with `ep` at the end of the symbol's chain: in the table when the chain is empty,
      in its last cell otherwise. */
  method PushBack<D>(e: Entry<D>, last: Entry?<D>, table: array<Entry?<D>>,
                     ghost bins: seq<seq<Entry<D>>>, ghost cells: set<Entry<D>>)
    returns (ghost bins': seq<seq<Entry<D>>>)
    requires Partition(bins, cells) && Chains(table, bins, cells) && e !in cells
    requires var bin := bins[Bin(e.sym, |bins|)]; last == if bin == [] then null else bin[|bin| - 1]
    modifies table, e`chain, cells`chain
    ensures Partition(bins', cells + {e}) && Chains(table, bins', cells + {e}) && |bins'| == |bins|
  {
    var idx := Bin(e.sym, table.Length);
    ghost var bin := bins[idx];
    PutAtEnd(bins, cells, e);
    bins' := bins[idx := bin + [e]];
    assert forall b :: 0 <= b < |bins| ==> e !in bins[b];
    assert last != null ==> last in bin && last in cells && forall b :: 0 <= b < |bins| && b != idx ==> last !in bins[b];
    e.chain := null;
    assert forall b :: 0 <= b < |bins| ==> Linked(table[b], bins[b]);
    if last == null {
      table[idx] := e;
    } else {
      assert forall i :: 0 <= i < |bin| - 1 ==> bin[i] != last;
      last.chain := e;
    }
    assert forall b :: 0 <= b < |bins| && b != idx ==> Linked(table[b], bins[b]);
    assert Linked(table[idx], bin + [e]);
  }

  lemma Ratio(n: nat, k: nat)
    requires k > 0
    ensures n / k > 3 <==> n >= 4 * k
  {
    var q, r := n / k, n % k;
    assert n == q * k + r;
    if q > 3 {
      assert q * k >= 4 * k;
    } else {
      assert q * k <= 3 * k;
    }
  }

  // ---------------------------------------------------------------- the table

  /** The cells of the first n bins. */
  ghost function CellsBefore<D>(bins: seq<seq<Entry<D>>>, n: nat): set<Entry<D>>
    requires n <= |bins|
  {
    if n == 0 then {} else CellsBefore(bins, n - 1) + Elems(bins[n - 1])
  }

  lemma {:induction false} CellsBeforeAll<D>(bins: seq<seq<Entry<D>>>, cells: set<Entry<D>>, n: nat)
    requires Partition(bins, cells) && n <= |bins|
    ensures forall e <- CellsBefore(bins, n) :: e in cells && Bin(e.sym, |bins|) < n
    ensures forall e <- cells :: Bin(e.sym, |bins|) < n ==> e in CellsBefore(bins, n)
  {
    if n > 0 {
      CellsBeforeAll(bins, cells, n - 1);
    }
  }

  /** The outer loop of the rehash: every cell of the old chains, bin by bin, to its new chain. The
      cells themselves are kept: only their `chain` fields change. */
  method Relink<D>(old_: array<Entry?<D>>, ghost bins: seq<seq<Entry<D>>>, ghost cells: set<Entry<D>>, table: array<Entry?<D>>)
    returns (ghost bins': seq<seq<Entry<D>>>)
    requires Partition(bins, cells) && Chains(old_, bins, cells)
    requires old_ != table && table.Length > 0 && forall b :: 0 <= b < table.Length ==> table[b] == null
    modifies table, cells`chain
    ensures |bins'| == table.Length && Partition(bins', cells) && Chains(table, bins', cells)
  {
    bins' := NoBins(table.Length);
    ghost var moved: set<Entry<D>> := {};
    ghost var heads := old_[..];
    EmptyTable(table);
    hide Partition, Distinct, Linked, NoBins, Elems;
    assert StillChained(heads, bins, 0, cells) && old_.Length == |bins|;
    hide StillChained, Chains;
    var i := 0;
    while i < old_.Length
      invariant 0 <= i <= old_.Length && moved == CellsBefore(bins, i)
      invariant Partition(bins', moved) && Chains(table, bins', moved) && |bins'| == table.Length
      invariant old_[..] == heads && StillChained(heads, bins, i, cells)
    {
      BinsApart(bins, cells, i);
      bins', moved := RelinkNext(heads, old_[i], bins, i, cells, table, bins', moved);
      i := i + 1;
      assert moved == CellsBefore(bins, i);
    }
    AllBefore(bins, cells);
    assert i == |bins| && moved == cells;
  }

  /** The old chains from bin i on have not been touched yet. */
  ghost predicate StillChained<D>(heads: seq<Entry?<D>>, bins: seq<seq<Entry<D>>>, i: nat, cells: set<Entry<D>>)
    requires Partition(bins, cells)
    reads cells
  {
    |heads| == |bins| && forall b :: i <= b < |bins| ==> Linked(heads[b], bins[b])
  }

  /** Relinking bin i leaves the chains of the later bins alone. */
  method RelinkNext<D>(ghost heads: seq<Entry?<D>>, first: Entry?<D>, ghost oldBins: seq<seq<Entry<D>>>, ghost i: nat,
                       ghost cells: set<Entry<D>>, table: array<Entry?<D>>,
                       ghost bins: seq<seq<Entry<D>>>, ghost moved: set<Entry<D>>)
    returns (ghost bins': seq<seq<Entry<D>>>, ghost moved': set<Entry<D>>)
    requires i < |oldBins| && Partition(oldBins, cells) && StillChained(heads, oldBins, i, cells) && first == heads[i]
    requires Distinct(oldBins[i]) && forall e <- oldBins[i] :: e !in moved
    requires forall b, e :: i < b < |oldBins| && e in oldBins[b] ==> e !in oldBins[i]
    requires Partition(bins, moved) && Chains(table, bins, moved)
    modifies table, oldBins[i]`chain
    ensures moved' == moved + Elems(oldBins[i])
    ensures Partition(bins', moved') && Chains(table, bins', moved') && |bins'| == |bins|
    ensures StillChained(heads, oldBins, i + 1, cells)
  {
    hide Partition, Distinct, Elems, Chains;
    bins', moved' := RelinkBin(first, oldBins[i], table, bins, moved);
    forall b | i < b < |oldBins| ensures Linked(heads[b], oldBins[b]) {
      assert old(Linked(heads[b], oldBins[b]));
      forall j | 0 <= j < |oldBins[b]| ensures oldBins[b][j].chain == old(oldBins[b][j].chain) {
        assert oldBins[b][j] in oldBins[b] && oldBins[b][j] !in oldBins[i];
      }
    }
  }

  ghost function NoBins<D>(n: nat): (bins: seq<seq<Entry<D>>>)
    ensures |bins| == n
  {
    seq(n, _ => [])
  }

  method NewBins<D>(n: nat) returns (table: array<Entry?<D>>)
    ensures fresh(table) && table.Length == n && forall b :: 0 <= b < n ==> table[b] == null
  {
    table := new Entry?<D>[n](_ => null);
  }

  lemma EmptyTable<D>(table: array<Entry?<D>>)
    requires table.Length > 0 && forall b :: 0 <= b < table.Length ==> table[b] == null
    ensures Partition(NoBins<D>(table.Length), {}) && Chains(table, NoBins(table.Length), {})
  {
  }

  lemma BinsApart<D>(bins: seq<seq<Entry<D>>>, cells: set<Entry<D>>, i: nat)
    requires Partition(bins, cells) && i < |bins|
    ensures Distinct(bins[i]) && Elems(bins[i]) <= cells
    ensures forall e <- bins[i] :: e in cells && e !in CellsBefore(bins, i)
    ensures forall b, e :: i < b < |bins| && e in bins[b] ==> e !in bins[i]
  {
    CellsBeforeAll(bins, cells, i);
  }

  lemma AllBefore<D>(bins: seq<seq<Entry<D>>>, cells: set<Entry<D>>)
    requires Partition(bins, cells)
    ensures CellsBefore(bins, |bins|) == cells
  {
    CellsBeforeAll(bins, cells, |bins|);
  }

  lemma OneMoreCell<D>(bin: seq<Entry<D>>, k: nat)
    requires Distinct(bin) && k < |bin|
    ensures Elems(bin[..k + 1]) == Elems(bin[..k]) + {bin[k]}
    ensures bin[k] !in Elems(bin[..k]) && bin[k] in bin && forall j :: k < j < |bin| ==> bin[j] != bin[k]
  {
    assert bin[..k + 1] == bin[..k] + [bin[k]];
  }

  /** The inner loop, over one old chain. */
  method RelinkBin<D>(first: Entry?<D>, ghost bin: seq<Entry<D>>, table: array<Entry?<D>>,
                      ghost bins: seq<seq<Entry<D>>>, ghost moved: set<Entry<D>>)
    returns (ghost bins': seq<seq<Entry<D>>>, ghost moved': set<Entry<D>>)
    requires Linked(first, bin) && Distinct(bin) && forall e <- bin :: e !in moved
    requires Partition(bins, moved) && Chains(table, bins, moved)
    modifies table, bin`chain
    ensures moved' == moved + Elems(bin)
    ensures Partition(bins', moved') && Chains(table, bins', moved') && |bins'| == |bins|
  {
    hide Partition, Chains, Distinct, Bin;
    bins', moved' := bins, moved;
    var e := first;
    ghost var k := 0;
    while e != null
      invariant 0 <= k <= |bin| && e == At(bin, k)
      invariant moved' == moved + Elems(bin[..k])
      invariant forall j :: k <= j < |bin| ==> bin[j].chain == At(bin, j + 1)
      invariant Partition(bins', moved') && Chains(table, bins', moved') && |bins'| == |bins|
      decreases |bin| - k
    {
      OneMoreCell(bin, k);
      var n := e.chain;
      bins' := PushFront(e, table, bins', moved');
      moved' := moved' + {e};
      e := n;
      k := k + 1;
    }
    assert bin[..k] == bin;
  }

  datatype Command = Append | Fail

  class Symtab<D> {
    var numBin: int
    var numEntry: int
    var entries: array<Entry?<D>>
    ghost var bins: seq<seq<Entry<D>>>
    ghost var cells: set<Entry<D>>

    /** The cells are spread over the bins by hash code, each symbol has one cell, `numEntry`
        counts them, and there are fewer than four a bin on average. */
    ghost predicate Valid()
      reads this, entries, cells
    {
      && numBin == |bins| && Partition(bins, cells) && Chains(entries, bins, cells)
      && (forall e1 <- cells, e2 <- cells :: e1.sym == e2.sym ==> e1 == e2)
      && numEntry == |cells| < 4 * numBin
    }

    /** A cell sits in the chain that starts in the bin of its symbol's hash code modulo the number
        of bins, and the chain runs through that bin's cells. */
    lemma InItsBin(e: Entry<D>)
      requires Valid() && e in cells
      ensures entries.Length == numBin == |bins| > 0
      ensures var bin := bins[e.sym.hashcode % numBin];
              && e in bin && entries[e.sym.hashcode % numBin] == bin[0]
              && forall k :: 0 <= k < |bin| ==> bin[k].chain == if k + 1 < |bin| then bin[k + 1] else null
    {
      var bin := bins[Bin(e.sym, |bins|)];
      assert e in bin && Linked(entries[Bin(e.sym, |bins|)], bin);
      forall k | 0 <= k < |bin| ensures bin[k].chain == if k + 1 < |bin| then bin[k + 1] else null {
        assert bin[k].chain == At(bin, k + 1);
      }
    }

    /** `npr_symtab_init`, for the size hints `new_size` has an answer for. */
    constructor (sizeHint: int)
      requires sizeHint < 0x4000_0000
      ensures Valid() && fresh(entries) && cells == {} && numBin > sizeHint && IsTableSize(sizeHint, numBin)
    {
      var size := NewSize(sizeHint);
      numBin, numEntry := size.value, 0;
      entries := new Entry?<D>[size.value](_ => null);
      bins, cells := NoBins(size.value), {};
      new;
      EmptyTable(entries);
    }

    /** `npr_symtab_lookup_entry`. A symbol that has a cell gets that cell and nothing changes; one
        that has none gets a new cell without data when the command is to append. Every cell
        handed out before stays a cell of the table, whatever is re-linked. */
    method Lookup(sym: Symbol, com: Command) returns (found: Entry?<D>)
      requires Valid() && (com == Append ==> numEntry < 0x7fff_ffff)
      modifies this, entries, cells`chain
      ensures Valid() && old(cells) <= cells
      ensures numEntry <= old(numEntry) + 1
      ensures found != null ==> found in cells && found.sym == sym
      ensures (exists e <- old(cells) :: e.sym == sym) ==> found != null && found in old(cells)
      ensures (exists e <- old(cells) :: e.sym == sym) || com == Fail ==>
                cells == old(cells) && numBin == old(numBin) && entries == old(entries)
      ensures !(exists e <- old(cells) :: e.sym == sym) && com == Fail ==> found == null
      ensures !(exists e <- old(cells) :: e.sym == sym) && com == Append ==>
                && found != null && fresh(found) && found.data == None && cells == old(cells) + {found}
                && (if old(numEntry) + 1 == 4 * old(numBin)
                    then numBin > old(numBin) && IsTableSize(old(numBin) + 1, numBin) && fresh(entries)
                    else numBin == old(numBin) && entries == old(entries))
    {
      hide Partition, Chains, Bin, IsTableSize, Valid;
      var last: Entry?<D>;
      CountsItsCells();
      found, last := Find(sym);
      if found == null && com == Append {
        found := AppendEntry(sym, last);
      }
    }

    lemma CountsItsCells()
      requires Valid()
      ensures numEntry == |cells| && numBin == |bins| > 0
    {
    }

    /** The walk along the symbol's chain; `last` is the cell whose `chain` the walk ended on. */
    method Find(sym: Symbol) returns (found: Entry?<D>, last: Entry?<D>)
      requires Valid()
      ensures found != null ==> found in cells && found.sym == sym
      ensures found == null ==> (forall e <- cells :: e.sym != sym)
      ensures found == null ==> var bin := bins[Bin(sym, numBin)]; last == if bin == [] then null else bin[|bin| - 1]
    {
      var idx := Bin(sym, numBin);
      ghost var bin := bins[idx];
      OnlyInItsBin(bins, cells, sym);
      assert Linked(entries[idx], bin);
      assert forall k :: 0 <= k < |bin| ==> bin[k].chain == At(bin, k + 1);
      hide Partition, Chains, Linked, Distinct, Valid;
      found, last := entries[idx], null;
      ghost var k := 0;
      while found != null
        invariant 0 <= k <= |bin| && found == At(bin, k)
        invariant last == if k == 0 then null else bin[k - 1]
        invariant forall j :: 0 <= j < k ==> bin[j].sym != sym
        decreases |bin| - k
      {
        assert found in bin;
        if found.sym == sym {
          return found, last;
        }
        found, last := found.chain, found;
        k := k + 1;
      }
    }

    /** `alloc_entry` and the linking after it: count the new cell, rehash when there are four
        cells a bin, then link the cell, in front after a rehash and at the end otherwise. */
    method AppendEntry(sym: Symbol, last: Entry?<D>) returns (e: Entry<D>)
      requires Valid() && numEntry < 0x7fff_ffff && forall c <- cells :: c.sym != sym
      requires var bin := bins[Bin(sym, numBin)]; last == if bin == [] then null else bin[|bin| - 1]
      modifies this, entries, cells`chain
      ensures Valid() && fresh(e) && e.sym == sym && e.data == None && cells == old(cells) + {e}
      ensures numEntry == old(numEntry) + 1
      ensures if old(numEntry) + 1 == 4 * old(numBin)
              then numBin > old(numBin) && IsTableSize(old(numBin) + 1, numBin) && fresh(entries)
              else numBin == old(numBin) && entries == old(entries)
    {
      hide Partition, Chains, Bin, IsTableSize;
      e := new Entry(sym);
      numEntry := numEntry + 1;
      LinkNew(e, last);
      assert |cells + {e}| == |cells| + 1;
      cells := cells + {e};
    }

    method LinkNew(e: Entry<D>, last: Entry?<D>)
      requires Table() && e !in cells && numEntry == |cells| + 1 && |cells| < 4 * numBin && numEntry <= 0x7fff_ffff
      requires var bin := bins[Bin(e.sym, numBin)]; last == if bin == [] then null else bin[|bin| - 1]
      modifies this`numBin, this`entries, this`bins, entries, e`chain, cells`chain
      ensures numBin == |bins| && Partition(bins, cells + {e}) && Chains(entries, bins, cells + {e})
      ensures numEntry < 4 * numBin
      ensures if numEntry == 4 * old(numBin)
              then numBin > old(numBin) && IsTableSize(old(numBin) + 1, numBin) && fresh(entries)
              else numBin == old(numBin) && entries == old(entries)
    {
      hide Partition, Chains, Bin, IsTableSize;
      Ratio(numEntry, numBin);
      if numEntry / numBin > 3 {
        Rehash();
        bins := PushFront(e, entries, bins, cells);
      } else {
        bins := PushBack(e, last, entries, bins, cells);
      }
    }

    ghost predicate Table()
      reads this, entries, cells
    {
      numBin == |bins| && Partition(bins, cells) && Chains(entries, bins, cells)
    }

    lemma HasBins()
      requires Table()
      ensures entries.Length == numBin == |bins| > 0 && Partition(bins, cells) && Chains(entries, bins, cells)
    {
    }

    /** Every cell moves, none is lost or copied. */
    method Rehash()
      requires Table() && numBin < 0x3fff_ffff
      modifies this`numBin, this`entries, this`bins, cells`chain
      ensures Table() && fresh(entries) && numBin > old(numBin) + 1 && IsTableSize(old(numBin) + 1, numBin)
    {
      HasBins();
      hide *;
      var size := NewSize(numBin + 1);
      var newEntries := NewBins<D>(size.value);
      bins := Relink(entries, bins, cells, newEntries);
      numBin := size.value;
      entries := newEntries;
      IsTable();
    }

    lemma IsTable()
      requires numBin == |bins| && Partition(bins, cells) && Chains(entries, bins, cells)
      ensures Table()
    {
    }

    /** A client's write through a cell it was handed. */
    method SetData(e: Entry<D>, d: D)
      requires Valid() && e in cells
      modifies e`data
      ensures Valid() && e.data == Some(d)
    {
      e.data := Some(d);
    }
  }
}
