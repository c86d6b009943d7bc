/** npr/list.c: the doubly linked list, whose cells come from and go back to a slab allocator. */
module Dlist {
  import opened Lists
  import opened ChunkAlloc

  /** Consecutive cells point at each other, in both directions. */
  ghost predicate Chained(ring: seq<Slot>)
    reads ring
  {
    && (forall i :: 0 <= i < |ring| - 1 ==> ring[i].link == At(ring, i + 1))
    && (forall i :: 1 <= i < |ring| ==> ring[i].prev == At(ring, i - 1))
  }

  ghost function ValuesOf(cells: seq<Slot>): (values: seq<int>)
    reads cells
    ensures |values| == |cells|
  {
    seq(|cells|, i requires 0 <= i < |cells| reads cells => cells[i].val)
  }

  function Without<T>(s: seq<T>, k: nat): seq<T>
    requires k < |s|
  {
    s[..k] + s[k + 1..]
  }

  /** What a client asks of a list: append a value, or delete the element at a place. */
  datatype Op = Push(val: int) | RemoveAt(k: nat)

  /** Every removal names an element there is, starting from n elements. */
  predicate Legal(ops: seq<Op>, n: nat) {
    ops != [] ==>
      match ops[0]
      case Push(_) => Legal(ops[1..], n + 1)
      case RemoveAt(k) => k < n && Legal(ops[1..], n - 1)
  }

  /** The same operations on a sequence. */
  function Applied(ops: seq<Op>, values: seq<int>): seq<int>
    requires Legal(ops, |values|)
  {
    if ops == [] then values
    else
      match ops[0]
      case Push(val) => Applied(ops[1..], values + [val])
      case RemoveAt(k) => Applied(ops[1..], Without(values, k))
  }

  lemma ChainedLonger(front: seq<Slot>, e: Slot, tail: Slot)
    requires front != [] && Chained(front)
    requires front[|front| - 1].link == e && e.prev == front[|front| - 1] && e.link == tail && tail.prev == e
    ensures Chained(front + [e, tail])
  {
  }

  /** All but the last cell of a ring, apart from the last cell and from one that is not there. */
  lemma ChainedFront(ring: seq<Slot>, e: Slot)
    requires |ring| >= 2 && Chained(ring) && Distinct(ring) && e !in ring
    ensures var front := ring[..|ring| - 1];
            && Chained(front) && front[|front| - 1] == ring[|ring| - 2] == ring[|ring| - 1].prev
            && (forall i :: 0 <= i < |front| ==> front[i] != e && front[i] != ring[|ring| - 1])
            && (forall i :: 0 <= i < |front| - 1 ==> front[i] != ring[|ring| - 2])
  {
  }

  twostate lemma StillChained(front: seq<Slot>)
    requires old(Chained(front))
    requires forall i :: 0 <= i < |front| - 1 ==> front[i].link == old(front[i].link)
    requires forall i :: 0 <= i < |front| ==> front[i].prev == old(front[i].prev)
    ensures Chained(front)
  {
  }

  /** The writes of `npr_dlist_push_back` into its cells. */
  method LinkLast(e: Slot, tail: Slot, val: int, ghost last: Slot, ghost ring: seq<Slot>)
    requires |ring| >= 2 && Chained(ring) && Distinct(ring) && e !in ring
    requires tail == ring[|ring| - 1] && last == ring[|ring| - 2]
    modifies e, tail`prev, last`link
    ensures e.val == val && Chained(ring[..|ring| - 1] + [e, tail])
  {
    hide Chained, Distinct;
    ghost var front := ring[..|ring| - 1];
    ChainedFront(ring, e);
    e.link := tail;
    e.prev := tail.prev;
    tail.prev := e;
    e.prev.link := e;
    e.val := val;
    StillChained(front);
    ChainedLonger(front, e, tail);
  }

  /** The two link writes of `npr_dlist_remove`. */
  method Unlink(e: Slot, ghost p: Slot, ghost n: Slot, ghost ring: seq<Slot>, ghost k: nat)
    requires 0 < k < |ring| - 1 && Chained(ring) && Distinct(ring) && e == ring[k]
    requires p == ring[k - 1] && n == ring[k + 1]
    modifies p`link, n`prev
    ensures Chained(Without(ring, k))
  {
    assert e.prev == p && e.link == n;
    e.prev.link := e.link;
    e.link.prev := e.prev;
    ghost var shorter := Without(ring, k);
    forall i | 0 <= i < |shorter| - 1 ensures shorter[i].link == At(shorter, i + 1) {
      assert shorter[i] == if i < k then ring[i] else ring[i + 1];
    }
    forall i | 1 <= i < |shorter| ensures shorter[i].prev == At(shorter, i - 1) {
      assert shorter[i] == if i < k then ring[i] else ring[i + 1];
    }
  }

  lemma WithoutElems(s: seq<Slot>, k: nat)
    requires k < |s| && Distinct(s)
    ensures Distinct(Without(s, k)) && Elems(Without(s, k)) == Elems(s) - {s[k]} && s[k] in Elems(s)
  {
    var r := Without(s, k);
    assert forall i :: 0 <= i < |r| ==> r[i] == if i < k then s[i] else s[i + 1];
    forall x <- Elems(s) - {s[k]} ensures x in r {
      var i :| 0 <= i < |s| && s[i] == x;
      assert r[if i < k then i else i - 1] == x;
    }
  }

  lemma WithNewLast(s: seq<Slot>, e: Slot)
    requires Distinct(s) && e !in Elems(s)
    ensures Distinct(s + [e]) && Elems(s + [e]) == Elems(s) + {e} && e !in s
  {
    assert forall x :: x in s ==> x in Elems(s);
  }

  lemma RingStep(ring: seq<Slot>, i: nat)
    requires Chained(ring) && Distinct(ring) && i < |ring| - 1
    ensures ring[i].link == ring[i + 1] && (ring[i + 1] == ring[|ring| - 1] <==> i == |ring| - 2)
  {
  }

  lemma ValuesWithout(cells: seq<Slot>, k: nat)
    requires k < |cells|
    ensures ValuesOf(Without(cells, k)) == Without(ValuesOf(cells), k)
  {
  }

  twostate lemma ValuesKept(cells: seq<Slot>)
    requires forall c <- cells :: c.val == old(c.val)
    ensures ValuesOf(cells) == old(ValuesOf(cells))
  {
  }

  class DList {
    const head: Slot
    const tail: Slot
    const a: ChunkAllocator
    ghost var cells: seq<Slot>

    ghost function Ring(): seq<Slot>
      reads this
    {
      [head] + cells + [tail]
    }

    /** Everything an operation may change: the list, its allocator, its cells and the free ones. */
    ghost function Repr(): set<object>
      reads this, a
    {
      {this, a} + Elems(Ring()) + Elems(a.free)
    }

    /** Between the two sentinels lie exactly the live cells of the allocator, in list order, each
        once, with forward and backward links that agree. */
    ghost predicate Valid()
      reads this, a, a.free, a.blocks, Ring()
    {
      && a.Valid()
      && head != tail && head !in a.slots && tail !in a.slots
      && Distinct(cells) && Elems(cells) == a.live
      && Chained(Ring())
    }

    lemma RingDistinct()
      requires Valid()
      ensures Distinct(Ring())
      ensures forall s <- Ring() :: s !in a.free
    {
      forall i | 0 <= i < |cells| ensures cells[i] in a.live && cells[i] in a.slots {
        assert cells[i] in Elems(cells) && cells[i] in Elems(a.slots);
      }
      forall s <- a.free ensures s in a.slots && s !in a.live {
        assert s in Elems(a.free) && s in Elems(a.slots);
      }
    }

    constructor ()
      ensures Valid() && cells == []
      ensures fresh(Repr()) && a.chunkCount == 8
    {
      hide Linked, ChunksLinked, SlotsOf, Product;
      var h := new Slot();
      var t := new Slot();
      a := new ChunkAllocator(8);
      head, tail, cells := h, t, [];
      new;
      head.link := tail;
      tail.prev := head;
      assert Ring() == [head, tail] && Chained(Ring());
      assert Linked(a.top, a.free) && ChunksLinked(a.chunks, a.blocks);
    }

    /** Append; the cell may be one that was removed before. */
    method PushBack(val: int) returns (e: Slot)
      requires Valid()
      modifies Repr()
      ensures Valid()
      ensures e !in old(cells) && cells == old(cells) + [e]
      ensures ValuesOf(cells) == old(ValuesOf(cells)) + [val]
      ensures if old(a.free) != [] then e == old(a.free)[0] else fresh(e)
      ensures fresh(Repr() - old(Repr()))
    {
      hide Chained, Distinct, Linked, ChunksLinked, SlotsOf, Product;
      RingDistinct();
      ghost var ring, longer := Ring(), cells;
      e := a.Alloc();
      WithNewLast(cells, e);
      longer := cells + [e];
      assert ring[..|ring| - 1] + [e, tail] == [head] + longer + [tail];
      ghost var last := ring[|cells|];
      assert last in ring && tail in ring;
      assert forall s <- ring :: s !in a.free;
      LinkLast(e, tail, val, last, ring);
      assert Linked(a.top, a.free) && ChunksLinked(a.chunks, a.blocks);
      cells := longer;
      assert Chained(Ring()) && Distinct(cells) && Elems(cells) == a.live;
      assert forall i :: 0 <= i < |old(cells)| ==> old(cells)[i].val == old(cells[i].val);
    }

    /** Unlink one cell; its memory is the first to be reused. */
    method Remove(e: Slot, ghost k: nat)
      requires Valid() && k < |cells| && e == cells[k]
      modifies Repr()
      ensures Valid()
      ensures cells == Without(old(cells), k)
      ensures ValuesOf(cells) == Without(old(ValuesOf(cells)), k)
      ensures a.free == [e] + old(a.free)
      ensures fresh(Repr() - old(Repr()))
    {
      hide Chained, Distinct, Linked, ChunksLinked, SlotsOf, Product, ValuesOf;
      RingDistinct();
      WithoutElems(cells, k);
      ghost var ring, rest := Ring(), Without(cells, k);
      ghost var p, n := ring[k], ring[k + 2];
      assert ring[k + 1] == e && p in ring && n in ring && e in a.live;
      assert Without(ring, k + 1) == [head] + rest + [tail];
      ValuesWithout(cells, k);
      Unlink(e, p, n, ring, k + 1);
      assert Linked(a.top, a.free) && ChunksLinked(a.chunks, a.blocks);
      a.Free(e);
      cells := rest;
      assert Chained(Ring()) && Distinct(cells) && Elems(cells) == a.live;
      ValuesKept(rest);
    }

    /** The i-th cell of the ring leads to the next one, and the last one to the tail. */
    lemma NextCell(i: nat)
      requires Valid() && i <= |cells|
      ensures Ring()[i].link == Ring()[i + 1] && Ring()[i] == if i == 0 then head else cells[i - 1]
      ensures Ring()[i + 1] == tail <==> i == |cells|
    {
      RingDistinct();
      assert Chained(Ring());
      hide Valid, Chained, Distinct;
      RingStep(Ring(), i);
    }

    /** The iteration macro: insertion order of the cells still there. */
    method Iterate() returns (values: seq<int>)
      requires Valid()
      ensures values == ValuesOf(cells)
    {
      hide Valid;
      values := [];
      NextCell(0);
      var cur := head.link;
      ghost var i := 0;
      while cur != tail
        invariant 0 <= i <= |cells| && cur == Ring()[i + 1]
        invariant values == ValuesOf(cells)[..i]
        decreases |cells| - i
      {
        NextCell(i);
        NextCell(i + 1);
        values := values + [cur.val];
        cur := cur.link;
        i := i + 1;
      }
      NextCell(i);
      assert ValuesOf(cells)[..|cells|] == ValuesOf(cells);
    }

    /** One operation; the client removes through the cells that its pushes returned. */
    method Perform(op: Op, handles: seq<Slot>) returns (kept: seq<Slot>)
      requires Valid() && handles == cells && Legal([op], |cells|)
      modifies Repr()
      ensures Valid() && kept == cells && |cells| == if op.Push? then |old(cells)| + 1 else |old(cells)| - 1
      ensures ValuesOf(cells) == if op.Push? then old(ValuesOf(cells)) + [op.val] else Without(old(ValuesOf(cells)), op.k)
      ensures fresh(Repr() - old(Repr()))
    {
      hide Valid, Repr;
      match op {
        case Push(val) =>
          var e := PushBack(val);
          return handles + [e];
        case RemoveAt(k) =>
          Remove(handles[k], k);
          return Without(handles, k);
      }
    }

    /** Any sequence of operations does to the list what it does to a sequence. */
    method Run(ops: seq<Op>, handles: seq<Slot>) returns (kept: seq<Slot>)
      requires Valid() && handles == cells && Legal(ops, |cells|)
      modifies Repr()
      ensures Valid() && kept == cells
      ensures ValuesOf(cells) == Applied(ops, old(ValuesOf(cells)))
      ensures fresh(Repr() - old(Repr()))
    {
      hide Valid, ValuesOf, Repr;
      kept := handles;
      var n := 0;
      ghost var start := ValuesOf(cells);
      assert ops[0..] == ops;
      while n < |ops|
        invariant 0 <= n <= |ops| && Valid() && kept == cells
        invariant Legal(ops[n..], |cells|) && Applied(ops[n..], ValuesOf(cells)) == Applied(ops, start)
        invariant forall o <- Repr() :: o in old(Repr()) || fresh(o)
      {
        assert ops[n..][1..] == ops[n + 1..];
        ghost var before := Repr();
        label Before:
        kept := Perform(ops[n], kept);
        forall o <- Repr() ensures o in old(Repr()) || fresh(o) {
          assert o in before || !old@Before(allocated(o));
        }
        n := n + 1;
      }
    }
  }

  /** A list's whole life, from its making on. */
  method MakeAndRun(ops: seq<Op>) returns (values: seq<int>)
    requires Legal(ops, 0)
    ensures values == Applied(ops, [])
  {
    var l := new DList();
    assert ValuesOf(l.cells) == [];
    var _ := l.Run(ops, []);
    values := l.Iterate();
  }
}
