/** npr/red-black-tree.c: the tree in the heap. Nodes are updated in place; each
    method's effect is the one `RedBlackSpec` states on the tree as a value. */
module RedBlackTree {
  import opened Words
  import opened RedBlackSpec

  class TreeNode {
    var left: TreeNode?
    var right: TreeNode?
    var v: Word64
    var key: Word64
    var color: Color

    ghost var Repr: set<TreeNode>
    ghost var Shape: Tree

    /** The nodes below form a tree (no sharing, no cycle) whose value is `Shape`. */
    ghost predicate Valid()
      reads this, Repr
      ensures Valid() ==> this in Repr && Shape.Node?
    {
      && this in Repr
      && (left != null ==> left in Repr && left.Repr <= Repr && this !in left.Repr && left.Valid())
      && (right != null ==> right in Repr && right.Repr <= Repr && this !in right.Repr && right.Valid())
      && (left != null && right != null ==> left.Repr !! right.Repr)
      && Shape == Node(ShapeOf(left), key, v, color, ShapeOf(right))
    }

    constructor (key: Word64, v: Word64)
      ensures Valid() && fresh(Repr)
      ensures Shape == Node(Leaf, key, v, Red, Leaf)
    {
      left, right, this.v, this.key, color := null, null, v, key, Red;
      Repr, Shape := {this}, Node(Leaf, key, v, Red, Leaf);
    }
  }

  ghost function ReprOf(n: TreeNode?): set<TreeNode>
    reads n
  {
    if n == null then {} else n.Repr
  }

  ghost function ShapeOf(n: TreeNode?): Tree
    reads n
  {
    if n == null then Leaf else n.Shape
  }

  ghost predicate ValidTree(n: TreeNode?)
    reads n, ReprOf(n)
  {
    n != null ==> n.Valid()
  }

  predicate NodeIsRed(n: TreeNode?)
    requires ValidTree(n)
    reads n, ReprOf(n)
    ensures NodeIsRed(n) <==> IsRed(ShapeOf(n))
  {
    n != null && n.color == Red
  }

  method RotateNodeRight(x0: TreeNode) returns (x1: TreeNode)
    requires x0.Valid() && x0.left != null
    modifies x0, x0.left
    ensures x1.Valid() && x1.Repr == old(x0.Repr)
    ensures x1.Shape == RotateRight(old(x0.Shape))
  {
    x1 := x0.left;
    ghost var repr := x0.Repr;
    x0.left := x1.right;
    x1.right := x0;
    x1.color := x0.color;
    x0.color := Red;
    x0.Repr := {x0} + ReprOf(x0.left) + ReprOf(x0.right);
    x0.Shape := Node(ShapeOf(x0.left), x0.key, x0.v, x0.color, ShapeOf(x0.right));
    x1.Repr := repr;
    x1.Shape := Node(ShapeOf(x1.left), x1.key, x1.v, x1.color, x0.Shape);
  }

  method RotateNodeLeft(x1: TreeNode) returns (x0: TreeNode)
    requires x1.Valid() && x1.right != null
    modifies x1, x1.right
    ensures x0.Valid() && x0.Repr == old(x1.Repr)
    ensures x0.Shape == RotateLeft(old(x1.Shape))
  {
    x0 := x1.right;
    ghost var repr := x1.Repr;
    x1.right := x0.left;
    x0.left := x1;
    x0.color := x1.color;
    x1.color := Red;
    x1.Repr := {x1} + ReprOf(x1.left) + ReprOf(x1.right);
    x1.Shape := Node(ShapeOf(x1.left), x1.key, x1.v, x1.color, ShapeOf(x1.right));
    x0.Repr := repr;
    x0.Shape := Node(x1.Shape, x0.key, x0.v, x0.color, ShapeOf(x0.right));
  }

  method FlipNodeColor(n: TreeNode)
    requires n.Valid() && n.left != null && n.right != null
    modifies n, n.left, n.right
    ensures n.Valid() && n.Repr == old(n.Repr)
    ensures n.Shape == FlipColor(old(n.Shape))
  {
    var l, r := n.left, n.right;
    n.color := Flipped(n.color);
    l.color := Flipped(l.color);
    l.Shape := l.Shape.(color := l.color);
    r.color := Flipped(r.color);
    r.Shape := r.Shape.(color := r.color);
    n.Shape := Node(l.Shape, n.key, n.v, n.color, r.Shape);
  }

  /** The two rotations at the end of `insert`. */
  method FixNodeUp(n: TreeNode) returns (r: TreeNode)
    requires n.Valid()
    modifies n.Repr
    ensures r.Valid() && r.Repr == old(n.Repr)
    ensures r.Shape == FixUp(old(n.Shape))
  {
    r := n;
    if NodeIsRed(r.right) {
      r := RotateNodeLeft(r);
    }
    if NodeIsRed(r.left) && NodeIsRed(r.left.left) {
      r := RotateNodeRight(r);
    }
  }

  /** `insert`: returns the new subtree root and whether a node was added. Every old node stays in
      the tree, and none is added when the key is there. */
  method InsertNode(n: TreeNode?, key: Word64, v: Word64) returns (r: TreeNode, insertNew: bool)
    requires ValidTree(n)
    modifies ReprOf(n)
    ensures r.Valid() && fresh(r.Repr - old(ReprOf(n)))
    ensures old(ReprOf(n)) <= r.Repr && (!insertNew ==> r.Repr == old(ReprOf(n)))
    ensures r.Shape == Insert(old(ShapeOf(n)), key, v)
    ensures insertNew <==> !HasKey(old(ShapeOf(n)), key)
    decreases Height(ShapeOf(n)), 2
  {
    if n == null {
      r := new TreeNode(key, v);
      return r, true;
    }
    if NodeIsRed(n.left) && NodeIsRed(n.right) {
      FlipNodeColor(n);
    }
    assert n.Shape == Split(old(n.Shape));
    insertNew := PlaceNode(n, key, v);
    r := FixNodeUp(n);
  }

  /** The middle of `insert`: overwrite the value, or insert on one side. */
  method PlaceNode(n: TreeNode, key: Word64, v: Word64) returns (insertNew: bool)
    requires n.Valid()
    modifies n.Repr
    ensures n.Valid() && fresh(n.Repr - old(n.Repr))
    ensures old(n.Repr) <= n.Repr && (!insertNew ==> n.Repr == old(n.Repr))
    ensures n.Shape == Place(old(n.Shape), key, v)
    ensures insertNew <==> !HasKey(old(n.Shape), key)
    decreases Height(n.Shape), 1
  {
    insertNew := false;
    if key == n.key {
      n.v := v;
      n.Shape := n.Shape.(value := v);
    } else if key < n.key {
      insertNew := PlaceLeft(n, key, v);
    } else {
      insertNew := PlaceRight(n, key, v);
    }
  }

  method PlaceLeft(n: TreeNode, key: Word64, v: Word64) returns (insertNew: bool)
    requires n.Valid()
    modifies n.Repr
    ensures n.Valid() && fresh(n.Repr - old(n.Repr))
    ensures old(n.Repr) <= n.Repr && (!insertNew ==> n.Repr == old(n.Repr))
    ensures n.Shape == old(n.Shape).(left := Insert(old(n.Shape).left, key, v))
    ensures insertNew <==> !HasKey(old(n.Shape).left, key)
    decreases Height(n.Shape), 0
  {
    var l;
    l, insertNew := InsertNode(n.left, key, v);
    n.left := l;
    n.Repr := n.Repr + l.Repr;
    n.Shape := n.Shape.(left := l.Shape);
  }

  method PlaceRight(n: TreeNode, key: Word64, v: Word64) returns (insertNew: bool)
    requires n.Valid()
    modifies n.Repr
    ensures n.Valid() && fresh(n.Repr - old(n.Repr))
    ensures old(n.Repr) <= n.Repr && (!insertNew ==> n.Repr == old(n.Repr))
    ensures n.Shape == old(n.Shape).(right := Insert(old(n.Shape).right, key, v))
    ensures insertNew <==> !HasKey(old(n.Shape).right, key)
    decreases Height(n.Shape), 0
  {
    var r;
    r, insertNew := InsertNode(n.right, key, v);
    n.right := r;
    n.Repr := n.Repr + r.Repr;
    n.Shape := n.Shape.(right := r.Shape);
  }

  /** The last step of an insertion. */
  method PaintBlack(n: TreeNode)
    requires n.Valid()
    modifies n
    ensures n.Valid() && n.Repr == old(n.Repr)
    ensures n.Shape == old(n.Shape).(color := Black)
  {
    n.color := Black;
    n.Shape := n.Shape.(color := Black);
  }

  /** `has_key`: a pure recursive search. */
  function HasKeyFrom(n: TreeNode?, key: Word64): bool
    requires ValidTree(n)
    reads n, ReprOf(n)
    ensures HasKeyFrom(n, key) <==> HasKey(ShapeOf(n), key)
    decreases ReprOf(n)
  {
    if n == null then false
    else if key == n.key then true
    else if key < n.key then HasKeyFrom(n.left, key)
    else HasKeyFrom(n.right, key)
  }

  /** `traverse`: the callback is modelled by appending what it is shown to `seen`. */
  method TraverseFrom(n: TreeNode?, seen: seq<(Word64, Word64)>) returns (visited: seq<(Word64, Word64)>)
    requires ValidTree(n)
    ensures visited == seen + Inorder(ShapeOf(n))
    decreases ReprOf(n)
  {
    if n == null {
      return seen;
    }
    visited := TraverseFrom(n.left, seen);
    visited := visited + [(n.key, n.v)];
    visited := TraverseFrom(n.right, visited);
  }

  /** The public tree: a search tree with the red-black invariants and a black root. */
  class RbTree {
    var root: TreeNode?

    ghost function Repr(): set<object>
      reads this, root
    {
      {this} + ReprOf(root)
    }

    ghost predicate Valid()
      reads this, root, ReprOf(root)
    {
      ValidTree(root) && RedBlack(ShapeOf(root))
    }

    ghost function Model(): map<Word64, Word64>
      reads this, root
    {
      Contents(ShapeOf(root))
    }

    constructor ()
      ensures Valid() && fresh(Repr()) && Model() == map[]
    {
      root := null;
    }

    /** `npr_rbtree_insert`: map update, telling whether the key is new (the C function
        returns 1 or 0). The new shape is exactly the one `InsertRoot` computes. */
    method InsertKey(key: Word64, v: Word64) returns (insertNew: bool)
      requires Valid()
      modifies this, ReprOf(root)
      ensures Valid() && fresh(Repr() - old(Repr()))
      ensures Model() == old(Model())[key := v]
      ensures insertNew <==> key !in old(Model())
      ensures ShapeOf(root) == InsertRoot(old(ShapeOf(root)), key, v)
    {
      InsertRootKeepsRedBlack(ShapeOf(root), key, v);
      HasKeyMeansContained(ShapeOf(root), key);
      var r;
      r, insertNew := InsertNode(root, key, v);
      root := r;
      PaintBlack(root);
    }

    method HasTheKey(key: Word64) returns (found: bool)
      requires Valid()
      ensures found <==> key in Model()
    {
      HasKeyMeansContained(ShapeOf(root), key);
      found := HasKeyFrom(root, key);
    }

    /** `npr_rbtree_traverse`: each binding once, in strictly ascending key order. */
    method Traverse() returns (visited: seq<(Word64, Word64)>)
      requires Valid()
      ensures Ascending(visited) && Enumerates(visited, Model())
    {
      hide Ascending, Enumerates;
      TraversalAscends(ShapeOf(root));
      visited := TraverseFrom(root, []);
      assert visited == Inorder(ShapeOf(root));
    }
  }

  /** The insertions of `InsertAll`. */
  method InsertEach(t: RbTree, pairs: seq<(Word64, Word64)>) returns (news: seq<bool>)
    requires t.Valid() && t.Model() == map[]
    modifies t.Repr()
    ensures t.Valid() && fresh(t.Repr() - old(t.Repr())) && IsLast(pairs, t.Model())
    ensures |news| == |pairs| && forall i :: 0 <= i < |pairs| ==> (news[i] <==> IsNew(pairs, i))
  {
    hide RedBlack, ValidTree, InsertRoot, Contents, IsNew, IsLast;
    news := [];
    NothingIsLast();
    assert pairs[..0] == [];
    while |news| < |pairs|
      invariant |news| <= |pairs| && t.Valid() && fresh(t.Repr() - old(t.Repr()))
      invariant IsLast(pairs[..|news|], t.Model())
      invariant forall i :: 0 <= i < |news| ==> (news[i] <==> IsNew(pairs, i))
    {
      var n := |news|;
      NextIsLast(pairs, n, t.Model());
      var new_ := t.InsertKey(pairs[n].0, pairs[n].1);
      news := news + [new_];
    }
    assert pairs[..|news|] == pairs;
  }

  /** No earlier pair has the key of the i-th. */
  predicate IsNew(pairs: seq<(Word64, Word64)>, i: nat)
    requires i < |pairs|
  {
    forall j :: 0 <= j < i ==> pairs[j].0 != pairs[i].0
  }

  lemma NothingIsLast()
    ensures IsLast([], map[])
  {
  }

  lemma NextIsLast(pairs: seq<(Word64, Word64)>, n: nat, m: map<Word64, Word64>)
    requires n < |pairs| && IsLast(pairs[..n], m)
    ensures IsLast(pairs[..n + 1], m[pairs[n].0 := pairs[n].1])
    ensures pairs[n].0 !in m <==> IsNew(pairs, n)
  {
    var prefix := pairs[..n];
    assert pairs[..n + 1] == prefix + [pairs[n]];
    OneMoreIsLast(prefix, pairs[n], m);
    KeysOfLast(prefix, m);
    hide IsLast;
    if pairs[n].0 in m {
      var j :| 0 <= j < |prefix| && prefix[j].0 == pairs[n].0;
      assert pairs[j].0 == pairs[n].0;
    } else {
      forall j | 0 <= j < n ensures pairs[j].0 != pairs[n].0 {
        assert prefix[j] == pairs[j];
      }
    }
  }

  /** A tree's whole life: any insertions, then a search for each of some keys and a traversal. An
      insertion is new when no earlier one has its key; a search finds exactly the inserted keys;
      the traversal shows strictly ascending keys, exactly those inserted, each with the value
      inserted last. */
  method InsertAll(pairs: seq<(Word64, Word64)>, keys: seq<Word64>)
    returns (news: seq<bool>, found: seq<bool>, visited: seq<(Word64, Word64)>)
    ensures |news| == |pairs| && forall i :: 0 <= i < |pairs| ==>
              (news[i] <==> forall j :: 0 <= j < i ==> pairs[j].0 != pairs[i].0)
    ensures |found| == |keys| && forall i :: 0 <= i < |keys| ==>
              (found[i] <==> exists j :: 0 <= j < |pairs| && pairs[j].0 == keys[i])
    ensures forall i, j :: 0 <= i < j < |visited| ==> visited[i].0 < visited[j].0
    ensures forall p :: p in visited <==>
              exists j :: 0 <= j < |pairs| && pairs[j] == p && forall j' :: j < j' < |pairs| ==> pairs[j'].0 != p.0
  {
    hide RbTree.Valid, Enumerates;
    var t := new RbTree();
    news := InsertEach(t, pairs);
    found := FindAll(t, keys);
    visited := t.Traverse();
    KeysOfLast(pairs, t.Model());
    ListsTheLast(pairs, t.Model(), visited);
    hide IsLast;
  }

  lemma KeysOfLast(pairs: seq<(Word64, Word64)>, m: map<Word64, Word64>)
    requires IsLast(pairs, m)
    ensures forall k :: k in m <==> exists j :: 0 <= j < |pairs| && pairs[j].0 == k
  {
  }

  method FindAll(t: RbTree, keys: seq<Word64>) returns (found: seq<bool>)
    requires t.Valid()
    ensures |found| == |keys| && forall i :: 0 <= i < |keys| ==> (found[i] <==> keys[i] in t.Model())
  {
    found := [];
    while |found| < |keys|
      invariant |found| <= |keys| && forall i :: 0 <= i < |found| ==> (found[i] <==> keys[i] in t.Model())
    {
      var f := t.HasTheKey(keys[|found|]);
      found := found + [f];
    }
  }

  /** `m` binds exactly the keys of `pairs`, each to its last value. */
  ghost predicate IsLast(pairs: seq<(Word64, Word64)>, m: map<Word64, Word64>) {
    && (forall k :: k in m <==> exists j :: 0 <= j < |pairs| && pairs[j].0 == k)
    && (forall j :: 0 <= j < |pairs| && (forall j' :: j < j' < |pairs| ==> pairs[j'].0 != pairs[j].0) ==>
          pairs[j].0 in m && m[pairs[j].0] == pairs[j].1)
  }

  lemma OneMoreIsLast(pairs: seq<(Word64, Word64)>, p: (Word64, Word64), m: map<Word64, Word64>)
    requires IsLast(pairs, m)
    ensures IsLast(pairs + [p], m[p.0 := p.1])
  {
    var longer, m' := pairs + [p], m[p.0 := p.1];
    forall k ensures k in m' <==> exists j :: 0 <= j < |longer| && longer[j].0 == k {
      if k == p.0 {
        assert longer[|pairs|].0 == k;
      } else if k in m {
        var j :| 0 <= j < |pairs| && pairs[j].0 == k;
        assert longer[j].0 == k;
      }
    }
    forall j | 0 <= j < |longer| && (forall j' :: j < j' < |longer| ==> longer[j'].0 != longer[j].0)
      ensures longer[j].0 in m' && m'[longer[j].0] == longer[j].1
    {
      if j < |pairs| {
        assert longer[|pairs|].0 != longer[j].0 && longer[j] == pairs[j];
        assert forall j' :: j < j' < |pairs| ==> pairs[j'] == longer[j'];
      }
    }
  }

  lemma {:induction false} LastOccurrence(pairs: seq<(Word64, Word64)>, k: Word64, n: nat) returns (j: nat)
    requires n <= |pairs| && exists i :: 0 <= i < n && pairs[i].0 == k
    ensures j < n && pairs[j].0 == k && forall j' :: j < j' < n ==> pairs[j'].0 != k
    decreases n
  {
    if pairs[n - 1].0 == k {
      j := n - 1;
    } else {
      j := LastOccurrence(pairs, k, n - 1);
    }
  }

  lemma ListsTheLast(pairs: seq<(Word64, Word64)>, m: map<Word64, Word64>, visited: seq<(Word64, Word64)>)
    requires IsLast(pairs, m) && Enumerates(visited, m)
    ensures forall p :: p in visited <==>
              exists j :: 0 <= j < |pairs| && pairs[j] == p && forall j' :: j < j' < |pairs| ==> pairs[j'].0 != p.0
  {
    forall p: (Word64, Word64) ensures p in visited <==> p.0 in m && m[p.0] == p.1 {
      if p in visited {
        var i :| 0 <= i < |visited| && visited[i] == p;
      }
    }
    forall p: (Word64, Word64)
      ensures p.0 in m && m[p.0] == p.1 <==>
              exists j :: 0 <= j < |pairs| && pairs[j] == p && forall j' :: j < j' < |pairs| ==> pairs[j'].0 != p.0
    {
      BoundToLast(pairs, m, p);
    }
  }

  lemma BoundToLast(pairs: seq<(Word64, Word64)>, m: map<Word64, Word64>, p: (Word64, Word64))
    requires IsLast(pairs, m)
    ensures p.0 in m && m[p.0] == p.1 <==>
            exists j :: 0 <= j < |pairs| && pairs[j] == p && forall j' :: j < j' < |pairs| ==> pairs[j'].0 != p.0
  {
    if p.0 in m {
      var j := LastOccurrence(pairs, p.0, |pairs|);
      assert m[p.0] == pairs[j].1;
      if j' :| 0 <= j' < |pairs| && pairs[j'] == p && forall i :: j' < i < |pairs| ==> pairs[i].0 != p.0 {
        assert j == j';
      }
    }
  }
}
