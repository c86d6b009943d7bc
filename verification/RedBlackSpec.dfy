/** The left-leaning red-black tree as a value: what one insertion does to the
    shape and the colours, the invariants it keeps, and what they buy. */
module RedBlackSpec {
  import opened Words

  // Keys and values are 64-bit words (`uintptr_t`): they are only compared and stored.

  datatype Color = Black | Red

  function Flipped(c: Color): Color {
    if c == Red then Black else Red
  }

  datatype Tree = Leaf | Node(left: Tree, key: Word64, value: Word64, color: Color, right: Tree)

  predicate IsRed(t: Tree) {
    t.Node? && t.color == Red
  }

  // ---------------------------------------------------------------- operations

  function RotateRight(t: Tree): Tree
    requires t.Node? && t.left.Node?
  {
    t.left.(right := t.(left := t.left.right, color := Red), color := t.color)
  }

  function RotateLeft(t: Tree): Tree
    requires t.Node? && t.right.Node?
  {
    t.right.(left := t.(right := t.right.left, color := Red), color := t.color)
  }

  function FlipColor(t: Tree): Tree
    requires t.Node? && t.left.Node? && t.right.Node?
  {
    Node(t.left.(color := Flipped(t.left.color)), t.key, t.value, Flipped(t.color),
         t.right.(color := Flipped(t.right.color)))
  }

  predicate IsFourNode(t: Tree) {
    t.Node? && IsRed(t.left) && IsRed(t.right)
  }

  /** On the way down: a 4-node is split before the search goes past it. */
  function Split(t: Tree): (s: Tree)
    ensures t.Node? ==> s.Node? && Height(s.left) == Height(t.left) && Height(s.right) == Height(t.right)
  {
    if IsFourNode(t) then FlipColor(t) else t
  }

  /** On the way up, the two rotations as the code guards them. */
  function FixUp(t: Tree): (r: Tree)
    requires t.Node?
    ensures r.Node?
  {
    var t1 := if IsRed(t.right) then RotateLeft(t) else t;
    if IsRed(t1.left) && IsRed(t1.left.left) then RotateRight(t1) else t1
  }

  function Insert(t: Tree, key: Word64, value: Word64): (r: Tree)
    ensures r.Node?
    decreases Height(t), 1
  {
    if t.Leaf? then
      Node(Leaf, key, value, Red, Leaf)
    else
      FixUp(Place(Split(t), key, value))
  }

  /** The step between `Split` and `FixUp`: overwrite, or insert into one side. */
  function Place(t: Tree, key: Word64, value: Word64): (r: Tree)
    requires t.Node?
    ensures r.Node?
    decreases Height(t), 0
  {
    if key == t.key then t.(value := value)
    else if key < t.key then t.(left := Insert(t.left, key, value))
    else t.(right := Insert(t.right, key, value))
  }

  /** A whole insertion: the root is painted black at the end. */
  function InsertRoot(t: Tree, key: Word64, value: Word64): Tree {
    var r := Insert(t, key, value);
    r.(color := Black)
  }

  function HasKey(t: Tree, key: Word64): bool {
    t.Node? &&
    (key == t.key || if key < t.key then HasKey(t.left, key) else HasKey(t.right, key))
  }

  function Inorder(t: Tree): seq<(Word64, Word64)> {
    if t.Leaf? then [] else Inorder(t.left) + [(t.key, t.value)] + Inorder(t.right)
  }

  // ---------------------------------------------------------------- measures and invariants

  function Max(a: nat, b: nat): nat {
    if a < b then b else a
  }

  function Height(t: Tree): nat {
    if t.Leaf? then 0 else 1 + Max(Height(t.left), Height(t.right))
  }

  function BlackHeight(t: Tree): nat {
    if t.Leaf? then 0 else BlackHeight(t.left) + if t.color == Black then 1 else 0
  }

  function Contents(t: Tree): map<Word64, Word64> {
    if t.Leaf? then map[] else Contents(t.left) + Contents(t.right) + map[t.key := t.value]
  }

  ghost predicate AllBelow(m: map<Word64, Word64>, key: Word64) {
    forall k <- m :: k < key
  }

  ghost predicate AllAbove(key: Word64, m: map<Word64, Word64>) {
    forall k <- m :: key < k
  }

  ghost predicate SearchOrder(t: Tree) {
    t.Node? ==>
      && SearchOrder(t.left) && SearchOrder(t.right)
      && AllBelow(Contents(t.left), t.key)
      && AllAbove(t.key, Contents(t.right))
  }

  /** Every path from `t` down to a leaf passes the same number of black nodes. */
  predicate Balanced(t: Tree) {
    t.Node? ==> Balanced(t.left) && Balanced(t.right) && BlackHeight(t.left) == BlackHeight(t.right)
  }

  /** No red node has a red child, and a right child is red only beside a red left child. */
  predicate Colored(t: Tree) {
    t.Node? ==>
      && Colored(t.left) && Colored(t.right)
      && (IsRed(t.right) ==> IsRed(t.left))
      && (t.color == Red ==> !IsRed(t.left))
  }

  /** What a call on a red subtree may hand back: a red root whose left child may be red too. */
  predicate AlmostColored(t: Tree) {
    t.Node? && t.color == Red && Colored(t.left) && Colored(t.right) && !IsRed(t.right)
  }

  ghost predicate RedBlack(t: Tree) {
    SearchOrder(t) && Balanced(t) && Colored(t) && !IsRed(t)
  }

  // ---------------------------------------------------------------- search order and contents

  /** Joining the contents of three subtrees around two keys does not depend on the grouping. */
  lemma Regroup(a: map<Word64, Word64>, k: Word64, v: Word64, b: map<Word64, Word64>,
                k': Word64, v': Word64, c: map<Word64, Word64>)
    requires AllBelow(a, k) && AllAbove(k, b) && AllBelow(b, k') && AllAbove(k', c) && k < k'
    ensures (a + b + map[k := v]) + c + map[k' := v'] == a + (b + c + map[k' := v']) + map[k := v]
    ensures AllBelow(a + b + map[k := v], k') && AllAbove(k, b + c + map[k' := v'])
  {
  }

  /** Updating one side of a node, or the node itself, updates the joined contents. */
  lemma UpdateUnderNode(a: map<Word64, Word64>, k: Word64, v: Word64, b: map<Word64, Word64>, key: Word64, value: Word64)
    requires AllBelow(a, k) && AllAbove(k, b)
    ensures key < k ==> a[key := value] + b + map[k := v] == (a + b + map[k := v])[key := value]
    ensures key > k ==> a + b[key := value] + map[k := v] == (a + b + map[k := v])[key := value]
    ensures key == k ==> a + b + map[k := value] == (a + b + map[k := v])[key := value]
    ensures key < k ==> AllBelow(a[key := value], k)
    ensures key > k ==> AllAbove(k, b[key := value])
  {
  }

  lemma RotateRightKeepsContents(t: Tree)
    requires t.Node? && t.left.Node? && SearchOrder(t)
    ensures SearchOrder(RotateRight(t)) && Contents(RotateRight(t)) == Contents(t)
  {
    var l := t.left;
    assert l.key in Contents(l) && AllBelow(Contents(l.right), t.key);
    Regroup(Contents(l.left), l.key, l.value, Contents(l.right), t.key, t.value, Contents(t.right));
  }

  lemma RotateLeftKeepsContents(t: Tree)
    requires t.Node? && t.right.Node? && SearchOrder(t)
    ensures SearchOrder(RotateLeft(t)) && Contents(RotateLeft(t)) == Contents(t)
  {
    var r := t.right;
    assert r.key in Contents(r) && AllAbove(t.key, Contents(r.left));
    Regroup(Contents(t.left), t.key, t.value, Contents(r.left), r.key, r.value, Contents(r.right));
  }

  lemma FixUpKeepsContents(t: Tree)
    requires t.Node? && SearchOrder(t)
    ensures SearchOrder(FixUp(t)) && Contents(FixUp(t)) == Contents(t)
  {
    if IsRed(t.right) { RotateLeftKeepsContents(t); }
    var t1 := if IsRed(t.right) then RotateLeft(t) else t;
    if IsRed(t1.left) { RotateRightKeepsContents(t1); }
  }

  lemma SplitKeepsContents(t: Tree)
    requires t.Node? && SearchOrder(t)
    ensures SearchOrder(Split(t)) && Contents(Split(t)) == Contents(t)
  {
    if IsFourNode(t) {
      var s := Split(t);
      assert Contents(s.left) == Contents(t.left) && Contents(s.right) == Contents(t.right);
    }
  }

  /** Insertion is map update, on every search tree whatever its colours. */
  lemma {:induction false} InsertUpdatesContents(t: Tree, key: Word64, value: Word64)
    requires SearchOrder(t)
    ensures SearchOrder(Insert(t, key, value))
    ensures Contents(Insert(t, key, value)) == Contents(t)[key := value]
    decreases Height(t), 1
  {
    if t.Node? {
      SplitKeepsContents(t);
      PlaceUpdatesContents(Split(t), key, value);
      FixUpKeepsContents(Place(Split(t), key, value));
    }
  }

  lemma {:induction false} PlaceUpdatesContents(t: Tree, key: Word64, value: Word64)
    requires t.Node? && SearchOrder(t)
    ensures SearchOrder(Place(t, key, value))
    ensures Contents(Place(t, key, value)) == Contents(t)[key := value]
    decreases Height(t), 0
  {
    UpdateUnderNode(Contents(t.left), t.key, t.value, Contents(t.right), key, value);
    if key < t.key {
      InsertUpdatesContents(t.left, key, value);
    } else if key > t.key {
      InsertUpdatesContents(t.right, key, value);
    }
  }

  lemma {:induction false} HasKeyMeansContained(t: Tree, key: Word64)
    requires SearchOrder(t)
    ensures HasKey(t, key) <==> key in Contents(t)
  {
    if t.Node? && key != t.key {
      HasKeyMeansContained(if key < t.key then t.left else t.right, key);
    }
  }

  // ---------------------------------------------------------------- colours and balance

  /** One insertion into a subtree, indexed by the colour of its root: a black 2- or
      3-node stays black, a black node (or a leaf) comes back properly coloured, and a red
      one may come back as a red node with a red left child for the caller to rotate. */
  lemma {:induction false} InsertKeepsColors(t: Tree, key: Word64, value: Word64)
    requires Balanced(t) && Colored(t)
    ensures var r := Insert(t, key, value);
            && Balanced(r) && BlackHeight(r) == BlackHeight(t)
            && (if IsRed(t) then AlmostColored(r) else Colored(r))
            && (t.Node? && !IsRed(t) && !IsFourNode(t) ==> !IsRed(r))
    decreases Height(t)
  {
    if t.Node? {
      var s := Split(t);
      if key < s.key {
        InsertKeepsColors(s.left, key, value);
      } else if key > s.key {
        InsertKeepsColors(s.right, key, value);
      }
    }
  }

  /** The main invariant: a tree built by insertions is a left-leaning red-black tree
      with a black root, holding the old contents with one binding replaced. */
  lemma InsertRootKeepsRedBlack(t: Tree, key: Word64, value: Word64)
    requires RedBlack(t)
    ensures RedBlack(InsertRoot(t, key, value))
    ensures Contents(InsertRoot(t, key, value)) == Contents(t)[key := value]
  {
    InsertUpdatesContents(t, key, value);
    InsertKeepsColors(t, key, value);
  }

  /** The tree after a whole sequence of insertions. */
  function Build(pairs: seq<(Word64, Word64)>): Tree {
    if pairs == [] then Leaf
    else InsertRoot(Build(pairs[..|pairs| - 1]), pairs[|pairs| - 1].0, pairs[|pairs| - 1].1)
  }

  /** The map the same sequence leaves: the last binding of a key wins. */
  function LastBindings(pairs: seq<(Word64, Word64)>): map<Word64, Word64> {
    if pairs == [] then map[]
    else LastBindings(pairs[..|pairs| - 1])[pairs[|pairs| - 1].0 := pairs[|pairs| - 1].1]
  }

  lemma {:induction false} EveryReachableTreeIsRedBlack(pairs: seq<(Word64, Word64)>)
    ensures RedBlack(Build(pairs))
    ensures Contents(Build(pairs)) == LastBindings(pairs)
  {
    if pairs != [] {
      EveryReachableTreeIsRedBlack(pairs[..|pairs| - 1]);
      InsertRootKeepsRedBlack(Build(pairs[..|pairs| - 1]), pairs[|pairs| - 1].0, pairs[|pairs| - 1].1);
    }
  }

  // ---------------------------------------------------------------- the missing guard

  /** Rotating left and then right, when both children are red, is the identity. */
  lemma RotationsCancel(t: Tree)
    requires IsFourNode(t)
    ensures RotateRight(RotateLeft(t)) == t
  {
  }

  /** `FixUp` with the left rotation taken only when the left child is not red. */
  function FixUpGuarded(t: Tree): (r: Tree)
    requires t.Node?
    ensures r.Node?
  {
    var t1 := if IsRed(t.right) && !IsRed(t.left) then RotateLeft(t) else t;
    if IsRed(t1.left) && IsRed(t1.left.left) then RotateRight(t1) else t1
  }

  /** The textbook insertion, which carries the guard. */
  function InsertGuarded(t: Tree, key: Word64, value: Word64): (r: Tree)
    ensures r.Node?
    decreases Height(t)
  {
    if t.Leaf? then
      Node(Leaf, key, value, Red, Leaf)
    else
      var s := Split(t);
      FixUpGuarded(
        if key == s.key then s.(value := value)
        else if key < s.key then s.(left := InsertGuarded(s.left, key, value))
        else s.(right := InsertGuarded(s.right, key, value)))
  }

  /** Leaving the guard out changes neither shape nor colours. */
  lemma {:induction false} GuardIsRedundant(t: Tree, key: Word64, value: Word64)
    requires Balanced(t) && Colored(t)
    ensures Insert(t, key, value) == InsertGuarded(t, key, value)
    decreases Height(t)
  {
    if t.Node? {
      var s := Split(t);
      if key < s.key {
        GuardIsRedundant(s.left, key, value);
        InsertKeepsColors(s.left, key, value);
      } else if key > s.key {
        GuardIsRedundant(s.right, key, value);
        InsertKeepsColors(s.right, key, value);
      }
    }
  }

  // ---------------------------------------------------------------- size and depth

  lemma {:induction false} Pow2Adds(m: nat, n: nat)
    ensures Pow2(m + n) == Pow2(m) * Pow2(n)
  {
    if n > 0 {
      Pow2Adds(m, n - 1);
    }
  }

  ghost predicate Ascending(s: seq<(Word64, Word64)>) {
    forall i, j :: 0 <= i < j < |s| ==> s[i].0 < s[j].0
  }

  /** `s` names each binding of `m` exactly once. */
  ghost predicate Enumerates(s: seq<(Word64, Word64)>, m: map<Word64, Word64>) {
    && |s| == |m|
    && (forall i :: 0 <= i < |s| ==> s[i].0 in m && m[s[i].0] == s[i].1)
    && (forall k <- m :: (k, m[k]) in s)
  }

  /** The traversal visits every binding once, keys strictly ascending. */
  lemma {:induction false} TraversalAscends(t: Tree)
    requires SearchOrder(t)
    ensures Ascending(Inorder(t)) && Enumerates(Inorder(t), Contents(t))
  {
    if t.Node? {
      TraversalAscends(t.left);
      TraversalAscends(t.right);
      JoinedLists(Inorder(t.left), Contents(t.left), t.key, t.value, Inorder(t.right), Contents(t.right));
    }
  }

  lemma JoinedLists(l: seq<(Word64, Word64)>, a: map<Word64, Word64>, k: Word64, v: Word64,
                    r: seq<(Word64, Word64)>, b: map<Word64, Word64>)
    requires Ascending(l) && Enumerates(l, a) && Ascending(r) && Enumerates(r, b)
    requires AllBelow(a, k) && AllAbove(k, b)
    ensures Ascending(l + [(k, v)] + r) && Enumerates(l + [(k, v)] + r, a + b + map[k := v])
  {
    JoinedSize(a, k, v, b);
    JoinedCovers(l, a, k, v, r, b);
    JoinedAscends(l, (k, v), r);
    JoinedBinds(l, a, k, v, r, b);
  }

  lemma JoinedAscends(l: seq<(Word64, Word64)>, x: (Word64, Word64), r: seq<(Word64, Word64)>)
    requires Ascending(l) && Ascending(r)
    requires forall i :: 0 <= i < |l| ==> l[i].0 < x.0
    requires forall i :: 0 <= i < |r| ==> x.0 < r[i].0
    ensures Ascending(l + [x] + r)
  {
  }

  lemma JoinedBinds(l: seq<(Word64, Word64)>, a: map<Word64, Word64>, k: Word64, v: Word64,
                    r: seq<(Word64, Word64)>, b: map<Word64, Word64>)
    requires forall i :: 0 <= i < |l| ==> l[i].0 in a && a[l[i].0] == l[i].1
    requires forall i :: 0 <= i < |r| ==> r[i].0 in b && b[r[i].0] == r[i].1
    requires AllBelow(a, k) && AllAbove(k, b)
    ensures var s, m := l + [(k, v)] + r, a + b + map[k := v];
            forall i :: 0 <= i < |s| ==> s[i].0 in m && m[s[i].0] == s[i].1
  {
  }

  lemma JoinedCovers(l: seq<(Word64, Word64)>, a: map<Word64, Word64>, k: Word64, v: Word64,
                     r: seq<(Word64, Word64)>, b: map<Word64, Word64>)
    requires forall k' <- a :: (k', a[k']) in l
    requires forall k' <- b :: (k', b[k']) in r
    ensures forall k' <- a + b + map[k := v] :: (k', (a + b + map[k := v])[k']) in l + [(k, v)] + r
  {
  }

  lemma JoinedSize(a: map<Word64, Word64>, k: Word64, v: Word64, b: map<Word64, Word64>)
    requires AllBelow(a, k) && AllAbove(k, b)
    ensures |a + b + map[k := v]| == |a| + 1 + |b|
  {
    assert (a + b + map[k := v]).Keys == a.Keys + b.Keys + {k};
    assert a.Keys !! b.Keys && k !in a.Keys + b.Keys;
  }

  lemma {:induction false} HeightAgainstBlackHeight(t: Tree)
    requires Balanced(t) && Colored(t)
    ensures Height(t) <= 2 * BlackHeight(t) + if IsRed(t) then 1 else 0
  {
    if t.Node? {
      HeightAgainstBlackHeight(t.left);
      HeightAgainstBlackHeight(t.right);
    }
  }

  lemma {:induction false} SizeAgainstBlackHeight(t: Tree)
    requires Balanced(t)
    ensures Pow2(BlackHeight(t)) <= |Inorder(t)| + 1
  {
    if t.Node? {
      SizeAgainstBlackHeight(t.left);
      SizeAgainstBlackHeight(t.right);
    }
  }

  lemma {:induction false} TraversalSize(t: Tree)
    requires SearchOrder(t)
    ensures |Inorder(t)| == |Contents(t)|
  {
    if t.Node? {
      TraversalSize(t.left);
      TraversalSize(t.right);
      JoinedSize(Contents(t.left), t.key, t.value, Contents(t.right));
    }
  }

  /** With m - 1 keys in the tree no search or insertion goes deeper than 2 * log2(m). */
  lemma DepthIsLogarithmic(t: Tree, m: nat)
    requires RedBlack(t) && m == |Contents(t)| + 1
    ensures Height(t) <= 2 * BlackHeight(t) && Pow2(BlackHeight(t)) <= m
    ensures Pow2(Height(t)) <= m * m
  {
    TraversalSize(t);
    HeightAgainstBlackHeight(t);
    SizeAgainstBlackHeight(t);
    var h, b := Height(t), BlackHeight(t);
    assert h <= 2 * b && Pow2(b) <= m;
    hide *;
    PowerOfTwiceBlackHeight(h, b, m);
  }

  lemma PowerOfTwiceBlackHeight(h: nat, b: nat, n: nat)
    requires h <= 2 * b && Pow2(b) <= n
    ensures Pow2(h) <= n * n
  {
    Pow2Monotone(h, b + b);
    Pow2Adds(b, b);
    Square(Pow2(b), n);
  }

  lemma Square(p: nat, n: nat)
    requires p <= n
    ensures p * p <= n * n
  {
    assert p * p <= p * n <= n * n;
  }
}
