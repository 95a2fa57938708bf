/** The binary search tree on the landing page's data-structure card: a fixed starting
    tree and an insert that sends smaller values left and every other value, equal
    ones included, right. */
module SearchTreeCard {
  import opened Wrappers

  /** A node holds a value and two children; a missing child is `Empty`. A node drawn
      with `children: []` has two `Empty` children here. */
  datatype Tree = Empty | Node(value: int, left: Tree, right: Tree)

  /** The values stored in the tree, with repetitions. */
  function Values(t: Tree): multiset<int> {
    match t
    case Empty => multiset{}
    case Node(v, l, r) => Values(l) + multiset{v} + Values(r)
  }

  /** Number of nodes. */
  function Size(t: Tree): nat {
    match t
    case Empty => 0
    case Node(_, l, r) => Size(l) + 1 + Size(r)
  }

  /** Every value in `t` is smaller than `b`. */
  predicate AllBelow(t: Tree, b: int) {
    match t
    case Empty => true
    case Node(v, l, r) => v < b && AllBelow(l, b) && AllBelow(r, b)
  }

  /** Every value in `t` is at least `b`. */
  predicate AllAtLeast(t: Tree, b: int) {
    match t
    case Empty => true
    case Node(v, l, r) => v >= b && AllAtLeast(l, b) && AllAtLeast(r, b)
  }

  /** Search-tree order: every value in a left subtree is smaller than its node and
      every value in a right subtree is at least as large. */
  predicate IsBst(t: Tree) {
    match t
    case Empty => true
    case Node(v, l, r) => IsBst(l) && IsBst(r) && AllBelow(l, v) && AllAtLeast(r, v)
  }

  /** Lookup following the same left/right rule the insert uses. */
  predicate Find(t: Tree, x: int) {
    match t
    case Empty => false
    case Node(v, l, r) => x == v || (if x < v then Find(l, x) else Find(r, x))
  }

  /** The tree the card starts with and `resetTree` restores. */
  function InitialTree(): (t: Tree)
    ensures Size(t) == 7
  {
    Node(50,
      Node(30, Node(20, Empty, Empty), Node(40, Empty, Empty)),
      Node(70, Node(60, Empty, Empty), Node(80, Empty, Empty)))
  }

  /** The inner `insert`: a missing child becomes a single node holding `x`; otherwise
      the value walks left when strictly smaller and right otherwise, and the node on
      the path keeps its value and the child it did not walk into. */
  function Insert(t: Tree, x: int): (r: Tree)
    ensures r.Node?
    ensures t.Empty? ==> r.value == x && r.left.Empty? && r.right.Empty?
    ensures t.Node? ==> r.value == t.value
    ensures t.Node? && x < t.value ==> r.right == t.right
    ensures t.Node? && x >= t.value ==> r.left == t.left
  {
    match t
    case Empty => Node(x, Empty, Empty)
    case Node(v, l, rt) =>
      if x < v then Node(v, Insert(l, x), rt) else Node(v, l, Insert(rt, x))
  }

  /** `insertNode`: a value that does not parse leaves the tree alone and keeps the
      input; a parsed value is inserted and the input is cleared. */
  function InsertNode(t: Tree, parsed: Option<int>): (r: (Tree, bool))
    ensures parsed.None? <==> r == (t, false)
    ensures parsed.Some? ==> r.1 && r.0 == Insert(t, parsed.value)
  {
    match parsed
    case None => (t, false)
    case Some(x) => (Insert(t, x), true)
  }

  // ---------------------------------------------------------------------------
  // Properties

  /** `AllBelow` says what it claims about the stored values. */
  lemma {:induction false} BelowMeansValues(t: Tree, b: int)
    ensures AllBelow(t, b) <==> forall x | x in Values(t) :: x < b
    decreases t
  {
    match t
    case Empty =>
    case Node(v, l, r) =>
      BelowMeansValues(l, b);
      BelowMeansValues(r, b);
      assert Values(t) == Values(l) + multiset{v} + Values(r);
      assert forall x :: x in Values(t) <==> x in Values(l) || x == v || x in Values(r);
  }

  /** `AllAtLeast` says what it claims about the stored values. */
  lemma {:induction false} AtLeastMeansValues(t: Tree, b: int)
    ensures AllAtLeast(t, b) <==> forall x | x in Values(t) :: x >= b
    decreases t
  {
    match t
    case Empty =>
    case Node(v, l, r) =>
      AtLeastMeansValues(l, b);
      AtLeastMeansValues(r, b);
      assert Values(t) == Values(l) + multiset{v} + Values(r);
      assert forall x :: x in Values(t) <==> x in Values(l) || x == v || x in Values(r);
  }

  /** Insertion adds exactly one node, holding the inserted value. */
  lemma {:induction false} InsertCounts(t: Tree, x: int)
    ensures Size(Insert(t, x)) == Size(t) + 1
    ensures Values(Insert(t, x)) == Values(t) + multiset{x}
    decreases t
  {
    match t
    case Empty =>
    case Node(v, l, r) =>
      if x < v {
        InsertCounts(l, x);
      } else {
        InsertCounts(r, x);
      }
  }

  /** The starting tree is in search-tree order. */
  lemma InitialIsBst()
    ensures IsBst(InitialTree())
  {
    var left := Node(30, Node(20, Empty, Empty), Node(40, Empty, Empty));
    var right := Node(70, Node(60, Empty, Empty), Node(80, Empty, Empty));
    assert IsBst(left) && AllBelow(left, 50);
    assert IsBst(right) && AllAtLeast(right, 50);
  }

  /** Inserting a value that respects a bound keeps the bound. */
  lemma {:induction false} InsertKeepsBounds(t: Tree, x: int, b: int)
    ensures AllBelow(t, b) && x < b ==> AllBelow(Insert(t, x), b)
    ensures AllAtLeast(t, b) && x >= b ==> AllAtLeast(Insert(t, x), b)
    decreases t
  {
    match t
    case Empty =>
    case Node(v, l, r) =>
      if x < v {
        InsertKeepsBounds(l, x, b);
      } else {
        InsertKeepsBounds(r, x, b);
      }
  }

  /** Insertion keeps the search-tree order. */
  lemma {:induction false} InsertKeepsBst(t: Tree, x: int)
    requires IsBst(t)
    ensures IsBst(Insert(t, x))
    decreases t
  {
    match t
    case Empty =>
    case Node(v, l, r) =>
      if x < v {
        InsertKeepsBst(l, x);
        InsertKeepsBounds(l, x, v);
      } else {
        InsertKeepsBst(r, x);
        InsertKeepsBounds(r, x, v);
      }
  }

  /** In a search tree, the lookup finds exactly the stored values. */
  lemma {:induction false} FindExactly(t: Tree, x: int)
    requires IsBst(t)
    ensures Find(t, x) <==> x in Values(t)
    decreases t
  {
    match t
    case Empty =>
    case Node(v, l, r) =>
      FindExactly(l, x);
      FindExactly(r, x);
      BelowMeansValues(l, v);
      AtLeastMeansValues(r, v);
  }

  /** After inserting into a search tree, the lookup finds the new value and still finds
      every value it found before. */
  lemma InsertThenFind(t: Tree, x: int, y: int)
    requires IsBst(t)
    ensures Find(Insert(t, x), x)
    ensures Find(t, y) ==> Find(Insert(t, x), y)
  {
    InsertKeepsBst(t, x);
    InsertCounts(t, x);
    FindExactly(t, y);
    FindExactly(Insert(t, x), x);
    FindExactly(Insert(t, x), y);
  }

  /** Entering a number keeps the card's tree in search-tree order; a rejected entry
      changes nothing. */
  lemma InsertNodeKeepsBst(t: Tree, parsed: Option<int>)
    requires IsBst(t)
    ensures IsBst(InsertNode(t, parsed).0)
    ensures Size(InsertNode(t, parsed).0) == if parsed.Some? then Size(t) + 1 else Size(t)
  {
    if parsed.Some? {
      InsertKeepsBst(t, parsed.value);
      InsertCounts(t, parsed.value);
    }
  }
}
