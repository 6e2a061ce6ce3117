/** Whole histories of the index: any sequence of insertions and deletions, and what goes
    wrong in the node array without the repair of remove_node. */
module TreeRuns {
  import opened TernaryTree
  import opened NodeArray
  import opened TstIndex

  // The arena an insertion draws its nodes from is whatever the history so far has left;
  // what is stored does not depend on it.
  datatype Op = Insert(key: string, value: nat, a: Arena) | Erase(key: string)

  predicate Allowed(op: Op) {
    op.key != "" && CString(op.key) && (op.Insert? ==> op.value > 0)
  }

  function Grown(ops: seq<Op>): Tree
    requires forall i :: 0 <= i < |ops| ==> Allowed(ops[i])
  {
    if ops == [] then Leaf
    else
      var t := Grown(ops[..|ops| - 1]);
      assert Allowed(ops[|ops| - 1]);
      match ops[|ops| - 1]
      case Insert(key, value, a) => Put(t, key, value, a)
      case Erase(key) => Delete(t, key)
  }

  function Mapped(ops: seq<Op>): map<string, nat> {
    if ops == [] then map[]
    else
      var m := Mapped(ops[..|ops| - 1]);
      match ops[|ops| - 1]
      case Insert(key, value, _) => m[key := value]
      case Erase(key) => m - {key}
  }

  // Every history: the tree stores exactly the map the same updates and removals build, in
  // order and without dead nodes, and a lookup finds the map's value or 0.
  lemma {:induction false} HistoryRefinesMap(ops: seq<Op>)
    requires forall i :: 0 <= i < |ops| ==> Allowed(ops[i])
    ensures Ordered(Grown(ops), 0, ANY_CHAR) && NoDead(Grown(ops))
    ensures Contents(Grown(ops)) == Mapped(ops)
    ensures forall k :: Get(Grown(ops), k) == if k in Mapped(ops) then Mapped(ops)[k] else 0
  {
    if ops == [] {
      assert Contents(Leaf) == map[];
    } else {
      var init := ops[..|ops| - 1];
      HistoryRefinesMap(init);
      var t := Grown(init);
      match ops[|ops| - 1]
      case Insert(key, value, a) =>
        PutRefinesMap(t, key, value, a);
        PutNoDead(t, key, value, a);
      case Erase(key) =>
        DeleteRefinesMap(t, key);
        DeleteNoDead(t, key);
    }
    forall k ensures Get(Grown(ops), k) == if k in Mapped(ops) then Mapped(ops)[k] else 0 {
      InContents(Grown(ops), k);
    }
  }

  // The same on the node array: the operations of tst.c, run one after the other on a new
  // database, end with an array in order that stores the map.
  method RunHistory(ops: seq<Op>, cap: nat) returns (db: TstDb)
    requires cap > 0 && forall i :: 0 <= i < |ops| ==> Allowed(ops[i])
    ensures fresh(db) && db.Valid() && NoDead(db.tree) && Contents(db.tree) == Mapped(ops)
  {
    db := new TstDb(cap);
    var i := 0;
    assert Contents(Leaf) == map[];
    while i < |ops|
      invariant i <= |ops| && fresh(db) && fresh(db.data)
      invariant db.Valid() && NoDead(db.tree) && Contents(db.tree) == Mapped(ops[..i])
    {
      assert ops[..i + 1][..i] == ops[..i] && Allowed(ops[i]);
      match ops[i] {
        case Insert(key, value, _) => db.Put(key, value);
        case Erase(key) =>
          db.PathsNamed(key);
          db.Delete(key, true);
      }
      i := i + 1;
    }
    assert ops[..i] == ops;
  }

  // Once everything has been deleted the tree has no node left, and every node ever
  // allocated is on the free list, once.
  lemma EmptiedIsBare(h: Heap, t: Tree, free: seq<nat>, x: nat)
    requires Represents(h, t, free) && Ordered(t, 0, ANY_CHAR) && NoDead(t) && Contents(t) == map[]
    ensures h.root == 0
    ensures Occurrences(free, x) == if 1 <= x <= h.size then 1 else 0
  {
    forall k ensures Get(t, k) == 0 { InContents(t, k); }
    EmptyWhenNoKey(t);
    assert Count(t, x) + CtxCount(Top, x) + Occurrences(free, x) == InRange(h.size, x);
  }

  // A node handed out next is neither in the tree nor handed out before.
  lemma NextNodeIsFresh(h: Heap, t: Tree, free: seq<nat>)
    requires Represents(h, t, free)
    ensures Count(t, Arena(free, h.size).Next()) == 0 && Arena(free, h.size).Next() > 0
    ensures forall x: nat :: Count(t, x) + Occurrences(free, x) == InRange(h.size, x)
  {
    var x := Arena(free, h.size).Next();
    forall y: nat ensures Count(t, y) + Occurrences(free, y) == InRange(h.size, y) {
      assert Count(t, y) + CtxCount(Top, y) + Occurrences(free, y) == InRange(h.size, y);
    }
    if free == [] { assert InRange(h.size, x) == 0; }
  }

  // ---------- remove_node as it stands ----------

  function Cleared(h: Heap, node: nat): Heap
    requires node < |h.data|
  {
    h.(data := h.data[node := h.data[node].(value := 0)])
  }

  // The array after b, a and c have been put with values 1, 2 and 3.
  const THREE: Heap :=
    Heap(1, 3, 0, [ZERO, Cell('b', 2, 0, 3, 0, 1), Cell('a', 0, 0, 0, 1, 2), Cell('c', 0, 0, 0, 1, 3)])

  function ThreeTree(): Tree {
    Put(Put(Put(Leaf, "b", 1, Arena([], 0)), "a", 2, Arena([], 1)), "c", 3, Arena([], 2))
  }

  lemma ThreeIsReached()
    ensures Represents(THREE, ThreeTree(), [])
    ensures Spoils(ThreeTree(), "b")
  {
    var a, c := Node(2, 'a', 2, Leaf, Leaf, Leaf), Node(3, 'c', 3, Leaf, Leaf, Leaf);
    var t := Node(1, 'b', 1, a, Leaf, c);
    assert ThreeTree() == t;
    forall x: nat ensures Count(t, x) + CtxCount(Top, x) + Occurrences([], x) == InRange(3, x) {
      assert Count(a, x) == (if x == 2 then 1 else 0) && Count(c, x) == if x == 3 then 1 else 0;
    }
    assert Covers(Top, t, Arena([], 3));
  }

  lemma {:induction false} CycleIsNoFreeList(d: seq<Cell>, x: nat, y: nat, free: seq<nat>)
    requires 0 < x < |d| && 0 < y < |d| && d[x].mid == y && d[y].mid == x
    ensures !FreeList(d, x, free) && !FreeList(d, y, free)
    decreases |free|
  {
    if free != [] { CycleIsNoFreeList(d, x, y, free[1..]); }
  }

  // Without the repair: deleting b leaves c naming the recycled node of b as its parent, so
  // that deleting c recycles that node a second time.  The free list becomes a cycle, and
  // the tree still links to the recycled node of c.
  lemma LostParentCorruptsFreeList()
    ensures var h1 := Unlink(Cleared(THREE, 1), 1, 2, false);        // delete b: node 1, greatest left node 2
      && h1.head == 1 && h1.data[3].parent == 1                      // c's parent is the recycled node
      && var h2 := Unlink(Cleared(h1, 3), 3, 0, false);              // delete c: node 3, then its "parent" 1
      && h1.data[3].parent == 1 && h2.data[1].mid == 0 && h2.data[1].value == 0
      && var h3 := Unlink(h2, 1, 0, false);
      && (forall free :: !FreeList(h3.data, h3.head, free))
      && h3.root == 2 && h3.data[2].right == 3 && h3.data[h3.head].mid == 3
  {
    var d1 := [ZERO, Cell('b', 2, 0, 3, 0, 0), Cell('a', 0, 0, 3, 0, 2), Cell('c', 0, 0, 0, 1, 3)];
    var h1 := Unlink(Cleared(THREE, 1), 1, 2, false);
    assert h1 == Heap(2, 3, 1, d1);
    var d2 := [ZERO, Cell('b', 2, 0, 0, 0, 0), Cell('a', 0, 0, 3, 0, 2), Cell('c', 0, 1, 0, 1, 0)];
    var h2 := Unlink(Cleared(h1, 3), 3, 0, false);
    assert h2 == Heap(2, 3, 3, d2);
    var h3 := Unlink(h2, 1, 0, false);
    assert h3.head == 1 && h3.data[1].mid == 3 && h3.data[3].mid == 1;
    forall free ensures !FreeList(h3.data, h3.head, free) {
      CycleIsNoFreeList(h3.data, 1, 3, free);
    }
  }
}
