/** The index itself: tst_db with its operations, working in place on the node array. */
module TstIndex {
  import opened TernaryTree
  import opened NodeArray

  class TstDb {
    var root: nat
    var size: nat
    var fHead: nat
    var data: array<Cell>
    // The tree the array stands for and the recycled nodes, first to be reused first.
    ghost var tree: Tree
    ghost var free: seq<nat>

    ghost function Snap(): Heap
      reads this, data
    {
      Heap(root, size, fHead, data[..])
    }

    // Everything but the parent indices is in order: enough for all reading operations.
    ghost predicate Readable()
      reads this, data
    {
      Consistent(Snap(), tree, free) && Ordered(tree, 0, ANY_CHAR)
    }

    ghost predicate Valid()
      reads this, data
    {
      Represents(Snap(), tree, free) && Ordered(tree, 0, ANY_CHAR)
    }

    // The array part of Valid, while tree is being rebuilt.
    ghost predicate Sound()
      reads this, data
    {
      0 < data.Length && size < data.Length && data[0] == ZERO && FreeList(data[..], fHead, free)
    }

    ghost function Store(): Arena
      reads this
    {
      Arena(free, size)
    }

    constructor (cap: nat)
      requires cap > 0
      ensures Valid() && fresh(data) && tree == Leaf && free == [] && data.Length == cap
    {
      root, size, fHead := 0, 0, 0;
      tree, free := Leaf, [];
      data := new Cell[cap](_ => ZERO);
    }

    // reload_index: the struct and the node array read back as they were dumped.
    constructor Reload(h: Heap, ghost t: Tree, ghost fl: seq<nat>)
      requires Represents(h, t, fl) && Ordered(t, 0, ANY_CHAR)
      ensures Valid() && fresh(data) && Snap() == h && tree == t && free == fl
    {
      root, size, fHead := h.root, h.size, h.head;
      tree, free := t, fl;
      data := new Cell[|h.data|](i requires 0 <= i < |h.data| => h.data[i]);
      new;
      assert data[..] == h.data;
    }

    // Room for one more node; the array doubles when its last cell is next.
    method EnsureEnoughSpace()
      requires 0 < data.Length && size < data.Length
      modifies this`data
      ensures data == old(data) || fresh(data)
      ensures size + 1 < data.Length
      ensures data.Length == if size >= old(data.Length) - 1 then 2 * old(data.Length) else old(data.Length)
      ensures data[..old(data.Length)] == old(data[..])
    {
      if size >= data.Length - 1 {
        var wider := new Cell[2 * data.Length](_ => ZERO);
        forall i | 0 <= i < data.Length { wider[i] := data[i]; }
        assert wider[..data.Length] == data[..];
        data := wider;
      }
    }

    // A zeroed node: the head of the free list if there is one, else the next unused index.
    method NewNode(ghost ctx: Ctx) returns (x: nat)
      requires Sound() && Covers(ctx, Leaf, Store())
      modifies this`size, this`fHead, this`data, this`free, data
      ensures data == old(data) || fresh(data)
      ensures Sound() && data.Length >= old(data.Length)
      ensures x == old(Store().Next()) && Store() == old(Store().Rest())
      ensures 0 < x < data.Length && data[x] == ZERO
      ensures forall y: nat :: y <= old(size) && y != x ==> data[y] == old(data[..])[y]
      ensures forall y: nat :: (if y == x then 1 else 0) + CtxCount(ctx, y) + Occurrences(free, y) == InRange(size, y)
    {
      ghost var before := data[..];
      assert Count(Leaf, Store().Next()) + CtxCount(ctx, Store().Next()) + Occurrences(free, Store().Next())
          == InRange(size, Store().Next());
      if fHead == 0 {
        EnsureEnoughSpace();
        size := size + 1;
        data[size] := ZERO;
        x := size;
      } else {
        x := fHead;
        fHead := data[fHead].mid;
        data[x] := ZERO;
        free := free[1..];
        FreeFrame(before, data[..], fHead, free);
      }
      assert data[..][..|before|][0] == ZERO;
      forall y: nat
        ensures (if y == x then 1 else 0) + CtxCount(ctx, y) + Occurrences(free, y) == InRange(size, y)
      {
        assert Count(Leaf, y) + CtxCount(ctx, y) + Occurrences(old(free), y) == InRange(old(size), y);
      }
    }

    // Puts s[d..] into the subtree t at node, whose parent is the given one; returns the
    // root of the new subtree.  Only cells of t and of the arena change.  Parent indices are
    // right afterwards if they were, which is what `whole` records.
    method Insert(node: nat, s: string, value: nat, d: nat, parent: nat,
                  ghost t: Tree, ghost ctx: Ctx, ghost whole: bool)
      returns (x: nat, ghost t': Tree)
      requires d < |s| && Sound() && node == Root(t) && parent == Owner(ctx)
      requires HostsIf(data[..], t, parent, whole) && Covers(ctx, t, Store())
      modifies this`size, this`fHead, this`data, this`free, data
      decreases |s| - d, t, 0
      ensures data == old(data) || fresh(data)
      ensures Sound() && data.Length >= old(data.Length)
      ensures t' == TernaryTree.Put(t, s[d..], value, old(Store())) && Store() == PutArena(t, s[d..], old(Store()))
      ensures x == Root(t') && HostsIf(data[..], t', parent, whole) && Covers(ctx, t', Store())
      ensures PathNamed(data[..], t', s[d..], parent)
      ensures OutsideKept(old(data[..]), data[..], t, old(Store()))
    {
      ghost var t0, d0, a0 := t, data[..], Store();
      assert s[d..][1..] == s[d + 1..];
      x := node;
      if x == 0 {
        x, t0 := NewLeaf(s[d], ctx);
      }
      ghost var d1 := data[..];
      if s[d] < data[x].c {
        t' := InsertChild(x, L, s, value, d, parent, t0, ctx, whole);
      } else if s[d] > data[x].c {
        t' := InsertChild(x, R, s, value, d, parent, t0, ctx, whole);
      } else if d < |s| - 1 {
        t' := InsertChild(x, M, s, value, d + 1, parent, t0, ctx, whole);
      } else {
        SetValue(x, value, parent, t0, ctx, whole);
        t' := t0.(val := value);
      }
      if t.Leaf? { KeptFurther(d0, d1, data[..], a0, t0); }
    }

    // The end of the key: its value goes into the node itself.
    method SetValue(x: nat, value: nat, parent: nat, ghost t: Tree, ghost ctx: Ctx, ghost whole: bool)
      requires Sound() && t.Node? && x == t.id && Covers(ctx, t, Store())
      requires Shape(data[..], t) && (whole ==> Parented(data[..], t))
      modifies data
      ensures Sound() && HostsIf(data[..], t.(val := value), parent, whole) && Covers(ctx, t.(val := value), Store())
      ensures ParentIs(data[..], t.(val := value), parent)
      ensures forall y: nat :: y < data.Length && y != x ==> data[y] == old(data[y])
    {
      ghost var d0 := data[..];
      StoreValue(d0, t, value, parent, ctx, Store(), fHead, whole);
      data[x] := data[x].(value := value, parent := parent);
      assert data[..] == d0[x := d0[x].(value := value, parent := parent)];
    }

    // A new node for character c, still without children.
    method NewLeaf(c: char, ghost ctx: Ctx) returns (x: nat, ghost t: Tree)
      requires Sound() && Covers(ctx, Leaf, Store())
      modifies this`size, this`fHead, this`data, this`free, data
      ensures data == old(data) || fresh(data)
      ensures Sound() && data.Length >= old(data.Length)
      ensures x == old(Store().Next()) && Store() == old(Store().Rest())
      ensures t == Node(x, c, 0, Leaf, Leaf, Leaf) && Shape(data[..], t) && Covers(ctx, t, Store())
      ensures OutsideKept(old(data[..]), data[..], Leaf, old(Store()))
    {
      x := NewNode(ctx);
      ghost var d0 := data[..];
      data[x] := data[x].(c := c);
      t := Node(x, c, 0, Leaf, Leaf, Leaf);
      assert Count(t, x) + CtxCount(ctx, x) + Occurrences(free, x) == InRange(size, x);
      FreeFrame(d0, data[..], fHead, free);
    }

    // The recursive call on one child of x, and the links it leads to.
    method InsertChild(x: nat, side: Side, s: string, value: nat, d: nat, parent: nat,
                       ghost t: Tree, ghost ctx: Ctx, ghost whole: bool)
      returns (ghost t': Tree)
      requires d < |s| && Sound() && t.Node? && x == t.id && parent == Owner(ctx)
      requires Shape(data[..], t) && (whole ==> Parented(data[..], t)) && Covers(ctx, t, Store())
      modifies this`size, this`fHead, this`data, this`free, data
      decreases |s| - d, Child(t, side), 1
      ensures data == old(data) || fresh(data)
      ensures Sound() && data.Length >= old(data.Length)
      ensures t' == Fill(t, side, TernaryTree.Put(Child(t, side), s[d..], value, old(Store())))
      ensures Store() == PutArena(Child(t, side), s[d..], old(Store()))
      ensures HostsIf(data[..], t', parent, whole) && Covers(ctx, t', Store())
      ensures ParentIs(data[..], t', parent) && PathNamed(data[..], Child(t', side), s[d..], x)
      ensures OutsideKept(old(data[..]), data[..], t, old(Store()))
    {
      ghost var d0, a0, c := data[..], Store(), Fill(t, side, Leaf);
      CoversChild(ctx, t, side, a0);
      ChildHosted(d0, t, side, whole);
      var child := match side case L => data[x].left case M => data[x].mid case R => data[x].right;
      ghost var u;
      var no;
      no, u := Insert(child, s, value, d, x, Child(t, side), In(side, c, ctx), whole);
      ghost var d1 := data[..];
      StoreChild(d0, d1, t, side, u, parent, ctx, a0, Store(), fHead, whole);
      CoversFill(ctx, c, side, u, Store());
      data[x] := WithChild(data[x], side, no).(parent := parent);
      assert data[..] == d1[x := WithChild(d1[x], side, no).(parent := parent)];
      ChildFrame(d0, d1, data[..], t, side, a0);
      PathFrame(d1, data[..], u, s[d..], x);
      t' := Fill(t, side, u);
    }

    // tst_put.  No parent index is read.
    method Put(key: string, value: nat)
      requires Readable() && CString(key)
      modifies this, data
      ensures Readable() && (old(Valid()) ==> Valid()) && (data == old(data) || fresh(data))
      ensures key != "" ==> PathNamed(data[..], tree, key, 0)
      ensures key == "" ==> tree == old(tree) && free == old(free)
      ensures key != "" ==> tree == TernaryTree.Put(old(tree), key, value, old(Store()))
      ensures Contents(tree) ==
        if key == "" then old(Contents(tree))
        else if value > 0 then old(Contents(tree))[key := value] else old(Contents(tree)) - {key}
      ensures old(NoDead(tree)) && value > 0 ==> NoDead(tree)
    {
      if |key| <= 0 { return; }
      ghost var t;
      assert key[0..] == key;
      ghost var whole := Valid();
      root, t := Insert(root, key, value, 0, 0, tree, Top, whole);
      PutRefinesMap(tree, key, value, old(Store()));
      if NoDead(tree) && value > 0 { PutNoDead(tree, key, value, old(Store())); }
      tree := t;
    }

    // Index of the last node on the path of key, 0 when there is none.
    method Search(key: string) returns (node: nat)
      requires Readable() && key != ""
      ensures node == Root(Find(tree, key)) < data.Length
      ensures data[node].value == TernaryTree.Get(tree, key)
    {
      node := root;
      var d := 0;
      ghost var t := tree;
      assert key[0..] == key;
      while node != 0
        invariant d < |key| && node == Root(t) && Shape(data[..], t)
        invariant Find(t, key[d..]) == Find(tree, key)
        decreases |key| - d, t
      {
        assert key[d..][1..] == key[d + 1..];
        var c := key[d];
        if c < data[node].c {
          node, t := data[node].left, t.l;
        } else if c > data[node].c {
          node, t := data[node].right, t.r;
        } else if d < |key| - 1 {
          node, t, d := data[node].mid, t.m, d + 1;
        } else {
          break;
        }
      }
      FindGet(tree, key);
    }

    // tst_get: the sentinel data[0] answers for keys that have no node.
    method Get(key: string) returns (value: nat)
      requires Readable()
      ensures value == if key in Contents(tree) then Contents(tree)[key] else 0
      ensures key in Contents(tree) <==> value > 0
    {
      InContents(tree, key);
      if |key| <= 0 { return 0; }
      var node := Search(key);
      value := data[node].value;
    }

    // remove_node: recycles a dead node and joins its subtrees.
    method RemoveNode(node: nat, reparent: bool, ghost t: Tree, ghost whole: bool) returns (n: nat)
      requires Dead(t) && node == t.id && Shape(data[..], t) && (whole ==> ParentIs(data[..], t.r, t.id))
      requires forall x: nat :: Count(t, x) <= 1
      modifies this`fHead, data
      ensures n == Root(Prune(t)) && fHead == node
      ensures BothSides(old(data[..])[node]) ==>
        Greatest(t.l) < data.Length && old(data[..])[node].right < data.Length
      ensures data[..] ==
        RemoveCells(old(data[..]), old(fHead), node, if TwoSided(t) then Greatest(t.l) else 0, reparent)
    {
      ghost var d := data[..];
      ghost var g := if TwoSided(t) then Greatest(t.l) else 0;
      RemoveRepresents(d, fHead, t, g, reparent, whole);
      var left, right := data[node].left, data[node].right;
      data[node] := data[node].(mid := fHead, value := 0);
      ghost var d0 := data[..];
      assert d0 == d[node := d[node].(mid := fHead, value := 0)];
      fHead := node;
      if left == 0 && right == 0 {
        return 0;
      } else if left > 0 && right == 0 {
        return left;
      } else if right > 0 && left == 0 {
        return right;
      }
      assert Count(t, t.id) == 1;
      TreeFrame(d, d0, t.l);
      TreeFrame(d, d0, t.r);
      var maxP := left;
      ghost var cur := t.l;
      while data[maxP].right != 0
        invariant cur.Node? && maxP == cur.id && Shape(d0, cur) && Greatest(cur) == g
        decreases cur
      {
        maxP, cur := data[maxP].right, cur.r;
      }
      data[maxP] := data[maxP].(right := right);
      if reparent {
        data[right] := data[right].(parent := maxP);
      }
      assert data[..] == HangCells(d0, g, right, reparent);
      return left;
    }

    // Removes the dead node at `node` and stores what remains of its subtree in its parent
    // or, at the top, in root.
    method Detach(node: nat, up: nat, reparent: bool, ghost t: Tree, ghost whole: bool)
      requires 0 < data.Length && data[0] == ZERO
      requires Dead(t) && node == t.id && Shape(data[..], t) && (whole ==> ParentIs(data[..], t.r, t.id))
      requires forall x: nat :: Count(t, x) <= 1
      requires up == data[node].parent < data.Length && Root(Prune(t)) < data.Length
      requires BothSides(data[node]) ==> Greatest(t.l) < data.Length && data[node].right < data.Length
      requires BothSides(data[node]) == TwoSided(t) && Survivor(data[node]) == Root(Prune(t))
      modifies this`root, this`fHead, data
      ensures Snap() == Unlink(old(Snap()), node, if TwoSided(t) then Greatest(t.l) else 0, reparent)
    {
      ghost var h := Snap();
      var isLeft := up > 0 && node == data[up].left;
      var isRight := up > 0 && node == data[up].right;
      var n := RemoveNode(node, reparent, t, whole);
      ghost var d := data[..];
      if up > 0 {
        if isLeft {
          data[up] := data[up].(left := n);
        } else if isRight {
          data[up] := data[up].(right := n);
        } else {
          data[up] := data[up].(mid := n);
        }
        ghost var side := if isLeft then L else if isRight then R else M;
        ghost var d1 := data[..];
        assert d1 == d[up := WithChild(d[up], side, n)];
        if n > 0 {
          data[n] := data[n].(parent := up);
          assert data[..] == d1[n := d1[n].(parent := up)];
        }
      } else {
        root := n;
        data[n] := data[n].(parent := up);
        assert data[..] == d[n := d[n].(parent := 0)];
      }
    }

    // The removal of a dead node, up to and including its parent's link and the free list.
    method RemoveDead(node: nat, up: nat, reparent: bool, ghost ctx: Ctx, ghost t: Tree, ghost whole: bool)
      requires Sound() && Dead(t) && node == t.id && Shape(data[..], t) && ParentIs(data[..], t, Owner(ctx))
      requires up == Owner(ctx) && (whole ==> ParentIs(data[..], t.r, t.id))
      requires CtxShape(data[..], root, ctx, node, whole) && Covers(ctx, t, Store())
      modifies this`root, this`fHead, this`free, data
      ensures Sound() && Covers(ctx, Prune(t), Store())
      ensures Unlinked(old(Snap()), Snap(), ctx, t, reparent, whole)
    {
      ghost var h, g := Snap(), if TwoSided(t) then Greatest(t.l) else 0;
      CoversOnce(ctx, t, Store());
      forall x: nat ensures Count(t, x) <= 1 { assert Count(t, x) + CtxCount(ctx, x) <= 1; }
      UnlinkRepresents(h, ctx, t, g, reparent, whole);
      RemoveRepresents(h.data, h.head, t, g, reparent, whole);
      Detach(node, up, reparent, t, whole);
      UnlinkedFree(h, Snap(), ctx, t, free, reparent, whole);
      free := [node] + free;
    }

    // One turn of the climb: a dead node is removed and its parent's link updated.
    method ClimbTurn(node: nat, reparent: bool, ghost ctx: Ctx, ghost t: Tree, ghost whole: bool) returns (up: nat)
      requires Sound() && t.Node? && node == t.id && Shape(data[..], t) && ParentIs(data[..], t, Owner(ctx))
      requires whole ==>
        ParentIs(data[..], t.l, t.id) && ParentIs(data[..], t.m, t.id) && ParentIs(data[..], t.r, t.id)
      requires CtxShape(data[..], root, ctx, node, whole) && Covers(ctx, t, Store())
      modifies this`root, this`fHead, this`free, data
      ensures Sound() && up == Owner(ctx) && Covers(ctx, Prune(t), Store())
      ensures Shape(data[..], Prune(t)) && ParentIs(data[..], Prune(t), Owner(ctx))
      ensures CtxShape(data[..], root, ctx, Root(Prune(t)), whole)
      ensures whole ==>
        (Parented(data[..], Prune(t)) <==> old(Parented(data[..], t)) && (reparent || !TwoSided(t)))
    {
      up := data[node].parent;
      if data[node].mid == 0 && data[node].value == 0 {
        RemoveDead(node, up, reparent, ctx, t, whole);
      }
    }

    // Where the climb stands: t is the subtree rebuilt so far, node its root still to be
    // examined, or 0 when the whole tree is done.
    ghost predicate Climbing(node: nat, ctx: Ctx, t: Tree, whole: bool)
      reads this, data
    {
      && Sound() && Proper(ctx) && Covers(ctx, t, Store())
      && Shape(data[..], t) && ParentIs(data[..], t, Owner(ctx)) && CtxShape(data[..], root, ctx, Root(t), whole)
      && if node == 0 then ctx.Top? else
           && t.Node? && node == t.id
           && (whole ==>
                 ParentIs(data[..], t.l, t.id) && ParentIs(data[..], t.m, t.id) && ParentIs(data[..], t.r, t.id))
    }

    method ClimbStep(node: nat, reparent: bool, ghost ctx: Ctx, ghost t: Tree, ghost whole: bool)
      returns (up: nat, ghost ctx': Ctx, ghost t': Tree)
      requires node != 0 && Climbing(node, ctx, t, whole)
      modifies this`root, this`fHead, this`free, data
      ensures Climbing(up, ctx', t', whole)
      ensures if ctx.Top? then up == 0 && t' == Prune(t) else
        up != 0 && ctx' == ctx.up && t' == Fill(ctx.p, ctx.side, Prune(t))
      ensures whole ==>
        (Parented(data[..], t') <==> old(Parented(data[..], t)) && (reparent || !TwoSided(t)))
    {
      up := ClimbTurn(node, reparent, ctx, t, whole);
      ctx', t' := ctx, Prune(t);
      if ctx.In? {
        Ascend(data[..], root, ctx, t', whole);
        CoversFill(ctx.up, ctx.p, ctx.side, t', Store());
        ctx', t' := ctx.up, Fill(ctx.p, ctx.side, t');
      }
    }

    // The loop that walks parent indices from node to the root, removing dead nodes.
    method Climb(start: nat, reparent: bool, ghost ctx0: Ctx, ghost t0: Tree, ghost whole: bool)
      returns (ghost t': Tree)
      requires start != 0 && Climbing(start, ctx0, t0, whole) && (whole ==> Parented(data[..], t0))
      modifies this`root, this`fHead, this`free, data
      ensures Climbing(0, Top, t', whole)
      ensures t' == Rebuild(ctx0, Prune(t0))
      ensures whole ==>
        (Parented(data[..], t') <==> reparent || !(TwoSided(t0) || RebuildHangs(ctx0, Prune(t0))))
    {
      var node := start;
      ghost var ctx, hung := ctx0, false;
      t' := t0;
      while node != 0
        invariant Climbing(node, ctx, t', whole)
        invariant whole ==> (Parented(data[..], t') <==> reparent || !hung)
        invariant (if node == 0 then t' else Rebuild(ctx, Prune(t'))) == Rebuild(ctx0, Prune(t0))
        invariant hung || (node != 0 && (TwoSided(t') || RebuildHangs(ctx, Prune(t')))) <==>
          TwoSided(t0) || RebuildHangs(ctx0, Prune(t0))
        decreases ctx, node
      {
        hung := hung || TwoSided(t');
        node, ctx, t' := ClimbStep(node, reparent, ctx, t', whole);
      }
    }

    // The search part of tst_delete: the node found, and the context it was found in.
    method Locate(key: string, ghost whole: bool) returns (node: nat, ghost t: Tree, ghost ctx: Ctx)
      requires Readable() && key != "" && whole == Valid()
      requires Find(tree, key).Node? ==> PathNamed(data[..], tree, key, 0)
      ensures node == Root(Find(tree, key)) && t == Find(tree, key) && (node == 0 ==> t.Leaf?)
      ensures node != 0 ==>
        && t.Node? && HostsIf(data[..], t, Owner(ctx), whole) && ParentIs(data[..], t, Owner(ctx))
        && Covers(ctx, t, Store())
        && Proper(ctx) && CtxShape(data[..], root, ctx, node, whole)
        && Rebuild(ctx, Prune(t.(val := 0))) == Unset(tree, key)
        && (TwoSided(t.(val := 0)) || RebuildHangs(ctx, Prune(t.(val := 0))) <==> HangsTwo(tree, key))
    {
      node := root;
      var d := 0;
      t, ctx := tree, Top;
      ghost var found := Find(tree, key).Node?;
      assert key[0..] == key;
      while node != 0
        invariant d < |key| && node == Root(t) && Shape(data[..], t)
        invariant Find(t, key[d..]) == Find(tree, key)
        invariant found ==> HostsIf(data[..], t, Owner(ctx), whole) && PathNamed(data[..], t, key[d..], Owner(ctx))
        invariant found ==> Proper(ctx) && CtxShape(data[..], root, ctx, node, whole) && Covers(ctx, t, Store())
        invariant found ==> Rebuild(ctx, Unset(t, key[d..])) == Unset(tree, key)
        invariant found ==>
          (HangsTwo(t, key[d..]) || RebuildHangs(ctx, Unset(t, key[d..])) <==> HangsTwo(tree, key))
        decreases |key| - d, t
      {
        assert key[d..][1..] == key[d + 1..];
        var c := key[d];
        ghost var side := if c < data[node].c then L else if c > data[node].c then R else M;
        ghost var deeper := In(side, Fill(t, side, Leaf), ctx);
        if found {
          Descend(data[..], root, ctx, t, side, whole);
          CoversChild(ctx, t, side, Store());
        }
        if c < data[node].c {
          node, ctx, t := data[node].left, deeper, t.l;
        } else if c > data[node].c {
          node, ctx, t := data[node].right, deeper, t.r;
        } else if d < |key| - 1 {
          node, ctx, t, d := data[node].mid, deeper, t.m, d + 1;
        } else {
          break;
        }
      }
    }

    // In a valid array every deletion finds its way back to the root.
    lemma PathsNamed(key: string)
      requires Valid()
      ensures key != "" ==> PathNamed(data[..], tree, key, 0)
    {
      if key != "" { WholeNamesPaths(data[..], tree, key, 0); }
    }

    // tst_delete, for a key whose path names its parents.  With reparent, the code with the parent
    // index of the hung subtree set in remove_node; without it, the code as it stands.
    method Delete(key: string, reparent: bool)
      requires Readable() && CString(key)
      requires key != "" && Find(tree, key).Node? ==> PathNamed(data[..], tree, key, 0)
      modifies this, data
      ensures Readable() && data == old(data)
      ensures tree == TernaryTree.Delete(old(tree), key)
      ensures Contents(tree) == old(Contents(tree)) - {key}
      ensures old(NoDead(tree)) ==> NoDead(tree)
      ensures old(Valid()) ==> (Valid() <==> reparent || !Spoils(old(tree), key))
    {
      DeleteRefinesMap(tree, key);
      if |key| <= 0 { return; }
      if NoDead(tree) { DeleteNoDead(tree, key); }
      ghost var whole := Valid();
      var node; ghost var t, ctx;
      node, t, ctx := Locate(key, whole);
      if node != 0 {
        Clear(node, t, ctx, whole);
        tree := Climb(node, reparent, ctx, t.(val := 0), whole);
      }
    }

    // The node found forgets its value.
    method Clear(node: nat, ghost t: Tree, ghost ctx: Ctx, ghost whole: bool)
      requires Sound() && t.Node? && node == t.id && HostsIf(data[..], t, Owner(ctx), whole) && Proper(ctx)
      requires CtxShape(data[..], root, ctx, node, whole) && Covers(ctx, t, Store())
      requires ParentIs(data[..], t, Owner(ctx))
      modifies data
      ensures Climbing(node, ctx, t.(val := 0), whole) && (whole ==> Parented(data[..], t.(val := 0)))
    {
      ClearValue(data[..], root, ctx, t, Store(), fHead, whole);
      ghost var d0 := data[..];
      data[node] := data[node].(value := 0);
      assert data[..] == d0[node := d0[node].(value := 0)];
    }
  }
}
