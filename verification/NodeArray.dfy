/** The node array: cells linked by index, what it means for them to represent a tree,
    and what one turn of the deletion climb does to them. */
module NodeArray {
  import opened TernaryTree

  datatype Cell = Cell(c: char, left: nat, mid: nat, right: nat, parent: nat, value: nat)

  const ZERO: Cell := Cell('\0', 0, 0, 0, 0, 0)

  // Everything tst_db holds; cap is |data|.
  datatype Heap = Heap(root: nat, size: nat, head: nat, data: seq<Cell>)

  function CellOf(t: Tree, parent: nat): Cell
    requires t.Node?
  {
    Cell(t.c, Root(t.l), Root(t.m), Root(t.r), parent, t.val)
  }

  // Characters, values and child links agree with t.
  ghost predicate Shape(d: seq<Cell>, t: Tree) {
    t.Node? ==>
      && 0 < t.id < |d|
      && d[t.id] == CellOf(t, d[t.id].parent)
      && Shape(d, t.l) && Shape(d, t.m) && Shape(d, t.r)
  }

  ghost predicate ParentIs(d: seq<Cell>, t: Tree, p: nat) {
    t.Node? ==> t.id < |d| && d[t.id].parent == p
  }

  // Every node below the root names its parent.
  ghost predicate Parented(d: seq<Cell>, t: Tree) {
    t.Node? ==>
      && ParentIs(d, t.l, t.id) && ParentIs(d, t.m, t.id) && ParentIs(d, t.r, t.id)
      && Parented(d, t.l) && Parented(d, t.m) && Parented(d, t.r)
  }

  // The free list, threaded through mid.
  ghost predicate FreeList(d: seq<Cell>, head: nat, free: seq<nat>)
    decreases |free|
  {
    if free == [] then head == 0
    else head == free[0] && 0 < head < |d| && FreeList(d, d[head].mid, free[1..])
  }

  // h represents t; free lists the recycled nodes in the order new_node will reuse them.
  // Together they account for each of the nodes 1..size exactly once.
  ghost predicate Represents(h: Heap, t: Tree, free: seq<nat>) {
    && Consistent(h, t, free)
    && Parented(h.data, t)
    && ParentIs(h.data, t, 0)
  }

  // The same without the parent indices, which only deletion reads.
  ghost predicate Consistent(h: Heap, t: Tree, free: seq<nat>) {
    && h.size < |h.data|
    && h.data[0] == ZERO
    && h.root == Root(t)
    && Shape(h.data, t)
    && FreeList(h.data, h.head, free)
    && Covers(Top, t, Arena(free, h.size))
  }

  // No index occurs twice in t and its context.
  ghost predicate Once(ctx: Ctx, t: Tree) {
    forall x: nat :: Count(t, x) + CtxCount(ctx, x) <= 1
  }

  // ---------- frames ----------

  ghost predicate Agree(d: seq<Cell>, d': seq<Cell>, t: Tree) {
    |d| <= |d'| && forall x: nat :: x < |d| && Count(t, x) > 0 ==> d'[x] == d[x]
  }

  lemma {:induction false} TreeFrame(d: seq<Cell>, d': seq<Cell>, t: Tree)
    requires Shape(d, t) && Agree(d, d', t)
    ensures Shape(d', t)
    ensures Parented(d', t) <==> Parented(d, t)
    ensures t.Node? ==> t.id < |d| && d'[t.id] == d[t.id]
  {
    if t.Node? {
      assert Count(t, t.id) > 0;
      TreeFrame(d, d', t.l);
      TreeFrame(d, d', t.m);
      TreeFrame(d, d', t.r);
    }
  }

  lemma {:induction false} FreeFrame(d: seq<Cell>, d': seq<Cell>, head: nat, free: seq<nat>)
    requires FreeList(d, head, free) && |d| <= |d'|
    requires forall x: nat :: x < |d| && Occurrences(free, x) > 0 ==> d'[x] == d[x]
    ensures FreeList(d', head, free)
    decreases |free|
  {
    if free != [] {
      assert Occurrences(free, head) > 0;
      FreeFrame(d, d', d[head].mid, free[1..]);
    }
  }

  // Giving the root of t another parent changes nothing below it.
  lemma Reparent(d: seq<Cell>, t: Tree, p: nat)
    requires t.Node? && Shape(d, t) && Count(t, t.id) <= 1
    ensures var d' := d[t.id := d[t.id].(parent := p)];
      Shape(d', t) && ParentIs(d', t, p) && (Parented(d', t) <==> Parented(d, t))
  {
    var d' := d[t.id := d[t.id].(parent := p)];
    TreeFrame(d, d', t.l);
    TreeFrame(d, d', t.m);
    TreeFrame(d, d', t.r);
  }

  // ---------- hanging one subtree under another ----------

  // tst.c:198, and, when reparent is set, the missing assignment to the parent index.
  function HangCells(d: seq<Cell>, g: nat, right: nat, reparent: bool): (d': seq<Cell>)
    requires g < |d| && right < |d|
    ensures |d'| == |d|
  {
    var d1 := d[g := d[g].(right := right)];
    if reparent then d1[right := d1[right].(parent := g)] else d1
  }

  lemma {:induction false} GreatestIn(l: Tree)
    requires l.Node?
    ensures Count(l, Greatest(l)) > 0
  {
    if l.r.Node? { GreatestIn(l.r); }
  }

  lemma {:induction false} HangRepresents(d: seq<Cell>, l: Tree, r: Tree, reparent: bool)
    requires l.Node? && r.Node? && Shape(d, l) && Shape(d, r)
    requires forall x: nat :: Count(l, x) + Count(r, x) <= 1
    ensures Greatest(l) < |d|
    ensures var d' := HangCells(d, Greatest(l), r.id, reparent);
      && Shape(d', Hang(l, r))
      && d'[l.id].parent == d[l.id].parent
      && (Parented(d', Hang(l, r)) <==>
            Parented(d, l) && Parented(d, r) && (reparent || d[r.id].parent == Greatest(l)))
  {
    assert Count(l, l.id) == 1 && Count(r, r.id) == 1;
    if l.r.Leaf? {
      HangHere(d, l, r, reparent);
    } else {
      HangRepresents(d, l.r, r, reparent);
      var g := Greatest(l.r);
      GreatestIn(l.r);
      assert Count(l, g) == 1;
      HangAbove(d, HangCells(d, g, r.id, reparent), l, Hang(l.r, r));
    }
  }

  // Replacing the right subtree of l by h, when the rest of l is untouched.
  lemma HangAbove(d: seq<Cell>, d': seq<Cell>, l: Tree, h: Tree)
    requires l.Node? && l.r.Node? && Shape(d, l) && |d| == |d'|
    requires d'[l.id] == d[l.id] && Agree(d, d', l.l) && Agree(d, d', l.m)
    requires h.Node? && h.id == l.r.id && Shape(d', h) && d'[h.id].parent == d[h.id].parent
    ensures Shape(d', l.(r := h))
    ensures Parented(d', l.(r := h)) && Parented(d, l.r) <==> Parented(d, l) && Parented(d', h)
  {
    TreeFrame(d, d', l.l);
    TreeFrame(d, d', l.m);
  }

  lemma HangHere(d: seq<Cell>, l: Tree, r: Tree, reparent: bool)
    requires l.Node? && r.Node? && l.r.Leaf? && Shape(d, l) && Shape(d, r)
    requires forall x: nat :: Count(l, x) + Count(r, x) <= 1
    ensures var d' := HangCells(d, l.id, r.id, reparent);
      && Shape(d', Hang(l, r))
      && d'[l.id].parent == d[l.id].parent
      && (Parented(d', Hang(l, r)) <==>
            Parented(d, l) && Parented(d, r) && (reparent || d[r.id].parent == l.id))
  {
    assert Count(l, l.id) == 1 && Count(r, r.id) == 1;
    var d' := HangCells(d, l.id, r.id, reparent);
    HungRoot(d, l.id, r, reparent);
    TreeFrame(d, d', l.l);
    TreeFrame(d, d', l.m);
  }

  // The hung subtree itself, under its new parent or still naming the old one.
  lemma HungRoot(d: seq<Cell>, g: nat, r: Tree, reparent: bool)
    requires r.Node? && Shape(d, r) && g < |d| && Count(r, g) == 0 && Count(r, r.id) == 1
    ensures var d' := HangCells(d, g, r.id, reparent);
      && Shape(d', r) && (Parented(d', r) <==> Parented(d, r))
      && d'[r.id].parent == if reparent then g else d[r.id].parent
  {
    var d1 := d[g := d[g].(right := r.id)];
    TreeFrame(d, d1, r);
    Reparent(d1, r, g);
  }

  // ---------- a tree with a hole ----------

  // What Represents says of a whole subtree that hangs from node p.
  ghost predicate Hosts(d: seq<Cell>, t: Tree, p: nat) {
    Shape(d, t) && Parented(d, t) && ParentIs(d, t, p)
  }

  // Of a tree whose parent indices may be wrong below the root: links only, unless `whole`.
  ghost predicate HostsIf(d: seq<Cell>, t: Tree, p: nat, whole: bool) {
    Shape(d, t) && (whole ==> Hosts(d, t, p))
  }

  // The node for s, and every node on the way to it, names its parent.
  ghost predicate PathNamed(d: seq<Cell>, t: Tree, s: string, p: nat)
    requires s != ""
    decreases |s|, t
  {
    ParentIs(d, t, p) &&
    (t.Node? ==>
       if s[0] < t.c then PathNamed(d, t.l, s, t.id)
       else if s[0] > t.c then PathNamed(d, t.r, s, t.id)
       else |s| > 1 ==> PathNamed(d, t.m, s[1..], t.id))
  }

  lemma {:induction false} WholeNamesPaths(d: seq<Cell>, t: Tree, s: string, p: nat)
    requires Hosts(d, t, p) && s != ""
    ensures PathNamed(d, t, s, p)
    decreases |s|, t
  {
    if t.Node? {
      if s[0] < t.c {
        WholeNamesPaths(d, t.l, s, t.id);
      } else if s[0] > t.c {
        WholeNamesPaths(d, t.r, s, t.id);
      } else if |s| > 1 {
        WholeNamesPaths(d, t.m, s[1..], t.id);
      }
    }
  }

  lemma {:induction false} PathFrame(d: seq<Cell>, d': seq<Cell>, t: Tree, s: string, p: nat)
    requires s != "" && Shape(d, t) && Agree(d, d', t) && PathNamed(d, t, s, p)
    ensures PathNamed(d', t, s, p)
    decreases |s|, t
  {
    if t.Node? {
      assert Count(t, t.id) > 0;
      if s[0] < t.c {
        PathFrame(d, d', t.l, s, t.id);
      } else if s[0] > t.c {
        PathFrame(d, d', t.r, s, t.id);
      } else if |s| > 1 {
        PathFrame(d, d', t.m, s[1..], t.id);
      }
    }
  }

  function WithChild(cell: Cell, side: Side, x: nat): Cell {
    match side case L => cell.(left := x) case M => cell.(mid := x) case R => cell.(right := x)
  }

  // The array holds the context, with index x stored where its hole is.
  ghost predicate CtxShape(d: seq<Cell>, root: nat, ctx: Ctx, x: nat, whole: bool)
    decreases ctx
  {
    if ctx.Top? then root == x
    else
      var p := ctx.p;
      && p.Node? && Child(p, ctx.side).Leaf?
      && 0 < p.id < |d|
      && d[p.id] == WithChild(CellOf(p, Owner(ctx.up)), ctx.side, x)
      && HostsIf(d, p.l, p.id, whole) && HostsIf(d, p.m, p.id, whole) && HostsIf(d, p.r, p.id, whole)
      && CtxShape(d, root, ctx.up, p.id, whole)
  }

  lemma {:induction false} CtxProper(d: seq<Cell>, root: nat, ctx: Ctx, x: nat, whole: bool)
    requires CtxShape(d, root, ctx, x, whole)
    ensures Proper(ctx)
    decreases ctx
  {
    if ctx.In? { CtxProper(d, root, ctx.up, ctx.p.id, whole); }
  }

  lemma {:induction false} CtxFrame(d: seq<Cell>, d': seq<Cell>, root: nat, ctx: Ctx, x: nat, whole: bool)
    requires CtxShape(d, root, ctx, x, whole) && |d| <= |d'|
    requires forall y: nat :: y < |d| && CtxCount(ctx, y) > 0 ==> d'[y] == d[y]
    ensures CtxShape(d', root, ctx, x, whole)
    decreases ctx
  {
    if ctx.In? {
      var p := ctx.p;
      assert CtxCount(ctx, p.id) > 0;
      forall y: nat | y < |d| && Count(p, y) > 0 ensures d'[y] == d[y] {
        assert CtxCount(ctx, y) > 0;
      }
      TreeFrame(d, d', p.l);
      TreeFrame(d, d', p.m);
      TreeFrame(d, d', p.r);
      CtxFrame(d, d', root, ctx.up, p.id, whole);
    }
  }

  // Storing another index where the hole is.
  lemma CtxRelink(d: seq<Cell>, root: nat, ctx: Ctx, x: nat, y: nat, whole: bool)
    requires ctx.In? && CtxShape(d, root, ctx, x, whole)
    requires forall z: nat :: CtxCount(ctx, z) <= 1
    ensures CtxShape(d[ctx.p.id := WithChild(d[ctx.p.id], ctx.side, y)], root, ctx, y, whole)
  {
    var p := ctx.p;
    var d' := d[p.id := WithChild(d[p.id], ctx.side, y)];
    assert CtxCount(ctx, p.id) == 1;
    TreeFrame(d, d', p.l);
    TreeFrame(d, d', p.m);
    TreeFrame(d, d', p.r);
    CtxFrame(d, d', root, ctx.up, p.id, whole);
  }

  // ---------- one turn of the climb ----------

  // Index that remove_node returns.
  function Survivor(cell: Cell): nat {
    if cell.left == 0 then cell.right else cell.left
  }

  predicate BothSides(cell: Cell) {
    cell.left > 0 && cell.right > 0
  }

  // remove_node, where g is the node its search for max_p ends at.
  function RemoveCells(d: seq<Cell>, head: nat, node: nat, g: nat, reparent: bool): (d': seq<Cell>)
    requires node < |d|
    requires BothSides(d[node]) ==> g < |d| && d[node].right < |d|
    ensures |d'| == |d|
  {
    var d0 := d[node := d[node].(mid := head, value := 0)];
    if BothSides(d[node]) then HangCells(d0, g, d[node].right, reparent) else d0
  }

  // remove_node followed by the update of the parent's link and of the new child's parent.
  function Unlink(h: Heap, node: nat, g: nat, reparent: bool): Heap
    requires node < |h.data| && h.data[node].parent < |h.data| && Survivor(h.data[node]) < |h.data|
    requires BothSides(h.data[node]) ==> g < |h.data| && h.data[node].right < |h.data|
  {
    var p, n := h.data[node].parent, Survivor(h.data[node]);
    var d := RemoveCells(h.data, h.head, node, g, reparent);
    if p > 0 then
      var side := if node == h.data[p].left then L else if node == h.data[p].right then R else M;
      var d1 := d[p := WithChild(d[p], side, n)];
      Heap(h.root, h.size, node, if n > 0 then d1[n := d1[n].(parent := p)] else d1)
    else
      Heap(n, h.size, node, d[n := d[n].(parent := 0)])
  }

  // Removing a dead root leaves the spliced subtrees.  Without the repair their parent
  // indices go wrong exactly when both are there.
  lemma RemoveRepresents(d: seq<Cell>, head: nat, t: Tree, g: nat, reparent: bool, whole: bool)
    requires Dead(t) && Shape(d, t) && forall x: nat :: Count(t, x) <= 1
    requires whole ==> ParentIs(d, t.r, t.id)
    requires TwoSided(t) ==> g == Greatest(t.l)
    ensures BothSides(d[t.id]) == TwoSided(t) && Survivor(d[t.id]) == Root(Prune(t)) < |d|
    ensures TwoSided(t) ==> g < |d| && d[t.id].right < |d|
    ensures var d' := RemoveCells(d, head, t.id, g, reparent);
      && Shape(d', Prune(t))
      && (whole ==> (Parented(d', Prune(t)) <==>
            Parented(d, t.l) && Parented(d, t.r) && (reparent || !TwoSided(t))))
      && d'[t.id] == d[t.id].(mid := head, value := 0)
      && forall x: nat :: x < |d| && Count(t, x) == 0 ==> d'[x] == d[x]
  {
    assert Count(t, t.id) == 1;
    var d0 := d[t.id := d[t.id].(mid := head, value := 0)];
    TreeFrame(d, d0, t.l);
    TreeFrame(d, d0, t.r);
    if TwoSided(t) {
      forall x: nat ensures Count(t.l, x) + Count(t.r, x) <= 1 { assert Count(t, x) <= 1; }
      HangRepresents(d0, t.l, t.r, reparent);
      GreatestIn(t.l);
      assert Count(t.r, t.r.id) > 0;
    }
  }

  // The context keeps its cells while the subtree in its hole is being rearranged.
  lemma CtxApart(d: seq<Cell>, d': seq<Cell>, root: nat, ctx: Ctx, t: Tree, x: nat, whole: bool)
    requires CtxShape(d, root, ctx, x, whole) && Once(ctx, t) && |d| == |d'|
    requires forall y: nat :: y < |d| && Count(t, y) == 0 ==> d'[y] == d[y]
    ensures CtxShape(d', root, ctx, x, whole)
  {
    forall y: nat | y < |d| && CtxCount(ctx, y) > 0 ensures d'[y] == d[y] {
      assert Count(t, y) + CtxCount(ctx, y) <= 1;
    }
    CtxFrame(d, d', root, ctx, x, whole);
  }

  // Which link of the parent leads to the node: the one where the hole is.
  lemma SideFound(d: seq<Cell>, root: nat, ctx: Ctx, t: Tree, whole: bool)
    requires ctx.In? && t.Node? && Once(ctx, t) && CtxShape(d, root, ctx, t.id, whole) && t.id > 0
    ensures ctx.side == if t.id == d[ctx.p.id].left then L else if t.id == d[ctx.p.id].right then R else M
  {
    assert Count(t, t.id) + CtxCount(ctx, t.id) <= 1;
    assert ctx.p.l.Node? ==> Count(ctx.p.l, ctx.p.l.id) > 0;
    assert ctx.p.r.Node? ==> Count(ctx.p.r, ctx.p.r.id) > 0;
  }

  // A dead node t in context ctx has been removed: the context holds the pruned subtree,
  // the node heads the free list, and no other cell changed.
  ghost predicate Unlinked(h: Heap, h': Heap, ctx: Ctx, t: Tree, reparent: bool, whole: bool)
    requires t.Node?
  {
    && |h'.data| == |h.data| && h'.size == h.size && h'.head == t.id
    && t.id < |h.data| && h'.data[t.id].mid == h.head
    && Shape(h'.data, Prune(t)) && ParentIs(h'.data, Prune(t), Owner(ctx))
    && (whole ==> (Parented(h'.data, Prune(t)) <==>
          Parented(h.data, t.l) && Parented(h.data, t.r) && (reparent || !TwoSided(t))))
    && CtxShape(h'.data, h'.root, ctx, Root(Prune(t)), whole)
    && (|h.data| > 0 && h.data[0] == ZERO ==> h'.data[0] == ZERO)
    && forall x: nat :: 0 < x < |h.data| && Count(t, x) + CtxCount(ctx, x) == 0 ==> h'.data[x] == h.data[x]
  }

  // One turn of the climb at a dead node.
  lemma UnlinkRepresents(h: Heap, ctx: Ctx, t: Tree, g: nat, reparent: bool, whole: bool)
    requires Dead(t) && Shape(h.data, t) && ParentIs(h.data, t, Owner(ctx))
    requires whole ==> ParentIs(h.data, t.r, t.id)
    requires CtxShape(h.data, h.root, ctx, t.id, whole) && Once(ctx, t)
    requires h.data != [] && h.data[0] == ZERO
    requires TwoSided(t) ==> g == Greatest(t.l)
    ensures h.data[t.id].parent < |h.data| && Survivor(h.data[t.id]) < |h.data|
    ensures BothSides(h.data[t.id]) ==> g < |h.data| && h.data[t.id].right < |h.data|
    ensures Unlinked(h, Unlink(h, t.id, g, reparent), ctx, t, reparent, whole)
  {
    forall x: nat ensures Count(t, x) <= 1 { assert Count(t, x) + CtxCount(ctx, x) <= 1; }
    RemoveRepresents(h.data, h.head, t, g, reparent, whole);
    var d := RemoveCells(h.data, h.head, t.id, g, reparent);
    var h' := Unlink(h, t.id, g, reparent);
    assert Count(t, 0) == 0 by { ShapeAboveZero(h.data, t); }
    CtxApart(h.data, d, h.root, ctx, t, t.id, whole);
    if ctx.In? {
      SideFound(h.data, h.root, ctx, t, whole);
      UnlinkInside(d, h.root, ctx, t, h.head, whole);
    } else {
      UnlinkTop(d, ctx, t, h.head);
    }
  }

  lemma {:induction false} ShapeAboveZero(d: seq<Cell>, t: Tree)
    requires Shape(d, t)
    ensures Count(t, 0) == 0
  {
    if t.Node? {
      ShapeAboveZero(d, t.l);
      ShapeAboveZero(d, t.m);
      ShapeAboveZero(d, t.r);
    }
  }

  lemma UnlinkTop(d: seq<Cell>, ctx: Ctx, t: Tree, head: nat)
    requires ctx.Top? && Dead(t) && Once(ctx, t) && Shape(d, Prune(t))
    requires t.id < |d| && d[t.id].mid == head && |d| > 0 && d[0] == ZERO && Root(Prune(t)) < |d|
    ensures var n := Root(Prune(t));
      var d2 := d[n := d[n].(parent := 0)];
      && d2[0] == ZERO && Shape(d2, Prune(t)) && ParentIs(d2, Prune(t), 0)
      && (Parented(d2, Prune(t)) <==> Parented(d, Prune(t)))
      && d2[t.id].mid == head
      && forall x: nat :: 0 < x < |d| && Count(t, x) == 0 ==> d2[x] == d[x]
  {
    var u := Prune(t);
    if u.Node? {
      forall x: nat ensures Count(u, x) <= 1 {
        assert Count(t, x) + CtxCount(ctx, x) <= 1;
        PruneCounts(t, x);
      }
      assert Count(u, u.id) == 1;
      PruneCounts(t, u.id);
      Reparent(d, u, 0);
    }
  }

  lemma UnlinkInside(d: seq<Cell>, root: nat, ctx: Ctx, t: Tree, head: nat, whole: bool)
    requires ctx.In? && Dead(t) && Once(ctx, t) && Shape(d, Prune(t)) && CtxShape(d, root, ctx, t.id, whole)
    requires t.id < |d| && d[t.id].mid == head && |d| > 0 && Root(Prune(t)) < |d|
    ensures var n, p := Root(Prune(t)), ctx.p.id;
      var d1 := d[p := WithChild(d[p], ctx.side, n)];
      var d2 := if n > 0 then d1[n := d1[n].(parent := p)] else d1;
      && d2[0] == d[0] && Shape(d2, Prune(t)) && ParentIs(d2, Prune(t), p)
      && (Parented(d2, Prune(t)) <==> Parented(d, Prune(t)))
      && CtxShape(d2, root, ctx, n, whole)
      && d2[t.id].mid == head
      && forall x: nat :: x < |d| && Count(t, x) + CtxCount(ctx, x) == 0 ==> d2[x] == d[x]
  {
    var n, p, u := Root(Prune(t)), ctx.p.id, Prune(t);
    var d1 := d[p := WithChild(d[p], ctx.side, n)];
    forall x: nat ensures CtxCount(ctx, x) <= 1 && Count(u, x) + CtxCount(ctx, x) <= 1 {
      assert Count(t, x) + CtxCount(ctx, x) <= 1;
      PruneCounts(t, x);
    }
    assert CtxCount(ctx, p) == 1 && Count(t, t.id) == 1;
    CtxRelink(d, root, ctx, t.id, n, whole);
    TreeFrame(d, d1, u);
    PruneCounts(t, t.id);
    if u.Node? {
      assert Count(u, u.id) == 1;
      PruneCounts(t, u.id);
      Reparent(d1, u, p);
      CtxApart(d1, d1[n := d1[n].(parent := p)], root, ctx, u, n, whole);
    }
  }

  // Moving up: the context's innermost node joins the subtree.
  lemma Ascend(d: seq<Cell>, root: nat, ctx: Ctx, t: Tree, whole: bool)
    requires ctx.In? && CtxShape(d, root, ctx, Root(t), whole) && Shape(d, t) && ParentIs(d, t, Owner(ctx))
    ensures var u := Fill(ctx.p, ctx.side, t);
      && Shape(d, u) && ParentIs(d, u, Owner(ctx.up)) && (whole ==> (Parented(d, u) <==> Parented(d, t)))
      && CtxShape(d, root, ctx.up, u.id, whole)
      && (whole ==> ParentIs(d, u.l, u.id) && ParentIs(d, u.r, u.id))
      && (whole ==> (Parented(d, u.l) && Parented(d, u.r) && Parented(d, u.m) <==> Parented(d, t)))
  {
  }

  // Moving down: the subtree's root joins the context.
  lemma Descend(d: seq<Cell>, root: nat, ctx: Ctx, t: Tree, side: Side, whole: bool)
    requires t.Node? && HostsIf(d, t, Owner(ctx), whole) && ParentIs(d, t, Owner(ctx))
    requires CtxShape(d, root, ctx, t.id, whole)
    ensures var c := In(side, Fill(t, side, Leaf), ctx);
      CtxShape(d, root, c, Root(Child(t, side)), whole) && HostsIf(d, Child(t, side), t.id, whole)
    ensures forall x: nat ::
      Count(t, x) + CtxCount(ctx, x) == Count(Child(t, side), x) + CtxCount(In(side, Fill(t, side, Leaf), ctx), x)
  {
    forall x: nat ensures Count(t, x) == Count(Child(t, side), x) + Count(Fill(t, side, Leaf), x) {
    }
  }

  // ---------- ownership ----------

  lemma FillCount(p: Tree, side: Side, t: Tree, x: nat)
    requires p.Node?
    ensures Count(Fill(p, side, t), x) == Count(Fill(p, side, Leaf), x) + Count(t, x)
    ensures Count(p, x) == Count(Fill(p, side, Leaf), x) + Count(Child(p, side), x)
    ensures Child(p, side).Leaf? ==> Fill(p, side, Leaf) == p
  {
    match side case L => case M => case R =>
  }

  // What Covers says about a child: the rest of its tree is part of its context.
  lemma CoversChild(ctx: Ctx, t: Tree, side: Side, a: Arena)
    requires t.Node? && Covers(ctx, t, a)
    ensures Covers(In(side, Fill(t, side, Leaf), ctx), Child(t, side), a)
  {
    forall x: nat
      ensures Count(Child(t, side), x) + Count(Fill(t, side, Leaf), x) + CtxCount(ctx, x) + Occurrences(a.free, x)
           == InRange(a.size, x)
    {
      FillCount(t, side, Leaf, x);
      assert Count(t, x) + CtxCount(ctx, x) + Occurrences(a.free, x) == InRange(a.size, x);
    }
  }

  lemma CoversFill(ctx: Ctx, p: Tree, side: Side, t: Tree, a: Arena)
    requires p.Node? && Child(p, side).Leaf? && Covers(In(side, p, ctx), t, a)
    ensures Covers(ctx, Fill(p, side, t), a)
  {
    forall x: nat
      ensures Count(Fill(p, side, t), x) + CtxCount(ctx, x) + Occurrences(a.free, x) == InRange(a.size, x)
    {
      FillCount(p, side, t, x);
      assert Count(t, x) + CtxCount(In(side, p, ctx), x) + Occurrences(a.free, x) == InRange(a.size, x);
    }
  }

  // Of the cells in use, only those of t and of the arena have changed.
  ghost predicate OutsideKept(d: seq<Cell>, d': seq<Cell>, t: Tree, a: Arena) {
    a.size < |d| <= |d'| && forall y: nat :: y <= a.size && Count(t, y) + Occurrences(a.free, y) == 0 ==> d'[y] == d[y]
  }

  lemma KeptFurther(d0: seq<Cell>, d1: seq<Cell>, d2: seq<Cell>, a: Arena, t: Tree)
    requires OutsideKept(d0, d1, Leaf, a) && OutsideKept(d1, d2, t, a.Rest())
    requires t.Node? && t.id == a.Next() && t.l.Leaf? && t.m.Leaf? && t.r.Leaf?
    ensures OutsideKept(d0, d2, Leaf, a)
  {
    forall y: nat | y <= a.size && Count(Leaf, y) + Occurrences(a.free, y) == 0 ensures d2[y] == d0[y] {
      assert d1[y] == d0[y] && Count(t, y) == 0;
    }
  }

  // d1 is d0 after the subtree on one side of t became u, within cells of that subtree and
  // of the arena; storing u's root completes the update of t.
  lemma StoreChild(d0: seq<Cell>, d1: seq<Cell>, t: Tree, side: Side, u: Tree, parent: nat,
                   ctx: Ctx, a0: Arena, a1: Arena, head: nat, whole: bool)
    requires t.Node? && Shape(d0, t) && (whole ==> Parented(d0, t)) && Covers(ctx, t, a0)
    requires HostsIf(d1, u, t.id, whole) && Covers(In(side, Fill(t, side, Leaf), ctx), u, a1)
    requires FreeList(d1, head, a1.free)
    requires OutsideKept(d0, d1, Child(t, side), a0)
    ensures d1[t.id] == d0[t.id]
    ensures var d2 := d1[t.id := WithChild(d1[t.id], side, Root(u)).(parent := parent)];
      && HostsIf(d2, Fill(t, side, u), parent, whole) && FreeList(d2, head, a1.free)
      && ParentIs(d2, Fill(t, side, u), parent) && Agree(d1, d2, u)
  {
    var x, rest := t.id, Fill(t, side, Leaf);
    var d2 := d1[x := WithChild(d1[x], side, Root(u)).(parent := parent)];
    assert Count(t, x) + CtxCount(ctx, x) + Occurrences(a0.free, x) == InRange(a0.size, x);
    assert Count(u, x) + CtxCount(In(side, rest, ctx), x) + Occurrences(a1.free, x) == InRange(a1.size, x);
    FillCount(t, side, Leaf, x);
    forall y: nat | y < |d0| && y != x && Count(rest, y) > 0 ensures d2[y] == d0[y] {
      FillCount(t, side, Leaf, y);
      assert Count(t, y) + CtxCount(ctx, y) + Occurrences(a0.free, y) == InRange(a0.size, y);
    }
    SiblingFrame(d0, d2, t, side, whole);
    TreeFrame(d1, d2, u);
    FreeFrame(d1, d2, head, a1.free);
    HostsFill(d2, t, side, u, parent, whole);
  }

  lemma SiblingFrame(d: seq<Cell>, d': seq<Cell>, t: Tree, side: Side, whole: bool)
    requires t.Node? && Shape(d, t) && (whole ==> Parented(d, t)) && |d| <= |d'|
    requires Count(t, t.id) == 1
    requires forall y: nat :: y < |d| && y != t.id && Count(Fill(t, side, Leaf), y) > 0 ==> d'[y] == d[y]
    ensures var q := Fill(t, side, Leaf);
      HostsIf(d', q.l, t.id, whole) && HostsIf(d', q.m, t.id, whole) && HostsIf(d', q.r, t.id, whole)
  {
    var q := Fill(t, side, Leaf);
    assert Agree(d, d', q.l) && Agree(d, d', q.m) && Agree(d, d', q.r);
    TreeFrame(d, d', q.l);
    TreeFrame(d, d', q.m);
    TreeFrame(d, d', q.r);
  }

  lemma HostsFill(d: seq<Cell>, t: Tree, side: Side, u: Tree, parent: nat, whole: bool)
    requires t.Node? && 0 < t.id < |d| && HostsIf(d, u, t.id, whole)
    requires d[t.id] == WithChild(CellOf(t, parent), side, Root(u))
    requires var q := Fill(t, side, Leaf);
      HostsIf(d, q.l, t.id, whole) && HostsIf(d, q.m, t.id, whole) && HostsIf(d, q.r, t.id, whole)
    ensures HostsIf(d, Fill(t, side, u), parent, whole)
    ensures ParentIs(d, Fill(t, side, u), parent)
  {
    match side case L => case M => case R =>
  }

  lemma ChildHosted(d: seq<Cell>, t: Tree, side: Side, whole: bool)
    requires t.Node? && Shape(d, t) && (whole ==> Parented(d, t))
    ensures HostsIf(d, Child(t, side), t.id, whole)
    ensures Root(Child(t, side)) == match side case L => d[t.id].left case M => d[t.id].mid case R => d[t.id].right
  {
    match side case L => case M => case R =>
  }

  // What changes within a child's cells and the arena, and in the node itself, changes
  // nothing outside the whole subtree and the arena.
  lemma ChildFrame(d0: seq<Cell>, d1: seq<Cell>, d2: seq<Cell>, t: Tree, side: Side, a: Arena)
    requires t.Node? && t.id < |d1| == |d2| && OutsideKept(d0, d1, Child(t, side), a)
    requires forall y: nat :: y < |d1| && y != t.id ==> d2[y] == d1[y]
    ensures OutsideKept(d0, d2, t, a)
  {
    forall y: nat | y <= a.size && Count(t, y) + Occurrences(a.free, y) == 0 ensures d2[y] == d0[y] {
      FillCount(t, side, Leaf, y);
    }
  }

  lemma StoreValue(d: seq<Cell>, t: Tree, v: nat, parent: nat, ctx: Ctx, a: Arena, head: nat, whole: bool)
    requires t.Node? && Shape(d, t) && (whole ==> Parented(d, t)) && Covers(ctx, t, a) && FreeList(d, head, a.free)
    ensures var d' := d[t.id := d[t.id].(value := v, parent := parent)];
      HostsIf(d', t.(val := v), parent, whole) && ParentIs(d', t.(val := v), parent) && FreeList(d', head, a.free)
    ensures Covers(ctx, t.(val := v), a)
  {
    var d' := d[t.id := d[t.id].(value := v, parent := parent)];
    forall x: nat ensures Count(t.(val := v), x) == Count(t, x) {}
    assert Count(t, t.id) + CtxCount(ctx, t.id) + Occurrences(a.free, t.id) == InRange(a.size, t.id);
    TreeFrame(d, d', t.l);
    TreeFrame(d, d', t.m);
    TreeFrame(d, d', t.r);
    FreeFrame(d, d', head, a.free);
  }

  lemma CoversOnce(ctx: Ctx, t: Tree, a: Arena)
    requires Covers(ctx, t, a)
    ensures Once(ctx, t)
  {
    forall x: nat ensures Count(t, x) + CtxCount(ctx, x) <= 1 {
      assert Count(t, x) + CtxCount(ctx, x) + Occurrences(a.free, x) == InRange(a.size, x);
    }
  }

  // The removed node is the next one to be handed out again; nothing else changed hands.
  lemma UnlinkedFree(h: Heap, h': Heap, ctx: Ctx, t: Tree, free: seq<nat>, reparent: bool, whole: bool)
    requires Dead(t) && t.id > 0 && Unlinked(h, h', ctx, t, reparent, whole)
    requires Covers(ctx, t, Arena(free, h.size)) && FreeList(h.data, h.head, free)
    ensures FreeList(h'.data, h'.head, [t.id] + free)
    ensures Covers(ctx, Prune(t), Arena([t.id] + free, h.size))
  {
    var free' := [t.id] + free;
    assert free'[1..] == free;
    forall x: nat
      ensures Count(Prune(t), x) + CtxCount(ctx, x) + Occurrences(free', x) == InRange(h.size, x)
      ensures Occurrences(free, x) > 0 && x < |h.data| ==> h'.data[x] == h.data[x]
    {
      PruneCounts(t, x);
      assert Count(t, x) + CtxCount(ctx, x) + Occurrences(free, x) == InRange(h.size, x);
    }
    FreeFrame(h.data, h'.data, h.head, free);
  }

  // Forgetting the value of t's root.
  lemma ClearValue(d: seq<Cell>, root: nat, ctx: Ctx, t: Tree, a: Arena, head: nat, whole: bool)
    requires t.Node? && HostsIf(d, t, Owner(ctx), whole) && ParentIs(d, t, Owner(ctx))
    requires CtxShape(d, root, ctx, t.id, whole)
    requires Covers(ctx, t, a) && FreeList(d, head, a.free)
    ensures var d', t' := d[t.id := d[t.id].(value := 0)], t.(val := 0);
      && HostsIf(d', t', Owner(ctx), whole) && ParentIs(d', t', Owner(ctx)) && CtxShape(d', root, ctx, t.id, whole)
      && FreeList(d', head, a.free) && Covers(ctx, t', a)
  {
    var d' := d[t.id := d[t.id].(value := 0)];
    StoreValue(d, t, 0, Owner(ctx), ctx, a, head, whole);
    assert d' == d[t.id := d[t.id].(value := 0, parent := Owner(ctx))];
    CoversOnce(ctx, t, a);
    CtxApart(d, d', root, ctx, t, t.id, whole);
  }

  // Links determine the tree: two trees with the same root index are the same tree.
  lemma {:induction false} ShapeUnique(d: seq<Cell>, t: Tree, t': Tree)
    requires Shape(d, t) && Shape(d, t') && Root(t) == Root(t')
    ensures t == t'
  {
    if t.Node? && t'.Node? {
      ShapeUnique(d, t.l, t'.l);
      ShapeUnique(d, t.m, t'.m);
      ShapeUnique(d, t.r, t'.r);
    }
  }

  // An array with a wrong parent index represents no tree at all.
  lemma WrongParentRepresentsNothing(h: Heap, t: Tree, free: seq<nat>, t': Tree, free': seq<nat>)
    requires Consistent(h, t, free) && !Parented(h.data, t)
    ensures !Represents(h, t', free')
  {
    if Represents(h, t', free') { ShapeUnique(h.data, t, t'); }
  }
}
