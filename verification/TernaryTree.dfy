/** The ternary search tree as a value: what the node array stands for.  Every node
    keeps the array index it lives at, so that a tree also says which nodes it owns. */
module TernaryTree {
  import opened Lexicographic
  import opened Sequences

  datatype Tree =
    | Leaf
    | Node(id: nat, c: char, val: nat, l: Tree, m: Tree, r: Tree)

  // Array index of the root, 0 when there is none.
  function Root(t: Tree): nat {
    if t.Leaf? then 0 else t.id
  }

  // How many nodes of t live at index x.
  ghost function Count(t: Tree, x: nat): nat {
    if t.Leaf? then 0 else (if x == t.id then 1 else 0) + Count(t.l, x) + Count(t.m, x) + Count(t.r, x)
  }

  const ANY_CHAR: int := 0x11_0000

  const MAX_KEY_SIZE: nat := 256

  // Strict search-tree order of every level; characters lie strictly between lo and hi,
  // and '\0' occurs nowhere.
  ghost predicate Ordered(t: Tree, lo: int, hi: int) {
    t.Node? ==>
      && lo < t.c as int < hi
      && 0 < t.c as int < ANY_CHAR
      && Ordered(t.l, lo, t.c as int)
      && Ordered(t.m, 0, ANY_CHAR)
      && Ordered(t.r, t.c as int, hi)
  }

  // No dead node: every node stores a value or leads to one.
  ghost predicate NoDead(t: Tree) {
    t.Node? ==> (t.val > 0 || t.m.Node?) && NoDead(t.l) && NoDead(t.m) && NoDead(t.r)
  }

  // Length of the longest path, counted in characters.
  function Height(t: Tree): nat {
    if t.Leaf? then 0 else Max(Max(Height(t.l), Height(t.r)), 1 + Height(t.m))
  }

  function Max(a: nat, b: nat): nat {
    if a < b then b else a
  }

  // A C string: no terminator inside.
  predicate CString(s: string) {
    forall i :: 0 <= i < |s| ==> s[i] != '\0'
  }

  // ---------- lookup ----------

  // Value stored for s; 0 says that s is not stored.
  function Get(t: Tree, s: string): nat
    decreases |s|, t
  {
    if s == "" || t.Leaf? then 0
    else if s[0] < t.c then Get(t.l, s)
    else if s[0] > t.c then Get(t.r, s)
    else if |s| > 1 then Get(t.m, s[1..])
    else t.val
  }

  // The subtree whose root is the last node on the path of s, or Leaf.
  function Find(t: Tree, s: string): Tree
    requires s != ""
    decreases |s|, t
  {
    if t.Leaf? then Leaf
    else if s[0] < t.c then Find(t.l, s)
    else if s[0] > t.c then Find(t.r, s)
    else if |s| > 1 then Find(t.m, s[1..])
    else t
  }

  lemma {:induction false} FindGet(t: Tree, s: string)
    requires s != ""
    ensures Get(t, s) == if Find(t, s).Leaf? then 0 else Find(t, s).val
    decreases |s|, t
  {
    if t.Leaf? {
    } else if s[0] < t.c {
      FindGet(t.l, s);
    } else if s[0] > t.c {
      FindGet(t.r, s);
    } else if |s| > 1 {
      FindGet(t.m, s[1..]);
    }
  }

  // The map a tree stands for.
  ghost function Contents(t: Tree): map<string, nat> {
    map k | k in Keys(t, "") :: Get(t, k)
  }

  // Stored keys of t in order, each prefixed by pre.
  function Keys(t: Tree, pre: string): seq<string> {
    if t.Leaf? then []
    else
      Keys(t.l, pre) + Own(t, pre) + Keys(t.m, pre + [t.c]) + Keys(t.r, pre)
  }

  function Own(t: Tree, pre: string): seq<string>
    requires t.Node?
  {
    if t.val > 0 then [pre + [t.c]] else []
  }

  // ---------- the allocator ----------

  // Free list (first node to be reused first) and highest index handed out so far.
  datatype Arena = Arena(free: seq<nat>, size: nat) {
    function Next(): nat {
      if free == [] then size + 1 else free[0]
    }
    function Rest(): Arena {
      if free == [] then Arena([], size + 1) else Arena(free[1..], size)
    }
  }

  ghost function Occurrences(free: seq<nat>, x: nat): nat {
    if free == [] then 0 else (if x == free[0] then 1 else 0) + Occurrences(free[1..], x)
  }

  // 1 for the indices 1..n, else 0.
  function InRange(n: nat, x: nat): nat {
    if 1 <= x <= n then 1 else 0
  }

  lemma {:induction false} OccurrencesMember(free: seq<nat>, x: nat)
    ensures Occurrences(free, x) > 0 <==> x in free
  {
    if free != [] { OccurrencesMember(free[1..], x); }
  }

  // ---------- insertion ----------

  function Put(t: Tree, s: string, v: nat, a: Arena): Tree
    requires s != ""
    decreases |s|, t
  {
    if t.Leaf? then
      Node(a.Next(), s[0], if |s| == 1 then v else 0, Leaf,
           if |s| == 1 then Leaf else Put(Leaf, s[1..], v, a.Rest()), Leaf)
    else if s[0] < t.c then t.(l := Put(t.l, s, v, a))
    else if s[0] > t.c then t.(r := Put(t.r, s, v, a))
    else if |s| > 1 then t.(m := Put(t.m, s[1..], v, a))
    else t.(val := v)
  }

  // What Put leaves of the arena.
  function PutArena(t: Tree, s: string, a: Arena): Arena
    requires s != ""
    decreases |s|, t
  {
    if t.Leaf? then if |s| == 1 then a.Rest() else PutArena(Leaf, s[1..], a.Rest())
    else if s[0] < t.c then PutArena(t.l, s, a)
    else if s[0] > t.c then PutArena(t.r, s, a)
    else if |s| > 1 then PutArena(t.m, s[1..], a)
    else a
  }

  lemma {:induction false} GetPut(t: Tree, s: string, v: nat, a: Arena, k: string)
    requires s != ""
    ensures Get(Put(t, s, v, a), k) == if k == s then v else Get(t, k)
    decreases |s|, t
  {
    if k != "" {
      SameString(k, s);
      if t.Leaf? {
        if |s| > 1 && |k| > 1 { GetPut(Leaf, s[1..], v, a.Rest(), k[1..]); }
      } else if s[0] < t.c {
        GetPut(t.l, s, v, a, k);
      } else if s[0] > t.c {
        GetPut(t.r, s, v, a, k);
      } else if |s| > 1 && |k| > 1 {
        GetPut(t.m, s[1..], v, a, k[1..]);
      }
    }
  }

  lemma SameString(k: string, s: string)
    requires k != "" && s != ""
    ensures k == s <==> k[0] == s[0] && k[1..] == s[1..]
  {
    assert k == [k[0]] + k[1..] && s == [s[0]] + s[1..];
  }

  lemma {:induction false} PutOrdered(t: Tree, s: string, v: nat, a: Arena, lo: int, hi: int)
    requires s != "" && CString(s) && Ordered(t, lo, hi) && lo < s[0] as int < hi
    ensures Ordered(Put(t, s, v, a), lo, hi)
    decreases |s|, t
  {
    if t.Leaf? {
      if |s| > 1 { PutOrdered(Leaf, s[1..], v, a.Rest(), 0, ANY_CHAR); }
    } else if s[0] < t.c {
      PutOrdered(t.l, s, v, a, lo, t.c as int);
    } else if s[0] > t.c {
      PutOrdered(t.r, s, v, a, t.c as int, hi);
    } else if |s| > 1 {
      PutOrdered(t.m, s[1..], v, a, 0, ANY_CHAR);
    }
  }

  lemma {:induction false} PutNoDead(t: Tree, s: string, v: nat, a: Arena)
    requires s != "" && v > 0 && NoDead(t)
    ensures NoDead(Put(t, s, v, a))
    decreases |s|, t
  {
    if t.Leaf? {
      if |s| > 1 { PutNoDead(Leaf, s[1..], v, a.Rest()); }
    } else if s[0] < t.c {
      PutNoDead(t.l, s, v, a);
    } else if s[0] > t.c {
      PutNoDead(t.r, s, v, a);
    } else if |s| > 1 {
      PutNoDead(t.m, s[1..], v, a);
    }
  }

  // Insertion only moves nodes from the arena into the tree: none is lost or used twice.
  lemma {:induction false} PutCounts(t: Tree, s: string, v: nat, a: Arena, x: nat)
    requires s != ""
    ensures Count(Put(t, s, v, a), x) + Occurrences(PutArena(t, s, a).free, x) + InRange(a.size, x)
         == Count(t, x) + Occurrences(a.free, x) + InRange(PutArena(t, s, a).size, x)
    decreases |s|, t
  {
    if t.Leaf? {
      if |s| > 1 { PutCounts(Leaf, s[1..], v, a.Rest(), x); }
    } else if s[0] < t.c {
      PutCounts(t.l, s, v, a, x);
    } else if s[0] > t.c {
      PutCounts(t.r, s, v, a, x);
    } else if |s| > 1 {
      PutCounts(t.m, s[1..], v, a, x);
    }
  }

  // ---------- deletion ----------

  // Hang r under the greatest node of l's top level.
  function Hang(l: Tree, r: Tree): Tree
    requires l.Node?
  {
    if l.r.Leaf? then l.(r := r) else l.(r := Hang(l.r, r))
  }

  // Index of the greatest node of l's top level.
  function Greatest(l: Tree): nat
    requires l.Node?
  {
    if l.r.Leaf? then l.id else Greatest(l.r)
  }

  function Splice(l: Tree, r: Tree): Tree {
    if l.Leaf? then r else if r.Leaf? then l else Hang(l, r)
  }

  predicate Dead(t: Tree) {
    t.Node? && t.m.Leaf? && t.val == 0
  }

  // Remove the root if it is dead.
  function Prune(t: Tree): Tree {
    if Dead(t) then Splice(t.l, t.r) else t
  }

  // Forget the value of s, then prune every node on the way back to the root.
  function Unset(t: Tree, s: string): Tree
    requires s != ""
    decreases |s|, t
  {
    if t.Leaf? then Leaf
    else if s[0] < t.c then Prune(t.(l := Unset(t.l, s)))
    else if s[0] > t.c then Prune(t.(r := Unset(t.r, s)))
    else if |s| > 1 then Prune(t.(m := Unset(t.m, s[1..])))
    else Prune(t.(val := 0))
  }

  // A key with no node of its own leaves the tree as it is.
  function Delete(t: Tree, s: string): Tree {
    if s == "" || Find(t, s).Leaf? then t else Unset(t, s)
  }

  // Whether forgetting s removes some node that still has both a left and a right child.
  predicate TwoSided(t: Tree) {
    Dead(t) && t.l.Node? && t.r.Node?
  }

  predicate HangsTwo(t: Tree, s: string)
    requires s != ""
    decreases |s|, t
  {
    if t.Leaf? then false
    else if s[0] < t.c then HangsTwo(t.l, s) || TwoSided(t.(l := Unset(t.l, s)))
    else if s[0] > t.c then HangsTwo(t.r, s) || TwoSided(t.(r := Unset(t.r, s)))
    else if |s| > 1 then HangsTwo(t.m, s[1..]) || TwoSided(t.(m := Unset(t.m, s[1..])))
    else TwoSided(t.(val := 0))
  }

  predicate Spoils(t: Tree, s: string) {
    s != "" && Find(t, s).Node? && HangsTwo(t, s)
  }

  // ---------- a tree with a hole ----------

  datatype Side = L | M | R

  // The nodes from a hole up to the root; p has Leaf where the hole is.
  datatype Ctx = Top | In(side: Side, p: Tree, up: Ctx)

  ghost predicate Proper(ctx: Ctx) {
    ctx.In? ==> ctx.p.Node? && Child(ctx.p, ctx.side).Leaf? && Proper(ctx.up)
  }

  function Child(p: Tree, side: Side): Tree
    requires p.Node?
  {
    match side case L => p.l case M => p.m case R => p.r
  }

  function Fill(p: Tree, side: Side, t: Tree): Tree
    requires p.Node?
  {
    match side case L => p.(l := t) case M => p.(m := t) case R => p.(r := t)
  }

  // Node the hole hangs from, 0 at the root.
  function Owner(ctx: Ctx): nat {
    if ctx.In? then Root(ctx.p) else 0
  }

  ghost function CtxCount(ctx: Ctx, x: nat): nat {
    if ctx.Top? then 0 else Count(ctx.p, x) + CtxCount(ctx.up, x)
  }

  // Put t into the hole.
  ghost function Plug(ctx: Ctx, t: Tree): Tree
    requires Proper(ctx)
    decreases ctx
  {
    if ctx.Top? then t else Plug(ctx.up, Fill(ctx.p, ctx.side, t))
  }

  // Put t into the hole and prune every node above it, bottom up.
  ghost function Rebuild(ctx: Ctx, t: Tree): Tree
    requires Proper(ctx)
    decreases ctx
  {
    if ctx.Top? then t else Rebuild(ctx.up, Prune(Fill(ctx.p, ctx.side, t)))
  }

  ghost predicate RebuildHangs(ctx: Ctx, t: Tree)
    requires Proper(ctx)
    decreases ctx
  {
    ctx.In? &&
    var u := Fill(ctx.p, ctx.side, t);
    TwoSided(u) || RebuildHangs(ctx.up, Prune(u))
  }

  // The tree t in its context and the free list use each of 1..a.size exactly once.
  ghost predicate Covers(ctx: Ctx, t: Tree, a: Arena) {
    forall x: nat :: Count(t, x) + CtxCount(ctx, x) + Occurrences(a.free, x) == InRange(a.size, x)
  }

  lemma {:induction false} GetOutside(t: Tree, lo: int, hi: int, k: string)
    requires Ordered(t, lo, hi) && k != "" && !(lo < k[0] as int < hi)
    ensures Get(t, k) == 0
  {
    if t.Node? {
      if k[0] < t.c { GetOutside(t.l, lo, t.c as int, k); } else { GetOutside(t.r, t.c as int, hi, k); }
    }
  }

  lemma {:induction false} GetHang(l: Tree, r: Tree, lo: int, mid: int, hi: int, k: string)
    requires l.Node? && Ordered(l, lo, mid) && Ordered(r, mid - 1, hi) && mid <= hi && k != ""
    ensures Ordered(Hang(l, r), lo, hi)
    ensures Get(Hang(l, r), k) == if k[0] as int < mid then Get(l, k) else Get(r, k)
  {
    if l.r.Leaf? {
      OrderedWiden(r, mid - 1, hi, l.c as int, hi);
      if k[0] as int < mid { GetOutside(r, mid - 1, hi, k); }
    } else {
      GetHang(l.r, r, l.c as int, mid, hi, k);
    }
  }

  lemma {:induction false} OrderedWiden(t: Tree, lo: int, hi: int, lo': int, hi': int)
    requires Ordered(t, lo, hi) && lo' <= lo && hi <= hi'
    ensures Ordered(t, lo', hi')
  {
    if t.Node? {
      OrderedWiden(t.l, lo, t.c as int, lo', t.c as int);
      OrderedWiden(t.r, t.c as int, hi, t.c as int, hi');
    }
  }

  // Hanging the right subtree under the left one's greatest node keeps the order and
  // changes what no key finds.
  lemma {:induction false} PruneKeeps(t: Tree, lo: int, hi: int, k: string)
    requires Ordered(t, lo, hi) && k != ""
    ensures Ordered(Prune(t), lo, hi)
    ensures Get(Prune(t), k) == Get(t, k)
  {
    if Dead(t) {
      var c := t.c as int;
      OrderedWiden(t.l, lo, c, lo, hi);
      OrderedWiden(t.r, c, hi, lo, hi);
      if t.l.Node? && t.r.Node? {
        OrderedWiden(t.l, lo, c, lo, c + 1);
        OrderedWiden(t.r, c, hi, c, hi);
        GetHang(t.l, t.r, lo, c + 1, hi, k);
      }
      if k[0] as int <= c { GetOutside(t.r, c, hi, k); }
      if k[0] as int >= c { GetOutside(t.l, lo, c, k); }
    }
  }

  lemma {:induction false} GetUnset(t: Tree, s: string, lo: int, hi: int, k: string)
    requires s != "" && k != "" && Ordered(t, lo, hi)
    ensures Ordered(Unset(t, s), lo, hi)
    ensures Get(Unset(t, s), k) == if k == s then 0 else Get(t, k)
    decreases |s|, t
  {
    if t.Node? {
      assert k == [k[0]] + k[1..] && s == [s[0]] + s[1..];
      var u :=
        if s[0] < t.c then t.(l := Unset(t.l, s))
        else if s[0] > t.c then t.(r := Unset(t.r, s))
        else if |s| > 1 then t.(m := Unset(t.m, s[1..]))
        else t.(val := 0);
      if s[0] < t.c {
        GetUnset(t.l, s, lo, t.c as int, k);
      } else if s[0] > t.c {
        GetUnset(t.r, s, t.c as int, hi, k);
      } else if |s| > 1 {
        GetUnset(t.m, s[1..], 0, ANY_CHAR, if |k| > 1 then k[1..] else s[1..]);
      }
      PruneKeeps(u, lo, hi, k);
    }
  }

  // The map law of deletion, for every ordered tree and every pair of keys.
  lemma GetDelete(t: Tree, s: string, k: string)
    requires Ordered(t, 0, ANY_CHAR) && s != ""
    ensures Ordered(Delete(t, s), 0, ANY_CHAR)
    ensures Get(Delete(t, s), k) == if k == s then 0 else Get(t, k)
  {
    FindGet(t, s);
    GetUnset(t, s, 0, ANY_CHAR, if k == "" then s else k);
  }

  lemma {:induction false} HangCounts(l: Tree, r: Tree, x: nat)
    requires l.Node?
    ensures Count(Hang(l, r), x) == Count(l, x) + Count(r, x)
  {
    if l.r.Node? { HangCounts(l.r, r, x); }
  }

  // Pruning gives up the root and nothing else.
  lemma PruneCounts(t: Tree, x: nat)
    ensures Count(t, x) == Count(Prune(t), x) + if Dead(t) && x == t.id then 1 else 0
  {
    if Dead(t) && t.l.Node? && t.r.Node? { HangCounts(t.l, t.r, x); }
  }

  lemma {:induction false} HangNoDead(l: Tree, r: Tree)
    requires l.Node? && NoDead(l) && NoDead(r)
    ensures NoDead(Hang(l, r))
  {
    if l.r.Node? { HangNoDead(l.r, r); }
  }

  lemma PruneNoDead(t: Tree)
    requires t.Node? && NoDead(t.l) && NoDead(t.m) && NoDead(t.r)
    ensures NoDead(Prune(t))
  {
    if Dead(t) && t.l.Node? && t.r.Node? { HangNoDead(t.l, t.r); }
  }

  lemma {:induction false} DeleteNoDead(t: Tree, s: string)
    requires s != "" && NoDead(t)
    ensures NoDead(Unset(t, s)) && NoDead(Delete(t, s))
    decreases |s|, t
  {
    if t.Node? {
      if s[0] < t.c {
        DeleteNoDead(t.l, s);
        PruneNoDead(t.(l := Unset(t.l, s)));
      } else if s[0] > t.c {
        DeleteNoDead(t.r, s);
        PruneNoDead(t.(r := Unset(t.r, s)));
      } else if |s| > 1 {
        DeleteNoDead(t.m, s[1..]);
        PruneNoDead(t.(m := Unset(t.m, s[1..])));
      } else {
        PruneNoDead(t.(val := 0));
      }
    }
  }

  // ---------- keys ----------

  lemma {:induction false} KeysExtend(t: Tree, pre: string, lo: int, hi: int, k: string)
    requires Ordered(t, lo, hi) && k in Keys(t, pre)
    ensures |pre| < |k| && k[..|pre|] == pre && lo < k[|pre|] as int < hi && k[|pre|] != '\0'
    decreases t
  {
    var n := |pre|;
    if k in Keys(t.l, pre) {
      KeysExtend(t.l, pre, lo, t.c as int, k);
    } else if k in Own(t, pre) {
    } else if k in Keys(t.m, pre + [t.c]) {
      KeysExtend(t.m, pre + [t.c], 0, ANY_CHAR, k);
      assert k[..n] == k[..n + 1][..n] && k[n] == k[..n + 1][n];
    } else {
      KeysExtend(t.r, pre, t.c as int, hi, k);
    }
  }

  // Keys lists exactly the strings that Get finds.
  lemma {:induction false} KeysExact(t: Tree, pre: string, lo: int, hi: int, x: string)
    requires Ordered(t, lo, hi)
    ensures pre + x in Keys(t, pre) <==> x != "" && Get(t, x) > 0
    decreases t, 1
  {
    if pre + x in Keys(t, pre) { KeysExtend(t, pre, lo, hi, pre + x); }
    if t.Node? && x != "" {
      var c := t.c as int;
      assert (pre + x)[|pre|] == x[0];
      KeysExact(t.l, pre, lo, c, x);
      KeysExact(t.r, pre, c, hi, x);
      if pre + x in Keys(t.l, pre) { KeysExtend(t.l, pre, lo, c, pre + x); }
      if pre + x in Keys(t.r, pre) { KeysExtend(t.r, pre, c, hi, pre + x); }
      if x[0] as int >= c { GetOutside(t.l, lo, c, x); }
      if x[0] as int <= c { GetOutside(t.r, c, hi, x); }
      KeysExactMid(t, pre, x);
    }
  }

  lemma {:induction false} KeysExactMid(t: Tree, pre: string, x: string)
    requires t.Node? && x != "" && Ordered(t.m, 0, ANY_CHAR)
    ensures pre + x in Keys(t.m, pre + [t.c]) <==> x[0] == t.c && |x| > 1 && Get(t.m, x[1..]) > 0
    ensures pre + x in Own(t, pre) <==> x == [t.c] && t.val > 0
    decreases t, 0
  {
    var p := pre + [t.c];
    assert x == [x[0]] + x[1..];
    if x[0] == t.c {
      assert p + x[1..] == pre + x;
      KeysExact(t.m, p, 0, ANY_CHAR, x[1..]);
    } else {
      assert (pre + x)[|pre|] == x[0];
      if pre + x in Keys(t.m, p) {
        KeysExtend(t.m, p, 0, ANY_CHAR, pre + x);
        assert false;
      }
    }
    assert (pre + [t.c])[|pre|..] == [t.c] && (pre + x)[|pre|..] == x;
  }

  lemma AscendingConcat(a: seq<string>, b: seq<string>)
    requires Ascending(a) && Ascending(b)
    requires forall x, y :: x in a && y in b ==> Less(x, y)
    ensures Ascending(a + b)
  {
  }

  // A node's own key comes before its extensions.
  lemma MiddleAscending(t: Tree, pre: string)
    requires t.Node? && Ordered(t.m, 0, ANY_CHAR) && Ascending(Keys(t.m, pre + [t.c]))
    ensures Ascending(Own(t, pre) + Keys(t.m, pre + [t.c]))
  {
    var p := pre + [t.c];
    forall x, y | x in Own(t, pre) && y in Keys(t.m, p) ensures Less(x, y) {
      KeysExtend(t.m, p, 0, ANY_CHAR, y);
      FirstDifference(x, y, |p|);
    }
    AscendingConcat(Own(t, pre), Keys(t.m, p));
  }

  // Keys come out in strictly ascending order.
  lemma {:induction false} KeysAscending(t: Tree, pre: string, lo: int, hi: int)
    requires Ordered(t, lo, hi)
    ensures Ascending(Keys(t, pre))
    decreases t
  {
    if t.Node? {
      var n, c, p := |pre|, t.c as int, pre + [t.c];
      KeysAscending(t.l, pre, lo, c);
      KeysAscending(t.m, p, 0, ANY_CHAR);
      KeysAscending(t.r, pre, c, hi);
      MiddleAscending(t, pre);
      forall x, y | x in Keys(t.l, pre) && (y in Own(t, pre) + Keys(t.m, p) || y in Keys(t.r, pre))
        ensures Less(x, y)
      {
        KeysExtend(t.l, pre, lo, c, x);
        KeyAtNode(t, pre, lo, hi, y);
        FirstDifference(x, y, n);
      }
      forall x, y | x in Own(t, pre) + Keys(t.m, p) && y in Keys(t.r, pre) ensures Less(x, y) {
        KeysExtend(t.r, pre, c, hi, y);
        KeyAtNode(t, pre, lo, hi, x);
        FirstDifference(x, y, n);
      }
      AscendingConcat(Keys(t.l, pre), Own(t, pre) + Keys(t.m, p));
      AscendingConcat(Keys(t.l, pre) + (Own(t, pre) + Keys(t.m, p)), Keys(t.r, pre));
      Joined(Keys(t.l, pre), Own(t, pre), Keys(t.m, p));
    }
  }

  lemma KeyInMiddle(t: Tree, pre: string, k: string)
    requires t.Node? && t.c != '\0' && Ordered(t.m, 0, ANY_CHAR) && k in Keys(t.m, pre + [t.c])
    ensures |pre| < |k| && k[..|pre|] == pre && k[|pre|] == t.c
  {
    var p := pre + [t.c];
    KeysExtend(t.m, p, 0, ANY_CHAR, k);
    assert k[..|pre|] == k[..|p|][..|pre|] && k[|pre|] == k[..|p|][|pre|];
  }

  // The character after pre says in which part of the node's key list a key lies.
  lemma KeyAtNode(t: Tree, pre: string, lo: int, hi: int, k: string)
    requires t.Node? && Ordered(t, lo, hi)
    ensures k in Own(t, pre) || k in Keys(t.m, pre + [t.c]) ==>
              |pre| < |k| && k[..|pre|] == pre && k[|pre|] == t.c
    ensures k in Keys(t.r, pre) ==> |pre| < |k| && k[..|pre|] == pre && k[|pre|] > t.c
    ensures k in Keys(t.l, pre) ==> |pre| < |k| && k[..|pre|] == pre && '\0' < k[|pre|] < t.c
  {
    if k in Keys(t.m, pre + [t.c]) { KeyInMiddle(t, pre, k); }
    if k in Keys(t.r, pre) { KeysExtend(t.r, pre, t.c as int, hi, k); }
    if k in Keys(t.l, pre) { KeysExtend(t.l, pre, lo, t.c as int, k); }
  }

  // A tree without dead nodes that stores no key has no node.
  lemma {:induction false} NoDeadHasKey(t: Tree) returns (k: string)
    requires NoDead(t) && t.Node?
    ensures k != "" && Get(t, k) > 0
  {
    if t.val > 0 {
      k := [t.c];
    } else {
      var x := NoDeadHasKey(t.m);
      k := [t.c] + x;
      assert k[1..] == x;
    }
  }

  lemma EmptyWhenNoKey(t: Tree)
    requires NoDead(t) && forall k :: Get(t, k) == 0
    ensures t.Leaf?
  {
    if t.Node? { var k := NoDeadHasKey(t); }
  }

  // ---------- the map laws ----------

  lemma InContents(t: Tree, k: string)
    requires Ordered(t, 0, ANY_CHAR)
    ensures k in Contents(t) <==> Get(t, k) > 0
    ensures k in Contents(t) ==> Contents(t)[k] == Get(t, k)
  {
    assert "" + k == k;
    KeysExact(t, "", 0, ANY_CHAR, k);
  }

  lemma PutRefinesMap(t: Tree, s: string, v: nat, a: Arena)
    requires Ordered(t, 0, ANY_CHAR) && s != "" && CString(s)
    ensures Ordered(Put(t, s, v, a), 0, ANY_CHAR)
    ensures Contents(Put(t, s, v, a)) == if v > 0 then Contents(t)[s := v] else Contents(t) - {s}
  {
    PutOrdered(t, s, v, a, 0, ANY_CHAR);
    var now, was := Contents(Put(t, s, v, a)), Contents(t);
    forall k: string
      ensures k in now <==> if k == s then v > 0 else k in was
      ensures k in now ==> now[k] == if k == s then v else was[k]
    {
      PutContentsAt(t, s, v, a, k);
    }
    OneKeyChanged(was, now, s, v);
  }

  lemma OneKeyChanged(was: map<string, nat>, now: map<string, nat>, s: string, v: nat)
    requires forall k: string :: k in now <==> if k == s then v > 0 else k in was
    requires forall k: string :: k in now ==> now[k] == if k == s then v else was[k]
    ensures now == if v > 0 then was[s := v] else was - {s}
  {
  }

  lemma PutContentsAt(t: Tree, s: string, v: nat, a: Arena, k: string)
    requires Ordered(t, 0, ANY_CHAR) && s != "" && CString(s) && Ordered(Put(t, s, v, a), 0, ANY_CHAR)
    ensures var now, was := Contents(Put(t, s, v, a)), Contents(t);
      && (k in now <==> if k == s then v > 0 else k in was)
      && (k in now ==> now[k] == if k == s then v else was[k])
  {
    InContents(t, k);
    InContents(Put(t, s, v, a), k);
    GetPut(t, s, v, a, k);
  }

  lemma DeleteRefinesMap(t: Tree, s: string)
    requires Ordered(t, 0, ANY_CHAR)
    ensures Ordered(Delete(t, s), 0, ANY_CHAR)
    ensures Contents(Delete(t, s)) == Contents(t) - {s}
  {
    if s == "" {
      InContents(t, "");
    } else {
      GetDelete(t, s, s);
      forall k: string
        ensures k in Contents(Delete(t, s)) <==> k in Contents(t) && k != s
        ensures k in Contents(t) && k != s ==> Contents(Delete(t, s))[k] == Contents(t)[k]
      {
        InContents(t, k);
        InContents(Delete(t, s), k);
        GetDelete(t, s, k);
      }
    }
  }
}
