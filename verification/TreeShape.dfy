/** The shape of a tree without the indices of its nodes: what later insertions and deletions
    do to it does not depend on which nodes they are given. */
module TreeShape {
  import opened TernaryTree

  function Bare(t: Tree): Tree {
    if t.Leaf? then Leaf else Node(0, t.c, t.val, Bare(t.l), Bare(t.m), Bare(t.r))
  }

  function PutBare(t: Tree, s: string, v: nat): Tree
    requires s != ""
  {
    Bare(Put(t, s, v, Arena([], 0)))
  }

  // Insertion treats trees of one shape alike, whatever nodes it draws.
  lemma {:induction false} BareOfPut(t: Tree, s: string, v: nat, a: Arena, a': Arena)
    requires s != ""
    ensures Bare(Put(t, s, v, a)) == Bare(Put(Bare(t), s, v, a'))
    decreases |s|, t
  {
    if t.Leaf? {
      if |s| > 1 { BareOfPut(Leaf, s[1..], v, a.Rest(), a'.Rest()); }
    } else {
      BareTwice(t.l);
      BareTwice(t.m);
      BareTwice(t.r);
      if s[0] < t.c {
        BareOfPut(t.l, s, v, a, a');
      } else if s[0] > t.c {
        BareOfPut(t.r, s, v, a, a');
      } else if |s| > 1 {
        BareOfPut(t.m, s[1..], v, a, a');
      }
    }
  }

  lemma {:induction false} BareTwice(t: Tree)
    ensures Bare(Bare(t)) == Bare(t)
  {
    if t.Node? {
      BareTwice(t.l);
      BareTwice(t.m);
      BareTwice(t.r);
    }
  }

  lemma {:induction false} BareOfHang(l: Tree, r: Tree)
    requires l.Node?
    ensures Bare(Hang(l, r)) == Hang(Bare(l), Bare(r))
  {
    if l.r.Node? { BareOfHang(l.r, r); }
  }

  lemma BareOfPrune(t: Tree)
    ensures Bare(Prune(t)) == Prune(Bare(t)) && TwoSided(Bare(t)) == TwoSided(t)
  {
    if t.Node? && t.l.Node? && t.r.Node? { BareOfHang(t.l, t.r); }
  }

  // So does deletion, and whether it joins two subtrees is a matter of shape.
  lemma {:induction false} BareOfUnset(t: Tree, s: string)
    requires s != ""
    ensures Bare(Unset(t, s)) == Unset(Bare(t), s)
    ensures HangsTwo(t, s) == HangsTwo(Bare(t), s)
    decreases |s|, t
  {
    if t.Node? {
      if s[0] < t.c {
        BareOfUnset(t.l, s);
        BareOfPrune(t.(l := Unset(t.l, s)));
      } else if s[0] > t.c {
        BareOfUnset(t.r, s);
        BareOfPrune(t.(r := Unset(t.r, s)));
      } else if |s| > 1 {
        BareOfUnset(t.m, s[1..]);
        BareOfPrune(t.(m := Unset(t.m, s[1..])));
      } else {
        BareOfPrune(t.(val := 0));
      }
    }
  }

  lemma {:induction false} BareOfFind(t: Tree, s: string)
    requires s != ""
    ensures Bare(Find(t, s)) == Find(Bare(t), s)
    decreases |s|, t
  {
    if t.Node? {
      if s[0] < t.c {
        BareOfFind(t.l, s);
      } else if s[0] > t.c {
        BareOfFind(t.r, s);
      } else if |s| > 1 {
        BareOfFind(t.m, s[1..]);
      }
    }
  }

  lemma BareOfDelete(t: Tree, s: string)
    ensures Bare(Delete(t, s)) == Delete(Bare(t), s) && Spoils(t, s) == Spoils(Bare(t), s)
  {
    if s != "" {
      BareOfFind(t, s);
      BareOfUnset(t, s);
    }
  }
}
