/** The ordered traversals: they share one key buffer, write the reply as they go and stop
    at a limit. */
module KeyScan {
  import opened TernaryTree
  import opened Sequences
  import opened NodeArray
  import opened KeyListing
  import opened TstIndex

  // result and *result_size.
  class Listing {
    var text: string
    var count: nat

    constructor ()
      ensures text == "" && count == 0
    {
      text, count := "", 0;
    }
  }

  // The C string at the start of a buffer.
  function CText(b: seq<char>): string {
    if b == [] || b[0] == '\0' then "" else [b[0]] + CText(b[1..])
  }

  lemma {:induction false} CTextOf(b: seq<char>, s: string)
    requires CString(s) && |s| < |b| && b[..|s|] == s && b[|s|] == '\0'
    ensures CText(b) == s
  {
    if s != "" {
      assert b[0] == b[..|s|][0] == s[0];
      assert b[1..][..|s| - 1] == b[..|s|][1..] == s[1..];
      CTextOf(b[1..], s[1..]);
    }
  }

  lemma {:induction false} CTextBeyond(b: seq<char>, n: nat)
    requires n < |b| && forall i :: 0 <= i <= n ==> b[i] != '\0'
    ensures |CText(b)| > n
  {
    if n > 0 { CTextBeyond(b[1..], n - 1); }
  }

  // append_result: the C string in the buffer, on a line of its own.
  method AppendResult(key: array<char>, out: Listing)
    requires key.Length > 0 && key[key.Length - 1] == '\0'
    modifies out
    ensures out.text == old(out.text) + CText(key[..]) + "\r\n" && out.count == old(out.count) + 1
  {
    var i := 0;
    var s := "";
    while key[i] != '\0'
      invariant i < key.Length && s + CText(key[i..]) == CText(key[..])
      decreases key.Length - i
    {
      assert key[i..][1..] == key[i + 1..];
      assert s + ([key[i]] + CText(key[i + 1..])) == s + [key[i]] + CText(key[i + 1..]);
      s, i := s + [key[i]], i + 1;
    }
    out.text := out.text + s + "\r\n";
    out.count := out.count + 1;
  }

  // The keys dfs lists below a node, in the order asked for.
  function Listed(t: Tree, pre: string, order: Order): seq<string> {
    if order.Asc? then Keys(t, pre) else Reverse(Keys(t, pre))
  }

  // The node's own key and those below it: a key precedes its extensions going up.
  function Middle(t: Tree, pre: string, order: Order): seq<string>
    requires t.Node?
  {
    if order.Asc? then Own(t, pre) + Listed(t.m, pre + [t.c], order)
    else Listed(t.m, pre + [t.c], order) + Own(t, pre)
  }

  function First(t: Tree, order: Order): Tree
    requires t.Node?
  {
    if order.Asc? then t.l else t.r
  }

  function Second(t: Tree, order: Order): Tree
    requires t.Node?
  {
    if order.Asc? then t.r else t.l
  }

  lemma ListedParts(t: Tree, pre: string, order: Order)
    requires t.Node?
    ensures Listed(t, pre, order) ==
      Listed(First(t, order), pre, order) + Middle(t, pre, order) + Listed(Second(t, order), pre, order)
  {
    var l, o, m, r := Keys(t.l, pre), Own(t, pre), Keys(t.m, pre + [t.c]), Keys(t.r, pre);
    assert Keys(t, pre) == l + o + m + r;
    if order.Asc? {
      assert l + o + m + r == l + (o + m) + r;
    } else {
      ReverseFour(l, o, m, r);
      ReverseOwn(t, pre);
    }
  }

  lemma ReverseOwn(t: Tree, pre: string)
    requires t.Node?
    ensures Reverse(Own(t, pre)) == Own(t, pre)
  {
    var o := Own(t, pre);
    if o != [] {
      assert o[1..] == [];
      NothingBefore(o);
    }
  }

  lemma ReverseFour(l: seq<string>, o: seq<string>, m: seq<string>, r: seq<string>)
    ensures Reverse(l + o + m + r) == Reverse(r) + (Reverse(m) + Reverse(o)) + Reverse(l)
  {
    ReverseConcat(l + o + m, r);
    ReverseConcat(l + o, m);
    ReverseConcat(l, o);
    Regroup(Reverse(r), Reverse(m), Reverse(o), Reverse(l));
  }

  lemma Regroup(a: seq<string>, b: seq<string>, c: seq<string>, d: seq<string>)
    ensures a + (b + (c + d)) == a + (b + c) + d
  {
  }

  // What the scanning methods assume of the buffer: the path to the node is in place.
  ghost predicate Ready(db: TstDb, keyBuf: array<char>, d: nat, t: Tree, pre: string, lo: int, hi: int)
    reads db, db.data, keyBuf
  {
    && Shape(db.data[..], t) && Ordered(t, lo, hi)
    && keyBuf.Length == MAX_KEY_SIZE && d + Height(t) < MAX_KEY_SIZE && keyBuf[MAX_KEY_SIZE - 1] == '\0'
    && keyBuf[..d] == pre && CString(pre)
  }

  // ---------- what a descending traversal leaves in the buffer ----------

  // The node's own key, listed after its extensions, ends the string behind the node.
  function Ended(t: Tree, b: seq<char>): (r: seq<char>)
    requires t.Node?
    ensures |r| == |b|
  {
    if t.val > 0 && b != [] then b[0 := '\0'] else b
  }

  // The buffer from the subtree's depth on, once all of the subtree has been listed.
  function Residue(t: Tree, b: seq<char>): (r: seq<char>)
    requires Height(t) < |b|
    ensures |r| == |b|
  {
    if t.Leaf? then b
    else
      var right := Residue(t.r, b)[0 := t.c];
      Residue(t.l, [t.c] + Ended(t, Residue(t.m, right[1..])))[0 := t.c]
  }

  // A descending traversal that the limit did not stop leaves the residue.
  ghost predicate Trails(order: Order, count: nat, limit: int, t: Tree, b: seq<char>, b': seq<char>) {
    order.Desc? && count < limit ==> Height(t) < |b| && b' == Residue(t, b)
  }

  // One of the outer subtrees and the middle part of a node, seen from its depth d.
  ghost predicate TrailsSide(order: Order, count: nat, limit: int, t: Tree, c: char, b: seq<char>, b': seq<char>) {
    order.Desc? && count < limit ==> Height(t) < |b| && b' == Residue(t, b)[0 := c]
  }

  ghost predicate TrailsMiddle(order: Order, count: nat, limit: int, t: Tree, b: seq<char>, b': seq<char>)
    requires t.Node?
  {
    order.Desc? && count < limit ==> Height(t.m) + 1 < |b| && b' == [t.c] + Ended(t, Residue(t.m, b[1..]))
  }

  lemma TrailSide(order: Order, count: nat, limit: int, t: Tree, c: char, b: seq<char>, k: seq<char>, d: nat)
    requires d < |k| && Trails(order, count, limit, t, b, k[d..])
    ensures TrailsSide(order, count, limit, t, c, b, k[d := c][d..])
  {
    assert k[d := c][d..] == k[d..][0 := c];
  }

  lemma TrailMiddle(order: Order, count: nat, limit: int, t: Tree, k0: seq<char>, k1: seq<char>, d: nat)
    requires t.Node? && d + 1 < |k1| == |k0| && k1[d] == t.c
    requires Trails(order, count, limit, t.m, k0[d + 1..], k1[d + 1..])
    ensures TrailsMiddle(order, count, limit, t, k0[d..], (if t.val > 0 then k1[d + 1 := '\0'] else k1)[d..])
  {
    assert k0[d..][1..] == k0[d + 1..];
    var k2 := if t.val > 0 then k1[d + 1 := '\0'] else k1;
    assert k2[d..] == [t.c] + Ended(t, k1[d + 1..]);
  }

  lemma TrailWhole(order: Order, count: nat, limit: int, t: Tree,
                   b: seq<char>, b1: seq<char>, b2: seq<char>, b3: seq<char>)
    requires t.Node? && Height(t) < |b|
    requires TrailsSide(order, count, limit, t.r, t.c, b, b1) && TrailsMiddle(order, count, limit, t, b1, b2)
    requires TrailsSide(order, count, limit, t.l, t.c, b2, b3)
    ensures Trails(order, count, limit, t, b, b3)
  {
  }

  // Lists the node's own key if it has a value, with the terminator put in place first.
  method ListOwn(db: TstDb, node: nat, out: Listing, keyBuf: array<char>, d: nat, limit: int,
                 ghost t: Tree, ghost pre: string, ghost lo: int, ghost hi: int)
    requires Ready(db, keyBuf, d, t, pre, lo, hi) && t.Node? && node == t.id
    requires keyBuf[d] == t.c && out.count < limit && keyBuf != db.data as object
    modifies keyBuf, out
    ensures Ready(db, keyBuf, d, t, pre, lo, hi) && keyBuf[d] == t.c
    ensures Lists(old(out.text), old(out.count), out.text, out.count, limit, Own(t, pre))
    ensures keyBuf[..] == if t.val > 0 then old(keyBuf[..])[d + 1 := '\0'] else old(keyBuf[..])
  {
    if db.data[node].value != 0 {
      keyBuf[d + 1] := '\0';
      assert keyBuf[..][..d + 1] == pre + [t.c];
      CTextOf(keyBuf[..], pre + [t.c]);
      AppendResult(keyBuf, out);
    }
  }

  // dfs: everything below node, in either direction.
  method Dfs(db: TstDb, node: nat, out: Listing, keyBuf: array<char>, d: nat, limit: int, order: Order,
             ghost t: Tree, ghost pre: string, ghost lo: int, ghost hi: int)
    requires Ready(db, keyBuf, d, t, pre, lo, hi) && node == Root(t) && keyBuf != db.data as object
    modifies keyBuf, out
    decreases t, 1
    ensures Ready(db, keyBuf, d, t, pre, lo, hi)
    ensures Lists(old(out.text), old(out.count), out.text, out.count, limit, Listed(t, pre, order))
    ensures t.Leaf? ==> keyBuf[..] == old(keyBuf[..])
    ensures t.Node? && out.count < limit ==> keyBuf[d] == t.c
    ensures Trails(order, out.count, limit, t, old(keyBuf[d..]), keyBuf[d..])
  {
    if node == 0 { return; }
    if out.count >= limit { return; }
    ListedParts(t, pre, order);
    ghost var text0, count0, b0 := out.text, out.count, keyBuf[d..];
    DfsSide(db, node, order.Desc?, out, keyBuf, d, limit, order, t, pre, lo, hi);
    if out.count >= limit {
      FullAfterFirst(text0, count0, out.text, out.count, limit, t, pre, order);
      return;
    }
    ghost var text1, count1, b1 := out.text, out.count, keyBuf[d..];
    DfsMiddle(db, node, out, keyBuf, d, limit, order, t, pre, lo, hi);
    ListsMore(text0, count0, text1, count1, out.text, out.count, limit,
              Listed(First(t, order), pre, order), Middle(t, pre, order));
    if out.count >= limit {
      ListsFull(text0, count0, out.text, out.count, limit,
                Listed(First(t, order), pre, order) + Middle(t, pre, order), Listed(Second(t, order), pre, order));
      return;
    }
    ghost var text2, count2, b2 := out.text, out.count, keyBuf[d..];
    DfsSide(db, node, order.Asc?, out, keyBuf, d, limit, order, t, pre, lo, hi);
    if order.Desc? { TrailWhole(order, out.count, limit, t, b0, b1, b2, keyBuf[d..]); }
    ListsMore(text0, count0, text2, count2, out.text, out.count, limit,
              Listed(First(t, order), pre, order) + Middle(t, pre, order), Listed(Second(t, order), pre, order));
  }

  lemma FullAfterFirst(text0: string, count0: nat, text: string, count: nat, limit: int,
                       t: Tree, pre: string, order: Order)
    requires t.Node? && count >= limit
    requires Lists(text0, count0, text, count, limit, Listed(First(t, order), pre, order))
    ensures Lists(text0, count0, text, count, limit, Listed(t, pre, order))
  {
    ListedParts(t, pre, order);
    var a, b, c := Listed(First(t, order), pre, order), Middle(t, pre, order), Listed(Second(t, order), pre, order);
    assert a + b + c == a + (b + c);
    ListsFull(text0, count0, text, count, limit, a, b + c);
  }

  // One of the two outer calls of dfs, after which the node's character is put back.
  method DfsSide(db: TstDb, node: nat, right: bool, out: Listing, keyBuf: array<char>, d: nat, limit: int, order: Order,
                 ghost t: Tree, ghost pre: string, ghost lo: int, ghost hi: int)
    requires Ready(db, keyBuf, d, t, pre, lo, hi) && t.Node? && node == t.id && keyBuf != db.data as object
    modifies keyBuf, out
    decreases t, 0
    ensures Ready(db, keyBuf, d, t, pre, lo, hi) && keyBuf[d] == t.c
    ensures Lists(old(out.text), old(out.count), out.text, out.count, limit,
                  Listed(if right then t.r else t.l, pre, order))
    ensures TrailsSide(order, out.count, limit, if right then t.r else t.l, t.c, old(keyBuf[d..]), keyBuf[d..])
  {
    ghost var b := keyBuf[d..];
    if right {
      Dfs(db, db.data[node].right, out, keyBuf, d, limit, order, t.r, pre, t.c as int, hi);
    } else {
      Dfs(db, db.data[node].left, out, keyBuf, d, limit, order, t.l, pre, lo, t.c as int);
    }
    TrailSide(order, out.count, limit, if right then t.r else t.l, t.c, b, keyBuf[..], d);
    keyBuf[d] := db.data[node].c;
    assert keyBuf[..d] == pre;
  }

  // The middle part of dfs: the node's own key and its mid subtree.
  method DfsMiddle(db: TstDb, node: nat, out: Listing, keyBuf: array<char>, d: nat, limit: int, order: Order,
                   ghost t: Tree, ghost pre: string, ghost lo: int, ghost hi: int)
    requires Ready(db, keyBuf, d, t, pre, lo, hi) && t.Node? && node == t.id && keyBuf != db.data as object
    requires keyBuf[d] == t.c && out.count < limit
    modifies keyBuf, out
    decreases t, 0
    ensures Ready(db, keyBuf, d, t, pre, lo, hi) && keyBuf[d] == t.c
    ensures Lists(old(out.text), old(out.count), out.text, out.count, limit, Middle(t, pre, order))
    ensures TrailsMiddle(order, out.count, limit, t, old(keyBuf[d..]), keyBuf[d..])
  {
    ghost var text0, count0, p, k0 := out.text, out.count, pre + [t.c], keyBuf[..];
    ghost var own, mid := Own(t, pre), Listed(t.m, p, order);
    assert keyBuf[..d + 1] == p;
    if order.Asc? {
      ListOwn(db, node, out, keyBuf, d, limit, t, pre, lo, hi);
      ghost var text1, count1 := out.text, out.count;
      assert keyBuf[..d + 1] == p;
      Dfs(db, db.data[node].mid, out, keyBuf, d + 1, limit, order, t.m, p, 0, ANY_CHAR);
      assert keyBuf[..d] == keyBuf[..d + 1][..d];
      keyBuf[d] := db.data[node].c;
      ListsMore(text0, count0, text1, count1, out.text, out.count, limit, own, mid);
    } else {
      Dfs(db, db.data[node].mid, out, keyBuf, d + 1, limit, order, t.m, p, 0, ANY_CHAR);
      assert keyBuf[..d] == keyBuf[..d + 1][..d] && keyBuf[d] == keyBuf[..d + 1][d];
      if out.count >= limit {
        ListsFull(text0, count0, out.text, out.count, limit, mid, own);
        return;
      }
      ghost var text1, count1 := out.text, out.count;
      TrailMiddle(order, count1, limit, t, k0, keyBuf[..], d);
      ListOwn(db, node, out, keyBuf, d, limit, t, pre, lo, hi);
      ListsMore(text0, count0, text1, count1, out.text, out.count, limit, mid, own);
    }
    assert keyBuf[..d] == pre;
  }

  // ---------- keys up to a query ----------

  lemma ListsNothing(text: string, count: nat, limit: int, ks: seq<string>)
    requires count >= limit || ks == []
    ensures Lists(text, count, text, count, limit, ks)
  {
    assert text == text + Lines([]);
  }

  // The node's own key, while there is room.
  method OwnIfRoom(db: TstDb, node: nat, out: Listing, keyBuf: array<char>, d: nat, limit: int,
                   ghost t: Tree, ghost pre: string, ghost lo: int, ghost hi: int)
    requires Ready(db, keyBuf, d, t, pre, lo, hi) && t.Node? && node == t.id
    requires keyBuf[d] == t.c && keyBuf != db.data as object
    modifies keyBuf, out
    ensures Ready(db, keyBuf, d, t, pre, lo, hi) && keyBuf[d] == t.c
    ensures Lists(old(out.text), old(out.count), out.text, out.count, limit, Own(t, pre))
  {
    if out.count < limit {
      ListOwn(db, node, out, keyBuf, d, limit, t, pre, lo, hi);
    } else {
      ListsNothing(out.text, out.count, limit, Own(t, pre));
    }
  }

  // One child's keys, while there is room.
  method ChildIfRoom(db: TstDb, node: nat, side: Side, out: Listing, keyBuf: array<char>, d: nat, limit: int,
                     order: Order, ghost t: Tree, ghost pre: string, ghost lo: int, ghost hi: int)
    requires Ready(db, keyBuf, d, t, pre, lo, hi) && t.Node? && node == t.id
    requires keyBuf[d] == t.c && keyBuf != db.data as object
    modifies keyBuf, out
    ensures Ready(db, keyBuf, d, t, pre, lo, hi)
    ensures side.M? ==> keyBuf[d] == t.c
    ensures Lists(old(out.text), old(out.count), out.text, out.count, limit,
                  Listed(Child(t, side), if side.M? then pre + [t.c] else pre, order))
  {
    ghost var p := pre + [t.c];
    if out.count < limit {
      match side
      case L =>
        Dfs(db, db.data[node].left, out, keyBuf, d, limit, order, t.l, pre, lo, t.c as int);
      case R =>
        Dfs(db, db.data[node].right, out, keyBuf, d, limit, order, t.r, pre, t.c as int, hi);
      case M =>
        assert keyBuf[..d + 1] == p;
        Dfs(db, db.data[node].mid, out, keyBuf, d + 1, limit, order, t.m, p, 0, ANY_CHAR);
        assert keyBuf[..d] == keyBuf[..d + 1][..d] && keyBuf[d] == keyBuf[..d + 1][d];
    } else {
      ListsNothing(out.text, out.count, limit, Listed(Child(t, side), if side.M? then p else pre, order));
    }
  }

  // The part of dfs_less shared by its two wider branches: the node's own key, then the left subtree.
  method OwnThenLeft(db: TstDb, node: nat, out: Listing, keyBuf: array<char>, d: nat, limit: int,
                     ghost t: Tree, ghost pre: string, ghost lo: int, ghost hi: int)
    requires Ready(db, keyBuf, d, t, pre, lo, hi) && t.Node? && node == t.id
    requires keyBuf[d] == t.c && keyBuf != db.data as object
    modifies keyBuf, out
    ensures Ready(db, keyBuf, d, t, pre, lo, hi)
    ensures Lists(old(out.text), old(out.count), out.text, out.count, limit, Reverse(Keys(t.l, pre) + Own(t, pre)))
  {
    ghost var text0, count0 := out.text, out.count;
    OwnIfRoom(db, node, out, keyBuf, d, limit, t, pre, lo, hi);
    ghost var text1, count1 := out.text, out.count;
    ChildIfRoom(db, node, L, out, keyBuf, d, limit, Desc, t, pre, lo, hi);
    ListsMore(text0, count0, text1, count1, out.text, out.count, limit, Own(t, pre), Reverse(Keys(t.l, pre)));
    ReverseConcat(Keys(t.l, pre), Own(t, pre));
    ReverseOwn(t, pre);
  }

  // dfs_less: the keys below node that are at most pre + key, greatest first.
  method DfsLess(db: TstDb, node: nat, key: string, out: Listing, keyBuf: array<char>, d: nat, limit: int,
                 ghost t: Tree, ghost pre: string, ghost lo: int, ghost hi: int)
    requires Ready(db, keyBuf, d, t, pre, lo, hi) && node == Root(t) && keyBuf != db.data as object && CString(key)
    modifies keyBuf, out
    decreases t, 1
    ensures Ready(db, keyBuf, d, t, pre, lo, hi)
    ensures Lists(old(out.text), old(out.count), out.text, out.count, limit, Reverse(UpTo(Keys(t, pre), pre + key)))
  {
    if node == 0 { return; }
    if limit <= 0 {
      ListsNothing(out.text, out.count, limit, Reverse(UpTo(Keys(t, pre), pre + key)));
      return;
    }
    UpToAtNode(t, pre, key, lo, hi);
    var c := db.data[node].c;
    keyBuf[d] := c;
    assert keyBuf[..d] == pre;
    if Head(key) < c {
      DfsLess(db, db.data[node].left, key, out, keyBuf, d, limit, t.l, pre, lo, t.c as int);
    } else if Head(key) == c {
      LessAtNode(db, node, key, out, keyBuf, d, limit, t, pre, lo, hi);
    } else {
      LessPastNode(db, node, key, out, keyBuf, d, limit, t, pre, lo, hi);
    }
  }

  // The branch of dfs_less for a query that goes through the node.
  method LessAtNode(db: TstDb, node: nat, key: string, out: Listing, keyBuf: array<char>, d: nat, limit: int,
                    ghost t: Tree, ghost pre: string, ghost lo: int, ghost hi: int)
    requires Ready(db, keyBuf, d, t, pre, lo, hi) && t.Node? && node == t.id && CString(key)
    requires keyBuf[d] == t.c == Head(key) && keyBuf != db.data as object
    modifies keyBuf, out
    decreases t, 0
    ensures Ready(db, keyBuf, d, t, pre, lo, hi)
    ensures Lists(old(out.text), old(out.count), out.text, out.count, limit,
                  Reverse(Keys(t.l, pre) + Own(t, pre) + UpTo(Keys(t.m, pre + [t.c]), pre + key)))
  {
    ghost var text0, count0, p, q := out.text, out.count, pre + [t.c], pre + key;
    assert keyBuf[..d + 1] == p && p + key[1..] == q;
    DfsLess(db, db.data[node].mid, key[1..], out, keyBuf, d + 1, limit, t.m, p, 0, ANY_CHAR);
    assert keyBuf[..d] == keyBuf[..d + 1][..d] && keyBuf[d] == keyBuf[..d + 1][d];
    ghost var text1, count1 := out.text, out.count;
    OwnThenLeft(db, node, out, keyBuf, d, limit, t, pre, lo, hi);
    ReverseConcat(Keys(t.l, pre) + Own(t, pre), UpTo(Keys(t.m, p), q));
    ListsMore(text0, count0, text1, count1, out.text, out.count, limit,
              Reverse(UpTo(Keys(t.m, p), q)), Reverse(Keys(t.l, pre) + Own(t, pre)));
  }

  // The branch of dfs_less for a query character above the node's: keys on the right up to
  // the query, then everything else here.
  method LessPastNode(db: TstDb, node: nat, key: string, out: Listing, keyBuf: array<char>, d: nat, limit: int,
                      ghost t: Tree, ghost pre: string, ghost lo: int, ghost hi: int)
    requires Ready(db, keyBuf, d, t, pre, lo, hi) && t.Node? && node == t.id && CString(key)
    requires keyBuf[d] == t.c && keyBuf != db.data as object
    modifies keyBuf, out
    decreases t, 0
    ensures Ready(db, keyBuf, d, t, pre, lo, hi)
    ensures Lists(old(out.text), old(out.count), out.text, out.count, limit,
                  Reverse(Keys(t.l, pre) + Own(t, pre) + Keys(t.m, pre + [t.c]) + UpTo(Keys(t.r, pre), pre + key)))
  {
    ghost var text0, count0, m, r := out.text, out.count, Keys(t.m, pre + [t.c]), UpTo(Keys(t.r, pre), pre + key);
    DfsLess(db, db.data[node].right, key, out, keyBuf, d, limit, t.r, pre, t.c as int, hi);
    keyBuf[d] := db.data[node].c;
    assert keyBuf[..d] == pre;
    ghost var text1, count1 := out.text, out.count;
    ChildIfRoom(db, node, M, out, keyBuf, d, limit, Desc, t, pre, lo, hi);
    ghost var text2, count2 := out.text, out.count;
    OwnThenLeft(db, node, out, keyBuf, d, limit, t, pre, lo, hi);
    ReverseLess(Keys(t.l, pre) + Own(t, pre), m, r);
    ListsMore(text0, count0, text1, count1, text2, count2, limit, Reverse(r), Reverse(m));
    ListsMore(text0, count0, text2, count2, out.text, out.count, limit,
              Reverse(r) + Reverse(m), Reverse(Keys(t.l, pre) + Own(t, pre)));
  }

  lemma ReverseLess(a: seq<string>, m: seq<string>, r: seq<string>)
    ensures Reverse(a + m + r) == Reverse(r) + Reverse(m) + Reverse(a)
  {
    ReverseConcat(a + m, r);
    ReverseConcat(a, m);
    assert Reverse(r) + (Reverse(m) + Reverse(a)) == Reverse(r) + Reverse(m) + Reverse(a);
  }

  // ---------- keys from a query on ----------

  // Nothing has been written past depth d yet.
  ghost predicate ZeroPast(keyBuf: array<char>, d: nat)
    reads keyBuf
  {
    forall i :: d < i < keyBuf.Length ==> keyBuf[i] == '\0'
  }

  // dfs_greater: the keys below node that are at least pre + key, smallest first.  The
  // exact match relies on the buffer being zero past d.
  method DfsGreater(db: TstDb, node: nat, key: string, out: Listing, keyBuf: array<char>, d: nat, limit: int,
                    ghost t: Tree, ghost pre: string, ghost lo: int, ghost hi: int)
    requires Ready(db, keyBuf, d, t, pre, lo, hi) && node == Root(t) && keyBuf != db.data as object && CString(key)
    requires ZeroPast(keyBuf, d)
    modifies keyBuf, out
    decreases t, 1
    ensures Ready(db, keyBuf, d, t, pre, lo, hi)
    ensures Lists(old(out.text), old(out.count), out.text, out.count, limit, From(Keys(t, pre), pre + key))
  {
    if node == 0 { return; }
    if limit <= 0 {
      ListsNothing(out.text, out.count, limit, From(Keys(t, pre), pre + key));
      return;
    }
    FromAtNode(t, pre, key, lo, hi);
    var c := db.data[node].c;
    keyBuf[d] := c;
    assert keyBuf[..d] == pre;
    if Head(key) > c {
      DfsGreater(db, db.data[node].right, key, out, keyBuf, d, limit, t.r, pre, t.c as int, hi);
    } else if Head(key) == c {
      GreaterAtNode(db, node, key, out, keyBuf, d, limit, t, pre, lo, hi);
    } else {
      GreaterBelowNode(db, node, key, out, keyBuf, d, limit, t, pre, lo, hi);
    }
  }

  // The branch for a query character below the node's, which includes a used-up query.
  method GreaterBelowNode(db: TstDb, node: nat, key: string, out: Listing, keyBuf: array<char>, d: nat, limit: int,
                          ghost t: Tree, ghost pre: string, ghost lo: int, ghost hi: int)
    requires Ready(db, keyBuf, d, t, pre, lo, hi) && t.Node? && node == t.id && CString(key)
    requires keyBuf[d] == t.c && ZeroPast(keyBuf, d) && keyBuf != db.data as object
    modifies keyBuf, out
    decreases t, 0
    ensures Ready(db, keyBuf, d, t, pre, lo, hi)
    ensures Lists(old(out.text), old(out.count), out.text, out.count, limit,
                  From(Keys(t.l, pre), pre + key) + Own(t, pre) + Keys(t.m, pre + [t.c]) + Keys(t.r, pre))
  {
    ghost var text0, count0 := out.text, out.count;
    ghost var l, o, m, r := From(Keys(t.l, pre), pre + key), Own(t, pre), Keys(t.m, pre + [t.c]), Keys(t.r, pre);
    DfsGreater(db, db.data[node].left, key, out, keyBuf, d, limit, t.l, pre, lo, t.c as int);
    keyBuf[d] := db.data[node].c;
    assert keyBuf[..d] == pre;
    ghost var text1, count1 := out.text, out.count;
    OwnMidRight(db, node, out, keyBuf, d, limit, t, pre, lo, hi);
    ListsMore(text0, count0, text1, count1, out.text, out.count, limit, l, o + m + r);
    RegroupLast(l, o, m, r);
  }

  lemma RegroupLast(a: seq<string>, b: seq<string>, c: seq<string>, d: seq<string>)
    ensures a + (b + c + d) == a + b + c + d
  {
  }

  // The node's key, its extensions and the right subtree, all of them past the query.
  method OwnMidRight(db: TstDb, node: nat, out: Listing, keyBuf: array<char>, d: nat, limit: int,
                     ghost t: Tree, ghost pre: string, ghost lo: int, ghost hi: int)
    requires Ready(db, keyBuf, d, t, pre, lo, hi) && t.Node? && node == t.id
    requires keyBuf[d] == t.c && keyBuf != db.data as object
    modifies keyBuf, out
    ensures Ready(db, keyBuf, d, t, pre, lo, hi)
    ensures Lists(old(out.text), old(out.count), out.text, out.count, limit,
                  Own(t, pre) + Keys(t.m, pre + [t.c]) + Keys(t.r, pre))
  {
    ghost var text0, count0 := out.text, out.count;
    OwnIfRoom(db, node, out, keyBuf, d, limit, t, pre, lo, hi);
    ghost var text1, count1 := out.text, out.count;
    ChildIfRoom(db, node, M, out, keyBuf, d, limit, Asc, t, pre, lo, hi);
    ghost var text2, count2 := out.text, out.count;
    ChildIfRoom(db, node, R, out, keyBuf, d, limit, Asc, t, pre, lo, hi);
    ListsMore(text0, count0, text1, count1, text2, count2, limit, Own(t, pre), Keys(t.m, pre + [t.c]));
    ListsMore(text0, count0, text2, count2, out.text, out.count, limit,
              Own(t, pre) + Keys(t.m, pre + [t.c]), Keys(t.r, pre));
  }

  // The branch for a query that goes through the node.
  method GreaterAtNode(db: TstDb, node: nat, key: string, out: Listing, keyBuf: array<char>, d: nat, limit: int,
                       ghost t: Tree, ghost pre: string, ghost lo: int, ghost hi: int)
    requires Ready(db, keyBuf, d, t, pre, lo, hi) && t.Node? && node == t.id && CString(key)
    requires keyBuf[d] == t.c == Head(key) && ZeroPast(keyBuf, d) && keyBuf != db.data as object
    modifies keyBuf, out
    decreases t, 0
    ensures Ready(db, keyBuf, d, t, pre, lo, hi)
    ensures Lists(old(out.text), old(out.count), out.text, out.count, limit,
                  (if |key| == 1 then Own(t, pre) else []) + From(Keys(t.m, pre + [t.c]), pre + key) + Keys(t.r, pre))
  {
    ghost var text0, count0, p, q := out.text, out.count, pre + [t.c], pre + key;
    ghost var o := if |key| == 1 then Own(t, pre) else [];
    assert keyBuf[..d + 1] == p && p + key[1..] == q;
    if out.count < limit {
      if |key| == 1 && db.data[node].value != 0 {
        assert keyBuf[..][..d + 1] == p;
        CTextOf(keyBuf[..], p);
        AppendResult(keyBuf, out);
      }
    } else {
      ListsNothing(out.text, out.count, limit, o);
    }
    assert Lists(text0, count0, out.text, out.count, limit, o);
    ghost var text1, count1 := out.text, out.count;
    if out.count < limit {
      DfsGreater(db, db.data[node].mid, key[1..], out, keyBuf, d + 1, limit, t.m, p, 0, ANY_CHAR);
      assert keyBuf[..d] == keyBuf[..d + 1][..d] && keyBuf[d] == keyBuf[..d + 1][d];
    } else {
      ListsNothing(out.text, out.count, limit, From(Keys(t.m, p), q));
    }
    ghost var text2, count2 := out.text, out.count;
    ChildIfRoom(db, node, R, out, keyBuf, d, limit, Asc, t, pre, lo, hi);
    ListsMore(text0, count0, text1, count1, text2, count2, limit, o, From(Keys(t.m, p), q));
    ListsMore(text0, count0, text2, count2, out.text, out.count, limit, o + From(Keys(t.m, p), q), Keys(t.r, pre));
  }

  // ---------- the queries ----------

  // Room for the longest key and its terminator.
  ghost predicate Fits(t: Tree) {
    Height(t) < MAX_KEY_SIZE
  }

  // tst_less.
  method TstLess(db: TstDb, key: string, out: Listing, limit: int)
    requires db.Readable() && Fits(db.tree) && CString(key)
    modifies out
    ensures if key == "" || db.tree.Leaf?
      then out.text == old(out.text) && out.count == old(out.count)
      else
        && out.text == Lines(Cut(Below(db.tree, key), Room(limit, 0)))
        && out.count == |Cut(Below(db.tree, key), Room(limit, 0))|
  {
    if |key| <= 0 || db.root == 0 { return; }
    var keyBuf := new char[MAX_KEY_SIZE](_ => '\0');
    out.text, out.count := "", 0;
    assert "" + key == key;
    DfsLess(db, db.root, key, out, keyBuf, 0, limit, db.tree, "", 0, ANY_CHAR);
  }

  // tst_greater.
  method TstGreater(db: TstDb, key: string, out: Listing, limit: int)
    requires db.Readable() && Fits(db.tree) && CString(key)
    modifies out
    ensures if key == "" || db.tree.Leaf?
      then out.text == old(out.text) && out.count == old(out.count)
      else
        && out.text == Lines(Cut(Above(db.tree, key), Room(limit, 0)))
        && out.count == |Cut(Above(db.tree, key), Room(limit, 0))|
  {
    if |key| <= 0 || db.root == 0 { return; }
    var keyBuf := new char[MAX_KEY_SIZE](_ => '\0');
    out.text, out.count := "", 0;
    assert "" + key == key;
    DfsGreater(db, db.root, key, out, keyBuf, 0, limit, db.tree, "", 0, ANY_CHAR);
  }

  // The buffer after d characters of the key: they are at its start, and nothing at or past
  // the key's end has changed.
  ghost predicate Copied(b: seq<char>, was: seq<char>, key: string, d: nat) {
    && |b| == |was|
    && (forall i :: 0 <= i < d && i < |key| && i < |b| ==> b[i] == key[i])
    && (forall i :: |key| <= i < |b| ==> b[i] == was[i])
  }

  lemma CopiedMore(b: seq<char>, was: seq<char>, key: string, d: nat)
    requires Copied(b, was, key, d) && d < |key| && d < |b|
    ensures Copied(b[d := key[d]], was, key, d + 1)
  {
  }

  lemma CopiedAll(b: seq<char>, was: seq<char>, key: string)
    requires Copied(b, was, key, |key|) && |key| <= |b|
    ensures b[..|key|] == key
  {
  }

  // One step of the search from the d-th character on.
  lemma FindStep(t: Tree, key: string, d: nat)
    requires t.Node? && d < |key|
    ensures Find(t, key[d..]) ==
      if key[d] < t.c then Find(t.l, key[d..])
      else if key[d] > t.c then Find(t.r, key[d..])
      else if d < |key| - 1 then Find(t.m, key[d + 1..])
      else t
  {
    assert key[d..][1..] == key[d + 1..];
  }

  // The subtree under the node found is ordered and low enough for the buffer.
  lemma {:induction false} FindOrdered(t: Tree, s: string, lo: int, hi: int)
    requires Ordered(t, lo, hi) && s != ""
    ensures var f := Find(t, s); f.Node? ==> Ordered(f.m, 0, ANY_CHAR) && |s| + Height(f.m) <= Height(t)
    decreases |s|, t
  {
    if t.Node? {
      if s[0] < t.c {
        FindOrdered(t.l, s, lo, t.c as int);
      } else if s[0] > t.c {
        FindOrdered(t.r, s, t.c as int, hi);
      } else if |s| > 1 {
        FindOrdered(t.m, s[1..], 0, ANY_CHAR);
      }
    }
  }

  // search_with_path: like search, copying the characters matched into path.
  method SearchWithPath(db: TstDb, key: string, path: array<char>) returns (node: nat)
    requires db.root == Root(db.tree) && Shape(db.data[..], db.tree) && Ordered(db.tree, 0, ANY_CHAR)
    requires Fits(db.tree) && key != "" && path.Length == MAX_KEY_SIZE && path != db.data as object
    modifies path
    ensures var f := Find(db.tree, key);
      && node == Root(f)
      && (f.Node? ==> |key| + Height(f.m) < MAX_KEY_SIZE && path[..|key|] == key && Shape(db.data[..], f))
    ensures Find(db.tree, key).Node? ==> Ordered(Find(db.tree, key).m, 0, ANY_CHAR)
    ensures Find(db.tree, key).Leaf? <==> node == 0
    ensures forall i :: |key| <= i < MAX_KEY_SIZE ==> path[i] == old(path[i])
  {
    node := db.root;
    var d := 0;
    ghost var t, was, cells := db.tree, path[..], db.data[..];
    FindOrdered(db.tree, key, 0, ANY_CHAR);
    assert key[0..] == key;
    while node != 0
      invariant d < |key| && node == Root(t) && Shape(cells, t)
      invariant db.data[..] == cells
      invariant Find(t, key[d..]) == Find(db.tree, key)
      invariant d + Height(t) < MAX_KEY_SIZE && Copied(path[..], was, key, d)
      decreases |key| - d, t
    {
      FindStep(t, key, d);
      var c := key[d];
      if c < db.data[node].c {
        node, t := db.data[node].left, t.l;
      } else if c > db.data[node].c {
        node, t := db.data[node].right, t.r;
      } else if d < |key| - 1 {
        CopiedMore(path[..], was, key, d);
        path[d] := db.data[node].c;
        node, t, d := db.data[node].mid, t.m, d + 1;
      } else {
        CopiedMore(path[..], was, key, d);
        path[d] := db.data[node].c;
        CopiedAll(path[..], was, key);
        break;
      }
    }
    assert Copied(path[..], was, key, d);
  }

  // When the descending form lists a wrong key: the prefix is itself stored and due, and
  // the traversal of its extensions has overwritten the buffer past it.
  predicate Smears(t: Tree, prefix: string, limit: int)
    requires prefix != ""
  {
    var f := Find(t, prefix);
    f.Node? && f.val > 0 && f.m.Node? && |Keys(f.m, prefix)| < limit
  }

  // In a tree without dead nodes: the prefix is stored, some key properly extends it, and
  // the limit leaves room for more than those.
  lemma SmearsMeans(t: Tree, prefix: string, limit: int)
    requires prefix != "" && NoDead(t) && Ordered(t, 0, ANY_CHAR)
    ensures Smears(t, prefix, limit) <==>
      var f := Find(t, prefix); f.Node? && Get(t, prefix) > 0 && 0 < |Keys(f.m, prefix)| < limit
  {
    FindGet(t, prefix);
    FindAlive(t, prefix);
    var f := Find(t, prefix);
    if f.Node? { AliveHasKey(f.m, prefix); }
  }

  lemma {:induction false} FindAlive(t: Tree, s: string)
    requires s != "" && NoDead(t)
    ensures NoDead(Find(t, s))
    decreases |s|, t
  {
    if t.Node? {
      if s[0] < t.c {
        FindAlive(t.l, s);
      } else if s[0] > t.c {
        FindAlive(t.r, s);
      } else if |s| > 1 {
        FindAlive(t.m, s[1..]);
      }
    }
  }

  lemma {:induction false} AliveHasKey(t: Tree, pre: string)
    requires NoDead(t)
    ensures t.Node? <==> Keys(t, pre) != []
  {
    if t.Node? && t.val == 0 { AliveHasKey(t.m, pre + [t.c]); }
  }

  function Zeros(n: nat): seq<char> {
    seq(n, _ => '\0')
  }

  // The key the descending form then lists in place of the prefix.
  function WrongKey(f: Tree, prefix: string): string
    requires f.Node? && |prefix| + Height(f.m) < MAX_KEY_SIZE
  {
    CText(prefix + Residue(f.m, Zeros(MAX_KEY_SIZE - |prefix|)))
  }

  // The append of the prefix itself, whatever the buffer holds by then.
  method PrefixOwn(db: TstDb, node: nat, out: Listing, keyBuf: array<char>, limit: int)
    requires node < db.data.Length && keyBuf.Length == MAX_KEY_SIZE && keyBuf[MAX_KEY_SIZE - 1] == '\0'
    modifies out
    ensures var due := db.data[node].value != 0 && old(out.count) < limit;
      && out.text == (if due then old(out.text) + CText(keyBuf[..]) + "\r\n" else old(out.text))
      && out.count == old(out.count) + if due then 1 else 0
  {
    if db.data[node].value != 0 && out.count < limit {
      AppendResult(keyBuf, out);
    }
  }

  // The text of a one-key reply.
  lemma OneLine(k: string)
    ensures Lines([k]) == k + "\r\n" && Reverse([k]) == [k]
  {
    assert [k][1..] == [];
    NothingBefore([k]);
  }

  // A longer key in place of the prefix makes another text.
  lemma LineGrows(text: string, k: string, b: string)
    ensures |b| > |k| ==> text + b + "\r\n" != text + (k + "\r\n")
    ensures text + k + "\r\n" == text + (k + "\r\n")
  {
    assert |text + b + "\r\n"| == |text| + |b| + 2 && |text + (k + "\r\n")| == |text| + |k| + 2;
  }

  lemma OwnLast(text: string, count: nat, limit: int, k: string)
    requires count < limit
    ensures Lists(text, count, text + (k + "\r\n"), count + 1, limit, [k])
  {
    OneLine(k);
  }

  // The descending reply, given what the extensions listed and what the buffer held when
  // the prefix was appended.
  lemma DescResult(text1: string, count1: nat, text: string, count: nat, limit: int,
                   b: string, prefix: string, stored: bool, ks: seq<string>, intact: bool)
    requires Lists("", 0, text1, count1, limit, Reverse(ks))
    requires text == if stored && count1 < limit then text1 + b + "\r\n" else text1
    requires count == count1 + if stored && count1 < limit then 1 else 0
    requires if intact then b == prefix else count1 < limit ==> |b| > |prefix|
    ensures var due := Cut(Reverse((if stored then [prefix] else []) + ks), Room(limit, 0));
      && count == |due|
      && (text == Lines(due) <==> intact || !stored || |ks| >= limit)
  {
    var own := if stored then [prefix] else [];
    OneLine(prefix);
    ReverseConcat(own, ks);
    ReverseLength(ks);
    var right := if stored && count1 < limit then text1 + (prefix + "\r\n") else text1;
    if stored && count1 < limit {
      OwnLast(text1, count1, limit, prefix);
      LineGrows(text1, prefix, b);
    } else {
      ListsNothing(text1, count1, limit, own);
    }
    ListsMore("", 0, text1, count1, right, count, limit, Reverse(ks), own);
    ListsFromNothing(right, count, limit, Reverse(ks) + own);
  }

  lemma ListsFromNothing(text: string, count: nat, limit: int, ks: seq<string>)
    requires Lists("", 0, text, count, limit, ks)
    ensures text == Lines(Cut(ks, Room(limit, 0))) && count == |Cut(ks, Room(limit, 0))|
  {
  }

  // The keys that properly extend the prefix, while there is room.
  method PrefixBelow(db: TstDb, node: nat, out: Listing, keyBuf: array<char>, limit: int, order: Order,
                     ghost f: Tree, ghost prefix: string)
    requires Shape(db.data[..], f) && f.Node? && node == f.id && keyBuf != db.data as object
    requires Ready(db, keyBuf, |prefix|, f.m, prefix, 0, ANY_CHAR) && keyBuf[|prefix|] == '\0'
    modifies keyBuf, out
    ensures Ready(db, keyBuf, |prefix|, f.m, prefix, 0, ANY_CHAR)
    ensures Lists(old(out.text), old(out.count), out.text, out.count, limit, Listed(f.m, prefix, order))
    ensures f.m.Leaf? ==> keyBuf[..] == old(keyBuf[..])
    ensures f.m.Node? && out.count < limit ==> keyBuf[|prefix|] == f.m.c
    ensures Trails(order, out.count, limit, f.m, old(keyBuf[|prefix|..]), keyBuf[|prefix|..])
  {
    if out.count < limit {
      var d := 0;
      while keyBuf[d] != '\0'
        invariant d <= |prefix| && d < MAX_KEY_SIZE
        invariant keyBuf[..] == old(keyBuf[..])
        decreases |prefix| - d
      {
        d := d + 1;
      }
      Dfs(db, db.data[node].mid, out, keyBuf, d, limit, order, f.m, prefix, 0, ANY_CHAR);
    } else {
      ListsNothing(out.text, out.count, limit, Listed(f.m, prefix, order));
    }
  }

  // tst_prefix.  With restore, the terminator is put back behind the prefix before the
  // last append; without it, the code as it stands.
  method TstPrefix(db: TstDb, prefix: string, out: Listing, limit: int, order: Order, restore: bool)
    requires db.Readable() && Fits(db.tree) && CString(prefix)
    modifies out
    ensures prefix == "" || Find(db.tree, prefix).Leaf? ==>
      out.text == old(out.text) && out.count == old(out.count)
    ensures prefix != "" && Find(db.tree, prefix).Node? ==>
      var due := Cut(Prefixed(db.tree, prefix, order), Room(limit, 0));
      && out.count == |due|
      && (out.text == Lines(due) <==> restore || order.Asc? || !Smears(db.tree, prefix, limit))
    ensures prefix != "" && order.Desc? && !restore && Smears(db.tree, prefix, limit) ==>
      var f := Find(db.tree, prefix);
      && |prefix| + Height(f.m) < MAX_KEY_SIZE
      && out.text == Lines(Reverse(Keys(f.m, prefix))) + WrongKey(f, prefix) + "\r\n"
  {
    if |prefix| <= 0 { return; }
    var keyBuf := new char[MAX_KEY_SIZE](_ => '\0');
    var node := SearchWithPath(db, prefix, keyBuf);
    if node == 0 { return; }
    out.text, out.count := "", 0;
    ghost var f := Find(db.tree, prefix);
    Blank(prefix);
    ExtendingAtFind(db.tree, "", prefix, 0, ANY_CHAR);
    if order.Asc? {
      PrefixAsc(db, node, out, keyBuf, limit, f, prefix);
    } else {
      ZerosPast(keyBuf[..], |prefix|);
      PrefixDesc(db, node, out, keyBuf, limit, restore, f, prefix);
    }
  }

  lemma ZerosPast(b: seq<char>, n: nat)
    requires n <= |b| && forall i :: n <= i < |b| ==> b[i] == '\0'
    ensures b[n..] == Zeros(|b| - n)
  {
  }

  // The tree after a and ab have been put, whatever nodes they were given.
  function SmearTree(a0: Arena, a1: Arena): Tree {
    Put(Put(Leaf, "a", 1, a0), "ab", 2, a1)
  }

  lemma SmearIsReached(a0: Arena, a1: Arena)
    ensures var t := SmearTree(a0, a1);
      && Ordered(t, 0, ANY_CHAR) && NoDead(t) && Fits(t) && Smears(t, "a", 10)
      && Keys(Find(t, "a").m, "a") == ["ab"] && WrongKey(Find(t, "a"), "a") == "ab"
  {
    var t := SmearTree(a0, a1);
    assert "ab"[1..] == "b" && "a"[1..] == "" && "b"[1..] == "";
    var b := Node(a1.Next(), 'b', 2, Leaf, Leaf, Leaf);
    var a := Node(a0.Next(), 'a', 1, Leaf, Leaf, Leaf);
    assert Put(Leaf, "a", 1, a0) == a && Put(Leaf, "b", 2, a1) == b;
    assert t == Put(a, "ab", 2, a1) == a.(m := b);
    assert "a" + ['b'] == "ab";
    assert Keys(b, "a") == [] + ["ab"] + [] + [] == ["ab"];
    var z := Zeros(MAX_KEY_SIZE - 1);
    assert Residue(b, z) == ['b'] + z[1..];
    CTextOf("a" + Residue(b, z), "ab");
  }

  method PutSmear() returns (db: TstDb, ghost a0: Arena, ghost a1: Arena)
    ensures fresh(db) && db.Valid() && db.tree == SmearTree(a0, a1)
  {
    db := new TstDb(8);
    a0 := db.Store();
    db.Put("a", 1);
    a1 := db.Store();
    db.Put("ab", 2);
  }

  // What the code as it stands then answers to a descending request for a: ab twice, a never.
  method ListedTwice() returns (text: string)
    ensures text == "ab\r\nab\r\n"
  {
    ghost var a0, a1;
    var db: TstDb;
    db, a0, a1 := PutSmear();
    SmearIsReached(a0, a1);
    var out := new Listing();
    TstPrefix(db, "a", out, 10, Desc, false);
    OneLine("ab");
    text := out.text;
  }

  method PrefixAsc(db: TstDb, node: nat, out: Listing, keyBuf: array<char>, limit: int,
                   ghost f: Tree, ghost prefix: string)
    requires Shape(db.data[..], f) && f.Node? && node == f.id && keyBuf != db.data as object
    requires Ready(db, keyBuf, |prefix|, f.m, prefix, 0, ANY_CHAR) && keyBuf[|prefix|] == '\0'
    requires out.text == "" && out.count == 0
    modifies keyBuf, out
    ensures Lists("", 0, out.text, out.count, limit, (if f.val > 0 then [prefix] else []) + Keys(f.m, prefix))
  {
    ghost var own := if f.val > 0 then [prefix] else [];
    CTextOf(keyBuf[..], prefix);
    PrefixOwn(db, node, out, keyBuf, limit);
    ghost var text1, count1 := out.text, out.count;
    assert Lists("", 0, text1, count1, limit, own);
    PrefixBelow(db, node, out, keyBuf, limit, Asc, f, prefix);
    ListsMore("", 0, text1, count1, out.text, out.count, limit, own, Keys(f.m, prefix));
  }

  method PrefixDesc(db: TstDb, node: nat, out: Listing, keyBuf: array<char>, limit: int, restore: bool,
                    ghost f: Tree, prefix: string)
    requires Shape(db.data[..], f) && f.Node? && node == f.id && keyBuf != db.data as object
    requires Ready(db, keyBuf, |prefix|, f.m, prefix, 0, ANY_CHAR) && keyBuf[|prefix|] == '\0'
    requires out.text == "" && out.count == 0 && keyBuf[|prefix|..] == Zeros(MAX_KEY_SIZE - |prefix|)
    modifies keyBuf, out
    ensures !restore && f.val > 0 && f.m.Node? && |Keys(f.m, prefix)| < limit ==>
      out.text == Lines(Reverse(Keys(f.m, prefix))) + WrongKey(f, prefix) + "\r\n"
    ensures var ks := Keys(f.m, prefix);
      var due := Cut(Reverse((if f.val > 0 then [prefix] else []) + ks), Room(limit, 0));
      && out.count == |due|
      && (out.text == Lines(due) <==> restore || !(f.val > 0 && f.m.Node? && |ks| < limit))
  {
    PrefixBelow(db, node, out, keyBuf, limit, Desc, f, prefix);
    if restore { keyBuf[|prefix|] := '\0'; }
    ghost var text1, count1 := out.text, out.count;
    if !restore && |Keys(f.m, prefix)| < limit {
      RoomForAll(text1, count1, limit, Keys(f.m, prefix));
      assert keyBuf[..] == prefix + keyBuf[|prefix|..];
    }
    assert keyBuf[..][..|prefix|] == prefix;
    BufferAfter(keyBuf[..], prefix);
    PrefixOwn(db, node, out, keyBuf, limit);
    ReverseLength(Keys(f.m, prefix));
    DescResult(text1, count1, out.text, out.count, limit, CText(keyBuf[..]), prefix, f.val > 0, Keys(f.m, prefix),
               restore || f.m.Leaf?);
  }

  lemma RoomForAll(text: string, count: nat, limit: int, ks: seq<string>)
    requires Lists("", 0, text, count, limit, Reverse(ks)) && |ks| < limit
    ensures text == Lines(Reverse(ks)) && count == |ks|
  {
    ReverseLength(ks);
  }

  // Restored or untouched, the buffer still holds the prefix; otherwise it holds more.
  lemma BufferAfter(b: seq<char>, prefix: string)
    requires |prefix| < |b| && b[..|prefix|] == prefix && CString(prefix)
    ensures b[|prefix|] == '\0' ==> CText(b) == prefix
    ensures b[|prefix|] != '\0' ==> |CText(b)| > |prefix|
  {
    if b[|prefix|] == '\0' {
      CTextOf(b, prefix);
    } else {
      forall i | 0 <= i <= |prefix| ensures b[i] != '\0' {
        assert i < |prefix| ==> b[i] == b[..|prefix|][i];
      }
      CTextBeyond(b, |prefix|);
    }
  }
}