/** What a range query should list: parts of the ordered key list, cut to a limit. */
module KeyListing {
  import opened Lexicographic
  import opened Sequences
  import opened TernaryTree

  datatype Order = Asc | Desc

  // ---------- lists of keys ----------

  function Reverse(ks: seq<string>): seq<string> {
    if ks == [] then [] else Reverse(ks[1..]) + [ks[0]]
  }

  // The keys k of ks with k <= q.
  function UpTo(ks: seq<string>, q: string): seq<string> {
    if ks == [] then []
    else (if AtMost(ks[0], q) then [ks[0]] else []) + UpTo(ks[1..], q)
  }

  // The keys k of ks with q <= k.
  function From(ks: seq<string>, q: string): seq<string> {
    if ks == [] then []
    else (if AtMost(q, ks[0]) then [ks[0]] else []) + From(ks[1..], q)
  }

  // The keys of ks that extend q, q itself included.
  function Extending(ks: seq<string>, q: string): seq<string> {
    if ks == [] then []
    else (if HasPrefix(ks[0], q) then [ks[0]] else []) + Extending(ks[1..], q)
  }

  function Cut(ks: seq<string>, n: nat): seq<string> {
    if |ks| <= n then ks else ks[..n]
  }

  // How many more entries fit once count have been listed.
  function Room(limit: int, count: nat): nat {
    if count >= limit then 0 else limit - count
  }

  // The reply text: every key on a line of its own.
  function Lines(ks: seq<string>): string {
    if ks == [] then "" else ks[0] + "\r\n" + Lines(ks[1..])
  }

  lemma NothingBefore(a: seq<string>)
    ensures [] + a == a && [] + [] + a == a && [] + [] + [] + a == a
  {
  }

  lemma {:induction false} ReverseConcat(a: seq<string>, b: seq<string>)
    ensures Reverse(a + b) == Reverse(b) + Reverse(a)
  {
    if a == [] {
      assert a + b == b;
    } else {
      ReverseConcat(a[1..], b);
      assert (a + b)[1..] == a[1..] + b && (a + b)[0] == a[0];
      Joined(Reverse(b), Reverse(a[1..]), [a[0]]);
    }
  }

  lemma {:induction false} ReverseAt(ks: seq<string>, i: nat)
    requires i < |ks|
    ensures |Reverse(ks)| == |ks| && Reverse(ks)[i] == ks[|ks| - 1 - i]
  {
    if |ks| > 1 { ReverseAt(ks[1..], if i < |ks| - 1 then i else 0); }
  }

  lemma {:induction false} ReverseLength(ks: seq<string>)
    ensures |Reverse(ks)| == |ks|
  {
    if ks != [] { ReverseLength(ks[1..]); }
  }

  lemma {:induction false} LinesConcat(a: seq<string>, b: seq<string>)
    ensures Lines(a + b) == Lines(a) + Lines(b)
  {
    if a == [] {
      assert a + b == b;
    } else {
      LinesConcat(a[1..], b);
      assert (a + b)[1..] == a[1..] + b && (a + b)[0] == a[0];
      Joined(a[0] + "\r\n", Lines(a[1..]), Lines(b));
    }
  }

  lemma {:induction false} UpToConcat(a: seq<string>, b: seq<string>, q: string)
    ensures UpTo(a + b, q) == UpTo(a, q) + UpTo(b, q)
  {
    if a == [] {
      assert a + b == b;
      NothingBefore(UpTo(b, q));
    } else {
      UpToConcat(a[1..], b, q);
      assert (a + b)[1..] == a[1..] + b && (a + b)[0] == a[0];
      Joined(if AtMost(a[0], q) then [a[0]] else [], UpTo(a[1..], q), UpTo(b, q));
    }
  }

  lemma {:induction false} FromConcat(a: seq<string>, b: seq<string>, q: string)
    ensures From(a + b, q) == From(a, q) + From(b, q)
  {
    if a == [] {
      assert a + b == b;
      NothingBefore(From(b, q));
    } else {
      FromConcat(a[1..], b, q);
      assert (a + b)[1..] == a[1..] + b && (a + b)[0] == a[0];
      Joined(if AtMost(q, a[0]) then [a[0]] else [], From(a[1..], q), From(b, q));
    }
  }

  lemma {:induction false} ExtendingConcat(a: seq<string>, b: seq<string>, q: string)
    ensures Extending(a + b, q) == Extending(a, q) + Extending(b, q)
  {
    if a == [] {
      assert a + b == b;
      NothingBefore(Extending(b, q));
    } else {
      ExtendingConcat(a[1..], b, q);
      assert (a + b)[1..] == a[1..] + b && (a + b)[0] == a[0];
      Joined(if HasPrefix(a[0], q) then [a[0]] else [], Extending(a[1..], q), Extending(b, q));
    }
  }

  lemma {:induction false} UpToAll(ks: seq<string>, q: string)
    ensures (forall k :: k in ks ==> AtMost(k, q)) ==> UpTo(ks, q) == ks
    ensures (forall k :: k in ks ==> !AtMost(k, q)) ==> UpTo(ks, q) == []
  {
    if ks != [] { UpToAll(ks[1..], q); }
  }

  lemma {:induction false} FromAll(ks: seq<string>, q: string)
    ensures (forall k :: k in ks ==> AtMost(q, k)) ==> From(ks, q) == ks
    ensures (forall k :: k in ks ==> !AtMost(q, k)) ==> From(ks, q) == []
  {
    if ks != [] { FromAll(ks[1..], q); }
  }

  lemma {:induction false} ExtendingAll(ks: seq<string>, q: string)
    ensures (forall k :: k in ks ==> HasPrefix(k, q)) ==> Extending(ks, q) == ks
    ensures (forall k :: k in ks ==> !HasPrefix(k, q)) ==> Extending(ks, q) == []
  {
    if ks != [] { ExtendingAll(ks[1..], q); }
  }

  lemma {:induction false} MemberFilters(ks: seq<string>, q: string, k: string)
    ensures k in UpTo(ks, q) <==> k in ks && AtMost(k, q)
    ensures k in From(ks, q) <==> k in ks && AtMost(q, k)
    ensures k in Extending(ks, q) <==> k in ks && HasPrefix(k, q)
  {
    if ks != [] { MemberFilters(ks[1..], q, k); }
  }

  lemma {:induction false} FiltersAscending(ks: seq<string>, q: string)
    requires Ascending(ks)
    ensures Ascending(UpTo(ks, q)) && Ascending(From(ks, q)) && Ascending(Extending(ks, q))
  {
    if ks != [] {
      FiltersAscending(ks[1..], q);
      forall k | k in ks[1..] ensures Less(ks[0], k) {}
      forall k ensures
        && (k in UpTo(ks[1..], q) ==> k in ks[1..])
        && (k in From(ks[1..], q) ==> k in ks[1..])
        && (k in Extending(ks[1..], q) ==> k in ks[1..])
      {
        MemberFilters(ks[1..], q, k);
      }
    }
  }

  // ---------- listing up to a limit ----------

  // Appending to text0, which holds count0 entries already, as much of ks as limit allows
  // gives text and count.
  ghost predicate Lists(text0: string, count0: nat, text: string, count: nat, limit: int, ks: seq<string>) {
    var out := Cut(ks, Room(limit, count0));
    text == text0 + Lines(out) && count == count0 + |out|
  }

  // Listing ks1 and then ks2 lists ks1 + ks2: the limit is respected across the two.
  lemma ListsMore(text0: string, count0: nat, text1: string, count1: nat, text2: string, count2: nat,
                  limit: int, ks1: seq<string>, ks2: seq<string>)
    requires Lists(text0, count0, text1, count1, limit, ks1)
    requires Lists(text1, count1, text2, count2, limit, ks2)
    ensures Lists(text0, count0, text2, count2, limit, ks1 + ks2)
  {
    var n := Room(limit, count0);
    var a, b := Cut(ks1, n), Cut(ks2, Room(limit, count1));
    assert Cut(ks1 + ks2, n) == a + b;
    LinesConcat(a, b);
    assert text0 + (Lines(a) + Lines(b)) == (text0 + Lines(a)) + Lines(b);
  }

  // Nothing more is listed once the limit is reached.
  lemma ListsFull(text0: string, count0: nat, text: string, count: nat, limit: int,
                  ks1: seq<string>, ks2: seq<string>)
    requires Lists(text0, count0, text, count, limit, ks1) && count >= limit
    ensures Lists(text0, count0, text, count, limit, ks1 + ks2)
  {
    assert text == text + Lines([]);
    ListsMore(text0, count0, text, count, text, count, limit, ks1, ks2);
  }

  // ---------- the key list of one node, seen from a query ----------

  // Where the first character of the remaining query lies relative to the node's.
  function Head(key: string): char {
    if key == "" then '\0' else key[0]
  }

  // Every key in the part of the node's list that starts with pre and character x, against
  // the query pre + key.
  lemma CompareAt(k: string, pre: string, key: string)
    requires |pre| < |k| && k[..|pre|] == pre && k[|pre|] != '\0'
    ensures k[|pre|] < Head(key) ==> Less(k, pre + key)
    ensures k[|pre|] > Head(key) ==> Less(pre + key, k)
    ensures k[|pre|] != Head(key) ==> !HasPrefix(k, pre + key) || key == ""
  {
    var q := pre + key;
    assert q[..|pre|] == pre;
    if k[|pre|] < Head(key) {
      FirstDifference(k, q, |pre|);
    } else if k[|pre|] > Head(key) {
      FirstDifference(q, k, |pre|);
    }
    if key != "" { assert q[|pre|] == key[0]; }
  }

  // The node's own key against a query that goes through the node.
  lemma OwnAgainst(t: Tree, pre: string, key: string)
    requires t.Node? && Head(key) == t.c && t.c != '\0'
    ensures AtMost(pre + [t.c], pre + key)
    ensures AtMost(pre + key, pre + [t.c]) <==> |key| == 1
  {
    var k, q := pre + [t.c], pre + key;
    if |key| == 1 {
      assert k == q;
    } else {
      assert q[..|k|] == k;
      FirstDifference(k, q, |k|);
      LessTrichotomy(k, q);
    }
  }

  ghost predicate Starts(k: string, pre: string) {
    |pre| < |k| && k[..|pre|] == pre && k[|pre|] != '\0'
  }

  // Keys that branch off below the query are all smaller, those above it all greater.
  lemma BelowQuery(ks: seq<string>, pre: string, key: string)
    requires forall k :: k in ks ==> Starts(k, pre) && k[|pre|] < Head(key)
    ensures UpTo(ks, pre + key) == ks && From(ks, pre + key) == [] && Extending(ks, pre + key) == []
  {
    var q := pre + key;
    forall k | k in ks ensures AtMost(k, q) && !AtMost(q, k) && !HasPrefix(k, q) {
      CompareAt(k, pre, key);
      LessTrichotomy(k, q);
    }
    UpToAll(ks, q); FromAll(ks, q); ExtendingAll(ks, q);
  }

  lemma AboveQuery(ks: seq<string>, pre: string, key: string)
    requires forall k :: k in ks ==> Starts(k, pre) && k[|pre|] > Head(key)
    ensures UpTo(ks, pre + key) == [] && From(ks, pre + key) == ks
    ensures key != "" ==> Extending(ks, pre + key) == []
  {
    var q := pre + key;
    forall k | k in ks ensures AtMost(q, k) && !AtMost(k, q) && (key != "" ==> !HasPrefix(k, q)) {
      CompareAt(k, pre, key);
      LessTrichotomy(k, q);
    }
    UpToAll(ks, q); FromAll(ks, q);
    if key != "" { ExtendingAll(ks, q); }
  }

  // The four parts of a node's key list against the query, by the next query character.
  lemma LeftBelow(t: Tree, pre: string, key: string, lo: int, hi: int)
    requires t.Node? && Ordered(t, lo, hi) && Head(key) >= t.c
    ensures var q, l := pre + key, Keys(t.l, pre);
      UpTo(l, q) == l && From(l, q) == [] && Extending(l, q) == []
  {
    forall k | k in Keys(t.l, pre) ensures Starts(k, pre) && k[|pre|] < Head(key) { KeyAtNode(t, pre, lo, hi, k); }
    BelowQuery(Keys(t.l, pre), pre, key);
  }

  lemma RightAbove(t: Tree, pre: string, key: string, lo: int, hi: int)
    requires t.Node? && Ordered(t, lo, hi) && Head(key) <= t.c
    ensures var q, r := pre + key, Keys(t.r, pre);
      UpTo(r, q) == [] && From(r, q) == r && (key != "" ==> Extending(r, q) == [])
  {
    forall k | k in Keys(t.r, pre) ensures Starts(k, pre) && k[|pre|] > Head(key) { KeyAtNode(t, pre, lo, hi, k); }
    AboveQuery(Keys(t.r, pre), pre, key);
  }

  lemma MiddleBelow(t: Tree, pre: string, key: string, lo: int, hi: int)
    requires t.Node? && Ordered(t, lo, hi) && Head(key) > t.c
    ensures var q, o, m := pre + key, Own(t, pre), Keys(t.m, pre + [t.c]);
      && UpTo(o, q) == o && From(o, q) == [] && Extending(o, q) == []
      && UpTo(m, q) == m && From(m, q) == [] && Extending(m, q) == []
  {
    forall k | k in Own(t, pre) || k in Keys(t.m, pre + [t.c])
      ensures Starts(k, pre) && k[|pre|] < Head(key)
    {
      KeyAtNode(t, pre, lo, hi, k);
    }
    BelowQuery(Own(t, pre), pre, key);
    BelowQuery(Keys(t.m, pre + [t.c]), pre, key);
  }

  lemma MiddleAbove(t: Tree, pre: string, key: string, lo: int, hi: int)
    requires t.Node? && Ordered(t, lo, hi) && Head(key) < t.c
    ensures var q, o, m := pre + key, Own(t, pre), Keys(t.m, pre + [t.c]);
      && UpTo(o, q) == [] && From(o, q) == o && (key != "" ==> Extending(o, q) == [])
      && UpTo(m, q) == [] && From(m, q) == m && (key != "" ==> Extending(m, q) == [])
  {
    forall k | k in Own(t, pre) || k in Keys(t.m, pre + [t.c])
      ensures Starts(k, pre) && k[|pre|] > Head(key)
    {
      KeyAtNode(t, pre, lo, hi, k);
    }
    AboveQuery(Own(t, pre), pre, key);
    AboveQuery(Keys(t.m, pre + [t.c]), pre, key);
  }

  lemma UpToParts(l: seq<string>, o: seq<string>, m: seq<string>, r: seq<string>, q: string)
    ensures UpTo(l + o + m + r, q) == UpTo(l, q) + UpTo(o, q) + UpTo(m, q) + UpTo(r, q)
  {
    UpToConcat(l + o + m, r, q);
    UpToConcat(l + o, m, q);
    UpToConcat(l, o, q);
  }

  lemma FromParts(l: seq<string>, o: seq<string>, m: seq<string>, r: seq<string>, q: string)
    ensures From(l + o + m + r, q) == From(l, q) + From(o, q) + From(m, q) + From(r, q)
  {
    FromConcat(l + o + m, r, q);
    FromConcat(l + o, m, q);
    FromConcat(l, o, q);
  }

  lemma ExtendingParts(l: seq<string>, o: seq<string>, m: seq<string>, r: seq<string>, q: string)
    ensures Extending(l + o + m + r, q) == Extending(l, q) + Extending(o, q) + Extending(m, q) + Extending(r, q)
  {
    ExtendingConcat(l + o + m, r, q);
    ExtendingConcat(l + o, m, q);
    ExtendingConcat(l, o, q);
  }

  // Which parts of a node's key list a query wants, by the next query character.
  lemma UpToAtNode(t: Tree, pre: string, key: string, lo: int, hi: int)
    requires t.Node? && Ordered(t, lo, hi)
    ensures var q, l, o, m, r :=
        pre + key, Keys(t.l, pre), Own(t, pre), Keys(t.m, pre + [t.c]), Keys(t.r, pre);
      UpTo(Keys(t, pre), q) ==
        if Head(key) < t.c then UpTo(l, q)
        else if Head(key) == t.c then l + o + UpTo(m, q)
        else l + o + m + UpTo(r, q)
  {
    var q, l, o, m, r :=
      pre + key, Keys(t.l, pre), Own(t, pre), Keys(t.m, pre + [t.c]), Keys(t.r, pre);
    UpToParts(l, o, m, r, q);
    assert UpTo(Keys(t, pre), q) == UpTo(l, q) + UpTo(o, q) + UpTo(m, q) + UpTo(r, q);
    if Head(key) < t.c {
      MiddleAbove(t, pre, key, lo, hi);
      RightAbove(t, pre, key, lo, hi);
    } else if Head(key) > t.c {
      LeftBelow(t, pre, key, lo, hi);
      MiddleBelow(t, pre, key, lo, hi);
    } else {
      LeftBelow(t, pre, key, lo, hi);
      RightAbove(t, pre, key, lo, hi);
      OwnFilters(t, pre, key);
    }
  }

  lemma FromAtNode(t: Tree, pre: string, key: string, lo: int, hi: int)
    requires t.Node? && Ordered(t, lo, hi)
    ensures var q, l, o, m, r :=
        pre + key, Keys(t.l, pre), Own(t, pre), Keys(t.m, pre + [t.c]), Keys(t.r, pre);
      From(Keys(t, pre), q) ==
        if Head(key) > t.c then From(r, q)
        else if Head(key) == t.c then (if |key| == 1 then o else []) + From(m, q) + r
        else From(l, q) + o + m + r
  {
    var q, l, o, m, r :=
      pre + key, Keys(t.l, pre), Own(t, pre), Keys(t.m, pre + [t.c]), Keys(t.r, pre);
    FromParts(l, o, m, r, q);
    assert From(Keys(t, pre), q) == From(l, q) + From(o, q) + From(m, q) + From(r, q);
    if Head(key) < t.c {
      MiddleAbove(t, pre, key, lo, hi);
      RightAbove(t, pre, key, lo, hi);
    } else if Head(key) > t.c {
      LeftBelow(t, pre, key, lo, hi);
      MiddleBelow(t, pre, key, lo, hi);
      NothingBefore(From(r, q));
    } else {
      LeftBelow(t, pre, key, lo, hi);
      RightAbove(t, pre, key, lo, hi);
      OwnFilters(t, pre, key);
      NothingBefore(if |key| == 1 then o else []);
    }
  }

  lemma ExtendingAtNode(t: Tree, pre: string, key: string, lo: int, hi: int)
    requires t.Node? && key != "" && Ordered(t, lo, hi)
    ensures var q, l, o, m, r :=
        pre + key, Keys(t.l, pre), Own(t, pre), Keys(t.m, pre + [t.c]), Keys(t.r, pre);
      Extending(Keys(t, pre), q) ==
        if key[0] < t.c then Extending(l, q)
        else if key[0] > t.c then Extending(r, q)
        else (if |key| == 1 then o else []) + Extending(m, q)
  {
    var q, l, o, m, r :=
      pre + key, Keys(t.l, pre), Own(t, pre), Keys(t.m, pre + [t.c]), Keys(t.r, pre);
    ExtendingParts(l, o, m, r, q);
    assert Extending(Keys(t, pre), q) == Extending(l, q) + Extending(o, q) + Extending(m, q) + Extending(r, q);
    if key[0] < t.c {
      MiddleAbove(t, pre, key, lo, hi);
      RightAbove(t, pre, key, lo, hi);
    } else if key[0] > t.c {
      LeftBelow(t, pre, key, lo, hi);
      MiddleBelow(t, pre, key, lo, hi);
      NothingBefore(Extending(r, q));
    } else {
      LeftBelow(t, pre, key, lo, hi);
      RightAbove(t, pre, key, lo, hi);
      OwnFilters(t, pre, key);
      NothingBefore(if |key| == 1 then o else []);
    }
  }

  lemma OwnFilters(t: Tree, pre: string, key: string)
    requires t.Node? && Head(key) == t.c && t.c != '\0'
    ensures var q, o := pre + key, Own(t, pre);
      UpTo(o, q) == o && From(o, q) == (if |key| == 1 then o else []) && Extending(o, q) == From(o, q)
  {
    OwnAgainst(t, pre, key);
    var k, q := pre + [t.c], pre + key;
    if |key| == 1 { assert k == q; } else { assert !(q <= k); }
  }

  // The keys that extend a prefix are those in and below the node its path ends at.
  lemma {:induction false} ExtendingAtFind(t: Tree, pre: string, key: string, lo: int, hi: int)
    requires key != "" && Ordered(t, lo, hi)
    ensures var f := Find(t, key);
      Extending(Keys(t, pre), pre + key) ==
        if f.Leaf? then [] else (if f.val > 0 then [pre + key] else []) + Keys(f.m, pre + key)
    decreases |key|, t
  {
    if t.Node? {
      var q, p := pre + key, pre + [t.c];
      ExtendingAtNode(t, pre, key, lo, hi);
      if key[0] < t.c {
        ExtendingAtFind(t.l, pre, key, lo, t.c as int);
      } else if key[0] > t.c {
        ExtendingAtFind(t.r, pre, key, t.c as int, hi);
      } else if |key| > 1 {
        assert p + key[1..] == q;
        ExtendingAtFind(t.m, p, key[1..], 0, ANY_CHAR);
      } else {
        assert p == q;
        forall k | k in Keys(t.m, q) ensures HasPrefix(k, q) { KeysExtend(t.m, q, 0, ANY_CHAR, k); }
        ExtendingAll(Keys(t.m, q), q);
      }
    }
  }

  // ---------- the three queries ----------

  // tst_less: the stored keys up to q, greatest first.
  function Below(t: Tree, q: string): seq<string> {
    Reverse(UpTo(Keys(t, ""), q))
  }

  // tst_greater: the stored keys from q on, smallest first.
  function Above(t: Tree, q: string): seq<string> {
    From(Keys(t, ""), q)
  }

  // tst_prefix: the stored keys that extend q.
  function Prefixed(t: Tree, q: string, order: Order): seq<string> {
    var ks := Extending(Keys(t, ""), q);
    if order.Asc? then ks else Reverse(ks)
  }

  lemma ReverseDescending(ks: seq<string>)
    requires Ascending(ks)
    ensures Descending(Reverse(ks))
    ensures forall k :: k in Reverse(ks) <==> k in ks
  {
    forall i: nat | i < |ks| ensures |Reverse(ks)| == |ks| && Reverse(ks)[i] == ks[|ks| - 1 - i] {
      ReverseAt(ks, i);
    }
    ReverseLength(ks);
    forall k ensures k in Reverse(ks) <==> k in ks {
      if k in ks {
        var i :| 0 <= i < |ks| && ks[i] == k;
        assert Reverse(ks)[|ks| - 1 - i] == k;
      }
      if k in Reverse(ks) {
        var i :| 0 <= i < |Reverse(ks)| && Reverse(ks)[i] == k;
        assert ks[|ks| - 1 - i] == k;
      }
    }
  }

  // Each query lists exactly the stored keys in its range, in strict order.
  lemma QueriesExact(t: Tree, q: string, k: string)
    requires Ordered(t, 0, ANY_CHAR)
    ensures Descending(Below(t, q)) && Ascending(Above(t, q))
    ensures Ascending(Prefixed(t, q, Asc)) && Descending(Prefixed(t, q, Desc))
    ensures Prefixed(t, q, Desc) == Reverse(Prefixed(t, q, Asc))
    ensures k in Below(t, q) <==> k in Contents(t) && AtMost(k, q)
    ensures k in Above(t, q) <==> k in Contents(t) && AtMost(q, k)
    ensures k in Prefixed(t, q, Asc) <==> k in Contents(t) && q <= k
    ensures k in Prefixed(t, q, Desc) <==> k in Contents(t) && q <= k
  {
    var ks := Keys(t, "");
    KeysAscending(t, "", 0, ANY_CHAR);
    FiltersAscending(ks, q);
    ReverseDescending(UpTo(ks, q));
    ReverseDescending(Extending(ks, q));
    MemberFilters(ks, q, k);
  }

  // Cutting a listing to a limit keeps the entries that come first: with Below these are
  // the greatest keys up to q, with Above the smallest from q on.
  lemma CutKeepsFirst(ks: seq<string>, n: nat, k: string)
    requires k in ks && k !in Cut(ks, n)
    ensures |Cut(ks, n)| == n
    ensures Descending(ks) ==> forall x :: x in Cut(ks, n) ==> Less(k, x)
    ensures Ascending(ks) ==> forall x :: x in Cut(ks, n) ==> Less(x, k)
  {
    var j :| 0 <= j < |ks| && ks[j] == k;
    if |ks| > n {
      forall i | 0 <= i < n ensures ks[i] != k { assert ks[..n][i] == ks[i]; }
      forall x | x in ks[..n]
        ensures (Descending(ks) ==> Less(k, x)) && (Ascending(ks) ==> Less(x, k))
      {
        var i :| 0 <= i < n && ks[..n][i] == x;
      }
    }
  }
}
