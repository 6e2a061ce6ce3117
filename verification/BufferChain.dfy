/** A chain of pool units holding a stretch of a byte stream: what a connection keeps for
    input it has not framed yet and for output it has not sent yet. */
module BufferChain {
  import opened BufferPool
  import opened Sequences

  // From one pool state to another, only the free units and those of chain `id` changed
  // hands or contents.
  ghost predicate Apart(d: seq<Unit>, o: seq<nat>, d': seq<Unit>, o': seq<nat>, id: nat) {
    && |d'| == |d| == |o| == |o'|
    && forall u: nat :: u < |d| ==>
         if o[u] == 0 || o[u] == id then o'[u] == 0 || o'[u] == id else o'[u] == o[u] && d'[u] == d[u]
  }

  lemma {:induction false} LinkedAppend(d: seq<Unit>, head: int, us: seq<nat>, u: nat)
    requires us != [] && Linked(d, head, us) && Distinct(us + [u]) && u < |d| && d[u].next == NULL
    requires InBounds(us, |d|)
    ensures var last := us[|us| - 1];
      var d' := d[last := d[last].(next := u)];
      Linked(d', head, us + [u]) && Content(d', us + [u]) == Content(d, us) + d[u].bytes
    decreases |us|
  {
    var last := us[|us| - 1];
    var d' := d[last := d[last].(next := u)];
    var rest := us[1..];
    assert (us + [u])[1..] == rest + [u];
    assert (us + [u])[|us|] == u;
    if rest == [] {
      assert (us + [u])[0] == last && last != u;
      assert rest + [u] == [u] && [u][1..] == [];
      assert Content(d', [u]) == d[u].bytes + "" == d[u].bytes;
      assert Content(d, us) == d[last].bytes + "" == d[last].bytes;
    } else {
      forall i, j | 0 <= i < j < |rest + [u]| ensures (rest + [u])[i] != (rest + [u])[j] {
        assert (us + [u])[i + 1] != (us + [u])[j + 1];
      }
      LinkedAppend(d, d[us[0]].next, rest, u);
      assert (us + [u])[0] != (us + [u])[|us| - 1];
      assert d'[us[0]] == d[us[0]];
    }
  }

  lemma LinkedLast(d: seq<Unit>, head: int, us: seq<nat>)
    requires us != [] && Linked(d, head, us) && InBounds(us, |d|)
    ensures d[us[|us| - 1]].next == NULL
    decreases |us|
  {
    if |us| > 1 { LinkedLast(d, d[us[0]].next, us[1..]); }
  }

  lemma OwnsAdd(owner: seq<nat>, id: nat, us: seq<nat>, u: nat)
    requires Owns(owner, id, us) && Distinct(us) && u < |owner| && owner[u] != id
    ensures Owns(owner[u := id], id, us + [u]) && Distinct(us + [u])
  {
    var all, owner' := us + [u], owner[u := id];
    forall v: nat | v < |owner'| && owner'[v] == id ensures v in all {
      if v == u { assert all[|us|] == u; }
    }
  }

  lemma OwnsDrop(owner: seq<nat>, id: nat, us: seq<nat>, id': nat)
    requires Owns(owner, id, us) && Distinct(us) && us != [] && id' != id
    ensures Owns(owner[us[0] := id'], id, us[1..]) && Distinct(us[1..])
  {
    var rest, owner' := us[1..], owner[us[0] := id'];
    forall v: nat | v < |owner'| && owner'[v] == id ensures v in rest {
      var i :| 0 <= i < |us| && us[i] == v;
      assert i > 0 && rest[i - 1] == v;
    }
  }

  // The free list does not notice what is done to a unit of a chain.
  lemma NextChanged(d: seq<Unit>, owner: seq<nat>, head: int, free: seq<nat>, t: nat, next: int)
    requires ListOk(d, owner, 0, head, free) && UnitsFit(d) && t < |d| && owner[t] != 0
    ensures var d' := d[t := d[t].(next := next)];
      ListOk(d', owner, 0, head, free) && UnitsFit(d')
  {
    LinkedFrame(d, d[t := d[t].(next := next)], head, free);
  }

  lemma BytesChanged(d: seq<Unit>, owner: seq<nat>, head: int, free: seq<nat>, t: nat, b: string)
    requires ListOk(d, owner, 0, head, free) && UnitsFit(d) && t < |d| && owner[t] != 0 && |b| <= UNIT_SIZE
    ensures var d' := d[t := d[t].(bytes := b)];
      ListOk(d', owner, 0, head, free) && UnitsFit(d')
  {
    LinkedFrame(d, d[t := d[t].(bytes := b)], head, free);
  }

  // Octets added to the last unit are added to the chain.
  lemma {:induction false} ContentExtend(d: seq<Unit>, head: int, us: seq<nat>, x: string)
    requires us != [] && Linked(d, head, us) && InBounds(us, |d|) && Distinct(us)
    ensures var last := us[|us| - 1];
      var d' := d[last := d[last].(bytes := d[last].bytes + x)];
      Linked(d', head, us) && Content(d', us) == Content(d, us) + x
    decreases |us|
  {
    var last := us[|us| - 1];
    var d' := d[last := d[last].(bytes := d[last].bytes + x)];
    if |us| == 1 {
      assert us[1..] == [];
      assert d[last].bytes + "" == d[last].bytes && d'[last].bytes + "" == d'[last].bytes;
    } else {
      forall i, j | 0 <= i < j < |us[1..]| ensures us[1..][i] != us[1..][j] { assert us[i + 1] != us[j + 1]; }
      ContentExtend(d, d[us[0]].next, us[1..], x);
      assert us[0] != last;
      assert d[us[0]].bytes + (Content(d, us[1..]) + x) == d[us[0]].bytes + Content(d, us[1..]) + x;
    }
  }

  // Octets removed from the first unit are removed from the chain.
  lemma ContentShift(d: seq<Unit>, head: int, us: seq<nat>, k: nat)
    requires us != [] && Linked(d, head, us) && InBounds(us, |d|) && Distinct(us) && k <= |d[us[0]].bytes|
    ensures var d' := d[us[0] := d[us[0]].(bytes := d[us[0]].bytes[k..])];
      Linked(d', head, us) && Content(d, us) == d[us[0]].bytes[..k] + Content(d', us)
  {
    var b := d[us[0]].bytes;
    var d' := d[us[0] := d[us[0]].(bytes := b[k..])];
    var rest := us[1..];
    forall i | 0 <= i < |rest| ensures rest[i] != us[0] { assert us[i + 1] != us[0]; }
    LinkedFrame(d, d', d[us[0]].next, rest);
    assert b == b[..k] + b[k..];
    assert b[..k] + (b[k..] + Content(d, rest)) == b + Content(d, rest);
  }

  // What each unit holds, in order.
  function Bytes(d: seq<Unit>, us: seq<nat>): (r: seq<string>)
    requires InBounds(us, |d|)
    ensures |r| == |us| && forall i :: 0 <= i < |us| ==> r[i] == d[us[i]].bytes
  {
    if us == [] then [] else [d[us[0]].bytes] + Bytes(d, us[1..])
  }

  lemma {:induction false} ContentIsConcat(d: seq<Unit>, us: seq<nat>)
    requires InBounds(us, |d|)
    ensures Content(d, us) == Concat(Bytes(d, us))
  {
    if us != [] { ContentIsConcat(d, us[1..]); }
  }

  lemma BytesGrow(d: seq<Unit>, us: seq<nat>, d': seq<Unit>, u: nat)
    requires InBounds(us, |d|) && |d'| == |d| && u < |d|
    requires forall i :: 0 <= i < |us| ==> d'[us[i]].bytes == d[us[i]].bytes
    ensures InBounds(us + [u], |d'|) && Bytes(d', us + [u]) == Bytes(d, us) + [d'[u].bytes]
  {
  }

  // A free unit has become the chain's; its list is as it was.
  lemma UnitTaken(d: seq<Unit>, o: seq<nat>, id: nat, head: int, us: seq<nat>, u: nat)
    requires id > 0 && ListOk(d, o, id, head, us) && u < |d| && o[u] == 0
    ensures var d', o' := d[u := Unit("", NULL)], o[u := id];
      && Linked(d', head, us) && InBounds(us, |d|) && InBounds(us, |d'|)
      && Owns(o', id, us + [u]) && Distinct(us + [u])
      && Content(d', us) == Content(d, us) && Bytes(d', us) == Bytes(d, us)
  {
    var d' := d[u := Unit("", NULL)];
    OwnsAdd(o, id, us, u);
    LinkedFrame(d, d', head, us);
    forall i | 0 <= i < |us| ensures Bytes(d', us)[i] == Bytes(d, us)[i] { assert us[i] != u; }
  }

  // The units of other owners are what they were.
  ghost predicate OthersSame(d: seq<Unit>, d': seq<Unit>, o: seq<nat>, id: nat) {
    |d| == |d'| == |o| && forall v: nat :: v < |d| && o[v] != id ==> d'[v] == d[v]
  }

  lemma TakenApart(d: seq<Unit>, o: seq<nat>, id: nat, u: nat, d': seq<Unit>)
    requires |o| == |d| && u < |d| && o[u] == 0
    requires OthersSame(d[u := Unit("", NULL)], d', o[u := id], id)
    ensures Apart(d, o, d', o[u := id], id)
  {
  }

  // One unit of the chain changes its octets.
  lemma BytesUpdate(d: seq<Unit>, us: seq<nat>, i: nat, x: string)
    requires InBounds(us, |d|) && Distinct(us) && i < |us|
    ensures Bytes(d[us[i] := d[us[i]].(bytes := x)], us) == Bytes(d, us)[i := x]
  {
    var d' := d[us[i] := d[us[i]].(bytes := x)];
    forall j | 0 <= j < |us| ensures Bytes(d', us)[j] == Bytes(d, us)[i := x][j] {
      if i < j { assert us[i] != us[j]; } else if j < i { assert us[j] != us[i]; }
    }
  }

  lemma BytesRest(d: seq<Unit>, us: seq<nat>, d': seq<Unit>)
    requires us != [] && InBounds(us, |d|) && |d'| == |d| && us[0] !in us[1..]
    requires forall v: nat :: v < |d| && v != us[0] ==> d'[v] == d[v]
    ensures InBounds(us[1..], |d'|) && Bytes(d', us[1..]) == Bytes(d, us)[1..]
  {
    var rest := us[1..];
    forall j | 0 <= j < |rest| ensures Bytes(d', rest)[j] == Bytes(d, us)[j + 1] { assert rest[j] in rest; }
  }

  // The first unit of the chain goes to the front of the free list.
  lemma HeadDropped(d: seq<Unit>, o: seq<nat>, id: nat, u: nat, us: seq<nat>, free: int)
    requires ListOk(d, o, id, u, us) && us != [] && id > 0
    ensures u < |d| && var d' := d[u := Unit("", free)]; var o' := o[u := 0]; var rest := us[1..];
      && ListOk(d', o', id, d[u].next, rest) && (d[u].next < 0 <==> rest == [])
      && (rest != [] ==> rest[|rest| - 1] == us[|us| - 1])
      && InBounds(us, |d|) && InBounds(rest, |d'|)
      && Content(d, us) == d[u].bytes + Content(d', rest) && Bytes(d, us) == [d[u].bytes] + Bytes(d', rest)
      && Apart(d, o, d', o', id)
  {
    var d', rest := d[u := Unit("", free)], us[1..];
    OwnsDrop(o, id, us, 0);
    assert u !in rest by {
      forall i | 0 <= i < |rest| ensures rest[i] != u { assert us[i + 1] != us[0]; }
    }
    LinkedFrame(d, d, u, us);
    LinkedFrame(d, d', d[u].next, rest);
    BytesRest(d, us, d');
  }

  function Fewer(left: nat, n: nat): nat
    requires n <= left
  {
    left - n
  }

  // Octets on their way out of a chain: s has been taken, left more are wanted of what the
  // chain held as text0 in the pieces bs.
  ghost predicate Taking(s: string, left: nat, text: string, pieces: seq<string>,
                         text0: string, bs: seq<string>, k: nat) {
    left + |s| == k && s + text == text0 && Drop(pieces, left) == Drop(bs, k)
  }

  lemma TakingUnit(s: string, left: nat, b: string, text: string, pieces: seq<string>,
                   text': string, pieces': seq<string>,
                   text0: string, bs: seq<string>, k: nat)
    requires Taking(s, left, text, pieces, text0, bs, k) && |b| <= left
    requires text == b + text' && pieces == [b] + pieces'
    ensures Taking(s + b, Fewer(left, |b|), text', pieces', text0, bs, k)
  {
    Joined(s, b, text');
    assert ([b] + pieces')[1..] == pieces';
  }

  lemma TakingPart(s: string, left: nat, text: string, rest: string, pieces: seq<string>,
                   text0: string, bs: seq<string>, k: nat)
    requires Taking(s, left, text, pieces, text0, bs, k) && pieces != [] && left < |pieces[0]|
    requires text == pieces[0][..left] + rest
    ensures s + pieces[0][..left] + rest == text0 && |s + pieces[0][..left]| == k <= |text0|
    ensures Drop(bs, k) == pieces[0 := pieces[0][left..]]
  {
    Joined(s, pieces[0][..left], rest);
    assert pieces[0 := pieces[0][left..]] == [pieces[0][left..]] + pieces[1..];
  }

  lemma TakingAll(s: string, left: nat, text0: string, bs: seq<string>, k: nat)
    requires Taking(s, left, "", [], text0, bs, k)
    ensures s == text0 && |s| <= k && Drop(bs, k) == []
  {
    Blank(s);
  }

  // Unit u, empty and already the chain's, is all of it.
  lemma FirstLinked(d: seq<Unit>, o: seq<nat>, id: nat, u: nat)
    requires |o| == |d| && u < |d| && d[u] == Unit("", NULL) && Owns(o, id, [u])
    ensures ListOk(d, o, id, u, [u]) && InBounds([u], |d|)
    ensures Content(d, [u]) == "" && Bytes(d, [u]) == [""]
  {
    assert [u][1..] == [];
  }

  // Unit u, empty and already the chain's, is linked behind its last unit.
  lemma TailLinked(d: seq<Unit>, o: seq<nat>, id: nat, head: int, us: seq<nat>, u: nat, h0: int, free: seq<nat>)
    requires us != [] && id > 0 && Linked(d, head, us) && InBounds(us, |d|) && |o| == |d|
    requires u < |d| && d[u] == Unit("", NULL) && Owns(o, id, us + [u]) && Distinct(us + [u])
    requires ListOk(d, o, 0, h0, free) && UnitsFit(d)
    ensures var t := us[|us| - 1]; var d' := d[t := d[t].(next := u)]; var all := us + [u];
      && ListOk(d', o, id, head, all) && InBounds(all, |d'|)
      && Content(d', all) == Content(d, us) && Bytes(d', all) == Bytes(d, us) + [""] && d'[u].bytes == ""
      && ListOk(d', o, 0, h0, free) && UnitsFit(d') && o[t] == id
  {
    var t, all := us[|us| - 1], us + [u];
    var d' := d[t := d[t].(next := u)];
    assert all[|us|] == u && all[|us| - 1] == t;
    LinkedAppend(d, head, us, u);
    NextChanged(d, o, h0, free, t, u);
    BytesGrow(d, us, d', u);
    Blank(Content(d, us));
  }

  class Chain {
    var head: int
    var tail: int
    ghost var us: seq<nat>
    ghost const id: nat

    // The chain is in order when the pool holds the units d, owned as in o.
    ghost predicate At(d: seq<Unit>, o: seq<nat>)
      reads this
    {
      id > 0 && ListOk(d, o, id, head, us) && tail == (if us == [] then NULL else us[|us| - 1])
    }

    ghost predicate Valid(pool: Pool)
      reads this, pool, pool.base
    {
      pool.Valid() && At(pool.base[..], pool.owner)
    }

    // An operation on another chain, which found the pool at d and o, leaves this one alone.
    lemma Kept(pool: Pool, d: seq<Unit>, o: seq<nat>, other: nat)
      requires At(d, o) && pool.Valid() && other != id && Apart(d, o, pool.base[..], pool.owner, other)
      ensures Valid(pool) && InBounds(us, |d|)
      ensures Text(pool) == Content(d, us) && Pieces(pool) == Bytes(d, us)
    {
      OtherChainKept(d, o, pool.base[..], pool.owner, other, id, head, us);
    }

    // The octets the chain holds.
    ghost function Text(pool: Pool): string
      requires Valid(pool)
      reads this, pool, pool.base
    {
      LinkedFrame(pool.base[..], pool.base[..], head, us);
      Content(pool.base[..], us)
    }

    ghost function Pieces(pool: Pool): seq<string>
      requires Valid(pool)
      reads this, pool, pool.base
    {
      LinkedFrame(pool.base[..], pool.base[..], head, us);
      Bytes(pool.base[..], us)
    }

    // How much the first unit holds; 0 when there is none.
    ghost function FirstSize(pool: Pool): nat
      requires Valid(pool)
      reads this, pool, pool.base
    {
      if us == [] then 0 else |pool.base[head].bytes|
    }

    // How many octets fit behind those the last unit holds; 0 when there is none.
    ghost function Room(pool: Pool): nat
      requires Valid(pool)
      reads this, pool, pool.base
    {
      if us == [] then 0 else UNIT_SIZE - |pool.base[tail].bytes|
    }

    // Whether the last unit and those the pool can still give out have room for n octets.
    ghost predicate Accepts(pool: Pool, n: nat)
      requires Valid(pool)
      reads this, pool, pool.base
    {
      && pool.free != [] && (us == [] ==> |pool.free| >= 2)
      && n <= Room(pool) + (|pool.free| - 1) * UNIT_SIZE
    }

    constructor (pool: Pool, ghost id: nat)
      requires pool.Valid() && id > 0 && id !in pool.owner
      ensures Valid(pool) && us == [] && Text(pool) == "" && this.id == id
    {
      head, tail := NULL, NULL;
      us := [];
      this.id := id;
    }

    // A fresh empty unit at the end.
    method Grow(pool: Pool)
      requires Valid(pool) && |pool.free| >= 2
      modifies this`head, this`tail, this`us, pool`head, pool`free, pool`owner, pool.base
      ensures Valid(pool) && us != [] && us == old(us) + [tail as nat]
      ensures Text(pool) == old(Text(pool)) && pool.base[tail].bytes == ""
      ensures Pieces(pool) == old(Pieces(pool)) + [""]
      ensures |pool.free| + |us| == old(|pool.free| + |us|)
      ensures Apart(old(pool.base[..]), old(pool.owner), pool.base[..], pool.owner, id)
    {
      ghost var d, o := pool.base[..], pool.owner;
      var u := pool.AllocBuf(id);
      UnitTaken(d, o, id, head, us, u);
      Link(pool, u);
      TakenApart(d, o, id, u, pool.base[..]);
    }

    // Puts a unit that already belongs to the chain behind its tail.
    method Link(pool: Pool, u: nat)
      requires pool.Valid() && id > 0 && u < pool.base.Length && pool.base[u] == Unit("", NULL)
      requires |pool.owner| == pool.base.Length && Linked(pool.base[..], head, us) && InBounds(us, pool.base.Length)
      requires tail == (if us == [] then NULL else us[|us| - 1])
      requires Owns(pool.owner, id, us + [u]) && Distinct(us + [u])
      modifies this`head, this`tail, this`us, pool.base
      ensures Valid(pool) && us == old(us) + [u] && tail == u
      ensures Text(pool) == Content(old(pool.base[..]), old(us)) && pool.base[tail].bytes == ""
      ensures Pieces(pool) == Bytes(old(pool.base[..]), old(us)) + [""]
      ensures OthersSame(old(pool.base[..]), pool.base[..], pool.owner, id)
    {
      if tail == NULL {
        assert us == [] && us + [u] == [u];
        FirstLinked(pool.base[..], pool.owner, id, u);
        head, tail, us := u, u, [u];
        Blank([""]);
      } else {
        LinkLast(pool, u);
      }
    }

    method LinkLast(pool: Pool, u: nat)
      requires pool.Valid() && id > 0 && u < pool.base.Length && pool.base[u] == Unit("", NULL)
      requires |pool.owner| == pool.base.Length && Linked(pool.base[..], head, us) && InBounds(us, pool.base.Length)
      requires us != [] && tail == us[|us| - 1] && Owns(pool.owner, id, us + [u]) && Distinct(us + [u])
      modifies this`tail, this`us, pool.base
      ensures Valid(pool) && us == old(us) + [u] && tail == u
      ensures Text(pool) == Content(old(pool.base[..]), old(us)) && pool.base[tail].bytes == ""
      ensures Pieces(pool) == Bytes(old(pool.base[..]), old(us)) + [""]
      ensures OthersSame(old(pool.base[..]), pool.base[..], pool.owner, id)
    {
      ghost var d, all := pool.base[..], us + [u];
      TailLinked(d, pool.owner, id, head, us, u, pool.head, pool.free);
      pool.base[tail] := pool.base[tail].(next := u);
      assert pool.base[..] == d[tail := d[tail].(next := u)];
      tail, us := u, all;
      assert pool.Valid() && At(pool.base[..], pool.owner);
    }

    // Gives the first unit back.
    method DropHead(pool: Pool)
      requires Valid(pool) && us != [] && pool.free != []
      modifies this`head, this`tail, this`us, pool`head, pool`free, pool`owner, pool.base
      ensures Valid(pool) && us == old(us)[1..]
      ensures old(Text(pool)) == old(pool.base[head].bytes) + Text(pool)
      ensures old(Pieces(pool)) == [old(pool.base[head].bytes)] + Pieces(pool)
      ensures |pool.free| + |us| == old(|pool.free| + |us|)
      ensures Apart(old(pool.base[..]), old(pool.owner), pool.base[..], pool.owner, id)
    {
      ghost var d, o, all := pool.base[..], pool.owner, us;
      var u := head;
      head := pool.base[u].next;
      if head < 0 { tail := NULL; }
      ghost var free := pool.head;
      pool.FreeBuf(u);
      HeadDropped(d, o, id, u, all, free);
      ghost var d', o' := d[u := Unit("", free)], o[u := 0];
      assert pool.base[..] == d' && pool.owner == o';
      us := us[1..];
      assert At(d', o');
      assert At(pool.base[..], pool.owner);
    }

    // Octets copied in behind those the last unit holds.
    method ExtendTail(pool: Pool, x: string)
      requires Valid(pool) && us != [] && |pool.base[tail].bytes| + |x| <= UNIT_SIZE
      modifies pool.base
      ensures Valid(pool) && Text(pool) == old(Text(pool)) + x
      ensures Pieces(pool) == old(Pieces(pool))[|us| - 1 := old(pool.base[tail].bytes) + x]
      ensures Apart(old(pool.base[..]), pool.owner, pool.base[..], pool.owner, id)
    {
      ghost var d := pool.base[..];
      LinkedFrame(d, d, head, us);
      ContentExtend(d, head, us, x);
      BytesUpdate(d, us, |us| - 1, d[tail].bytes + x);
      BytesChanged(d, pool.owner, pool.head, pool.free, tail, d[tail].bytes + x);
      pool.base[tail] := pool.base[tail].(bytes := pool.base[tail].bytes + x);
      assert pool.base[..] == d[tail := d[tail].(bytes := d[tail].bytes + x)];
    }

    // Octets moved down over the first k of the first unit.
    method ShiftHead(pool: Pool, k: nat)
      requires Valid(pool) && us != [] && k <= |pool.base[head].bytes|
      modifies pool.base
      ensures Valid(pool) && old(Text(pool)) == old(pool.base[head].bytes)[..k] + Text(pool)
      ensures pool.base[head].bytes == old(pool.base[head].bytes)[k..]
      ensures Pieces(pool) == old(Pieces(pool))[0 := old(pool.base[head].bytes)[k..]]
      ensures Apart(old(pool.base[..]), pool.owner, pool.base[..], pool.owner, id)
    {
      ghost var d := pool.base[..];
      LinkedFrame(d, d, head, us);
      ContentShift(d, head, us, k);
      BytesUpdate(d, us, 0, d[head].bytes[k..]);
      BytesChanged(d, pool.owner, pool.head, pool.free, head, d[head].bytes[k..]);
      pool.base[head] := pool.base[head].(bytes := pool.base[head].bytes[k..]);
      assert pool.base[..] == d[head := d[head].(bytes := d[head].bytes[k..])];
    }

    // append_recv_data: one receive into a fresh unit; the empty chunk is a receive that got nothing.
    method Receive(pool: Pool, chunk: string)
      requires Valid(pool) && |pool.free| >= 2 && |chunk| <= UNIT_SIZE
      modifies this`head, this`tail, this`us, pool`head, pool`free, pool`owner, pool.base
      ensures Valid(pool) && Text(pool) == old(Text(pool)) + chunk && us != []
      ensures Pieces(pool) == old(Pieces(pool)) + [chunk]
      ensures |pool.free| + |us| == old(|pool.free| + |us|)
      ensures |pool.free| == old(|pool.free|) - 1
      ensures Apart(old(pool.base[..]), old(pool.owner), pool.base[..], pool.owner, id)
    {
      Grow(pool);
      Blank(chunk);
      ExtendTail(pool, chunk);
    }

    // The copying loop of read_header and read_body: k octets off the front, or all there are.
    method Take(pool: Pool, k: nat) returns (s: string)
      requires Valid(pool) && us != [] && pool.free != []
      modifies this`head, this`tail, this`us, pool`head, pool`free, pool`owner, pool.base
      ensures Valid(pool)
      ensures s + Text(pool) == old(Text(pool)) && |s| == if k <= |old(Text(pool))| then k else |old(Text(pool))|
      ensures Pieces(pool) == Drop(old(Pieces(pool)), k)
      ensures |pool.free| + |us| == old(|pool.free| + |us|) && |pool.free| >= old(|pool.free|)
      ensures Apart(old(pool.base[..]), old(pool.owner), pool.base[..], pool.owner, id)
    {
      s := "";
      var left: nat := k;
      ghost var text0, bs, d, o := Text(pool), Pieces(pool), pool.base[..], pool.owner;
      while head != NULL && left >= |pool.base[head].bytes|
        invariant Valid(pool) && Taking(s, left, Text(pool), Pieces(pool), text0, bs, k)
        invariant |pool.free| + |us| == old(|pool.free| + |us|) && |pool.free| >= old(|pool.free|)
        invariant Apart(d, o, pool.base[..], pool.owner, id)
        decreases |us|
      {
        var b := pool.base[head].bytes;
        ghost var d1, o1, text, pieces := pool.base[..], pool.owner, Text(pool), Pieces(pool);
        DropHead(pool);
        ApartTransitive(d, o, d1, o1, pool.base[..], pool.owner, id);
        ghost var text', pieces' := Text(pool), Pieces(pool);
        TakingUnit(s, left, b, text, pieces, text', pieces', text0, bs, k);
        s, left := s + b, Fewer(left, |b|);
        assert Taking(s, left, text', pieces', text0, bs, k);
      }
      if head != NULL {
        ghost var d1, o1 := pool.base[..], pool.owner;
        s := TakePart(pool, s, left, text0, bs, k);
        ApartTransitive(d, o, d1, o1, pool.base[..], pool.owner, id);
      } else {
        TakingAll(s, left, text0, bs, k);
      }
    }

    // The last octets come out of the middle of a unit.
    method TakePart(pool: Pool, s: string, left: nat, ghost text0: string, ghost bs: seq<string>, ghost k: nat)
      returns (all: string)
      requires Valid(pool) && us != [] && left < |pool.base[head].bytes|
      requires Taking(s, left, Text(pool), Pieces(pool), text0, bs, k)
      modifies pool.base
      ensures Valid(pool) && all + Text(pool) == text0 && |all| == k <= |text0|
      ensures Pieces(pool) == Drop(bs, k)
      ensures Apart(old(pool.base[..]), pool.owner, pool.base[..], pool.owner, id)
    {
      ghost var text, pieces := Text(pool), Pieces(pool);
      var b := pool.base[head].bytes[..left];
      ShiftHead(pool, left);
      TakingPart(s, left, text, Text(pool), pieces, text0, bs, k);
      all := s + b;
    }

    // free_in_buf_list and free_out_buf_list.
    method FreeAll(pool: Pool)
      requires Valid(pool) && pool.free != []
      modifies this`head, this`tail, this`us, pool`head, pool`free, pool`owner, pool.base
      ensures Valid(pool) && us == [] && head == tail == NULL && Text(pool) == ""
      ensures |pool.free| == old(|pool.free| + |us|)
      ensures Apart(old(pool.base[..]), old(pool.owner), pool.base[..], pool.owner, id)
    {
      ghost var d, o := pool.base[..], pool.owner;
      while head != NULL
        invariant Valid(pool) && |pool.free| + |us| == old(|pool.free| + |us|) && pool.free != []
        invariant Apart(d, o, pool.base[..], pool.owner, id)
        decreases |us|
      {
        ghost var d1, o1 := pool.base[..], pool.owner;
        DropHead(pool);
        ApartTransitive(d, o, d1, o1, pool.base[..], pool.owner, id);
      }
    }

    // append_send_data: fills the last unit, then as many fresh ones as it takes.
    method Send(pool: Pool, data: string)
      requires Valid(pool) && Accepts(pool, |data|)
      modifies this`head, this`tail, this`us, pool`head, pool`free, pool`owner, pool.base
      ensures Valid(pool) && Text(pool) == old(Text(pool)) + data && us != []
      ensures |pool.free| + |us| == old(|pool.free| + |us|) && pool.free != []
      ensures Apart(old(pool.base[..]), old(pool.owner), pool.base[..], pool.owner, id)
    {
      var sent: nat := 0;
      var full := tail == NULL;
      ghost var text0, d, o := Text(pool), pool.base[..], pool.owner;
      CarriedEnds(Text(pool), text0, data);
      while true
        invariant Valid(pool) && Carried(Text(pool), text0, data, sent)
        invariant |data| - sent <= (if full then 0 else Room(pool)) + (|pool.free| - 1) * UNIT_SIZE && pool.free != []
        invariant if full then |pool.free| >= 2 else us != []
        invariant |pool.free| + |us| == old(|pool.free| + |us|)
        invariant Apart(d, o, pool.base[..], pool.owner, id)
        decreases |data| - sent, !full
      {
        ghost var d1, o1 := pool.base[..], pool.owner;
        var k := FillTail(pool, data, sent, full, text0);
        ApartTransitive(d, o, d1, o1, pool.base[..], pool.owner, id);
        sent := Further(sent, k);
        if sent == |data| { break; }
        full := true;
      }
      CarriedEnds(Text(pool), text0, data);
    }

    // One turn of its loop: as much as the last unit, or a fresh one, has room for.
    method FillTail(pool: Pool, data: string, sent: nat, full: bool, ghost text0: string) returns (k: nat)
      requires Valid(pool) && Carried(Text(pool), text0, data, sent) && pool.free != []
      requires if full then |pool.free| >= 2 else us != []
      modifies this`head, this`tail, this`us, pool`head, pool`free, pool`owner, pool.base
      ensures Valid(pool) && sent + k <= |data| && us != []
      ensures Carried(Text(pool), text0, data, Further(sent, k))
      ensures |pool.free| == old(|pool.free|) - (if full then 1 else 0) && |pool.free| + |us| == old(|pool.free| + |us|)
      ensures sent + k < |data| ==> k == if full then UNIT_SIZE else old(Room(pool))
      ensures Apart(old(pool.base[..]), old(pool.owner), pool.base[..], pool.owner, id)
    {
      ghost var text := Text(pool);
      if full { Grow(pool); }
      var room := UNIT_SIZE - |pool.base[tail].bytes|;
      k := if room >= |data| - sent then |data| - sent else room;
      ExtendTail(pool, data[sent..Further(sent, k)]);
      CarriedMore(text, text0, data, sent, Further(sent, k), Text(pool));
    }

    // handle_output: send accepts ct octets of the first unit, which goes back once empty.
    method Flush(pool: Pool, ct: nat) returns (out: string)
      requires Valid(pool) && pool.free != []
      requires ct <= FirstSize(pool)
      modifies this`head, this`tail, this`us, pool`head, pool`free, pool`owner, pool.base
      ensures Valid(pool) && out + Text(pool) == old(Text(pool))
      ensures |out| == ct
      ensures |pool.free| + |us| == old(|pool.free| + |us|) && |pool.free| >= old(|pool.free|)
      ensures Apart(old(pool.base[..]), old(pool.owner), pool.base[..], pool.owner, id)
    {
      out := "";
      if head != NULL {
        ghost var d, o := pool.base[..], pool.owner;
        out := pool.base[head].bytes[..ct];
        ShiftHead(pool, ct);
        if pool.base[head].bytes == "" {
          ghost var d1, o1 := pool.base[..], pool.owner;
          DropHead(pool);
          Blank(Text(pool));
          ApartTransitive(d, o, d1, o1, pool.base[..], pool.owner, id);
        }
      }
    }
  }

  // The chain's text once n octets of data have been copied in behind text0.
  ghost predicate Carried(text: string, text0: string, data: string, n: nat) {
    n <= |data| && text == text0 + data[..n]
  }

  function Further(sent: nat, k: nat): nat {
    sent + k
  }

  lemma CarriedEnds(text: string, text0: string, data: string)
    ensures Carried(text0, text0, data, 0)
    ensures Carried(text, text0, data, |data|) ==> text == text0 + data
  {
    assert data[..|data|] == data;
  }

  lemma CarriedMore(text: string, text0: string, data: string, i: nat, j: nat, text': string)
    requires Carried(text, text0, data, i) && i <= j <= |data| && text' == text + data[i..j]
    ensures Carried(text', text0, data, j)
  {
    assert data[..i] + data[i..j] == data[..j];
  }

  // ---------- conservation ----------

  // A chain that an operation is not about is untouched by it.
  lemma OtherChainKept(d: seq<Unit>, o: seq<nat>, d': seq<Unit>, o': seq<nat>, id: nat,
                       other: nat, head: int, us: seq<nat>)
    requires Apart(d, o, d', o', id) && other != id && other != 0 && ListOk(d, o, other, head, us)
    ensures ListOk(d', o', other, head, us) && InBounds(us, |d|) && Content(d', us) == Content(d, us)
    ensures Bytes(d', us) == Bytes(d, us)
  {
    LinkedFrame(d, d, head, us);
    ListFrame(d, o, d', o', other, head, us);
  }

  // Successive operations on one chain are one operation on it.
  lemma ApartTransitive(d: seq<Unit>, o: seq<nat>, d1: seq<Unit>, o1: seq<nat>, d2: seq<Unit>, o2: seq<nat>, id: nat)
    requires Apart(d, o, d1, o1, id) && Apart(d1, o1, d2, o2, id)
    ensures Apart(d, o, d2, o2, id)
  {
  }

  // How often us lists unit u.
  function Times(us: seq<nat>, u: nat): nat {
    if us == [] then 0 else (if us[0] == u then 1 else 0) + Times(us[1..], u)
  }

  lemma {:induction false} TimesDistinct(us: seq<nat>, u: nat)
    requires Distinct(us)
    ensures Times(us, u) == if u in us then 1 else 0
  {
    if us != [] {
      forall i, j | 0 <= i < j < |us[1..]| ensures us[1..][i] != us[1..][j] { assert us[i + 1] != us[j + 1]; }
      TimesDistinct(us[1..], u);
      forall i | 0 <= i < |us[1..]| ensures us[1..][i] != us[0] { assert us[i + 1] != us[0]; }
    }
  }
}
