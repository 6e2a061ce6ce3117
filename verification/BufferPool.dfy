/** The pool of fixed-size buffer units, linked by index into a free list and into the
    chains of the connections that hold them. */
module BufferPool {

  const UNIT_SIZE: nat := 512

  const NULL: int := -1

  // data[0..size] of a unit, and the index of the next one.
  datatype Unit = Unit(bytes: string, next: int)

  // us lists the units reached from head.
  ghost predicate Linked(d: seq<Unit>, head: int, us: seq<nat>)
    decreases |us|
  {
    if us == [] then head == NULL
    else head == us[0] && us[0] < |d| && Linked(d, d[us[0]].next, us[1..])
  }

  // No unit is listed twice.
  ghost predicate Distinct(us: seq<nat>) {
    forall i, j :: 0 <= i < j < |us| ==> us[i] != us[j]
  }

  // us are exactly the units that belong to `id`; 0 is the free list.
  ghost predicate Owns(owner: seq<nat>, id: nat, us: seq<nat>) {
    && (forall i :: 0 <= i < |us| ==> us[i] < |owner| && owner[us[i]] == id)
    && (forall u: nat :: u < |owner| && owner[u] == id ==> u in us)
  }

  ghost predicate ListOk(d: seq<Unit>, owner: seq<nat>, id: nat, head: int, us: seq<nat>) {
    |owner| == |d| && Linked(d, head, us) && Distinct(us) && Owns(owner, id, us)
  }

  predicate InBounds(us: seq<nat>, n: nat) {
    forall i :: 0 <= i < |us| ==> us[i] < n
  }

  // The octets of a chain, in order.
  function Content(d: seq<Unit>, us: seq<nat>): string
    requires InBounds(us, |d|)
  {
    if us == [] then "" else d[us[0]].bytes + Content(d, us[1..])
  }

  ghost predicate UnitsFit(d: seq<Unit>) {
    forall u :: 0 <= u < |d| ==> |d[u].bytes| <= UNIT_SIZE
  }

  lemma {:induction false} LinkedFrame(d: seq<Unit>, d': seq<Unit>, head: int, us: seq<nat>)
    requires Linked(d, head, us) && |d| == |d'|
    requires forall i :: 0 <= i < |us| && us[i] < |d| ==> d'[us[i]] == d[us[i]]
    ensures Linked(d', head, us) && InBounds(us, |d|)
    ensures Content(d', us) == Content(d, us)
    decreases |us|
  {
    if us != [] { LinkedFrame(d, d', d[us[0]].next, us[1..]); }
  }

  // A list keeps its order, its units and its octets when only other owners' units change hands.
  lemma ListFrame(d: seq<Unit>, owner: seq<nat>, d': seq<Unit>, owner': seq<nat>, id: nat, head: int, us: seq<nat>)
    requires ListOk(d, owner, id, head, us) && |d'| == |d| && |owner'| == |owner|
    requires forall u: nat :: u < |d| ==> (owner[u] == id <==> owner'[u] == id)
    requires forall u: nat :: u < |d| && owner[u] == id ==> d'[u] == d[u]
    ensures ListOk(d', owner', id, head, us)
    ensures Content(d', us) == Content(d, us)
  {
    LinkedFrame(d, d', head, us);
  }

  class Pool {
    var base: array<Unit>
    var head: int
    ghost var free: seq<nat>
    ghost var owner: seq<nat>   // 0 for a free unit, else the chain it belongs to

    ghost predicate Valid()
      reads this, base
    {
      ListOk(base[..], owner, 0, head, free) && UnitsFit(base[..])
    }

    // bp_new.
    constructor (n: nat)
      requires n > 0
      ensures Valid() && fresh(base) && base.Length == n
      ensures free == seq(n, i => i) && owner == seq(n, _ => 0)
    {
      base := new Unit[n](i => Unit("", if i == n - 1 then NULL else i + 1));
      head := 0;
      free := seq(n, i => i);
      owner := seq(n, _ => 0);
      new;
      Consecutive(base[..], 0, n);
      assert seq(n, i => i) == seq(n - 0, i => 0 + i);
      forall u: nat | u < n ensures u in free { assert free[u] == u; }
    }

    // alloc_buf: the pool never gives out its last unit.
    method AllocBuf(ghost id: nat) returns (u: nat)
      requires Valid() && |free| >= 2 && id > 0
      modifies this`head, this`free, this`owner, base
      ensures Valid() && u == old(free[0]) && free == old(free[1..])
      ensures owner == old(owner)[u := id] && old(owner)[u] == 0
      ensures base[..] == old(base[..])[u := Unit("", NULL)]
    {
      ghost var d := base[..];
      u := head;
      var nextHead := base[head].next;
      base[u] := Unit("", NULL);
      head := nextHead;
      assert owner[u] == 0;
      owner := owner[u := id];
      free := free[1..];
      assert base[..] == d[u := Unit("", NULL)];
      LinkedFrame(d, base[..], head, free);
    }

    // free_buf.
    method FreeBuf(u: nat)
      requires Valid() && free != [] && u < base.Length && owner[u] > 0
      modifies this`head, this`free, this`owner, base
      ensures Valid() && free == [u] + old(free)
      ensures owner == old(owner)[u := 0]
      ensures base[..] == old(base[..])[u := Unit("", old(head))]
    {
      ghost var d := base[..];
      base[u] := Unit("", head);
      assert base[..] == d[u := Unit("", head)];
      LinkedFrame(d, base[..], head, free);
      head := u;
      owner := owner[u := 0];
      free := [u] + free;
    }
  }

  lemma {:induction false} Consecutive(d: seq<Unit>, i: nat, n: nat)
    requires i < n == |d|
    requires forall k :: 0 <= k < n ==> d[k].next == if k == n - 1 then NULL else k + 1
    ensures Linked(d, i, seq(n - i, k => i + k))
    decreases n - i
  {
    var us := seq(n - i, k => i + k);
    if i < n - 1 {
      Consecutive(d, i + 1, n);
      assert us[1..] == seq(n - (i + 1), k => i + 1 + k);
    } else {
      assert us[1..] == [];
    }
  }
}
