/** One worker's event loop: connections come, are served in any order and go, all of them
    on one pool of buffer units. */
module EventLoop {
  import opened BufferPool
  import opened BufferChain
  import opened Framing
  import opened Sequences
  import opened UnitFraming
  import opened Connection

  // ---------- one connection, seen from the pool ----------

  ghost function UnitsAt(ch: Chain, d: seq<Unit>): seq<string>
    reads ch
  {
    if InBounds(ch.us, |d|) then Bytes(d, ch.us) else []
  }

  ghost function TextAt(ch: Chain, d: seq<Unit>): string
    reads ch
  {
    if InBounds(ch.us, |d|) then Content(d, ch.us) else ""
  }

  // The connection is in order when the pool holds the units d, owned as in o.
  ghost predicate ConnAt(c: IoData, d: seq<Unit>, o: seq<nat>)
    reads c, c.input, c.output
  {
    && c.input != c.output && c.input.id != c.output.id && Sane(c.announce)
    && c.input.At(d, o) && c.output.At(d, o)
    && c.InBooks(UnitsAt(c.input, d)) && c.HandedOn(UnitsAt(c.input, d)) && c.SentOn(TextAt(c.output, d))
  }

  lemma ChainIsAt(ch: Chain, pool: Pool)
    requires ch.Valid(pool)
    ensures UnitsAt(ch, pool.base[..]) == ch.Pieces(pool) && TextAt(ch, pool.base[..]) == ch.Text(pool)
  {
    LinkedFrame(pool.base[..], pool.base[..], ch.head, ch.us);
  }

  lemma ConnIsAt(c: IoData)
    requires c.pool.Valid()
    ensures c.Valid() <==> ConnAt(c, c.pool.base[..], c.pool.owner)
    ensures c.Valid() ==> UnitsAt(c.input, c.pool.base[..]) == c.Units()
    ensures c.Valid() ==> TextAt(c.output, c.pool.base[..]) == c.output.Text(c.pool)
  {
    if c.input.Valid(c.pool) && c.output.Valid(c.pool) {
      ChainIsAt(c.input, c.pool);
      ChainIsAt(c.output, c.pool);
    }
  }

  // Both of its streams are the same with the units d' as with the units d.
  ghost predicate SameStreams(c: IoData, d: seq<Unit>, d': seq<Unit>)
    reads c.input, c.output
  {
    UnitsAt(c.input, d') == UnitsAt(c.input, d) && TextAt(c.output, d') == TextAt(c.output, d)
  }

  // An operation on another connection's chain leaves this connection alone.
  lemma Undisturbed(c: IoData, d: seq<Unit>, o: seq<nat>, d': seq<Unit>, o': seq<nat>, id: nat)
    requires ConnAt(c, d, o) && Apart(d, o, d', o', id) && id != c.input.id && id != c.output.id
    ensures ConnAt(c, d', o') && SameStreams(c, d, d')
  {
    OtherChainKept(d, o, d', o', id, c.input.id, c.input.head, c.input.us);
    OtherChainKept(d, o, d', o', id, c.output.id, c.output.head, c.output.us);
  }

  // ---------- all connections of a worker ----------

  ghost predicate Strangers(a: IoData, b: IoData) {
    a != b && a.input != b.input && a.input != b.output && a.output != b.input && a.output != b.output
  }

  // The two connections share no chain.
  ghost predicate Separate(a: IoData, b: IoData) {
    && Strangers(a, b)
    && a.input.id != b.input.id && a.input.id != b.output.id
    && a.output.id != b.input.id && a.output.id != b.output.id
  }

  ghost predicate HasChain(c: IoData, id: nat) {
    id == c.input.id || id == c.output.id
  }

  ghost predicate Holds(cs: seq<IoData>, id: nat) {
    exists i :: 0 <= i < |cs| && HasChain(cs[i], id)
  }

  ghost predicate AllSeparate(cs: seq<IoData>) {
    forall i, j :: 0 <= i < j < |cs| ==> Separate(cs[i], cs[j])
  }

  lemma NotElsewhere(cs: seq<IoData>, i: nat, c: IoData, id: nat)
    requires AllSeparate(cs) && i < |cs| && c in cs && c != cs[i] && HasChain(cs[i], id)
    ensures Separate(cs[i], c) && !HasChain(c, id)
  {
    var j :| 0 <= j < |cs| && cs[j] == c;
    if i < j {
      assert Separate(cs[i], cs[j]);
    } else {
      assert Separate(cs[j], cs[i]);
    }
  }

  lemma OthersKept(cs: seq<IoData>, i: nat, d: seq<Unit>, o: seq<nat>, d': seq<Unit>, o': seq<nat>, id: nat)
    requires AllSeparate(cs) && i < |cs| && HasChain(cs[i], id) && Apart(d, o, d', o', id)
    requires forall c :: c in cs && c != cs[i] ==> ConnAt(c, d, o)
    ensures forall c :: c in cs && c != cs[i] ==> ConnAt(c, d', o') && SameStreams(c, d, d')
  {
    forall c | c in cs && c != cs[i] ensures ConnAt(c, d', o') && SameStreams(c, d, d') {
      NotElsewhere(cs, i, c, id);
      Undisturbed(c, d, o, d', o', id);
    }
  }

  // How often the connections' chains list unit u.
  ghost function Holders(cs: seq<IoData>, u: nat): nat
    reads set c | c in cs :: c.input, set c | c in cs :: c.output
  {
    if cs == [] then 0
    else Times(cs[0].input.us, u) + Times(cs[0].output.us, u) + Holders(cs[1..], u)
  }

  ghost predicate Listed(owner: seq<nat>, ch: Chain)
    reads ch
  {
    Owns(owner, ch.id, ch.us) && Distinct(ch.us)
  }

  // A unit is listed once if its owner is one of the connections' chains, and else not at all.
  lemma {:induction false} HeldOnce(owner: seq<nat>, cs: seq<IoData>, u: nat)
    requires u < |owner| && AllSeparate(cs)
    requires forall i :: 0 <= i < |cs| ==>
      cs[i].input.id != cs[i].output.id && Listed(owner, cs[i].input) && Listed(owner, cs[i].output)
    ensures Holders(cs, u) == if Holds(cs, owner[u]) then 1 else 0
  {
    if cs != [] {
      var c, rest, id := cs[0], cs[1..], owner[u];
      TimesDistinct(c.input.us, u);
      TimesDistinct(c.output.us, u);
      HeldOnce(owner, rest, u);
      if HasChain(c, id) {
        forall i | 0 <= i < |rest| ensures !HasChain(rest[i], id) {
          assert Separate(cs[0], cs[i + 1]);
          NotElsewhere(cs, 0, cs[i + 1], id);
        }
        assert Holds(cs, id) && !Holds(rest, id);
      } else if Holds(cs, id) {
        var i :| 0 <= i < |cs| && HasChain(cs[i], id);
        assert HasChain(rest[i - 1], id);
      } else {
        forall i | 0 <= i < |rest| ensures !HasChain(rest[i], id) { assert !HasChain(cs[i + 1], id); }
      }
    }
  }

  ghost predicate NamedUpTo(cs: seq<IoData>, n: nat) {
    forall c :: c in cs ==> c.input.id <= n && c.output.id <= n
  }

  // Every unit is free or some connection's.
  ghost predicate Covered(o: seq<nat>, cs: seq<IoData>) {
    forall u: nat :: u < |o| ==> o[u] == 0 || Holds(cs, o[u])
  }

  lemma StaysCovered(d: seq<Unit>, o: seq<nat>, d': seq<Unit>, o': seq<nat>, id: nat, cs: seq<IoData>)
    requires Covered(o, cs) && Apart(d, o, d', o', id) && Holds(cs, id)
    ensures Covered(o', cs)
  {
  }

  // Without connection i, once it owns nothing, the others are as separate and as complete.
  lemma Removed(o: seq<nat>, cs: seq<IoData>, i: nat)
    requires AllSeparate(cs) && i < |cs| && Covered(o, cs)
    requires forall u: nat :: u < |o| ==> !HasChain(cs[i], o[u])
    ensures AllSeparate(cs[..i] + cs[i + 1..]) && Covered(o, cs[..i] + cs[i + 1..])
  {
    var left := cs[..i] + cs[i + 1..];
    forall j, k | 0 <= j < k < |left| ensures Separate(left[j], left[k]) {
      assert Separate(cs[if j < i then j else j + 1], cs[if k < i then k else k + 1]);
    }
    forall u: nat | u < |o| && o[u] != 0 ensures Holds(left, o[u]) {
      var j :| 0 <= j < |cs| && HasChain(cs[j], o[u]);
      assert HasChain(left[if j < i then j else j - 1], o[u]);
    }
  }

  lemma Remaining(cs: seq<IoData>, i: nat, c: IoData)
    requires AllSeparate(cs) && i < |cs| && c in cs[..i] + cs[i + 1..]
    ensures c in cs && c != cs[i]
  {
    var j :| 0 <= j < |cs| && j != i && cs[j] == c;
    assert if i < j then Separate(cs[i], cs[j]) else Separate(cs[j], cs[i]);
  }

  lemma Added(o: seq<nat>, cs: seq<IoData>, c: IoData)
    requires AllSeparate(cs) && Covered(o, cs) && forall j :: 0 <= j < |cs| ==> Separate(cs[j], c)
    ensures AllSeparate(cs + [c]) && Covered(o, cs + [c])
  {
    var more := cs + [c];
    forall u: nat | u < |o| && o[u] != 0 ensures Holds(more, o[u]) {
      var j :| 0 <= j < |cs| && HasChain(cs[j], o[u]);
      assert HasChain(more[j], o[u]);
    }
  }

  class Worker {
    const pool: Pool
    var conns: seq<IoData>
    ghost var lastId: nat

    ghost predicate OkAt(c: IoData, d: seq<Unit>, o: seq<nat>)
      reads c, c.input, c.output
    {
      c.pool == pool && ConnAt(c, d, o)
    }

    ghost predicate ConnOk(c: IoData)
      reads c, c.input, c.output, pool, pool.base
    {
      OkAt(c, pool.base[..], pool.owner)
    }

    // The connections cs share the pool properly; their chains are named up to n.
    ghost predicate Shares(cs: seq<IoData>, n: nat)
      reads pool, pool.base, cs, set c | c in cs :: c.input, set c | c in cs :: c.output
    {
      && AllSeparate(cs) && Covered(pool.owner, cs) && NamedUpTo(cs, n)
      && forall c :: c in cs ==> ConnOk(c)
    }

    ghost predicate Valid()
      reads this, pool, pool.base, conns, set c | c in conns :: c.input, set c | c in conns :: c.output
    {
      pool.Valid() && Shares(conns, lastId)
    }

    lemma Fewer(cs: seq<IoData>, i: nat, n: nat)
      requires Shares(cs, n) && i < |cs| && forall u: nat :: u < |pool.owner| ==> !HasChain(cs[i], pool.owner[u])
      ensures Shares(cs[..i] + cs[i + 1..], n)
    {
      Removed(pool.owner, cs, i);
    }

    lemma More(cs: seq<IoData>, c: IoData, n: nat)
      requires Shares(cs, n) && ConnOk(c) && c.input.id == n + 1 && c.output.id == n + 2
      requires forall b :: b in cs ==> Strangers(b, c)
      ensures Shares(cs + [c], n + 2)
    {
      forall j | 0 <= j < |cs| ensures Separate(cs[j], c) { assert cs[j] in cs; }
      Added(pool.owner, cs, c);
    }

    // Every unit of the pool is free or in one chain of one connection, and nowhere twice.
    lemma EveryUnitOnce(u: nat)
      requires Valid() && u < pool.base.Length
      ensures Times(pool.free, u) + Holders(conns, u) == 1
    {
      forall i | 0 <= i < |conns|
        ensures conns[i].input.id > 0 && conns[i].output.id > 0 && conns[i].input.id != conns[i].output.id
        ensures Listed(pool.owner, conns[i].input) && Listed(pool.owner, conns[i].output)
      {
        assert ConnOk(conns[i]);
      }
      TimesDistinct(pool.free, u);
      HeldOnce(pool.owner, conns, u);
    }

    // However the worker's connections have been served so far: each has handed on what the
    // chunks it received amount to -- the commands of its stream, if no line end is hidden and
    // no cut left a lone newline -- and what it sent and still has queued is all its replies.
    lemma ServedFaithfully(c: IoData)
      requires Valid() && c in conns
      ensures c.handed == Fed(c.received, c.announce) && InputOf(c) == Held(c.received, c.announce)
      ensures Fitting(c.received) && SafeCuts(c.received, c.announce) && AllVisible(Concat(c.received), c.announce) ==>
        && c.handed == Commands(Concat(c.received), c.announce)
        && Concat(InputOf(c)) == Leftover(Concat(c.received), c.announce)
      ensures c.sent + OutputOf(c) == c.queued
    {
      assert ConnOk(c);
      if Fitting(c.received) && SafeCuts(c.received, c.announce) && AllVisible(Concat(c.received), c.announce) {
        SafeChunksDoNotMatter(c.received, c.announce);
      }
    }

    constructor (n: nat)
      requires n > 0
      ensures Valid() && conns == [] && fresh(pool) && pool.free == seq(n, i => i)
    {
      pool := new Pool(n);
      conns := [];
      lastId := 0;
    }

    // What connection c holds that it has not framed yet, and what it has not sent yet.
    ghost function InputOf(c: IoData): seq<string>
      reads c.input, pool, pool.base
    {
      UnitsAt(c.input, pool.base[..])
    }

    ghost function OutputOf(c: IoData): string
      reads c.output, pool, pool.base
    {
      TextAt(c.output, pool.base[..])
    }

    // Both streams of c are what they were.
    twostate predicate Unmoved(c: IoData)
      reads c.input, c.output, pool, pool.base
    {
      InputOf(c) == old(InputOf(c)) && OutputOf(c) == old(OutputOf(c))
    }

    // On units d owned as in o, c is as before.
    twostate predicate Still(c: IoData, d: seq<Unit>, o: seq<nat>)
      reads c, c.input, c.output
    {
      && OkAt(c, d, o) == old(OkAt(c, d, o))
      && UnitsAt(c.input, d) == old(UnitsAt(c.input, d)) && TextAt(c.output, d) == old(TextAt(c.output, d))
    }

    // No unit and no connection has a name past lastId.
    lemma NewIds()
      requires Valid()
      ensures forall u: nat :: u < |pool.owner| ==> pool.owner[u] <= lastId
    {
    }

    // Connection i is in order, and the others have chains of their own.
    lemma Serving(i: nat)
      requires Valid() && i < |conns|
      ensures conns[i].pool == pool && conns[i].Valid()
      ensures InputOf(conns[i]) == conns[i].Units() && OutputOf(conns[i]) == conns[i].output.Text(pool)
      ensures HasChain(conns[i], conns[i].input.id) && HasChain(conns[i], conns[i].output.id)
      ensures forall c :: c in conns && c != conns[i] ==>
        Separate(conns[i], c) && OkAt(c, pool.base[..], pool.owner)
    {
      assert ConnOk(conns[i]);
      ConnIsAt(conns[i]);
      forall c | c in conns && c != conns[i] ensures Separate(conns[i], c) && OkAt(c, pool.base[..], pool.owner) {
        NotElsewhere(conns, i, c, conns[i].input.id);
        assert ConnOk(c);
      }
    }

    // alloc_io_data for a connection just accepted; no unit and no other connection is touched.
    method Accept(announce: Announcer) returns (c: IoData)
      requires Valid() && Sane(announce)
      modifies this`conns, this`lastId
      ensures Valid() && conns == old(conns) + [c] && fresh(c) && c.announce == announce
      ensures c.received == [] && c.handed == [] && c.queued == "" && c.sent == ""
    {
      c := Open(announce);
      Adopt(c);
    }

    method Open(announce: Announcer) returns (c: IoData)
      requires Valid() && Sane(announce)
      ensures Valid() && forall b :: b in conns ==> Strangers(b, c)
      ensures fresh(c) && c.announce == announce
      ensures ConnOk(c) && c.input.id == lastId + 1 && c.output.id == lastId + 2
      ensures c.received == [] && c.handed == [] && c.queued == "" && c.sent == ""
    {
      ghost var before := Valid();
      NewIds();
      c := new IoData(pool, announce, lastId + 1, lastId + 2);
      assert Valid() == before;
      forall b | b in conns ensures Strangers(b, c) {}
      ConnIsAt(c);
      assert ConnOk(c);
    }

    method Adopt(c: IoData)
      requires Valid() && ConnOk(c) && c.input.id == lastId + 1 && c.output.id == lastId + 2
      requires forall b :: b in conns ==> Strangers(b, c)
      modifies this`conns, this`lastId
      ensures Valid() && conns == old(conns) + [c]
    {
      More(conns, c, lastId);
      conns := conns + [c];
      lastId := lastId + 2;
    }

    // EPOLLIN: handle_input for connection i.
    method Input(i: nat, chunk: string) returns (cmds: seq<Command>)
      requires Valid() && i < |conns| && |pool.free| >= 2 && |chunk| <= 512
      modifies conns[i], conns[i].input, pool, pool.base
      ensures Valid() && conns == old(conns)
      ensures conns[i].received == old(conns[i].received) + [chunk] && conns[i].handed == old(conns[i].handed) + cmds
      ensures conns[i].queued == old(conns[i].queued) && conns[i].sent == old(conns[i].sent)
      ensures cmds == UnitCommands(old(InputOf(conns[i])) + [chunk], conns[i].announce)
      ensures InputOf(conns[i]) == UnitRest(old(InputOf(conns[i])) + [chunk], conns[i].announce)
      ensures OutputOf(conns[i]) == old(OutputOf(conns[i]))
      ensures forall c :: c in conns && c != conns[i] ==> Unmoved(c)
    {
      ghost var d, o, id := pool.base[..], pool.owner, conns[i].input.id;
      Serving(i);
      cmds := conns[i].HandleInput(chunk);
      forall c | c in conns && c != conns[i] ensures Still(c, d, o) {
        assert Separate(conns[i], c);
        assert unchanged(c, c.input, c.output);
      }
      Served(i, d, o, id);
    }

    // append_send_data: a reply for connection i.
    method Reply(i: nat, data: string)
      requires Valid() && i < |conns| && conns[i].output.Valid(pool) && conns[i].output.Accepts(pool, |data|)
      modifies conns[i], conns[i].output, pool, pool.base
      ensures Valid() && conns == old(conns) && conns[i].queued == old(conns[i].queued) + data
      ensures conns[i].received == old(conns[i].received) && conns[i].sent == old(conns[i].sent)
      ensures InputOf(conns[i]) == old(InputOf(conns[i])) && OutputOf(conns[i]) == old(OutputOf(conns[i])) + data
      ensures forall c :: c in conns && c != conns[i] ==> Unmoved(c)
    {
      ghost var d, o, id := pool.base[..], pool.owner, conns[i].output.id;
      Serving(i);
      conns[i].AppendSendData(data);
      forall c | c in conns && c != conns[i] ensures Still(c, d, o) {
        assert Separate(conns[i], c);
        assert unchanged(c, c.input, c.output);
      }
      Served(i, d, o, id);
    }

    // EPOLLOUT: handle_output for connection i, of which send accepts ct octets.
    method Output(i: nat, ct: nat) returns (out: string)
      requires Valid() && i < |conns| && pool.free != []
      requires conns[i].pool == pool && conns[i].output.Valid(pool) && ct <= conns[i].output.FirstSize(pool)
      modifies conns[i], conns[i].output, pool, pool.base
      ensures Valid() && conns == old(conns) && |out| == ct && conns[i].sent == old(conns[i].sent) + out
      ensures conns[i].received == old(conns[i].received) && conns[i].queued == old(conns[i].queued)
      ensures InputOf(conns[i]) == old(InputOf(conns[i])) && out + OutputOf(conns[i]) == old(OutputOf(conns[i]))
      ensures forall c :: c in conns && c != conns[i] ==> Unmoved(c)
    {
      ghost var d, o, id := pool.base[..], pool.owner, conns[i].output.id;
      Serving(i);
      out := conns[i].HandleOutput(ct);
      forall c | c in conns && c != conns[i] ensures Still(c, d, o) {
        assert Separate(conns[i], c);
        assert unchanged(c, c.input, c.output);
      }
      Served(i, d, o, id);
    }

    // destroy_io_data for connection i: its units are free again.
    method Release(i: nat)
      requires Valid() && i < |conns| && pool.free != []
      modifies conns[i], conns[i].input, conns[i].output, pool, pool.base
      ensures Valid() && conns == old(conns)
      ensures |pool.free| == old(|pool.free| + |conns[i].input.us| + |conns[i].output.us|)
      ensures forall u: nat :: u < |pool.owner| ==> !HasChain(conns[i], pool.owner[u])
      ensures forall c :: c in conns && c != conns[i] ==> Unmoved(c)
    {
      ghost var d, o := pool.base[..], pool.owner;
      var c := conns[i];
      Serving(i);
      ghost var d1, o1 := c.Destroy();
      forall b | b in conns && b != c ensures Still(b, d, o) {
        assert Separate(c, b);
      }
      OthersKept(conns, i, d, o, d1, o1, c.input.id);
      StaysCovered(d, o, d1, o1, c.input.id, conns);
      Served(i, d1, o1, c.output.id);
    }

    // destroy_fd: connection i goes.
    method Close(i: nat)
      requires Valid() && i < |conns| && pool.free != []
      modifies this, conns[i], conns[i].input, conns[i].output, pool, pool.base
      ensures Valid() && conns == old(conns)[..i] + old(conns)[i + 1..]
      ensures |pool.free| == old(|pool.free| + |conns[i].input.us| + |conns[i].output.us|)
      ensures forall c :: c in conns ==> Unmoved(c)
    {
      Release(i);
      Forget(i);
    }

    method Forget(i: nat)
      requires Valid() && i < |conns| && forall u: nat :: u < |pool.owner| ==> !HasChain(conns[i], pool.owner[u])
      modifies this`conns
      ensures Valid() && conns == old(conns)[..i] + old(conns)[i + 1..]
      ensures forall c :: c in conns ==> c in old(conns) && c != old(conns)[i]
    {
      Fewer(conns, i, lastId);
      ghost var cs := conns;
      conns := conns[..i] + conns[i + 1..];
      forall c | c in conns ensures c in cs && c != cs[i] { Remaining(cs, i, c); }
    }

    // After an operation on chain id of connection i, which found the pool at d and o, the
    // worker is in order and the other connections' streams are what they were.
    lemma Served(i: nat, d: seq<Unit>, o: seq<nat>, id: nat)
      requires AllSeparate(conns) && i < |conns| && HasChain(conns[i], id) && Covered(o, conns)
      requires NamedUpTo(conns, lastId)
      requires Apart(d, o, pool.base[..], pool.owner, id)
      requires conns[i].pool == pool && conns[i].Valid()
      requires forall c :: c in conns && c != conns[i] ==> OkAt(c, d, o)
      ensures Valid()
      ensures forall c :: c in conns && c != conns[i] ==> SameStreams(c, d, pool.base[..])
      ensures InputOf(conns[i]) == conns[i].Units() && OutputOf(conns[i]) == conns[i].output.Text(pool)
    {
      ConnIsAt(conns[i]);
      OthersKept(conns, i, d, o, pool.base[..], pool.owner, id);
      StaysCovered(d, o, pool.base[..], pool.owner, id, conns);
    }
  }
}
