/** What the commands mean when they are executed one at a time: the specification that the
    concurrent workers are proved against. */
module Sequential {
  import opened Sequences
  import opened DataFile
  import opened Binlog

  datatype Cmd =
    | Set(key: string, flag: int, expire: int, body: string, now: nat)
    | Cas(key: string, flag: int, expire: int, body: string, sign: nat)
    | Delete(key: string)
    | Incr(key: string, delta: int)      // decr adds the negated delta
    | Expire(key: string)                // delete_expire_value

  // A stored value with the offset it was given, which gets reports as its sign.
  datatype Entry = Entry(off: nat, value: Value)

  type View = map<string, Entry>

  datatype Outcome = Refuse | Store(v: Value) | Remove

  function Sign(m: View, key: string): nat {
    if key in m then m[key].off else 0
  }

  function Bump(v: Value, delta: int): Value {
    v.(body := Show(Wrap(Counter(v.body) + delta)))
  }

  // What a command does to the store it finds.
  function Decide(cmd: Cmd, m: View): Outcome {
    match cmd
    case Set(_, flag, expire, body, now) => Store(Value(flag, if expire > 0 then expire + now else expire, body))
    case Cas(key, flag, expire, body, sign) =>
      if Sign(m, key) == sign then Store(Value(flag, expire, body)) else Refuse
    case Delete(key) => if key in m then Remove else Refuse
    case Incr(key, delta) => if key in m then Store(Bump(m[key].value, delta)) else Refuse
    case Expire(_) => Remove
  }

  // A command that took effect: what it did and the offset its value was given.
  datatype Effect = Effect(cmd: Cmd, off: nat, out: Outcome)

  function Exec(m: View, e: Effect): View {
    match e.out
    case Refuse => m
    case Store(v) => m[e.cmd.key := Entry(e.off, v)]
    case Remove => m - {e.cmd.key}
  }

  function Fold(hist: seq<Effect>): View {
    if hist == [] then map[] else Exec(Fold(hist[..|hist| - 1]), hist[|hist| - 1])
  }

  lemma FoldAppend(hist: seq<Effect>, e: Effect)
    ensures Fold(hist + [e]) == Exec(Fold(hist), e)
  {
    assert (hist + [e])[..|hist|] == hist;
  }

  // hist is what executing its commands one after the other does.
  ghost predicate Legit(hist: seq<Effect>) {
    forall i: nat :: i < |hist| ==> LegitAt(hist, i)
  }

  ghost predicate LegitAt(hist: seq<Effect>, i: nat)
    requires i < |hist|
  {
    hist[i].out == Decide(hist[i].cmd, Fold(hist[..i])) && !hist[i].out.Refuse?
  }

  lemma LegitAppend(hist: seq<Effect>, e: Effect)
    requires Legit(hist) && e.out == Decide(e.cmd, Fold(hist)) && !e.out.Refuse?
    ensures Legit(hist + [e])
  {
    var more := hist + [e];
    forall i: nat | i < |more| ensures LegitAt(more, i) {
      assert more[..i] == hist[..i];
      if i < |hist| { assert LegitAt(hist, i); } else { assert hist[..i] == hist; }
    }
  }

  lemma LegitPrefix(hist: seq<Effect>, n: nat)
    requires Legit(hist) && n <= |hist|
    ensures Legit(hist[..n])
  {
    forall i: nat | i < n ensures LegitAt(hist[..n], i) {
      assert LegitAt(hist, i) && hist[..n][..i] == hist[..i];
    }
  }

  // Offsets are handed out in strictly increasing order, and only to stored values.
  ghost predicate Rising(hist: seq<Effect>, bound: nat) {
    && (forall i: nat :: i < |hist| ==> Offered(hist, i, bound))
    && (forall i: nat, j: nat :: i < j < |hist| ==> Rises(hist, i, j))
  }

  ghost predicate Offered(hist: seq<Effect>, i: nat, bound: nat)
    requires i < |hist|
  {
    (hist[i].out.Store? <==> hist[i].off > 0) && (hist[i].off > 0 ==> hist[i].off < bound)
  }

  ghost predicate Rises(hist: seq<Effect>, i: nat, j: nat)
    requires i < j < |hist|
  {
    hist[i].off > 0 && hist[j].off > 0 ==> hist[i].off < hist[j].off
  }

  lemma RisingAppend(hist: seq<Effect>, bound: nat, e: Effect)
    requires Rising(hist, bound) && (e.out.Store? <==> e.off > 0) && e.off < bound
    requires e.off > 0 ==> forall i :: 0 <= i < |hist| ==> hist[i].off < e.off
    ensures Rising(hist + [e], bound)
  {
    var more := hist + [e];
    forall i: nat | i < |more| ensures Offered(more, i, bound) {
      if i < |hist| { assert Offered(hist, i, bound); }
    }
    forall i: nat, j: nat | i < j < |more| ensures Rises(more, i, j) {
      if j < |hist| { assert Rises(hist, i, j); }
    }
  }

  lemma RisingWiden(hist: seq<Effect>, bound: nat, bound': nat)
    requires Rising(hist, bound) && bound <= bound'
    ensures Rising(hist, bound')
    ensures forall i :: 0 <= i < |hist| ==> hist[i].off < bound || hist[i].off == 0
  {
    forall i: nat | i < |hist| ensures Offered(hist, i, bound') { assert Offered(hist, i, bound); }
    forall i | 0 <= i < |hist| ensures hist[i].off < bound || hist[i].off == 0 { assert Offered(hist, i, bound); }
  }

  // The binlog record of an effect.
  function RecOf(e: Effect): Rec {
    Rec(e.cmd.key, e.off)
  }

  function Offsets(m: View): map<string, nat> {
    map k | k in m :: m[k].off
  }

  // Applying an effect's binlog record to the index is what executing it does to offsets.
  lemma ExecOffsets(m: View, e: Effect)
    requires !e.out.Refuse? && (e.out.Store? <==> e.off > 0)
    ensures Offsets(Exec(m, e)) == Apply(Offsets(m), RecOf(e))
  {
  }

  // Some effect from position n on is about key k.
  ghost predicate TouchedSince(hist: seq<Effect>, n: nat, k: string) {
    exists i :: n <= i < |hist| && hist[i].cmd.key == k
  }

  // A key that later effects do not touch keeps its entry, offset included.
  lemma {:induction false} UntouchedKeeps(hist: seq<Effect>, n: nat, k: string)
    requires n <= |hist| && !TouchedSince(hist, n, k)
    ensures k in Fold(hist) <==> k in Fold(hist[..n])
    ensures k in Fold(hist) ==> Fold(hist)[k] == Fold(hist[..n])[k]
  {
    if n == |hist| {
      assert hist[..n] == hist;
    } else {
      var init := hist[..|hist| - 1];
      UntouchedKeeps(init, n, k);
      assert init[..n] == hist[..n];
    }
  }

  // Where the current entry of a key comes from: the last effect on that key.
  lemma {:induction false} EntryOrigin(hist: seq<Effect>, k: string) returns (i: nat)
    requires k in Fold(hist)
    ensures i < |hist| && hist[i].cmd.key == k && hist[i].out == Store(Fold(hist)[k].value)
    ensures hist[i].off == Fold(hist)[k].off
    ensures forall j :: i < j < |hist| && hist[j].cmd.key == k ==> hist[j].out.Refuse?
  {
    var init, last := hist[..|hist| - 1], hist[|hist| - 1];
    if last.cmd.key == k && !last.out.Refuse? {
      i := |hist| - 1;
    } else {
      i := EntryOrigin(init, k);
      forall j | i < j < |hist| && hist[j].cmd.key == k ensures hist[j].out.Refuse? {
        assert j < |init| ==> init[j] == hist[j];
      }
    }
  }

  // Compare-and-swap has no ABA problem.  A sign seen after n effects is the key's sign
  // again after all of hist exactly if nothing has touched the key since: deleting the key
  // and setting it again to the same value does not bring the sign back.
  lemma NoAba(hist: seq<Effect>, n: nat, bound: nat, k: string)
    requires n <= |hist| && Rising(hist, bound) && Legit(hist)
    requires k in Fold(hist[..n])
    ensures Sign(Fold(hist[..n]), k) > 0
    ensures Sign(Fold(hist), k) == Sign(Fold(hist[..n]), k) <==> !TouchedSince(hist, n, k)
  {
    var was := hist[..n];
    var i := EntryOrigin(was, k);
    assert was[i] == hist[i] && Offered(hist, i, bound);
    if !TouchedSince(hist, n, k) {
      UntouchedKeeps(hist, n, k);
    } else if k in Fold(hist) {
      var t :| n <= t < |hist| && hist[t].cmd.key == k;
      var j := EntryOrigin(hist, k);
      assert LegitAt(hist, t) && Offered(hist, j, bound);
      assert i < t <= j && Rises(hist, i, j);
    }
  }

  // ---------- counters ----------

  // Sum of the deltas of the increments of k from position n on.
  function Deltas(hist: seq<Effect>, n: nat, k: string): int {
    if |hist| <= n then 0
    else
      var e := hist[|hist| - 1];
      Deltas(hist[..|hist| - 1], n, k) + if e.cmd.Incr? && e.cmd.key == k then e.cmd.delta else 0
  }

  ghost predicate OnlyCounted(hist: seq<Effect>, n: nat, k: string) {
    forall i :: n <= i < |hist| && hist[i].cmd.key == k ==> hist[i].cmd.Incr?
  }

  lemma LegitInit(hist: seq<Effect>)
    requires Legit(hist) && hist != []
    ensures Legit(hist[..|hist| - 1])
    ensures hist[|hist| - 1].out == Decide(hist[|hist| - 1].cmd, Fold(hist[..|hist| - 1]))
  {
    var init := hist[..|hist| - 1];
    forall i: nat | i < |init| ensures LegitAt(init, i) {
      assert init[..i] == hist[..i] && LegitAt(hist, i);
    }
    assert LegitAt(hist, |init|);
  }

  // Nothing but the body differs.
  predicate SameMeta(v: Value, v': Value) {
    v'.flag == v.flag && v'.expire == v.expire
  }

  lemma BumpCounter(v: Value, v': Value, delta: int, sum: int, sum': int)
    requires v' == Bump(v, delta) && Counter(v.body) == Wrap(sum) && sum' == sum + delta
    ensures Counter(v'.body) == Wrap(sum') && SameMeta(v, v')
  {
    AtoiShow(Wrap(Counter(v.body) + delta));
    WrapSum(sum, delta);
    WrapSum(sum + delta, 0);
  }

  // The last effect on a counted key adds its delta to it.
  lemma CounterStep(hist: seq<Effect>, n: nat, k: string)
    requires n < |hist| && Legit(hist) && OnlyCounted(hist, n, k) && k in Fold(hist[..|hist| - 1])
    ensures var init, last := hist[..|hist| - 1], hist[|hist| - 1];
      && Legit(init) && OnlyCounted(init, n, k) && init[..n] == hist[..n] && k in Fold(hist)
      && if last.cmd.key == k
         then last.cmd.Incr? && Fold(hist)[k].value == Bump(Fold(init)[k].value, last.cmd.delta) &&
              Deltas(hist, n, k) == Deltas(init, n, k) + last.cmd.delta
         else Fold(hist)[k] == Fold(init)[k] && Deltas(hist, n, k) == Deltas(init, n, k)
  {
    LegitInit(hist);
  }

  // A counter changed only by incr and decr holds its start plus the signed sum of deltas,
  // as an int; none of the concurrent increments is lost, and flag and expiry stay.
  lemma {:induction false} CounterSum(hist: seq<Effect>, n: nat, k: string)
    requires n <= |hist| && Legit(hist) && k in Fold(hist[..n]) && OnlyCounted(hist, n, k)
    ensures k in Fold(hist)
    ensures Counter(Fold(hist)[k].value.body) == Wrap(Counter(Fold(hist[..n])[k].value.body) + Deltas(hist, n, k))
    ensures SameMeta(Fold(hist[..n])[k].value, Fold(hist)[k].value)
  {
    var start := Counter(Fold(hist[..n])[k].value.body);
    if n == |hist| {
      assert hist[..n] == hist;
      WrapSum(Atoi(Fold(hist)[k].value.body), 0);
    } else {
      var init, last := hist[..|hist| - 1], hist[|hist| - 1];
      assert init[..n] == hist[..n];
      LegitInit(hist);
      CounterSum(init, n, k);
      CounterStep(hist, n, k);
      if last.cmd.key == k {
        BumpCounter(Fold(init)[k].value, Fold(hist)[k].value, last.cmd.delta,
                    start + Deltas(init, n, k), start + Deltas(hist, n, k));
      }
    }
  }
}
