/** What the workers' protocol guarantees over whole runs. */
module Guarantees {
  import opened Sequences
  import opened DataFile
  import opened Binlog
  import opened Sequential
  import opened Workers
  import Octets

  // The states of runs: any number of workers, any schedule, crashes and dumps included.
  ghost predicate Reached(s: State) {
    exists n: nat, events: seq<Event> :: Run(Init(n), events) == Some(s)
  }

  lemma ReachedInv(s: State)
    requires Reached(s)
    ensures Inv(s)
  {
    var n: nat, events: seq<Event> :| Run(Init(n), events) == Some(s);
    InitInv(n);
    RunKeepsInv(Init(n), events);
  }

  lemma StoreIsSequential(s: State)
    requires Files(s)
    ensures ViewOf(s) == Fold(s.hist[..Shown(s)])
    ensures Shown(s) == |s.hist| ==> s.index == Replay(s.snap, s.log)
    ensures Shown(s) < |s.hist| ==> Replay(s.snap, s.log) == Apply(s.index, RecOf(s.hist[|s.hist| - 1]))
  {
    ViewIsFold(s);
    if Shown(s) == |s.hist| {
      assert s.hist[..Shown(s)] == s.hist;
    } else {
      var init, e := s.hist[..Shown(s)], s.hist[|s.hist| - 1];
      assert s.hist == init + [e];
      FoldAppend(init, e);
      assert LegitAt(s.hist, |s.hist| - 1) && Offered(s.hist, |s.hist| - 1, |s.data|);
      ExecOffsets(Fold(init), e);
    }
  }

  // After any schedule of any number of workers, crashes and dumps included, the store is
  // what executing the effects so far one at a time gives; only an effect whose binlog
  // append is done and whose index update is not may still be missing from the index.
  lemma EveryRunIsSequential(s: State)
    requires Reached(s)
    ensures Legit(s.hist) && ViewOf(s) == Fold(s.hist[..Shown(s)])
    ensures Shown(s) == |s.hist| ==> s.index == Replay(s.snap, s.log)
    ensures Shown(s) < |s.hist| ==> Replay(s.snap, s.log) == Apply(s.index, RecOf(s.hist[|s.hist| - 1]))
  {
    ReachedInv(s);
    StoreIsSequential(s);
  }

  // Every nonzero offset in the index or in the binlog names a complete record of the data file.
  lemma OffsetsNameRecords(s: State, k: string, r: Rec)
    requires Reached(s)
    ensures k in s.index ==> s.index[k] > 0 && ReadValue(s.data, s.index[k]).Some?
    ensures r in s.log && r.value > 0 ==> ReadValue(s.data, r.value).Some?
  {
    ReachedInv(s);
    Complete(s, k, r);
  }

  lemma Complete(s: State, k: string, r: Rec)
    requires Inv(s)
    ensures k in s.index ==> s.index[k] > 0 && ReadValue(s.data, s.index[k]).Some?
    ensures r in s.log && r.value > 0 ==> ReadValue(s.data, r.value).Some?
  {
    if k in s.index { EntryRecorded(s.hist, Shown(s), s.data, |s.data|, k); }
    if r in s.log { assert LoggedRec(r, s.data); }
  }

  lemma GoGrows(s: State, w: nat)
    requires w < |s.workers| && GoStep(s, w).Some?
    ensures var t := GoStep(s, w).value;
      s.data <= t.data && s.hist <= t.hist && |t.workers| == |s.workers|
  {
    if !s.workers[w].AppendData? && !s.workers[w].AppendLog? { GoKeepsFiles(s, w); }
  }

  lemma GoKeepsFiles(s: State, w: nat)
    requires w < |s.workers| && GoStep(s, w).Some? && !s.workers[w].AppendData? && !s.workers[w].AppendLog?
    ensures GoStep(s, w).value.data == s.data && GoStep(s, w).value.hist == s.hist
    ensures |GoStep(s, w).value.workers| == |s.workers|
  {
  }

  lemma StepGrows(s: State, ev: Event)
    requires Step(s, ev).Some?
    ensures var t := Step(s, ev).value;
      s.data <= t.data && s.hist <= t.hist && |t.workers| == |s.workers|
  {
    if ev.Go? { GoGrows(s, ev.w); }
  }

  lemma HolderShows(s: State, w: nat)
    requires s.mutex == Some(w) && w < |s.workers| && GoStep(s, w).Some? && HoldsMutex(s.workers[w])
    ensures Shown(s) <= Shown(GoStep(s, w).value)
  {
  }

  lemma GoShows(s: State, w: nat)
    requires Locks(s) && w < |s.workers| && GoStep(s, w).Some?
    ensures Shown(s) <= Shown(GoStep(s, w).value)
  {
    var pc := s.workers[w];
    if HoldsMutex(pc) {
      HolderShows(s, w);
    } else {
      GoKeepsFiles(s, w);
      var t := GoStep(s, w).value;
      assert pc.WantMutex? || t.mutex == s.mutex;
    }
  }

  lemma StepShows(s: State, ev: Event)
    requires Inv(s) && Step(s, ev).Some?
    ensures Shown(s) <= Shown(Step(s, ev).value)
  {
    if ev.Go? { GoShows(s, ev.w); }
  }

  // Files and history only grow: no record is ever rewritten and no effect taken back.
  lemma {:induction false} RunExtends(s: State, events: seq<Event>, t: State)
    requires Inv(s) && Run(s, events) == Some(t)
    ensures Inv(t) && s.data <= t.data && s.hist <= t.hist && Shown(s) <= Shown(t) && |t.workers| == |s.workers|
  {
    RunKeepsInv(s, events);
    if events != [] {
      var init, last := events[..|events| - 1], events[|events| - 1];
      var mid := Run(s, init).value;
      RunExtends(s, init, mid);
      StepGrows(mid, last);
      StepShows(mid, last);
    }
  }

  lemma NeverRewritten(s: State, events: seq<Event>, t: State, off: nat)
    requires Reached(s) && Run(s, events) == Some(t) && ReadValue(s.data, off).Some?
    ensures ReadValue(t.data, off) == ReadValue(s.data, off)
  {
    ReachedInv(s);
    RecordStays(s, events, t, off);
  }

  lemma RecordStays(s: State, events: seq<Event>, t: State, off: nat)
    requires Inv(s) && Run(s, events) == Some(t) && ReadValue(s.data, off).Some?
    ensures ReadValue(t.data, off) == ReadValue(s.data, off)
  {
    RunExtends(s, events, t);
    GrownKeeps(s.data, t.data, off);
  }

  lemma GrownKeeps(data: string, data': string, off: nat)
    requires data <= data' && ReadValue(data, off).Some?
    ensures ReadValue(data', off) == ReadValue(data, off)
  {
    assert data' == data + data'[|data|..];
    StableValue(data, data'[|data|..], off);
  }

  // get reads the data file without any lock, at any later time; what it returns is still
  // the value the key had when the index was looked up.
  lemma GetReturnsCurrent(s: State, w: nat, s1: State, events: seq<Event>, t: State)
    requires Reached(s) && w < |s.workers| && s.workers[w].Reading? && GoStep(s, w) == Some(s1)
    requires Run(s1, events) == Some(t) && w < |t.workers| && t.workers[w] == s1.workers[w]
    ensures var pc := s.workers[w];
      var k := pc.keys[0];
      var entry := if k in ViewOf(s) then [(k, ViewOf(s)[k])] else [];
      && GoStep(t, w).Some? && pc.keys != []
      && GoStep(t, w).value.workers[w] == if |pc.keys| > 1 then WantRead(pc.keys[1..], pc.got + entry)
                                          else Replying(Values(pc.got + entry))
  {
    ReachedInv(s);
    assert Local(s, s.workers[w]);
    var k := s.workers[w].keys[0];
    GoKeepsInv(s, w);
    Complete(s, k, Rec(k, 0));
    RunExtends(s1, events, t);
    if k in s.index { RecordStays(s1, events, t, s.index[k]); }
  }

  // less, greater and prefix answer from the keys stored when their traversal runs: each key
  // in the range asked for, and no other.
  lemma ListingIsCurrent(s: State, w: nat, k: string)
    requires Reached(s) && w < |s.workers| && s.workers[w].Scanning?
    ensures GoStep(s, w).Some?
    ensures var pc := GoStep(s, w).value.workers[w];
      pc.Replying? && pc.r.Listing? && (k in pc.r.keys <==> k in Fold(s.hist[..Shown(s)]) && InRange(s.workers[w].q, k))
  {
    ReachedInv(s);
    ViewIsFold(s);
    assert k in ViewOf(s) <==> k in s.index;
  }

  // A get that deletes an expired value waits for the mutex without holding any lock, and
  // comes back to its next key with what it had.
  lemma GetComesBack(s: State, w: nat)
    requires Reached(s) && w in s.back
    ensures w < |s.workers| && w !in s.readers && s.back[w].keys != []
    ensures s.workers[w].Replying? ==>
      var rest, got := s.back[w].keys[1..], s.back[w].got;
      && GoStep(s, w).Some?
      && GoStep(s, w).value.workers[w] == if rest != [] then WantRead(rest, got) else Replying(Values(got))
  {
    ReachedInv(s);
  }

  // A cas with a sign obtained from gets stores if and only if no effect on the key has
  // come after the state the sign was read in.
  lemma CasHasNoAba(s: State, k: string, events: seq<Event>, t: State, w: nat)
    requires Reached(s) && k in s.index && Run(s, events) == Some(t)
    requires w < |t.workers| && t.workers[w].Deciding? && t.workers[w].cmd.Cas?
    requires t.workers[w].cmd.key == k && t.workers[w].cmd.sign == s.index[k]
    ensures GoStep(t, w).value.workers[w].AppendData? <==> !TouchedSince(t.hist, Shown(s), k)
  {
    ReachedInv(s);
    RunExtends(s, events, t);
    var n := Shown(s);
    ViewIsFold(s);
    assert t.hist[..|s.hist|] == s.hist && t.hist[..n] == s.hist[..n];
    DecidesSequentially(t, w);
    NoAba(t.hist, n, |t.data|, k);
  }

  ghost predicate ShowsHistory(s: State) {
    Legit(s.hist) && ViewOf(s) == Fold(s.hist[..Shown(s)])
  }

  lemma RunShowsHistory(s: State, events: seq<Event>, t: State)
    requires Inv(s) && Run(s, events) == Some(t)
    ensures ShowsHistory(s) && ShowsHistory(t) && s.hist <= t.hist && Shown(s) <= Shown(t)
  {
    RunExtends(s, events, t);
    ViewIsFold(s);
    ViewIsFold(t);
  }

  lemma PrefixOfShown(s: State, t: State)
    requires s.hist <= t.hist && Shown(s) <= Shown(t)
    ensures t.hist[..Shown(t)][..Shown(s)] == s.hist[..Shown(s)]
  {
    assert t.hist[..|s.hist|] == s.hist;
  }

  // The counter k of m2 is that of m1 plus the deltas of the effects from position n on, and
  // has the flag and expiry it had.
  ghost predicate CountsUp(m1: View, m2: View, hist: seq<Effect>, n: nat, k: string)
    requires k in m1
  {
    && k in m2 && Counter(m2[k].value.body) == Wrap(Counter(m1[k].value.body) + Deltas(hist, n, k))
    && m2[k].value.flag == m1[k].value.flag && m2[k].value.expire == m1[k].value.expire
  }

  lemma CounterFold(hist: seq<Effect>, n: nat, k: string)
    requires n <= |hist| && Legit(hist) && k in Fold(hist[..n]) && OnlyCounted(hist, n, k)
    ensures CountsUp(Fold(hist[..n]), Fold(hist), hist, n, k)
  {
    CounterSum(hist, n, k);
  }

  lemma CounterBetween(s: State, t: State, k: string)
    requires ShowsHistory(s) && ShowsHistory(t) && s.hist <= t.hist && Shown(s) <= Shown(t)
    requires k in ViewOf(s) && OnlyCounted(t.hist[..Shown(t)], Shown(s), k)
    ensures CountsUp(ViewOf(s), ViewOf(t), t.hist[..Shown(t)], Shown(s), k)
  {
    PrefixOfShown(s, t);
    LegitPrefix(t.hist, Shown(t));
    CounterFold(t.hist[..Shown(t)], Shown(s), k);
  }

  // A counter that only incr and decr have touched holds its earlier value plus the sum of
  // the deltas of all effects in between, whatever the interleaving.
  lemma CounterAfterRun(s: State, k: string, events: seq<Event>, t: State)
    requires Reached(s) && k in s.index && Run(s, events) == Some(t)
    requires OnlyCounted(t.hist[..Shown(t)], Shown(s), k)
    ensures CountsUp(ViewOf(s), ViewOf(t), t.hist[..Shown(t)], Shown(s), k)
  {
    ReachedInv(s);
    RunShowsHistory(s, events, t);
    CounterBetween(s, t, k);
  }

  // A crash at any point, with any torn tail, loses no effect and invents none: the
  // restarted store shows them all, the one in flight included.
  lemma CrashLosesNothing(s: State, garbage: string, w: nat, cut: nat)
    requires Reached(s) && |s.data| < Octets.TWO_TO_THE_64
    ensures ViewOf(Restarted(s, garbage, w, cut)) == Fold(s.hist)
    ensures Restarted(s, garbage, w, cut).data == s.data + garbage
  {
    ReachedInv(s);
    var t := Restarted(s, garbage, w, cut);
    CrashKeepsInv(s, garbage, w, cut);
    ViewIsFold(t);
    assert t.hist[..Shown(t)] == s.hist;
  }

  // The two visible steps of a dump leave an empty log and a snapshot that restarts to the
  // same store.
  lemma DumpEmptiesLog(s: State, garbage: string, w: nat, cut: nat) returns (t: State)
    requires Reached(s) && AllIdle(s) && |s.data| < Octets.TWO_TO_THE_64
    ensures Run(s, [Rename, RemoveLog]) == Some(t)
    ensures t.log == [] && t.snap == t.index == s.index && ViewOf(t) == ViewOf(s)
    ensures ViewOf(Restarted(t, garbage, w, cut)) == ViewOf(s)
  {
    ReachedInv(s);
    var m := s.(snap := s.index);
    t := m.(log := []);
    assert [Rename, RemoveLog][..1] == [Rename] && [Rename][..0] == [];
    assert Step(s, Rename) == Some(m) && Run(s, [Rename]) == Some(m);
    assert AllIdle(m) && Step(m, RemoveLog) == Some(t);
    RunKeepsInv(s, [Rename, RemoveLog]);
    CrashKeepsInv(t, garbage, w, cut);
    var r := Restarted(t, garbage, w, cut);
    ViewIsFold(t);
    ViewIsFold(r);
    assert t.hist[..Shown(t)] == t.hist == r.hist[..Shown(r)];
  }

  // ---------- replies ----------

  // The reply decided on is the one the worker sends when it has let go of the mutex.
  ghost predicate SentNext(s: State, w: nat) {
    && w < |s.workers| && s.workers[w].Unlocking? && GoStep(s, w).Some?
    && GoStep(s, w).value.workers[w] == Replying(s.workers[w].r) && GoStep(s, w).value.mutex == None
  }

  // A command is refused only when the store at that moment calls for it, and then it has
  // changed nothing.  What is sent next is this very refusal.
  lemma RefusalsAreTrue(s: State, w: nat)
    requires Reached(s) && w < |s.workers| && s.workers[w].Deciding?
    requires GoStep(s, w).value.workers[w].Unlocking?
    ensures SentNext(GoStep(s, w).value, w)
    ensures var cmd, t := s.workers[w].cmd, GoStep(s, w).value;
      && t.data == s.data && t.log == s.log && t.index == s.index && t.hist == s.hist
      && match cmd
         case Cas(key, _, _, _, sign) => t.workers[w].r == Exists && Sign(Fold(s.hist), key) != sign
         case Delete(key) => t.workers[w].r == NotFound && key !in Fold(s.hist)
         case Incr(key, _) => t.workers[w].r == NotFound && key !in Fold(s.hist)
         case _ => false
  {
    ReachedInv(s);
    DecidesSequentially(s, w);
  }

  ghost predicate SameAt(before: View, after: View, k: string) {
    (k in before <==> k in after) && (k in before ==> after[k] == before[k])
  }

  // What the reply to a command that took effect says about the store before and after it;
  // no other key is touched.
  ghost predicate TrueReply(cmd: Cmd, r: Reply, before: View, after: View) {
    && (forall k :: k != cmd.key ==> SameAt(before, after, k))
    && match cmd
    case Set(key, flag, expire, body, now) =>
      r == Stored && key in after && after[key].value == Value(flag, if expire > 0 then expire + now else expire, body)
    case Cas(key, flag, expire, body, sign) =>
      r == Stored && Sign(before, key) == sign && key in after && after[key].value == Value(flag, expire, body)
    case Delete(key) => r == Deleted && key in before && key !in after
    case Incr(key, delta) =>
      key in before && key in after &&
      var v, v' := before[key].value, after[key].value;
      && Counter(v'.body) == Wrap(Counter(v.body) + delta) && v'.flag == v.flag && v'.expire == v.expire
      && v'.body == Show(Counter(v'.body)) && r == Number(v'.body)
    case Expire(key) => r == NoReply && key !in after
  }

  lemma EffectRepliesTrue(m: View, e: Effect)
    requires e.out == Decide(e.cmd, m) && !e.out.Refuse?
    ensures TrueReply(e.cmd, ReplyOf(e.cmd, e.out), m, Exec(m, e))
  {
    if e.cmd.Incr? {
      var v := m[e.cmd.key].value;
      WrapSum(Atoi(v.body), 0);
      BumpCounter(v, Bump(v, e.cmd.delta), e.cmd.delta, Counter(v.body), Counter(v.body) + e.cmd.delta);
    }
  }

  lemma GoView(s: State, w: nat, t: State)
    requires Inv(s) && w < |s.workers| && GoStep(s, w) == Some(t)
    ensures ViewOf(s) == Fold(s.hist[..Shown(s)]) && ViewOf(t) == Fold(t.hist[..Shown(t)])
    ensures Legit(s.hist)
  {
    GoKeepsInv(s, w);
    ViewIsFold(s);
    ViewIsFold(t);
  }

  lemma MutateShows(s: State, w: nat, t: State)
    requires Locks(s) && w < |s.workers| && s.workers[w].Mutating? && GoStep(s, w) == Some(t)
    requires Local(s, s.workers[w])
    ensures s.hist != [] && t.hist == s.hist && Shown(s) == |s.hist| - 1 && Shown(t) == |s.hist|
    ensures var e := s.workers[w].e;
      e == s.hist[|s.hist| - 1] && |t.workers| == |s.workers| && t.workers[w] == Unlocking(ReplyOf(e.cmd, e.out))
  {
  }

  lemma LastExec(hist: seq<Effect>)
    requires hist != [] && Legit(hist)
    ensures var n := |hist| - 1;
      && hist[n].out == Decide(hist[n].cmd, Fold(hist[..n])) && !hist[n].out.Refuse?
      && Fold(hist[..|hist|]) == Exec(Fold(hist[..n]), hist[n])
  {
    assert hist[..|hist|] == hist;
    assert LegitAt(hist, |hist| - 1);
  }

  // The reply to a command that took effect is true of the store readers see before and
  // after it: the value is there, the key is gone, the number is the sum.
  lemma RepliesAreTrue(s: State, w: nat, t: State)
    requires Reached(s) && w < |s.workers| && s.workers[w].Mutating? && GoStep(s, w) == Some(t)
    ensures |t.workers| == |s.workers| && t.workers[w].Unlocking? && SentNext(t, w)
    ensures TrueReply(s.workers[w].e.cmd, t.workers[w].r, ViewOf(s), ViewOf(t))
  {
    ReachedInv(s);
    assert Local(s, s.workers[w]);
    MutateShows(s, w, t);
    GoView(s, w, t);
    LastExec(s.hist);
    EffectRepliesTrue(ViewOf(s), s.workers[w].e);
  }

  // ---------- locking ----------

  // No index read overlaps an index update, be it a lookup, a traversal or a writer's own.
  lemma NoOverlap(s: State, w: nat, v: nat)
    requires Reached(s) && w < |s.workers| && v < |s.workers| && v != w && s.workers[w].Mutating?
    ensures !HoldsRead(s.workers[v]) && !s.workers[v].Deciding? && !s.workers[v].Mutating?
  {
    ReachedInv(s);
  }

  // While some command is unfinished, some unfinished command can go on; a get that waits
  // for the deletion of an expired value counts as unfinished.
  lemma NoDeadlock(s: State) returns (w: nat)
    requires Reached(s) && !AllIdle(s)
    ensures w < |s.workers| && !s.workers[w].Idle? && GoStep(s, w).Some?
  {
    ReachedInv(s);
    w := SomeoneGoes(s);
  }

  lemma SomeoneGoes(s: State) returns (w: nat)
    requires Inv(s) && !AllIdle(s)
    ensures w < |s.workers| && !s.workers[w].Idle? && GoStep(s, w).Some?
  {
    var v :| 0 <= v < |s.workers| && !s.workers[v].Idle?;
    if s.mutex.Some? {
      w := s.mutex.value;
      assert s.writer.Some? ==> s.workers[s.writer.value].Mutating?;
      if GoStep(s, w).None? {
        // the holder waits for the write lock, so some reader has the read lock
        w :| w in s.readers;
        assert Local(s, s.workers[w]);
      }
    } else {
      w := v;
      assert Local(s, s.workers[w]);
      forall u: nat | u < |s.workers| ensures !HoldsMutex(s.workers[u]) {}
    }
  }

  // An upper bound for the steps a worker still has to take where it is.
  function Rank(pc: Pc): nat {
    match pc
    case Idle => 0
    case Replying(_) => 1
    case Unlocking(_) => 2
    case Mutating(_) => 3
    case WantWrite(_) => 4
    case AppendLog(_) => 5
    case AppendData(_, _) => 6
    case Deciding(_) => 7
    case WantMutex(_) => 8
    case Scanning(_) => 2
    case WantScan(_) => 3
    case Fetching(keys, _, _) => 12 * |keys|
    case Reading(keys, _) => 12 * |keys| + 1
    case WantRead(keys, _) => 12 * |keys| + 2
  }

  // Together with what is left of the get it comes back to.
  function RankAt(s: State, w: nat): nat
    requires w < |s.workers|
  {
    Rank(s.workers[w]) + if w in s.back && s.back[w].keys != [] then 12 * |s.back[w].keys| - 9 else 0
  }

  function RanksFrom(s: State, w: nat): nat
    requires w <= |s.workers|
    decreases |s.workers| - w
  {
    if w == |s.workers| then 0 else RankAt(s, w) + RanksFrom(s, w + 1)
  }

  // Steps all workers together still have to take.
  function Ranks(s: State): nat {
    RanksFrom(s, 0)
  }

  ghost predicate OneMoves(s: State, t: State, w: nat) {
    && w < |s.workers| == |t.workers|
    && (forall v :: 0 <= v < |s.workers| && v != w ==> RankAt(t, v) == RankAt(s, v))
    && RankAt(t, w) < RankAt(s, w)
  }

  lemma {:induction false} RanksDrop(s: State, t: State, w: nat, i: nat)
    requires OneMoves(s, t, w) && i <= |s.workers|
    ensures if i <= w then RanksFrom(t, i) < RanksFrom(s, i) else RanksFrom(t, i) == RanksFrom(s, i)
    decreases |s.workers| - i
  {
    if i < |s.workers| { RanksDrop(s, t, w, i + 1); }
  }

  lemma GoLeavesWorkers(s: State, w: nat, v: nat)
    requires w < |s.workers| && v < |s.workers| && v != w && GoStep(s, w).Some?
    ensures |GoStep(s, w).value.workers| == |s.workers| && GoStep(s, w).value.workers[v] == s.workers[v]
  {
    var t := GoStep(s, w).value;
    assert t.workers == s.workers[w := t.workers[w]];
  }

  lemma GoLeavesBack(s: State, w: nat, v: nat)
    requires w < |s.workers| && v != w && GoStep(s, w).Some?
    ensures v in GoStep(s, w).value.back <==> v in s.back
    ensures v in s.back ==> GoStep(s, w).value.back[v] == s.back[v]
  {
    var t := GoStep(s, w).value;
    assert t.back == s.back || t.back == s.back - {w};
  }

  lemma GoLeavesOthers(s: State, w: nat, v: nat)
    requires w < |s.workers| && v < |s.workers| && v != w && GoStep(s, w).Some?
    ensures |GoStep(s, w).value.workers| == |s.workers| && RankAt(GoStep(s, w).value, v) == RankAt(s, v)
  {
    GoLeavesWorkers(s, w, v);
    GoLeavesBack(s, w, v);
  }

  lemma GetMoves(s: State, w: nat)
    requires w < |s.workers| && GoStep(s, w).Some? && Local(s, s.workers[w])
    requires var pc := s.workers[w];
      pc.WantRead? || pc.Reading? || pc.Fetching? || pc.WantScan? || pc.Scanning? || pc.Replying?
    ensures |GoStep(s, w).value.workers| == |s.workers| && RankAt(GoStep(s, w).value, w) < RankAt(s, w)
  {
  }

  lemma WriterMoves(s: State, w: nat)
    requires w < |s.workers| && GoStep(s, w).Some? && Local(s, s.workers[w])
    requires s.workers[w].WantMutex? || HoldsMutex(s.workers[w])
    ensures |GoStep(s, w).value.workers| == |s.workers| && RankAt(GoStep(s, w).value, w) < RankAt(s, w)
  {
  }

  lemma GoMoves(s: State, w: nat)
    requires Inv(s) && w < |s.workers| && GoStep(s, w).Some?
    ensures OneMoves(s, GoStep(s, w).value, w)
  {
    assert Local(s, s.workers[w]);
    if s.workers[w].WantMutex? || HoldsMutex(s.workers[w]) { WriterMoves(s, w); } else { GetMoves(s, w); }
    forall v | 0 <= v < |s.workers| && v != w ensures RankAt(GoStep(s, w).value, v) == RankAt(s, v) {
      GoLeavesOthers(s, w, v);
    }
  }

  lemma SkipMoves(s: State, w: nat)
    requires Inv(s) && Step(s, Skip(w)).Some?
    ensures OneMoves(s, Step(s, Skip(w)).value, w)
  {
    assert w !in s.back;
  }

  // Without new commands no schedule runs for ever; with NoDeadlock, every command that was
  // started is finished.
  lemma {:induction false} RunsEnd(s: State, events: seq<Event>)
    requires Reached(s) && Run(s, events).Some? && forall i :: 0 <= i < |events| ==> events[i].Go? || events[i].Skip?
    ensures |events| + Ranks(Run(s, events).value) <= Ranks(s)
  {
    ReachedInv(s);
    if events != [] {
      var init, last := events[..|events| - 1], events[|events| - 1];
      RunsEnd(s, init);
      RunKeepsInv(s, init);
      var mid := Run(s, init).value;
      if last.Go? { GoMoves(mid, last.w); } else { SkipMoves(mid, last.w); }
      RanksDrop(mid, Step(mid, last).value, last.w, 0);
    }
  }
}
