/** What a get that finds a value expired deletes: the entry it found, unless something has
    happened to the key since -- and then whatever the key holds by now. */
module ExpiryRace {
  import opened Sequences
  import opened DataFile
  import opened Binlog
  import opened Sequential
  import opened Workers
  import opened Guarantees

  // The deletion checks nothing, so what it removes is the entry the get found in state s
  // exactly if no effect on the key has come in between.
  lemma ExpireRemovesFound(s: State, k: string, events: seq<Event>, t: State, w: nat)
    requires Reached(s) && k in s.index && Run(s, events) == Some(t)
    requires w < |t.workers| && t.workers[w] == Deciding(Expire(k))
    ensures GoStep(t, w).Some?
    ensures GoStep(t, w).value.workers[w] == AppendLog(Effect(Expire(k), 0, Remove))
    ensures (k in ViewOf(t) && ViewOf(t)[k] == ViewOf(s)[k]) <==> !TouchedSince(t.hist, Shown(s), k)
  {
    ReachedInv(s);
    RunExtends(s, events, t);
    var n := Shown(s);
    ViewIsFold(s);
    assert t.hist[..|s.hist|] == s.hist && t.hist[..n] == s.hist[..n];
    DecidesSequentially(t, w);
    NoAba(t.hist, n, |t.data|, k);
    if !TouchedSince(t.hist, n, k) { UntouchedKeeps(t.hist, n, k); }
  }

  // ---------- a run in which the newer value goes ----------

  lemma RunMore(s: State, events: seq<Event>, m: State, ev: Event)
    requires Run(s, events) == Some(m)
    ensures Run(s, events + [ev]) == Step(m, ev)
  {
    assert (events + [ev])[..|events|] == events;
  }

  ghost predicate Ready(s: State, w: nat) {
    && w < |s.workers| && s.workers[w].Idle? && w !in s.back
    && s.mutex == None && s.writer == None && s.readers == {}
  }

  // The state after the first i steps of a set that stores v and that nobody interrupts.
  function Phase(s: State, w: nat, cmd: Cmd, v: Value, i: nat): State
    requires w < |s.workers|
  {
    var e := Effect(cmd, |s.data|, Store(v));
    var written := s.(data := s.data + EncodeValue(v), mutex := Some(w));
    var logged := written.(log := s.log + [RecOf(e)], hist := s.hist + [e]);
    var stored := logged.(index := Apply(s.index, RecOf(e)));
    if i == 0 then s
    else if i == 1 then To(s, w, WantMutex(cmd))
    else if i == 2 then To(s, w, Deciding(cmd)).(mutex := Some(w))
    else if i == 3 then To(s, w, AppendData(cmd, v)).(mutex := Some(w))
    else if i == 4 then To(written, w, AppendLog(e))
    else if i == 5 then To(logged, w, WantWrite(e))
    else if i == 6 then To(logged, w, Mutating(e)).(writer := Some(w))
    else if i == 7 then To(stored, w, Unlocking(Stored))
    else if i == 8 then To(stored, w, Replying(Stored)).(mutex := None)
    else stored.(mutex := None)
  }

  lemma PhaseStep(s: State, w: nat, cmd: Cmd, v: Value, i: nat)
    requires Ready(s, w) && i < 9
    requires cmd.Set? && Acceptable(cmd) && Decide(cmd, ViewOf(s)) == Store(v)
    ensures Step(Phase(s, w, cmd, v, i), if i == 0 then StartWrite(w, cmd) else Go(w))
            == Some(Phase(s, w, cmd, v, i + 1))
  {
    if i < 3 {
      Decides(s, w, cmd, v, i);
    } else if i < 6 {
      Writes(s, w, cmd, v, i);
    } else {
      Finishes(s, w, cmd, v, i);
    }
  }

  lemma Again(q: seq<Pc>, w: nat, a: Pc, b: Pc)
    requires w < |q|
    ensures q[w := a][w := b] == q[w := b]
  {
  }

  lemma Decides(s: State, w: nat, cmd: Cmd, v: Value, i: nat)
    requires Ready(s, w) && i < 3
    requires cmd.Set? && Acceptable(cmd) && Decide(cmd, ViewOf(s)) == Store(v)
    ensures Step(Phase(s, w, cmd, v, i), if i == 0 then StartWrite(w, cmd) else Go(w))
            == Some(Phase(s, w, cmd, v, i + 1))
  {
    Again(s.workers, w, WantMutex(cmd), Deciding(cmd));
    Again(s.workers, w, Deciding(cmd), AppendData(cmd, v));
    assert ViewOf(Phase(s, w, cmd, v, i)) == ViewOf(s);
  }

  lemma Writes(s: State, w: nat, cmd: Cmd, v: Value, i: nat)
    requires Ready(s, w) && 3 <= i < 6
    ensures Step(Phase(s, w, cmd, v, i), Go(w)) == Some(Phase(s, w, cmd, v, i + 1))
  {
    var e := Effect(cmd, |s.data|, Store(v));
    Again(s.workers, w, AppendData(cmd, v), AppendLog(e));
    Again(s.workers, w, AppendLog(e), WantWrite(e));
    Again(s.workers, w, WantWrite(e), Mutating(e));
  }

  lemma Finishes(s: State, w: nat, cmd: Cmd, v: Value, i: nat)
    requires Ready(s, w) && 6 <= i < 9 && cmd.Set?
    ensures Step(Phase(s, w, cmd, v, i), Go(w)) == Some(Phase(s, w, cmd, v, i + 1))
  {
    Again(s.workers, w, Mutating(Effect(cmd, |s.data|, Store(v))), Unlocking(Stored));
    Again(s.workers, w, Unlocking(Stored), Replying(Stored));
    Again(s.workers, w, Replying(Stored), Idle);
    assert s.workers[w := Idle] == s.workers;
  }

  lemma SetAlone(s0: State, before: seq<Event>, s: State, w: nat, cmd: Cmd, v: Value, i: nat)
    returns (events: seq<Event>)
    requires Run(s0, before) == Some(s) && Ready(s, w) && i <= 9
    requires cmd.Set? && Acceptable(cmd) && Decide(cmd, ViewOf(s)) == Store(v)
    ensures Run(s0, events) == Some(Phase(s, w, cmd, v, i))
  {
    if i == 0 {
      events := before;
    } else {
      events := SetAlone(s0, before, s, w, cmd, v, i - 1);
      PhaseStep(s, w, cmd, v, i - 1);
      var ev := if i == 1 then StartWrite(w, cmd) else Go(w);
      RunMore(s0, events, Phase(s, w, cmd, v, i - 1), ev);
      events := events + [ev];
    }
  }

  const KEY: string := "k"

  // A get of the key looks its value up and is about to read the file.
  lemma LooksUp(s0: State, before: seq<Event>, s: State) returns (events: seq<Event>)
    requires Run(s0, before) == Some(s) && Ready(s, 0) && KEY in s.index
    ensures Run(s0, events) == Some(To(s, 0, Fetching([KEY], [], s.index[KEY])))
  {
    var a, b := To(s, 0, WantRead([KEY], [])), To(s, 0, Reading([KEY], [])).(readers := {0});
    var c := To(s, 0, Fetching([KEY], [], s.index[KEY]));
    RunMore(s0, before, s, StartGet(0, [KEY]));
    events := before + [StartGet(0, [KEY])];
    assert a.workers[0 := b.workers[0]] == b.workers && {} + {0} == {0};
    assert Step(a, Go(0)) == Some(b);
    RunMore(s0, events, a, Go(0));
    events := events + [Go(0)];
    assert b.workers[0 := c.workers[0]] == c.workers && {0} - {0} == {};
    assert Step(b, Go(0)) == Some(c);
    RunMore(s0, events, b, Go(0));
    events := events + [Go(0)];
  }

  // The value it looked up has expired, so it turns to the deletion and takes the mutex.
  lemma TurnsToDelete(s0: State, before: seq<Event>, s: State, off: nat) returns (events: seq<Event>, t: State)
    requires Run(s0, before) == Some(s) && s.mutex == None
    requires |s.workers| > 0 && s.workers[0] == Fetching([KEY], [], off)
    requires off > 0 && ValueAt(s.data, off).expire > 0
    ensures Run(s0, events) == Some(t) && t.data == s.data && t.index == s.index
    ensures |t.workers| == |s.workers| && t.workers[0] == Deciding(Expire(KEY))
  {
    var a := To(s, 0, WantMutex(Expire(KEY))).(back := s.back[0 := Resume([KEY], [])]);
    RunMore(s0, before, s, Skip(0));
    events := before + [Skip(0)];
    RunMore(s0, events, a, Go(0));
    events := events + [Go(0)];
    t := To(a, 0, Deciding(Expire(KEY))).(mutex := Some(0));
  }

  // What the two sets leave: both values in the data file, the newer one in the index.
  lemma BothStored(data: string, stale: Value, newer: Value)
    requires Fits(stale) && Fits(newer)
    ensures ValueAt(data + EncodeValue(stale) + EncodeValue(newer), |data|) == stale
    ensures ValueAt(data + EncodeValue(stale) + EncodeValue(newer), |data + EncodeValue(stale)|) == newer
  {
    AppendedValue(data, stale);
    StableValue(data + EncodeValue(stale), EncodeValue(newer), |data|);
    AppendedValue(data + EncodeValue(stale), newer);
  }

  const STALE: Value := Value(0, 2, "a")
  const NEWER: Value := Value(0, 0, "b")

  // One worker sets the stale value and finds it again; then another one sets the newer one.
  lemma FoundThenReplaced() returns (events: seq<Event>, t: State)
    ensures Run(Init(2), events) == Some(t) && t.mutex == None
    ensures |t.workers| == 2 && t.workers[0] == Fetching([KEY], [], |MAGIC|)
    ensures t.data == "[2012]" + EncodeValue(STALE) + EncodeValue(NEWER)
    ensures t.index == map[KEY := |MAGIC + EncodeValue(STALE)|]
  {
    var s0, first, second := Init(2), Set(KEY, 0, 1, "a", 1), Set(KEY, 0, 0, "b", 0);
    events := SetAlone(s0, [], s0, 0, first, STALE, 9);
    var s1 := Phase(s0, 0, first, STALE, 9);
    events := LooksUp(s0, events, s1);
    var s2 := To(s1, 0, Fetching([KEY], [], |MAGIC|));
    events := SetAlone(s0, events, s2, 1, second, NEWER, 9);
    t := Phase(s2, 1, second, NEWER, 9);
  }

  // In this run the value the get found has expired, a new one that never expires is set
  // before the deletion, and the deletion is about to remove it.
  lemma NewerValueGoes() returns (events: seq<Event>, t: State)
    ensures Run(Init(2), events) == Some(t) && |t.workers| == 2
    ensures t.workers[0] == Deciding(Expire(KEY))
    ensures KEY in ViewOf(t) && ViewOf(t)[KEY].value == NEWER && NEWER.expire == 0
    ensures GoStep(t, 0).Some? && GoStep(t, 0).value.workers[0] == AppendLog(Effect(Expire(KEY), 0, Remove))
  {
    var s;
    events, s := FoundThenReplaced();
    BothStored(MAGIC, STALE, NEWER);
    events, t := TurnsToDelete(Init(2), events, s, |MAGIC|);
  }
}
