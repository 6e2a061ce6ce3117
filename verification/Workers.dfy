/** The worker threads: commands as sequences of steps that lock, append to the data file
    and the binlog, and change the index, interleaved in any order and cut short by crashes. */
module Workers {
  import opened Sequences
  import opened Octets
  import opened TernaryTree
  import opened Lexicographic
  import opened DataFile
  import opened Binlog
  import opened Sequential

  // ---------- state ----------

  // What less, greater and prefix ask for.
  datatype Query = Less(key: string) | Greater(key: string) | Prefix(key: string)

  predicate InRange(q: Query, k: string) {
    match q
    case Less(key) => AtMost(k, key)
    case Greater(key) => AtMost(key, k)
    case Prefix(key) => HasPrefix(k, key)
  }

  datatype Reply =
    | Stored | Exists | Deleted | NotFound
    | Number(text: string)
    | Values(got: seq<(string, Entry)>)
    | Listing(keys: set<string>)     // the stored keys asked for; order and limit are KeyScan's
    | NoReply

  datatype Pc =
    | Idle
    | WantRead(keys: seq<string>, got: seq<(string, Entry)>)             // get: before the read lock
    | Reading(keys: seq<string>, got: seq<(string, Entry)>)              // holding it, in tst_get
    | Fetching(keys: seq<string>, got: seq<(string, Entry)>, off: nat)   // lock released, before the file is read
    | WantScan(q: Query)                   // less, greater, prefix: before the read lock
    | Scanning(q: Query)                   // holding it, in the traversal
    | WantMutex(cmd: Cmd)                  // a writer before the mutex
    | Deciding(cmd: Cmd)                   // holding it, in tst_get
    | AppendData(cmd: Cmd, v: Value)       // before the data file is appended to
    | AppendLog(e: Effect)                 // before the binlog is appended to
    | WantWrite(e: Effect)                 // before the write lock
    | Mutating(e: Effect)                  // holding both locks, in tst_put or tst_delete
    | Unlocking(r: Reply)                  // before the mutex is released
    | Replying(r: Reply)

  // A get that is waiting for the deletion of an expired value: the keys still to be looked
  // up, the expired one first, and what it has found so far.
  datatype Resume = Resume(keys: seq<string>, got: seq<(string, Entry)>)

  datatype State = State(
    data: string,                  // the data file
    log: seq<Rec>,                 // the binlog
    snap: map<string, nat>,        // the index file
    index: map<string, nat>,       // the index in memory
    mutex: Option<nat>,
    writer: Option<nat>,           // the write side of the readers-writer lock
    readers: set<nat>,             // its read side
    workers: seq<Pc>,
    back: map<nat, Resume>,        // the gets inside delete_expire_value, by worker
    hist: seq<Effect>)             // every binlog append ever made; only the proof looks at it

  datatype Event =
    | StartGet(w: nat, keys: seq<string>)
    | StartScan(w: nat, q: Query)
    | StartWrite(w: nat, cmd: Cmd)
    | Go(w: nat)                             // the next step of worker w
    | Skip(w: nat)                           // get finds that a value's time is up
    | Crash(garbage: string, w: nat, cut: nat)
    | Rename                                 // the two visible steps of dump_tst
    | RemoveLog

  const MAGIC: string := "[2012]"

  function Init(workers: nat): State {
    State(MAGIC, [], map[], map[], None, None, {}, seq(workers, _ => Idle), map[], [])
  }

  // ---------- steps ----------

  function ValueAt(file: string, off: nat): Value {
    match ReadValue(file, off) case Some(v) => v case None => Value(0, 0, "")
  }

  // The store as the index in memory and the data file present it.
  function ViewOf(s: State): View {
    map k | k in s.index :: Entry(s.index[k], ValueAt(s.data, s.index[k]))
  }

  function IndexGet(s: State, key: string): nat {
    if key in s.index then s.index[key] else 0
  }

  function To(s: State, w: nat, pc: Pc): State
    requires w < |s.workers|
  {
    s.(workers := s.workers[w := pc])
  }

  function ReplyOf(cmd: Cmd, out: Outcome): Reply {
    match cmd
    case Set(_, _, _, _, _) => Stored
    case Cas(_, _, _, _, _) => if out.Refuse? then Exists else Stored
    case Delete(_) => if out.Refuse? then NotFound else Deleted
    case Incr(_, _) => if out.Store? then Number(out.v.body) else NotFound
    case Expire(_) => NoReply
  }

  // After the key at hand: the next key, or the reply.
  function AfterKey(keys: seq<string>, got: seq<(string, Entry)>): Pc
    requires keys != []
  {
    if |keys| > 1 then WantRead(keys[1..], got) else Replying(Values(got))
  }

  // One step of worker w, if it is not waiting for a lock.
  function GoStep(s: State, w: nat): Option<State>
    requires w < |s.workers|
  {
    match s.workers[w]
    case Idle => None
    case WantRead(keys, got) =>
      if s.writer.Some? then None
      else Some(To(s, w, Reading(keys, got)).(readers := s.readers + {w}))
    case Reading(keys, got) =>
      if keys == [] then None
      else Some(To(s, w, Fetching(keys, got, IndexGet(s, keys[0]))).(readers := s.readers - {w}))
    case Fetching(keys, got, off) =>
      if keys == [] then None
      else
        var more := if off > 0 then [(keys[0], Entry(off, ValueAt(s.data, off)))] else [];
        Some(To(s, w, AfterKey(keys, got + more)))
    case WantScan(q) =>
      if s.writer.Some? then None
      else Some(To(s, w, Scanning(q)).(readers := s.readers + {w}))
    case Scanning(q) =>
      Some(To(s, w, Replying(Listing(set k | k in s.index && InRange(q, k)))).(readers := s.readers - {w}))
    case WantMutex(cmd) =>
      if s.mutex.Some? then None else Some(To(s, w, Deciding(cmd)).(mutex := Some(w)))
    case Deciding(cmd) =>
      var out := Decide(cmd, ViewOf(s));
      Some(To(s, w, match out
                    case Refuse => Unlocking(ReplyOf(cmd, out))
                    case Store(v) => AppendData(cmd, v)
                    case Remove => AppendLog(Effect(cmd, 0, out))))
    case AppendData(cmd, v) =>
      Some(To(s, w, AppendLog(Effect(cmd, |s.data|, Store(v)))).(data := s.data + EncodeValue(v)))
    case AppendLog(e) =>
      Some(To(s, w, WantWrite(e)).(log := s.log + [RecOf(e)], hist := s.hist + [e]))
    case WantWrite(e) =>
      if s.writer.Some? || s.readers != {} then None
      else Some(To(s, w, Mutating(e)).(writer := Some(w)))
    case Mutating(e) =>
      Some(To(s, w, Unlocking(ReplyOf(e.cmd, e.out))).(index := Apply(s.index, RecOf(e)), writer := None))
    case Unlocking(r) => Some(To(s, w, Replying(r)).(mutex := None))
    case Replying(r) =>
      if w in s.back && s.back[w].keys != []
      then Some(To(s, w, AfterKey(s.back[w].keys, s.back[w].got)).(back := s.back - {w}))
      else Some(To(s, w, Idle))
  }

  predicate AllIdle(s: State) {
    forall w :: 0 <= w < |s.workers| ==> s.workers[w].Idle?
  }

  // The binlog file at a crash: what was flushed, and a piece of a record being written.
  function TornLog(s: State, w: nat, cut: nat): string {
    if w < |s.workers| && s.workers[w].AppendLog? && cut < |Encode(RecOf(s.workers[w].e))|
    then EncodeAll(s.log) + Encode(RecOf(s.workers[w].e))[..cut]
    else EncodeAll(s.log)
  }

  // A crash forgets memory; restarting replays what it finds of the binlog on the snapshot.
  function Restarted(s: State, garbage: string, w: nat, cut: nat): State {
    var log := Scan(TornLog(s, w, cut));
    State(s.data + garbage, log, s.snap, Replay(s.snap, log), None, None, {},
          seq(|s.workers|, _ => Idle), map[], s.hist)
  }

  predicate KeyOk(key: string) {
    0 < |key| < MAX_KEY_SIZE && CString(key)
  }

  ghost predicate Acceptable(cmd: Cmd) {
    && KeyOk(cmd.key)
    && match cmd
       case Set(_, flag, expire, body, now) => Fits(Value(flag, if expire > 0 then expire + now else expire, body))
       case Cas(_, flag, expire, body, _) => Fits(Value(flag, expire, body))
       case _ => true
  }

  ghost function Step(s: State, ev: Event): Option<State> {
    match ev
    case StartGet(w, keys) =>
      if w < |s.workers| && s.workers[w].Idle? && keys != [] then Some(To(s, w, WantRead(keys, []))) else None
    case StartScan(w, q) =>
      if w < |s.workers| && s.workers[w].Idle? then Some(To(s, w, WantScan(q))) else None
    case StartWrite(w, cmd) =>
      if w < |s.workers| && s.workers[w].Idle? && Acceptable(cmd) && !cmd.Expire?
      then Some(To(s, w, WantMutex(cmd))) else None
    case Go(w) => if w < |s.workers| then GoStep(s, w) else None
    case Skip(w) =>
      if w < |s.workers| && s.workers[w].Fetching? && s.workers[w].keys != [] then
        var pc := s.workers[w];
        if pc.off > 0 && ValueAt(s.data, pc.off).expire > 0
        then Some(To(s, w, WantMutex(Expire(pc.keys[0]))).(back := s.back[w := Resume(pc.keys, pc.got)]))
        else None
      else None
    case Crash(garbage, w, cut) =>
      if |s.data| < TWO_TO_THE_64 then Some(Restarted(s, garbage, w, cut)) else None
    case Rename => if AllIdle(s) then Some(s.(snap := s.index)) else None
    case RemoveLog => if AllIdle(s) && s.snap == s.index then Some(s.(log := [])) else None
  }

  // The state after a schedule, if each of its events is possible in turn.
  ghost function Run(s: State, events: seq<Event>): Option<State> {
    if events == [] then Some(s)
    else
      match Run(s, events[..|events| - 1])
      case None => None
      case Some(t) => Step(t, events[|events| - 1])
  }

  // ---------- what every step keeps ----------

  predicate HoldsMutex(pc: Pc) {
    pc.Deciding? || pc.AppendData? || pc.AppendLog? || pc.WantWrite? || pc.Mutating? || pc.Unlocking?
  }

  predicate HoldsRead(pc: Pc) {
    pc.Reading? || pc.Scanning?
  }

  // Inside delete_expire_value, or on the way back from it.
  predicate Expiring(pc: Pc) {
    match pc
    case WantMutex(cmd) => cmd.Expire?
    case Deciding(cmd) => cmd.Expire?
    case AppendLog(e) => e.cmd.Expire?
    case WantWrite(e) => e.cmd.Expire?
    case Mutating(e) => e.cmd.Expire?
    case Unlocking(r) => r == NoReply
    case Replying(r) => r == NoReply
    case _ => false
  }

  // Only a worker that is deleting an expired value has a get to come back to.
  ghost predicate Backs(s: State) {
    forall w :: w in s.back ==> w < |s.workers| && s.back[w].keys != [] && Expiring(s.workers[w])
  }

  // Between its binlog append and its index update.
  predicate InFlight(pc: Pc) {
    pc.WantWrite? || pc.Mutating?
  }

  ghost predicate Locks(s: State) {
    && (forall w: nat :: w < |s.workers| ==> (HoldsMutex(s.workers[w]) <==> s.mutex == Some(w)))
    && (forall w: nat :: w < |s.workers| ==> (s.workers[w].Mutating? <==> s.writer == Some(w)))
    && (forall w: nat :: w in s.readers <==> w < |s.workers| && HoldsRead(s.workers[w]))
    && (s.writer.Some? ==> s.readers == {} && s.writer.value < |s.workers|)
    && (s.mutex.Some? ==> s.mutex.value < |s.workers|)
  }

  // How many effects the index in memory shows: all but one in flight.
  function Shown(s: State): nat {
    if s.hist != [] && s.mutex.Some? && s.mutex.value < |s.workers| && InFlight(s.workers[s.mutex.value])
    then |s.hist| - 1 else |s.hist|
  }

  // Every stored value of the history is a complete record of the data file.
  ghost predicate Recorded(hist: seq<Effect>, data: string) {
    forall i: nat :: i < |hist| ==> RecordedAt(hist, i, data)
  }

  ghost predicate RecordedAt(hist: seq<Effect>, i: nat, data: string)
    requires i < |hist|
  {
    && KeyOk(hist[i].cmd.key)
    && (hist[i].out.Store? ==> Fits(hist[i].out.v) && ReadValue(data, hist[i].off) == Some(hist[i].out.v))
  }

  // So is every nonzero offset of the binlog.
  ghost predicate Logged(log: seq<Rec>, data: string) {
    forall r :: r in log ==> LoggedRec(r, data)
  }

  ghost predicate LoggedRec(r: Rec, data: string) {
    && KeyOk(r.key) && r.value < |data|
    && (r.value > 0 ==> ReadValue(data, r.value).Some?)
  }

  ghost predicate Files(s: State) {
    && |s.data| >= |MAGIC|
    && Legit(s.hist) && Rising(s.hist, |s.data|) && Recorded(s.hist, s.data)
    && Logged(s.log, s.data)
    && Replay(s.snap, s.log) == Offsets(Fold(s.hist))
    && s.index == Offsets(Fold(s.hist[..Shown(s)]))
  }

  ghost predicate Coming(s: State, e: Effect) {
    && Acceptable(e.cmd) && e.out == Decide(e.cmd, Fold(s.hist)) && !e.out.Refuse?
    && (e.out.Store? <==> e.off > 0) && e.off < |s.data|
    && (e.off > 0 ==> forall i :: 0 <= i < |s.hist| ==> s.hist[i].off < e.off)
    && (e.out.Store? ==> Fits(e.out.v) && ReadValue(s.data, e.off) == Some(e.out.v))
  }

  // What a worker may rely on at each of its steps.
  ghost predicate Local(s: State, pc: Pc) {
    match pc
    case WantRead(keys, _) => keys != []
    case Reading(keys, _) => keys != []
    case Fetching(keys, _, off) => keys != [] && (off > 0 ==> ReadValue(s.data, off).Some? && KeyOk(keys[0]))
    case WantMutex(cmd) => Acceptable(cmd)
    case Deciding(cmd) => Acceptable(cmd)
    case AppendData(cmd, v) => Acceptable(cmd) && Store(v) == Decide(cmd, Fold(s.hist)) && Fits(v)
    case AppendLog(e) => Coming(s, e)
    case WantWrite(e) => s.hist != [] && e == s.hist[|s.hist| - 1]
    case Mutating(e) => s.hist != [] && e == s.hist[|s.hist| - 1]
    case _ => true
  }

  ghost predicate Inv(s: State) {
    Locks(s) && Files(s) && Backs(s) && forall w: nat :: w < |s.workers| ==> Local(s, s.workers[w])
  }

  lemma InitInv(n: nat)
    ensures Inv(Init(n))
  {
  }

  // A worker's own facts survive what others do: appends to the data file, and, for workers
  // that do not hold the mutex, anything done to the history.
  lemma LocalStable(s: State, s': State, pc: Pc)
    requires Local(s, pc) && s.data <= s'.data
    requires s'.hist == s.hist || !HoldsMutex(pc)
    ensures Local(s', pc)
  {
    var more := s'.data[|s.data|..];
    assert s'.data == s.data + more;
    if pc.Fetching? && pc.off > 0 { StableValue(s.data, more, pc.off); }
    if pc.AppendLog? && pc.e.out.Store? { StableValue(s.data, more, pc.e.off); }
  }

  lemma OthersStable(s: State, s': State, w: nat)
    requires Inv(s) && w < |s.workers| && s.data <= s'.data
    requires |s'.workers| == |s.workers| && forall v: nat :: v < |s.workers| && v != w ==> s'.workers[v] == s.workers[v]
    requires s'.hist == s.hist || s.mutex == Some(w)
    requires Local(s', s'.workers[w])
    ensures forall v: nat :: v < |s'.workers| ==> Local(s', s'.workers[v])
  {
    forall v: nat | v < |s'.workers| ensures Local(s', s'.workers[v]) {
      if v != w { LocalStable(s, s', s.workers[v]); }
    }
  }

  lemma RecordedStable(hist: seq<Effect>, data: string, more: string)
    requires Recorded(hist, data)
    ensures Recorded(hist, data + more)
  {
    forall i: nat | i < |hist| ensures RecordedAt(hist, i, data + more) {
      assert RecordedAt(hist, i, data);
      if hist[i].out.Store? { StableValue(data, more, hist[i].off); }
    }
  }

  lemma LoggedStable(log: seq<Rec>, data: string, more: string)
    requires Logged(log, data)
    ensures Logged(log, data + more)
  {
    forall r | r in log ensures LoggedRec(r, data + more) {
      assert LoggedRec(r, data);
      if r.value > 0 { StableValue(data, more, r.value); }
    }
  }

  // Every entry of a prefix of the history is on disk.
  lemma EntryRecorded(hist: seq<Effect>, n: nat, data: string, bound: nat, k: string)
    requires n <= |hist| && Recorded(hist, data) && Rising(hist, bound) && k in Fold(hist[..n])
    ensures Fold(hist[..n])[k].off > 0
    ensures ReadValue(data, Fold(hist[..n])[k].off) == Some(Fold(hist[..n])[k].value)
    ensures Fits(Fold(hist[..n])[k].value) && KeyOk(k)
  {
    var i := EntryOrigin(hist[..n], k);
    assert hist[..n][i] == hist[i] && RecordedAt(hist, i, data) && Offered(hist, i, bound);
  }

  // The store readers see is the sequential store after the effects shown so far.
  lemma ViewIsFold(s: State)
    requires Files(s)
    ensures ViewOf(s) == Fold(s.hist[..Shown(s)])
  {
    var m := Fold(s.hist[..Shown(s)]);
    forall k: string
      ensures k in ViewOf(s) <==> k in m
      ensures k in m ==> ViewOf(s)[k] == m[k]
    {
      if k in m { EntryRecorded(s.hist, Shown(s), s.data, |s.data|, k); }
    }
  }

  // ---------- one lemma per kind of step ----------

  lemma MutexStepKeepsInv(s: State, w: nat)
    requires Inv(s) && w < |s.workers| && GoStep(s, w).Some?
    requires s.workers[w].WantMutex? || s.workers[w].Unlocking?
    ensures Inv(GoStep(s, w).value)
  {
    var s' := GoStep(s, w).value;
    OthersStable(s, s', w);
    assert Locks(s');
    assert Backs(s');
    assert Shown(s') == Shown(s);
  }

  // A worker that holds no lock, before and after, moves on by itself.
  lemma QuietMove(s: State, s': State, w: nat, pc: Pc)
    requires Inv(s) && w < |s.workers| && !HoldsMutex(s.workers[w]) && !HoldsRead(s.workers[w])
    requires !HoldsMutex(pc) && !HoldsRead(pc) && Local(s, pc)
    requires s' == s.(workers := s.workers[w := pc], back := s'.back)
    requires forall v :: v in s'.back ==>
      if v == w then s'.back[v].keys != [] && Expiring(pc) else v in s.back && s'.back[v] == s.back[v]
    ensures Inv(s')
  {
    OthersStable(s, s', w);
    assert Locks(s') && Backs(s');
    assert Shown(s') == Shown(s);
  }

  // A reply is sent, or the get that waited for a deletion goes on.
  lemma ReplyStepKeepsInv(s: State, w: nat)
    requires Inv(s) && w < |s.workers| && s.workers[w].Replying?
    ensures Inv(GoStep(s, w).value)
  {
    var s' := GoStep(s, w).value;
    QuietMove(s, s', w, s'.workers[w]);
  }

  lemma LockStepKeepsInv(s: State, w: nat)
    requires Inv(s) && w < |s.workers| && GoStep(s, w).Some?
    requires s.workers[w].WantRead? || s.workers[w].WantScan?
    ensures Inv(GoStep(s, w).value)
  {
    var s' := GoStep(s, w).value;
    OthersStable(s, s', w);
    assert Locks(s');
    assert Backs(s');
    assert Shown(s') == Shown(s);
  }

  lemma WriteLockStepKeepsInv(s: State, w: nat)
    requires Inv(s) && w < |s.workers| && GoStep(s, w).Some?
    requires s.workers[w].WantWrite?
    ensures Inv(GoStep(s, w).value)
  {
    var s' := GoStep(s, w).value;
    OthersStable(s, s', w);
    assert Locks(s');
    assert Backs(s');
    assert Shown(s') == Shown(s);
  }

  lemma ReadStepKeepsInv(s: State, w: nat)
    requires Inv(s) && w < |s.workers| && GoStep(s, w).Some?
    requires s.workers[w].Reading?
    ensures Inv(GoStep(s, w).value)
  {
    var s' := GoStep(s, w).value;
    var k := s.workers[w].keys[0];
    if k in s.index { EntryRecorded(s.hist, Shown(s), s.data, |s.data|, k); }
    OthersStable(s, s', w);
    assert Locks(s');
    assert Backs(s');
    assert Shown(s') == Shown(s);
  }

  lemma FetchStepKeepsInv(s: State, w: nat)
    requires Inv(s) && w < |s.workers| && GoStep(s, w).Some?
    requires s.workers[w].Fetching? || s.workers[w].Scanning?
    ensures Inv(GoStep(s, w).value)
  {
    var s' := GoStep(s, w).value;
    OthersStable(s, s', w);
    assert Locks(s');
    assert Backs(s');
    assert Shown(s') == Shown(s);
  }

  // Under the mutex a command is decided on the sequential store.
  lemma DecidesSequentially(s: State, w: nat)
    requires Inv(s) && w < |s.workers| && s.workers[w].Deciding?
    ensures Shown(s) == |s.hist| && ViewOf(s) == Fold(s.hist)
  {
    ViewIsFold(s);
    assert s.hist[..|s.hist|] == s.hist;
  }

  lemma StoredFits(s: State, cmd: Cmd)
    requires Acceptable(cmd) && Recorded(s.hist, s.data) && Rising(s.hist, |s.data|)
    requires Decide(cmd, Fold(s.hist)).Store?
    ensures Fits(Decide(cmd, Fold(s.hist)).v)
  {
    if cmd.Incr? {
      var v := Fold(s.hist)[cmd.key].value;
      assert s.hist[..|s.hist|] == s.hist;
      EntryRecorded(s.hist, |s.hist|, s.data, |s.data|, cmd.key);
      WrapSum(Counter(v.body) + cmd.delta, 0);
      ShowShort(Wrap(Counter(v.body) + cmd.delta));
    }
  }

  lemma DecideKeepsInv(s: State, w: nat)
    requires Inv(s) && w < |s.workers| && s.workers[w].Deciding?
    ensures Inv(GoStep(s, w).value)
  {
    var s' := GoStep(s, w).value;
    var cmd := s.workers[w].cmd;
    DecidesSequentially(s, w);
    if Decide(cmd, Fold(s.hist)).Store? { StoredFits(s, cmd); }
    assert Local(s', s'.workers[w]);
    OthersStable(s, s', w);
    assert Locks(s') && Backs(s');
    assert Shown(s') == Shown(s);
  }

  lemma AppendDataKeepsInv(s: State, w: nat)
    requires Inv(s) && w < |s.workers| && s.workers[w].AppendData?
    ensures Inv(GoStep(s, w).value)
  {
    var s' := GoStep(s, w).value;
    var v := s.workers[w].v;
    AppendedValue(s.data, v);
    RisingWiden(s.hist, |s.data|, |s'.data|);
    RecordedStable(s.hist, s.data, EncodeValue(v));
    LoggedStable(s.log, s.data, EncodeValue(v));
    assert Local(s', s'.workers[w]);
    OthersStable(s, s', w);
    assert Locks(s') && Backs(s');
    assert Shown(s') == Shown(s);
  }

  lemma AppendedFiles(s: State, e: Effect)
    requires Files(s) && Coming(s, e)
    ensures var hist, log := s.hist + [e], s.log + [RecOf(e)];
      && Legit(hist) && Rising(hist, |s.data|) && Recorded(hist, s.data)
      && Logged(log, s.data)
      && Replay(s.snap, log) == Offsets(Fold(hist))
  {
    var hist, log := s.hist + [e], s.log + [RecOf(e)];
    LegitAppend(s.hist, e);
    RisingAppend(s.hist, |s.data|, e);
    FoldAppend(s.hist, e);
    ExecOffsets(Fold(s.hist), e);
    forall i: nat | i < |hist| ensures RecordedAt(hist, i, s.data) {
      if i < |s.hist| { assert RecordedAt(s.hist, i, s.data); }
    }
    forall r | r in log ensures LoggedRec(r, s.data) {
      if r in s.log { assert LoggedRec(r, s.data); }
    }
    assert log[..|s.log|] == s.log;
  }

  lemma AppendLogKeepsInv(s: State, w: nat)
    requires Inv(s) && w < |s.workers| && s.workers[w].AppendLog?
    ensures Inv(GoStep(s, w).value)
  {
    var s' := GoStep(s, w).value;
    var e := s.workers[w].e;
    AppendedFiles(s, e);
    assert s'.hist[|s.hist|] == e;
    OthersStable(s, s', w);
    assert Locks(s') && Backs(s');
    assert Shown(s) == |s.hist| && s'.hist[..Shown(s')] == s.hist == s.hist[..Shown(s)];
  }

  lemma MutateKeepsInv(s: State, w: nat)
    requires Inv(s) && w < |s.workers| && s.workers[w].Mutating?
    ensures Inv(GoStep(s, w).value)
  {
    var s' := GoStep(s, w).value;
    var n := |s.hist| - 1;
    var e := s.hist[n];
    assert s.hist == s.hist[..n] + [e];
    FoldAppend(s.hist[..n], e);
    assert LegitAt(s.hist, n) && Offered(s.hist, n, |s.data|);
    ExecOffsets(Fold(s.hist[..n]), e);
    OthersStable(s, s', w);
    assert Locks(s') && Backs(s');
    assert Shown(s') == |s.hist| && s'.hist[..Shown(s')] == s.hist;
  }

  lemma GoKeepsInv(s: State, w: nat)
    requires Inv(s) && w < |s.workers| && GoStep(s, w).Some?
    ensures Inv(GoStep(s, w).value)
  {
    match s.workers[w]
    case Idle =>
    case WantRead(_, _) => LockStepKeepsInv(s, w);
    case Reading(_, _) => ReadStepKeepsInv(s, w);
    case Fetching(_, _, _) => FetchStepKeepsInv(s, w);
    case WantScan(_) => LockStepKeepsInv(s, w);
    case Scanning(_) => FetchStepKeepsInv(s, w);
    case WantMutex(_) => MutexStepKeepsInv(s, w);
    case Deciding(_) => DecideKeepsInv(s, w);
    case AppendData(_, _) => AppendDataKeepsInv(s, w);
    case AppendLog(_) => AppendLogKeepsInv(s, w);
    case WantWrite(_) => WriteLockStepKeepsInv(s, w);
    case Mutating(_) => MutateKeepsInv(s, w);
    case Unlocking(_) => MutexStepKeepsInv(s, w);
    case Replying(_) => ReplyStepKeepsInv(s, w);
  }

  // Starting a command touches no shared state.
  lemma StartKeepsInv(s: State, ev: Event)
    requires Inv(s) && Step(s, ev).Some? && (ev.StartGet? || ev.StartScan? || ev.StartWrite?)
    ensures Inv(Step(s, ev).value)
  {
    var s' := Step(s, ev).value;
    QuietMove(s, s', ev.w, s'.workers[ev.w]);
  }

  // Nor does turning to the deletion of an expired value.
  lemma SkipKeepsInv(s: State, w: nat)
    requires Inv(s) && Step(s, Skip(w)).Some?
    ensures Inv(Step(s, Skip(w)).value)
  {
    var s' := Step(s, Skip(w)).value;
    assert Local(s, s.workers[w]);
    QuietMove(s, s', w, s'.workers[w]);
  }

  // What recovery finds of the log: exactly the records whose append had completed.
  lemma TornLogScan(s: State, w: nat, cut: nat)
    requires Inv(s) && |s.data| < TWO_TO_THE_64
    ensures Scan(TornLog(s, w, cut)) == s.log
    ensures w < |s.workers| && s.workers[w].AppendLog? && cut < |Encode(RecOf(s.workers[w].e))| ==>
      TornLog(s, w, cut) == EncodeAll(s.log) + Encode(RecOf(s.workers[w].e))[..cut]
  {
    forall r | r in s.log ensures Writable(r) { assert LoggedRec(r, s.data); }
    ScanAll(s.log);
    if w < |s.workers| && s.workers[w].AppendLog? && cut < |Encode(RecOf(s.workers[w].e))| {
      assert Local(s, s.workers[w]);
      TornAppend(s.log, RecOf(s.workers[w].e), cut);
    }
  }

  lemma CrashKeepsInv(s: State, garbage: string, w: nat, cut: nat)
    requires Inv(s) && |s.data| < TWO_TO_THE_64
    ensures Inv(Restarted(s, garbage, w, cut))
    ensures Restarted(s, garbage, w, cut).log == s.log
  {
    var s' := Restarted(s, garbage, w, cut);
    TornLogScan(s, w, cut);
    RisingWiden(s.hist, |s.data|, |s'.data|);
    RecordedStable(s.hist, s.data, garbage);
    LoggedStable(s.log, s.data, garbage);
    assert s'.hist[..|s.hist|] == s.hist;
  }

  // Neither step of the dump changes what a restart would find.
  lemma DumpKeepsInv(s: State, ev: Event)
    requires Inv(s) && Step(s, ev).Some? && (ev.Rename? || ev.RemoveLog?)
    ensures Inv(Step(s, ev).value)
  {
    var s' := Step(s, ev).value;
    assert s.hist[..|s.hist|] == s.hist;
    if ev.Rename? {
      assert s.log + [] == s.log;
      ReplayTwice(s.snap, s.log, []);
    }
    OthersUntouched(s, s');
  }

  lemma OthersUntouched(s: State, s': State)
    requires Inv(s) && s'.workers == s.workers && s'.data == s.data && s'.hist == s.hist
    ensures forall v: nat :: v < |s'.workers| ==> Local(s', s'.workers[v])
  {
    forall v: nat | v < |s'.workers| ensures Local(s', s'.workers[v]) { LocalStable(s, s', s.workers[v]); }
  }

  lemma StepKeepsInv(s: State, ev: Event)
    requires Inv(s) && Step(s, ev).Some?
    ensures Inv(Step(s, ev).value)
  {
    match ev
    case StartGet(_, _) => StartKeepsInv(s, ev);
    case StartScan(_, _) => StartKeepsInv(s, ev);
    case StartWrite(_, _) => StartKeepsInv(s, ev);
    case Go(w) => GoKeepsInv(s, w);
    case Skip(w) => SkipKeepsInv(s, w);
    case Crash(garbage, w, cut) => CrashKeepsInv(s, garbage, w, cut);
    case Rename => DumpKeepsInv(s, ev);
    case RemoveLog => DumpKeepsInv(s, ev);
  }

  // Every schedule, with any number of workers, crashes and dumps, keeps the invariant.
  lemma {:induction false} RunKeepsInv(s: State, events: seq<Event>)
    requires Inv(s) && Run(s, events).Some?
    ensures Inv(Run(s, events).value)
  {
    if events != [] {
      var init, last := events[..|events| - 1], events[|events| - 1];
      RunKeepsInv(s, init);
      StepKeepsInv(Run(s, init).value, last);
    }
  }
}
