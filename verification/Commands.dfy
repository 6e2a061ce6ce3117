/** Whole commands, from the moment a worker starts one to its reply, with the steps of all
    other workers in between in any order. */
module Commands {
  import opened Sequences
  import opened DataFile
  import opened Binlog
  import opened Sequential
  import opened Workers
  import opened Guarantees
  import K = KeyListing
  import T = TernaryTree

  // Worker w stays with the command it is at: it starts no other, and nothing crashes.
  predicate Stays(ev: Event, w: nat) {
    match ev
    case StartGet(v, _) => v != w
    case StartScan(v, _) => v != w
    case StartWrite(v, _) => v != w
    case Crash(_, _, _) => false
    case _ => true
  }

  ghost predicate Uninterrupted(events: seq<Event>, w: nat) {
    forall i :: 0 <= i < |events| ==> Stays(events[i], w)
  }

  // What event ev, possible in state m, appends to the history if it is worker w's.
  ghost function Added(m: State, ev: Event, w: nat): seq<Effect> {
    if ev != Go(w) then []
    else match Step(m, ev)
      case None => []
      case Some(m') => if m.hist <= m'.hist then m'.hist[|m.hist|..] else []
  }

  // The effects that worker w itself has appended in a run from s.
  ghost function Effects(s: State, events: seq<Event>, w: nat): seq<Effect> {
    if events == [] then []
    else
      var init, last := events[..|events| - 1], events[|events| - 1];
      Effects(s, init, w) + match Run(s, init) case None => [] case Some(m) => Added(m, last, w)
  }

  // What other workers do leaves worker w where it is.
  lemma OthersStep(m: State, ev: Event, w: nat, m': State)
    requires Inv(m) && w < |m.workers| && Step(m, ev) == Some(m') && Stays(ev, w) && ev != Go(w) && ev != Skip(w)
    ensures |m'.workers| == |m.workers| && m'.workers[w] == m.workers[w]
    ensures (w in m'.back <==> w in m.back) && (w in m.back ==> m'.back[w] == m.back[w])
  {
    if ev.Go? {
      GoLeavesWorkers(m, ev.w, w);
      GoLeavesBack(m, ev.w, w);
    }
  }

  // ---------- commands that change the store ----------

  // The reply to a command that was refused by store m.
  predicate Refusal(cmd: Cmd, r: Reply, m: View) {
    match cmd
    case Cas(key, _, _, _, sign) => r == Exists && Sign(m, key) != sign
    case Delete(key) => r == NotFound && key !in m
    case Incr(key, _) => r == NotFound && key !in m
    case _ => false
  }

  // Of the effects in hist, mine is the worker's own: either the one at position n, which is
  // the command's, and the reply is true of the stores before and after it; or there is none,
  // and the reply is the refusal that the store after n effects calls for.
  ghost predicate Answered(cmd: Cmd, r: Reply, mine: seq<Effect>, hist: seq<Effect>, n: nat) {
    if mine == [] then n <= |hist| && Refusal(cmd, r, Fold(hist[..n]))
    else
      && n < |hist| && mine == [hist[n]] && hist[n].cmd == cmd
      && TrueReply(cmd, r, Fold(hist[..n]), Fold(hist[..n + 1]))
  }

  ghost predicate AnsweredSince(cmd: Cmd, r: Reply, mine: seq<Effect>, hist: seq<Effect>, from: nat) {
    exists n: nat :: from <= n && Answered(cmd, r, mine, hist, n)
  }

  // How far worker w has come with a command started when the history was `from` long.
  ghost predicate Writing(pc: Pc, cmd: Cmd, mine: seq<Effect>, hist: seq<Effect>, from: nat) {
    match pc
    case Idle => true
    case WantMutex(c) => c == cmd && mine == []
    case Deciding(c) => c == cmd && mine == []
    case AppendData(c, _) => c == cmd && mine == []
    case AppendLog(e) => e.cmd == cmd && mine == []
    case WantWrite(e) => e.cmd == cmd && mine == [e] && from < |hist|
    case Mutating(e) => e.cmd == cmd && mine == [e] && from < |hist|
    case Unlocking(r) => AnsweredSince(cmd, r, mine, hist, from)
    case Replying(r) => AnsweredSince(cmd, r, mine, hist, from)
    case _ => false
  }

  lemma AnsweredGrows(cmd: Cmd, r: Reply, mine: seq<Effect>, hist: seq<Effect>, hist': seq<Effect>, from: nat)
    requires AnsweredSince(cmd, r, mine, hist, from) && hist <= hist'
    ensures AnsweredSince(cmd, r, mine, hist', from)
  {
    var n: nat :| from <= n && Answered(cmd, r, mine, hist, n);
    assert hist'[..n] == hist[..n] && (n < |hist| ==> hist'[..n + 1] == hist[..n + 1]);
    assert Answered(cmd, r, mine, hist', n);
  }

  lemma WritingGrows(pc: Pc, cmd: Cmd, mine: seq<Effect>, hist: seq<Effect>, hist': seq<Effect>, from: nat)
    requires Writing(pc, cmd, mine, hist, from) && hist <= hist'
    ensures Writing(pc, cmd, mine, hist', from)
  {
    if pc.Unlocking? || pc.Replying? { AnsweredGrows(cmd, pc.r, mine, hist, hist', from); }
  }

  // Refusing or not is decided on the store as it is under the mutex.
  lemma WriteDecides(m: State, w: nat, cmd: Cmd, from: nat)
    requires Inv(m) && w < |m.workers| && m.workers[w] == Deciding(cmd) && from <= |m.hist|
    ensures var m' := GoStep(m, w).value;
      |m'.workers| == |m.workers| && m'.hist == m.hist && Writing(m'.workers[w], cmd, [], m.hist, from)
  {
    DecidesSequentially(m, w);
    var m' := GoStep(m, w).value;
    if m'.workers[w].Unlocking? {
      assert m.hist[..|m.hist|] == m.hist;
      assert Answered(cmd, m'.workers[w].r, [], m.hist, |m.hist|);
    }
  }

  lemma WriteMutates(m: State, w: nat, cmd: Cmd, mine: seq<Effect>, from: nat)
    requires Inv(m) && w < |m.workers| && m.workers[w].Mutating? && Writing(m.workers[w], cmd, mine, m.hist, from)
    ensures var m' := GoStep(m, w).value;
      |m'.workers| == |m.workers| && m'.hist == m.hist && Writing(m'.workers[w], cmd, mine, m.hist, from)
  {
    var m' := GoStep(m, w).value;
    assert Local(m, m.workers[w]);
    MutateShows(m, w, m');
    LastExec(m.hist);
    var n := |m.hist| - 1;
    assert m.hist[..n + 1] == m.hist;
    EffectRepliesTrue(Fold(m.hist[..n]), m.hist[n]);
    assert Answered(cmd, m'.workers[w].r, mine, m.hist, n);
  }

  lemma WriteGoes(m: State, w: nat, cmd: Cmd, mine: seq<Effect>, from: nat)
    requires Inv(m) && w < |m.workers| && GoStep(m, w).Some? && w !in m.back && from <= |m.hist|
    requires Writing(m.workers[w], cmd, mine, m.hist, from)
    ensures var m' := GoStep(m, w).value;
      && |m'.workers| == |m.workers| && w !in m'.back
      && Writing(m'.workers[w], cmd, mine + Added(m, Go(w), w), m'.hist, from)
  {
    var pc, m' := m.workers[w], GoStep(m, w).value;
    GoGrows(m, w);
    assert w !in m'.back;
    if pc.AppendLog? {
      assert m'.hist[|m.hist|..] == [pc.e];
    } else {
      if !pc.AppendData? { GoKeepsFiles(m, w); }
      assert m'.hist == m.hist && Added(m, Go(w), w) == [] && mine + [] == mine;
      if pc.Deciding? { WriteDecides(m, w, cmd, from); }
      if pc.Mutating? { WriteMutates(m, w, cmd, mine, from); }
    }
  }

  lemma {:induction false} WriteRun(s: State, w: nat, cmd: Cmd, events: seq<Event>, t: State)
    requires Inv(s) && w < |s.workers| && s.workers[w] == WantMutex(cmd) && w !in s.back
    requires Run(s, events) == Some(t) && Uninterrupted(events, w)
    ensures |t.workers| == |s.workers| && w !in t.back && s.hist <= t.hist
    ensures Writing(t.workers[w], cmd, Effects(s, events, w), t.hist, |s.hist|)
  {
    if events != [] {
      var init, last := events[..|events| - 1], events[|events| - 1];
      var m := Run(s, init).value;
      WriteRun(s, w, cmd, init, m);
      RunExtends(s, init, m);
      StepGrows(m, last);
      if last == Go(w) {
        WriteGoes(m, w, cmd, Effects(s, init, w), |s.hist|);
      } else {
        OthersStep(m, last, w, t);
        WritingGrows(m.workers[w], cmd, Effects(s, init, w), m.hist, t.hist, |s.hist|);
        assert Effects(s, init, w) + [] == Effects(s, init, w);
      }
    }
  }

  // A command that changes the store, from its start to its reply and whatever other workers
  // do meanwhile: it takes effect exactly once, between the two, and the reply is true of the
  // store just before and after; or it appends nothing, and the reply is the refusal that the
  // store at some moment between the two calls for.
  lemma WriteReplies(s: State, w: nat, cmd: Cmd, events: seq<Event>, t: State) returns (n: nat)
    requires Reached(s) && Step(s, StartWrite(w, cmd)).Some?
    requires Run(Step(s, StartWrite(w, cmd)).value, events) == Some(t) && Uninterrupted(events, w)
    requires w < |t.workers| && t.workers[w].Replying?
    ensures |s.hist| <= n && Legit(t.hist)
    ensures Answered(cmd, t.workers[w].r, Effects(Step(s, StartWrite(w, cmd)).value, events, w), t.hist, n)
  {
    ReachedInv(s);
    var s1 := Step(s, StartWrite(w, cmd)).value;
    StartKeepsInv(s, StartWrite(w, cmd));
    WriteRun(s1, w, cmd, events, t);
    RunExtends(s1, events, t);
    n :| |s.hist| <= n && Answered(cmd, t.workers[w].r, Effects(s1, events, w), t.hist, n);
  }

  // ---------- get ----------

  // What a get meets at one of its keys: the store at its index lookup, and whether it then
  // finds the value's time up.
  datatype Lookup = Lookup(view: View, expired: bool)

  ghost function Marked(ls: seq<Lookup>): seq<Lookup>
    requires ls != []
  {
    ls[..|ls| - 1] + [ls[|ls| - 1].(expired := true)]
  }

  ghost function Seen(ls: seq<Lookup>, m: State, ev: Event, w: nat): seq<Lookup> {
    if ev == Go(w) && w < |m.workers| && m.workers[w].Reading? then ls + [Lookup(ViewOf(m), false)]
    else if ev == Skip(w) && ls != [] then Marked(ls)
    else ls
  }

  // The lookups of worker w in a run from s.
  ghost function Lookups(s: State, events: seq<Event>, w: nat): seq<Lookup> {
    if events == [] then []
    else
      var init, last := events[..|events| - 1], events[|events| - 1];
      match Run(s, init) case None => [] case Some(m) => Seen(Lookups(s, init, w), m, last, w)
  }

  // The answer: for each key in order the entry its lookup found, unless it had expired.
  ghost function Answers(keys: seq<string>, ls: seq<Lookup>): seq<(string, Entry)>
    requires |ls| <= |keys|
  {
    if ls == [] then []
    else
      var n := |ls| - 1;
      var k := keys[n];
      Answers(keys, ls[..n]) +
      if k in ls[n].view && !ls[n].expired then [(k, ls[n].view[k])] else []
  }

  // The deletions: one for each key whose value had expired, in order.
  ghost function Expiries(keys: seq<string>, ls: seq<Lookup>): seq<Effect>
    requires |ls| <= |keys|
  {
    if ls == [] then []
    else
      var n := |ls| - 1;
      Expiries(keys, ls[..n]) + if ls[n].expired then [Effect(Expire(keys[n]), 0, Remove)] else []
  }

  // Only a value that was found and is not to be kept for ever is found expired.
  ghost predicate MayExpire(keys: seq<string>, ls: seq<Lookup>)
    requires |ls| <= |keys|
  {
    forall j :: 0 <= j < |ls| && ls[j].expired ==> ExpiresAt(keys[j], ls[j])
  }

  ghost predicate ExpiresAt(k: string, l: Lookup) {
    k in l.view && l.view[k].value.expire > 0
  }

  // All keys before the one at hand have been dealt with.
  ghost predicate Upto(keys: seq<string>, ls: seq<Lookup>, rest: seq<string>, got: seq<(string, Entry)>)
  {
    |ls| <= |keys| && rest == keys[|ls|..] && got == Answers(keys, ls)
  }

  ghost predicate FoundAt(data: string, off: nat, k: string, l: Lookup) {
    if k in l.view
    then off > 0 && off == l.view[k].off && ReadValue(data, off) == Some(l.view[k].value)
    else off == 0
  }

  // A step of the deletion of key k; before holds the worker's earlier effects.
  ghost predicate Expelling(pc: Pc, k: string, mine: seq<Effect>, before: seq<Effect>) {
    match pc
    case WantMutex(c) => c == Expire(k) && mine == before
    case Deciding(c) => c == Expire(k) && mine == before
    case AppendLog(e) => e == Effect(Expire(k), 0, Remove) && mine == before
    case WantWrite(e) => e == Effect(Expire(k), 0, Remove) && mine == before + [e]
    case Mutating(e) => e == Effect(Expire(k), 0, Remove) && mine == before + [e]
    case Unlocking(r) => r == NoReply && mine == before + [Effect(Expire(k), 0, Remove)]
    case Replying(r) => r == NoReply && mine == before + [Effect(Expire(k), 0, Remove)]
    case _ => false
  }

  // How far worker w has come with a get of the keys, its lookups being ls.
  ghost predicate Getting(m: State, w: nat, keys: seq<string>, ls: seq<Lookup>, mine: seq<Effect>) {
    && w < |m.workers| && |ls| <= |keys| && MayExpire(keys, ls)
    && (m.workers[w].Idle? || if w in m.back then Backing(m.workers[w], m.back[w], keys, ls, mine)
        else Looking(m.data, m.workers[w], keys, ls, mine))
  }

  ghost predicate Backing(pc: Pc, b: Resume, keys: seq<string>, ls: seq<Lookup>, mine: seq<Effect>)
    requires |ls| <= |keys|
  {
    && ls != [] && ls[|ls| - 1].expired && Upto(keys, ls[..|ls| - 1], b.keys, b.got)
    && Expelling(pc, keys[|ls| - 1], mine, Expiries(keys, ls[..|ls| - 1]))
  }

  ghost predicate Looking(data: string, pc: Pc, keys: seq<string>, ls: seq<Lookup>, mine: seq<Effect>)
    requires |ls| <= |keys|
  {
    && mine == Expiries(keys, ls)
    && match pc
       case WantRead(rest, got) => Upto(keys, ls, rest, got)
       case Reading(rest, got) => Upto(keys, ls, rest, got)
       case Fetching(rest, got, off) =>
         && ls != [] && !ls[|ls| - 1].expired && Upto(keys, ls[..|ls| - 1], rest, got)
         && FoundAt(data, off, rest[0], ls[|ls| - 1])
       case Replying(r) => |ls| == |keys| && r == Values(Answers(keys, ls))
       case _ => false
  }

  lemma GettingGrows(m: State, m': State, w: nat, keys: seq<string>, ls: seq<Lookup>, mine: seq<Effect>)
    requires Getting(m, w, keys, ls, mine) && |m'.workers| == |m.workers| && m'.workers[w] == m.workers[w]
    requires (w in m'.back <==> w in m.back) && (w in m.back ==> m'.back[w] == m.back[w])
    requires m.data <= m'.data
    ensures Getting(m', w, keys, ls, mine)
  {
    var pc := m.workers[w];
    if pc.Fetching? && pc.off > 0 && w !in m.back { GrownKeeps(m.data, m'.data, pc.off); }
  }

  lemma TookLast(ls: seq<Lookup>, l: Lookup)
    ensures (ls + [l])[..|ls|] == ls
  {
  }

  // The lookup.
  lemma GetLooks(m: State, w: nat, keys: seq<string>, ls: seq<Lookup>, mine: seq<Effect>)
    requires Inv(m) && Getting(m, w, keys, ls, mine) && m.workers[w].Reading?
    ensures GoStep(m, w).Some? && Getting(GoStep(m, w).value, w, keys, ls + [Lookup(ViewOf(m), false)], mine)
  {
    var l, k := Lookup(ViewOf(m), false), m.workers[w].keys[0];
    assert Local(m, m.workers[w]);
    Complete(m, k, Rec(k, 0));
    TookLast(ls, l);
    assert mine + [] == mine;
  }

  // After the key at hand: the next one or the reply.
  lemma GetGoesOn(data: string, rest: seq<string>, got: seq<(string, Entry)>,
                  keys: seq<string>, ls: seq<Lookup>, mine: seq<Effect>)
    requires ls != [] && |ls| <= |keys| && rest == keys[|ls| - 1..]
    requires got == Answers(keys, ls) && mine == Expiries(keys, ls)
    ensures Looking(data, AfterKey(rest, got), keys, ls, mine)
  {
  }

  lemma GetFetches(m: State, w: nat, keys: seq<string>, ls: seq<Lookup>, mine: seq<Effect>)
    requires Inv(m) && Getting(m, w, keys, ls, mine) && m.workers[w].Fetching?
    ensures GoStep(m, w).Some? && Getting(GoStep(m, w).value, w, keys, ls, mine)
  {
    var pc := m.workers[w];
    var l := ls[|ls| - 1];
    assert w !in m.back;
    var more := if pc.off > 0 then [(pc.keys[0], Entry(pc.off, ValueAt(m.data, pc.off)))] else [];
    GetGoesOn(m.data, pc.keys, pc.got + more, keys, ls, mine);
  }

  // The turn to the deletion of an expired value.
  lemma GetSkips(m: State, w: nat, keys: seq<string>, ls: seq<Lookup>, mine: seq<Effect>, m': State)
    requires Inv(m) && Getting(m, w, keys, ls, mine) && Step(m, Skip(w)) == Some(m')
    ensures ls != [] && Getting(m', w, keys, Marked(ls), mine)
  {
    var n := |ls| - 1;
    assert w !in m.back;
    assert Marked(ls)[..n] == ls[..n];
    assert mine == Expiries(keys, ls[..n]) + [];
  }

  lemma GetComesOn(m: State, w: nat, keys: seq<string>, ls: seq<Lookup>, mine: seq<Effect>)
    requires Inv(m) && Getting(m, w, keys, ls, mine) && w in m.back && m.workers[w].Replying?
    ensures GoStep(m, w).Some? && Getting(GoStep(m, w).value, w, keys, ls, mine)
  {
    var b := m.back[w];
    Expelled(m.workers[w], b, keys, ls, mine);
    GetGoesOn(m.data, b.keys, b.got, keys, ls, mine);
    ComesBack(m, w);
  }

  lemma Expelled(pc: Pc, b: Resume, keys: seq<string>, ls: seq<Lookup>, mine: seq<Effect>)
    requires |ls| <= |keys| && Backing(pc, b, keys, ls, mine) && pc.Replying?
    ensures b.keys == keys[|ls| - 1..] && b.got == Answers(keys, ls) && mine == Expiries(keys, ls)
  {
    assert b.got + [] == b.got;
  }

  lemma ComesBack(m: State, w: nat)
    requires w < |m.workers| && w in m.back && m.back[w].keys != [] && m.workers[w].Replying?
    ensures var m' := GoStep(m, w).value;
      && GoStep(m, w).Some? && |m'.workers| == |m.workers| && w !in m'.back && m'.data == m.data
      && m'.workers[w] == AfterKey(m.back[w].keys, m.back[w].got)
  {
  }

  lemma ExpelGoes(m: State, w: nat, k: string, mine: seq<Effect>, before: seq<Effect>)
    requires w < |m.workers| && GoStep(m, w).Some? && Expelling(m.workers[w], k, mine, before)
    requires !m.workers[w].Replying?
    ensures var m' := GoStep(m, w).value;
      && |m'.workers| == |m.workers| && m'.back == m.back
      && Expelling(m'.workers[w], k, mine + Added(m, Go(w), w), before)
  {
    var pc, m' := m.workers[w], GoStep(m, w).value;
    if pc.AppendLog? {
      assert m'.hist[|m.hist|..] == [pc.e];
    } else {
      GoKeepsFiles(m, w);
      assert Added(m, Go(w), w) == [] && mine + [] == mine;
    }
  }

  lemma GetExpels(m: State, w: nat, keys: seq<string>, ls: seq<Lookup>, mine: seq<Effect>)
    requires Getting(m, w, keys, ls, mine) && GoStep(m, w).Some? && w in m.back && !m.workers[w].Replying?
    ensures Getting(GoStep(m, w).value, w, keys, ls, mine + Added(m, Go(w), w))
  {
    if !m.workers[w].Idle? {
      ExpelGoes(m, w, keys[|ls| - 1], mine, Expiries(keys, ls[..|ls| - 1]));
    }
  }

  lemma GetGoes(m: State, w: nat, keys: seq<string>, ls: seq<Lookup>, mine: seq<Effect>)
    requires Inv(m) && Getting(m, w, keys, ls, mine) && GoStep(m, w).Some?
    ensures Getting(GoStep(m, w).value, w, keys, Seen(ls, m, Go(w), w), mine + Added(m, Go(w), w))
  {
    var pc := m.workers[w];
    if w in m.back && !pc.Replying? {
      GetExpels(m, w, keys, ls, mine);
    } else {
      GoKeepsFiles(m, w);
      assert Added(m, Go(w), w) == [] && mine + [] == mine;
      if w in m.back {
        GetComesOn(m, w, keys, ls, mine);
      } else if pc.Reading? {
        GetLooks(m, w, keys, ls, mine);
      } else if pc.Fetching? {
        GetFetches(m, w, keys, ls, mine);
      }
    }
  }

  lemma {:induction false} GetRun(s: State, w: nat, keys: seq<string>, events: seq<Event>, t: State)
    requires Inv(s) && w < |s.workers| && s.workers[w] == WantRead(keys, []) && w !in s.back
    requires Run(s, events) == Some(t) && Uninterrupted(events, w)
    ensures Getting(t, w, keys, Lookups(s, events, w), Effects(s, events, w))
  {
    if events == [] {
      assert keys[0..] == keys;
    } else {
      var init, last := events[..|events| - 1], events[|events| - 1];
      var m := Run(s, init).value;
      var ls, mine := Lookups(s, init, w), Effects(s, init, w);
      GetRun(s, w, keys, init, m);
      RunExtends(s, init, m);
      StepGrows(m, last);
      if last == Go(w) {
        GetGoes(m, w, keys, ls, mine);
      } else {
        assert mine + [] == mine;
        if last == Skip(w) {
          GetSkips(m, w, keys, ls, mine, t);
        } else {
          OthersStep(m, last, w, t);
          GettingGrows(m, t, w, keys, ls, mine);
        }
      }
    }
  }

  lemma GotAll(t: State, w: nat, keys: seq<string>, ls: seq<Lookup>, mine: seq<Effect>)
    requires Getting(t, w, keys, ls, mine) && t.workers[w].Replying? && t.workers[w].r.Values?
    ensures |ls| == |keys| && MayExpire(keys, ls)
    ensures t.workers[w].r == Values(Answers(keys, ls)) && mine == Expiries(keys, ls)
  {
  }

  // A get of any keys, from its start to its reply and whatever other workers do meanwhile:
  // it looks up each key once and in order, and the reply holds exactly the entries found
  // that had not expired; it deletes exactly the keys whose values had.
  lemma GetReplies(s: State, w: nat, keys: seq<string>, events: seq<Event>, t: State)
    requires Reached(s) && Step(s, StartGet(w, keys)).Some?
    requires Run(Step(s, StartGet(w, keys)).value, events) == Some(t) && Uninterrupted(events, w)
    requires w < |t.workers| && t.workers[w].Replying? && t.workers[w].r.Values?
    ensures var s1 := Step(s, StartGet(w, keys)).value;
      var ls := Lookups(s1, events, w);
      && |ls| == |keys| && MayExpire(keys, ls)
      && t.workers[w].r == Values(Answers(keys, ls)) && Effects(s1, events, w) == Expiries(keys, ls)
  {
    ReachedInv(s);
    StartKeepsInv(s, StartGet(w, keys));
    var s1 := Step(s, StartGet(w, keys)).value;
    assert s1.workers[w] == WantRead(keys, []) && w !in s1.back;
    GetRun(s1, w, keys, events, t);
    GotAll(t, w, keys, Lookups(s1, events, w), Effects(s1, events, w));
  }

  // Each lookup is of the store as it was at some moment of the run, in order.
  ghost predicate Between(ls: seq<Lookup>, hist: seq<Effect>, from: nat, to: nat) {
    && to <= |hist|
    && if ls == [] then from <= to
       else exists n: nat :: n <= to && ls[|ls| - 1].view == Fold(hist[..n]) && Between(ls[..|ls| - 1], hist, from, n)
  }

  lemma {:induction false} BetweenGrows(ls: seq<Lookup>, hist: seq<Effect>, hist': seq<Effect>,
                                        from: nat, to: nat, to': nat)
    requires Between(ls, hist, from, to) && hist <= hist' && to <= to' <= |hist'|
    ensures Between(ls, hist', from, to')
  {
    if ls != [] {
      var n: nat :| n <= to && ls[|ls| - 1].view == Fold(hist[..n]) && Between(ls[..|ls| - 1], hist, from, n);
      assert hist'[..n] == hist[..n];
      BetweenGrows(ls[..|ls| - 1], hist, hist', from, n, n);
    }
  }

  lemma BetweenMore(ls: seq<Lookup>, l: Lookup, hist: seq<Effect>, from: nat, to: nat, to': nat)
    requires Between(ls, hist, from, to) && to <= to' <= |hist| && l.view == Fold(hist[..to])
    ensures Between(ls + [l], hist, from, to')
  {
    TookLast(ls, l);
  }

  lemma BetweenMarked(ls: seq<Lookup>, hist: seq<Effect>, from: nat, to: nat)
    requires ls != [] && Between(ls, hist, from, to)
    ensures Between(Marked(ls), hist, from, to)
  {
    TookLast(ls[..|ls| - 1], ls[|ls| - 1].(expired := true));
  }

  lemma SeenBetween(ls: seq<Lookup>, m: State, ev: Event, w: nat, hist: seq<Effect>, from: nat, to: nat)
    requires Inv(m) && m.hist <= hist && Shown(m) <= to <= |hist| && Between(ls, m.hist, from, Shown(m))
    ensures Between(Seen(ls, m, ev, w), hist, from, to)
  {
    BetweenGrows(ls, m.hist, hist, from, Shown(m), to);
    BetweenGrows(ls, m.hist, hist, from, Shown(m), Shown(m));
    if ev == Go(w) && w < |m.workers| && m.workers[w].Reading? {
      ViewIsFold(m);
      assert m.hist[..Shown(m)] == hist[..Shown(m)];
      BetweenMore(ls, Lookup(ViewOf(m), false), hist, from, Shown(m), to);
    } else if ev == Skip(w) && ls != [] {
      BetweenMarked(ls, hist, from, to);
    }
  }

  lemma {:induction false} LookupsBetween(s: State, events: seq<Event>, w: nat, t: State)
    requires Inv(s) && Run(s, events) == Some(t)
    ensures Between(Lookups(s, events, w), t.hist, Shown(s), Shown(t))
  {
    if events != [] {
      var init, last := events[..|events| - 1], events[|events| - 1];
      var m := Run(s, init).value;
      LookupsBetween(s, init, w, m);
      RunExtends(s, init, m);
      StepKeepsInv(m, last);
      StepGrows(m, last);
      StepShows(m, last);
      SeenBetween(Lookups(s, init, w), m, last, w, t.hist, Shown(s), Shown(t));
    }
  }

  // The entries store m holds for the keys, in their order.
  ghost function Present(keys: seq<string>, m: View): seq<(string, Entry)> {
    if keys == [] then []
    else (if keys[0] in m then [(keys[0], m[keys[0]])] else []) + Present(keys[1..], m)
  }

  lemma {:induction false} PresentMore(keys: seq<string>, k: string, m: View)
    ensures Present(keys + [k], m) == Present(keys, m) + if k in m then [(k, m[k])] else []
  {
    if keys != [] {
      assert (keys + [k])[1..] == keys[1..] + [k];
      PresentMore(keys[1..], k, m);
    } else {
      assert (keys + [k])[1..] == [];
    }
  }

  lemma {:induction false} OneView(keys: seq<string>, ls: seq<Lookup>, hist: seq<Effect>, n: nat)
    requires |ls| <= |keys| && Between(ls, hist, n, n) && Expiries(keys, ls) == []
    ensures Answers(keys, ls) == Present(keys[..|ls|], Fold(hist[..n]))
  {
    if ls != [] {
      var i := |ls| - 1;
      var j: nat :| j <= n && ls[i].view == Fold(hist[..j]) && Between(ls[..i], hist, n, j);
      Nonempty(ls[..i], hist, n, j);
      OneView(keys, ls[..i], hist, n);
      assert keys[..|ls|] == keys[..i] + [keys[i]];
      PresentMore(keys[..i], keys[i], Fold(hist[..n]));
    }
  }

  lemma {:induction false} Nonempty(ls: seq<Lookup>, hist: seq<Effect>, from: nat, to: nat)
    requires Between(ls, hist, from, to)
    ensures from <= to
  {
    if ls != [] {
      var n: nat :| n <= to && ls[|ls| - 1].view == Fold(hist[..n]) && Between(ls[..|ls| - 1], hist, from, n);
      Nonempty(ls[..|ls| - 1], hist, from, n);
    }
  }

  lemma {:induction false} EffectsAdd(s: State, events: seq<Event>, w: nat, t: State)
    requires Inv(s) && Run(s, events) == Some(t)
    ensures |s.hist| + |Effects(s, events, w)| <= |t.hist|
  {
    if events != [] {
      var init, last := events[..|events| - 1], events[|events| - 1];
      var m := Run(s, init).value;
      EffectsAdd(s, init, w, m);
      StepGrows(m, last);
    }
  }

  // If no effect comes while a get runs, and none was under way when it started, the reply
  // holds exactly the entries of the keys in the store at its start.
  lemma GetOneView(s: State, w: nat, keys: seq<string>, events: seq<Event>, t: State)
    requires Reached(s) && Step(s, StartGet(w, keys)).Some?
    requires Run(Step(s, StartGet(w, keys)).value, events) == Some(t) && Uninterrupted(events, w)
    requires w < |t.workers| && t.workers[w].Replying? && t.workers[w].r.Values?
    requires t.hist == s.hist && Shown(s) == |s.hist|
    ensures t.workers[w].r == Values(Present(keys, ViewOf(s)))
  {
    GetReplies(s, w, keys, events, t);
    var s1 := Step(s, StartGet(w, keys)).value;
    ReachedInv(s);
    StartKeepsInv(s, StartGet(w, keys));
    RunExtends(s1, events, t);
    EffectsAdd(s1, events, w, t);
    LookupsBetween(s1, events, w, t);
    StartShows(s, w, WantRead(keys, []));
    ViewIsFold(s);
    OneView(keys, Lookups(s1, events, w), t.hist, |s.hist|);
    assert keys[..|keys|] == keys && t.hist[..|s.hist|] == s.hist;
  }

  lemma StartShows(s: State, w: nat, pc: Pc)
    requires Inv(s) && w < |s.workers| && s.workers[w].Idle? && !InFlight(pc)
    ensures Shown(To(s, w, pc)) == Shown(s)
  {
  }

  // ---------- less, greater and prefix ----------

  ghost predicate ListedFrom(keys: set<string>, q: Query, hist: seq<Effect>, from: nat, to: nat) {
    exists n: nat :: from <= n <= to && n <= |hist| && Lists(keys, q, Fold(hist[..n]))
  }

  // The keys of store m that the query asks for.
  ghost predicate Lists(keys: set<string>, q: Query, m: View) {
    forall k :: k in keys <==> k in m && InRange(q, k)
  }

  ghost predicate Scans(pc: Pc, q: Query, hist: seq<Effect>, from: nat, to: nat) {
    match pc
    case Idle => true
    case WantScan(p) => p == q
    case Scanning(p) => p == q
    case Replying(r) => r.Listing? && ListedFrom(r.keys, q, hist, from, to)
    case _ => false
  }

  lemma ListedGrows(keys: set<string>, q: Query, hist: seq<Effect>, hist': seq<Effect>, from: nat, to: nat, to': nat)
    requires ListedFrom(keys, q, hist, from, to) && hist <= hist' && to <= to'
    ensures ListedFrom(keys, q, hist', from, to')
  {
    var n: nat :| from <= n <= to && n <= |hist| && Lists(keys, q, Fold(hist[..n]));
    assert hist'[..n] == hist[..n];
  }

  lemma ScanGoes(m: State, w: nat, q: Query, from: nat)
    requires Inv(m) && w < |m.workers| && GoStep(m, w).Some? && w !in m.back && from <= Shown(m)
    requires Scans(m.workers[w], q, m.hist, from, Shown(m))
    ensures var m' := GoStep(m, w).value;
      |m'.workers| == |m.workers| && w !in m'.back && Scans(m'.workers[w], q, m.hist, from, Shown(m))
  {
    if m.workers[w].Scanning? {
      ViewIsFold(m);
      var keys := set k | k in m.index && InRange(q, k);
      forall k ensures k in keys <==> k in Fold(m.hist[..Shown(m)]) && InRange(q, k) {
        assert k in ViewOf(m) <==> k in m.index;
      }
      assert Lists(keys, q, Fold(m.hist[..Shown(m)]));
    }
  }

  lemma {:induction false} ScanRun(s: State, w: nat, q: Query, events: seq<Event>, t: State)
    requires Inv(s) && w < |s.workers| && s.workers[w] == WantScan(q) && w !in s.back
    requires Run(s, events) == Some(t) && Uninterrupted(events, w)
    ensures |t.workers| == |s.workers| && w !in t.back && Shown(s) <= Shown(t)
    ensures Scans(t.workers[w], q, t.hist, Shown(s), Shown(t))
  {
    RunExtends(s, events, t);
    if events != [] {
      var init, last := events[..|events| - 1], events[|events| - 1];
      var m := Run(s, init).value;
      ScanRun(s, w, q, init, m);
      RunExtends(s, init, m);
      StepGrows(m, last);
      StepShows(m, last);
      if last == Go(w) {
        ScanGoes(m, w, q, Shown(s));
      } else {
        OthersStep(m, last, w, t);
      }
      var pc := t.workers[w];
      if pc.Replying? { ListedGrows(pc.r.keys, q, m.hist, t.hist, Shown(s), Shown(m), Shown(t)); }
    }
  }

  // A range query, from its start to its reply and whatever other workers do meanwhile, is
  // answered with the keys asked for of the store at one moment in between.
  lemma ScanReplies(s: State, w: nat, q: Query, events: seq<Event>, t: State) returns (n: nat)
    requires Reached(s) && Step(s, StartScan(w, q)).Some?
    requires Run(Step(s, StartScan(w, q)).value, events) == Some(t) && Uninterrupted(events, w)
    requires w < |t.workers| && t.workers[w].Replying?
    ensures Shown(s) <= n <= Shown(t) && n <= |t.hist| && t.workers[w].r.Listing?
    ensures forall k :: k in t.workers[w].r.keys <==> k in Fold(t.hist[..n]) && InRange(q, k)
  {
    ReachedInv(s);
    var s1 := Step(s, StartScan(w, q)).value;
    StartKeepsInv(s, StartScan(w, q));
    StartShows(s, w, WantScan(q));
    ScanRun(s1, w, q, events, t);
    var keys := t.workers[w].r.keys;
    n :| Shown(s) <= n <= Shown(t) && n <= |t.hist| && Lists(keys, q, Fold(t.hist[..n]));
  }

  // The list that tst_less, tst_greater or tst_prefix cuts to the limit.
  function ListOf(t: T.Tree, q: Query): seq<string> {
    match q
    case Less(key) => K.Below(t, key)
    case Greater(key) => K.Above(t, key)
    case Prefix(key) => K.Prefixed(t, key, K.Asc)
  }

  // What the query asks for is what the traversal lists, for any tree that holds the index.
  lemma QueryIsListing(t: T.Tree, q: Query, k: string)
    requires T.Ordered(t, 0, T.ANY_CHAR)
    ensures k in ListOf(t, q) <==> k in T.Contents(t) && InRange(q, k)
  {
    K.QueriesExact(t, q.key, k);
  }

  // ---------- every command is answered ----------

  lemma {:induction false} RunFirst(s: State, ev: Event, m: State, events: seq<Event>)
    requires Step(s, ev) == Some(m)
    ensures Run(s, [ev] + events) == Run(m, events)
  {
    var all := [ev] + events;
    if events == [] {
      assert all[..0] == [] && all[0] == ev;
    } else {
      var init := events[..|events| - 1];
      RunFirst(s, ev, m, init);
      assert all[..|all| - 1] == [ev] + init && all[|all| - 1] == events[|events| - 1];
    }
  }

  ghost predicate Alone(s: State, w: nat) {
    w < |s.workers| && forall v :: 0 <= v < |s.workers| && v != w ==> s.workers[v].Idle?
  }

  lemma {:induction false} AloneReplies(s: State, w: nat) returns (events: seq<Event>, t: State)
    requires Inv(s) && Alone(s, w) && !s.workers[w].Idle?
    ensures Run(s, events) == Some(t) && Uninterrupted(events, w)
    ensures w < |t.workers| && t.workers[w].Replying? && w !in t.back
    decreases RankAt(s, w)
  {
    if s.workers[w].Replying? && w !in s.back {
      events, t := [], s;
    } else {
      var v := SomeoneGoes(s);
      assert v == w;
      var m := GoStep(s, w).value;
      GoMoves(s, w);
      GoKeepsInv(s, w);
      forall u: nat | u < |s.workers| && u != w ensures m.workers[u].Idle? { GoLeavesWorkers(s, w, u); }
      StillBusy(s, w);
      events, t := AloneReplies(m, w);
      RunFirst(s, Go(w), m, events);
      events := [Go(w)] + events;
    }
  }

  lemma StillBusy(s: State, w: nat)
    requires Inv(s) && w < |s.workers| && GoStep(s, w).Some? && !(s.workers[w].Replying? && w !in s.back)
    ensures |GoStep(s, w).value.workers| == |s.workers| && !GoStep(s, w).value.workers[w].Idle?
  {
    if s.workers[w].Replying? { ComesBack(s, w); } else { GoBusy(s, w); }
  }

  lemma GoBusy(s: State, w: nat)
    requires w < |s.workers| && GoStep(s, w).Some? && !s.workers[w].Replying?
    ensures |GoStep(s, w).value.workers| == |s.workers| && !GoStep(s, w).value.workers[w].Idle?
  {
  }

  // On a server at rest every command can be started and gets its reply; what the reply says
  // is for WriteReplies, GetReplies and ScanReplies.
  lemma CommandsAnswered(s: State, w: nat, ev: Event) returns (m: State, events: seq<Event>, t: State)
    requires Reached(s) && AllIdle(s) && w < |s.workers|
    requires match ev
      case StartGet(v, keys) => v == w && keys != []
      case StartScan(v, _) => v == w
      case StartWrite(v, cmd) => v == w && Acceptable(cmd) && !cmd.Expire?
      case _ => false
    ensures Step(s, ev) == Some(m) && Run(m, events) == Some(t) && Uninterrupted(events, w)
    ensures w < |t.workers| && t.workers[w].Replying? && w !in t.back
  {
    ReachedInv(s);
    m := Step(s, ev).value;
    StartKeepsInv(s, ev);
    events, t := AloneReplies(m, w);
  }
}
