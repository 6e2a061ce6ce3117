/** The binlog: a file of (key, offset) records, offset 0 meaning that the key was deleted.
    Replaying it on the last snapshot rebuilds the index. */
module Binlog {
  import opened Octets
  import opened Sequences
  import opened TernaryTree
  import opened TreeShape
  import opened TstIndex

  datatype Rec = Rec(key: string, value: nat)

  ghost predicate Writable(r: Rec) {
    0 < |r.key| < MAX_KEY_SIZE && CString(r.key) && r.value < TWO_TO_THE_64
  }

  // ---------- the file format ----------

  function Encode(r: Rec): string {
    Int32(|r.key|) + r.key + UInt64(r.value)
  }

  // The record as it lies in the file: key length, key and offset.
  lemma RecordWritten()
    ensures Encode(Rec("ab", 259)) == "\U{02}\0\0\0" + "ab" + "\U{03}\U{01}\0\0\0\0\0\0"
  {
    IntWritten();
  }

  function EncodeAll(rs: seq<Rec>): string {
    if rs == [] then "" else Encode(rs[0]) + EncodeAll(rs[1..])
  }

  datatype Read = Stop | Got(r: Rec, rest: string)

  // One turn of the reading loop; any short read stops it.
  function ReadRec(f: string): Read {
    if |f| < 4 then Stop
    else
      var n := ReadInt32(f[..4]);
      if n <= 0 || |f| < 4 + n || |f| < 12 + n then Stop
      else Got(Rec(f[4..4 + n], Number(f[4 + n..12 + n])), f[12 + n..])
  }

  // The records the loop gets out of a file.
  function Scan(f: string): seq<Rec>
    decreases |f|
  {
    match ReadRec(f)
    case Stop => []
    case Got(r, rest) => [r] + Scan(rest)
  }

  // Where the loop stops, which is where the file is truncated.
  function Kept(f: string): (n: nat)
    ensures n <= |f|
    decreases |f|
  {
    match ReadRec(f)
    case Stop => 0
    case Got(r, rest) => |f| - |rest| + Kept(rest)
  }

  // How many leading records of rs lie wholly within the first cut octets.
  function Whole(rs: seq<Rec>, cut: nat): nat {
    if rs == [] || cut < |Encode(rs[0])| then 0 else 1 + Whole(rs[1..], cut - |Encode(rs[0])|)
  }

  lemma {:induction false} WholeIsLongest(rs: seq<Rec>, cut: nat)
    ensures var w := Whole(rs, cut);
      && w <= |rs| && |EncodeAll(rs[..w])| <= cut
      && (w < |rs| ==> cut < |EncodeAll(rs[..w + 1])|)
  {
    if rs != [] && cut >= |Encode(rs[0])| {
      WholeIsLongest(rs[1..], cut - |Encode(rs[0])|);
      var w := Whole(rs, cut);
      assert rs[..w][1..] == rs[1..][..w - 1];
      if w < |rs| { assert rs[..w + 1][1..] == rs[1..][..w]; }
    } else if rs != [] {
      assert rs[..1] == [rs[0]];
      assert rs[..1][1..] == [];
      assert Encode(rs[0]) + "" == Encode(rs[0]);
    }
  }

  lemma ReadTorn(r: Rec, tail: string, cut: nat)
    requires Writable(r) && cut <= |Encode(r) + tail|
    ensures ReadRec((Encode(r) + tail)[..cut]) ==
      if cut < |Encode(r)| then Stop else Got(r, tail[..cut - |Encode(r)|])
  {
    var n := |r.key|;
    var a, c := Int32(n), UInt64(r.value);
    var all := a + r.key + c + tail;
    var f := all[..cut];
    Int32RoundTrip(n);
    UInt64RoundTrip(r.value);
    if cut >= 4 {
      assert f[..4] == a;
      if cut >= 12 + n {
        Slices(all, 4, 4 + n, cut);
        Slices(all, 4 + n, 12 + n, cut);
        assert all[4..4 + n] == r.key && all[4 + n..12 + n] == c && all[12 + n..] == tail;
      }
    }
  }

  lemma Slices(s: string, i: nat, j: nat, cut: nat)
    requires i <= j <= cut <= |s|
    ensures s[..cut][i..j] == s[i..j]
    ensures s[..cut][j..] == s[j..][..cut - j]
  {
  }

  lemma CutInside(a: string, b: string, cut: nat)
    requires cut <= |b|
    ensures (a + b)[..|a| + cut] == a + b[..cut]
  {
  }

  lemma TakeOne(rs: seq<Rec>, w: nat)
    requires rs != [] && 0 < w <= |rs|
    ensures rs[..w] == [rs[0]] + rs[1..][..w - 1] && rs[..w][1..] == rs[1..][..w - 1] && rs[..w][0] == rs[0]
  {
  }

  // Whatever octet a crash cut the log at, replay finds exactly the whole records before it
  // and truncates the file to them.
  lemma {:induction false} TornTail(rs: seq<Rec>, cut: nat)
    requires (forall r :: r in rs ==> Writable(r)) && cut <= |EncodeAll(rs)|
    ensures var f, w := EncodeAll(rs)[..cut], Whole(rs, cut);
      && w <= |rs| && Scan(f) == rs[..w]
      && Kept(f) == |EncodeAll(rs[..w])| && f[..Kept(f)] == EncodeAll(rs[..w])
  {
    if rs != [] {
      var r, tail := rs[0], EncodeAll(rs[1..]);
      ReadTorn(r, tail, cut);
      if cut >= |Encode(r)| {
        var n := |Encode(r)|;
        TornTail(rs[1..], cut - n);
        CutInside(Encode(r), tail, cut - n);
        TakeOne(rs, Whole(rs, cut));
        var kept := Kept(tail[..cut - n]);
        CutInside(Encode(r), tail[..cut - n], kept);
        assert EncodeAll(rs)[..cut] == Encode(r) + tail[..cut - n];
      }
    }
  }

  lemma FirstOfBoth(a: seq<Rec>, b: seq<Rec>)
    requires a != []
    ensures (a + b)[0] == a[0] && (a + b)[1..] == a[1..] + b
  {
  }

  lemma {:induction false} EncodeConcat(a: seq<Rec>, b: seq<Rec>)
    ensures EncodeAll(a + b) == EncodeAll(a) + EncodeAll(b)
  {
    if a == [] {
      assert a + b == b;
      Blank(EncodeAll(b));
    } else {
      EncodeConcat(a[1..], b);
      FirstOfBoth(a, b);
      Joined(Encode(a[0]), EncodeAll(a[1..]), EncodeAll(b));
    }
  }

  lemma {:induction false} WholeAll(rs: seq<Rec>)
    ensures Whole(rs, |EncodeAll(rs)|) == |rs|
  {
    if rs != [] { WholeAll(rs[1..]); }
  }

  // An undamaged log is read back completely.
  lemma ScanAll(rs: seq<Rec>)
    requires forall r :: r in rs ==> Writable(r)
    ensures Scan(EncodeAll(rs)) == rs && Kept(EncodeAll(rs)) == |EncodeAll(rs)|
  {
    var f := EncodeAll(rs);
    assert f[..|f|] == f;
    TornTail(rs, |f|);
    WholeAll(rs);
  }

  lemma {:induction false} WholeAppend(rs: seq<Rec>, r: Rec, cut: nat)
    requires cut < |Encode(r)|
    ensures Whole(rs + [r], |EncodeAll(rs)| + cut) == |rs|
  {
    if rs == [] {
      assert rs + [r] == [r];
    } else {
      assert (rs + [r])[1..] == rs[1..] + [r];
      WholeAppend(rs[1..], r, cut);
    }
  }

  // A record whose append was cut short is not there after recovery.
  lemma TornAppend(rs: seq<Rec>, r: Rec, cut: nat)
    requires (forall x :: x in rs ==> Writable(x)) && Writable(r) && cut < |Encode(r)|
    ensures Scan(EncodeAll(rs) + Encode(r)[..cut]) == rs
  {
    AllWritable(rs, r);
    WholeAppend(rs, r, cut);
    TornText(rs, r, cut);
    TornScan(rs + [r], |EncodeAll(rs)| + cut, |rs|);
    assert (rs + [r])[..|rs|] == rs;
  }

  // The torn file is a beginning of the file that was being written.
  lemma TornText(rs: seq<Rec>, r: Rec, cut: nat)
    requires cut < |Encode(r)|
    ensures |EncodeAll(rs)| + cut <= |EncodeAll(rs + [r])|
    ensures EncodeAll(rs + [r])[..|EncodeAll(rs)| + cut] == EncodeAll(rs) + Encode(r)[..cut]
  {
    EncodeAppend(rs, r);
    CutInside(EncodeAll(rs), Encode(r), cut);
  }

  lemma AllWritable(rs: seq<Rec>, r: Rec)
    requires (forall x :: x in rs ==> Writable(x)) && Writable(r)
    ensures forall x :: x in rs + [r] ==> Writable(x)
  {
  }

  lemma TornScan(rs: seq<Rec>, cut: nat, w: nat)
    requires (forall r :: r in rs ==> Writable(r)) && cut <= |EncodeAll(rs)| && w == Whole(rs, cut)
    ensures w <= |rs| && Scan(EncodeAll(rs)[..cut]) == rs[..w]
  {
    TornTail(rs, cut);
  }

  lemma EncodeAppend(rs: seq<Rec>, r: Rec)
    ensures EncodeAll(rs + [r]) == EncodeAll(rs) + Encode(r)
  {
    EncodeConcat(rs, [r]);
    assert [r][1..] == [];
    Blank(Encode(r));
  }

  // Records appended after recovery from a torn log are read back.
  lemma AppendAfterRecovery(rs: seq<Rec>, cut: nat, more: seq<Rec>)
    requires (forall r :: r in rs + more ==> Writable(r)) && cut <= |EncodeAll(rs)|
    ensures Whole(rs, cut) <= |rs|
    ensures var f := EncodeAll(rs)[..cut];
      Scan(f[..Kept(f)] + EncodeAll(more)) == rs[..Whole(rs, cut)] + more
  {
    forall r | r in rs || r in more ensures Writable(r) { assert r in rs + more; }
    TornTail(rs, cut);
    var kept := rs[..Whole(rs, cut)];
    EncodeConcat(kept, more);
    ScanAll(kept + more);
  }

  // ---------- replay ----------

  function Apply(m: map<string, nat>, r: Rec): map<string, nat> {
    if r.value > 0 then m[r.key := r.value] else m - {r.key}
  }

  function Replay(m: map<string, nat>, rs: seq<Rec>): map<string, nat> {
    if rs == [] then m else Apply(Replay(m, rs[..|rs| - 1]), rs[|rs| - 1])
  }

  lemma {:induction false} ReplayConcat(m: map<string, nat>, a: seq<Rec>, b: seq<Rec>)
    ensures Replay(m, a + b) == Replay(Replay(m, a), b)
  {
    if b == [] {
      assert a + b == a;
    } else {
      ReplayConcat(m, a, b[..|b| - 1]);
      assert (a + b)[..|a + b| - 1] == a + b[..|b| - 1];
    }
  }

  // Whether rs says anything about key k.
  predicate Mentions(rs: seq<Rec>, k: string) {
    exists i :: 0 <= i < |rs| && rs[i].key == k
  }

  // The last word of a log on a key does not depend on the state it is replayed on.
  lemma {:induction false} ReplayAt(m: map<string, nat>, m': map<string, nat>, rs: seq<Rec>, k: string)
    ensures Mentions(rs, k) ==>
      (k in Replay(m, rs) <==> k in Replay(m', rs)) &&
      (k in Replay(m, rs) ==> Replay(m, rs)[k] == Replay(m', rs)[k])
    ensures !Mentions(rs, k) ==>
      (k in Replay(m, rs) <==> k in m) && (k in m ==> Replay(m, rs)[k] == m[k])
  {
    if rs != [] {
      var init := rs[..|rs| - 1];
      ReplayAt(m, m', init, k);
      if Mentions(rs, k) && rs[|rs| - 1].key != k {
        var i :| 0 <= i < |rs| && rs[i].key == k;
        assert init[i].key == k;
      }
    }
  }

  // Replaying a whole log over a state that already contains it changes nothing, however
  // the log has grown since.
  lemma ReplayTwice(m: map<string, nat>, a: seq<Rec>, b: seq<Rec>)
    ensures Replay(Replay(m, a), a + b) == Replay(m, a + b)
  {
    var again := Replay(Replay(m, a), a);
    forall k: string
      ensures k in again <==> k in Replay(m, a)
      ensures k in again ==> again[k] == Replay(m, a)[k]
    {
      ReplayAt(Replay(m, a), m, a, k);
    }
    assert again == Replay(m, a);
    ReplayConcat(Replay(m, a), a, b);
    ReplayConcat(m, a, b);
  }

  // The three reads of one turn: length, key and offset, each of which may come up short.
  method ReadOne(file: string, pos: nat) returns (ok: bool, r: Rec, next: nat)
    requires pos <= |file|
    ensures pos <= next <= |file|
    ensures ReadRec(file[pos..]) == if ok then Got(r, file[next..]) else Stop
  {
    ok, r, next := false, Rec("", 0), pos;
    ghost var f := file[pos..];
    if pos + 4 > |file| { return; }
    assert file[pos..pos + 4] == f[..4];
    var n := ReadInt32(file[pos..pos + 4]);
    if n <= 0 || pos + 4 + n > |file| || pos + 12 + n > |file| { return; }
    var key, value := file[pos + 4..pos + 4 + n], Number(file[pos + 4 + n..pos + 12 + n]);
    assert f[4..4 + n] == key && f[4 + n..12 + n] == file[pos + 4 + n..pos + 12 + n];
    assert f[12 + n..] == file[pos + 12 + n..];
    ok, r, next := true, Rec(key, value), pos + 12 + n;
  }

  // The shape of the index after one more record.
  function ApplyBare(t: Tree, r: Rec): Tree {
    if r.key == "" then t else if r.value > 0 then PutBare(t, r.key, r.value) else Delete(t, r.key)
  }

  // None of the log's deletions joins two subtrees of a node it removes.
  ghost predicate Sparing(t: Tree, rs: seq<Rec>)
    decreases |rs|
  {
    rs != [] ==> (rs[0].value == 0 ==> !Spoils(t, rs[0].key)) && Sparing(ApplyBare(t, rs[0]), rs[1..])
  }

  // With reparent, or where it makes no difference, the deletion as it stands.
  method ApplyOne(db: TstDb, r: Rec, reparent: bool)
    requires db.Valid() && NoDead(db.tree) && CString(r.key) && r.key != ""
    requires reparent || r.value > 0 || !Spoils(Bare(db.tree), r.key)
    modifies db, db.data
    ensures Bare(db.tree) == ApplyBare(old(Bare(db.tree)), r)
    ensures db.Valid() && NoDead(db.tree) && (db.data == old(db.data) || fresh(db.data))
    ensures Contents(db.tree) == Apply(old(Contents(db.tree)), r)
  {
    if r.value > 0 {
      BareOfPut(db.tree, r.key, r.value, db.Store(), Arena([], 0));
      db.Put(r.key, r.value);
    } else {
      BareOfDelete(db.tree, r.key);
      db.PathsNamed(r.key);
      db.Delete(r.key, reparent);
    }
  }

  // replay_binlog: applies every whole record to the index and reports where to truncate.
  // With reparent, remove_node repaired; without it, the code as it stands, on logs whose
  // deletions do not need the repair.
  method ReplayBinlog(file: string, db: TstDb, reparent: bool) returns (keep: nat)
    requires db.Valid() && NoDead(db.tree)
    requires reparent || Sparing(Bare(db.tree), Scan(file))
    requires forall r :: r in Scan(file) ==> CString(r.key) && |r.key| < MAX_KEY_SIZE
    modifies db, db.data
    ensures db.Valid() && NoDead(db.tree)
    ensures Contents(db.tree) == Replay(old(Contents(db.tree)), Scan(file))
    ensures keep == Kept(file)
  {
    keep := 0;
    ghost var before, done := Contents(db.tree), [];
    assert file[0..] == file;
    while true
      invariant keep <= |file| && keep + Kept(file[keep..]) == Kept(file)
      invariant done + Scan(file[keep..]) == Scan(file)
      invariant db.Valid() && NoDead(db.tree) && Contents(db.tree) == Replay(before, done)
      invariant db.data == old(db.data) || fresh(db.data)
      invariant reparent || Sparing(Bare(db.tree), Scan(file[keep..]))
      decreases |file| - keep
    {
      var ok, r, next := ReadOne(file, keep);
      if !ok {
        assert done + [] == done;
        break;
      }
      NextRecord(file, keep, next, r, done, before);
      ApplyOne(db, r, reparent);
      done := done + [r];
      keep := next;
    }
  }

  lemma NextRecord(file: string, pos: nat, next: nat, r: Rec, done: seq<Rec>, m: map<string, nat>)
    requires pos <= next <= |file| && ReadRec(file[pos..]) == Got(r, file[next..])
    requires done + Scan(file[pos..]) == Scan(file)
    ensures done + [r] + Scan(file[next..]) == Scan(file)
    ensures Scan(file[pos..]) == [r] + Scan(file[next..]) && r in Scan(file) && r.key != ""
    ensures Replay(m, done + [r]) == Apply(Replay(m, done), r)
  {
    var rest := Scan(file[next..]);
    assert Scan(file[pos..]) == [r] + rest;
    assert done + ([r] + rest) == done + [r] + rest;
    assert (done + [r])[..|done|] == done;
  }
}
