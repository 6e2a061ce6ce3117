/** Restarting: the last index snapshot, if there is one, and the binlog replayed on it.
    A clean shutdown replaces the snapshot and then drops the binlog; the process may stop
    between any two of these steps. */
module Recovery {
  import opened TernaryTree
  import opened TreeShape
  import opened NodeArray
  import opened TstIndex
  import opened Binlog
  import opened Sequences

  const INITIAL_CAP: nat := 409600

  // The two files recovery reads.  The dump goes through a temporary file that it does not.
  datatype Disk = Disk(index: Option<Heap>, binlog: string)

  // The tree a snapshot holds.
  ghost predicate Holds(index: Option<Heap>, t: Tree, free: seq<nat>) {
    Ordered(t, 0, ANY_CHAR) && NoDead(t) &&
    match index
    case None => t.Leaf? && free == []
    case Some(h) => Represents(h, t, free)
  }

  // What recovery makes of the disk: the index every restart starts from.
  ghost function Meaning(t: Tree, binlog: string): map<string, nat> {
    Replay(Contents(t), Scan(binlog))
  }

  // reload_index and replay_binlog.  The log is then truncated to its first `keep` octets.
  method Restart(disk: Disk, reparent: bool, ghost t: Tree, ghost free: seq<nat>) returns (db: TstDb, keep: nat)
    requires Holds(disk.index, t, free) && (reparent || Sparing(Bare(t), Scan(disk.binlog)))
    requires forall r :: r in Scan(disk.binlog) ==> CString(r.key) && |r.key| < MAX_KEY_SIZE
    ensures fresh(db) && db.Valid() && NoDead(db.tree)
    ensures Contents(db.tree) == Meaning(t, disk.binlog)
    ensures keep == Kept(disk.binlog)
  {
    if disk.index.None? {
      db := new TstDb(INITIAL_CAP);
    } else {
      db := new TstDb.Reload(disk.index.value, t, free);
    }
    keep := ReplayBinlog(disk.binlog, db, reparent);
  }

  // ---------- dump_tst ----------

  datatype Stage = Dumping | Renamed | Removed

  // The disk when the process stops in the given stage of dumping the index h.
  function DumpedTo(stage: Stage, disk: Disk, h: Heap): Disk {
    match stage
    case Dumping => disk
    case Renamed => disk.(index := Some(h))
    case Removed => Disk(Some(h), "")
  }

  // Wherever the dump of a running index stops, a restart gets that index back: before the
  // rename from the old snapshot and the log, between rename and removal by replaying the
  // log a second time, afterwards from the new snapshot alone.
  lemma DumpIsAtomic(disk: Disk, t0: Tree, free0: seq<nat>, h: Heap, t: Tree, free: seq<nat>,
                     rs: seq<Rec>, stage: Stage)
    requires Holds(disk.index, t0, free0) && Holds(Some(h), t, free)
    requires (forall r :: r in rs ==> Writable(r)) && disk.binlog == EncodeAll(rs)
    requires Contents(t) == Meaning(t0, disk.binlog)
    ensures var d := DumpedTo(stage, disk, h);
      && Holds(d.index, if stage.Dumping? then t0 else t, if stage.Dumping? then free0 else free)
      && Meaning(if stage.Dumping? then t0 else t, d.binlog) == Contents(t)
      && (stage.Removed? ==> d.binlog == "")
  {
    ScanAll(rs);
    if stage.Renamed? {
      assert rs + [] == rs;
      ReplayTwice(Contents(t0), rs, []);
    }
  }

  // After a stop between rename and removal the old log stays in use: with more records
  // appended it still means what it would have meant on the old snapshot.
  lemma StaleLogStaysRight(t0: Tree, t: Tree, rs: seq<Rec>, more: seq<Rec>)
    requires forall r :: r in rs + more ==> Writable(r)
    requires Contents(t) == Replay(Contents(t0), rs)
    ensures Meaning(t, EncodeAll(rs + more)) == Meaning(t0, EncodeAll(rs + more))
  {
    ScanAll(rs + more);
    ReplayTwice(Contents(t0), rs, more);
  }
}
