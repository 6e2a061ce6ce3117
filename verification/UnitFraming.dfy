/** Framing as the server does it on a chain of units: the search for a line end goes unit by
    unit and, in each, stops at a zero octet.  When this is framing of the stream the units
    hold, and when it is not. */
module UnitFraming {
  import opened Sequences
  import opened BufferPool
  import opened Framing

  // strstr for a newline in a unit terminated by '\0'.
  function FindNewline(b: string): Option<nat> {
    if b == "" || b[0] == '\0' then None
    else if b[0] == '\n' then Some(0)
    else match FindNewline(b[1..]) case None => None case Some(i) => Some(i + 1)
  }

  ghost predicate ZeroFree(s: string) {
    forall i :: 0 <= i < |s| ==> s[i] != '\0'
  }

  // A newline is found exactly if no zero octet of its unit comes before it.
  lemma {:induction false} FindExactly(b: string)
    ensures Newline(b).None? ==> FindNewline(b).None?
    ensures Newline(b).Some? ==>
      var i := Newline(b).value;
      i < |b| && FindNewline(b) == if ZeroFree(b[..i]) then Some(i) else None
  {
    if b != "" && b[0] != '\n' {
      FindExactly(b[1..]);
      if Newline(b).Some? {
        var i := Newline(b).value;
        assert b[1..][..i - 1] == b[..i][1..];
        ZeroFreeTail(b[..i]);
      }
    }
  }

  lemma ZeroFreeTail(s: string)
    requires s != ""
    ensures ZeroFree(s) <==> s[0] != '\0' && ZeroFree(s[1..])
  {
    if ZeroFree(s[1..]) {
      forall k | 0 < k < |s| ensures s[k] != '\0' { assert s[1..][k - 1] != '\0'; }
    }
  }

  // What is found in a unit of n octets or else after it.
  function OneUnitOn(here: Option<nat>, n: nat, after: Option<nat>): Option<nat> {
    match here
    case Some(i) => Some(i)
    case None => match after case None => None case Some(i) => Some(n + i)
  }

  // has_header's search, from unit to unit.
  function UnitNewline(us: seq<string>): Option<nat> {
    if us == [] then None else OneUnitOn(FindNewline(us[0]), |us[0]|, UnitNewline(us[1..]))
  }

  lemma {:induction false} UnitNewlineAt(us: seq<string>)
    ensures UnitNewline(us).Some? ==>
      var i := UnitNewline(us).value; i < |Concat(us)| && Concat(us)[i] == '\n'
  {
    if us != [] {
      FindExactly(us[0]);
      NewlineAt(us[0]);
      UnitNewlineAt(us[1..]);
    }
  }

  // A line end once found stays where it is when more units arrive.
  lemma {:induction false} UnitNewlineExtends(us: seq<string>, more: seq<string>)
    requires UnitNewline(us).Some?
    ensures UnitNewline(us + more) == UnitNewline(us)
  {
    assert (us + more)[0] == us[0];
    if FindNewline(us[0]).None? {
      assert (us + more)[1..] == us[1..] + more;
      UnitNewlineExtends(us[1..], more);
    }
  }

  // The first command of the units.
  function UnitFrame(us: seq<string>, announce: Announcer): (f: Frame)
    ensures f.Complete? ==> 0 < f.used <= |Concat(us)|
  {
    UnitNewlineAt(us);
    FrameAt(Concat(us), UnitNewline(us), announce)
  }

  // What the loop of handle_input hands on, and the units it leaves.
  function UnitCommands(us: seq<string>, announce: Announcer): seq<Command>
    decreases |Concat(us)|
  {
    match UnitFrame(us, announce)
    case Incomplete => []
    case Complete(cmd, used) =>
      DropText(us, used);
      [cmd] + UnitCommands(Drop(us, used), announce)
  }

  function UnitRest(us: seq<string>, announce: Announcer): seq<string>
    decreases |Concat(us)|
  {
    match UnitFrame(us, announce)
    case Incomplete => us
    case Complete(_, used) =>
      DropText(us, used);
      UnitRest(Drop(us, used), announce)
  }

  // What a connection has handed on, and the units it still holds, after receives one by one.
  function Fed(chunks: seq<string>, announce: Announcer): seq<Command> {
    if chunks == [] then []
    else
      var init, last := chunks[..|chunks| - 1], chunks[|chunks| - 1];
      Fed(init, announce) + UnitCommands(Held(init, announce) + [last], announce)
  }

  function Held(chunks: seq<string>, announce: Announcer): seq<string> {
    if chunks == [] then []
    else UnitRest(Held(chunks[..|chunks| - 1], announce) + [chunks[|chunks| - 1]], announce)
  }

  lemma FedOneMore(chunks: seq<string>, chunk: string, announce: Announcer)
    ensures Fed(chunks + [chunk], announce) ==
      Fed(chunks, announce) + UnitCommands(Held(chunks, announce) + [chunk], announce)
    ensures Held(chunks + [chunk], announce) == UnitRest(Held(chunks, announce) + [chunk], announce)
  {
    assert (chunks + [chunk])[..|chunks|] == chunks;
  }

  // ---------- zero octets ----------

  ghost predicate Fitting(us: seq<string>) {
    forall i :: 0 <= i < |us| ==> |us[i]| <= UNIT_SIZE
  }

  // No zero octet is so close before the first newline that both fit one unit.
  ghost predicate Visible(s: string) {
    Newline(s).Some? ==>
      forall z :: 0 <= z < Newline(s).value && z < |s| && Newline(s).value - z < 512 ==> s[z] != '\0'
  }

  lemma {:induction false} VisibleFound(us: seq<string>)
    requires Fitting(us) && Visible(Concat(us))
    ensures UnitNewline(us) == Newline(Concat(us))
  {
    if us != [] {
      var b, rest := us[0], Concat(us[1..]);
      FindExactly(b);
      if Newline(b).Some? {
        var i := Newline(b).value;
        NewlineExtends(b, rest);
        forall z | 0 <= z < i ensures b[..i][z] != '\0' { assert Concat(us)[z] == b[z]; }
      } else {
        NewlineConcat(b, rest);
        VisibleTail(b, rest);
        VisibleFound(us[1..]);
      }
    }
  }

  lemma VisibleTail(a: string, b: string)
    requires Newline(a).None? && Visible(a + b)
    ensures Visible(b)
  {
    NewlineConcat(a, b);
    NewlineAt(b);
    if Newline(b).Some? {
      var i := Newline(b).value;
      forall z | 0 <= z < i && i - z < UNIT_SIZE ensures b[z] != '\0' { assert (a + b)[|a| + z] == b[z]; }
    }
  }

  // One octet a unit.
  function Singles(s: string): seq<string> {
    if s == "" then [] else [[s[0]]] + Singles(s[1..])
  }

  lemma {:induction false} SinglesAre(s: string)
    ensures Concat(Singles(s)) == s && Fitting(Singles(s)) && Solid(Singles(s))
  {
    if s != "" {
      SinglesAre(s[1..]);
      assert s == [s[0]] + s[1..];
      forall i | 0 <= i < |Singles(s)| ensures |Singles(s)[i]| <= UNIT_SIZE && Singles(s)[i] != "" {
        if i > 0 { assert Singles(s)[i] == Singles(s[1..])[i - 1]; }
      }
    }
  }

  // In units without a newline the search goes on to the next ones.
  lemma {:induction false} SearchGoesOn(us: seq<string>, more: seq<string>)
    requires Newline(Concat(us)).None?
    ensures UnitNewline(us + more) ==
      match UnitNewline(more) case None => None case Some(i) => Some(|Concat(us)| + i)
  {
    if us == [] {
      assert us + more == more;
    } else {
      assert (us + more)[0] == us[0] && (us + more)[1..] == us[1..] + more;
      var b, rest := us[0], Concat(us[1..]);
      if Newline(b).Some? { NewlineExtends(b, rest); }
      NewlineConcat(b, rest);
      FindExactly(b);
      SearchGoesOn(us[1..], more);
    }
  }

  // A way to receive s that hides its first newline behind the zero octet at z.
  lemma HidingUnits(s: string, z: nat) returns (us: seq<string>)
    requires Newline(s).Some? && z < Newline(s).value && Newline(s).value - z < UNIT_SIZE
    requires z < |s| && s[z] == '\0'
    ensures Concat(us) == s && Fitting(us)
    ensures UnitNewline(us).Some? ==> UnitNewline(us).value > Newline(s).value
  {
    NewlineAt(s);
    var i := Newline(s).value;
    var a, b, c := s[..z], s[z..i + 1], s[i + 1..];
    var pre, post := Singles(a), Singles(c);
    SinglesAre(a);
    SinglesAre(c);
    NewlineAt(a);
    var later := [b] + post;
    us := pre + later;
    ConcatSplit(pre, later);
    assert later[1..] == post && s == a + (b + c);
    assert Fitting(us) by {
      forall k | 0 <= k < |us| ensures |us[k]| <= UNIT_SIZE {
        if k > |pre| { assert us[k] == post[k - |pre| - 1]; }
      }
    }
    SearchGoesOn(pre, later);
    assert b[0] == '\0';
  }

  ghost predicate Finds(us: seq<string>, s: string) {
    Concat(us) == s && Fitting(us) ==> UnitNewline(us) == Newline(s)
  }

  // The first line end of s is found however s is received exactly if it is visible.
  lemma VisibleExactly(s: string)
    ensures Visible(s) <==> forall us :: Finds(us, s)
  {
    if Visible(s) {
      forall us ensures Finds(us, s) { if Concat(us) == s && Fitting(us) { VisibleFound(us); } }
    } else {
      var z :| 0 <= z < Newline(s).value && z < |s| && Newline(s).value - z < UNIT_SIZE && s[z] == '\0';
      var us := HidingUnits(s, z);
      assert !Finds(us, s);
    }
  }

  ghost predicate Frames(us: seq<string>, s: string, announce: Announcer) {
    Concat(us) == s && Fitting(us) ==> UnitFrame(us, announce) == FirstFrame(s, announce)
  }

  // So does the first command, when it is complete: hidden, its line would be longer.
  lemma FrameExactly(s: string, announce: Announcer)
    requires FirstFrame(s, announce).Complete?
    ensures Visible(s) <==> forall us :: Frames(us, s, announce)
  {
    if Visible(s) {
      forall us ensures Frames(us, s, announce) { if Concat(us) == s && Fitting(us) { VisibleFound(us); } }
    } else {
      NewlineAt(s);
      var z :| 0 <= z < Newline(s).value && z < |s| && Newline(s).value - z < UNIT_SIZE && s[z] == '\0';
      var us := HidingUnits(s, z);
      UnitNewlineAt(us);
      var f := UnitFrame(us, announce);
      assert f.Complete? ==> |f.cmd.header| > |FirstFrame(s, announce).cmd.header|;
      assert !Frames(us, s, announce);
    }
  }

  // Every line end of the stream's commands is visible; bodies may hold anything.
  ghost predicate AllVisible(s: string, announce: Announcer)
    decreases |s|
  {
    Visible(s) &&
    match FirstFrame(s, announce)
    case Incomplete => true
    case Complete(_, used) => AllVisible(s[used..], announce)
  }

  lemma {:induction false} DropFits(us: seq<string>, k: nat)
    requires Fitting(us)
    ensures Fitting(Drop(us, k))
  {
    if us != [] {
      forall i | 0 <= i < |us[1..]| ensures |us[1..][i]| <= UNIT_SIZE { assert us[i + 1] == us[1..][i]; }
      if k >= |us[0]| { DropFits(us[1..], k - |us[0]|); }
    }
  }

  // Then framing the units is framing the stream they hold.
  lemma {:induction false} UnitsAgree(us: seq<string>, announce: Announcer)
    requires Fitting(us) && AllVisible(Concat(us), announce)
    ensures UnitCommands(us, announce) == Commands(Concat(us), announce)
    ensures Concat(UnitRest(us, announce)) == Leftover(Concat(us), announce) && Fitting(UnitRest(us, announce))
    decreases |Concat(us)|
  {
    VisibleFound(us);
    var f := UnitFrame(us, announce);
    if f.Complete? {
      DropText(us, f.used);
      DropFits(us, f.used);
      UnitsAgree(Drop(us, f.used), announce);
    }
  }

  lemma VisiblePrefix(s: string, t: string)
    requires Visible(s + t)
    ensures Visible(s)
  {
    if Newline(s).Some? {
      NewlineAt(s);
      NewlineExtends(s, t);
      var i := Newline(s).value;
      forall z | 0 <= z < i && i - z < UNIT_SIZE ensures s[z] != '\0' { assert (s + t)[z] == s[z]; }
    }
  }

  // What is framed of a prefix of a stream, and what is framed after it, is visible if the
  // stream's commands are.
  lemma {:induction false} VisibleSplit(s: string, t: string, announce: Announcer)
    requires Sane(announce) && AllVisible(s + t, announce) && CutSafe(s, announce)
    ensures AllVisible(s, announce) && AllVisible(Leftover(s, announce) + t, announce)
    decreases |s|
  {
    VisiblePrefix(s, t);
    var f := FirstFrame(s, announce);
    if f.Complete? {
      if t != "" { FrameStable(s, t, announce); } else { assert s + t == s; }
      assert (s + t)[f.used..] == s[f.used..] + t;
      VisibleSplit(s[f.used..], t, announce);
    }
  }

  // ---------- chunking ----------

  ghost predicate SafeCuts(chunks: seq<string>, announce: Announcer) {
    forall k :: 0 <= k < |chunks| ==> CutSafe(Concat(chunks[..k]), announce)
  }

  // However the stream is cut into receives, empty ones included, the commands handed on are
  // those of the whole stream and what is held is its rest -- if every line end is visible
  // and no cut leaves a lone newline.
  lemma {:induction false} SafeChunksDoNotMatter(chunks: seq<string>, announce: Announcer)
    requires Sane(announce) && Fitting(chunks)
    requires SafeCuts(chunks, announce) && AllVisible(Concat(chunks), announce)
    ensures Fed(chunks, announce) == Commands(Concat(chunks), announce)
    ensures Concat(Held(chunks, announce)) == Leftover(Concat(chunks), announce) && Fitting(Held(chunks, announce))
  {
    if chunks != [] {
      var init, last := chunks[..|chunks| - 1], chunks[|chunks| - 1];
      assert chunks == init + [last];
      var s := Concat(init);
      ConcatLast(init, last);
      forall k | 0 <= k < |init| ensures CutSafe(Concat(init[..k]), announce) { assert init[..k] == chunks[..k]; }
      assert chunks[..|init|] == init;
      VisibleSplit(s, last, announce);
      SafeChunksDoNotMatter(init, announce);
      var us := Held(init, announce) + [last];
      ConcatLast(Held(init, announce), last);
      UnitsAgree(us, announce);
      CommandsSplit(s, last, announce);
    }
  }

  lemma NoStrayCuts(chunks: seq<string>, announce: Announcer)
    requires Sane(announce) && NoStrayNewline(Concat(chunks), announce)
    ensures SafeCuts(chunks, announce)
  {
    forall k | 0 <= k < |chunks| ensures CutSafe(Concat(chunks[..k]), announce) {
      assert chunks == chunks[..k] + chunks[k..];
      ConcatSplit(chunks[..k], chunks[k..]);
      EveryCutSafe(Concat(chunks[..k]), Concat(chunks[k..]), announce);
    }
  }

  // For a stream without stray newlines and hidden line ends, no way of cutting it matters.
  lemma ChunkingDoesNotMatter(chunks: seq<string>, announce: Announcer)
    requires Sane(announce) && Fitting(chunks)
    requires NoStrayNewline(Concat(chunks), announce) && AllVisible(Concat(chunks), announce)
    ensures Fed(chunks, announce) == Commands(Concat(chunks), announce)
    ensures Concat(Held(chunks, announce)) == Leftover(Concat(chunks), announce)
  {
    NoStrayCuts(chunks, announce);
    SafeChunksDoNotMatter(chunks, announce);
  }

  // ---------- exactly when the cuts matter ----------

  // What is received next, if its line ends are visible, is framed as the stream is.
  ghost predicate Harmless(us: seq<string>, t: string, announce: Announcer) {
    |t| <= UNIT_SIZE && AllVisible(Concat(us) + t, announce) ==>
      Fed(us + [t], announce) == Commands(Concat(us) + t, announce)
  }

  // Among visible line ends, a cut is harmless whatever follows exactly if framing the
  // stream up to it never comes down to a lone newline.
  lemma CutExactly(us: seq<string>, announce: Announcer)
    requires Sane(announce) && Fitting(us) && SafeCuts(us, announce) && AllVisible(Concat(us), announce)
    ensures CutSafe(Concat(us), announce) <==> forall t :: Harmless(us, t, announce)
  {
    var s := Concat(us);
    if CutSafe(s, announce) {
      forall t ensures Harmless(us, t, announce) { SafeCutHarmless(us, t, announce); }
    } else {
      UnsafeCutHarms(us, announce);
      assert !Harmless(us, "\n", announce);
    }
  }

  lemma SafeCutHarmless(us: seq<string>, t: string, announce: Announcer)
    requires Sane(announce) && Fitting(us) && SafeCuts(us, announce) && CutSafe(Concat(us), announce)
    ensures Harmless(us, t, announce)
  {
    if |t| <= UNIT_SIZE && AllVisible(Concat(us) + t, announce) {
      var all := us + [t];
      ConcatLast(us, t);
      forall k | 0 <= k < |all| ensures CutSafe(Concat(all[..k]), announce) {
        assert all[..k] == us[..k];
        if k == |us| { assert us[..k] == us; }
      }
      SafeChunksDoNotMatter(all, announce);
    }
  }

  lemma UnsafeCutHarms(us: seq<string>, announce: Announcer)
    requires Sane(announce) && Fitting(us) && SafeCuts(us, announce) && AllVisible(Concat(us), announce)
    requires !CutSafe(Concat(us), announce)
    ensures AllVisible(Concat(us) + "\n", announce)
    ensures |Fed(us + ["\n"], announce)| == |Commands(Concat(us) + "\n", announce)| + 1
  {
    var s, t := Concat(us), "\n";
    UnsafeStaysVisible(s, announce);
    SafeChunksDoNotMatter(us, announce);
    LoneNewlineSwallows(s, t, announce);
    OneNewline(announce);
    assert t[1..] == "";
    var held := Held(us, announce);
    ConcatLast(held, t);
    Blank(t);
    assert Concat(held + [t]) == t;
    assert Newline(t) == Some(0) && Visible(t) && AllVisible(t[1..], announce);
    UnitsAgree(held + [t], announce);
    FedOneMore(us, t, announce);
  }

  lemma {:induction false} UnsafeStaysVisible(s: string, announce: Announcer)
    requires Sane(announce) && AllVisible(s, announce) && !CutSafe(s, announce)
    ensures AllVisible(s + "\n", announce)
    decreases |s|
  {
    var t := s + "\n";
    if s == "\n" {
      assert Newline(t) == Some(0) && t[..0] == "" && t[2..] == "";
      assert FirstFrame(t, announce) == Complete(Command("", ""), 2);
    } else {
      var f := FirstFrame(s, announce);
      FrameStable(s, "\n", announce);
      assert t[f.used..] == s[f.used..] + "\n";
      UnsafeStaysVisible(s[f.used..], announce);
      VisibleLonger(s, "\n");
    }
  }

  lemma VisibleLonger(s: string, t: string)
    requires Newline(s).Some? && Visible(s)
    ensures Visible(s + t)
  {
    NewlineAt(s);
    NewlineExtends(s, t);
    forall z | 0 <= z < Newline(s).value && Newline(s).value - z < UNIT_SIZE ensures (s + t)[z] != '\0' {
      assert (s + t)[z] == s[z];
    }
  }

  // Received as these chunks, the stream is framed as it is.
  ghost predicate FramedAs(chunks: seq<string>, s: string, announce: Announcer) {
    Concat(chunks) == s && Fitting(chunks) ==> Fed(chunks, announce) == Commands(s, announce)
  }

  // A stream of complete commands, none of which starts with a newline, is framed alike
  // however it is received exactly if all its line ends are visible.
  lemma StreamExactly(s: string, announce: Announcer)
    requires Sane(announce) && NoStrayNewline(s, announce) && Leftover(s, announce) == ""
    ensures AllVisible(s, announce) <==> forall chunks :: FramedAs(chunks, s, announce)
  {
    if AllVisible(s, announce) {
      forall chunks ensures FramedAs(chunks, s, announce) {
        if Concat(chunks) == s && Fitting(chunks) { ChunkingDoesNotMatter(chunks, announce); }
      }
    } else {
      var chunks := FramedOtherwise(s, announce);
      assert !FramedAs(chunks, s, announce);
    }
  }

  // The commands before the first hidden line end arrive octet by octet, and that line in
  // units that hide its end.
  lemma {:induction false} FramedOtherwise(s: string, announce: Announcer) returns (chunks: seq<string>)
    requires Sane(announce) && NoStrayNewline(s, announce) && Leftover(s, announce) == ""
    requires !AllVisible(s, announce)
    ensures Concat(chunks) == s && Fitting(chunks) && Fed(chunks, announce) != Commands(s, announce)
    decreases |s|
  {
    var f := FirstFrame(s, announce);
    assert f.Complete?;
    if Visible(s) {
      var first, rest := s[..f.used], s[f.used..];
      var more := FramedOtherwise(rest, announce);
      assert s == first + rest;
      OneCommandAlone(s, announce);
      SinglesAre(first);
      chunks := Singles(first) + more;
      ConcatSplit(Singles(first), more);
      FedJoined(Singles(first), more, announce);
      assert Commands(s, announce) == [f.cmd] + Commands(rest, announce);
      StillDiffers(f.cmd, Fed(more, announce), Commands(rest, announce));
      FittingBoth(Singles(first), more);
    } else {
      chunks := HiddenLine(s, announce);
    }
  }

  lemma StillDiffers(cmd: Command, a: seq<Command>, b: seq<Command>)
    requires a != b
    ensures [cmd] + a != [cmd] + b
  {
    assert ([cmd] + a)[1..] == a && ([cmd] + b)[1..] == b;
  }

  lemma FittingBoth(a: seq<string>, b: seq<string>)
    requires Fitting(a) && Fitting(b)
    ensures Fitting(a + b)
  {
  }

  // Units that hide the line end of the first command yield another command or none.
  lemma HiddenLine(s: string, announce: Announcer) returns (chunks: seq<string>)
    requires FirstFrame(s, announce).Complete? && !Visible(s)
    ensures Concat(chunks) == s && Fitting(chunks) && Fed(chunks, announce) != Commands(s, announce)
  {
    NewlineAt(s);
    var z :| 0 <= z < Newline(s).value && z < |s| && Newline(s).value - z < UNIT_SIZE && s[z] == '\0';
    chunks := HidingUnits(s, z);
    FirstHeader(chunks, announce);
    UnitNewlineAt(chunks);
    var f := FirstFrame(s, announce);
    assert Commands(s, announce)[0] == f.cmd && |f.cmd.header| == HeaderLen(Newline(s).value);
  }

  // Nothing handed on means nothing taken out.
  lemma {:induction false} NothingYet(us: seq<string>, announce: Announcer)
    requires Fed(us, announce) == []
    ensures Held(us, announce) == us
  {
    if us != [] {
      var init, last := us[..|us| - 1], us[|us| - 1];
      NothingYet(init, announce);
      assert UnitFrame(init + [last], announce).Incomplete?;
      assert us == init + [last];
    }
  }

  // The first command handed on ends where the search through all units ends.
  lemma {:induction false} FirstHeader(us: seq<string>, announce: Announcer)
    ensures Fed(us, announce) != [] ==>
      UnitNewline(us).Some? && |Fed(us, announce)[0].header| == HeaderLen(UnitNewline(us).value)
  {
    if us != [] {
      var init, last := us[..|us| - 1], us[|us| - 1];
      assert us == init + [last];
      FedOneMore(init, last, announce);
      FirstHeader(init, announce);
      if Fed(init, announce) == [] {
        NothingYet(init, announce);
        UnitNewlineAt(us);
        assert Fed(us, announce) == UnitCommands(us, announce);
      } else {
        UnitNewlineExtends(init, [last]);
      }
    }
  }

  // A connection that holds nothing goes on as a new one.
  lemma {:induction false} FedJoined(pre: seq<string>, us: seq<string>, announce: Announcer)
    requires Held(pre, announce) == []
    ensures Fed(pre + us, announce) == Fed(pre, announce) + Fed(us, announce)
    ensures Held(pre + us, announce) == Held(us, announce)
  {
    if us == [] {
      assert pre + us == pre;
      Blank(Fed(pre, announce));
    } else {
      var init, last := us[..|us| - 1], us[|us| - 1];
      assert us == init + [last] && pre + us == pre + init + [last];
      FedJoined(pre, init, announce);
      FedOneMore(pre + init, last, announce);
      FedOneMore(init, last, announce);
      Joined(Fed(pre, announce), Fed(init, announce), UnitCommands(Held(init, announce) + [last], announce));
    }
  }

  // The first command of a stream by itself, octet by octet: it is handed on and nothing is held.
  lemma OneCommandAlone(s: string, announce: Announcer)
    requires Sane(announce) && FirstFrame(s, announce).Complete? && Visible(s) && s[0] != '\n'
    ensures var f := FirstFrame(s, announce); var chunks := Singles(s[..f.used]);
      Fed(chunks, announce) == [f.cmd] && Held(chunks, announce) == []
  {
    var f := FirstFrame(s, announce);
    var first := s[..f.used];
    FrameAlone(s, announce);
    assert first[f.used..] == "";
    assert Commands("", announce) == [] && Leftover("", announce) == "";
    assert first[0] == s[0] && NoStrayNewline(first, announce);
    assert s == first + s[f.used..];
    VisiblePrefix(first, s[f.used..]);
    assert AllVisible("", announce);
    SinglesAre(first);
    ChunkingDoesNotMatter(Singles(first), announce);
    HeldSolid(Singles(first), announce);
  }

  lemma FrameAlone(s: string, announce: Announcer)
    requires FirstFrame(s, announce).Complete? && s[0] != '\n'
    ensures FirstFrame(s[..FirstFrame(s, announce).used], announce) == FirstFrame(s, announce)
  {
    var f := FirstFrame(s, announce);
    NewlineAt(s);
    var i, first := Newline(s).value, s[..f.used];
    var h := HeaderLen(i);
    NewlineAt(first);
    assert i > 0 && f.used > i && first[i] == '\n';
    assert s == first + s[f.used..];
    NewlineExtends(first, s[f.used..]);
    assert first[..h] == s[..h];
    if announce(s[..h]).Some? {
      var b := Clamp(announce(s[..h]).value);
      assert first[h + 2..h + 2 + b] == s[h + 2..h + 2 + b];
    }
  }

  // No empty pieces.
  ghost predicate Solid(us: seq<string>) {
    forall i :: 0 <= i < |us| ==> us[i] != ""
  }

  lemma {:induction false} DropSolid(us: seq<string>, k: nat)
    requires Solid(us)
    ensures Solid(Drop(us, k))
  {
    if us != [] {
      forall i | 0 <= i < |us[1..]| ensures us[1..][i] != "" { assert us[i + 1] == us[1..][i]; }
      if k >= |us[0]| { DropSolid(us[1..], k - |us[0]|); }
    }
  }

  lemma {:induction false} RestSolid(us: seq<string>, announce: Announcer)
    requires Solid(us)
    ensures Solid(UnitRest(us, announce))
    decreases |Concat(us)|
  {
    var f := UnitFrame(us, announce);
    if f.Complete? {
      DropText(us, f.used);
      DropSolid(us, f.used);
      RestSolid(Drop(us, f.used), announce);
    }
  }

  lemma {:induction false} HeldSolid(us: seq<string>, announce: Announcer)
    requires Solid(us)
    ensures Solid(Held(us, announce)) && (Concat(Held(us, announce)) == "" ==> Held(us, announce) == [])
  {
    if us != [] {
      var init, last := us[..|us| - 1], us[|us| - 1];
      HeldSolid(init, announce);
      RestSolid(Held(init, announce) + [last], announce);
    }
    var held := Held(us, announce);
    if held != [] { assert held[0] != "" && |Concat(held)| >= |held[0]|; }
  }

  // ---------- two streams that depend on the cuts ----------

  lemma OneReceive(s: string, announce: Announcer)
    ensures Fed([s], announce) == UnitCommands([s], announce) && Held([s], announce) == UnitRest([s], announce)
  {
    assert [s][..0] == [] && [] + [s] == [s];
    assert Fed([], announce) + UnitCommands([s], announce) == UnitCommands([s], announce);
  }

  lemma TwoReceives(s: string, t: string, announce: Announcer)
    ensures Fed([s, t], announce) == UnitCommands([s], announce) + UnitCommands(UnitRest([s], announce) + [t], announce)
  {
    OneReceive(s, announce);
    assert [s, t] == [s] + [t];
    FedOneMore([s], t, announce);
  }

  // A short stream in one unit, without zero octets, is framed as a stream.
  lemma OneUnit(s: string, announce: Announcer)
    requires |s| <= UNIT_SIZE && ZeroFree(s)
    ensures UnitCommands([s], announce) == Commands(s, announce)
    ensures Concat(UnitRest([s], announce)) == Leftover(s, announce)
  {
    ConcatOne(s);
    ZeroFreeVisible(s, announce);
    UnitsAgree([s], announce);
  }

  lemma {:induction false} ZeroFreeVisible(s: string, announce: Announcer)
    requires ZeroFree(s)
    ensures AllVisible(s, announce)
    decreases |s|
  {
    var f := FirstFrame(s, announce);
    if f.Complete? { ZeroFreeVisible(s[f.used..], announce); }
  }

  // A stray newline: cut behind it, the same stream yields another command.
  lemma StrayNewlineMatters(announce: Announcer)
    requires announce("").None? && announce("x").None? && announce("yx").None?
    ensures Fed(["\nyx\r\n"], announce) == [Command("", ""), Command("x", "")]
    ensures Fed(["\n", "yx\r\n"], announce) == [Command("", ""), Command("yx", "")]
  {
    StrayUncut(announce);
    StrayCut(announce);
  }

  lemma StrayUncut(announce: Announcer)
    requires announce("").None? && announce("x").None?
    ensures Fed(["\nyx\r\n"], announce) == [Command("", ""), Command("x", "")]
  {
    var whole := "\nyx\r\n";
    assert whole[..0] == "" && whole[2..] == "x\r\n" && "x\r\n"[..1] == "x" && "x\r\n"[3..] == "";
    assert "x\r\n"[1..] == "\r\n" && "\r\n"[1..] == "\n";
    assert Newline("\n") == Some(0) && Newline("\r\n") == Some(1) && Newline("x\r\n") == Some(2);
    OneNewline(announce);
    assert Commands("x\r\n", announce) == [Command("x", "")];
    assert Commands(whole, announce) == [Command("", ""), Command("x", "")];
    OneReceive(whole, announce);
    OneUnit(whole, announce);
  }

  lemma StrayCut(announce: Announcer)
    requires announce("").None? && announce("yx").None?
    ensures Fed(["\n", "yx\r\n"], announce) == [Command("", ""), Command("yx", "")]
  {
    var t := "yx\r\n";
    assert t[..2] == "yx" && t[4..] == "" && t[1..] == "x\r\n" && "x\r\n"[1..] == "\r\n" && "\r\n"[1..] == "\n";
    assert Newline("\n") == Some(0) && Newline("\r\n") == Some(1);
    assert Newline("x\r\n") == Some(2) && Newline(t) == Some(3);
    OneNewline(announce);
    assert Commands(t, announce) == [Command("yx", "")];
    OneUnit("\n", announce);
    OneUnit(t, announce);
    ConcatOne("\n");
    assert UnitFrame(["\n"], announce) == Complete(Command("", ""), 1) && UnitRest(["\n"], announce) == [];
    assert [] + [t] == [t];
    TwoReceives("\n", t, announce);
  }

  // A zero octet in a line: received whole, the newline behind it is not found; cut between
  // them, it is.
  lemma ZeroOctetMatters(announce: Announcer)
    requires announce("a\0b").None?
    ensures var whole := "a\0b\r\n";
      && Fed([whole], announce) == [] && Held([whole], announce) == [whole]
      && Fed(["a\0", "b\r\n"], announce) == [Command("a\0b", "")]
      && NoStrayNewline(whole, announce) && !Visible(whole)
  {
    var whole := "a\0b\r\n";
    ZeroUncut(announce);
    ZeroCut(announce);
    ZeroLine();
    assert whole[1] == '\0' && whole[..3] == "a\0b" && whole[5..] == "";
  }

  lemma ZeroLine()
    ensures Newline("a\0b\r\n") == Some(4) && Newline("b\r\n") == Some(2)
    ensures FindNewline("a\0b\r\n").None? && FindNewline("a\0").None? && FindNewline("b\r\n") == Some(2)
  {
    assert "a\0b\r\n"[1..] == "\0b\r\n" && "\0b\r\n"[1..] == "b\r\n" && "b\r\n"[1..] == "\r\n" && "\r\n"[1..] == "\n";
    assert "a\0"[1..] == "\0";
    assert Newline("\r\n") == Some(1) && FindNewline("\r\n") == Some(1);
  }

  lemma ZeroUncut(announce: Announcer)
    ensures Fed(["a\0b\r\n"], announce) == [] && Held(["a\0b\r\n"], announce) == ["a\0b\r\n"]
  {
    ZeroLine();
    OneReceive("a\0b\r\n", announce);
  }

  lemma ZeroCut(announce: Announcer)
    requires announce("a\0b").None?
    ensures Fed(["a\0", "b\r\n"], announce) == [Command("a\0b", "")]
  {
    var whole, s, t := "a\0b\r\n", "a\0", "b\r\n";
    ZeroLine();
    TwoReceives(s, t, announce);
    assert [s] + [t] == [s, t] && [s, t][1..] == [t];
    ConcatLast([s], t);
    ConcatOne(s);
    assert s + t == whole && whole[..3] == "a\0b";
    assert UnitNewline([t]) == Some(2) && UnitNewline([s, t]) == Some(4);
    assert UnitFrame([s, t], announce) == Complete(Command("a\0b", ""), 5);
    assert Drop([s, t], 5) == Drop([t], 3) == [];
    assert UnitCommands([], announce) == [];
  }
}
