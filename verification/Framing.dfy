/** Cutting a byte stream into commands: the framing that the server computes piecemeal on
    its buffer chain, here as a function of the whole stream. */
module Framing {
  import opened Sequences

  // What a command line announces: None, or the length of a body as written in the line.
  type Announcer = string -> Option<int>

  const VALUE_LIMIT: int := 1000000

  function Clamp(n: int): nat {
    if n < 0 then 0 else if n > VALUE_LIMIT then VALUE_LIMIT else n
  }

  datatype Command = Command(header: string, body: string)

  // Position of the first newline.
  function Newline(s: string): Option<nat> {
    if s == "" then None
    else if s[0] == '\n' then Some(0)
    else match Newline(s[1..]) case None => None case Some(i) => Some(i + 1)
  }

  // Length of the command line: the newline and the character before it are dropped, if
  // there is a character before it.
  function HeaderLen(newline: nat): nat {
    if newline > 0 then newline - 1 else 0
  }

  datatype Frame = Incomplete | Complete(cmd: Command, used: nat)

  // The first command of a stream whose first line ends at nl, and how many octets it takes.
  function FrameAt(s: string, nl: Option<nat>, announce: Announcer): (f: Frame)
    requires nl.Some? ==> nl.value < |s|
    ensures f.Complete? ==> 0 < f.used <= |s|
  {
    match nl
    case None => Incomplete
    case Some(i) =>
      var h := HeaderLen(i);
      match announce(s[..h])
      case None => Complete(Command(s[..h], ""), if h + 2 <= |s| then h + 2 else |s|)
      case Some(n) =>
        var b := Clamp(n);
        if h + 4 + b <= |s| then Complete(Command(s[..h], s[h + 2..h + 2 + b]), h + 4 + b) else Incomplete
  }

  function FirstFrame(s: string, announce: Announcer): (f: Frame)
    ensures f.Complete? ==> 0 < f.used <= |s|
  {
    NewlineAt(s);
    FrameAt(s, Newline(s), announce)
  }

  lemma {:induction false} NewlineAt(s: string)
    ensures Newline(s).Some? ==>
      var i := Newline(s).value;
      i < |s| && s[i] == '\n' && forall j :: 0 <= j < i ==> s[j] != '\n'
    ensures Newline(s).None? ==> forall j :: 0 <= j < |s| ==> s[j] != '\n'
  {
    if s != "" && s[0] != '\n' { NewlineAt(s[1..]); }
  }

  // All complete commands of a stream, and what is left over.
  function Commands(s: string, announce: Announcer): seq<Command>
    decreases |s|
  {
    match FirstFrame(s, announce)
    case Incomplete => []
    case Complete(cmd, used) => [cmd] + Commands(s[used..], announce)
  }

  function Leftover(s: string, announce: Announcer): string
    decreases |s|
  {
    match FirstFrame(s, announce)
    case Incomplete => s
    case Complete(_, used) => Leftover(s[used..], announce)
  }

  // ---------- chunking ----------

  // Only lines long enough to have a character dropped before their newline announce bodies.
  ghost predicate Sane(announce: Announcer) {
    announce("").None?
  }

  lemma {:induction false} NewlineExtends(s: string, t: string)
    requires Newline(s).Some?
    ensures Newline(s + t) == Newline(s)
  {
    assert (s + t)[0] == s[0];
    if s[0] != '\n' {
      NewlineExtends(s[1..], t);
      assert (s + t)[1..] == s[1..] + t;
    }
  }

  lemma {:induction false} NewlineConcat(a: string, b: string)
    requires Newline(a).None?
    ensures Newline(a + b) == match Newline(b) case None => None case Some(i) => Some(|a| + i)
  {
    if a == "" {
      assert a + b == b;
    } else {
      assert (a + b)[1..] == a[1..] + b && (a + b)[0] == a[0];
      NewlineConcat(a[1..], b);
    }
  }

  // A complete first command stays the first command whatever arrives after it -- unless
  // the stream so far is a lone newline, where the next octet is swallowed with it.
  lemma FrameStable(s: string, t: string, announce: Announcer)
    requires Sane(announce) && FirstFrame(s, announce).Complete? && t != ""
    ensures FirstFrame(s + t, announce) == FirstFrame(s, announce) <==> s != "\n"
  {
    NewlineAt(s);
    NewlineExtends(s, t);
    var i := Newline(s).value;
    var h := HeaderLen(i);
    assert (s + t)[..h] == s[..h] && s[..0] == "";
    match announce(s[..h]) {
      case None =>
        if h + 2 > |s| { assert i == 0 && |s| == 1; assert s == "\n"; }
      case Some(n) =>
        var b := Clamp(n);
        assert h > 0;
        assert (s + t)[h + 2..h + 2 + b] == s[h + 2..h + 2 + b];
    }
  }

  // Framing s never comes down to a lone newline: what a stream cut after s needs.
  ghost predicate CutSafe(s: string, announce: Announcer)
    decreases |s|
  {
    && s != "\n"
    && match FirstFrame(s, announce)
       case Incomplete => true
       case Complete(_, used) => CutSafe(s[used..], announce)
  }

  // Framing what has arrived, keeping the rest, and framing that together with what comes
  // later is framing everything at once.
  lemma {:induction false} CommandsSplit(s: string, t: string, announce: Announcer)
    requires Sane(announce) && CutSafe(s, announce)
    ensures Commands(s + t, announce) == Commands(s, announce) + Commands(Leftover(s, announce) + t, announce)
    ensures Leftover(s + t, announce) == Leftover(Leftover(s, announce) + t, announce)
    decreases |s|
  {
    match FirstFrame(s, announce)
    case Incomplete =>
      assert [] + Commands(s + t, announce) == Commands(s + t, announce);
    case Complete(cmd, used) =>
      if t == "" {
        assert s + t == s;
      } else {
        FrameStable(s, t, announce);
      }
      assert (s + t)[used..] == s[used..] + t;
      CommandsSplit(s[used..], t, announce);
      Joined([cmd], Commands(s[used..], announce), Commands(Leftover(s, announce) + t, announce));
  }

  lemma OneNewline(announce: Announcer)
    requires Sane(announce)
    ensures Commands("\n", announce) == [Command("", "")] && Leftover("\n", announce) == ""
    ensures Commands("", announce) == []
  {
    assert "\n"[..0] == "" && "\n"[1..] == "";
  }

  lemma SwallowsOne(t: string, announce: Announcer)
    requires Sane(announce) && t != ""
    ensures Commands("\n" + t, announce) == Commands("\n", announce) + Commands(t[1..], announce)
    ensures Leftover("\n" + t, announce) == Leftover(t[1..], announce) && Leftover("\n", announce) == ""
  {
    var s := "\n" + t;
    OneNewline(announce);
    assert s[2..] == t[1..] && s[..0] == "" && Newline(s) == Some(0);
    assert FirstFrame(s, announce) == Complete(Command("", ""), 2);
  }

  // Where the condition fails, exactly one octet is at stake: uncut, the first octet after
  // the newline is swallowed with it; cut there, it is not.
  lemma {:induction false} LoneNewlineSwallows(s: string, t: string, announce: Announcer)
    requires Sane(announce) && !CutSafe(s, announce) && t != ""
    ensures Leftover(s, announce) == ""
    ensures Commands(s + t, announce) == Commands(s, announce) + Commands(t[1..], announce)
    ensures Leftover(s + t, announce) == Leftover(t[1..], announce)
    decreases |s|
  {
    if s == "\n" {
      SwallowsOne(t, announce);
    } else {
      var f := FirstFrame(s, announce);
      FrameStable(s, t, announce);
      assert (s + t)[f.used..] == s[f.used..] + t;
      LoneNewlineSwallows(s[f.used..], t, announce);
      Joined([f.cmd], Commands(s[f.used..], announce), Commands(t[1..], announce));
    }
  }

  // Cutting the stream after s makes no difference to the commands if t follows.
  ghost predicate Seamless(s: string, t: string, announce: Announcer) {
    Commands(s + t, announce) == Commands(s, announce) + Commands(Leftover(s, announce) + t, announce)
  }

  // A cut after s is harmless whatever follows exactly if framing s never comes down to a
  // lone newline.
  lemma CutSafeExactly(s: string, announce: Announcer)
    requires Sane(announce)
    ensures CutSafe(s, announce) <==> forall t :: Seamless(s, t, announce)
  {
    if CutSafe(s, announce) {
      forall t ensures Seamless(s, t, announce) { CommandsSplit(s, t, announce); }
    } else {
      var t := "\n";
      LoneNewlineSwallows(s, t, announce);
      assert t[1..] == "" && Leftover(s, announce) + t == t;
      OneNewline(announce);
      assert !Seamless(s, t, announce);
    }
  }

  // No command of the stream starts with a newline: then every cut is safe.
  ghost predicate NoStrayNewline(s: string, announce: Announcer)
    decreases |s|
  {
    && (s != "" ==> s[0] != '\n')
    && match FirstFrame(s, announce)
       case Incomplete => true
       case Complete(_, used) => NoStrayNewline(s[used..], announce)
  }

  lemma {:induction false} EveryCutSafe(s: string, t: string, announce: Announcer)
    requires Sane(announce) && NoStrayNewline(s + t, announce)
    ensures CutSafe(s, announce)
    decreases |s|
  {
    if s != "" { assert (s + t)[0] == s[0]; }
    match FirstFrame(s, announce)
    case Incomplete =>
    case Complete(_, used) =>
      if t != "" { FrameStable(s, t, announce); } else { assert s + t == s; }
      assert (s + t)[used..] == s[used..] + t;
      EveryCutSafe(s[used..], t, announce);
  }
}
