/** One connection of a worker: its buffer chains, and the framing state machine that cuts
    commands out of the input chain. */
module Connection {
  import opened Sequences
  import opened BufferPool
  import opened BufferChain
  import opened Framing
  import opened UnitFraming

  // A position counted from n octets further on.
  function Past(n: nat, found: Option<nat>): Option<nat> {
    match found case None => None case Some(i) => Some(n + i)
  }

  // Unit q is the first of the units us, which hold the pieces bs.
  ghost predicate OnChain(d: seq<Unit>, q: int, us: seq<nat>, bs: seq<string>) {
    Linked(d, q, us) && InBounds(us, |d|) && bs == Bytes(d, us)
  }

  lemma UnitOnChain(d: seq<Unit>, q: int, us: seq<nat>, bs: seq<string>)
    requires OnChain(d, q, us, bs) && q != NULL
    ensures 0 <= q < |d| && us != [] && bs != [] && bs[0] == d[q].bytes
    ensures OnChain(d, d[q].next, us[1..], bs[1..])
  {
  }

  lemma SearchedOne(n: nat, b: string, us: seq<string>)
    requires us != [] && us[0] == b
    ensures FindNewline(b).Some? ==> Past(n, UnitNewline(us)) == Past(n, FindNewline(b))
    ensures FindNewline(b).None? ==> Past(n, UnitNewline(us)) == Past(n + |b|, UnitNewline(us[1..]))
  {
  }

  // The first command of the units, if there is one, is cmd, and rest is what follows it.
  ghost predicate Next(us: seq<string>, announce: Announcer, found: bool, cmd: Command, rest: seq<string>) {
    var f := UnitFrame(us, announce);
    if f.Incomplete? then !found && rest == us else found && cmd == f.cmd && rest == Drop(us, f.used)
  }

  // Octets a line of length h takes with its line end, and with a body of length n and its.
  function LineSize(h: nat): nat {
    h + 2
  }

  function ItemSize(h: nat, n: nat): nat {
    h + 4 + n
  }

  class IoData {
    const pool: Pool
    const input: Chain
    const output: Chain
    const announce: Announcer
    var inBufLen: int
    var headerLen: nat
    var bodyLen: int
    var isWriteCmd: bool

    // What the connection has received and handed on, and been given to send and sent.
    ghost var received: seq<string>
    ghost var handed: seq<Command>
    ghost var queued: string
    ghost var sent: string

    ghost predicate ChainsOk()
      reads input, output, pool, pool.base
    {
      input.Valid(pool) && output.Valid(pool) && input != output && input.id != output.id && Sane(announce)
    }

    // The octets of the input chain, unit by unit.
    ghost function Units(): seq<string>
      requires ChainsOk()
      reads input, output, pool, pool.base
    {
      input.Pieces(pool)
    }

    ghost function Pending(): string
      requires ChainsOk()
      reads input, output, pool, pool.base
    {
      Concat(Units())
    }

    lemma PendingIsText()
      requires ChainsOk()
      ensures input.Text(pool) == Pending()
    {
      LinkedFrame(pool.base[..], pool.base[..], input.head, input.us);
      ContentIsConcat(pool.base[..], input.us);
    }

    // The line of length h has been looked at: what it announces is recorded.
    ghost predicate Looked(text: string, h: nat)
      requires h <= |text|
      reads this`headerLen, this`bodyLen, this`isWriteCmd
    {
      match announce(text[..h])
      case None => !isWriteCmd && bodyLen == 0
      case Some(n) => isWriteCmd && bodyLen == Clamp(n)
    }

    // The first line of the units is found, and what it announces is recorded.
    ghost predicate LineKnown(us: seq<string>)
      reads this`headerLen, this`bodyLen, this`isWriteCmd
    {
      && UnitNewline(us).Some? && headerLen == HeaderLen(UnitNewline(us).value) <= |Concat(us)|
      && Looked(Concat(us), headerLen)
    }

    // A line already found stays found, with its announcement, until its command is read.
    ghost predicate LineState(us: seq<string>)
      reads this`headerLen, this`bodyLen, this`isWriteCmd
    {
      if headerLen > 0
      then UnitNewline(us) == Some(headerLen + 1) && LineKnown(us)
      else bodyLen == -1
    }

    // The books agree with the units.
    ghost predicate InBooks(us: seq<string>)
      reads this`inBufLen, this`headerLen, this`bodyLen, this`isWriteCmd
    {
      inBufLen == |Concat(us)| && LineState(us)
    }

    ghost predicate Intact()
      reads this`inBufLen, this`headerLen, this`bodyLen, this`isWriteCmd, input, output, pool, pool.base
    {
      ChainsOk() && InBooks(Units())
    }

    // The connection has handed on exactly what the chunks received amount to, and holds the rest.
    ghost predicate HandedOn(us: seq<string>)
      reads this`received, this`handed
    {
      handed == Fed(received, announce) && us == Held(received, announce)
    }

    // What it has sent and still has to send is all it was given to send.
    ghost predicate SentOn(text: string)
      reads this`queued, this`sent
    {
      sent + text == queued
    }

    ghost predicate Valid()
      reads this, input, output, pool, pool.base
    {
      Intact() && HandedOn(Units()) && SentOn(output.Text(pool))
    }

    // alloc_io_data.
    constructor (pool: Pool, announce: Announcer, ghost inId: nat, ghost outId: nat)
      requires pool.Valid() && Sane(announce)
      requires inId > 0 && outId > 0 && inId != outId && inId !in pool.owner && outId !in pool.owner
      ensures this.pool == pool && this.announce == announce && fresh(input) && fresh(output)
      ensures Valid() && Pending() == "" && output.Text(pool) == "" && input.id == inId && output.id == outId
      ensures received == [] && handed == [] && queued == "" && sent == ""
    {
      this.pool := pool;
      this.announce := announce;
      input := new Chain(pool, inId);
      output := new Chain(pool, outId);
      inBufLen, headerLen, bodyLen, isWriteCmd := 0, 0, -1, false;
      received, handed, queued, sent := [], [], "", "";
    }

    // has_header's loop: the first line end in the units, as far as the search in each goes.
    method SearchUnits() returns (pos: Option<nat>)
      requires ChainsOk()
      ensures pos == UnitNewline(Units())
    {
      ghost var d := pool.base[..];
      ghost var whole, us, rest := UnitNewline(Units()), input.us, Units();
      var q, hdLen: nat := input.head, 0;
      LinkedFrame(d, d, input.head, input.us);
      while q != NULL
        invariant OnChain(d, q, us, rest) && whole == Past(hdLen, UnitNewline(rest))
        decreases |us|
      {
        UnitOnChain(d, q, us, rest);
        var b := pool.base[q].bytes;
        var here := FindNewline(b);
        SearchedOne(hdLen, b, rest);
        if here.Some? {
          pos := Past(hdLen, here);
          return;
        }
        us, rest := us[1..], rest[1..];
        hdLen, q := hdLen + |b|, pool.base[q].next;
      }
      pos := None;
      assert rest == [];
    }

    // has_header.
    method HasHeader() returns (found: bool)
      requires Intact()
      modifies this`headerLen
      ensures found <==> UnitNewline(Units()).Some?
      ensures if found then headerLen == HeaderLen(UnitNewline(Units()).value) else headerLen == 0
    {
      if input.head == NULL { return false; }
      if headerLen > 0 { return true; }
      var pos := SearchUnits();
      if pos.Some? && pos.value > 0 { headerLen := pos.value - 1; }
      found := pos.Some?;
    }

    // get_body_len: copies the line out of the chain and looks at what it announces.
    method GetBodyLen()
      requires ChainsOk() && headerLen <= |Pending()|
      requires bodyLen < 0 || Looked(Pending(), headerLen)
      modifies this`bodyLen, this`isWriteCmd
      ensures bodyLen >= 0 && Looked(Pending(), headerLen)
    {
      if bodyLen >= 0 { return; }
      var q, line := input.head, "";
      ghost var us := input.us;
      LinkedFrame(pool.base[..], pool.base[..], input.head, input.us);
      PendingIsText();
      ghost var text := Pending();
      while q != NULL && |line| < headerLen
        invariant Linked(pool.base[..], q, us) && InBounds(us, pool.base.Length)
        invariant line + Content(pool.base[..], us) == text
        decreases |us|
      {
        var b := pool.base[q].bytes;
        Joined(line, b, Content(pool.base[..], us[1..]));
        line, q, us := line + b, pool.base[q].next, us[1..];
      }
      LineCopied(line, Content(pool.base[..], us), text, headerLen);
      var found := announce(line[..headerLen]);
      match found {
        case Some(n) =>
          bodyLen := if n < 0 then 0 else if n > VALUE_LIMIT then VALUE_LIMIT else n;
          isWriteCmd := true;
        case None =>
          bodyLen, isWriteCmd := 0, false;
      }
    }

    // has_body: for a line that announces a body, whether the first command is complete.
    method HasBody() returns (r: bool)
      requires bodyLen >= 0 ==> ChainsOk() && inBufLen == |Pending()| && LineKnown(Units()) && isWriteCmd
      ensures r <==> bodyLen >= 0 && UnitFrame(Units(), announce).Complete?
    {
      if bodyLen < 0 { return false; }
      r := inBufLen >= headerLen + 4 + bodyLen;
    }

    // read_header and read_body: the line, and the announced body, leave the chain.
    method ReadLine(len: nat) returns (s: string)
      requires ChainsOk() && Pending() != "" && len <= |Pending()| && pool.free != []
      modifies input`head, input`tail, input`us, pool`head, pool`free, pool`owner, pool.base
      ensures ChainsOk() && PartOf(s, old(Pending()), 0, len) && Without(Units(), old(Units()), LineSize(len))
      ensures output.Text(pool) == old(output.Text(pool)) && output.us == old(output.us)
      ensures |pool.free| + |input.us| == old(|pool.free| + |input.us|)
      ensures |pool.free| >= old(|pool.free|) && pool.free != []
      ensures Apart(old(pool.base[..]), old(pool.owner), pool.base[..], pool.owner, input.id)
    {
      ghost var d, o, text := pool.base[..], pool.owner, Pending();
      PendingIsText();
      var line := input.Take(pool, LineSize(len));
      output.Kept(pool, d, o, input.id);
      s := line[..len];
      assert s == text[0..0 + len];
    }

    // fix_buf_len: what is left in the books is what is left of the units once the first
    // command has been taken out.
    method FixBufLen(ghost us: seq<string>)
      requires LineKnown(us) && inBufLen == |Concat(us)| && UnitFrame(us, announce).Complete?
      modifies this`inBufLen, this`headerLen, this`bodyLen
      ensures headerLen == 0 && bodyLen == -1
      ensures inBufLen == |Concat(us)| - UnitFrame(us, announce).used
    {
      UnitNewlineAt(us);
      if isWriteCmd {
        inBufLen := inBufLen - (headerLen + bodyLen + 4);
      } else {
        inBufLen := inBufLen - (headerLen + bodyLen + 2);
      }
      if inBufLen < 0 { inBufLen := 0; }
      headerLen := 0;
      bodyLen := -1;
    }

    // read_body, after read_header has taken the line off the units us.
    method ReadBody(ghost us: seq<string>) returns (body: string)
      requires ChainsOk() && Without(Units(), us, LineSize(headerLen)) && pool.free != [] && bodyLen >= 0
      requires |Concat(us)| >= ItemSize(headerLen, bodyLen)
      modifies input`head, input`tail, input`us, pool`head, pool`free, pool`owner, pool.base
      ensures ChainsOk() && pool.free != []
      ensures PartOf(body, Concat(us), LineSize(headerLen), bodyLen)
      ensures Without(Units(), us, ItemSize(headerLen, bodyLen))
      ensures output.Text(pool) == old(output.Text(pool)) && output.us == old(output.us)
      ensures |pool.free| + |input.us| == old(|pool.free| + |input.us|) && |pool.free| >= old(|pool.free|)
      ensures Apart(old(pool.base[..]), old(pool.owner), pool.base[..], pool.owner, input.id)
    {
      ghost var rest, h, n: nat := Units(), headerLen, bodyLen;
      BodyThere(us, h, n, rest);
      body := ReadLine(bodyLen);
      ghost var last := Units();
      BodyTaken(us, h, n, rest, body, last);
      assert headerLen == h && bodyLen == n;
    }

    // read_header and, for a command with a body, read_body.
    method ReadParts(ghost us: seq<string>) returns (header: string, body: string)
      requires ChainsOk() && Units() == us && pool.free != [] && Concat(us) != "" && headerLen <= |Concat(us)|
      requires bodyLen >= 0 && (isWriteCmd ==> |Concat(us)| >= ItemSize(headerLen, bodyLen))
      modifies input`head, input`tail, input`us, pool`head, pool`free, pool`owner, pool.base
      ensures ChainsOk() && pool.free != []
      ensures PartOf(header, Concat(us), 0, headerLen)
      ensures isWriteCmd ==>
        PartOf(body, Concat(us), LineSize(headerLen), bodyLen) && Without(Units(), us, ItemSize(headerLen, bodyLen))
      ensures !isWriteCmd ==> body == "" && Without(Units(), us, LineSize(headerLen))
      ensures output.Text(pool) == old(output.Text(pool)) && output.us == old(output.us)
      ensures |pool.free| + |input.us| == old(|pool.free| + |input.us|) && |pool.free| >= old(|pool.free|)
      ensures Apart(old(pool.base[..]), old(pool.owner), pool.base[..], pool.owner, input.id)
    {
      ghost var d, o, h, n := pool.base[..], pool.owner, headerLen, bodyLen;
      body := "";
      header := ReadLine(headerLen);
      ghost var d1, o1, rest := pool.base[..], pool.owner, Units();
      assert headerLen == h && bodyLen == n && Without(rest, us, LineSize(h));
      if isWriteCmd {
        body := ReadBody(us);
        assert headerLen == h && bodyLen == n;
        ApartTransitive(d, o, d1, o1, pool.base[..], pool.owner, input.id);
      }
    }

    // The parts taken are the first command's, and what is left is what follows it.
    lemma CommandTaken(us: seq<string>, header: string, body: string, rest: seq<string>)
      requires LineKnown(us) && UnitFrame(us, announce).Complete?
      requires PartOf(header, Concat(us), 0, headerLen)
      requires isWriteCmd ==>
        PartOf(body, Concat(us), LineSize(headerLen), bodyLen) && Without(rest, us, ItemSize(headerLen, bodyLen))
      requires !isWriteCmd ==> body == "" && Without(rest, us, LineSize(headerLen))
      ensures var f := UnitFrame(us, announce);
        Command(header, body) == f.cmd && rest == Drop(us, f.used) && |Concat(rest)| == |Concat(us)| - f.used
    {
      UnitNewlineAt(us);
      UsedUp(us, headerLen + 2);
      DropText(us, UnitFrame(us, announce).used);
      assert Concat(us)[0..0 + headerLen] == Concat(us)[..headerLen];
    }

    lemma FrameNeeds(us: seq<string>)
      requires LineKnown(us) && UnitFrame(us, announce).Complete?
      ensures Concat(us) != "" && bodyLen >= 0 && (isWriteCmd ==> |Concat(us)| >= ItemSize(headerLen, bodyLen))
    {
      UnitNewlineAt(us);
    }

    // A complete command leaves the chain.
    method ReadCommand() returns (cmd: Command)
      requires ChainsOk() && pool.free != [] && inBufLen == |Pending()|
      requires LineKnown(Units()) && UnitFrame(Units(), announce).Complete?
      modifies this`inBufLen, this`headerLen, this`bodyLen
      modifies input`head, input`tail, input`us, pool`head, pool`free, pool`owner, pool.base
      ensures Intact() && headerLen == 0 && pool.free != []
      ensures var f := UnitFrame(old(Units()), announce);
        cmd == f.cmd && Units() == Drop(old(Units()), f.used)
      ensures output.Text(pool) == old(output.Text(pool)) && output.us == old(output.us)
      ensures |pool.free| + |input.us| == old(|pool.free| + |input.us|) && |pool.free| >= old(|pool.free|)
      ensures Apart(old(pool.base[..]), old(pool.owner), pool.base[..], pool.owner, input.id)
    {
      ghost var us := Units();
      FrameNeeds(us);
      var header, body := ReadParts(us);
      CommandTaken(us, header, body, Units());
      FixBufLen(us);
      cmd := Command(header, body);
    }

    // A receive leaves a line found where it was.
    lemma StillFound(us: seq<string>, chunk: string)
      requires LineState(us)
      ensures LineState(us + [chunk]) && |Concat(us + [chunk])| == |Concat(us)| + |chunk|
    {
      ConcatLast(us, chunk);
      if headerLen > 0 {
        UnitNewlineExtends(us, [chunk]);
        assert (Concat(us) + chunk)[..headerLen] == Concat(us)[..headerLen];
      }
    }

    // append_recv_data.
    method Receive(chunk: string)
      requires Intact() && |pool.free| >= 2 && |chunk| <= UNIT_SIZE
      modifies this`inBufLen, input`head, input`tail, input`us, pool`head, pool`free, pool`owner, pool.base
      ensures Intact() && Units() == old(Units()) + [chunk] && pool.free != []
      ensures output.Text(pool) == old(output.Text(pool)) && output.us == old(output.us)
      ensures |pool.free| + |input.us| == old(|pool.free| + |input.us|) && |pool.free| >= old(|pool.free|) - 1
      ensures Apart(old(pool.base[..]), old(pool.owner), pool.base[..], pool.owner, input.id)
    {
      ghost var d, o := pool.base[..], pool.owner;
      StillFound(Units(), chunk);
      input.Receive(pool, chunk);
      output.Kept(pool, d, o, input.id);
      inBufLen := inBufLen + |chunk|;
    }

    // One turn of handle_input's loop: the first command of the chain, if it is all there.
    method NextCommand() returns (found: bool, cmd: Command)
      requires Intact() && pool.free != []
      modifies this`inBufLen, this`headerLen, this`bodyLen, this`isWriteCmd
      modifies input`head, input`tail, input`us, pool`head, pool`free, pool`owner, pool.base
      ensures Intact() && pool.free != []
      ensures Next(old(Units()), announce, found, cmd, Units())
      ensures output.Text(pool) == old(output.Text(pool)) && output.us == old(output.us)
      ensures |pool.free| + |input.us| == old(|pool.free| + |input.us|) && |pool.free| >= old(|pool.free|)
      ensures Apart(old(pool.base[..]), old(pool.owner), pool.base[..], pool.owner, input.id)
    {
      cmd := Command("", "");
      UnitNewlineAt(Units());
      found := HasHeader();
      if found {
        assert Pending()[..0] == "";
        GetBodyLen();
        if isWriteCmd {
          found := HasBody();
        }
        if found {
          cmd := ReadCommand();
        }
      }
    }

    // The loop of handle_input: every command that is complete.
    method Drain() returns (cmds: seq<Command>)
      requires Intact() && pool.free != []
      modifies this`inBufLen, this`headerLen, this`bodyLen, this`isWriteCmd
      modifies input`head, input`tail, input`us, pool`head, pool`free, pool`owner, pool.base
      ensures Intact() && pool.free != []
      ensures cmds == UnitCommands(old(Units()), announce) && Units() == UnitRest(old(Units()), announce)
      ensures output.Text(pool) == old(output.Text(pool)) && output.us == old(output.us)
      ensures |pool.free| + |input.us| == old(|pool.free| + |input.us|) && |pool.free| >= old(|pool.free|)
      ensures Apart(old(pool.base[..]), old(pool.owner), pool.base[..], pool.owner, input.id)
    {
      ghost var all, d, o := Units(), pool.base[..], pool.owner;
      cmds := [];
      Blank(UnitCommands(all, announce));
      while true
        invariant Intact() && pool.free != []
        invariant Draining(cmds, Units(), announce, all)
        invariant output.Text(pool) == old(output.Text(pool)) && output.us == old(output.us)
        invariant |pool.free| + |input.us| == old(|pool.free| + |input.us|) && |pool.free| >= old(|pool.free|)
        invariant Apart(d, o, pool.base[..], pool.owner, input.id)
        decreases |Pending()|
      {
        ghost var us, d1, o1 := Units(), pool.base[..], pool.owner;
        var found, cmd := NextCommand();
        ApartTransitive(d, o, d1, o1, pool.base[..], pool.owner, input.id);
        OneMore(cmds, cmd, us, Units(), announce, all, found);
        if !found { break; }
        cmds := cmds + [cmd];
      }
    }

    // A receive, then every command that is now complete.
    method TakeIn(chunk: string) returns (cmds: seq<Command>)
      requires Intact() && |pool.free| >= 2 && |chunk| <= UNIT_SIZE
      modifies this`inBufLen, this`headerLen, this`bodyLen, this`isWriteCmd
      modifies input`head, input`tail, input`us, pool`head, pool`free, pool`owner, pool.base
      ensures Intact() && pool.free != []
      ensures cmds == UnitCommands(old(Units()) + [chunk], announce)
      ensures Units() == UnitRest(old(Units()) + [chunk], announce)
      ensures output.Text(pool) == old(output.Text(pool)) && output.us == old(output.us)
      ensures |pool.free| + |input.us| == old(|pool.free| + |input.us|) && |pool.free| >= old(|pool.free|) - 1
      ensures Apart(old(pool.base[..]), old(pool.owner), pool.base[..], pool.owner, input.id)
    {
      ghost var d, o := pool.base[..], pool.owner;
      Receive(chunk);
      ghost var d1, o1 := pool.base[..], pool.owner;
      cmds := Drain();
      ApartTransitive(d, o, d1, o1, pool.base[..], pool.owner, input.id);
    }

    // handle_input.
    method HandleInput(chunk: string) returns (cmds: seq<Command>)
      requires Valid() && |pool.free| >= 2 && |chunk| <= UNIT_SIZE
      modifies this`inBufLen, this`headerLen, this`bodyLen, this`isWriteCmd, this`received, this`handed
      modifies input`head, input`tail, input`us, pool`head, pool`free, pool`owner, pool.base
      ensures Valid() && pool.free != []
      ensures cmds == UnitCommands(old(Units()) + [chunk], announce)
      ensures Units() == UnitRest(old(Units()) + [chunk], announce)
      ensures received == old(received) + [chunk] && handed == old(handed) + cmds
      ensures output.Text(pool) == old(output.Text(pool)) && output.us == old(output.us)
      ensures |pool.free| + |input.us| == old(|pool.free| + |input.us|) && |pool.free| >= old(|pool.free|) - 1
      ensures Apart(old(pool.base[..]), old(pool.owner), pool.base[..], pool.owner, input.id)
    {
      HandledMore(received, handed, Units(), chunk, announce);
      cmds := TakeIn(chunk);
      received, handed := received + [chunk], handed + cmds;
    }

    // append_send_data: the reply joins the output stream.
    method AppendSendData(data: string)
      requires Valid() && output.Accepts(pool, |data|)
      modifies this`queued, output`head, output`tail, output`us, pool`head, pool`free, pool`owner, pool.base
      ensures Valid() && output.Text(pool) == old(output.Text(pool)) + data && pool.free != []
      ensures queued == old(queued) + data
      ensures Units() == old(Units()) && input.us == old(input.us)
      ensures |pool.free| + |output.us| == old(|pool.free| + |output.us|)
      ensures Apart(old(pool.base[..]), old(pool.owner), pool.base[..], pool.owner, output.id)
    {
      Joined(sent, output.Text(pool), data);
      SendOut(data);
      queued := queued + data;
    }

    method SendOut(data: string)
      requires ChainsOk() && output.Accepts(pool, |data|)
      modifies output`head, output`tail, output`us, pool`head, pool`free, pool`owner, pool.base
      ensures ChainsOk() && output.Text(pool) == old(output.Text(pool)) + data && pool.free != []
      ensures Units() == old(Units()) && input.us == old(input.us)
      ensures |pool.free| + |output.us| == old(|pool.free| + |output.us|)
      ensures Apart(old(pool.base[..]), old(pool.owner), pool.base[..], pool.owner, output.id)
    {
      ghost var d, o := pool.base[..], pool.owner;
      output.Send(pool, data);
      input.Kept(pool, d, o, output.id);
    }

    // handle_output: what send accepts leaves the front of the output stream.
    method HandleOutput(ct: nat) returns (out: string)
      requires Valid() && pool.free != []
      requires ct <= output.FirstSize(pool)
      modifies this`sent, output`head, output`tail, output`us, pool`head, pool`free, pool`owner, pool.base
      ensures Valid() && out + output.Text(pool) == old(output.Text(pool)) && pool.free != []
      ensures |out| == ct && sent == old(sent) + out
      ensures Units() == old(Units()) && input.us == old(input.us)
      ensures |pool.free| + |output.us| == old(|pool.free| + |output.us|)
      ensures Apart(old(pool.base[..]), old(pool.owner), pool.base[..], pool.owner, output.id)
    {
      ghost var text := output.Text(pool);
      out := FlushOut(ct);
      SentMore(sent, out, output.Text(pool), text);
      sent := sent + out;
    }

    method FlushOut(ct: nat) returns (out: string)
      requires ChainsOk() && pool.free != [] && ct <= output.FirstSize(pool)
      modifies output`head, output`tail, output`us, pool`head, pool`free, pool`owner, pool.base
      ensures ChainsOk() && out + output.Text(pool) == old(output.Text(pool)) && |out| == ct && pool.free != []
      ensures Units() == old(Units()) && input.us == old(input.us)
      ensures |pool.free| + |output.us| == old(|pool.free| + |output.us|)
      ensures Apart(old(pool.base[..]), old(pool.owner), pool.base[..], pool.owner, output.id)
    {
      ghost var d, o := pool.base[..], pool.owner;
      out := output.Flush(pool, ct);
      input.Kept(pool, d, o, output.id);
    }

    // destroy_io_data: both chains go back to the pool; the counters are those the next
    // alloc_io_data starts from.
    method Destroy() returns (ghost d1: seq<Unit>, ghost o1: seq<nat>)
      requires Valid() && pool.free != []
      modifies this`inBufLen, this`headerLen, this`bodyLen, this`received, this`handed, this`queued, this`sent
      modifies input`head, input`tail, input`us, output`head, output`tail, output`us
      modifies pool`head, pool`free, pool`owner, pool.base
      ensures Valid() && input.us == [] && output.us == []
      ensures received == [] && handed == [] && queued == "" && sent == ""
      ensures |pool.free| == old(|pool.free| + |input.us| + |output.us|)
      ensures Apart(old(pool.base[..]), old(pool.owner), d1, o1, input.id)
      ensures Apart(d1, o1, pool.base[..], pool.owner, output.id)
      ensures forall u: nat :: u < |pool.owner| ==> pool.owner[u] != input.id && pool.owner[u] != output.id
    {
      d1, o1 := FreeChains();
      inBufLen, headerLen, bodyLen := 0, 0, -1;
      received, handed, queued, sent := [], [], "", "";
      assert Units() == [] && output.Text(pool) == "";
    }

    method FreeChains() returns (ghost d1: seq<Unit>, ghost o1: seq<nat>)
      requires ChainsOk() && pool.free != []
      modifies input`head, input`tail, input`us, output`head, output`tail, output`us
      modifies pool`head, pool`free, pool`owner, pool.base
      ensures ChainsOk() && input.us == [] && output.us == []
      ensures |pool.free| == old(|pool.free| + |input.us| + |output.us|)
      ensures Apart(old(pool.base[..]), old(pool.owner), d1, o1, input.id)
      ensures Apart(d1, o1, pool.base[..], pool.owner, output.id)
      ensures forall u: nat :: u < |pool.owner| ==> pool.owner[u] != input.id && pool.owner[u] != output.id
    {
      ghost var d, o := pool.base[..], pool.owner;
      input.FreeAll(pool);
      output.Kept(pool, d, o, input.id);
      d1, o1 := pool.base[..], pool.owner;
      output.FreeAll(pool);
      input.Kept(pool, d1, o1, output.id);
    }

    // A connection served chunk by chunk, until the pool has no unit left to give.  If no
    // line end is hidden and no cut leaves a lone newline, what it hands on is exactly what
    // the stream amounts to.
    method Serve(chunks: seq<string>) returns (cmds: seq<Command>, n: nat)
      requires Valid() && received == [] && pool.free != [] && Fitting(chunks)
      modifies this`inBufLen, this`headerLen, this`bodyLen, this`isWriteCmd, this`received, this`handed
      modifies input`head, input`tail, input`us, pool`head, pool`free, pool`owner, pool.base
      ensures Valid() && n <= |chunks| && (n < |chunks| ==> |pool.free| < 2)
      ensures cmds == Fed(chunks[..n], announce) && Units() == Held(chunks[..n], announce)
      ensures SafeCuts(chunks[..n], announce) && AllVisible(Concat(chunks[..n]), announce) ==>
        && cmds == Commands(Concat(chunks[..n]), announce)
        && Pending() == Leftover(Concat(chunks[..n]), announce)
    {
      cmds, n := [], 0;
      while n < |chunks| && pool.base[pool.head].next != NULL
        invariant n <= |chunks| && Valid() && pool.free != []
        invariant received == chunks[..n] && cmds == handed
      {
        AnotherUnit(pool.base[..], pool.head, pool.free);
        TakeNext(chunks, n);
        var more := HandleInput(chunks[n]);
        cmds, n := cmds + more, n + 1;
      }
      AnotherUnit(pool.base[..], pool.head, pool.free);
      ServedSoFar(chunks, n, announce);
    }
  }

  lemma AnotherUnit(d: seq<Unit>, head: int, free: seq<nat>)
    requires Linked(d, head, free) && free != []
    ensures d[head].next != NULL <==> |free| >= 2
  {
    if |free| >= 2 { assert free[1..] != []; }
  }

  lemma LineCopied(line: string, rest: string, text: string, h: nat)
    requires line + rest == text && h <= |text| && (rest == "" || h <= |line|)
    ensures h <= |line| && line[..h] == text[..h]
  {
  }

  ghost predicate PartOf(s: string, text: string, i: nat, n: nat) {
    i + n <= |text| && s == text[i..i + n]
  }

  // What is left of the units when k octets have been taken off their front.
  ghost predicate Without(rest: seq<string>, us: seq<string>, k: nat) {
    rest == Drop(us, k)
  }

  // Once a line of length h is out of the units, its body is at their front.
  lemma BodyThere(us: seq<string>, h: nat, n: nat, rest: seq<string>)
    requires ItemSize(h, n) <= |Concat(us)| && Without(rest, us, LineSize(h))
    ensures n < |Concat(rest)|
  {
    DropText(us, h + 2);
  }

  lemma BodyTaken(us: seq<string>, h: nat, n: nat, rest: seq<string>, body: string, last: seq<string>)
    requires ItemSize(h, n) <= |Concat(us)| && Without(rest, us, LineSize(h)) && PartOf(body, Concat(rest), 0, n)
    requires Without(last, rest, LineSize(n))
    ensures PartOf(body, Concat(us), LineSize(h), n) && Without(last, us, ItemSize(h, n))
  {
    DropText(us, h + 2);
    DropTwice(us, h + 2, n + 2);
    assert Concat(us)[h + 2..][0..0 + n] == Concat(us)[h + 2..h + 2 + n];
  }

  // One more receive, and what it makes of the units held.
  lemma HandledMore(received: seq<string>, handed: seq<Command>, us: seq<string>, chunk: string, announce: Announcer)
    requires handed == Fed(received, announce) && us == Held(received, announce)
    ensures handed + UnitCommands(us + [chunk], announce) == Fed(received + [chunk], announce)
    ensures UnitRest(us + [chunk], announce) == Held(received + [chunk], announce)
  {
    FedOneMore(received, chunk, announce);
  }

  lemma ServedSoFar(chunks: seq<string>, n: nat, announce: Announcer)
    requires n <= |chunks| && Fitting(chunks) && Sane(announce)
    ensures SafeCuts(chunks[..n], announce) && AllVisible(Concat(chunks[..n]), announce) ==>
      && Fed(chunks[..n], announce) == Commands(Concat(chunks[..n]), announce)
      && Concat(Held(chunks[..n], announce)) == Leftover(Concat(chunks[..n]), announce)
  {
    if SafeCuts(chunks[..n], announce) && AllVisible(Concat(chunks[..n]), announce) {
      SafeChunksDoNotMatter(chunks[..n], announce);
    }
  }

  lemma SentMore(sent: string, out: string, text: string, before: string)
    requires out + text == before
    ensures sent + out + text == sent + before
  {
    Joined(sent, out, text);
  }

  lemma TakeNext(chunks: seq<string>, n: nat)
    requires n < |chunks|
    ensures chunks[..n + 1] == chunks[..n] + [chunks[n]]
  {
  }

  // Dropping more octets than there are is dropping all of them.
  lemma {:induction false} UsedUp(us: seq<string>, k: nat)
    ensures k >= |Concat(us)| ==> Drop(us, k) == [] && Drop(us, |Concat(us)|) == []
  {
    if us != [] && k >= |us[0]| { UsedUp(us[1..], k - |us[0]|); }
  }

  // cmds have been taken out of the units all, and us are left to be framed.
  ghost predicate Draining(cmds: seq<Command>, us: seq<string>, announce: Announcer, all: seq<string>) {
    && cmds + UnitCommands(us, announce) == UnitCommands(all, announce)
    && UnitRest(us, announce) == UnitRest(all, announce)
  }

  lemma OneMore(cmds: seq<Command>, cmd: Command, us: seq<string>, rest: seq<string>, announce: Announcer,
                all: seq<string>, found: bool)
    requires Draining(cmds, us, announce, all) && Next(us, announce, found, cmd, rest)
    ensures if found then Draining(cmds + [cmd], rest, announce, all) && |Concat(rest)| < |Concat(us)|
      else cmds == UnitCommands(all, announce) && rest == UnitRest(all, announce)
  {
    if found {
      DropText(us, UnitFrame(us, announce).used);
      Joined(cmds, [cmd], UnitCommands(rest, announce));
    } else {
      Blank(cmds);
    }
  }
}
