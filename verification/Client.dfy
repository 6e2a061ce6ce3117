/** The reading side of the client: lines and length-counted blocks taken out of a buffered
    socket, and the replies to get_multi and to the key listings. */
module Client {
  import opened Sequences
  import opened DataFile
  import opened Wire
  import L = KeyListing

  // buf.find: where the first line end is.
  function FindCrlf(s: string): Option<nat> {
    if |s| < 2 then None
    else if s[0] == '\r' && s[1] == '\n' then Some(0)
    else match FindCrlf(s[1..]) case None => None case Some(i) => Some(i + 1)
  }

  lemma {:induction false} FoundCrlf(s: string)
    ensures FindCrlf(s).Some? ==> FindCrlf(s).value + 2 <= |s|
  {
    if |s| >= 2 { FoundCrlf(s[1..]); }
  }

  // A line end once found stays the first.
  lemma {:induction false} CrlfExtends(s: string, t: string)
    requires FindCrlf(s).Some?
    ensures FindCrlf(s + t) == FindCrlf(s)
  {
    assert (s + t)[0] == s[0] && (s + t)[1] == s[1];
    if !(s[0] == '\r' && s[1] == '\n') {
      assert (s + t)[1..] == s[1..] + t;
      CrlfExtends(s[1..], t);
    }
  }

  lemma {:induction false} CrlfAfter(line: string, rest: string)
    requires forall i :: 0 <= i < |line| ==> line[i] >= ' '
    ensures FindCrlf(line + CRLF + rest) == Some(|line|)
  {
    var s := line + CRLF + rest;
    if line != "" {
      assert s[1..] == line[1..] + CRLF + rest && s[0] == line[0];
      CrlfAfter(line[1..], rest);
    }
  }

  // The first line of a text, and what follows it.
  lemma LineFirst(line: string, after: string)
    requires forall i :: 0 <= i < |line| ==> line[i] >= ' '
    ensures var s := line + CRLF + after;
      FindCrlf(s) == Some(|line|) && |line| + 2 <= |s| && s[..|line|] == line && s[|line| + 2..] == after
  {
    CrlfAfter(line, after);
  }

  class Host {
    var buffer: string
    var socket: seq<string>    // what recv will return, call by call; then the connection is closed

    // Everything still to be read, however it is divided into receives.
    ghost function Stream(): string
      reads this
    {
      buffer + Concat(socket)
    }

    constructor (chunks: seq<string>)
      ensures Stream() == Concat(chunks)
    {
      buffer, socket := "", chunks;
    }

    // _Host.readline.
    method ReadLine() returns (line: Option<string>)
      modifies this
      ensures match FindCrlf(old(Stream()))
        case Some(i) =>
          && i + 2 <= |old(Stream())|
          && line == Some(old(Stream())[..i]) && Stream() == old(Stream())[i + 2..]
        case None => line == None
    {
      ghost var all := Stream();
      while FindCrlf(buffer).None? && socket != []
        invariant Stream() == all
        decreases |socket|
      {
        assert buffer + (socket[0] + Concat(socket[1..])) == buffer + socket[0] + Concat(socket[1..]);
        buffer, socket := buffer + socket[0], socket[1..];
      }
      if FindCrlf(buffer).None? {
        assert buffer + "" == buffer;
        return None;
      }
      var i := FindCrlf(buffer).value;
      FoundCrlf(buffer);
      CrlfExtends(buffer, Concat(socket));
      assert all[..i] == buffer[..i] && all[i + 2..] == buffer[i + 2..] + Concat(socket);
      line := Some(buffer[..i]);
      buffer := buffer[i + 2..];
    }

    // _Host.recv: exactly n octets, or nothing if the connection ends before.
    method Recv(n: nat) returns (block: Option<string>)
      modifies this
      ensures if n <= |old(Stream())|
        then block == Some(old(Stream())[..n]) && Stream() == old(Stream())[n..]
        else block == None
    {
      ghost var all := Stream();
      while |buffer| < n && socket != []
        invariant Stream() == all
        decreases |socket|
      {
        assert buffer + (socket[0] + Concat(socket[1..])) == buffer + socket[0] + Concat(socket[1..]);
        buffer, socket := buffer + socket[0], socket[1..];
      }
      if |buffer| < n { return None; }
      assert all[..n] == buffer[..n] && all[n..] == buffer[n..] + Concat(socket);
      block := Some(buffer[..n]);
      buffer := buffer[n..];
    }
  }

  // ---------- the reply to get ----------

  datatype Got = Got(key: string, flags: int, body: string)

  function ValueWords(g: Got): seq<string> {
    ["VALUE", g.key, Show(g.flags), Show(|g.body|)]
  }

  // What cmd_do_get prints for the keys it found.
  function GetReply(gs: seq<Got>): string {
    if gs == [] then "END" + CRLF
    else Line(ValueWords(gs[0])) + CRLF + (gs[0].body + CRLF + GetReply(gs[1..]))
  }

  lemma ValueLine(g: Got)
    requires IsWord(g.key)
    ensures Words(Line(ValueWords(g))) == ValueWords(g) && AllWords(ValueWords(g))
    ensures forall i :: 0 <= i < |Line(ValueWords(g))| ==> Line(ValueWords(g))[i] >= ' '
    ensures Line(ValueWords(g)) != "END" && Line(ValueWords(g)) != ""
  {
    ShowIsWord(g.flags);
    ShowIsWord(|g.body|);
    LineWords(ValueWords(g));
    assert Line(ValueWords(g))[0] == 'V';
  }

  // A value line and its block: _expectvalue and _recv_value.
  method ReadValue(host: Host, line: string, ghost g: Got, ghost tail: string) returns (got: Got)
    requires IsWord(g.key) && line == Line(ValueWords(g)) && host.Stream() == g.body + CRLF + tail
    modifies host
    ensures got == g && host.Stream() == tail
  {
    ValueLine(g);
    ShowIsWord(g.flags);
    ShowIsWord(|g.body|);
    var w := Words(line);
    var flags, rlen := Atoi(w[2]), Atoi(w[3]);
    var block := host.Recv(rlen + 2);
    assert (g.body + CRLF + tail)[..rlen + 2] == g.body + CRLF;
    got := Got(w[1], flags, block.value[..rlen]);
  }

  // After a line of the reply has been read: rest is still to be recovered.
  ghost predicate LineRead(stream: string, line: string, rest: seq<Got>, tail: string) {
    if rest == [] then line == "END" && stream == tail
    else
      && line != "END" && line == Line(ValueWords(rest[0]))
      && stream == rest[0].body + CRLF + (GetReply(rest[1..]) + tail)
  }

  ghost predicate Keyed(gs: seq<Got>) {
    forall i :: 0 <= i < |gs| ==> IsWord(gs[i].key)
  }

  lemma ReplySplits(rest: seq<Got>, tail: string)
    requires Keyed(rest)
    ensures var s := GetReply(rest) + tail;
      match FindCrlf(s)
      case Some(i) => i + 2 <= |s| && LineRead(s[i + 2..], s[..i], rest, tail)
      case None => false
  {
    if rest == [] {
      LineFirst("END", tail);
    } else {
      var g := rest[0];
      var l, more := Line(ValueWords(g)), GetReply(rest[1..]);
      ValueLine(g);
      LineFirst(l, g.body + CRLF + (more + tail));
      Joined(g.body + CRLF, more, tail);
      Joined(l + CRLF, g.body + CRLF + more, tail);
    }
  }

  lemma OneTaken(gs: seq<Got>, got: seq<Got>, rest: seq<Got>)
    requires gs == got + rest && rest != [] && Keyed(rest)
    ensures gs == got + [rest[0]] + rest[1..] && Keyed(rest[1..])
  {
  }

  // get_multi's loop: the reply is taken apart by the announced lengths alone, so a body
  // may contain line ends, END or anything else, and the network may cut it anywhere.
  method GetMulti(host: Host, ghost gs: seq<Got>, ghost tail: string) returns (got: seq<Got>)
    requires Keyed(gs) && host.Stream() == GetReply(gs) + tail
    modifies host
    ensures got == gs && host.Stream() == tail
  {
    got := [];
    ghost var rest := gs;
    ReplySplits(rest, tail);
    var line := host.ReadLine();
    while line != Some("END")
      invariant gs == got + rest && Keyed(rest)
      invariant line.Some? && LineRead(host.Stream(), line.value, rest, tail)
      decreases |rest|
    {
      var g := ReadValue(host, line.value, rest[0], GetReply(rest[1..]) + tail);
      OneTaken(gs, got, rest);
      got, rest := got + [g], rest[1..];
      ReplySplits(rest, tail);
      line := host.ReadLine();
    }
  }

  // ---------- the reply to gets ----------

  // The value line with the sign behind it: the offset that cas will be given.
  function CasWords(g: Got, sign: nat): seq<string> {
    ["VALUE", g.key, Show(g.flags), Show(|g.body|), Show(sign)]
  }

  // What cmd_do_get prints for one key and the gets command.
  function GetsReply(g: Option<Got>, sign: nat): string {
    match g
    case None => "END" + CRLF
    case Some(v) => Line(CasWords(v, sign)) + CRLF + (v.body + CRLF + ("END" + CRLF))
  }

  lemma CasLine(g: Got, sign: nat)
    requires IsWord(g.key)
    ensures Words(Line(CasWords(g, sign))) == CasWords(g, sign)
    ensures forall i :: 0 <= i < |Line(CasWords(g, sign))| ==> Line(CasWords(g, sign))[i] >= ' '
    ensures Line(CasWords(g, sign)) != "END"
    ensures Atoi(Show(g.flags)) == g.flags && Atoi(Show(|g.body|)) == |g.body| && Atoi(Show(sign)) == sign
  {
    ShowIsWord(g.flags);
    ShowIsWord(|g.body|);
    ShowIsWord(sign);
    LineWords(CasWords(g, sign));
    assert Line(CasWords(g, sign))[0] == 'V';
  }

  lemma GetsSplits(g: Option<Got>, sign: nat, tail: string)
    requires g.Some? ==> IsWord(g.value.key)
    ensures var s := GetsReply(g, sign) + tail;
      match FindCrlf(s)
      case None => false
      case Some(i) =>
        && i + 2 <= |s|
        && s[..i] == (if g.Some? then Line(CasWords(g.value, sign)) else "END")
        && s[i + 2..] == if g.Some? then g.value.body + CRLF + ("END" + CRLF + tail) else tail
  {
    if g.None? {
      LineFirst("END", tail);
    } else {
      var v := g.value;
      var l, rest := Line(CasWords(v, sign)), "END" + CRLF;
      CasLine(v, sign);
      LineFirst(l, v.body + CRLF + (rest + tail));
      Joined(v.body + CRLF, rest, tail);
      Joined(l + CRLF, v.body + CRLF + rest, tail);
    }
  }

  // gets: the client gets the entry with the very sign the server printed, or nothing.
  method Gets(host: Host, ghost g: Option<Got>, ghost sign: nat, ghost tail: string) returns (r: Option<(Got, nat)>)
    requires (g.Some? ==> IsWord(g.value.key)) && host.Stream() == GetsReply(g, sign) + tail
    modifies host
    ensures host.Stream() == tail
    ensures match g case None => r == None case Some(v) => r == Some((v, sign))
  {
    GetsSplits(g, sign, tail);
    var line := host.ReadLine();
    if line.value == "END" {
      if g.Some? { CasLine(g.value, sign); }
      return None;
    }
    var got, id := ReadSigned(host, line.value, g.value, sign, tail);
    r := Some((got, id));
  }

  // _expect_cas_value and _recv_value, and the line behind them.
  method ReadSigned(host: Host, line: string, ghost v: Got, ghost sign: nat, ghost tail: string)
    returns (got: Got, id: int)
    requires IsWord(v.key) && line == Line(CasWords(v, sign))
    requires host.Stream() == v.body + CRLF + ("END" + CRLF + tail)
    modifies host
    ensures got == v && id == sign && host.Stream() == tail
  {
    CasLine(v, sign);
    var w := Words(line);
    var flags, rlen := Atoi(w[2]), Atoi(w[3]);
    id := Atoi(w[4]);
    BlockFirst(v.body, "END" + CRLF + tail);
    var block := host.Recv(rlen + 2);
    got := Got(w[1], flags, block.value[..rlen]);
    LineFirst("END", tail);
    var end := host.ReadLine();
  }

  lemma BlockFirst(body: string, rest: string)
    ensures var s := body + CRLF + rest;
      |body| + 2 <= |s| && s[..|body| + 2] == body + CRLF && s[|body| + 2..] == rest && (body + CRLF)[..|body|] == body
  {
  }

  // The lines as they are printed.
  lemma LinesPrinted(g: Got, sign: nat)
    requires g == Got("k", 2, "hello") && sign == 34
    ensures Line(ValueWords(g)) == "VALUE k 2 5" && Line(CasWords(g, sign)) == "VALUE k 2 5 34"
  {
    assert Show(2) == "2" && Show(5) == "5" && Show(34) == "34";
    assert ["k", "2", "5"][1..] == ["2", "5"] && Line(["2", "5"]) == "2 5";
    assert ["VALUE", "k", "2", "5"][1..] == ["k", "2", "5"];
    assert ["2", "5", "34"][1..] == ["5", "34"] && Line(["5", "34"]) == "5 34";
    assert ["k", "2", "5", "34"][1..] == ["2", "5", "34"] && Line(["k", "2", "5", "34"]) == "k 2 5 34";
    assert ["VALUE", "k", "2", "5", "34"][1..] == ["k", "2", "5", "34"];
  }

  lemma KeysLinePrinted()
    ensures Line(KeysWords(["a", "ab"])) == "KEYS 2 7"
  {
    assert Show(2) == "2" && Show(7) == "7";
    assert L.Lines(["a", "ab"]) == "a\r\nab\r\n";
    assert ["KEYS", "2", "7"][1..] == ["2", "7"] && Line(["2", "7"]) == "2 7";
  }

  // ---------- the replies to set, cas, incr and decr ----------

  // _incrdecr: the new number, or nothing.
  method ReadNumber(host: Host, ghost n: Option<int>, ghost tail: string) returns (r: Option<int>)
    requires host.Stream() == (if n.Some? then Show(n.value) else "NOT_FOUND") + CRLF + tail
    modifies host
    ensures r == n && host.Stream() == tail
  {
    ghost var l := if n.Some? then Show(n.value) else "NOT_FOUND";
    if n.Some? { ShowIsWord(n.value); }
    LineFirst(l, tail);
    var line := host.ReadLine();
    if line == None || line == Some("NOT_FOUND") {
      if n.Some? { NumberNotWord(n.value); }
      r := None;
    } else {
      r := Some(Atoi(line.value));
    }
  }

  lemma NumberNotWord(n: int)
    ensures Show(n) != "NOT_FOUND"
  {
    ShowIsWord(n);
    assert !IsNumber("NOT_FOUND");
  }

  // _set: whether the value was stored.
  method ReadStored(host: Host, ghost stored: bool, ghost tail: string) returns (r: bool)
    requires host.Stream() == (if stored then "STORED" else "EXISTS") + CRLF + tail
    modifies host
    ensures r == stored && host.Stream() == tail
  {
    LineFirst(if stored then "STORED" else "EXISTS", tail);
    var line := host.ReadLine();
    assert "STORED" != "EXISTS";
    r := line == Some("STORED");
  }

  // ---------- the replies to prefix, less and greater ----------

  function KeysWords(ks: seq<string>): seq<string> {
    ["KEYS", Show(|ks|), Show(|L.Lines(ks)|)]
  }

  function KeysReply(ks: seq<string>): string {
    Line(KeysWords(ks)) + CRLF + (L.Lines(ks) + ("END" + CRLF))
  }

  // value.split with the line end as separator.
  function Split(s: string): seq<string>
    decreases |s|
  {
    match FindCrlf(s)
    case None => [s]
    case Some(i) =>
      FoundCrlf(s);
      [s[..i]] + Split(s[i + 2..])
  }

  ghost predicate KeyList(ks: seq<string>) {
    forall i :: 0 <= i < |ks| ==> IsWord(ks[i])
  }

  lemma {:induction false} SplitLines(ks: seq<string>)
    requires KeyList(ks)
    ensures Split(L.Lines(ks)) == ks + [""]
  {
    if ks != [] {
      LineFirst(ks[0], L.Lines(ks[1..]));
      SplitLines(ks[1..]);
      assert ks + [""] == [ks[0]] + (ks[1..] + [""]);
    }
  }

  lemma KeysLine(ks: seq<string>, tail: string)
    ensures var s := KeysReply(ks) + tail;
      var l := Line(KeysWords(ks));
      && FindCrlf(s) == Some(|l|) && s[..|l|] == l
      && |l| + 2 <= |s| && s[|l| + 2..] == L.Lines(ks) + ("END" + CRLF + tail)
      && Words(l) == KeysWords(ks) && Atoi(Show(|ks|)) == |ks| && Atoi(Show(|L.Lines(ks)|)) == |L.Lines(ks)|
  {
    ShowIsWord(|ks|);
    ShowIsWord(|L.Lines(ks)|);
    LineWords(KeysWords(ks));
    var l, text := Line(KeysWords(ks)), L.Lines(ks);
    LineFirst(l, text + ("END" + CRLF + tail));
    Joined(text, "END" + CRLF, tail);
    Joined(l + CRLF, text + ("END" + CRLF), tail);
  }

  // _prefix and _less_greater: the client gets exactly the keys the server listed.
  method ReadKeys(host: Host, ghost ks: seq<string>, ghost tail: string) returns (keys: seq<string>)
    requires KeyList(ks) && host.Stream() == KeysReply(ks) + tail
    modifies host
    ensures keys == ks && host.Stream() == tail
  {
    KeysLine(ks, tail);
    var line := host.ReadLine();
    var w := Words(line.value);
    var size, bytes := Atoi(w[1]), Atoi(w[2]);
    keys := [];
    if size != 0 {
      assert (L.Lines(ks) + ("END" + CRLF + tail))[..bytes] == L.Lines(ks);
      var block := host.Recv(bytes);
      SplitLines(ks);
      var parts := Split(block.value);
      keys := parts[..|parts| - 1];
    } else {
      assert L.Lines(ks) + ("END" + CRLF + tail) == "END" + CRLF + tail;
    }
    LineFirst("END", tail);
    var end := host.ReadLine();
  }
}
