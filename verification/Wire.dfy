/** The text protocol as both ends speak it: what the client writes the server frames, and
    what the server prints the client recovers, whatever the values contain. */
module Wire {
  import opened Sequences
  import opened DataFile
  import F = Framing
  import U = UnitFraming

  const CRLF: string := "\r\n"

  // ---------- words and numbers of a line ----------

  // Printable and not blank: what check_key lets through.
  predicate IsWord(w: string) {
    w != "" && forall i :: 0 <= i < |w| ==> w[i] > ' '
  }

  function FirstWord(s: string): (w: string)
    ensures w <= s
    ensures s != "" && s[0] != ' ' ==> w != ""
  {
    if s == "" || s[0] == ' ' then "" else [s[0]] + FirstWord(s[1..])
  }

  // The blank-separated words of a line.
  function Words(s: string): seq<string>
    decreases |s|
  {
    if s == "" then []
    else if s[0] == ' ' then Words(s[1..])
    else [FirstWord(s)] + Words(s[|FirstWord(s)|..])
  }

  // What %d reads: an optional sign and at least one digit.
  predicate IsNumber(w: string) {
    w != "" && (IsDigit(w[0]) || (|w| > 1 && w[0] in "+-" && IsDigit(w[1])))
  }

  lemma {:induction false} FirstWordOf(w: string, rest: string)
    requires forall i :: 0 <= i < |w| ==> w[i] != ' '
    requires rest != "" ==> rest[0] == ' '
    ensures FirstWord(w + rest) == w
  {
    if w == "" {
      assert w + rest == rest;
    } else {
      assert (w + rest)[1..] == w[1..] + rest && (w + rest)[0] == w[0];
      FirstWordOf(w[1..], rest);
    }
  }

  lemma WordsCons(w: string, rest: string)
    requires IsWord(w)
    ensures Words(w) == [w]
    ensures Words(w + " " + rest) == [w] + Words(rest)
  {
    FirstWordOf(w, "");
    assert w + "" == w && w[|w|..] == "";
    var tail := " " + rest;
    FirstWordOf(w, tail);
    assert w + tail == w + " " + rest;
    assert (w + tail)[|w|..] == tail && tail[1..] == rest && (w + tail)[0] == w[0];
  }

  // Words put on a line with single blanks.
  function Line(ws: seq<string>): string {
    if ws == [] then "" else if |ws| == 1 then ws[0] else ws[0] + " " + Line(ws[1..])
  }

  ghost predicate AllWords(ws: seq<string>) {
    forall i :: 0 <= i < |ws| ==> IsWord(ws[i])
  }

  // Splitting a line gives back its words, and the line has no line end inside.
  lemma {:induction false} LineWords(ws: seq<string>)
    requires AllWords(ws)
    ensures Words(Line(ws)) == ws
    ensures forall i :: 0 <= i < |Line(ws)| ==> Line(ws)[i] >= ' '
  {
    if ws != [] {
      LineWords(ws[1..]);
      WordsCons(ws[0], Line(ws[1..]));
    }
  }

  lemma ShowIsWord(n: int)
    ensures IsWord(Show(n)) && IsNumber(Show(n)) && Atoi(Show(n)) == n
  {
    DigitsParse(if n < 0 then -n else n);
    AtoiShow(n);
    var d := Digits(if n < 0 then -n else n);
    assert IsDigit(d[0]);
    forall i | 0 <= i < |Show(n)| ensures Show(n)[i] > ' ' {
      if n < 0 && i > 0 { assert Show(n)[i] == d[i - 1]; }
    }
  }

  // ---------- set_multi and the server's framing ----------

  datatype Item = Item(key: string, flags: int, time: int, body: string)

  predicate Sendable(it: Item) {
    IsWord(it.key) && |it.body| <= 1_000_000
  }

  function SetWords(it: Item): seq<string> {
    ["set", it.key, Show(it.flags), Show(it.time), Show(|it.body|)]
  }

  function SetLine(it: Item): string {
    Line(SetWords(it))
  }

  // The line of a cas with the sign that gets has reported.
  function CasCommand(it: Item, sign: nat): string {
    Line(["cas", it.key, Show(it.flags), Show(it.time), Show(|it.body|), Show(sign)])
  }

  // One request for many keys.
  function SetText(items: seq<Item>): string {
    if items == [] then ""
    else SetLine(items[0]) + CRLF + items[0].body + CRLF + SetText(items[1..])
  }

  // What a set or cas line announces.
  function Announce(line: string): Option<int> {
    var w := Words(line);
    if |w| >= 5 && w[0] == "set" && IsNumber(w[2]) && IsNumber(w[3]) && IsNumber(w[4]) then Some(Atoi(w[4]))
    else if |w| >= 6 && w[0] == "cas" && IsNumber(w[2]) && IsNumber(w[3]) && IsNumber(w[4]) && IsNumber(w[5])
    then Some(Atoi(w[4]))
    else None
  }

  lemma SetLineAnnounces(it: Item)
    requires IsWord(it.key)
    ensures Announce(SetLine(it)) == Some(|it.body|) && Words(SetLine(it)) == SetWords(it)
    ensures forall i :: 0 <= i < |SetLine(it)| ==> SetLine(it)[i] >= ' '
  {
    ShowIsWord(it.flags);
    ShowIsWord(it.time);
    ShowIsWord(|it.body|);
    LineWords(SetWords(it));
  }

  lemma CasCommandWords(it: Item, sign: nat)
    requires IsWord(it.key)
    ensures Words(CasCommand(it, sign)) == ["cas", it.key, Show(it.flags), Show(it.time), Show(|it.body|), Show(sign)]
    ensures Announce(CasCommand(it, sign)) == Some(|it.body|)
    ensures forall i :: 0 <= i < |CasCommand(it, sign)| ==> CasCommand(it, sign)[i] >= ' '
  {
    ShowIsWord(it.flags);
    ShowIsWord(it.time);
    ShowIsWord(|it.body|);
    ShowIsWord(sign);
    LineWords(["cas", it.key, Show(it.flags), Show(it.time), Show(|it.body|), Show(sign)]);
  }

  // The two lines as they are printed.
  lemma LinesPrinted(it: Item, sign: nat)
    requires it == Item("k", 2, 0, "5") && sign == 34
    ensures SetLine(it) == "set k 2 0 1" && CasCommand(it, sign) == "cas k 2 0 1 34"
  {
    assert Show(2) == "2" && Show(0) == "0" && Show(1) == "1" && Show(34) == "34";
    assert ["2", "0", "1"][1..] == ["0", "1"] && Line(["0", "1"]) == "0 1";
    assert ["k", "2", "0", "1"][1..] == ["2", "0", "1"];
    assert ["set", "k", "2", "0", "1"][1..] == ["k", "2", "0", "1"];
    assert ["0", "1", "34"][1..] == ["1", "34"] && Line(["1", "34"]) == "1 34";
    assert ["2", "0", "1", "34"][1..] == ["0", "1", "34"] && Line(["2", "0", "1", "34"]) == "2 0 1 34";
    assert ["k", "2", "0", "1", "34"][1..] == ["2", "0", "1", "34"];
    assert ["cas", "k", "2", "0", "1", "34"][1..] == ["k", "2", "0", "1", "34"];
  }

  lemma {:induction false} NewlineAfter(line: string, rest: string)
    requires forall i :: 0 <= i < |line| ==> line[i] != '\n'
    ensures F.Newline(line + "\n" + rest) == Some(|line|)
  {
    if line == "" {
      assert line + "\n" + rest == "\n" + rest;
    } else {
      var s := line + "\n" + rest;
      assert s[1..] == line[1..] + "\n" + rest && s[0] == line[0];
      NewlineAfter(line[1..], rest);
    }
  }

  // A line that announces a body is framed with it, whatever octets the body holds.
  lemma BodyFramed(line: string, body: string, rest: string)
    requires (forall i :: 0 <= i < |line| ==> line[i] >= ' ') && Announce(line) == Some(|body|) && |body| <= 1_000_000
    ensures var s := line + CRLF + body + CRLF + rest;
      F.FirstFrame(s, Announce) == F.Complete(F.Command(line, body), |s| - |rest|)
  {
    var h, b := |line|, |body|;
    var s := line + CRLF + body + CRLF + rest;
    NewlineAfter(line + "\r", body + CRLF + rest);
    assert line + "\r" + "\n" + (body + CRLF + rest) == s;
    assert s[..h] == line && s[h + 2..h + 2 + b] == body;
  }

  // The server's first frame of a request is its first item.
  lemma FirstItemFramed(it: Item, rest: string)
    requires Sendable(it)
    ensures var s := SetLine(it) + CRLF + it.body + CRLF + rest;
      F.FirstFrame(s, Announce) == F.Complete(F.Command(SetLine(it), it.body), |s| - |rest|)
  {
    SetLineAnnounces(it);
    BodyFramed(SetLine(it), it.body, rest);
  }

  // So is a cas, for every sign.
  lemma CasFramed(it: Item, sign: nat, rest: string)
    requires Sendable(it)
    ensures var s := CasCommand(it, sign) + CRLF + it.body + CRLF + rest;
      F.FirstFrame(s, Announce) == F.Complete(F.Command(CasCommand(it, sign), it.body), |s| - |rest|)
  {
    CasCommandWords(it, sign);
    BodyFramed(CasCommand(it, sign), it.body, rest);
  }

  // A line that announces less than nothing is framed with an empty body.
  lemma NegativeFramed(line: string, rest: string)
    requires (forall i :: 0 <= i < |line| ==> line[i] != '\n') && Announce(line).Some? && Announce(line).value < 0
    ensures F.FirstFrame(line + CRLF + CRLF + rest, Announce) == F.Complete(F.Command(line, ""), |line| + 4)
  {
    var s := line + CRLF + CRLF + rest;
    NewlineAfter(line + "\r", CRLF + rest);
    assert line + "\r" + "\n" + (CRLF + rest) == s && s[..|line|] == line;
  }

  lemma PlainAnnounces(line: string)
    requires var w := Words(line); |w| < 5 || (|w| < 6 && w[0] != "set") || (w[0] != "set" && w[0] != "cas")
    ensures Announce(line) == None
  {
  }

  // A line whose first word is neither set nor cas, or that has too few words for one, is a
  // command by itself.
  lemma LineFramed(line: string, rest: string)
    requires forall i :: 0 <= i < |line| ==> line[i] != '\n'
    requires var w := Words(line); |w| < 5 || (|w| < 6 && w[0] != "set") || (w[0] != "set" && w[0] != "cas")
    ensures F.FirstFrame(line + CRLF + rest, Announce) == F.Complete(F.Command(line, ""), |line| + 2)
  {
    var s := line + CRLF + rest;
    PlainAnnounces(line);
    NewlineAfter(line + "\r", rest);
    assert line + "\r" + "\n" + rest == s && s[..|line|] == line;
  }

  // Of a body past the limit of 1000000 octets only so many are taken; the server goes on
  // after two more as if a command began there.
  lemma OversizedSpills(it: Item, rest: string)
    requires IsWord(it.key) && |it.body| > 1_000_000
    ensures var s := SetLine(it) + CRLF + it.body + CRLF + rest;
      F.FirstFrame(s, Announce) ==
        F.Complete(F.Command(SetLine(it), it.body[..1_000_000]), |SetLine(it)| + 2 + 1_000_000 + 2)
  {
    var line, h := SetLine(it), |SetLine(it)|;
    var s := line + CRLF + it.body + CRLF + rest;
    SetLineAnnounces(it);
    NewlineAfter(line + "\r", it.body + CRLF + rest);
    assert line + "\r" + "\n" + (it.body + CRLF + rest) == s;
    assert s[..h] == line && s[h + 2..h + 2 + 1_000_000] == it.body[..1_000_000];
  }

  function CommandsOf(items: seq<Item>): seq<F.Command> {
    if items == [] then [] else [F.Command(SetLine(items[0]), items[0].body)] + CommandsOf(items[1..])
  }

  // The commands the server frames out of set_multi's request are the items it was made of.
  lemma {:induction false} SetMultiFramed(items: seq<Item>)
    requires forall it :: it in items ==> Sendable(it)
    ensures F.Commands(SetText(items), Announce) == CommandsOf(items)
    ensures F.Leftover(SetText(items), Announce) == ""
    ensures F.NoStrayNewline(SetText(items), Announce)
  {
    if items != [] {
      var it, rest := items[0], SetText(items[1..]);
      FirstItemFramed(it, rest);
      SetMultiFramed(items[1..]);
      var s := SetText(items);
      assert s[|s| - |rest|..] == rest;
      assert SetLine(it)[0] == 's' && s[0] == SetLine(it)[0];
    }
  }

  lemma AnnounceIsSane()
    ensures F.Sane(Announce)
  {
    assert Words("") == [];
  }

  lemma ItemVisible(it: Item, rest: string)
    requires Sendable(it)
    ensures U.Visible(SetLine(it) + CRLF + it.body + CRLF + rest)
  {
    var line := SetLine(it);
    var s := line + CRLF + it.body + CRLF + rest;
    SetLineAnnounces(it);
    NewlineAfter(line + "\r", it.body + CRLF + rest);
    assert line + "\r" + "\n" + (it.body + CRLF + rest) == s;
    forall z | 0 <= z < |line| + 1 ensures s[z] != '\0' {
      assert s[z] == (line + "\r")[z];
      assert z < |line| ==> s[z] == line[z];
    }
  }

  // No line end of the request is hidden: only bodies can hold zero octets.
  lemma {:induction false} SetMultiVisible(items: seq<Item>)
    requires forall it :: it in items ==> Sendable(it)
    ensures U.AllVisible(SetText(items), Announce)
  {
    if items != [] {
      var it, rest := items[0], SetText(items[1..]);
      FirstItemFramed(it, rest);
      SetMultiVisible(items[1..]);
      var s := SetText(items);
      assert s[|s| - |rest|..] == rest;
      ItemVisible(it, rest);
    }
  }

  // However the network cuts the request, the server hands on its items and holds nothing back.
  lemma SetMultiArrives(items: seq<Item>, chunks: seq<string>)
    requires (forall it :: it in items ==> Sendable(it)) && Concat(chunks) == SetText(items) && U.Fitting(chunks)
    ensures U.Fed(chunks, Announce) == CommandsOf(items) && Concat(U.Held(chunks, Announce)) == ""
  {
    AnnounceIsSane();
    SetMultiFramed(items);
    SetMultiVisible(items);
    U.ChunkingDoesNotMatter(chunks, Announce);
  }
}
