/** Between the wire and the store: what the server takes a framed command to ask for, what
    it prints in reply, and that a client's request and the reply to it mean what they say. */
module Requests {
  import opened Sequences
  import opened Octets
  import opened DataFile
  import opened Sequential
  import opened Wire
  import opened Workers
  import opened Guarantees
  import opened Commands
  import F = Framing
  import U = UnitFraming
  import C = Client
  import K = KeyListing

  const MAX_LISTED: int := 10000

  datatype Request =
    | Write(cmd: Cmd)
    | Get(keys: seq<string>, signed: bool)
    | Range(q: Query, limit: int, order: K.Order)
    | Quit
    | Ignored                                   // too few words: no reply at all
    | Bad                                       // ERROR

  // ---------- reading a command ----------

  // Split at every single blank, as cmd_do_get does.
  function Parts(s: string): seq<string>
    decreases |s|
  {
    var w := FirstWord(s);
    if |w| == |s| then [w] else [w] + Parts(s[|w| + 1..])
  }

  // handle_cmd and the cmd_do_* it calls; now is the clock.
  function Reads(c: F.Command, now: nat): Request {
    var w := Words(c.header);
    if "set" <= c.header then ReadsSet(w, c.body, now)
    else if "gets" <= c.header then Get(KeysOf(c.header), true)
    else if "get" <= c.header then Get(KeysOf(c.header), false)
    else if "prefix" <= c.header then
      if |w| >= 4 && IsNumber(w[2])
      then Range(Prefix(w[1]), Limit(Atoi(w[2])), if w[3] == "asc" then K.Asc else K.Desc) else Bad
    else if "less" <= c.header then
      if |w| >= 3 && IsNumber(w[2]) then Range(Less(w[1]), Limit(Atoi(w[2])), K.Desc) else Bad
    else if "greater" <= c.header then
      if |w| >= 3 && IsNumber(w[2]) then Range(Greater(w[1]), Limit(Atoi(w[2])), K.Asc) else Bad
    else if "cas" <= c.header then ReadsCas(w, c.body)
    else ReadsRest(c.header, w)
  }

  function ReadsRest(header: string, w: seq<string>): Request {
    if "delete" <= header then if |w| >= 2 then Write(Delete(w[1])) else Ignored
    else if "incr" <= header then
      if |w| >= 3 && IsNumber(w[2]) then Write(Incr(w[1], Atoi(w[2]))) else Ignored
    else if "decr" <= header then
      if |w| >= 3 && IsNumber(w[2]) then Write(Incr(w[1], -Atoi(w[2]))) else Ignored
    else if "quit" <= header then Quit
    else Bad
  }

  function Limit(n: int): int {
    if n > MAX_LISTED then MAX_LISTED else n
  }

  function ReadsSet(w: seq<string>, body: string, now: nat): Request {
    if |w| >= 5 && IsNumber(w[2]) && IsNumber(w[3]) && IsNumber(w[4]) && Atoi(w[4]) >= 0
    then Write(Set(w[1], Atoi(w[2]), Atoi(w[3]), body, now)) else Ignored
  }

  function ReadsCas(w: seq<string>, body: string): Request {
    if |w| >= 6 && IsNumber(w[2]) && IsNumber(w[3]) && IsNumber(w[4]) && IsNumber(w[5]) && Atoi(w[4]) >= 0
    then Write(Cas(w[1], Atoi(w[2]), Atoi(w[3]), body, Atoi(w[5]) % TWO_TO_THE_64)) else Ignored
  }

  // The keys behind the first blank.
  function KeysOf(header: string): seq<string> {
    var n := |FirstWord(header)|;
    if n == |header| then [] else Parts(header[n + 1..])
  }

  // ---------- what a client writes is what the server reads ----------

  lemma SetRead(it: Item, now: nat)
    requires IsWord(it.key)
    ensures Reads(F.Command(SetLine(it), it.body), now) == Write(Set(it.key, it.flags, it.time, it.body, now))
  {
    SetLineAnnounces(it);
    ShowIsWord(it.flags);
    ShowIsWord(it.time);
    ShowIsWord(|it.body|);
  }

  lemma CasRead(it: Item, sign: nat, now: nat)
    requires IsWord(it.key) && sign < TWO_TO_THE_64
    ensures Reads(F.Command(CasCommand(it, sign), it.body), now)
            == Write(Cas(it.key, it.flags, it.time, it.body, sign))
  {
    CasCommandWords(it, sign);
    CasArguments(it, sign);
    assert CasCommand(it, sign)[0] == 'c';
  }

  lemma CasArguments(it: Item, sign: nat)
    requires sign < TWO_TO_THE_64
    ensures ReadsCas(["cas", it.key, Show(it.flags), Show(it.time), Show(|it.body|), Show(sign)], it.body)
            == Write(Cas(it.key, it.flags, it.time, it.body, sign))
  {
    ShowIsWord(it.flags);
    ShowIsWord(it.time);
    ShowIsWord(|it.body|);
    ShowIsWord(sign);
  }

  // A line of at least two words starts with the first.
  lemma LineStarts(ws: seq<string>)
    requires AllWords(ws) && |ws| > 1
    ensures Words(Line(ws)) == ws && ws[0] <= Line(ws)
    ensures FirstWord(Line(ws)) == ws[0] && |ws[0]| < |Line(ws)| && Line(ws)[|ws[0]| + 1..] == Line(ws[1..])
  {
    LineWords(ws);
    var rest := " " + Line(ws[1..]);
    assert Line(ws) == ws[0] + rest;
    FirstWordOf(ws[0], rest);
  }

  // A delete may name a time, which the server does not look at.
  lemma DeleteRead(key: string, timed: bool, time: int, now: nat)
    requires IsWord(key)
    ensures Reads(F.Command(Line(if timed then ["delete", key, Show(time)] else ["delete", key]), ""), now)
            == Write(Delete(key))
  {
    ShowIsWord(time);
    LineStarts(if timed then ["delete", key, Show(time)] else ["delete", key]);
  }

  lemma IncrRead(key: string, delta: int, now: nat)
    requires IsWord(key)
    ensures Reads(F.Command(Line(["incr", key, Show(delta)]), ""), now) == Write(Incr(key, delta))
  {
    ShowIsWord(delta);
    LineStarts(["incr", key, Show(delta)]);
    assert Line(["incr", key, Show(delta)])[0] == 'i';
  }

  lemma DecrRead(key: string, delta: int, now: nat)
    requires IsWord(key)
    ensures Reads(F.Command(Line(["decr", key, Show(delta)]), ""), now) == Write(Incr(key, -delta))
  {
    ShowIsWord(delta);
    LineStarts(["decr", key, Show(delta)]);
    var h := Line(["decr", key, Show(delta)]);
    assert h[0] == 'd' && h[2] == 'c';
  }

  ghost predicate NoBlanks(ws: seq<string>) {
    forall i :: 0 <= i < |ws| ==> ' ' !in ws[i]
  }

  lemma {:induction false} PartsOfLine(ws: seq<string>)
    requires NoBlanks(ws) && ws != []
    ensures Parts(Line(ws)) == ws
  {
    if |ws| == 1 {
      FirstWordOf(ws[0], "");
      assert ws[0] + "" == ws[0];
    } else {
      var rest := " " + Line(ws[1..]);
      FirstWordOf(ws[0], rest);
      assert Line(ws) == ws[0] + rest && Line(ws)[|ws[0]| + 1..] == Line(ws[1..]);
      PartsOfLine(ws[1..]);
    }
  }

  // The keys stand between single blanks; where two blanks meet, or one ends the line, the
  // key is empty.
  lemma GetRead(keys: seq<string>, now: nat)
    requires NoBlanks(keys) && keys != []
    ensures Reads(F.Command("get" + " " + Line(keys), ""), now) == Get(keys, false)
  {
    KeysBehind("get", keys);
    var h := "get" + " " + Line(keys);
    assert h[0] == 'g' && h[3] == ' ' && h[..3] == "get";
  }

  lemma GetsRead(keys: seq<string>, now: nat)
    requires NoBlanks(keys) && keys != []
    ensures Reads(F.Command("gets" + " " + Line(keys), ""), now) == Get(keys, true)
  {
    KeysBehind("gets", keys);
    var h := "gets" + " " + Line(keys);
    assert h[0] == 'g' && h[..4] == "gets";
  }

  lemma KeysBehind(name: string, keys: seq<string>)
    requires ' ' !in name && NoBlanks(keys) && keys != []
    ensures KeysOf(name + " " + Line(keys)) == keys
  {
    var rest := " " + Line(keys);
    FirstWordOf(name, rest);
    assert name + " " + Line(keys) == name + rest && (name + rest)[|name| + 1..] == Line(keys);
    PartsOfLine(keys);
  }

  lemma LessRead(key: string, limit: int, now: nat)
    requires IsWord(key)
    ensures Reads(F.Command(Line(["less", key, Show(limit)]), ""), now)
            == Range(Less(key), if limit > 10_000 then 10_000 else limit, K.Desc)
  {
    ShowIsWord(limit);
    LineStarts(["less", key, Show(limit)]);
  }

  lemma GreaterRead(key: string, limit: int, now: nat)
    requires IsWord(key)
    ensures Reads(F.Command(Line(["greater", key, Show(limit)]), ""), now)
            == Range(Greater(key), if limit > 10_000 then 10_000 else limit, K.Asc)
  {
    ShowIsWord(limit);
    LineStarts(["greater", key, Show(limit)]);
  }

  lemma PrefixRead(key: string, limit: int, order: string, now: nat)
    requires IsWord(key) && IsWord(order)
    ensures Reads(F.Command(Line(["prefix", key, Show(limit), order]), ""), now)
            == Range(Prefix(key), if limit > 10_000 then 10_000 else limit, if order == "asc" then K.Asc else K.Desc)
  {
    ShowIsWord(limit);
    LineStarts(["prefix", key, Show(limit), order]);
  }

  // Lines that ask for the end of the connection, or for nothing the server knows.
  lemma OthersRead(header: string, now: nat)
    requires header == "quit" || header == "" || header[0] !in "sgplcdiq"
    ensures Reads(F.Command(header, ""), now) == if header == "quit" then Quit else Bad
  {
    assert header != "" ==> header[0] !in "sgplcdi";
  }

  // What the client lets through is what the workers accept, if the numbers are ints.
  lemma ItemAccepted(it: Item, sign: nat, now: nat)
    requires Sendable(it) && |it.key| < 256 && IsInt32(it.flags) && IsInt32(it.time)
    requires it.time > 0 ==> IsInt32(it.time + now)
    ensures Acceptable(Set(it.key, it.flags, it.time, it.body, now))
    ensures Acceptable(Cas(it.key, it.flags, it.time, it.body, sign))
  {
  }

  lemma KeyAccepted(key: string, delta: int)
    requires IsWord(key)
    ensures Acceptable(Delete(key)) <==> |key| < 256
    ensures Acceptable(Incr(key, delta)) <==> |key| < 256
  {
  }

  // ---------- set_multi, end to end ----------

  // Frame c is item it as sent.
  ghost predicate IsSet(c: F.Command, it: Item, now: nat) {
    Reads(c, now) == Write(Set(it.key, it.flags, it.time, it.body, now))
  }

  lemma {:induction false} ItemsRead(items: seq<Item>, now: nat)
    requires forall it :: it in items ==> Sendable(it)
    ensures |CommandsOf(items)| == |items|
    ensures forall i :: 0 <= i < |items| ==> IsSet(CommandsOf(items)[i], items[i], now)
  {
    if items != [] {
      assert items[0] in items;
      SetRead(items[0], now);
      ItemsRead(items[1..], now);
      var cs := CommandsOf(items);
      forall i | 0 <= i < |items| ensures IsSet(cs[i], items[i], now) {
        if i > 0 { assert cs[i] == CommandsOf(items[1..])[i - 1] && items[i] == items[1..][i - 1]; }
      }
    }
  }

  // However the network cuts the request, the server reads each item as it was sent: key,
  // flags, time and body; and what it stores for it has those flags and that body, and the
  // time as expiry, counted from now unless it is 0.
  lemma SetMultiRead(items: seq<Item>, chunks: seq<string>, i: nat, now: nat, m: View)
    requires (forall it :: it in items ==> Sendable(it)) && Concat(chunks) == SetText(items) && U.Fitting(chunks)
    requires i < |items|
    ensures |U.Fed(chunks, Announce)| == |items|
    ensures var it, q := items[i], Reads(U.Fed(chunks, Announce)[i], now);
      && q == Write(Set(it.key, it.flags, it.time, it.body, now))
      && Decide(q.cmd, m) == Store(Value(it.flags, if it.time > 0 then now + it.time else it.time, it.body))
  {
    SetMultiArrives(items, chunks);
    ItemsRead(items, now);
    assert IsSet(CommandsOf(items)[i], items[i], now);
  }

  // ---------- printing a reply ----------

  predicate EndsWith(s: string, t: string) {
    |t| <= |s| && s[|s| - |t|..] == t
  }

  // What is sent for a reply other than a listing; header is the command line it answers.
  function Prints(r: Reply, header: string, signed: bool): string
    requires !r.Listing?
  {
    match r
    case Stored => if EndsWith(header, " noreply") then "" else "STORED" + CRLF
    case Exists => if EndsWith(header, " noreply") then "" else "EXISTS" + CRLF
    case Deleted => "DELETED" + CRLF
    case NotFound => "NOT_FOUND" + CRLF
    case Number(text) => text + CRLF
    case Values(got) => PrintsValues(got, signed)
    case NoReply => ""
  }

  function GotOf(p: (string, Entry)): C.Got {
    C.Got(p.0, p.1.value.flag, p.1.value.body)
  }

  function PrintsValues(got: seq<(string, Entry)>, signed: bool): string {
    if got == [] then "END" + CRLF
    else
      var g := GotOf(got[0]);
      Line(if signed then C.CasWords(g, got[0].1.off) else C.ValueWords(g)) + CRLF +
      (g.body + CRLF + PrintsValues(got[1..], signed))
  }

  // And for a listing, from the text and the count the traversal leaves.
  function PrintsKeys(text: string, count: nat): string {
    Line(["KEYS", Show(count), Show(|text|)]) + CRLF + (text + ("END" + CRLF))
  }

  function GotsOf(got: seq<(string, Entry)>): seq<C.Got> {
    if got == [] then [] else [GotOf(got[0])] + GotsOf(got[1..])
  }

  // What is printed for get, gets of one key, and a listing is what the client takes apart.
  lemma {:induction false} ValuesPrinted(got: seq<(string, Entry)>)
    ensures PrintsValues(got, false) == C.GetReply(GotsOf(got))
  {
    if got != [] {
      ValuesPrinted(got[1..]);
      assert GotsOf(got)[1..] == GotsOf(got[1..]);
    }
  }

  lemma SignedPrinted(got: seq<(string, Entry)>)
    requires |got| <= 1
    ensures PrintsValues(got, true) ==
      if got == [] then C.GetsReply(None, 0) else C.GetsReply(Some(GotOf(got[0])), got[0].1.off)
  {
    if got != [] { assert got[1..] == []; }
  }

  lemma KeysPrinted(ks: seq<string>)
    ensures PrintsKeys(K.Lines(ks), |ks|) == C.KeysReply(ks)
  {
  }

  // incr and decr are answered with the number now stored, or that there is none.
  lemma CountPrinted(cmd: Cmd, r: Reply, before: View, after: View, header: string)
    requires cmd.Incr? && (TrueReply(cmd, r, before, after) || Refusal(cmd, r, before))
    ensures !r.Listing? && Prints(r, header, false) ==
      if cmd.key in before then Show(Wrap(Counter(before[cmd.key].value.body) + cmd.delta)) + CRLF
      else "NOT_FOUND" + CRLF
  {
  }

  // A delete tells whether there was anything to delete.
  lemma DeletePrinted(cmd: Cmd, r: Reply, before: View, after: View, header: string)
    requires cmd.Delete? && (TrueReply(cmd, r, before, after) || Refusal(cmd, r, before))
    ensures !r.Listing? && Prints(r, header, false) == (if cmd.key in before then "DELETED" else "NOT_FOUND") + CRLF
  {
  }

  lemma {:induction false} LineEnds(ws: seq<string>)
    requires AllWords(ws) && ws != []
    ensures Line(ws) != "" && Line(ws)[|Line(ws)| - 1] == ws[|ws| - 1][|ws[|ws| - 1]| - 1]
  {
    if |ws| > 1 { LineEnds(ws[1..]); }
  }

  // set and cas as the client sends them are always answered, and never with noreply added.
  lemma StoredPrinted(it: Item, sign: nat)
    requires IsWord(it.key)
    ensures Prints(Stored, SetLine(it) + " noreply", false) == Prints(Exists, CasCommand(it, sign) + " noreply", false)
            == ""
    ensures Prints(Stored, SetLine(it), false) == Prints(Stored, CasCommand(it, sign), false) == "STORED" + CRLF
    ensures Prints(Exists, CasCommand(it, sign), false) == "EXISTS" + CRLF
  {
    ShowIsWord(it.flags);
    ShowIsWord(it.time);
    ShowIsWord(|it.body|);
    ShowIsWord(sign);
    EndsInDigit(SetWords(it), |it.body|);
    EndsInDigit(["cas", it.key, Show(it.flags), Show(it.time), Show(|it.body|), Show(sign)], sign);
  }

  lemma EndsInDigit(ws: seq<string>, n: nat)
    requires ws != [] && AllWords(ws) && ws[|ws| - 1] == Show(n)
    ensures !EndsWith(Line(ws), " noreply")
  {
    LineEnds(ws);
    ShowPlain(n);
    var s, t := Line(ws), " noreply";
    assert |t| <= |s| ==> s[|s| - |t|..][|t| - 1] == s[|s| - 1];
  }

  // ---------- what is set is what comes back ----------

  // Item it was set by the effect at position p, and nothing has touched its key since.
  ghost predicate LastSet(hist: seq<Effect>, p: nat, it: Item) {
    && p < |hist| && !TouchedSince(hist, p + 1, it.key)
    && hist[p].cmd.Set? && hist[p].cmd.key == it.key && hist[p].cmd.flag == it.flags && hist[p].cmd.body == it.body
  }

  ghost predicate Held(m: View, it: Item) {
    it.key in m && m[it.key].value.flag == it.flags && m[it.key].value.body == it.body
  }

  function KeysOfItems(items: seq<Item>): seq<string> {
    if items == [] then [] else [items[0].key] + KeysOfItems(items[1..])
  }

  function GotsOfItems(items: seq<Item>): seq<C.Got> {
    if items == [] then [] else [C.Got(items[0].key, items[0].flags, items[0].body)] + GotsOfItems(items[1..])
  }

  lemma ItemHeld(hist: seq<Effect>, p: nat, it: Item)
    requires Legit(hist) && LastSet(hist, p, it)
    ensures Held(Fold(hist), it)
  {
    assert LegitAt(hist, p) && hist[..p + 1][..p] == hist[..p];
    UntouchedKeeps(hist, p + 1, it.key);
  }

  lemma {:induction false} ItemsPresent(items: seq<Item>, m: View)
    requires forall i :: 0 <= i < |items| ==> Held(m, items[i])
    ensures GotsOf(Present(KeysOfItems(items), m)) == GotsOfItems(items)
  {
    if items != [] {
      var rest := items[1..];
      forall i | 0 <= i < |rest| ensures Held(m, rest[i]) { assert Held(m, items[i + 1]); }
      ItemsPresent(rest, m);
      var k, p := items[0].key, Present(KeysOfItems(items), m);
      assert Held(m, items[0]) && KeysOfItems(items)[1..] == KeysOfItems(rest);
      assert p[1..] == Present(KeysOfItems(rest), m);
    }
  }

  // A get of the keys of items that have been set, and not touched since, is answered with
  // the text from which the client recovers each item's key, flags and body.
  lemma SetThenGot(hist: seq<Effect>, ps: seq<nat>, items: seq<Item>, header: string)
    requires Legit(hist) && |ps| == |items| && forall i :: 0 <= i < |items| ==> LastSet(hist, ps[i], items[i])
    ensures Prints(Values(Present(KeysOfItems(items), Fold(hist))), header, false) == C.GetReply(GotsOfItems(items))
  {
    forall i | 0 <= i < |items| ensures Held(Fold(hist), items[i]) { ItemHeld(hist, ps[i], items[i]); }
    ItemsPresent(items, Fold(hist));
    ValuesPrinted(Present(KeysOfItems(items), Fold(hist)));
  }
}
