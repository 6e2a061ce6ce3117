/** What the other modules share: an optional value and the joining of sequences. */
module Sequences {

  datatype Option<+T> = None | Some(value: T)

  lemma Joined<T>(a: seq<T>, b: seq<T>, c: seq<T>)
    ensures a + (b + c) == a + b + c
  {
  }

  lemma Blank<T>(a: seq<T>)
    ensures [] + a == a == a + []
  {
  }

  // The pieces of a stream, put together.
  function Concat(pieces: seq<string>): string {
    if pieces == [] then "" else pieces[0] + Concat(pieces[1..])
  }

  lemma {:induction false} ConcatSplit(a: seq<string>, b: seq<string>)
    ensures Concat(a + b) == Concat(a) + Concat(b)
  {
    if a == [] {
      assert a + b == b;
    } else {
      assert (a + b)[1..] == a[1..] + b;
      ConcatSplit(a[1..], b);
      Joined(a[0], Concat(a[1..]), Concat(b));
    }
  }

  lemma ConcatOne(s: string)
    ensures Concat([s]) == s
  {
    assert [s][1..] == [];
    Blank(s);
  }

  lemma ConcatLast(a: seq<string>, s: string)
    ensures Concat(a + [s]) == Concat(a) + s
  {
    ConcatSplit(a, [s]);
    ConcatOne(s);
  }

  // The pieces once k octets have left the front: used-up pieces go, also empty ones.
  function Drop(pieces: seq<string>, k: nat): seq<string> {
    if pieces == [] then []
    else if k >= |pieces[0]| then Drop(pieces[1..], k - |pieces[0]|)
    else [pieces[0][k..]] + pieces[1..]
  }

  lemma {:induction false} DropText(pieces: seq<string>, k: nat)
    ensures Concat(Drop(pieces, k)) == if k <= |Concat(pieces)| then Concat(pieces)[k..] else ""
  {
    if pieces != [] && k >= |pieces[0]| {
      DropText(pieces[1..], k - |pieces[0]|);
    } else if pieces != [] {
      var rest := pieces[1..];
      assert Drop(pieces, k)[1..] == rest;
      assert Concat(pieces)[k..] == pieces[0][k..] + Concat(rest);
    }
  }

  lemma {:induction false} DropTwice(pieces: seq<string>, j: nat, k: nat)
    ensures Drop(Drop(pieces, j), k) == Drop(pieces, j + k)
  {
    if pieces != [] {
      if j >= |pieces[0]| {
        DropTwice(pieces[1..], j - |pieces[0]|, k);
      } else {
        var p := pieces[0];
        assert Drop(pieces, j)[0] == p[j..] && Drop(pieces, j)[1..] == pieces[1..];
        if k < |p| - j { assert p[j..][k..] == p[j + k..]; }
      }
    }
  }
}
