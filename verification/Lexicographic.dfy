/** The order in which the store lists keys: character by character, a proper
    prefix before its extensions. */
module Lexicographic {

  predicate Less(a: string, b: string) {
    if b == "" then false
    else if a == "" then true
    else if a[0] != b[0] then a[0] < b[0]
    else Less(a[1..], b[1..])
  }

  predicate AtMost(a: string, b: string) {
    a == b || Less(a, b)
  }

  ghost predicate Ascending(ks: seq<string>) {
    forall i, j :: 0 <= i < j < |ks| ==> Less(ks[i], ks[j])
  }

  ghost predicate Descending(ks: seq<string>) {
    forall i, j :: 0 <= i < j < |ks| ==> Less(ks[j], ks[i])
  }

  lemma {:induction false} LessTransitive(a: string, b: string, c: string)
    requires Less(a, b) && Less(b, c)
    ensures Less(a, c)
  {
    if a != "" && a[0] == b[0] && b[0] == c[0] {
      LessTransitive(a[1..], b[1..], c[1..]);
    }
  }

  // Less is a strict total order: exactly one of a < b, a == b, b < a holds.
  lemma {:induction false} LessTrichotomy(a: string, b: string)
    ensures Less(a, b) ==> a != b && !Less(b, a)
    ensures Less(a, b) || a == b || Less(b, a)
  {
    if a != "" && b != "" && a[0] == b[0] {
      LessTrichotomy(a[1..], b[1..]);
      assert a == [a[0]] + a[1..] && b == [b[0]] + b[1..];
    }
  }

  // The first differing character decides; running out of characters counts as smaller.
  lemma {:induction false} FirstDifference(a: string, b: string, n: nat)
    requires n <= |a| && n < |b| && a[..n] == b[..n]
    requires n == |a| || a[n] < b[n]
    ensures Less(a, b)
    decreases n
  {
    if n > 0 {
      assert a[0] == a[..n][0] == b[..n][0] == b[0];
      assert a[1..][..n - 1] == a[..n][1..] == b[..n][1..] == b[1..][..n - 1];
      FirstDifference(a[1..], b[1..], n - 1);
    }
  }

  predicate HasPrefix(k: string, p: string) {
    p <= k
  }
}
