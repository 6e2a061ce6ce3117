/** The append-only data file of values, and the decimal text counters are kept in. */
module DataFile {
  import opened Octets
  import opened Sequences

  datatype Value = Value(flag: int, expire: int, body: string)

  predicate Fits(v: Value) {
    |v.body| < TWO_TO_THE_31 && IsInt32(v.flag) && IsInt32(v.expire)
  }

  function EncodeValue(v: Value): string {
    Int32(|v.body|) + Int32(v.flag) + Int32(v.expire) + v.body
  }

  // The record at an offset, if the file holds one completely.
  function ReadValue(file: string, off: nat): Option<Value> {
    if |file| < off + 12 then None
    else
      var n := ReadInt32(file[off..off + 4]);
      if n < 0 || |file| < off + 12 + n then None
      else Some(Value(ReadInt32(file[off + 4..off + 8]), ReadInt32(file[off + 8..off + 12]),
                      file[off + 12..off + 12 + n]))
  }

  // The record as it lies in the file: length, flag and expiry, low octet first, and the body.
  lemma RecordWritten()
    ensures EncodeValue(Value(2, 259, "ab")) == "\U{02}\0\0\0" + "\U{02}\0\0\0" + "\U{03}\U{01}\0\0" + "ab"
  {
    IntWritten();
  }

  // A record is read back where it was appended.
  lemma AppendedValue(file: string, v: Value)
    requires Fits(v)
    ensures ReadValue(file + EncodeValue(v), |file|) == Some(v)
  {
    var n, r, off := |v.body|, EncodeValue(v), |file|;
    var all := file + r;
    Int32RoundTrip(n);
    Int32RoundTrip(v.flag);
    Int32RoundTrip(v.expire);
    assert r[0..4] == Int32(n) && r[4..8] == Int32(v.flag) && r[8..12] == Int32(v.expire) && r[12..12 + n] == v.body;
    Shifted(file, r, 0, 4);
    Shifted(file, r, 4, 8);
    Shifted(file, r, 8, 12);
    Shifted(file, r, 12, 12 + n);
  }

  lemma Shifted(a: string, b: string, i: nat, j: nat)
    requires i <= j <= |b|
    ensures (a + b)[|a| + i..|a| + j] == b[i..j]
  {
  }

  // A complete record is never affected by what is appended later.
  lemma StableValue(file: string, more: string, off: nat)
    requires ReadValue(file, off).Some?
    ensures ReadValue(file + more, off) == ReadValue(file, off)
  {
    var n := ReadInt32(file[off..off + 4]);
    var all := file + more;
    assert all[off..off + 4] == file[off..off + 4];
    assert all[off + 4..off + 8] == file[off + 4..off + 8];
    assert all[off + 8..off + 12] == file[off + 8..off + 12];
    assert all[off + 12..off + 12 + n] == file[off + 12..off + 12 + n];
  }

  // ---------- decimal text ----------

  predicate IsDigit(c: char) {
    '0' <= c <= '9'
  }

  function Digits(n: nat): string {
    if n < 10 then [('0' as int + n) as char] else Digits(n / 10) + [('0' as int + n % 10) as char]
  }

  // snprintf with %d.
  function Show(n: int): string {
    if n < 0 then "-" + Digits(-n) else Digits(n)
  }

  function ParseDigits(s: string, acc: nat): nat {
    if s == "" || !IsDigit(s[0]) then acc
    else ParseDigits(s[1..], 10 * acc + (s[0] as int - '0' as int))
  }

  // atoi: blanks, a sign, and as many digits as there are.
  function Atoi(s: string): int {
    if s != "" && s[0] in " \t\n\r\U{000B}\U{000C}" then Atoi(s[1..])
    else if s != "" && s[0] == '-' then 0 - ParseDigits(s[1..], 0)
    else if s != "" && s[0] == '+' then ParseDigits(s[1..], 0)
    else ParseDigits(s, 0)
  }

  lemma {:induction false} ParseDigitsAppend(a: string, c: char, acc: nat)
    requires (forall i :: 0 <= i < |a| ==> IsDigit(a[i])) && IsDigit(c)
    ensures ParseDigits(a + [c], acc) == 10 * ParseDigits(a, acc) + (c as int - '0' as int)
  {
    if a == "" {
      assert (a + [c])[1..] == "";
    } else {
      assert (a + [c])[1..] == a[1..] + [c];
      ParseDigitsAppend(a[1..], c, 10 * acc + (a[0] as int - '0' as int));
    }
  }

  lemma {:induction false} DigitsParse(n: nat)
    ensures Digits(n) != "" && forall i :: 0 <= i < |Digits(n)| ==> IsDigit(Digits(n)[i])
    ensures ParseDigits(Digits(n), 0) == n
  {
    if n >= 10 {
      DigitsParse(n / 10);
      ParseDigitsAppend(Digits(n / 10), ('0' as int + n % 10) as char, 0);
    } else {
      assert Digits(n)[1..] == "";
    }
  }

  // A counter written by incr or decr is read back as the same number.
  lemma AtoiShow(n: int)
    ensures Atoi(Show(n)) == n
  {
    DigitsParse(if n < 0 then -n else n);
    if n < 0 {
      assert Show(n)[1..] == Digits(-n);
    } else {
      assert IsDigit(Digits(n)[0]);
    }
  }

  // Printed numbers have no plus sign and no leading zero, and a minus sign only in front of
  // a negative number's digits; with AtoiShow this says which text is printed.
  lemma {:induction false} DigitsPlain(n: nat)
    ensures |Digits(n)| > 0 && (Digits(n)[0] == '0' <==> n == 0) && (n == 0 ==> |Digits(n)| == 1)
  {
    if n >= 10 { DigitsPlain(n / 10); }
  }

  lemma ShowPlain(n: int)
    ensures if n < 0 then Show(n) == "-" + Show(-n)
            else Show(n) != "" && (if n == 0 then |Show(n)| == 1 else Show(n)[0] != '0')
                 && forall i :: 0 <= i < |Show(n)| ==> IsDigit(Show(n)[i])
  {
    DigitsPlain(if n < 0 then -n else n);
    DigitsParse(if n < 0 then -n else n);
  }

  lemma {:induction false} ParseStops(s: string, rest: string, acc: nat)
    requires (forall i :: 0 <= i < |s| ==> IsDigit(s[i])) && (rest != "" ==> !IsDigit(rest[0]))
    ensures ParseDigits(s + rest, acc) == ParseDigits(s, acc)
  {
    if s == "" {
      assert s + rest == rest;
    } else {
      assert (s + rest)[0] == s[0] && (s + rest)[1..] == s[1..] + rest;
      ParseStops(s[1..], rest, 10 * acc + (s[0] as int - '0' as int));
    }
  }

  // atoi reads a number behind white space and an optional plus sign, whatever follows it.
  lemma AtoiText(blanks: string, n: int, rest: string)
    requires forall i :: 0 <= i < |blanks| ==> blanks[i] == ' ' || '\t' <= blanks[i] <= '\r'
    requires rest != "" ==> !IsDigit(rest[0])
    ensures Atoi(blanks + (Show(n) + rest)) == n
    ensures n >= 0 ==> Atoi(blanks + ("+" + Show(n) + rest)) == n
  {
    AtoiStops(n, rest);
    AtoiBlanks(blanks, Show(n) + rest);
    AtoiBlanks(blanks, "+" + Show(n) + rest);
  }

  lemma AtoiDigits(d: string, rest: string)
    requires d != "" && (forall i :: 0 <= i < |d| ==> IsDigit(d[i])) && (rest != "" ==> !IsDigit(rest[0]))
    ensures Atoi(d + rest) == ParseDigits(d, 0)
  {
    ParseStops(d, rest, 0);
    assert (d + rest)[0] == d[0] && IsDigit(d[0]);
  }

  lemma AtoiSigned(sign: char, s: string)
    requires sign == '-' || sign == '+'
    ensures Atoi([sign] + s) == if sign == '-' then 0 - ParseDigits(s, 0) else ParseDigits(s, 0)
  {
    assert ([sign] + s)[1..] == s;
  }

  lemma AtoiOf(d: string, m: nat, rest: string)
    requires d != "" && (forall i :: 0 <= i < |d| ==> IsDigit(d[i])) && (rest != "" ==> !IsDigit(rest[0]))
    requires ParseDigits(d, 0) == m
    ensures Atoi(d + rest) == m && Atoi("-" + d + rest) == 0 - m && Atoi("+" + d + rest) == m
  {
    ParseStops(d, rest, 0);
    AtoiDigits(d, rest);
    AtoiSigned('-', d + rest);
    AtoiSigned('+', d + rest);
    Joined("-", d, rest);
    Joined("+", d, rest);
  }

  lemma AtoiStops(n: int, rest: string)
    requires rest != "" ==> !IsDigit(rest[0])
    ensures Atoi(Show(n) + rest) == n && (n >= 0 ==> Atoi("+" + Show(n) + rest) == n)
  {
    var m := if n < 0 then -n else n;
    DigitsParse(m);
    AtoiOf(Digits(m), m, rest);
  }

  lemma {:induction false} AtoiBlanks(blanks: string, s: string)
    requires forall i :: 0 <= i < |blanks| ==> blanks[i] == ' ' || '\t' <= blanks[i] <= '\r'
    ensures Atoi(blanks + s) == Atoi(s)
  {
    if blanks == "" {
      assert blanks + s == s;
    } else {
      assert (blanks + s)[0] == blanks[0] && (blanks + s)[1..] == blanks[1..] + s;
      AtoiBlanks(blanks[1..], s);
    }
  }

  // Signed 32-bit arithmetic.
  function Wrap(x: int): int {
    (x + 0x8000_0000) % 0x1_0000_0000 - 0x8000_0000
  }

  // The number incr and decr see in a value.
  function Counter(body: string): int {
    Wrap(Atoi(body))
  }

  lemma WrapSum(a: int, b: int)
    ensures Wrap(Wrap(a) + b) == Wrap(a + b) && IsInt32(Wrap(a))
    ensures IsInt32(a) ==> Wrap(a) == a
  {
  }

  function Power10(k: nat): nat {
    if k == 0 then 1 else 10 * Power10(k - 1)
  }

  lemma {:induction false} DigitsShort(n: nat, k: nat)
    requires n < Power10(k) && k > 0
    ensures |Digits(n)| <= k
  {
    if n >= 10 { DigitsShort(n / 10, k - 1); }
  }

  lemma ShowShort(n: int)
    requires IsInt32(n)
    ensures |Show(n)| <= 11
  {
    assert Power10(10) == 10_000_000_000;
    DigitsShort(if n < 0 then -n else n, 10);
  }
}
