/** How the two files lay out numbers.  A file is a string whose characters are octets. */
module Octets {

  // n octets of x, least significant first.
  function Bytes(x: nat, n: nat): (s: string)
    ensures |s| == n
  {
    if n == 0 then "" else [(x % 256) as char] + Bytes(x / 256, n - 1)
  }

  function Number(s: string): nat {
    if s == "" then 0 else s[0] as nat + 256 * Number(s[1..])
  }

  function Power256(n: nat): nat {
    if n == 0 then 1 else 256 * Power256(n - 1)
  }

  lemma {:induction false} NumberBytes(x: nat, n: nat)
    requires x < Power256(n)
    ensures Number(Bytes(x, n)) == x
  {
    if n > 0 { NumberBytes(x / 256, n - 1); }
  }

  const TWO_TO_THE_31: int := 0x8000_0000
  const TWO_TO_THE_32: int := 0x1_0000_0000
  const TWO_TO_THE_64: int := 0x1_0000_0000_0000_0000

  // An int and a uint64 as fwrite stores them and fread gets them back.
  function Int32(x: int): (s: string)
    ensures |s| == 4
  {
    Bytes(x % TWO_TO_THE_32, 4)
  }

  function ReadInt32(s: string): int {
    var x := Number(s);
    if x < TWO_TO_THE_31 then x else x - TWO_TO_THE_32
  }

  function UInt64(x: nat): (s: string)
    ensures |s| == 8
  {
    Bytes(x, 8)
  }

  predicate IsInt32(x: int) {
    -TWO_TO_THE_31 <= x < TWO_TO_THE_31
  }

  lemma {:induction false} ZeroBytes(n: nat)
    ensures Bytes(0, n) == seq(n, _ => '\0')
  {
    if n > 0 {
      ZeroBytes(n - 1);
      assert seq(n, _ => '\0') == ['\0'] + seq(n - 1, _ => '\0');
    }
  }

  // The low octet first, negative numbers in two's complement.
  lemma IntWritten()
    ensures Int32(2) == "\U{02}\0\0\0" && Int32(259) == "\U{03}\U{01}\0\0"
    ensures UInt64(259) == "\U{03}\U{01}\0\0\0\0\0\0"
    ensures Int32(-2) == "\U{FE}\U{FF}\U{FF}\U{FF}"
  {
    ZeroBytes(6);
    assert Bytes(259, 8) == [3 as char] + Bytes(1, 7) && Bytes(1, 7) == [1 as char] + Bytes(0, 6);
    var x: nat := 0xFFFF_FFFE;
    assert -2 % TWO_TO_THE_32 == x && x % 256 == 0xFE && x / 256 == 0xFF_FFFF;
    assert Bytes(0xFF_FFFF, 3) == [0xFF as char] + Bytes(0xFFFF, 2);
    assert Bytes(0xFFFF, 2) == [0xFF as char] + Bytes(0xFF, 1);
  }

  lemma Int32RoundTrip(x: int)
    requires IsInt32(x)
    ensures ReadInt32(Int32(x)) == x
  {
    assert Power256(4) == TWO_TO_THE_32;
    NumberBytes(x % TWO_TO_THE_32, 4);
  }

  lemma UInt64RoundTrip(x: nat)
    requires x < TWO_TO_THE_64
    ensures Number(UInt64(x)) == x
  {
    assert Power256(8) == 256 * 256 * 256 * 256 * Power256(4);
    NumberBytes(x, 8);
  }
}
