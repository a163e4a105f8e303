/** Packets of the GDB remote protocol: hexadecimal, sending, and receiving with escapes and run lengths
    (nemu/tools/qemu-diff/src/protocol.c). */
module Gdb {
  import opened Arithmetic

  type Byte = x: int | 0 <= x < 256

  const START: Byte := 0x24  // $
  const END: Byte := 0x23  // #
  const ESCAPE: Byte := 0x7d  // }
  const RUN: Byte := 0x2a  // *

  // ----- hexadecimal -----

  predicate IsDigit(c: int) { 0x30 <= c <= 0x39 }

  predicate IsHexDigit(c: int) { IsDigit(c) || 0x41 <= c <= 0x46 || 0x61 <= c <= 0x66 }

  function ToLower(c: int): int { if 0x41 <= c <= 0x5a then c + 0x20 else c }

  /** hex_nibble, on hexadecimal digits. */
  function HexNibble(c: Byte): (n: int)
    requires IsHexDigit(c)
    ensures 0 <= n < 16
  {
    if IsDigit(c) then c - 0x30 else ToLower(c) - 0x61 + 10
  }

  /** hex_encode. */
  function HexEncode(digit: int): Byte
    requires 0 <= digit < 16
  {
    if digit > 9 then 0x61 + digit - 10 else 0x30 + digit
  }

  /** A digit of the format %02X. */
  function UpperHex(digit: int): Byte
    requires 0 <= digit < 16
  {
    if digit > 9 then 0x41 + digit - 10 else 0x30 + digit
  }

  /** gdb_decode_hex; UINT16_MAX if a character is not a digit. */
  function DecodeHex(msb: Byte, lsb: Byte): (v: int)
    ensures IsHexDigit(msb) && IsHexDigit(lsb) <==> v < 256
  {
    if !IsHexDigit(msb) || !IsHexDigit(lsb) then 0xffff else 16 * HexNibble(msb) + HexNibble(lsb)
  }

  /** The digits as they are written. */
  lemma HexDigits(d: int)
    requires 0 <= d < 16
    ensures HexEncode(d) == "0123456789abcdef"[d] as int && UpperHex(d) == "0123456789ABCDEF"[d] as int
  {
  }

  /** Both ways of writing a byte read back as it. */
  lemma HexRoundTrip(b: Byte)
    ensures DecodeHex(HexEncode(b / 16), HexEncode(b % 16)) == b
    ensures DecodeHex(UpperHex(b / 16), UpperHex(b % 16)) == b
  {
    NibbleRoundTrip(b / 16);
    NibbleRoundTrip(b % 16);
  }

  lemma NibbleRoundTrip(d: int)
    requires 0 <= d < 16
    ensures IsHexDigit(HexEncode(d)) && HexNibble(HexEncode(d)) == d
    ensures IsHexDigit(UpperHex(d)) && HexNibble(UpperHex(d)) == d
  {
  }

  const WORD64: int := 0x1_0000_0000_0000_0000

  /** Bytes in hexadecimal, lowest first. */
  function HexString(bytes: seq<Byte>): seq<Byte>
  {
    if bytes == [] then [] else [HexEncode(bytes[0] / 16), HexEncode(bytes[0] % 16)] + HexString(bytes[1..])
  }

  function LittleEndian(bytes: seq<Byte>): nat
  {
    if bytes == [] then 0 else bytes[0] + 256 * LittleEndian(bytes[1..])
  }

  /** The bytes that leading pairs of digits stand for. */
  function HexBytes(s: seq<Byte>): seq<Byte>
  {
    if |s| >= 2 && IsHexDigit(s[0]) && IsHexDigit(s[1]) then [DecodeHex(s[0], s[1])] + HexBytes(s[2..]) else []
  }

  lemma {:induction false} HexStringRoundTrip(bytes: seq<Byte>)
    ensures HexBytes(HexString(bytes)) == bytes
    decreases |bytes|
  {
    if bytes != [] {
      HexRoundTrip(bytes[0]);
      HexStringRoundTrip(bytes[1..]);
      NibbleRoundTrip(bytes[0] / 16);
      NibbleRoundTrip(bytes[0] % 16);
      assert HexString(bytes)[2..] == HexString(bytes[1..]);
    }
  }

  /** One more pair: the rest weighs `power`. */
  lemma NextPair(value: int, weight: int, power: int, d: int, rest: int, all: int)
    requires 0 <= value < WORD64 && weight == power % WORD64 && (value + power * (d + 256 * rest)) % WORD64 == all
    ensures ((value + weight * d) % WORD64 + (power * 256) * rest) % WORD64 == all
    ensures (weight * 256) % WORD64 == (power * 256) % WORD64
  {
    MulMod(WORD64, d, power);
    MulMod(WORD64, 256, power);
    assert power * (d + 256 * rest) == power * d + (power * 256) * rest;
    PairSums(value, d * weight, d * power, (power * 256) * rest, all);
  }

  lemma PairSums(value: int, x: int, y: int, rest: int, all: int)
    requires x % WORD64 == y % WORD64 && (value + y + rest) % WORD64 == all
    ensures ((value + x) % WORD64 + rest) % WORD64 == all
  {
    AddMod(WORD64, value, x);
    AddMod(WORD64, value, y);
    AddModLeft(WORD64, value + x, rest);
    AddModLeft(WORD64, value + y, rest);
  }

  /** gdb_decode_hex_str: the little-endian number, modulo 2^64. */
  method DecodeHexStr(s: seq<Byte>) returns (value: int)
    ensures value == LittleEndian(HexBytes(s)) % WORD64
  {
    value := 0;
    var weight, i := 1, 0;
    ghost var power := 1;
    assert s[0..] == s;
    while i + 2 <= |s| && IsHexDigit(s[i]) && IsHexDigit(s[i + 1])
      invariant 0 <= i <= |s| && 0 <= value < WORD64 && weight == power % WORD64
      invariant (value + power * LittleEndian(HexBytes(s[i..]))) % WORD64 == LittleEndian(HexBytes(s)) % WORD64
    {
      ghost var rest := LittleEndian(HexBytes(s[i + 2..]));
      var d := DecodeHex(s[i], s[i + 1]);
      assert s[i..][2..] == s[i + 2..];
      assert HexBytes(s[i..]) == [d] + HexBytes(s[i + 2..]);
      assert LittleEndian(HexBytes(s[i..])) == d + 256 * rest;
      NextPair(value, weight, power, d, rest, LittleEndian(HexBytes(s)) % WORD64);
      value := (value + weight * d) % WORD64;
      weight := weight * 256 % WORD64;
      power := power * 256;
      i := i + 2;
    }
    assert HexBytes(s[i..]) == [];
  }

  lemma DecodeHexStrRoundTrip(bytes: seq<Byte>)
    requires |bytes| <= 8
    ensures LittleEndian(HexBytes(HexString(bytes))) % WORD64 == LittleEndian(bytes)
  {
    hide Power256, LittleEndian, HexBytes, HexString;
    HexStringRoundTrip(bytes);
    LittleEndianBound(bytes, |bytes|);
    PowerBound(|bytes|);
    SmallMod(WORD64, LittleEndian(bytes));
  }

  function Power256(n: nat): nat { if n == 0 then 1 else 256 * Power256(n - 1) }

  lemma {:induction false} LittleEndianBound(bytes: seq<Byte>, n: nat)
    requires |bytes| <= n <= 8
    ensures LittleEndian(bytes) < Power256(n) <= WORD64
    decreases n
  {
    if bytes != [] {
      LittleEndianBound(bytes[1..], n - 1);
    }
    assert Power256(8) == WORD64;
    PowerBound(n);
  }

  lemma {:induction false} PowerBound(n: nat)
    requires n <= 8
    ensures 1 <= Power256(n) <= WORD64
    decreases 8 - n
  {
    if n == 8 { assert Power256(8) == WORD64; } else { PowerBound(n + 1); }
  }
}
