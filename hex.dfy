/**
  Bytes and their hexadecimal spellings: the library's `hexlify` and
  `getBytes` (the `0x`-prefixed "BytesLike" strings that `keccak256` accepts
  and returns), the two-character `parseInt(_, 16)` that `hexToBytes` relies
  on, and `hexToBytes` itself.
*/
module Hex {
  import opened Wrappers

  /** One element of a `Uint8Array`. */
  type byte = x: int | 0 <= x < 256

  predicate IsHexDigit(c: char) {
    '0' <= c <= '9' || 'a' <= c <= 'f' || 'A' <= c <= 'F'
  }

  /** The value of a hexadecimal digit, either letter case. */
  function DigitValue(c: char): (v: nat)
    requires IsHexDigit(c)
    ensures v < 16
  {
    if '0' <= c <= '9' then c as int - '0' as int
    else if 'a' <= c <= 'f' then c as int - 'a' as int + 10
    else c as int - 'A' as int + 10
  }

  /** The lower-case digit `hexlify` writes for a nibble. */
  function Digit(v: nat): (c: char)
    requires v < 16
  {
    if v < 10 then ('0' as int + v) as char else ('a' as int + v - 10) as char
  }

  lemma DigitRoundTrip(v: nat)
    requires v < 16
    ensures IsHexDigit(Digit(v)) && DigitValue(Digit(v)) == v
    ensures Digit(v) != 'x' && Digit(v) != 'X'
  {
  }

  /** `hexlify(Uint8Array.from([b])).slice(2)`: two lower-case digits. */
  function HexPair(b: byte): string {
    [Digit(b / 16), Digit(b % 16)]
  }

  /** The digits of `hexlify(b)` after its `0x`. */
  function HexDigits(b: seq<byte>): (s: string) {
    seq(2 * |b|, i requires 0 <= i < 2 * |b| =>
      if i % 2 == 0 then Digit(b[i / 2] / 16) else Digit(b[i / 2] % 16))
  }

  /** `hexlify`: `0x` followed by two lower-case digits per byte. */
  function Hexlify(b: seq<byte>): string {
    "0x" + HexDigits(b)
  }

  /** The value of two hexadecimal digits read as one byte. */
  function PairValue(hi: char, lo: char): byte
    requires IsHexDigit(hi) && IsHexDigit(lo)
  {
    16 * DigitValue(hi) + DigitValue(lo)
  }

  predicate AllHexDigits(s: string) {
    forall i :: 0 <= i < |s| ==> IsHexDigit(s[i])
  }

  /**
    What `getBytes` accepts as a string: `0x` (either case of `x`) and an
    even number of hexadecimal digits of either case.
  */
  predicate IsHexData(s: string) {
    && |s| >= 2 && s[0] == '0' && (s[1] == 'x' || s[1] == 'X')
    && |s| % 2 == 0
    && AllHexDigits(s[2..])
  }

  /** The bytes spelled by an even-length run of hexadecimal digits. */
  function ParseHexBody(s: string): (b: seq<byte>)
    requires |s| % 2 == 0 && AllHexDigits(s)
  {
    seq(|s| / 2, k requires 0 <= k < |s| / 2 => PairValue(s[2 * k], s[2 * k + 1]))
  }

  /** `getBytes` on a string: the bytes it spells, or None where the library throws "invalid BytesLike value". */
  function GetBytes(s: string): Option<seq<byte>> {
    if IsHexData(s) then Some(ParseHexBody(s[2..])) else None
  }

  /** The characters JavaScript's `parseInt` skips before a number. */
  predicate IsJsWhitespace(c: char) {
    var n := c as int;
    n == 0x09 || n == 0x0A || n == 0x0B || n == 0x0C || n == 0x0D || n == 0x20
    || n == 0xA0 || n == 0x1680 || (0x2000 <= n <= 0x200A) || n == 0x2028 || n == 0x2029
    || n == 0x202F || n == 0x205F || n == 0x3000 || n == 0xFEFF
  }

  /**
    `parseInt(c0 + c1, 16)` stored into a `Uint8Array` element: leading
    whitespace and a sign are skipped, a `0x` prefix is skipped, the longest
    run of digits is read, a negative value wraps modulo 256, and NaN (no
    digits at all) is stored as 0.
  */
  function ParseIntPair(c0: char, c1: char): byte {
    if c0 == '0' && (c1 == 'x' || c1 == 'X') then 0
    else if IsHexDigit(c0) then (if IsHexDigit(c1) then PairValue(c0, c1) else DigitValue(c0))
    else if (IsJsWhitespace(c0) || c0 == '+') && IsHexDigit(c1) then DigitValue(c1)
    else if c0 == '-' && IsHexDigit(c1) then (256 - DigitValue(c1)) % 256
    else 0
  }

  /** The string `hexToBytes` works on: its input without a leading lower-case `0x`. */
  function StripPrefix(hex: string): string {
    if |hex| >= 2 && hex[..2] == "0x" then hex[2..] else hex
  }

  /**
    `hexToBytes`: one byte per two characters after an optional `0x`; an odd
    trailing character is dropped, because the store to index `len / 2` lands
    past the end of the buffer and a typed array ignores it.
  */
  method HexToBytes(hex: string) returns (out: seq<byte>)
    ensures |out| == |StripPrefix(hex)| / 2
    ensures forall k :: 0 <= k < |out| ==>
      out[k] == ParseIntPair(StripPrefix(hex)[2 * k], StripPrefix(hex)[2 * k + 1])
  {
    var clean := if |hex| >= 2 && hex[..2] == "0x" then hex[2..] else hex;
    var len := |clean|;
    var buf := new byte[len / 2];
    var i := 0;
    while i < len
      invariant 0 <= i <= len + 1 && i % 2 == 0
      invariant forall k :: 0 <= k < buf.Length && 2 * k < i ==>
        buf[k] == ParseIntPair(clean[2 * k], clean[2 * k + 1])
    {
      if i / 2 < buf.Length {
        buf[i / 2] := ParseIntPair(clean[i], clean[i + 1]);
      }
      i := i + 2;
    }
    out := buf[..];
  }

  /** Reading back the two digits `hexlify` writes for a byte gives that byte. */
  lemma ParseIntPairOfHexPair(b: byte)
    ensures ParseIntPair(Digit(b / 16), Digit(b % 16)) == b
  {
    DigitRoundTrip(b / 16);
    DigitRoundTrip(b % 16);
  }

  /** `hexToBytes(hexlify(d))` is `d`: the prefix is dropped and every pair reads back its byte. */
  lemma HexToBytesOfHexlify(d: seq<byte>)
    ensures StripPrefix(Hexlify(d)) == HexDigits(d)
    ensures |HexDigits(d)| / 2 == |d|
    ensures forall k :: 0 <= k < |d| ==>
      ParseIntPair(HexDigits(d)[2 * k], HexDigits(d)[2 * k + 1]) == d[k]
  {
    assert Hexlify(d)[..2] == "0x";
    assert Hexlify(d)[2..] == HexDigits(d);
    forall k | 0 <= k < |d|
      ensures ParseIntPair(HexDigits(d)[2 * k], HexDigits(d)[2 * k + 1]) == d[k]
    {
      HexDigitsAt(d, k);
      ParseIntPairOfHexPair(d[k]);
    }
  }

  /** Any result `hexToBytes` may return for `hexlify(d)` is `d`. */
  lemma HexToBytesExact(d: seq<byte>, out: seq<byte>)
    requires |out| == |StripPrefix(Hexlify(d))| / 2
    requires forall k :: 0 <= k < |out| ==>
      out[k] == ParseIntPair(StripPrefix(Hexlify(d))[2 * k], StripPrefix(Hexlify(d))[2 * k + 1])
    ensures out == d
  {
    HexToBytesOfHexlify(d);
  }

  /** The digits at positions 2k and 2k+1 of `hexlify`'s output are those of byte k. */
  lemma HexDigitsAt(d: seq<byte>, k: nat)
    requires k < |d|
    ensures |HexDigits(d)| == 2 * |d|
    ensures HexDigits(d)[2 * k] == Digit(d[k] / 16) && HexDigits(d)[2 * k + 1] == Digit(d[k] % 16)
  {
    assert (2 * k) % 2 == 0 && (2 * k) / 2 == k;
    assert (2 * k + 1) % 2 == 1 && (2 * k + 1) / 2 == k;
  }

  lemma HexDigitsAreHex(d: seq<byte>)
    ensures AllHexDigits(HexDigits(d))
  {
    forall i | 0 <= i < 2 * |d| ensures IsHexDigit(HexDigits(d)[i]) {
      DigitRoundTrip(d[i / 2] / 16);
      DigitRoundTrip(d[i / 2] % 16);
    }
  }

  /** `getBytes(hexlify(d))` is `d`. */
  lemma GetBytesOfHexlify(d: seq<byte>)
    ensures GetBytes(Hexlify(d)) == Some(d)
  {
    var s := Hexlify(d);
    assert s[2..] == HexDigits(d);
    HexDigitsAreHex(d);
    assert IsHexData(s);
    var p := ParseHexBody(HexDigits(d));
    assert |p| == |d|;
    forall k | 0 <= k < |d| ensures p[k] == d[k] {
      HexDigitsAt(d, k);
      DigitRoundTrip(d[k] / 16);
      DigitRoundTrip(d[k] % 16);
    }
    assert p == d;
  }

  /**
    Appending the two digits of a counter byte to a string keeps it
    "BytesLike" exactly when it was, and then adds that byte to what it spells.
  */
  lemma GetBytesAppendPair(s: string, c: byte)
    ensures GetBytes(s + HexPair(c)) ==
      if GetBytes(s).Some? then Some(GetBytes(s).value + [c]) else None
  {
    var t := s + HexPair(c);
    DigitRoundTrip(c / 16);
    DigitRoundTrip(c % 16);
    assert t[|s|] == Digit(c / 16) && t[|s| + 1] == Digit(c % 16);
    if IsHexData(s) {
      assert t[2..] == s[2..] + HexPair(c);
      assert IsHexData(t);
      var body, body' := s[2..], t[2..];
      var p, p' := ParseHexBody(body), ParseHexBody(body');
      assert |p'| == |p| + 1;
      forall k | 0 <= k < |p'| ensures p'[k] == (p + [c])[k] {
        if k < |p| {
          assert body'[2 * k] == body[2 * k] && body'[2 * k + 1] == body[2 * k + 1];
        }
      }
      assert p' == p + [c];
    } else if |s| >= 2 {
      assert t[0] == s[0] && t[1] == s[1];
      if |s| % 2 == 0 && s[0] == '0' && (s[1] == 'x' || s[1] == 'X') {
        var i :| 2 <= i < |s| && !IsHexDigit(s[i]);
        assert t[2..][i - 2] == s[i];
      }
    } else if |s| == 0 {
      assert t[1] == Digit(c % 16);
    }
  }
}
