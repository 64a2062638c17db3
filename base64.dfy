/**
  Base64 as the browser provides it and as `u8ToBase64` / `base64ToU8` use
  it: `btoa` encodes a binary string (one character per byte) with the
  alphabet and `=` padding of section 4 of RFC 4648; `atob` runs the
  forgiving decoder of the HTML standard, which skips ASCII whitespace,
  drops one or two trailing `=` from a length divisible by four, rejects a
  length that leaves remainder one or any character outside the alphabet,
  and ignores the unused low bits of a final group.
*/
module Base64 {
  import opened Wrappers
  import opened Hex

  /** `u8ToBase64` hands `String.fromCharCode` this many bytes at a time. */
  const Chunk: nat := 0x8000

  /** The character of the alphabet for a six-bit value. */
  function Sextet(v: nat): (c: char)
    requires v < 64
  {
    if v < 26 then ('A' as int + v) as char
    else if v < 52 then ('a' as int + (v - 26)) as char
    else if v < 62 then ('0' as int + (v - 52)) as char
    else if v == 62 then '+'
    else '/'
  }

  predicate IsAlphabet(c: char) {
    'A' <= c <= 'Z' || 'a' <= c <= 'z' || '0' <= c <= '9' || c == '+' || c == '/'
  }

  function SextetValue(c: char): (v: nat)
    requires IsAlphabet(c)
    ensures v < 64
  {
    if 'A' <= c <= 'Z' then c as int - 'A' as int
    else if 'a' <= c <= 'z' then c as int - 'a' as int + 26
    else if '0' <= c <= '9' then c as int - '0' as int + 52
    else if c == '+' then 62
    else 63
  }

  lemma SextetRoundTrip(v: nat)
    requires v < 64
    ensures IsAlphabet(Sextet(v)) && SextetValue(Sextet(v)) == v
  {
  }

  /** Three bytes as four alphabet characters. */
  function EncodeGroup(b0: byte, b1: byte, b2: byte): string {
    [Sextet(b0 / 4), Sextet(b0 % 4 * 16 + b1 / 16), Sextet(b1 % 16 * 4 + b2 / 64), Sextet(b2 % 64)]
  }

  /** The alphabet characters for a byte string, four per three bytes, without padding. */
  function EncodeUnpadded(b: seq<byte>): (s: string)
    decreases |b|
  {
    if |b| == 0 then ""
    else if |b| == 1 then EncodeGroup(b[0], 0, 0)[..2]
    else if |b| == 2 then EncodeGroup(b[0], b[1], 0)[..3]
    else EncodeGroup(b[0], b[1], b[2]) + EncodeUnpadded(b[3..])
  }

  /** The `=` characters that complete the last group of four. */
  function Padding(n: nat): string {
    if n % 3 == 1 then "==" else if n % 3 == 2 then "=" else ""
  }

  /** Base64 with padding (section 4 of RFC 4648). */
  function Encode(b: seq<byte>): string {
    EncodeUnpadded(b) + Padding(|b|)
  }

  /** The whitespace the forgiving decoder skips: tab, line feed, form feed, carriage return, space. */
  predicate IsAsciiWhitespace(c: char) {
    c == '\t' || c == '\n' || c as int == 0x0C || c == '\r' || c == ' '
  }

  function RemoveWhitespace(s: string): (t: string)
    decreases |s|
  {
    if s == [] then []
    else if IsAsciiWhitespace(s[0]) then RemoveWhitespace(s[1..])
    else [s[0]] + RemoveWhitespace(s[1..])
  }

  /** Drops one or two trailing `=` when the length is a multiple of four. */
  function StripPadding(s: string): string {
    if |s| % 4 == 0 && |s| >= 2 && s[|s| - 2..] == "==" then s[..|s| - 2]
    else if |s| % 4 == 0 && |s| >= 1 && s[|s| - 1] == '=' then s[..|s| - 1]
    else s
  }

  predicate AllAlphabet(s: string) {
    forall i :: 0 <= i < |s| ==> IsAlphabet(s[i])
  }

  /** Four alphabet characters as three bytes. */
  function DecodeGroup(c0: char, c1: char, c2: char, c3: char): (b: seq<byte>)
    requires IsAlphabet(c0) && IsAlphabet(c1) && IsAlphabet(c2) && IsAlphabet(c3)
  {
    var v0, v1, v2, v3 := SextetValue(c0), SextetValue(c1), SextetValue(c2), SextetValue(c3);
    [v0 * 4 + v1 / 16, v1 % 16 * 16 + v2 / 4, v2 % 4 * 64 + v3]
  }

  /** The bytes of alphabet characters taken four at a time; a final two or three give one or two bytes. */
  function DecodeUnpadded(t: string): (b: seq<byte>)
    requires AllAlphabet(t) && |t| % 4 != 1
    decreases |t|
  {
    if |t| == 0 then []
    else if |t| == 2 then DecodeGroup(t[0], t[1], 'A', 'A')[..1]
    else if |t| == 3 then DecodeGroup(t[0], t[1], t[2], 'A')[..2]
    else DecodeGroup(t[0], t[1], t[2], t[3]) + DecodeUnpadded(t[4..])
  }

  /** The forgiving decoder: the bytes, or None where `atob` throws InvalidCharacterError. */
  function Decode(s: string): Option<seq<byte>> {
    var t := StripPadding(RemoveWhitespace(s));
    if |t| % 4 == 1 || !AllAlphabet(t) then None else Some(DecodeUnpadded(t))
  }

  /** The binary string `String.fromCharCode` builds from bytes: one character per byte. */
  function Latin1(b: seq<byte>): (s: string) {
    seq(|b|, i requires 0 <= i < |b| => b[i] as char)
  }

  predicate IsBinaryString(s: string) {
    forall i :: 0 <= i < |s| ==> s[i] as int < 256
  }

  /** The bytes a binary string stands for. */
  function BinaryBytes(s: string): (b: seq<byte>)
    requires IsBinaryString(s)
  {
    seq(|s|, i requires 0 <= i < |s| => s[i] as int)
  }

  /** `btoa`: None where it throws InvalidCharacterError (a character above U+00FF). */
  function Btoa(s: string): Option<string> {
    if IsBinaryString(s) then Some(Encode(BinaryBytes(s))) else None
  }

  /** `atob`: the decoded bytes as a binary string. */
  function Atob(s: string): Option<string> {
    match Decode(s)
    case None => None
    case Some(b) => Some(Latin1(b))
  }

  /**
    `u8ToBase64`: the binary string is built one 0x8000-byte chunk at a time
    and then encoded; the result is the encoding of all the bytes at once.
  */
  method U8ToBase64(bytes: seq<byte>) returns (s: string)
    ensures s == Encode(bytes)
  {
    var binary: string := "";
    var i := 0;
    while i < |bytes|
      invariant i <= |bytes| ==> binary == Latin1(bytes[..i])
      invariant i > |bytes| ==> binary == Latin1(bytes)
      decreases |bytes| - i
    {
      var end := if i + Chunk <= |bytes| then i + Chunk else |bytes|;
      assert bytes[..end] == bytes[..i] + bytes[i..end];
      binary := binary + Latin1(bytes[i..end]);
      i := i + Chunk;
    }
    if i <= |bytes| {
      assert bytes[..i] == bytes;
    }
    assert BinaryBytes(binary) == bytes;
    s := Btoa(binary).value;
  }

  /** `base64ToU8`: the bytes `atob` yields, copied out of its binary string. */
  method Base64ToU8(b64: string) returns (r: Option<seq<byte>>)
    ensures r == Decode(b64)
  {
    var decoded := Atob(b64);
    if decoded.None? {
      return None;
    }
    var binary := decoded.value;
    var out := new byte[|binary|];
    for i := 0 to |binary|
      invariant forall k :: 0 <= k < i ==> out[k] == binary[k] as int
    {
      out[i] := binary[i] as int;
    }
    assert out[..] == Decode(b64).value;
    r := Some(out[..]);
  }

  lemma EncodeGroupAlphabet(b0: byte, b1: byte, b2: byte)
    ensures AllAlphabet(EncodeGroup(b0, b1, b2))
  {
    SextetRoundTrip(b0 / 4);
    SextetRoundTrip(b0 % 4 * 16 + b1 / 16);
    SextetRoundTrip(b1 % 16 * 4 + b2 / 64);
    SextetRoundTrip(b2 % 64);
  }

  /** Three bytes survive encoding and decoding as one group of four characters. */
  lemma GroupRoundTrip(b0: byte, b1: byte, b2: byte)
    ensures AllAlphabet(EncodeGroup(b0, b1, b2))
    ensures var g := EncodeGroup(b0, b1, b2); DecodeGroup(g[0], g[1], g[2], g[3]) == [b0, b1, b2]
  {
    EncodeGroupAlphabet(b0, b1, b2);
    var v0, v1, v2, v3 := b0 / 4, b0 % 4 * 16 + b1 / 16, b1 % 16 * 4 + b2 / 64, b2 % 64;
    SextetRoundTrip(v0);
    SextetRoundTrip(v1);
    SextetRoundTrip(v2);
    SextetRoundTrip(v3);
    assert v0 * 4 + v1 / 16 == b0;
    assert v1 % 16 * 16 + v2 / 4 == b1;
    assert v2 % 4 * 64 + v3 == b2;
  }

  /** A byte or two at the end: the decoder reads back the same bytes from the shortened group. */
  lemma TailRoundTrip(b0: byte, b1: byte)
    ensures var g := EncodeGroup(b0, 0, 0); AllAlphabet(g) && DecodeGroup(g[0], g[1], 'A', 'A')[..1] == [b0]
    ensures var g := EncodeGroup(b0, b1, 0); AllAlphabet(g) && DecodeGroup(g[0], g[1], g[2], 'A')[..2] == [b0, b1]
  {
    GroupRoundTrip(b0, 0, 0);
    GroupRoundTrip(b0, b1, 0);
    SextetRoundTrip(0);
  }

  /** Lengths of the unpadded encoding: four characters per full group, then two or three. */
  lemma {:induction false} EncodeUnpaddedShape(b: seq<byte>)
    ensures AllAlphabet(EncodeUnpadded(b))
    ensures |EncodeUnpadded(b)| % 4 == (if |b| % 3 == 0 then 0 else |b| % 3 + 1)
    decreases |b|
  {
    if |b| >= 3 {
      EncodeUnpaddedShape(b[3..]);
      EncodeUnpaddedShapeStep(b);
    } else if |b| == 1 {
      EncodeGroupAlphabet(b[0], 0, 0);
    } else if |b| == 2 {
      EncodeGroupAlphabet(b[0], b[1], 0);
    }
  }

  /** The inductive step of the shape: a full group adds four alphabet characters. */
  lemma EncodeUnpaddedShapeStep(b: seq<byte>)
    requires |b| >= 3
    requires AllAlphabet(EncodeUnpadded(b[3..]))
    requires |EncodeUnpadded(b[3..])| % 4 == (if |b[3..]| % 3 == 0 then 0 else |b[3..]| % 3 + 1)
    ensures AllAlphabet(EncodeUnpadded(b))
    ensures |EncodeUnpadded(b)| % 4 == (if |b| % 3 == 0 then 0 else |b| % 3 + 1)
  {
    var g, rest := EncodeGroup(b[0], b[1], b[2]), EncodeUnpadded(b[3..]);
    EncodeGroupAlphabet(b[0], b[1], b[2]);
    assert EncodeUnpadded(b) == g + rest;
    assert forall i :: 0 <= i < |g + rest| ==> IsAlphabet((g + rest)[i]) by {
      forall i | 0 <= i < |g + rest| ensures IsAlphabet((g + rest)[i]) {
        if i < 4 { assert (g + rest)[i] == g[i]; } else { assert (g + rest)[i] == rest[i - 4]; }
      }
    }
    ShiftMod(|rest|, |b[3..]|);
  }

  lemma ShiftMod(x: nat, y: nat)
    ensures (x + 4) % 4 == x % 4 && (y + 3) % 3 == y % 3
  {
  }

  /** Decoding a full group followed by more characters decodes the group, then the rest. */
  lemma DecodeUnpaddedCons(g: string, rest: string)
    requires |g| == 4 && AllAlphabet(g) && AllAlphabet(rest) && |rest| % 4 != 1
    ensures AllAlphabet(g + rest) && |g + rest| % 4 != 1
    ensures DecodeUnpadded(g + rest) == DecodeGroup(g[0], g[1], g[2], g[3]) + DecodeUnpadded(rest)
  {
    var t := g + rest;
    assert forall i :: 0 <= i < |t| ==> IsAlphabet(t[i]) by {
      forall i | 0 <= i < |t| ensures IsAlphabet(t[i]) {
        if i < 4 { assert t[i] == g[i]; } else { assert t[i] == rest[i - 4]; }
      }
    }
    assert t[4..] == rest;
    assert t[0] == g[0] && t[1] == g[1] && t[2] == g[2] && t[3] == g[3];
  }

  lemma {:induction false} DecodeEncodeUnpadded(b: seq<byte>)
    ensures AllAlphabet(EncodeUnpadded(b)) && |EncodeUnpadded(b)| % 4 != 1
    ensures DecodeUnpadded(EncodeUnpadded(b)) == b
    decreases |b|
  {
    EncodeUnpaddedShape(b);
    if |b| == 1 || |b| == 2 {
      TailRoundTrip(b[0], if |b| == 2 then b[1] else 0);
    } else if |b| >= 3 {
      DecodeEncodeUnpadded(b[3..]);
      DecodeEncodeGroupThenRest(b);
    }
  }

  /** The inductive step: if the bytes after the first three round-trip, so does the whole sequence. */
  lemma DecodeEncodeGroupThenRest(b: seq<byte>)
    requires |b| >= 3
    requires AllAlphabet(EncodeUnpadded(b)) && |EncodeUnpadded(b)| % 4 != 1
    requires AllAlphabet(EncodeUnpadded(b[3..])) && |EncodeUnpadded(b[3..])| % 4 != 1
    requires DecodeUnpadded(EncodeUnpadded(b[3..])) == b[3..]
    ensures DecodeUnpadded(EncodeUnpadded(b)) == b
  {
    var g := EncodeGroup(b[0], b[1], b[2]);
    GroupRoundTrip(b[0], b[1], b[2]);
    assert EncodeUnpadded(b) == g + EncodeUnpadded(b[3..]);
    DecodeUnpaddedCons(g, EncodeUnpadded(b[3..]));
    assert b == [b[0], b[1], b[2]] + b[3..];
  }

  lemma {:induction false} RemoveWhitespaceOfClean(s: string)
    requires forall i :: 0 <= i < |s| ==> !IsAsciiWhitespace(s[i])
    ensures RemoveWhitespace(s) == s
    decreases |s|
  {
    if s != [] {
      RemoveWhitespaceOfClean(s[1..]);
    }
  }

  /** Padding after alphabet characters is exactly what the decoder strips. */
  lemma StripPaddingAfterAlphabet(u: string, n: nat)
    requires AllAlphabet(u)
    requires |u| % 4 == (if n % 3 == 0 then 0 else n % 3 + 1)
    ensures StripPadding(u + Padding(n)) == u
  {
    var e := u + Padding(n);
    if n % 3 == 1 {
      assert e[|e| - 2..] == "==";
      assert e[..|e| - 2] == u;
    } else if n % 3 == 2 {
      assert e[|e| - 2] == u[|u| - 1];
      assert e[..|e| - 1] == u;
    } else {
      assert e == u;
      if |u| >= 1 {
        assert e[|e| - 1] == u[|u| - 1];
      }
    }
  }

  lemma EncodeHasNoWhitespace(b: seq<byte>)
    ensures forall i :: 0 <= i < |Encode(b)| ==> !IsAsciiWhitespace(Encode(b)[i])
  {
    EncodeUnpaddedShape(b);
    var u := EncodeUnpadded(b);
    var e := Encode(b);
    forall i | 0 <= i < |e| ensures !IsAsciiWhitespace(e[i]) {
      if i < |u| { assert e[i] == u[i]; } else { assert e[i] == '='; }
    }
  }

  /** Stripping the padding of an encoding leaves its alphabet characters. */
  lemma StripPaddingOfEncode(b: seq<byte>)
    ensures RemoveWhitespace(Encode(b)) == Encode(b)
    ensures StripPadding(Encode(b)) == EncodeUnpadded(b)
  {
    EncodeUnpaddedShape(b);
    EncodeHasNoWhitespace(b);
    RemoveWhitespaceOfClean(Encode(b));
    StripPaddingAfterAlphabet(EncodeUnpadded(b), |b|);
  }

  /** `base64ToU8(u8ToBase64(b)) == b`: the forgiving decoder inverts the padded encoding. */
  lemma DecodeEncode(b: seq<byte>)
    ensures Decode(Encode(b)) == Some(b)
  {
    DecodeEncodeUnpadded(b);
    StripPaddingOfEncode(b);
  }
}
