/**
  The address-keyed stream cipher of `ui/src/utils/crypto.ts`: a key is the
  Keccak-256 hash of three normalised addresses joined by `|`; the keystream
  is the concatenation of `keccak256(key ‖ counter)` blocks with a one-byte
  counter; encryption XORs the UTF-8 bytes of the text with the keystream and
  writes the result in base64. There is no integrity check: decryption with
  any well-formed addresses, right or wrong, yields some text.
*/
module Crypto {
  import opened Wrappers
  import opened Hex
  import opened Base64
  import opened Address

  /** A Keccak-256 hash. */
  type Digest = s: seq<byte> | |s| == 32 witness seq(32, i => 0)

  /** The size of one keystream block, the length of a Keccak-256 hash. */
  const BlockSize: nat := 32

  /**
    The library functions the cipher calls and this model does not open:
    Keccak-256, the EIP-55 choice of letters to capitalise, the UTF-8
    encoder, and the non-fatal UTF-8 decoder as such, which keeps a leading
    U+FEFF (the byte-order mark is handled by `TextDecode`).
  */
  datatype Primitives = Primitives(
    keccak: seq<byte> -> Digest,
    checksumCase: string -> seq<bool>,
    utf8Encode: string -> seq<byte>,
    utf8Decode: seq<byte> -> string)

  /** The laws of UTF-8 the round trip needs: decoding undoes encoding, and "" encodes to no bytes. */
  ghost predicate Lawful(p: Primitives) {
    && p.utf8Encode("") == []
    && forall s :: p.utf8Decode(p.utf8Encode(s)) == s
  }

  /** U+FEFF, the byte-order mark. */
  const Bom: char := '\U{FEFF}'

  /** Drops one leading byte-order mark. */
  function StripBom(s: string): string {
    if |s| > 0 && s[0] == Bom then s[1..] else s
  }

  /**
    `new TextDecoder().decode(b)`: the decoder is created with `ignoreBOM`
    false, so after decoding it drops one leading U+FEFF.
  */
  function TextDecode(p: Primitives, b: seq<byte>): string {
    StripBom(p.utf8Decode(b))
  }

  /** A stand-in codec, three bytes per character, showing that the laws can be met. */
  function Encode3(s: string): seq<byte>
    decreases |s|
  {
    if s == [] then []
    else
      var v := s[0] as int;
      [v / 0x10000, v / 0x100 % 0x100, v % 0x100] + Encode3(s[1..])
  }

  function CharOf(x: byte, y: byte, z: byte): char {
    var v := 0x10000 * x + 0x100 * y + z;
    if v < 0xD800 || 0xE000 <= v < 0x11_0000 then v as char else '?'
  }

  function Decode3(b: seq<byte>): string
    decreases |b|
  {
    if |b| < 3 then [] else [CharOf(b[0], b[1], b[2])] + Decode3(b[3..])
  }

  lemma CharOfDigits(c: char)
    ensures var v := c as int; CharOf(v / 0x10000, v / 0x100 % 0x100, v % 0x100) == c
  {
    var v := c as int;
    assert 0x10000 * (v / 0x10000) + 0x100 * (v / 0x100 % 0x100) + v % 0x100 == v;
  }

  lemma {:induction false} Decode3Encode3(s: string)
    ensures Decode3(Encode3(s)) == s
    decreases |s|
  {
    if s != [] {
      var e := Encode3(s);
      assert e[3..] == Encode3(s[1..]);
      CharOfDigits(s[0]);
      Decode3Encode3(s[1..]);
    }
  }

  /** Some primitives meet the laws, so lemmas that require them are not vacuous. */
  lemma LawfulIsSatisfiable(keccak: seq<byte> -> Digest, checksumCase: string -> seq<bool>)
    ensures Lawful(Primitives(keccak, checksumCase, Encode3, Decode3))
  {
    forall s ensures Decode3(Encode3(s)) == s {
      Decode3Encode3(s);
    }
  }

  datatype CryptoError =
    | AddressRejected(reason: AddressError)  // thrown by getAddress
    | InvalidBytesLike                       // thrown by keccak256 for a string that is not 0x-hex
    | InvalidCharacter                       // thrown by atob

  /** `keccak256` on bytes: the hash as a `0x` hex string. */
  function Keccak256(keccak: seq<byte> -> Digest, data: seq<byte>): string {
    Hexlify(keccak(data))
  }

  /** `keccak256` on a string, which must spell bytes in hex. */
  function Keccak256Hex(keccak: seq<byte> -> Digest, data: string): Result<string, CryptoError> {
    match GetBytes(data)
    case None => Failure(InvalidBytesLike)
    case Some(b) => Success(Keccak256(keccak, b))
  }

  function Normalise(p: Primitives, a: string): Result<string, CryptoError> {
    match GetAddress(p.checksumCase, a)
    case Success(n) => Success(n)
    case Failure(e) => Failure(AddressRejected(e))
  }

  /**
    `deriveKey`: normalise each address, lower-case it, join with `|`, hash
    the UTF-8 bytes. The key is "BytesLike" hex spelling 32 bytes, so `prg`
    never throws on it; the only errors are those of `getAddress`.
  */
  function DeriveKey(p: Primitives, a1: string, a2: string, a3: string): (r: Result<string, CryptoError>)
    ensures r.Success? ==> GetBytes(r.value).Some? && |GetBytes(r.value).value| == BlockSize
    ensures r.Failure? ==> r.error.AddressRejected?
  {
    var n1 :- Normalise(p, a1);
    var n2 :- Normalise(p, a2);
    var n3 :- Normalise(p, a3);
    var h := p.keccak(p.utf8Encode(Preimage(Lower(n1), Lower(n2), Lower(n3))));
    GetBytesOfHexlify(h);
    Success(Keccak256(p.keccak, p.utf8Encode(Preimage(Lower(n1), Lower(n2), Lower(n3)))))
  }

  /** The hash of the seed bytes followed by one counter byte. */
  function Block(keccak: seq<byte> -> Digest, seed: seq<byte>, counter: byte): Digest {
    keccak(seed + [counter])
  }

  /** `n` keystream bytes starting at block `counter`; the counter wraps after 255. */
  function Stream(keccak: seq<byte> -> Digest, seed: seq<byte>, counter: byte, n: nat): (r: seq<byte>)
    ensures |r| == n
    decreases n
  {
    if n == 0 then []
    else
      var take := if n < BlockSize then n else BlockSize;
      Block(keccak, seed, counter)[..take] + Stream(keccak, seed, (counter + 1) % 256, n - take)
  }

  /** The first `n` bytes of the keystream for a seed. */
  function Keystream(keccak: seq<byte> -> Digest, seed: seq<byte>, n: nat): (r: seq<byte>) {
    Stream(keccak, seed, 0, n)
  }

  /** Keystream byte `j`, read directly: byte `j mod 32` of block `(j div 32) mod 256`. */
  function KeyByte(keccak: seq<byte> -> Digest, seed: seq<byte>, j: nat): byte {
    Block(keccak, seed, (j / BlockSize) % 256)[j % BlockSize]
  }

  /** What `prg(seed, n)` returns, or the error it throws when the seed is not hex and a block is needed. */
  function PrgResult(keccak: seq<byte> -> Digest, seed: string, n: nat): Result<seq<byte>, CryptoError> {
    if n == 0 then Success([])
    else match GetBytes(seed)
      case None => Failure(InvalidBytesLike)
      case Some(s) => Success(Keystream(keccak, s, n))
  }

  /** Bitwise XOR of the low `k` bits of two numbers. */
  function XorBits(a: nat, b: nat, k: nat): (r: nat)
    ensures r < Pow2(k)
    decreases k
  {
    if k == 0 then 0
    else 2 * XorBits(a / 2, b / 2, k - 1) + (if a % 2 == b % 2 then 0 else 1)
  }

  function Pow2(k: nat): (r: nat) {
    if k == 0 then 1 else 2 * Pow2(k - 1)
  }

  /** JavaScript's `^` on two bytes. */
  function Xor(a: byte, b: byte): byte {
    assert Pow2(8) == 256;
    XorBits(a, b, 8)
  }

  function XorBytes(data: seq<byte>, mask: seq<byte>): (r: seq<byte>)
    requires |data| == |mask|
  {
    seq(|data|, i requires 0 <= i < |data| => Xor(data[i], mask[i]))
  }

  function DecodeBase64(s: string): Result<seq<byte>, CryptoError> {
    match Decode(s)
    case None => Failure(InvalidCharacter)
    case Some(b) => Success(b)
  }

  /** `encryptWillText` as a function of its inputs. */
  function Encrypt(p: Primitives, plain: string, a1: string, a2: string, a3: string): Result<string, CryptoError> {
    var key :- DeriveKey(p, a1, a2, a3);
    var data := p.utf8Encode(plain);
    var mask :- PrgResult(p.keccak, key, |data|);
    Success(Encode(XorBytes(data, mask)))
  }

  /** `decryptWillText` as a function of its inputs. */
  function Decrypt(p: Primitives, cipher: string, a1: string, a2: string, a3: string): Result<string, CryptoError> {
    var key :- DeriveKey(p, a1, a2, a3);
    var data :- DecodeBase64(cipher);
    var mask :- PrgResult(p.keccak, key, |data|);
    Success(TextDecode(p, XorBytes(data, mask)))
  }

  /**
    `decryptWillText` with the decoder created as `new TextDecoder('utf-8',
    { ignoreBOM: true })`, which keeps a leading U+FEFF.
  */
  function DecryptKeepingBom(p: Primitives, cipher: string, a1: string, a2: string, a3: string): Result<string, CryptoError> {
    var key :- DeriveKey(p, a1, a2, a3);
    var data :- DecodeBase64(cipher);
    var mask :- PrgResult(p.keccak, key, |data|);
    Success(p.utf8Decode(XorBytes(data, mask)))
  }

  // ---------------------------------------------------------------------
  // The imperative code

  /**
    One round of `prg`: `hexToBytes(keccak256(seed + hex(counter)))`, the
    block for that counter, or the error `keccak256` throws when the seed is
    not hex.
  */
  method PrgRound(keccak: seq<byte> -> Digest, seed: string, counter: byte) returns (r: Result<seq<byte>, CryptoError>)
    ensures GetBytes(seed).None? ==> r == Failure(InvalidBytesLike)
    ensures GetBytes(seed).Some? ==> r == Success(Block(keccak, GetBytes(seed).value, counter))
  {
    var block := Keccak256Hex(keccak, seed + HexPair(counter));
    PrgBlock(keccak, seed, counter);
    if block.Failure? {
      return Failure(InvalidBytesLike);
    }
    var bytes := HexToBytes(block.value);
    HexToBytesExact(Block(keccak, GetBytes(seed).value, counter), bytes);
    r := Success(bytes);
  }

  /**
    `prg`: fills a buffer block by block, copying at most 32 bytes of each
    round's block and advancing the counter modulo 256 (`counter + 1` is at
    most 256, so `& 0xff` is `% 256`).
  */
  method Prg(keccak: seq<byte> -> Digest, seed: string, length: nat) returns (r: Result<seq<byte>, CryptoError>)
    ensures r == PrgResult(keccak, seed, length)
  {
    var out := new byte[length];
    var i := 0;
    var counter: byte := 0;
    ghost var sb := if GetBytes(seed).Some? then GetBytes(seed).value else [];
    while i < length
      invariant 0 <= i <= length
      invariant i < length ==> i % BlockSize == 0 && counter == (i / BlockSize) % 256
      invariant 0 < i ==> GetBytes(seed) == Some(sb)
      invariant forall j :: 0 <= j < i ==> out[j] == KeyByte(keccak, sb, j)
    {
      var block := PrgRound(keccak, seed, counter);
      if block.Failure? {
        return Failure(InvalidBytesLike);
      }
      var bytes := block.value;
      var take := if |bytes| < length - i then |bytes| else length - i;
      forall k | 0 <= k < take {
        out[i + k] := bytes[k];
      }
      BlockFilled(keccak, sb, i, counter, take, bytes);
      i := i + take;
      counter := (counter + 1) % 256;
    }
    if length > 0 {
      KeystreamIs(keccak, sb, length, out[..]);
    }
    r := Success(out[..]);
  }

  /** The XOR loop of `encryptWillText` and `decryptWillText`: `out[i] = data[i] ^ mask[i]`. */
  method XorWithMask(data: seq<byte>, mask: seq<byte>) returns (out: seq<byte>)
    requires |data| == |mask|
    ensures out == XorBytes(data, mask)
  {
    var buf := new byte[|data|];
    for i := 0 to |data|
      invariant forall k :: 0 <= k < i ==> buf[k] == Xor(data[k], mask[k])
    {
      buf[i] := Xor(data[i], mask[i]);
    }
    out := buf[..];
  }

  /** `encryptWillText`. */
  method EncryptWillText(p: Primitives, plain: string, a1: string, a2: string, a3: string)
    returns (r: Result<string, CryptoError>)
    ensures r == Encrypt(p, plain, a1, a2, a3)
  {
    var key :- DeriveKey(p, a1, a2, a3);
    var data := p.utf8Encode(plain);
    var mask :- Prg(p.keccak, key, |data|);
    var out := XorWithMask(data, mask);
    var text := U8ToBase64(out);
    r := Success(text);
  }

  /** `decryptWillText`. */
  method DecryptWillText(p: Primitives, cipher: string, a1: string, a2: string, a3: string)
    returns (r: Result<string, CryptoError>)
    ensures r == Decrypt(p, cipher, a1, a2, a3)
  {
    var key :- DeriveKey(p, a1, a2, a3);
    var decoded := Base64ToU8(cipher);
    if decoded.None? {
      return Failure(InvalidCharacter);
    }
    var data := decoded.value;
    var mask :- Prg(p.keccak, key, |data|);
    var out := XorWithMask(data, mask);
    r := Success(TextDecode(p, out));
  }

  // ---------------------------------------------------------------------
  // Arithmetic of block positions

  /** The string hashed in a round of `prg` spells the seed's bytes followed by the counter, if the seed is hex. */
  lemma PrgBlock(keccak: seq<byte> -> Digest, seed: string, counter: byte)
    ensures GetBytes(seed).Some? ==>
      Keccak256Hex(keccak, seed + HexPair(counter)) == Success(Hexlify(Block(keccak, GetBytes(seed).value, counter)))
    ensures GetBytes(seed).None? ==> Keccak256Hex(keccak, seed + HexPair(counter)) == Failure(InvalidBytesLike)
  {
    GetBytesAppendPair(seed, counter);
  }

  /**
    The block of a round that starts at `i` (a multiple of 32, with counter
    `(i div 32) mod 256`) holds keystream bytes `i` onwards, and the next
    round starts where it ends.
  */
  lemma BlockFilled(keccak: seq<byte> -> Digest, seed: seq<byte>, i: nat, counter: byte, take: nat, bytes: seq<byte>)
    requires i % BlockSize == 0 && counter == (i / BlockSize) % 256
    requires bytes == Block(keccak, seed, counter) && take <= BlockSize
    ensures forall j :: i <= j < i + take ==> bytes[j - i] == KeyByte(keccak, seed, j)
    ensures take == BlockSize ==>
      (i + take) % BlockSize == 0 && (counter + 1) % 256 == ((i + take) / BlockSize) % 256
  {
    forall j | i <= j < i + take ensures bytes[j - i] == KeyByte(keccak, seed, j) {
      assert j / BlockSize == i / BlockSize && j % BlockSize == j - i;
    }
  }

  /** A sequence that agrees with `KeyByte` at every position is the keystream. */
  lemma KeystreamIs(keccak: seq<byte> -> Digest, seed: seq<byte>, n: nat, s: seq<byte>)
    requires |s| == n
    requires forall j :: 0 <= j < n ==> s[j] == KeyByte(keccak, seed, j)
    ensures s == Keystream(keccak, seed, n)
  {
    forall j | 0 <= j < n ensures s[j] == Keystream(keccak, seed, n)[j] {
      KeystreamAt(keccak, seed, n, j);
    }
  }

  /** Byte `j` counted from block `c` is byte `j - 32` counted from block `c + 1`. */
  lemma NextBlockIndex(c: byte, j: nat)
    requires j >= BlockSize
    ensures ((c + 1) % 256 + (j - BlockSize) / BlockSize) % 256 == (c + j / BlockSize) % 256
    ensures (j - BlockSize) % BlockSize == j % BlockSize
  {
    assert (j - BlockSize) / BlockSize == j / BlockSize - 1;
  }

  // ---------------------------------------------------------------------
  // Properties of the keystream

  /**
    Byte `j` of `Stream(seed, c, n)` is byte `j mod 32` of the block with
    counter `(c + j div 32) mod 256`, and the stream has exactly `n` bytes.
  */
  lemma {:induction false} StreamAt(keccak: seq<byte> -> Digest, seed: seq<byte>, c: byte, n: nat, j: nat)
    requires j < n
    ensures Stream(keccak, seed, c, n)[j] == Block(keccak, seed, (c + j / BlockSize) % 256)[j % BlockSize]
    decreases n
  {
    var take := if n < BlockSize then n else BlockSize;
    if j >= take {
      var c' := (c + 1) % 256;
      StreamAt(keccak, seed, c', n - take, j - take);
      NextBlockIndex(c, j);
    }
  }

  /** `prg(seed, n)` has `n` bytes, and byte `j` is byte `j mod 32` of `keccak256(seed ‖ hex((j div 32) mod 256))`. */
  lemma KeystreamAt(keccak: seq<byte> -> Digest, seed: seq<byte>, n: nat, j: nat)
    requires j < n
    ensures |Keystream(keccak, seed, n)| == n
    ensures Keystream(keccak, seed, n)[j] == KeyByte(keccak, seed, j)
  {
    StreamAt(keccak, seed, 0, n, j);
  }

  /** A shorter keystream is a prefix of a longer one for the same seed; the empty one is empty. */
  lemma KeystreamPrefix(keccak: seq<byte> -> Digest, seed: seq<byte>, n: nat, m: nat)
    requires n <= m
    ensures Keystream(keccak, seed, n) == Keystream(keccak, seed, m)[..n]
    ensures Keystream(keccak, seed, 0) == []
  {
    forall j | 0 <= j < n ensures Keystream(keccak, seed, n)[j] == Keystream(keccak, seed, m)[j] {
      KeystreamAt(keccak, seed, n, j);
      KeystreamAt(keccak, seed, m, j);
    }
  }

  // ---------------------------------------------------------------------
  // Properties of XOR

  lemma {:induction false} XorBitsTwice(a: nat, b: nat, k: nat)
    requires a < Pow2(k)
    ensures XorBits(XorBits(a, b, k), b, k) == a
    decreases k
  {
    if k > 0 {
      var r := XorBits(a, b, k);
      var r' := XorBits(a / 2, b / 2, k - 1);
      assert r / 2 == r' && r % 2 == (if a % 2 == b % 2 then 0 else 1);
      XorBitsTwice(a / 2, b / 2, k - 1);
    }
  }

  /** XOR-ing twice with the same mask gives back the data. */
  lemma XorBytesTwice(data: seq<byte>, mask: seq<byte>)
    requires |data| == |mask|
    ensures XorBytes(XorBytes(data, mask), mask) == data
  {
    assert Pow2(8) == 256;
    forall i | 0 <= i < |data| ensures XorBytes(XorBytes(data, mask), mask)[i] == data[i] {
      XorBitsTwice(data[i], mask[i], 8);
    }
  }

  // ---------------------------------------------------------------------
  // Properties of the key

  /**
    `deriveKey` succeeds exactly when `getAddress` accepts all three
    addresses, and then hashes exactly `lower(a1) | lower(a2) | lower(a3)`
    (each with `0x`), in the order given.
  */
  lemma DeriveKeyPreimage(p: Primitives, a1: string, a2: string, a3: string)
    ensures DeriveKey(p, a1, a2, a3).Success? <==>
      && GetAddress(p.checksumCase, a1).Success?
      && GetAddress(p.checksumCase, a2).Success?
      && GetAddress(p.checksumCase, a3).Success?
    ensures DeriveKey(p, a1, a2, a3).Success? ==>
      DeriveKey(p, a1, a2, a3).value ==
        Keccak256(p.keccak, p.utf8Encode(Preimage(Canonical(a1), Canonical(a2), Canonical(a3))))
  {
    GetAddressLowered(p.checksumCase, a1);
    GetAddressLowered(p.checksumCase, a2);
    GetAddressLowered(p.checksumCase, a3);
  }

  /** Accepted spellings that differ only in letter case, or in the optional `0x`, give the same key. */
  lemma DeriveKeyCaseInsensitive(p: Primitives, a1: string, a2: string, a3: string, b1: string, b2: string, b3: string)
    requires GetAddress(p.checksumCase, a1).Success? && GetAddress(p.checksumCase, b1).Success?
    requires GetAddress(p.checksumCase, a2).Success? && GetAddress(p.checksumCase, b2).Success?
    requires GetAddress(p.checksumCase, a3).Success? && GetAddress(p.checksumCase, b3).Success?
    requires Lower(Body(a1)) == Lower(Body(b1)) && Lower(Body(a2)) == Lower(Body(b2)) && Lower(Body(a3)) == Lower(Body(b3))
    ensures DeriveKey(p, a1, a2, a3) == DeriveKey(p, b1, b2, b3)
  {
    DeriveKeyPreimage(p, a1, a2, a3);
    DeriveKeyPreimage(p, b1, b2, b3);
  }

  /**
    Swapping two different addresses changes the bytes that are hashed (the
    UTF-8 encoder is injective because decoding undoes it).
  */
  lemma SwapChangesHashedBytes(p: Primitives, a1: string, a2: string, a3: string)
    requires Lawful(p)
    requires GetAddress(p.checksumCase, a1).Success? && GetAddress(p.checksumCase, a2).Success?
    requires Canonical(a1) != Canonical(a2)
    ensures p.utf8Encode(Preimage(Canonical(a1), Canonical(a2), Canonical(a3)))
         != p.utf8Encode(Preimage(Canonical(a2), Canonical(a1), Canonical(a3)))
  {
    var s := Preimage(Canonical(a1), Canonical(a2), Canonical(a3));
    var t := Preimage(Canonical(a2), Canonical(a1), Canonical(a3));
    PreimageOrderSensitive(a1, a2, a3);
    assert p.utf8Decode(p.utf8Encode(s)) == s && p.utf8Decode(p.utf8Encode(t)) == t;
  }

  // ---------------------------------------------------------------------
  // Properties of encryption and decryption

  /** Encryption fails exactly when key derivation does, with the same error. */
  lemma EncryptFailsOnlyOnAddresses(p: Primitives, plain: string, a1: string, a2: string, a3: string)
    ensures Encrypt(p, plain, a1, a2, a3).Failure? <==> DeriveKey(p, a1, a2, a3).Failure?
    ensures Encrypt(p, plain, a1, a2, a3).Failure? ==>
      Encrypt(p, plain, a1, a2, a3).error == DeriveKey(p, a1, a2, a3).error
  {
  }

  /** The ciphertext decodes to exactly as many bytes as the UTF-8 encoding of the text. */
  lemma EncryptLength(p: Primitives, plain: string, a1: string, a2: string, a3: string)
    requires Encrypt(p, plain, a1, a2, a3).Success?
    ensures Decode(Encrypt(p, plain, a1, a2, a3).value).Some?
    ensures |Decode(Encrypt(p, plain, a1, a2, a3).value).value| == |p.utf8Encode(plain)|
  {
    var key := DeriveKey(p, a1, a2, a3).value;
    var data := p.utf8Encode(plain);
    var mask := PrgResult(p.keccak, key, |data|).value;
    DecodeEncode(XorBytes(data, mask));
  }

  /** The empty text encrypts to the empty string, which decrypts to the empty text. */
  lemma EncryptEmpty(p: Primitives, a1: string, a2: string, a3: string)
    requires Lawful(p)
    requires DeriveKey(p, a1, a2, a3).Success?
    ensures Encrypt(p, "", a1, a2, a3) == Success("")
    ensures Decrypt(p, "", a1, a2, a3) == Success("")
  {
    var key := DeriveKey(p, a1, a2, a3).value;
    assert p.utf8Decode(p.utf8Encode("")) == "";
    assert PrgResult(p.keccak, key, 0) == Success([]);
    assert XorBytes([], []) == [];
    assert Encode([]) == "";
    assert Decode("") == Some([]);
  }

  /**
    `decryptWillText(encryptWillText(p, a, b, c), a, b, c)` is `p` with one
    leading byte-order mark dropped, so it is `p` for every text that does
    not start with U+FEFF.
  */
  lemma DecryptEncrypt(p: Primitives, plain: string, a1: string, a2: string, a3: string)
    requires Lawful(p)
    requires Encrypt(p, plain, a1, a2, a3).Success?
    ensures Decrypt(p, Encrypt(p, plain, a1, a2, a3).value, a1, a2, a3) == Success(StripBom(plain))
    ensures plain == "" || plain[0] != Bom ==> Decrypt(p, Encrypt(p, plain, a1, a2, a3).value, a1, a2, a3) == Success(plain)
  {
    var key := DeriveKey(p, a1, a2, a3).value;
    var data := p.utf8Encode(plain);
    var mask := PrgResult(p.keccak, key, |data|).value;
    DecodeEncode(XorBytes(data, mask));
    XorBytesTwice(data, mask);
    assert p.utf8Decode(data) == plain;
  }

  /** A will that starts with U+FEFF does not survive: "\uFEFFhi" decrypts to "hi". */
  lemma LeadingBomIsLost(p: Primitives, a1: string, a2: string, a3: string)
    requires Lawful(p)
    requires DeriveKey(p, a1, a2, a3).Success?
    ensures Encrypt(p, [Bom, 'h', 'i'], a1, a2, a3).Success?
    ensures Decrypt(p, Encrypt(p, [Bom, 'h', 'i'], a1, a2, a3).value, a1, a2, a3) == Success("hi")
    ensures Decrypt(p, Encrypt(p, [Bom, 'h', 'i'], a1, a2, a3).value, a1, a2, a3) != Success([Bom, 'h', 'i'])
  {
    DecryptEncrypt(p, [Bom, 'h', 'i'], a1, a2, a3);
    assert StripBom([Bom, 'h', 'i']) == "hi";
  }

  /** With a decoder that keeps the byte-order mark, decryption inverts encryption for every text. */
  lemma DecryptKeepingBomEncrypt(p: Primitives, plain: string, a1: string, a2: string, a3: string)
    requires Lawful(p)
    requires Encrypt(p, plain, a1, a2, a3).Success?
    ensures DecryptKeepingBom(p, Encrypt(p, plain, a1, a2, a3).value, a1, a2, a3) == Success(plain)
  {
    var key := DeriveKey(p, a1, a2, a3).value;
    var data := p.utf8Encode(plain);
    var mask := PrgResult(p.keccak, key, |data|).value;
    DecodeEncode(XorBytes(data, mask));
    XorBytesTwice(data, mask);
    assert p.utf8Decode(data) == plain;
  }

  /**
    Decryption has no integrity check: with any three accepted addresses,
    right or wrong, and any valid base64, it yields some text; it fails only
    on a rejected address or on input `atob` rejects.
  */
  lemma DecryptHasNoIntegrityCheck(p: Primitives, cipher: string, a1: string, a2: string, a3: string)
    ensures Decrypt(p, cipher, a1, a2, a3).Success? <==>
      DeriveKey(p, a1, a2, a3).Success? && Decode(cipher).Some?
  {
  }
}
