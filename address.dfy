/**
  Address normalisation as `getAddress` does it and as `deriveKey` uses it:
  an address is 40 hexadecimal digits with an optional lower-case `0x`; a
  spelling that mixes upper- and lower-case letters must be the EIP-55
  checksum spelling; the result is that checksum spelling. Which letters
  EIP-55 capitalises is decided by a Keccak hash inside the library, so that
  choice is the opaque `checksumCase` parameter here.
*/
module Address {
  import opened Wrappers
  import opened Hex

  datatype AddressError =
    | InvalidAddress      // "invalid address": not 40 hex digits after an optional 0x
    | BadAddressChecksum  // "bad address checksum": mixed case that is not the checksum spelling

  function LowerChar(c: char): char {
    if 'A' <= c <= 'Z' then (c as int + 32) as char else c
  }

  function UpperChar(c: char): char {
    if 'a' <= c <= 'z' then (c as int - 32) as char else c
  }

  /** `toLowerCase` on the ASCII strings it meets here. */
  function Lower(s: string): (t: string) {
    seq(|s|, i requires 0 <= i < |s| => LowerChar(s[i]))
  }

  /** `/^(0x)?[0-9a-fA-F]{40}$/` */
  predicate IsAddressShape(a: string) {
    || (|a| == 40 && AllHexDigits(a))
    || (|a| == 42 && a[0] == '0' && a[1] == 'x' && AllHexDigits(a[2..]))
  }

  /** The 40 digits of an address, without its `0x`. */
  function Body(a: string): string {
    if |a| == 42 then a[2..] else a
  }

  /** `/([A-F].*[a-f])|([a-f].*[A-F])/`: both letter cases occur. */
  predicate IsMixedCase(s: string) {
    && (exists i :: 0 <= i < |s| && 'A' <= s[i] <= 'F')
    && (exists i :: 0 <= i < |s| && 'a' <= s[i] <= 'f')
  }

  /** Upper-cases the characters the mask selects. */
  function ApplyCase(s: string, mask: seq<bool>): string {
    seq(|s|, i requires 0 <= i < |s| => if i < |mask| && mask[i] then UpperChar(s[i]) else s[i])
  }

  /**
    `getAddress`: the checksum spelling, or the error the library throws.
    Malformed input is "invalid address"; only a spelling that mixes letter
    cases can fail its checksum; an accepted address comes back as `0x` and
    40 hex digits.
  */
  function GetAddress(checksumCase: string -> seq<bool>, a: string): (r: Result<string, AddressError>)
    ensures r == Failure(InvalidAddress) <==> !IsAddressShape(a)
    ensures r == Failure(BadAddressChecksum) ==> IsMixedCase(Body(a))
    ensures r.Success? ==> |r.value| == 42 && r.value[..2] == "0x" && IsAddressShape(r.value)
  {
    if !IsAddressShape(a) then Failure(InvalidAddress)
    else
      var lower := Lower(Body(a));
      var checksummed := ApplyCase(lower, checksumCase(lower));
      if IsMixedCase(Body(a)) && Body(a) != checksummed then Failure(BadAddressChecksum)
      else
        CaseKeepsHexDigits(Body(a), checksumCase(lower));
        Success("0x" + checksummed)
  }

  /** Lower-casing and then capitalising some letters keeps 40 hex digits hex. */
  lemma CaseKeepsHexDigits(s: string, mask: seq<bool>)
    requires AllHexDigits(s)
    ensures |ApplyCase(Lower(s), mask)| == |s| && AllHexDigits(ApplyCase(Lower(s), mask))
  {
  }

  /** The lower-case, `0x`-prefixed spelling of an address. */
  function Canonical(a: string): string {
    "0x" + Lower(Body(a))
  }

  /** The string `deriveKey` hashes: the three addresses joined by `|`. */
  function Preimage(x: string, y: string, z: string): string {
    x + "|" + y + "|" + z
  }

  lemma LowerIdempotentCase(c: char)
    ensures LowerChar(UpperChar(c)) == LowerChar(c) && LowerChar(LowerChar(c)) == LowerChar(c)
  {
  }

  /**
    Every accepted spelling normalises to a 42-character address whose
    lower-case form is the lower-cased input; malformed input is rejected
    with "invalid address", and a spelling in one letter case is never
    rejected for its checksum.
  */
  lemma GetAddressLowered(checksumCase: string -> seq<bool>, a: string)
    ensures !IsAddressShape(a) ==> GetAddress(checksumCase, a) == Failure(InvalidAddress)
    ensures IsAddressShape(a) && !IsMixedCase(Body(a)) ==> GetAddress(checksumCase, a).Success?
    ensures GetAddress(checksumCase, a).Success? ==>
      |GetAddress(checksumCase, a).value| == 42 && Lower(GetAddress(checksumCase, a).value) == Canonical(a)
  {
    if IsAddressShape(a) {
      var lower := Lower(Body(a));
      var n := "0x" + ApplyCase(lower, checksumCase(lower));
      forall i | 0 <= i < |n| ensures Lower(n)[i] == Canonical(a)[i] {
        if i >= 2 {
          LowerIdempotentCase(Body(a)[i - 2]);
        }
      }
      assert Lower(n) == Canonical(a);
    }
  }

  /** The lower-cased address never contains the separator `|`. */
  lemma CanonicalHasNoSeparator(a: string)
    requires IsAddressShape(a)
    ensures |Canonical(a)| == 42 && '|' !in Canonical(a)
  {
    var c := Canonical(a);
    forall i | 0 <= i < |c| ensures c[i] != '|' {
      if i >= 2 {
        assert IsHexDigit(Body(a)[i - 2]);
      }
    }
  }

  /** Where the parts of `x + "|" + rest` sit. */
  lemma SeparatorLayout(x: string, rest: string)
    ensures (x + "|" + rest)[|x|] == '|'
    ensures forall i :: 0 <= i < |x| ==> (x + "|" + rest)[i] == x[i]
    ensures (x + "|" + rest)[..|x|] == x && (x + "|" + rest)[|x| + 1..] == rest
  {
  }

  /** Splitting at the first `|` recovers both parts when the first part has none. */
  lemma SplitAtSeparator(x: string, rest: string, x': string, rest': string)
    requires '|' !in x && '|' !in x'
    requires x + "|" + rest == x' + "|" + rest'
    ensures x == x' && rest == rest'
  {
    SeparatorLayout(x, rest);
    SeparatorLayout(x', rest');
    if |x| != |x'| {
      assert false;
    }
  }

  /**
    Joining with `|` loses nothing when the first two parts cannot contain
    `|`: equal pre-images come from equal addresses, position by position.
  */
  lemma PreimageInjective(x: string, y: string, z: string, x': string, y': string, z': string)
    requires '|' !in x && '|' !in y && '|' !in x' && '|' !in y'
    requires Preimage(x, y, z) == Preimage(x', y', z')
    ensures x == x' && y == y' && z == z'
  {
    assert Preimage(x, y, z) == x + "|" + (y + "|" + z);
    assert Preimage(x', y', z') == x' + "|" + (y' + "|" + z');
    SplitAtSeparator(x, y + "|" + z, x', y' + "|" + z');
    SplitAtSeparator(y, z, y', z');
  }

  /** Swapping two different addresses changes the string that is hashed. */
  lemma PreimageOrderSensitive(a1: string, a2: string, a3: string)
    requires IsAddressShape(a1) && IsAddressShape(a2)
    requires Canonical(a1) != Canonical(a2)
    ensures Preimage(Canonical(a1), Canonical(a2), Canonical(a3)) != Preimage(Canonical(a2), Canonical(a1), Canonical(a3))
  {
    CanonicalHasNoSeparator(a1);
    CanonicalHasNoSeparator(a2);
    if Preimage(Canonical(a1), Canonical(a2), Canonical(a3)) == Preimage(Canonical(a2), Canonical(a1), Canonical(a3)) {
      PreimageInjective(Canonical(a1), Canonical(a2), Canonical(a3), Canonical(a2), Canonical(a1), Canonical(a3));
    }
  }
}
