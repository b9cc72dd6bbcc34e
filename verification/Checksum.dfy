/** The two implementations of checksummed addresses, one over decoded bytes and nibbles, one
    over text and the bits of the hash, and the function that compares them. The hash is any
    function to 32 bytes. */
module Checksum {
  import opened Text

  type Byte = b: int | 0 <= b < 256

  type Hash = f: string -> seq<Byte> | forall s :: |f(s)| == 32
    witness s => seq(32, _ => 0)

  /** A panic is an index past the end of the hash. */
  datatype Result = Ok(value: string) | Err | Panic

  // ---- hexadecimal ----

  predicate IsHex(c: char) { '0' <= c <= '9' || 'a' <= c <= 'f' || 'A' <= c <= 'F' }

  function HexValue(c: char): int
    requires IsHex(c)
  {
    if c <= '9' then c as int - '0' as int
    else if c <= 'F' then c as int - 'A' as int + 10
    else c as int - 'a' as int + 10
  }

  /** `strconv.FormatUint(n, 16)` for one digit. */
  function HexDigit(n: int): char
    requires 0 <= n < 16
  {
    if n < 10 then ('0' as int + n) as char else ('a' as int + n - 10) as char
  }

  function Upper(c: char): char {
    if 'a' <= c <= 'z' then (c as int - 32) as char else c
  }

  predicate AllHex(s: string) { forall i :: 0 <= i < |s| ==> IsHex(s[i]) }

  lemma HexDigits(c: char)
    ensures IsHex(c) <==> c in "0123456789abcdefABCDEF"
  {
    var all := "0123456789abcdefABCDEF";
    if IsHex(c) {
      var i := if c <= '9' then c as int - '0' as int else if c <= 'F' then c as int - 'A' as int + 16 else c as int - 'a' as int + 10;
      assert all[i] == c;
    }
  }

  /** `hex.DecodeString` on text it accepts. */
  function Decode(s: string): (bytes: seq<Byte>)
    requires AllHex(s) && |s| % 2 == 0
  {
    seq(|s| / 2, i requires 0 <= i < |s| / 2 => 16 * HexValue(s[2 * i]) + HexValue(s[2 * i + 1]))
  }

  // ---- the specification section of EIP-55 ----

  /** The i-th hexadecimal digit of a hash. */
  function Nibble(hash: seq<Byte>, i: nat): int
    requires i / 2 < |hash|
  {
    if i % 2 == 0 then hash[i / 2] / 16 else hash[i / 2] % 16
  }

  function CasedDigit(digits: string, hash: seq<Byte>, i: nat): char
    requires i < |digits| <= 2 * |hash|
  {
    if Nibble(hash, i) >= 8 then Upper(digits[i]) else digits[i]
  }

  /** Lower-case digits, each put in upper case where the hash's digit is at least 8. */
  function Eip55(digits: string, hash: seq<Byte>): (s: string)
    requires |digits| <= 2 * |hash|
    ensures |s| == |digits|
  {
    seq(|digits|, i requires 0 <= i < |digits| => CasedDigit(digits, hash, i))
  }

  function StripPrefix(s: string): string {
    if "0x" <= s then s[2..] else s
  }

  // ---- ToCheckSumAddress ----

  /** The hash has 32 bytes, enough for 64 digits. */
  function CheckSum(h: Hash, address: string): Result {
    var s := StripPrefix(address);
    if address == "" || !AllHex(s) || |s| % 2 != 0 then Err
    else if |s| > 64 then Panic
    else Ok("0x" + Eip55(ToLower(s), h(ToLower(s))))
  }

  function ChecksumByte(addr: int, hash: int): string
    requires 0 <= addr < 16
  {
    var result := HexDigit(addr);
    if hash >= 8 then [Upper(result)] else [result]
  }

  lemma HexDigitOfValue(c: char)
    requires IsHex(c)
    ensures 0 <= HexValue(c) < 16 && HexDigit(HexValue(c)) == LowerChar(c)
  {
  }

  /** Empty text and what is no whole number of hex bytes is an error; of the rest, what has a digit
      beyond the hash's last panics. */
  lemma CheckSumOutcome(h: Hash, address: string)
    ensures var s := StripPrefix(address);
      && (CheckSum(h, address) == Err <==> address == "" || |s| % 2 != 0 || exists i :: 0 <= i < |s| && !IsHex(s[i]))
      && (CheckSum(h, address) != Err ==> (CheckSum(h, address) == Panic <==> exists i :: 0 <= i < |s| && i / 2 >= |h(ToLower(s))|))
  {
    var s := StripPrefix(address);
    if |s| > 64 { assert 64 / 2 >= |h(ToLower(s))|; }
  }

  method ToCheckSumAddress(h: Hash, address: string) returns (r: Result)
    ensures r == CheckSum(h, address)
  {
    if address == "" {
      return Err;
    }
    var s := address;
    if "0x" <= s {
      s := s[2..];
    }
    if !AllHex(s) || |s| % 2 != 0 {
      return Err;
    }
    if |s| > 64 {
      return Panic;
    }
    var result := CaseBytes(s, h(ToLower(s)));
    return Ok(result);
  }

  /** The loop over the decoded bytes. */
  method CaseBytes(s: string, hash: seq<Byte>) returns (result: string)
    requires AllHex(s) && |s| % 2 == 0 && |s| <= 2 * |hash|
    ensures result == "0x" + Eip55(ToLower(s), hash)
  {
    var bytes := Decode(s);
    result := "0x";
    ghost var spec := Eip55(ToLower(s), hash);
    for i := 0 to |bytes|
      invariant result == "0x" + spec[..2 * i]
    {
      var b := bytes[i];
      ByteCased(s, hash, i);
      assert spec[..2 * i + 2] == spec[..2 * i] + [spec[2 * i]] + [spec[2 * i + 1]];
      result := result + ChecksumByte(b / 16, hash[i] / 16);
      result := result + ChecksumByte(b % 16, hash[i] % 16);
    }
    assert spec[..2 * |bytes|] == spec;
  }

  /** A decoded byte's two halves, cased by the hash byte's two halves. */
  lemma ByteCased(s: string, hash: seq<Byte>, i: nat)
    requires AllHex(s) && |s| % 2 == 0 && |s| <= 2 * |hash| && i < |s| / 2
    ensures var b, spec := Decode(s)[i], Eip55(ToLower(s), hash);
      && ChecksumByte(b / 16, hash[i] / 16) == [spec[2 * i]]
      && ChecksumByte(b % 16, hash[i] % 16) == [spec[2 * i + 1]]
  {
    var hi, lo := s[2 * i], s[2 * i + 1];
    HexDigitOfValue(hi);
    HexDigitOfValue(lo);
    Halves(HexValue(hi), HexValue(lo));
    EvenOdd(i);
  }

  lemma Halves(hi: int, lo: int)
    requires 0 <= hi < 16 && 0 <= lo < 16
    ensures (16 * hi + lo) / 16 == hi && (16 * hi + lo) % 16 == lo
  {
  }

  lemma EvenOdd(i: nat)
    ensures 2 * i / 2 == i && (2 * i + 1) / 2 == i && 2 * i % 2 == 0 && (2 * i + 1) % 2 == 1
  {
  }

  // ---- ToValidateAddress ----

  /** `fmt.Sprintf("%08b", b)` */
  function Binary8(b: Byte): string {
    [Bit(b, 128), Bit(b, 64), Bit(b, 32), Bit(b, 16), Bit(b, 8), Bit(b, 4), Bit(b, 2), Bit(b, 1)]
  }

  function Bit(b: Byte, weight: int): char
    requires weight > 0
  {
    if b / weight % 2 == 1 then '1' else '0'
  }

  /** Byte subtraction of 32 from an ASCII character. */
  function Minus32(c: char): char {
    if c as int >= 128 then c
    else if c as int >= 32 then (c as int - 32) as char else (c as int + 224) as char
  }

  /** Digits are left alone before their place in the hash is looked up. */
  predicate Covered(s: string, hash: seq<Byte>, i: nat)
    requires i < |s|
  {
    IsDigit(s[i]) || i / 2 < |hash|
  }

  function Flipped(s: string, hash: seq<Byte>, i: nat): char
    requires i < |s| && Covered(s, hash, i)
  {
    if IsDigit(s[i]) then s[i]
    else if Binary8(hash[i / 2])[4 * (i % 2)] == '1' then Minus32(s[i]) else s[i]
  }

  function FlipAll(s: string, hash: seq<Byte>): Result {
    if forall i :: 0 <= i < |s| ==> Covered(s, hash, i)
    then Ok("0x" + seq(|s|, i requires 0 <= i < |s| && Covered(s, hash, i) => Flipped(s, hash, i)))
    else Panic
  }

  function Validated(h: Hash, address: string): Result {
    var lower := StripPrefix(ToLower(address));
    FlipAll(lower, h(lower))
  }

  /** The in-place edit of the address bytes; the text is ASCII, one character a byte. */
  method ToValidateAddress(h: Hash, address: string) returns (r: Result)
    requires forall c :: c in address ==> c < 128 as char
    ensures r == Validated(h, address)
  {
    var addrLowerStr := ToLower(address);
    if "0x" <= addrLowerStr {
      addrLowerStr := addrLowerStr[2..];
    }
    var addrBytes := new char[|addrLowerStr|](i requires 0 <= i < |addrLowerStr| => addrLowerStr[i]);
    var hash256 := h(addrLowerStr);
    for i := 0 to |addrLowerStr|
      invariant forall k :: 0 <= k < i ==> Covered(addrLowerStr, hash256, k) && addrBytes[k] == Flipped(addrLowerStr, hash256, k)
      invariant forall k :: i <= k < |addrLowerStr| ==> addrBytes[k] == addrLowerStr[k]
    {
      if !Covered(addrLowerStr, hash256, i) {
        return Panic;
      }
      Flip(addrBytes, addrLowerStr, hash256, i);
    }
    FlippedIs(addrLowerStr, hash256, addrBytes[..]);
    return Ok("0x" + addrBytes[..]);
  }

  lemma FlippedIs(s: string, hash: seq<Byte>, t: string)
    requires |t| == |s| && forall k :: 0 <= k < |s| ==> Covered(s, hash, k) && t[k] == Flipped(s, hash, k)
    ensures FlipAll(s, hash) == Ok("0x" + t)
  {
  }

  /** One step of the loop. */
  method Flip(addrBytes: array<char>, addrLowerStr: string, hash256: seq<Byte>, i: nat)
    requires i < addrBytes.Length == |addrLowerStr| && Covered(addrLowerStr, hash256, i)
    requires addrBytes[i] == addrLowerStr[i]
    modifies addrBytes
    ensures addrBytes[i] == Flipped(addrLowerStr, hash256, i)
    ensures forall k :: 0 <= k < addrBytes.Length && k != i ==> addrBytes[k] == old(addrBytes[k])
  {
    var e := addrLowerStr[i];
    if IsDigit(e) {
      return;
    } else {
      var binaryStr := Binary8(hash256[i / 2]);
      if binaryStr[4 * (i % 2)] == '1' {
        addrBytes[i] := Minus32(addrBytes[i]);
      }
    }
  }

  /** Any text: it panics where a character that is no digit lies beyond the hash; otherwise each
      letter of the lower-cased text is put in upper case exactly where the hash's digit is at least
      8, and digits stay. */
  lemma ValidatedOutcome(h: Hash, address: string)
    ensures var s := StripPrefix(ToLower(address));
      && Validated(h, address) != Err
      && (Validated(h, address) == Panic <==> exists i :: 0 <= i < |s| && !('0' <= s[i] <= '9') && i / 2 >= |h(s)|)
      && (Validated(h, address).Ok? ==>
            && |Validated(h, address).value| == |s| + 2 && Validated(h, address).value[..2] == "0x"
            && forall i :: 0 <= i < |s| ==> CaseOf(s[i], Validated(h, address).value[i + 2], h(s), i))
  {
    var s := StripPrefix(ToLower(address));
    FlipPanics(s, h(s));
    if FlipAll(s, h(s)).Ok? { FlipCases(s, h(s)); }
  }

  lemma FlipPanics(s: string, hash: seq<Byte>)
    ensures FlipAll(s, hash) == Panic <==> exists i :: 0 <= i < |s| && !('0' <= s[i] <= '9') && i / 2 >= |hash|
    ensures FlipAll(s, hash) != Err
  {
    if i :| 0 <= i < |s| && !('0' <= s[i] <= '9') && i / 2 >= |hash| {
      assert !Covered(s, hash, i);
    } else {
      forall i | 0 <= i < |s| ensures Covered(s, hash, i) {}
    }
  }

  lemma FlipCases(s: string, hash: seq<Byte>)
    requires FlipAll(s, hash).Ok?
    ensures var t := FlipAll(s, hash).value;
      |t| == |s| + 2 && t[..2] == "0x" && forall i :: 0 <= i < |s| ==> CaseOf(s[i], t[i + 2], hash, i)
  {
    var t := FlipAll(s, hash).value;
    forall i | 0 <= i < |s| ensures CaseOf(s[i], t[i + 2], hash, i) {
      assert Covered(s, hash, i) && t[i + 2] == Flipped(s, hash, i);
      FlippedCase(s, hash, i);
    }
  }

  lemma FlippedCase(s: string, hash: seq<Byte>, i: nat)
    requires i < |s| && Covered(s, hash, i)
    ensures CaseOf(s[i], Flipped(s, hash, i), hash, i)
  {
    if i / 2 < |hash| { BitMeansNibble(hash, i); }
  }

  ghost predicate CaseOf(c: char, cased: char, hash: seq<Byte>, i: nat) {
    && ('0' <= c <= '9' ==> cased == c)
    && ('a' <= c <= 'z' ==>
         i / 2 < |hash| && cased == if (if i % 2 == 0 then hash[i / 2] / 16 else hash[i / 2] % 16) >= 8 then Upper(c) else c)
  }

  // ---- the two agree ----

  /** The leading bit of a half byte is set exactly when the half byte is at least 8. */
  lemma BitMeansNibble(hash: seq<Byte>, i: nat)
    requires i / 2 < |hash|
    ensures Binary8(hash[i / 2])[4 * (i % 2)] == '1' <==> Nibble(hash, i) >= 8
  {
    HalfBits(hash[i / 2]);
  }

  lemma HalfBits(b: Byte)
    ensures b / 128 % 2 == 1 <==> b / 16 >= 8
    ensures b / 8 % 2 == 1 <==> b % 16 >= 8
  {
  }

  lemma FlippedIsCased(digits: string, hash: seq<Byte>)
    requires AllHex(digits) && |digits| <= 2 * |hash|
    requires forall i :: 0 <= i < |digits| ==> digits[i] == LowerChar(digits[i])
    ensures FlipAll(digits, hash) == Ok("0x" + Eip55(digits, hash))
  {
    forall i | 0 <= i < |digits| ensures Covered(digits, hash, i) && Flipped(digits, hash, i) == CasedDigit(digits, hash, i) {
      BitMeansNibble(hash, i);
    }
  }

  lemma LowerHex(s: string)
    requires AllHex(s)
    ensures AllHex(ToLower(s)) && forall i :: 0 <= i < |s| ==> ToLower(s)[i] == LowerChar(ToLower(s)[i])
  {
  }

  lemma PrefixLowers(s: string)
    ensures ToLower("0x" + s) == "0x" + ToLower(s)
    ensures StripPrefix("0x" + s) == s
  {
    assert ("0x" + s)[2..] == s;
  }

  /** Casing does not change the lower-case form. */
  lemma CasingLowers(digits: string, hash: seq<Byte>)
    requires |digits| <= 2 * |hash|
    requires forall i :: 0 <= i < |digits| ==> digits[i] == LowerChar(digits[i])
    ensures ToLower(Eip55(digits, hash)) == digits
  {
    forall i | 0 <= i < |digits| ensures ToLower(Eip55(digits, hash))[i] == digits[i] {
      assert Eip55(digits, hash)[i] == CasedDigit(digits, hash, i);
    }
  }

  lemma HexHasNoPrefix(s: string)
    requires AllHex(s)
    ensures StripPrefix(s) == s
  {
    if |s| >= 2 { assert IsHex(s[1]); }
  }

  /** On every address the byte-wise implementation accepts, the bit-wise one gives the same
      text, on the address and on the checksummed text alike. */
  lemma ImplementationsAgree(h: Hash, address: string)
    requires CheckSum(h, address).Ok?
    ensures Validated(h, address) == CheckSum(h, address)
    ensures Validated(h, CheckSum(h, address).value) == CheckSum(h, address)
  {
    var s := StripPrefix(address);
    var digits := ToLower(s);
    var hash := h(digits);
    LowerHex(s);
    FlippedIsCased(digits, hash);
    if "0x" <= address {
      assert address == "0x" + s;
      PrefixLowers(s);
      PrefixLowers(digits);
    } else {
      HexHasNoPrefix(digits);
    }
    CasingLowers(digits, hash);
    PrefixLowers(Eip55(digits, hash));
    PrefixLowers(digits);
  }

  // ---- UnifyAddress ----

  /** go-ethereum's IsHexAddress: 40 digits, with or without 0x or 0X in front. */
  predicate IsHexAddress(s: string) {
    var digits := if |s| >= 2 && s[0] == '0' && (s[1] == 'x' || s[1] == 'X') then s[2..] else s;
    |digits| == 40 && AllHex(digits)
  }

  /** The mismatch branch wraps a nil error, so it would return an empty address and no error. */
  function UnifyAddress(h: Hash, address: string): Result {
    if |address| <= 2 || !IsHexAddress(address) then Err
    else
      match CheckSum(h, address)
      case Err => Err
      case Panic => Panic
      case Ok(addr) =>
        match Validated(h, addr)
        case Ok(again) => if addr != again then Ok("") else Ok(addr)
        case _ => Panic
  }

  /** Every address of 40 hex digits, bare or after 0x, comes back in EIP-55 form; every other
      text, the prefix 0X included, is an error. The mismatch branch is never taken. */
  lemma UnifyExact(h: Hash, address: string)
    ensures var s := StripPrefix(address);
      UnifyAddress(h, address) == if |s| == 40 && AllHex(s) then Ok("0x" + Eip55(ToLower(s), h(ToLower(s)))) else Err
  {
    var s := StripPrefix(address);
    if |s| == 40 && AllHex(s) {
      ImplementationsAgree(h, address);
    } else if IsHexAddress(address) {
      assert address[1] == 'X' && s == address;
      assert !IsHex(s[1]);
    }
  }

  /** EIP-55 on the result: without regard to case it is the address given, and each letter is in
      upper case exactly when the hash of the lower-case digits has a digit of at least 8 in its
      place. */
  lemma CaseFollowsHash(h: Hash, address: string, i: nat)
    requires UnifyAddress(h, address).Ok? && i < 40
    ensures var r, lower := UnifyAddress(h, address).value, ToLower(StripPrefix(address));
      && |r| == 42 && r[..2] == "0x" && |lower| == 40 && LowerChar(r[i + 2]) == lower[i]
      && ('A' <= r[i + 2] <= 'F' <==>
            'a' <= lower[i] <= 'f' && (if i % 2 == 0 then h(lower)[i / 2] / 16 else h(lower)[i / 2] % 16) >= 8)
  {
    var s := StripPrefix(address);
    UnifyExact(h, address);
    LowerHex(s);
    var lower := ToLower(s);
    CasedLetter(lower, h(lower), i);
    assert UnifyAddress(h, address).value == "0x" + Eip55(lower, h(lower));
  }

  lemma CasedLetter(lower: string, hash: seq<Byte>, i: nat)
    requires i < |lower| <= 2 * |hash| && IsHex(lower[i]) && lower[i] == LowerChar(lower[i])
    ensures var c := Eip55(lower, hash)[i];
      && LowerChar(c) == lower[i]
      && ('A' <= c <= 'F' <==> 'a' <= lower[i] <= 'f' && (if i % 2 == 0 then hash[i / 2] / 16 else hash[i / 2] % 16) >= 8)
  {
    assert Eip55(lower, hash)[i] == CasedDigit(lower, hash, i);
  }

  lemma CasingKeepsHex(digits: string, hash: seq<Byte>)
    requires |digits| <= 2 * |hash| && AllHex(digits)
    ensures AllHex(Eip55(digits, hash))
  {
    forall i | 0 <= i < |digits| ensures IsHex(Eip55(digits, hash)[i]) {
      assert Eip55(digits, hash)[i] == CasedDigit(digits, hash, i) && IsHex(digits[i]);
    }
  }

  lemma UnifyIdempotent(h: Hash, address: string)
    ensures var r := UnifyAddress(h, address); r.Ok? ==> UnifyAddress(h, r.value) == r
  {
    var s := StripPrefix(address);
    UnifyExact(h, address);
    if |s| == 40 && AllHex(s) {
      var digits := ToLower(s);
      var out := Eip55(digits, h(digits));
      UnifyExact(h, "0x" + out);
      PrefixLowers(out);
      LowerHex(s);
      CasingLowers(digits, h(digits));
      CasingKeepsHex(digits, h(digits));
    }
  }

  /** The letter case of the digits does not matter. */
  lemma UnifyIgnoresCase(h: Hash, a: string, b: string)
    requires ToLower(StripPrefix(a)) == ToLower(StripPrefix(b))
    ensures UnifyAddress(h, a) == UnifyAddress(h, b)
  {
    UnifyExact(h, a);
    UnifyExact(h, b);
    SameLowerSameHex(StripPrefix(a), StripPrefix(b));
  }

  lemma SameLowerSameHex(s: string, t: string)
    requires ToLower(s) == ToLower(t)
    ensures |s| == |t| && (AllHex(s) <==> AllHex(t))
  {
    forall i | 0 <= i < |s| ensures IsHex(s[i]) <==> IsHex(t[i]) {
      assert ToLower(s)[i] == ToLower(t)[i];
      assert LowerChar(s[i]) == LowerChar(t[i]);
    }
  }

  /** Forty zeros after 0X pass the address test and are refused all the same. */
  lemma UpperPrefixRefused(h: Hash)
    ensures var address := "0X" + seq(40, _ => '0'); IsHexAddress(address) && UnifyAddress(h, address) == Err
  {
    var address := "0X" + seq(40, _ => '0');
    assert address[2..] == seq(40, _ => '0');
    UnifyExact(h, address);
  }
}
