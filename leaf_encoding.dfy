/**
 * The claim-to-leaf encoder of the Merkle tree generator: an address text
 * and an amount become the byte string that keccak256 hashes into a leaf.
 */
module LeafEncoding {
  import opened Bytes
  import opened Hex

  /** A whitelist entry: a `0x`-prefixed address text and a token amount. */
  datatype Claim = Claim(address: string, amount: nat)

  /** Width of an address in bytes (Solidity's `address`). */
  const ADDRESS_BYTES: nat := 20
  /** Width of the amount in hex digits, the `padStart` target. */
  const AMOUNT_DIGITS: nat := 64
  /** Width of the amount in bytes (Solidity's `uint256`). */
  const AMOUNT_BYTES: nat := 32

  /** JavaScript's `s.slice(start)` for a non-negative `start`. */
  function Slice(s: string, start: nat): string {
    if start <= |s| then s[start..] else []
  }

  /** `Buffer.from(claim.address.slice(2), 'hex')`. */
  function AddressBytes(address: string): seq<Byte> {
    DecodeHex(Slice(address, 2))
  }

  /** `claim.amount.toString(16).padStart(64, '0')`. */
  function AmountDigits(amount: nat): string {
    PadStart(ToHex(amount), AMOUNT_DIGITS, '0')
  }

  /** `Buffer.from(<amount digits>, 'hex')`. */
  function AmountBytes(amount: nat): seq<Byte> {
    DecodeHex(AmountDigits(amount))
  }

  /** `Buffer.concat([address bytes, amount bytes])`: what keccak256 hashes. */
  function LeafPreimage(c: Claim): seq<Byte> {
    AddressBytes(c.address) + AmountBytes(c.amount)
  }

  /** The leaf of a claim; `keccak` stands for the keccak256 package. */
  function Leaf(keccak: seq<Byte> -> seq<Byte>, c: Claim): seq<Byte> {
    keccak(LeafPreimage(c))
  }

  /** An address the encoder handles as intended: two prefix characters, then 40 hex digits. */
  predicate WellFormedAddress(address: string) {
    |address| == 2 + 2 * ADDRESS_BYTES && AllHex(address[2..])
  }

  /** A claim whose amount fits a `uint256`. */
  predicate WellFormed(c: Claim) {
    WellFormedAddress(c.address) && c.amount < Pow(256, AMOUNT_BYTES)
  }

  /**
   * The reference layout an on-chain verifier rebuilds: Solidity's
   * `abi.encodePacked(address, uint256)` ("non-standard packed mode" of the
   * Solidity ABI specification), the 20 address bytes followed by the amount
   * as 32 big-endian bytes, with no padding or length prefix.
   */
  function EncodePacked(addr: seq<Byte>, amount: nat): (r: seq<Byte>)
    requires |addr| == ADDRESS_BYTES && amount < Pow(256, AMOUNT_BYTES)
    ensures |r| == ADDRESS_BYTES + AMOUNT_BYTES
    ensures r[..ADDRESS_BYTES] == addr
    ensures BEValue(r[ADDRESS_BYTES..]) == amount
  {
    BEValueOfBEBytes(amount, AMOUNT_BYTES);
    var r := addr + BEBytes(amount, AMOUNT_BYTES);
    assert r[ADDRESS_BYTES..] == BEBytes(amount, AMOUNT_BYTES);
    r
  }

  // ---------------------------------------------------------------------
  // The address field
  // ---------------------------------------------------------------------

  /** The two characters in front are dropped whatever they are. */
  lemma AddressPrefixIgnored(prefix: string, digits: string)
    requires |prefix| == 2
    ensures AddressBytes(prefix + digits) == DecodeHex(digits)
  {
    assert (prefix + digits)[2..] == digits;
  }

  /**
   * A well-formed address gives exactly 20 bytes, byte k spelled by the
   * digits at positions 2 + 2k and 3 + 2k of the address text.
   */
  lemma AddressBytesLayout(address: string)
    requires WellFormedAddress(address)
    ensures |AddressBytes(address)| == ADDRESS_BYTES
    ensures forall k :: 0 <= k < ADDRESS_BYTES ==>
      IsHexDigit(address[2 + 2 * k]) && IsHexDigit(address[3 + 2 * k]) &&
      AddressBytes(address)[k] == 16 * DigitValue(address[2 + 2 * k]) + DigitValue(address[3 + 2 * k])
  {
    var digits := address[2..];
    var bs := AddressBytes(address);
    forall k | 0 <= k < ADDRESS_BYTES
      ensures IsHexDigit(address[2 + 2 * k]) && IsHexDigit(address[3 + 2 * k])
      ensures bs[k] == 16 * DigitValue(address[2 + 2 * k]) + DigitValue(address[3 + 2 * k])
    {
      assert HexPairAt(digits, k) && bs[k] == PairValue(digits, k);
      assert digits[2 * k] == address[2 + 2 * k] && digits[2 * k + 1] == address[3 + 2 * k];
    }
  }

  /** Letter case in the address digits does not change the bytes. */
  lemma AddressCaseInsensitive(a: string, b: string)
    requires |a| == |b|
    requires forall i :: 2 <= i < |a| ==> CaseFold(a[i]) == CaseFold(b[i])
    ensures AddressBytes(a) == AddressBytes(b)
  {
    if |a| >= 2 {
      var da, db := a[2..], b[2..];
      assert forall i :: 0 <= i < |da| ==> da[i] == a[i + 2] && db[i] == b[i + 2];
      DecodeHexCaseInsensitive(da, db);
    }
  }

  /** Two well-formed addresses give the same bytes only when their digits agree up to case. */
  lemma AddressBytesInjective(a: string, b: string)
    requires WellFormedAddress(a) && WellFormedAddress(b)
    ensures AddressBytes(a) == AddressBytes(b) <==> forall i :: 2 <= i < |a| ==> CaseFold(a[i]) == CaseFold(b[i])
  {
    var da, db := a[2..], b[2..];
    DecodeHexInjective(da, db);
    assert forall i :: 0 <= i < |da| ==> da[i] == a[i + 2] && db[i] == b[i + 2];
    if forall i :: 0 <= i < |da| ==> CaseFold(da[i]) == CaseFold(db[i]) {
      forall i | 2 <= i < |a| ensures CaseFold(a[i]) == CaseFold(b[i]) {
        assert a[i] == da[i - 2] && b[i] == db[i - 2];
      }
    }
  }

  /**
   * A malformed address is not rejected: decoding stops silently where the
   * digit pairs stop, so an odd final digit or anything from the first
   * non-hex pair on is dropped.
   */
  lemma AddressTruncated(prefix: string, digits: string, rest: string)
    requires |prefix| == 2 && AllHex(digits) && |digits| % 2 == 0
    requires !HexPairAt(rest, 0)
    ensures AddressBytes(prefix + (digits + rest)) == DecodeHex(digits)
  {
    AddressPrefixIgnored(prefix, digits + rest);
    DecodeHexStopsAt(digits, rest);
  }

  // ---------------------------------------------------------------------
  // The amount field
  // ---------------------------------------------------------------------

  /**
   * Below 2^256 the padded text has exactly 64 digits: zeros prepended to
   * `toString(16)`, spelling the amount.
   */
  lemma AmountDigitsLayout(amount: nat)
    requires amount < Pow(256, AMOUNT_BYTES)
    ensures |AmountDigits(amount)| == AMOUNT_DIGITS
    ensures AmountDigits(amount) == Repeat('0', AMOUNT_DIGITS - |ToHex(amount)|) + ToHex(amount)
    ensures AllHex(AmountDigits(amount)) && HexValue(AmountDigits(amount)) == amount
  {
    var w := AMOUNT_BYTES;
    PowSixteenTwice(w);
    PaddedToHex(amount, 2 * w);
  }

  /** `padStart` never truncates: from 2^256 on, the digits are `toString(16)` unchanged, more than 64 of them. */
  lemma AmountDigitsOversized(amount: nat)
    requires amount >= Pow(256, AMOUNT_BYTES)
    ensures AmountDigits(amount) == ToHex(amount)
    ensures |AmountDigits(amount)| > AMOUNT_DIGITS
  {
    PowSixteenTwice(AMOUNT_BYTES);
    ToHexLength(amount, AMOUNT_DIGITS);
  }

  /**
   * Past 64 digits nothing is padded, and an odd number of digits, 2k + 1,
   * loses its last one in decoding: the amount field is then that of
   * `amount / 16`.
   */
  lemma OddAmountDigitDropped(amount: nat, k: nat)
    requires AMOUNT_BYTES <= k && |ToHex(amount)| == 2 * k + 1
    ensures AmountBytes(amount) == AmountBytes(amount / 16)
  {
    var high := ToHex(amount / 16);
    var last := [DigitChar(amount % 16)];
    assert ToHex(amount) == high + last;
    assert AmountDigits(amount) == high + last;
    assert AmountDigits(amount / 16) == high;
    assert |high| == 2 * k;
    Even(|high|, k);
    DecodeHexAppend(high, last);
    NoLeadingPair(last);
  }

  /**
   * Oversized amounts are not rejected and can collide: 2^256 is written
   * with 65 digits, loses its last digit, and gets the amount field, and so
   * the preimage, of 2^252.
   */
  lemma OversizedAmountCollision(address: string)
    ensures Pow(256, AMOUNT_BYTES) / 16 < Pow(256, AMOUNT_BYTES)
    ensures LeafPreimage(Claim(address, Pow(256, AMOUNT_BYTES))) ==
      LeafPreimage(Claim(address, Pow(256, AMOUNT_BYTES) / 16))
  {
    var w := AMOUNT_BYTES;
    var n := Pow(256, w);
    assert |ToHex(n)| == 2 * w + 1 by {
      PowSixteenTwice(w);
      PowerDigits(2 * w);
    }
    assert AmountBytes(n) == AmountBytes(n / 16) by { OddAmountDigitDropped(n, w); }
  }

  /** Below 2^256 the amount field is the 32-byte big-endian `uint256` of the amount. */
  lemma AmountBytesBigEndian(amount: nat)
    requires amount < Pow(256, AMOUNT_BYTES)
    ensures AmountBytes(amount) == BEBytes(amount, AMOUNT_BYTES)
    ensures |AmountBytes(amount)| == AMOUNT_BYTES && BEValue(AmountBytes(amount)) == amount
  {
    var w := AMOUNT_BYTES;
    var digits := AmountDigits(amount);
    assert |digits| == 2 * w && AllHex(digits) && HexValue(digits) == amount by {
      AmountDigitsLayout(amount);
    }
    DecodeHexBigEndian(digits, w);
    BEValueOfBEBytes(amount, w);
  }

  /** Byte k of the amount field is base-256 digit 31 - k of the amount: most significant byte first. */
  lemma AmountByteAt(amount: nat, k: nat)
    requires amount < Pow(256, AMOUNT_BYTES) && k < AMOUNT_BYTES
    ensures |AmountBytes(amount)| == AMOUNT_BYTES
    ensures AmountBytes(amount)[k] == Digit(amount, AMOUNT_BYTES - 1 - k)
  {
    var field := AmountBytes(amount);
    assert field == BEBytes(amount, AMOUNT_BYTES) by { AmountBytesBigEndian(amount); }
    FieldByteAt(field, amount, AMOUNT_BYTES, k);
  }

  /** Amount 0 (`toString(16)` is "0") is 32 zero bytes. */
  lemma AmountZero()
    ensures AmountBytes(0) == Repeat<Byte>(0, AMOUNT_BYTES)
  {
    assert 0 < Pow(256, AMOUNT_BYTES);
    AmountBytesBigEndian(0);
    BEBytesZero(AMOUNT_BYTES);
  }

  /**
   * The first `j` bytes of the amount field are zero exactly when the amount
   * fits in the last `32 - j`: the zero padding ends at the most significant
   * nonzero byte.
   */
  lemma AmountLeadingZeros(amount: nat, j: nat)
    requires amount < Pow(256, AMOUNT_BYTES) && j <= AMOUNT_BYTES
    ensures ZeroPrefix(AmountBytes(amount), j) <==> amount < Pow(256, AMOUNT_BYTES - j)
  {
    var w := AMOUNT_BYTES;
    assert AmountBytes(amount) == BEBytes(amount, w) by { AmountBytesBigEndian(amount); }
    LeadingZerosOfBEBytes(amount, w, j);
  }

  /** `BEBytesAt` for a byte field already known to be a big-endian encoding (used by `AmountByteAt`). */
  lemma FieldByteAt(field: seq<Byte>, n: nat, width: nat, k: nat)
    requires field == BEBytes(n, width) && k < width
    ensures |field| == width && field[k] == Digit(n, width - 1 - k)
  { BEBytesAt(n, width, k); }

  // ---------------------------------------------------------------------
  // The preimage
  // ---------------------------------------------------------------------

  /** A well-formed claim gives 52 bytes: the address in bytes 0..19, the amount in bytes 20..51. */
  lemma PreimageLayout(c: Claim)
    requires WellFormed(c)
    ensures |LeafPreimage(c)| == ADDRESS_BYTES + AMOUNT_BYTES
    ensures LeafPreimage(c)[..ADDRESS_BYTES] == AddressBytes(c.address)
    ensures LeafPreimage(c)[ADDRESS_BYTES..] == BEBytes(c.amount, AMOUNT_BYTES)
    ensures BEValue(LeafPreimage(c)[ADDRESS_BYTES..]) == c.amount
  {
    AddressBytesLayout(c.address);
    AmountBytesBigEndian(c.amount);
  }

  /** The encoder agrees byte for byte with `abi.encodePacked(address, uint256)`. */
  lemma PreimageIsEncodePacked(c: Claim)
    requires WellFormed(c)
    ensures |AddressBytes(c.address)| == ADDRESS_BYTES
    ensures LeafPreimage(c) == EncodePacked(AddressBytes(c.address), c.amount)
  {
    AddressBytesLayout(c.address);
    AmountBytesBigEndian(c.amount);
  }

  /**
   * Both fields have fixed width, so well-formed claims share a preimage
   * exactly when their address bytes and their amounts are equal.
   */
  lemma PreimageInjective(c1: Claim, c2: Claim)
    requires WellFormed(c1) && WellFormed(c2)
    ensures LeafPreimage(c1) == LeafPreimage(c2) <==>
      AddressBytes(c1.address) == AddressBytes(c2.address) && c1.amount == c2.amount
  {
    PreimageLayout(c1);
    PreimageLayout(c2);
    if LeafPreimage(c1) == LeafPreimage(c2) {
      assert LeafPreimage(c1)[ADDRESS_BYTES..] == LeafPreimage(c2)[ADDRESS_BYTES..];
    }
  }

  /** Claims that differ only in the letter case of the address digits get the same leaf. */
  lemma LeafIgnoresAddressCase(keccak: seq<Byte> -> seq<Byte>, c1: Claim, c2: Claim)
    requires |c1.address| == |c2.address| && c1.amount == c2.amount
    requires forall i :: 2 <= i < |c1.address| ==> CaseFold(c1.address[i]) == CaseFold(c2.address[i])
    ensures LeafPreimage(c1) == LeafPreimage(c2)
    ensures Leaf(keccak, c1) == Leaf(keccak, c2)
  {
    AddressCaseInsensitive(c1.address, c2.address);
  }

  /**
   * The shape of every whitelist entry: forty copies of one digit `d` and an
   * amount below 256 give twenty 0xdd bytes, then the amount field of
   * thirty-one zero bytes followed by the amount.
   */
  lemma RepeatedDigitPreimage(d: char, amount: nat)
    requires IsHexDigit(d) && amount < 256
    ensures WellFormed(Claim("0x" + Repeat(d, 2 * ADDRESS_BYTES), amount))
    ensures LeafPreimage(Claim("0x" + Repeat(d, 2 * ADDRESS_BYTES), amount)) ==
      Repeat<Byte>(17 * DigitValue(d), ADDRESS_BYTES) + (Repeat<Byte>(0, AMOUNT_BYTES - 1) + [amount])
  {
    var address := "0x" + Repeat(d, 2 * ADDRESS_BYTES);
    var a, z := Repeat<Byte>(17 * DigitValue(d), ADDRESS_BYTES), Repeat<Byte>(0, AMOUNT_BYTES - 1);
    assert WellFormedAddress(address) && AddressBytes(address) == a by { RepeatedDigitAddress(d); }
    assert amount < Pow(256, AMOUNT_BYTES) && AmountBytes(amount) == z + [amount] by { SmallAmountBytes(amount); }
    assert LeafPreimage(Claim(address, amount)) == a + (z + [amount]);
  }

  /** An amount below 256 is thirty-one zero bytes followed by the amount. */
  lemma SmallAmountBytes(amount: nat)
    requires amount < 256
    ensures amount < Pow(256, AMOUNT_BYTES)
    ensures AmountBytes(amount) == Repeat<Byte>(0, AMOUNT_BYTES - 1) + [amount]
  {
    var w := AMOUNT_BYTES;
    PowMonotone(256, 1, w);
    assert AmountBytes(amount) == BEBytes(amount, w) by { AmountBytesBigEndian(amount); }
    SmallBEBytes(amount, w);
  }

  /** An address of forty copies of one digit `d` is twenty copies of the byte 0xdd. */
  lemma RepeatedDigitAddress(d: char)
    requires IsHexDigit(d)
    ensures WellFormedAddress("0x" + Repeat(d, 2 * ADDRESS_BYTES))
    ensures AddressBytes("0x" + Repeat(d, 2 * ADDRESS_BYTES)) == Repeat<Byte>(17 * DigitValue(d), ADDRESS_BYTES)
  {
    var n := ADDRESS_BYTES;
    var digits := Repeat(d, 2 * n);
    var address := "0x" + digits;
    assert address[2..] == digits;
    assert AllHex(digits);
    DecodeRepeatedDigit(d, n);
  }
}
