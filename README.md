# Merkle whitelist generator: the claim-to-leaf encoder

This project models `script/generateMerkleTree.ts`, the script that turns an
airdrop whitelist of `(address, amount)` claims into a Merkle root and one
inclusion proof per claim. The only logic the script implements itself is:

- the leaf encoder. The address text loses its first two characters and its
  hex digits become bytes. The amount is rendered in hex, padded on the left
  with `'0'` to 64 digits, and decoded to 32 bytes. The two byte strings are
  concatenated and hashed with keccak256;
- the positional assembly of the output record (`root`, `addresses`,
  `amounts`, `proofs`), all in whitelist order.

The Merkle tree itself comes from the `merkletreejs` package and keccak256
from the `keccak256` package. Both are parameters of the model:

- `keccak: seq<Byte> -> seq<Byte>`;
- `newTree: seq<seq<Byte>> -> MerkleTree`, where a `MerkleTree` supplies
  `hexRoot` and `hexProof(leaf)`.

Nothing is assumed about either.

Modules:

- `Bytes`: byte strings and the big-endian numbers they denote. It holds the
  reference encoding `BEBytes`, which at width 32 is Solidity's `uint256`.
- `Hex`: the JavaScript and Node primitives the encoder uses. These are
  `Number.prototype.toString(16)` (`ToHex`), `String.prototype.padStart`
  (`PadStart`) and `Buffer.from(text, 'hex')` (`DecodeHex`).
- `LeafEncoding`: the `Claim` record and the leaf preimage. It also holds the
  reference `EncodePacked`, which is Solidity's
  `abi.encodePacked(address, uint256)` in the "non-standard packed mode" of
  the Solidity ABI specification. An on-chain verifier rebuilds the leaf this
  way.
- `MerkleOutput`: `Array.prototype.map`, the leaves, the proofs array, the
  output record and the script's hard-coded whitelist.

The central results:

- `PreimageIsEncodePacked`: for an address of two prefix characters and 40
  hex digits and an amount below 2^256, the script's string-based route gives
  exactly the bytes of `abi.encodePacked(address, uint256)`;
- `PreimageInjective`: well-formed claims share a preimage exactly when their
  address bytes and amounts agree;
- `GenerateMerkleData`: every output array is aligned with the whitelist.

The script does not validate its input, and neither does the model. Node's
hex decoding stops silently at the first pair of characters that is not two
hex digits, and drops an unpaired last digit. `DecodeHex` models that, and
`AddressTruncated` states what it means for a malformed address. Validity of
a claim (`WellFormed`) is therefore a hypothesis of the lemmas, not a
precondition of the encoder.

## Model

| member | source | states |
|---|---|---|
| `Hex.DecodeHex` | script/generateMerkleTree.ts:22-23 | `Buffer.from(s, 'hex')`: byte k is 16 × digit(2k) + digit(2k+1) for digits of either case; decoding stops exactly at the first position without a hex-digit pair; an all-hex text of length n gives n / 2 bytes |
| `Hex.DecodeHexCaseInsensitive` | script/generateMerkleTree.ts:22 | texts equal up to letter case decode to the same bytes |
| `Hex.DecodeHexInjective` | script/generateMerkleTree.ts:22 | two all-hex texts of one even length decode alike if and only if they agree digit by digit up to case |
| `Hex.DecodeHexAppend` | script/generateMerkleTree.ts:22-23 | decoding a well-formed even-length prefix is independent of what follows it |
| `Hex.NoLeadingPair` | script/generateMerkleTree.ts:22 | a text that does not start with two hex digits decodes to no bytes |
| `Hex.DecodeHexStopsAt` | script/generateMerkleTree.ts:22 | after a well-formed even-length prefix, a position without a hex-digit pair ends decoding: nothing after it contributes |
| `Hex.BEValueOfDecodeHex` | script/generateMerkleTree.ts:23 | the big-endian value of the decoded bytes equals the number the hex digits spell |
| `Hex.DecodeHexBigEndian` | script/generateMerkleTree.ts:23 | an all-hex text of 2n digits decodes to the n-byte big-endian encoding of the number it spells |
| `Hex.DecodeRepeatedDigit` | script/generateMerkleTree.ts:12-16 | 2n copies of one hex digit d decode to n bytes 0xdd, the shape of the hard-coded addresses |
| `Hex.ToHex` | script/generateMerkleTree.ts:23 | `toString(16)`: non-empty, lower-case hex digits, spells exactly n, no leading zero, and "0" for zero |
| `Hex.ToHexLength` | script/generateMerkleTree.ts:23 | `toString(16)` has at most w digits if and only if n < 16^w |
| `Hex.PowerDigits` | script/generateMerkleTree.ts:23 | `toString(16)` of 16^k has k + 1 digits |
| `Hex.PadStart` | script/generateMerkleTree.ts:23 | `padStart(width, fill)` never shortens its input: it ends with the input, only fill characters precede it, and its length is the larger of width and the input length |
| `Hex.PaddedDigits` | script/generateMerkleTree.ts:23 | padding a hex string of at most w digits with '0' to width w prepends exactly w minus its length zeros and keeps the number it spells |
| `Hex.PaddedToHex` | script/generateMerkleTree.ts:23 | for n < 16^w, `n.toString(16).padStart(w, '0')` has exactly w digits and spells n |
| `Hex.LeadingZeroDigits` | script/generateMerkleTree.ts:23 | prepending '0' digits does not change the number spelled |
| `Bytes.BEValueOfBEBytes` | script/generateMerkleTree.ts:23 | reading back a width-w big-endian encoding of n < 256^w gives n |
| `Bytes.BEBytesOfBEValue` | script/generateMerkleTree.ts:23 | encoding a byte string's value at its own width gives the byte string back |
| `Bytes.BEValueInjective` | script/generateMerkleTree.ts:23 | equal-width byte strings are equal if and only if their big-endian values are |
| `Bytes.BEBytesAt` | script/generateMerkleTree.ts:23 | byte k of the width-w encoding of n is base-256 digit w-1-k of n, most significant first (`Digit`; no contract of its own, `DigitDiv` states its value) |
| `Bytes.DigitDiv` | script/generateMerkleTree.ts:23 | base-256 digit i of n (`Digit`) is (n / 256^i) mod 256 |
| `Bytes.LeadingZeroBytes` | script/generateMerkleTree.ts:23 | the first j bytes are zero if and only if the value is below 256^(len - j) |
| `LeafEncoding.Slice` | script/generateMerkleTree.ts:22 | `String.prototype.slice(start)`: no contract of its own; `AddressPrefixIgnored` states that it drops exactly the first two characters whatever they are |
| `LeafEncoding.AddressBytes` | script/generateMerkleTree.ts:22 | `Buffer.from(address.slice(2), 'hex')`: no contract of its own; `AddressBytesLayout`, `AddressCaseInsensitive`, `AddressBytesInjective` and `AddressTruncated` state its properties |
| `LeafEncoding.AmountDigits` | script/generateMerkleTree.ts:23 | `amount.toString(16).padStart(64, '0')`: no contract of its own; `AmountDigitsLayout` and `AmountDigitsOversized` state its properties |
| `LeafEncoding.AmountBytes` | script/generateMerkleTree.ts:23 | `Buffer.from(<amount digits>, 'hex')`: no contract of its own; `AmountBytesBigEndian`, `AmountByteAt`, `AmountZero`, `AmountLeadingZeros`, `SmallAmountBytes` and `OddAmountDigitDropped` state its properties |
| `LeafEncoding.LeafPreimage` | script/generateMerkleTree.ts:21-24 | `Buffer.concat([address bytes, amount bytes])`: no contract of its own; `PreimageLayout`, `PreimageIsEncodePacked` and `PreimageInjective` state its properties |
| `LeafEncoding.Leaf` | script/generateMerkleTree.ts:21 | `keccak256(<preimage>)`, keccak a parameter: no contract of its own; `LeafIgnoresAddressCase` and `MerkleOutput.Leaves` state its properties |
| `LeafEncoding.EncodePacked` | script/generateMerkleTree.ts:21-24 | reference layout `abi.encodePacked(address, uint256)`: 52 bytes, the address first, then 32 bytes whose big-endian value is the amount |
| `LeafEncoding.AddressPrefixIgnored` | script/generateMerkleTree.ts:22 | `slice(2)` drops the first two characters whatever they are |
| `LeafEncoding.AddressBytesLayout` | script/generateMerkleTree.ts:22 | a well-formed address gives exactly 20 bytes, byte k = 16 × digit at 2+2k + digit at 3+2k |
| `LeafEncoding.AddressCaseInsensitive` | script/generateMerkleTree.ts:22 | addresses equal up to the case of their digits give the same bytes |
| `LeafEncoding.AddressBytesInjective` | script/generateMerkleTree.ts:22 | well-formed addresses give the same bytes if and only if their digits agree up to case |
| `LeafEncoding.AddressTruncated` | script/generateMerkleTree.ts:22 | a malformed address is not rejected: an odd last digit, or everything from the first non-hex pair on, is silently dropped |
| `LeafEncoding.RepeatedDigitAddress` | script/generateMerkleTree.ts:12-16 | the whitelist's address shape ("0x" then forty copies of digit d) is well formed and gives twenty bytes 0xdd |
| `LeafEncoding.AmountDigitsLayout` | script/generateMerkleTree.ts:23 | below 2^256 the padded amount has exactly 64 digits, zeros prepended to `toString(16)`, spelling the amount |
| `LeafEncoding.AmountDigitsOversized` | script/generateMerkleTree.ts:23 | from 2^256 on `padStart` leaves `toString(16)` unchanged, more than 64 digits: it never truncates |
| `LeafEncoding.OddAmountDigitDropped` | script/generateMerkleTree.ts:23 | an amount written with an odd number 2k + 1 >= 65 of hex digits loses its last digit: its field is that of amount / 16 |
| `LeafEncoding.OversizedAmountCollision` | script/generateMerkleTree.ts:21-24 | oversized amounts are not rejected and can collide: claims with amounts 2^256 and 2^252 and the same address have the same preimage |
| `LeafEncoding.AmountBytesBigEndian` | script/generateMerkleTree.ts:23 | below 2^256 the amount field is the 32-byte big-endian `uint256` of the amount, and its value is the amount |
| `LeafEncoding.AmountByteAt` | script/generateMerkleTree.ts:23 | the amount field has 32 bytes and byte k is base-256 digit 31 - k of the amount (`Digit`), that is (amount / 256^(31-k)) mod 256 by `DigitDiv` |
| `LeafEncoding.AmountZero` | script/generateMerkleTree.ts:23 | amount 0 encodes to 32 zero bytes |
| `LeafEncoding.AmountLeadingZeros` | script/generateMerkleTree.ts:23 | the first j amount bytes are zero if and only if the amount is below 256^(32 - j): zero padding stops at the most significant nonzero byte |
| `LeafEncoding.SmallAmountBytes` | script/generateMerkleTree.ts:23 | an amount below 256 encodes as thirty-one zero bytes followed by the amount |
| `LeafEncoding.PreimageLayout` | script/generateMerkleTree.ts:21-24 | a well-formed claim gives 52 bytes: bytes 0..19 are the address bytes, bytes 20..51 the big-endian amount |
| `LeafEncoding.PreimageIsEncodePacked` | script/generateMerkleTree.ts:21-24 | for a well-formed claim the preimage equals `abi.encodePacked(address, uint256)` byte for byte |
| `LeafEncoding.PreimageInjective` | script/generateMerkleTree.ts:21-24 | well-formed claims share a preimage if and only if their address bytes are equal and their amounts are equal |
| `LeafEncoding.LeafIgnoresAddressCase` | script/generateMerkleTree.ts:20-25 | claims differing only in the case of the address digits get the same preimage and the same leaf |
| `LeafEncoding.RepeatedDigitPreimage` | script/generateMerkleTree.ts:12-16 | a whitelist-shaped claim with amount below 256 has preimage twenty bytes 0xdd, thirty-one zero bytes, then the amount |
| `MerkleOutput.Map` | script/generateMerkleTree.ts:20 | `Array.prototype.map` with an `(element, index)` callback: same length, element i is the callback applied to element i and index i |
| `MerkleOutput.Leaves` | script/generateMerkleTree.ts:20-25 | one leaf per claim, in whitelist order: leaf i is keccak256 of claim i's preimage |
| `MerkleOutput.Proofs` | script/generateMerkleTree.ts:34-38 | entry i carries claim i's address and amount and the proof the tree gives for leaf i |
| `MerkleOutput.Output` | script/generateMerkleTree.ts:41-46 | the record's root is the given root; `addresses` and `amounts` are the whitelist fields in order; `proofs` are the entries' proofs in order |
| `MerkleOutput.GenerateMerkleData` | script/generateMerkleTree.ts:20-46 | `addresses`, `amounts` and `proofs` all have the whitelist's length; entry i is claim i's address, its amount and the proof for claim i's leaf; the root is the tree's over all leaves in whitelist order |
| `MerkleOutput.EqualClaimsShareProof` | script/generateMerkleTree.ts:37 | proofs are requested by leaf value, so claims with equal amounts and addresses equal up to case receive identical proofs |
| `MerkleOutput.Whitelist` | script/generateMerkleTree.ts:11-17 | the five hard-coded claims, built with the helper `Entry` ("0x" then forty copies of one digit): no contract of its own; `WhitelistWellFormed` and `FirstEntryPreimage` state its properties |
| `MerkleOutput.WhitelistWellFormed` | script/generateMerkleTree.ts:11-17 | every hard-coded entry has forty hex digits after `0x` and an amount below 2^256 |
| `MerkleOutput.FirstEntryPreimage` | script/generateMerkleTree.ts:12 | claim (0x1111…1111, 100) has preimage twenty 0x11 bytes, thirty-one 0x00 bytes, then 0x64 |

## Left out

- The Merkle tree: `new MerkleTree(leaves, keccak256, { sort: true })`, `getHexRoot` and `getHexProof` (script/generateMerkleTree.ts:28, 31, 37). They belong to the `merkletreejs` package, which is not part of this model. Pair sorting, odd-node handling, proof lookup and the `0x` hex rendering of root and proofs all happen there. The tree is an opaque parameter, and no verification round trip is stated, because the script states none.
- keccak256 (script/generateMerkleTree.ts:2, 21) is a foreign hash function. It is a parameter, and no collision resistance is assumed. Leaf equality is only derived from preimage equality.
- JavaScript `number` semantics of `amount` (script/generateMerkleTree.ts:7): the amount is a `nat`. Fractions, negative values and the loss of precision above 2^53 are not modelled.
- `JSON.stringify`, `fs.writeFileSync` and `console.log` (script/generateMerkleTree.ts:49-52) are output. The model stops at the record that is written.
- Input validation: the script raises no encoding error for a malformed address or an oversized amount, so the model has none either. `AddressTruncated` and `AmountDigitsOversized` state what happens instead. An oversized amount is not truncated to 32 bytes. When its hex rendering has an odd number of digits, the last digit is dropped (`OddAmountDigitDropped`), so 2^256 and 2^252 give the same preimage (`OversizedAmountCollision`).
- Characters outside ASCII in `Buffer.from(text, 'hex')` are not modelled separately. Any character other than `0-9a-fA-F` ends decoding, as a non-hex character does.
- `Slice`: JavaScript's `slice(2)` counts UTF-16 code units, while a Dafny `string` is a sequence of characters. They differ only when one of the first two characters lies outside the Basic Multilingual Plane. JavaScript then drops fewer characters than `Slice` does, so for such an address the model's results, including `WellFormedAddress` accepting it, do not match the script. Addresses of the intended form start with the ASCII `0x`.
- `MerkleOutput.WhitelistWellFormed` and `MerkleOutput.FirstEntryPreimage`: byte-level preimages are stated for the first hard-coded entry only. `LeafEncoding.RepeatedDigitPreimage` gives the general shape for amounts below 256. The shape for the other four entries follows from `PreimageIsEncodePacked`.
