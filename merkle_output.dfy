/**
 * The Merkle tree generator script: one leaf per whitelist entry, the tree
 * built over them, and the output record of root, addresses, amounts and
 * proofs. keccak256 and the `merkletreejs` tree are parameters.
 */
module MerkleOutput {
  import opened Bytes
  import opened Hex
  import opened LeafEncoding

  /** What the script uses of a `merkletreejs` tree: `getHexRoot()` and `getHexProof(leaf)`. */
  datatype MerkleTree = MerkleTree(hexRoot: string, hexProof: seq<Byte> -> seq<string>)

  /** One element of the script's `proofs` array. */
  datatype ProofEntry = ProofEntry(address: string, amount: nat, proof: seq<string>)

  /** The record written to merkleData.json. */
  datatype MerkleData = MerkleData(
    root: string,
    addresses: seq<string>,
    amounts: seq<nat>,
    proofs: seq<seq<string>>)

  /** `Array.prototype.map` with an `(element, index)` callback. */
  function Map<A, B>(f: (A, nat) --> B, s: seq<A>): (r: seq<B>)
    requires forall i :: 0 <= i < |s| ==> f.requires(s[i], i)
    ensures |r| == |s|
    ensures forall i :: 0 <= i < |s| ==> r[i] == f(s[i], i)
  {
    if s == [] then []
    else
      var init := s[..|s| - 1];
      assert forall i :: 0 <= i < |init| ==> init[i] == s[i];
      Map(f, init) + [f(s[|s| - 1], |s| - 1)]
  }

  /** The leaves: one per claim, in whitelist order. */
  function Leaves(keccak: seq<Byte> -> seq<Byte>, whitelist: seq<Claim>): (leaves: seq<seq<Byte>>)
    ensures |leaves| == |whitelist|
    ensures forall i :: 0 <= i < |whitelist| ==> leaves[i] == keccak(LeafPreimage(whitelist[i]))
  {
    Map((claim: Claim, index: nat) => Leaf(keccak, claim), whitelist)
  }

  /** The `proofs` array: each claim with the proof the tree gives for the leaf at its index. */
  function Proofs(tree: MerkleTree, whitelist: seq<Claim>, leaves: seq<seq<Byte>>): (entries: seq<ProofEntry>)
    requires |leaves| == |whitelist|
    ensures |entries| == |whitelist|
    ensures forall i :: 0 <= i < |whitelist| ==>
      entries[i].address == whitelist[i].address &&
      entries[i].amount == whitelist[i].amount &&
      entries[i].proof == tree.hexProof(leaves[i])
  {
    Map((claim: Claim, index: nat) requires index < |leaves| =>
          ProofEntry(claim.address, claim.amount, tree.hexProof(leaves[index])),
        whitelist)
  }

  /** The output record, its arrays taken field by field from the whitelist and the proofs. */
  function Output(root: string, whitelist: seq<Claim>, entries: seq<ProofEntry>): (out: MerkleData)
    ensures out.root == root
    ensures |out.addresses| == |out.amounts| == |whitelist| && |out.proofs| == |entries|
    ensures forall i :: 0 <= i < |whitelist| ==>
      out.addresses[i] == whitelist[i].address && out.amounts[i] == whitelist[i].amount
    ensures forall i :: 0 <= i < |entries| ==> out.proofs[i] == entries[i].proof
  {
    MerkleData(
      root,
      Map((w: Claim, index: nat) => w.address, whitelist),
      Map((w: Claim, index: nat) => w.amount, whitelist),
      Map((p: ProofEntry, index: nat) => p.proof, entries))
  }

  /**
   * The whole script. `newTree` stands for
   * `leaves => new MerkleTree(leaves, keccak256, { sort: true })`.
   * Every array of the result is aligned with the whitelist: entry i holds
   * claim i's address, its amount and the proof for claim i's leaf, and the
   * root is that of the tree over all leaves in whitelist order.
   */
  function GenerateMerkleData(
    keccak: seq<Byte> -> seq<Byte>,
    newTree: seq<seq<Byte>> -> MerkleTree,
    whitelist: seq<Claim>): (out: MerkleData)
    ensures out.root == newTree(Leaves(keccak, whitelist)).hexRoot
    ensures |out.addresses| == |out.amounts| == |out.proofs| == |whitelist|
    ensures forall i :: 0 <= i < |whitelist| ==>
      && out.addresses[i] == whitelist[i].address
      && out.amounts[i] == whitelist[i].amount
      && out.proofs[i] == newTree(Leaves(keccak, whitelist)).hexProof(keccak(LeafPreimage(whitelist[i])))
  {
    var leaves := Leaves(keccak, whitelist);
    var tree := newTree(leaves);
    var root := tree.hexRoot;
    var proofs := Proofs(tree, whitelist, leaves);
    Output(root, whitelist, proofs)
  }

  /**
   * Proofs are looked up by leaf value, not by position: claims whose
   * addresses differ at most in the letter case of their digits and whose
   * amounts agree receive the same proof.
   */
  lemma EqualClaimsShareProof(
    keccak: seq<Byte> -> seq<Byte>,
    newTree: seq<seq<Byte>> -> MerkleTree,
    whitelist: seq<Claim>, i: nat, j: nat)
    requires i < |whitelist| && j < |whitelist|
    requires |whitelist[i].address| == |whitelist[j].address|
    requires whitelist[i].amount == whitelist[j].amount
    requires forall k :: 2 <= k < |whitelist[i].address| ==>
      CaseFold(whitelist[i].address[k]) == CaseFold(whitelist[j].address[k])
    ensures GenerateMerkleData(keccak, newTree, whitelist).proofs[i] ==
      GenerateMerkleData(keccak, newTree, whitelist).proofs[j]
  {
    LeafIgnoresAddressCase(keccak, whitelist[i], whitelist[j]);
  }

  /** A hard-coded entry: `0x`, then forty copies of the hex digit for `k`. */
  function Entry(k: nat, amount: nat): Claim
    requires k < 16
  {
    Claim("0x" + Repeat(DigitChar(k), 2 * ADDRESS_BYTES), amount)
  }

  /** The hard-coded whitelist of the script. */
  function Whitelist(): seq<Claim> {
    [ Entry(1, 100), Entry(2, 200), Entry(3, 300), Entry(4, 400), Entry(5, 500) ]
  }

  /** Every hard-coded entry is well formed: forty hex digits after `0x`, an amount below 2^256. */
  lemma WhitelistWellFormed()
    ensures forall i :: 0 <= i < |Whitelist()| ==> WellFormed(Whitelist()[i])
  {
    forall i | 0 <= i < |Whitelist()| ensures WellFormed(Whitelist()[i]) {
      assert Whitelist()[i] == Entry(i + 1, 100 * (i + 1));
      RepeatedDigitAddress(DigitChar(i + 1));
      PowMonotone(256, 2, AMOUNT_BYTES);
    }
  }

  /** The first entry, byte by byte: twenty 0x11, thirty-one 0x00, then 0x64. */
  lemma FirstEntryPreimage()
    ensures LeafPreimage(Whitelist()[0]) ==
      Repeat<Byte>(0x11, ADDRESS_BYTES) + (Repeat<Byte>(0, AMOUNT_BYTES - 1) + [0x64])
  {
    assert Whitelist()[0] == Entry(1, 100);
    RepeatedDigitPreimage(DigitChar(1), 100);
  }
}
