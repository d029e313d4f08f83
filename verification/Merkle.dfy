/** The source Merkle tree (src/integrity.rs): an unpaired last node is hashed with itself. */
module Merkle {
  import opened Prelude

  type Digest = d: Bytes | |d| == 32 witness seq(32, _ => 0)

  /** SHA-256 of the concatenation of two digests, left abstract. */
  type PairHash = (Digest, Digest) -> Digest

  datatype Leaf = Leaf(path: string, sha256: string)

  datatype InclusionProof = InclusionProof(path: string, leafHash: string, leafIndex: nat,
                                           proof: seq<(string, bool)>, root: string)

  const ZERO_DIGEST: Digest :=
    [0, 0, 0, 0, 0, 0, 0, 0, 0, 0, 0, 0, 0, 0, 0, 0, 0, 0, 0, 0, 0, 0, 0, 0, 0, 0, 0, 0, 0, 0, 0, 0]

  // ----- hexadecimal text -----

  const HEX_DIGITS := "0123456789abcdef"

  function HexEncode(bytes: Bytes): string {
    if bytes == [] then "" else [HEX_DIGITS[bytes[0] / 16], HEX_DIGITS[bytes[0] % 16]] + HexEncode(bytes[1..])
  }

  function HexValue(c: char): Option<int> {
    if '0' <= c <= '9' then Some(c as int - '0' as int)
    else if 'a' <= c <= 'f' then Some(c as int - 'a' as int + 10)
    else if 'A' <= c <= 'F' then Some(c as int - 'A' as int + 10)
    else None
  }

  function HexDecode(text: string): Option<Bytes> {
    if text == "" then Some([])
    else if |text| == 1 then None
    else
      match (HexValue(text[0]), HexValue(text[1]), HexDecode(text[2..]))
      case (Some(hi), Some(lo), Some(rest)) => Some([16 * hi + lo] + rest)
      case _ => None
  }

  function DecodeHash(text: string): (d: Option<Digest>) {
    match HexDecode(text)
    case Some(bytes) => if |bytes| == 32 then Some(bytes) else None
    case None => None
  }

  lemma HexDecodeCons(hi: char, lo: char, rest: string)
    requires HexValue(hi).Some? && HexValue(lo).Some? && HexDecode(rest).Some?
    ensures HexDecode([hi, lo] + rest) == Some([16 * HexValue(hi).value + HexValue(lo).value] + HexDecode(rest).value)
  {
    var text := [hi, lo] + rest;
    assert text[0] == hi && text[1] == lo && text[2..] == rest;
  }

  lemma {:induction false} HexRoundTrip(bytes: Bytes)
    ensures HexDecode(HexEncode(bytes)) == Some(bytes)
  {
    if bytes != [] {
      HexRoundTrip(bytes[1..]);
      HexDigitValue(bytes[0] / 16);
      HexDigitValue(bytes[0] % 16);
      HexDecodeCons(HEX_DIGITS[bytes[0] / 16], HEX_DIGITS[bytes[0] % 16], HexEncode(bytes[1..]));
      assert bytes == [bytes[0]] + bytes[1..];
    }
  }

  lemma HexDigitValue(n: nat)
    requires n < 16
    ensures HexValue(HEX_DIGITS[n]) == Some(n)
  {
    assert n in {0, 1, 2, 3, 4, 5, 6, 7, 8, 9, 10, 11, 12, 13, 14, 15};
  }

  /** The lower-case digit of a value below 16. */
  ghost predicate IsHexDigit(c: char, n: nat) {
    c as int == if n < 10 then 48 + n else 87 + n
  }

  /** Two digits a byte, the high one first. */
  lemma {:induction false} HexDigits(bytes: Bytes, i: nat)
    requires i < |bytes|
    ensures |HexEncode(bytes)| == 2 * |bytes|
    ensures IsHexDigit(HexEncode(bytes)[2 * i], bytes[i] / 16) && IsHexDigit(HexEncode(bytes)[2 * i + 1], bytes[i] % 16)
  {
    var rest := HexEncode(bytes[1..]);
    HexDigitIs(bytes[0] / 16);
    HexDigitIs(bytes[0] % 16);
    if i > 0 {
      HexDigits(bytes[1..], i - 1);
      assert HexEncode(bytes)[2 * i] == rest[2 * (i - 1)] && HexEncode(bytes)[2 * i + 1] == rest[2 * (i - 1) + 1];
    } else if |bytes| > 1 {
      HexDigits(bytes[1..], 0);
    }
  }

  lemma HexDigitIs(n: nat)
    requires n < 16
    ensures IsHexDigit(HEX_DIGITS[n], n)
  {
    assert n in {0, 1, 2, 3, 4, 5, 6, 7, 8, 9, 10, 11, 12, 13, 14, 15};
  }

  lemma HexValueIs(c: char, n: nat)
    requires n < 16
    ensures HexValue(c) == Some(n) <==> IsHexDigit(c, n) || (n >= 10 && c as int == 55 + n)
  {
  }

  predicate IsHex(c: char) {
    '0' <= c <= '9' || 'a' <= c <= 'f' || 'A' <= c <= 'F'
  }

  /** Text decodes exactly when it is an even number of hexadecimal digits of either case. */
  lemma {:induction false} HexDecodes(text: string)
    ensures HexDecode(text).Some? <==> |text| % 2 == 0 && forall i :: 0 <= i < |text| ==> IsHex(text[i])
    ensures HexDecode(text).Some? ==> 2 * |HexDecode(text).value| == |text|
  {
    if |text| > 1 {
      HexDecodes(text[2..]);
      assert forall i :: 2 <= i < |text| ==> text[i] == text[2..][i - 2];
      assert text == text[..2] + text[2..];
    }
  }

  // ----- the tree, over any node type -----

  /** The node above positions 2i and 2i+1; an unpaired last node is paired with itself. */
  function Under<H>(hs: seq<H>, i: nat): (H, H)
    requires 2 * i < |hs|
  {
    (hs[2 * i], if 2 * i + 1 < |hs| then hs[2 * i + 1] else hs[2 * i])
  }

  function HashPair<H>(hp: (H, H) -> H, pair: (H, H)): H {
    hp(pair.0, pair.1)
  }

  function Half(n: nat): (h: nat)
    ensures 2 * h == n || 2 * h == n + 1
    ensures n > 1 ==> h < n
  {
    (n + 1) / 2
  }

  function Level<H>(hp: (H, H) -> H, hs: seq<H>): (next: seq<H>)
    ensures |next| == Half(|hs|)
    ensures forall i :: 0 <= i < |next| ==> next[i] == HashPair(hp, Under(hs, i))
  {
    seq(Half(|hs|), i requires 0 <= i < Half(|hs|) => HashPair(hp, Under(hs, i)))
  }

  function Root<H>(hp: (H, H) -> H, hs: seq<H>): H
    requires hs != []
    decreases |hs|
  {
    if |hs| == 1 then hs[0] else Root(hp, Level(hp, hs))
  }

  function Sibling(i: nat, n: nat): nat {
    if i % 2 == 1 then i - 1 else if i + 1 < n then i + 1 else i
  }

  function Proof<H>(hp: (H, H) -> H, hs: seq<H>, i: nat): seq<(H, bool)>
    requires i < |hs|
    decreases |hs|
  {
    if |hs| == 1 then []
    else [(hs[Sibling(i, |hs|)], i % 2 == 0)] + Proof(hp, Level(hp, hs), i / 2)
  }

  function StepPair<H>(current: H, step: (H, bool)): (H, H) {
    if step.1 then (current, step.0) else (step.0, current)
  }

  function Fold<H>(hp: (H, H) -> H, leaf: H, proof: seq<(H, bool)>): H
    decreases |proof|
  {
    if proof == [] then leaf else Fold(hp, HashPair(hp, StepPair(leaf, proof[0])), proof[1..])
  }

  function Height(n: nat): nat
    requires 0 < n
  {
    if n == 1 then 0 else 1 + Height(Half(n))
  }

  // ----- the order in which nodes are hashed -----

  /** What becomes of an unpaired last node over j levels. */
  function Lift<H>(hp: (H, H) -> H, node: H, j: nat): H
    decreases j
  {
    if j == 0 then node else Lift(hp, hp(node, node), j - 1)
  }

  lemma LevelConcat<H>(hp: (H, H) -> H, a: seq<H>, b: seq<H>)
    requires |a| % 2 == 0
    ensures Level(hp, a + b) == Level(hp, a) + Level(hp, b)
  {
    var m := Half(|a|);
    forall i | 0 <= i < Half(|b|)
      ensures Under(a + b, m + i) == Under(b, i)
    {
      assert (a + b)[2 * (m + i)] == b[2 * i];
    }
  }

  lemma {:induction false} HeightBelow(n: nat, k: nat)
    requires 0 < n <= Pow2(k)
    ensures Height(n) <= k
    decreases k
  {
    if n > 1 {
      HeightBelow(Half(n), k - 1);
    }
  }

  /**
   The root over a full tree of 2^k leaves and at most as many more hashes the two roots in that order, the
   second after hashing it with itself once for every level it is short of.
   */
  lemma {:induction false} RootSplits<H>(hp: (H, H) -> H, a: seq<H>, b: seq<H>, k: nat)
    requires |a| == Pow2(k) && 0 < |b| <= Pow2(k)
    ensures Height(|b|) <= k
    ensures Root(hp, a + b) == hp(Root(hp, a), Lift(hp, Root(hp, b), k - Height(|b|)))
    decreases k
  {
    HeightBelow(|b|, k);
    if k == 0 {
      assert Level(hp, a + b) == [hp(a[0], b[0])];
    } else {
      LevelConcat(hp, a, b);
      RootSplits(hp, Level(hp, a), Level(hp, b), k - 1);
    }
  }

  /** A step to the right hashes the node first, a step to the left the sibling. */
  lemma FoldSteps<H>(hp: (H, H) -> H, node: H, sibling: H, rest: seq<(H, bool)>)
    ensures Fold(hp, node, []) == node
    ensures Fold(hp, node, [(sibling, true)] + rest) == Fold(hp, hp(node, sibling), rest)
    ensures Fold(hp, node, [(sibling, false)] + rest) == Fold(hp, hp(sibling, node), rest)
  {
    assert ([(sibling, true)] + rest)[1..] == rest && ([(sibling, false)] + rest)[1..] == rest;
  }

  /** Generated proofs recompute the root. */
  lemma {:induction false} Completeness<H>(hp: (H, H) -> H, hs: seq<H>, i: nat)
    requires i < |hs|
    ensures Fold(hp, hs[i], Proof(hp, hs, i)) == Root(hp, hs)
    decreases |hs|
  {
    if |hs| > 1 {
      var proof := Proof(hp, hs, i);
      assert StepPair(hs[i], proof[0]) == Under(hs, i / 2);
      assert proof[1..] == Proof(hp, Level(hp, hs), i / 2);
      Completeness(hp, Level(hp, hs), i / 2);
    }
  }

  /** The height is the least h with n <= 2^h. */
  lemma {:induction false} HeightIsLeast(n: nat)
    requires 0 < n
    ensures n <= Pow2(Height(n))
    ensures forall h: nat :: n <= Pow2(h) ==> Height(n) <= h
  {
    if n > 1 {
      HeightIsLeast(Half(n));
      forall h: nat | n <= Pow2(h)
        ensures Height(n) <= h
      {
        assert Half(n) <= Pow2(h - 1);
      }
    }
  }

  /** The k-th binary digit, lowest first. */
  function Digit(i: nat, k: nat): nat {
    if k == 0 then i % 2 else Digit(i / 2, k - 1)
  }

  /** A proof has one step a level, and its flags spell the leaf index in binary, lowest digit first. */
  lemma {:induction false} ProofShape<H>(hp: (H, H) -> H, hs: seq<H>, i: nat)
    requires i < |hs|
    ensures |Proof(hp, hs, i)| == Height(|hs|)
    ensures forall k :: 0 <= k < Height(|hs|) ==> (Proof(hp, hs, i)[k].1 <==> Digit(i, k) == 0)
    decreases |hs|
  {
    if |hs| > 1 {
      var rest := Proof(hp, Level(hp, hs), i / 2);
      ProofShape(hp, Level(hp, hs), i / 2);
      forall k | 0 <= k < Height(|hs|)
        ensures Proof(hp, hs, i)[k].1 <==> Digit(i, k) == 0
      {
        if k > 0 {
          assert Proof(hp, hs, i)[k] == rest[k - 1];
        }
      }
    }
  }

  // ----- soundness, relative to the pairs that were hashed -----

  function TreePairs<H(==)>(hp: (H, H) -> H, hs: seq<H>): set<(H, H)>
    decreases |hs|
  {
    if |hs| <= 1 then {}
    else (set i | 0 <= i < Half(|hs|) :: Under(hs, i)) + TreePairs(hp, Level(hp, hs))
  }

  function ProofPairs<H(==)>(hp: (H, H) -> H, leaf: H, proof: seq<(H, bool)>): set<(H, H)>
    decreases |proof|
  {
    if proof == [] then {}
    else {StepPair(leaf, proof[0])} + ProofPairs(hp, HashPair(hp, StepPair(leaf, proof[0])), proof[1..])
  }

  /** No pair of the first set collides with a different pair of the second. */
  ghost predicate NoCollision<H>(hp: (H, H) -> H, a: set<(H, H)>, b: set<(H, H)>) {
    forall u, v :: u in a && v in b && HashPair(hp, u) == HashPair(hp, v) ==> u == v
  }

  /** The leaf a list of left/right flags leads to, walking down from the root of an n-leaf tree. */
  function Target<H>(n: nat, proof: seq<(H, bool)>): (i: nat)
    requires 0 < n && |proof| == Height(n)
    ensures i < n
  {
    if n == 1 then 0 else Child(n, Target(Half(n), proof[1..]), proof[0].1)
  }

  /** The node on one side below position p; an unpaired last node is on both sides. */
  function Child(n: nat, p: nat, left: bool): (t: nat)
    requires 2 * p < n
    ensures t < n && t / 2 == p
  {
    if left || 2 * p + 1 == n then 2 * p else 2 * p + 1
  }

  ghost predicate SameSiblings<H>(a: seq<(H, bool)>, b: seq<(H, bool)>)
    requires |a| == |b|
  {
    forall k :: 0 <= k < |a| ==> a[k].0 == b[k].0
  }

  lemma SameSiblingsStep<H>(a: seq<(H, bool)>, b: seq<(H, bool)>)
    requires |a| == |b| > 0
    ensures SameSiblings(a, b) <==> a[0].0 == b[0].0 && SameSiblings(a[1..], b[1..])
  {
    if a[0].0 == b[0].0 && SameSiblings(a[1..], b[1..]) {
      forall k | 0 <= k < |a|
        ensures a[k].0 == b[k].0
      {
        if k > 0 { assert a[1..][k - 1].0 == b[1..][k - 1].0; }
      }
    }
  }

  /** One level of a proof is right exactly when the node and its sibling are the tree's own. */
  lemma PairIsOwn<H>(hs: seq<H>, node: H, step: (H, bool), p: nat)
    requires 2 * p < |hs|
    ensures var t := Child(|hs|, p, step.1);
            StepPair(node, step) == Under(hs, p) <==> node == hs[t] && step.0 == hs[Sibling(t, |hs|)]
  {
  }

  lemma HashIsOwn<H>(hp: (H, H) -> H, hs: seq<H>, leaf: H, proof: seq<(H, bool)>, p: nat)
    requires |hs| > 1 && |proof| > 0 && 2 * p < |hs|
    requires NoCollision(hp, ProofPairs(hp, leaf, proof), TreePairs(hp, hs))
    ensures HashPair(hp, StepPair(leaf, proof[0])) == Level(hp, hs)[p] <==> StepPair(leaf, proof[0]) == Under(hs, p)
  {
    assert Under(hs, p) in TreePairs(hp, hs);
    assert StepPair(leaf, proof[0]) in ProofPairs(hp, leaf, proof);
  }

  /** A proof of the tree's height is accepted exactly when the leaf and all siblings are the tree's own. */
  lemma {:induction false} Soundness<H>(hp: (H, H) -> H, hs: seq<H>, leaf: H, proof: seq<(H, bool)>)
    requires hs != [] && |proof| == Height(|hs|)
    requires NoCollision(hp, ProofPairs(hp, leaf, proof), TreePairs(hp, hs))
    ensures |Proof(hp, hs, Target(|hs|, proof))| == |proof|
    ensures Fold(hp, leaf, proof) == Root(hp, hs) <==>
              leaf == hs[Target(|hs|, proof)] && SameSiblings(proof, Proof(hp, hs, Target(|hs|, proof)))
    decreases |hs|
  {
    ProofShape(hp, hs, Target(|hs|, proof));
    if |hs| > 1 {
      var own := Proof(hp, hs, Target(|hs|, proof));
      var p := Target(Half(|hs|), proof[1..]);
      HashIsOwn(hp, hs, leaf, proof, p);
      PairIsOwn(hs, leaf, proof[0], p);
      SoundnessAbove(hp, hs, leaf, proof);
      Soundness(hp, Level(hp, hs), HashPair(hp, StepPair(leaf, proof[0])), proof[1..]);
      assert own[1..] == Proof(hp, Level(hp, hs), p);
      SameSiblingsStep(proof, own);
    }
  }

  lemma SoundnessAbove<H>(hp: (H, H) -> H, hs: seq<H>, leaf: H, proof: seq<(H, bool)>)
    requires |hs| > 1 && |proof| > 0
    requires NoCollision(hp, ProofPairs(hp, leaf, proof), TreePairs(hp, hs))
    ensures NoCollision(hp, ProofPairs(hp, HashPair(hp, StepPair(leaf, proof[0])), proof[1..]),
                        TreePairs(hp, Level(hp, hs)))
  {
  }

  lemma SameParent<H>(hp: (H, H) -> H, a: seq<H>, b: seq<H>, p: nat)
    requires |a| == |b| > 1 && 2 * p < |a|
    requires NoCollision(hp, TreePairs(hp, a), TreePairs(hp, b)) && Level(hp, a)[p] == Level(hp, b)[p]
    ensures Under(a, p) == Under(b, p)
  {
    assert Under(a, p) in TreePairs(hp, a) && Under(b, p) in TreePairs(hp, b);
  }

  lemma SameChild<H>(a: seq<H>, b: seq<H>, k: nat)
    requires |a| == |b| && k < |a| && Under(a, k / 2) == Under(b, k / 2)
    ensures a[k] == b[k]
  {
  }

  /** Two leaf lists of equal length with one root are equal. */
  lemma {:induction false} RootBinds<H>(hp: (H, H) -> H, a: seq<H>, b: seq<H>)
    requires |a| == |b| > 0
    requires NoCollision(hp, TreePairs(hp, a), TreePairs(hp, b))
    requires Root(hp, a) == Root(hp, b)
    ensures a == b
    decreases |a|
  {
    if |a| > 1 {
      RootBinds(hp, Level(hp, a), Level(hp, b));
      forall k | 0 <= k < |a|
        ensures a[k] == b[k]
      {
        SameParent(hp, a, b, k / 2);
        SameChild(a, b, k);
      }
    }
  }

  // ----- the functions of the source -----

  /** Level by level, two nodes at a time. */
  method NextLevel<H>(hp: (H, H) -> H, hs: seq<H>) returns (next: seq<H>)
    ensures next == Level(hp, hs)
    ensures forall i :: 0 <= i < |next| ==>
              next[i] == hp(hs[2 * i], if 2 * i + 1 < |hs| then hs[2 * i + 1] else hs[2 * i])
  {
    next := [];
    while 2 * |next| < |hs|
      invariant |next| <= Half(|hs|)
      invariant next == Level(hp, hs)[..|next|]
      decreases |hs| - |next|
    {
      var c := 2 * |next|;
      if c + 1 < |hs| {
        next := next + [hp(hs[c], hs[c + 1])];
      } else {
        next := next + [hp(hs[c], hs[c])];
      }
    }
  }

  function LeafDigest(leaf: Leaf): Digest {
    match DecodeHash(leaf.sha256)
    case Some(d) => d
    case None => ZERO_DIGEST
  }

  function Digests(leaves: seq<Leaf>): (ds: seq<Digest>)
    ensures |ds| == |leaves|
    ensures forall i :: 0 <= i < |leaves| ==> ds[i] == LeafDigest(leaves[i])
  {
    if leaves == [] then [] else [LeafDigest(leaves[0])] + Digests(leaves[1..])
  }

  function TreeRoot(hp: PairHash, leaves: seq<Leaf>): string {
    HexEncode(if leaves == [] then ZERO_DIGEST else Root(hp, Digests(leaves)))
  }

  /** A leaf whose hash is not 32 bytes of hexadecimal text counts as zeros, and so does the root of no leaves. */
  lemma ZerosStandIn(hp: PairHash, leaves: seq<Leaf>, leaf: Leaf, zeros: Digest)
    requires forall j :: 0 <= j < 32 ==> zeros[j] == 0
    ensures DecodeHash(leaf.sha256).None? ==> LeafDigest(leaf) == zeros
    ensures leaves == [] ==> TreeRoot(hp, leaves) == HexEncode(zeros)
  {
    assert ZERO_DIGEST == zeros;
  }

  method ComputeMerkleRoot(hp: PairHash, leaves: seq<Leaf>) returns (root: string)
    ensures root == TreeRoot(hp, leaves)
  {
    if leaves == [] {
      return HexEncode(ZERO_DIGEST);
    }
    var hashes := Digests(leaves);
    while |hashes| > 1
      invariant hashes != [] && Root(hp, hashes) == Root(hp, Digests(leaves))
      decreases |hashes|
    {
      hashes := NextLevel(hp, hashes);
    }
    root := HexEncode(hashes[0]);
  }

  method MerkleProof<H>(hp: (H, H) -> H, leaves: seq<H>, index: nat) returns (proof: seq<(H, bool)>)
    requires index < |leaves|
    ensures proof == Proof(hp, leaves, index)
  {
    if |leaves| <= 1 {
      return [];
    }
    proof := [];
    var hashes, idx := leaves, index;
    while |hashes| > 1
      invariant 0 <= idx < |hashes|
      invariant proof + Proof(hp, hashes, idx) == Proof(hp, leaves, index)
      decreases |hashes|
    {
      var siblingIdx := if idx % 2 == 0 then idx + 1 else idx - 1;
      var sibling := if siblingIdx < |hashes| then hashes[siblingIdx] else hashes[idx];
      ghost var rest := Proof(hp, Level(hp, hashes), idx / 2);
      assert proof + ([(sibling, idx % 2 == 0)] + rest) == (proof + [(sibling, idx % 2 == 0)]) + rest;
      proof := proof + [(sibling, idx % 2 == 0)];
      hashes := NextLevel(hp, hashes);
      idx := idx / 2;
    }
  }

  /** A proof as text: hexadecimal siblings. */
  function EncodeProof(proof: seq<(Digest, bool)>): (text: seq<(string, bool)>)
    ensures |text| == |proof|
    ensures forall k :: 0 <= k < |proof| ==> text[k] == (HexEncode(proof[k].0), proof[k].1)
  {
    if proof == [] then [] else [(HexEncode(proof[0].0), proof[0].1)] + EncodeProof(proof[1..])
  }

  function DecodeProof(text: seq<(string, bool)>): (proof: Option<seq<(Digest, bool)>>)
    ensures proof.Some? ==> |proof.value| == |text|
  {
    if text == [] then Some([])
    else
      var sibling, rest := DecodeHash(text[0].0), DecodeProof(text[1..]);
      if sibling.Some? && rest.Some? then Some([(sibling.value, text[0].1)] + rest.value) else None
  }

  ghost predicate Verifies(hp: PairHash, leafHash: string, proof: seq<(string, bool)>, root: string) {
    && DecodeHash(leafHash).Some?
    && DecodeProof(proof).Some?
    && HexEncode(Fold(hp, DecodeHash(leafHash).value, DecodeProof(proof).value)) == root
  }

  method VerifyMerkleProof(hp: PairHash, leafHash: string, proof: seq<(string, bool)>, expectedRoot: string)
    returns (ok: bool)
    ensures ok <==> Verifies(hp, leafHash, proof, expectedRoot)
  {
    var leaf := DecodeHash(leafHash);
    if leaf.None? {
      return false;
    }
    var current := leaf.value;
    for i := 0 to |proof|
      invariant Verifies(hp, leafHash, proof, expectedRoot) <==>
                && DecodeProof(proof[i..]).Some?
                && HexEncode(Fold(hp, current, DecodeProof(proof[i..]).value)) == expectedRoot
    {
      assert proof[i..][1..] == proof[i + 1..];
      var sibling := DecodeHash(proof[i].0);
      if sibling.None? {
        assert proof[i..][0] == proof[i];
        return false;
      }
      if proof[i].1 {
        current := hp(current, sibling.value);
      } else {
        current := hp(sibling.value, current);
      }
    }
    return HexEncode(current) == expectedRoot;
  }

  lemma {:induction false} ProofRoundTrip(proof: seq<(Digest, bool)>)
    ensures DecodeProof(EncodeProof(proof)) == Some(proof)
  {
    if proof != [] {
      HexRoundTrip(proof[0].0);
      ProofRoundTrip(proof[1..]);
      var text := EncodeProof(proof);
      assert text[0] == (HexEncode(proof[0].0), proof[0].1) && text[1..] == EncodeProof(proof[1..]);
      assert proof == [(proof[0].0, proof[0].1)] + proof[1..];
    }
  }

  /** The proof published for a file verifies exactly when the file's recorded hash is 32 bytes of hex. */
  lemma PublishedProofVerifies(hp: PairHash, leaves: seq<Leaf>, i: nat)
    requires i < |leaves|
    ensures Verifies(hp, leaves[i].sha256, EncodeProof(Proof(hp, Digests(leaves), i)), TreeRoot(hp, leaves)) <==>
            DecodeHash(leaves[i].sha256).Some?
  {
    ProofRoundTrip(Proof(hp, Digests(leaves), i));
    Completeness(hp, Digests(leaves), i);
  }

  /** An accepted textual proof of the tree's height names a leaf of the tree. */
  lemma VerifierSoundness(hp: PairHash, leaves: seq<Leaf>, leafHash: string, proof: seq<(string, bool)>)
    requires leaves != [] && |proof| == Height(|leaves|)
    requires Verifies(hp, leafHash, proof, TreeRoot(hp, leaves))
    requires NoCollision(hp, ProofPairs(hp, DecodeHash(leafHash).value, DecodeProof(proof).value),
                         TreePairs(hp, Digests(leaves)))
    ensures Digests(leaves)[Target(|leaves|, DecodeProof(proof).value)] == DecodeHash(leafHash).value
  {
    var hs, leaf, steps := Digests(leaves), DecodeHash(leafHash).value, DecodeProof(proof).value;
    HexRoundTrip(Fold(hp, leaf, steps));
    HexRoundTrip(Root(hp, hs));
    Soundness(hp, hs, leaf, steps);
  }

  /** The first leaf with the path, or the number of leaves. */
  method Position(leaves: seq<Leaf>, path: string) returns (i: nat)
    ensures i <= |leaves| && (i < |leaves| ==> leaves[i].path == path)
    ensures forall j :: 0 <= j < i ==> leaves[j].path != path
  {
    i := 0;
    while i < |leaves| && leaves[i].path != path
      invariant i <= |leaves|
      invariant forall j :: 0 <= j < i ==> leaves[j].path != path
    {
      i := i + 1;
    }
  }

  /** The inclusion proof for a path, or nothing if no leaf has that path. */
  method ProofFor(hp: PairHash, leaves: seq<Leaf>, root: string, path: string) returns (r: Option<InclusionProof>)
    ensures r.None? <==> forall i :: 0 <= i < |leaves| ==> leaves[i].path != path
    ensures r.Some? ==>
              && r.value.path == path && r.value.root == root
              && r.value.leafIndex < |leaves| && leaves[r.value.leafIndex] == Leaf(path, r.value.leafHash)
              && r.value.proof == EncodeProof(Proof(hp, Digests(leaves), r.value.leafIndex))
  {
    var i := Position(leaves, path);
    if i == |leaves| {
      return None;
    }
    var proof := MerkleProof(hp, Digests(leaves), i);
    r := Some(InclusionProof(path, leaves[i].sha256, i, EncodeProof(proof), root));
  }
}
