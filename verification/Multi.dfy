/** The multi-protocol tree: one PQ leaf and N commitment leaves folded into one root. */
module MultiProtocol {
  import opened Wrappers
  import opened ByteStrings
  import opened Errors
  import opened SealTypes
  import opened Seals
  import opened Taproot
  import opened ScriptTrees
  import opened P2mrRet

  datatype MultiProtocolP2mrTree = MultiProtocolP2mrTree(
    pqLeaf: PlacedLeaf,
    commitmentLeaves: seq<PlacedLeaf>,
    root: Bytes32)

  /** The script tree the fold amounts to: each further commitment is the right child of a new root. */
  function FoldTree(pq: Script, commitments: seq<Script>): ScriptTree
    requires commitments != []
  {
    var n := |commitments| - 1;
    if n == 0 then Branch(Leaf(LEAF_VERSION, pq), Leaf(LEAF_VERSION, commitments[0]))
    else Branch(FoldTree(pq, commitments[..n]), Leaf(LEAF_VERSION, commitments[n]))
  }

  /** The depth written on commitment i, with its truncation to a byte. */
  function DepthLabel(i: nat): byte {
    ((1 + i) % 256) as byte
  }

  method BuildMultiProtocolTree(sha: Sha256, pq: Script, commitments: seq<Script>)
    returns (r: Outcome<MultiProtocolP2mrTree>)
    ensures r.Failure? <==> commitments == []
    ensures r.Failure? ==> r.error == Malformed("multi-protocol tree needs at least one commitment leaf")
    ensures r.Success? ==>
      && r.value.root == Root(sha, FoldTree(pq, commitments))
      && r.value.pqLeaf == PlacedLeaf(1, 0xc0, pq)
      && |r.value.commitmentLeaves| == |commitments|
      && forall i :: 0 <= i < |commitments| ==>
           r.value.commitmentLeaves[i] == PlacedLeaf(((1 + i) % 256) as byte, 0xc0, commitments[i])
  {
    if commitments == [] {
      return Failure(Malformed("multi-protocol tree needs at least one commitment leaf"));
    }
    var pqLeaf := PlacedLeaf(1, LEAF_VERSION, pq);
    var leaves := new PlacedLeaf[|commitments|](i requires 0 <= i < |commitments| =>
      PlacedLeaf(1, LEAF_VERSION, commitments[i]));
    var root := FoldHashes(sha, pqLeaf, leaves, commitments);
    LabelDepths(leaves, commitments);
    r := Success(MultiProtocolP2mrTree(pqLeaf, leaves[..], root));
  }

  /** The first loop of the builder: the leaf hashes, folded from the left. */
  method FoldHashes(sha: Sha256, pqLeaf: PlacedLeaf, leaves: array<PlacedLeaf>, ghost commitments: seq<Script>)
    returns (root: Bytes32)
    requires leaves.Length == |commitments| > 0
    requires pqLeaf.leafVersion == LEAF_VERSION
    requires forall i :: 0 <= i < leaves.Length ==> leaves[i] == PlacedLeaf(1, LEAF_VERSION, commitments[i])
    ensures root == Root(sha, FoldTree(pqLeaf.script, commitments))
  {
    var n := leaves.Length;
    var pqHash := ComputeTapleafHash(sha, pqLeaf.leafVersion, pqLeaf.script);
    var hash := ComputeTapleafHash(sha, leaves[0].leafVersion, leaves[0].script);
    root := ComputeTapbranchHash(sha, pqHash, hash);
    for k := 1 to n
      invariant root == Root(sha, FoldTree(pqLeaf.script, commitments[..k]))
    {
      assert commitments[..k + 1][..k] == commitments[..k];
      hash := ComputeTapleafHash(sha, leaves[k].leafVersion, leaves[k].script);
      root := ComputeTapbranchHash(sha, root, hash);
    }
    assert commitments[..n] == commitments;
  }

  /** The second loop of the builder: the depth of every leaf is rewritten in place. */
  method LabelDepths(leaves: array<PlacedLeaf>, ghost commitments: seq<Script>)
    requires leaves.Length == |commitments|
    requires forall i :: 0 <= i < leaves.Length ==> leaves[i] == PlacedLeaf(1, LEAF_VERSION, commitments[i])
    modifies leaves
    ensures forall i :: 0 <= i < leaves.Length ==> leaves[i] == PlacedLeaf(DepthLabel(i), LEAF_VERSION, commitments[i])
  {
    for i := 0 to leaves.Length
      invariant forall j :: 0 <= j < leaves.Length ==>
        leaves[j] == PlacedLeaf(if j < i then DepthLabel(j) else 1, LEAF_VERSION, commitments[j])
    {
      leaves[i] := leaves[i].(depth := ((1 + i) % 256) as byte);
    }
  }

  /** The root of a fold, step by step: the PQ leaf with the first commitment, then each further commitment. */
  lemma FoldRoot(sha: Sha256, pq: Script, cs: seq<Script>, c: Script)
    ensures Root(sha, FoldTree(pq, [c])) == TapbranchHash(sha, TapleafHash(sha, 0xc0, pq), TapleafHash(sha, 0xc0, c))
    ensures cs != [] ==>
      Root(sha, FoldTree(pq, cs + [c])) == TapbranchHash(sha, Root(sha, FoldTree(pq, cs)), TapleafHash(sha, 0xc0, c))
  {
    assert (cs + [c])[..|cs|] == cs;
  }

  method VerifyMultiProtocolCommitment(sha: Sha256, root: Bytes32, pq: Script, commitments: seq<Script>)
    returns (r: Outcome<()>)
    ensures r.Success? <==> commitments != [] && root == Root(sha, FoldTree(pq, commitments))
    ensures r.Failure? ==> r.error == Malformed(
      if commitments == [] then "multi-protocol tree needs at least one commitment leaf"
      else "multi-protocol root mismatch")
  {
    var tree :- BuildMultiProtocolTree(sha, pq, commitments);
    if tree.root != root {
      return Failure(Malformed("multi-protocol root mismatch"));
    }
    r := Success(());
  }

  // ----- what the root commits to --------------------------------------

  lemma {:induction false} FoldTreeShape(pq: Script, cs: seq<Script>, pq': Script, cs': seq<Script>)
    requires cs != [] && cs' != []
    requires SameUpToSwaps(FoldTree(pq, cs), FoldTree(pq', cs'))
    ensures |cs| == |cs'| && cs[1..] == cs'[1..]
    ensures (pq == pq' && cs[0] == cs'[0]) || (pq == cs'[0] && cs[0] == pq')
  {
    var n, n' := |cs| - 1, |cs'| - 1;
    var t, t' := FoldTree(pq, cs), FoldTree(pq', cs');
    assert n > 0 ==> t.left == FoldTree(pq, cs[..n]) && t.left.Branch?;
    assert n' > 0 ==> t'.left == FoldTree(pq', cs'[..n']) && t'.left.Branch?;
    assert t.right == Leaf(LEAF_VERSION, cs[n]) && t'.right == Leaf(LEAF_VERSION, cs'[n']);
    assert || (SameUpToSwaps(t.left, t'.left) && SameUpToSwaps(t.right, t'.right))
           || (SameUpToSwaps(t.left, t'.right) && SameUpToSwaps(t.right, t'.left));
    if n > 0 || n' > 0 {
      assert SameUpToSwaps(t.left, t'.left) && n > 0 && n' > 0;
      FoldTreeShape(pq, cs[..n], pq', cs'[..n']);
      assert cs[1..] == cs[..n][1..] + [cs[n]];
      assert cs'[1..] == cs'[..n'][1..] + [cs'[n']];
    } else {
      assert cs[1..] == [] && cs'[1..] == [];
    }
  }

  /** As many commitments, the same from the second on, in order, and the same unordered pair of PQ leaf and
      first commitment. */
  predicate SameLeaves(pq: Script, cs: seq<Script>, pq': Script, cs': seq<Script>)
    requires cs != [] && cs' != []
  {
    |cs| == |cs'| && cs[1..] == cs'[1..] && multiset{pq, cs[0]} == multiset{pq', cs'[0]}
  }

  /** A root determines how many commitments were folded, every commitment from the second on, in order, and
      the unordered pair of the PQ leaf and the first commitment, or strings that were hashed collide. */
  lemma MultiRootBinding(sha: Sha256, pq: Script, cs: seq<Script>, pq': Script, cs': seq<Script>)
    requires cs != [] && cs' != []
    requires Root(sha, FoldTree(pq, cs)) == Root(sha, FoldTree(pq', cs'))
    ensures SameLeaves(pq, cs, pq', cs')
            || Collides(sha, Hashed(sha, FoldTree(pq, cs)) + Hashed(sha, FoldTree(pq', cs')))
  {
    RootBinding(sha, FoldTree(pq, cs), FoldTree(pq', cs'));
    if SameUpToSwaps(FoldTree(pq, cs), FoldTree(pq', cs')) {
      FoldTreeShape(pq, cs, pq', cs');
    }
  }

  /** With one commitment the fold is the two-leaf tree. So a seal accepted as p2mr-ret is also the root of a fold
      only of one commitment and of the same two leaves, unless strings that were hashed collide. */
  lemma SchemesDoNotMix(sha: Sha256, seal: BtqP2mrSeal, mpc: Bytes32, pq: Script, limits: VerifyLimits,
                        pq': Script, cs: seq<Script>)
    requires VerifyP2mrRetBounded(sha, seal, mpc, pq, limits).Success?
    requires cs != [] && seal.p2mrRoot == Root(sha, FoldTree(pq', cs))
    ensures TwoLeaves(seal.chainId, mpc, pq) == FoldTree(pq, [LeafScript(seal.chainId, mpc)])
    ensures (|cs| == 1 && multiset{pq, LeafScript(seal.chainId, mpc)} == multiset{pq', cs[0]})
            || Collides(sha, Hashed(sha, TwoLeaves(seal.chainId, mpc, pq)) + Hashed(sha, FoldTree(pq', cs)))
  {
    AcceptanceExact(sha, seal, mpc, pq, limits);
    MultiRootBinding(sha, pq, [LeafScript(seal.chainId, mpc)], pq', cs);
  }

  /** The first two leaves are interchangeable, so the pair cannot be ordered. */
  lemma {:induction false} FirstPairSwaps(sha: Sha256, pq: Script, cs: seq<Script>)
    requires cs != []
    ensures Root(sha, FoldTree(pq, cs)) == Root(sha, FoldTree(cs[0], cs[0 := pq]))
  {
    var n := |cs| - 1;
    if n == 0 {
      BranchMessageSymmetric(TapleafHash(sha, LEAF_VERSION, pq), TapleafHash(sha, LEAF_VERSION, cs[0]));
    } else {
      FirstPairSwaps(sha, pq, cs[..n]);
      assert cs[..n][0 := pq] == cs[0 := pq][..n];
    }
  }

  // ----- proofs for every leaf, and the true depths --------------------

  /** Leaf 0 is the PQ leaf, leaf i the (i-1)-th commitment. */
  function LeafOf(pq: Script, cs: seq<Script>, i: nat): Script
    requires i <= |cs|
  {
    if i == 0 then pq else cs[i - 1]
  }

  function TrueDepth(n: nat, i: nat): nat
    requires i <= n
  {
    if i <= 1 then n else n - (i - 1)
  }

  function BranchFor(sha: Sha256, pq: Script, cs: seq<Script>, i: nat): seq<Bytes32>
    requires cs != [] && i <= |cs|
  {
    var n := |cs| - 1;
    if n == 0 then [TapleafHash(sha, LEAF_VERSION, if i == 0 then cs[0] else pq)]
    else if i == n + 1 then [Root(sha, FoldTree(pq, cs[..n]))]
    else BranchFor(sha, pq, cs[..n], i) + [TapleafHash(sha, LEAF_VERSION, cs[n])]
  }

  lemma {:induction false} BranchOpens(sha: Sha256, pq: Script, cs: seq<Script>, i: nat)
    requires cs != [] && i <= |cs|
    ensures |BranchFor(sha, pq, cs, i)| == TrueDepth(|cs|, i)
    ensures Opens(sha, FoldTree(pq, cs), LEAF_VERSION, LeafOf(pq, cs, i), BranchFor(sha, pq, cs, i))
  {
    var n := |cs| - 1;
    var branch := BranchFor(sha, pq, cs, i);
    var t, init := FoldTree(pq, cs), branch[..|branch| - 1];
    if n == 0 {
      assert init == [];
      assert Opens(sha, if i == 0 then t.left else t.right, LEAF_VERSION, LeafOf(pq, cs, i), init);
    } else if i == n + 1 {
      assert init == [];
      assert Opens(sha, t.right, LEAF_VERSION, LeafOf(pq, cs, i), init);
    } else {
      BranchOpens(sha, pq, cs[..n], i);
      assert init == BranchFor(sha, pq, cs[..n], i);
    }
  }

  /** Every leaf of the fold has a proof, whose length is the leaf's true depth. */
  lemma ProofForEveryLeaf(sha: Sha256, pq: Script, cs: seq<Script>, i: nat)
    requires cs != [] && i <= |cs|
    ensures |BranchFor(sha, pq, cs, i)| == TrueDepth(|cs|, i)
    ensures Accepts(sha, FoldTree(pq, cs), LEAF_VERSION, LeafOf(pq, cs, i), BranchFor(sha, pq, cs, i))
  {
    BranchOpens(sha, pq, cs, i);
    OpeningIsAccepted(sha, FoldTree(pq, cs), LEAF_VERSION, LeafOf(pq, cs, i), BranchFor(sha, pq, cs, i));
  }

  /** And nothing else stands in the tree of a fold. */
  lemma {:induction false} FoldOccurrences(pq: Script, cs: seq<Script>, version: byte, script: Script, depth: nat)
    requires cs != []
    ensures OccursAtDepth(FoldTree(pq, cs), version, script, depth) <==>
              version == LEAF_VERSION
              && exists i :: 0 <= i <= |cs| && LeafOf(pq, cs, i) == script && TrueDepth(|cs|, i) == depth
  {
    var n := |cs| - 1;
    var t := FoldTree(pq, cs);
    if n == 0 {
      assert LeafOf(pq, cs, 0) == pq && LeafOf(pq, cs, 1) == cs[0];
    } else if depth > 0 {
      FoldOccurrences(pq, cs[..n], version, script, depth - 1);
      assert LeafOf(pq, cs, n + 1) == cs[n] && TrueDepth(n + 1, n + 1) == 1;
      assert forall i :: 0 <= i <= n ==>
        LeafOf(pq, cs[..n], i) == LeafOf(pq, cs, i) && TrueDepth(n, i) + 1 == TrueDepth(n + 1, i);
      assert t.left == FoldTree(pq, cs[..n]) && t.right == Leaf(LEAF_VERSION, cs[n]);
    }
  }

  /** So every proof accepted against the root of a fold is for one of its leaves, at its true depth, unless
      strings that were hashed collide. */
  lemma FoldProofSoundness(sha: Sha256, pq: Script, cs: seq<Script>, version: byte, script: Script,
                           branch: seq<Bytes32>)
    requires cs != []
    requires Accepts(sha, FoldTree(pq, cs), version, script, branch)
    ensures (version == LEAF_VERSION
             && exists i :: 0 <= i <= |cs| && LeafOf(pq, cs, i) == script && TrueDepth(|cs|, i) == |branch|)
            || Collides(sha, Hashed(sha, FoldTree(pq, cs)) + HashedByProof(sha, version, script, branch))
  {
    ProofSoundness(sha, FoldTree(pq, cs), version, script, branch);
    if Opens(sha, FoldTree(pq, cs), version, script, branch) {
      OpeningOccurs(sha, FoldTree(pq, cs), version, script, branch);
      FoldOccurrences(pq, cs, version, script, |branch|);
    }
  }

  function TrueDepths(n: nat, base: nat): seq<nat> {
    seq(n + 1, i requires 0 <= i <= n => base + TrueDepth(n, i))
  }

  lemma {:induction false} FoldTreeDepths(pq: Script, cs: seq<Script>, base: nat)
    requires cs != []
    ensures LeafDepths(FoldTree(pq, cs), base) == TrueDepths(|cs|, base)
  {
    var n := |cs| - 1;
    if n > 0 {
      FoldTreeDepths(pq, cs[..n], base + 1);
      assert TrueDepths(n + 1, base) == TrueDepths(n, base + 1) + [base + 1];
    }
  }

  /** The true depths n, n, n-1, ..., 1 fill the tree exactly. */
  lemma TrueDepthsKraft(pq: Script, cs: seq<Script>)
    requires cs != []
    ensures LeafDepths(FoldTree(pq, cs), 0) == TrueDepths(|cs|, 0)
    ensures TrueDepths(|cs|, 0)[0] == |cs| && forall i :: 1 <= i <= |cs| ==> TrueDepths(|cs|, 0)[i] == |cs| + 1 - i
    ensures KraftSum(TrueDepths(|cs|, 0)) == 1.0
  {
    FoldTreeDepths(pq, cs, 0);
    TreeKraftSum(FoldTree(pq, cs), 0);
  }

  /** The labels the builder writes: 1 on the PQ leaf, then 1, 2, 3, ... truncated to a byte. */
  function WrittenLabels(n: nat): seq<nat> {
    seq(n + 1, i requires 0 <= i <= n => if i == 0 then 1 else DepthLabel(i - 1) as nat)
  }

  /** The labels are the true depths for one commitment, and for no other number are they the depths of the
      leaves of any script tree at all. */
  lemma LabelsExact(n: nat)
    requires n >= 1
    ensures WrittenLabels(n) == TrueDepths(n, 0) <==> n == 1
    ensures (exists t :: LeafDepths(t, 0) == WrittenLabels(n)) <==> n == 1
  {
    var labels := WrittenLabels(n);
    if n == 1 {
      var t := FoldTree([], [[]]);
      FoldTreeDepths([], [[]], 0);
      assert labels == TrueDepths(1, 0);
      assert LeafDepths(t, 0) == labels;
    } else {
      LabelsOverfull(n);
      assert labels[0] == 1 && TrueDepths(n, 0)[0] == n;
      forall t ensures LeafDepths(t, 0) != labels {
        TreeKraftSum(t, 0);
      }
    }
  }

  lemma LabelsOverfull(n: nat)
    requires n >= 2
    ensures KraftSum(WrittenLabels(n)) > 1.0
  {
    var labels := WrittenLabels(n);
    var tail := labels[1..][1..];
    assert labels[0] == 1 && labels[1..][0] == 1;
    assert KraftSum(labels) == Half(1) + (Half(1) + KraftSum(tail));
    assert KraftSum(tail) == Half(tail[0]) + KraftSum(tail[1..]);
    assert Half(1) == Half(0) / 2.0;
  }

  // ----- multi-protocol commitment leaves ------------------------------

  function IndexedLeafScript(chain: BtqChainId, mpc: Bytes32, index: byte): Script {
    [0x6a, 0x01, index] + Push(Payload(chain, mpc))
  }

  method MultiProtocolCommitmentLeaf(chain: BtqChainId, mpc: Bytes32, index: byte) returns (script: Script)
    ensures script == IndexedLeafScript(chain, mpc, index)
  {
    var payload := P2mrRetPayload(chain, mpc);
    var s: Bytes := [0x6a];
    s := s + [0x01];
    s := s + [index];
    script := AppendPush(s, payload);
  }

  lemma IndexedLeafForm(chain: BtqChainId, mpc: Bytes32, index: byte)
    ensures IndexedLeafScript(chain, mpc, index) == [0x6a, 0x01, index, 59] + Payload(chain, mpc)
    ensures |IndexedLeafScript(chain, mpc, index)| == 63
  {
  }

  /** An indexed leaf determines chain, commitment and index. */
  lemma IndexedLeafInjective(chain: BtqChainId, mpc: Bytes32, index: byte,
                             chain': BtqChainId, mpc': Bytes32, index': byte)
    requires IndexedLeafScript(chain, mpc, index) == IndexedLeafScript(chain', mpc', index')
    ensures chain == chain' && mpc == mpc' && index == index'
  {
    var p, p' := Payload(chain, mpc), Payload(chain', mpc');
    IndexedLeafForm(chain, mpc, index);
    IndexedLeafForm(chain', mpc', index');
    SplitConcat([0x6a, 0x01, index, 59], p, [0x6a, 0x01, index', 59], p');
    assert [0x6a, 0x01, index, 59][2] == [0x6a, 0x01, index', 59][2];
    PayloadCodec(p, chain, mpc);
    PayloadCodec(p, chain', mpc');
  }

  /** The leaf search, which reads only the first push, sees no commitment in an indexed leaf; so an indexed leaf
      is never a single-protocol one. */
  lemma IndexedLeafUnseen(chain: BtqChainId, mpc: Bytes32, index: byte, chain': BtqChainId, mpc': Bytes32)
    ensures LeafCommitment(chain', IndexedLeafScript(chain, mpc, index)) == None
    ensures IndexedLeafScript(chain, mpc, index) != LeafScript(chain', mpc')
  {
    var s := IndexedLeafScript(chain, mpc, index);
    IndexedLeafForm(chain, mpc, index);
    assert s[1..][0] == 0x01 && |s[1..][1..2]| == 1;
    LeafCommitmentExact(chain', LeafScript(chain', mpc'), mpc');
  }
}
