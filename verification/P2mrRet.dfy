/** The two-leaf tree that binds an RGB commitment into a P2MR root, and the search for it in a leaf list. */
module P2mrRet {
  import opened Wrappers
  import opened ByteStrings
  import opened Errors
  import opened SealTypes
  import opened Seals
  import opened Taproot
  import opened ScriptTrees

  const COMMITMENT_MAGIC: Bytes := Ascii("RGBPQCM")
  const COMMITMENT_PROTOCOL_TAG: Bytes := Ascii("rgbpq:commitment:v0")
  const LEAF_VERSION: byte := 0xc0

  // ----- the commitment leaf -------------------------------------------

  function Payload(chain: BtqChainId, mpc: Bytes32): (b: Bytes)
    ensures |b| == 59
  {
    COMMITMENT_MAGIC + COMMITMENT_PROTOCOL_TAG + [chain.ToByte()] + mpc
  }

  method P2mrRetPayload(chain: BtqChainId, mpc: Bytes32) returns (out: Bytes)
    ensures out == Payload(chain, mpc)
  {
    out := COMMITMENT_MAGIC;
    out := out + COMMITMENT_PROTOCOL_TAG;
    out := out + [chain.ToByte()];
    out := out + mpc;
  }

  function DecodePayload(b: Bytes): Outcome<(BtqChainId, Bytes32)> {
    if |b| != 59 then Failure(Malformed("p2mr-ret payload length"))
    else if b[0..7] != COMMITMENT_MAGIC then Failure(Malformed("bad magic"))
    else if b[7..26] != COMMITMENT_PROTOCOL_TAG then Failure(Malformed("bad protocol tag"))
    else
      var chain :- ChainFromByte(b[26]);
      Success((chain, b[27..59]))
  }

  /** The payload codec is a bijection onto what it accepts. */
  lemma PayloadCodec(b: Bytes, chain: BtqChainId, mpc: Bytes32)
    ensures DecodePayload(b) == Success((chain, mpc)) <==> b == Payload(chain, mpc)
  {
    var p := Payload(chain, mpc);
    assert p[0..7] == COMMITMENT_MAGIC && p[7..26] == COMMITMENT_PROTOCOL_TAG && p[27..59] == mpc;
    if |b| == 59 {
      assert b == b[0..7] + b[7..26] + [b[26]] + b[27..59];
    }
  }

  /** A push opcode and its data; the length byte is truncated as `as u8` truncates it. */
  function Push(payload: Bytes): Bytes {
    (if |payload| <= 0x4b then [|payload| as byte] else [0x4c, (|payload| % 256) as byte]) + payload
  }

  method AppendPush(script: Bytes, payload: Bytes) returns (r: Bytes)
    ensures r == script + Push(payload)
  {
    r := script;
    if |payload| <= 0x4b {
      r := r + [|payload| as byte];
    } else {
      r := r + [0x4c];
      r := r + [(|payload| % 256) as byte];
    }
    r := r + payload;
  }

  function LeafScript(chain: BtqChainId, mpc: Bytes32): (s: Script)
    ensures |s| == 61
  {
    [0x6a] + Push(Payload(chain, mpc))
  }

  method CommitmentLeafScript(chain: BtqChainId, mpc: Bytes32) returns (script: Script)
    ensures script == LeafScript(chain, mpc)
  {
    var payload := P2mrRetPayload(chain, mpc);
    var s: Bytes := [0x6a];
    script := AppendPush(s, payload);
  }

  /** The bytes of payload and leaf, with magic and tag written out. */
  lemma LeafScriptLayout(chain: BtqChainId, mpc: Bytes32)
    ensures var p := Payload(chain, mpc);
      && p[..7] == Ascii("RGBPQCM") && p[7..26] == Ascii("rgbpq:commitment:v0") && p[26] == chain.ToByte()
      && p[27..] == mpc
      && LeafScript(chain, mpc) == [0x6a, 59] + p
  {
    var p := Payload(chain, mpc);
    assert p[..7] == COMMITMENT_MAGIC && p[7..26] == COMMITMENT_PROTOCOL_TAG && p[27..] == mpc;
  }

  /** Why a payload is refused: exactly which check fails first. */
  lemma PayloadRefusals(b: Bytes)
    ensures |b| != 59 ==> DecodePayload(b) == Failure(Malformed("p2mr-ret payload length"))
    ensures |b| == 59 && b[..7] != Ascii("RGBPQCM") ==> DecodePayload(b) == Failure(Malformed("bad magic"))
    ensures |b| == 59 && b[..7] == Ascii("RGBPQCM") && b[7..26] != Ascii("rgbpq:commitment:v0") ==>
      DecodePayload(b) == Failure(Malformed("bad protocol tag"))
    ensures |b| == 59 && b[..7] == Ascii("RGBPQCM") && b[7..26] == Ascii("rgbpq:commitment:v0") ==>
      (DecodePayload(b).Failure? <==> b[26] != 1 && b[26] != 2)
      && (DecodePayload(b).Failure? ==> DecodePayload(b) == Failure(UnknownChainId))
  {
  }

  lemma LeafScriptInjective(chain: BtqChainId, mpc: Bytes32, chain': BtqChainId, mpc': Bytes32)
    requires LeafScript(chain, mpc) == LeafScript(chain', mpc')
    ensures chain == chain' && mpc == mpc'
  {
    var p, p' := Payload(chain, mpc), Payload(chain', mpc');
    assert LeafScript(chain, mpc) == [0x6a, 59] + p && LeafScript(chain', mpc') == [0x6a, 59] + p';
    SplitConcat([0x6a, 59], p, [0x6a, 59], p');
    PayloadCodec(p, chain, mpc);
    PayloadCodec(p, chain', mpc');
  }

  // ----- the two-leaf tree ---------------------------------------------

  datatype P2mrRetTree = P2mrRetTree(
    pqLeaf: PlacedLeaf,
    commitmentLeaf: PlacedLeaf,
    root: Bytes32,
    commitmentProof: P2mrRetProof)

  function BuildP2mrRetTree(sha: Sha256, pqScript: Script, pqVersion: byte, commitmentScript: Script): P2mrRetTree {
    var pqLeaf := PlacedLeaf(1, pqVersion, pqScript);
    var commitmentLeaf := PlacedLeaf(1, LEAF_VERSION, commitmentScript);
    var pqHash := TapleafHash(sha, pqVersion, pqScript);
    var commHash := TapleafHash(sha, LEAF_VERSION, commitmentScript);
    P2mrRetTree(pqLeaf, commitmentLeaf, TapbranchHash(sha, pqHash, commHash),
                P2mrRetProof(commitmentLeaf, [pqHash]))
  }

  function BuildTreeForSeal(sha: Sha256, chain: BtqChainId, mpc: Bytes32, pqScript: Script): P2mrRetTree {
    BuildP2mrRetTree(sha, pqScript, LEAF_VERSION, LeafScript(chain, mpc))
  }

  function TwoLeaves(chain: BtqChainId, mpc: Bytes32, pqScript: Script): ScriptTree {
    Branch(Leaf(LEAF_VERSION, pqScript), Leaf(LEAF_VERSION, LeafScript(chain, mpc)))
  }

  /** Every part of a built tree. */
  lemma BuiltTreeParts(sha: Sha256, pqScript: Script, pqVersion: byte, commitmentScript: Script)
    ensures var tree := BuildP2mrRetTree(sha, pqScript, pqVersion, commitmentScript);
      && tree.pqLeaf == PlacedLeaf(1, pqVersion, pqScript)
      && tree.commitmentLeaf == tree.commitmentProof.leaf == PlacedLeaf(1, 0xc0, commitmentScript)
      && tree.root == Root(sha, Branch(Leaf(pqVersion, pqScript), Leaf(0xc0, commitmentScript)))
      && tree.commitmentProof.branch == [TapleafHash(sha, pqVersion, pqScript)]
  {
  }

  /** What is built is a script tree with these two leaves, and its proof always verifies. */
  lemma BuiltTree(sha: Sha256, chain: BtqChainId, mpc: Bytes32, pqScript: Script)
    ensures var tree := BuildTreeForSeal(sha, chain, mpc, pqScript);
      && tree.root == Root(sha, TwoLeaves(chain, mpc, pqScript))
      && tree.commitmentProof.VerifyAgainst(sha, tree.root)
  {
    var pqHash := TapleafHash(sha, LEAF_VERSION, pqScript);
    var commHash := TapleafHash(sha, LEAF_VERSION, LeafScript(chain, mpc));
    assert [pqHash][..0] == [];
    assert FoldBranch(sha, commHash, [pqHash]) == TapbranchHash(sha, FoldBranch(sha, commHash, []), pqHash);
    BranchMessageSymmetric(pqHash, commHash);
  }

  function VerifyP2mrRetBounded(sha: Sha256, seal: BtqP2mrSeal, mpc: Bytes32, pqScript: Script, limits: VerifyLimits)
    : Outcome<()>
  {
    var _ :- limits.CheckLeafSize(|pqScript|);
    var tree := BuildTreeForSeal(sha, seal.chainId, mpc, pqScript);
    var _ :- limits.CheckTreeDepth(tree.commitmentLeaf.depth as int);
    var _ :- limits.CheckLeafSize(|tree.commitmentLeaf.script|);
    if tree.root != seal.p2mrRoot then Failure(Malformed("p2mr-ret root mismatch"))
    else if !tree.commitmentProof.VerifyAgainst(sha, tree.root) then Failure(Malformed("p2mr-ret proof invalid"))
    else Success(())
  }

  /** Acceptance is exactly: the limits hold and the root is that of the two-leaf tree. The proof check that
      follows the root check can never fail. */
  lemma AcceptanceExact(sha: Sha256, seal: BtqP2mrSeal, mpc: Bytes32, pqScript: Script, limits: VerifyLimits)
    ensures VerifyP2mrRetBounded(sha, seal, mpc, pqScript, limits).Success? <==>
              && |pqScript| <= limits.maxLeafSize
              && 61 <= limits.maxLeafSize
              && 1 <= limits.maxTreeDepth
              && seal.p2mrRoot == Root(sha, TwoLeaves(seal.chainId, mpc, pqScript))
    ensures VerifyP2mrRetBounded(sha, seal, mpc, pqScript, limits) != Failure(Malformed("p2mr-ret proof invalid"))
  {
    BuiltTree(sha, seal.chainId, mpc, pqScript);
    assert "p2mr-ret root mismatch"[9] != "p2mr-ret proof invalid"[9];
  }

  /** Why verification refuses: exactly which check fails first. */
  lemma RefusalExact(sha: Sha256, seal: BtqP2mrSeal, mpc: Bytes32, pqScript: Script, limits: VerifyLimits)
    ensures VerifyP2mrRetBounded(sha, seal, mpc, pqScript, limits).Failure? ==>
      VerifyP2mrRetBounded(sha, seal, mpc, pqScript, limits).error ==
        if |pqScript| > limits.maxLeafSize then DosLimit(LeafSizeExceeded(|pqScript|, limits.maxLeafSize))
        else if limits.maxTreeDepth < 1 then DosLimit(TreeDepthExceeded(1, limits.maxTreeDepth))
        else if limits.maxLeafSize < 61 then DosLimit(LeafSizeExceeded(61, limits.maxLeafSize))
        else Malformed("p2mr-ret root mismatch")
  {
    BuiltTree(sha, seal.chainId, mpc, pqScript);
  }

  /** One seal cannot be opened in two ways, except by reading the same two leaves the other way round, or with
      a collision among the strings hashed for the two trees. */
  lemma P2mrRetBinding(sha: Sha256, seal: BtqP2mrSeal, mpc: Bytes32, pq: Script, mpc': Bytes32, pq': Script,
                       limits: VerifyLimits, limits': VerifyLimits)
    requires VerifyP2mrRetBounded(sha, seal, mpc, pq, limits).Success?
    requires VerifyP2mrRetBounded(sha, seal, mpc', pq', limits').Success?
    ensures (mpc == mpc' && pq == pq')
            || (pq == LeafScript(seal.chainId, mpc') && pq' == LeafScript(seal.chainId, mpc))
            || Collides(sha, Hashed(sha, TwoLeaves(seal.chainId, mpc, pq)) +
                             Hashed(sha, TwoLeaves(seal.chainId, mpc', pq')))
  {
    var t, t' := TwoLeaves(seal.chainId, mpc, pq), TwoLeaves(seal.chainId, mpc', pq');
    AcceptanceExact(sha, seal, mpc, pq, limits);
    AcceptanceExact(sha, seal, mpc', pq', limits');
    RootBinding(sha, t, t');
    if SameUpToSwaps(t, t') && LeafScript(seal.chainId, mpc) == LeafScript(seal.chainId, mpc') {
      LeafScriptInjective(seal.chainId, mpc, seal.chainId, mpc');
    }
  }

  /** So the commitment is unique as soon as the PQ leaf is not itself a commitment leaf of the chain. */
  lemma CommitmentUnique(sha: Sha256, seal: BtqP2mrSeal, mpc: Bytes32, pq: Script, mpc': Bytes32, pq': Script,
                         limits: VerifyLimits, limits': VerifyLimits)
    requires VerifyP2mrRetBounded(sha, seal, mpc, pq, limits).Success?
    requires VerifyP2mrRetBounded(sha, seal, mpc', pq', limits').Success?
    requires forall m: Bytes32 :: pq != LeafScript(seal.chainId, m)
    ensures (mpc == mpc' && pq == pq')
            || Collides(sha, Hashed(sha, TwoLeaves(seal.chainId, mpc, pq)) +
                             Hashed(sha, TwoLeaves(seal.chainId, mpc', pq')))
  {
    P2mrRetBinding(sha, seal, mpc, pq, mpc', pq', limits, limits');
  }

  /** The exception is real: exchanging the roles of two commitment leaves keeps the root. */
  lemma SwappedRolesShareRoot(sha: Sha256, chain: BtqChainId, mpc: Bytes32, mpc': Bytes32)
    ensures Root(sha, TwoLeaves(chain, mpc, LeafScript(chain, mpc'))) ==
            Root(sha, TwoLeaves(chain, mpc', LeafScript(chain, mpc)))
  {
    var t, u := TwoLeaves(chain, mpc, LeafScript(chain, mpc')), TwoLeaves(chain, mpc', LeafScript(chain, mpc));
    assert SameUpToSwaps(t.left, u.right) && SameUpToSwaps(t.right, u.left);
    SwapsKeepRoot(sha, t, u);
  }

  // ----- finding the commitment in a leaf list -------------------------

  function StripOpreturnScript(script: Bytes): Option<Bytes> {
    if script == [] || script[0] != 0x6a then None
    else
      var rest := script[1..];
      if rest == [] then None
      else if rest[0] < 0xfd then
        var len := rest[0] as nat;
        if |rest| < 1 + len then None else Some(rest[1..1 + len])
      else if rest[0] == 0xfd then
        if |rest| < 3 then None
        else
          var len := FromLittleEndian(rest[1..3]);
          if |rest| < 3 + len then None else Some(rest[3..3 + len])
      else None
  }

  /** The commitment a leaf carries for this chain, if any. */
  function LeafCommitment(chain: BtqChainId, script: Bytes): Option<Bytes32> {
    var payload := StripOpreturnScript(script);
    if payload.None? then None
    else
      var decoded := DecodePayload(payload.value);
      if decoded.Success? && decoded.value.0 == chain then Some(decoded.value.1) else None
  }

  function LeafCommitments(chain: BtqChainId, leaves: seq<PlacedLeaf>): seq<(BtqChainId, Bytes32)> {
    if leaves == [] then []
    else
      var n := |leaves| - 1;
      var c := LeafCommitment(chain, leaves[n].script);
      LeafCommitments(chain, leaves[..n]) + if c.Some? then [(chain, c.value)] else []
  }

  method FindCommitmentInTree(seal: BtqP2mrSeal, leaves: seq<PlacedLeaf>, expectedRoot: Bytes32)
    returns (r: Outcome<Option<(BtqChainId, Bytes32)>>)
    ensures var hits := LeafCommitments(seal.chainId, leaves);
      r == if |hits| == 0 then Success(None) else if |hits| == 1 then Success(Some(hits[0])) else Failure(Duplicate)
  {
    var hits: seq<(PlacedLeaf, (BtqChainId, Bytes32))> := [];
    for k := 0 to |leaves|
      invariant LeafCommitments(seal.chainId, leaves[..k]) == seq(|hits|, i requires 0 <= i < |hits| => hits[i].1)
    {
      var leaf := leaves[k];
      assert leaves[..k + 1][..k] == leaves[..k];
      if leaf.script != [] && leaf.script[0] == 0x6a {
        var payload := StripOpreturnScript(leaf.script);
        if payload.Some? {
          var decoded := DecodePayload(payload.value);
          if decoded.Success? && decoded.value.0 == seal.chainId {
            hits := hits + [(leaf, decoded.value)];
          }
        }
      }
    }
    assert leaves[..|leaves|] == leaves;
    if |hits| == 0 {
      r := Success(None);
    } else if |hits| == 1 {
      r := Success(Some(hits[0].1));
    } else {
      r := Failure(Duplicate);
    }
  }

  /** Which leaves carry a commitment for the chain. */
  function Carriers(chain: BtqChainId, leaves: seq<PlacedLeaf>): (flags: seq<bool>) {
    seq(|leaves|, i requires 0 <= i < |leaves| => LeafCommitment(chain, leaves[i].script).Some?)
  }

  /** The search is decided by how many leaves carry a commitment for the chain. */
  lemma {:induction false} LeafCommitmentsCount(chain: BtqChainId, leaves: seq<PlacedLeaf>)
    ensures |LeafCommitments(chain, leaves)| == CountTrue(Carriers(chain, leaves)) == |TrueAt(Carriers(chain, leaves))|
  {
    CountIsCardinality(Carriers(chain, leaves));
    if leaves != [] {
      var n := |leaves| - 1;
      LeafCommitmentsCount(chain, leaves[..n]);
      assert Carriers(chain, leaves)[..n] == Carriers(chain, leaves[..n]);
    }
  }

  lemma LastLeaf(chain: BtqChainId, leaves: seq<PlacedLeaf>, m: (BtqChainId, Bytes32))
    requires leaves != []
    ensures var n := |leaves| - 1;
      m in LeafCommitments(chain, leaves) <==>
        m in LeafCommitments(chain, leaves[..n]) ||
        (m.0 == chain && LeafCommitment(chain, leaves[n].script) == Some(m.1))
  {
  }

  lemma {:induction false} LeafCommitmentsMembers(chain: BtqChainId, leaves: seq<PlacedLeaf>,
                                                  m: (BtqChainId, Bytes32))
    ensures m in LeafCommitments(chain, leaves) <==>
              m.0 == chain && exists i :: 0 <= i < |leaves| && LeafCommitment(chain, leaves[i].script) == Some(m.1)
  {
    if leaves != [] {
      var n := |leaves| - 1;
      LeafCommitmentsMembers(chain, leaves[..n], m);
      LastLeaf(chain, leaves, m);
      assert leaves == leaves[..n] + [leaves[n]];
    }
  }

  /** A leaf carries a commitment exactly when it begins with the commitment leaf script or with the same
      payload behind a three-byte length; what follows is not looked at. */
  lemma LeafCommitmentExact(chain: BtqChainId, script: Bytes, mpc: Bytes32)
    ensures LeafCommitment(chain, script) == Some(mpc) <==>
              LeafScript(chain, mpc) <= script || [0x6a, 0xfd, 59, 0] + Payload(chain, mpc) <= script
  {
    var short, long := LeafScript(chain, mpc), [0x6a, 0xfd, 59, 0] + Payload(chain, mpc);
    assert short == [0x6a, 59] + Payload(chain, mpc);
    if LeafCommitment(chain, script) == Some(mpc) {
      LeafCommitmentForm(chain, script, mpc);
    }
    if short <= script {
      assert script[0] == short[0] && script[1] == short[1];
      assert script[1..][1..60] == short[2..];
      PayloadCodec(Payload(chain, mpc), chain, mpc);
    } else if long <= script {
      assert script[0] == long[0] && script[1] == long[1] && script[2] == long[2] && script[3] == long[3];
      var rest := script[1..];
      assert rest[1] == 59 && rest[2] == 0;
      LengthBytes(rest[1..3]);
      assert rest[3..62] == long[4..];
      PayloadCodec(Payload(chain, mpc), chain, mpc);
    }
  }

  lemma FrontThenPayload(script: Bytes, front: Bytes, payload: Bytes)
    requires |front| + |payload| <= |script|
    requires forall i :: 0 <= i < |front| ==> script[i] == front[i]
    requires script[|front|..|front| + |payload|] == payload
    ensures front + payload <= script
  {
    assert script[..|front|] == front;
    assert script[..|front| + |payload|] == script[..|front|] + script[|front|..|front| + |payload|];
  }

  lemma StrippedForm(script: Bytes, p: Bytes)
    requires StripOpreturnScript(script) == Some(p)
    ensures |script| >= 2 && script[0] == 0x6a
    ensures if script[1] < 0xfd
            then script[1] as nat == |p| <= |script| - 2 && script[2..2 + |p|] == p
            else |script| >= 4 && script[1] == 0xfd && script[2] as nat + 256 * script[3] as nat == |p| <= |script| - 4
                 && script[4..4 + |p|] == p
  {
    var rest := script[1..];
    assert rest[0] == script[1];
    if rest[0] < 0xfd {
      SliceOfRest(script, 1, 1, 1 + |p|);
    } else {
      SliceOfRest(script, 1, 1, 3);
      LengthBytes(script[2..4]);
      SliceOfRest(script, 1, 3, 3 + |p|);
    }
  }

  lemma LeafCommitmentForm(chain: BtqChainId, script: Bytes, mpc: Bytes32)
    requires LeafCommitment(chain, script) == Some(mpc)
    ensures LeafScript(chain, mpc) <= script || [0x6a, 0xfd, 59, 0] + Payload(chain, mpc) <= script
  {
    var payload := StripOpreturnScript(script).value;
    PayloadCodec(payload, chain, mpc);
    LeafScriptLayout(chain, mpc);
    StrippedForm(script, payload);
    if script[1] < 0xfd {
      FrontThenPayload(script, [0x6a, 59], payload);
    } else {
      assert script[2] == 59 && script[3] == 0;
      FrontThenPayload(script, [0x6a, 0xfd, 59, 0], payload);
    }
  }

  lemma LengthBytes(b: Bytes)
    requires |b| == 2
    ensures FromLittleEndian(b) == b[0] as nat + 256 * b[1] as nat
  {
    assert b[1..][1..] == [];
    assert FromLittleEndian(b[1..]) == b[1] as nat;
  }

  /** Searching the leaves of a built tree gives back the commitment exactly when the PQ leaf carries none for
      the chain; otherwise the search reports a duplicate. */
  method BuildThenFind(sha: Sha256, seal: BtqP2mrSeal, mpc: Bytes32, pqScript: Script, pqFirst: bool)
    returns (r: Outcome<Option<(BtqChainId, Bytes32)>>)
    ensures r == if LeafCommitment(seal.chainId, pqScript).None? then Success(Some((seal.chainId, mpc)))
                 else Failure(Duplicate)
  {
    var tree := BuildTreeForSeal(sha, seal.chainId, mpc, pqScript);
    var leaves := if pqFirst then [tree.pqLeaf, tree.commitmentLeaf] else [tree.commitmentLeaf, tree.pqLeaf];
    LeafCommitmentExact(seal.chainId, tree.commitmentLeaf.script, mpc);
    assert LeafCommitments(seal.chainId, leaves[..1]) ==
           var c := LeafCommitment(seal.chainId, leaves[0].script);
           if c.Some? then [(seal.chainId, c.value)] else []
    by {
      assert leaves[..1][..0] == [];
    }
    r := FindCommitmentInTree(seal, leaves, tree.root);
  }
}
