/** Script trees of any shape: what a root says about the tree, and what a Merkle path proves. */
module ScriptTrees {
  import opened ByteStrings
  import opened Taproot

  datatype ScriptTree =
    | Leaf(version: byte, script: Script)
    | Branch(left: ScriptTree, right: ScriptTree)

  function Root(sha: Sha256, t: ScriptTree): Bytes32 {
    match t
    case Leaf(version, script) => TapleafHash(sha, version, script)
    case Branch(left, right) => TapbranchHash(sha, Root(sha, left), Root(sha, right))
  }

  // ----- the strings that are hashed -----------------------------------

  /** Every string that is hashed while the root of `t` is computed. */
  ghost function Hashed(sha: Sha256, t: ScriptTree): set<Bytes> {
    match t
    case Leaf(version, script) => {LEAF_TAG, TaggedMessage(sha, LEAF_TAG, LeafMessage(version, script))}
    case Branch(left, right) =>
      {BRANCH_TAG, TaggedMessage(sha, BRANCH_TAG, BranchMessage(Root(sha, left), Root(sha, right)))}
      + Hashed(sha, left) + Hashed(sha, right)
  }

  /** Every string that is hashed while a proof for the leaf is folded. */
  ghost function HashedByProof(sha: Sha256, version: byte, script: Script, branch: seq<Bytes32>): set<Bytes> {
    if branch == [] then Hashed(sha, Leaf(version, script))
    else
      var init, last := branch[..|branch| - 1], branch[|branch| - 1];
      var acc := FoldBranch(sha, TapleafHash(sha, version, script), init);
      {BRANCH_TAG, TaggedMessage(sha, BRANCH_TAG, BranchMessage(acc, last))}
      + HashedByProof(sha, version, script, init)
  }

  // ----- what a Merkle path proves -------------------------------------

  /** The leaf stands in `t` at exactly this depth. No hash is involved. */
  predicate OccursAtDepth(t: ScriptTree, version: byte, script: Script, depth: nat) {
    if depth == 0 then t == Leaf(version, script)
    else t.Branch? && (OccursAtDepth(t.left, version, script, depth - 1)
                       || OccursAtDepth(t.right, version, script, depth - 1))
  }

  /** The leaf stands in `t` below the last sibling, the one before it, and so on: the siblings are the roots
      of the subtrees hanging off the path. */
  predicate Opens(sha: Sha256, t: ScriptTree, version: byte, script: Script, branch: seq<Bytes32>) {
    if branch == [] then t == Leaf(version, script)
    else
      var init, last := branch[..|branch| - 1], branch[|branch| - 1];
      && t.Branch?
      && ((last == Root(sha, t.right) && Opens(sha, t.left, version, script, init))
          || (last == Root(sha, t.left) && Opens(sha, t.right, version, script, init)))
  }

  predicate Accepts(sha: Sha256, t: ScriptTree, version: byte, script: Script, branch: seq<Bytes32>) {
    P2mrRetProof(PlacedLeaf(0, version, script), branch).VerifyAgainst(sha, Root(sha, t))
  }

  /** A leaf hash and a branch hash are never equal without a collision. */
  lemma LeafIsNotBranch(sha: Sha256, msg: Bytes, msg': Bytes, messages: set<Bytes>)
    requires {LEAF_TAG, BRANCH_TAG, TaggedMessage(sha, LEAF_TAG, msg), TaggedMessage(sha, BRANCH_TAG, msg')} <= messages
    requires TaggedHash(sha, LEAF_TAG, msg) == TaggedHash(sha, BRANCH_TAG, msg')
    ensures Collides(sha, messages)
  {
    TaggedHashBinding(sha, LEAF_TAG, msg, BRANCH_TAG, msg', messages);
    TagsDiffer();
  }

  lemma LeafBinding(sha: Sha256, version: byte, script: Script, version': byte, script': Script, messages: set<Bytes>)
    requires Hashed(sha, Leaf(version, script)) + Hashed(sha, Leaf(version', script')) <= messages
    requires TapleafHash(sha, version, script) == TapleafHash(sha, version', script')
    ensures (version == version' && script == script') || Collides(sha, messages)
  {
    var m, m' := LeafMessage(version, script), LeafMessage(version', script');
    TaggedHashBinding(sha, LEAF_TAG, m, LEAF_TAG, m', messages);
    if m == m' {
      LeafMessageInjective(version, script, version', script', [], []);
    }
  }

  lemma BranchBinding(sha: Sha256, a: Bytes32, b: Bytes32, c: Bytes32, d: Bytes32, messages: set<Bytes>)
    requires {BRANCH_TAG, TaggedMessage(sha, BRANCH_TAG, BranchMessage(a, b)),
              TaggedMessage(sha, BRANCH_TAG, BranchMessage(c, d))} <= messages
    requires TapbranchHash(sha, a, b) == TapbranchHash(sha, c, d)
    ensures (a == c && b == d) || (a == d && b == c) || Collides(sha, messages)
  {
    TaggedHashBinding(sha, BRANCH_TAG, BranchMessage(a, b), BRANCH_TAG, BranchMessage(c, d), messages);
    if BranchMessage(a, b) == BranchMessage(c, d) {
      BranchMessageInjective(a, b, c, d);
    }
  }

  /** Soundness of Merkle proofs against any tree: what is accepted opens the tree, sibling by sibling, or
      two of the strings hashed for the tree and the proof collide. */
  lemma {:induction false} ProofSoundness(sha: Sha256, t: ScriptTree, version: byte, script: Script,
                                          branch: seq<Bytes32>)
    requires Accepts(sha, t, version, script, branch)
    ensures Opens(sha, t, version, script, branch)
            || Collides(sha, Hashed(sha, t) + HashedByProof(sha, version, script, branch))
    decreases |branch|, 0
  {
    var messages := Hashed(sha, t) + HashedByProof(sha, version, script, branch);
    if branch == [] {
      match t
      case Leaf(version', script') => LeafBinding(sha, version, script, version', script', messages);
      case Branch(left, right) =>
        LeafIsNotBranch(sha, LeafMessage(version, script), BranchMessage(Root(sha, left), Root(sha, right)), messages);
    } else {
      var init, last := branch[..|branch| - 1], branch[|branch| - 1];
      var acc := FoldBranch(sha, TapleafHash(sha, version, script), init);
      match t
      case Leaf(version', script') =>
        LeafIsNotBranch(sha, LeafMessage(version', script'), BranchMessage(acc, last), messages);
      case Branch(left, right) =>
        BranchBinding(sha, acc, last, Root(sha, left), Root(sha, right), messages);
        if acc == Root(sha, left) {
          SoundnessBelow(sha, left, version, script, init, messages);
        }
        if acc == Root(sha, right) {
          SoundnessBelow(sha, right, version, script, init, messages);
        }
    }
  }

  lemma {:induction false} SoundnessBelow(sha: Sha256, t: ScriptTree, version: byte, script: Script,
                                          branch: seq<Bytes32>, messages: set<Bytes>)
    requires Accepts(sha, t, version, script, branch)
    requires Hashed(sha, t) + HashedByProof(sha, version, script, branch) <= messages
    ensures Opens(sha, t, version, script, branch) || Collides(sha, messages)
    decreases |branch|, 1
  {
    ProofSoundness(sha, t, version, script, branch);
    CollidesMonotone(sha, Hashed(sha, t) + HashedByProof(sha, version, script, branch), messages);
  }

  /** Conversely an opening is always accepted. */
  lemma {:induction false} OpeningIsAccepted(sha: Sha256, t: ScriptTree, version: byte, script: Script,
                                             branch: seq<Bytes32>)
    requires Opens(sha, t, version, script, branch)
    ensures Accepts(sha, t, version, script, branch)
  {
    if branch != [] {
      var init, last := branch[..|branch| - 1], branch[|branch| - 1];
      if last == Root(sha, t.right) && Opens(sha, t.left, version, script, init) {
        OpeningIsAccepted(sha, t.left, version, script, init);
      } else {
        OpeningIsAccepted(sha, t.right, version, script, init);
        BranchMessageSymmetric(Root(sha, t.left), Root(sha, t.right));
      }
    }
  }

  lemma {:induction false} OpeningOccurs(sha: Sha256, t: ScriptTree, version: byte, script: Script,
                                         branch: seq<Bytes32>)
    requires Opens(sha, t, version, script, branch)
    ensures OccursAtDepth(t, version, script, |branch|)
  {
    if branch != [] {
      var init, last := branch[..|branch| - 1], branch[|branch| - 1];
      if last == Root(sha, t.right) && Opens(sha, t.left, version, script, init) {
        OpeningOccurs(sha, t.left, version, script, init);
      } else {
        OpeningOccurs(sha, t.right, version, script, init);
      }
    }
  }

  /** Every occurrence has a branch that opens it. */
  lemma {:induction false} OccurrenceOpens(sha: Sha256, t: ScriptTree, version: byte, script: Script, depth: nat)
    returns (branch: seq<Bytes32>)
    requires OccursAtDepth(t, version, script, depth)
    ensures |branch| == depth && Opens(sha, t, version, script, branch)
  {
    if depth == 0 {
      branch := [];
    } else {
      var init;
      if OccursAtDepth(t.left, version, script, depth - 1) {
        init := OccurrenceOpens(sha, t.left, version, script, depth - 1);
        branch := init + [Root(sha, t.right)];
      } else {
        init := OccurrenceOpens(sha, t.right, version, script, depth - 1);
        branch := init + [Root(sha, t.left)];
      }
      assert branch[..|branch| - 1] == init;
    }
  }

  /** The leaves of a tree are exactly the leaves that have an accepted proof, at exactly the depth the proof
      is long, unless strings that were hashed collide. */
  lemma MerkleProofTheorem(sha: Sha256, t: ScriptTree, version: byte, script: Script)
    ensures forall branch :: Accepts(sha, t, version, script, branch) ==>
              OccursAtDepth(t, version, script, |branch|)
              || Collides(sha, Hashed(sha, t) + HashedByProof(sha, version, script, branch))
    ensures forall depth: nat :: OccursAtDepth(t, version, script, depth) ==>
              exists branch :: |branch| == depth && Accepts(sha, t, version, script, branch)
  {
    forall branch | Accepts(sha, t, version, script, branch)
      ensures OccursAtDepth(t, version, script, |branch|)
              || Collides(sha, Hashed(sha, t) + HashedByProof(sha, version, script, branch))
    {
      ProofSoundness(sha, t, version, script, branch);
      if Opens(sha, t, version, script, branch) {
        OpeningOccurs(sha, t, version, script, branch);
      }
    }
    forall depth: nat | OccursAtDepth(t, version, script, depth)
      ensures exists branch :: |branch| == depth && Accepts(sha, t, version, script, branch)
    {
      var branch := OccurrenceOpens(sha, t, version, script, depth);
      OpeningIsAccepted(sha, t, version, script, branch);
    }
  }

  // ----- what a root commits to ----------------------------------------

  /** The trees differ at most in the order of the two children of some branches. */
  predicate SameUpToSwaps(t: ScriptTree, u: ScriptTree) {
    match (t, u)
    case (Leaf(_, _), Leaf(_, _)) => t == u
    case (Branch(a, b), Branch(c, d)) =>
      (SameUpToSwaps(a, c) && SameUpToSwaps(b, d)) || (SameUpToSwaps(a, d) && SameUpToSwaps(b, c))
    case _ => false
  }

  /** A root determines the whole tree up to the swaps that sorting hides, or strings hashed for the two
      trees collide. */
  lemma {:induction false} RootBinding(sha: Sha256, t: ScriptTree, u: ScriptTree)
    requires Root(sha, t) == Root(sha, u)
    ensures SameUpToSwaps(t, u) || Collides(sha, Hashed(sha, t) + Hashed(sha, u))
    decreases t, 0
  {
    var messages := Hashed(sha, t) + Hashed(sha, u);
    match (t, u)
    case (Leaf(v, s), Leaf(v', s')) => LeafBinding(sha, v, s, v', s', messages);
    case (Leaf(v, s), Branch(c, d)) =>
      LeafIsNotBranch(sha, LeafMessage(v, s), BranchMessage(Root(sha, c), Root(sha, d)), messages);
    case (Branch(a, b), Leaf(v, s)) =>
      LeafIsNotBranch(sha, LeafMessage(v, s), BranchMessage(Root(sha, a), Root(sha, b)), messages);
    case (Branch(a, b), Branch(c, d)) =>
      BranchBinding(sha, Root(sha, a), Root(sha, b), Root(sha, c), Root(sha, d), messages);
      if Root(sha, a) == Root(sha, c) && Root(sha, b) == Root(sha, d) {
        BindingBelow(sha, a, c, messages);
        BindingBelow(sha, b, d, messages);
      } else if Root(sha, a) == Root(sha, d) && Root(sha, b) == Root(sha, c) {
        BindingBelow(sha, a, d, messages);
        BindingBelow(sha, b, c, messages);
      }
  }

  lemma {:induction false} BindingBelow(sha: Sha256, t: ScriptTree, u: ScriptTree, messages: set<Bytes>)
    requires Root(sha, t) == Root(sha, u)
    requires Hashed(sha, t) + Hashed(sha, u) <= messages
    ensures SameUpToSwaps(t, u) || Collides(sha, messages)
    decreases t, 1
  {
    RootBinding(sha, t, u);
    CollidesMonotone(sha, Hashed(sha, t) + Hashed(sha, u), messages);
  }

  /** Conversely swapping children never changes a root. */
  lemma {:induction false} SwapsKeepRoot(sha: Sha256, t: ScriptTree, u: ScriptTree)
    requires SameUpToSwaps(t, u)
    ensures Root(sha, t) == Root(sha, u)
    decreases t
  {
    if t.Branch? {
      if SameUpToSwaps(t.left, u.left) && SameUpToSwaps(t.right, u.right) {
        SwapsKeepRoot(sha, t.left, u.left);
        SwapsKeepRoot(sha, t.right, u.right);
      } else {
        SwapsKeepRoot(sha, t.left, u.right);
        SwapsKeepRoot(sha, t.right, u.left);
        BranchMessageSymmetric(Root(sha, t.left), Root(sha, t.right));
      }
    }
  }

  // ----- leaf depths and the Kraft sum ---------------------------------

  /** Depths of the leaves from left to right, the root of `t` being at depth `d`. */
  function LeafDepths(t: ScriptTree, d: nat): seq<nat> {
    match t
    case Leaf(_, _) => [d]
    case Branch(left, right) => LeafDepths(left, d + 1) + LeafDepths(right, d + 1)
  }

  /** 2 to the power -d. */
  function Half(d: nat): (r: real)
    ensures r > 0.0
  {
    if d == 0 then 1.0 else Half(d - 1) / 2.0
  }

  function KraftSum(depths: seq<nat>): (r: real)
    ensures r >= 0.0
  {
    if depths == [] then 0.0 else Half(depths[0]) + KraftSum(depths[1..])
  }

  lemma {:induction false} KraftSumConcat(a: seq<nat>, b: seq<nat>)
    ensures KraftSum(a + b) == KraftSum(a) + KraftSum(b)
  {
    if a == [] {
      assert a + b == b;
    } else {
      KraftSumConcat(a[1..], b);
      assert (a + b)[1..] == a[1..] + b;
    }
  }

  /** In every tree the leaf depths have Kraft sum exactly 1. */
  lemma {:induction false} TreeKraftSum(t: ScriptTree, d: nat)
    ensures KraftSum(LeafDepths(t, d)) == Half(d)
  {
    match t
    case Leaf(_, _) =>
      assert LeafDepths(t, d)[1..] == [];
    case Branch(left, right) =>
      TreeKraftSum(left, d + 1);
      TreeKraftSum(right, d + 1);
      KraftSumConcat(LeafDepths(left, d + 1), LeafDepths(right, d + 1));
  }
}
