/** The seal resolver: a decision over the answers of an arbitrary chain backend. */
module Resolver {
  import opened Wrappers
  import opened ByteStrings
  import opened Errors
  import opened SealTypes
  import opened Seals
  import opened Taproot
  import opened ScriptTrees
  import opened P2mrRet
  import opened Scanners
  import opened MemIndexers

  datatype InclusionProof = InclusionProof(txid: string, blockHash: string, proofHex: string)

  /** The answers a backend gives while one seal is resolved; nothing is assumed about them. */
  datatype Backend = Backend(
    networkId: BtqChainId,
    output: Outcome<Option<BtqTxOut>>,
    spendingTx: Outcome<Option<BtqTx>>,
    inclusion: string -> Outcome<InclusionProof>)

  datatype OutputFault = BadP2mrOutput | NonP2mrBtqOutput | WrongP2mrRoot | NotPqAlgo

  datatype UnknownReason =
    | WrongNetwork
    | OutpointMissing
    | BadOutput(fault: OutputFault)
    | MissingTx
    | MissingInclusionProof
    | DosLimitReached

  datatype InvalidReason = NotSpentByTx | WrongOwnershipPath | BadCommitment(scan: CommitmentScan)

  datatype SealState =
    | OpenUnspent
    | ClosedValid(spendingTxid: string, inclusion: InclusionProof, confirmations: u32)
    | ClosedInvalid(spendingTxid: string, reason: InvalidReason)
    | UnconfirmedSpend(txid: string)
    | ReorgRisk(txid: string, confirmations: u32, required: u32)
    | Unknown(why: UnknownReason)

  // ----- the decision --------------------------------------------------

  predicate IsPqOwnerAlgo(algo: PqSigAlgo) {
    algo.Dilithium2? || algo.Dilithium5?
  }

  /** Without a decoder for raw transactions this is answered with "yes". */
  predicate SpendsOutpoint(tx: BtqTx, seal: BtqP2mrSeal) {
    true
  }

  /** Without decoded outputs the opret scan finds nothing. */
  function ScanCommitment(tx: BtqTx, seal: BtqP2mrSeal): Outcome<CommitmentScan> {
    Success(ScanMissing)
  }

  function VerifyP2mrOutput(out: BtqTxOut, seal: BtqP2mrSeal): Result<(), OutputFault> {
    var spk := out.scriptPubkey;
    if |spk| != 34 then Failure(BadP2mrOutput)
    else if spk[0] != 0x52 || spk[1] != 0x20 then Failure(NonP2mrBtqOutput)
    else if spk[2..34] != seal.p2mrRoot then Failure(WrongP2mrRoot)
    else if !IsPqOwnerAlgo(seal.ownerAlgo) then Failure(NotPqAlgo)
    else Success(())
  }

  datatype SealResolver = SealResolver(backend: Backend, pqLeafScript: Option<Script>) {
    function ScanP2mrRetCommitment(sha: Sha256): Outcome<CommitmentScan> {
      if pqLeafScript.None? then Success(ScanMalformed("p2mr-ret: no PQ leaf configured on resolver"))
      else if TapleafHash(sha, LEAF_VERSION, pqLeafScript.value) == seq(32, _ => 0)
      then Success(ScanMalformed("p2mr-ret: invalid PQ leaf hash"))
      else Success(ScanFound)
    }

    function ResolveClose(sha: Sha256, seal: BtqP2mrSeal, tx: BtqTx): Outcome<SealState> {
      if !SpendsOutpoint(tx, seal) then Success(ClosedInvalid(tx.txid, NotSpentByTx))
      else if !IsPqOwnerAlgo(seal.ownerAlgo) then Success(ClosedInvalid(tx.txid, WrongOwnershipPath))
      else
        var scan :- if seal.commitmentLocator.IsP2mrRet() then ScanP2mrRetCommitment(sha) else ScanCommitment(tx, seal);
        if scan != ScanFound then Success(ClosedInvalid(tx.txid, BadCommitment(scan)))
        else
          var required := seal.confirmationPolicy.RequiredDepth();
          if tx.status.Unconfirmed? then Success(UnconfirmedSpend(tx.txid))
          else if tx.status.confirmations < required then Success(ReorgRisk(tx.txid, tx.status.confirmations, required))
          else match backend.inclusion(tx.txid)
            case Failure(_) => Success(Unknown(MissingInclusionProof))
            case Success(proof) => Success(ClosedValid(tx.txid, proof, tx.status.Confirmations()))
    }

    function ResolveInner(sha: Sha256, seal: BtqP2mrSeal): Outcome<SealState> {
      if backend.networkId != seal.chainId then Success(Unknown(WrongNetwork))
      else
        var output :- backend.output;
        if output.None? then Success(Unknown(OutpointMissing))
        else
          var checked := VerifyP2mrOutput(output.value, seal);
          if checked.Failure? then Success(Unknown(BadOutput(checked.error)))
          else if !output.value.spent then Success(OpenUnspent)
          else
            var tx :- backend.spendingTx;
            if tx.None? then Success(Unknown(MissingTx)) else ResolveClose(sha, seal, tx.value)
    }

    /** The time guard of the source is started here and never checked. */
    function Resolve(sha: Sha256, seal: BtqP2mrSeal): Outcome<SealState> {
      match ResolveInner(sha, seal)
      case Success(state) => Success(state)
      case Failure(e) => if e.DosLimit? then Success(Unknown(DosLimitReached)) else Failure(e)
    }
  }

  // ----- what the verdicts mean ----------------------------------------

  /** The output script that pays to a P2MR root. */
  function P2mrScript(root: Bytes32): Bytes {
    [0x52, 0x20] + root
  }

  lemma OutputExact(out: BtqTxOut, seal: BtqP2mrSeal)
    ensures VerifyP2mrOutput(out, seal).Success? <==> out.scriptPubkey == P2mrScript(seal.p2mrRoot)
    ensures P2mrScript(seal.p2mrRoot) == [0x52, 0x20] + seal.p2mrRoot
  {
    var spk := out.scriptPubkey;
    if VerifyP2mrOutput(out, seal).Success? {
      assert spk == [spk[0], spk[1]] + spk[2..34];
    }
    if spk == P2mrScript(seal.p2mrRoot) {
      assert spk[2..34] == seal.p2mrRoot;
    }
  }

  /** The backend is on the seal's chain, reports the outpoint as a spent P2MR output with the seal's root, and
      names the transaction that spends it. */
  ghost predicate SpendKnown(r: SealResolver, seal: BtqP2mrSeal, tx: BtqTx) {
    && r.backend.networkId == seal.chainId
    && (exists out: BtqTxOut :: r.backend.output == Success(Some(out)) && out.spent
                                && out.scriptPubkey == P2mrScript(seal.p2mrRoot))
    && r.backend.spendingTx == Success(Some(tx))
  }

  /** All that is asked about the commitment: a p2mr-ret seal, and a configured PQ leaf whose hash is not zero. */
  predicate LeafConfigured(r: SealResolver, sha: Sha256, seal: BtqP2mrSeal) {
    && seal.commitmentLocator == P2mrRetLeaf
    && r.pqLeafScript.Some?
    && TapleafHash(sha, LEAF_VERSION, r.pqLeafScript.value) != seq(32, _ => 0)
  }

  /** Which fault an output has: the first check that fails, and never the last one. */
  lemma OutputFaultExact(out: BtqTxOut, seal: BtqP2mrSeal)
    requires VerifyP2mrOutput(out, seal).Failure?
    ensures VerifyP2mrOutput(out, seal).error ==
      if |out.scriptPubkey| != 34 then BadP2mrOutput
      else if out.scriptPubkey[..2] != [0x52, 0x20] then NonP2mrBtqOutput
      else WrongP2mrRoot
  {
    if |out.scriptPubkey| == 34 {
      assert out.scriptPubkey[..2] == [out.scriptPubkey[0], out.scriptPubkey[1]];
    }
  }

  /** The verdict "validly closed", for every backend and every seal: given exactly for a known spend that is
      confirmed to the policy's depth (never less than one) and proved included, under a configured leaf. */
  lemma ClosedValidExact(r: SealResolver, sha: Sha256, seal: BtqP2mrSeal, txid: string, proof: InclusionProof,
                         confirmations: u32)
    ensures r.Resolve(sha, seal) == Success(ClosedValid(txid, proof, confirmations)) <==>
      && (exists tx: BtqTx :: SpendKnown(r, seal, tx) && tx.txid == txid
                              && tx.status.Confirmed? && tx.status.confirmations == confirmations)
      && confirmations >= 1
      && (seal.confirmationPolicy.Depth? ==> confirmations >= seal.confirmationPolicy.n)
      && r.backend.inclusion(txid) == Success(proof)
      && LeafConfigured(r, sha, seal)
  {
    if r.backend.output.Success? && r.backend.output.value.Some? {
      OutputExact(r.backend.output.value.value, seal);
    }
  }

  /** "Invalidly closed" has one cause each for opret and p2mr-ret seals, and says nothing about the spending
      transaction: an opret seal is always answered with a missing commitment, a p2mr-ret seal exactly when no
      usable leaf is configured. The other two reasons never arise. */
  lemma ClosedInvalidExact(r: SealResolver, sha: Sha256, seal: BtqP2mrSeal, txid: string, reason: InvalidReason)
    ensures r.Resolve(sha, seal) == Success(ClosedInvalid(txid, reason)) <==>
      && (exists tx: BtqTx :: SpendKnown(r, seal, tx) && tx.txid == txid)
      && !LeafConfigured(r, sha, seal)
      && reason == BadCommitment(
           if seal.commitmentLocator != P2mrRetLeaf then ScanMissing
           else if r.pqLeafScript.None? then ScanMalformed("p2mr-ret: no PQ leaf configured on resolver")
           else ScanMalformed("p2mr-ret: invalid PQ leaf hash"))
  {
    if r.backend.output.Success? && r.backend.output.value.Some? {
      OutputExact(r.backend.output.value.value, seal);
    }
  }

  /** "Unconfirmed" and "reorg risk" are answered exactly for known spends that have not reached the depth. */
  lemma PendingExact(r: SealResolver, sha: Sha256, seal: BtqP2mrSeal, txid: string, confirmations: u32,
                     required: u32)
    ensures r.Resolve(sha, seal) == Success(UnconfirmedSpend(txid)) <==>
      && (exists tx: BtqTx :: SpendKnown(r, seal, tx) && tx.txid == txid && tx.status.Unconfirmed?)
      && LeafConfigured(r, sha, seal)
    ensures r.Resolve(sha, seal) == Success(ReorgRisk(txid, confirmations, required)) <==>
      && (exists tx: BtqTx :: SpendKnown(r, seal, tx) && tx.txid == txid
                              && tx.status.Confirmed? && tx.status.confirmations == confirmations)
      && required == seal.confirmationPolicy.RequiredDepth() > confirmations
      && LeafConfigured(r, sha, seal)
  {
    if r.backend.output.Success? && r.backend.output.value.Some? {
      OutputExact(r.backend.output.value.value, seal);
    }
  }

  /** "Open" is answered exactly for an unspent output of the seal's chain that pays to the seal's root. */
  lemma OpenExact(r: SealResolver, sha: Sha256, seal: BtqP2mrSeal)
    ensures r.Resolve(sha, seal) == Success(OpenUnspent) <==>
      && r.backend.networkId == seal.chainId
      && exists out: BtqTxOut :: r.backend.output == Success(Some(out)) && !out.spent
                                 && out.scriptPubkey == P2mrScript(seal.p2mrRoot)
  {
    if r.backend.output.Success? && r.backend.output.value.Some? {
      OutputExact(r.backend.output.value.value, seal);
    }
  }

  /** The output is spent and pays to the seal's root. */
  ghost predicate SpentOutput(r: SealResolver, seal: BtqP2mrSeal) {
    exists out: BtqTxOut :: r.backend.output == Success(Some(out)) && out.spent
                            && out.scriptPubkey == P2mrScript(seal.p2mrRoot)
  }

  /** A query the resolution depends on failed: the output's, or, for a spent output, the spending transaction's. */
  ghost predicate QueryFailed(r: SealResolver, seal: BtqP2mrSeal, e: RgbPqError) {
    && r.backend.networkId == seal.chainId
    && (r.backend.output == Failure(e) || (SpentOutput(r, seal) && r.backend.spendingTx == Failure(e)))
  }

  /** A resolution fails exactly with the error of such a query, unless that is a breached limit. */
  lemma FailureExact(r: SealResolver, sha: Sha256, seal: BtqP2mrSeal, e: RgbPqError)
    ensures r.Resolve(sha, seal) == Failure(e) <==> QueryFailed(r, seal, e) && !e.DosLimit?
  {
    if r.backend.output.Success? && r.backend.output.value.Some? {
      OutputExact(r.backend.output.value.value, seal);
    }
  }

  /** Each reason for "unknown", for every backend: exactly when it is given. */
  lemma UnknownExact(r: SealResolver, sha: Sha256, seal: BtqP2mrSeal, why: UnknownReason)
    ensures r.Resolve(sha, seal) == Success(Unknown(why)) <==>
      match why
      case WrongNetwork => r.backend.networkId != seal.chainId
      case OutpointMissing => r.backend.networkId == seal.chainId && r.backend.output == Success(None)
      case BadOutput(fault) =>
        r.backend.networkId == seal.chainId
        && exists out :: r.backend.output == Success(Some(out)) && VerifyP2mrOutput(out, seal) == Failure(fault)
      case MissingTx =>
        r.backend.networkId == seal.chainId && SpentOutput(r, seal) && r.backend.spendingTx == Success(None)
      case MissingInclusionProof =>
        LeafConfigured(r, sha, seal)
        && exists tx :: SpendKnown(r, seal, tx) && tx.status.Confirmed?
                        && tx.status.confirmations >= seal.confirmationPolicy.RequiredDepth()
                        && r.backend.inclusion(tx.txid).Failure?
      case DosLimitReached => exists breach :: QueryFailed(r, seal, DosLimit(breach))
  {
    if r.backend.output.Success? && r.backend.output.value.Some? {
      OutputExact(r.backend.output.value.value, seal);
    }
    if r.backend.output.Failure? && r.backend.output.error.DosLimit? {
      assert r.backend.output == Failure(DosLimit(r.backend.output.error.breach));
    }
    if r.backend.spendingTx.Failure? && r.backend.spendingTx.error.DosLimit? {
      assert r.backend.spendingTx == Failure(DosLimit(r.backend.spendingTx.error.breach));
    }
  }

  /** Where a close stands on the way to finality. */
  function Stage(state: SealState): nat {
    match state
    case UnconfirmedSpend(_) => 0
    case ReorgRisk(_, _, _) => 1
    case _ => 2
  }

  function WithStatus(r: SealResolver, status: TxStatus): SealResolver {
    match r.backend.spendingTx
    case Success(Some(tx)) => r.(backend := r.backend.(spendingTx := Success(Some(tx.(status := status)))))
    case _ => r
  }

  /** The verdict on a standing spend by `txid` with this status: unconfirmed, reorg risk below the required
      depth, and from there on what the inclusion proof decides. */
  predicate StandsAt(verdict: Outcome<SealState>, txid: string, status: TxStatus, required: u32,
                     inclusion: string -> Outcome<InclusionProof>)
  {
    match status
    case Unconfirmed => verdict == Success(UnconfirmedSpend(txid))
    case Confirmed(_, _, confirmations, _) =>
      && (confirmations < required ==> verdict == Success(ReorgRisk(txid, confirmations, required)))
      && (confirmations >= required && inclusion(txid).Success? ==>
            verdict == Success(ClosedValid(txid, inclusion(txid).value, confirmations)))
      && (confirmations >= required && inclusion(txid).Failure? ==> verdict == Success(Unknown(MissingInclusionProof)))
  }

  /** The later verdict is the earlier one moved on: a spend on its way to finality stands where its new status
      puts it, a valid close stays one with the new number, and every other answer is final. */
  predicate MovesOn(earlier: Outcome<SealState>, later: Outcome<SealState>, status: TxStatus, required: u32,
                    inclusion: string -> Outcome<InclusionProof>)
  {
    match earlier
    case Success(UnconfirmedSpend(txid)) => StandsAt(later, txid, status, required, inclusion)
    case Success(ReorgRisk(txid, _, required')) =>
      required' == required && status.Confirmed? && StandsAt(later, txid, status, required, inclusion)
    case Success(ClosedValid(txid, proof, _)) =>
      status.Confirmed? && later == Success(ClosedValid(txid, proof, status.confirmations))
    case _ => later == earlier
  }

  lemma CloseMovesOn(r: SealResolver, r': SealResolver, sha: Sha256, seal: BtqP2mrSeal, before: BtqTx, after: BtqTx)
    requires r'.pqLeafScript == r.pqLeafScript && r'.backend.inclusion == r.backend.inclusion
    requires after == before.(status := after.status)
    requires before.status.Unconfirmed? ||
             (after.status.Confirmed? && before.status.confirmations <= after.status.confirmations)
    ensures MovesOn(r.ResolveClose(sha, seal, before), r'.ResolveClose(sha, seal, after), after.status,
                    seal.confirmationPolicy.RequiredDepth(), r.backend.inclusion)
  {
  }

  lemma InnerMovesOn(r: SealResolver, sha: Sha256, seal: BtqP2mrSeal, before: TxStatus, after: TxStatus)
    requires before.Unconfirmed? || (after.Confirmed? && before.confirmations <= after.confirmations)
    ensures MovesOn(WithStatus(r, before).ResolveInner(sha, seal), WithStatus(r, after).ResolveInner(sha, seal),
                    after, seal.confirmationPolicy.RequiredDepth(), r.backend.inclusion)
  {
    var earlier, later := WithStatus(r, before), WithStatus(r, after);
    if r.backend.spendingTx.Success? && r.backend.spendingTx.value.Some? {
      var tx := r.backend.spendingTx.value.value;
      CloseMovesOn(earlier, later, sha, seal, tx.(status := before), tx.(status := after));
    } else {
      assert earlier == later == r;
    }
  }

  /** All other answers fixed, more confirmations move a verdict on and never back. */
  lemma ConfirmationsMonotone(r: SealResolver, sha: Sha256, seal: BtqP2mrSeal, before: TxStatus, after: TxStatus)
    requires before.Unconfirmed? || (after.Confirmed? && before.confirmations <= after.confirmations)
    ensures MovesOn(WithStatus(r, before).Resolve(sha, seal), WithStatus(r, after).Resolve(sha, seal),
                    after, seal.confirmationPolicy.RequiredDepth(), r.backend.inclusion)
    ensures var earlier, later := WithStatus(r, before).Resolve(sha, seal), WithStatus(r, after).Resolve(sha, seal);
      earlier.Success? ==> later.Success? && Stage(earlier.value) <= Stage(later.value)
  {
    InnerMovesOn(r, sha, seal, before, after);
  }

  /** A verdict never depends on the seal's script leaf hash, which is not read. */
  lemma LeafHashUnread(r: SealResolver, sha: Sha256, seal: BtqP2mrSeal, hash: Bytes32)
    ensures r.Resolve(sha, seal.(scriptLeafHash := hash)) == r.Resolve(sha, seal)
  {
  }

  /** Nor does it depend on the bytes of the spending transaction, nor on which PQ leaf is configured as long as
      its hash is not zero: neither is compared with the seal. */
  lemma VerdictIgnores(r: SealResolver, sha: Sha256, seal: BtqP2mrSeal, raw: Bytes, leaf: Script)
    ensures r.pqLeafScript.Some?
            && TapleafHash(sha, LEAF_VERSION, r.pqLeafScript.value) != seq(32, _ => 0)
            && TapleafHash(sha, LEAF_VERSION, leaf) != seq(32, _ => 0) ==>
              r.(pqLeafScript := Some(leaf)).Resolve(sha, seal) == r.Resolve(sha, seal)
    ensures r.backend.spendingTx.Success? && r.backend.spendingTx.value.Some? ==>
      var tx := r.backend.spendingTx.value.value;
      r.(backend := r.backend.(spendingTx := Success(Some(tx.(raw := raw))))).Resolve(sha, seal) == r.Resolve(sha, seal)
  {
  }

  /** So the configured leaf is no evidence about the seal: a seal that commits to `mpc` beside one PQ leaf, and
      is reported validly closed with it, is reported the same with any other leaf that is no commitment leaf
      and has a non-zero hash, although with that leaf no commitment at all verifies against the seal, or
      strings hashed for the two trees collide. */
  lemma OtherLeafSameVerdict(r: SealResolver, sha: Sha256, seal: BtqP2mrSeal, mpc: Bytes32, pq: Script, pq': Script,
                             limits: VerifyLimits, mpc': Bytes32, limits': VerifyLimits)
    requires r.pqLeafScript == Some(pq)
    requires r.Resolve(sha, seal).Success? && r.Resolve(sha, seal).value.ClosedValid?
    requires VerifyP2mrRetBounded(sha, seal, mpc, pq, limits).Success?
    requires pq' != pq && TapleafHash(sha, LEAF_VERSION, pq') != seq(32, _ => 0)
    requires forall m: Bytes32 :: pq' != LeafScript(seal.chainId, m)
    ensures r.(pqLeafScript := Some(pq')).Resolve(sha, seal) == r.Resolve(sha, seal)
    ensures VerifyP2mrRetBounded(sha, seal, mpc', pq', limits').Failure?
            || Collides(sha, Hashed(sha, TwoLeaves(seal.chainId, mpc', pq'))
                             + Hashed(sha, TwoLeaves(seal.chainId, mpc, pq)))
  {
    var state := r.Resolve(sha, seal).value;
    ClosedValidExact(r, sha, seal, state.spendingTxid, state.inclusion, state.confirmations);
    VerdictIgnores(r, sha, seal, [], pq');
    if VerifyP2mrRetBounded(sha, seal, mpc', pq', limits').Success? {
      CommitmentUnique(sha, seal, mpc', pq', mpc, pq, limits', limits);
    }
  }

  /** An opret seal whose output is spent by a known transaction is always reported as closed without a
      commitment; so it is never reported as validly closed, nor as on its way there. */
  lemma OpretNeverValid(r: SealResolver, sha: Sha256, seal: BtqP2mrSeal)
    requires !seal.commitmentLocator.P2mrRetLeaf?
    ensures forall tx: BtqTx :: SpendKnown(r, seal, tx) ==>
              r.Resolve(sha, seal) == Success(ClosedInvalid(tx.txid, BadCommitment(ScanMissing)))
    ensures r.Resolve(sha, seal).Success? ==> var state := r.Resolve(sha, seal).value;
      && !state.ClosedValid? && !state.UnconfirmedSpend? && !state.ReorgRisk?
      && (state.ClosedInvalid? ==>
            state.reason == BadCommitment(ScanMissing) && exists tx: BtqTx :: SpendKnown(r, seal, tx))
  {
    forall tx: BtqTx | SpendKnown(r, seal, tx)
      ensures r.Resolve(sha, seal) == Success(ClosedInvalid(tx.txid, BadCommitment(ScanMissing)))
    {
      ClosedInvalidExact(r, sha, seal, tx.txid, BadCommitment(ScanMissing));
    }
    if r.Resolve(sha, seal).Success? {
      match r.Resolve(sha, seal).value
      case ClosedInvalid(txid, reason) => ClosedInvalidExact(r, sha, seal, txid, reason);
      case ClosedValid(txid, proof, confirmations) => ClosedValidExact(r, sha, seal, txid, proof, confirmations);
      case UnconfirmedSpend(txid) => PendingExact(r, sha, seal, txid, 0, 0);
      case ReorgRisk(txid, confirmations, required) => PendingExact(r, sha, seal, txid, confirmations, required);
      case _ =>
    }
  }

  /** The RPC backend reports a spent output without its script. */
  predicate AnswersLikeRpc(b: Backend) {
    b.output.Success? && b.output.value.Some? && b.output.value.value.spent ==> b.output.value.value.scriptPubkey == []
  }

  /** So over it alone a resolution ends as open, unknown, or the failure to fetch the output; and a spent output
      of the seal's chain always ends as a malformed output, before its spending transaction is asked for. */
  lemma RpcBackendNeverCloses(r: SealResolver, sha: Sha256, seal: BtqP2mrSeal)
    requires AnswersLikeRpc(r.backend)
    ensures match r.Resolve(sha, seal)
      case Success(state) => state.OpenUnspent? || state.Unknown?
      case Failure(e) => r.backend.output == Failure(e)
    ensures forall e :: r.Resolve(sha, seal) == Failure(e) <==>
      r.backend.networkId == seal.chainId && r.backend.output == Failure(e) && !e.DosLimit?
    ensures r.backend.networkId == seal.chainId && r.backend.output.Success? && r.backend.output.value.Some?
            && r.backend.output.value.value.spent ==>
              r.Resolve(sha, seal) == Success(Unknown(BadOutput(BadP2mrOutput)))
  {
    forall e
      ensures r.Resolve(sha, seal) == Failure(e) <==>
        r.backend.networkId == seal.chainId && r.backend.output == Failure(e) && !e.DosLimit?
    {
      FailureExact(r, sha, seal, e);
    }
  }
}
