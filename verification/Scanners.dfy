/** The bounded scanner of the resolver and the transaction scanner, and how the three scanners agree. */
module Scanners {
  import opened Wrappers
  import opened ByteStrings
  import opened Errors
  import opened SealTypes
  import opened Seals
  import opened Commitments

  // ----- the bounded scanner -------------------------------------------

  datatype CommitmentScan =
    | ScanFound
    | ScanMissing
    | ScanDuplicate
    | ScanMalformed(detail: string)
    | ScanWrongChain
    | ScanWrongSeal

  /** Whether the wall-clock budget has run out at the k-th check: an arbitrary oracle. */
  type BudgetGuard = nat -> bool

  /** The first check that fails on the outputs from the k-th on. */
  function CheckOutputs(limits: VerifyLimits, expired: BudgetGuard, outputs: seq<(u32, Bytes)>, k: nat): Outcome<()>
    requires k <= |outputs|
    decreases |outputs| - k
  {
    if k == |outputs| then Success(())
    else
      var _ :- limits.CheckScanWindow(k + 1);
      var _ :- limits.CheckLeafSize(|outputs[k].1|);
      if expired(k) then Failure(DosLimit(ResolverTimeExceeded)) else CheckOutputs(limits, expired, outputs, k + 1)
  }

  function Judge(seal: BtqP2mrSeal, hits: seq<(u32, RgbPqCommitment)>): CommitmentScan {
    if |hits| == 0 then ScanMissing
    else if |hits| > 1 then ScanDuplicate
    else match hits[0].1.VerifyAgainst(seal)
      case Success(_) => ScanFound
      case Failure(e) => if e == WrongChain then ScanWrongChain else ScanWrongSeal
  }

  function BoundedScan(sha: Sha256, seal: BtqP2mrSeal, outputs: seq<(u32, Bytes)>, limits: VerifyLimits,
                       expired: BudgetGuard): Outcome<CommitmentScan>
  {
    var _ :- CheckOutputs(limits, expired, outputs, 0);
    Success(Judge(seal, Hits(sha, outputs)))
  }

  method VerifyCommitmentInOutputsBounded(sha: Sha256, seal: BtqP2mrSeal, outputs: seq<(u32, Bytes)>,
                                          limits: VerifyLimits, expired: BudgetGuard)
    returns (r: Outcome<CommitmentScan>)
    ensures r == BoundedScan(sha, seal, outputs, limits, expired)
  {
    var hits: seq<(u32, RgbPqCommitment)> := [];
    var scanned := 0;
    for k := 0 to |outputs|
      invariant scanned == k
      invariant hits == Hits(sha, outputs[..k])
      invariant CheckOutputs(limits, expired, outputs, 0) == CheckOutputs(limits, expired, outputs, k)
    {
      var (vout, spk) := outputs[k];
      scanned := scanned + 1;
      var _ :- limits.CheckScanWindow(scanned);
      var _ :- limits.CheckLeafSize(|spk|);
      if expired(k) {
        return Failure(DosLimit(ResolverTimeExceeded));
      }
      assert outputs[..k + 1][..k] == outputs[..k];
      var payload := StripOpReturn(spk);
      if payload.Some? {
        var c := Decode(sha, payload.value);
        if c.Success? {
          hits := hits + [(vout, c.value)];
        }
      }
    }
    assert outputs[..|outputs|] == outputs;
    if hits == [] {
      return Success(ScanMissing);
    }
    if |hits| > 1 {
      return Success(ScanDuplicate);
    }
    var c := hits[0].1;
    if c.chain != seal.chainId {
      return Success(ScanWrongChain);
    }
    if c.sealTxid != seal.outpoint.txid || c.sealVout != seal.outpoint.vout {
      return Success(ScanWrongSeal);
    }
    r := Success(ScanFound);
  }

  /** The scanner answers exactly when every output is within the window, within the size limit and in time;
      an answer is never about a part of the list. */
  lemma {:induction false} CheckOutputsExact(limits: VerifyLimits, expired: BudgetGuard, outputs: seq<(u32, Bytes)>,
                                             k: nat)
    requires k <= |outputs|
    ensures CheckOutputs(limits, expired, outputs, k).Success? <==>
              && (k < |outputs| ==> |outputs| <= limits.maxScanWindow)
              && forall i :: k <= i < |outputs| ==> |outputs[i].1| <= limits.maxLeafSize && !expired(i)
    decreases |outputs| - k
  {
    if k < |outputs| {
      CheckOutputsExact(limits, expired, outputs, k + 1);
    }
  }

  /** The check on one output: a full window, an oversized script and an expired budget, in this order. */
  predicate BreachedAt(limits: VerifyLimits, expired: BudgetGuard, outputs: seq<(u32, Bytes)>, k: nat, e: RgbPqError)
    requires k < |outputs|
  {
    e == DosLimit(
      if k + 1 > limits.maxScanWindow then ScanWindowExceeded(k + 1, limits.maxScanWindow)
      else if |outputs[k].1| > limits.maxLeafSize then LeafSizeExceeded(|outputs[k].1|, limits.maxLeafSize)
      else ResolverTimeExceeded)
  }

  predicate WithinAt(limits: VerifyLimits, expired: BudgetGuard, outputs: seq<(u32, Bytes)>, k: nat)
    requires k < |outputs|
  {
    k + 1 <= limits.maxScanWindow && |outputs[k].1| <= limits.maxLeafSize && !expired(k)
  }

  predicate FirstBreachAt(limits: VerifyLimits, expired: BudgetGuard, outputs: seq<(u32, Bytes)>, k: nat, n: nat,
                          e: RgbPqError)
  {
    && k <= n < |outputs|
    && !WithinAt(limits, expired, outputs, n) && BreachedAt(limits, expired, outputs, n, e)
    && forall i :: k <= i < n ==> WithinAt(limits, expired, outputs, i)
  }

  /** Which error the scanner fails with: the first breach at the first output that has one. */
  lemma {:induction false} FirstBreach(limits: VerifyLimits, expired: BudgetGuard, outputs: seq<(u32, Bytes)>,
                                       k: nat, e: RgbPqError)
    requires k <= |outputs|
    ensures CheckOutputs(limits, expired, outputs, k) == Failure(e) <==>
      exists n: nat :: FirstBreachAt(limits, expired, outputs, k, n, e)
    decreases |outputs| - k
  {
    if k < |outputs| {
      var next := k + 1;
      FirstBreach(limits, expired, outputs, next, e);
      if WithinAt(limits, expired, outputs, k) {
        if n: nat :| FirstBreachAt(limits, expired, outputs, next, n, e) {
          assert FirstBreachAt(limits, expired, outputs, k, n, e);
        }
        if n: nat :| FirstBreachAt(limits, expired, outputs, k, n, e) {
          assert FirstBreachAt(limits, expired, outputs, next, n, e);
        }
      } else {
        assert forall n: nat :: FirstBreachAt(limits, expired, outputs, k, n, e) ==> n == k;
        assert FirstBreachAt(limits, expired, outputs, k, k, e) <==> BreachedAt(limits, expired, outputs, k, e);
      }
    }
  }

  // ----- what the answers say of the scripts ---------------------------

  /** The script carries a commitment for the seal. */
  ghost predicate ForSeal(sha: Sha256, seal: BtqP2mrSeal, spk: Bytes) {
    exists mpc: Bytes32 :: spk == OpReturnScript(NewCommitment(seal, mpc).Encoding(sha))
  }

  /** The k-th script carries `c`, and no other script carries any commitment. */
  ghost predicate OnlyCarrier(sha: Sha256, outputs: seq<(u32, Bytes)>, k: nat, c: RgbPqCommitment) {
    && k < |outputs| && outputs[k].1 == OpReturnScript(c.Encoding(sha))
    && forall j :: 0 <= j < |outputs| && j != k ==> !Carries(sha, outputs[j].1)
  }

  ghost predicate Carries(sha: Sha256, spk: Bytes) {
    exists c: RgbPqCommitment :: spk == OpReturnScript(c.Encoding(sha))
  }

  lemma CarriesExact(sha: Sha256, spk: Bytes)
    ensures Carries(sha, spk) <==> CommitmentIn(sha, spk).Some?
  {
    if c: RgbPqCommitment :| spk == OpReturnScript(c.Encoding(sha)) {
      CommitmentInExact(sha, spk, c);
    }
    if CommitmentIn(sha, spk).Some? {
      CommitmentInExact(sha, spk, CommitmentIn(sha, spk).value);
    }
  }

  lemma OnlyCarrierHit(sha: Sha256, outputs: seq<(u32, Bytes)>, k: nat, c: RgbPqCommitment)
    requires OnlyCarrier(sha, outputs, k, c)
    ensures Hits(sha, outputs) == [(outputs[k].0, c)]
  {
    CommitmentInExact(sha, outputs[k].1, c);
    forall j | 0 <= j < |outputs| && j != k
      ensures CommitmentIn(sha, outputs[j].1).None?
    {
      CarriesExact(sha, outputs[j].1);
    }
    OneHit(sha, outputs, k);
  }

  lemma CarrierOfOnlyHit(sha: Sha256, outputs: seq<(u32, Bytes)>) returns (k: nat)
    requires |Hits(sha, outputs)| == 1
    ensures OnlyCarrier(sha, outputs, k, Hits(sha, outputs)[0].1)
  {
    var h := Hits(sha, outputs)[0];
    HitsMembers(sha, outputs, h);
    k :| 0 <= k < |outputs| && outputs[k] == (h.0, OpReturnScript(h.1.Encoding(sha)));
    CommitmentInExact(sha, outputs[k].1, h.1);
    forall j | 0 <= j < |outputs| && j != k
      ensures !Carries(sha, outputs[j].1)
    {
      CarriesExact(sha, outputs[j].1);
      if CommitmentIn(sha, outputs[j].1).Some? {
        TwoHits(sha, outputs, if j < k then j else k, if j < k then k else j);
      }
    }
  }

  /** Every answer of the bounded scanner in terms of the scripts alone: with a single carrying output the answer
      is found, wrong chain or wrong seal by comparing chain and outpoint of its commitment with the seal's. */
  lemma BoundedAnswerExact(sha: Sha256, seal: BtqP2mrSeal, outputs: seq<(u32, Bytes)>, limits: VerifyLimits,
                           expired: BudgetGuard)
    requires BoundedScan(sha, seal, outputs, limits, expired).Success?
    ensures var answer := BoundedScan(sha, seal, outputs, limits, expired).value;
      && (answer == ScanMissing <==> forall k :: 0 <= k < |outputs| ==> !Carries(sha, outputs[k].1))
      && (answer == ScanFound <==>
            exists k: nat, mpc: Bytes32 :: OnlyCarrier(sha, outputs, k, NewCommitment(seal, mpc)))
      && (answer == ScanWrongChain <==>
            exists k: nat, c :: OnlyCarrier(sha, outputs, k, c) && c.chain != seal.chainId)
      && (answer == ScanWrongSeal <==>
            exists k: nat, c :: OnlyCarrier(sha, outputs, k, c) && c.chain == seal.chainId
                           && BtqOutpoint(c.sealTxid, c.sealVout) != seal.outpoint)
      && !answer.ScanMalformed?
  {
    var hits := Hits(sha, outputs);
    NoCarriers(sha, outputs);
    forall k: nat, c | OnlyCarrier(sha, outputs, k, c)
      ensures hits == [(outputs[k].0, c)]
    {
      OnlyCarrierHit(sha, outputs, k, c);
    }
    if |hits| == 1 {
      var c := hits[0].1;
      var k := CarrierOfOnlyHit(sha, outputs);
      VerifyAgainstExact(c, seal);
      assert OnlyCarrier(sha, outputs, k, c);
      if c == NewCommitment(seal, c.mpc) {
        assert OnlyCarrier(sha, outputs, k, NewCommitment(seal, c.mpc));
      }
    }
  }

  lemma NoCarriers(sha: Sha256, outputs: seq<(u32, Bytes)>)
    ensures Hits(sha, outputs) == [] <==> forall k :: 0 <= k < |outputs| ==> !Carries(sha, outputs[k].1)
  {
    NoHits(sha, outputs);
    forall k | 0 <= k < |outputs|
      ensures Carries(sha, outputs[k].1) <==> CommitmentIn(sha, outputs[k].1).Some?
    {
      CarriesExact(sha, outputs[k].1);
    }
  }

  // ----- transactions --------------------------------------------------

  datatype TxOut = TxOut(value: u64, scriptPubkey: Bytes)

  /** A transaction: its outputs, and everything else as bytes nobody here looks into. */
  datatype TxData = TxData(rest: Bytes, output: seq<TxOut>)

  /** The external codecs: arbitrary functions, of which the first and the third may refuse. */
  datatype TxCodec = TxCodec(
    hexDecode: string -> Option<Bytes>,
    hexEncode: Bytes -> string,
    deserialize: Bytes -> Option<TxData>,
    serialize: TxData -> Bytes)
  {
    function Decode(hex: string, hexFault: string): Outcome<TxData> {
      var raw := hexDecode(hex);
      if raw.None? then Failure(Malformed(hexFault))
      else
        var tx := deserialize(raw.value);
        if tx.None? then Failure(Malformed("tx deserialize")) else Success(tx.value)
    }

    function Encode(tx: TxData): string {
      hexEncode(serialize(tx))
    }
  }

  class Transaction {
    var rest: Bytes
    var output: seq<TxOut>

    function Data(): TxData
      reads this
    {
      TxData(rest, output)
    }

    constructor (tx: TxData)
      ensures Data() == tx
    {
      rest, output := tx.rest, tx.output;
    }

    method PushOutput(out: TxOut)
      modifies this`output
      ensures Data() == TxData(old(rest), old(output) + [out])
    {
      output := output + [out];
    }
  }

  /** The transaction with the OP_RETURN output for `seal` as its last output. */
  function Appended(sha: Sha256, tx: TxData, seal: BtqP2mrSeal, mpc: Bytes32): TxData {
    tx.(output := tx.output + [CommitmentOutput(sha, NewCommitment(seal, mpc))])
  }

  /** Appending changes nothing but the output list, which gains one output at its end, of value 0. */
  lemma AppendedExact(sha: Sha256, tx: TxData, seal: BtqP2mrSeal, mpc: Bytes32)
    ensures var after, n := Appended(sha, tx, seal, mpc), |tx.output|;
      && after.rest == tx.rest
      && |after.output| == n + 1 && after.output[..n] == tx.output
      && after.output[n].value == 0
      && after.output[n].scriptPubkey == [0x6a, 0x4c, 127] + NewCommitment(seal, mpc).Encoding(sha)
  {
    OpReturnForms(NewCommitment(seal, mpc).Encoding(sha));
  }

  method AppendOpretCommitment(codec: TxCodec, sha: Sha256, unsignedHex: string, seal: BtqP2mrSeal, mpc: Bytes32)
    returns (r: Outcome<string>)
    ensures codec.hexDecode(unsignedHex).None? ==> r == Failure(Malformed("unsigned hex decode"))
    ensures codec.hexDecode(unsignedHex).Some? ==>
      r == match codec.deserialize(codec.hexDecode(unsignedHex).value)
           case None => Failure(Malformed("tx deserialize"))
           case Some(tx) => Success(codec.hexEncode(codec.serialize(Appended(sha, tx, seal, mpc))))
  {
    var raw := codec.hexDecode(unsignedHex);
    if raw.None? {
      return Failure(Malformed("unsigned hex decode"));
    }
    var decoded := codec.deserialize(raw.value);
    if decoded.None? {
      return Failure(Malformed("tx deserialize"));
    }
    var tx := new Transaction(decoded.value);
    var payload := NewCommitment(seal, mpc).Encode(sha);
    var script := BuildOpReturnScript(payload);
    tx.PushOutput(TxOut(0, script));
    var reencoded := codec.serialize(tx.Data());
    r := Success(codec.hexEncode(reencoded));
  }

  method FindCommitmentInSignedTx(codec: TxCodec, sha: Sha256, signedHex: string, seal: BtqP2mrSeal)
    returns (r: Outcome<Option<RgbPqCommitment>>)
    ensures codec.hexDecode(signedHex).None? ==> r == Failure(Malformed("signed hex decode"))
    ensures codec.hexDecode(signedHex).Some? ==>
      r == match codec.deserialize(codec.hexDecode(signedHex).value)
           case None => Failure(Malformed("tx deserialize"))
           case Some(tx) => FindIn(sha, seal, tx.output)
  {
    var raw := codec.hexDecode(signedHex);
    if raw.None? {
      return Failure(Malformed("signed hex decode"));
    }
    var decoded := codec.deserialize(raw.value);
    if decoded.None? {
      return Failure(Malformed("tx deserialize"));
    }
    r := FindCommitment(sha, seal, decoded.value.output);
  }

  /** The loop over the outputs of a decoded transaction. */
  method FindCommitment(sha: Sha256, seal: BtqP2mrSeal, outputs: seq<TxOut>)
    returns (r: Outcome<Option<RgbPqCommitment>>)
    ensures r == FindIn(sha, seal, outputs)
  {
    var hits: seq<(u32, RgbPqCommitment)> := [];
    for k := 0 to |outputs|
      invariant hits == Verified(seal, Hits(sha, Numbered(outputs[..k])))
    {
      VerifiedStep(sha, seal, outputs, k);
      var payload := StripOpReturn(outputs[k].scriptPubkey);
      if payload.Some? {
        var c := DecodeFor(sha, payload.value, seal);
        if c.Success? {
          hits := hits + [(k % 0x1_0000_0000, c.value)];
        }
      }
    }
    assert outputs[..|outputs|] == outputs;
    if |hits| == 0 {
      r := Success(None);
    } else if |hits| == 1 {
      r := Success(Some(hits[0].1));
    } else {
      r := Failure(Duplicate);
    }
  }

  function CommitmentOutput(sha: Sha256, c: RgbPqCommitment): TxOut {
    TxOut(0, OpReturnScript(c.Encoding(sha)))
  }

  /** The outputs with their indices, as the two list scanners take them. */
  function Numbered(outputs: seq<TxOut>): (r: seq<(u32, Bytes)>)
    ensures |r| == |outputs|
  {
    seq(|outputs|, k requires 0 <= k < |outputs| => (k % 0x1_0000_0000, outputs[k].scriptPubkey))
  }

  /** The hits that are for the seal. */
  function Verified(seal: BtqP2mrSeal, hits: seq<(u32, RgbPqCommitment)>): seq<(u32, RgbPqCommitment)> {
    if hits == [] then []
    else
      var n := |hits| - 1;
      Verified(seal, hits[..n]) + if hits[n].1.VerifyAgainst(seal).Success? then [hits[n]] else []
  }

  lemma VerifiedAppend(seal: BtqP2mrSeal, hits: seq<(u32, RgbPqCommitment)>, h: (u32, RgbPqCommitment))
    ensures Verified(seal, hits + [h]) == Verified(seal, hits) + if h.1.VerifyAgainst(seal).Success? then [h] else []
  {
    assert (hits + [h])[..|hits|] == hits;
  }

  lemma VerifiedStep(sha: Sha256, seal: BtqP2mrSeal, outputs: seq<TxOut>, k: nat)
    requires k < |outputs|
    ensures var c := CommitmentIn(sha, outputs[k].scriptPubkey);
            Verified(seal, Hits(sha, Numbered(outputs[..k + 1]))) ==
              Verified(seal, Hits(sha, Numbered(outputs[..k])))
              + if c.Some? && c.value.VerifyAgainst(seal).Success? then [(k % 0x1_0000_0000, c.value)] else []
  {
    var c := CommitmentIn(sha, outputs[k].scriptPubkey);
    assert Numbered(outputs[..k + 1])[..k] == Numbered(outputs[..k]);
    if c.Some? {
      VerifiedAppend(seal, Hits(sha, Numbered(outputs[..k])), (k % 0x1_0000_0000, c.value));
    } else {
      assert Hits(sha, Numbered(outputs[..k + 1])) == Hits(sha, Numbered(outputs[..k]));
    }
  }

  function FindIn(sha: Sha256, seal: BtqP2mrSeal, outputs: seq<TxOut>): Outcome<Option<RgbPqCommitment>> {
    var hits := Verified(seal, Hits(sha, Numbered(outputs)));
    if |hits| == 0 then Success(None) else if |hits| == 1 then Success(Some(hits[0].1)) else Failure(Duplicate)
  }

  lemma ForSealExact(sha: Sha256, seal: BtqP2mrSeal, spk: Bytes)
    ensures ForSeal(sha, seal, spk) <==>
      CommitmentIn(sha, spk).Some? && CommitmentIn(sha, spk).value.VerifyAgainst(seal).Success?
  {
    if mpc: Bytes32 :| spk == OpReturnScript(NewCommitment(seal, mpc).Encoding(sha)) {
      CommitmentInExact(sha, spk, NewCommitment(seal, mpc));
    }
    if CommitmentIn(sha, spk).Some? {
      var c := CommitmentIn(sha, spk).value;
      CommitmentInExact(sha, spk, c);
      VerifyAgainstExact(c, seal);
    }
  }

  /** The k-th output alone carries a commitment for the seal. */
  ghost predicate OnlyForSeal(sha: Sha256, seal: BtqP2mrSeal, outputs: seq<TxOut>, k: nat) {
    && k < |outputs| && ForSeal(sha, seal, outputs[k].scriptPubkey)
    && forall j :: 0 <= j < |outputs| && j != k ==> !ForSeal(sha, seal, outputs[j].scriptPubkey)
  }

  function HitsForSeal(sha: Sha256, seal: BtqP2mrSeal, outputs: seq<TxOut>): seq<(u32, RgbPqCommitment)> {
    Verified(seal, Hits(sha, Numbered(outputs)))
  }

  lemma LastForSeal(sha: Sha256, seal: BtqP2mrSeal, outputs: seq<TxOut>)
    requires outputs != []
    ensures var n := |outputs| - 1;
      var spk, before := outputs[n].scriptPubkey, HitsForSeal(sha, seal, outputs[..n]);
      if ForSeal(sha, seal, spk)
      then CommitmentIn(sha, spk).Some?
           && HitsForSeal(sha, seal, outputs) == before + [(n % 0x1_0000_0000, CommitmentIn(sha, spk).value)]
      else HitsForSeal(sha, seal, outputs) == before
  {
    var n := |outputs| - 1;
    VerifiedStep(sha, seal, outputs, n);
    assert outputs[..n + 1] == outputs;
    ForSealExact(sha, seal, outputs[n].scriptPubkey);
  }

  lemma {:induction false} NoneForSeal(sha: Sha256, seal: BtqP2mrSeal, outputs: seq<TxOut>)
    ensures HitsForSeal(sha, seal, outputs) == [] <==>
      forall k :: 0 <= k < |outputs| ==> !ForSeal(sha, seal, outputs[k].scriptPubkey)
  {
    if outputs != [] {
      var n := |outputs| - 1;
      NoneForSeal(sha, seal, outputs[..n]);
      LastForSeal(sha, seal, outputs);
      assert forall k :: 0 <= k < n ==> outputs[..n][k] == outputs[k];
    }
  }

  lemma {:induction false} HitOfOnly(sha: Sha256, seal: BtqP2mrSeal, outputs: seq<TxOut>, k: nat)
    requires OnlyForSeal(sha, seal, outputs, k)
    ensures CommitmentIn(sha, outputs[k].scriptPubkey).Some?
    ensures HitsForSeal(sha, seal, outputs) ==
              [(k % 0x1_0000_0000, CommitmentIn(sha, outputs[k].scriptPubkey).value)]
  {
    var n := |outputs| - 1;
    LastForSeal(sha, seal, outputs);
    if k == n {
      NoneForSeal(sha, seal, outputs[..n]);
    } else {
      HitOfOnly(sha, seal, outputs[..n], k);
    }
  }

  lemma {:induction false} OnlyOfHit(sha: Sha256, seal: BtqP2mrSeal, outputs: seq<TxOut>) returns (k: nat)
    requires |HitsForSeal(sha, seal, outputs)| == 1
    ensures OnlyForSeal(sha, seal, outputs, k)
  {
    var n := |outputs| - 1;
    LastForSeal(sha, seal, outputs);
    if ForSeal(sha, seal, outputs[n].scriptPubkey) {
      k := n;
      NoneForSeal(sha, seal, outputs[..n]);
      assert forall j :: 0 <= j < n ==> outputs[..n][j] == outputs[j];
    } else {
      k := OnlyOfHit(sha, seal, outputs[..n]);
      assert forall j :: 0 <= j < n ==> outputs[..n][j] == outputs[j];
    }
  }

  /** The answers of the transaction scanner in terms of the scripts alone: the commitment of the only output that
      carries one for the seal. */
  lemma FindExact(sha: Sha256, seal: BtqP2mrSeal, outputs: seq<TxOut>, c: RgbPqCommitment)
    ensures FindIn(sha, seal, outputs) == Success(None) <==>
      forall k :: 0 <= k < |outputs| ==> !ForSeal(sha, seal, outputs[k].scriptPubkey)
    ensures FindIn(sha, seal, outputs) == Success(Some(c)) <==>
      exists k: nat :: OnlyForSeal(sha, seal, outputs, k)
                       && outputs[k].scriptPubkey == OpReturnScript(c.Encoding(sha))
    ensures FindIn(sha, seal, outputs).Failure? ==> FindIn(sha, seal, outputs) == Failure(Duplicate)
  {
    NoneForSeal(sha, seal, outputs);
    forall k: nat | OnlyForSeal(sha, seal, outputs, k)
      ensures FindIn(sha, seal, outputs) == Success(CommitmentIn(sha, outputs[k].scriptPubkey))
    {
      HitOfOnly(sha, seal, outputs, k);
    }
    if |HitsForSeal(sha, seal, outputs)| == 1 {
      var k := OnlyOfHit(sha, seal, outputs);
      CommitmentInExact(sha, outputs[k].scriptPubkey, c);
    }
    forall k: nat | OnlyForSeal(sha, seal, outputs, k)
      ensures outputs[k].scriptPubkey == OpReturnScript(c.Encoding(sha)) <==>
                CommitmentIn(sha, outputs[k].scriptPubkey) == Some(c)
    {
      CommitmentInExact(sha, outputs[k].scriptPubkey, c);
    }
  }

  // ----- agreement -----------------------------------------------------

  lemma SingleVerified(seal: BtqP2mrSeal, hits: seq<(u32, RgbPqCommitment)>)
    requires |hits| == 1
    ensures Verified(seal, hits) == if hits[0].1.VerifyAgainst(seal).Success? then hits else []
  {
    assert Verified(seal, hits[..0]) == [];
  }

  /** The two list scanners say the same: missing, duplicate, or the verdict on the one commitment. */
  predicate SameAnswer(seal: BtqP2mrSeal, answer: CommitmentScan, payload: CommitmentPayload) {
    match payload
    case Missing => answer == ScanMissing
    case DuplicateAt(_) => answer == ScanDuplicate
    case Found(_, c) =>
      answer == match c.VerifyAgainst(seal)
                case Success(_) => ScanFound
                case Failure(e) => if e == WrongChain then ScanWrongChain else ScanWrongSeal
  }

  /** Whenever the bounded scanner answers, under any limits and any budget, it answers for the whole list. The
      payload scanner examines the whole list exactly when the list is within its own two bounds, which it
      always is under limits no wider than those, such as the default ones. It says the same exactly when no
      output it did not examine carries a commitment, or it has already seen two. */
  lemma ScannersAgree(sha: Sha256, seal: BtqP2mrSeal, outputs: seq<TxOut>, limits: VerifyLimits, expired: BudgetGuard)
    requires BoundedScan(sha, seal, Numbered(outputs), limits, expired).Success?
    ensures var list := Numbered(outputs);
            var n := Examined(list, 0);
            var answer := BoundedScan(sha, seal, list, limits, expired).value;
            && (n == |list| <==> |list| <= 64 && forall i :: 0 <= i < |list| ==> |list[i].1| <= 4096)
            && (limits.maxScanWindow <= 64 && limits.maxLeafSize <= 4096 ==> n == |list|)
            && (SameAnswer(seal, answer, Classify(Hits(sha, list[..n]))) <==>
                  NoneFrom(sha, list, n) || |Hits(sha, list[..n])| >= 2)
  {
    var list := Numbered(outputs);
    CheckOutputsExact(limits, expired, list, 0);
    ExaminedExact(list, 0, |list|);
    HitsSplit(sha, list, Examined(list, 0));
  }

  /** A found commitment is the one the transaction scanner returns. That scanner skips commitments for other
      seals, so it may return one where the bounded scanner reports a duplicate; the two agree exactly when
      there is a single hit. */
  lemma TransactionScannerAgrees(sha: Sha256, seal: BtqP2mrSeal, outputs: seq<TxOut>, limits: VerifyLimits,
                                 expired: BudgetGuard)
    requires BoundedScan(sha, seal, Numbered(outputs), limits, expired).Success?
    ensures var hits := Hits(sha, Numbered(outputs));
            var answer := BoundedScan(sha, seal, Numbered(outputs), limits, expired).value;
            var found := FindIn(sha, seal, outputs);
            && (answer == ScanFound ==> |hits| == 1 && found == Success(Some(hits[0].1)))
            && (found.Success? && found.value.Some? ==> (answer == ScanFound <==> |hits| == 1))
  {
    var hits := Hits(sha, Numbered(outputs));
    if |hits| == 1 {
      SingleVerified(seal, hits);
    }
  }

  const OVERSIZED: Bytes := seq(4097, _ => 0)

  /** An output list on which the two disagree: an oversized output hides the commitment behind it from the
      payload scanner, while limits that admit the output let the bounded scanner find it. */
  lemma OversizedOutputHides(sha: Sha256, seal: BtqP2mrSeal, mpc: Bytes32, expired: BudgetGuard)
    requires !expired(0) && !expired(1)
    ensures var list := Numbered([TxOut(0, OVERSIZED), CommitmentOutput(sha, NewCommitment(seal, mpc))]);
            && BoundedScan(sha, seal, list, VerifyLimits(32, 5000, 64), expired) == Success(ScanFound)
            && Classify(Hits(sha, list[..Examined(list, 0)])) == Missing
  {
    var c := NewCommitment(seal, mpc);
    var big := [TxOut(0, OVERSIZED)];
    var outputs := big + [CommitmentOutput(sha, c)];
    assert outputs == [TxOut(0, OVERSIZED), CommitmentOutput(sha, c)];
    assert |OVERSIZED| == 4097 && OVERSIZED[0] == 0;
    assert Numbered(big)[..0] == [];
    assert Hits(sha, Numbered(big)) == [];
    AppendThenBounded(sha, seal, mpc, big, VerifyLimits(32, 5000, 64), expired);
    var list := Numbered(outputs);
    assert |list[0].1| == 4097;
    assert list[..Examined(list, 0)] == [];
  }

  // ----- append, then scan ---------------------------------------------

  lemma AppendedHits(sha: Sha256, seal: BtqP2mrSeal, outputs: seq<TxOut>, c: RgbPqCommitment)
    ensures Hits(sha, Numbered(outputs + [CommitmentOutput(sha, c)])) ==
              Hits(sha, Numbered(outputs)) + [(|outputs| % 0x1_0000_0000, c)]
  {
    var all := Numbered(outputs + [CommitmentOutput(sha, c)]);
    assert all[..|outputs|] == Numbered(outputs);
    CommitmentInExact(sha, all[|outputs|].1, c);
  }

  /** Appending a commitment and searching for it gives it back exactly when no earlier output carried one for
      the seal, and reports a duplicate otherwise. */
  lemma AppendThenFind(sha: Sha256, seal: BtqP2mrSeal, mpc: Bytes32, tx: TxData)
    ensures var c := NewCommitment(seal, mpc);
            var earlier := Hits(sha, Numbered(tx.output));
            FindIn(sha, seal, Appended(sha, tx, seal, mpc).output) ==
              if forall i :: 0 <= i < |earlier| ==> earlier[i].1.VerifyAgainst(seal).Failure? then Success(Some(c))
              else Failure(Duplicate)
  {
    var c := NewCommitment(seal, mpc);
    var earlier := Hits(sha, Numbered(tx.output));
    AppendedHits(sha, seal, tx.output, c);
    VerifiedAppend(seal, earlier, (|tx.output| % 0x1_0000_0000, c));
    VerifiedEmpty(seal, earlier);
  }

  /** After appending, the bounded scanner finds the commitment exactly when no earlier output carried any
      commitment at all, the whole list is within the limits, and the budget lasts. */
  lemma AppendThenBounded(sha: Sha256, seal: BtqP2mrSeal, mpc: Bytes32, outputs: seq<TxOut>, limits: VerifyLimits,
                          expired: BudgetGuard)
    ensures var list := Numbered(outputs + [CommitmentOutput(sha, NewCommitment(seal, mpc))]);
            BoundedScan(sha, seal, list, limits, expired) == Success(ScanFound) <==>
              && Hits(sha, Numbered(outputs)) == []
              && |outputs| + 1 <= limits.maxScanWindow
              && 130 <= limits.maxLeafSize
              && (forall i :: 0 <= i < |outputs| ==> |outputs[i].scriptPubkey| <= limits.maxLeafSize)
              && (forall k: nat :: k <= |outputs| ==> !expired(k))
  {
    var c := NewCommitment(seal, mpc);
    var all := Numbered(outputs + [CommitmentOutput(sha, c)]);
    AppendedHits(sha, seal, outputs, c);
    CheckOutputsExact(limits, expired, all, 0);
    assert |OpReturnScript(c.Encoding(sha))| == 130;
    assert forall i :: 0 <= i < |outputs| ==> all[i].1 == outputs[i].scriptPubkey;
    assert all[|outputs|].1 == OpReturnScript(c.Encoding(sha));
  }

  /** The same over hex, for any codecs that read back the appended transaction. */
  method AppendThenFindHex(codec: TxCodec, sha: Sha256, hex: string, seal: BtqP2mrSeal, mpc: Bytes32)
    returns (r: Outcome<Option<RgbPqCommitment>>)
    requires var tx := codec.Decode(hex, "unsigned hex decode");
      tx.Success? ==>
        var appended := Appended(sha, tx.value, seal, mpc);
        codec.Decode(codec.Encode(appended), "signed hex decode") == Success(appended)
    ensures match codec.Decode(hex, "unsigned hex decode")
      case Failure(e) => r == Failure(e)
      case Success(tx) =>
        var earlier := Hits(sha, Numbered(tx.output));
        r == if forall i :: 0 <= i < |earlier| ==> earlier[i].1.VerifyAgainst(seal).Failure?
             then Success(Some(NewCommitment(seal, mpc))) else Failure(Duplicate)
  {
    var appended :- AppendOpretCommitment(codec, sha, hex, seal, mpc);
    AppendThenFind(sha, seal, mpc, codec.Decode(hex, "unsigned hex decode").value);
    r := FindCommitmentInSignedTx(codec, sha, appended, seal);
  }

  lemma {:induction false} VerifiedEmpty(seal: BtqP2mrSeal, hits: seq<(u32, RgbPqCommitment)>)
    ensures Verified(seal, hits) == [] <==> forall i :: 0 <= i < |hits| ==> hits[i].1.VerifyAgainst(seal).Failure?
  {
    if hits != [] {
      var n := |hits| - 1;
      VerifiedEmpty(seal, hits[..n]);
      assert forall i :: 0 <= i < n ==> hits[..n][i] == hits[i];
    }
  }
}
