/** The opret commitment payload, its OP_RETURN script, and the payload scanner. */
module Commitments {
  import opened Wrappers
  import opened ByteStrings
  import opened Errors
  import opened Domains
  import opened SealTypes
  import opened Seals
  import opened P2mrRet

  // ----- the payload ---------------------------------------------------

  datatype RgbPqCommitment = RgbPqCommitment(chain: BtqChainId, sealTxid: Bytes32, sealVout: u32, mpc: Bytes32) {
    function DigestPreimage(): Bytes {
      P2mrDomain(chain).Prefix() + sealTxid + Le32(sealVout)
    }

    function Encoding(sha: Sha256): (b: Bytes)
      ensures |b| == 127
    {
      COMMITMENT_MAGIC + COMMITMENT_PROTOCOL_TAG + [chain.ToByte()] + sealTxid + Le32(sealVout) + mpc
      + sha(DigestPreimage())
    }

    method SealDigest(sha: Sha256) returns (out: Bytes32)
      ensures out == sha(DigestPreimage())
    {
      var prefix := P2mrDomain(chain).Prefixed();
      prefix := prefix + sealTxid;
      prefix := prefix + Le32(sealVout);
      out := sha(prefix);
    }

    method Encode(sha: Sha256) returns (out: Bytes)
      ensures out == Encoding(sha)
    {
      out := COMMITMENT_MAGIC;
      out := out + COMMITMENT_PROTOCOL_TAG;
      out := out + [chain.ToByte()];
      out := out + sealTxid;
      out := out + Le32(sealVout);
      out := out + mpc;
      var digest := SealDigest(sha);
      out := out + digest;
    }

    function VerifyAgainst(expected: BtqP2mrSeal): Outcome<()> {
      if chain != expected.chainId then Failure(WrongChain)
      else if sealTxid != expected.outpoint.txid || sealVout != expected.outpoint.vout then Failure(WrongSeal)
      else Success(())
    }
  }

  function NewCommitment(seal: BtqP2mrSeal, mpc: Bytes32): RgbPqCommitment {
    RgbPqCommitment(seal.chainId, seal.outpoint.txid, seal.outpoint.vout, mpc)
  }

  function Decoding(sha: Sha256, b: Bytes): Outcome<RgbPqCommitment> {
    if |b| != 127 then Failure(Malformed("commitment payload length"))
    else if b[..7] != COMMITMENT_MAGIC then Failure(Malformed("bad magic"))
    else if b[7..26] != COMMITMENT_PROTOCOL_TAG then Failure(Malformed("bad protocol tag"))
    else
      var chain :- ChainFromByte(b[26]);
      var c := RgbPqCommitment(chain, b[27..59], FromLittleEndian(b[59..63]), b[63..95]);
      if b[95..127] != sha(c.DigestPreimage()) then Failure(Malformed("seal digest mismatch")) else Success(c)
  }

  method Decode(sha: Sha256, bytes: Bytes) returns (r: Outcome<RgbPqCommitment>)
    ensures r == Decoding(sha, bytes)
  {
    var magicLen := |COMMITMENT_MAGIC|;
    var tagLen := |COMMITMENT_PROTOCOL_TAG|;
    var need := magicLen + tagLen + (1 + 32 + 4 + 32 + 32);
    if |bytes| != need {
      return Failure(Malformed("commitment payload length"));
    }
    if bytes[..magicLen] != COMMITMENT_MAGIC {
      return Failure(Malformed("bad magic"));
    }
    var tagEnd := magicLen + tagLen;
    if bytes[magicLen..tagEnd] != COMMITMENT_PROTOCOL_TAG {
      return Failure(Malformed("bad protocol tag"));
    }
    var pos := tagEnd;
    var chain :- ChainFromByte(bytes[pos]);
    pos := pos + 1;
    var txid: Bytes32 := bytes[pos..pos + 32];
    pos := pos + 32;
    var vout: u32 := FromLittleEndian(bytes[pos..pos + 4]);
    pos := pos + 4;
    var mpc: Bytes32 := bytes[pos..pos + 32];
    pos := pos + 32;
    var digest: Bytes32 := bytes[pos..pos + 32];
    var c := RgbPqCommitment(chain, txid, vout, mpc);
    var expected := c.SealDigest(sha);
    if digest != expected {
      return Failure(Malformed("seal digest mismatch"));
    }
    r := Success(c);
  }

  /** Decodes, and checks the commitment against the seal it should be for. */
  method DecodeFor(sha: Sha256, bytes: Bytes, expected: BtqP2mrSeal) returns (r: Outcome<RgbPqCommitment>)
    ensures r.Success? <==> Decoding(sha, bytes).Success? && Decoding(sha, bytes).value.VerifyAgainst(expected).Success?
    ensures r.Success? ==> r == Decoding(sha, bytes)
    ensures r.Failure? ==>
      r.error == if Decoding(sha, bytes).Failure? then Decoding(sha, bytes).error
                 else Decoding(sha, bytes).value.VerifyAgainst(expected).error
  {
    var c :- Decode(sha, bytes);
    var _ :- c.VerifyAgainst(expected);
    r := Success(c);
  }

  lemma EncodingAt(sha: Sha256, c: RgbPqCommitment)
    ensures var e := c.Encoding(sha);
      && e[..7] == COMMITMENT_MAGIC && e[7..26] == COMMITMENT_PROTOCOL_TAG && e[26] == c.chain.ToByte()
      && e[27..59] == c.sealTxid && e[59..63] == Le32(c.sealVout) && e[63..95] == c.mpc
      && e[95..127] == sha(c.DigestPreimage())
  {
    var e := c.Encoding(sha);
    assert e[..7] == COMMITMENT_MAGIC && e[7..26] == COMMITMENT_PROTOCOL_TAG;
    assert e[27..59] == c.sealTxid && e[59..63] == Le32(c.sealVout);
    assert e[63..95] == c.mpc && e[95..127] == sha(c.DigestPreimage());
  }

  /** The bytes of a payload, with magic and tag written out. */
  lemma EncodingLayout(sha: Sha256, c: RgbPqCommitment)
    ensures var e := c.Encoding(sha);
      && e[..7] == Ascii("RGBPQCM") && e[7..26] == Ascii("rgbpq:commitment:v0") && e[26] == c.chain.ToByte()
      && e[27..59] == c.sealTxid && e[59..63] == Le32(c.sealVout) && e[63..95] == c.mpc
      && e[95..] == sha(c.DigestPreimage())
  {
    EncodingAt(sha, c);
    assert c.Encoding(sha)[95..] == c.Encoding(sha)[95..127];
  }

  /** The string under the seal digest: 38 prefix bytes, txid, vout. */
  lemma DigestLayout(c: RgbPqCommitment)
    ensures var p := c.DigestPreimage();
      |p| == 74 && p[..38] == P2mrDomain(c.chain).Prefix() && p[38..70] == c.sealTxid && p[70..] == Le32(c.sealVout)
  {
    P2mrDomainFacts(c.chain);
    var p := c.DigestPreimage();
    assert p[..38] == P2mrDomain(c.chain).Prefix();
    assert p[38..70] == c.sealTxid;
    assert p[70..] == Le32(c.sealVout);
  }

  /** Why a payload is refused: exactly which check fails first. */
  lemma DecodingRefusals(sha: Sha256, b: Bytes)
    requires Decoding(sha, b).Failure?
    ensures Decoding(sha, b).error ==
      if |b| != 127 then Malformed("commitment payload length")
      else if b[..7] != Ascii("RGBPQCM") then Malformed("bad magic")
      else if b[7..26] != Ascii("rgbpq:commitment:v0") then Malformed("bad protocol tag")
      else if b[26] != 1 && b[26] != 2 then UnknownChainId
      else Malformed("seal digest mismatch")
  {
  }

  /** A commitment is for a seal exactly when it is the commitment made for it; otherwise which part differs. */
  lemma VerifyAgainstExact(c: RgbPqCommitment, seal: BtqP2mrSeal)
    ensures c.VerifyAgainst(seal) == Success(()) <==> c == NewCommitment(seal, c.mpc)
    ensures c == NewCommitment(seal, c.mpc) <==>
              c.chain == seal.chainId && BtqOutpoint(c.sealTxid, c.sealVout) == seal.outpoint
    ensures c.VerifyAgainst(seal) == Failure(WrongChain) <==> c.chain != seal.chainId
    ensures c.VerifyAgainst(seal) == Failure(WrongSeal) <==>
              c.chain == seal.chainId && BtqOutpoint(c.sealTxid, c.sealVout) != seal.outpoint
    ensures forall mpc: Bytes32 :: NewCommitment(seal, mpc).mpc == mpc
  {
  }

  lemma SevenPieces(b: Bytes)
    requires |b| == 127
    ensures b == b[..7] + b[7..26] + [b[26]] + b[27..59] + b[59..63] + b[63..95] + b[95..127]
  {
  }

  /** The payload codec is a bijection onto what it accepts. */
  lemma CommitmentCodec(sha: Sha256, b: Bytes, c: RgbPqCommitment)
    ensures Decoding(sha, b) == Success(c) <==> b == c.Encoding(sha)
  {
    EncodingAt(sha, c);
    if Decoding(sha, b) == Success(c) {
      FromLittleEndianRoundTrip(b[59..63]);
      SevenPieces(b);
    }
  }

  // ----- the two digests -----------------------------------------------

  /** The seal digest is over exactly chain, txid and vout; it leaves the MPC commitment free. */
  lemma DigestPreimageExact(c: RgbPqCommitment, c': RgbPqCommitment)
    ensures c.DigestPreimage() == c'.DigestPreimage() <==>
              c.chain == c'.chain && c.sealTxid == c'.sealTxid && c.sealVout == c'.sealVout
  {
    P2mrDomainFacts(c.chain);
    P2mrDomainFacts(c'.chain);
    if c.DigestPreimage() == c'.DigestPreimage() {
      var d, d' := P2mrDomain(c.chain), P2mrDomain(c'.chain);
      assert c.DigestPreimage() == d.Prefix() + (c.sealTxid + Le32(c.sealVout));
      assert c'.DigestPreimage() == d'.Prefix() + (c'.sealTxid + Le32(c'.sealVout));
      PrefixInjective(d, c.sealTxid + Le32(c.sealVout), d', c'.sealTxid + Le32(c'.sealVout));
      SplitConcat(c.sealTxid, Le32(c.sealVout), c'.sealTxid, Le32(c'.sealVout));
    }
  }

  /** Equal seal digests are for one seal outpoint, or the two preimages collide. */
  lemma SealDigestBinding(sha: Sha256, c: RgbPqCommitment, c': RgbPqCommitment)
    requires sha(c.DigestPreimage()) == sha(c'.DigestPreimage())
    ensures (c.chain == c'.chain && c.sealTxid == c'.sealTxid && c.sealVout == c'.sealVout)
            || Collides(sha, {c.DigestPreimage(), c'.DigestPreimage()})
  {
    EqualDigests(sha, c.DigestPreimage(), c'.DigestPreimage(), {c.DigestPreimage(), c'.DigestPreimage()});
    DigestPreimageExact(c, c');
  }

  /** Both digests start with the same domain prefix, yet no message of one family is a message of the other. */
  lemma DigestFamiliesDisjoint(sha: Sha256, c: RgbPqCommitment, s: BtqP2mrSeal)
    ensures c.DigestPreimage() != CanonicalPreimage(s)
    ensures sha(c.DigestPreimage()) == sha(CanonicalPreimage(s)) ==>
              Collides(sha, {c.DigestPreimage(), CanonicalPreimage(s)})
  {
    P2mrDomainFacts(c.chain);
    P2mrDomainFacts(s.chainId);
    assert |c.DigestPreimage()| == 74;
    assert |CanonicalPreimage(s)| >= 39 + 102;
    if sha(c.DigestPreimage()) == sha(CanonicalPreimage(s)) {
      EqualDigests(sha, c.DigestPreimage(), CanonicalPreimage(s), {c.DigestPreimage(), CanonicalPreimage(s)});
    }
  }

  // ----- OP_RETURN scripts ---------------------------------------------

  function StripOpReturn(spk: Bytes): Option<Bytes> {
    if spk == [] || spk[0] != 0x6a then None
    else
      var rest := spk[1..];
      if rest == [] then None
      else if rest[0] <= 0x4b && |rest| == 1 + rest[0] as int then Some(rest[1..])
      else if rest[0] == 0x4c && |rest| >= 2 && |rest| == 2 + rest[1] as int then Some(rest[2..])
      else None
  }

  /** The push rule of the `bitcoin` crate's script builder. */
  function PushSlice(data: Bytes): Bytes
    requires |data| < 0x1_0000_0000
  {
    (if |data| <= 0x4b then [|data| as byte]
     else if |data| <= 0xff then [0x4c, |data| as byte]
     else if |data| <= 0xffff then [0x4d] + LittleEndian(|data|, 2)
     else [0x4e] + LittleEndian(|data|, 4)) + data
  }

  /** `PushBytesBuf` refuses 2^32 bytes or more and then stays empty; the builder ignores the refusal. */
  function OpReturnScript(payload: Bytes): Bytes {
    [0x6a] + PushSlice(if |payload| < 0x1_0000_0000 then payload else [])
  }

  method BuildOpReturnScript(payload: Bytes) returns (script: Bytes)
    ensures script == OpReturnScript(payload)
  {
    var buf: Bytes := [];
    if |payload| < 0x1_0000_0000 {
      buf := buf + payload;
    }
    script := [0x6a];
    script := script + PushSlice(buf);
  }

  /** What the stripper accepts: a direct push of at most 75 bytes, or a one-byte-length push of any length,
      and nothing after it. */
  lemma StripExact(spk: Bytes, p: Bytes)
    ensures StripOpReturn(spk) == Some(p) <==>
              || (|p| <= 0x4b && spk == [0x6a, |p| as byte] + p)
              || (|p| <= 0xff && spk == [0x6a, 0x4c, |p| as byte] + p)
  {
    if StripOpReturn(spk) == Some(p) {
      var rest := spk[1..];
      if rest[0] <= 0x4b {
        assert spk == [spk[0], rest[0]] + rest[1..];
      } else {
        assert spk == [spk[0], rest[0], rest[1]] + rest[2..];
      }
    }
    if |p| <= 0x4b && spk == [0x6a, |p| as byte] + p {
      assert spk[1..][1..] == p;
    } else if |p| <= 0xff && spk == [0x6a, 0x4c, |p| as byte] + p {
      assert spk[1..][2..] == p;
    }
  }

  /** The scripts that are built, by the length of the payload. */
  lemma OpReturnForms(p: Bytes)
    ensures |p| <= 0x4b ==> OpReturnScript(p) == [0x6a, |p| as byte] + p
    ensures 0x4b < |p| <= 0xff ==> OpReturnScript(p) == [0x6a, 0x4c, |p| as byte] + p
    ensures 0xff < |p| <= 0xffff ==> OpReturnScript(p) == [0x6a, 0x4d, (|p| % 256) as byte, (|p| / 256) as byte] + p
    ensures 0xffff < |p| < 0x1_0000_0000 ==> OpReturnScript(p) == [0x6a, 0x4e] + Le32(|p|) + p
    ensures |p| >= 0x1_0000_0000 ==> OpReturnScript(p) == [0x6a, 0]
  {
    if 0xff < |p| <= 0xffff {
      TwoBytes(|p|);
    }
    if 0xffff < |p| < 0x1_0000_0000 {
      assert LittleEndian(|p|, 4) == Le32(|p|);
    }
  }

  /** Stripping undoes building exactly for payloads of at most 255 bytes. */
  lemma StripInvertsBuild(p: Bytes)
    ensures StripOpReturn(OpReturnScript(p)) == Some(p) <==> |p| <= 0xff
  {
    var spk := OpReturnScript(p);
    StripExact(spk, p);
    if |p| <= 0x4b {
      assert spk == [0x6a, |p| as byte] + p;
    } else if |p| <= 0xff {
      assert spk == [0x6a, 0x4c, |p| as byte] + p;
    } else if |p| < 0x1_0000_0000 {
      assert spk[1] == 0x4d || spk[1] == 0x4e;
    } else {
      assert |spk| == 2;
    }
  }

  // ----- the commitments among a list of outputs -----------------------

  /** The commitment a script carries, if any. */
  function CommitmentIn(sha: Sha256, spk: Bytes): Option<RgbPqCommitment> {
    var payload := StripOpReturn(spk);
    if payload.None? then None
    else
      var c := Decoding(sha, payload.value);
      if c.Success? then Some(c.value) else None
  }

  /** The script carries `c` exactly when it is one of two scripts: every commitment has one 127-byte form. */
  lemma CommitmentInExact(sha: Sha256, spk: Bytes, c: RgbPqCommitment)
    ensures CommitmentIn(sha, spk) == Some(c) <==> spk == OpReturnScript(c.Encoding(sha))
  {
    var p := c.Encoding(sha);
    assert OpReturnScript(p) == [0x6a, 0x4c, 127] + p;
    StripExact(spk, p);
    CommitmentCodec(sha, p, c);
    var payload := StripOpReturn(spk);
    if payload.Some? {
      CommitmentCodec(sha, payload.value, c);
    }
  }

  function Hits(sha: Sha256, outputs: seq<(u32, Bytes)>): seq<(u32, RgbPqCommitment)> {
    if outputs == [] then []
    else
      var n := |outputs| - 1;
      var c := CommitmentIn(sha, outputs[n].1);
      Hits(sha, outputs[..n]) + if c.Some? then [(outputs[n].0, c.value)] else []
  }

  /** Which outputs carry a commitment. */
  function Carrying(sha: Sha256, outputs: seq<(u32, Bytes)>): (flags: seq<bool>) {
    seq(|outputs|, k requires 0 <= k < |outputs| => CommitmentIn(sha, outputs[k].1).Some?)
  }

  /** There is one hit for each output that carries a commitment. */
  lemma {:induction false} HitsCount(sha: Sha256, outputs: seq<(u32, Bytes)>)
    ensures |Hits(sha, outputs)| == CountTrue(Carrying(sha, outputs)) == |TrueAt(Carrying(sha, outputs))|
  {
    CountIsCardinality(Carrying(sha, outputs));
    if outputs != [] {
      var n := |outputs| - 1;
      HitsCount(sha, outputs[..n]);
      assert Carrying(sha, outputs)[..n] == Carrying(sha, outputs[..n]);
    }
  }

  lemma LastHit(sha: Sha256, outputs: seq<(u32, Bytes)>, h: (u32, RgbPqCommitment))
    requires outputs != []
    ensures var n := |outputs| - 1;
      h in Hits(sha, outputs) <==>
        h in Hits(sha, outputs[..n]) || outputs[n] == (h.0, OpReturnScript(h.1.Encoding(sha)))
  {
    CommitmentInExact(sha, outputs[|outputs| - 1].1, h.1);
  }

  /** A hit is an output with exactly the OP_RETURN script of its commitment. */
  lemma {:induction false} HitsMembers(sha: Sha256, outputs: seq<(u32, Bytes)>, h: (u32, RgbPqCommitment))
    ensures h in Hits(sha, outputs) <==>
              exists k :: 0 <= k < |outputs| && outputs[k] == (h.0, OpReturnScript(h.1.Encoding(sha)))
  {
    if outputs != [] {
      var n := |outputs| - 1;
      HitsMembers(sha, outputs[..n], h);
      LastHit(sha, outputs, h);
      assert outputs == outputs[..n] + [outputs[n]];
    }
  }

  // ----- the payload scanner -------------------------------------------

  datatype CommitmentPayload =
    | Found(vout: u32, commitment: RgbPqCommitment)
    | DuplicateAt(vouts: seq<u32>)
    | Missing

  const MAX_SCAN := 64
  const MAX_SPK := 4096

  /** How many outputs are examined from the k-th on: the loop stops for good at the 65th output, or at the
      first oversized one. */
  function Examined(outputs: seq<(u32, Bytes)>, k: nat): (n: nat)
    requires k <= |outputs|
    ensures k <= n <= |outputs|
    decreases |outputs| - k
  {
    if k == |outputs| || k + 1 > MAX_SCAN || |outputs[k].1| > MAX_SPK then k else Examined(outputs, k + 1)
  }

  function Classify(hits: seq<(u32, RgbPqCommitment)>): CommitmentPayload {
    if |hits| == 0 then Missing
    else if |hits| == 1 then Found(hits[0].0, hits[0].1)
    else DuplicateAt(seq(|hits|, i requires 0 <= i < |hits| => hits[i].0))
  }

  /** What the classification says of the hits: the vout and commitment of the only one, the vouts of several. */
  lemma ClassifyExact(hits: seq<(u32, RgbPqCommitment)>, vout: u32, c: RgbPqCommitment, vouts: seq<u32>)
    ensures Classify(hits) == Missing <==> hits == []
    ensures Classify(hits) == Found(vout, c) <==> hits == [(vout, c)]
    ensures Classify(hits) == DuplicateAt(vouts) <==>
              |hits| == |vouts| >= 2 && forall i :: 0 <= i < |hits| ==> vouts[i] == hits[i].0
  {
    if |hits| >= 2 && |hits| == |vouts| && forall i :: 0 <= i < |hits| ==> vouts[i] == hits[i].0 {
      assert vouts == seq(|hits|, i requires 0 <= i < |hits| => hits[i].0);
    }
  }

  method Scan(sha: Sha256, outputs: seq<(u32, Bytes)>) returns (r: CommitmentPayload)
    ensures r == Classify(Hits(sha, outputs[..Examined(outputs, 0)]))
  {
    var hits: seq<(u32, RgbPqCommitment)> := [];
    var scanned := 0;
    var k := 0;
    while k < |outputs|
      invariant k == scanned <= |outputs|
      invariant hits == Hits(sha, outputs[..k])
      invariant Examined(outputs, 0) == Examined(outputs, k)
    {
      var (vout, spk) := outputs[k];
      scanned := scanned + 1;
      if scanned > MAX_SCAN || |spk| > MAX_SPK {
        break;
      }
      assert outputs[..k + 1][..k] == outputs[..k];
      var payload := StripOpReturn(spk);
      if payload.Some? {
        var c := Decode(sha, payload.value);
        if c.Success? {
          hits := hits + [(vout, c.value)];
        }
      }
      k := k + 1;
    }
    r := Classify(hits);
  }

  /** Which outputs are examined: the longest prefix of at most 64 outputs none of which is oversized. An
      oversized output is not skipped; it hides everything behind it. */
  lemma {:induction false} ExaminedExact(outputs: seq<(u32, Bytes)>, k: nat, n: nat)
    requires k <= n <= |outputs|
    requires k <= 64
    ensures n == Examined(outputs, k) <==>
              && n <= 64
              && (forall i :: k <= i < n ==> |outputs[i].1| <= 4096)
              && (n == |outputs| || n == 64 || |outputs[n].1| > 4096)
    decreases n - k
  {
    if k < n && k < MAX_SCAN && |outputs[k].1| <= MAX_SPK {
      ExaminedExact(outputs, k + 1, n);
    }
  }

  lemma {:induction false} HitsConcat(sha: Sha256, a: seq<(u32, Bytes)>, b: seq<(u32, Bytes)>)
    ensures Hits(sha, a + b) == Hits(sha, a) + Hits(sha, b)
  {
    if b == [] {
      assert a + b == a;
    } else {
      var n := |b| - 1;
      HitsConcat(sha, a, b[..n]);
      assert (a + b)[..|a + b| - 1] == a + b[..n];
    }
  }

  /** No output from the k-th on carries a commitment. */
  ghost predicate NoneFrom(sha: Sha256, outputs: seq<(u32, Bytes)>, k: nat) {
    forall i :: k <= i < |outputs| ==> CommitmentIn(sha, outputs[i].1).None?
  }

  lemma {:induction false} NoHits(sha: Sha256, outputs: seq<(u32, Bytes)>)
    ensures Hits(sha, outputs) == [] <==> NoneFrom(sha, outputs, 0)
  {
    if outputs != [] {
      var n := |outputs| - 1;
      NoHits(sha, outputs[..n]);
      assert forall i :: 0 <= i < n ==> outputs[..n][i] == outputs[i];
    }
  }

  lemma HitsSplit(sha: Sha256, outputs: seq<(u32, Bytes)>, n: nat)
    requires n <= |outputs|
    ensures |Hits(sha, outputs)| >= |Hits(sha, outputs[..n])|
    ensures Hits(sha, outputs) == Hits(sha, outputs[..n]) <==> NoneFrom(sha, outputs, n)
    ensures |Hits(sha, outputs)| == |Hits(sha, outputs[..n])| <==> NoneFrom(sha, outputs, n)
  {
    assert outputs == outputs[..n] + outputs[n..];
    HitsConcat(sha, outputs[..n], outputs[n..]);
    NoHits(sha, outputs[n..]);
    assert forall i :: n <= i < |outputs| ==> outputs[i] == outputs[n..][i - n];
    assert NoneFrom(sha, outputs[n..], 0) <==> NoneFrom(sha, outputs, n);
  }

  lemma LastHitOnly(sha: Sha256, outputs: seq<(u32, Bytes)>)
    requires outputs != []
    requires NoneFrom(sha, outputs[..|outputs| - 1], 0)
    requires CommitmentIn(sha, outputs[|outputs| - 1].1).Some?
    ensures var last := outputs[|outputs| - 1];
      Hits(sha, outputs) == [(last.0, CommitmentIn(sha, last.1).value)]
  {
    NoHits(sha, outputs[..|outputs| - 1]);
  }

  /** A single carrying output gives the single hit. */
  lemma {:induction false} OneHit(sha: Sha256, outputs: seq<(u32, Bytes)>, k: nat)
    requires k < |outputs| && CommitmentIn(sha, outputs[k].1).Some?
    requires forall j :: 0 <= j < |outputs| && j != k ==> CommitmentIn(sha, outputs[j].1).None?
    ensures Hits(sha, outputs) == [(outputs[k].0, CommitmentIn(sha, outputs[k].1).value)]
  {
    var n := |outputs| - 1;
    var init := outputs[..n];
    assert forall j :: 0 <= j < n ==> init[j] == outputs[j];
    if k == n {
      LastHitOnly(sha, outputs);
    } else {
      OneHit(sha, init, k);
      NoLastHit(sha, outputs);
    }
  }

  lemma NoLastHit(sha: Sha256, outputs: seq<(u32, Bytes)>)
    requires outputs != [] && CommitmentIn(sha, outputs[|outputs| - 1].1).None?
    ensures Hits(sha, outputs) == Hits(sha, outputs[..|outputs| - 1])
  {
  }

  /** Two carrying outputs give at least two hits. */
  lemma TwoHits(sha: Sha256, outputs: seq<(u32, Bytes)>, j: nat, k: nat)
    requires j < k < |outputs| && CommitmentIn(sha, outputs[j].1).Some? && CommitmentIn(sha, outputs[k].1).Some?
    ensures |Hits(sha, outputs)| >= 2
  {
    var before, after := outputs[..k], outputs[k..];
    assert outputs == before + after;
    HitsConcat(sha, before, after);
    NoHits(sha, before);
    NoHits(sha, after);
    assert before[j] == outputs[j] && after[0] == outputs[k];
  }

  /** The scan's answer is that of the whole list exactly when no output it did not examine carries a
      commitment. */
  lemma ScanIsWhole(sha: Sha256, outputs: seq<(u32, Bytes)>)
    ensures var n := Examined(outputs, 0);
            Classify(Hits(sha, outputs[..n])) == Classify(Hits(sha, outputs)) <==> NoneFrom(sha, outputs, n)
  {
    var n := Examined(outputs, 0);
    HitsSplit(sha, outputs, n);
    if Classify(Hits(sha, outputs[..n])) == Classify(Hits(sha, outputs)) {
      ClassifyLength(Hits(sha, outputs[..n]), Hits(sha, outputs));
    }
  }

  /** The outputs within the scan window. */
  function Window(outputs: seq<(u32, Bytes)>): (w: seq<(u32, Bytes)>) {
    outputs[..if |outputs| < MAX_SCAN then |outputs| else MAX_SCAN]
  }

  lemma ExaminedInWindow(outputs: seq<(u32, Bytes)>)
    ensures Examined(outputs, 0) == Examined(Window(outputs), 0)
  {
    var n := Examined(outputs, 0);
    ExaminedExact(outputs, 0, n);
    ExaminedExact(Window(outputs), 0, n);
  }

  /** Outputs past the 64th are ignored as announced. Of the outputs within the window only the oversized ones
      should be, which carry nothing: the answer is that of the whole window exactly when no output behind the
      first oversized one carries a commitment. */
  lemma ScanIsWholeWindow(sha: Sha256, outputs: seq<(u32, Bytes)>)
    ensures var n := Examined(outputs, 0);
            Classify(Hits(sha, outputs[..n])) == Classify(Hits(sha, Window(outputs))) <==>
              NoneFrom(sha, Window(outputs), n)
  {
    var n, w := Examined(outputs, 0), Window(outputs);
    ExaminedInWindow(outputs);
    ScanIsWhole(sha, w);
    assert w[..n] == outputs[..n];
  }

  /** Classification keeps the number of hits. */
  lemma ClassifyLength(a: seq<(u32, RgbPqCommitment)>, b: seq<(u32, RgbPqCommitment)>)
    requires Classify(a) == Classify(b)
    ensures |a| == |b|
  {
    if |a| > 1 {
      assert |Classify(a).vouts| == |a|;
    }
    if |b| > 1 {
      assert |Classify(b).vouts| == |b|;
    }
  }
}
