/** The canonical seal: its binary codec and its domain-separated digest. */
module Seals {
  import opened Wrappers
  import opened ByteStrings
  import opened Errors
  import opened Domains
  import opened SealTypes

  const BIN_MAGIC: Bytes := Ascii("RGBPQSEAL")

  datatype BtqP2mrSeal = BtqP2mrSeal(
    version: SealVersion,
    chainId: BtqChainId,
    outpoint: BtqOutpoint,
    p2mrRoot: Bytes32,
    scriptLeafHash: Bytes32,
    ownerAlgo: PqSigAlgo,
    commitmentLocator: CommitmentLocator,
    confirmationPolicy: ConfirmationPolicy)

  // ----- encoding ------------------------------------------------------

  function Head(s: BtqP2mrSeal): (b: Bytes)
    ensures |b| == 102
  {
    [s.chainId.ToByte()] + s.outpoint.txid + Le32(s.outpoint.vout) + s.p2mrRoot + s.scriptLeafHash
    + [s.ownerAlgo.ToByte()]
  }

  /** A string of at most 255 bytes behind a byte that says how long it is. */
  function Prefixed(b: Bytes): Bytes
    requires |b| < 256
  {
    [|b| as byte] + b
  }

  function Body(s: BtqP2mrSeal): Bytes {
    Head(s) + Prefixed(s.commitmentLocator.Encode()) + Prefixed(s.confirmationPolicy.Encode())
  }

  function Envelope(version: SealVersion): (b: Bytes)
    ensures |b| == 19
  {
    BIN_MAGIC + [version.ToByte()] + DOMAIN_TAG + [DOMAIN_SEPARATION_VERSION]
  }

  function Binary(s: BtqP2mrSeal): Bytes {
    Envelope(s.version) + Body(s)
  }

  method BodyBytes(s: BtqP2mrSeal) returns (buf: Bytes)
    ensures buf == Body(s)
  {
    buf := [s.chainId.ToByte()];
    buf := buf + s.outpoint.txid;
    buf := buf + Le32(s.outpoint.vout);
    buf := buf + s.p2mrRoot;
    buf := buf + s.scriptLeafHash;
    buf := buf + [s.ownerAlgo.ToByte()];
    var loc := s.commitmentLocator.Write();
    buf := buf + [|loc| as byte];
    buf := buf + loc;
    var pol := s.confirmationPolicy.Write();
    buf := buf + [|pol| as byte];
    buf := buf + pol;
  }

  method ToBinary(s: BtqP2mrSeal) returns (out: Bytes)
    ensures out == Binary(s)
  {
    out := BIN_MAGIC;
    out := out + [s.version.ToByte()];
    out := out + DOMAIN_TAG;
    out := out + [DOMAIN_SEPARATION_VERSION];
    var body := BodyBytes(s);
    out := out + body;
  }

  // ----- decoding ------------------------------------------------------

  function Need(b: Bytes, pos: nat, n: nat): Outcome<()> {
    if |b| < pos + n then Failure(BadLength(pos + n, |b|)) else Success(())
  }

  /** A length-prefixed item at `pos`: its bytes, and the position after it. */
  function ItemAt(b: Bytes, pos: nat): (r: Outcome<(Bytes, nat)>)
    ensures r.Success? ==> var (item, next) := r.value;
                           |item| < 256 && next <= |b| && next == pos + 1 + |item| && b[pos..next] == Prefixed(item)
  {
    var _ :- Need(b, pos, 1);
    var len := b[pos] as nat;
    var _ :- Need(b, pos + 1, len);
    var item := b[pos + 1..pos + 1 + len];
    assert b[pos..pos + 1 + len] == [b[pos]] + item;
    Success((item, pos + 1 + len))
  }

  /** The layout of a body, read at fixed offsets up to the two length-prefixed items. */
  function ParseBody(version: SealVersion, b: Bytes, dilithium5: bool): Outcome<BtqP2mrSeal> {
    var _ :- Need(b, 0, 1);
    var chainId :- ChainFromByte(b[0]);
    var _ :- Need(b, 1, 36);
    var _ :- Need(b, 37, 65);
    var ownerAlgo :- AlgoFromByte(b[101], dilithium5);
    var (locator, policy) :- ParseTail(b);
    Success(BtqP2mrSeal(version, chainId, BtqOutpoint(b[1..33], FromLittleEndian(b[33..37])),
                        b[37..69], b[69..101], ownerAlgo, locator, policy))
  }

  function ParseTail(b: Bytes): Outcome<(CommitmentLocator, ConfirmationPolicy)> {
    var (locBytes, afterLoc) :- ItemAt(b, 102);
    var (locator, locUsed) :- DecodeLocator(locBytes);
    if locUsed != |locBytes| then Failure(BadEncoding("locator length mismatch")) else
    var (polBytes, afterPol) :- ItemAt(b, afterLoc);
    var (policy, polUsed) :- DecodePolicy(polBytes);
    if polUsed != |polBytes| then Failure(BadEncoding("policy length mismatch")) else
    Success((locator, policy))
  }

  function Parse(b: Bytes, dilithium5: bool): Outcome<BtqP2mrSeal> {
    if |b| < 19 then Failure(BadEncoding("binary too short"))
    else if b[..9] != BIN_MAGIC then Failure(BadEncoding("bad magic")) else
    var version :- VersionFromByte(b[9]);
    if b[10..18] != DOMAIN_TAG then Failure(BadEncoding("bad domain tag"))
    else if b[18] != DOMAIN_SEPARATION_VERSION then Failure(UnknownVersion(b[18]))
    else ParseBody(version, b[19..], dilithium5)
  }

  /** The cursor parser. That every index is in bounds, on every input, is part of its verification. */
  method DecodeBody(version: SealVersion, b: Bytes, dilithium5: bool) returns (r: Outcome<BtqP2mrSeal>)
    ensures r == ParseBody(version, b, dilithium5)
  {
    var pos := 0;
    var _ :- Need(b, pos, 1);
    var chainId :- ChainFromByte(b[pos]);
    pos := pos + 1;
    var _ :- Need(b, pos, 32 + 4);
    var txid: Bytes32 := b[pos..pos + 32];
    pos := pos + 32;
    var voutBuf := b[pos..pos + 4];
    var vout: u32 := FromLittleEndian(voutBuf);
    pos := pos + 4;
    var _ :- Need(b, pos, 32 + 32 + 1);
    var root: Bytes32 := b[pos..pos + 32];
    pos := pos + 32;
    var leaf: Bytes32 := b[pos..pos + 32];
    pos := pos + 32;
    var ownerAlgo :- AlgoFromByte(b[pos], dilithium5);
    pos := pos + 1;
    var tail :- DecodeTail(b, pos);
    var (locator, policy) := tail;
    r := Success(BtqP2mrSeal(version, chainId, BtqOutpoint(txid, vout), root, leaf, ownerAlgo, locator, policy));
  }

  /** The rest of the cursor parser: the two length-prefixed parts. */
  method DecodeTail(b: Bytes, start: nat) returns (r: Outcome<(CommitmentLocator, ConfirmationPolicy)>)
    requires start == 102
    ensures r == ParseTail(b)
  {
    var pos := start;
    var _ :- Need(b, pos, 1);
    var locLen := b[pos] as nat;
    pos := pos + 1;
    var _ :- Need(b, pos, locLen);
    var decodedLocator :- DecodeLocator(b[pos..pos + locLen]);
    var (locator, used) := decodedLocator;
    pos := pos + used;
    if used != locLen {
      return Failure(BadEncoding("locator length mismatch"));
    }
    var _ :- Need(b, pos, 1);
    var polLen := b[pos] as nat;
    pos := pos + 1;
    var _ :- Need(b, pos, polLen);
    var decodedPolicy :- DecodePolicy(b[pos..pos + polLen]);
    var (policy, used') := decodedPolicy;
    pos := pos + used';
    if used' != polLen {
      return Failure(BadEncoding("policy length mismatch"));
    }
    r := Success((locator, policy));
  }

  method FromBinary(bytes: Bytes, dilithium5: bool) returns (r: Outcome<BtqP2mrSeal>)
    ensures r == Parse(bytes, dilithium5)
  {
    var min := |BIN_MAGIC| + 1 + |DOMAIN_TAG| + 1;
    if |bytes| < min {
      return Failure(BadEncoding("binary too short"));
    }
    if bytes[..|BIN_MAGIC|] != BIN_MAGIC {
      return Failure(BadEncoding("bad magic"));
    }
    var pos := |BIN_MAGIC|;
    var version :- VersionFromByte(bytes[pos]);
    pos := pos + 1;
    var tagEnd := pos + |DOMAIN_TAG|;
    if bytes[pos..tagEnd] != DOMAIN_TAG {
      return Failure(BadEncoding("bad domain tag"));
    }
    pos := tagEnd;
    if bytes[pos] != DOMAIN_SEPARATION_VERSION {
      return Failure(UnknownVersion(bytes[pos]));
    }
    pos := pos + 1;
    r := DecodeBody(version, bytes[pos..], dilithium5);
  }

  // ----- the codec both ways -------------------------------------------

  lemma ItemRoundTrip(item: Bytes, before: Bytes, rest: Bytes)
    requires |item| < 256
    ensures ItemAt(before + Prefixed(item) + rest, |before|) == Success((item, |before| + 1 + |item|))
  {
    var b := before + Prefixed(item) + rest;
    var pos := |before|;
    assert b[pos] == |item| as byte;
    assert b[pos + 1..pos + 1 + |item|] == item;
  }

  lemma HeadAt(s: BtqP2mrSeal, rest: Bytes)
    ensures var b := Head(s) + rest;
      && b[0] == s.chainId.ToByte() && b[1..33] == s.outpoint.txid && b[33..37] == Le32(s.outpoint.vout)
      && b[37..69] == s.p2mrRoot && b[69..101] == s.scriptLeafHash && b[101] == s.ownerAlgo.ToByte()
  {
    var b := Head(s) + rest;
    assert b[1..33] == s.outpoint.txid;
    assert b[33..37] == Le32(s.outpoint.vout);
    assert b[37..69] == s.p2mrRoot;
    assert b[69..101] == s.scriptLeafHash;
  }

  lemma TailOfEncoding(head: Bytes, loc: CommitmentLocator, pol: ConfirmationPolicy, rest: Bytes)
    requires |head| == 102
    ensures ParseTail(head + (Prefixed(loc.Encode()) + Prefixed(pol.Encode()) + rest)) == Success((loc, pol))
  {
    var l, p := loc.Encode(), pol.Encode();
    var b := head + (Prefixed(l) + Prefixed(p) + rest);
    assert b == head + Prefixed(l) + (Prefixed(p) + rest);
    ItemRoundTrip(l, head, Prefixed(p) + rest);
    assert b == (head + Prefixed(l)) + Prefixed(p) + rest;
    ItemRoundTrip(p, head + Prefixed(l), rest);
    LocatorCodec(l, loc, |l|);
    PolicyCodec(p, pol, |p|);
  }

  lemma ParseFromHead(s: BtqP2mrSeal, b: Bytes, dilithium5: bool)
    requires s.ownerAlgo.Accepted(dilithium5)
    requires |b| >= 102 && ParseTail(b) == Success((s.commitmentLocator, s.confirmationPolicy))
    requires b[0] == s.chainId.ToByte() && b[1..33] == s.outpoint.txid && b[33..37] == Le32(s.outpoint.vout)
    requires b[37..69] == s.p2mrRoot && b[69..101] == s.scriptLeafHash && b[101] == s.ownerAlgo.ToByte()
    ensures ParseBody(s.version, b, dilithium5) == Success(s)
  {
  }

  lemma ParseOfBody(s: BtqP2mrSeal, rest: Bytes, dilithium5: bool)
    requires s.ownerAlgo.Accepted(dilithium5)
    ensures ParseBody(s.version, Body(s) + rest, dilithium5) == Success(s)
  {
    var afterHead := Prefixed(s.commitmentLocator.Encode()) + Prefixed(s.confirmationPolicy.Encode()) + rest;
    assert Body(s) + rest == Head(s) + afterHead;
    HeadAt(s, afterHead);
    TailOfEncoding(Head(s), s.commitmentLocator, s.confirmationPolicy, rest);
    ParseFromHead(s, Head(s) + afterHead, dilithium5);
  }

  lemma HeadPieces(b: Bytes)
    requires |b| >= 102
    ensures b[..102] == [b[0]] + b[1..33] + b[33..37] + b[37..69] + b[69..101] + [b[101]]
  {
  }

  lemma PrefixJoin(front: Bytes, back: Bytes, b: Bytes)
    requires front <= b && back <= b[|front|..]
    ensures front + back <= b
  {
    assert b[..|front| + |back|] == b[..|front|] + b[|front|..][..|back|];
  }

  lemma HeadOfParse(version: SealVersion, b: Bytes, dilithium5: bool)
    requires ParseBody(version, b, dilithium5).Success?
    ensures var s := ParseBody(version, b, dilithium5).value;
      s.version == version && s.ownerAlgo.Accepted(dilithium5) && |b| >= 102 && Head(s) == b[..102]
      && ParseTail(b) == Success((s.commitmentLocator, s.confirmationPolicy))
  {
    FromLittleEndianRoundTrip(b[33..37]);
    HeadPieces(b);
  }

  lemma AdjacentSlices(b: Bytes, i: nat, j: nat, k: nat)
    requires i <= j <= k <= |b|
    ensures b[i..j] + b[j..k] <= b[i..]
  {
    SliceOfRest(b, i, 0, k - i);
    assert b[i..k] == b[i..j] + b[j..k];
  }

  lemma TailOfParse(b: Bytes)
    requires |b| >= 102 && ParseTail(b).Success?
    ensures var (locator, policy) := ParseTail(b).value;
      Prefixed(locator.Encode()) + Prefixed(policy.Encode()) <= b[102..]
  {
    var (locator, policy) := ParseTail(b).value;
    var (locBytes, afterLoc) := ItemAt(b, 102).value;
    var (polBytes, afterPol) := ItemAt(b, afterLoc).value;
    LocatorCodec(locBytes, locator, |locBytes|);
    PolicyCodec(polBytes, policy, |polBytes|);
    assert locBytes == locator.Encode() && polBytes == policy.Encode();
    AdjacentSlices(b, 102, afterLoc, afterPol);
  }

  lemma BodyOfParse(version: SealVersion, b: Bytes, dilithium5: bool)
    requires ParseBody(version, b, dilithium5).Success?
    ensures var s := ParseBody(version, b, dilithium5).value;
      s.version == version && s.ownerAlgo.Accepted(dilithium5) && Body(s) <= b
  {
    var s := ParseBody(version, b, dilithium5).value;
    HeadOfParse(version, b, dilithium5);
    TailOfParse(b);
    var tail := Prefixed(s.commitmentLocator.Encode()) + Prefixed(s.confirmationPolicy.Encode());
    PrefixJoin(Head(s), tail, b);
    assert Body(s) == Head(s) + tail;
  }

  lemma EnvelopeAt(version: SealVersion, b: Bytes)
    ensures Envelope(version) <= b <==>
      |b| >= 19 && b[..9] == BIN_MAGIC && b[9] == version.ToByte() && b[10..18] == DOMAIN_TAG
      && b[18] == DOMAIN_SEPARATION_VERSION
  {
    var e := Envelope(version);
    assert e[..9] == BIN_MAGIC && e[10..18] == DOMAIN_TAG;
    if |b| >= 19 {
      assert b[..19] == b[..9] + [b[9]] + b[10..18] + [b[18]];
      if e <= b {
        assert b[..9] == e[..9] && b[10..18] == e[10..18];
      }
    }
  }

  lemma BinaryOfParse(b: Bytes, s: BtqP2mrSeal, dilithium5: bool)
    requires Parse(b, dilithium5) == Success(s)
    ensures Binary(s) <= b && s.ownerAlgo.Accepted(dilithium5)
  {
    BodyOfParse(V0, b[19..], dilithium5);
    EnvelopeAt(V0, b);
    PrefixJoin(Envelope(V0), Body(s), b);
  }

  lemma ParseOfBinary(b: Bytes, s: BtqP2mrSeal, dilithium5: bool)
    requires Binary(s) <= b && s.ownerAlgo.Accepted(dilithium5)
    ensures Parse(b, dilithium5) == Success(s)
  {
    var rest := b[|Binary(s)|..];
    assert b == Envelope(s.version) + (Body(s) + rest);
    assert Envelope(s.version) <= b;
    EnvelopeAt(s.version, b);
    assert b[19..] == Body(s) + rest;
    assert s.version.V0?;
    ParseOfBody(s, rest, dilithium5);
  }

  /** The codec, both ways and on every input: bytes decode to a seal exactly when they begin with that seal's
      encoding and the build accepts its algorithm. */
  lemma SealCodec(b: Bytes, s: BtqP2mrSeal, dilithium5: bool)
    ensures Parse(b, dilithium5) == Success(s) <==> Binary(s) <= b && s.ownerAlgo.Accepted(dilithium5)
  {
    if Parse(b, dilithium5) == Success(s) {
      BinaryOfParse(b, s, dilithium5);
    }
    if Binary(s) <= b && s.ownerAlgo.Accepted(dilithium5) {
      ParseOfBinary(b, s, dilithium5);
    }
  }

  /** No encoding is a proper prefix of another, so the encoding determines the seal. */
  lemma BinaryPrefixFree(s: BtqP2mrSeal, s': BtqP2mrSeal, rest: Bytes, rest': Bytes)
    requires Binary(s) + rest == Binary(s') + rest'
    ensures s == s' && rest == rest'
  {
    var b := Binary(s) + rest;
    SealCodec(b, s, true);
    SealCodec(b, s', true);
    SplitConcat(Binary(s), rest, Binary(s'), rest');
  }

  /** The decoder does not insist on consuming its input: any bytes after an accepted input are ignored. */
  lemma TrailingBytesIgnored(b: Bytes, rest: Bytes, dilithium5: bool)
    requires Parse(b, dilithium5).Success?
    ensures Parse(b + rest, dilithium5) == Parse(b, dilithium5)
  {
    var s := Parse(b, dilithium5).value;
    SealCodec(b, s, dilithium5);
    SealCodec(b + rest, s, dilithium5);
  }

  /** Nothing is left over exactly when the input is as long as its two length bytes say: this can be read off
      the input, and makes an accepted input the encoding of what it decodes to. */
  lemma ConsumedExactly(b: Bytes, dilithium5: bool)
    requires Parse(b, dilithium5).Success?
    ensures 121 < |b| && 122 + b[121] as nat < |b|
    ensures b == Binary(Parse(b, dilithium5).value) <==> |b| == 123 + b[121] as nat + b[122 + b[121] as nat] as nat
  {
    var s := Parse(b, dilithium5).value;
    SealCodec(b, s, dilithium5);
    BinaryLengths(s);
    var e := Binary(s);
    assert b[121] == e[121] && b[122 + e[121] as nat] == e[122 + e[121] as nat];
  }

  lemma BinaryLengths(s: BtqP2mrSeal)
    ensures var e := Binary(s);
      && 121 < |e| && 122 + e[121] as nat < |e|
      && |e| == 123 + e[121] as nat + e[122 + e[121] as nat] as nat
  {
    var loc, pol := s.commitmentLocator.Encode(), s.confirmationPolicy.Encode();
    var front := Envelope(s.version) + Head(s);
    assert |front| == 121;
    assert Binary(s) == front + Prefixed(loc) + Prefixed(pol);
    assert Binary(s)[121] == |loc| as byte;
    assert Binary(s)[122 + |loc|] == |pol| as byte;
  }

  lemma GatedHead(s: BtqP2mrSeal)
    requires s.ownerAlgo == Dilithium5
    ensures ParseBody(s.version, Body(s), false) == Failure(FeatureGated)
  {
    var afterHead := Prefixed(s.commitmentLocator.Encode()) + Prefixed(s.confirmationPolicy.Encode());
    assert Body(s) == Head(s) + afterHead;
    HeadAt(s, afterHead);
  }

  /** Printing and parsing give the seal back exactly when the build accepts its algorithm; the other seals
      are refused as feature-gated. */
  lemma ParseOfPrinted(s: BtqP2mrSeal, dilithium5: bool)
    ensures Parse(Binary(s), dilithium5) ==
      if s.ownerAlgo.Accepted(dilithium5) then Success(s) else Failure(FeatureGated)
  {
    if s.ownerAlgo.Accepted(dilithium5) {
      SealCodec(Binary(s), s, dilithium5);
    } else {
      GatedHead(s);
      EnvelopeAt(s.version, Binary(s));
      assert s.version.V0?;
      assert Binary(s)[19..] == Body(s);
    }
  }

  /** The bytes of an encoding, with magic, tag and versions written out. */
  lemma BinaryLayout(s: BtqP2mrSeal)
    ensures var e, loc, pol := Binary(s), s.commitmentLocator.Encode(), s.confirmationPolicy.Encode();
      && |e| == 123 + |loc| + |pol|
      && e[..9] == Ascii("RGBPQSEAL") && e[9] == 0 && e[10..18] == Ascii("rgbpq:v0") && e[18] == 0
      && e[19] == s.chainId.ToByte() && e[20..52] == s.outpoint.txid && e[52..56] == Le32(s.outpoint.vout)
      && e[56..88] == s.p2mrRoot && e[88..120] == s.scriptLeafHash && e[120] == s.ownerAlgo.ToByte()
      && e[121] as nat == |loc| && e[122..122 + |loc|] == loc
      && e[122 + |loc|] as nat == |pol| && e[123 + |loc|..] == pol
  {
    var e, loc, pol := Binary(s), s.commitmentLocator.Encode(), s.confirmationPolicy.Encode();
    EnvelopeAt(s.version, e);
    assert Envelope(s.version) <= e;
    BodyLayout(s);
    var body := Body(s);
    assert e[19..] == body;
    assert e[19] == body[0] && e[120] == body[101] && e[121] == body[102] && e[122 + |loc|] == body[103 + |loc|];
    SliceShift(Envelope(s.version), body, 1, 33);
    SliceShift(Envelope(s.version), body, 33, 37);
    SliceShift(Envelope(s.version), body, 37, 69);
    SliceShift(Envelope(s.version), body, 69, 101);
    SliceShift(Envelope(s.version), body, 103, 103 + |loc|);
    SliceShift(Envelope(s.version), body, 104 + |loc|, |body|);
  }

  lemma SliceShift(front: Bytes, back: Bytes, i: nat, j: nat)
    requires i <= j <= |back|
    ensures (front + back)[|front| + i..|front| + j] == back[i..j]
  {
  }

  lemma BodyLayout(s: BtqP2mrSeal)
    ensures var b, loc, pol := Body(s), s.commitmentLocator.Encode(), s.confirmationPolicy.Encode();
      && |b| == 104 + |loc| + |pol|
      && b[0] == s.chainId.ToByte() && b[1..33] == s.outpoint.txid && b[33..37] == Le32(s.outpoint.vout)
      && b[37..69] == s.p2mrRoot && b[69..101] == s.scriptLeafHash && b[101] == s.ownerAlgo.ToByte()
      && b[102] as nat == |loc| && b[103..103 + |loc|] == loc
      && b[103 + |loc|] as nat == |pol| && b[104 + |loc|..] == pol
  {
    var b, loc, pol := Body(s), s.commitmentLocator.Encode(), s.confirmationPolicy.Encode();
    var tail := Prefixed(loc) + Prefixed(pol);
    assert b == Head(s) + tail;
    HeadAt(s, tail);
    assert tail[0] as nat == |loc| && tail[1..1 + |loc|] == loc;
    assert tail[1 + |loc|] as nat == |pol| && tail[2 + |loc|..] == pol;
    assert b[102] == tail[0] && b[103 + |loc|] == tail[1 + |loc|];
    SliceShift(Head(s), tail, 1, 1 + |loc|);
    SliceShift(Head(s), tail, 2 + |loc|, |tail|);
  }

  /** Why an input is refused before its body is looked at: exactly which check of the envelope fails first. */
  lemma EnvelopeRefusals(b: Bytes, dilithium5: bool)
    ensures |b| < 19 ==> Parse(b, dilithium5) == Failure(BadEncoding("binary too short"))
    ensures |b| >= 19 && b[..9] != Ascii("RGBPQSEAL") ==> Parse(b, dilithium5) == Failure(BadEncoding("bad magic"))
    ensures |b| >= 19 && b[..9] == Ascii("RGBPQSEAL") && b[9] != 0 ==>
      Parse(b, dilithium5) == Failure(UnknownVersion(b[9]))
    ensures |b| >= 19 && b[..10] == Ascii("RGBPQSEAL") + [0] && b[10..18] != Ascii("rgbpq:v0") ==>
      Parse(b, dilithium5) == Failure(BadEncoding("bad domain tag"))
    ensures |b| >= 19 && b[..18] == Ascii("RGBPQSEAL") + [0] + Ascii("rgbpq:v0") && b[18] != 0 ==>
      Parse(b, dilithium5) == Failure(UnknownVersion(b[18]))
  {
    if |b| >= 19 {
      assert b[..10] == b[..9] + [b[9]] && b[..18] == b[..10] + b[10..18];
      if b[..10] == Ascii("RGBPQSEAL") + [0] {
        SplitConcat(b[..9], [b[9]], Ascii("RGBPQSEAL"), [0]);
      }
      if b[..18] == Ascii("RGBPQSEAL") + [0] + Ascii("rgbpq:v0") {
        SplitConcat(b[..10], b[10..18], Ascii("RGBPQSEAL") + [0], Ascii("rgbpq:v0"));
      }
    }
  }

  /** Why a body is refused: which check up to the two length-prefixed parts fails first, by position. */
  lemma HeadRefusals(version: SealVersion, b: Bytes, dilithium5: bool)
    requires ParseBody(version, b, dilithium5).Failure?
    ensures ParseBody(version, b, dilithium5).error ==
      if |b| < 1 then BadLength(1, 0)
      else if b[0] != 1 && b[0] != 2 then UnknownChainId
      else if |b| < 37 then BadLength(37, |b|)
      else if |b| < 102 then BadLength(102, |b|)
      else if b[101] == 2 && !dilithium5 then FeatureGated
      else if b[101] != 1 && b[101] != 2 then UnsupportedAlgo(b[101])
      else ParseTail(b).error
  {
  }

  /** And which check of the two parts: each must hold its length byte, as many bytes, and nothing beside what
      its decoder takes. */
  lemma TailRefusals(b: Bytes)
    requires |b| >= 102 && ParseTail(b).Failure?
    ensures ParseTail(b).error ==
      if |b| < 103 then BadLength(103, |b|)
      else if |b| < 103 + b[102] as nat then BadLength(103 + b[102] as nat, |b|)
      else
        var end := 103 + b[102] as nat;
        var locator := DecodeLocator(b[103..end]);
        if locator.Failure? then locator.error
        else if locator.value.1 != b[102] as nat then BadEncoding("locator length mismatch")
        else if |b| < end + 1 then BadLength(end + 1, |b|)
        else if |b| < end + 1 + b[end] as nat then BadLength(end + 1 + b[end] as nat, |b|)
        else
          var policy := DecodePolicy(b[end + 1..end + 1 + b[end] as nat]);
          if policy.Failure? then policy.error else BadEncoding("policy length mismatch")
  {
  }

  // ----- the canonical digest ------------------------------------------

  function CanonicalPreimage(s: BtqP2mrSeal): Bytes {
    P2mrDomain(s.chainId).Prefix() + [s.version.ToByte()] + Body(s)
  }

  method CanonicalDigest(sha: Sha256, s: BtqP2mrSeal) returns (digest: Bytes32)
    ensures digest == sha(CanonicalPreimage(s))
  {
    var prefix := P2mrDomain(s.chainId).Prefixed();
    prefix := prefix + [s.version.ToByte()];
    var body := BodyBytes(s);
    digest := sha(prefix + body);
  }

  /** The string that is hashed: 38 prefix bytes, the version byte, and the body as in the encoding. */
  lemma CanonicalLayout(s: BtqP2mrSeal)
    ensures var p := CanonicalPreimage(s);
      && |p| == |Binary(s)| + 20
      && p[..38] == P2mrDomain(s.chainId).Prefix()
      && p[38] == 0
      && p[39..] == Binary(s)[19..]
  {
    P2mrDomainFacts(s.chainId);
    var p := CanonicalPreimage(s);
    assert p[..38] == P2mrDomain(s.chainId).Prefix();
    assert p[39..] == Body(s) == Binary(s)[19..];
  }

  lemma CanonicalPreimageInjective(s: BtqP2mrSeal, s': BtqP2mrSeal)
    requires CanonicalPreimage(s) == CanonicalPreimage(s')
    ensures s == s'
  {
    P2mrDomainFacts(s.chainId);
    P2mrDomainFacts(s'.chainId);
    SplitConcat(P2mrDomain(s.chainId).Prefix() + [s.version.ToByte()], Body(s),
                P2mrDomain(s'.chainId).Prefix() + [s'.version.ToByte()], Body(s'));
    assert Binary(s) + [] == Binary(s') + [];
    BinaryPrefixFree(s, s', [], []);
  }

  /** Changing any field changes the digest, or the two preimages collide. */
  lemma CanonicalDigestBinding(sha: Sha256, s: BtqP2mrSeal, s': BtqP2mrSeal)
    requires sha(CanonicalPreimage(s)) == sha(CanonicalPreimage(s'))
    ensures s == s' || Collides(sha, {CanonicalPreimage(s), CanonicalPreimage(s')})
  {
    EqualDigests(sha, CanonicalPreimage(s), CanonicalPreimage(s'), {CanonicalPreimage(s), CanonicalPreimage(s')});
    if CanonicalPreimage(s) == CanonicalPreimage(s') {
      CanonicalPreimageInjective(s, s');
    }
  }
}
