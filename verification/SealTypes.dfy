/** The primitives a seal is composed of, with their byte forms. */
module SealTypes {
  import opened Wrappers
  import opened ByteStrings
  import opened Errors
  import opened Domains

  datatype BtqChainId = BitcoinQuantumRegtest | BitcoinQuantumTestnet {
    function DomainStr(): Bytes {
      match this
      case BitcoinQuantumRegtest => Ascii("bitcoin-quantum-regtest")
      case BitcoinQuantumTestnet => Ascii("bitcoin-quantum-testnet")
    }

    function ToByte(): byte {
      match this
      case BitcoinQuantumRegtest => 0x01
      case BitcoinQuantumTestnet => 0x02
    }
  }

  function ChainFromByte(b: byte): Outcome<BtqChainId> {
    match b
    case 0x01 => Success(BitcoinQuantumRegtest)
    case 0x02 => Success(BitcoinQuantumTestnet)
    case _ => Failure(UnknownChainId)
  }

  /** The domain of every digest on a chain. */
  function P2mrDomain(chain: BtqChainId): Domain {
    Domain(chain.DomainStr(), P2MR_SEAL_TYPE)
  }

  lemma P2mrDomainFacts(chain: BtqChainId)
    ensures |P2mrDomain(chain).Prefix()| == 38
    ensures 0 !in P2mrDomain(chain).chain && 0 !in P2mrDomain(chain).sealType
    ensures P2mrDomain(chain).chain[16] as int == (if chain == BitcoinQuantumRegtest then 'r' else 't') as int
  {
    assert |DOMAIN_TAG| == 8 && |P2MR_SEAL_TYPE| == 4 && |chain.DomainStr()| == 23;
  }

  /** The 38 bytes under every digest of a chain. */
  lemma P2mrPrefixExact(chain: BtqChainId)
    ensures P2mrDomain(chain).Prefix() ==
      Ascii("rgbpq:v0") + [0]
      + (if chain == BitcoinQuantumRegtest then Ascii("bitcoin-quantum-regtest") else Ascii("bitcoin-quantum-testnet"))
      + [0] + Ascii("p2mr") + [0]
  {
  }

  datatype SealVersion = V0 {
    function ToByte(): byte { 0x00 }
  }

  function VersionFromByte(b: byte): Outcome<SealVersion> {
    if b == 0x00 then Success(V0) else Failure(UnknownVersion(b))
  }

  datatype PqSigAlgo = Dilithium2 | Dilithium5 {
    function ToByte(): byte {
      match this
      case Dilithium2 => 0x01
      case Dilithium5 => 0x02
    }

    /** Whether a build with or without the `dilithium5` feature accepts the algorithm. */
    predicate Accepted(dilithium5: bool) {
      Dilithium2? || dilithium5
    }
  }

  function AlgoFromByte(b: byte, dilithium5: bool): Outcome<PqSigAlgo> {
    match b
    case 0x01 => Success(Dilithium2)
    case 0x02 => if dilithium5 then Success(Dilithium5) else Failure(FeatureGated)
    case _ => Failure(UnsupportedAlgo(b))
  }

  datatype CommitmentLocator = OpretVout(vout: u32) | OpretFirst | P2mrRetLeaf {
    predicate IsP2mrRet() { P2mrRetLeaf? }

    function Encode(): (b: Bytes)
      ensures |b| == if OpretVout? then 5 else 1
    {
      match this
      case OpretVout(v) => [0x01] + Le32(v)
      case OpretFirst => [0x02]
      case P2mrRetLeaf => [0x03]
    }

    method Write() returns (out: Bytes)
      ensures out == Encode()
    {
      match this
      case OpretVout(v) =>
        out := [0x01];
        out := out + Le32(v);
      case OpretFirst => out := [0x02];
      case P2mrRetLeaf => out := [0x03];
    }
  }

  /** The locator and how many bytes it took. */
  function DecodeLocator(b: Bytes): Outcome<(CommitmentLocator, nat)> {
    if b == [] then Failure(BadEncoding("empty locator"))
    else match b[0]
      case 0x02 => Success((OpretFirst, 1))
      case 0x03 => Success((P2mrRetLeaf, 1))
      case 0x01 =>
        if |b| < 5 then Failure(BadLength(5, |b|))
        else Success((OpretVout(FromLittleEndian(b[1..5])), 5))
      case _ => Failure(UnsupportedTag(b[0]))
  }

  /** A decoder reads back exactly what the encoder wrote, and reads nothing else. */
  lemma LocatorCodec(b: Bytes, loc: CommitmentLocator, n: nat)
    ensures DecodeLocator(b) == Success((loc, n)) <==> n == |loc.Encode()| && loc.Encode() <= b
  {
    TaggedU32Codec(b, 0x01);
    if loc.Encode() <= b {
      assert b[0] == loc.Encode()[0];
      if loc.OpretVout? {
        assert b[..5] == loc.Encode() && b[1..5] == Le32(loc.vout);
      }
    }
  }

  lemma TaggedU32Codec(b: Bytes, tag: byte)
    ensures |b| >= 5 && b[0] == tag ==> [tag] + Le32(FromLittleEndian(b[1..5])) == b[..5]
  {
    if |b| >= 5 && b[0] == tag {
      FromLittleEndianRoundTrip(b[1..5]);
      assert b[..5] == [tag] + b[1..5];
    }
  }

  datatype ConfirmationPolicy = OneConf | Depth(n: u32) {
    function RequiredDepth(): u32 {
      match this
      case OneConf => 1
      case Depth(n) => if n >= 1 then n else 1
    }

    function Encode(): (b: Bytes)
      ensures |b| == if Depth? then 5 else 1
    {
      match this
      case OneConf => [0x01]
      case Depth(n) => [0x02] + Le32(n)
    }

    method Write() returns (out: Bytes)
      ensures out == Encode()
    {
      match this
      case OneConf => out := [0x01];
      case Depth(n) =>
        out := [0x02];
        out := out + Le32(n);
    }
  }

  function DecodePolicy(b: Bytes): Outcome<(ConfirmationPolicy, nat)> {
    if b == [] then Failure(BadEncoding("empty policy"))
    else match b[0]
      case 0x01 => Success((OneConf, 1))
      case 0x02 =>
        if |b| < 5 then Failure(BadLength(5, |b|))
        else Success((Depth(FromLittleEndian(b[1..5])), 5))
      case _ => Failure(UnsupportedTag(b[0]))
  }

  lemma PolicyCodec(b: Bytes, policy: ConfirmationPolicy, n: nat)
    ensures DecodePolicy(b) == Success((policy, n)) <==> n == |policy.Encode()| && policy.Encode() <= b
  {
    TaggedU32Codec(b, 0x02);
    if policy.Encode() <= b {
      assert b[0] == policy.Encode()[0];
      if policy.Depth? {
        assert b[..5] == policy.Encode() && b[1..5] == Le32(policy.n);
      }
    }
  }

  /** The bytes that stand for the alternatives, and nothing else does; why the decoders refuse what they refuse. */
  lemma WireBytes(b: byte, dilithium5: bool)
    ensures BitcoinQuantumRegtest.ToByte() == 1 && BitcoinQuantumTestnet.ToByte() == 2
    ensures Dilithium2.ToByte() == 1 && Dilithium5.ToByte() == 2 && V0.ToByte() == 0
    ensures forall chain :: ChainFromByte(b) == Success(chain) <==> b == chain.ToByte()
    ensures ChainFromByte(b).Failure? ==> ChainFromByte(b) == Failure(UnknownChainId)
    ensures VersionFromByte(b) == if b == 0 then Success(V0) else Failure(UnknownVersion(b))
    ensures forall algo ::
      AlgoFromByte(b, dilithium5) == Success(algo) <==> b == algo.ToByte() && (algo == Dilithium5 ==> dilithium5)
    ensures AlgoFromByte(b, dilithium5) == Failure(FeatureGated) <==> b == 2 && !dilithium5
    ensures AlgoFromByte(b, dilithium5) == Failure(UnsupportedAlgo(b)) <==> b != 1 && b != 2
  {
  }

  /** The encodings of locators and policies byte by byte, and the errors of their decoders. */
  lemma LocatorBytes(n: u32, b: Bytes)
    ensures OpretVout(n).Encode() == [1, (n % 256) as byte, (n / 0x100 % 256) as byte, (n / 0x1_0000 % 256) as byte,
                                      (n / 0x100_0000) as byte]
    ensures OpretFirst.Encode() == [2] && P2mrRetLeaf.Encode() == [3]
    ensures DecodeLocator(b).Failure? ==>
      DecodeLocator(b).error == if b == [] then BadEncoding("empty locator")
                                else if b[0] == 1 then BadLength(5, |b|) else UnsupportedTag(b[0])
  {
    FourBytes(n);
  }

  lemma PolicyBytes(n: u32, b: Bytes)
    ensures Depth(n).Encode() == [2, (n % 256) as byte, (n / 0x100 % 256) as byte, (n / 0x1_0000 % 256) as byte,
                                  (n / 0x100_0000) as byte]
    ensures OneConf.Encode() == [1]
    ensures DecodePolicy(b).Failure? ==>
      DecodePolicy(b).error == if b == [] then BadEncoding("empty policy")
                               else if b[0] == 2 then BadLength(5, |b|) else UnsupportedTag(b[0])
  {
    FourBytes(n);
  }

  datatype BtqOutpoint = BtqOutpoint(txid: Bytes32, vout: u32)
}
