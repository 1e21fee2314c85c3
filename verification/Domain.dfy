/** The domain-separation prefix under every digest. */
module Domains {
  import opened ByteStrings

  const DOMAIN_TAG: Bytes := Ascii("rgbpq:v0")
  const DOMAIN_SEPARATION_VERSION: byte := 0
  const P2MR_SEAL_TYPE: Bytes := Ascii("p2mr")

  /** A `Vec<u8>` that a caller lends out to be appended to. */
  class Buffer {
    var bytes: Bytes

    constructor ()
      ensures bytes == []
    {
      bytes := [];
    }
  }

  datatype Domain = Domain(chain: Bytes, sealType: Bytes) {
    function Prefix(): Bytes {
      DOMAIN_TAG + [DOMAIN_SEPARATION_VERSION] + chain + [0] + sealType + [0]
    }

    method WritePrefix(buf: Buffer)
      modifies buf
      ensures buf.bytes == old(buf.bytes) + Prefix()
    {
      buf.bytes := buf.bytes + DOMAIN_TAG;
      buf.bytes := buf.bytes + [DOMAIN_SEPARATION_VERSION];
      buf.bytes := buf.bytes + chain;
      buf.bytes := buf.bytes + [0];
      buf.bytes := buf.bytes + sealType;
      buf.bytes := buf.bytes + [0];
    }

    method Prefixed() returns (v: Bytes)
      ensures v == Prefix()
    {
      var buf := new Buffer();
      WritePrefix(buf);
      v := buf.bytes;
    }
  }

  /** The bytes of a prefix, with the tag and the version written out. */
  lemma PrefixLayout(d: Domain)
    ensures var p, n, m := d.Prefix(), |d.chain|, |d.sealType|;
      && |p| == 11 + n + m
      && p[..8] == Ascii("rgbpq:v0") && p[8] == 0
      && p[9..9 + n] == d.chain && p[9 + n] == 0
      && p[10 + n..10 + n + m] == d.sealType && p[10 + n + m] == 0
  {
    var p, n, m := d.Prefix(), |d.chain|, |d.sealType|;
    assert p[..8] == DOMAIN_TAG;
    assert p[9..9 + n] == d.chain;
    assert p[10 + n..10 + n + m] == d.sealType;
  }

  /** Text up to its first NUL can be read back whatever follows the NUL. */
  lemma {:induction false} NulSeparated(a: Bytes, rest: Bytes, a': Bytes, rest': Bytes)
    requires 0 !in a && 0 !in a'
    requires a + [0] + rest == a' + [0] + rest'
    ensures a == a' && rest == rest'
  {
    var whole, whole' := a + [0] + rest, a' + [0] + rest';
    assert whole[|a|] == 0 && whole'[|a'|] == 0;
    assert forall i :: 0 <= i < |a| ==> whole[i] == a[i];
    assert forall i :: 0 <= i < |a'| ==> whole'[i] == a'[i];
    assert a + ([0] + rest) == a' + ([0] + rest') by {
      assert whole == a + ([0] + rest) && whole' == a' + ([0] + rest');
    }
    SplitConcat(a, [0] + rest, a', [0] + rest');
    SplitConcat([0], rest, [0], rest');
  }

  /** The prefix names its chain and seal type and can be told from what follows it: for any NUL-free names,
      and not only those of today's chains, two prefixed messages that agree have one domain and one rest. */
  lemma PrefixInjective(d: Domain, rest: Bytes, d': Domain, rest': Bytes)
    requires 0 !in d.chain && 0 !in d.sealType && 0 !in d'.chain && 0 !in d'.sealType
    requires d.Prefix() + rest == d'.Prefix() + rest'
    ensures d == d' && rest == rest'
  {
    var head := DOMAIN_TAG + [DOMAIN_SEPARATION_VERSION];
    assert d.Prefix() + rest == head + (d.chain + [0] + (d.sealType + [0] + rest));
    assert d'.Prefix() + rest' == head + (d'.chain + [0] + (d'.sealType + [0] + rest'));
    SplitConcat(head, d.chain + [0] + (d.sealType + [0] + rest), head, d'.chain + [0] + (d'.sealType + [0] + rest'));
    NulSeparated(d.chain, d.sealType + [0] + rest, d'.chain, d'.sealType + [0] + rest');
    NulSeparated(d.sealType, rest, d'.sealType, rest');
  }
}
