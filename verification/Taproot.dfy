/** Tagged hashes, CompactSize, leaf and branch hashes, and Merkle-path verification. */
module Taproot {
  import opened Wrappers
  import opened ByteStrings

  /** A script: its length is a Rust `usize`, so it is below 2^64. */
  type Script = s: Bytes | |s| < 0x1_0000_0000_0000_0000

  const LEAF_TAG: Bytes := Ascii("TapLeaf")
  const BRANCH_TAG: Bytes := Ascii("TapBranch")

  // ----- CompactSize ---------------------------------------------------

  function CompactSize(n: u64): (b: Bytes)
    ensures 1 <= |b| <= 9
  {
    if n < 0xfd then [n as byte]
    else if n <= 0xffff then [0xfd] + LittleEndian(n, 2)
    else if n <= 0xffff_ffff then [0xfe] + LittleEndian(n, 4)
    else [0xff] + LittleEndian(n, 8)
  }

  method WriteCompactSize(len: u64) returns (v: Bytes)
    ensures v == CompactSize(len)
  {
    if len < 0xfd {
      v := [len as byte];
    } else if len <= 0xffff {
      v := [0xfd];
      v := v + LittleEndian(len, 2);
    } else if len <= 0xffff_ffff {
      v := [0xfe];
      v := v + LittleEndian(len, 4);
    } else {
      v := [0xff];
      v := v + LittleEndian(len, 8);
    }
  }

  /** The four forms, byte by byte. */
  lemma CompactSizeForms(n: u64)
    ensures n < 0xfd ==> CompactSize(n) == [n as byte]
    ensures 0xfd <= n <= 0xffff ==> CompactSize(n) == [0xfd, (n % 256) as byte, (n / 256) as byte]
    ensures 0x1_0000 <= n <= 0xffff_ffff ==>
      CompactSize(n) == [0xfe, (n % 256) as byte, (n / 0x100 % 256) as byte, (n / 0x1_0000 % 256) as byte,
                         (n / 0x100_0000) as byte]
    ensures n >= 0x1_0000_0000 ==> CompactSize(n) == [0xff] + Le32(n % 0x1_0000_0000) + Le32(n / 0x1_0000_0000)
  {
    if 0xfd <= n <= 0xffff {
      TwoBytes(n);
    } else if 0x1_0000 <= n <= 0xffff_ffff {
      FourBytes(n);
      assert LittleEndian(n, 4) == Le32(n);
    } else if n >= 0x1_0000_0000 {
      EightBytes(n);
    }
  }

  /** How many bytes follow the first byte of a CompactSize. */
  function CompactSizeTail(first: byte): nat {
    if first < 0xfd then 0 else if first == 0xfd then 2 else if first == 0xfe then 4 else 8
  }

  /** A reference reader, which the repository does not have: the number at the front of `b` and the bytes it
      takes. It accepts over-long forms, so that minimality of the writer is a real statement. */
  function ReadCompactSize(b: Bytes): (r: Option<(nat, nat)>)
  {
    if |b| == 0 then None
    else
      var tail := CompactSizeTail(b[0]);
      if |b| < 1 + tail then None
      else if tail == 0 then Some((b[0] as nat, 1))
      else Some((FromLittleEndian(b[1..1 + tail]), 1 + tail))
  }

  /** The reader inverts the writer whatever follows: CompactSize is injective and prefix-free. */
  lemma CompactSizeRoundTrip(n: u64, rest: Bytes)
    ensures ReadCompactSize(CompactSize(n) + rest) == Some((n, |CompactSize(n)|))
  {
    var b := CompactSize(n) + rest;
    var tail := CompactSizeTail(b[0]);
    if tail > 0 {
      LittleEndianRoundTrip(n, tail);
      assert b[1..1 + tail] == LittleEndian(n, tail);
    }
  }

  /** No encoding of a number that the reader accepts is shorter than the writer's, and one as short is the
      writer's. */
  lemma CompactSizeMinimal(b: Bytes)
    requires ReadCompactSize(b).Some?
    ensures var (n, used) := ReadCompactSize(b).value;
            && n < 0x1_0000_0000_0000_0000
            && |CompactSize(n)| <= used <= |b|
            && (|CompactSize(n)| == used ==> b[..used] == CompactSize(n))
  {
    var (n, used) := ReadCompactSize(b).value;
    var tail := CompactSizeTail(b[0]);
    if tail > 0 {
      FromLittleEndianRoundTrip(b[1..1 + tail]);
      assert b[..used] == [b[0]] + b[1..1 + tail];
    } else {
      assert b[..1] == [b[0]];
    }
  }

  // ----- tagged hashes -------------------------------------------------

  function TaggedMessage(sha: Sha256, tag: Bytes, msg: Bytes): Bytes {
    sha(tag) + sha(tag) + msg
  }

  function TaggedHash(sha: Sha256, tag: Bytes, msg: Bytes): Bytes32 {
    sha(TaggedMessage(sha, tag, msg))
  }

  method ComputeTaggedHash(sha: Sha256, tag: Bytes, msg: Bytes) returns (out: Bytes32)
    ensures out == TaggedHash(sha, tag, msg)
  {
    var tagHash := sha(tag);
    var h := tagHash;
    h := h + tagHash;
    h := h + msg;
    out := sha(h);
  }

  /** Equal tagged hashes have one tag and one message, or two of the four strings that were hashed collide. */
  lemma TaggedHashBinding(sha: Sha256, tag: Bytes, msg: Bytes, tag': Bytes, msg': Bytes, messages: set<Bytes>)
    requires {tag, tag', TaggedMessage(sha, tag, msg), TaggedMessage(sha, tag', msg')} <= messages
    requires TaggedHash(sha, tag, msg) == TaggedHash(sha, tag', msg')
    ensures (tag == tag' && msg == msg') || Collides(sha, messages)
  {
    var p, p' := TaggedMessage(sha, tag, msg), TaggedMessage(sha, tag', msg');
    if p == p' {
      SplitConcat(sha(tag) + sha(tag), msg, sha(tag') + sha(tag'), msg');
      SplitConcat(sha(tag), sha(tag), sha(tag'), sha(tag'));
      EqualDigests(sha, tag, tag', messages);
    } else {
      EqualDigests(sha, p, p', messages);
    }
  }

  lemma TagsDiffer()
    ensures LEAF_TAG != BRANCH_TAG
  {
    assert |LEAF_TAG| == 7 && |BRANCH_TAG| == 9;
  }

  // ----- leaf hashes ---------------------------------------------------

  function LeafMessage(version: byte, script: Script): Bytes {
    [version] + CompactSize(|script|) + script
  }

  function TapleafHash(sha: Sha256, version: byte, script: Script): Bytes32 {
    TaggedHash(sha, LEAF_TAG, LeafMessage(version, script))
  }

  method ComputeTapleafHash(sha: Sha256, version: byte, script: Script) returns (h: Bytes32)
    ensures h == TapleafHash(sha, version, script)
  {
    var msg: Bytes := [version];
    var size := WriteCompactSize(|script|);
    msg := msg + size;
    msg := msg + script;
    h := ComputeTaggedHash(sha, LEAF_TAG, msg);
  }

  lemma LeafMessageParts(version: byte, script: Script, rest: Bytes)
    ensures (LeafMessage(version, script) + rest)[0] == version
    ensures (LeafMessage(version, script) + rest)[1..] == CompactSize(|script|) + (script + rest)
  {
  }

  /** Version byte, length and script can be read back from a leaf preimage, whatever follows it. */
  lemma LeafMessageInjective(version: byte, script: Script, version': byte, script': Script,
                             rest: Bytes, rest': Bytes)
    requires LeafMessage(version, script) + rest == LeafMessage(version', script') + rest'
    ensures version == version' && script == script' && rest == rest'
  {
    LeafMessageParts(version, script, rest);
    LeafMessageParts(version', script', rest');
    CompactSizeRoundTrip(|script|, script + rest);
    CompactSizeRoundTrip(|script'|, script' + rest');
    SplitConcat(CompactSize(|script|), script + rest, CompactSize(|script'|), script' + rest');
    SplitConcat(script, rest, script', rest');
  }

  /** Which string a leaf hash is the digest of, with the tag written out. */
  lemma TapleafExact(sha: Sha256, version: byte, script: Script)
    ensures var tag := sha(Ascii("TapLeaf"));
      TapleafHash(sha, version, script) == sha(tag + tag + [version] + CompactSize(|script|) + script)
  {
    var tag := sha(Ascii("TapLeaf"));
    assert TaggedMessage(sha, LEAF_TAG, LeafMessage(version, script))
        == tag + tag + [version] + CompactSize(|script|) + script;
  }

  // ----- branch hashes -------------------------------------------------

  /** Lexicographic `<` on byte arrays. */
  predicate Less(a: Bytes, b: Bytes) {
    if b == [] then false
    else if a == [] then true
    else a[0] < b[0] || (a[0] == b[0] && Less(a[1..], b[1..]))
  }

  /** The order of Rust's byte arrays: the first byte that differs decides, the smaller byte is less. */
  lemma {:induction false} LessExact(a: Bytes, b: Bytes)
    requires |a| == |b|
    ensures Less(a, b) <==> exists i :: 0 <= i < |a| && a[..i] == b[..i] && a[i] < b[i]
  {
    if a != [] {
      LessExact(a[1..], b[1..]);
      if a[0] < b[0] {
        assert a[..0] == b[..0];
      } else if Less(a, b) {
        var i :| 0 <= i < |a| - 1 && a[1..][..i] == b[1..][..i] && a[1..][i] < b[1..][i];
        assert a[..i + 1] == [a[0]] + a[1..][..i] && b[..i + 1] == [b[0]] + b[1..][..i];
      }
      if i :| 0 <= i < |a| && a[..i] == b[..i] && a[i] < b[i] {
        if i > 0 {
          assert a[0] == a[..i][0] == b[..i][0] == b[0];
          assert a[1..][..i - 1] == a[..i][1..] && b[1..][..i - 1] == b[..i][1..];
          assert a[1..][i - 1] < b[1..][i - 1];
        }
      }
    }
  }

  lemma {:induction false} LessTotal(a: Bytes, b: Bytes)
    requires |a| == |b|
    requires !Less(a, b) && !Less(b, a)
    ensures a == b
  {
    if a != [] {
      LessTotal(a[1..], b[1..]);
      assert a == [a[0]] + a[1..] && b == [b[0]] + b[1..];
    }
  }

  lemma {:induction false} LessAsymmetric(a: Bytes, b: Bytes)
    requires Less(a, b)
    ensures !Less(b, a)
  {
    if a != [] && a[0] == b[0] {
      LessAsymmetric(a[1..], b[1..]);
    }
  }

  function BranchMessage(a: Bytes32, b: Bytes32): Bytes {
    if Less(a, b) then a + b else b + a
  }

  function TapbranchHash(sha: Sha256, a: Bytes32, b: Bytes32): Bytes32 {
    TaggedHash(sha, BRANCH_TAG, BranchMessage(a, b))
  }

  method ComputeTapbranchHash(sha: Sha256, a: Bytes32, b: Bytes32) returns (h: Bytes32)
    ensures h == TapbranchHash(sha, a, b)
  {
    var first, second := if Less(a, b) then a else b, if Less(a, b) then b else a;
    var msg: Bytes := first;
    msg := msg + second;
    h := ComputeTaggedHash(sha, BRANCH_TAG, msg);
  }

  /** Which string a branch hash is the digest of: the child with the smaller byte at the first difference comes
      first, whichever was left. */
  lemma TapbranchExact(sha: Sha256, a: Bytes32, b: Bytes32, i: nat)
    requires i < 32 && a[..i] == b[..i] && a[i] < b[i]
    ensures BranchMessage(a, b) == BranchMessage(b, a) == a + b
    ensures var tag := sha(Ascii("TapBranch"));
      TapbranchHash(sha, a, b) == TapbranchHash(sha, b, a) == sha(tag + tag + a + b)
  {
    LessExact(a, b);
    BranchMessageSymmetric(a, b);
    var tag := sha(Ascii("TapBranch"));
    assert TaggedMessage(sha, BRANCH_TAG, a + b) == tag + tag + a + b;
  }

  lemma BranchMessageSymmetric(a: Bytes32, b: Bytes32)
    ensures BranchMessage(a, b) == BranchMessage(b, a)
  {
    if Less(a, b) {
      LessAsymmetric(a, b);
    } else if !Less(b, a) {
      LessTotal(a, b);
    }
  }

  lemma {:induction false} LessConcat(a: Bytes, b: Bytes, c: Bytes, d: Bytes)
    requires |a| == |c|
    ensures Less(a + b, c + d) <==> Less(a, c) || (a == c && Less(b, d))
  {
    if a == [] {
      assert a + b == b && c + d == d;
    } else {
      LessConcat(a[1..], b, c[1..], d);
      assert (a + b)[1..] == a[1..] + b && (c + d)[1..] == c[1..] + d;
      assert a == [a[0]] + a[1..] && c == [c[0]] + c[1..];
    }
  }

  /** The branch message is the lexicographically smaller of the two ways to put the hashes in a row. */
  lemma BranchMessageSorted(a: Bytes32, b: Bytes32)
    ensures BranchMessage(a, b) == a + b || BranchMessage(a, b) == b + a
    ensures !Less(a + b, BranchMessage(a, b)) && !Less(b + a, BranchMessage(a, b))
  {
    var first, second := if Less(a, b) then a else b, if Less(a, b) then b else a;
    if Less(a, b) {
      LessAsymmetric(a, b);
    } else if !Less(b, a) {
      LessTotal(a, b);
    }
    NotLessItself(a + b);
    NotLessItself(b + a);
    LessConcat(second, first, first, second);
  }

  lemma {:induction false} NotLessItself(a: Bytes)
    ensures !Less(a, a)
  {
    if a != [] {
      NotLessItself(a[1..]);
    }
  }

  /** A sorted pair determines the two hashes, but not which was left and which was right. */
  lemma BranchMessageInjective(a: Bytes32, b: Bytes32, c: Bytes32, d: Bytes32)
    requires BranchMessage(a, b) == BranchMessage(c, d)
    ensures (a == c && b == d) || (a == d && b == c)
  {
    var x, y := if Less(a, b) then a else b, if Less(a, b) then b else a;
    var z, w := if Less(c, d) then c else d, if Less(c, d) then d else c;
    SplitConcat(x, y, z, w);
  }

  // ----- Merkle proofs -------------------------------------------------

  datatype PlacedLeaf = PlacedLeaf(depth: byte, leafVersion: byte, script: Script)

  /** The left fold of the branch hash over the siblings, written from its last step. */
  function FoldBranch(sha: Sha256, leafHash: Bytes32, branch: seq<Bytes32>): Bytes32 {
    if branch == [] then leafHash
    else TapbranchHash(sha, FoldBranch(sha, leafHash, branch[..|branch| - 1]), branch[|branch| - 1])
  }

  datatype P2mrRetProof = P2mrRetProof(leaf: PlacedLeaf, branch: seq<Bytes32>) {
    predicate VerifyAgainst(sha: Sha256, expectedRoot: Bytes32) {
      FoldBranch(sha, TapleafHash(sha, leaf.leafVersion, leaf.script), branch) == expectedRoot
    }
  }
}
