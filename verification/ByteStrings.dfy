/** Byte strings, fixed-width little-endian integers, and the hash function with its collisions. */
module ByteStrings {
  newtype byte = x: int | 0 <= x < 256

  type Bytes = seq<byte>

  /** A 32-byte array: a digest, a txid, a Merkle root, an MPC commitment. */
  type Bytes32 = b: Bytes | |b| == 32 witness seq(32, _ => 0)

  type u32 = x: int | 0 <= x < 0x1_0000_0000

  type u64 = x: int | 0 <= x < 0x1_0000_0000_0000_0000

  // ----- text and integers as bytes -----------------------------------

  function Ascii(s: string): (b: Bytes)
    requires forall i :: 0 <= i < |s| ==> s[i] < 128 as char
    ensures |b| == |s|
    ensures forall i :: 0 <= i < |s| ==> b[i] as int == s[i] as int
  {
    seq(|s|, i requires 0 <= i < |s| => s[i] as byte)
  }

  function Pow256(k: nat): (p: nat)
    ensures p >= 1
    ensures k == 2 ==> p == 0x1_0000
    ensures k == 4 ==> p == 0x1_0000_0000
    ensures k == 8 ==> p == 0x1_0000_0000_0000_0000
  {
    if k == 0 then 1 else
    assert k == 4 ==> Pow256(k - 2) == 0x1_0000;
    assert k == 8 ==> Pow256(k - 2) == 256 * Pow256(k - 3) && Pow256(k - 4) == 0x1_0000_0000;
    256 * Pow256(k - 1)
  }

  /** `to_le_bytes` of a k-byte unsigned integer. */
  function LittleEndian(n: nat, k: nat): (b: Bytes)
    requires n < Pow256(k)
    ensures |b| == k
  {
    if k == 0 then [] else [(n % 256) as byte] + LittleEndian(n / 256, k - 1)
  }

  /** `from_le_bytes`. */
  function FromLittleEndian(b: Bytes): (n: nat)
    ensures n < Pow256(|b|)
  {
    if |b| == 0 then 0 else b[0] as nat + 256 * FromLittleEndian(b[1..])
  }

  lemma {:induction false} LittleEndianRoundTrip(n: nat, k: nat)
    requires n < Pow256(k)
    ensures FromLittleEndian(LittleEndian(n, k)) == n
  {
    if k > 0 {
      LittleEndianRoundTrip(n / 256, k - 1);
      assert LittleEndian(n, k)[1..] == LittleEndian(n / 256, k - 1);
    }
  }

  lemma {:induction false} FromLittleEndianRoundTrip(b: Bytes)
    ensures LittleEndian(FromLittleEndian(b), |b|) == b
  {
    if |b| > 0 {
      FromLittleEndianRoundTrip(b[1..]);
      assert FromLittleEndian(b) / 256 == FromLittleEndian(b[1..]);
    }
  }

  function Le32(n: u32): (b: Bytes)
    ensures |b| == 4
    ensures FromLittleEndian(b) == n
  {
    LittleEndianRoundTrip(n, 4);
    LittleEndian(n, 4)
  }

  lemma TwoBytes(n: nat)
    requires n < 0x1_0000
    ensures LittleEndian(n, 2) == [(n % 256) as byte, (n / 256) as byte]
  {
    assert LittleEndian(n / 256, 1) == [(n / 256) as byte] + LittleEndian(0, 0);
  }

  /** The four bytes, least significant first. */
  lemma FourBytes(n: u32)
    ensures Le32(n) == [(n % 256) as byte, (n / 0x100 % 256) as byte, (n / 0x1_0000 % 256) as byte,
                        (n / 0x100_0000) as byte]
  {
    var high := n / 0x1_0000;
    assert n / 256 / 256 == high;
    assert LittleEndian(n, 4) == [(n % 256) as byte] + LittleEndian(n / 256, 3);
    assert LittleEndian(n / 256, 3) == [(n / 256 % 256) as byte] + LittleEndian(high, 2);
    TwoBytes(high);
    assert high / 256 == n / 0x100_0000;
  }

  lemma FirstByte(x: byte, b: Bytes)
    ensures FromLittleEndian([x] + b) == x as nat + 256 * FromLittleEndian(b)
  {
    assert ([x] + b)[1..] == b;
  }

  /** Bytes put behind four others count for the higher places. */
  lemma FourLowBytes(a: Bytes, b: Bytes)
    requires |a| == 4
    ensures FromLittleEndian(a + b) == FromLittleEndian(a) + 0x1_0000_0000 * FromLittleEndian(b)
  {
    FourthByte(a, b);
    FourthByte(a, []);
    assert a + [] == a;
  }

  lemma FourthByte(a: Bytes, b: Bytes)
    requires |a| == 4
    ensures FromLittleEndian(a + b) == a[0] as nat + 0x100 * a[1] as nat + 0x1_0000 * a[2] as nat
                                       + 0x100_0000 * a[3] as nat + 0x1_0000_0000 * FromLittleEndian(b)
  {
    FirstByte(a[3], b);
    FirstByte(a[2], [a[3]] + b);
    FirstByte(a[1], [a[2]] + ([a[3]] + b));
    FirstByte(a[0], [a[1]] + ([a[2]] + ([a[3]] + b)));
    assert a + b == [a[0]] + ([a[1]] + ([a[2]] + ([a[3]] + b)));
  }

  /** The low four bytes come before the high four. */
  lemma EightBytes(n: u64)
    ensures LittleEndian(n, 8) == Le32(n % 0x1_0000_0000) + Le32(n / 0x1_0000_0000)
  {
    var b := Le32(n % 0x1_0000_0000) + Le32(n / 0x1_0000_0000);
    FourLowBytes(Le32(n % 0x1_0000_0000), Le32(n / 0x1_0000_0000));
    Readback(n, b);
  }

  lemma Readback(n: nat, b: Bytes)
    requires FromLittleEndian(b) == n
    ensures n < Pow256(|b|) && LittleEndian(n, |b|) == b
  {
    FromLittleEndianRoundTrip(b);
  }

  // ----- hashing -------------------------------------------------------

  /** SHA-256 is a parameter of the whole model: every theorem holds for every function of this type. */
  type Sha256 = Bytes -> Bytes32

  /** Two different messages among the given ones have one digest. The set is always an explicit, finite
      one: a bare "some collision exists" is true of every hash by counting and would say nothing. */
  ghost predicate Collides(sha: Sha256, messages: set<Bytes>) {
    exists a, b :: a in messages && b in messages && a != b && sha(a) == sha(b)
  }

  lemma EqualDigests(sha: Sha256, a: Bytes, b: Bytes, messages: set<Bytes>)
    requires a in messages && b in messages
    requires sha(a) == sha(b)
    ensures a == b || Collides(sha, messages)
  {
  }

  lemma CollidesMonotone(sha: Sha256, small: set<Bytes>, large: set<Bytes>)
    requires small <= large
    ensures Collides(sha, small) ==> Collides(sha, large)
  {
  }

  // ----- counting ------------------------------------------------------

  function CountTrue(flags: seq<bool>): nat {
    if flags == [] then 0 else CountTrue(flags[..|flags| - 1]) + if flags[|flags| - 1] then 1 else 0
  }

  ghost function TrueAt(flags: seq<bool>): set<int> {
    set k | 0 <= k < |flags| && flags[k]
  }

  lemma {:induction false} CountIsCardinality(flags: seq<bool>)
    ensures CountTrue(flags) == |TrueAt(flags)|
  {
    if flags != [] {
      var n := |flags| - 1;
      CountIsCardinality(flags[..n]);
      assert TrueAt(flags) == TrueAt(flags[..n]) + if flags[n] then {n} else {};
    }
  }

  // ----- slices --------------------------------------------------------

  lemma SliceOfRest(b: Bytes, n: nat, i: nat, j: nat)
    requires i <= j && n + j <= |b|
    ensures b[n..][i..j] == b[n + i..n + j]
  {
  }

  // ----- splitting concatenations --------------------------------------

  lemma SplitConcat<T>(a: seq<T>, b: seq<T>, c: seq<T>, d: seq<T>)
    requires a + b == c + d
    requires |a| == |c|
    ensures a == c && b == d
  {
    assert a == (a + b)[..|a|] && b == (a + b)[|a|..];
    assert c == (c + d)[..|c|] && d == (c + d)[|c|..];
  }
}
