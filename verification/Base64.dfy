/** The base64 encoder used for HTTP basic authentication. */
module Base64 {
  import opened Wrappers
  import opened ByteStrings

  const UPPER := "ABCDEFGHIJKLMNOPQRSTUVWXYZ"
  const LOWER := "abcdefghijklmnopqrstuvwxyz"
  const REST := "0123456789+/"
  const TABLE := UPPER + LOWER + REST

  /** The alphabet of section 4 of RFC 4648, by ranges. */
  function Symbol(n: nat): char
    requires n < 64
  {
    if n < 26 then 'A' + n as char
    else if n < 52 then 'a' + (n - 26) as char
    else if n < 62 then '0' + (n - 52) as char
    else if n == 62 then '+'
    else '/'
  }

  lemma UpperAt(n: nat)
    requires n < 26
    ensures UPPER[n] == 'A' + n as char
  {
  }

  lemma LowerAt(n: nat)
    requires n < 26
    ensures LOWER[n] == 'a' + n as char
  {
  }

  lemma RestAt(n: nat)
    requires n < 12
    ensures REST[n] == Symbol(52 + n)
  {
  }

  lemma TableAt(n: nat)
    requires n < 64
    ensures TABLE[n] == if n < 26 then UPPER[n] else if n < 52 then LOWER[n - 26] else REST[n - 52]
  {
  }

  /** The source's table is that alphabet. */
  method Lookup(n: nat) returns (c: char)
    requires n < 64
    ensures c == Symbol(n)
  {
    TableAt(n);
    if n < 26 {
      UpperAt(n);
    } else if n < 52 {
      LowerAt(n - 26);
    } else {
      RestAt(n - 52);
    }
    c := TABLE[n];
  }

  /** One chunk of one to three bytes, through the 24-bit number that the shifts and masks of the source read. */
  function EncodeChunk(chunk: Bytes): (s: string)
    requires 1 <= |chunk| <= 3
    ensures |s| == 4
  {
    var n := Number(chunk);
    [Symbol(n / 0x4_0000 % 64), Symbol(n / 0x1000 % 64),
     if |chunk| > 1 then Symbol(n / 64 % 64) else '=',
     if |chunk| > 2 then Symbol(n % 64) else '=']
  }

  function Number(chunk: Bytes): (n: nat)
    requires 1 <= |chunk| <= 3
    ensures n < 0x100_0000
  {
    chunk[0] as nat * 0x1_0000
    + (if |chunk| > 1 then chunk[1] as nat else 0) * 0x100
    + (if |chunk| > 2 then chunk[2] as nat else 0)
  }

  function Encoding(b: Bytes): string {
    if b == [] then ""
    else if |b| <= 3 then EncodeChunk(b)
    else EncodeChunk(b[..3]) + Encoding(b[3..])
  }

  lemma LaterQuad(quad: string, rest: string, k: nat)
    requires |quad| == 4 && 4 * k + 4 <= |rest|
    ensures (quad + rest)[4 * (k + 1)..4 * (k + 1) + 4] == rest[4 * k..4 * k + 4]
  {
  }

  /** The k-th chunk of three bytes, or what is left, is written at character 4k. */
  lemma {:induction false} EncodingAt(b: Bytes, k: nat)
    requires 3 * k < |b|
    ensures 4 * k + 4 <= |Encoding(b)|
    ensures Encoding(b)[4 * k..4 * k + 4] == EncodeChunk(if 3 * k + 3 <= |b| then b[3 * k..3 * k + 3] else b[3 * k..])
  {
    if |b| <= 3 {
      assert Encoding(b)[0..4] == Encoding(b);
      assert b[0..] == b && (|b| == 3 ==> b[0..3] == b);
    } else if k == 0 {
      assert b[0..3] == b[..3];
    } else {
      var rest := b[3..];
      EncodingAt(rest, k - 1);
      LaterQuad(EncodeChunk(b[..3]), Encoding(rest), k - 1);
      assert rest[3 * (k - 1)..] == b[3 * k..];
      assert 3 * k + 3 <= |b| ==> rest[3 * (k - 1)..3 * (k - 1) + 3] == b[3 * k..3 * k + 3];
    }
  }

  method Encode(bytes: Bytes) returns (out: string)
    ensures out == Encoding(bytes)
  {
    out := "";
    var pos := 0;
    while pos < |bytes|
      invariant 0 <= pos <= |bytes|
      invariant out + Encoding(bytes[pos..]) == Encoding(bytes)
    {
      var end := if pos + 3 <= |bytes| then pos + 3 else |bytes|;
      assert bytes[pos..] == bytes[pos..end] + bytes[end..];
      EncodingStep(bytes[pos..], bytes[pos..end], bytes[end..]);
      var quad := WriteChunk(bytes[pos..end]);
      out := out + quad;
      pos := end;
    }
  }

  /** The body of the loop: four characters for one chunk. */
  method WriteChunk(chunk: Bytes) returns (out: string)
    requires 1 <= |chunk| <= 3
    ensures out == EncodeChunk(chunk)
  {
    var b1, b2 := if |chunk| > 1 then chunk[1] as nat else 0, if |chunk| > 2 then chunk[2] as nat else 0;
    var n := chunk[0] as nat * 0x1_0000 + b1 * 0x100 + b2;
    var c := Lookup(n / 0x4_0000 % 64);
    out := [c];
    c := Lookup(n / 0x1000 % 64);
    out := out + [c];
    if |chunk| > 1 {
      c := Lookup(n / 64 % 64);
      out := out + [c];
    } else {
      out := out + ['='];
    }
    if |chunk| > 2 {
      c := Lookup(n % 64);
      out := out + [c];
    } else {
      out := out + ['='];
    }
  }

  lemma EncodingStep(b: Bytes, chunk: Bytes, rest: Bytes)
    requires b == chunk + rest
    requires 1 <= |chunk| <= 3 && (|chunk| == 3 || rest == [])
    ensures Encoding(b) == EncodeChunk(chunk) + Encoding(rest)
  {
    if |b| <= 3 {
      assert rest == [] && b == chunk;
    } else {
      assert b[..3] == chunk && b[3..] == rest;
    }
  }

  // ----- a reference decoder (section 4 of RFC 4648) -------------------

  function Sextet(c: char): (v: Option<nat>)
    ensures v.Some? ==> v.value < 64
  {
    if 'A' <= c <= 'Z' then Some(c as int - 'A' as int)
    else if 'a' <= c <= 'z' then Some(c as int - 'a' as int + 26)
    else if '0' <= c <= '9' then Some(c as int - '0' as int + 52)
    else if c == '+' then Some(62)
    else if c == '/' then Some(63)
    else None
  }

  /** Four characters, of which the last or the last two may be padding; unused bits must be zero. */
  function DecodeQuad(s: string): Option<Bytes>
    requires |s| == 4
  {
    var a, b, c, d := Sextet(s[0]), Sextet(s[1]), Sextet(s[2]), Sextet(s[3]);
    if a.None? || b.None? then None
    else if s[2] == '=' && s[3] == '=' then
      if b.value % 16 != 0 then None else Some([(a.value * 4 + b.value / 16) as byte])
    else if c.None? then None
    else if s[3] == '=' then
      if c.value % 4 != 0 then None
      else Some([(a.value * 4 + b.value / 16) as byte, (b.value % 16 * 16 + c.value / 4) as byte])
    else if d.None? then None
    else Some([(a.value * 4 + b.value / 16) as byte, (b.value % 16 * 16 + c.value / 4) as byte,
               (c.value % 4 * 64 + d.value) as byte])
  }

  /** Only the last quad may carry padding. */
  function Decoding(s: string): Option<Bytes> {
    if s == "" then Some([])
    else if |s| < 4 then None
    else
      var head := DecodeQuad(s[..4]);
      if |s| == 4 then head
      else
        var tail := Decoding(s[4..]);
        if head.None? || |head.value| != 3 || tail.None? then None else Some(head.value + tail.value)
  }

  lemma SymbolSextet(n: nat)
    requires n < 64
    ensures Sextet(Symbol(n)) == Some(n)
    ensures Symbol(n) != '='
  {
  }

  lemma SextetSymbol(c: char)
    requires Sextet(c).Some?
    ensures Symbol(Sextet(c).value) == c
  {
  }

  /** The shifts and masks read the four base-64 digits of a number. */
  lemma Digits(n: nat, d0: nat, d1: nat, d2: nat, d3: nat)
    requires d0 < 64 && d1 < 64 && d2 < 64 && d3 < 64
    requires n == 0x4_0000 * d0 + 0x1000 * d1 + 64 * d2 + d3
    ensures n / 0x4_0000 % 64 == d0 && n / 0x1000 % 64 == d1 && n / 64 % 64 == d2 && n % 64 == d3
  {
    assert n / 0x4_0000 == d0;
    assert n / 0x1000 == 64 * d0 + d1;
    assert n / 64 == 0x1000 * d0 + 64 * d1 + d2;
  }

  /** Three bytes are cut into four sextets and joined again. */
  lemma CutThenJoin(x: nat, y: nat, z: nat)
    requires x < 256 && y < 256 && z < 256
    ensures var a, b, c, d := x / 4, x % 4 * 16 + y / 16, y % 16 * 4 + z / 64, z % 64;
      a * 4 + b / 16 == x && b % 16 * 16 + c / 4 == y && c % 4 * 64 + d == z
  {
    assert (x % 4 * 16 + y / 16) / 16 == x % 4 && (x % 4 * 16 + y / 16) % 16 == y / 16;
    assert (y % 16 * 4 + z / 64) / 4 == y % 16 && (y % 16 * 4 + z / 64) % 4 == z / 64;
  }

  /** The number of three bytes has the sextets they join from as its base-64 digits. */
  lemma NumberOfSextets(x: nat, y: nat, z: nat, a: nat, b: nat, c: nat, d: nat)
    requires x == a * 4 + b / 16 && y == b % 16 * 16 + c / 4 && z == c % 4 * 64 + d
    ensures x * 0x1_0000 + y * 0x100 + z == 0x4_0000 * a + 0x1000 * b + 64 * c + d
  {
    assert b == b / 16 * 16 + b % 16 && c == c / 4 * 4 + c % 4;
  }

  /** The sextets of a chunk, those that are padded out being zero. */
  predicate Joins(chunk: Bytes, a: nat, b: nat, c: nat, d: nat) {
    && a < 64 && b < 64 && c < 64 && d < 64
    && 1 <= |chunk| <= 3
    && chunk[0] as nat == a * 4 + b / 16
    && (if |chunk| > 1 then chunk[1] as nat == b % 16 * 16 + c / 4 else b % 16 == 0 && c == 0)
    && (if |chunk| > 2 then chunk[2] as nat == c % 4 * 64 + d else c % 4 == 0 && d == 0)
  }

  lemma DecodeSymbols(chunk: Bytes, a: nat, b: nat, c: nat, d: nat)
    requires Joins(chunk, a, b, c, d)
    ensures DecodeQuad([Symbol(a), Symbol(b), if |chunk| > 1 then Symbol(c) else '=',
                        if |chunk| > 2 then Symbol(d) else '=']) == Some(chunk)
  {
    SymbolSextet(a);
    SymbolSextet(b);
    SymbolSextet(c);
    SymbolSextet(d);
    if |chunk| == 1 {
      assert chunk == [chunk[0]];
    } else if |chunk| == 2 {
      assert chunk == [chunk[0], chunk[1]];
    } else {
      assert chunk == [chunk[0], chunk[1], chunk[2]];
    }
  }

  lemma JoinedSymbols(chunk: Bytes, a: nat, b: nat, c: nat, d: nat)
    requires Joins(chunk, a, b, c, d)
    ensures EncodeChunk(chunk) == [Symbol(a), Symbol(b), if |chunk| > 1 then Symbol(c) else '=',
                                   if |chunk| > 2 then Symbol(d) else '=']
  {
    NumberOfSextets(chunk[0] as nat, if |chunk| > 1 then chunk[1] as nat else 0,
                    if |chunk| > 2 then chunk[2] as nat else 0, a, b, c, d);
    Digits(Number(chunk), a, b, c, d);
  }

  /** The bits of one chunk: each character takes six, from the left, and missing ones are zero. */
  lemma ChunkBits(chunk: Bytes)
    requires 1 <= |chunk| <= 3
    ensures var s := EncodeChunk(chunk);
      var b0, b1, b2 := chunk[0] as nat, if |chunk| > 1 then chunk[1] as nat else 0,
                        if |chunk| > 2 then chunk[2] as nat else 0;
      && s[0] == Symbol(b0 / 4) && s[1] == Symbol(b0 % 4 * 16 + b1 / 16)
      && s[2] == (if |chunk| > 1 then Symbol(b1 % 16 * 4 + b2 / 64) else '=')
      && s[3] == if |chunk| > 2 then Symbol(b2 % 64) else '='
  {
    var b0, b1, b2 := chunk[0] as nat, if |chunk| > 1 then chunk[1] as nat else 0,
                      if |chunk| > 2 then chunk[2] as nat else 0;
    CutThenJoin(b0, b1, b2);
    JoinedSymbols(chunk, b0 / 4, b0 % 4 * 16 + b1 / 16, b1 % 16 * 4 + b2 / 64, b2 % 64);
  }

  lemma ChunkRoundTrip(chunk: Bytes)
    requires 1 <= |chunk| <= 3
    ensures DecodeQuad(EncodeChunk(chunk)) == Some(chunk)
  {
    var x := chunk[0] as nat;
    var y := if |chunk| > 1 then chunk[1] as nat else 0;
    var z := if |chunk| > 2 then chunk[2] as nat else 0;
    var a, b, c, d := x / 4, x % 4 * 16 + y / 16, y % 16 * 4 + z / 64, z % 64;
    CutThenJoin(x, y, z);
    JoinedSymbols(chunk, a, b, c, d);
    DecodeSymbols(chunk, a, b, c, d);
  }

  lemma DecodingStep(quad: string, rest: string)
    requires |quad| == 4 && DecodeQuad(quad).Some?
    requires rest == "" || (|DecodeQuad(quad).value| == 3 && Decoding(rest).Some?)
    ensures Decoding(quad + rest) == Some(DecodeQuad(quad).value + if rest == "" then [] else Decoding(rest).value)
  {
    var s := quad + rest;
    assert s[..4] == quad && s[4..] == rest;
    if rest == "" {
      assert DecodeQuad(quad).value + [] == DecodeQuad(quad).value;
    } else if |rest| < 4 {
      assert false;
    }
  }

  /** For every byte string the decoder gives it back, and the text is four characters for every three bytes
      begun. */
  lemma {:induction false} RoundTrip(b: Bytes)
    ensures Decoding(Encoding(b)) == Some(b)
    ensures |Encoding(b)| == (|b| + 2) / 3 * 4
    decreases |b|
  {
    if b != [] {
      var chunk, rest := if |b| <= 3 then b else b[..3], if |b| <= 3 then [] else b[3..];
      assert b == chunk + rest;
      RoundTrip(rest);
      EncodingStep(b, chunk, rest);
      ChunkRoundTrip(chunk);
      DecodingStep(EncodeChunk(chunk), Encoding(rest));
      assert (|b| + 2) / 3 == 1 + (|rest| + 2) / 3;
    }
  }

  /** Conversely a text the decoder accepts is the encoding of what it decodes to: alphabet, padding and unused
      bits are canonical. */
  lemma {:induction false} DecodingCanonical(s: string)
    requires Decoding(s).Some?
    ensures Encoding(Decoding(s).value) == s
    decreases |s|
  {
    if s != "" {
      QuadCanonical(s[..4]);
      if |s| > 4 {
        DecodingCanonical(s[4..]);
        var head, tail := DecodeQuad(s[..4]).value, Decoding(s[4..]).value;
        assert (head + tail)[..3] == head && (head + tail)[3..] == tail;
        assert s == s[..4] + s[4..];
      }
    }
  }

  lemma QuadCanonical(s: string)
    requires |s| == 4 && DecodeQuad(s).Some?
    ensures 1 <= |DecodeQuad(s).value| <= 3
    ensures EncodeChunk(DecodeQuad(s).value) == s
  {
    var chunk := DecodeQuad(s).value;
    var a, b := Sextet(s[0]).value, Sextet(s[1]).value;
    SextetSymbol(s[0]);
    SextetSymbol(s[1]);
    if s[2] == '=' && s[3] == '=' {
      JoinedSymbols(chunk, a, b, 0, 0);
    } else if s[3] == '=' {
      SextetSymbol(s[2]);
      JoinedSymbols(chunk, a, b, Sextet(s[2]).value, 0);
    } else {
      SextetSymbol(s[2]);
      SextetSymbol(s[3]);
      JoinedSymbols(chunk, a, b, Sextet(s[2]).value, Sextet(s[3]).value);
    }
  }
}
