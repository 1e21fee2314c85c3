/** Text forms: transaction ids in reversed hex, decimal numbers, and the `txid:vout` key. */
module Text {
  import opened Wrappers
  import opened ByteStrings
  import opened Errors
  import opened SealTypes

  // ----- hexadecimal ---------------------------------------------------

  const HEX_DIGITS := "0123456789abcdef"

  function HexByte(b: byte): (s: string)
    ensures |s| == 2
  {
    [HEX_DIGITS[b as int / 16], HEX_DIGITS[b as int % 16]]
  }

  function HexValue(c: char): (v: Option<nat>)
    ensures v.Some? ==> v.value < 16
  {
    if '0' <= c <= '9' then Some(c as int - '0' as int)
    else if 'a' <= c <= 'f' then Some(c as int - 'a' as int + 10)
    else if 'A' <= c <= 'F' then Some(c as int - 'A' as int + 10)
    else None
  }

  predicate LowerHex(s: string) {
    forall c :: c in s ==> '0' <= c <= '9' || 'a' <= c <= 'f'
  }

  /** `u8::from_str_radix(_, 16)` on two characters, which allows a leading plus sign. */
  function ParseHexPair(high: char, low: char): Option<byte> {
    var l := HexValue(low);
    var h := if high == '+' then Some(0) else HexValue(high);
    if l.None? || h.None? then None else Some((16 * h.value + l.value) as byte)
  }

  /** Among lower-case digits each value has exactly one. */
  lemma HexDigitExact(c: char, n: nat)
    requires n < 16
    ensures HexValue(c) == Some(n) && LowerHex([c]) <==> c == HEX_DIGITS[n]
  {
    assert c in [c];
  }

  lemma HexPairValue(high: char, low: char, b: byte)
    requires high != '+'
    ensures ParseHexPair(high, low) == Some(b) <==>
              HexValue(high) == Some(b as int / 16) && HexValue(low) == Some(b as int % 16)
  {
  }

  /** Among lower-case hex pairs each byte has exactly one. */
  lemma HexPairExact(high: char, low: char, b: byte)
    ensures ParseHexPair(high, low) == Some(b) && LowerHex([high, low]) <==> [high, low] == HexByte(b)
  {
    LowerHexPair(high, low);
    HexDigitExact(high, b as int / 16);
    HexDigitExact(low, b as int % 16);
    if high != '+' {
      HexPairValue(high, low, b);
    }
    SamePairOfDigits(high, low, HEX_DIGITS[b as int / 16], HEX_DIGITS[b as int % 16]);
  }

  lemma SamePairOfDigits(a: char, b: char, c: char, d: char)
    ensures [a, b] == [c, d] <==> a == c && b == d
  {
    assert [a, b] == [c, d] ==> [a, b][0] == [c, d][0] && [a, b][1] == [c, d][1];
  }

  lemma LowerHexPair(high: char, low: char)
    ensures LowerHex([high, low]) <==> LowerHex([high]) && LowerHex([low])
    ensures !LowerHex(['+'])
  {
    assert high in [high, low] && low in [high, low] && high in [high] && low in [low] && '+' in ['+'];
  }

  /** The digits, in either case. */
  predicate IsHexDigit(c: char, n: nat)
    requires n < 16
  {
    c == "0123456789abcdef"[n] || c == "0123456789ABCDEF"[n]
  }

  lemma HexValueExact(c: char, n: nat)
    requires n < 16
    ensures HexValue(c) == Some(n) <==> IsHexDigit(c, n)
  {
  }

  /** Which pairs parse, and to what. */
  lemma HexPairForms(high: char, low: char, b: byte)
    ensures ParseHexPair(high, low) == Some(b) <==>
      ((high == '+' && b < 16) || IsHexDigit(high, b as int / 16)) && IsHexDigit(low, b as int % 16)
  {
    HexValueExact(high, b as int / 16);
    HexValueExact(low, b as int % 16);
    if high != '+' {
      HexPairValue(high, low, b);
    } else {
      assert b < 16 ==> b as int % 16 == b as int;
    }
  }

  // ----- transaction ids -----------------------------------------------

  /** The bytes from last to first, in lower-case hex. */
  function ReversedHex(b: Bytes): (s: string)
    ensures |s| == 2 * |b|
  {
    if b == [] then "" else HexByte(b[|b| - 1]) + ReversedHex(b[..|b| - 1])
  }

  method DisplayTxid(txid: Bytes32) returns (s: string)
    ensures s == ReversedHex(txid)
  {
    s := "";
    var k := 32;
    assert txid[..32] == txid;
    while k > 0
      invariant 0 <= k <= 32
      invariant s + ReversedHex(txid[..k]) == ReversedHex(txid)
    {
      k := k - 1;
      assert txid[..k + 1][..k] == txid[..k];
      s := s + HexByte(txid[k]);
    }
  }

  function PairAt(s: string, i: nat): Option<byte>
    requires 2 * i + 1 < |s|
  {
    ParseHexPair(s[2 * i], s[2 * i + 1])
  }

  /** What a 64-character text must be to denote a txid: pair i is byte 31 - i. */
  predicate Denotes(s: string, txid: Bytes32) {
    && |s| == 64
    && forall i :: 0 <= i < 32 ==> PairAt(s, i) == Some(txid[31 - i])
  }

  /** In characters: two digits for each byte, from the last byte to the first. */
  lemma DenotesExact(s: string, txid: Bytes32)
    ensures Denotes(s, txid) <==>
      |s| == 64 && forall i :: 0 <= i < 32 ==>
        var b := txid[31 - i];
        ((s[2 * i] == '+' && b < 16) || IsHexDigit(s[2 * i], b as int / 16)) && IsHexDigit(s[2 * i + 1], b as int % 16)
  {
    if |s| == 64 {
      forall i | 0 <= i < 32
        ensures var b := txid[31 - i];
          PairAt(s, i) == Some(b) <==>
            ((s[2 * i] == '+' && b < 16) || IsHexDigit(s[2 * i], b as int / 16))
            && IsHexDigit(s[2 * i + 1], b as int % 16)
      {
        HexPairForms(s[2 * i], s[2 * i + 1], txid[31 - i]);
      }
    }
  }

  /** The bytes of a UTF-8 text one by one, which is how both the length and the digits are read. */
  function Units(s: Bytes): (t: string)
    ensures |t| == |s|
  {
    seq(|s|, k requires 0 <= k < |s| => s[k] as char)
  }

  /** The k-th byte of a UTF-8 text is inside a character; a slice that starts or ends there is a panic. */
  predicate InsideCharacter(s: Bytes, k: nat) {
    0 < k < |s| && 0x80 <= s[k] < 0xC0
  }

  /** Some pair ends inside a character, and every pair before it parses. */
  predicate SplitsCharacter(s: Bytes) {
    && |s| == 64
    && exists i :: 0 <= i < 32 && InsideCharacter(s, 2 * i + 2)
                   && forall j :: 0 <= j < i ==> PairAt(Units(s), j).Some?
  }

  datatype TxidParse = Parsed(txid: Bytes32) | Rejected(error: RgbPqError) | Panicked

  ghost predicate Denoting(s: Bytes) {
    exists t: Bytes32 :: Denotes(Units(s), t)
  }

  lemma PanicAt(s: Bytes, i: nat)
    requires |s| == 64 && i < 32 && InsideCharacter(s, 2 * i + 2)
    requires forall j :: 0 <= j < i ==> PairAt(Units(s), j).Some?
    ensures SplitsCharacter(s) && !Denoting(s)
  {
    assert PairAt(Units(s), i + 1).None?;
  }

  lemma RejectAt(s: Bytes, i: nat)
    requires |s| == 64 && i < 32 && PairAt(Units(s), i).None?
    requires forall j :: 0 <= j <= i ==> !InsideCharacter(s, 2 * j + 2)
    ensures !SplitsCharacter(s) && !Denoting(s)
  {
  }

  method ParseTxid(s: Bytes) returns (r: TxidParse)
    ensures r.Parsed? ==> Denotes(Units(s), r.txid)
    ensures !r.Parsed? ==> !Denoting(s)
    ensures r.Panicked? <==> SplitsCharacter(s)
    ensures r.Rejected? ==> r.error == BadEncoding(if |s| != 64 then "txid hex length" else "txid hex")
  {
    if |s| != 64 {
      return Rejected(BadEncoding("txid hex length"));
    }
    var text := Units(s);
    var inner := new byte[32](_ => 0);
    for i := 0 to 32
      invariant forall j :: 0 <= j < i ==> PairAt(text, j) == Some(inner[31 - j])
      invariant forall j :: 0 <= j < i ==> !InsideCharacter(s, 2 * j + 2)
    {
      assert i > 0 ==> !InsideCharacter(s, 2 * (i - 1) + 2);
      if InsideCharacter(s, 2 * i) || InsideCharacter(s, 2 * i + 2) {
        PanicAt(s, i);
        return Panicked;
      }
      var b := PairAt(text, i);
      if b.None? {
        RejectAt(s, i);
        return Rejected(BadEncoding("txid hex"));
      }
      inner[31 - i] := b.value;
    }
    r := Parsed(inner[..]);
  }

  /** Exactly which texts split a character. So no ASCII text and no text that denotes a txid does; a text of 64
      bytes whose second and third byte belong to one character does. */
  lemma SplittingTexts(s: Bytes)
    ensures SplitsCharacter(s) <==>
      |s| == 64 && exists i :: 0 <= i < 31 && 0x80 <= s[2 * i + 2] < 0xC0
                               && forall j :: 0 <= j < i ==> PairAt(Units(s), j).Some?
    ensures SplitsCharacter(s) ==> exists k :: 0 <= k < |s| && s[k] >= 0x80
    ensures |s| == 64 && 0x80 <= s[2] < 0xC0 ==> SplitsCharacter(s)
    ensures forall t: Bytes32 :: Denotes(Units(s), t) ==> !SplitsCharacter(s)
  {
    if |s| == 64 && 0x80 <= s[2] < 0xC0 {
      assert InsideCharacter(s, 2 * 0 + 2);
    }
    if i :| |s| == 64 && 0 <= i < 31 && 0x80 <= s[2 * i + 2] < 0xC0
            && forall j :: 0 <= j < i ==> PairAt(Units(s), j).Some? {
      assert InsideCharacter(s, 2 * i + 2);
    }
    if SplitsCharacter(s) {
      var i :| 0 <= i < 32 && InsideCharacter(s, 2 * i + 2) && forall j :: 0 <= j < i ==> PairAt(Units(s), j).Some?;
      assert 0 <= i < 31 && 0x80 <= s[2 * i + 2] < 0xC0;
    }
    forall t: Bytes32 | Denotes(Units(s), t)
      ensures !SplitsCharacter(s)
    {
      forall i | 0 <= i < 32
        ensures !InsideCharacter(s, 2 * i + 2)
      {
        if i < 31 {
          var next := i + 1;
          assert PairAt(Units(s), next).Some?;
        }
      }
    }
  }

  lemma ShiftedPair(head: string, tail: string, k: nat)
    requires |head| == 2 && k + 2 <= |tail|
    ensures (head + tail)[k + 2..k + 4] == tail[k..k + 2]
  {
  }

  lemma {:induction false} ReversedHexAt(b: Bytes, i: nat)
    requires i < |b|
    ensures ReversedHex(b)[2 * i..2 * i + 2] == HexByte(b[|b| - 1 - i])
  {
    var init := b[..|b| - 1];
    var first, rest := HexByte(b[|b| - 1]), ReversedHex(init);
    if i == 0 {
      assert (first + rest)[0..2] == first;
    } else {
      var k := 2 * (i - 1);
      ReversedHexAt(init, i - 1);
      ShiftedPair(first, rest, k);
      assert 2 * i == k + 2;
    }
  }

  lemma TextPair(txid: Bytes32, i: nat)
    requires i < 32
    ensures var text := ReversedHex(txid);
      && [text[2 * i], text[2 * i + 1]] == HexByte(txid[31 - i])
      && PairAt(text, i) == Some(txid[31 - i])
      && LowerHex([text[2 * i], text[2 * i + 1]])
  {
    var text := ReversedHex(txid);
    ReversedHexAt(txid, i);
    assert text[2 * i..2 * i + 2] == [text[2 * i], text[2 * i + 1]];
    HexPairExact(text[2 * i], text[2 * i + 1], txid[31 - i]);
  }

  lemma SamePair(s: string, txid: Bytes32, i: nat)
    requires |s| == 64 && LowerHex(s) && i < 32
    requires PairAt(s, i) == Some(txid[31 - i])
    ensures var text := ReversedHex(txid); s[2 * i] == text[2 * i] && s[2 * i + 1] == text[2 * i + 1]
  {
    var text := ReversedHex(txid);
    var pair, printed := [s[2 * i], s[2 * i + 1]], [text[2 * i], text[2 * i + 1]];
    assert s[2 * i] in s && s[2 * i + 1] in s;
    HexPairExact(s[2 * i], s[2 * i + 1], txid[31 - i]);
    TextPair(txid, i);
    assert pair == printed;
    assert pair[0] == printed[0] && pair[1] == printed[1];
  }

  /** The printed text, character by character. */
  lemma TxidTextAt(txid: Bytes32, i: nat)
    requires i < 32
    ensures var text, b := ReversedHex(txid), txid[31 - i] as int;
      text[2 * i] == "0123456789abcdef"[b / 16] && text[2 * i + 1] == "0123456789abcdef"[b % 16]
  {
    var text := ReversedHex(txid);
    TextPair(txid, i);
    var pair := [text[2 * i], text[2 * i + 1]];
    assert pair[0] == HexByte(txid[31 - i])[0] && pair[1] == HexByte(txid[31 - i])[1];
  }

  /** The text of a txid is the one lower-case text that denotes it: printing and parsing undo each other. */
  lemma TxidTextExact(s: string, txid: Bytes32)
    ensures Denotes(s, txid) && LowerHex(s) <==> s == ReversedHex(txid)
  {
    var text := ReversedHex(txid);
    forall i | 0 <= i < 32
      ensures PairAt(text, i) == Some(txid[31 - i])
      ensures LowerHex([text[2 * i], text[2 * i + 1]])
    {
      TextPair(txid, i);
    }
    LowerHexByPairs(text);
    if Denotes(s, txid) && LowerHex(s) {
      forall i | 0 <= i < 32
        ensures s[2 * i] == text[2 * i] && s[2 * i + 1] == text[2 * i + 1]
      {
        assert PairAt(s, i) == Some(txid[31 - i]);
        SamePair(s, txid, i);
      }
      EqualByPairs(s, text);
    }
  }

  /** A text denotes at most one txid. */
  lemma DenotesUnique(s: string, t: Bytes32, t': Bytes32)
    requires Denotes(s, t) && Denotes(s, t')
    ensures t == t'
  {
    forall k | 0 <= k < 32
      ensures t[k] == t'[k]
    {
      var i := 31 - k;
      assert PairAt(s, i) == Some(t[31 - i]) == Some(t'[31 - i]);
    }
  }

  lemma LowerHexByPairs(s: string)
    requires |s| == 64
    requires forall i :: 0 <= i < 32 ==> LowerHex([s[2 * i], s[2 * i + 1]])
    ensures LowerHex(s)
  {
    forall c | c in s
      ensures LowerHex([c])
    {
      var k :| 0 <= k < 64 && s[k] == c;
      assert LowerHex([s[2 * (k / 2)], s[2 * (k / 2) + 1]]);
      assert c in [s[2 * (k / 2)], s[2 * (k / 2) + 1]];
    }
    assert forall c :: c in s ==> LowerHex([c]) && c in [c];
  }

  lemma EqualByPairs(s: string, t: string)
    requires |s| == |t| == 64
    requires forall i :: 0 <= i < 32 ==> s[2 * i] == t[2 * i] && s[2 * i + 1] == t[2 * i + 1]
    ensures s == t
  {
    forall k | 0 <= k < 64
      ensures s[k] == t[k]
    {
      assert s[2 * (k / 2)] == t[2 * (k / 2)] && s[2 * (k / 2) + 1] == t[2 * (k / 2) + 1];
    }
  }

  lemma PlusPair(b: byte)
    ensures HexByte(b)[0] != '+'
    ensures ParseHexPair('+', HexByte(b)[1]) == Some(b) <==> b < 16
  {
    HexDigitExact(HEX_DIGITS[b as int / 16], b as int / 16);
    HexDigitExact(HEX_DIGITS[b as int % 16], b as int % 16);
  }

  /** Not every text that denotes a txid is the printed one: a plus sign may replace the high digit of a pair
      exactly when that digit is zero. */
  lemma PlusSignAccepted(txid: Bytes32, i: nat)
    requires i < 32
    ensures var s := ReversedHex(txid)[2 * i := '+'];
      s != ReversedHex(txid) && (Denotes(s, txid) <==> txid[31 - i] < 16)
  {
    var text := ReversedHex(txid);
    var s := text[2 * i := '+'];
    TextPair(txid, i);
    PlusPair(txid[31 - i]);
    var pair := [text[2 * i], text[2 * i + 1]];
    assert pair[0] != '+' && pair[1] == HexByte(txid[31 - i])[1];
    assert PairAt(s, i) == ParseHexPair('+', pair[1]);
    forall j | 0 <= j < 32 && j != i
      ensures PairAt(s, j) == Some(txid[31 - j])
    {
      TextPair(txid, j);
    }
  }

  // ----- decimal numbers -----------------------------------------------

  const DECIMAL_DIGITS := "0123456789"

  /** `to_string` of an unsigned integer. */
  function Decimal(n: nat): (s: string)
    ensures s != ""
  {
    if n < 10 then [DECIMAL_DIGITS[n]] else Decimal(n / 10) + [DECIMAL_DIGITS[n % 10]]
  }

  function DigitsValue(s: string): Option<nat> {
    if s == "" then Some(0)
    else
      var n := |s| - 1;
      var init := DigitsValue(s[..n]);
      if init.None? || !('0' <= s[n] <= '9') then None else Some(10 * init.value + (s[n] as int - '0' as int))
  }

  /** `str::parse::<u32>`, with its optional plus sign and its overflow check. */
  function ParseU32(s: string): Option<u32> {
    var digits := if s != "" && s[0] == '+' then s[1..] else s;
    if digits == "" then None
    else
      var v := DigitsValue(digits);
      if v.Some? && v.value < 0x1_0000_0000 then Some(v.value) else None
  }

  lemma {:induction false} DecimalValue(n: nat)
    ensures DigitsValue(Decimal(n)) == Some(n)
    ensures Decimal(n)[0] != '+'
  {
    var s := Decimal(n);
    if n < 10 {
      assert s[..0] == "";
    } else {
      DecimalValue(n / 10);
      assert s[..|s| - 1] == Decimal(n / 10);
    }
  }

  /** The last digit of a number, and the digits before it. */
  lemma DecimalDigits(n: nat)
    ensures var s := Decimal(n);
      s == (if n < 10 then "" else Decimal(n / 10)) + ['0' + (n % 10) as char]
  {
    DecimalDigit(n % 10);
  }

  lemma DecimalDigit(d: nat)
    requires d < 10
    ensures DECIMAL_DIGITS[d] == '0' + d as char
  {
  }

  function Zeros(z: nat): (s: string)
    ensures |s| == z
  {
    seq(z, _ => '0')
  }

  lemma ZerosStep(z: nat)
    ensures Zeros(z) + "0" == Zeros(z + 1)
  {
  }

  lemma {:induction false} ZerosValue(z: nat, s: string)
    ensures DigitsValue(Zeros(z) + s) == DigitsValue(s)
  {
    if s == "" {
      assert Zeros(z) + s == Zeros(z);
      if z > 0 {
        ZerosValue(z - 1, "");
        ZerosStep(z - 1);
        assert Zeros(z)[..z - 1] == Zeros(z - 1) == Zeros(z - 1) + "";
      }
    } else {
      var n := |s| - 1;
      ZerosValue(z, s[..n]);
      assert (Zeros(z) + s)[..|Zeros(z) + s| - 1] == Zeros(z) + s[..n];
    }
  }

  lemma DigitsStep(s: string, v: nat)
    requires |s| > 1 && DigitsValue(s) == Some(v)
    ensures DigitsValue(s[..|s| - 1]) == Some(v / 10)
    ensures s == s[..|s| - 1] + ['0' + (v % 10) as char]
  {
    var d := s[|s| - 1];
    assert v % 10 == d as int - '0' as int;
  }

  /** Which digit strings there are for a number: the printed one behind zeros. */
  lemma {:induction false} DigitsForm(s: string, v: nat) returns (z: nat)
    requires s != "" && DigitsValue(s) == Some(v)
    ensures s == Zeros(z) + Decimal(v)
  {
    DecimalDigits(v);
    if |s| == 1 {
      z := 0;
      assert s == ['0' + (v % 10) as char] && v < 10;
    } else {
      DigitsStep(s, v);
      z := DigitsForm(s[..|s| - 1], v / 10);
      if v < 10 {
        assert Decimal(0) == "0";
        ZerosStep(z);
        z := z + 1;
      }
    }
  }

  lemma ParsesWithPlus(t: string, v: u32)
    requires t != "" && t[0] != '+' && DigitsValue(t) == Some(v)
    ensures ParseU32(t) == Some(v) && ParseU32("+" + t) == Some(v)
  {
    assert ("+" + t)[1..] == t;
  }

  lemma PaddedParses(z: nat, v: u32)
    ensures ParseU32(Zeros(z) + Decimal(v)) == Some(v)
    ensures ParseU32("+" + Zeros(z) + Decimal(v)) == Some(v)
  {
    var t := Zeros(z) + Decimal(v);
    DecimalValue(v);
    ZerosValue(z, Decimal(v));
    assert t[0] == if z > 0 then '0' else Decimal(v)[0];
    ParsesWithPlus(t, v);
    assert "+" + Zeros(z) + Decimal(v) == "+" + t;
  }

  /** A number is parsed exactly from its printed form, behind any zeros, behind an optional plus sign. */
  lemma ParseU32Exact(s: string, v: u32)
    ensures ParseU32(s) == Some(v) <==>
      exists z: nat :: s == Zeros(z) + Decimal(v) || s == "+" + Zeros(z) + Decimal(v)
  {
    if ParseU32(s) == Some(v) {
      if s[0] == '+' {
        var z := DigitsForm(s[1..], v);
        assert s == "+" + (Zeros(z) + Decimal(v)) == "+" + Zeros(z) + Decimal(v);
      } else {
        var z := DigitsForm(s, v);
      }
    }
    if z: nat :| s == Zeros(z) + Decimal(v) || s == "+" + Zeros(z) + Decimal(v) {
      PaddedParses(z, v);
    }
  }

  lemma DecimalRoundTrip(n: u32)
    ensures ParseU32(Decimal(n)) == Some(n)
  {
    DecimalValue(n);
  }

  // ----- outpoint keys -------------------------------------------------

  function Key(o: BtqOutpoint): string {
    ReversedHex(o.txid) + ":" + Decimal(o.vout)
  }

  /** A key is the text of the txid, a colon, and the output number. */
  lemma KeyExact(o: BtqOutpoint)
    ensures var k := Key(o);
      |k| > 65 && k[..64] == ReversedHex(o.txid) && k[64] == ':' && k[65..] == Decimal(o.vout)
  {
  }

  /** Two outpoints never share a key. */
  lemma KeyInjective(o: BtqOutpoint, o': BtqOutpoint)
    ensures Key(o) == Key(o') ==> o == o'
  {
    if Key(o) == Key(o') {
      SplitConcat(ReversedHex(o.txid) + ":", Decimal(o.vout), ReversedHex(o'.txid) + ":", Decimal(o'.vout));
      SplitConcat(ReversedHex(o.txid), ":", ReversedHex(o'.txid), ":");
      DecimalValue(o.vout);
      DecimalValue(o'.vout);
      var text := ReversedHex(o.txid);
      TxidTextExact(text, o.txid);
      TxidTextExact(text, o'.txid);
      DenotesUnique(text, o.txid, o'.txid);
    }
  }
}
