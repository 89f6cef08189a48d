/** Decoding of contract calls from hex text, against the encoder of the Solidity Contract ABI
    Specification (sections "Function Selector and Argument Encoding" and "Formal Specification of
    the Encoding"). Text is ASCII. */
module Abi {
  import opened Schemas

  // ---------------------------------------------------------------- numbers as text

  function HexDigit(d: nat): char
    requires d < 16
  {
    if d < 10 then ('0' as int + d) as char else ('a' as int + d - 10) as char
  }

  function HexValue(c: char): Option<nat> {
    if '0' <= c <= '9' then Some(c as int - '0' as int)
    else if 'a' <= c <= 'f' then Some(c as int - 'a' as int + 10)
    else if 'A' <= c <= 'F' then Some(c as int - 'A' as int + 10)
    else None
  }

  predicate IsLowerHex(c: char) { '0' <= c <= '9' || 'a' <= c <= 'f' }

  predicate AllHex(s: string) { forall i :: 0 <= i < |s| ==> HexValue(s[i]).Some? }

  function HexNumber(s: string): nat
    requires AllHex(s)
  {
    if s == [] then 0 else 16 * HexNumber(s[..|s| - 1]) + HexValue(s[|s| - 1]).value
  }

  /** big.Int.SetString in base 16: an optional sign and at least one digit. */
  function ParseBigHex(s: string): Option<int> {
    var digits := if s != [] && s[0] in {'+', '-'} then s[1..] else s;
    if digits == [] || !AllHex(digits) then None
    else
      var magnitude: int := HexNumber(digits);
      Some(if s[0] == '-' then -magnitude else magnitude)
  }

  function DecimalNat(n: nat): string {
    var digit := [('0' as int + n % 10) as char];
    if n < 10 then digit else DecimalNat(n / 10) + digit
  }

  /** big.Int.String. */
  function Decimal(n: int): string {
    if n < 0 then "-" + DecimalNat(-n) else DecimalNat(n)
  }

  /** big.Int.Int64: the low 64 bits of the magnitude, as a signed word with the sign applied. */
  function Int64(v: int): int {
    var magnitude := (if v < 0 then -v else v) % 0x1_0000_0000_0000_0000;
    var signed := if magnitude < 0x8000_0000_0000_0000 then magnitude else magnitude - 0x1_0000_0000_0000_0000;
    if v < 0 && signed != -0x8000_0000_0000_0000 then -signed else signed
  }

  // ---------------------------------------------------------------- the decoder

  function FetchMethod(input: string): string {
    if |input| < 10 then "0x" else input[..10]
  }

  /** The matches of `.{64}`, left to right: a window with a line break is skipped by one character. */
  function Blocks(s: string): seq<string>
    decreases |s|
  {
    if |s| < 64 then []
    else if '\n' !in s[..64] then [s[..64]] + Blocks(s[64..])
    else Blocks(s[1..])
  }

  /** The address and the amount of a submitted transaction; empty when the input is too short. */
  function ParseSubmitInput(input: string): (string, string) {
    if |input| < 266 then ("", "")
    else
      var parts := Blocks(input[10..]);
      if |parts| < 4 then ("", "")
      else
        BlocksAreBlocks(input[10..]);
        (Lower("0x" + parts[0][24..]),
         match ParseBigHex(parts[1]) case None => "<nil>" case Some(a) => Decimal(a))
  }

  /** The request id that a mined submit is stored with; None when its return value cannot be read. */
  function ParseReturned(returned: string): Option<int> {
    match ParseBigHex(returned)
    case None => None
    case Some(i) => Some(Int64(i))
  }

  /** The request id of a confirm; None where the source dereferences a nil number. */
  function ParseConfirmInput(input: string): Option<int>
    requires |input| >= 10
  {
    match ParseBigHex(input[10..])
    case None => None
    case Some(i) => Some(Int64(i))
  }

  lemma BlocksAreBlocks(s: string)
    ensures forall b :: b in Blocks(s) ==> |b| == 64
    decreases |s|
  {
    if |s| >= 64 {
      if '\n' !in s[..64] { BlocksAreBlocks(s[64..]); } else { BlocksAreBlocks(s[1..]); }
    }
  }

  // ---------------------------------------------------------------- the encoder of the specification

  type Byte = b: nat | b < 256

  /** The unsigned integer n, big-endian, on this many hex digits. */
  function Hex(n: nat, width: nat): (s: string)
    ensures |s| == width
    ensures forall i :: 0 <= i < |s| ==> IsLowerHex(s[i])
  {
    if width == 0 then []
    else
      Hex(n / 16, width - 1) + [HexDigit(n % 16)]
  }

  function HexBytes(bs: seq<Byte>): (s: string)
    ensures |s| == 2 * |bs|
    ensures forall i :: 0 <= i < |s| ==> IsLowerHex(s[i])
  {
    if bs == [] then [] else HexBytes(bs[..|bs| - 1]) + Hex(bs[|bs| - 1], 2)
  }

  function Zeros(n: nat): (s: string)
    ensures |s| == n
    ensures forall i :: 0 <= i < n ==> s[i] == '0'
  {
    seq(n, i => '0')
  }

  /** Number of hex digits that pad the data to whole 32-byte words. */
  function Padding(bytes: nat): (n: nat)
    ensures (2 * bytes + n) % 64 == 0 && n < 64
  {
    var used := 2 * bytes % 64;
    assert 2 * bytes == 64 * (2 * bytes / 64) + used;
    if used == 0 then 0
    else
      assert 2 * bytes + (64 - used) == 64 * (2 * bytes / 64 + 1);
      64 - used
  }

  /** The three head words of submitTransaction(address destination, uint256 value, bytes data), of which the
      last is the offset of the data, the length of the head in bytes; then the length of the data. */
  function EncodedHead(destination: seq<Byte>, value: nat, length: nat): (h: string)
    requires |destination| == 20
    ensures |h| == 256 && h[24..64] == HexBytes(destination) && h[64..128] == Hex(value, 64)
  {
    var address := Zeros(24) + HexBytes(destination);
    address + Hex(value, 64) + Hex(3 * (|address| / 2), 64) + Hex(length, 64)
  }

  /** The selector, the head, and the padded contents of the data. */
  function EncodeSubmit(destination: seq<Byte>, value: nat, data: seq<Byte>): string
    requires |destination| == 20
  {
    SUBMIT_TRANSACTION + EncodedHead(destination, value, |data|) + (HexBytes(data) + Zeros(Padding(|data|)))
  }

  /** confirmTransaction(uint256 transactionId) */
  function EncodeConfirm(id: nat): string {
    CONFIRM_TRANSACTION + Hex(id, 64)
  }

  function Pow16(k: nat): nat {
    if k == 0 then 1 else 16 * Pow16(k - 1)
  }

  /** 2^256 */
  const WORD_LIMIT: nat := 0x1_0000_0000_0000_0000_0000_0000_0000_0000_0000_0000_0000_0000_0000_0000_0000_0000

  lemma EightDigits(k: nat)
    ensures Pow16(k + 8) == 0x1_0000_0000 * Pow16(k)
  {
    assert Pow16(k + 2) == 0x100 * Pow16(k);
    assert Pow16(k + 4) == 0x100 * Pow16(k + 2);
    assert Pow16(k + 6) == 0x100 * Pow16(k + 4);
  }

  lemma WordLimit()
    ensures Pow16(64) == WORD_LIMIT
  {
    EightDigits(0);
    EightDigits(8);
    EightDigits(16);
    EightDigits(24);
    EightDigits(32);
    EightDigits(40);
    EightDigits(48);
    EightDigits(56);
  }

  // ---------------------------------------------------------------- text and numbers

  lemma {:induction false} HexRoundTrip(n: nat, width: nat)
    requires n < Pow16(width)
    ensures AllHex(Hex(n, width)) && HexNumber(Hex(n, width)) == n
  {
    if width > 0 {
      HexRoundTrip(n / 16, width - 1);
      var s := Hex(n, width);
      assert s[..width - 1] == Hex(n / 16, width - 1);
      assert HexValue(HexDigit(n % 16)) == Some(n % 16);
    }
  }

  lemma WordRoundTrip(n: nat)
    requires n < WORD_LIMIT
    ensures AllHex(Hex(n, 64)) && HexNumber(Hex(n, 64)) == n
  {
    WordLimit();
    HexRoundTrip(n, 64);
  }

  lemma ListedIsHex(c: char)
    requires IsLowerHex(LowerChar(c))
    ensures HexValue(c).Some? && HexValue(c) == HexValue(LowerChar(c))
    ensures c != '\n' && c != '+' && c != '-'
  {
  }

  /** Parsing does not depend on the case of the digits. */
  lemma {:induction false} HexNumberIgnoresCase(s: string, t: string)
    requires |s| == |t| && AllHex(t)
    requires forall i :: 0 <= i < |s| ==> LowerChar(s[i]) == t[i] && IsLowerHex(t[i])
    ensures AllHex(s) && HexNumber(s) == HexNumber(t)
  {
    forall i | 0 <= i < |s| ensures HexValue(s[i]).Some? && HexValue(s[i]) == HexValue(t[i]) { ListedIsHex(s[i]); }
    if s != [] { HexNumberIgnoresCase(s[..|s| - 1], t[..|t| - 1]); }
  }

  ghost predicate AllDigits(s: string) { forall i :: 0 <= i < |s| ==> '0' <= s[i] <= '9' }

  ghost function DecimalNumber(s: string): nat
    requires AllDigits(s)
  {
    if s == [] then 0 else 10 * DecimalNumber(s[..|s| - 1]) + (s[|s| - 1] as int - '0' as int)
  }

  /** The decimal text is digits without a superfluous zero, and it denotes the number. */
  lemma {:induction false} DecimalRoundTrip(n: nat)
    ensures DecimalNat(n) != [] && AllDigits(DecimalNat(n)) && DecimalNumber(DecimalNat(n)) == n
    ensures DecimalNat(n)[0] == '0' ==> n == 0
  {
    var digit := [('0' as int + n % 10) as char];
    if n < 10 {
      assert digit[..0] == [];
    } else {
      DecimalRoundTrip(n / 10);
      assert DecimalNat(n)[..|DecimalNat(n)| - 1] == DecimalNat(n / 10);
    }
  }

  // ---------------------------------------------------------------- round trips

  lemma EncodedLayout(destination: seq<Byte>, value: nat, data: seq<Byte>)
    requires |destination| == 20
    ensures var e := EncodeSubmit(destination, value, data);
            && |e| >= 266 && (|e| == 266 <==> data == [])
            && e[..10] == SUBMIT_TRANSACTION && e[34..74] == HexBytes(destination) && e[74..138] == Hex(value, 64)
            && (forall i :: 10 <= i < 266 ==> IsLowerHex(e[i]))
  {
    var head, tail := EncodedHead(destination, value, |data|), HexBytes(data) + Zeros(Padding(|data|));
    EncodedHeadIsHex(destination, value, |data|);
    HeadAndTail(SUBMIT_TRANSACTION, head, tail);
    assert |tail| == 0 <==> |data| == 0 by { PaddingIsShort(|data|); }
  }

  lemma PaddingIsShort(bytes: nat)
    ensures 2 * bytes + Padding(bytes) == 0 <==> bytes == 0
  {
  }

  lemma EncodedHeadIsHex(destination: seq<Byte>, value: nat, length: nat)
    requires |destination| == 20
    ensures AllLowerHex(EncodedHead(destination, value, length))
  {
    var a := Zeros(24) + HexBytes(destination);
    var b, c, d := Hex(value, 64), Hex(3 * (|a| / 2), 64), Hex(length, 64);
    LowerHexConcat(Zeros(24), HexBytes(destination));
    LowerHexConcat(a, b);
    LowerHexConcat(a + b, c);
    LowerHexConcat(a + b + c, d);
  }

  predicate AllLowerHex(s: string) { forall i :: 0 <= i < |s| ==> IsLowerHex(s[i]) }

  lemma LowerHexConcat(a: string, b: string)
    requires AllLowerHex(a) && AllLowerHex(b)
    ensures AllLowerHex(a + b)
  {
  }

  lemma HeadAndTail(selector: string, head: string, tail: string)
    requires |selector| == 10 && |head| == 256 && AllLowerHex(head)
    ensures var e := selector + head + tail;
            e[..10] == selector && e[34..74] == head[24..64] && e[74..138] == head[64..128]
            && forall i :: 10 <= i < 266 ==> IsLowerHex(e[i])
  {
    var e := selector + head + tail;
    forall i | 10 <= i < 266 ensures IsLowerHex(e[i]) { assert e[i] == head[i - 10]; }
  }

  lemma FirstBlocks(s: string)
    requires |s| >= 256 && forall i :: 0 <= i < 256 ==> s[i] != '\n'
    ensures |Blocks(s)| >= 4 && Blocks(s)[0] == s[..64] && Blocks(s)[1] == s[64..128]
  {
    var s1 := s[64..];
    var s2 := s1[64..];
    var s3 := s2[64..];
    assert forall i :: 0 <= i < 64 ==> s1[i] == s[i + 64] && s2[i] == s[i + 128] && s3[i] == s[i + 192];
    assert Blocks(s) == [s[..64]] + Blocks(s1);
    assert Blocks(s1) == [s1[..64]] + Blocks(s2);
    assert Blocks(s2) == [s2[..64]] + Blocks(s3);
    assert Blocks(s3) == [s3[..64]] + Blocks(s3[64..]);
    assert s1[..64] == s[64..128];
  }

  /** Decoding any encoded call, with its digits in either case, gives back the selector, the
      lower-cased address and the decimal value. */
  lemma SubmitRoundTrip(destination: seq<Byte>, value: nat, data: seq<Byte>, input: string)
    requires |destination| == 20 && value < WORD_LIMIT
    ensures Lower(input) == EncodeSubmit(destination, value, data) ==>
              && Lower(FetchMethod(input)) == SUBMIT_TRANSACTION
              && ParseSubmitInput(input) == ("0x" + HexBytes(destination), Decimal(value))
  {
    if Lower(input) == EncodeSubmit(destination, value, data) {
      EncodedLayout(destination, value, data);
      LowerSlice(input, 0, 10);
      LowerSlice(input, 34, 74);
      LowerSlice(input, 74, 138);
      forall i | 10 <= i < 266 ensures input[i] != '\n' { ListedIsHex(input[i]); }
      WordParses(input[74..138], value);
      ParsedHead(input, HexBytes(destination), value);
    }
  }

  /** The text is digits without a superfluous zero, and denotes the number; a minus sign comes before a negative
      one. */
  ghost predicate DenotesDecimal(s: string, n: int) {
    if n < 0 then s != [] && s[0] == '-' && DenotesDecimal(s[1..], -n)
    else s != [] && AllDigits(s) && DecimalNumber(s) == n && (s[0] == '0' ==> n == 0)
  }

  lemma DecimalDenotes(n: int)
    ensures DenotesDecimal(Decimal(n), n)
  {
    if n < 0 {
      DecimalRoundTrip(-n);
      assert Decimal(n)[1..] == DecimalNat(-n);
    } else {
      DecimalRoundTrip(n);
    }
  }

  lemma {:induction false} HexBytesAt(bs: seq<Byte>, k: nat)
    requires k < |bs|
    ensures HexBytes(bs)[2 * k..2 * k + 2] == Hex(bs[k], 2)
  {
    var n := |bs| - 1;
    var front, last := HexBytes(bs[..n]), Hex(bs[n], 2);
    if k < n {
      HexBytesAt(bs[..n], k);
      SliceOfFront(front, last, 2 * k);
    } else {
      SliceOfBack(front, last);
    }
  }

  lemma SliceOfFront(front: string, last: string, i: nat)
    requires i + 2 <= |front|
    ensures (front + last)[i..i + 2] == front[i..i + 2]
  {
  }

  lemma SliceOfBack(front: string, last: string)
    requires |last| == 2
    ensures (front + last)[|front|..|front| + 2] == last
  {
  }

  lemma HexByte(b: Byte)
    ensures DenotesByte(Hex(b, 2), b)
  {
    assert Pow16(1) == 16 && Pow16(2) == 256;
    HexRoundTrip(b, 2);
  }

  /** 0x and the bytes in lower case, two digits each. */
  ghost predicate IsAddressText(s: string, bytes: seq<Byte>) {
    && |s| == 2 + 2 * |bytes| && s[..2] == "0x" && (forall i :: 2 <= i < |s| ==> IsLowerHex(s[i]))
    && forall k :: 0 <= k < |bytes| ==> DenotesByte(s[2 + 2 * k..4 + 2 * k], bytes[k])
  }

  ghost predicate DenotesByte(s: string, b: Byte) { AllHex(s) && HexNumber(s) == b }

  lemma AddressText(bytes: seq<Byte>, s: string)
    requires s == "0x" + HexBytes(bytes)
    ensures IsAddressText(s, bytes)
  {
    var digits := HexBytes(bytes);
    forall k | 0 <= k < |bytes| ensures DenotesByte(s[2 + 2 * k..4 + 2 * k], bytes[k]) {
      HexBytesAt(bytes, k);
      HexByte(bytes[k]);
      assert s[2 + 2 * k..4 + 2 * k] == digits[2 * k..2 * k + 2];
    }
    forall i | 2 <= i < |s| ensures IsLowerHex(s[i]) { assert s[i] == digits[i - 2]; }
  }

  /** What a decoded call says, digit by digit: the address text of the 20 bytes, and the decimal text of the
      value without a superfluous zero. */
  lemma DecodedCall(destination: seq<Byte>, value: nat, data: seq<Byte>, input: string)
    requires |destination| == 20 && value < WORD_LIMIT
    ensures Lower(input) == EncodeSubmit(destination, value, data) ==>
              var (address, amount) := ParseSubmitInput(input);
              && IsAddressText(address, destination)
              && amount != [] && AllDigits(amount) && DecimalNumber(amount) == value
              && (amount[0] == '0' ==> value == 0)
  {
    if Lower(input) == EncodeSubmit(destination, value, data) {
      SubmitRoundTrip(destination, value, data, input);
      DecimalDenotes(value);
      AddressText(destination, ParseSubmitInput(input).0);
    }
  }

  lemma LowerSlice(s: string, lo: nat, hi: nat)
    requires lo <= hi <= |s|
    ensures Lower(s[lo..hi]) == Lower(s)[lo..hi]
  {
  }

  lemma ParsedHead(input: string, address: string, value: nat)
    requires |input| >= 266 && forall i :: 10 <= i < 266 ==> input[i] != '\n'
    requires Lower(input[34..74]) == address && ParseBigHex(input[74..138]) == Some(value)
    ensures ParseSubmitInput(input) == ("0x" + address, Decimal(value))
  {
    HeadBlocks(input);
    assert Lower("0x" + input[34..74]) == "0x" + Lower(input[34..74]);
  }

  /** The first two blocks after the selector, without their padding. */
  lemma HeadBlocks(input: string)
    requires |input| >= 266 && forall i :: 10 <= i < 266 ==> input[i] != '\n'
    ensures |Blocks(input[10..])| >= 4
    ensures Blocks(input[10..])[0][24..] == input[34..74] && Blocks(input[10..])[1] == input[74..138]
  {
    var s := input[10..];
    assert forall i :: 0 <= i < 256 ==> s[i] == input[i + 10];
    FirstBlocks(s);
  }

  /** A word parses to its number whatever the case of its digits. */
  lemma WordParses(word: string, n: nat)
    requires n < WORD_LIMIT && |word| == 64
    requires Lower(word) == Hex(n, 64)
    ensures ParseBigHex(word) == Some(n)
  {
    WordRoundTrip(n);
    HexNumberIgnoresCase(word, Hex(n, 64));
    ListedIsHex(word[0]);
  }

  /** The canonical lower-case encoding decodes to the selector itself, and no shorter text decodes. */
  lemma ShortestSubmit(destination: seq<Byte>, value: nat, input: string)
    requires |destination| == 20 && value < WORD_LIMIT
    ensures FetchMethod(EncodeSubmit(destination, value, [])) == SUBMIT_TRANSACTION
    ensures ParseSubmitInput(EncodeSubmit(destination, value, [])) == ("0x" + HexBytes(destination), Decimal(value))
    ensures |input| < |EncodeSubmit(destination, value, [])| ==> ParseSubmitInput(input) == ("", "")
  {
    var e := EncodeSubmit(destination, value, []);
    EncodedLayout(destination, value, []);
    forall i | 0 <= i < |e| ensures LowerChar(e[i]) == e[i] {
      if i < 10 { assert e[i] == e[..10][i]; }
    }
    assert Lower(e) == e;
    SubmitRoundTrip(destination, value, [], e);
  }

  /** Different calls give different results: the decoder loses nothing of the address and the value. */
  lemma SubmitDecodingIsInjective(a: seq<Byte>, v: nat, d: seq<Byte>, b: seq<Byte>, w: nat, e: seq<Byte>, s: string,
                                  t: string)
    requires |a| == 20 && |b| == 20 && v < WORD_LIMIT && w < WORD_LIMIT
    requires Lower(s) == EncodeSubmit(a, v, d) && Lower(t) == EncodeSubmit(b, w, e)
    ensures ParseSubmitInput(s) == ParseSubmitInput(t) <==> a == b && v == w
  {
    SubmitRoundTrip(a, v, d, s);
    SubmitRoundTrip(b, w, e, t);
    DecimalRoundTrip(v);
    DecimalRoundTrip(w);
    if ParseSubmitInput(s) == ParseSubmitInput(t) {
      assert HexBytes(a) == ("0x" + HexBytes(a))[2..] == ("0x" + HexBytes(b))[2..] == HexBytes(b);
      HexBytesInjective(a, b);
    }
  }

  lemma SameSplit(x: string, y: string, p: string, q: string)
    requires x + p == y + q && |p| == |q|
    ensures x == y && p == q
  {
    assert |x| == |y|;
    assert x == (x + p)[..|x|] == (y + q)[..|x|] == y;
    assert p == (x + p)[|x|..] == (y + q)[|x|..] == q;
  }

  lemma {:induction false} HexBytesInjective(a: seq<Byte>, b: seq<Byte>)
    requires HexBytes(a) == HexBytes(b)
    ensures a == b
  {
    assert |a| == |b|;
    if a != [] {
      var n := |a| - 1;
      SameSplit(HexBytes(a[..n]), HexBytes(b[..n]), Hex(a[n], 2), Hex(b[n], 2));
      HexBytesInjective(a[..n], b[..n]);
      assert Pow16(1) == 16 && Pow16(2) == 256;
      HexRoundTrip(a[n], 2);
      HexRoundTrip(b[n], 2);
      assert a == a[..n] + [a[n]] && b == b[..n] + [b[n]];
    }
  }

  lemma Int64Exact(v: nat)
    ensures Int64(v) == v <==> v < 0x8000_0000_0000_0000
  {
  }

  /** Truncating keeps the low 64 bits and nothing else. */
  lemma Int64SameIff(a: nat, b: nat)
    ensures Int64(a) == Int64(b) <==> a % 0x1_0000_0000_0000_0000 == b % 0x1_0000_0000_0000_0000
  {
  }

  /** The truncated number is a signed 64-bit word, and congruent to the number. */
  lemma Int64IsWord(v: int)
    ensures -0x8000_0000_0000_0000 <= Int64(v) < 0x8000_0000_0000_0000
    ensures (v - Int64(v)) % 0x1_0000_0000_0000_0000 == 0
  {
  }

  lemma ConfirmParses(id: nat)
    requires id < WORD_LIMIT
    ensures FetchMethod(EncodeConfirm(id)) == CONFIRM_TRANSACTION
    ensures ParseConfirmInput(EncodeConfirm(id)) == Some(Int64(id))
  {
    var e := EncodeConfirm(id);
    assert e[..10] == CONFIRM_TRANSACTION && e[10..] == Hex(id, 64);
    assert Lower(Hex(id, 64)) == Hex(id, 64);
    WordParses(Hex(id, 64), id);
  }

  lemma ReturnParses(id: nat, returned: string)
    requires id < WORD_LIMIT
    ensures Lower(returned) == Hex(id, 64) ==> ParseReturned(returned) == Some(Int64(id))
  {
    if Lower(returned) == Hex(id, 64) { WordParses(returned, id); }
  }

  /** The id a confirm is parsed to is the encoded number exactly when that fits a signed 64-bit word. */
  lemma ConfirmRoundTrip(id: nat)
    requires id < WORD_LIMIT
    ensures FetchMethod(EncodeConfirm(id)) == CONFIRM_TRANSACTION
    ensures ParseConfirmInput(EncodeConfirm(id)) == Some(Int64(id))
    ensures ParseConfirmInput(EncodeConfirm(id)) == Some(id) <==> id < 0x8000_0000_0000_0000
  {
    ConfirmParses(id);
    Int64Exact(id);
  }

  /** The id of a request is truncated in the same way when it is stored. So a confirm of request a always
      finds the stored id of a, and finds that of b exactly when the low 64 bits agree. */
  lemma ConfirmFindsIff(a: nat, b: nat, returned: string)
    requires a < WORD_LIMIT && b < WORD_LIMIT
    ensures Lower(returned) == Hex(b, 64) ==>
              (ParseConfirmInput(EncodeConfirm(a)) == ParseReturned(returned)
               <==> a % 0x1_0000_0000_0000_0000 == b % 0x1_0000_0000_0000_0000)
  {
    ConfirmParses(a);
    ReturnParses(b, returned);
    Int64SameIff(a, b);
  }

  // ---------------------------------------------------------------- texts that are no calls

  /** The method is the first ten characters, or 0x for a shorter text. */
  lemma MethodOfText(input: string)
    ensures |input| < 10 ==> FetchMethod(input) == "0x"
    ensures |input| >= 10 ==> |FetchMethod(input)| == 10 && FetchMethod(input) <= input
  {
  }

  lemma DigitsParse(s: string)
    requires s != [] && AllHex(s)
    ensures ParseBigHex(s) == Some(HexNumber(s))
  {
    assert HexValue(s[0]).Some? && s[0] !in {'+', '-'};
  }

  lemma SignedParses(s: string)
    requires s != [] && s[0] in {'+', '-'}
    ensures ParseBigHex(s) ==
            if |s| == 1 || !AllHex(s[1..]) then None
            else Some(if s[0] == '-' then -(HexNumber(s[1..]) as int) else HexNumber(s[1..]))
    ensures !AllHex(s)
  {
    assert HexValue(s[0]).None?;
  }

  /** A number in base 16 is an optional sign and at least one digit, and nothing else. */
  lemma ParsesIff(s: string)
    ensures s != [] && AllHex(s) ==> ParseBigHex(s) == Some(HexNumber(s))
    ensures |s| > 1 && s[0] == '+' && AllHex(s[1..]) ==> ParseBigHex(s) == Some(HexNumber(s[1..]))
    ensures |s| > 1 && s[0] == '-' && AllHex(s[1..]) ==> ParseBigHex(s) == Some(-(HexNumber(s[1..]) as int))
    ensures ParseBigHex(s).None? <==>
            s == [] || !(AllHex(s) || (|s| > 1 && s[0] in {'+', '-'} && AllHex(s[1..])))
  {
    if s != [] && s[0] in {'+', '-'} {
      SignedParses(s);
    } else if s != [] && AllHex(s) {
      DigitsParse(s);
    }
  }

  /** A text without line breaks is cut into blocks of 64 characters from the left; what is left over is
      dropped. */
  lemma {:induction false} BlocksFromTheLeft(s: string, k: nat)
    requires '\n' !in s
    ensures |Blocks(s)| == |s| / 64
    ensures k < |s| / 64 ==> Blocks(s)[k] == s[64 * k..64 * k + 64]
  {
    if |s| >= 64 {
      BlocksFromTheLeft(s[64..], if k == 0 then 0 else k - 1);
      if 0 < k < |s| / 64 { assert s[64..][64 * (k - 1)..64 * (k - 1) + 64] == s[64 * k..64 * k + 64]; }
    }
  }

  /** A text of at least 266 characters without line breaks gives the last 40 digits of its first block as the
      address, and the number in its second block as the amount, or a mark that there is none. */
  lemma AnyLongText(input: string)
    requires |input| >= 266 && '\n' !in input
    ensures var (address, amount) := ParseSubmitInput(input);
            && address == Lower("0x" + input[34..74])
            && (match ParseBigHex(input[74..138])
                case None => amount == "<nil>"
                case Some(v) => DenotesDecimal(amount, v))
  {
    var s := input[10..];
    assert forall c :: c in s ==> c in input;
    BlocksFromTheLeft(s, 0);
    BlocksFromTheLeft(s, 1);
    assert s[0..64][24..] == input[34..74] && s[64..128] == input[74..138];
    match ParseBigHex(input[74..138])
    case None =>
    case Some(v) => DecimalDenotes(v);
  }
}
