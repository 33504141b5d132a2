/** Hexadecimal text of frame data (section 8 of RFC 4648): lower case out, either case and whitespace in. */
module Hex {
  import opened Bytes
  import opened Results
  import Utf8

  datatype HexError = OddLength | BadChar(byte: u8)

  /** Rust's `char::is_whitespace`, the Unicode White_Space property. */
  predicate IsWhitespace(ch: char) {
    var c := ch as int;
    9 <= c <= 13 || c == 0x20 || c == 0x85 || c == 0xA0 || c == 0x1680 || 0x2000 <= c <= 0x200A ||
    c == 0x2028 || c == 0x2029 || c == 0x202F || c == 0x205F || c == 0x3000
  }

  function StripWhitespace(s: string): string {
    if s == [] then []
    else if IsWhitespace(s[0]) then StripWhitespace(s[1..])
    else [s[0]] + StripWhitespace(s[1..])
  }

  predicate IsHexDigit(ch: char) {
    '0' <= ch <= '9' || 'a' <= ch <= 'f' || 'A' <= ch <= 'F'
  }

  function LowerCase(ch: char): char {
    if 'A' <= ch <= 'Z' then (ch as int + 32) as char else ch
  }

  function Lowered(s: string): (r: string)
    ensures |r| == |s|
  {
    if s == [] then [] else [LowerCase(s[0])] + Lowered(s[1..])
  }

  function Val(b: u8): (v: Option<u8>)
    ensures v.Some? ==> v.value < 16
  {
    if '0' as int <= b <= '9' as int then Some(b - '0' as int)
    else if 'a' as int <= b <= 'f' as int then Some(10 + (b - 'a' as int))
    else if 'A' as int <= b <= 'F' as int then Some(10 + (b - 'A' as int))
    else None
  }

  const LUT: string := "0123456789abcdef"

  function Digit(n: nat): char
    requires n < 16
  {
    LUT[n]
  }

  /** `bytes_to_hex_lower`. */
  function HexLower(bytes: seq<u8>): (s: string)
    ensures |s| == 2 * |bytes|
  {
    if bytes == [] then [] else [Digit(bytes[0] / 16), Digit(bytes[0] % 16)] + HexLower(bytes[1..])
  }

  function DecodePairs(bs: seq<u8>): Result<seq<u8>, HexError>
    requires |bs| % 2 == 0
  {
    if bs == [] then Ok([])
    else if Val(bs[0]).None? then Err(BadChar(bs[0]))
    else if Val(bs[1]).None? then Err(BadChar(bs[1]))
    else
      var rest :- DecodePairs(bs[2..]);
      Ok([16 * Val(bs[0]).value + Val(bs[1]).value] + rest)
  }

  /** `hex_to_bytes`. The length test and the digits are those of the UTF-8 bytes, not of the characters. */
  function HexToBytes(s: string): Result<seq<u8>, HexError> {
    var bs := Utf8.Encode(StripWhitespace(s));
    if |bs| % 2 != 0 then Err(OddLength) else DecodePairs(bs)
  }

  // ---------------------------------------------------------------- loops of the source

  method BytesToHexLower(bytes: seq<u8>) returns (out: string)
    ensures out == HexLower(bytes)
  {
    out := [];
    for i := 0 to |bytes|
      invariant HexLower(bytes) == out + HexLower(bytes[i..])
    {
      ghost var before, rest := out, HexLower(bytes[i + 1..]);
      out := out + [LUT[bytes[i] / 16]];
      out := out + [LUT[bytes[i] % 16]];
      assert bytes[i..][1..] == bytes[i + 1..];
      assert before + ([LUT[bytes[i] / 16], LUT[bytes[i] % 16]] + rest) == out + rest;
    }
  }

  function Prefixed(out: seq<u8>, r: Result<seq<u8>, HexError>): Result<seq<u8>, HexError> {
    match r
    case Ok(rest) => Ok(out + rest)
    case Err(e) => Err(e)
  }

  lemma PrefixedTwice(a: seq<u8>, b: seq<u8>, r: Result<seq<u8>, HexError>)
    ensures Prefixed(a, Prefixed(b, r)) == Prefixed(a + b, r)
    ensures Prefixed([], r) == r
  {
    if r.Ok? {
      assert a + (b + r.value) == (a + b) + r.value;
      assert [] + r.value == r.value;
    }
  }

  method ParseHex(s: string) returns (r: Result<seq<u8>, HexError>)
    ensures r == HexToBytes(s)
  {
    var filtered := StripWhitespace(s);
    var bytes := Utf8.Encode(filtered);
    hide Utf8.Encode, StripWhitespace, Val;
    if |bytes| % 2 != 0 {
      return Err(OddLength);
    }
    var out := [];
    var i := 0;
    assert bytes[0..] == bytes;
    PrefixedTwice([], [], DecodePairs(bytes));
    while i < |bytes|
      invariant 0 <= i <= |bytes| && i % 2 == 0
      invariant HexToBytes(s) == Prefixed(out, DecodePairs(bytes[i..]))
    {
      var hi, lo := Val(bytes[i]), Val(bytes[i + 1]);
      if hi.None? {
        return Err(BadChar(bytes[i]));
      }
      if lo.None? {
        return Err(BadChar(bytes[i + 1]));
      }
      assert bytes[i..][2..] == bytes[i + 2..];
      assert DecodePairs(bytes[i..]) == Prefixed([16 * hi.value + lo.value], DecodePairs(bytes[i + 2..]));
      PrefixedTwice(out, [16 * hi.value + lo.value], DecodePairs(bytes[i + 2..]));
      out := out + [16 * hi.value + lo.value];
      i := i + 2;
    }
    assert out + [] == out;
    return Ok(out);
  }

  // ---------------------------------------------------------------- laws

  lemma DigitLaws(n: nat)
    requires n < 16
    ensures var c := Digit(n); c as int < 0x80 && Val(c as int) == Some(n) && !IsWhitespace(c)
  {
  }

  lemma EncodeTwoAscii(s: string)
    requires |s| >= 2 && s[0] as int < 0x80 && s[1] as int < 0x80
    ensures Utf8.Encode(s) == [s[0] as int, s[1] as int] + Utf8.Encode(s[2..])
  {
    hide Utf8.Valid, Utf8.HeadLen, Utf8.CharBytes;
    assert s[1..][1..] == s[2..] && s[1..][0] == s[1];
    assert Utf8.Encode(s[1..]) == [s[1] as int] + Utf8.Encode(s[2..]);
  }

  lemma {:induction false} HexLowerIsPlain(d: seq<u8>)
    ensures StripWhitespace(HexLower(d)) == HexLower(d)
  {
    hide IsWhitespace, Digit;
    if d != [] {
      var s, t := HexLower(d), HexLower(d[1..]);
      HexLowerIsPlain(d[1..]);
      DigitLaws(d[0] / 16);
      DigitLaws(d[0] % 16);
      assert s[1..] == [Digit(d[0] % 16)] + t && s[1..][1..] == t;
    }
  }

  lemma {:induction false} HexLowerDecodes(d: seq<u8>)
    ensures var bs := Utf8.Encode(HexLower(d)); |bs| % 2 == 0 && DecodePairs(bs) == Ok(d)
  {
    hide IsWhitespace, Digit, Val, Utf8.Valid, Utf8.HeadLen, Utf8.CharBytes;
    if d != [] {
      var s, t := HexLower(d), HexLower(d[1..]);
      HexLowerDecodes(d[1..]);
      DigitLaws(d[0] / 16);
      DigitLaws(d[0] % 16);
      assert s[2..] == t;
      EncodeTwoAscii(s);
      assert Utf8.Encode(s)[2..] == Utf8.Encode(t);
      assert [d[0]] + d[1..] == d;
    }
  }

  /** Encoding then decoding is the identity on all byte strings. */
  lemma HexRoundTrip(d: seq<u8>)
    ensures HexToBytes(HexLower(d)) == Ok(d)
  {
    HexLowerIsPlain(d);
    HexLowerDecodes(d);
  }

  predicate AllDigits(s: string) { forall i :: 0 <= i < |s| ==> IsHexDigit(s[i]) }
  predicate AllValues(bs: seq<u8>) { forall i :: 0 <= i < |bs| ==> Val(bs[i]).Some? }

  lemma {:induction false} PairsAccept(bs: seq<u8>)
    requires |bs| % 2 == 0
    ensures DecodePairs(bs).Ok? <==> AllValues(bs)
  {
    if bs != [] {
      PairsAccept(bs[2..]);
      forall i | 2 <= i < |bs| ensures bs[i] == bs[2..][i - 2] {}
    }
  }

  lemma DigitIsByte(ch: char)
    ensures AllValues(Utf8.CharBytes(ch)) <==> IsHexDigit(ch)
    ensures IsHexDigit(ch) ==> Utf8.CharBytes(ch) == [ch as int]
  {
    hide Utf8.HeadLen;
    var bs := Utf8.CharBytes(ch);
    if ch as int < 0x80 {
      assert bs == [ch as int];
    } else {
      assert Val(bs[0]).None?;
    }
  }

  lemma NoValues()
    ensures AllValues([])
  {
  }

  lemma ValuesConcat(a: seq<u8>, b: seq<u8>)
    ensures AllValues(a + b) <==> AllValues(a) && AllValues(b)
  {
    hide Val;
    if AllValues(a + b) {
      forall i | 0 <= i < |a| ensures Val(a[i]).Some? { assert a[i] == (a + b)[i]; }
      forall i | 0 <= i < |b| ensures Val(b[i]).Some? { assert b[i] == (a + b)[|a| + i]; }
    }
  }

  /** The bytes of a text are all hex digits exactly when its characters are, and then they are those characters. */
  lemma {:induction false} DigitsAreBytes(s: string)
    ensures AllValues(Utf8.Encode(s)) <==> AllDigits(s)
    ensures AllDigits(s) ==> |Utf8.Encode(s)| == |s| && forall i :: 0 <= i < |s| ==> Utf8.Encode(s)[i] == s[i] as int
  {
    hide Utf8.Valid, Utf8.HeadLen, Utf8.CharBytes, AllValues, IsHexDigit;
    if s == [] {
      NoValues();
    } else {
      DigitsAreBytes(s[1..]);
      var head, tail := Utf8.CharBytes(s[0]), Utf8.Encode(s[1..]);
      ValuesConcat(head, tail);
      DigitIsByte(s[0]);
      assert AllDigits(s) <==> IsHexDigit(s[0]) && AllDigits(s[1..]) by {
        forall i | 0 < i < |s| ensures s[i] == s[1..][i - 1] {}
      }
    }
  }

  lemma DigitOfVal(ch: char)
    requires ch as int < 0x100 && Val(ch as int).Some?
    ensures Digit(Val(ch as int).value) == LowerCase(ch)
  {
  }

  lemma {:induction false} ReencodedPairs(bs: seq<u8>, s: string)
    requires |bs| % 2 == 0 && |bs| == |s| && DecodePairs(bs).Ok?
    requires forall i :: 0 <= i < |s| ==> bs[i] == s[i] as int
    ensures HexLower(DecodePairs(bs).value) == Lowered(s)
  {
    hide Utf8.Encode, Digit, Val, LowerCase;
    if bs != [] {
      ReencodedPairs(bs[2..], s[2..]);
      var b := 16 * Val(bs[0]).value + Val(bs[1]).value;
      DigitOfVal(s[0]);
      DigitOfVal(s[1]);
      assert b / 16 == Val(bs[0]).value && b % 16 == Val(bs[1]).value;
      assert DecodePairs(bs).value[1..] == DecodePairs(bs[2..]).value;
      assert s[1..][1..] == s[2..] && Lowered(s[1..]) == [LowerCase(s[1])] + Lowered(s[2..]);
    }
  }

  /** Decoding succeeds exactly on an even number of hex digits, whitespace aside; re-encoding what was decoded gives
      the same digits in lower case, without the whitespace. */
  lemma HexAccepts(s: string)
    ensures HexToBytes(s).Ok? <==> var f := StripWhitespace(s); |f| % 2 == 0 && AllDigits(f)
    ensures HexToBytes(s).Ok? ==> HexLower(HexToBytes(s).value) == Lowered(StripWhitespace(s))
  {
    hide Utf8.Encode, StripWhitespace, HexLower, Lowered, DecodePairs, Val, IsHexDigit;
    var f := StripWhitespace(s);
    var bs := Utf8.Encode(f);
    DigitsAreBytes(f);
    if |bs| % 2 == 0 {
      PairsAccept(bs);
      if AllDigits(f) { ReencodedPairs(bs, f); }
    }
  }

  // ---------------------------------------------------------------- refusals and whitespace

  /** `bs[i]` is the first byte that is no hex digit. */
  predicate FirstBad(bs: seq<u8>, i: nat) {
    i < |bs| && Val(bs[i]).None? && forall j :: 0 <= j < i ==> Val(bs[j]).Some?
  }

  lemma {:induction false} PairsRefuse(bs: seq<u8>, i: nat)
    requires |bs| % 2 == 0 && FirstBad(bs, i)
    ensures DecodePairs(bs) == Err(BadChar(bs[i]))
  {
    hide Val;
    if i >= 2 {
      forall j | 0 <= j < i - 2 ensures Val(bs[2..][j]).Some? { assert bs[2..][j] == bs[j + 2]; }
      PairsRefuse(bs[2..], i - 2);
    }
  }

  lemma {:induction false} FindBad(bs: seq<u8>) returns (i: nat)
    requires !AllValues(bs)
    ensures FirstBad(bs, i)
  {
    hide Val;
    i := 0;
    while Val(bs[i]).Some?
      invariant i < |bs| && forall j :: 0 <= j < i ==> Val(bs[j]).Some?
      decreases |bs| - i
    {
      assert exists j :: 0 <= j < |bs| && Val(bs[j]).None?;
      i := i + 1;
    }
  }

  /** The reason for a refusal: an odd number of bytes, or else the first byte that is no hex digit. */
  lemma HexRefuses(s: string)
    ensures var bs := Utf8.Encode(StripWhitespace(s));
            && (HexToBytes(s) == Err(OddLength) <==> |bs| % 2 == 1)
            && (forall b: u8 :: HexToBytes(s) == Err(BadChar(b)) <==>
                                  |bs| % 2 == 0 && exists i: nat :: FirstBad(bs, i) && bs[i] == b)
  {
    hide Utf8.Encode, StripWhitespace, Val, DecodePairs;
    var bs := Utf8.Encode(StripWhitespace(s));
    if |bs| % 2 == 0 {
      PairsAccept(bs);
      forall i: nat | FirstBad(bs, i) ensures DecodePairs(bs) == Err(BadChar(bs[i])) { PairsRefuse(bs, i); }
      if !AllValues(bs) { var i := FindBad(bs); }
    }
  }

  lemma {:induction false} StripConcat(a: string, b: string)
    ensures StripWhitespace(a + b) == StripWhitespace(a) + StripWhitespace(b)
  {
    hide IsWhitespace;
    if a == [] {
      assert a + b == b;
    } else {
      StripConcat(a[1..], b);
      assert (a + b)[1..] == a[1..] + b && (a + b)[0] == a[0];
      var rest := StripWhitespace(a[1..]);
      assert [a[0]] + (rest + StripWhitespace(b)) == ([a[0]] + rest) + StripWhitespace(b);
    }
  }

  /** Whitespace makes no difference wherever it stands, and everything else stays. */
  lemma WhitespaceIsIgnored(a: string, ch: char, b: string)
    ensures IsWhitespace(ch) ==> HexToBytes(a + [ch] + b) == HexToBytes(a + b)
    ensures StripWhitespace(a + [ch] + b) == StripWhitespace(a) + (if IsWhitespace(ch) then [] else [ch]) + StripWhitespace(b)
  {
    hide IsWhitespace, Utf8.Encode, DecodePairs;
    StripConcat(a + [ch], b);
    StripConcat(a, [ch]);
    StripConcat(a, b);
    assert [ch][1..] == [];
    assert StripWhitespace([ch]) == if IsWhitespace(ch) then [] else [ch];
    if IsWhitespace(ch) {
      assert StripWhitespace(a) + [] == StripWhitespace(a);
      assert StripWhitespace(a + [ch] + b) == StripWhitespace(a + b);
    }
  }
}
