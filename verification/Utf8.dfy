/** Well-formed UTF-8 (section 4 of RFC 3629) and the effect of cutting a string at a byte offset. */
module Utf8 {
  import opened Bytes

  predicate IsTail(b: u8) { 0x80 <= b <= 0xBF }

  /** Length of the UTF8-char at the head of `s`, or 0 when there is none. */
  function HeadLen(s: seq<u8>): (n: nat)
    ensures n <= |s| && n <= 4
  {
    if |s| >= 1 && s[0] <= 0x7F then 1
    else if |s| >= 2 && 0xC2 <= s[0] <= 0xDF && IsTail(s[1]) then 2
    else if |s| >= 3 && Second3(s[0], s[1]) && IsTail(s[2]) then 3
    else if |s| >= 4 && Second4(s[0], s[1]) && IsTail(s[2]) && IsTail(s[3]) then 4
    else 0
  }

  predicate Second3(b0: u8, b1: u8) {
    || (b0 == 0xE0 && 0xA0 <= b1 <= 0xBF)
    || (0xE1 <= b0 <= 0xEC && IsTail(b1))
    || (b0 == 0xED && 0x80 <= b1 <= 0x9F)
    || (0xEE <= b0 <= 0xEF && IsTail(b1))
  }

  predicate Second4(b0: u8, b1: u8) {
    || (b0 == 0xF0 && 0x90 <= b1 <= 0xBF)
    || (0xF1 <= b0 <= 0xF3 && IsTail(b1))
    || (b0 == 0xF4 && 0x80 <= b1 <= 0x8F)
  }

  predicate Valid(s: seq<u8>)
  {
    s == [] || (var n := HeadLen(s); n > 0 && Valid(s[n..]))
  }

  /** `k` does not fall inside a character of `s`. */
  predicate IsCharBoundary(s: seq<u8>, k: nat)
    requires k <= |s|
  {
    k == |s| || !IsTail(s[k])
  }

  lemma HeadLenOfCut(s: seq<u8>, k: nat)
    requires HeadLen(s) > 0 && k <= |s|
    ensures !IsTail(s[0])
    ensures k >= HeadLen(s) ==> HeadLen(s[..k]) == HeadLen(s)
    ensures 0 < k < HeadLen(s) ==> HeadLen(s[..k]) == 0 && IsTail(s[k])
  {
  }

  /** Cutting a valid string leaves a valid string exactly when the cut is on a character boundary. */
  lemma {:induction false} CutIsValid(s: seq<u8>, k: nat)
    requires Valid(s) && k <= |s|
    ensures Valid(s[..k]) <==> IsCharBoundary(s, k)
    decreases |s|
  {
    hide HeadLen, IsTail;
    if s != [] {
      var n := HeadLen(s);
      HeadLenOfCut(s, k);
      if k >= n {
        CutIsValid(s[n..], k - n);
        assert s[..k][n..] == s[n..][..k - n];
      }
    }
  }

  lemma HeadLenOfConcat(a: seq<u8>, b: seq<u8>)
    requires HeadLen(a) > 0
    ensures HeadLen(a + b) == HeadLen(a)
  {
  }

  /** A byte sequence that is one whole UTF8-char is a valid string. */
  lemma OneCharIsValid(s: seq<u8>)
    requires s != [] && HeadLen(s) == |s|
    ensures Valid(s)
  {
    assert s[|s|..] == [];
  }

  lemma {:induction false} ConcatIsValid(a: seq<u8>, b: seq<u8>)
    requires Valid(a) && Valid(b)
    ensures Valid(a + b)
    decreases |a|
  {
    hide HeadLen;
    if a == [] {
      assert a + b == b;
    } else {
      var n := HeadLen(a);
      ConcatIsValid(a[n..], b);
      HeadLenOfConcat(a, b);
      assert (a + b)[n..] == a[n..] + b;
    }
  }

  /** The UTF-8 image of one Unicode scalar value (section 3 of RFC 3629). */
  function CharBytes(ch: char): (bs: seq<u8>)
    ensures |bs| > 0 && HeadLen(bs) == |bs|
    ensures if ch as int < 0x80 then bs == [ch as int] else bs[0] >= 0x80
  {
    var c := ch as int;
    if c < 0x80 then [c]
    else if c < 0x800 then [0xC0 + c / 0x40, 0x80 + c % 0x40]
    else if c < 0x1_0000 then ThreeBytes(c)
    else FourBytes(c)
  }

  function ThreeBytes(c: int): (bs: seq<u8>)
    requires 0x800 <= c < 0xD800 || 0xE000 <= c < 0x1_0000
    ensures |bs| == 3 && HeadLen(bs) == 3 && bs[0] >= 0x80
  {
    [0xE0 + c / 0x1000, 0x80 + (c / 0x40) % 0x40, 0x80 + c % 0x40]
  }

  function FourBytes(c: int): (bs: seq<u8>)
    requires 0x1_0000 <= c < 0x11_0000
    ensures |bs| == 4 && HeadLen(bs) == 4 && bs[0] >= 0x80
  {
    [0xF0 + c / 0x4_0000, 0x80 + (c / 0x1000) % 0x40, 0x80 + (c / 0x40) % 0x40, 0x80 + c % 0x40]
  }

  /** The bytes of a Rust string holding the given characters. */
  function Encode(s: string): seq<u8>
    decreases |s|
  {
    // the conditional tail keeps the verifier from unfolding literal texts to their end
    if s == [] then [] else CharBytes(s[0]) + Encode(if |s| == 1 then [] else s[1..])
  }

  lemma {:induction false} EncodedIsValid(s: string)
    ensures Valid(Encode(s))
  {
    hide CharBytes, HeadLen;
    if s != [] {
      EncodedIsValid(s[1..]);
      OneCharIsValid(CharBytes(s[0]));
      ConcatIsValid(CharBytes(s[0]), Encode(s[1..]));
    }
  }

  // ---------------------------------------------------------------- what the bytes mean

  /** The number that the bits of one UTF8-char spell (the table in section 3 of RFC 3629). */
  function Scalar(bs: seq<int>): int
    requires 1 <= |bs| <= 4
  {
    match |bs|
    case 1 => bs[0]
    case 2 => 0x40 * (bs[0] - 0xC0) + (bs[1] - 0x80)
    case 3 => 0x1000 * (bs[0] - 0xE0) + 0x40 * (bs[1] - 0x80) + (bs[2] - 0x80)
    case 4 => 0x4_0000 * (bs[0] - 0xF0) + 0x1000 * (bs[1] - 0x80) + 0x40 * (bs[2] - 0x80) + (bs[3] - 0x80)
  }

  /** The bytes of a character spell that character, in as few bytes as can hold it. */
  lemma CharBytesSpell(ch: char)
    ensures var bs := CharBytes(ch);
            && |bs| == (if ch as int < 0x80 then 1 else if ch as int < 0x800 then 2 else if ch as int < 0x1_0000 then 3 else 4)
            && Scalar(bs) == ch as int
  {
    var c := ch as int;
    if 0x800 <= c < 0x1_0000 {
      assert c / 0x1000 == c / 0x40 / 0x40;
    } else if c >= 0x1_0000 {
      assert c / 0x1000 == c / 0x40 / 0x40 && c / 0x4_0000 == c / 0x1000 / 0x40;
    }
  }

  lemma ThreeByteChar(b0: u8, b1: u8, b2: u8)
    requires Second3(b0, b1) && IsTail(b2)
    ensures var c := Scalar([b0, b1, b2]);
            (0x800 <= c < 0xD800 || 0xE000 <= c < 0x1_0000) && ThreeBytes(c) == [b0, b1, b2]
  {
    var c := Scalar([b0, b1, b2]);
    assert c / 0x40 == 0x40 * (b0 - 0xE0) + (b1 - 0x80) && c % 0x40 == b2 - 0x80;
    assert c / 0x1000 == b0 - 0xE0 && c / 0x40 % 0x40 == b1 - 0x80;
  }

  lemma FourByteChar(b0: u8, b1: u8, b2: u8, b3: u8)
    requires Second4(b0, b1) && IsTail(b2) && IsTail(b3)
    ensures var c := Scalar([b0, b1, b2, b3]); 0x1_0000 <= c < 0x11_0000 && FourBytes(c) == [b0, b1, b2, b3]
  {
    hide HeadLen;
    var c := Scalar([b0, b1, b2, b3]);
    SixBits(b0 - 0xF0, b1 - 0x80, b2 - 0x80, b3 - 0x80);
    assert 0xF0 + c / 0x4_0000 == b0 && 0x80 + c / 0x1000 % 0x40 == b1;
  }

  lemma SixBits(w: nat, x: nat, y: nat, z: nat)
    requires x < 0x40 && y < 0x40 && z < 0x40
    ensures var c := 0x4_0000 * w + 0x1000 * x + 0x40 * y + z;
            c % 0x40 == z && c / 0x40 % 0x40 == y && c / 0x1000 % 0x40 == x && c / 0x4_0000 == w
  {
    var c := 0x4_0000 * w + 0x1000 * x + 0x40 * y + z;
    var c2 := 0x40 * w + x;
    var c1 := 0x40 * c2 + y;
    Digit64(c1, z);
    Digit64(c2, y);
    Digit64(w, x);
    DivIs(c, 0x1000, c2);
    DivIs(c, 0x4_0000, w);
    assert c == 0x40 * c1 + z;
  }

  lemma Digit64(q: nat, r: nat)
    requires r < 0x40
    ensures (0x40 * q + r) / 0x40 == q && (0x40 * q + r) % 0x40 == r
  {
    DivIs(0x40 * q + r, 0x40, q);
  }

  /** What the validity test accepts at the head of a string is the image of a character. */
  lemma HeadIsChar(s: seq<u8>) returns (ch: char)
    requires HeadLen(s) > 0
    ensures CharBytes(ch) == s[..HeadLen(s)]
  {
    hide Second3, Second4, ThreeBytes, FourBytes;
    match HeadLen(s)
    case 1 => ch := s[0] as char;
    case 2 => ch := Scalar([s[0], s[1]]) as char;
    case 3 =>
      ThreeByteChar(s[0], s[1], s[2]);
      ch := Scalar([s[0], s[1], s[2]]) as char;
      assert s[..3] == [s[0], s[1], s[2]];
    case 4 =>
      FourByteChar(s[0], s[1], s[2], s[3]);
      ch := Scalar([s[0], s[1], s[2], s[3]]) as char;
      assert s[..4] == [s[0], s[1], s[2], s[3]];
  }

  lemma {:induction false} DecodedText(s: seq<u8>) returns (t: string)
    requires Valid(s)
    ensures Encode(t) == s
    decreases |s|
  {
    hide HeadLen, CharBytes;
    if s == [] {
      t := [];
    } else {
      var n := HeadLen(s);
      var ch := HeadIsChar(s);
      var rest := DecodedText(s[n..]);
      t := [ch] + rest;
      assert t[1..] == rest && s == s[..n] + s[n..];
    }
  }

  /** A byte string is valid exactly if it is the image of some text. */
  lemma ValidIffEncoded(s: seq<u8>)
    ensures Valid(s) <==> exists t :: Encode(t) == s
  {
    hide Valid, Encode;
    if Valid(s) { var t := DecodedText(s); }
    if t :| Encode(t) == s { EncodedIsValid(t); }
  }

  /** The image of an ASCII text is its character codes. */
  lemma {:induction false} AsciiIsItself(s: string)
    requires forall i :: 0 <= i < |s| ==> s[i] as int < 0x80
    ensures |Encode(s)| == |s| && forall i :: 0 <= i < |s| ==> Encode(s)[i] == s[i] as int
  {
    hide Valid, HeadLen, CharBytes;
    if s != [] { AsciiIsItself(s[1..]); }
  }
}
