/** The well-formed characters are exactly the encodings of the Unicode scalar values (section 3 of RFC 3629). */
module Utf8Scalars {
  import opened Utf8

  predicate IsScalar(code: nat) {
    code < 0xD800 || 0xE000 <= code < 0x11_0000
  }

  function Tail(n: nat): byte {
    (0x80 + n % 0x40) as byte
  }

  function Encode(code: nat): seq<byte>
    requires IsScalar(code)
  {
    if code < 0x80 then [code as byte]
    else if code < 0x800 then [(0xC0 + code / 0x40) as byte, Tail(code)]
    else if code < 0x1_0000 then [(0xE0 + code / 0x1000) as byte, Tail(code / 0x40), Tail(code)]
    else [(0xF0 + code / 0x4_0000) as byte, Tail(code / 0x1000), Tail(code / 0x40), Tail(code)]
  }

  /** The six bits that a continuation byte carries. */
  function Bits(b: byte): nat
    requires Continuation(b)
  {
    (b - 0x80) as nat
  }

  lemma TwoBytes(a: nat, b: nat)
    requires b < 0x40
    ensures var code := a * 0x40 + b; code / 0x40 == a && code % 0x40 == b
  {
  }

  lemma EncodedThree(code: nat)
    requires IsScalar(code) && 0x800 <= code < 0x1_0000
    ensures var s := Encode(code); |s| == 3 && 0xE0 <= s[0] < 0xF0 && Second3(s[0], s[1]) && Continuation(s[2])
  {
    var high := code / 0x1000;
    assert code / 0x40 / 0x40 == high;
    assert high == 0 ==> code / 0x40 >= 0x20;
    assert high == 0xD ==> code / 0x40 % 0x40 < 0x20;
  }

  lemma EncodedFour(code: nat)
    requires IsScalar(code) && 0x1_0000 <= code
    ensures var s := Encode(code);
            |s| == 4 && 0xF0 <= s[0] < 0xF5 && Second4(s[0], s[1]) && Continuation(s[2]) && Continuation(s[3])
  {
    var high := code / 0x4_0000;
    assert code / 0x1000 / 0x40 == high;
    assert high == 0 ==> code / 0x1000 >= 0x10;
    assert high == 4 ==> code / 0x1000 % 0x40 < 0x10;
  }

  /** Every scalar value is written as one well-formed character. */
  lemma EncodedIsCharacter(code: nat, rest: seq<byte>)
    requires IsScalar(code)
    ensures CharLength(Encode(code) + rest) == |Encode(code)|
  {
    if 0x800 <= code < 0x1_0000 {
      EncodedThree(code);
    } else if 0x1_0000 <= code {
      EncodedFour(code);
    }
  }

  lemma ThreeBytes(first: byte, second: byte, third: byte) returns (code: nat)
    requires 0xE0 <= first < 0xF0 && Second3(first, second) && Continuation(third)
    ensures IsScalar(code) && Encode(code) == [first, second, third]
  {
    var a, b, c := (first - 0xE0) as nat, Bits(second), Bits(third);
    code := (a * 0x40 + b) * 0x40 + c;
    TwoBytes(a * 0x40 + b, c);
    TwoBytes(a, b);
    assert code / 0x1000 == a;
  }

  lemma FourBytes(first: byte, second: byte, third: byte, fourth: byte) returns (code: nat)
    requires 0xF0 <= first < 0xF5 && Second4(first, second) && Continuation(third) && Continuation(fourth)
    ensures IsScalar(code) && Encode(code) == [first, second, third, fourth]
  {
    var a, b, c, d := (first - 0xF0) as nat, Bits(second), Bits(third), Bits(fourth);
    code := ((a * 0x40 + b) * 0x40 + c) * 0x40 + d;
    TwoBytes((a * 0x40 + b) * 0x40 + c, d);
    TwoBytes(a * 0x40 + b, c);
    TwoBytes(a, b);
    assert code / 0x1000 == a * 0x40 + b && code / 0x4_0000 == a;
  }

  /** And every well-formed character is the encoding of a scalar value. */
  lemma CharacterIsEncoded(s: seq<byte>) returns (code: nat)
    requires CharLength(s) > 0
    ensures IsScalar(code) && s[..CharLength(s)] == Encode(code)
  {
    var n := CharLength(s);
    if n == 1 {
      code := s[0] as nat;
    } else if n == 2 {
      code := (s[0] - 0xC0) as nat * 0x40 + Bits(s[1]);
      TwoBytes((s[0] - 0xC0) as nat, Bits(s[1]));
    } else if n == 3 {
      code := ThreeBytes(s[0], s[1], s[2]);
    } else {
      code := FourBytes(s[0], s[1], s[2], s[3]);
    }
  }
}
