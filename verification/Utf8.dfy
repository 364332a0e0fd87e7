/** The text check of the Lark codec against UTF-8 as an encoding of characters (RFC 3629, section 3). */
module Utf8 {
  import opened LarkCodec
  import opened Varint

  /** A Unicode scalar value: any code point but the surrogates. */
  predicate IsScalar(c: nat) {
    c < 0xd800 || 0xe000 <= c < 0x11_0000
  }

  /** One character in one to four bytes. */
  function EncodeScalar(c: nat): seq<byte>
    requires IsScalar(c)
  {
    if c < 0x80 then [c]
    else if c < 0x800 then [0xc0 + c / 0x40, 0x80 + c % 0x40]
    else if c < 0x1_0000 then [0xe0 + c / 0x1000, 0x80 + c / 0x40 % 0x40, 0x80 + c % 0x40]
    else [0xf0 + c / 0x4_0000, 0x80 + c / 0x1000 % 0x40, 0x80 + c / 0x40 % 0x40, 0x80 + c % 0x40]
  }

  ghost predicate AllScalars(cs: seq<nat>) {
    forall i :: 0 <= i < |cs| ==> IsScalar(cs[i])
  }

  function EncodeText(cs: seq<nat>): seq<byte>
    requires AllScalars(cs)
  {
    if cs == [] then [] else EncodeScalar(cs[0]) + EncodeText(cs[1..])
  }

  /** After the bytes of a character the check goes on with the rest. */
  lemma ScalarThen(c: nat, t: seq<byte>)
    requires IsScalar(c)
    ensures ValidUtf8(EncodeScalar(c) + t) <==> ValidUtf8(t)
  {
    var e := EncodeScalar(c);
    var s := e + t;
    assert s[|e|..] == t;
    assert forall i :: 0 <= i < |e| ==> s[i] == e[i];
    if c >= 0x1_0000 {
      FourBytes(c);
    } else if c >= 0x800 {
      ThreeBytes(c);
    }
  }

  lemma ThreeBytes(c: nat)
    requires 0x800 <= c < 0x1_0000 && IsScalar(c)
    ensures var e := EncodeScalar(c);
            0xe0 <= e[0] <= 0xef && (e[0] == 0xe0 ==> e[1] >= 0xa0) && (e[0] == 0xed ==> e[1] <= 0x9f)
  {
  }

  lemma FourBytes(c: nat)
    requires 0x1_0000 <= c < 0x11_0000
    ensures var e := EncodeScalar(c);
            0xf0 <= e[0] <= 0xf4 && (e[0] == 0xf0 ==> e[1] >= 0x90) && (e[0] == 0xf4 ==> e[1] <= 0x8f)
  {
  }

  lemma FromTwo(b: int, x: int) returns (c: nat)
    requires 0xc2 <= b <= 0xdf && 0 <= x < 0x40
    ensures IsScalar(c) && EncodeScalar(c) == [b, 0x80 + x]
  {
    c := (b - 0xc0) * 0x40 + x;
  }

  lemma FromThree(b: int, x: int, y: int) returns (c: nat)
    requires 0xe0 <= b <= 0xef && 0 <= x < 0x40 && 0 <= y < 0x40 && (b == 0xe0 ==> x >= 0x20) && (b == 0xed ==> x < 0x20)
    ensures IsScalar(c) && EncodeScalar(c) == [b, 0x80 + x, 0x80 + y]
  {
    c := ((b - 0xe0) * 0x40 + x) * 0x40 + y;
    assert c / 0x40 == (b - 0xe0) * 0x40 + x && c / 0x1000 == b - 0xe0;
  }

  lemma FromFour(b: int, x: int, y: int, z: int) returns (c: nat)
    requires 0xf0 <= b <= 0xf4 && 0 <= x < 0x40 && 0 <= y < 0x40 && 0 <= z < 0x40
    requires (b == 0xf0 ==> x >= 0x10) && (b == 0xf4 ==> x < 0x10)
    ensures IsScalar(c) && EncodeScalar(c) == [b, 0x80 + x, 0x80 + y, 0x80 + z]
  {
    var high := (b - 0xf0) * 0x40 + x;
    c := (high * 0x40 + y) * 0x40 + z;
    assert c / 0x40 == high * 0x40 + y && c / 0x1000 == high && c / 0x4_0000 == b - 0xf0;
  }

  /** Valid bytes begin with those of a character. */
  lemma FirstScalar(s: seq<byte>) returns (c: nat)
    requires ValidUtf8(s) && s != []
    ensures IsScalar(c) && |EncodeScalar(c)| <= |s|
    ensures s == EncodeScalar(c) + s[|EncodeScalar(c)|..]
  {
    if s[0] < 0x80 {
      c := s[0];
      assert s == [s[0]] + s[1..];
    } else if s[0] <= 0xdf {
      c := FromTwo(s[0], s[1] - 0x80);
      assert s == [s[0], s[1]] + s[2..];
    } else if s[0] <= 0xef {
      c := FromThree(s[0], s[1] - 0x80, s[2] - 0x80);
      assert s == [s[0], s[1], s[2]] + s[3..];
    } else {
      c := FromFour(s[0], s[1] - 0x80, s[2] - 0x80, s[3] - 0x80);
      assert s == [s[0], s[1], s[2], s[3]] + s[4..];
    }
  }

  lemma {:induction false} EncodedIsValid(cs: seq<nat>)
    requires AllScalars(cs)
    ensures ValidUtf8(EncodeText(cs))
  {
    if cs != [] {
      EncodedIsValid(cs[1..]);
      ScalarThen(cs[0], EncodeText(cs[1..]));
    }
  }

  lemma {:induction false} ValidIsEncoded(s: seq<byte>) returns (cs: seq<nat>)
    requires ValidUtf8(s)
    ensures AllScalars(cs) && EncodeText(cs) == s
    decreases |s|
  {
    if s == [] {
      cs := [];
    } else {
      var c := FirstScalar(s);
      var rest := s[|EncodeScalar(c)|..];
      ScalarThen(c, rest);
      var more := ValidIsEncoded(rest);
      cs := [c] + more;
      assert cs[1..] == more;
    }
  }

  /** The check accepts exactly the encodings of sequences of Unicode characters. */
  lemma ValidUtf8Iff(s: seq<byte>)
    ensures ValidUtf8(s) <==> exists cs :: AllScalars(cs) && EncodeText(cs) == s
  {
    if ValidUtf8(s) {
      var cs := ValidIsEncoded(s);
    }
    if cs :| AllScalars(cs) && EncodeText(cs) == s {
      EncodedIsValid(cs);
    }
  }
}
