/** UTF-8 from the side of the characters: the valid byte sequences are the encodings of scalar values (RFC 3629). */
module Utf8 {
  import opened Bytes

  /** The code points that are characters: all up to 0x10FFFF but the surrogates. */
  predicate Scalar(c: nat) {
    c < 0xD800 || 0xE000 <= c < 0x110000
  }

  /** The octets of a character, as the table in section 3 of RFC 3629 has them. */
  function EncodeScalar(c: nat): (r: bytes)
    requires Scalar(c)
    ensures 1 <= |r| <= 4
  {
    if c < 0x80 then [c]
    else if c < 0x800 then [0xC0 + c / 0x40, 0x80 + c % 0x40]
    else if c < 0x1_0000 then [0xE0 + c / 0x1000, 0x80 + c / 0x40 % 0x40, 0x80 + c % 0x40]
    else [0xF0 + c / 0x4_0000, 0x80 + c / 0x1000 % 0x40, 0x80 + c / 0x40 % 0x40, 0x80 + c % 0x40]
  }

  function EncodeScalars(cs: seq<nat>): bytes
    requires forall i :: 0 <= i < |cs| ==> Scalar(cs[i])
  {
    if cs == [] then [] else EncodeScalar(cs[0]) + EncodeScalars(cs[1..])
  }

  /** A character's encoding is recognized at the head of any bytes. */
  lemma ScalarIsFound(c: nat, t: bytes)
    requires Scalar(c)
    ensures CharLength(EncodeScalar(c) + t) == |EncodeScalar(c)|
    ensures (EncodeScalar(c) + t)[|EncodeScalar(c)|..] == t
  {
    if c >= 0x1_0000 {
      FourOctets(c, t);
    } else if c >= 0x800 {
      ThreeOctets(c, t);
    }
  }

  lemma ThreeOctets(c: nat, t: bytes)
    requires Scalar(c) && 0x800 <= c < 0x1_0000
    ensures CharLength(EncodeScalar(c) + t) == 3
  {
    var s := EncodeScalar(c) + t;
    assert s[0] == 0xE0 + c / 0x1000 && s[1] == 0x80 + c / 0x40 % 0x40 && s[2] == 0x80 + c % 0x40;
    hide EncodeScalar;
  }

  lemma FourOctets(c: nat, t: bytes)
    requires Scalar(c) && c >= 0x1_0000
    ensures CharLength(EncodeScalar(c) + t) == 4
  {
    var s := EncodeScalar(c) + t;
    assert s[0] == 0xF0 + c / 0x4_0000 && s[1] == 0x80 + c / 0x1000 % 0x40;
    assert s[2] == 0x80 + c / 0x40 % 0x40 && s[3] == 0x80 + c % 0x40;
    hide EncodeScalar;
  }

  /** What is recognized at the head of some bytes is a character's encoding. */
  lemma FoundIsScalar(s: bytes) returns (c: nat)
    requires s != [] && CharLength(s) > 0
    ensures Scalar(c) && EncodeScalar(c) == s[..CharLength(s)]
  {
    var n := CharLength(s);
    if n == 1 {
      c := s[0];
    } else if n == 2 {
      c := Combined(s[0] - 0xC0, s[1] - 0x80);
    } else if n == 3 {
      var high := Combined(s[0] - 0xE0, s[1] - 0x80);
      c := Combined(high, s[2] - 0x80);
    } else {
      var top := Combined(s[0] - 0xF0, s[1] - 0x80);
      var high := Combined(top, s[2] - 0x80);
      c := Combined(high, s[3] - 0x80);
    }
  }

  lemma Combined(high: nat, low: nat) returns (c: nat)
    requires low < 0x40
    ensures c == high * 0x40 + low && c / 0x40 == high && c % 0x40 == low
  {
    c := high * 0x40 + low;
  }

  /** So a byte sequence is valid exactly when it encodes some characters one after the other. */
  lemma ValidMeansEncoded(s: bytes)
    ensures ValidUtf8(s) <==>
              exists cs: seq<nat> :: (forall i :: 0 <= i < |cs| ==> Scalar(cs[i])) && EncodeScalars(cs) == s
  {
    if ValidUtf8(s) {
      var cs := Decoded(s);
    }
    if cs: seq<nat> :| (forall i :: 0 <= i < |cs| ==> Scalar(cs[i])) && EncodeScalars(cs) == s {
      EncodedIsValid(cs);
    }
  }

  lemma {:induction false} Decoded(s: bytes) returns (cs: seq<nat>)
    requires ValidUtf8(s)
    ensures (forall i :: 0 <= i < |cs| ==> Scalar(cs[i])) && EncodeScalars(cs) == s
    decreases |s|
  {
    hide CharLength, EncodeScalar;
    if s == [] {
      cs := [];
    } else {
      var n := CharLength(s);
      var c := FoundIsScalar(s);
      var others := Decoded(s[n..]);
      cs := [c] + others;
      assert cs[1..] == others && s == s[..n] + s[n..];
    }
  }

  lemma {:induction false} EncodedIsValid(cs: seq<nat>)
    requires forall i :: 0 <= i < |cs| ==> Scalar(cs[i])
    ensures ValidUtf8(EncodeScalars(cs))
  {
    if cs != [] {
      EncodedIsValid(cs[1..]);
      ScalarIsFound(cs[0], EncodeScalars(cs[1..]));
      hide CharLength, EncodeScalar;
    }
  }
}
