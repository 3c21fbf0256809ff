/** What a valid name is, said a second time: the bytes of `Newc.IsUtf8` are exactly the
    encodings of Unicode scalar values (RFC 3629, section 3). */
module Utf8 {
  import opened Hex
  import opened Newc

  predicate IsScalar(c: nat) {
    c < 0xD800 || 0xE000 <= c < 0x110000
  }

  function Tail(c: nat): (b: Byte)
    ensures 0x80 <= b < 0xC0
  {
    (0x80 + c % 64) as Byte
  }

  function EncodeChar(c: nat): (s: seq<Byte>)
    requires IsScalar(c)
    ensures 1 <= |s| <= 4
  {
    if c < 0x80 then [c as Byte]
    else if c < 0x800 then [(0xC0 + c / 64) as Byte, Tail(c)]
    else if c < 0x10000 then [(0xE0 + c / 64 / 64) as Byte, Tail(c / 64), Tail(c)]
    else [(0xF0 + c / 64 / 64 / 64) as Byte, Tail(c / 64 / 64), Tail(c / 64), Tail(c)]
  }

  predicate AreScalars(text: seq<nat>) {
    forall i :: 0 <= i < |text| ==> IsScalar(text[i])
  }

  function Encode(text: seq<nat>): seq<Byte>
    requires AreScalars(text)
  {
    if text == [] then [] else EncodeChar(text[0]) + Encode(text[1..])
  }

  /** Places of a numeral to the base 64. */
  lemma {:induction false} Base64(high: nat, low: nat)
    requires low < 64
    ensures (high * 64 + low) / 64 == high && (high * 64 + low) % 64 == low
  {
  }

  lemma {:induction false} CharLengthOfEncoded(c: nat, rest: seq<Byte>)
    requires IsScalar(c)
    ensures CharLength(EncodeChar(c) + rest) == |EncodeChar(c)|
  {
    var s := EncodeChar(c) + rest;
    assert forall i :: 0 <= i < |EncodeChar(c)| ==> s[i] == EncodeChar(c)[i];
  }

  /** The character that `s` starts with. */
  lemma {:induction false} Decoded(s: seq<Byte>) returns (c: nat)
    requires CharLength(s) > 0
    ensures IsScalar(c) && EncodeChar(c) == s[..CharLength(s)]
  {
    var n := CharLength(s);
    if n == 1 {
      c := s[0] as nat;
    } else if n == 2 {
      c := DecodedPair(s[0] as nat - 0xC0, s[1]);
      assert EncodeChar(c) == [s[0], s[1]];
    } else if n == 3 {
      var high := DecodedPair(s[0] as nat - 0xE0, s[1]);
      c := DecodedPair(high, s[2]);
      assert EncodeChar(c) == [s[0], s[1], s[2]];
    } else {
      var top := DecodedPair(s[0] as nat - 0xF0, s[1]);
      var high := DecodedPair(top, s[2]);
      c := DecodedPair(high, s[3]);
      assert EncodeChar(c) == [s[0], s[1], s[2], s[3]];
    }
  }

  lemma {:induction false} DecodedPair(high: nat, b: Byte) returns (c: nat)
    requires 0x80 <= b < 0xC0
    ensures c / 64 == high && Tail(c) == b && c == high * 64 + (b as nat - 0x80)
  {
    c := high * 64 + (b as nat - 0x80);
    Base64(high, b as nat - 0x80);
  }

  lemma {:induction false} EncodedIsUtf8(text: seq<nat>)
    requires AreScalars(text)
    ensures IsUtf8(Encode(text))
  {
    if text != [] {
      var c, rest := EncodeChar(text[0]), Encode(text[1..]);
      EncodedIsUtf8(text[1..]);
      CharLengthOfEncoded(text[0], rest);
      assert (c + rest)[|c|..] == rest;
    }
  }

  lemma {:induction false} EncodeMore(c: nat, more: seq<nat>)
    requires IsScalar(c) && AreScalars(more)
    ensures AreScalars([c] + more) && Encode([c] + more) == EncodeChar(c) + Encode(more)
  {
    assert ([c] + more)[1..] == more;
  }

  lemma {:induction false} Decode(s: seq<Byte>) returns (text: seq<nat>)
    requires IsUtf8(s)
    ensures AreScalars(text) && Encode(text) == s
    decreases |s|
  {
    if s == [] {
      text := [];
    } else {
      var n := CharLength(s);
      var c := Decoded(s);
      var more := Decode(s[n..]);
      text := [c] + more;
      EncodeMore(c, more);
      assert s[..n] + s[n..] == s;
    }
  }

  /** Names are the encoded texts, no more and no fewer. */
  lemma {:induction false} Utf8Means(s: seq<Byte>)
    ensures IsUtf8(s) <==> exists text :: AreScalars(text) && Encode(text) == s
  {
    if IsUtf8(s) {
      var text := Decode(s);
    }
    if text :| AreScalars(text) && Encode(text) == s {
      EncodedIsUtf8(text);
    }
  }
}
