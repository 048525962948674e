/** What strict `bytes.decode("utf-8")` accepts and answers (RFC 3629, sections 3 and 4). */
module Utf8 {
  import opened Options

  type byte = x: int | 0 <= x < 256
  type Bytes = seq<byte>

  predicate Follows(x: byte) { 0x80 <= x < 0xC0 }

  /** The length of the character at the head, or 0 if there is none: not too long, no surrogate, in range. */
  function Width(b: Bytes): (n: nat)
    requires b != []
    ensures n <= 4 && n <= |b|
  {
    var lead := b[0];
    if lead < 0x80 then 1
    else if |b| >= 2 && 0xC2 <= lead < 0xE0 && Follows(b[1]) then 2
    else if |b| >= 3 && 0xE0 <= lead < 0xF0 && Follows(b[1]) && Follows(b[2])
      && (lead == 0xE0 ==> b[1] >= 0xA0) && (lead == 0xED ==> b[1] < 0xA0) then 3
    else if |b| >= 4 && 0xF0 <= lead < 0xF5 && Follows(b[1]) && Follows(b[2]) && Follows(b[3])
      && (lead == 0xF0 ==> b[1] >= 0x90) && (lead == 0xF4 ==> b[1] < 0x90) then 4
    else 0
  }

  /** One more group of six bits. */
  function Then(high: nat, x: byte): (k: nat)
    requires Follows(x)
    ensures k / 64 == high && k % 64 + 0x80 == x
  {
    high * 64 + (x - 0x80)
  }

  function CodeAt(b: Bytes): (k: nat)
    requires b != [] && Width(b) > 0
    ensures k < 0xD800 || 0xE000 <= k < 0x110000
  {
    match Width(b)
    case 1 => b[0]
    case 2 => Then(b[0] - 0xC0, b[1])
    case 3 => Then(Then(b[0] - 0xE0, b[1]), b[2])
    case _ => Then(Then(Then(b[0] - 0xF0, b[1]), b[2]), b[3])
  }

  function CharAt(b: Bytes): char
    requires b != [] && Width(b) > 0
  {
    CodeAt(b) as char
  }

  function Decode(b: Bytes): Option<string>
    decreases |b|
  {
    if b == [] then Some("")
    else if Width(b) == 0 then None
    else
      match Decode(b[Width(b)..])
      case None => None
      case Some(text) => Some([CharAt(b)] + text)
  }

  function EncodeChar(c: char): (b: Bytes)
    ensures b != []
  {
    var k := c as int;
    var k1, k2 := k / 64, k / 64 / 64;
    if k < 0x80 then [k]
    else if k < 0x800 then [0xC0 + k1, 0x80 + k % 64]
    else if k < 0x10000 then [0xE0 + k2, 0x80 + k1 % 64, 0x80 + k % 64]
    else [0xF0 + k2 / 64, 0x80 + k2 % 64, 0x80 + k1 % 64, 0x80 + k % 64]
  }

  function Encode(text: string): Bytes {
    if text == "" then [] else EncodeChar(text[0]) + Encode(text[1..])
  }

  // ---- decoding undoes encoding, and the other way round ----

  lemma CharRoundTrip(c: char, rest: Bytes)
    ensures Width(EncodeChar(c) + rest) == |EncodeChar(c)| && CharAt(EncodeChar(c) + rest) == c
  {
    var b := EncodeChar(c);
    assert forall i :: 0 <= i < |b| ==> (b + rest)[i] == b[i];
  }

  lemma HeadRoundTrip(b: Bytes)
    requires b != [] && Width(b) > 0
    ensures EncodeChar(CharAt(b)) == b[..Width(b)]
  {
  }

  lemma {:induction false} DecodeEncode(text: string)
    ensures Decode(Encode(text)) == Some(text)
  {
    hide EncodeChar, Width, CharAt;
    if text != "" {
      var head, rest := EncodeChar(text[0]), Encode(text[1..]);
      CharRoundTrip(text[0], rest);
      assert (head + rest)[|head|..] == rest;
      DecodeEncode(text[1..]);
      assert [text[0]] + text[1..] == text;
    }
  }

  lemma {:induction false} EncodeDecode(b: Bytes)
    ensures Decode(b).Some? ==> Encode(Decode(b).value) == b
    decreases |b|
  {
    hide EncodeChar, Width, CharAt;
    if b != [] && Decode(b).Some? {
      HeadRoundTrip(b);
      EncodeDecode(b[Width(b)..]);
      assert Decode(b).value[1..] == Decode(b[Width(b)..]).value;
      assert b[..Width(b)] + b[Width(b)..] == b;
    }
  }

  /** Exactly the encodings of texts can be decoded. */
  lemma DecodesIff(b: Bytes)
    ensures Decode(b).Some? <==> exists text :: b == Encode(text)
  {
    EncodeDecode(b);
    forall text | b == Encode(text) ensures Decode(b).Some? { DecodeEncode(text); }
  }

  // ---- an ASCII byte is never a part of another character ----

  lemma WidthBefore(a: Bytes, c: byte, b: Bytes)
    requires a != [] && c < 0x80
    ensures Width(a + [c] + b) == Width(a) && (Width(a) > 0 ==> CharAt(a + [c] + b) == CharAt(a))
  {
  }

  lemma TailOf(a: Bytes, c: byte, b: Bytes, n: nat)
    requires n <= |a|
    ensures (a + [c] + b)[n..] == a[n..] + [c] + b
  {
  }

  lemma DecodeNothing()
    ensures Decode([]) == Some("")
  {
  }

  lemma DecodeFails(b: Bytes)
    requires b != [] && Width(b) == 0
    ensures Decode(b) == None
  {
  }

  lemma DecodeStep(b: Bytes)
    requires b != [] && Width(b) > 0
    ensures Decode(b) ==
      match Decode(b[Width(b)..])
      case None => None
      case Some(text) => Some([CharAt(b)] + text)
  {
    hide Width, CharAt;
  }

  lemma AsciiFirst(c: byte, b: Bytes)
    requires c < 0x80
    ensures Decode([c] + b) == if Decode(b).Some? then Some([c as char] + Decode(b).value) else None
  {
    var s := [c] + b;
    assert s[1..] == b && Width(s) == 1 && CharAt(s) == c as char;
  }

  /** So bytes can be split at one before they are decoded. */
  lemma {:induction false} DecodeSplit(a: Bytes, c: byte, b: Bytes)
    requires c < 0x80
    ensures Decode(a + [c] + b) ==
      if Decode(a).Some? && Decode(b).Some? then Some(Decode(a).value + ([c as char] + Decode(b).value)) else None
    decreases |a|
  {
    hide Decode;
    var s := a + [c] + b;
    if a == [] {
      assert Decode([]) == Some("") by { DecodeNothing(); }
      AsciiFirst(c, b);
      assert s == [c] + b;
      if Decode(b).Some? { assert "" + ([c as char] + Decode(b).value) == [c as char] + Decode(b).value; }
    } else {
      WidthBefore(a, c, b);
      hide Width, CharAt;
      var n := Width(a);
      if n == 0 {
        DecodeFails(s);
        DecodeFails(a);
      } else {
        TailOf(a, c, b, n);
        DecodeSplit(a[n..], c, b);
        DecodeStep(s);
        DecodeStep(a);
        if Decode(a).Some? && Decode(b).Some? {
          var t, u := Decode(a[n..]).value, [c as char] + Decode(b).value;
          assert [CharAt(a)] + (t + u) == ([CharAt(a)] + t) + u;
        }
      }
    }
  }

  lemma AsciiChar(b: Bytes, c: byte)
    requires b != [] && Width(b) > 0 && c < 0x80
    ensures CharAt(b) == c as char <==> b[0] == c
  {
  }

  /** An ASCII character that is not among the bytes is not in the text. */
  lemma {:induction false} AbsentFromText(b: Bytes, c: byte)
    requires c < 0x80 && c !in b && Decode(b).Some?
    ensures c as char !in Decode(b).value
    decreases |b|
  {
    hide Width, CharAt;
    if b != [] {
      AsciiChar(b, c);
      AbsentFromText(b[Width(b)..], c);
    }
  }

  lemma AsciiEncoded(k: char, c: byte)
    requires c < 0x80 && k != c as char
    ensures c !in EncodeChar(k)
  {
  }

  lemma {:induction false} AbsentFromBytes(text: string, c: byte)
    requires c < 0x80 && c as char !in text
    ensures c !in Encode(text)
  {
    hide EncodeChar;
    if text != "" {
      AsciiEncoded(text[0], c);
      AbsentFromBytes(text[1..], c);
    }
  }
}
