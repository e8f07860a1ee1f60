/** `str.encode("utf-8")`: Dafny's `char` is a Unicode scalar value, as the
    code points of a Python `str` are once lone surrogates are set aside,
    and each one becomes one to four bytes. A decoder and the round trip
    show that two different strings never encode to the same bytes. */
module Utf8 {
  import opened Wrappers

  newtype byte = x: int | 0 <= x < 256

  type Bytes = seq<byte>

  /** The bytes of one scalar value, shortest form. */
  function EncodeChar(c: char): (u: Bytes)
    ensures 1 <= |u| <= 4
  {
    var n := c as int;
    if n < 0x80 then [n as byte]
    else if n < 0x800 then [(0xC0 + n / 64) as byte, (0x80 + n % 64) as byte]
    else if n < 0x10000 then
      [(0xE0 + n / 4096) as byte, (0x80 + n / 64 % 64) as byte, (0x80 + n % 64) as byte]
    else
      [(0xF0 + n / 262144) as byte, (0x80 + n / 4096 % 64) as byte,
       (0x80 + n / 64 % 64) as byte, (0x80 + n % 64) as byte]
  }

  /** `s.encode("utf-8")`. */
  function Encode(s: string): (b: Bytes)
    ensures s == [] <==> b == []
  {
    if s == [] then [] else EncodeChar(s[0]) + Encode(s[1..])
  }

  /** How many bytes the sequence that starts with `lead` has. */
  function UnitLength(lead: byte): nat {
    if lead < 0x80 then 1 else if lead < 0xE0 then 2 else if lead < 0xF0 then 3 else 4
  }

  predicate IsContinuation(b: byte) {
    0x80 <= b < 0xC0
  }

  /** The scalar value a sequence of `UnitLength(u[0])` bytes stands for. */
  function UnitValue(u: Bytes): int
    requires 1 <= |u| <= 4
  {
    if |u| == 1 then u[0] as int
    else if |u| == 2 then (u[0] as int - 0xC0) * 64 + (u[1] as int - 0x80)
    else if |u| == 3 then (u[0] as int - 0xE0) * 4096 + (u[1] as int - 0x80) * 64 + (u[2] as int - 0x80)
    else (u[0] as int - 0xF0) * 262144 + (u[1] as int - 0x80) * 4096 + (u[2] as int - 0x80) * 64 + (u[3] as int - 0x80)
  }

  predicate IsScalar(v: int) {
    0 <= v < 0xD800 || 0xE000 <= v < 0x110000
  }

  /** Decodes one sequence at the front of `b`: the character and the
      number of bytes it used, or `None`. */
  function DecodeChar(b: Bytes): (r: Option<(char, nat)>)
    requires b != []
    ensures r.Some? ==> 1 <= r.value.1 <= |b|
  {
    var k := UnitLength(b[0]);
    if k > |b| then None
    else if exists i :: 1 <= i < k && !IsContinuation(b[i]) then None
    else
      var v := UnitValue(b[..k]);
      if IsScalar(v) then Some((v as char, k)) else None
  }

  /** `b.decode("utf-8")` for the byte strings `Encode` produces. */
  function Decode(b: Bytes): Option<string>
    decreases |b|
  {
    if b == [] then Some([])
    else
      match DecodeChar(b)
      case None => None
      case Some((c, k)) =>
        match Decode(b[k..])
        case None => None
        case Some(rest) => Some([c] + rest)
  }

  /** One character reads back from its own bytes, whatever follows them. */
  lemma DecodeEncodeChar(c: char, rest: Bytes)
    ensures DecodeChar(EncodeChar(c) + rest) == Some((c, |EncodeChar(c)|))
  {
    var u := EncodeChar(c);
    var b := u + rest;
    assert b[..|u|] == u;
    assert b[0] == u[0];
    assert forall i :: 1 <= i < |u| ==> b[i] == u[i];
    EncodeCharShape(c);
  }

  /** The lead byte announces the length, the other bytes are continuation
      bytes, and the value they carry is the character. */
  lemma EncodeCharShape(c: char)
    ensures UnitLength(EncodeChar(c)[0]) == |EncodeChar(c)|
    ensures forall i :: 1 <= i < |EncodeChar(c)| ==> IsContinuation(EncodeChar(c)[i])
    ensures UnitValue(EncodeChar(c)) == c as int
  {
    var n := c as int;
    if n < 0x80 {
    } else if n < 0x800 {
      TwoBytes(n);
    } else if n < 0x10000 {
      ThreeBytes(n);
    } else {
      FourBytes(n);
    }
  }

  lemma TwoBytes(n: int)
    requires 0x80 <= n < 0x800
    ensures 0xC0 <= 0xC0 + n / 64 < 0xE0 && 0 <= n % 64 < 64
    ensures (n / 64) * 64 + n % 64 == n
  {
  }

  lemma ThreeBytes(n: int)
    requires 0x800 <= n < 0x10000
    ensures 0xE0 <= 0xE0 + n / 4096 < 0xF0
    ensures (n / 4096) * 4096 + (n / 64 % 64) * 64 + n % 64 == n
  {
    assert n / 64 == (n / 4096) * 64 + n / 64 % 64;
  }

  lemma FourBytes(n: int)
    requires 0x10000 <= n < 0x110000
    ensures 0xF0 <= 0xF0 + n / 262144 < 0x100
    ensures (n / 262144) * 262144 + (n / 4096 % 64) * 4096 + (n / 64 % 64) * 64 + n % 64 == n
  {
    assert n / 64 == (n / 4096) * 64 + n / 64 % 64;
    assert n / 4096 == (n / 262144) * 64 + n / 4096 % 64;
  }

  /** Decoding the encoding gives the string back. */
  lemma {:induction false} DecodeEncode(s: string)
    ensures Decode(Encode(s)) == Some(s)
  {
    if s != [] {
      var u := EncodeChar(s[0]);
      var rest := Encode(s[1..]);
      DecodeEncodeChar(s[0], rest);
      assert (u + rest)[|u|..] == rest;
      DecodeEncode(s[1..]);
      assert [s[0]] + s[1..] == s;
    }
  }

  /** Different strings have different encodings. */
  lemma EncodeInjective(a: string, b: string)
    requires Encode(a) == Encode(b)
    ensures a == b
  {
    DecodeEncode(a);
    DecodeEncode(b);
  }
}
