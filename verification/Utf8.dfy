/** Names must be UTF-8 (native/src/boot/cpio.rs): that is, the encodings of characters, one behind the other. */
module Utf8 {
  import opened CpioFormat

  /** A Unicode scalar value. */
  type scalar = n: nat | n < 0xD800 || 0xE000 <= n < 0x110000

  function Tail(n: nat): char { (0x80 + n % 64) as char }

  /** The UTF-8 encoding of a character (section 3 of RFC 3629). */
  function Encoding(n: scalar): (r: string)
    ensures r != ""
  {
    if n < 0x80 then [n as char]
    else if n < 0x800 then [(0xC0 + n / 64) as char, Tail(n)]
    else if n < 0x10000 then [(0xE0 + n / 4096) as char, Tail(n / 64), Tail(n)]
    else [(0xF0 + n / 262144) as char, Tail(n / 4096), Tail(n / 64), Tail(n)]
  }

  function Encodings(ns: seq<scalar>): string {
    if ns == [] then "" else Encoding(ns[0]) + Encodings(ns[1..])
  }

  lemma LengthOfEncoding(n: scalar, rest: string)
    ensures Utf8Length(Encoding(n) + rest) == |Encoding(n)|
  {
    var s := Encoding(n) + rest;
    assert forall i | 0 <= i < |Encoding(n)| :: s[i] == Encoding(n)[i];
  }

  /** The character that a sequence stands for. */
  lemma SequenceIsEncoding(s: string) returns (n: scalar)
    requires s != "" && Utf8Length(s) > 0
    ensures s[..Utf8Length(s)] == Encoding(n)
  {
    var k := Utf8Length(s);
    if k == 1 {
      n := s[0] as int;
    } else if k == 2 {
      n := TwoBytes(s);
    } else if k == 3 {
      n := ThreeBytes(s);
    } else {
      n := FourBytes(s);
    }
  }

  lemma TwoBytes(s: string) returns (n: scalar)
    requires s != "" && Utf8Length(s) == 2
    ensures s[..2] == Encoding(n)
  {
    var a, b: int := s[0] as int - 0xC0, s[1] as int - 0x80;
    n := a * 64 + b;
    assert n / 64 == a && n % 64 == b;
  }

  lemma ThreeBytes(s: string) returns (n: scalar)
    requires s != "" && Utf8Length(s) == 3
    ensures s[..3] == Encoding(n)
  {
    var a, b, c: int := s[0] as int - 0xE0, s[1] as int - 0x80, s[2] as int - 0x80;
    n := a * 4096 + b * 64 + c;
    assert n / 64 == a * 64 + b && n % 64 == c;
    assert n / 4096 == a && (a * 64 + b) % 64 == b;
  }

  lemma FourBytes(s: string) returns (n: scalar)
    requires s != "" && Utf8Length(s) == 4
    ensures s[..4] == Encoding(n)
  {
    var a, b, c, d: int := s[0] as int - 0xF0, s[1] as int - 0x80, s[2] as int - 0x80, s[3] as int - 0x80;
    n := a * 262144 + b * 4096 + c * 64 + d;
    assert n / 64 == a * 4096 + b * 64 + c && n % 64 == d;
    assert n / 4096 == a * 64 + b && (a * 4096 + b * 64 + c) % 64 == c;
    assert n / 262144 == a && (a * 64 + b) % 64 == b;
  }

  lemma {:induction false} EncodingsAreUtf8(ns: seq<scalar>)
    ensures IsUtf8(Encodings(ns))
  {
    hide Encoding, Utf8Length;
    if ns != [] {
      var s, rest := Encodings(ns), Encodings(ns[1..]);
      LengthOfEncoding(ns[0], rest);
      assert s[|Encoding(ns[0])|..] == rest;
      EncodingsAreUtf8(ns[1..]);
    }
  }

  lemma {:induction false} Utf8IsEncodings(s: string) returns (ns: seq<scalar>)
    requires IsUtf8(s)
    ensures Encodings(ns) == s
    decreases |s|
  {
    hide Encoding, Utf8Length;
    if s == "" {
      ns := [];
    } else {
      var n := SequenceIsEncoding(s);
      var rest := Utf8IsEncodings(s[Utf8Length(s)..]);
      ns := [n] + rest;
      assert ns[1..] == rest;
      assert s == s[..Utf8Length(s)] + s[Utf8Length(s)..];
    }
  }

  /** A name is accepted exactly when it is the encoding of some characters. */
  lemma {:induction false} Utf8Exactly(s: string)
    ensures IsUtf8(s) <==> exists ns: seq<scalar> :: Encodings(ns) == s
  {
    hide IsUtf8, Encodings;
    if IsUtf8(s) {
      var ns := Utf8IsEncodings(s);
    }
    if ns: seq<scalar> :| Encodings(ns) == s {
      EncodingsAreUtf8(ns);
    }
  }
}
