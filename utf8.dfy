/** UTF-8, as Python's strict codec applies it: `str.encode("utf8")` and
    `bytes.decode("utf8")`. Dafny's `char` is a Unicode scalar value, which is
    exactly the set of code points the strict codec accepts (no surrogates). */
module Utf8 {
  import opened Common
  import opened Bytes

  predicate IsContinuation(b: byte) {
    0x80 <= b < 0xC0
  }

  /** The one to four bytes of one character. */
  function EncodeChar(c: char): (r: Bytes)
    ensures 1 <= |r| <= 4
    ensures (r[0] == LF) == (c == '\n')
    ensures forall i :: 1 <= i < |r| ==> IsContinuation(r[i])
  {
    var n := c as int;
    if n < 0x80 then [n as byte]
    else if n < 0x800 then [(0xC0 + n / 64) as byte, (0x80 + n % 64) as byte]
    else if n < 0x10000 then
      [(0xE0 + n / 4096) as byte, (0x80 + n / 64 % 64) as byte, (0x80 + n % 64) as byte]
    else
      [(0xF0 + n / 262144) as byte, (0x80 + n / 4096 % 64) as byte,
       (0x80 + n / 64 % 64) as byte, (0x80 + n % 64) as byte]
  }

  function Encode(s: string): (r: Bytes)
    ensures s == [] <==> r == []
    ensures |s| <= |r| <= 4 * |s|
  {
    if s == [] then [] else EncodeChar(s[0]) + Encode(s[1..])
  }

  /** The first character of `s` and the number of bytes it takes, or None when `s`
      does not start with a well-formed, shortest-form encoding of a scalar value. */
  function DecodeFirst(s: Bytes): (r: Option<(char, nat)>)
    requires s != []
    ensures r.Some? ==> 1 <= r.value.1 <= |s| && r.value.1 <= 4
  {
    var b0 := s[0] as int;
    if b0 < 0x80 then Some((b0 as char, 1))
    else if 0xC2 <= b0 < 0xE0 then
      if |s| >= 2 && IsContinuation(s[1]) then
        Some((((b0 - 0xC0) * 64 + (s[1] as int - 0x80)) as char, 2))
      else None
    else if 0xE0 <= b0 < 0xF0 then
      if |s| >= 3 && IsContinuation(s[1]) && IsContinuation(s[2]) then
        var n := (b0 - 0xE0) * 4096 + (s[1] as int - 0x80) * 64 + (s[2] as int - 0x80);
        if 0x800 <= n && !(0xD800 <= n < 0xE000) then Some((n as char, 3)) else None
      else None
    else if 0xF0 <= b0 < 0xF5 then
      if |s| >= 4 && IsContinuation(s[1]) && IsContinuation(s[2]) && IsContinuation(s[3]) then
        var n := (b0 - 0xF0) * 262144 + (s[1] as int - 0x80) * 4096
                 + (s[2] as int - 0x80) * 64 + (s[3] as int - 0x80);
        if 0x10000 <= n < 0x110000 then Some((n as char, 4)) else None
      else None
    else None
  }

  function Decode(s: Bytes): (r: Option<string>)
    ensures s == [] ==> r == Some([])
    ensures r.Some? ==> |r.value| <= |s|
    decreases |s|
  {
    if s == [] then Some([])
    else match DecodeFirst(s)
      case None => None
      case Some((c, k)) =>
        match Decode(s[k..])
        case None => None
        case Some(rest) => Some([c] + rest)
  }

  lemma DivMod64(n: int, q: int, r: int)
    requires n == q * 64 + r && 0 <= r < 64
    ensures n / 64 == q && n % 64 == r
  {}

  lemma DivMod4096(n: int, q: int, r: int)
    requires n == q * 4096 + r && 0 <= r < 4096
    ensures n / 4096 == q
  {}

  lemma DivMod262144(n: int, q: int, r: int)
    requires n == q * 262144 + r && 0 <= r < 262144
    ensures n / 262144 == q
  {}

  /** The six-bit groups of a code point, as the encoder takes them apart. */
  lemma SixBitGroups(n: nat)
    ensures n == n / 4096 * 4096 + n / 64 % 64 * 64 + n % 64
    ensures n == n / 262144 * 262144 + n / 4096 % 64 * 4096 + n / 64 % 64 * 64 + n % 64
  {
    var q1, r1 := n / 64, n % 64;
    var q2, r2 := q1 / 64, q1 % 64;
    var q3, r3 := q2 / 64, q2 % 64;
    assert n == q2 * 4096 + (r2 * 64 + r1);
    DivMod4096(n, q2, r2 * 64 + r1);
    assert n == q3 * 262144 + (r3 * 4096 + r2 * 64 + r1);
    DivMod262144(n, q3, r3 * 4096 + r2 * 64 + r1);
  }

  lemma DecodeFirstEncodeChar(c: char, rest: Bytes)
    ensures DecodeFirst(EncodeChar(c) + rest) == Some((c, |EncodeChar(c)|))
  {
    var n := c as int;
    if n < 0x80 {
    } else if n < 0x800 {
      DecodeFirstTwo(c, rest);
    } else if n < 0x10000 {
      DecodeFirstThree(c, rest);
    } else {
      DecodeFirstFour(c, rest);
    }
  }

  lemma DecodeFirstTwo(c: char, rest: Bytes)
    requires 0x80 <= c as int < 0x800
    ensures DecodeFirst(EncodeChar(c) + rest) == Some((c, 2))
  {
    var n := c as int;
    var s := EncodeChar(c) + rest;
    assert s[0] as int - 0xC0 == n / 64 && s[1] as int - 0x80 == n % 64;
  }

  lemma DecodeFirstThree(c: char, rest: Bytes)
    requires 0x800 <= c as int < 0x10000
    ensures DecodeFirst(EncodeChar(c) + rest) == Some((c, 3))
  {
    var n := c as int;
    var s := EncodeChar(c) + rest;
    SixBitGroups(n);
    assert s[0] as int - 0xE0 == n / 4096 && s[1] as int - 0x80 == n / 64 % 64
      && s[2] as int - 0x80 == n % 64;
  }

  lemma DecodeFirstFour(c: char, rest: Bytes)
    requires 0x10000 <= c as int
    ensures DecodeFirst(EncodeChar(c) + rest) == Some((c, 4))
  {
    var n := c as int;
    var s := EncodeChar(c) + rest;
    SixBitGroups(n);
    assert s[0] as int - 0xF0 == n / 262144 && s[1] as int - 0x80 == n / 4096 % 64
      && s[2] as int - 0x80 == n / 64 % 64 && s[3] as int - 0x80 == n % 64;
  }

  lemma DecodedCharEncodes(s: Bytes)
    requires s != [] && DecodeFirst(s).Some?
    ensures EncodeChar(DecodeFirst(s).value.0) == s[..DecodeFirst(s).value.1]
  {
    var k := DecodeFirst(s).value.1;
    if k == 2 {
      DecodedTwo(s);
    } else if k == 3 {
      DecodedThree(s);
    } else if k == 4 {
      DecodedFour(s);
    }
  }

  lemma DecodedTwo(s: Bytes)
    requires s != [] && DecodeFirst(s).Some? && DecodeFirst(s).value.1 == 2
    ensures EncodeChar(DecodeFirst(s).value.0) == s[..2]
  {
    var n := DecodeFirst(s).value.0 as int;
    var x0, x1 := s[0] as int, s[1] as int - 0x80;
    DivMod64(n, x0 - 0xC0, x1);
    assert EncodeChar(DecodeFirst(s).value.0) == [s[0], s[1]];
  }

  lemma DecodedThree(s: Bytes)
    requires s != [] && DecodeFirst(s).Some? && DecodeFirst(s).value.1 == 3
    ensures EncodeChar(DecodeFirst(s).value.0) == s[..3]
  {
    var n := DecodeFirst(s).value.0 as int;
    var x0, x1, x2 := s[0] as int, s[1] as int - 0x80, s[2] as int - 0x80;
    DivMod64(n, (x0 - 0xE0) * 64 + x1, x2);
    DivMod64(n / 64, x0 - 0xE0, x1);
    DivMod4096(n, x0 - 0xE0, x1 * 64 + x2);
    assert EncodeChar(DecodeFirst(s).value.0) == [s[0], s[1], s[2]];
  }

  lemma DecodedFour(s: Bytes)
    requires s != [] && DecodeFirst(s).Some? && DecodeFirst(s).value.1 == 4
    ensures EncodeChar(DecodeFirst(s).value.0) == s[..4]
  {
    var n := DecodeFirst(s).value.0 as int;
    var x0, x1, x2, x3 := s[0] as int, s[1] as int - 0x80, s[2] as int - 0x80, s[3] as int - 0x80;
    DivMod64(n, (x0 - 0xF0) * 4096 + x1 * 64 + x2, x3);
    DivMod64(n / 64, (x0 - 0xF0) * 64 + x1, x2);
    DivMod4096(n, (x0 - 0xF0) * 64 + x1, x2 * 64 + x3);
    DivMod64(n / 4096, x0 - 0xF0, x1);
    DivMod262144(n, x0 - 0xF0, x1 * 4096 + x2 * 64 + x3);
    assert EncodeChar(DecodeFirst(s).value.0) == [s[0], s[1], s[2], s[3]];
  }

  /** Decoding undoes encoding: every string survives a trip over the wire. */
  lemma {:induction false} DecodeEncode(s: string)
    ensures Decode(Encode(s)) == Some(s)
  {
    if s != [] {
      var e := EncodeChar(s[0]);
      var rest := Encode(s[1..]);
      DecodeFirstEncodeChar(s[0], rest);
      assert (e + rest)[|e|..] == rest;
      DecodeEncode(s[1..]);
      assert [s[0]] + s[1..] == s;
    }
  }

  /** Encoding undoes decoding: a line that decodes is re-encoded byte for byte. */
  lemma {:induction false} EncodeDecode(b: Bytes)
    requires Decode(b).Some?
    ensures Encode(Decode(b).value) == b
    decreases |b|
  {
    if b != [] {
      var first := DecodeFirst(b).value;
      var c, k := first.0, first.1;
      var tail := Decode(b[k..]).value;
      assert Decode(b).value == [c] + tail;
      DecodedCharEncodes(b);
      EncodeDecode(b[k..]);
      JoinEncoded(b, k, c, tail);
    }
  }

  lemma JoinEncoded(b: Bytes, k: nat, c: char, tail: string)
    requires k <= |b| && EncodeChar(c) == b[..k] && Encode(tail) == b[k..]
    ensures Encode([c] + tail) == b
  {
    EncodeCons(c, tail);
    assert b == b[..k] + b[k..];
  }

  lemma {:induction false} EncodeConcat(a: string, b: string)
    ensures Encode(a + b) == Encode(a) + Encode(b)
  {
    if a == [] {
      assert a + b == b;
    } else {
      var c, t := a[0], a[1..];
      assert a == [c] + t && a + b == [c] + (t + b);
      EncodeCons(c, t);
      EncodeCons(c, t + b);
      EncodeConcat(t, b);
      assert EncodeChar(c) + (Encode(t) + Encode(b)) == (EncodeChar(c) + Encode(t)) + Encode(b);
    }
  }

  lemma EncodeCons(c: char, s: string)
    ensures Encode([c] + s) == EncodeChar(c) + Encode(s)
  {
    assert ([c] + s)[0] == c && ([c] + s)[1..] == s;
  }

  /** A line feed byte appears in an encoding only where the string has a line feed:
      every byte of a multi-byte sequence is 0x80 or above. */
  lemma {:induction false} EncodeNoLineFeed(s: string)
    requires '\n' !in s
    ensures LF !in Encode(s)
  {
    if s != [] {
      assert s[0] != '\n';
      var e := EncodeChar(s[0]);
      assert forall i :: 0 <= i < |e| ==> e[i] != LF;
      assert '\n' !in s[1..] by {
        forall i | 0 <= i < |s[1..]| ensures s[1..][i] != '\n' { assert s[1..][i] == s[i + 1]; }
      }
      EncodeNoLineFeed(s[1..]);
    }
  }
}
