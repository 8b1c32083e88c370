/**
 The base64 codec of section 4 of RFC 4648, as the storage form uses it: an
 encoder over 24-bit groups and a decoder that is a running 32-bit bit buffer.
 */
module Base64 {
  import opened Bits

  type byte = x: int | 0 <= x < 256

  /** The base64 alphabet of RFC 4648, section 4. */
  function Symbol(v: nat): (c: char)
    requires v < 64
    ensures c != '=' && c != '|'
  {
    if v < 26 then 'A' + v as char
    else if v < 52 then 'a' + (v - 26) as char
    else if v < 62 then '0' + (v - 52) as char
    else if v == 62 then '+' else '/'
  }

  /** The decode table: the 6-bit value of a symbol, 0xFF for anything else. */
  function Value(c: char): nat {
    if 'A' <= c <= 'Z' then (c - 'A') as nat
    else if 'a' <= c <= 'z' then (c - 'a') as nat + 26
    else if '0' <= c <= '9' then (c - '0') as nat + 52
    else if c == '+' then 62 else if c == '/' then 63
    else 0xFF
  }

  lemma ValueOfSymbol(v: nat)
    requires v < 64
    ensures Value(Symbol(v)) == v
  {
  }

  function Sextet(n: nat, k: nat): nat
    requires k < 4
  {
    (if k == 0 then n / 262144 else if k == 1 then n / 4096 else if k == 2 then n / 64 else n) % 64
  }

  function Group(b0: byte, b1: byte, b2: byte): nat { b0 * 65536 + b1 * 256 + b2 }

  function Block(n: nat, symbols: nat): (s: string)
    requires 2 <= symbols <= 4
    ensures |s| == 4
  {
    [Symbol(Sextet(n, 0)), Symbol(Sextet(n, 1)),
     if symbols > 2 then Symbol(Sextet(n, 2)) else '=',
     if symbols > 3 then Symbol(Sextet(n, 3)) else '=']
  }

  function Encode(raw: seq<byte>): string {
    if |raw| == 0 then ""
    else if |raw| == 1 then Block(Group(raw[0], 0, 0), 2)
    else if |raw| == 2 then Block(Group(raw[0], raw[1], 0), 3)
    else Block(Group(raw[0], raw[1], raw[2]), 4) + Encode(raw[3..])
  }

  const TWO32: nat := 0x1_0000_0000

  function Push(buffer: nat, v: nat): nat { (buffer * 64 + v) % TWO32 }

  /** Decoding the rest of the input with `bits` unread bits at the bottom of `buffer`. */
  function DecodeFrom(s: string, buffer: nat, bits: nat): (out: seq<byte>) {
    if s == [] then []
    else
      var v := Value(s[0]);
      if v == 0xFF then DecodeFrom(s[1..], buffer, bits)
      else
        var buf := Push(buffer, v);
        if bits + 6 >= 8 then [buf / Pow2(bits - 2) % 256] + DecodeFrom(s[1..], buf, bits - 2)
        else DecodeFrom(s[1..], buf, bits + 6)
  }

  function Decode(s: string): seq<byte> { DecodeFrom(s, 0, 0) }

  // -------------------------------------------------------------------------
  // One group through the bit buffer
  // -------------------------------------------------------------------------

  lemma Quotient(n: int, d: int, q: int, r: int)
    requires d > 0 && n == q * d + r && 0 <= r < d
    ensures n / d == q && n % d == r
  {
    var k := n / d - q;
    calc {
      k * d;
      (n / d) * d - q * d;
      r - n % d;
    }
    OnlyZeroFits(k, d);
  }

  lemma OnlyZeroFits(k: int, d: int)
    requires d > 0 && -d < k * d < d
    ensures k == 0
  {
    assert k >= 1 ==> (k - 1) * d >= 0;
    assert k <= -1 ==> (-1 - k) * d >= 0;
  }

  /** The 32-bit wrap-around drops a multiple of 2^32, which the low bits do not notice. */
  lemma PushLow(buffer: nat, v: nat, unit: nat) returns (a: int)
    requires v < 64 && (unit == 64 || unit == 16 || unit == 4)
    ensures Push(buffer, v) == a * (unit * 64) + (buffer % unit * 64 + v)
  {
    var t := buffer * 64 + v;
    var q := t / TWO32;
    a := buffer / unit - q * (if unit == 64 then 1048576 else if unit == 16 then 4194304 else 16777216);
    assert Push(buffer, v) == t - q * TWO32;
  }

  lemma PushFirst(buffer: nat, v: nat)
    requires v < 64
    ensures Push(buffer, v) % 64 == v
  {
    var a := PushLow(buffer, v, 4);
    Quotient(Push(buffer, v), 64, a * 4 + buffer % 4, v);
  }

  lemma PushSecond(buffer: nat, p: nat, v: nat)
    requires v < 64 && buffer % 64 == p
    ensures Push(buffer, v) / 16 % 256 == p * 4 + v / 16 && Push(buffer, v) % 16 == v % 16
  {
    var a := PushLow(buffer, v, 64);
    Quotient(Push(buffer, v), 16, a * 256 + (p * 4 + v / 16), v % 16);
    Quotient(a * 256 + (p * 4 + v / 16), 256, a, p * 4 + v / 16);
  }

  lemma PushThird(buffer: nat, p: nat, v: nat)
    requires v < 64 && buffer % 16 == p
    ensures Push(buffer, v) / 4 % 256 == p * 16 + v / 4 && Push(buffer, v) % 4 == v % 4
  {
    var a := PushLow(buffer, v, 16);
    Quotient(Push(buffer, v), 4, a * 256 + (p * 16 + v / 4), v % 4);
    Quotient(a * 256 + (p * 16 + v / 4), 256, a, p * 16 + v / 4);
  }

  lemma PushFourth(buffer: nat, p: nat, v: nat)
    requires v < 64 && buffer % 4 == p
    ensures Push(buffer, v) % 256 == p * 64 + v
  {
    var a := PushLow(buffer, v, 4);
    Quotient(Push(buffer, v), 256, a, p * 64 + v);
  }

  lemma Sextets(b0: byte, b1: byte, b2: byte)
    ensures
      var n := Group(b0, b1, b2);
      && Sextet(n, 0) == b0 / 4 && Sextet(n, 1) == b0 % 4 * 16 + b1 / 16
      && Sextet(n, 2) == b1 % 16 * 4 + b2 / 64 && Sextet(n, 3) == b2 % 64
  {
    var n := Group(b0, b1, b2);
    Quotient(n, 262144, b0 / 4, b0 % 4 * 65536 + b1 * 256 + b2);
    Quotient(n, 4096, b0 * 16 + b1 / 16, b1 % 16 * 256 + b2);
    Quotient(n, 64, b0 * 1024 + b1 * 4 + b2 / 64, b2 % 64);
    Quotient(b0 * 16 + b1 / 16, 64, b0 / 4, b0 % 4 * 16 + b1 / 16);
    Quotient(b0 * 1024 + b1 * 4 + b2 / 64, 64, b0 * 16 + b1 / 16, b1 % 16 * 4 + b2 / 64);
  }

  /** The three bytes of a group, read back from its four sextets. */
  lemma GroupBytes(b0: byte, b1: byte, b2: byte)
    ensures
      var n := Group(b0, b1, b2);
      var v0, v1, v2, v3 := Sextet(n, 0), Sextet(n, 1), Sextet(n, 2), Sextet(n, 3);
      && b0 == v0 * 4 + v1 / 16 && b1 == v1 % 16 * 16 + v2 / 4 && b2 == v2 % 4 * 64 + v3
  {
    Sextets(b0, b1, b2);
    Quotient(b0 % 4 * 16 + b1 / 16, 16, b0 % 4, b1 / 16);
    Quotient(b1 % 16 * 4 + b2 / 64, 4, b1 % 16, b2 / 64);
  }

  /** One step of the decoder on a symbol. */
  lemma DecodeSymbol(v: nat, rest: string, buffer: nat, bits: nat)
    requires v < 64
    ensures
      var buf := Push(buffer, v);
      DecodeFrom([Symbol(v)] + rest, buffer, bits) ==
      if bits >= 2 then [buf / Pow2(bits - 2) % 256] + DecodeFrom(rest, buf, bits - 2)
      else DecodeFrom(rest, buf, bits + 6)
  {
    ValueOfSymbol(v);
    assert ([Symbol(v)] + rest)[1..] == rest;
  }

  lemma DecodePad(rest: string, buffer: nat, bits: nat)
    ensures DecodeFrom(['='] + rest, buffer, bits) == DecodeFrom(rest, buffer, bits)
  {
    assert (['='] + rest)[1..] == rest;
  }

  /** The first two symbols of a group yield its first byte. */
  lemma DecodePair(v0: nat, v1: nat, rest: string, buffer: nat)
    requires v0 < 64 && v1 < 64
    ensures
      var buf := Push(Push(buffer, v0), v1);
      && buf % 16 == v1 % 16
      && DecodeFrom([Symbol(v0), Symbol(v1)] + rest, buffer, 0) == [v0 * 4 + v1 / 16] + DecodeFrom(rest, buf, 4)
  {
    var t := [Symbol(v1)] + rest;
    assert [Symbol(v0), Symbol(v1)] + rest == [Symbol(v0)] + t;
    DecodeSymbol(v0, t, buffer, 0);
    DecodeSymbol(v1, rest, Push(buffer, v0), 6);
    PushFirst(buffer, v0);
    PushSecond(Push(buffer, v0), v0, v1);
    assert Pow2(4) == 16;
  }

  lemma DecodeThird(p: nat, v: nat, rest: string, buffer: nat)
    requires v < 64 && buffer % 16 == p
    ensures Push(buffer, v) % 4 == v % 4
    ensures DecodeFrom([Symbol(v)] + rest, buffer, 4) == [p * 16 + v / 4] + DecodeFrom(rest, Push(buffer, v), 2)
  {
    DecodeSymbol(v, rest, buffer, 4);
    PushThird(buffer, p, v);
    assert Pow2(2) == 4;
  }

  lemma DecodeFourth(p: nat, v: nat, rest: string, buffer: nat)
    requires v < 64 && buffer % 4 == p
    ensures DecodeFrom([Symbol(v)] + rest, buffer, 2) == [p * 64 + v] + DecodeFrom(rest, Push(buffer, v), 0)
  {
    DecodeSymbol(v, rest, buffer, 2);
    PushFourth(buffer, p, v);
    assert Pow2(0) == 1;
  }

  /** The last two symbols yield its second and third bytes. */
  lemma DecodeRest(p: nat, v2: nat, v3: nat, rest: string, buffer: nat)
    requires v2 < 64 && v3 < 64 && buffer % 16 == p
    ensures DecodeFrom([Symbol(v2), Symbol(v3)] + rest, buffer, 4) ==
            [p * 16 + v2 / 4, v2 % 4 * 64 + v3] + DecodeFrom(rest, Push(Push(buffer, v2), v3), 0)
  {
    var t := [Symbol(v3)] + rest;
    var buf := Push(buffer, v2);
    assert [Symbol(v2), Symbol(v3)] + rest == [Symbol(v2)] + t;
    DecodeThird(p, v2, t, buffer);
    DecodeFourth(v2 % 4, v3, rest, buf);
    var end := DecodeFrom(rest, Push(buf, v3), 0);
    assert [p * 16 + v2 / 4] + ([v2 % 4 * 64 + v3] + end) == [p * 16 + v2 / 4, v2 % 4 * 64 + v3] + end;
  }

  lemma DecodeQuad(v0: nat, v1: nat, v2: nat, v3: nat, rest: string, buffer: nat)
    requires v0 < 64 && v1 < 64 && v2 < 64 && v3 < 64
    ensures exists buf ::
      DecodeFrom([Symbol(v0), Symbol(v1), Symbol(v2), Symbol(v3)] + rest, buffer, 0) ==
      [v0 * 4 + v1 / 16, v1 % 16 * 16 + v2 / 4, v2 % 4 * 64 + v3] + DecodeFrom(rest, buf, 0)
  {
    var t := [Symbol(v2), Symbol(v3)] + rest;
    var buf := Push(Push(buffer, v0), v1);
    assert [Symbol(v0), Symbol(v1), Symbol(v2), Symbol(v3)] + rest == [Symbol(v0), Symbol(v1)] + t;
    DecodePair(v0, v1, t, buffer);
    DecodeRest(v1 % 16, v2, v3, rest, buf);
    var end := DecodeFrom(rest, Push(Push(buf, v2), v3), 0);
    assert [v0 * 4 + v1 / 16] + ([v1 % 16 * 16 + v2 / 4, v2 % 4 * 64 + v3] + end) ==
           [v0 * 4 + v1 / 16, v1 % 16 * 16 + v2 / 4, v2 % 4 * 64 + v3] + end;
  }

  lemma DecodeGroup(b0: byte, b1: byte, b2: byte, rest: string, buffer: nat)
    ensures exists buf ::
              DecodeFrom(Block(Group(b0, b1, b2), 4) + rest, buffer, 0) == [b0, b1, b2] + DecodeFrom(rest, buf, 0)
  {
    var n := Group(b0, b1, b2);
    GroupBytes(b0, b1, b2);
    DecodeQuad(Sextet(n, 0), Sextet(n, 1), Sextet(n, 2), Sextet(n, 3), rest, buffer);
  }

  lemma DecodeTail1(b0: byte, buffer: nat)
    ensures DecodeFrom(Block(Group(b0, 0, 0), 2), buffer, 0) == [b0]
  {
    var n := Group(b0, 0, 0);
    var v0, v1 := Sextet(n, 0), Sextet(n, 1);
    GroupBytes(b0, 0, 0);
    var t := ['='] + (['='] + []);
    assert Block(n, 2) == [Symbol(v0), Symbol(v1)] + t;
    DecodePair(v0, v1, t, buffer);
    var buf := Push(Push(buffer, v0), v1);
    DecodePad(['='] + [], buf, 4);
    DecodePad([], buf, 4);
  }

  lemma DecodeTail2(b0: byte, b1: byte, buffer: nat)
    ensures DecodeFrom(Block(Group(b0, b1, 0), 3), buffer, 0) == [b0, b1]
  {
    var n := Group(b0, b1, 0);
    var v0, v1, v2 := Sextet(n, 0), Sextet(n, 1), Sextet(n, 2);
    GroupBytes(b0, b1, 0);
    var pad: string := ['='] + [];
    var t := [Symbol(v2)] + pad;
    assert Block(n, 3) == [Symbol(v0), Symbol(v1)] + t;
    DecodePair(v0, v1, t, buffer);
    var buf := Push(Push(buffer, v0), v1);
    DecodeThird(v1 % 16, v2, pad, buf);
    DecodePad([], Push(buf, v2), 2);
  }

  /** Decoding undoes encoding, whatever 32-bit garbage the buffer starts with. */
  lemma {:induction false} DecodeEncodeFrom(raw: seq<byte>, buffer: nat)
    ensures DecodeFrom(Encode(raw), buffer, 0) == raw
    decreases |raw|
  {
    if |raw| == 1 {
      DecodeTail1(raw[0], buffer);
    } else if |raw| == 2 {
      DecodeTail2(raw[0], raw[1], buffer);
    } else if |raw| >= 3 {
      var rest := raw[3..];
      forall buf ensures DecodeFrom(Encode(rest), buf, 0) == rest { DecodeEncodeFrom(rest, buf); }
      DecodeGroup(raw[0], raw[1], raw[2], Encode(rest), buffer);
      assert raw == [raw[0], raw[1], raw[2]] + rest;
    }
  }

  /** decode(encode(x)) == x for every byte string. */
  lemma DecodeEncode(raw: seq<byte>)
    ensures Decode(Encode(raw)) == raw
  {
    DecodeEncodeFrom(raw, 0);
  }

  /** The encoding never contains the storage delimiter. */
  lemma {:induction false} EncodeFree(raw: seq<byte>)
    ensures '|' !in Encode(raw)
    decreases |raw|
  {
    if |raw| == 1 {
      BlockFree(Group(raw[0], 0, 0), 2);
    } else if |raw| == 2 {
      BlockFree(Group(raw[0], raw[1], 0), 3);
    } else if |raw| >= 3 {
      BlockFree(Group(raw[0], raw[1], raw[2]), 4);
      EncodeFree(raw[3..]);
    }
  }

  lemma BlockFree(n: nat, symbols: nat)
    requires 2 <= symbols <= 4
    ensures '|' !in Block(n, symbols)
  {
  }

  // -------------------------------------------------------------------------
  // The loops
  // -------------------------------------------------------------------------

  method EncodeBytes(raw: seq<byte>) returns (out: string)
    ensures out == Encode(raw)
  {
    out := "";
    var i := 0;
    while i + 3 <= |raw|
      invariant 0 <= i <= |raw|
      invariant out + Encode(raw[i..]) == Encode(raw)
    {
      var n := Group(raw[i], raw[i + 1], raw[i + 2]);
      assert raw[i..][3..] == raw[i + 3..];
      assert out + (Block(n, 4) + Encode(raw[i + 3..])) == out + Block(n, 4) + Encode(raw[i + 3..]);
      out := out + Block(n, 4);
      i := i + 3;
    }
    var rem := |raw| - i;
    if rem == 1 {
      out := out + Block(Group(raw[i], 0, 0), 2);
    } else if rem == 2 {
      out := out + Block(Group(raw[i], raw[i + 1], 0), 3);
    }
  }

  method DecodeText(encoded: string) returns (out: seq<byte>)
    ensures out == Decode(encoded)
  {
    out := [];
    var buffer: nat, bits: nat := 0, 0;
    var i := 0;
    while i < |encoded|
      invariant 0 <= i <= |encoded|
      invariant out + DecodeFrom(encoded[i..], buffer, bits) == Decode(encoded)
    {
      var v := Value(encoded[i]);
      assert encoded[i..][1..] == encoded[i + 1..];
      i := i + 1;
      if v != 0xFF {
        buffer := Push(buffer, v);
        bits := bits + 6;
        if bits >= 8 {
          bits := bits - 8;
          ghost var rest := DecodeFrom(encoded[i..], buffer, bits);
          var b := buffer / Pow2(bits) % 256;
          assert out + ([b] + rest) == out + [b] + rest;
          out := out + [b];
        }
      }
    }
  }

  lemma OneOver()
    ensures Block(Group(102, 0, 0), 2) == "Zg=="
  {
  }

  lemma TwoOver()
    ensures Block(Group(102, 111, 0), 3) == "Zm8="
  {
  }

  lemma NoneOver()
    ensures Block(Group(102, 111, 111), 4) == "Zm9v"
  {
  }

  /** Test vectors of section 10 of RFC 4648, one for each way the last group can end. */
  lemma TestVectors()
    ensures Encode([]) == "" && Encode([102]) == "Zg==" && Encode([102, 111]) == "Zm8="
    ensures Encode([102, 111, 111]) == "Zm9v"
  {
    hide Block, Group;
    OneOver();
    TwoOver();
    NoneOver();
    var foo: seq<byte> := [102, 111, 111];
    assert foo[3..] == [] && Encode(foo) == "Zm9v" + Encode([]);
  }
}
