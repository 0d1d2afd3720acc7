/** UTF-8 as in section 3 of RFC 3629: Python's `encode`, and `decode` with errors ignored. */
module Utf8 {
  import opened Text

  type byte = b: int | 0 <= b < 256

  function Encode(c: char): (b: seq<byte>)
    ensures 1 <= |b| <= 4
  {
    var n := c as int;
    if n < 0x80 then [n]
    else if n < 0x800 then [0xC0 + n / 64, 0x80 + n % 64]
    else if n < 0x10000 then [0xE0 + n / 4096, 0x80 + n / 64 % 64, 0x80 + n % 64]
    else [0xF0 + n / 262144, 0x80 + n / 4096 % 64, 0x80 + n / 64 % 64, 0x80 + n % 64]
  }

  /** `byte & 0b11000000 == 0b10000000` */
  predicate IsContinuation(b: byte) {
    b / 64 == 2
  }

  /** `text.encode("utf-8")` */
  function Encoded(s: string): seq<byte> {
    if s == "" then [] else Encode(s[0]) + Encoded(s[1..])
  }

  /** How many bytes the character starting with `lead` takes; 0 if none starts so. */
  function LeadWidth(lead: byte): nat {
    if lead < 0x80 then 1
    else if 0xC0 <= lead < 0xE0 then 2
    else if 0xE0 <= lead < 0xF0 then 3
    else if 0xF0 <= lead < 0xF8 then 4
    else 0
  }

  /** The low bits of a byte: `b & (size - 1)` for a power of two. */
  function Payload(b: byte, size: nat): int
    requires size > 0
  {
    b as int % size
  }

  function CodePoint(b: seq<byte>): int
    requires 1 <= |b| <= 4
  {
    if |b| == 1 then b[0]
    else if |b| == 2 then Payload(b[0], 32) * 64 + Payload(b[1], 64)
    else if |b| == 3 then Payload(b[0], 16) * 4096 + Payload(b[1], 64) * 64 + Payload(b[2], 64)
    else Payload(b[0], 8) * 262144 + Payload(b[1], 64) * 4096 + Payload(b[2], 64) * 64 + Payload(b[3], 64)
  }

  predicate IsScalar(n: int) {
    0 <= n < 0xD800 || 0xE000 <= n < 0x11_0000
  }

  /** The character `b` starts with, if its bytes are the encoding of one. */
  function DecodeOne(b: seq<byte>): Option<char>
    requires b != []
  {
    var w := LeadWidth(b[0]);
    if w == 0 || w > |b| || !IsScalar(CodePoint(b[..w])) then None
    else
      var c := CodePoint(b[..w]) as char;
      if Encode(c) == b[..w] then Some(c) else None
  }

  /** `bytes.decode("utf-8", errors="ignore")`: what does not decode is skipped. */
  function Decode(b: seq<byte>): string
    decreases |b|
  {
    if b == [] then ""
    else match DecodeOne(b)
      case None => Decode(b[1..])
      case Some(c) => if |Encode(c)| <= |b| then [c] + Decode(b[|Encode(c)|..]) else ""
  }

  lemma EncodeShape(c: char)
    ensures var b := Encode(c);
            LeadWidth(b[0]) == |b| && !IsContinuation(b[0]) && forall i :: 1 <= i < |b| ==> IsContinuation(b[i])
  {}

  lemma TailPayload(n: nat)
    ensures Payload(0x80 + n % 64, 64) == n % 64
  {}

  lemma TwoBytes(n: nat)
    requires n < 0x800
    ensures Payload(0xC0 + n / 64, 32) * 64 + Payload(0x80 + n % 64, 64) == n
  {
    TailPayload(n);
  }

  lemma ThreeBytes(n: nat)
    requires n < 0x10000
    ensures Payload(0xE0 + n / 4096, 16) * 4096 + Payload(0x80 + n / 64 % 64, 64) * 64 + Payload(0x80 + n % 64, 64) == n
  {
    TailPayload(n);
    TailPayload(n / 64);
    assert n / 64 / 64 == n / 4096;
  }

  lemma FourBytes(n: nat)
    requires n < 0x11_0000
    ensures Payload(0xF0 + n / 262144, 8) * 262144 + Payload(0x80 + n / 4096 % 64, 64) * 4096
            + Payload(0x80 + n / 64 % 64, 64) * 64 + Payload(0x80 + n % 64, 64) == n
  {
    TailPayload(n);
    TailPayload(n / 64);
    TailPayload(n / 4096);
    assert n / 64 / 64 == n / 4096 && n / 4096 / 64 == n / 262144;
    assert Payload(0xF0 + n / 262144, 8) == n / 262144;
  }

  lemma CodePointEncode(c: char)
    ensures CodePoint(Encode(c)) == c as int
  {
    var n := c as int;
    if n < 0x80 {
    } else if n < 0x800 {
      TwoBytes(n);
    } else if n < 0x10000 {
      ThreeBytes(n);
    } else {
      FourBytes(n);
    }
  }

  /** `b` has the shape of one character's bytes and its bits give `c`. */
  predicate Spells(b: seq<byte>, c: char) {
    && 1 <= |b| <= 4 && LeadWidth(b[0]) == |b| && (forall i :: 1 <= i < |b| ==> IsContinuation(b[i]))
    && CodePoint(b) == c as int
  }

  lemma Tail(b: byte)
    requires IsContinuation(b)
    ensures 0 <= Payload(b, 64) < 64 && b == 0x80 + Payload(b, 64)
  {}

  lemma SixBits(n: nat, q: nat, r: nat)
    requires n == q * 64 + r && r < 64
    ensures n / 64 == q && n % 64 == r
  {}

  lemma TwoBytesAre(b: seq<byte>, c: char)
    requires Spells(b, c) && |b| == 2
    ensures c as int < 0x800 && (c as int >= 0x80 ==> b == Encode(c))
  {
    Tail(b[1]);
    assert b[0] == 0xC0 + Payload(b[0], 32);
    SixBits(c as int, Payload(b[0], 32), Payload(b[1], 64));
  }

  lemma ThreeBytesAre(b: seq<byte>, c: char)
    requires Spells(b, c) && |b| == 3
    ensures c as int < 0x10000 && (c as int >= 0x800 ==> b == Encode(c))
  {
    var n := c as int;
    Tail(b[1]);
    Tail(b[2]);
    assert b[0] == 0xE0 + Payload(b[0], 16);
    SixBits(n, Payload(b[0], 16) * 64 + Payload(b[1], 64), Payload(b[2], 64));
    SixBits(n / 64, Payload(b[0], 16), Payload(b[1], 64));
    assert n / 64 / 64 == n / 4096;
  }

  lemma FourBytesAre(b: seq<byte>, c: char)
    requires Spells(b, c) && |b| == 4
    ensures c as int >= 0x10000 ==> b == Encode(c)
  {
    var n, top := c as int, Payload(b[0], 8);
    Tail(b[1]);
    Tail(b[2]);
    Tail(b[3]);
    assert b[0] == 0xF0 + top;
    SixBits(n, (top * 64 + Payload(b[1], 64)) * 64 + Payload(b[2], 64), Payload(b[3], 64));
    SixBits(n / 64, top * 64 + Payload(b[1], 64), Payload(b[2], 64));
    SixBits(n / 64 / 64, top, Payload(b[1], 64));
    assert n / 64 / 64 == n / 4096 && n / 4096 / 64 == n / 262144;
  }

  /** Of all byte sequences that spell a character its encoding is the shortest, and the only one
      of its length. */
  lemma EncodeIsShortest(c: char, b: seq<byte>)
    requires Spells(b, c)
    ensures Spells(Encode(c), c) && (b == Encode(c) || |Encode(c)| < |b|)
  {
    EncodeShape(c);
    CodePointEncode(c);
    if |b| == 2 {
      TwoBytesAre(b, c);
    } else if |b| == 3 {
      ThreeBytesAre(b, c);
    } else if |b| == 4 {
      FourBytesAre(b, c);
    }
  }

  lemma DecodeOneEncode(c: char, rest: seq<byte>)
    ensures DecodeOne(Encode(c) + rest) == Some(c)
  {
    EncodeShape(c);
    CodePointEncode(c);
    assert (Encode(c) + rest)[..|Encode(c)|] == Encode(c);
  }

  /** Encoding loses nothing, and decoding what was encoded ignores nothing. */
  lemma {:induction false} DecodeEncoded(s: string)
    ensures Decode(Encoded(s)) == s
  {
    if s != "" {
      var rest := Encoded(s[1..]);
      DecodeOneEncode(s[0], rest);
      assert (Encode(s[0]) + rest)[|Encode(s[0])|..] == rest;
      DecodeEncoded(s[1..]);
    }
  }

  /** A byte that starts no character, in front of an encoded text, is ignored. */
  lemma StrayByteIsIgnored(b: byte, s: string)
    requires LeadWidth(b) == 0
    ensures Decode([b] + Encoded(s)) == s
  {
    assert ([b] + Encoded(s))[1..] == Encoded(s);
    DecodeEncoded(s);
  }

  lemma {:induction false} EncodedConcat(a: string, b: string)
    ensures Encoded(a + b) == Encoded(a) + Encoded(b)
  {
    if a == "" {
      assert a + b == b;
    } else {
      assert (a + b)[1..] == a[1..] + b;
      EncodedConcat(a[1..], b);
    }
  }

  // ---------------------------------------------------------------- sizes

  /** How many bytes a character takes. */
  function Width(c: char): (w: nat)
    ensures 1 <= w <= 4
  {
    var n := c as int;
    if n < 0x80 then 1 else if n < 0x800 then 2 else if n < 0x10000 then 3 else 4
  }

  /** How many bytes a text takes. */
  function Size(s: string): nat {
    if s == "" then 0 else Width(s[0]) + Size(s[1..])
  }

  lemma {:induction false} SizeIs(s: string)
    ensures |Encoded(s)| == Size(s)
  {
    if s != "" { SizeIs(s[1..]); }
  }

  lemma {:induction false} SizeConcat(a: string, b: string)
    ensures Size(a + b) == Size(a) + Size(b)
  {
    if a == "" {
      assert a + b == b;
    } else {
      assert (a + b)[1..] == a[1..] + b;
      SizeConcat(a[1..], b);
    }
  }

  lemma EncodedOne(c: char)
    ensures Encoded([c]) == Encode(c)
  {
    assert Encoded([c]) == Encode(c) + Encoded([]);
  }

  /** Of the bytes of character `k` the first is no continuation byte, and the others are. */
  lemma BytesOfOne(s: string, k: nat, p: nat)
    requires k < |s| && Size(s[..k]) <= p < Size(s[..k + 1])
    ensures p < |Encoded(s)| && (IsContinuation(Encoded(s)[p]) <==> p > Size(s[..k]))
  {
    var a, c, b := Encoded(s[..k]), Encode(s[k]), Encoded(s[k + 1..]);
    SizeIs(s[..k]);
    SizeIs(s[..k + 1]);
    assert s[..k + 1] == s[..k] + [s[k]] && s == s[..k + 1] + s[k + 1..];
    EncodedConcat(s[..k], [s[k]]);
    EncodedOne(s[k]);
    EncodedConcat(s[..k + 1], s[k + 1..]);
    EncodeShape(s[k]);
    assert Encoded(s) == a + c + b;
    assert Encoded(s)[p] == c[p - |a|];
  }

  /** Cutting the bytes where a character ends cuts the text there. */
  lemma DecodeHalves(s: string, k: nat)
    requires k <= |s|
    ensures var e := Size(s[..k]);
            e <= |Encoded(s)| && Decode(Encoded(s)[..e]) == s[..k] && Decode(Encoded(s)[e..]) == s[k..]
  {
    SizeIs(s[..k]);
    assert s == s[..k] + s[k..];
    EncodedConcat(s[..k], s[k..]);
    DecodeEncoded(s[..k]);
    DecodeEncoded(s[k..]);
    var e := Size(s[..k]);
    assert Encoded(s)[..e] == Encoded(s[..k]) && Encoded(s)[e..] == Encoded(s[k..]);
  }
}
