/** The base64 encoding of section 4 of RFC 4648 (alphabet `A-Z a-z 0-9 + /`,
    `=` padding), which both the publisher (`base64.b64encode`) and the viewer
    (`btoa`) produce, and its decoding, against which the encoding is checked. */
module Base64 {
  import opened Strings

  type byte = bv8

  /** The base64 text of the JPEG start-of-image bytes FF D8 FF. */
  const JpegSignature: string := "/9j/"
  /** The base64 text of the first six bytes of the PNG signature. */
  const PngSignature: string := "iVBORw0K"

  predicate IsSymbol(c: char) {
    ('A' <= c <= 'Z') || ('a' <= c <= 'z') || ('0' <= c <= '9') || c == '+' || c == '/'
  }

  function SymbolValue(c: char): (v: bv8)
    requires IsSymbol(c)
    ensures v < 64
  {
    if 'A' <= c <= 'Z' then (c as int - 'A' as int) as bv8
    else if 'a' <= c <= 'z' then (c as int - 'a' as int + 26) as bv8
    else if '0' <= c <= '9' then (c as int - '0' as int + 52) as bv8
    else if c == '+' then 62
    else 63
  }

  /** The symbol for a 6-bit value; `SymbolValue` reads it back. */
  function Symbol(v: bv8): (c: char)
    requires v < 64
    ensures IsSymbol(c) && SymbolValue(c) == v
  {
    if v < 26 then ('A' as int + v as int) as char
    else if v < 52 then ('a' as int + (v as int - 26)) as char
    else if v < 62 then ('0' as int + (v as int - 52)) as char
    else if v == 62 then '+'
    else '/'
  }

  /** Three bytes, 24 bits, as four symbols of six bits each, high bits first. */
  function EncodeGroup(b0: byte, b1: byte, b2: byte): (r: string)
    ensures |r| == 4 && forall i :: 0 <= i < 4 ==> IsSymbol(r[i])
  {
    [Symbol(b0 >> 2), Symbol(((b0 & 3) << 4) | (b1 >> 4)),
     Symbol(((b1 & 15) << 2) | (b2 >> 6)), Symbol(b2 & 63)]
  }

  predicate IsEncodedChar(c: char) {
    IsSymbol(c) || c == '='
  }

  /** RFC 4648 section 4: whole groups of three bytes, then one or two
      remaining bytes padded with `==` or `=`. */
  function Encode(b: seq<byte>): (r: string)
    ensures |r| == 4 * ((|b| + 2) / 3)
    ensures forall i :: 0 <= i < |r| ==> IsEncodedChar(r[i])
    decreases |b|
  {
    if |b| == 0 then []
    else if |b| == 1 then [Symbol(b[0] >> 2), Symbol((b[0] & 3) << 4), '=', '=']
    else if |b| == 2 then
      [Symbol(b[0] >> 2), Symbol(((b[0] & 3) << 4) | (b[1] >> 4)), Symbol((b[1] & 15) << 2), '=']
    else
      var g, rest := EncodeGroup(b[0], b[1], b[2]), Encode(b[3..]);
      GroupCount(|b|);
      EncodedConcat(g, rest);
      g + rest
  }

  lemma GroupCount(n: int)
    requires n >= 3
    ensures 4 * ((n + 2) / 3) == 4 + 4 * ((n - 3 + 2) / 3)
  {
  }

  lemma EncodedConcat(g: string, rest: string)
    requires |g| == 4 && forall i :: 0 <= i < 4 ==> IsSymbol(g[i])
    requires forall i :: 0 <= i < |rest| ==> IsEncodedChar(rest[i])
    ensures forall i :: 0 <= i < |g + rest| ==> IsEncodedChar((g + rest)[i])
  {
    forall i | 0 <= i < |g + rest| ensures IsEncodedChar((g + rest)[i]) {
      if i >= 4 {
        assert (g + rest)[i] == rest[i - 4];
      }
    }
  }

  /** Four symbols back to one, two or three bytes; padding is allowed only
      in the `last` group. */
  function DecodeQuad(q: string, last: bool): Option<seq<byte>>
    requires |q| == 4
  {
    if !IsSymbol(q[0]) || !IsSymbol(q[1]) then None
    else
      var v0, v1 := SymbolValue(q[0]), SymbolValue(q[1]);
      var b0 := (v0 << 2) | (v1 >> 4);
      if last && q[2] == '=' && q[3] == '=' then Some([b0])
      else if !IsSymbol(q[2]) then None
      else
        var v2 := SymbolValue(q[2]);
        var b1 := ((v1 & 15) << 4) | (v2 >> 2);
        if last && q[3] == '=' then Some([b0, b1])
        else if !IsSymbol(q[3]) then None
        else Some([b0, b1, ((v2 & 3) << 6) | SymbolValue(q[3])])
  }

  function Decode(t: string): Option<seq<byte>>
    decreases |t|
  {
    if |t| == 0 then Some([])
    else if |t| < 4 then None
    else
      match DecodeQuad(t[..4], |t| == 4)
      case None => None
      case Some(g) =>
        match Decode(t[4..])
        case None => None
        case Some(rest) => Some(g + rest)
  }

  /** The bit identities behind decoding one group: the four 6-bit values
      of `EncodeGroup` put back together give the three bytes. */
  lemma GroupBits(b0: byte, b1: byte, b2: byte)
    ensures var v0, v1, v2 := b0 >> 2, ((b0 & 3) << 4) | (b1 >> 4), ((b1 & 15) << 2) | (b2 >> 6);
      && (v0 << 2) | (v1 >> 4) == b0
      && ((v1 & 15) << 4) | (v2 >> 2) == b1
      && ((v2 & 3) << 6) | (b2 & 63) == b2
  {
  }

  /** Four symbols decode to three bytes, padding or not. */
  lemma DecodeFullQuad(q: string, last: bool)
    requires |q| == 4 && IsSymbol(q[0]) && IsSymbol(q[1]) && IsSymbol(q[2]) && IsSymbol(q[3])
    ensures var v0, v1, v2, v3 := SymbolValue(q[0]), SymbolValue(q[1]), SymbolValue(q[2]), SymbolValue(q[3]);
      DecodeQuad(q, last) == Some([(v0 << 2) | (v1 >> 4), ((v1 & 15) << 4) | (v2 >> 2), ((v2 & 3) << 6) | v3])
  {
    assert q[2] != '=' && q[3] != '=';
  }

  lemma GroupRoundTrip(b0: byte, b1: byte, b2: byte, last: bool)
    ensures DecodeQuad(EncodeGroup(b0, b1, b2), last) == Some([b0, b1, b2])
  {
    var q := EncodeGroup(b0, b1, b2);
    DecodeFullQuad(q, last);
    GroupBits(b0, b1, b2);
    assert SymbolValue(q[0]) == b0 >> 2;
    assert SymbolValue(q[1]) == ((b0 & 3) << 4) | (b1 >> 4);
    assert SymbolValue(q[2]) == ((b1 & 15) << 2) | (b2 >> 6);
    assert SymbolValue(q[3]) == b2 & 63;
  }

  lemma DecodeLastQuad(t: string)
    requires |t| == 4
    ensures Decode(t) == DecodeQuad(t, true)
  {
    assert t[..4] == t && t[4..] == [];
    match DecodeQuad(t, true)
    case None =>
    case Some(g) => assert g + [] == g;
  }

  lemma DecodePaddedTwice(q: string)
    requires |q| == 4 && IsSymbol(q[0]) && IsSymbol(q[1]) && q[2] == '=' && q[3] == '='
    ensures DecodeQuad(q, true) == Some([(SymbolValue(q[0]) << 2) | (SymbolValue(q[1]) >> 4)])
  {
  }

  lemma DecodePaddedOnce(q: string)
    requires |q| == 4 && IsSymbol(q[0]) && IsSymbol(q[1]) && IsSymbol(q[2]) && q[3] == '='
    ensures var v0, v1, v2 := SymbolValue(q[0]), SymbolValue(q[1]), SymbolValue(q[2]);
      DecodeQuad(q, true) == Some([(v0 << 2) | (v1 >> 4), ((v1 & 15) << 4) | (v2 >> 2)])
  {
  }

  lemma TailRoundTrip1(b0: byte)
    ensures DecodeQuad([Symbol(b0 >> 2), Symbol((b0 & 3) << 4), '=', '='], true) == Some([b0])
  {
    var q := [Symbol(b0 >> 2), Symbol((b0 & 3) << 4), '=', '='];
    DecodePaddedTwice(q);
    assert SymbolValue(q[0]) == b0 >> 2 && SymbolValue(q[1]) == (b0 & 3) << 4;
    assert ((b0 >> 2) << 2) | (((b0 & 3) << 4) >> 4) == b0;
  }

  lemma TailRoundTrip2(b0: byte, b1: byte)
    ensures DecodeQuad([Symbol(b0 >> 2), Symbol(((b0 & 3) << 4) | (b1 >> 4)), Symbol((b1 & 15) << 2), '='], true)
         == Some([b0, b1])
  {
    var q := [Symbol(b0 >> 2), Symbol(((b0 & 3) << 4) | (b1 >> 4)), Symbol((b1 & 15) << 2), '='];
    DecodePaddedOnce(q);
    assert SymbolValue(q[0]) == b0 >> 2;
    assert SymbolValue(q[1]) == ((b0 & 3) << 4) | (b1 >> 4);
    assert SymbolValue(q[2]) == (b1 & 15) << 2;
    assert ((b0 >> 2) << 2) | ((((b0 & 3) << 4) | (b1 >> 4)) >> 4) == b0;
    assert (((((b0 & 3) << 4) | (b1 >> 4)) & 15) << 4) | (((b1 & 15) << 2) >> 2) == b1;
  }

  lemma DecodeAfterGroup(b0: byte, b1: byte, b2: byte, rest: string)
    ensures Decode(EncodeGroup(b0, b1, b2) + rest)
         == match Decode(rest) case None => None case Some(r) => Some([b0, b1, b2] + r)
  {
    var t := EncodeGroup(b0, b1, b2) + rest;
    assert t[..4] == EncodeGroup(b0, b1, b2) && t[4..] == rest;
    GroupRoundTrip(b0, b1, b2, |t| == 4);
  }

  lemma EncodeOne(b: seq<byte>)
    requires |b| == 1
    ensures Encode(b) == [Symbol(b[0] >> 2), Symbol((b[0] & 3) << 4), '=', '=']
  {
  }

  lemma DecodeOne(b: seq<byte>, t: string)
    requires |b| == 1 && t == [Symbol(b[0] >> 2), Symbol((b[0] & 3) << 4), '=', '=']
    ensures Decode(t) == Some(b)
  {
    TailRoundTrip1(b[0]);
    DecodeLastQuad(t);
    assert b == [b[0]];
  }

  lemma DecodeEncodeOne(b: seq<byte>)
    requires |b| == 1
    ensures Decode(Encode(b)) == Some(b)
  {
    EncodeOne(b);
    DecodeOne(b, Encode(b));
  }

  lemma EncodeTwo(b: seq<byte>)
    requires |b| == 2
    ensures Encode(b) == [Symbol(b[0] >> 2), Symbol(((b[0] & 3) << 4) | (b[1] >> 4)), Symbol((b[1] & 15) << 2), '=']
  {
  }

  lemma DecodeTwo(b0: byte, b1: byte, t: string)
    requires t == [Symbol(b0 >> 2), Symbol(((b0 & 3) << 4) | (b1 >> 4)), Symbol((b1 & 15) << 2), '=']
    ensures Decode(t) == Some([b0, b1])
  {
    TailRoundTrip2(b0, b1);
    DecodeLastQuad(t);
  }

  lemma DecodeEncodeTwo(b: seq<byte>)
    requires |b| == 2
    ensures Decode(Encode(b)) == Some(b)
  {
    EncodeTwo(b);
    DecodeTwo(b[0], b[1], Encode(b));
    assert b == [b[0], b[1]];
  }

  /** Decoding undoes encoding, so the encoding loses no byte. */
  lemma {:induction false} DecodeEncode(b: seq<byte>)
    ensures Decode(Encode(b)) == Some(b)
    decreases |b|
  {
    if |b| == 1 {
      DecodeEncodeOne(b);
    } else if |b| == 2 {
      DecodeEncodeTwo(b);
    } else if |b| >= 3 {
      var tail := b[3..];
      EncodeFirstGroup(b);
      DecodeAfterGroup(b[0], b[1], b[2], Encode(tail));
      DecodeEncode(tail);
      assert b == [b[0], b[1], b[2]] + tail;
    }
  }

  lemma EncodeFirstGroup(x: seq<byte>)
    requires |x| >= 3
    ensures Encode(x) == EncodeGroup(x[0], x[1], x[2]) + Encode(x[3..])
  {
  }

  /** Text that opens with an encoded group and decodes to `b` decodes the
      group to the first three bytes of `b`. */
  lemma DecodedGroupPrefix(t: string, g: string, b: seq<byte>, x0: byte, x1: byte, x2: byte)
    requires g == EncodeGroup(x0, x1, x2) && StartsWith(t, g)
    requires Decode(t) == Some(b)
    ensures |b| >= 3 && b[0] == x0 && b[1] == x1 && b[2] == x2
    ensures Decode(t[4..]) == Some(b[3..])
  {
    var rest := t[4..];
    PrefixSplit(t, g);
    DecodeAfterGroup(x0, x1, x2, rest);
    var r := Decode(rest).value;
    assert b == [x0, x1, x2] + r;
    assert b[3..] == r;
  }

  lemma PrefixSplit(t: string, g: string)
    requires StartsWith(t, g)
    ensures t == g + t[|g|..]
  {
    assert t == t[..|g|] + t[|g|..];
  }

  /** Encoded text can open with a full group only if the bytes open with
      that group's three bytes. */
  lemma EncodedGroupPrefix(b: seq<byte>, x0: byte, x1: byte, x2: byte)
    requires StartsWith(Encode(b), EncodeGroup(x0, x1, x2))
    ensures |b| >= 3 && b[0] == x0 && b[1] == x1 && b[2] == x2
  {
    DecodeEncode(b);
    DecodedGroupPrefix(Encode(b), EncodeGroup(x0, x1, x2), b, x0, x1, x2);
  }

  /** Base64 text opens with `/9j/` exactly when the bytes open with FF D8 FF,
      the JPEG start-of-image marker. */
  lemma JpegHeaderEncoding(b: seq<byte>)
    ensures StartsWith(Encode(b), JpegSignature) <==> |b| >= 3 && b[0] == 0xFF && b[1] == 0xD8 && b[2] == 0xFF
  {
    JpegSignatureGroup();
    if |b| >= 3 && b[0] == 0xFF && b[1] == 0xD8 && b[2] == 0xFF {
      EncodeFirstGroup(b);
      GroupOpens(EncodeGroup(0xFF, 0xD8, 0xFF), Encode(b[3..]));
    }
    if StartsWith(Encode(b), JpegSignature) {
      EncodedGroupPrefix(b, 0xFF, 0xD8, 0xFF);
    }
  }

  lemma JpegSignatureGroup()
    ensures EncodeGroup(0xFF, 0xD8, 0xFF) == JpegSignature
  {
  }

  lemma GroupOpens(g: string, rest: string)
    ensures StartsWith(g + rest, g)
  {
    assert (g + rest)[..|g|] == g;
  }

  /** The six bytes of the PNG signature that fix its first eight symbols. */
  predicate OpensWithPngSignature(b: seq<byte>) {
    |b| >= 6 && b[0] == 0x89 && b[1] == 0x50 && b[2] == 0x4E && b[3] == 0x47 && b[4] == 0x0D && b[5] == 0x0A
  }

  lemma PngSignatureGroups()
    ensures PngSignature == EncodeGroup(0x89, 0x50, 0x4E) + EncodeGroup(0x47, 0x0D, 0x0A)
  {
    assert EncodeGroup(0x89, 0x50, 0x4E) == "iVBO";
    assert EncodeGroup(0x47, 0x0D, 0x0A) == "Rw0K";
  }

  lemma PngBytesEncodeToSignature(b: seq<byte>)
    requires OpensWithPngSignature(b)
    ensures StartsWith(Encode(b), PngSignature)
  {
    PngSignatureGroups();
    var t := b[3..];
    assert Encode(b) == EncodeGroup(0x89, 0x50, 0x4E) + Encode(t);
    assert Encode(t) == EncodeGroup(0x47, 0x0D, 0x0A) + Encode(t[3..]);
  }

  lemma TwoGroupPrefix(t: string, b: seq<byte>, x0: byte, x1: byte, x2: byte, x3: byte, x4: byte, x5: byte)
    requires StartsWith(t, EncodeGroup(x0, x1, x2) + EncodeGroup(x3, x4, x5))
    requires Decode(t) == Some(b)
    ensures |b| >= 6 && b[0] == x0 && b[1] == x1 && b[2] == x2 && b[3] == x3 && b[4] == x4 && b[5] == x5
  {
    var g1 := EncodeGroup(x0, x1, x2);
    var g2 := EncodeGroup(x3, x4, x5);
    var u := t[4..];
    var c := b[3..];
    assert t[..4] == (g1 + g2)[..4] == g1;
    DecodedGroupPrefix(t, g1, b, x0, x1, x2);
    assert u[..4] == (g1 + g2)[4..] == g2;
    DecodedGroupPrefix(u, g2, c, x3, x4, x5);
    assert b[3] == c[0] && b[4] == c[1] && b[5] == c[2];
  }

  lemma PngSignatureDecodesToBytes(b: seq<byte>)
    requires StartsWith(Encode(b), PngSignature)
    ensures OpensWithPngSignature(b)
  {
    PngSignatureGroups();
    DecodeEncode(b);
    TwoGroupPrefix(Encode(b), b, 0x89, 0x50, 0x4E, 0x47, 0x0D, 0x0A);
  }

  /** Base64 text opens with `iVBORw0K` exactly when the bytes open with
      89 50 4E 47 0D 0A, the first six bytes of the PNG signature. */
  lemma PngHeaderEncoding(b: seq<byte>)
    ensures StartsWith(Encode(b), PngSignature) <==> OpensWithPngSignature(b)
  {
    if OpensWithPngSignature(b) {
      PngBytesEncodeToSignature(b);
    }
    if StartsWith(Encode(b), PngSignature) {
      PngSignatureDecodesToBytes(b);
    }
  }
}
