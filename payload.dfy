/** `processBinaryData` of the viewer's broker client: the cleanup that turns a
    message attachment into base64 text. A text attachment loses its
    whitespace, a `Kn` artifact in front of a JPEG signature, its percent
    escapes (when it has any and they decode) and any garbage in front of a
    JPEG or PNG signature; a byte buffer is turned into a binary string chunk by
    chunk and then base64-encoded. */
module Payload {
  import opened Strings
  import opened Base64

  /** The artifact `Kn` immediately followed by the JPEG signature. */
  const KnJpegPrefix: string := "Kn/9j/"
  /** Bytes converted to characters per `String.fromCharCode` call. */
  const ChunkSize: nat := 1024

  /** What the transport hands over: text, or a byte buffer (an `ArrayBuffer`
      or the bytes underlying a `Uint8Array`). */
  datatype Attachment = Text(text: string) | Bytes(bytes: seq<byte>)

  /** `decodeURIComponent`: the decoded text, or `None` where it throws. */
  type UriDecoder = string -> Option<string>

  function Min(a: int, b: int): int {
    if a <= b then a else b
  }

  /** `String.fromCharCode(...bytes)`: one character per byte, code = byte value. */
  function FromCharCodes(b: seq<byte>): (r: string)
    ensures |r| == |b|
    ensures forall i :: 0 <= i < |b| ==> r[i] as int == b[i] as int
  {
    seq(|b|, i requires 0 <= i < |b| => (b[i] as int) as char)
  }

  /** Chunking is invisible: converting two pieces and joining them is
      converting the joined bytes. */
  lemma FromCharCodesAppend(a: seq<byte>, b: seq<byte>)
    ensures FromCharCodes(a + b) == FromCharCodes(a) + FromCharCodes(b)
  {
    var l, r := FromCharCodes(a + b), FromCharCodes(a) + FromCharCodes(b);
    assert |l| == |r|;
    forall i | 0 <= i < |l| ensures l[i] == r[i] {
      if i < |a| {
        assert (a + b)[i] == a[i];
      } else {
        assert (a + b)[i] == b[i - |a|];
      }
    }
  }

  /** A "binary string": every character code fits in a byte. */
  predicate IsBinaryString(s: string) {
    forall i :: 0 <= i < |s| ==> s[i] as int < 256
  }

  function CharCodes(s: string): (r: seq<byte>)
    requires IsBinaryString(s)
    ensures |r| == |s|
  {
    seq(|s|, i requires 0 <= i < |s| => (s[i] as int) as bv8)
  }

  /** `btoa`: base64 of the character codes of a binary string; it throws
      (`None`) on any character above U+00FF. */
  function Btoa(s: string): (r: Option<string>)
    ensures r.None? <==> !IsBinaryString(s)
  {
    if IsBinaryString(s) then Some(Encode(CharCodes(s))) else None
  }

  /** `btoa` of the characters of a byte buffer never throws and is the
      RFC 4648 base64 of the buffer. */
  lemma BtoaOfCharCodes(b: seq<byte>)
    ensures Btoa(FromCharCodes(b)) == Some(Encode(b))
  {
    var s := FromCharCodes(b);
    assert CharCodes(s) == b;
  }

  /** The `Kn` step: two characters go exactly when the text starts with
      `Kn/9j/`, and what is left then starts with the JPEG signature. */
  function StripKnArtifact(t: string): (r: string)
    ensures StartsWith(t, KnJpegPrefix) ==> t == "Kn" + r && StartsWith(r, JpegSignature)
    ensures !StartsWith(t, KnJpegPrefix) ==> r == t
    ensures |r| == |t| - 2 <==> StartsWith(t, KnJpegPrefix)
  {
    if StartsWith(t, KnJpegPrefix) then
      assert t == t[..2] + t[2..] && t[2..][..4] == t[2..6];
      t[2..]
    else t
  }

  /** The percent step: the decoder is consulted only for text with a `%`,
      and a failed decode leaves the text as it was. */
  function DecodePercent(t: string, decodeUri: UriDecoder): (r: string)
    ensures r != t ==> Contains(t, "%") && decodeUri(t) == Some(r)
    ensures Contains(t, "%") && decodeUri(t).Some? ==> r == decodeUri(t).value
  {
    if Contains(t, "%") then
      match decodeUri(t)
      case Some(d) => d
      case None => t
    else t
  }

  /** Text without a percent sign: the decoder is never consulted for it. */
  predicate NoPercent(s: string) {
    forall i :: 0 <= i < |s| ==> s[i] != '%'
  }

  /** One truncation: cut away what precedes the first occurrence of `sig`,
      provided that occurrence is not at offset 0. */
  function CutAtSignature(s: string, sig: string): (r: string)
    ensures IsSuffix(r, s)
    ensures IndexOf(s, sig) > 0 ==> StartsWith(r, sig) && |r| == |s| - IndexOf(s, sig)
    ensures IndexOf(s, sig) <= 0 ==> r == s
  {
    var k := IndexOf(s, sig);
    if k > 0 then
      assert s[k..][..|sig|] == s[k..k + |sig|];
      s[k..]
    else s
  }

  /** The text after whitespace removal, the `Kn` step and the percent step. */
  function Decoded(s: string, decodeUri: UriDecoder): string {
    DecodePercent(StripKnArtifact(RemoveWhitespace(s)), decodeUri)
  }

  /** The signature truncations, JPEG first and then PNG on what is left. */
  function Truncated(u: string): string {
    CutAtSignature(CutAtSignature(u, JpegSignature), PngSignature)
  }

  /** What `processBinaryData` returns. */
  function Processed(a: Attachment, decodeUri: UriDecoder): (r: string)
    ensures a.Bytes? ==> Decode(r) == Some(a.bytes)
    ensures a.Text? ==> IsSuffix(r, Decoded(a.text, decodeUri))
  {
    match a
    case Text(s) =>
      var u := Decoded(s, decodeUri);
      var v := CutAtSignature(u, JpegSignature);
      SuffixTransitive(CutAtSignature(v, PngSignature), v, u);
      Truncated(u)
    case Bytes(b) =>
      DecodeEncode(b);
      Encode(b)
  }

  /** The cleanup as the viewer runs it: step-by-step reassignment of
      the text, or a chunked conversion of the buffer followed by `btoa`. */
  method ProcessBinaryData(binaryData: Attachment, decodeUri: UriDecoder) returns (base64Data: string)
    ensures binaryData.Bytes? ==> base64Data == Encode(binaryData.bytes)
    ensures binaryData.Text? ==> base64Data == Truncated(Decoded(binaryData.text, decodeUri))
  {
    match binaryData
    case Text(text) =>
      base64Data := RemoveWhitespace(text);
      ghost var w := base64Data;
      if StartsWith(base64Data, KnJpegPrefix) {
        base64Data := base64Data[2..];
      }
      assert base64Data == StripKnArtifact(w);
      ghost var k := base64Data;
      if Contains(base64Data, "%") {
        var decoded := decodeUri(base64Data);
        if decoded.Some? {
          base64Data := decoded.value;
        }
      }
      assert base64Data == DecodePercent(k, decodeUri);
      ghost var u := base64Data;
      var jpegHeaderIndex := IndexOf(base64Data, JpegSignature);
      if jpegHeaderIndex > 0 {
        base64Data := base64Data[jpegHeaderIndex..];
      }
      assert base64Data == CutAtSignature(u, JpegSignature);
      ghost var v := base64Data;
      var pngHeaderIndex := IndexOf(base64Data, PngSignature);
      if pngHeaderIndex > 0 {
        base64Data := base64Data[pngHeaderIndex..];
      }
      assert base64Data == CutAtSignature(v, PngSignature);
    case Bytes(bytes) =>
      var binary := BinaryString(bytes);
      BtoaOfCharCodes(bytes);
      base64Data := Btoa(binary).value;
  }

  /** The chunk loop: the bytes become a binary string `ChunkSize` bytes at a
      time, and the result is the same as converting them all at once. */
  method BinaryString(bytes: seq<byte>) returns (binary: string)
    ensures binary == FromCharCodes(bytes)
  {
    binary := "";
    var i := 0;
    while i < |bytes|
      invariant 0 <= i
      invariant binary == FromCharCodes(bytes[..Min(i, |bytes|)])
    {
      var end := Min(i + ChunkSize, |bytes|);
      var chunk := bytes[i..end];
      assert bytes[..end] == bytes[..i] + chunk;
      FromCharCodesAppend(bytes[..i], chunk);
      binary := binary + FromCharCodes(chunk);
      i := i + ChunkSize;
    }
    assert bytes[..Min(i, |bytes|)] == bytes;
  }


  /** When the decoder is not consulted, or fails, the text keeps no
      whitespace. */
  lemma UndecodedTextIsWhitespaceFree(s: string, decodeUri: UriDecoder)
    requires var k := StripKnArtifact(RemoveWhitespace(s)); !Contains(k, "%") || decodeUri(k).None?
    ensures NoWhitespace(Processed(Text(s), decodeUri))
  {
    var w := RemoveWhitespace(s);
    var k := StripKnArtifact(w);
    assert IsSuffix(k, w);
    SuffixKeepsNoWhitespace(k, w);
    SuffixKeepsNoWhitespace(Processed(Text(s), decodeUri), k);
  }

  /** Text without a `%` comes out whitespace-free, and the decoder plays no
      part in it. */
  lemma NoPercentIgnoresDecoder(s: string, d1: UriDecoder, d2: UriDecoder)
    requires NoPercent(s)
    ensures NoWhitespace(Processed(Text(s), d1))
    ensures Processed(Text(s), d1) == Processed(Text(s), d2)
  {
    var w := RemoveWhitespace(s);
    var k := StripKnArtifact(w);
    assert IsSuffix(k, w);
    forall i | 0 <= i < |k| ensures k[i] != '%' {
      assert k[i] == w[|w| - |k| + i];
    }
    NotContainsChar(k, '%');
    UndecodedTextIsWhitespaceFree(s, d1);
  }

  /** Whenever the decoded text holds a JPEG or a PNG signature, the result
      starts with one. */
  lemma SignatureAtFront(u: string)
    requires Contains(u, JpegSignature) || Contains(u, PngSignature)
    ensures StartsWith(Truncated(u), JpegSignature) || StartsWith(Truncated(u), PngSignature)
  {
    var j := IndexOf(u, JpegSignature);
    var v := CutAtSignature(u, JpegSignature);
    var p := IndexOf(v, PngSignature);
    StartsWithIsIndexZero(u, JpegSignature);
    StartsWithIsIndexZero(v, PngSignature);
    if j == -1 {
      assert v == u;
      assert Contains(v, PngSignature);
    }
  }

  /** A JPEG signature alone survives: the result starts with it. */
  lemma JpegOnlyRecovered(u: string)
    requires Contains(u, JpegSignature) && !Contains(u, PngSignature)
    ensures StartsWith(Truncated(u), JpegSignature)
    ensures IsSuffix(Truncated(u), u)
  {
    var v := CutAtSignature(u, JpegSignature);
    if Contains(v, PngSignature) {
      var at :| 0 <= at <= |v| - |PngSignature| && OccursAt(v, PngSignature, at);
      var off := |u| - |v|;
      assert v[at..at + |PngSignature|] == u[off + at..off + at + |PngSignature|];
      assert OccursAt(u, PngSignature, off + at);
    }
    SignatureAtFront(u);
    StartsWithIsIndexZero(v, PngSignature);
  }

  /** The PNG truncation runs after the JPEG one: a text that is a JPEG
      from its first character but carries `iVBORw0K` further on is cut down
      to start at `iVBORw0K`, losing the JPEG header. */
  lemma PngCutOverridesJpeg(u: string)
    requires StartsWith(u, JpegSignature) && IndexOf(u, PngSignature) > 0
    ensures StartsWith(Truncated(u), PngSignature)
    ensures |Truncated(u)| < |u| && !StartsWith(Truncated(u), JpegSignature)
  {
    StartsWithIsIndexZero(u, JpegSignature);
    assert CutAtSignature(u, JpegSignature) == u;
    assert Truncated(u)[0] == 'i';
  }

  /** Clean JPEG text (whitespace-free, escape-free, no `iVBORw0K` after its
      start) passes through unchanged. */
  lemma CleanJpegUnchanged(s: string, decodeUri: UriDecoder)
    requires NoWhitespace(s) && StartsWith(s, JpegSignature)
    requires !Contains(s, "%") && IndexOf(s, PngSignature) <= 0
    ensures Processed(Text(s), decodeUri) == s
  {
    assert !StartsWith(s, KnJpegPrefix) by {
      assert s[0] == '/';
    }
    StartsWithIsIndexZero(s, JpegSignature);
  }

  /** The `Kn` artifact in front of clean JPEG text is removed, exactly. */
  lemma KnArtifactRemoved(rest: string, decodeUri: UriDecoder)
    requires NoWhitespace(JpegSignature + rest)
    requires !Contains(JpegSignature + rest, "%") && !Contains(JpegSignature + rest, PngSignature)
    ensures Processed(Text("Kn" + JpegSignature + rest), decodeUri) == JpegSignature + rest
  {
    var s := "Kn" + JpegSignature + rest;
    var j := JpegSignature + rest;
    assert NoWhitespace(s) by {
      forall i | 0 <= i < |s| ensures !IsJsWhitespace(s[i]) {
        if i >= 2 { assert s[i] == j[i - 2]; }
      }
    }
    assert s[..6] == KnJpegPrefix;
    assert s[2..] == j;
    assert j[..4] == JpegSignature;
    CleanJpegUnchanged(j, decodeUri);
  }

  /** Text already free of whitespace, the artifact and escapes reaches the
      truncations untouched. */
  lemma DecodedIsIdentity(u: string, decodeUri: UriDecoder)
    requires NoWhitespace(u) && !StartsWith(u, KnJpegPrefix)
    requires NoPercent(u)
    ensures Processed(Text(u), decodeUri) == Truncated(u)
  {
    NotContainsChar(u, '%');
  }

  lemma FirstCuts(u: string)
    requires u == "a/9j/iVBORw0K/9j/"
    ensures Truncated(u) == "iVBORw0K/9j/"
  {
    assert u[1..5] == JpegSignature;
    IndexOfByHead(u, JpegSignature, 1);
    CutAtIndex(u, JpegSignature, 1);
    var v := u[1..];
    assert v == "/9j/iVBORw0K/9j/";
    assert v[4..12] == PngSignature;
    IndexOfByHead(v, PngSignature, 4);
    CutAtIndex(v, PngSignature, 4);
    assert v[4..] == "iVBORw0K/9j/";
  }

  lemma CutAtIndex(s: string, sig: string, k: nat)
    requires IndexOf(s, sig) == k && k > 0
    ensures CutAtSignature(s, sig) == s[k..]
  {
  }

  lemma SecondCuts(r: string)
    requires r == "iVBORw0K/9j/"
    ensures Truncated(r) == "/9j/"
  {
    assert r[8..12] == JpegSignature;
    IndexOfByHead(r, JpegSignature, 8);
    var t := r[8..];
    assert CutAtSignature(r, JpegSignature) == t;
    assert !Contains(t, PngSignature);
  }

  lemma FirstPassExample(u: string, decodeUri: UriDecoder)
    requires u == "a/9j/iVBORw0K/9j/"
    ensures Processed(Text(u), decodeUri) == "iVBORw0K/9j/"
  {
    assert u[0] == 'a';
    DecodedIsIdentity(u, decodeUri);
    FirstCuts(u);
  }

  lemma SecondPassExample(r: string, decodeUri: UriDecoder)
    requires r == "iVBORw0K/9j/"
    ensures Processed(Text(r), decodeUri) == "/9j/"
  {
    assert r[0] == 'i';
    DecodedIsIdentity(r, decodeUri);
    SecondCuts(r);
  }

  /** Running the cleanup on its own output can cut again: the truncations
      are not idempotent. */
  lemma NotIdempotent(decodeUri: UriDecoder)
    ensures var once := Processed(Text("a/9j/iVBORw0K/9j/"), decodeUri);
            Processed(Text(once), decodeUri) != once
  {
    FirstPassExample("a/9j/iVBORw0K/9j/", decodeUri);
    SecondPassExample("iVBORw0K/9j/", decodeUri);
  }
}
