/** The card that renders one image record: the effect that cleans the
    record's base64 text a second time and picks the `data:` URL type
    (`data:image/jpeg;base64,` or `data:image/png;base64,`, the base64 form of
    section 3 of RFC 2397), the `loading`/`error`/`imageUrl` state it writes,
    and the Format label of the details dialog. */
module ImageCard {
  import opened Strings
  import opened Base64
  import opened Payload

  const JpegDataUrlPrefix: string := "data:image/jpeg;base64,"
  const PngDataUrlPrefix: string := "data:image/png;base64,"

  /** The `base64Data` prop: a string or some other JavaScript value. */
  datatype Prop = StringProp(text: string) | NonString

  /** The card's cleanup: the `Kn` step first, then whitespace removal, then
      the percent step. It agrees with the broker client's cleanup unless
      whitespace in the raw text hides a `Kn/9j/` prefix from the first step. */
  function CardCleaned(s: string, decodeUri: UriDecoder): (r: string)
    ensures StartsWith(s, KnJpegPrefix) || !StartsWith(RemoveWhitespace(s), KnJpegPrefix) ==>
      r == Decoded(s, decodeUri)
  {
    KnBeforeBlanks(s);
    DecodePercent(RemoveWhitespace(StripKnArtifact(s)), decodeUri)
  }

  /** On text that opens with the artifact, removing whitespace before or
      after the `Kn` step makes no difference. */
  lemma KnBeforeBlanks(s: string)
    ensures StartsWith(s, KnJpegPrefix) ==>
      RemoveWhitespace(StripKnArtifact(s)) == StripKnArtifact(RemoveWhitespace(s))
  {
    if StartsWith(s, KnJpegPrefix) {
      var t := s[6..];
      assert s == KnJpegPrefix + t;
      CleanSignature(KnJpegPrefix);
      CleanSignature(JpegSignature);
      RemoveWhitespaceAppend(KnJpegPrefix, t);
      RemoveWhitespaceAppend(JpegSignature, t);
      StripsArtifact(t);
      StripsArtifact(RemoveWhitespace(t));
    }
  }

  lemma CleanSignature(p: string)
    requires p == KnJpegPrefix || p == JpegSignature
    ensures RemoveWhitespace(p) == p
  {
    assert NoWhitespace(p);
  }

  /** The JPEG test of the effect. Its first test is subsumed by the search. */
  predicate LooksLikeJpeg(c: string)
    ensures LooksLikeJpeg(c) <==> Contains(c, JpegSignature) || StartsWith(c, "9j/")
  {
    StartsWithIsIndexZero(c, JpegSignature);
    StartsWith(c, JpegSignature) || StartsWith(c, "9j/") || IndexOf(c, JpegSignature) > -1
  }

  /** The PNG test, reached only when the JPEG test fails. */
  predicate LooksLikePng(c: string)
    ensures LooksLikePng(c) <==> Contains(c, PngSignature)
  {
    StartsWithIsIndexZero(c, PngSignature);
    StartsWith(c, PngSignature) || IndexOf(c, PngSignature) > -1
  }

  /** The URL the effect stores for cleaned text `c`: the whole text behind
      the JPEG prefix, unless only the PNG test passes. The last branch searches `c` for `/9j/` again and would keep only the part
      from there on; the JPEG test has already failed, so the search finds
      nothing and the whole text is used. */
  function ImageUrl(c: string): (url: string)
    ensures url == (if !LooksLikeJpeg(c) && LooksLikePng(c) then PngDataUrlPrefix else JpegDataUrlPrefix) + c
  {
    if LooksLikeJpeg(c) then JpegDataUrlPrefix + c
    else if LooksLikePng(c) then PngDataUrlPrefix + c
    else JpegDataUrlPrefix + c
  }

  /** The detail dialog's Format label. */
  function FormatLabel(imageUrl: string): (format: string)
    ensures format == "PNG" <==> StartsWith(imageUrl, "data:image/png")
    ensures format == "JPEG" <==> StartsWith(imageUrl, "data:image/jpeg")
    ensures format == "Unknown" <==> !StartsWith(imageUrl, "data:image/png") && !StartsWith(imageUrl, "data:image/jpeg")
  {
    if StartsWith(imageUrl, "data:image/png") then
      assert imageUrl[11] == 'p';
      "PNG"
    else if StartsWith(imageUrl, "data:image/jpeg") then "JPEG"
    else "Unknown"
  }

  /** A rendered URL is never labelled Unknown; it is PNG exactly when the
      PNG branch was taken. */
  lemma FormatOfImageUrl(c: string)
    ensures FormatLabel(ImageUrl(c)) == (if !LooksLikeJpeg(c) && Contains(c, PngSignature) then "PNG" else "JPEG")
  {
    var u := ImageUrl(c);
    if !LooksLikeJpeg(c) && Contains(c, PngSignature) {
      assert u[..14] == "data:image/png";
    } else {
      assert u[..15] == "data:image/jpeg";
      assert u[11] == 'j';
    }
  }

  /** The `Kn` step looks at the raw text: with whitespace in front, the
      artifact survives the card's cleanup (the broker client, which strips
      whitespace first, would remove it). */
  lemma LeadingWhitespaceKeepsArtifact(s: string, decodeUri: UriDecoder)
    requires |s| > 0 && IsJsWhitespace(s[0])
    ensures CardCleaned(s, decodeUri) == DecodePercent(RemoveWhitespace(s), decodeUri)
  {
    assert !StartsWith(s, KnJpegPrefix) by {
      assert s[0] != 'K';
    }
  }

  lemma CleanConcat(a: string, b: string)
    requires NoWhitespace(a) && NoPercent(a) && NoWhitespace(b) && NoPercent(b)
    ensures NoWhitespace(a + b) && NoPercent(a + b)
  {
    forall i | |a| <= i < |a + b| ensures (a + b)[i] == b[i - |a|] {
    }
  }

  lemma DropLeadingBlank(w: char, k: string)
    requires IsJsWhitespace(w) && NoWhitespace(k)
    ensures RemoveWhitespace([w] + k) == k
  {
    assert ([w] + k)[1..] == k;
  }

  lemma CardKeepsArtifact(w: char, rest: string, decodeUri: UriDecoder)
    requires IsJsWhitespace(w) && NoWhitespace(rest) && NoPercent(rest)
    ensures CardCleaned([w] + KnJpegPrefix + rest, decodeUri) == KnJpegPrefix + rest
  {
    var s := [w] + KnJpegPrefix + rest;
    var k := KnJpegPrefix + rest;
    assert s == [w] + k;
    CleanConcat(KnJpegPrefix, rest);
    DropLeadingBlank(w, k);
    LeadingWhitespaceKeepsArtifact(s, decodeUri);
    NotContainsChar(k, '%');
  }

  lemma StripsArtifact(rest: string)
    ensures StripKnArtifact(KnJpegPrefix + rest) == JpegSignature + rest
  {
    var k := KnJpegPrefix + rest;
    assert k[..|KnJpegPrefix|] == KnJpegPrefix;
    assert k[2..] == JpegSignature + rest;
  }

  lemma NoPercentUndecoded(t: string, decodeUri: UriDecoder)
    requires NoPercent(t)
    ensures DecodePercent(t, decodeUri) == t
  {
    NotContainsChar(t, '%');
  }

  lemma ClientRemovesArtifact(w: char, rest: string, decodeUri: UriDecoder)
    requires IsJsWhitespace(w) && NoWhitespace(rest) && NoPercent(rest)
    ensures Decoded([w] + KnJpegPrefix + rest, decodeUri) == JpegSignature + rest
  {
    var k := KnJpegPrefix + rest;
    assert [w] + KnJpegPrefix + rest == [w] + k;
    CleanConcat(KnJpegPrefix, rest);
    CleanConcat(JpegSignature, rest);
    DropLeadingBlank(w, k);
    StripsArtifact(rest);
    NoPercentUndecoded(JpegSignature + rest, decodeUri);
  }

  /** One leading blank is enough: the card passes `Kn/9j/...` on to the
      browser with the artifact in place, where the broker client's cleanup
      yields `/9j/...`. */
  lemma ArtifactSurvivesLeadingBlank(w: char, rest: string, decodeUri: UriDecoder)
    requires IsJsWhitespace(w) && NoWhitespace(rest) && NoPercent(rest)
    ensures CardCleaned([w] + KnJpegPrefix + rest, decodeUri) == KnJpegPrefix + rest
    ensures Decoded([w] + KnJpegPrefix + rest, decodeUri) == JpegSignature + rest
    ensures CardCleaned([w] + KnJpegPrefix + rest, decodeUri) != Decoded([w] + KnJpegPrefix + rest, decodeUri)
  {
    CardKeepsArtifact(w, rest, decodeUri);
    ClientRemovesArtifact(w, rest, decodeUri);
    assert (KnJpegPrefix + rest)[0] == 'K';
    assert (JpegSignature + rest)[0] == '/';
  }

  /** The card's render state. */
  class ImageCardView {
    var loading: bool
    var error: bool
    var imageUrl: string

    constructor ()
      ensures loading && !error && imageUrl == ""
    {
      loading, error, imageUrl := true, false, "";
    }

    /** The effect on `base64Data`: an empty or non-string value sets the
        error and stops loading; otherwise the URL is rebuilt, and the error
        is cleared on the JPEG and PNG branches only. */
    method RunEffect(base64Data: Prop, decodeUri: UriDecoder)
      modifies this
      ensures !(base64Data.StringProp? && |base64Data.text| > 0) ==>
        error && !loading && imageUrl == old(imageUrl)
      ensures base64Data.StringProp? && |base64Data.text| > 0 ==>
        var c := CardCleaned(base64Data.text, decodeUri);
        && loading
        && imageUrl == ImageUrl(c)
        && error == (if LooksLikeJpeg(c) || LooksLikePng(c) then false else old(error))
    {
      if base64Data.StringProp? && |base64Data.text| > 0 {
        loading := true;
        var cleanedData := base64Data.text;
        if StartsWith(cleanedData, KnJpegPrefix) {
          cleanedData := cleanedData[2..];
        }
        assert cleanedData == StripKnArtifact(base64Data.text);
        cleanedData := RemoveWhitespace(cleanedData);
        ghost var blankFree := cleanedData;
        if Contains(cleanedData, "%") {
          var decoded := decodeUri(cleanedData);
          if decoded.Some? {
            cleanedData := decoded.value;
          }
        }
        assert cleanedData == DecodePercent(blankFree, decodeUri);
        assert cleanedData == CardCleaned(base64Data.text, decodeUri);
        if LooksLikeJpeg(cleanedData) {
          imageUrl := JpegDataUrlPrefix + cleanedData;
          error := false;
        } else if LooksLikePng(cleanedData) {
          imageUrl := PngDataUrlPrefix + cleanedData;
          error := false;
        } else {
          var jpegIndex := IndexOf(cleanedData, JpegSignature);
          if jpegIndex > -1 {
            // excluded by the JPEG test above
            assert false;
          } else {
            imageUrl := JpegDataUrlPrefix + cleanedData;
          }
        }
      } else {
        error := true;
        loading := false;
      }
    }
  }
}
