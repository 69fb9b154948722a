/** The publisher script's logic between the file system and the broker:
    `read_image_to_base64` (encode the file, warn when a `.jpg`/`.jpeg`/`.png`
    file's text lacks the expected signature, `None` when the read fails) and
    the loop of `publish_images` that skips what could not be read and derives
    each message's topic, application message id and properties from the
    file name. Reading files and publishing are inputs and outputs: the loop
    takes what each read returned and yields the messages in publishing
    order. */
module Publisher {
  import opened Strings
  import opened Base64

  const TopicPrefix: string := "solace/images"
  const MessageIdPrefix: string := "image-"
  const ContentTypePrefix: string := "image/"
  const Base64Encoding: string := "base64"

  /** Python `s.rfind(c)`: the last offset holding `c`, or -1. */
  function LastIndexOf(s: string, c: char): (r: int)
    ensures -1 <= r < |s|
    ensures r >= 0 ==> s[r] == c
    ensures forall i :: r < i < |s| ==> s[i] != c
    decreases |s|
  {
    if |s| == 0 then -1
    else if s[|s| - 1] == c then |s| - 1
    else LastIndexOf(s[..|s| - 1], c)
  }

  /** The longest suffix of `s` without `c`: what follows its last `c`, or
      all of `s` when there is none. */
  function AfterLast(s: string, c: char): (tail: string)
    ensures IsSuffix(tail, s)
    ensures forall i :: 0 <= i < |tail| ==> tail[i] != c
    ensures |tail| < |s| ==> s[|s| - |tail| - 1] == c
  {
    s[LastIndexOf(s, c) + 1..]
  }

  /** `os.path.basename` with `/` as separator. */
  function Basename(path: string): string {
    AfterLast(path, '/')
  }

  /** `os.path.splitext(name)[1]` for a name without `/`: the text from the
      last dot on, or empty when there is no dot or only dots precede it (a
      leading dot marks a hidden file, not an extension). */
  function Extension(name: string): (ext: string)
    ensures ext == [] || (IsSuffix(ext, name) && ext[0] == '.' && forall i :: 0 < i < |ext| ==> ext[i] != '.')
    ensures ext != [] <==> exists i, j :: 0 <= i < j < |name| && name[i] != '.' && name[j] == '.'
  {
    var dot := LastIndexOf(name, '.');
    if dot > 0 && exists i :: 0 <= i < dot && name[i] != '.' then name[dot..] else []
  }

  /** The extension of a path: `splitext` only looks past the last `/`. */
  function PathExtension(path: string): string {
    Extension(Basename(path))
  }

  predicate IsJpegExtension(ext: string) {
    ext == ".jpg" || ext == ".jpeg"
  }

  /** The warning of `read_image_to_base64`: a JPEG-named file whose text
      lacks `/9j/`, or a PNG-named file whose text lacks `iVBORw0K`; the
      extension is compared lower-cased. */
  function SignatureWarning(path: string, base64Data: string): (warn: bool)
    ensures warn ==> IsJpegExtension(ToLower(PathExtension(path))) || ToLower(PathExtension(path)) == ".png"
  {
    var ext := ToLower(PathExtension(path));
    if IsJpegExtension(ext) then !StartsWith(base64Data, JpegSignature)
    else if ext == ".png" then !StartsWith(base64Data, PngSignature)
    else false
  }

  /** With the text produced from the file's bytes, the warning says exactly
      that a JPEG-named file does not open with FF D8 FF, or that a PNG-named
      file does not open with the first six bytes of the PNG signature. */
  lemma SignatureWarningOnBytes(path: string, data: seq<byte>)
    ensures var ext := ToLower(PathExtension(path));
      SignatureWarning(path, Encode(data)) <==>
        (IsJpegExtension(ext) && !(|data| >= 3 && data[0] == 0xFF && data[1] == 0xD8 && data[2] == 0xFF)) ||
        (ext == ".png" && !OpensWithPngSignature(data))
  {
    JpegHeaderEncoding(data);
    PngHeaderEncoding(data);
  }

  /** What a successful `read_image_to_base64` yields: the text, and whether
      the signature warning was printed. */
  datatype EncodedImage = EncodedImage(base64Data: string, warned: bool)

  /** `read_image_to_base64`: `contents` is what reading the file returned,
      `None` when the read raised. */
  function ReadImageToBase64(path: string, contents: Option<seq<byte>>): (r: Option<EncodedImage>)
    ensures r.None? <==> contents.None?
    ensures r.Some? ==> Decode(r.value.base64Data) == Some(contents.value)
    ensures r.Some? ==> r.value.warned == SignatureWarning(path, r.value.base64Data)
    ensures r.Some? ==> (r.value.base64Data == [] <==> contents.value == [])
  {
    match contents
    case None => None
    case Some(data) =>
      DecodeEncode(data);
      var base64Data := Encode(data);
      Some(EncodedImage(base64Data, SignatureWarning(path, base64Data)))
  }

  /** `filename.split('.')[-1]`: the text after the last dot, or the whole
      name when it has none. */
  function LastDotField(name: string): string {
    AfterLast(name, '.')
  }

  /** A message as the script builds it. */
  datatype OutboundMessage = OutboundMessage(
    topic: string, applicationMessageId: string,
    filename: string, contentType: string, encoding: string,
    payload: string)

  /** The message for the file at `path` with encoded text `base64Data`. */
  function MessageFor(path: string, base64Data: string): (m: OutboundMessage)
    ensures m.filename == Basename(path) && m.payload == base64Data && m.encoding == Base64Encoding
    ensures StartsWith(m.topic, TopicPrefix + "/") && m.topic[|TopicPrefix| + 1..] == m.filename
    ensures StartsWith(m.applicationMessageId, MessageIdPrefix) && m.applicationMessageId[|MessageIdPrefix|..] == m.filename
    ensures StartsWith(m.contentType, ContentTypePrefix) && m.contentType[|ContentTypePrefix|..] == ToLower(LastDotField(m.filename))
  {
    var filename := Basename(path);
    OutboundMessage(
      TopicPrefix + "/" + filename, MessageIdPrefix + filename,
      filename, ContentTypePrefix + ToLower(LastDotField(filename)), Base64Encoding,
      base64Data)
  }

  lemma LastIndexOfIs(t: string, c: char, k: nat)
    requires k < |t| && t[k] == c
    requires forall i :: k < i < |t| ==> t[i] != c
    ensures LastIndexOf(t, c) == k
  {
  }

  lemma SeparatorIsLast(p: string, c: char, f: string)
    requires forall i :: 0 <= i < |f| ==> f[i] != c
    ensures var t := p + [c] + f;
      |p| < |t| && t[|p|] == c && forall i :: |p| < i < |t| ==> t[i] != c
  {
    var t := p + [c] + f;
    forall i | |p| < i < |t| ensures t[i] != c {
      assert t[i] == f[i - |p| - 1];
    }
  }

  lemma LastIndexOfSeparator(p: string, c: char, f: string)
    requires forall i :: 0 <= i < |f| ==> f[i] != c
    ensures LastIndexOf(p + [c] + f, c) == |p|
  {
    SeparatorIsLast(p, c, f);
    LastIndexOfIs(p + [c] + f, c, |p|);
  }

  /** The topic's last level is the file name: everything after the prefix
      is one level, since a base name has no `/`. */
  lemma TopicLastLevelIsFilename(path: string, base64Data: string)
    ensures var m := MessageFor(path, base64Data);
      LastIndexOf(m.topic, '/') == |TopicPrefix| && m.topic[LastIndexOf(m.topic, '/') + 1..] == m.filename
  {
    var m := MessageFor(path, base64Data);
    LastIndexOfSeparator(TopicPrefix, '/', m.filename);
    assert m.topic == TopicPrefix + ['/'] + m.filename;
  }

  /** Files with different base names get different topics and different
      message ids. */
  lemma DistinctNamesDistinctMessages(p1: string, p2: string, d1: string, d2: string)
    requires Basename(p1) != Basename(p2)
    ensures MessageFor(p1, d1).topic != MessageFor(p2, d2).topic
    ensures MessageFor(p1, d1).applicationMessageId != MessageFor(p2, d2).applicationMessageId
  {
  }

  /** Where the file name has an extension, the content type names it; a
      name without a dot gives its whole lower-cased self. */
  lemma ContentTypeMatchesExtension(name: string)
    requires forall i :: 0 <= i < |name| ==> name[i] != '/'
    ensures Extension(name) != [] ==> LastDotField(name) == Extension(name)[1..]
    ensures (forall i :: 0 <= i < |name| ==> name[i] != '.') ==> LastDotField(name) == name
  {
    var dot := LastIndexOf(name, '.');
    if Extension(name) != [] {
      assert Extension(name) == name[dot..];
      assert LastDotField(name) == name[dot + 1..] == name[dot..][1..];
    }
  }

  /** A hidden file such as `.png`: no extension, so no signature check,
      while the content type still reads the text after the dot. */
  lemma HiddenFileHasNoExtension(rest: string)
    requires forall i :: 0 <= i < |rest| ==> rest[i] != '.' && rest[i] != '/'
    ensures Extension(['.'] + rest) == []
    ensures LastDotField(['.'] + rest) == rest
  {
    var name := ['.'] + rest;
    forall i, j | 0 <= i < j < |name| && name[i] != '.' ensures name[j] != '.' {
      assert name[j] == rest[j - 1];
    }
    assert name[0] == '.';
    forall i | 0 < i < |name| ensures name[i] != '.' {
      assert name[i] == rest[i - 1];
    }
    assert LastIndexOf(name, '.') == 0;
    assert name[1..] == rest;
  }

  /** One file the loop visits: its path, what reading it returned, and
      whether building or publishing its message raises. */
  datatype ImageFile = ImageFile(path: string, contents: Option<seq<byte>>, publishRaises: bool)

  /** What the loop publishes for one file: nothing when the read failed or
      the text is empty. */
  function PublishStep(f: ImageFile): (r: seq<OutboundMessage>)
    ensures |r| <= 1
    ensures r != [] ==> f.contents.Some? && r[0] == MessageFor(f.path, Encode(f.contents.value))
  {
    match ReadImageToBase64(f.path, f.contents)
    case None => []
    case Some(e) => if e.base64Data == [] then [] else [MessageFor(f.path, e.base64Data)]
  }

  lemma PublishStepOfRead(f: ImageFile, r: Option<EncodedImage>)
    requires r == ReadImageToBase64(f.path, f.contents)
    ensures PublishStep(f) == if r.Some? && r.value.base64Data != [] then [MessageFor(f.path, r.value.base64Data)] else []
  {
  }

  /** A file is skipped exactly when it could not be read or is empty;
      otherwise its message carries the file's bytes. */
  lemma PublishStepSkips(f: ImageFile)
    ensures PublishStep(f) == [] <==> f.contents.None? || f.contents.value == []
    ensures PublishStep(f) != [] ==>
      |PublishStep(f)| == 1 && Decode(PublishStep(f)[0].payload) == f.contents &&
      PublishStep(f)[0].filename == Basename(f.path)
  {
  }

  /** The messages for `files` in order, `step` giving each file's share. */
  function FlatMap(step: ImageFile -> seq<OutboundMessage>, files: seq<ImageFile>): seq<OutboundMessage>
    decreases |files|
  {
    if files == [] then []
    else FlatMap(step, files[..|files| - 1]) + step(files[|files| - 1])
  }

  lemma {:induction false} FlatMapAppend(step: ImageFile -> seq<OutboundMessage>, a: seq<ImageFile>, b: seq<ImageFile>)
    ensures FlatMap(step, a + b) == FlatMap(step, a) + FlatMap(step, b)
    decreases |b|
  {
    if b == [] {
      assert a + b == a;
    } else {
      var c := a + b;
      assert c[..|c| - 1] == a + b[..|b| - 1];
      assert c[|c| - 1] == b[|b| - 1];
      FlatMapAppend(step, a, b[..|b| - 1]);
    }
  }

  /** The messages published for `files`, in order. */
  function Published(files: seq<ImageFile>): seq<OutboundMessage> {
    FlatMap(PublishStep, files)
  }

  /** Publishing two batches in a row publishes their concatenation. */
  lemma PublishedAppend(a: seq<ImageFile>, b: seq<ImageFile>)
    ensures Published(a + b) == Published(a) + Published(b)
  {
    FlatMapAppend(PublishStep, a, b);
  }

  lemma FlatMapSkip(step: ImageFile -> seq<OutboundMessage>, a: seq<ImageFile>, f: ImageFile, b: seq<ImageFile>)
    requires step(f) == []
    ensures FlatMap(step, a + [f] + b) == FlatMap(step, a + b)
  {
    FlatMapAppend(step, a + [f], b);
    FlatMapAppend(step, a, [f]);
    FlatMapAppend(step, a, b);
    assert [f][..0] == [];
    assert FlatMap(step, [f]) == FlatMap(step, []) + step(f);
  }

  /** An unreadable or empty file anywhere in the list changes nothing that
      is published. */
  lemma SkippedFileChangesNothing(a: seq<ImageFile>, f: ImageFile, b: seq<ImageFile>)
    requires f.contents.None? || f.contents.value == []
    ensures Published(a + [f] + b) == Published(a + b)
  {
    PublishStepSkips(f);
    FlatMapSkip(PublishStep, a, f, b);
  }

  /** Every published message carries, exactly, the bytes of one of the
      files, and is named after it. */
  lemma {:induction false} PublishedCarriesFiles(files: seq<ImageFile>)
    ensures forall m :: m in Published(files) ==>
      exists k :: 0 <= k < |files| && Decode(m.payload) == files[k].contents && m.filename == Basename(files[k].path)
    decreases |files|
  {
    if files != [] {
      var init := files[..|files| - 1];
      var last := files[|files| - 1];
      PublishedCarriesFiles(init);
      PublishStepSkips(last);
      assert Published(files) == Published(init) + PublishStep(last);
      forall m | m in Published(files)
        ensures exists k :: 0 <= k < |files| && Decode(m.payload) == files[k].contents && m.filename == Basename(files[k].path)
      {
        if m in Published(init) {
          var k :| 0 <= k < |init| && Decode(m.payload) == init[k].contents && m.filename == Basename(init[k].path);
          assert files[k] == init[k];
        } else {
          assert m in PublishStep(last);
        }
      }
    }
  }

  /** A file that is read, is not empty, so that its message is built and
      published, and raises on the way: the `except Exception` around the
      loop ends it there. */
  predicate Raises(f: ImageFile) {
    f.contents.Some? && f.contents.value != [] && f.publishRaises
  }

  /** How many files the loop gets through: up to the first one that raises,
      or all of them. */
  function Attempted(files: seq<ImageFile>): (n: nat)
    ensures n <= |files|
    ensures forall i :: 0 <= i < n ==> !Raises(files[i])
    ensures n < |files| ==> Raises(files[n])
    decreases |files|
  {
    if files == [] then 0
    else if Raises(files[0]) then 0
    else
      var n := 1 + Attempted(files[1..]);
      assert forall i :: 1 <= i < |files| ==> files[i] == files[1..][i - 1];
      n
  }

  /** What a run that stops at a raise publishes is what a run without the
      raise would have published up to that file. */
  lemma StoppedRunIsPrefix(files: seq<ImageFile>)
    ensures var n := Attempted(files);
      Published(files) == Published(files[..n]) + Published(files[n..])
  {
    var n := Attempted(files);
    assert files[..n] + files[n..] == files;
    PublishedAppend(files[..n], files[n..]);
  }

  /** When no file raises, the loop gets through every file, so that it
      publishes `Published(files)`. */
  lemma NothingRaisedPublishesAll(files: seq<ImageFile>)
    requires forall i :: 0 <= i < |files| ==> !Raises(files[i])
    ensures Attempted(files) == |files| && files[..Attempted(files)] == files
  {
    AttemptedIs(files, |files|);
    assert files[..|files|] == files;
  }

  /** The loop of `publish_images` over the files, in order. It stops at the
      first file whose message raises; `completed` is whether the loop got
      through every file. */
  method PublishImages(files: seq<ImageFile>) returns (published: seq<OutboundMessage>, completed: bool)
    ensures published == Published(files[..Attempted(files)])
    ensures completed <==> Attempted(files) == |files|
  {
    published := [];
    completed := true;
    var k := 0;
    while k < |files| && completed
      invariant 0 <= k <= |files|
      invariant forall i :: 0 <= i < k ==> !Raises(files[i])
      invariant published == Published(files[..k])
      invariant !completed ==> k < |files| && Raises(files[k])
      decreases |files| - k, completed
    {
      var imagePath := files[k].path;
      var base64Data := ReadImageToBase64(imagePath, files[k].contents);
      PublishStepOfRead(files[k], base64Data);
      RaisesOfRead(files[k], base64Data);
      if base64Data.Some? && base64Data.value.base64Data != [] && files[k].publishRaises {
        completed := false;
      } else {
        PublishedStep(files, k);
        if base64Data.Some? && base64Data.value.base64Data != [] {
          published := published + [MessageFor(imagePath, base64Data.value.base64Data)];
        }
        NoRaiseExtends(files, k);
        k := k + 1;
      }
    }
    AttemptedIs(files, k);
    if completed {
      assert files[..k] == files;
    }
  }

  lemma RaisesOfRead(f: ImageFile, r: Option<EncodedImage>)
    requires r == ReadImageToBase64(f.path, f.contents)
    ensures Raises(f) <==> r.Some? && r.value.base64Data != [] && f.publishRaises
  {
  }

  lemma NoRaiseExtends(files: seq<ImageFile>, k: nat)
    requires k < |files| && !Raises(files[k])
    requires forall i :: 0 <= i < k ==> !Raises(files[i])
    ensures forall i :: 0 <= i < k + 1 ==> !Raises(files[i])
  {
  }

  lemma PublishedStep(files: seq<ImageFile>, k: nat)
    requires k < |files|
    ensures Published(files[..k + 1]) == Published(files[..k]) + PublishStep(files[k])
  {
    assert files[..k + 1][..k] == files[..k];
  }

  lemma AttemptedIs(files: seq<ImageFile>, k: nat)
    requires k <= |files| && forall i :: 0 <= i < k ==> !Raises(files[i])
    requires k < |files| ==> Raises(files[k])
    ensures Attempted(files) == k
  {
  }
}
